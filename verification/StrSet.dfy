/** The string interner of strset.c.

Keys of the lookup index are offsets into the string data, and its hash and
equality functions read the strings found there.  A probe string is written
behind the live data before it is looked up, so what makes the index work is
that nothing the live offsets denote ever changes. */
module StrSets {
  import opened Words
  import opened HashMaps
  import opened Mem

  type Byte = x: int | 0 <= x < 0x100

  type CString = s: seq<Byte> | 0 !in s

  /** The NUL-terminated string at an offset. */
  function StrAt(data: seq<Byte>, off: nat): CString
    decreases |data| - off
  {
    if off >= |data| || data[off] == 0 then [] else [data[off]] + StrAt(data, off + 1)
  }

  /** One byte as the `char` that `str_hash` adds: signed, and widened to 64 bits. */
  function CharValue(c: Byte): u64 {
    if c < 0x80 then c else c + 0xffff_ffff_ffff_ff00
  }

  /** `str_hash`, computed from the front. */
  function StrHash(s: seq<Byte>, h: u64 := 0): u64 {
    if s == [] then h else StrHash(s[1..], Wrap64(h * 31 + CharValue(s[0])))
  }

  /** The loop of `str_hash`. */
  method StrHashLoop(s: seq<Byte>) returns (h: u64)
    ensures h == StrHash(s)
  {
    h := 0;
    var i := 0;
    while i < |s|
      invariant 0 <= i <= |s| && StrHash(s) == StrHash(s[i..], h)
    {
      h := Wrap64(h * 31 + CharValue(s[i]));
      i := i + 1;
    }
  }

  /** `strset_hash_fn` and `strset_equal_fn`: the context is the current string data. */
  function HashAt(key: nat, data: seq<Byte>): u64 { StrHash(StrAt(data, key)) }

  predicate EqualAt(k1: nat, k2: nat, data: seq<Byte>) { StrAt(data, k1) == StrAt(data, k2) }

  predicate Terminated(live: seq<Byte>) { live == [] || live[|live| - 1] == 0 }

  /** What an offset into terminated live data denotes depends on the live data only. */
  lemma {:induction false} LiveStringsAreStable(live: seq<Byte>, data: seq<Byte>, off: nat)
    requires Terminated(live) && live <= data && off < |live|
    ensures StrAt(data, off) == StrAt(live, off)
    decreases |live| - off
  {
    if live[off] != 0 {
      LiveStringsAreStable(live, data, off + 1);
    }
  }

  lemma {:induction false} ProbeIsRead(data: seq<Byte>, off: nat, s: CString)
    requires off + |s| < |data| && data[off..off + |s|] == s && data[off + |s|] == 0
    ensures StrAt(data, off) == s
    decreases |s|
  {
    if s != [] {
      assert data[off] == data[off..off + |s|][0] == s[0];
      assert data[off + 1..off + 1 + |s[1..]|] == s[1..];
      ProbeIsRead(data, off + 1, s[1..]);
    }
  }

  lemma {:induction false} StringEnds(live: seq<Byte>, off: nat)
    requires Terminated(live) && off < |live|
    ensures var n := |StrAt(live, off)|;
            off + n < |live| && live[off + n] == 0 && forall i :: off <= i < off + n ==> live[i] != 0
    decreases |live| - off
  {
    if live[off] != 0 {
      StringEnds(live, off + 1);
    }
  }

  /** A string starts at the beginning of the data and after each terminator. */
  predicate IsStart(live: seq<Byte>, o: nat) {
    o < |live| && (o == 0 || live[o - 1] == 0)
  }

  // ---- what interning promises, independently of how it is done ----

  /** The live string data and the offsets handed out. */
  datatype Interned = Interned(live: seq<Byte>, offs: set<nat>)

  ghost predicate Wf(st: Interned) {
    && Terminated(st.live)
    && (forall o :: o in st.offs ==> o < |st.live|)
    && (forall o, p :: o in st.offs && p in st.offs && StrAt(st.live, o) == StrAt(st.live, p) ==> o == p)
  }

  ghost predicate Has(st: Interned, s: CString) {
    exists o :: o in st.offs && StrAt(st.live, o) == s
  }

  lemma KeepsHaving(st: Interned, st': Interned)
    requires st'.live == st.live && st.offs <= st'.offs
    ensures forall s :: Has(st, s) ==> Has(st', s)
  {
  }

  /** The strings that start before off are indexed, and nothing but string starts is. */
  ghost predicate IndexedUpto(st: Interned, off: nat) {
    (forall o: nat :: o in st.offs ==> IsStart(st.live, o))
    && (forall o: nat :: IsStart(st.live, o) && o < off ==> Has(st, StrAt(st.live, o)))
  }

  lemma HasNonEmpty(st: Interned, s: CString)
    requires Has(st, s)
    ensures st.offs != {}
  {
  }

  lemma NothingIndexed(live: seq<Byte>)
    ensures IndexedUpto(Interned(live, {}), 0) && (live != [] ==> IsStart(live, 0))
  {
  }

  lemma IndexedNext(st: Interned, st': Interned, off: nat)
    requires Terminated(st.live) && IndexedUpto(st, off) && off < |st.live| && IsStart(st.live, off)
    requires st'.live == st.live && st.offs <= st'.offs <= st.offs + {off} && Has(st', StrAt(st.live, off))
    ensures var next := off + |StrAt(st.live, off)| + 1;
            IndexedUpto(st', next) && (next < |st.live| ==> IsStart(st.live, next))
  {
    StringEnds(st.live, off);
    KeepsHaving(st, st');
  }

  ghost function OffsetOf(st: Interned, s: CString): nat
    requires Has(st, s)
  {
    var o :| o in st.offs && StrAt(st.live, o) == s; o
  }

  lemma OffsetDenotes(st: Interned, s: CString)
    requires Wf(st)
    ensures Has(st, s) ==> OffsetOf(st, s) < |st.live| && StrAt(st.live, OffsetOf(st, s)) == s
  {
  }

  ghost function Intern(st: Interned, s: CString): (Interned, nat) {
    if Has(st, s) then (st, OffsetOf(st, s))
    else (Interned(st.live + s + [0], st.offs + {|st.live|}), |st.live|)
  }

  lemma InternCases(st: Interned, s: CString)
    ensures Intern(st, s) == if Has(st, s) then (st, OffsetOf(st, s))
                             else (Interned(st.live + s + [0], st.offs + {|st.live|}), |st.live|)
  {
  }

  /** Adding a string: the offset returned denotes it, and every earlier offset what it did. */
  lemma InternKeepsStrings(st: Interned, s: CString)
    requires Wf(st)
    ensures var (st', off) := Intern(st, s);
            && Wf(st') && st.live <= st'.live && st.offs <= st'.offs
            && off in st'.offs && StrAt(st'.live, off) == s
            && forall o: nat :: o < |st.live| ==> StrAt(st'.live, o) == StrAt(st.live, o)
  {
    var (st', off) := Intern(st, s);
    forall o: nat | o < |st.live|
      ensures StrAt(st'.live, o) == StrAt(st.live, o)
    {
      LiveStringsAreStable(st.live, st'.live, o);
    }
    if !Has(st, s) {
      var n := |st.live|;
      assert st'.live[n..n + |s|] == s;
      ProbeIsRead(st'.live, n, s);
    }
  }

  /** The offsets are documented as positive; 0 is returned exactly for the string that the
      data starts with and, if there is no data yet, for any. */
  lemma ZeroIsReturned(st: Interned, s: CString)
    requires Wf(st)
    ensures Intern(st, s).1 == 0 <==> st.live == [] || (0 in st.offs && StrAt(st.live, 0) == s)
  {
    hide StrAt;
  }

  // ---- runs ----

  datatype Call = AddCall(str: CString) | FindCall(str: CString)

  /** One call: the new state and what it returns.  A call may be refused for want of memory. */
  ghost function Step(st: Interned, call: Call, refused: bool): (Interned, int) {
    if refused then (st, ENOMEM)
    else match call
      case AddCall(s) => Intern(st, s)
      case FindCall(s) => (st, if Has(st, s) then OffsetOf(st, s) else ENOENT)
  }

  /** Any calls, some of them refused. */
  ghost function Run(st: Interned, calls: seq<Call>, refused: seq<bool>): (Interned, seq<int>)
    requires |refused| == |calls|
  {
    if calls == [] then (st, [])
    else
      var n := |calls| - 1;
      var (before, offs) := Run(st, calls[..n], refused[..n]);
      var (after, off) := Step(before, calls[n], refused[n]);
      (after, offs + [off])
  }

  lemma HasAfterIntern(st: Interned, s: CString)
    requires Wf(st)
    ensures forall t :: Has(Intern(st, s).0, t) <==> Has(st, t) || t == s
  {
    hide StrAt;
    InternKeepsStrings(st, s);
    var st' := Intern(st, s).0;
    forall t
      ensures Has(st', t) <==> Has(st, t) || t == s
    {
      if Has(st, t) {
        var o :| o in st.offs && StrAt(st.live, o) == t;
        assert StrAt(st'.live, o) == t;
      }
    }
  }

  lemma StepKeepsStrings(st: Interned, call: Call, refused: bool)
    requires Wf(st)
    ensures var (st', off) := Step(st, call, refused);
            && Wf(st') && st.live <= st'.live && st.offs <= st'.offs
            && (off < 0 ==> st' == st)
            && (off >= 0 ==> off in st'.offs && StrAt(st'.live, off) == call.str)
            && (off == ENOENT <==> !refused && call.FindCall? && !Has(st, call.str))
            && (off == ENOMEM <==> refused) && (off >= 0 || off == ENOMEM || off == ENOENT)
            && (off >= 0 && call.FindCall? ==> Has(st, call.str))
            && (forall s :: Has(st', s) <==> Has(st, s) || (off >= 0 && call == AddCall(s)))
            && (forall o: nat :: o < |st.live| || o in st.offs ==> StrAt(st'.live, o) == StrAt(st.live, o))
            && forall o :: o in st'.offs && StrAt(st'.live, o) == call.str && off >= 0 ==> o == off
  {
    hide StrAt;
    InternKeepsStrings(st, call.str);
    HasAfterIntern(st, call.str);
    OffsetDenotes(st, call.str);
  }

  /** Some earlier call has added the string. */
  ghost predicate Added(calls: seq<Call>, offs: seq<int>, n: nat, s: CString)
    requires n <= |calls| == |offs|
  {
    exists i :: 0 <= i < n && calls[i] == AddCall(s) && offs[i] >= 0
  }

  lemma AddedNext(calls: seq<Call>, offs: seq<int>, n: nat, off: int)
    requires n + 1 == |calls| && n == |offs|
    ensures forall j, s :: 0 <= j <= n ==>
              (Added(calls[..n], offs, j, s) <==> Added(calls, offs + [off], j, s))
    ensures forall s :: Added(calls, offs + [off], n + 1, s)
                        <==> Added(calls[..n], offs, n, s) || (calls[n] == AddCall(s) && off >= 0)
  {
    var offs' := offs + [off];
    forall j, s | 0 <= j <= n
      ensures Added(calls[..n], offs, j, s) <==> Added(calls, offs', j, s)
    {
      if i :| 0 <= i < j && calls[..n][i] == AddCall(s) && offs[i] >= 0 {
        assert calls[i] == AddCall(s) && offs'[i] >= 0;
      }
      if i :| 0 <= i < j && calls[i] == AddCall(s) && offs'[i] >= 0 {
        assert calls[..n][i] == AddCall(s) && offs[i] >= 0;
      }
    }
    forall s
      ensures Added(calls, offs', n + 1, s) <==> Added(calls[..n], offs, n, s) || (calls[n] == AddCall(s) && off >= 0)
    {
      assert Added(calls[..n], offs, n, s) <==> Added(calls, offs', n, s);
      if calls[n] == AddCall(s) && off >= 0 {
        assert calls[n] == AddCall(s) && offs'[n] >= 0;
      }
    }
  }

  /** Over any run: what the set has is what it had and what has been added, and a search that is
      not refused finds its string exactly if it was there or has been added before. */
  lemma {:induction false} RunFindsWhatWasAdded(st: Interned, calls: seq<Call>, refused: seq<bool>)
    requires Wf(st) && |refused| == |calls|
    ensures var (st', offs) := Run(st, calls, refused);
            && Wf(st') && |offs| == |calls|
            && (forall s :: Has(st', s) <==> Has(st, s) || Added(calls, offs, |calls|, s))
            && (forall j :: 0 <= j < |calls| && calls[j].FindCall? && !refused[j] ==>
                  (offs[j] >= 0 <==> Has(st, calls[j].str) || Added(calls, offs, j, calls[j].str)))
    decreases |calls|
  {
    hide StrAt, Step, Has, Wf, Added;
    if calls == [] {
      NothingAdded(calls, [], 0);
    } else {
      var n := |calls| - 1;
      RunFindsWhatWasAdded(st, calls[..n], refused[..n]);
      var (before, offs) := Run(st, calls[..n], refused[..n]);
      StepKeepsStrings(before, calls[n], refused[n]);
      var off := Step(before, calls[n], refused[n]).1;
      AddedNext(calls, offs, n, off);
      var offs' := offs + [off];
      forall j | 0 <= j < |calls| && calls[j].FindCall? && !refused[j]
        ensures offs'[j] >= 0 <==> Has(st, calls[j].str) || Added(calls, offs', j, calls[j].str)
      {
        if j < n {
          assert calls[..n][j] == calls[j] && refused[..n][j] == refused[j];
        } else {
          assert off >= 0 <==> Has(before, calls[n].str);
        }
      }
    }
  }

  lemma NothingAdded(calls: seq<Call>, offs: seq<int>, n: nat)
    requires n == 0 && |calls| == |offs|
    ensures forall s :: !Added(calls, offs, n, s)
  {
  }

  /** Over any run of additions, searches and refused calls, every offset returned stays valid
      and keeps denoting its string; two of them are equal exactly when the strings are; and a
      search fails only if no earlier call returned an offset for its string. */
  lemma {:induction false} RunInterns(st: Interned, calls: seq<Call>, refused: seq<bool>)
    requires Wf(st) && |refused| == |calls|
    ensures var (st', offs) := Run(st, calls, refused);
            && Wf(st') && st.live <= st'.live && st.offs <= st'.offs && |offs| == |calls|
            && (forall o: nat :: o < |st.live| ==> StrAt(st'.live, o) == StrAt(st.live, o))
            && (forall i :: 0 <= i < |calls| && offs[i] >= 0 ==>
                  offs[i] in st'.offs && StrAt(st'.live, offs[i]) == calls[i].str)
            && (forall i, j :: 0 <= i < |calls| && 0 <= j < |calls| && offs[i] >= 0 && offs[j] >= 0 ==>
                  (offs[i] == offs[j] <==> calls[i].str == calls[j].str))
            && (forall i, j :: 0 <= i < j < |calls| && offs[i] >= 0 && calls[i].str == calls[j].str ==>
                 offs[j] != ENOENT)
            && (forall i :: 0 <= i < |calls| ==> (offs[i] == ENOMEM <==> refused[i]))
    decreases |calls|
  {
    hide StrAt, Step, Has, Wf;
    if calls != [] {
      var n := |calls| - 1;
      RunInterns(st, calls[..n], refused[..n]);
      var (before, offs) := Run(st, calls[..n], refused[..n]);
      StepKeepsStrings(before, calls[n], refused[n]);
      HasWhatWasReturned(before, calls[..n], offs, calls[n].str);
    }
  }

  lemma HasWhatWasReturned(st: Interned, calls: seq<Call>, offs: seq<int>, s: CString)
    requires |offs| == |calls|
    requires forall i :: 0 <= i < |calls| && offs[i] >= 0 ==>
               offs[i] in st.offs && StrAt(st.live, offs[i]) == calls[i].str
    ensures forall i :: 0 <= i < |calls| && offs[i] >= 0 && calls[i].str == s ==> Has(st, s)
  {
  }

  // ---- the room that strings take ----

  ghost predicate NoneTwice(strs: seq<CString>) {
    forall i, j :: 0 <= i < j < |strs| ==> strs[i] != strs[j]
  }

  /** How many bytes these strings take, with their terminators. */
  ghost function Room(strs: seq<CString>): nat {
    if strs == [] then 0 else Room(strs[..|strs| - 1]) + |strs[|strs| - 1]| + 1
  }

  /** Some of these strings, each once and none that the set has. */
  ghost predicate Addable(st: Interned, names: iset<CString>, added: seq<CString>) {
    NoneTwice(added) && forall i :: 0 <= i < |added| ==> added[i] in names && !Has(st, added[i])
  }

  /** Whatever of these strings have been added, a probe with another of them still fits. */
  ghost predicate RoomForAll(st: Interned, names: iset<CString>, limit: nat) {
    forall added, s: CString :: Addable(st, names, added) && s in names ==>
      |st.live| + Room(added) + |s| + 1 <= limit
  }

  /** So there is room for the next one, and afterwards for the others. */
  lemma RoomStays(st: Interned, names: iset<CString>, limit: nat, s: CString)
    requires Wf(st) && RoomForAll(st, names, limit) && s in names
    ensures |st.live| + |s| + 1 <= limit && RoomForAll(Intern(st, s).0, names, limit)
  {
    hide StrAt, Has;
    var none: seq<CString> := [];
    assert Addable(st, names, none) && Room(none) == 0;
    HasAfterIntern(st, s);
    var st' := Intern(st, s).0;
    if !Has(st, s) {
      forall added, t: CString | Addable(st', names, added) && t in names
        ensures |st'.live| + Room(added) + |t| + 1 <= limit
      {
        var more := [s] + added;
        RoomOfMore(s, added);
        assert Addable(st, names, more);
      }
    }
  }

  lemma {:induction false} RoomOfMore(s: CString, added: seq<CString>)
    ensures Room([s] + added) == |s| + 1 + Room(added)
    decreases |added|
  {
    var all := [s] + added;
    if added == [] {
      assert all[..0] == [];
    } else {
      assert all[..|added|] == [s] + added[..|added| - 1];
      RoomOfMore(s, added[..|added| - 1]);
    }
  }

  lemma {:induction false} RoomWithout(all: seq<CString>, i: nat)
    requires i < |all|
    ensures Room(all) == Room(all[..i] + all[i + 1..]) + |all[i]| + 1
    decreases |all|
  {
    var n := |all| - 1;
    if i == n {
      assert all[..i] + all[i + 1..] == all[..n];
    } else {
      var rest := all[..i] + all[i + 1..];
      RoomWithout(all[..n], i);
      assert rest[..n - 1] == all[..n][..i] + all[..n][i + 1..];
    }
  }

  lemma {:induction false} RoomOfPart(part: seq<CString>, all: seq<CString>)
    requires NoneTwice(part) && NoneTwice(all) && forall i :: 0 <= i < |part| ==> part[i] in all
    ensures Room(part) <= Room(all)
    decreases |part|
  {
    if part != [] {
      var n := |part| - 1;
      var i :| 0 <= i < |all| && all[i] == part[n];
      var rest := all[..i] + all[i + 1..];
      RoomWithout(all, i);
      forall j | 0 <= j < n
        ensures part[..n][j] in rest
      {
        var k :| 0 <= k < |all| && all[k] == part[j];
        assert k != i && all[k] in rest by { assert if k < i then rest[k] == all[k] else rest[k - 1] == all[k]; }
      }
      RoomOfPart(part[..n], rest);
    }
  }

  /** It takes room for all that the set does not have, and for a probe with the longest. */
  lemma RoomForAllExactly(st: Interned, names: iset<CString>, limit: nat, all: seq<CString>)
    requires Addable(st, names, all) && forall s :: s in names ==> Has(st, s) || s in all
    ensures RoomForAll(st, names, limit)
            <==> forall s: CString :: s in names ==> |st.live| + Room(all) + |s| + 1 <= limit
  {
    hide Has, Room;
    if forall s: CString :: s in names ==> |st.live| + Room(all) + |s| + 1 <= limit {
      forall added, s: CString | Addable(st, names, added) && s in names
        ensures |st.live| + Room(added) + |s| + 1 <= limit
      {
        RoomOfPart(added, all);
      }
    }
  }

  lemma WfExtends(st: Interned, off: nat)
    requires Wf(st) && off < |st.live| && forall o :: o in st.offs ==> StrAt(st.live, o) != StrAt(st.live, off)
    ensures Wf(Interned(st.live, st.offs + {off}))
  {
  }

  /** The index holds each offset once, as its own value. */
  ghost predicate HoldsOffs(contents: multiset<Entry<nat, nat>>, offs: set<nat>) {
    && (forall e :: e in contents <==> e.key in offs && e.value == e.key)
    && forall e :: e in contents ==> contents[e] == 1
  }

  lemma HeldIsCounted(contents: multiset<Entry<nat, nat>>, offs: set<nat>, n: nat)
    requires HoldsOffs(contents, offs) && forall o :: o in offs ==> o < n
    ensures |contents| <= n
  {
    AtMost(contents, (e: Entry<nat, nat>) => e.key, n);
  }

  lemma OneMoreHeld(before: multiset<Entry<nat, nat>>, after: multiset<Entry<nat, nat>>, offs: set<nat>, off: nat)
    requires HoldsOffs(before, offs) && after == before + multiset{Entry(off, off)} && off !in offs
    ensures HoldsOffs(after, offs + {off})
  {
  }

  // ---- the set itself ----

  class StrSet {
    /** The allocated data, of `strs_data_cap` bytes; the first len are live. */
    var data: seq<Byte>
    var len: nat
    const maxLen: nat
    const hash: HashMap<nat, nat, seq<Byte>>

    ghost var offs: set<nat>

    ghost predicate Valid()
      reads this, hash
    {
      && len <= |data| && Wf(State())
      && (forall k, d :: hash.hashFn(k, d) == HashAt(k, d))
      && (forall a, b, d :: hash.equalFn(a, b, d) <==> EqualAt(a, b, d))
      && hash.Valid(data)
      && HoldsOffs(hash.Contents(), offs)
    }

    ghost function State(): Interned
      reads this
      requires len <= |data|
    {
      Interned(data[..len], offs)
    }

    /** The most bytes there can be. */
    function Limit(): nat
      reads this
    {
      if |data| > maxLen then |data| else maxLen
    }

    /** A probe with this string fits behind the live data. */
    predicate Fits(s: CString)
      reads this
    {
      len + |s| + 1 <= Limit()
    }

    lemma RoomInIndex()
      requires Valid() && Limit() < MANY
      ensures !hash.Full() && forall s: CString :: Fits(s) <==> |State().live| + |s| + 1 <= Limit()
    {
      hide HashMap.Valid, HashMap.Full, Wf, HoldsOffs;
      IndexMayGrow();
    }

    /** The index can always take another offset. */
    lemma IndexMayGrow()
      requires Valid() && len < MANY
      ensures !hash.Full()
    {
      HeldIsCounted(hash.Contents(), offs, len);
      hide HoldsOffs, HashMap.AtHome, HashMap.Contents;
      if hash.Full() { hash.FullHoldsMany(); }
    }

    constructor Empty(maxLen: nat)
      ensures Valid() && State() == Interned([], {}) && data == [] && this.maxLen == maxLen && fresh(hash)
    {
      data, len := [], 0;
      offs := {};
      this.maxLen := maxLen;
      hash := new HashMap(HashAt, EqualAt);
    }

    /** The indexing loop of `strset__new`: every string of the initial data is in the set, each
        under one offset. */
    method Load(init: seq<Byte>) returns (err: int)
      requires Valid() && State() == Interned([], {}) && Terminated(init)
      modifies this, hash
      ensures err == 0 || err == ENOMEM
      ensures |init| < MANY ==> err == 0
      ensures err == 0 ==> Valid() && State().live == init
      ensures err == 0 ==> IndexedUpto(State(), |init|) && (init != [] ==> 0 in offs)
    {
      hide HashMap.Valid, HashMap.Contents, HoldsOffs, StrAt, Terminated, IsStart, Has;
      NothingHeld();
      data, len := init, |init|;
      assert data[..len] == init;
      hash.ContextOnlyMattersForHeldKeys(old(data), data);
      NothingIndexed(init);
      var off := 0;
      while off < len
        invariant off <= len && data == init && len == |init| && Valid() && State().live == init
        invariant off < len ==> IsStart(init, off)
        invariant IndexedUpto(State(), off) && (off == 0 ==> offs == {}) && (off > 0 ==> 0 in offs)
        decreases len - off
      {
        StringEnds(init, off);
        ghost var st := State();
        if |init| < MANY { IndexMayGrow(); }
        err := IndexString(off);
        if err != 0 { return; }
        IndexedNext(st, State(), off);
        if off == 0 { HasNonEmpty(State(), StrAt(init, 0)); }
        off := off + |StrAt(data, off)| + 1;
      }
      err := 0;
    }

    /** One `hashmap__add` of the loop: a string already in the set is skipped. */
    method IndexString(off: nat) returns (err: int)
      requires Valid() && off < len
      modifies this`offs, hash
      ensures err == 0 || (err == ENOMEM && old(hash.Full()))
      ensures err == 0 ==> Valid() && Has(State(), StrAt(State().live, off))
      ensures old(offs) <= offs <= old(offs) + {off}
    {
      hide HashMap.Valid, HashMap.Contents, HashMap.KeyChain, HashMap.Holds, HashMap.Lawful, StrAt, Wf;
      IndexIsLawful();
      StablyHeld();
      NewOffsetKeepsWf(off);
      if off in offs { HeldOffset(off); }
      ghost var held := hash.Contents();
      var was;
      err, was := hash.Insert(off, off, Strategy.Add, data);
      if err == 0 {
        OneMoreHeld(held, hash.Contents(), offs, off);
        offs := offs + {off};
      } else if err == EEXIST {
        assert was.value.key in offs;
        err := 0;
      }
    }

    lemma LenIsNew()
      requires Valid()
      ensures len !in offs
    {
    }

    lemma HeldOffset(off: nat)
      requires Valid() && off in offs
      ensures hash.Holds(off, data)
    {
      var e: Entry<nat, nat> := Entry(off, off);
      assert e in hash.Contents() && hash.equalFn(e.key, off, data);
    }

    lemma NewOffsetKeepsWf(off: nat)
      requires Valid() && off < len
      ensures StrAt(data, off) == StrAt(data[..len], off)
      ensures !hash.Holds(off, data) ==> Wf(Interned(data[..len], offs + {off}))
    {
      hide HashMap.Valid;
      LiveStringsAreStable(data[..len], data, off);
      if !hash.Holds(off, data) {
        forall o | o in offs
          ensures StrAt(data[..len], o) != StrAt(data[..len], off)
        {
          UnheldDiffers(off, o);
        }
        WfExtends(State(), off);
      }
    }

    lemma UnheldDiffers(off: nat, o: nat)
      requires Valid() && o in offs && !hash.Holds(off, data)
      ensures StrAt(data[..len], o) != StrAt(data, off)
    {
      StablyHeld();
      var e: Entry<nat, nat> := Entry(o, o);
      assert e in hash.Contents();
      assert !hash.equalFn(e.key, off, data);
    }

    lemma StablyHeld()
      requires Valid()
      ensures forall k :: k in offs ==> StrAt(data, k) == StrAt(data[..len], k)
    {
      forall k | k in offs
        ensures StrAt(data, k) == StrAt(data[..len], k)
      {
        LiveStringsAreStable(data[..len], data, k);
      }
    }

    lemma NothingHeld()
      requires Valid() && offs == {}
      ensures hash.Contents() == multiset{}
    {
    }

    lemma IndexIsLawful()
      requires Valid()
      ensures hash.Lawful(data)
    {
    }

    /** `strset_add_str_mem`. */
    method EnsureMem(addSz: nat) returns (ok: bool)
      requires len <= |data|
      modifies this`data
      ensures ok ==> len + addSz <= |data|
      ensures old(data) <= data
      ensures !ok <==> len + addSz > |old(data)| && len + addSz > maxLen
      ensures Limit() == old(Limit())
      ensures |data| == |old(data)| || |data| <= maxLen
    {
      ok, data := AddMem(data, len, maxLen, addSz, 0);
    }

    /** The index depends on the live data only. */
    lemma IndexReadsLiveData(before: seq<Byte>, after: seq<Byte>)
      requires len <= |before| && len <= |after| && before[..len] == after[..len] && Wf(Interned(before[..len], offs))
      requires forall k, d :: hash.hashFn(k, d) == HashAt(k, d)
      requires HoldsOffs(hash.Contents(), offs) && hash.Valid(before)
      ensures hash.Valid(after)
    {
      hide HashMap.Valid, HashMap.Contents, StrAt;
      forall e | e in hash.Contents()
        ensures hash.hashFn(e.key, before) == hash.hashFn(e.key, after)
      {
        LiveStringsAreStable(before[..len], before, e.key);
        LiveStringsAreStable(before[..len], after, e.key);
      }
      hash.ContextOnlyMattersForHeldKeys(before, after);
    }

    /** Writing a probe behind the live data changes nothing the index can see. */
    method WriteProbe(s: CString) returns (ok: bool)
      requires Valid()
      modifies this`data
      ensures Valid() && State() == old(State()) && (|data| == |old(data)| || |data| <= maxLen)
      ensures (ok <==> old(Fits(s))) && Limit() == old(Limit())
      ensures ok ==> len + |s| < |data| && data[len..len + |s| + 1] == s + [0] && StrAt(data, len) == s
      ensures ok ==> forall k :: k in offs ==> StrAt(data, k) == StrAt(State().live, k)
    {
      hide HashMap.Valid, HashMap.Contents, HoldsOffs, StrAt;
      ok := EnsureMem(|s| + 1);
      if ok {
        data := data[..len] + s + [0] + data[len + |s| + 1..];
        assert data[len..len + |s|] == s;
        ProbeIsRead(data, len, s);
      }
      assert data[..len] == old(data[..len]);
      IndexReadsLiveData(old(data), data);
      forall k | k in offs
        ensures StrAt(data, k) == StrAt(data[..len], k)
      {
        LiveStringsAreStable(data[..len], data, k);
      }
    }

    /** Whether the index holds an equal key is whether the set has the string. */
    lemma HoldsIsHas(s: CString)
      requires Valid() && StrAt(data, len) == s
      requires forall k :: k in offs ==> StrAt(data, k) == StrAt(State().live, k)
      ensures hash.Holds(len, data) <==> Has(State(), s)
      ensures forall e :: e in hash.Contents() && hash.equalFn(e.key, len, data) ==>
                Has(State(), s) && e.value == e.key == OffsetOf(State(), s)
    {
      if Has(State(), s) {
        var o :| o in offs && StrAt(State().live, o) == s;
        var e: Entry<nat, nat> := Entry(o, o);
        assert e in hash.Contents() && hash.equalFn(e.key, len, data);
      }
    }

    /** `strset__find_str`. */
    method FindStr(s: CString) returns (off: int)
      requires Valid()
      modifies this`data
      ensures Valid() && State() == old(State()) && (|data| == |old(data)| || |data| <= maxLen)
      ensures Limit() == old(Limit()) && (off == ENOMEM <==> !old(Fits(s)))
      ensures off == ENOMEM || off == ENOENT || off >= 0
      ensures off >= 0 ==> Has(State(), s) && off == OffsetOf(State(), s)
      ensures off == ENOENT ==> !Has(State(), s)
    {
      hide HashMap.SizesAgree, HashMap.AtHome, HashMap.KeyChain, StrAt, Wf;
      var ok := WriteProbe(s);
      if !ok { return ENOMEM; }
      IndexIsLawful();
      HoldsIsHas(s);
      var found := hash.Find(len, data);
      off := if found.Some? then found.value else ENOENT;
    }

    /** `strset__add_str`. */
    method AddStr(s: CString) returns (off: int)
      requires Valid()
      modifies this, hash
      ensures Valid() && (off == ENOMEM || off >= 0) && (|data| == |old(data)| || |data| <= maxLen)
      ensures Limit() == old(Limit())
      ensures off == ENOMEM <==> !old(Fits(s)) || (old(hash.Full()) && !old(Has(State(), s)))
      ensures off >= 0 ==> (State(), off) == Intern(old(State()), s)
      ensures off == ENOMEM ==> State() == old(State())
    {
      hide HashMap.Valid, HashMap.Contents, HashMap.Holds, HashMap.Lawful, HashMap.KeyChain, HashMap.Full, HoldsOffs,
        StrAt, Wf, Intern, Has, OffsetOf;
      var ok := WriteProbe(s);
      if !ok { return ENOMEM; }
      IndexIsLawful();
      LenIsNew();
      HoldsIsHas(s);
      InternKeepsStrings(State(), s);
      InternCases(State(), s);
      ghost var held := hash.Contents();
      var err, was := hash.Insert(len, len, Strategy.Add, data);
      if err == EEXIST { return was.value.key; }
      if err != 0 { return err; }
      off := len;
      OneMoreHeld(held, hash.Contents(), offs, len);
      Commit(s);
    }

    /** The end of `strset__add_str`: the probe becomes live. */
    method Commit(s: CString)
      requires len + |s| < |data| && data[len..len + |s| + 1] == s + [0]
      requires Wf(Interned(data[..len] + s + [0], offs + {len}))
      requires forall k, d :: hash.hashFn(k, d) == HashAt(k, d)
      requires forall a, b, d :: hash.equalFn(a, b, d) <==> EqualAt(a, b, d)
      requires hash.Valid(data)
      requires HoldsOffs(hash.Contents(), offs + {len})
      modifies this`offs, this`len
      ensures Valid() && State() == Interned(old(data[..len]) + s + [0], old(offs) + {old(len)})
      ensures Limit() == old(Limit())
    {
      hide Wf, HashMap.Valid, HashMap.Contents, StrAt;
      ghost var live := data[..len];
      offs := offs + {len};
      len := len + |s| + 1;
      assert data[..len] == live + (s + [0]) == live + s + [0];
    }
  }

  /** A call of a run is refused exactly if its string, probed behind the live data, goes beyond the limit. */
  ghost predicate RefusedForSpace(st: Interned, calls: seq<Call>, refused: seq<bool>, limit: nat) {
    |refused| == |calls| && forall i :: 0 <= i < |calls| ==>
      (refused[i] <==> |Run(st, calls[..i], refused[..i]).0.live| + |calls[i].str| + 1 > limit)
  }

  lemma NothingRefused(st: Interned, limit: nat)
    ensures RefusedForSpace(st, [], [], limit)
  {
  }

  lemma RefusedNext(st: Interned, calls: seq<Call>, refused: seq<bool>, limit: nat, i: nat, no: bool)
    requires i < |calls| && |refused| == i
    requires no <==> |Run(st, calls[..i], refused).0.live| + |calls[i].str| + 1 > limit
    ensures RefusedForSpace(st, calls[..i], refused, limit) ==>
              RefusedForSpace(st, calls[..i + 1], refused + [no], limit)
  {
    hide Run;
    forall j | 0 <= j <= i
      ensures calls[..i + 1][..j] == calls[..j] && (refused + [no])[..j] == refused[..j]
      ensures j < i ==> calls[..i][..j] == calls[..j]
    {
    }
    assert refused[..i] == refused;
  }

  /** One call does what a step does, and is refused for space only. */
  method OneCall(strs: StrSet, call: Call) returns (off: int)
    requires strs.Valid()
    modifies strs, strs.hash
    ensures strs.Valid() && strs.Limit() == old(strs.Limit())
    ensures (strs.State(), off) == Step(old(strs.State()), call, off == ENOMEM)
    ensures old(strs.Limit()) < MANY ==>
              (off == ENOMEM <==> |old(strs.State()).live| + |call.str| + 1 > old(strs.Limit()))
  {
    hide HashMap.Valid, HashMap.Contents, HashMap.Full, HoldsOffs, Wf, Intern, Has, OffsetOf, StrSet.Limit;
    if strs.Limit() < MANY { strs.RoomInIndex(); }
    match call {
      case AddCall(s) => off := strs.AddStr(s);
      case FindCall(s) => off := strs.FindStr(s);
    }
  }

  /** The set behaves as the runs above say. */
  method Calls(strs: StrSet, calls: seq<Call>) returns (offs: seq<int>, ghost refused: seq<bool>)
    requires strs.Valid()
    modifies strs, strs.hash
    ensures strs.Valid() && |refused| == |calls| && (strs.State(), offs) == Run(old(strs.State()), calls, refused)
    ensures old(strs.Limit()) < MANY ==> RefusedForSpace(old(strs.State()), calls, refused, old(strs.Limit()))
  {
    hide HashMap.Valid, HashMap.Contents, HashMap.Full, HoldsOffs, Wf, Step, RefusedForSpace, StrSet.Limit;
    offs, refused := [], [];
    ghost var start, limit := strs.State(), strs.Limit();
    NothingRefused(start, limit);
    for i := 0 to |calls|
      invariant strs.Valid() && |refused| == i && (strs.State(), offs) == Run(start, calls[..i], refused)
      invariant strs.Limit() == limit && (limit < MANY ==> RefusedForSpace(start, calls[..i], refused, limit))
    {
      ghost var before := strs.State();
      RefusedNext(start, calls, refused, limit, i, |before.live| + |calls[i].str| + 1 > limit);
      var off := OneCall(strs, calls[i]);
      assert calls[..i + 1][..i] == calls[..i] && (refused + [off == ENOMEM])[..i] == refused;
      offs, refused := offs + [off], refused + [off == ENOMEM];
    }
    assert calls[..|calls|] == calls;
  }
}
