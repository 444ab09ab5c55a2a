/** `btf__add_btf`: appending all types of one instance to another (btf.c, lines 1550-1735). */
module AddBtf {
  import opened BtfTypes
  import opened BtfGraph
  import opened BtfTable
  import opened BtfNames
  import opened StrSets
  import opened HashMaps
  import opened Seqs
  import opened Mem

  const ENOTSUP := -95

  const MAX_STR_OFFSET := 0x7fff_ffff

  /** The strings of an instance: those of its base, if it has one, and its own set. */
  ghost predicate Bounded(s: StrSet)
    reads s
  {
    s.maxLen <= MAX_STR_OFFSET && |s.data| <= MAX_STR_OFFSET + 1
  }

  class BtfStrs {
    const base: StrSet?
    var strsSet: StrSet
    /** `strs_deduped` */
    var strsDeduped: bool

    constructor (base: StrSet?, own: StrSet, deduped: bool)
      ensures this.base == base && strsSet == own && strsDeduped == deduped
    {
      this.base, strsSet, strsDeduped := base, own, deduped;
    }

    ghost function Repr(): set<object>
      reads this
    {
      {strsSet, strsSet.hash} + if base == null then {} else {base, base.hash}
    }

    ghost predicate Valid()
      reads this, Repr()
    {
      && strsSet.Valid() && Bounded(strsSet)
      && (base != null ==> base.Valid() && Bounded(base) && base != strsSet && base.hash != strsSet.hash)
    }

    ghost function State(): Strs
      requires Valid()
      reads this, Repr()
    {
      Strs(if base == null then [] else base.State().live, strsSet.State().live)
    }

    /** Of these strings, those that the base does not have. */
    ghost function Missing(names: iset<CString>): iset<CString>
      requires Valid()
      reads this, Repr()
    {
      iset s | s in names && (base != null ==> !Has(base.State(), s))
    }

    /** How far the own strings may reach: no further than the set may grow, or an `int` counts. */
    ghost function OwnLimit(): nat
      requires Valid()
      reads this, Repr()
    {
      var past := 0x8000_0000 - if base == null then 0 else base.len;
      if strsSet.Limit() < past then strsSet.Limit() else past
    }

    /** Each of these strings can be looked for in the base, and those that are not there added. */
    ghost predicate RoomFor(names: iset<CString>)
      requires Valid()
      reads this, Repr()
    {
      && (base != null ==> forall s :: s in names ==> base.Fits(s))
      && RoomForAll(strsSet.State(), Missing(names), OwnLimit())
    }

    /** So one of them can be, and then the others. */
    lemma RoomForOne(names: iset<CString>, s: CString)
      requires Valid() && RoomFor(names) && s in names
      ensures base != null ==> base.Fits(s)
      ensures (base != null && Has(base.State(), s))
              || (var (st, off) := Intern(strsSet.State(), s);
                  && strsSet.Fits(s) && !strsSet.hash.Full() && RoomForAll(st, Missing(names), OwnLimit())
                  && (if base == null then 0 else base.len) + off <= 0x7fff_ffff)
    {
      hide HashMap.Valid, HashMap.Full, HoldsOffs, StrAt, Has;
      if base == null || !Has(base.State(), s) {
        RoomStays(strsSet.State(), Missing(names), OwnLimit(), s);
        OffsetDenotes(strsSet.State(), s);
        strsSet.IndexMayGrow();
      }
    }

    lemma Sizes()
      requires Valid()
      ensures |State().base| == (if base == null then 0 else base.len) <= 0x8000_0000
      ensures |State().own| <= 0x8000_0000
    {
    }

    lemma GrownRefl()
      requires Valid()
      ensures Grown(State(), State())
    {
    }

    /** The search of `btf__add_str` in the base. */
    method FindInBase(s: CString, ghost names: iset<CString>) returns (off: int)
      requires Valid() && base != null
      modifies base`data
      ensures Valid() && State() == old(State()) && (old(RoomFor(names)) ==> RoomFor(names))
      ensures off == ENOENT <==> old(base.Fits(s)) && !Has(base.State(), s)
      ensures off >= 0 ==> off < |State().base| && StrAt(State().base, off) == s
      ensures old(base.Fits(s)) && Has(base.State(), s) ==> off >= 0
    {
      hide HashMap.Valid, HashMap.Contents, StrAt, Has, OffsetOf, RoomForAll;
      OffsetDenotes(base.State(), s);
      ghost var missing := Missing(names);
      off := base.FindStr(s);
      assert Missing(names) == missing;
    }

    /** Its addition to the own strings. */
    method AddOwn(s: CString, ghost names: iset<CString>) returns (off: int)
      requires Valid()
      modifies strsSet, strsSet.hash
      ensures Valid() && Grown(old(State()), State())
      ensures off == ENOMEM || (0 <= off < |State().own| && StrAt(State().own, off) == s)
      ensures s in names && old(RoomFor(names)) && (base != null ==> !Has(base.State(), s)) ==>
                0 <= |State().base| + off <= 0x7fff_ffff && off >= 0 && RoomFor(names)
    {
      hide HashMap.Valid, HashMap.Contents, HashMap.Full, StrAt, Has, Intern, OffsetOf, RoomForAll;
      if s in names && RoomFor(names) { RoomForOne(names, s); }
      InternKeepsStrings(strsSet.State(), s);
      ghost var missing := Missing(names);
      off := strsSet.AddStr(s);
      assert Missing(names) == missing;
    }

    /** `btf__add_str`: the offset of a string, added if neither the base nor the set has it.
        An offset beyond what an `int` holds comes out negative.  That, or a refusal, does not
        happen to a string among those that there is room for. */
    method AddStr(s: CString, ghost names: iset<CString> := iset{}) returns (off: int)
      requires Valid()
      modifies Repr()
      ensures Valid() && Grown(old(State()), State())
      ensures off <= 0x7fff_ffff
      ensures off >= 0 ==> OffInRange(State(), off) && NameOf(State(), off) == s
      ensures s in names && old(RoomFor(names)) ==> off >= 0 && RoomFor(names)
    {
      hide HashMap.Valid, HashMap.Contents, StrSet.Valid, StrAt, Has, RoomForAll, Missing, OwnLimit;
      if s in names && RoomFor(names) { RoomForOne(names, s); }
      GrownRefl();
      Sizes();
      var startStrOff := 0;
      if base != null {
        off := FindInBase(s, names);
        if off != ENOENT {
          return if off > 0x7fff_ffff then off - 0x1_0000_0000 else off;
        }
        startStrOff := base.len;
      }
      off := AddOwn(s, names);
      Sizes();
      if off < 0 { return; }
      off := startStrOff + off;
      if off > 0x7fff_ffff { off := off - 0x1_0000_0000; }
    }
  }

  // ---- types copied behind the live ones, before they are committed ----

  /** The pending records lie behind the live type data, end to end. */
  ghost predicate Pending(data: seq<u32>, live: nat, recs: seq<Rec>) {
    && live + |Flat(recs)| <= |data|
    && data[live..live + |Flat(recs)|] == Flat(recs)
    && forall i :: 0 <= i < |recs| ==> WfRec(recs[i])
  }

  lemma PendingRead(data: seq<u32>, live: nat, recs: seq<Rec>, i: nat)
    requires Pending(data, live, recs) && i < |recs|
    ensures var t := live + Start(recs, i);
            && t + |recs[i]| <= |data| && data[t..t + |recs[i]|] == recs[i] && data[t + 1] == recs[i][1]
            && SizeOfInfo(data[t + 1]) == |recs[i]|
  {
    PartAt(recs, i);
    var t, n := live + Start(recs, i), |recs[i]|;
    SliceOfSlice(data, live, live + |Flat(recs)|, Start(recs, i), Start(recs, i) + n);
    assert data[t..t + n][1] == data[t + 1];
  }

  lemma PendingWrite(data: seq<u32>, live: nat, recs: seq<Rec>, i: nat, pos: nat, v: u32)
    requires Pending(data, live, recs) && i < |recs| && pos < |recs[i]| && pos != 1
    ensures live + Start(recs, i) + pos < |data|
    ensures var data', recs' := data[live + Start(recs, i) + pos := v], recs[i := recs[i][pos := v]];
            && Pending(data', live, recs') && data'[..live] == data[..live]
            && forall j :: 0 <= j <= |recs| ==> Start(recs', j) == Start(recs, j)
  {
    PendingRead(data, live, recs, i);
    FlatSet(recs, i, pos, v);
    var data', recs' := data[live + Start(recs, i) + pos := v], recs[i := recs[i][pos := v]];
    assert data'[live..live + |Flat(recs')|] == Flat(recs');
    forall j | 0 <= j <= |recs|
      ensures Start(recs', j) == Start(recs, j)
    {
      StartSameLengths(recs', recs, j);
    }
  }

  /** `btf_rewrite_type_ids`: void stays void, every other id moves up by a constant. */
  function Shifted(delta: nat): nat -> nat {
    (id: nat) => if id == 0 then 0 else id + delta
  }

  /** What `btf__add_btf` demands of the instances it is given. */
  ghost predicate Consistent(g: Graph, st: Strs) {
    && |g| > 0 && g[0] == VOID && NamesInRange(g, st) && NameOf(st, 0) == [] && OffInRange(st, 0)
    && (forall id :: 0 < id < |g| ==> WfRec(g[id]))
    && (forall id :: 0 <= id < |g| ==> RefsInRange(g[id], |g|))
  }

  /** The string offsets already carried over, with what they denote there. */
  ghost predicate CacheOk(cache: multiset<Entry<u32, u32>>, src: Strs, st: Strs) {
    forall e :: e in cache ==> OffInRange(st, e.value) && NameOf(st, e.value) == NameOf(src, e.key)
  }

  lemma GrownKeepsCache(cache: multiset<Entry<u32, u32>>, src: Strs, st: Strs, st': Strs)
    requires CacheOk(cache, src, st) && Grown(st, st')
    ensures CacheOk(cache, src, st')
  {
    forall e | e in cache
      ensures OffInRange(st', e.value) && NameOf(st', e.value) == NameOf(src, e.key)
    {
      GrownKeepsNames(st, st', e.value);
    }
  }

  lemma CacheAdds(cache: multiset<Entry<u32, u32>>, src: Strs, st: Strs, key: u32, value: u32)
    requires CacheOk(cache, src, st) && OffInRange(st, value) && NameOf(st, value) == NameOf(src, key)
    ensures CacheOk(cache + multiset{Entry(key, value)}, src, st)
  {
  }

  /** No offset is cached twice. */
  ghost predicate KeysOnce(cache: multiset<Entry<u32, u32>>) {
    && (forall e :: e in cache ==> cache[e] == 1)
    && (forall e, f :: e in cache && f in cache && e.key == f.key ==> e == f)
  }

  lemma KeysOnceNext(cache: multiset<Entry<u32, u32>>, key: u32, value: u32)
    requires KeysOnce(cache) && forall e :: e in cache ==> e.key != key
    ensures KeysOnce(cache + multiset{Entry(key, value)})
  {
  }

  lemma CacheIsSmall(cache: multiset<Entry<u32, u32>>)
    requires KeysOnce(cache)
    ensures |cache| <= 0x1_0000_0000
  {
    AtMost(cache, (e: Entry<u32, u32>) => e.key, 0x1_0000_0000);
  }

  lemma CacheHit(cache: multiset<Entry<u32, u32>>, src: Strs, st: Strs)
    requires CacheOk(cache, src, st)
    ensures forall e :: e in cache ==> OffInRange(st, e.value) && NameOf(st, e.value) == NameOf(src, e.key)
  {
  }

  /** No record but the i-th differs, and none has moved. */
  ghost predicate OnlyRec(recs: seq<Rec>, recs': seq<Rec>, i: nat) {
    && i < |recs| == |recs'| && (forall j :: 0 <= j < |recs| && j != i ==> recs'[j] == recs[j])
    && (forall j :: 0 <= j <= |recs| ==> Start(recs', j) == Start(recs, j))
  }

  lemma OnlyRecRefl(recs: seq<Rec>, i: nat)
    requires i < |recs|
    ensures OnlyRec(recs, recs, i)
  {
  }

  lemma OnlyRecTrans(a: seq<Rec>, b: seq<Rec>, c: seq<Rec>, i: nat)
    requires OnlyRec(a, b, i) && OnlyRec(b, c, i)
    ensures OnlyRec(a, c, i)
  {
  }

  lemma OnlyRecMovesNothing(recs: seq<Rec>, recs': seq<Rec>, i: nat, j: nat)
    requires OnlyRec(recs, recs', i) && j <= |recs|
    ensures |recs'| == |recs| && Start(recs', j) == Start(recs, j)
  {
  }

  class AddPipe {
    const dst: Btf
    const strs: BtfStrs
    /** The string data of the source, which has no base. */
    const srcStrs: seq<Byte>
    /** `str_off_map` */
    const cache: HashMap<u32, u32, ()>
    /** The names in the source, the one at offset 0 aside. */
    ghost const names: iset<CString>
    /** The types being added, decoded. */
    ghost var recs: seq<Rec>

    constructor (dst: Btf, strs: BtfStrs, srcStrs: seq<Byte>, ghost names: iset<CString>)
      ensures this.dst == dst && this.strs == strs && this.srcStrs == srcStrs && this.names == names && recs == []
      ensures fresh(cache) && CacheValid() && cache.Contents() == multiset{}
    {
      this.dst, this.strs, this.srcStrs, this.names := dst, strs, srcStrs, names;
      cache := new HashMap((k: u32, _: ()) => k, (a: u32, b: u32, _: ()) => a == b);
      recs := [];
    }

    ghost predicate CacheValid()
      reads cache
    {
      cache.Valid(()) && cache.Lawful(()) && forall a, b :: cache.equalFn(a, b, ()) <==> a == b
    }

    ghost function Src(): Strs { Strs([], srcStrs) }

    ghost predicate Valid()
      reads this, dst, strs, strs.Repr(), cache
    {
      && dst.Valid() && strs.Valid() && CacheValid() && cache !in strs.Repr()
      && CacheOk(cache.Contents(), Src(), strs.State()) && KeysOnce(cache.Contents())
      && Pending(dst.typesData, dst.typeLen, recs)
    }

    /** `btf__add_str` leaves what is cached valid. */
    method AddName(s: CString) returns (off: int)
      requires Valid()
      modifies strs.Repr()
      ensures Valid() && Grown(old(strs.State()), strs.State()) && off <= 0x7fff_ffff
      ensures off >= 0 ==> OffInRange(strs.State(), off) && NameOf(strs.State(), off) == s
      ensures s in names && old(strs.RoomFor(names)) ==> off >= 0 && strs.RoomFor(names)
    {
      hide HashMap.Valid, HashMap.Contents, HashMap.Lawful, StrSet.Valid, Pending, NameOf, OffInRange, CacheOk,
        KeysOnce, BtfStrs.Valid, BtfStrs.State, BtfStrs.RoomFor, Btf.Valid, Grown;
      ghost var st := strs.State();
      off := strs.AddStr(s, names);
      GrownKeepsCache(cache.Contents(), Src(), st, strs.State());
    }

    lemma NotCached(strOff: u32)
      requires CacheValid() && KeysOnce(cache.Contents()) && !cache.Holds(strOff, ())
      ensures forall e :: e in cache.Contents() ==> e.key != strOff
      ensures !cache.Full()
    {
      hide HashMap.AtHome, HashMap.Contents;
      CacheIsSmall(cache.Contents());
      if cache.Full() { cache.FullHoldsMany(); }
    }

    method CacheAdd(strOff: u32, off: u32) returns (err: int)
      requires Valid() && OffInRange(strs.State(), off) && NameOf(strs.State(), off) == NameOf(Src(), strOff)
      requires !cache.Holds(strOff, ())
      modifies cache
      ensures Valid() && strs.State() == old(strs.State()) && err == 0
    {
      hide HashMap.Valid, HashMap.Contents, HashMap.KeyChain, HashMap.Holds, HashMap.Full, HashMap.Lawful, StrSet.Valid,
        Pending, NameOf, OffInRange, CacheOk, KeysOnce, BtfStrs.Valid, BtfStrs.State, Btf.Valid;
      NotCached(strOff);
      CacheAdds(cache.Contents(), Src(), strs.State(), strOff, off);
      KeysOnceNext(cache.Contents(), strOff, off);
      var was;
      err, was := cache.Insert(strOff, off, Append, ());
    }

    /** `btf_rewrite_str`. */
    method RewriteStr(strOff: u32) returns (err: int, off: u32)
      requires Valid() && OffInRange(Src(), strOff)
      requires EmptyNames(strs.State()) && EmptyNames(Src())
      modifies strs.Repr(), cache
      ensures Valid() && Grown(old(strs.State()), strs.State()) && err <= 0
      ensures err == 0 ==> OffInRange(strs.State(), off) && NameOf(strs.State(), off) == NameOf(Src(), strOff)
      ensures (strOff == 0 || NameOf(Src(), strOff) in names) && old(strs.RoomFor(names)) ==>
                err == 0 && strs.RoomFor(names)
    {
      hide HashMap.Valid, HashMap.Contents, HashMap.KeyChain, HashMap.Holds, HashMap.Lawful, StrSet.Valid, Pending,
        NameOf, OffInRange, CacheOk, KeysOnce, BtfStrs.Valid, BtfStrs.State, BtfStrs.RoomFor, Btf.Valid, Grown;
      off := 0;
      strs.GrownRefl();
      if strOff == 0 { return 0, 0; }
      CacheHit(cache.Contents(), Src(), strs.State());
      var found := cache.Find(strOff, ());
      if found.Some? { return 0, found.value; }
      var added := AddName(NameOf(Strs([], srcStrs), strOff));
      if added < 0 { return added, 0; }
      off := added;
      err := CacheAdd(strOff, off);
    }

    /** The names of a record are among those of the source. */
    ghost predicate Named(r0: BtfTypes.Rec) {
      forall k :: 0 <= k < NameCount(r0) ==> Name(r0, k) == 0 || NameOf(Src(), Name(r0, k)) in names
    }

    /** Record i is at word t of the type data. */
    ghost predicate At(i: nat, t: nat)
      reads this, dst
    {
      i < |recs| && t == dst.typeLen + Start(recs, i)
    }

    /** The record at t. */
    function Rec(t: nat, ghost i: nat): (r: Rec)
      requires Pending(dst.typesData, dst.typeLen, recs) && At(i, t)
      reads this, dst
      ensures r == recs[i]
    {
      PendingRead(dst.typesData, dst.typeLen, recs, i);
      dst.typesData[t..t + SizeOfInfo(dst.typesData[t + 1])]
    }

    /** Stores one word of a pending record. */
    method SetWord(t: nat, pos: nat, v: u32, ghost i: nat)
      requires Valid() && At(i, t) && pos < |recs[i]| && pos != 1
      modifies dst`typesData, this`recs
      ensures Valid() && At(i, t) && OnlyRec(old(recs), recs, i) && recs[i] == old(recs)[i][pos := v]
    {
      hide HashMap.Valid, StrSet.Valid, Pending, CacheOk, BtfStrs.Valid;
      PendingWrite(dst.typesData, dst.typeLen, recs, i, pos, v);
      ghost var data := dst.typesData;
      dst.typesData := dst.typesData[t + pos := v];
      assert dst.typesData[..dst.typeLen] == data[..dst.typeLen];
      recs := recs[i := recs[i][pos := v]];
    }

    /** Stores the offset of a pending record. */
    method SetOff(i: nat, t: nat)
      requires Valid() && dst.nrTypes + i < |dst.typeOffs|
      modifies dst`typeOffs
      ensures Valid() && dst.typeOffs == old(dst.typeOffs)[dst.nrTypes + i := t]
    {
      hide HashMap.Valid, StrSet.Valid, Pending, CacheOk, BtfStrs.Valid, BtfStrs.State;
      dst.typeOffs := dst.typeOffs[dst.nrTypes + i := t];
    }

    /** `btf_type_visit_str_offs` with `btf_rewrite_str`, one of its offsets. */
    method RewriteOneStr(t: nat, k: nat, ghost i: nat, ghost r0: Rec, ghost delta: nat) returns (err: int)
      requires Valid() && At(i, t) && k < NameCount(r0) && OffInRange(Src(), Name(r0, k))
      requires Rewritten(r0, Src(), recs[i], strs.State(), k, 0, Shifted(delta))
      requires EmptyNames(strs.State()) && EmptyNames(Src())
      modifies dst`typesData, this`recs, strs.Repr(), cache
      ensures err <= 0 && strs.Valid() && dst.Valid() && Grown(old(strs.State()), strs.State())
      ensures err == 0 ==> Valid() && At(i, t) && OnlyRec(old(recs), recs, i)
      ensures err == 0 ==> Rewritten(r0, Src(), recs[i], strs.State(), k + 1, 0, Shifted(delta))
      ensures Named(r0) && old(strs.RoomFor(names)) ==> err == 0 && strs.RoomFor(names)
    {
      hide HashMap.Valid, HashMap.Contents, HashMap.Lawful, StrSet.Valid, Pending, CacheOk, BtfStrs.Valid,
        BtfStrs.State, BtfStrs.RoomFor, Grown, Rewritten, NameOf, OffInRange, Shifted, OnlyRec, SizeOfInfo, WfRec,
        Start, KeysOnce, EmptyNames;
      ghost var st := strs.State();
      var r := Rec(t, i);
      NextName(r0, Src(), r, st, k, Shifted(delta));
      var off;
      err, off := RewriteStr(Name(r, k));
      if err != 0 { return; }
      GrownKeepsRewritten(r0, Src(), r, st, strs.State(), k, 0, Shifted(delta));
      RewriteName(r0, Src(), r, strs.State(), k, Shifted(delta), off);
      SetWord(t, NamePos(r, k), off, i);
    }

    /** `btf_type_visit_str_offs` with `btf_rewrite_str`, on one record. */
    method RewriteStrs(t: nat, ghost i: nat, ghost r0: Rec, delta: nat) returns (err: int)
      requires Valid() && At(i, t) && recs[i] == r0 && WfRec(r0)
      requires forall k :: 0 <= k < NameCount(r0) ==> OffInRange(Src(), Name(r0, k))
      requires EmptyNames(strs.State()) && EmptyNames(Src())
      modifies dst`typesData, this`recs, strs.Repr(), cache
      ensures err <= 0 && strs.Valid() && dst.Valid() && Grown(old(strs.State()), strs.State())
      ensures EmptyNames(strs.State())
      ensures err == 0 ==> Valid() && At(i, t) && OnlyRec(old(recs), recs, i)
      ensures err == 0 ==> Rewritten(r0, Src(), recs[i], strs.State(), NameCount(r0), 0, Shifted(delta))
      ensures Named(r0) && old(strs.RoomFor(names)) ==> err == 0 && strs.RoomFor(names)
    {
      hide HashMap.Valid, HashMap.Contents, HashMap.Lawful, StrSet.Valid, Pending, CacheOk, BtfStrs.Valid,
        BtfStrs.State, BtfStrs.RoomFor, Named, Grown, Rewritten, NameOf, OffInRange, Shifted, OnlyRec, SizeOfInfo,
        WfRec, Start, KeysOnce;
      OnlyRecRefl(recs, i);
      ghost var recs0, st0, fit := recs, strs.State(), Named(r0) && strs.RoomFor(names);
      strs.GrownRefl();
      NothingRewritten(r0, Src(), st0, Shifted(delta));
      err := 0;
      var k := 0;
      while k < NameCount(Rec(t, i))
        invariant Valid() && At(i, t) && k <= NameCount(r0) && OnlyRec(recs0, recs, i)
        invariant Grown(st0, strs.State()) && EmptyNames(strs.State()) && (fit ==> strs.RoomFor(names))
        invariant Rewritten(r0, Src(), recs[i], strs.State(), k, 0, Shifted(delta))
        decreases NameCount(r0) - k
      {
        ghost var st, recs1 := strs.State(), recs;
        NextName(r0, Src(), recs[i], st, k, Shifted(delta));
        err := RewriteOneStr(t, k, i, r0, delta);
        GrownTrans(st0, st, strs.State());
        if err != 0 { return; }
        OnlyRecTrans(recs0, recs1, recs, i);
        k := k + 1;
      }
      NextName(r0, Src(), recs[i], strs.State(), k, Shifted(delta));
    }

    /** `btf_type_visit_type_ids` with `btf_rewrite_type_ids`, on one record. */
    method RewriteIds(t: nat, ghost i: nat, ghost r0: Rec, delta: nat)
      requires Valid() && At(i, t)
      requires Rewritten(r0, Src(), recs[i], strs.State(), NameCount(r0), 0, Shifted(delta))
      requires forall k :: 0 <= k < RefCount(r0) ==> Ref(r0, k) + delta < 0x1_0000_0000
      modifies dst`typesData, this`recs
      ensures Valid() && At(i, t) && OnlyRec(old(recs), recs, i)
      ensures Rewritten(r0, Src(), recs[i], strs.State(), NameCount(r0), RefCount(r0), Shifted(delta))
    {
      hide HashMap.Valid, StrSet.Valid, Pending, CacheOk, BtfStrs.Valid, Rewritten, NameOf, OffInRange, OnlyRec,
        SizeOfInfo, WfRec;
      OnlyRecRefl(recs, i);
      ghost var recs0, st := recs, strs.State();
      var k := 0;
      NextRef(r0, Src(), recs[i], st, k, Shifted(delta));
      while k < RefCount(Rec(t, i))
        invariant Valid() && At(i, t) && k <= RefCount(r0) && OnlyRec(recs0, recs, i) && strs.State() == st
        invariant Rewritten(r0, Src(), recs[i], st, NameCount(r0), k, Shifted(delta))
        decreases RefCount(r0) - k
      {
        var r := Rec(t, i);
        NextRef(r0, Src(), r, st, k, Shifted(delta));
        var id: u32 := Ref(r, k);
        if id != 0 { id := id + delta; }
        RewriteRef(r0, Src(), r, st, NameCount(r0), k, Shifted(delta), id);
        ghost var recs1 := recs;
        SetWord(t, RefPos(r, k), id, i);
        OnlyRecTrans(recs0, recs1, recs, i);
        k := k + 1;
      }
      NextRef(r0, Src(), recs[i], st, k, Shifted(delta));
    }
  }

  /** Offset 0 is the empty string. */
  ghost predicate EmptyNames(st: Strs) { OffInRange(st, 0) && NameOf(st, 0) == [] }

  lemma GrownTrans(a: Strs, b: Strs, c: Strs)
    requires Grown(a, b) && Grown(b, c)
    ensures Grown(a, c) && (EmptyNames(b) ==> EmptyNames(c))
  {
    if EmptyNames(b) {
      GrownKeepsNames(b, c, 0);
    }
  }

  lemma NextName(r0: Rec, src: Strs, r: Rec, st: Strs, k: nat, shift: nat -> nat)
    requires Rewritten(r0, src, r, st, k, 0, shift)
    ensures NameCount(r) == NameCount(r0) && (k < NameCount(r0) ==> Name(r, k) == Name(r0, k))
    ensures k >= NameCount(r0) ==> Rewritten(r0, src, r, st, NameCount(r0), 0, shift)
  {
  }

  lemma NextRef(r0: Rec, src: Strs, r: Rec, st: Strs, k: nat, shift: nat -> nat)
    requires Rewritten(r0, src, r, st, NameCount(r0), k, shift)
    ensures RefCount(r) == RefCount(r0) && (k < RefCount(r0) ==> Ref(r, k) == Ref(r0, k))
    ensures k >= RefCount(r0) ==> Rewritten(r0, src, r, st, NameCount(r0), RefCount(r0), shift)
  {
  }

  // ---- what adding an instance means ----

  /** recs are the types of g, from 1 on, rewritten for an instance with strings st'. */
  ghost predicate AllRewritten(g: Graph, st: Strs, recs: seq<Rec>, st': Strs, delta: nat) {
    |g| == 1 + |recs|
    && forall j :: 0 <= j < |recs| ==>
         Rewritten(g[1 + j], st, recs[j], st', NameCount(g[1 + j]), RefCount(g[1 + j]), Shifted(delta))
  }

  /** The added types mean what they meant: id k of the source unfolds, names compared by
      content, like id k plus the constant, and void like void. */
  lemma {:induction false} AddedUnfoldAlike(src: Graph, st: Strs, g: Graph, recs: seq<Rec>, st': Strs, k: nat, n: nat)
    requires Consistent(src, st) && |g| > 0 && g[0] == VOID && EmptyNames(st')
    requires AllRewritten(src, st, recs, st', |g| - 1) && k < |src|
    ensures UnfoldNamed(g + recs, st', Shifted(|g| - 1)(k), n) == UnfoldNamed(src, st, k, n)
    decreases n
  {
    hide Consistent, AllRewritten, Label, EmptyNames, Rewritten, RefCount, Ref;
    if n > 0 {
      hide UnfoldNamed;
      var g', id := g + recs, Shifted(|g| - 1)(k);
      AddedRecord(src, st, g, recs, st', k);
      forall j | 0 <= j < RefCount(g'[id])
        ensures UnfoldNamed(g', st', Ref(g'[id], j), n - 1) == UnfoldNamed(src, st, Ref(src[k], j), n - 1)
      {
        AddedUnfoldAlike(src, st, g, recs, st', Ref(src[k], j), n - 1);
      }
      UnfoldNamedStep(g', st', id, src, st, k, n - 1);
    }
  }

  lemma AddedRecord(src: Graph, st: Strs, g: Graph, recs: seq<Rec>, st': Strs, k: nat)
    requires Consistent(src, st) && |g| > 0 && g[0] == VOID && EmptyNames(st')
    requires AllRewritten(src, st, recs, st', |g| - 1) && k < |src|
    ensures var g', id := g + recs, Shifted(|g| - 1)(k);
            && id < |g'| && Label(g'[id], st') == Label(src[k], st) && g'[id][1] == src[k][1]
            && RefCount(g'[id]) == RefCount(src[k])
            && forall j :: 0 <= j < RefCount(src[k]) ==>
                 Ref(src[k], j) < |src| && Ref(g'[id], j) == Shifted(|g| - 1)(Ref(src[k], j))
  {
    var g', id := g + recs, Shifted(|g| - 1)(k);
    assert RefsInRange(src[k], |src|);
    if k == 0 {
      assert g'[0] == VOID == src[0];
      assert Label(VOID, st') == Label(VOID, st);
    } else {
      assert g'[id] == recs[k - 1];
      RewrittenLabel(src[1 + (k - 1)], st, recs[k - 1], st', Shifted(|g| - 1));
    }
  }

  lemma ConsistentRefs(g: Graph, st: Strs, id: nat, j: nat)
    requires Consistent(g, st) && id < |g| && j < RefCount(g[id])
    ensures Ref(g[id], j) < |g|
  {
    assert RefsInRange(g[id], |g|);
  }

  /** The types already there keep their meaning. */
  lemma {:induction false} EarlierUnfoldAlike(g: Graph, st: Strs, recs: seq<Rec>, st': Strs, id: nat, n: nat)
    requires Consistent(g, st) && Grown(st, st') && id < |g|
    ensures UnfoldNamed(g + recs, st', id, n) == UnfoldNamed(g, st, id, n)
    decreases n
  {
    hide Consistent, Label, Grown;
    if n > 0 {
      var g' := g + recs;
      SameNamesSameLabel(g, st, st', id);
      forall j | 0 <= j < RefCount(g'[id])
        ensures UnfoldNamed(g', st', Ref(g'[id], j), n - 1) == UnfoldNamed(g, st, Ref(g[id], j), n - 1)
      {
        ConsistentRefs(g, st, id, j);
        EarlierUnfoldAlike(g, st, recs, st', Ref(g[id], j), n - 1);
      }
      UnfoldNamedStep(g', st', id, g, st, id, n - 1);
    }
  }

  lemma SameNamesSameLabel(g: Graph, st: Strs, st': Strs, id: nat)
    requires Consistent(g, st) && Grown(st, st') && id < |g|
    ensures Label(g[id], st') == Label(g[id], st)
  {
    var r := g[id];
    forall i | 0 <= i < |r| && IsNamePos(r, i)
      ensures NameOf(st', r[i]) == NameOf(st, r[i])
    {
      if id == 0 {
        assert i == 0;
        GrownKeepsNames(st, st', 0);
      } else {
        var k := NamePosIndex(r, i);
        assert OffInRange(st, Name(r, k));
        GrownKeepsNames(st, st', r[i]);
      }
    }
  }

  /** The instance stays one that can be added to. */
  lemma AddedIsConsistent(src: Graph, st: Strs, g: Graph, st0: Strs, recs: seq<Rec>, st': Strs)
    requires Consistent(src, st) && Consistent(g, st0) && Grown(st0, st')
    requires AllRewritten(src, st, recs, st', |g| - 1)
    ensures Consistent(g + recs, st')
  {
    var g' := g + recs;
    GrownKeepsNames(st0, st', 0);
    forall id | 0 <= id < |g'|
      ensures (0 < id ==> WfRec(g'[id])) && RefsInRange(g'[id], |g'|)
      ensures forall k :: 0 <= k < NameCount(g'[id]) ==> OffInRange(st', Name(g'[id], k))
    {
      if id < |g| {
        assert RefsInRange(g[id], |g|);
        forall k | 0 <= k < NameCount(g[id])
          ensures OffInRange(st', Name(g[id], k))
        {
          GrownKeepsNames(st0, st', Name(g[id], k));
        }
      } else {
        var j := id - |g|;
        RewrittenLabel(src[1 + j], st, recs[j], st', Shifted(|g| - 1));
        assert RefsInRange(src[1 + j], |src|);
      }
    }
  }

  /** The loop of `btf__add_btf` has rewritten the first i types. */
  ghost predicate Adding(own: seq<Rec>, st: Strs, recs: seq<Rec>, st': Strs, delta: nat, i: nat) {
    && i <= |own| == |recs|
    && (forall j :: 0 <= j < i ==>
         Rewritten(own[j], st, recs[j], st', NameCount(own[j]), RefCount(own[j]), Shifted(delta)))
    && (forall j :: i <= j < |own| ==> recs[j] == own[j])
    && (forall j :: 0 <= j <= |own| ==> Start(recs, j) == Start(own, j))
  }

  lemma AddingNext(own: seq<Rec>, st: Strs, recs: seq<Rec>, st0: Strs, recs': seq<Rec>, st': Strs, delta: nat, i: nat)
    requires Adding(own, st, recs, st0, delta, i) && i < |own| && Grown(st0, st') && OnlyRec(recs, recs', i)
    requires Rewritten(own[i], st, recs'[i], st', NameCount(own[i]), RefCount(own[i]), Shifted(delta))
    ensures Adding(own, st, recs', st', delta, i + 1)
  {
    forall j | 0 <= j < i
      ensures Rewritten(own[j], st, recs'[j], st', NameCount(own[j]), RefCount(own[j]), Shifted(delta))
    {
      GrownKeepsRewritten(own[j], st, recs[j], st0, st', NameCount(own[j]), RefCount(own[j]), Shifted(delta));
    }
  }

  // ---- before and after the loop ----

  lemma StartConcat(a: seq<Rec>, b: seq<Rec>, j: nat)
    requires j <= |b|
    ensures Start(a + b, |a| + j) == |Flat(a)| + Start(b, j)
  {
    assert (a + b)[..|a| + j] == a + b[..j];
    FlatConcat(a, b[..j]);
  }

  lemma StartPrefix(a: seq<Rec>, b: seq<Rec>, j: nat)
    requires j <= |a|
    ensures Start(a + b, j) == Start(a, j)
  {
    assert (a + b)[..j] == a[..j];
  }

  /** The room made behind the live data, filled with a copy of the other's. */
  lemma CopyPending(data: seq<u32>, live: nat, copy: seq<u32>, recs: seq<Rec>)
    requires live + |copy| <= |data| && copy == Flat(recs) && forall i :: 0 <= i < |recs| ==> WfRec(recs[i])
    ensures var data' := data[..live] + copy + data[live + |copy|..];
            Pending(data', live, recs) && data'[..live] == data[..live]
  {
  }

  /** The offsets of the pending types, behind those of the live ones. */
  ghost predicate OffsUpto(offs: seq<nat>, live: nat, own: seq<Rec>, n: nat, i: nat) {
    i <= |own| && n + |own| <= |offs| && forall j :: 0 <= j < i ==> offs[n + j] == live + Start(own, j)
  }

  lemma OffsFit(offs: seq<nat>, live: nat, own: seq<Rec>, n: nat, i: nat)
    requires OffsUpto(offs, live, own, n, i)
    ensures n + |own| <= |offs|
  {
  }

  lemma OffsNext(offs: seq<nat>, live: nat, own: seq<Rec>, n: nat, i: nat)
    requires OffsUpto(offs, live, own, n, i) && i < |own|
    ensures OffsUpto(offs[n + i := live + Start(own, i)], live, own, n, i + 1)
  {
  }

  lemma Committed(data: seq<u32>, live: nat, own: seq<Rec>, recs: seq<Rec>, offs: seq<nat>, n: nat)
    requires live <= |data| && data[..live] == Flat(own) && |own| == n <= |offs|
    requires forall i :: 0 <= i < n ==> WfRec(own[i]) && offs[i] == Start(own, i)
    requires Pending(data, live, recs) && OffsUpto(offs, live, recs, n, |recs|)
    ensures var all := own + recs;
            && live + |Flat(recs)| <= |data| && data[..live + |Flat(recs)|] == Flat(all)
            && forall i :: 0 <= i < |all| ==> WfRec(all[i]) && offs[i] == Start(all, i)
  {
    hide Start, Flat, WfRec;
    FlatConcat(own, recs);
    assert data[..live + |Flat(recs)|] == data[..live] + data[live..live + |Flat(recs)|];
    hide Pending;
    CommittedOffs(live, own, recs, offs, n);
  }

  lemma CommittedOffs(live: nat, own: seq<Rec>, recs: seq<Rec>, offs: seq<nat>, n: nat)
    requires live == |Flat(own)| && |own| == n <= |offs| && OffsUpto(offs, live, recs, n, |recs|)
    requires forall i :: 0 <= i < n ==> offs[i] == Start(own, i)
    ensures forall i :: 0 <= i < |own + recs| ==> offs[i] == Start(own + recs, i)
  {
    hide Start, Flat;
    forall i | 0 <= i < |own + recs|
      ensures offs[i] == Start(own + recs, i)
    {
      if i < n {
        StartPrefix(own, recs, i);
      } else {
        StartConcat(own, recs, i - n);
        assert offs[n + (i - n)] == live + Start(recs, i - n);
      }
    }
  }

  lemma AddingStarts(own: seq<Rec>, st: Strs, st': Strs, delta: nat)
    ensures Adding(own, st, own, st', delta, 0) && Start(own, 0) == 0
  {
  }

  lemma AddingEnds(g: Graph, own: seq<Rec>, st: Strs, recs: seq<Rec>, st': Strs, delta: nat,
                   offs: seq<nat>, live: nat, n: nat)
    requires Adding(own, st, recs, st', delta, |own|) && g == [VOID] + own && OffsUpto(offs, live, own, n, |own|)
    ensures AllRewritten(g, st, recs, st', delta) && |recs| == |own| && |Flat(recs)| == |Flat(own)|
    ensures OffsUpto(offs, live, recs, n, |recs|)
  {
    hide Start, Flat, Rewritten;
    StartLast(recs);
    StartLast(own);
  }

  lemma AddingAt(g: Graph, own: seq<Rec>, st: Strs, recs: seq<Rec>, st': Strs, delta: nat, i: nat)
    requires Adding(own, st, recs, st', delta, i) && i < |own| && g == [VOID] + own && Consistent(g, st)
    requires |g| + delta < 0x1_0000_0000
    ensures recs[i] == own[i] && WfRec(own[i]) && Start(recs, i) == Start(own, i)
    ensures Start(recs, i + 1) == Start(recs, i) + |own[i]|
    ensures forall k :: 0 <= k < NameCount(own[i]) ==> OffInRange(st, Name(own[i], k))
    ensures forall k :: 0 <= k < RefCount(own[i]) ==> Ref(own[i], k) + delta < 0x1_0000_0000
  {
    assert g[1 + i] == own[i] && RefsInRange(g[1 + i], |g|);
    StartNext(recs, i);
  }

  /** Everything a successful `btf__add_btf` promises about what the types mean. */
  ghost predicate AddedOk(src: Graph, sst: Strs, g: Graph, st: Strs, g': Graph, st': Strs) {
    && |g| > 0 && Consistent(g', st') && Grown(st, st') && |g'| == |g| + |src| - 1
    && (forall k: nat, n: nat :: k < |src| ==>
          UnfoldNamed(g', st', Shifted(|g| - 1)(k), n) == UnfoldNamed(src, sst, k, n))
    && (forall id: nat, n: nat :: id < |g| ==> UnfoldNamed(g', st', id, n) == UnfoldNamed(g, st, id, n))
  }

  lemma AddedMeansTheSame(src: Graph, sst: Strs, g: Graph, st: Strs, recs: seq<Rec>, st': Strs)
    requires Consistent(src, sst) && Consistent(g, st) && Grown(st, st') && EmptyNames(st')
    requires AllRewritten(src, sst, recs, st', |g| - 1)
    ensures AddedOk(src, sst, g, st, g + recs, st')
  {
    hide UnfoldNamed, Rewritten, Label;
    AddedIsConsistent(src, sst, g, st, recs, st');
    forall k: nat, n: nat | k < |src|
      ensures UnfoldNamed(g + recs, st', Shifted(|g| - 1)(k), n) == UnfoldNamed(src, sst, k, n)
    {
      AddedUnfoldAlike(src, sst, g, recs, st', k, n);
    }
    forall id: nat, n: nat | id < |g|
      ensures UnfoldNamed(g + recs, st', id, n) == UnfoldNamed(g, st, id, n)
    {
      EarlierUnfoldAlike(g, st, recs, st', id, n);
    }
  }

  lemma NothingCached(src: Strs, st: Strs)
    ensures CacheOk(multiset{}, src, st) && KeysOnce(multiset{})
  {
  }

  /** There is room for the types of one instance behind those of another. */
  ghost predicate TypesFit(dst: Btf, src: Btf)
    reads dst, src
  {
    && (dst.typeLen + src.typeLen <= |dst.typesData| || dst.typeLen + src.typeLen <= 0x3fff_ffff)
    && (dst.nrTypes + src.nrTypes <= |dst.typeOffs| || dst.nrTypes + src.nrTypes <= MAX_NR_TYPES)
  }

  /** The names of an instance, the one at offset 0 aside. */
  ghost function NamesOf(g: Graph, st: Strs): iset<CString> {
    iset id, k | 0 <= id < |g| && 0 <= k < NameCount(g[id]) && Name(g[id], k) != 0 :: NameOf(st, Name(g[id], k))
  }

  /** Room for the new types and their offsets, and the bulk copy. */
  method CopyTypes(p: AddPipe, src: Btf) returns (err: int)
    requires p.dst != src && p.dst.Valid() && p.strs.Valid() && src.Valid() && |p.dst.typeOffs| <= MAX_NR_TYPES
    requires p.CacheValid() && p.cache.Contents() == multiset{} && p.cache !in p.strs.Repr()
    modifies p`recs, p.dst`typesData, p.dst`typeOffs
    ensures err == if old(TypesFit(p.dst, src)) then 0 else ENOMEM
    ensures err == 0 ==> p.Valid() && p.recs == src.own && |p.dst.typeOffs| <= MAX_NR_TYPES
    ensures err == 0 ==> OffsUpto(p.dst.typeOffs, p.dst.typeLen, src.own, p.dst.nrTypes, 0)
  {
    hide HashMap.Valid, HashMap.Contents, HashMap.Lawful, StrSet.Valid, BtfStrs.Valid, BtfStrs.State, KeysOnce, CacheOk,
      Pending, Start, Flat;
    NothingCached(p.Src(), p.strs.State());
    var dst := p.dst;
    var dataSz, cnt := src.typeLen, src.nrTypes;
    var ok, data := AddMem(dst.typesData, dst.typeLen, 0x3fff_ffff, dataSz, 0);
    if !ok { return ENOMEM; }
    var offs;
    ok, offs := AddMem(dst.typeOffs, dst.nrTypes, MAX_NR_TYPES, cnt, 0);
    if !ok { return ENOMEM; }
    CopyPending(data, dst.typeLen, src.typesData[..dataSz], src.own);
    assert data[..dst.typeLen] == dst.typesData[..dst.typeLen];
    dst.typesData := data[..dst.typeLen] + src.typesData[..dataSz] + data[dst.typeLen + dataSz..];
    dst.typeOffs := offs;
    assert dst.typesData[..dst.typeLen] == old(dst.typesData)[..dst.typeLen];
    assert dst.Valid();
    p.recs := src.own;
    err := 0;
  }

  /** The rewriting of one copied type. */
  method AddOne(p: AddPipe, t: nat, ghost i: nat, ghost own: seq<Rec>, delta: nat) returns (err: int)
    requires p.Valid() && p.At(i, t) && EmptyNames(p.strs.State()) && EmptyNames(p.Src())
    requires Adding(own, p.Src(), p.recs, p.strs.State(), delta, i) && i < |own| && p.recs[i] == own[i] && WfRec(own[i])
    requires forall k :: 0 <= k < NameCount(own[i]) ==> OffInRange(p.Src(), Name(own[i], k))
    requires forall k :: 0 <= k < RefCount(own[i]) ==> Ref(own[i], k) + delta < 0x1_0000_0000
    modifies p.dst`typesData, p`recs, p.strs.Repr(), p.cache
    ensures err <= 0
    ensures err == 0 ==> p.Valid() && Grown(old(p.strs.State()), p.strs.State()) && EmptyNames(p.strs.State())
    ensures err == 0 ==> Adding(own, p.Src(), p.recs, p.strs.State(), delta, i + 1) && |p.recs| == |own|
    ensures err == 0 ==> Start(p.recs, i + 1) == Start(old(p.recs), i + 1)
    ensures p.Named(own[i]) && old(p.strs.RoomFor(p.names)) ==> err == 0 && p.strs.RoomFor(p.names)
  {
    hide HashMap.Valid, HashMap.Contents, HashMap.Lawful, StrSet.Valid, BtfStrs.Valid, BtfStrs.State, Pending,
      Start, Flat, Adding, Grown, Rewritten, Shifted, OnlyRec, EmptyNames, CacheOk, KeysOnce, BtfStrs.RoomFor,
      AddPipe.Named;
    ghost var recs, st := p.recs, p.strs.State();
    err := p.RewriteStrs(t, i, own[i], delta);
    if err != 0 { return; }
    ghost var recs1 := p.recs;
    p.RewriteIds(t, i, own[i], delta);
    OnlyRecTrans(recs, recs1, p.recs, i);
    OnlyRecMovesNothing(recs, p.recs, i, i + 1);
    AddingNext(own, p.Src(), recs, st, p.recs, p.strs.State(), delta, i);
  }

  /** One turn of the loop of `btf__add_btf`: the offset of a type, and its rewriting. */
  method AddNext(p: AddPipe, t: nat, i: nat, ghost sg: Graph, ghost own: seq<Rec>, delta: nat)
    returns (err: int, sz: int)
    requires p.Valid() && EmptyNames(p.strs.State()) && EmptyNames(p.Src()) && Consistent(sg, p.Src())
    requires sg == [VOID] + own && i < |own| == |p.recs| && |sg| + delta < 0x1_0000_0000
    requires Adding(own, p.Src(), p.recs, p.strs.State(), delta, i) && t == p.dst.typeLen + Start(p.recs, i)
    requires OffsUpto(p.dst.typeOffs, p.dst.typeLen, own, p.dst.nrTypes, i)
    modifies p.dst`typesData, p.dst`typeOffs, p`recs, p.strs.Repr(), p.cache
    ensures err <= 0 && |p.dst.typeOffs| == old(|p.dst.typeOffs|)
    ensures err == 0 ==> p.Valid() && Grown(old(p.strs.State()), p.strs.State()) && EmptyNames(p.strs.State())
    ensures err == 0 ==> Adding(own, p.Src(), p.recs, p.strs.State(), delta, i + 1) && |p.recs| == |own|
    ensures err == 0 ==> sz >= 0 && t + sz == p.dst.typeLen + Start(p.recs, i + 1)
    ensures err == 0 ==> OffsUpto(p.dst.typeOffs, p.dst.typeLen, own, p.dst.nrTypes, i + 1)
    ensures p.names == NamesOf(sg, p.Src()) && old(p.strs.RoomFor(p.names)) ==> err == 0 && p.strs.RoomFor(p.names)
  {
    hide HashMap.Valid, HashMap.Contents, HashMap.Lawful, StrSet.Valid, BtfStrs.Valid, BtfStrs.State, KeysOnce,
      BtfStrs.RoomFor, AddPipe.Named, NamesOf, Pending, Start, Flat, Adding, OffsUpto, Grown, Rewritten, Shifted,
      OnlyRec, SizeOfInfo, CacheOk, Consistent, EmptyNames, Btf.Valid;
    OffsFit(p.dst.typeOffs, p.dst.typeLen, own, p.dst.nrTypes, i);
    AddingAt(sg, own, p.Src(), p.recs, p.strs.State(), delta, i);
    PendingRead(p.dst.typesData, p.dst.typeLen, p.recs, i);
    sz := SizeOfInfo(p.dst.typesData[t + 1]);
    if sz < 0 { return sz, sz; }
    OffsNext(p.dst.typeOffs, p.dst.typeLen, own, p.dst.nrTypes, i);
    p.SetOff(i, t);
    if p.names == NamesOf(sg, p.Src()) { OwnIsNamed(p, sg, own, i); }
    err := AddOne(p, t, i, own, delta);
  }

  /** The loop of `btf__add_btf`. */
  method AddAll(p: AddPipe, src: Btf, delta: nat) returns (err: int)
    requires p.dst != src && p.Valid() && src.Valid() && p.srcStrs == p.Src().own && p.recs == src.own
    requires !src.hasBase && Consistent(src.Types(), p.Src()) && EmptyNames(p.strs.State())
    requires src.TypeCnt() + delta < 0x1_0000_0000 && |p.dst.typeOffs| <= MAX_NR_TYPES
    requires OffsUpto(p.dst.typeOffs, p.dst.typeLen, src.own, p.dst.nrTypes, 0)
    modifies p.dst`typesData, p.dst`typeOffs, p`recs, p.strs.Repr(), p.cache
    ensures err <= 0
    ensures err == 0 ==> p.Valid() && Grown(old(p.strs.State()), p.strs.State()) && EmptyNames(p.strs.State())
    ensures err == 0 ==> Adding(src.own, p.Src(), p.recs, p.strs.State(), delta, |src.own|)
    ensures err == 0 ==> OffsUpto(p.dst.typeOffs, p.dst.typeLen, src.own, p.dst.nrTypes, |src.own|)
    ensures |p.dst.typeOffs| <= MAX_NR_TYPES
    ensures p.names == NamesOf(src.Types(), p.Src()) && old(p.strs.RoomFor(p.names)) ==> err == 0
  {
    hide HashMap.Valid, HashMap.Contents, HashMap.Lawful, StrSet.Valid, BtfStrs.Valid, BtfStrs.State, KeysOnce,
      BtfStrs.RoomFor, NamesOf, Pending, Start, Flat, Adding, OffsUpto, Grown, SizeOfInfo, CacheOk, Consistent,
      EmptyNames, Btf.Valid;
    ghost var st0, sg, own := p.strs.State(), src.Types(), src.own;
    SizesOf(src);
    assert sg == [VOID] + own && EmptyNames(p.Src()) by { EmptyOfConsistent(sg, p.Src()); }
    p.strs.GrownRefl();
    AddingStarts(own, p.Src(), st0, delta);
    ghost var fit := p.names == NamesOf(sg, p.Src()) && p.strs.RoomFor(p.names);
    var t, i := p.dst.typeLen, 0;
    while i < src.nrTypes
      invariant 0 <= i <= src.nrTypes && p.Valid() && Grown(st0, p.strs.State()) && EmptyNames(p.strs.State())
      invariant Adding(own, p.Src(), p.recs, p.strs.State(), delta, i) && |p.recs| == |own|
      invariant t == p.dst.typeLen + Start(p.recs, i) && |p.dst.typeOffs| <= MAX_NR_TYPES
      invariant OffsUpto(p.dst.typeOffs, p.dst.typeLen, own, p.dst.nrTypes, i) && (fit ==> p.strs.RoomFor(p.names))
    {
      ghost var st := p.strs.State();
      var sz;
      err, sz := AddNext(p, t, i, sg, own, delta);
      if err != 0 { return err; }
      GrownTrans(st0, st, p.strs.State());
      t := t + sz;
      i := i + 1;
    }
    err := 0;
  }

  lemma OwnIsNamed(p: AddPipe, g: Graph, own: seq<Rec>, i: nat)
    requires g == [VOID] + own && i < |own| && p.names == NamesOf(g, p.Src())
    ensures p.Named(own[i])
  {
    hide NameOf;
    assert g[1 + i] == own[i];
  }

  lemma SizesOf(btf: Btf)
    requires btf.Valid()
    ensures |btf.base| > 0 && |btf.own| == btf.nrTypes && btf.Types() == btf.base + btf.own
    ensures !btf.hasBase ==> btf.base == [VOID]
    ensures |btf.typesData[..btf.typeLen]| == btf.typeLen == |Flat(btf.own)|
  {
  }

  lemma EmptyOfConsistent(g: Graph, st: Strs)
    requires Consistent(g, st)
    ensures EmptyNames(st) && g[0] == VOID
  {
  }

  /** The copied types become part of the instance. */
  method CommitTypes(p: AddPipe, src: Btf)
    requires p.dst != src && p.Valid() && src.Valid() && |p.recs| == |src.own| && |Flat(p.recs)| == |Flat(src.own)|
    requires OffsUpto(p.dst.typeOffs, p.dst.typeLen, p.recs, p.dst.nrTypes, |p.recs|)
    modifies p.dst`typeLen, p.dst`nrTypes, p.dst`own
    ensures p.dst.Valid() && p.dst.own == old(p.dst.own) + p.recs
  {
    hide HashMap.Valid, StrSet.Valid, BtfStrs.Valid, BtfStrs.State, Pending, Start, Flat, OffsUpto, WfRec, CacheOk;
    OffsFit(p.dst.typeOffs, p.dst.typeLen, p.recs, p.dst.nrTypes, |p.recs|);
    Committed(p.dst.typesData, p.dst.typeLen, p.dst.own, p.recs, p.dst.typeOffs, p.dst.nrTypes);
    assert |src.typesData[..src.typeLen]| == src.typeLen;
    p.dst.own := p.dst.own + p.recs;
    p.dst.typeLen := p.dst.typeLen + src.typeLen;
    p.dst.nrTypes := p.dst.nrTypes + src.nrTypes;
  }

  /** Copies, rewrites and commits all types of the source. */
  method AddTypes(p: AddPipe, src: Btf) returns (err: int)
    requires p.dst != src && p.dst.Valid() && p.strs.Valid() && src.Valid() && p.srcStrs == p.Src().own
    requires p.CacheValid() && p.cache.Contents() == multiset{} && p.cache !in p.strs.Repr()
    requires Consistent(p.dst.Types(), p.strs.State()) && p.dst.StartId() <= MAX_NR_TYPES
    requires |p.dst.typeOffs| <= MAX_NR_TYPES
    requires !src.hasBase && Consistent(src.Types(), p.Src())
    modifies p`recs, p.dst, p.strs.Repr(), p.cache
    ensures err <= 0
    ensures err == 0 ==> p.dst.Valid() && p.strs.Valid() && |p.dst.typeOffs| <= MAX_NR_TYPES
    ensures err == 0 ==> p.dst.own == old(p.dst.own) + p.recs && |p.recs| == |src.own|
    ensures err == 0 ==> Grown(old(p.strs.State()), p.strs.State()) && EmptyNames(p.strs.State())
    ensures err == 0 ==> AllRewritten(src.Types(), p.Src(), p.recs, p.strs.State(), old(p.dst.TypeCnt()) - 1)
    ensures old(TypesFit(p.dst, src)) && p.names == NamesOf(src.Types(), p.Src()) && old(p.strs.RoomFor(p.names)) ==>
              err == 0
  {
    hide BtfStrs.RoomFor, NamesOf, KeysOnce, TypesFit, HashMap.Valid, HashMap.Contents, HashMap.Lawful,
      StrSet.Valid, BtfStrs.Valid, BtfStrs.State, Pending, Start, Flat, Adding, OffsUpto, AllRewritten, Grown,
      Consistent, EmptyNames, CacheOk, Shifted, Rewritten, Btf.Valid, NameOf;
    var delta := p.dst.TypeCnt() - 1;
    EmptyOfConsistent(p.dst.Types(), p.strs.State());
    EmptyOfConsistent(src.Types(), p.Src());
    SizesOf(p.dst);
    SizesOf(src);
    err := CopyTypes(p, src);
    if err != 0 { return; }
    OffsFit(p.dst.typeOffs, p.dst.typeLen, src.own, p.dst.nrTypes, 0);
    err := AddAll(p, src, delta);
    if err != 0 { return; }
    AddingEnds(src.Types(), src.own, p.Src(), p.recs, p.strs.State(), delta, p.dst.typeOffs, p.dst.typeLen,
               p.dst.nrTypes);
    CommitTypes(p, src);
  }

  /** `btf__add_btf`: the id of the first added type, or an error.
      The destination may have a base; the source may not. */
  method BtfAddBtf(dst: Btf, strs: BtfStrs, src: Btf, srcStrs: seq<Byte>) returns (id: int)
    requires dst != src && dst.Valid() && strs.Valid() && src.Valid()
    requires Consistent(dst.Types(), strs.State()) && dst.StartId() <= MAX_NR_TYPES && |dst.typeOffs| <= MAX_NR_TYPES
    requires !src.hasBase ==> Consistent(src.Types(), Strs([], srcStrs))
    modifies dst, strs.Repr()
    ensures src.hasBase ==> id == ENOTSUP
    ensures id >= 0 ==> dst.Valid() && strs.Valid() && |dst.typeOffs| <= MAX_NR_TYPES
    ensures id >= 0 ==> id == old(dst.TypeCnt())
    ensures !src.hasBase && old(TypesFit(dst, src)) && old(strs.RoomFor(NamesOf(src.Types(), Strs([], srcStrs)))) ==>
              id >= 0
    ensures id >= 0 ==> AddedOk(src.Types(), Strs([], srcStrs), old(dst.Types()), old(strs.State()),
                                dst.Types(), strs.State())
  {
    hide BtfStrs.RoomFor, NamesOf, KeysOnce, TypesFit, HashMap.Valid, HashMap.Contents, HashMap.Lawful,
      StrSet.Valid, BtfStrs.Valid, BtfStrs.State, Pending, Start, Flat, Adding, OffsUpto, AllRewritten, AddedOk,
      Grown, Consistent, EmptyNames, CacheOk, WfRec, Shifted, Rewritten, Label, UnfoldNamed, NameOf;
    if src.hasBase { return ENOTSUP; }
    ghost var g0, st0, sg, sst := dst.Types(), strs.State(), src.Types(), Strs([], srcStrs);
    assert sg == [VOID] + src.own;
    var p := new AddPipe(dst, strs, srcStrs, NamesOf(sg, sst));
    var err := AddTypes(p, src);
    if err != 0 { return err; }
    AddedMeansTheSame(sg, sst, g0, st0, p.recs, strs.State());
    SizesOf(dst);
    assert dst.Types() == g0 + p.recs;
    id := dst.StartId() + dst.nrTypes - src.nrTypes;
  }
}
