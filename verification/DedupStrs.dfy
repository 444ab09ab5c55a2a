/** `btf_dedup_strings`: the pass of BTF dedup that makes string offsets unique (btf.c, lines 3257-3362). */
module DedupStrs {
  import opened BtfTypes
  import opened BtfGraph
  import opened BtfTable
  import opened BtfNames
  import opened StrSets
  import opened HashMaps
  import opened AddBtf

  /** The strings of the base and of the set that the pass builds. */
  datatype Pool = Pool(base: Interned, own: Interned)

  ghost function StrsOf(p: Pool): Strs { Strs(p.base.live, p.own.live) }

  /** The pass leaves type ids alone. */
  function SameId(): nat -> nat { (id: nat) => id }

  /** Every string of the data is indexed under the one offset at which it starts. */
  ghost predicate EachOnce(st: Interned) {
    Wf(st) && forall o: nat :: o in st.offs <==> IsStart(st.live, o)
  }

  lemma InternsEachOnce(st: Interned, s: CString)
    requires EachOnce(st)
    ensures EachOnce(Intern(st, s).0)
  {
    hide StrAt;
    InternKeepsStrings(st, s);
  }

  ghost predicate PoolWf(p: Pool) {
    Wf(p.base) && EachOnce(p.own) && EmptyNames(StrsOf(p))
  }

  /** More strings in the set, and those there unmoved. */
  ghost predicate More(p: Pool, p': Pool) {
    && p'.base == p.base && p.own.offs <= p'.own.offs && p.own.live <= p'.own.live
    && Terminated(p.own.live) && Terminated(p'.own.live)
  }

  lemma InternIsMore(p: Pool, s: CString)
    requires PoolWf(p)
    ensures var (st', off) := Intern(p.own, s);
            && More(p, p.(own := st')) && PoolWf(p.(own := st'))
            && off in st'.offs && StrAt(st'.live, off) == s && off < |st'.live| && st'.offs <= p.own.offs + {off}
  {
    hide StrAt, Has;
    InternKeepsStrings(p.own, s);
    InternsEachOnce(p.own, s);
    GrownKeepsNames(StrsOf(p), StrsOf(p.(own := Intern(p.own, s).0)), 0);
  }

  // ---- what the pass makes of one offset ----

  /** Offset 0 and those into the base stay; a string that the base has gets the offset it is
      indexed under there; any other one that of its only copy in the set. */
  ghost predicate OffRemapped(was: Strs, p: Pool, o: nat, n: nat) {
    && OffInRange(StrsOf(p), n) && NameOf(StrsOf(p), n) == NameOf(was, o)
    && if o == 0 || o < |p.base.live| then n == o
       else if Has(p.base, NameOf(was, o)) then n == OffsetOf(p.base, NameOf(was, o))
       else n >= |p.base.live| && n - |p.base.live| in p.own.offs
  }

  lemma MoreKeepsOff(was: Strs, p: Pool, p': Pool, o: nat, n: nat)
    requires OffRemapped(was, p, o, n) && More(p, p')
    ensures OffRemapped(was, p', o, n)
  {
    GrownKeepsNames(StrsOf(p), StrsOf(p'), n);
  }

  ghost predicate RecRemapped(was: Strs, p: Pool, r0: Rec, r: Rec, k: nat) {
    && Rewritten(r0, was, r, StrsOf(p), k, 0, SameId())
    && forall j :: 0 <= j < k && j < NameCount(r0) ==> OffRemapped(was, p, Name(r0, j), Name(r, j))
  }

  lemma MoreKeepsRec(was: Strs, p: Pool, p': Pool, r0: Rec, r: Rec, k: nat)
    requires RecRemapped(was, p, r0, r, k) && More(p, p')
    ensures RecRemapped(was, p', r0, r, k)
  {
    hide OffRemapped, Rewritten, More;
    assert Grown(StrsOf(p), StrsOf(p')) by { MoreIsGrown(p, p'); }
    GrownKeepsRewritten(r0, was, r, StrsOf(p), StrsOf(p'), k, 0, SameId());
    forall j | 0 <= j < k && j < NameCount(r0)
      ensures OffRemapped(was, p', Name(r0, j), Name(r, j))
    {
      MoreKeepsOff(was, p, p', Name(r0, j), Name(r, j));
    }
  }

  lemma MoreIsGrown(p: Pool, p': Pool)
    requires More(p, p')
    ensures Grown(StrsOf(p), StrsOf(p'))
  {
  }

  lemma RecStarts(was: Strs, p: Pool, r0: Rec)
    requires WfRec(r0)
    ensures RecRemapped(was, p, r0, r0, 0)
  {
    NothingRewritten(r0, was, StrsOf(p), SameId());
  }

  lemma RecNext(was: Strs, p: Pool, r0: Rec, r: Rec, k: nat)
    requires RecRemapped(was, p, r0, r, k)
    ensures NameCount(r) == NameCount(r0) && |r| == |r0| && WfRec(r)
    ensures k < NameCount(r0) ==> Name(r, k) == Name(r0, k) && 0 <= NamePos(r, k) < |r| && NamePos(r, k) != 1
    ensures k >= NameCount(r0) ==> RecRemapped(was, p, r0, r, NameCount(r0))
  {
    if k < NameCount(r0) {
      NamesAreWords(r0, k);
    }
  }

  lemma RecSet(was: Strs, p: Pool, r0: Rec, r: Rec, k: nat, off: u32)
    requires RecRemapped(was, p, r0, r, k) && k < NameCount(r) && OffRemapped(was, p, Name(r, k), off)
    ensures NamePos(r, k) < |r| && NamePos(r, k) != 1
    ensures RecRemapped(was, p, r0, r[NamePos(r, k) := off], k + 1)
    ensures forall j :: 0 <= j < NameCount(r) && j != k ==> Name(r[NamePos(r, k) := off], j) == Name(r, j)
    ensures Name(r[NamePos(r, k) := off], k) == off
  {
    hide OffRemapped;
    assert OffInRange(StrsOf(p), off) && NameOf(StrsOf(p), off) == NameOf(was, Name(r, k)) by {
      OffMeans(was, p, Name(r, k), off);
    }
    RewriteName(r0, was, r, StrsOf(p), k, SameId(), off);
    NamesAreWords(r0, k);
    forall j | 0 <= j < NameCount(r)
      ensures Name(r[NamePos(r, k) := off], j) == if j == k then off else Name(r, j)
    {
      NamesAreWords(r0, j);
    }
  }

  lemma OffMeans(was: Strs, p: Pool, o: nat, n: nat)
    requires OffRemapped(was, p, o, n)
    ensures OffInRange(StrsOf(p), n) && NameOf(StrsOf(p), n) == NameOf(was, o)
  {
  }

  // ---- progress over all types ----

  /** The types before id have been remapped, of type id the first k names. */
  ghost predicate Progress(g0: Graph, was: Strs, g: Graph, p: Pool, start: nat, id: nat, k: nat) {
    && |g| == |g0| && start <= id <= |g0|
    && (forall j :: start <= j < id ==> RecRemapped(was, p, g0[j], g[j], NameCount(g0[j])))
    && (id < |g0| ==> RecRemapped(was, p, g0[id], g[id], k))
    && (forall j :: 0 <= j < |g0| && (j < start || j > id) ==> g[j] == g0[j])
  }

  /** Nothing is in the set but the names remapped so far, and the empty string if there is no base. */
  ghost predicate Used(g: Graph, p: Pool, hasBase: bool, start: nat, id: nat, k: nat) {
    forall o :: o in p.own.offs ==> (o == 0 && !hasBase) || NamedHere(g, start, id, k, |p.base.live| + o)
  }

  ghost predicate NamedHere(g: Graph, start: nat, id: nat, k: nat, off: nat) {
    exists x, j :: start <= x < |g| && (x < id || (x == id && j < k)) && 0 <= j < NameCount(g[x])
      && Name(g[x], j) == off
  }

  lemma ProgressStarts(g: Graph, was: Strs, p: Pool, start: nat)
    requires WfGraph(g) && 0 < start <= |g|
    ensures Progress(g, was, g, p, start, start, 0)
  {
    if start < |g| {
      RecStarts(was, p, g[start]);
    }
  }

  lemma ProgressAt(g0: Graph, was: Strs, g: Graph, p: Pool, start: nat, id: nat, k: nat)
    requires Progress(g0, was, g, p, start, id, k) && NamesInRange(g0, was)
    ensures |g| == |g0| && (id < |g| ==> RecRemapped(was, p, g0[id], g[id], k) && NameCount(g[id]) == NameCount(g0[id]))
    ensures id < |g| && k < NameCount(g[id]) ==> OffInRange(was, Name(g[id], k))
  {
    if id < |g| {
      RecNext(was, p, g0[id], g[id], k);
      if k < NameCount(g0[id]) {
        assert OffInRange(was, Name(g0[id], k));
      }
    }
  }

  lemma ProgressName(g0: Graph, was: Strs, g: Graph, p: Pool, p': Pool, start: nat, id: nat, k: nat, off: u32)
    requires Progress(g0, was, g, p, start, id, k) && id < |g| && k < NameCount(g[id])
    requires More(p, p') && OffRemapped(was, p', Name(g[id], k), off)
    ensures NamePos(g[id], k) < |g[id]| && NamePos(g[id], k) != 1
    ensures Progress(g0, was, g[id := g[id][NamePos(g[id], k) := off]], p', start, id, k + 1)
  {
    hide RecRemapped, OffRemapped, More;
    forall j | start <= j < id
      ensures RecRemapped(was, p', g0[j], g[j], NameCount(g0[j]))
    {
      MoreKeepsRec(was, p, p', g0[j], g[j], NameCount(g0[j]));
    }
    MoreKeepsRec(was, p, p', g0[id], g[id], k);
    RecSet(was, p', g0[id], g[id], k, off);
  }

  lemma ProgressType(g0: Graph, was: Strs, g: Graph, p: Pool, start: nat, id: nat, k: nat)
    requires WfGraph(g0) && Progress(g0, was, g, p, start, id, k) && 0 < start && id < |g| && k >= NameCount(g[id])
    ensures Progress(g0, was, g, p, start, id + 1, 0)
  {
    RecNext(was, p, g0[id], g[id], k);
    if id + 1 < |g| {
      RecStarts(was, p, g0[id + 1]);
    }
  }

  lemma UsedName(g: Graph, p: Pool, p': Pool, hasBase: bool, start: nat, id: nat, k: nat, g': Graph, off: u32)
    requires Used(g, p, hasBase, start, id, k) && p'.base == p.base && start <= id < |g|
    requires forall o :: o in p'.own.offs ==> o in p.own.offs || |p.base.live| + o == off
    requires |g'| == |g| && (forall x :: 0 <= x < |g| && x != id ==> g'[x] == g[x])
    requires k < NameCount(g'[id]) == NameCount(g[id]) && Name(g'[id], k) == off
    requires forall j :: 0 <= j < NameCount(g[id]) && j != k ==> Name(g'[id], j) == Name(g[id], j)
    ensures Used(g', p', hasBase, start, id, k + 1)
  {
    forall o | o in p'.own.offs && !(o == 0 && !hasBase)
      ensures NamedHere(g', start, id, k + 1, |p.base.live| + o)
    {
      if |p.base.live| + o == off {
        assert Name(g'[id], k) == |p.base.live| + o;
      } else {
        var x, j :| start <= x < |g| && (x < id || (x == id && j < k)) && 0 <= j < NameCount(g[x])
                    && Name(g[x], j) == |p.base.live| + o;
        assert Name(g'[x], j) == |p.base.live| + o;
      }
    }
  }

  lemma UsedType(g: Graph, p: Pool, hasBase: bool, start: nat, id: nat, k: nat)
    requires Used(g, p, hasBase, start, id, k)
    ensures Used(g, p, hasBase, start, id + 1, 0)
  {
    forall o | o in p.own.offs && !(o == 0 && !hasBase)
      ensures NamedHere(g, start, id + 1, 0, |p.base.live| + o)
    {
      var x, j :| start <= x < |g| && (x < id || (x == id && j < k)) && 0 <= j < NameCount(g[x])
                  && Name(g[x], j) == |p.base.live| + o;
      assert x < id + 1;
    }
  }

  // ---- whether there is room ----

  /** Some type of this instance has this name, other than by an offset into the base or by 0. */
  ghost predicate InUse(g: Graph, was: Strs, start: nat, s: CString) {
    exists id, k :: start <= id < |g| && 0 <= k < NameCount(g[id]) && OwnOffset(was, Name(g[id], k))
                    && NameOf(was, Name(g[id], k)) == s
  }

  predicate OwnOffset(was: Strs, off: nat) { off != 0 && off >= |was.base| }

  /** What goes to the new set: the names that the base does not have, and the empty string if
      there is no base. */
  ghost function NewNames(g: Graph, was: Strs, base: Interned, hasBase: bool, start: nat): iset<CString> {
    iset s: CString | (s == [] && !hasBase) || (InUse(g, was, start, s) && !Has(base, s))
  }

  /** The set that is built stays within its limit, and every name can be looked for in the base. */
  ghost predicate NamesFit(g: Graph, was: Strs, p: Pool, hasBase: bool, baseLimit: nat, start: nat) {
    && RoomForAll(p.own, NewNames(g, was, p.base, hasBase, start), MAX_STR_OFFSET)
    && (hasBase ==> forall s :: InUse(g, was, start, s) ==> |p.base.live| + |s| + 1 <= baseLimit)
  }

  lemma NameIsInUse(g0: Graph, was: Strs, g: Graph, p: Pool, start: nat, id: nat, k: nat)
    requires Progress(g0, was, g, p, start, id, k) && id < |g| && k < NameCount(g[id])
    ensures OwnOffset(was, Name(g[id], k)) ==> InUse(g0, was, start, NameOf(was, Name(g[id], k)))
  {
    hide OffRemapped, NameOf;
    RecNext(was, p, g0[id], g[id], k);
    assert Name(g0[id], k) == Name(g[id], k);
  }

  lemma NameFits(g: Graph, was: Strs, p: Pool, hasBase: bool, baseLimit: nat, start: nat, s: CString)
    requires PoolWf(p) && NamesFit(g, was, p, hasBase, baseLimit, start)
    requires InUse(g, was, start, s) || (s == [] && !hasBase)
    ensures hasBase ==> |p.base.live| + |s| + 1 <= baseLimit
    ensures !Has(p.base, s) ==> && |p.own.live| + |s| + 1 <= MAX_STR_OFFSET
                                && NamesFit(g, was, p.(own := Intern(p.own, s).0), hasBase, baseLimit, start)
  {
    hide Has, InUse, Intern, EmptyNames;
    if !Has(p.base, s) {
      RoomStays(p.own, NewNames(g, was, p.base, hasBase, start), MAX_STR_OFFSET, s);
    }
  }

  // ---- the pass ----

  /** The part of `struct btf_dedup` that the pass works on. */
  class StrsDedup {
    const btf: Btf
    const strs: BtfStrs
    /** `strs_set` */
    const strsSet: StrSet

    constructor (btf: Btf, strs: BtfStrs)
      requires strs.Valid()
      ensures this.btf == btf && this.strs == strs && fresh(strsSet) && fresh(strsSet.hash)
      ensures strsSet.Valid() && Bounded(strsSet) && strsSet.State() == Interned([], {})
      ensures strsSet.Limit() == MAX_STR_OFFSET
    {
      this.btf, this.strs := btf, strs;
      strsSet := new StrSet.Empty(MAX_STR_OFFSET);
    }

    ghost function Repr(): set<object>
      reads strs
    {
      {strsSet, strsSet.hash} + strs.Repr()
    }

    /** What the pass writes to: the new set and, for probes, the set of the base. */
    ghost function Work(): set<object> {
      {strsSet, strsSet.hash} + if strs.base == null then {} else {strs.base}
    }

    ghost predicate Valid()
      reads this, strs, Repr()
    {
      && strs.Valid() && strsSet.Valid() && Bounded(strsSet)
      && {strsSet, strsSet.hash} !! strs.Repr()
    }

    /** The strings the types have been using. */
    ghost function Was(): Strs
      requires Valid()
      reads this, strs, Repr()
    {
      strs.State()
    }

    ghost function Now(): Pool
      requires Valid()
      reads this, strs, Repr()
    {
      Pool(if strs.base == null then Interned([], {}) else strs.base.State(), strsSet.State())
    }

    ghost function BaseLimit(): nat
      reads strs, strs.base
    {
      if strs.base == null then 0 else strs.base.Limit()
    }

    /** There is room to look for this string in the base. */
    ghost predicate FitsBase(s: CString)
      reads strs, strs.base
    {
      strs.base != null ==> strs.base.Fits(s)
    }

    /** The name an offset of this instance denotes, by `btf__str_by_offset`. */
    method OwnName(strOff: u32, startStrOff: nat) returns (s: CString)
      requires Valid() && OffInRange(Was(), strOff) && |Was().base| == startStrOff <= strOff
      ensures s == NameOf(Was(), strOff)
    {
      hide HashMap.Valid, HashMap.Contents, StrAt;
      LiveStringsAreStable(Was().own, strs.strsSet.data, strOff - startStrOff);
      s := StrAt(strs.strsSet.data, strOff - startStrOff);
    }

    /** `btf__find_str` in the base. */
    method FindInBase(s: CString) returns (off: int)
      requires Valid() && strs.base != null
      modifies strs.base`data
      ensures Valid() && Was() == old(Was()) && Now() == old(Now()) && BaseLimit() == old(BaseLimit())
      ensures (off == ENOMEM <==> !old(FitsBase(s))) && (off == ENOMEM || off == ENOENT || off >= 0)
      ensures off >= 0 ==> Has(Now().base, s) && off == OffsetOf(Now().base, s) < |Now().base.live|
      ensures off == ENOENT ==> !Has(Now().base, s)
    {
      hide HashMap.Valid, HashMap.Contents, StrAt, Has, OffsetOf, Wf;
      OffsetDenotes(Now().base, s);
      off := strs.base.FindStr(s);
    }

    /** `strset__add_str` to the new set. */
    method AddToSet(s: CString) returns (off: int)
      requires Valid() && PoolWf(Now())
      modifies strsSet, strsSet.hash
      ensures Valid() && Was() == old(Was()) && More(old(Now()), Now()) && PoolWf(Now())
      ensures (off == ENOMEM <==> !old(strsSet.Fits(s))) && strsSet.Limit() == old(strsSet.Limit())
      ensures off == ENOMEM || 0 <= off < |Now().own.live|
      ensures Now().base == old(Now()).base && Now().own == if off < 0 then old(Now()).own
                else Intern(old(Now()).own, s).0
      ensures off >= 0 ==> off in Now().own.offs && StrAt(Now().own.live, off) == s
      ensures off >= 0 ==> Now().own.offs <= old(Now()).own.offs + {off}
    {
      hide HashMap.Valid, HashMap.Contents, StrAt, Has, Intern, OffsetOf, Wf, EachOnce, EmptyNames;
      InternIsMore(Now(), s);
      NewSetMayGrow();
      off := strsSet.AddStr(s);
      MoreRefl(old(Now()));
    }

    lemma NewSetMayGrow()
      requires Valid()
      ensures !strsSet.hash.Full()
    {
      strsSet.IndexMayGrow();
    }

    /** `strs_dedup_remap_str_off`. It fails exactly if a string that is to be looked for does not
        fit behind those of the base, or behind those of the set if the base does not have it. */
    method RemapStrOff(strOff: u32) returns (err: int, off: u32)
      requires Valid() && OffInRange(Was(), strOff) && EmptyNames(Was()) && PoolWf(Now())
      modifies Work()
      ensures Valid() && Was() == old(Was()) && More(old(Now()), Now()) && PoolWf(Now()) && err in {0, ENOMEM}
      ensures BaseLimit() == old(BaseLimit()) && strsSet.Limit() == old(strsSet.Limit())
      ensures err == 0 <==> OwnOffset(Was(), strOff) ==>
                var s := NameOf(Was(), strOff);
                old(FitsBase(s)) && (Has(Now().base, s) || old(strsSet.Fits(s)))
      ensures err == 0 ==> OffRemapped(Was(), Now(), strOff, off)
      ensures Now().base == old(Now()).base
      ensures err == 0 ==> Now().own == if OwnOffset(Was(), strOff) && !Has(Now().base, NameOf(Was(), strOff))
                then Intern(old(Now()).own, NameOf(Was(), strOff)).0 else old(Now()).own
      ensures err == 0 ==> forall o :: o in Now().own.offs ==> o in old(Now()).own.offs || |Now().base.live| + o == off
    {
      hide HashMap.Valid, HashMap.Contents, StrSet.Valid, StrSet.Limit, StrAt, Has, Intern, OffsetOf, PoolWf, More,
        OffRemapped, NameOf;
      MoreRefl(Now());
      PoolBounds();
      err, off := 0, strOff;
      var startStrOff := if strs.base == null then 0 else strs.base.len;
      if strOff == 0 || strOff < startStrOff {
        StaysPut(Was(), Now(), strOff);
        return;
      }
      var s := OwnName(strOff, startStrOff);
      if strs.base != null {
        FoundInBase(Was(), Now(), strOff);
        var found := FindInBase(s);
        if found >= 0 { return 0, found; }
        if found != ENOENT { return found, strOff; }
      }
      var added := AddToSet(s);
      if added < 0 { return added, strOff; }
      PoolBounds();
      off := startStrOff + added;
      OnlyInSet(Was(), Now(), strOff, added);
    }

    /** The pass over the types so far. */
    ghost predicate Going(g0: Graph, was: Strs, id: nat, k: nat)
      reads this, btf, strs, Repr()
    {
      && Valid() && btf.Valid() && Was() == was && PoolWf(Now())
      && Progress(g0, was, btf.Types(), Now(), btf.StartId(), id, k)
      && Used(btf.Types(), Now(), btf.hasBase, btf.StartId(), id, k)
      && (btf.hasBase <==> strs.base != null) && strsSet.Limit() == MAX_STR_OFFSET
    }

    /** There is room for all names. */
    ghost predicate AllFit(g0: Graph, was: Strs)
      requires Valid()
      reads this, btf, strs, Repr()
    {
      NamesFit(g0, was, Now(), btf.hasBase, BaseLimit(), btf.StartId())
    }

    /** If there is room for all names, there is for the next one, and then for the others. */
    lemma NameHasRoom(id: nat, k: nat, g0: Graph, was: Strs)
      requires Going(g0, was, id, k) && id < |btf.Types()| && k < NameCount(btf.Types()[id]) && AllFit(g0, was)
      ensures var o := Name(btf.Types()[id], k);
              var s := NameOf(was, o);
              OwnOffset(was, o) ==>
                && FitsBase(s) && (Has(Now().base, s) || strsSet.Fits(s))
                && (!Has(Now().base, s) ==>
                      NamesFit(g0, was, Now().(own := Intern(Now().own, s).0), btf.hasBase, BaseLimit(), btf.StartId()))
    {
      hide HashMap.Valid, PoolWf, Progress, Used, NameOf, StrAt, NameCount, Name, Has, Intern, InUse, NamesFit,
        OwnOffset, Wf, HoldsOffs;
      var o := Name(btf.Types()[id], k);
      if OwnOffset(was, o) {
        NameIsInUse(g0, was, btf.Types(), Now(), btf.StartId(), id, k);
        NameFits(g0, was, Now(), btf.hasBase, BaseLimit(), btf.StartId(), NameOf(was, o));
      }
    }

    /** `btf_type_visit_str_offs` with `strs_dedup_remap_str_off`, one of its offsets. */
    method RemapName(id: nat, k: nat, ghost g0: Graph, ghost was: Strs) returns (err: int)
      requires Going(g0, was, id, k) && NamesInRange(g0, was) && EmptyNames(was)
      requires btf.StartId() <= id < btf.TypeCnt() && k < NameCount(btf.Types()[id])
      modifies btf, Work()
      ensures err in {0, ENOMEM} && btf.Valid() && btf.nrTypes == old(btf.nrTypes) && Valid() && Was() == was
      ensures BaseLimit() == old(BaseLimit()) && (old(AllFit(g0, was)) ==> err == 0 && AllFit(g0, was))
      ensures Now().base == old(Now()).base && (err == 0 ==> Going(g0, was, id, k + 1))
    {
      hide HashMap.Valid, HashMap.Contents, StrSet.Valid, BtfStrs.Valid, EmptyNames, PoolWf, Progress, Used,
        OffRemapped, More, NamesInRange, SizeOfInfo, NameOf, StrAt, NameCount, NamePos, Name, Has, Intern, InUse,
        NamesFit, StrSet.Limit, OwnOffset;
      ghost var g, p := btf.Types(), Now();
      ProgressAt(g0, was, g, p, btf.StartId(), id, k);
      var r := btf.TypeById(id);
      if AllFit(g0, was) { NameHasRoom(id, k, g0, was); }
      var off;
      err, off := RemapStrOff(Name(r, k));
      assert Now().base == p.base by { MoreKeepsBase(p, Now()); }
      if err != 0 { return; }
      NextRemapped(g0, was, g, p, Now(), btf.hasBase, btf.StartId(), id, k, off);
      btf.SetWord(id, NamePos(r, k), off);
    }

    /** `btf_type_visit_str_offs` with `strs_dedup_remap_str_off`, on one type. */
    method RemapNames(id: nat, ghost g0: Graph, ghost was: Strs) returns (err: int)
      requires Going(g0, was, id, 0) && NamesInRange(g0, was) && EmptyNames(was) && WfGraph(g0)
      requires btf.StartId() <= id < btf.TypeCnt()
      modifies btf, Work()
      ensures err in {0, ENOMEM} && btf.Valid() && btf.nrTypes == old(btf.nrTypes) && Valid() && Was() == was
      ensures BaseLimit() == old(BaseLimit()) && (old(AllFit(g0, was)) ==> err == 0 && AllFit(g0, was))
      ensures Now().base == old(Now()).base && (err == 0 ==> Going(g0, was, id + 1, 0))
    {
      hide HashMap.Valid, HashMap.Contents, StrSet.Valid, BtfStrs.Valid, EmptyNames, PoolWf, Progress, Used,
        NamesInRange, SizeOfInfo, NameOf, StrAt, WfGraph, NameCount, AllFit, BaseLimit, StrSet.Limit;
      ghost var base, limit, fit := Now().base, BaseLimit(), AllFit(g0, was);
      err := 0;
      var k := 0;
      ProgressAt(g0, was, btf.Types(), Now(), btf.StartId(), id, k);
      while k < NameCount(btf.TypeById(id))
        invariant btf.nrTypes == old(btf.nrTypes) && Going(g0, was, id, k) && Now().base == base && BaseLimit() == limit
        invariant fit ==> AllFit(g0, was)
        invariant k <= NameCount(btf.Types()[id]) == NameCount(g0[id])
        decreases NameCount(g0[id]) - k
      {
        err := RemapName(id, k, g0, was);
        if err != 0 { return; }
        k := k + 1;
        ProgressAt(g0, was, btf.Types(), Now(), btf.StartId(), id, k);
      }
      ProgressType(g0, was, btf.Types(), Now(), btf.StartId(), id, k);
      UsedType(btf.Types(), Now(), btf.hasBase, btf.StartId(), id, k);
    }

    /** `btf_for_each_str_off`. */
    method RemapAllNames(ghost g0: Graph, ghost was: Strs) returns (err: int)
      requires Going(g0, was, btf.StartId(), 0) && NamesInRange(g0, was) && EmptyNames(was) && WfGraph(g0)
      modifies btf, Work()
      ensures err in {0, ENOMEM} && btf.Valid() && btf.nrTypes == old(btf.nrTypes) && Valid() && Was() == was
      ensures BaseLimit() == old(BaseLimit()) && (old(AllFit(g0, was)) ==> err == 0 && AllFit(g0, was))
      ensures Now().base == old(Now()).base && (err == 0 ==> Going(g0, was, btf.TypeCnt(), 0))
    {
      hide HashMap.Valid, HashMap.Contents, StrSet.Valid, BtfStrs.Valid, EmptyNames, PoolWf, Progress, Used,
        NamesInRange, SizeOfInfo, NameOf, StrAt, WfGraph, AllFit, BaseLimit, StrSet.Limit;
      ghost var base, limit, fit := Now().base, BaseLimit(), AllFit(g0, was);
      err := 0;
      var i := 0;
      while i < btf.nrTypes
        invariant 0 <= i <= btf.nrTypes == old(btf.nrTypes)
        invariant Going(g0, was, btf.StartId() + i, 0) && Now().base == base && BaseLimit() == limit
        invariant fit ==> AllFit(g0, was)
      {
        err := RemapNames(btf.StartId() + i, g0, was);
        if err != 0 { return; }
        i := i + 1;
      }
    }

    lemma EmptyFits(g0: Graph, was: Strs)
      requires Valid() && Now().own == Interned([], {}) && strsSet.Limit() == MAX_STR_OFFSET
      requires !btf.hasBase && strs.base == null
      ensures strsSet.Fits([])
      ensures AllFit(g0, was) ==> NamesFit(g0, was, Pool(Now().base, Interned([0], {0})), false, 0, btf.StartId())
    {
      hide HashMap.Valid, HoldsOffs, InUse, Has, StrAt;
      if AllFit(g0, was) {
        NothingHad([]);
        var none: CString := [];
        assert none + [0] == [0];
        RoomStays(Now().own, NewNames(g0, was, Now().base, false, btf.StartId()), MAX_STR_OFFSET, []);
      }
    }

    /** The empty string goes first if there is no base. */
    method AddEmpty(ghost g0: Graph, ghost was: Strs) returns (err: int)
      requires Valid() && btf.Valid() && Was() == was && btf.Types() == g0 && Now().own == Interned([], {})
      requires WfGraph(g0) && EmptyNames(was) && strsSet.Limit() == MAX_STR_OFFSET
      requires (btf.hasBase <==> strs.base != null) && (btf.hasBase ==> strs.base.len > 0)
      modifies strsSet, strsSet.hash
      ensures Valid() && Was() == was && Now().base == old(Now()).base && BaseLimit() == old(BaseLimit())
      ensures err == 0 && Going(g0, was, btf.StartId(), 0) && (old(AllFit(g0, was)) ==> AllFit(g0, was))
    {
      hide HashMap.Valid, HashMap.Contents, EmptyNames, PoolWf, Progress, Used, WfGraph, Wf, StrAt, NamesFit, Has,
        Intern, StrSet.Limit;
      if !btf.hasBase {
        NothingHad([]);
        NewSetMayGrow();
        EmptyFits(g0, was);
        err := strsSet.AddStr([]);
        if err < 0 { return; }
      }
      err := 0;
      PoolStarts(was, Now(), btf.hasBase);
      ProgressStarts(g0, was, Now(), btf.StartId());
    }

    /** `btf_dedup_strings` without its end. */
    method Run(ghost g0: Graph, ghost was: Strs) returns (err: int)
      requires Valid() && btf.Valid() && Was() == was && btf.Types() == g0 && Now().own == Interned([], {})
      requires WfGraph(g0) && EmptyNames(was) && NamesInRange(g0, was) && strsSet.Limit() == MAX_STR_OFFSET
      requires (btf.hasBase <==> strs.base != null) && (btf.hasBase ==> strs.base.len > 0)
      modifies btf, Work()
      ensures Valid() && btf.Valid() && btf.nrTypes == old(btf.nrTypes) && Now().base == old(Now()).base
      ensures err in {0, ENOMEM} && (old(AllFit(g0, was)) ==> err == 0)
      ensures err == 0 ==> NamesDeduped(g0, was, btf.Types(), Now(), btf.hasBase, btf.StartId())
    {
      hide HashMap.Valid, HashMap.Contents, StrSet.Valid, BtfStrs.Valid, EmptyNames, PoolWf, Progress, Used,
        NamesInRange, WfGraph, Wf, NamesDeduped, NamesFit, StrSet.Limit;
      err := AddEmpty(g0, was);
      if err != 0 { return; }
      err := RemapAllNames(g0, was);
      if err != 0 { return; }
      PassIsDone(g0, was, btf.Types(), Now(), btf.hasBase, btf.StartId());
    }

    lemma PoolBounds()
      requires Valid()
      ensures |Now().base.live| == (if strs.base == null then 0 else strs.base.len)
      ensures |Now().base.live| <= MAX_STR_OFFSET + 1 && |Now().own.live| <= MAX_STR_OFFSET + 1
      ensures Was().base == Now().base.live && (strs.base == null ==> forall s :: !Has(Now().base, s))
    {
    }
  }

  lemma MoreRefl(p: Pool)
    requires PoolWf(p)
    ensures More(p, p)
  {
  }

  lemma StaysPut(was: Strs, p: Pool, o: nat)
    requires EmptyNames(was) && PoolWf(p) && p.base.live == was.base && (o == 0 || o < |was.base|)
    ensures OffRemapped(was, p, o, o)
  {
  }

  lemma FoundInBase(was: Strs, p: Pool, o: nat)
    requires PoolWf(p) && p.base.live == was.base && o > 0 && o >= |was.base|
    ensures Has(p.base, NameOf(was, o)) ==> OffRemapped(was, p, o, OffsetOf(p.base, NameOf(was, o)))
  {
    hide StrAt;
    OffsetDenotes(p.base, NameOf(was, o));
  }

  lemma OnlyInSet(was: Strs, p: Pool, o: nat, added: nat)
    requires o > 0 && o >= |was.base| && p.base.live == was.base && !Has(p.base, NameOf(was, o))
    requires added in p.own.offs && added < |p.own.live| && StrAt(p.own.live, added) == NameOf(was, o)
    ensures OffRemapped(was, p, o, |was.base| + added)
  {
  }

  lemma MoreKeepsBase(p: Pool, p': Pool)
    requires More(p, p')
    ensures p'.base == p.base
  {
  }

  lemma NameSet(g: Graph, id: nat, k: nat, off: u32)
    requires id < |g| && k < NameCount(g[id]) && WfRec(g[id])
    ensures NamePos(g[id], k) < |g[id]|
    ensures var r' := g[id][NamePos(g[id], k) := off];
            && NameCount(r') == NameCount(g[id]) && Name(r', k) == off
            && forall j :: 0 <= j < NameCount(g[id]) && j != k ==> Name(r', j) == Name(g[id], j)
  {
    NamesAreWords(g[id], k);
    forall j | 0 <= j < NameCount(g[id])
      ensures NamePos(g[id], j) < |g[id]|
    {
      NamesAreWords(g[id], j);
    }
  }

  lemma NextRemapped(g0: Graph, was: Strs, g: Graph, p: Pool, p': Pool, hasBase: bool, start: nat, id: nat, k: nat,
                     off: u32)
    requires Progress(g0, was, g, p, start, id, k) && Used(g, p, hasBase, start, id, k)
    requires id < |g| && WfRec(g[id]) && k < NameCount(g[id]) && More(p, p')
    requires OffRemapped(was, p', Name(g[id], k), off)
    requires forall o :: o in p'.own.offs ==> o in p.own.offs || |p.base.live| + o == off
    ensures NamePos(g[id], k) < |g[id]| && NamePos(g[id], k) != 1
    ensures var g' := g[id := g[id][NamePos(g[id], k) := off]];
            Progress(g0, was, g', p', start, id, k + 1) && Used(g', p', hasBase, start, id, k + 1)
  {
    hide OffRemapped, Used, NamePos, NameCount, WfRec, RecRemapped;
    MoreKeepsBase(p, p');
    ProgressName(g0, was, g, p, p', start, id, k, off);
    NameSet(g, id, k, off);
    UsedName(g, p, p', hasBase, start, id, k, g[id := g[id][NamePos(g[id], k) := off]], off);
  }

  ghost function PoolOf(strs: BtfStrs): Pool
    requires strs.Valid()
    reads strs, strs.Repr()
  {
    Pool(if strs.base == null then Interned([], {}) else strs.base.State(), strs.strsSet.State())
  }

  /** The types of this instance have new name offsets for the names they had, and the set has
      nothing else. */
  ghost predicate NamesDeduped(g0: Graph, was: Strs, g: Graph, p: Pool, hasBase: bool, start: nat) {
    && |g| == |g0| && PoolWf(p) && Used(g, p, hasBase, start, |g|, 0)
    && (forall id :: 0 <= id < |g0| && id < start ==> g[id] == g0[id])
    && (forall id :: start <= id < |g0| ==> RecRemapped(was, p, g0[id], g[id], NameCount(g0[id])))
  }

  lemma PassIsDone(g0: Graph, was: Strs, g: Graph, p: Pool, hasBase: bool, start: nat)
    requires |g| == |g0| && Progress(g0, was, g, p, start, |g|, 0) && Used(g, p, hasBase, start, |g|, 0) && PoolWf(p)
    ensures NamesDeduped(g0, was, g, p, hasBase, start)
  {
    hide RecRemapped, Used;
  }

  lemma NothingHad(s: CString)
    ensures !Has(Interned([], {}), s) && Intern(Interned([], {}), s) == (Interned(s + [0], {0}), 0)
  {
    var none := Interned([], {});
    assert none.live + s + [0] == s + [0] && none.offs + {|none.live|} == {0};
  }

  /** The set of a base has the empty string first; without a base the new set gets it now. */
  lemma PoolStarts(was: Strs, p: Pool, hasBase: bool)
    requires EmptyNames(was) && p.base.live == was.base && Wf(p.base)
    requires if hasBase then |was.base| > 0 && p.own == Interned([], {})
               else p == Pool(Interned([], {}), Interned([0], {0}))
    ensures PoolWf(p) && forall g: Graph, start: nat, id: nat, k: nat :: Used(g, p, hasBase, start, id, k)
  {
  }

  /** The strings are deduplicated already, or there is room for the names in use. */
  ghost predicate StringsFit(btf: Btf, strs: BtfStrs)
    requires strs.Valid()
    reads btf, strs, strs.Repr()
  {
    || strs.strsDeduped
    || NamesFit(btf.Types(), strs.State(), PoolOf(strs).(own := Interned([], {})), btf.hasBase,
                if strs.base == null then 0 else strs.base.Limit(), btf.StartId())
  }

  /** `btf_dedup_strings`. */
  method DedupStrings(btf: Btf, strs: BtfStrs) returns (err: int)
    requires btf.Valid() && strs.Valid() && (btf.hasBase <==> strs.base != null) && (btf.hasBase ==> strs.base.len > 0)
    requires WfGraph(btf.Types()) && NamesInRange(btf.Types(), strs.State()) && EmptyNames(strs.State())
    modifies btf, strs, strs.Repr()
    ensures btf.Valid() && strs.Valid() && btf.nrTypes == old(btf.nrTypes) && err in {0, ENOMEM}
    ensures fresh(strs.Repr() - old(strs.Repr()))
    ensures PoolOf(strs).base == old(PoolOf(strs)).base && (err == 0 ==> strs.strsDeduped)
    ensures err != 0 || old(strs.strsDeduped) ==> PoolOf(strs) == old(PoolOf(strs))
    ensures old(strs.strsDeduped) ==> err == 0 && btf.Types() == old(btf.Types())
    ensures old(StringsFit(btf, strs)) ==> err == 0
    ensures err == 0 && !old(strs.strsDeduped) ==>
              NamesDeduped(old(btf.Types()), old(strs.State()), btf.Types(), PoolOf(strs), btf.hasBase, btf.StartId())
  {
    hide HashMap.Valid, HashMap.Contents, HashMap.SizesAgree, HashMap.AtHome, HashMap.KeyChain, EmptyNames, PoolWf,
      Used, NamesInRange, NameOf, StrAt, WfGraph, Wf, NamesDeduped, HoldsOffs, HashAt, EqualAt, Btf.Valid, NamesFit;
    err := 0;
    if strs.strsDeduped { return; }
    ghost var g0, was := btf.Types(), strs.State();
    var d := new StrsDedup(btf, strs);
    err := d.Run(g0, was);
    if err != 0 { return; }
    strs.strsSet := d.strsSet;
    strs.strsDeduped := true;
  }
}
