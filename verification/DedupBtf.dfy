/** `btf__dedup`: strings and types (btf.c, lines 3024-3086). */
module DedupBtf {
  import opened BtfTypes
  import opened BtfGraph
  import opened BtfTable
  import opened BtfNames
  import opened StrSets
  import opened HashMaps
  import opened AddBtf
  import opened Dedup
  import opened DedupInv
  import opened DedupEquiv
  import opened DedupRef
  import opened DedupApart
  import opened DedupLoops
  import opened DedupFinal
  import opened DedupStrs
  import opened DedupNamed

  /** What it takes for types of the same content to be found equal: offsets that tell the names of
      the types apart, or, before they have been deduplicated, offsets into the base that do.  Without
      a base that asks for nothing. */
  ghost predicate NamesTold(g: Graph, p: Pool, deduped: bool) {
    if deduped then NamesUnique(g, StrsOf(p)) else BaseOffsetsAgree(g, StrsOf(p), p.base)
  }

  /** The pass over the strings leaves a graph that means what it did, in which offsets tell names
      apart exactly if they could. */
  lemma StringsDeduped(g0: Graph, p0: Pool, deduped: bool, g: Graph, p: Pool, hasBase: bool, start: nat)
    requires WfGraph(g0) && WfNames(g0, StrsOf(p0), start) && 0 < start <= |g0| && p.base == p0.base
    requires if deduped then g == g0 && p == p0 else NamesDeduped(g0, StrsOf(p0), g, p, hasBase, start)
    ensures WfGraph(g) && SameButOffsets(g0, StrsOf(p0), g, StrsOf(p)) && NamesInRange(g, StrsOf(p))
    ensures NamesUnique(g, StrsOf(p)) <==> NamesTold(g0, p0, deduped)
    ensures |g| == |g0| && forall id :: 0 <= id < start ==> g[id] == g0[id]
    ensures forall id :: 0 <= id < |g| ==> g[id][1] == g0[id][1]
  {
    hide WfGraph, NamesUnique, BaseOffsetsAgree, Label;
    if !deduped {
      DedupedIsSameButOffsets(g0, StrsOf(p0), g, p, hasBase, start);
      UniqueExactly(g0, StrsOf(p0), g, p, hasBase, start);
    }
  }

  lemma ContentDeduped(g0: Graph, was: Strs, g1: Graph, st: Strs, told: bool, g: Graph, ids: seq<nat>, start: nat)
    requires WfGraph(g1) && SameButOffsets(g0, was, g1, st) && NamesInRange(g1, st) && (told ==> NamesUnique(g1, st))
    requires DedupOk(g1, g, ids, start)
    requires start <= |g1| && start <= |g| && forall x :: 0 <= x < start ==> g[x] == g1[x]
    ensures KeptByContent(g0, was, g, st, ids, start)
    ensures told ==> SharedByContent(g0, was, g, st, ids, start)
  {
    hide WfGraph, SameButOffsets, NamesInRange, NamesUnique, DedupOk, KeptByContent, SharedByContent;
    DedupKeepsContent(g0, was, g1, st, g, ids, start);
    if told {
      DedupSharesContent(g0, was, g1, st, g, ids, start);
    }
  }

  lemma LoopsAlike(g0: Graph, was: Strs, g1: Graph, st: Strs, start: nat)
    requires SameButOffsets(g0, was, g1, st)
    ensures RefLoop(g1, start) <==> RefLoop(g0, start)
    ensures StructMeetsUncompared(g1, start) ==> StructMeetsUncompared(g0, start)
  {
    hide SameButOffsets, RefLoop, StructMeetsUncompared;
    RefLoopAlike(g0, was, g1, st, start);
    if StructMeetsUncompared(g1, start) {
      UncomparedAlike(g0, was, g1, st, start);
    }
  }

  /** The objects of the passes over the types are not those of the strings. */
  ghost predicate Apart(d: BtfDedup, strs: BtfStrs)
    reads strs
  {
    {d.btf, d.canon, d.hypotMap, d.table} !! strs.Repr() + {strs}
  }

  /** `btf_dedup_new` and `btf_dedup_prep`. */
  method Begin(btf: Btf, forceCollisions: bool) returns (err: int, d: BtfDedup)
    requires btf.Valid() && WfGraph(btf.Types())
    ensures err == 0 && fresh(d) && fresh(d.canon) && fresh(d.hypotMap) && fresh(d.table) && d.btf == btf
    ensures d.Inv(0) && d.HypInv() && Prepared(btf.Types(), d.canon[..], btf.StartId())
    ensures OnlyBaseCands(d.table.Contents(), btf.StartId())
  {
    hide MapInv, TableInv, WfGraph, Prepared, OnlyBaseCands, HypOk, HashMap.Valid, HashMap.Contents, HashMap.Lawful;
    d := new BtfDedup(btf, forceCollisions);
    err := d.Prep();
  }

  /** The pass over the strings, between `btf_dedup_prep` and the passes over the types. */
  method DedupNames(d: BtfDedup, strs: BtfStrs) returns (err: int)
    requires d.Inv(0) && d.HypInv() && Prepared(d.btf.Types(), d.canon[..], d.btf.StartId())
    requires OnlyBaseCands(d.table.Contents(), d.btf.StartId()) && Apart(d, strs)
    requires strs.Valid() && (d.btf.hasBase <==> strs.base != null) && (d.btf.hasBase ==> strs.base.len > 0)
    requires WfNames(d.btf.Types(), strs.State(), d.btf.StartId())
    modifies d.btf, strs, strs.Repr()
    ensures d.btf.Valid() && strs.Valid() && err in {0, ENOMEM} && (old(StringsFit(d.btf, strs)) ==> err == 0)
    ensures err == 0 ==> && d.Inv(0) && d.HypInv() && Prepared(d.btf.Types(), d.canon[..], d.btf.StartId())
                         && Apart(d, strs) && NamesInRange(d.btf.Types(), strs.State())
    ensures err == 0 ==> SameButOffsets(old(d.btf.Types()), old(strs.State()), d.btf.Types(), strs.State())
    ensures err == 0 ==> (NamesUnique(d.btf.Types(), strs.State())
                          <==> NamesTold(old(d.btf.Types()), old(PoolOf(strs)), old(strs.strsDeduped)))
  {
    hide MapInv, TableInv, WfGraph, Prepared, OnlyBaseCands, NamesTold, NamesUnique, SameButOffsets, NamesInRange,
      NamesDeduped, WfNames, HypOk, HashMap.Valid, HashMap.Contents, HashMap.Lawful, BtfStrs.Valid;
    ghost var g0, p0, deduped, start := d.btf.Types(), PoolOf(strs), strs.strsDeduped, d.btf.StartId();
    NamesAreUsable(g0, StrsOf(p0), start);
    err := DedupStrings(d.btf, strs);
    if err != 0 { return; }
    ghost var g1 := d.btf.Types();
    StringsDeduped(g0, p0, deduped, g1, PoolOf(strs), d.btf.hasBase, start);
    StillPrepared(g0, g1, d.canon[..], d.table.Contents(), start);
  }

  lemma NamesAreUsable(g: Graph, st: Strs, start: nat)
    requires WfNames(g, st, start)
    ensures NamesInRange(g, st) && EmptyNames(st)
  {
  }

  /** `btf__dedup`: ids gives the final id of every original type. */
  method DedupAll(btf: Btf, strs: BtfStrs, forceCollisions: bool) returns (err: int, ghost ids: seq<nat>)
    requires btf.Valid() && strs.Valid() && (btf.hasBase <==> strs.base != null) && (btf.hasBase ==> strs.base.len > 0)
    requires WfGraph(btf.Types()) && BaseClosed(btf.Types(), btf.StartId())
    requires WfNames(btf.Types(), strs.State(), btf.StartId())
    modifies btf, strs, strs.Repr()
    ensures btf.Valid() && strs.Valid() && err in {0, EINVAL, ELOOP, ENOMEM}
    ensures err == 0 ==>
              KeptByContent(old(btf.Types()), old(strs.State()), btf.Types(), strs.State(), ids, btf.StartId())
    ensures err == 0 && NamesTold(old(btf.Types()), old(PoolOf(strs)), old(strs.strsDeduped)) ==>
              SharedByContent(old(btf.Types()), old(strs.State()), btf.Types(), strs.State(), ids, btf.StartId())
    ensures err == 0 ==> !RefLoop(old(btf.Types()), btf.StartId())
    ensures err == ELOOP ==> RefLoop(old(btf.Types()), btf.StartId())
    ensures err == EINVAL ==> StructMeetsUncompared(old(btf.Types()), btf.StartId())
    ensures err == ENOMEM ==> !old(StringsFit(btf, strs))
    ensures var g := old(btf.Types());
            old(StringsFit(btf, strs)) && !RefLoop(g, btf.StartId()) && !StructMeetsUncompared(g, btf.StartId()) ==>
              err == 0
  {
    hide MapInv, TableInv, WfGraph, RefLoop, DedupOk, StructMeetsUncompared, BaseClosed, Prepared, OnlyBaseCands,
      NamesTold, NamesUnique, SameButOffsets, NamesInRange, KeptByContent, SharedByContent, WfNames, StringsFit,
      HypOk, HashMap.Valid, HashMap.Contents, HashMap.Lawful, BtfStrs.Valid, BtfStrs.State;
    ghost var g0, was, start := btf.Types(), strs.State(), btf.StartId();
    ghost var told := NamesTold(g0, PoolOf(strs), strs.strsDeduped);
    ids := [];
    var d;
    err, d := Begin(btf, forceCollisions);
    if err != 0 { return; }
    err := DedupNames(d, strs);
    if err != 0 { return; }
    ghost var g1, st := btf.Types(), strs.State();
    LoopsAlike(g0, was, g1, st, start);
    BaseAlike(g0, was, g1, st, start);
    err, ids := d.DedupTypes();
    if err != 0 { return; }
    ContentDeduped(g0, was, g1, st, told, btf.Types(), ids, start);
  }

  // ---- names in the base that offsets do not tell apart ----

  /** Base strings with two copies of "a", as their index knows them. */
  const TwoAs: Interned := Interned([0, 97, 0, 97, 0], {0, 1})

  function IntNamed(off: u32): Rec { [off, 0x100_0000, 4, 32] }

  /** The same int twice, once under each copy. */
  const TwoInts: Graph := [VOID, IntNamed(1), IntNamed(3)]

  /** They are the same by content, they are not the same after the pass over the strings, and no
      run of the other passes makes one type of them. */
  lemma CopiesInBaseStayApart(p0: Pool, g: Graph, p: Pool, g': Graph, ids: seq<nat>)
    requires p0.base == TwoAs && p.base == p0.base && NamesDeduped(TwoInts, StrsOf(p0), g, p, true, 1) && WfGraph(g)
    requires DedupOk(g, g', ids, 1)
    ensures SameByContent(TwoInts[1], StrsOf(p0), TwoInts[2]) && !NamesTold(TwoInts, p0, false)
    ensures 0 < ids[1] < |g'| && 0 < ids[2] < |g'| && ids[1] != ids[2]
    ensures SameByContent(g'[ids[1]], StrsOf(p), g'[ids[2]])
  {
    hide Wf, EachOnce, DedupOk, WfGraph;
    BothAreA(StrsOf(p0));
    BothAreA(StrsOf(p));
    assert !BaseOffsetAgrees(StrsOf(p0), TwoAs, Name(TwoInts[1], 0), Name(TwoInts[2], 0));
    IntStays(p0, g, p, 1);
    IntStays(p0, g, p, 2);
    FinalInt(g, g', ids, 1);
    FinalInt(g, g', ids, 2);
  }

  lemma BothAreA(st: Strs)
    requires st.base == TwoAs.live
    ensures NameOf(st, 1) == NameOf(st, 3) == [97] && SameByContent(IntNamed(1), st, IntNamed(3))
  {
    ProbeIsRead(st.base, 1, [97]);
    ProbeIsRead(st.base, 3, [97]);
  }

  lemma IntStays(p0: Pool, g: Graph, p: Pool, id: nat)
    requires p0.base == TwoAs && p.base == p0.base && NamesDeduped(TwoInts, StrsOf(p0), g, p, true, 1) && 1 <= id <= 2
    ensures g[id] == TwoInts[id]
  {
    hide PoolWf, Used;
    assert RecRemapped(StrsOf(p0), p, TwoInts[id], g[id], NameCount(TwoInts[id]));
    assert OffRemapped(StrsOf(p0), p, Name(TwoInts[id], 0), Name(g[id], 0));
    assert |g[id]| == 4 && g[id][2] == 4 && g[id][3] == 32;
  }

  lemma FinalInt(g: Graph, g': Graph, ids: seq<nat>, id: nat)
    requires WfGraph(g) && |g| == 3 && g[1] == IntNamed(1) && g[2] == IntNamed(3) && 1 <= id <= 2
    requires DedupOk(g, g', ids, 1)
    ensures 0 < ids[id] < |g'| && g'[ids[id]] == g[id]
  {
    hide ComesFrom, MaximallyShared, LeftApart, EdgeKind, Shape, RefCount;
    assert g[0] == VOID && g'[0] == VOID;
    hide WfGraph;
    assert NoForwards(g);
    assert SameMeaning(g', ids[id], g, id);
    assert Unfold(g', ids[id], 1) == Unfold(g, id, 1);
    UnfoldInverse(g', ids[id], g, id, 0, 0);
  }
}
