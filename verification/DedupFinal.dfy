/** The whole of BTF dedup: what compaction and remapping make of the canonical map. */
module DedupFinal {
  import opened BtfTypes
  import opened BtfGraph
  import opened BtfEqual
  import opened BtfTable
  import opened Forest
  import opened HashMaps
  import opened DedupInv
  import opened DedupPaths
  import opened DedupApart
  import opened DedupRef

  ghost predicate AllMapped(m: IdMap) {
    forall id :: 0 <= id < |m| ==> Mapped(m, id)
  }

  /** The final id of every original one. */
  ghost function FinalIds(m: IdMap, newIds: IdMap): (ids: seq<nat>)
    requires IsForest(m) && |newIds| == |m|
    ensures |ids| == |m|
  {
    seq(|m|, id requires 0 <= id < |m| => FinalId(m, newIds, id))
  }

  ghost function FinalId(m: IdMap, newIds: IdMap, id: nat): nat
    requires IsForest(m) && |newIds| == |m| && id < |m|
  {
    ResolveStep(m, id);
    newIds[Resolve(m, id)]
  }

  /** r' is r with every reference replaced by its final id. */
  ghost predicate Remapped(r: Rec, r': Rec, ids: seq<nat>) {
    SameShape(r', r) && forall k :: 0 <= k < RefCount(r) ==> Ref(r, k) < |ids| && Ref(r', k) == ids[Ref(r, k)]
  }

  /** Types of a base refer to the base only. */
  ghost predicate BaseClosed(g: Graph, start: nat) {
    0 < start <= |g| && forall id :: 0 <= id < start ==> RefsInRange(g[id], start)
  }

  /** g' is g compacted to the canonical types, with all references remapped. */
  ghost predicate Compacted(g: Graph, m: IdMap, newIds: IdMap, start: nat, g': Graph)
    requires |m| == |g| && IsForest(m) && |newIds| == |m| && start <= |g|
  {
    var kept := KeptIds(m, start, |g| - start);
    && |g'| == start + |kept|
    && (forall id :: 0 <= id < start ==> g'[id] == g[id])
    && (forall j :: 0 <= j < |kept| ==> kept[j] < |g| && Remapped(g[kept[j]], g'[start + j], FinalIds(m, newIds)))
  }

  lemma {:induction false} KeptIdAt(m: IdMap, start: nat, n: nat, id: nat)
    requires start + n <= |m| && start <= id < start + n && m[id] == id
    ensures var k := |KeptIds(m, start, id - start)|; k < |KeptIds(m, start, n)| && KeptIds(m, start, n)[k] == id
    decreases n
  {
    if id < start + n - 1 {
      KeptIdAt(m, start, n - 1, id);
    }
  }

  lemma {:induction false} KeptIdsAre(m: IdMap, start: nat, n: nat)
    requires start + n <= |m|
    ensures var ids := KeptIds(m, start, n);
            && |ids| <= n
            && (forall j :: 0 <= j < |ids| ==> start <= ids[j] < start + n && m[ids[j]] == ids[j])
            && (forall j :: 0 <= j < |ids| ==> |KeptIds(m, start, ids[j] - start)| == j)
  {
    if n > 0 {
      KeptIdsAre(m, start, n - 1);
    }
  }

  /** Once every type is mapped, every id has a final id: remapping cannot fail. */
  lemma EveryIdHasFinalId(g: Graph, m: IdMap, newIds: IdMap, start: nat, id: nat)
    requires MapInv(g, m, 0) && AllMapped(m) && 0 < start <= |g| && id < |g|
    requires NewIdsUpto(newIds, m, start, |g| - start, |g| - start)
    ensures var r, f := Resolve(m, id), FinalId(m, newIds, id);
            && r < |m| && m[r] == r && f < start + |KeptIds(m, start, |g| - start)|
            && (if r < start then f == r
                else f >= start && KeptIds(m, start, |g| - start)[f - start] == r)
  {
    hide KindsAgree, TargetsMapped, Sound, NoForwards, WfGraph, IsForest, KeptIds;
    assert Mapped(m, id);
    MappedResolves(g, m, 0, id);
    var r := Resolve(m, id);
    assert Mapped(m, r);
    if r >= start {
      KeptIdAt(m, start, |g| - start, r);
    }
  }

  /** The final graph is well formed: every remapped reference leads to a type of it. */
  lemma CompactedIsWf(g: Graph, m: IdMap, newIds: IdMap, start: nat, g': Graph)
    requires MapInv(g, m, 0) && AllMapped(m) && BaseClosed(g, start)
    requires NewIdsUpto(newIds, m, start, |g| - start, |g| - start)
    requires Compacted(g, m, newIds, start, g')
    ensures WfGraph(g')
  {
    hide KindsAgree, TargetsMapped, Sound, NoForwards, IsForest, KeptIds, Remapped, NewIdsUpto, WfRec;
    KeptIdsAre(m, start, |g| - start);
    forall id | 0 < id < |g'|
      ensures WfRec(g'[id])
    {
      CompactedTypeIsWf(g, m, newIds, start, g', id);
    }
    forall id | 0 <= id < |g'|
      ensures RefsInRange(g'[id], |g'|)
    {
      if 0 < id { CompactedTypeIsWf(g, m, newIds, start, g', id); }
    }
  }

  lemma CompactedTypeIsWf(g: Graph, m: IdMap, newIds: IdMap, start: nat, g': Graph, id: nat)
    requires MapInv(g, m, 0) && AllMapped(m) && BaseClosed(g, start)
    requires NewIdsUpto(newIds, m, start, |g| - start, |g| - start)
    requires Compacted(g, m, newIds, start, g') && 0 < id < |g'|
    ensures WfRec(g'[id]) && RefsInRange(g'[id], |g'|)
  {
    hide KindsAgree, TargetsMapped, Sound, NoForwards, WfGraph, IsForest, KeptIds;
    if id < start {
      assert RefsInRange(g[id], start);
      WfAt(g, id);
    } else {
      KeptIdsAre(m, start, |g| - start);
      var c := KeptIds(m, start, |g| - start)[id - start];
      assert Remapped(g[c], g'[id], FinalIds(m, newIds));
      WfAt(g, c);
      SameShapeCounts(g'[id], g[c]);
      forall k | 0 <= k < RefCount(g'[id])
        ensures Ref(g'[id], k) < |g'|
      {
        RefInGraph(g, c, k);
        EveryIdHasFinalId(g, m, newIds, start, Ref(g[c], k));
      }
    }
  }

  /** Without forward declarations every type of the base stays where it is. */
  lemma BaseStays(g: Graph, m: IdMap, tbl: multiset<Cand>, start: nat)
    requires MapInv(g, m, 0) && TableInv(g, m, tbl, start) && AllMapped(m) && NoForwards(g) && start <= |g|
    ensures forall id :: 0 <= id < start ==> m[id] == id && Resolve(m, id) == id
  {
    forall id | 0 <= id < start
      ensures m[id] == id && Resolve(m, id) == id
    {
      assert Mapped(m, id);
      if 0 < id && !IsVarOrDatasec(g[id]) {
        var e := Entry(SignatureHash(g[id]), id);
        assert e in tbl && CandOk(g, m, e);
      }
      ResolveStep(m, id);
    }
  }

  /** Compaction and remapping preserve meaning: at every depth, an original id and its final
      id unfold to the same tree. */
  lemma {:induction false} CompactedUnfold(g: Graph, m: IdMap, newIds: IdMap, start: nat, g': Graph, id: nat, n: nat)
    requires MapInv(g, m, 0) && AllMapped(m) && BaseClosed(g, start) && NoForwards(g) && WfGraph(g')
    requires NewIdsUpto(newIds, m, start, |g| - start, |g| - start)
    requires forall b :: 0 <= b < start ==> m[b] == b && Resolve(m, b) == b
    requires Compacted(g, m, newIds, start, g') && id < |g|
    ensures FinalId(m, newIds, id) < |g'| && Unfold(g', FinalId(m, newIds, id), n) == Unfold(g, id, n)
    decreases n
  {
    hide WfGraph, NoForwards, KindsAgree, TargetsMapped, Sound, SameShape, IsForest;
    var r, f := Resolve(m, id), FinalId(m, newIds, id);
    EveryIdHasFinalId(g, m, newIds, start, id);
    RootMeansTheSame(g, m, id);
    assert Unfold(g, id, n) == Unfold(g, r, n);
    if n > 0 {
      SameShapeRefl(g[r]);
      assert r >= start ==> Remapped(g[r], g'[f], FinalIds(m, newIds));
      assert r < start ==> RefsInRange(g[r], start);
      SameShapeCounts(g'[f], g[r]);
      forall k | 0 <= k < RefCount(g'[f])
        ensures Unfold(g', Ref(g'[f], k), n - 1) == Unfold(g, Ref(g[r], k), n - 1)
      {
        RefInGraph(g, r, k);
        CompactedUnfold(g, m, newIds, start, g', Ref(g[r], k), n - 1);
        assert r < start ==> FinalId(m, newIds, Ref(g[r], k)) == Ref(g[r], k);
      }
      UnfoldStep(g', f, g, r, n - 1);
    }
  }

  lemma SameShapeRefl(r: Rec)
    ensures SameShape(r, r)
  {
  }

  lemma SameShapeCounts(a: Rec, b: Rec)
    requires SameShape(a, b)
    ensures RefCount(a) == RefCount(b)
  {
  }

  predicate SharedKind(kind: nat) {
    HasExactEquality(kind) && kind != KIND_FWD
  }

  /** Maximal sharing: no two types of the result compare equal, unless both come from the base.
      Structs are shared by `btf_dedup_is_equiv` instead, and forward declarations are excepted. */
  ghost predicate MaximallyShared(g: Graph, start: nat) {
    forall a, b :: 0 < a < b < |g| && start <= b && SharedKind(Kind(g[b])) ==> g[a] != g[b]
  }

  lemma CanonicalTypesDiffer(g: Graph, m: IdMap, tbl: multiset<Cand>, start: nat, a: nat, b: nat)
    requires WfGraph(g) && |m| == |g| && TableInv(g, m, tbl, start) && AllMapped(m)
    requires 0 < a < b < |g| && start <= b && (a < start || m[a] == a) && m[b] == b && HasExactEquality(Kind(g[b]))
    ensures g[a] != g[b]
  {
    if g[a] == g[b] {
      assert Entry(SignatureHash(g[b]), b) in tbl;
      assert Mapped(m, a);
    }
  }

  /** Canonical ids keep apart when they become final ids. */
  lemma FinalIdsKeepApart(g: Graph, m: IdMap, newIds: IdMap, start: nat, x: nat, y: nat)
    requires MapInv(g, m, 0) && AllMapped(m) && 0 < start <= |g| && x < |g| && y < |g|
    requires NewIdsUpto(newIds, m, start, |g| - start, |g| - start)
    requires m[y] == y
    ensures m[x] == x && FinalId(m, newIds, x) == FinalId(m, newIds, y) ==> x == y
    ensures x < start && x == FinalId(m, newIds, y) ==> x == y
  {
    hide KindsAgree, TargetsMapped, Sound, NoForwards, IsForest, KeptIds, NewIdsUpto, WfGraph, FinalId;
    EveryIdHasFinalId(g, m, newIds, start, x);
    EveryIdHasFinalId(g, m, newIds, start, y);
    ResolveStep(m, x);
    ResolveStep(m, y);
  }

  /** Types of the result that are equal come from types that were equal before remapping. */
  lemma FinalEqualWasEqual(g: Graph, m: IdMap, newIds: IdMap, start: nat, g': Graph, a: nat, b: nat, ca: nat, cb: nat)
    requires MapInv(g, m, 0) && AllMapped(m) && BaseClosed(g, start) && CanonRefs(g, m, start)
    requires NewIdsUpto(newIds, m, start, |g| - start, |g| - start)
    requires 0 < a < |g'| && start <= b < |g'| && SharedKind(Kind(g'[b])) && g'[a] == g'[b]
    requires 0 < ca < |g| && start <= cb < |g| && m[cb] == cb && Remapped(g[cb], g'[b], FinalIds(m, newIds))
    requires if a < start then ca == a && g'[a] == g[a]
             else start <= ca && m[ca] == ca && Remapped(g[ca], g'[a], FinalIds(m, newIds))
    ensures g[ca] == g[cb]
  {
    hide KindsAgree, TargetsMapped, Sound, IsForest, NoForwards, WfGraph, KeptIds;
    WfAt(g, ca);
    WfAt(g, cb);
    SameShapeRefl(g[ca]);
    assert SameShape(g[ca], g[cb]) && Kind(g[cb]) == Kind(g'[b]) == Kind(g[ca]);
    SameShapeCounts(g[ca], g[cb]);
    assert a < start ==> RefsInRange(g[a], start);
    forall k | 0 <= k < RefCount(g[ca])
      ensures Ref(g[ca], k) == Ref(g[cb], k)
    {
      RefInGraph(g, ca, k);
      RefInGraph(g, cb, k);
      assert AllCanon(g[cb], m, RefCount(g[cb]));
      assert a >= start ==> AllCanon(g[ca], m, RefCount(g[ca]));
      FinalIdsKeepApart(g, m, newIds, start, Ref(g[ca], k), Ref(g[cb], k));
    }
    ShapeAndRefsDetermineRec(g[ca], g[cb]);
  }

  lemma CompactedIsShared(g: Graph, m: IdMap, tbl: multiset<Cand>, newIds: IdMap, start: nat, g': Graph)
    requires MapInv(g, m, 0) && TableInv(g, m, tbl, start) && AllMapped(m) && BaseClosed(g, start)
    requires CanonRefs(g, m, start)
    requires NewIdsUpto(newIds, m, start, |g| - start, |g| - start)
    requires Compacted(g, m, newIds, start, g')
    ensures MaximallyShared(g', start)
  {
    hide Remapped, KindsAgree, TargetsMapped, Sound, IsForest, NoForwards, TableInv, CanonRefs, SharedKind, WfGraph;
    var kept := KeptIds(m, start, |g| - start);
    KeptIdsAre(m, start, |g| - start);
    forall a, b | 0 < a < b < |g'| && start <= b && SharedKind(Kind(g'[b]))
      ensures g'[a] != g'[b]
    {
      if g'[a] == g'[b] {
        var ca, cb := if a < start then a else kept[a - start], kept[b - start];
        FinalEqualWasEqual(g, m, newIds, start, g', a, b, ca, cb);
        if a >= start {
          KeptOrder(m, start, |g| - start, a - start, b - start);
        }
        RemappedKeepsKind(g[cb], g'[b], FinalIds(m, newIds));
        WfOfMapInv(g, m);
        CanonicalTypesDiffer(g, m, tbl, start, ca, cb);
      }
    }
  }

  lemma RemappedKeepsKind(r: Rec, r': Rec, ids: seq<nat>)
    requires Remapped(r, r', ids) && SharedKind(Kind(r'))
    ensures HasExactEquality(Kind(r))
  {
  }

  lemma WfOfMapInv(g: Graph, m: IdMap)
    requires MapInv(g, m, 0)
    ensures WfGraph(g)
  {
  }

  lemma {:induction false} KeptOrder(m: IdMap, start: nat, n: nat, i: nat, j: nat)
    requires start + n <= |m| && i < j < |KeptIds(m, start, n)|
    ensures KeptIds(m, start, n)[i] < KeptIds(m, start, n)[j]
    decreases n
  {
    KeptIdsAre(m, start, n - 1);
    if j < |KeptIds(m, start, n - 1)| {
      KeptOrder(m, start, n - 1, i, j);
    }
  }

  /** A record whose first k references have been remapped. */
  ghost predicate Remapping(r: Rec, r': Rec, ids: seq<nat>, k: nat) {
    && SameShape(r', r) && k <= RefCount(r) && RefsInRange(r, |ids|)
    && forall j :: 0 <= j < RefCount(r) ==> Ref(r', j) == if j < k then ids[Ref(r, j)] else Ref(r, j)
  }

  lemma RemappingStarts(r: Rec, ids: seq<nat>)
    requires RefsInRange(r, |ids|)
    ensures Remapping(r, r, ids, 0)
  {
  }

  lemma RemappingNext(r: Rec, r': Rec, ids: seq<nat>, k: nat, id: u32)
    requires WfRec(r) && WfRec(r') && Remapping(r, r', ids, k) && k < RefCount(r') && Ref(r', k) < |ids|
    requires id == ids[Ref(r', k)]
    ensures Remapping(r, WithRef(r', k, id), ids, k + 1)
  {
    WithRefKeepsShape(r', k, id);
  }

  lemma RemappingRef(r: Rec, r': Rec, ids: seq<nat>, k: nat)
    requires Remapping(r, r', ids, k) && k < RefCount(r')
    ensures Ref(r', k) == Ref(r, k) < |ids| && k < RefCount(r)
  {
  }

  lemma RemappingEnds(r: Rec, r': Rec, ids: seq<nat>, k: nat)
    requires Remapping(r, r', ids, k) && k >= RefCount(r')
    ensures Remapped(r, r', ids)
  {
  }

  ghost predicate AllRemapped(own: seq<Rec>, own': seq<Rec>, ids: seq<nat>) {
    |own'| == |own| && forall i :: 0 <= i < |own| ==> Remapped(own[i], own'[i], ids)
  }

  ghost predicate MayRemap(own: seq<Rec>, ids: seq<nat>) {
    (forall id :: 0 <= id < |ids| ==> ids[id] <= MAX_NR_TYPES)
    && forall i :: 0 <= i < |own| ==> RefsInRange(own[i], |ids|)
  }

  /** Compaction leaves nothing that remapping could trip over. */
  lemma KeptMayRemap(g: Graph, own: seq<Rec>, m: IdMap, newIds: IdMap, start: nat)
    requires MapInv(g, m, 0) && AllMapped(m) && 0 < start && |g| == start + |own|
    requires forall i :: 0 <= i < |own| ==> g[start + i] == own[i]
    requires NewIdsUpto(newIds, m, start, |own|, |own|)
    ensures MayRemap(KeptRecs(own, m, start, |own|), FinalIds(m, newIds))
  {
    hide KindsAgree, TargetsMapped, Sound, NoForwards, WfGraph, IsForest, KeptIds, KeptRecs, RefsInRange;
    KeptIdsAre(m, start, |own|);
    GraphBound(g);
    forall id | 0 <= id < |g|
      ensures FinalIds(m, newIds)[id] <= MAX_NR_TYPES
    {
      EveryIdHasFinalId(g, m, newIds, start, id);
    }
    var kept := KeptRecs(own, m, start, |own|);
    KeptAreOwn(own, m, start, |own|);
    forall j | 0 <= j < |kept|
      ensures RefsInRange(kept[j], |g|)
    {
      var id := KeptIds(m, start, |own|)[j];
      assert kept[j] == g[start + (id - start)];
      RefsOfGraph(g, id);
    }
  }

  lemma GraphBound(g: Graph)
    requires WfGraph(g)
    ensures |g| <= MAX_NR_TYPES
  {
  }

  lemma RefsOfGraph(g: Graph, id: nat)
    requires WfGraph(g) && id < |g|
    ensures RefsInRange(g[id], |g|)
  {
  }

  lemma RemappedIsCompacted(g: Graph, own: seq<Rec>, m: IdMap, newIds: IdMap, start: nat, g': Graph, own': seq<Rec>)
    requires |m| == |g| == start + |own| && IsForest(m) && |newIds| == |m| && |g'| == start + |own'|
    requires forall i :: 0 <= i < |own| ==> g[start + i] == own[i]
    requires forall i :: 0 <= i < |own'| ==> g'[start + i] == own'[i]
    requires forall id :: 0 <= id < start ==> g'[id] == g[id]
    requires AllRemapped(KeptRecs(own, m, start, |own|), own', FinalIds(m, newIds))
    ensures Compacted(g, m, newIds, start, g')
  {
    hide IsForest, KeptIds, KeptRecs, Remapped;
    KeptAreOwn(own, m, start, |own|);
    var kept := KeptIds(m, start, |own|);
    forall j | 0 <= j < |kept|
      ensures kept[j] < |g| && Remapped(g[kept[j]], g'[start + j], FinalIds(m, newIds))
    {
      assert g[start + (kept[j] - start)] == KeptRecs(own, m, start, |own|)[j];
    }
  }

  /** What a successful run gives: a well-formed graph with maximal sharing, in which every type is
      the final type of some original of the same shape, every original type has become one of its
      own kind, or a forward declaration what it declares, and, when the input has no forward
      declarations, has kept its meaning.  Two structs that mean the same are left apart only if
      what the later one came from holds two copies of something. */
  ghost predicate DedupOk(g0: Graph, g': Graph, ids: seq<nat>, start: nat) {
    && WfGraph(g') && MaximallyShared(g', start) && |ids| == |g0|
    && (forall id :: 0 <= id < |g0| ==> ids[id] < |g'| && EdgeKind(g0[id], g'[ids[id]]))
    && (forall f :: start <= f < |g'| ==> ComesFrom(g0, g', ids, f))
    && (NoForwards(g0) ==> forall id :: 0 <= id < |g0| ==> SameMeaning(g', ids[id], g0, id))
    && (NoForwards(g0) ==> forall a, b ::
         0 < a < b < |g'| && start <= b && IsComposite(g'[b]) && SameMeaning(g', a, g', b) ==>
          LeftApart(g0, ids, a, b))
  }

  /** The types that became a and b: the second holds two copies of what the first holds once. */
  ghost predicate LeftApart(g0: Graph, ids: seq<nat>, a: nat, b: nat)
    requires |ids| == |g0|
  {
    exists x, y :: 0 <= x < |ids| && 0 <= y < |ids| && ids[x] == a && ids[y] == b && TwoCopies(g0, x, y)
  }

  /** The original that a type of the result is the compacted record of. */
  ghost function OriginOf(m: IdMap, start: nat, f: nat): nat
    requires start <= |m| && (f >= start ==> f - start < |KeptIds(m, start, |m| - start)|)
  {
    if f < start then f else KeptIds(m, start, |m| - start)[f - start]
  }

  lemma OriginIsCanonical(m: IdMap, newIds: IdMap, start: nat, f: nat)
    requires IsForest(m) && |newIds| == |m| && 0 < start <= |m| && f < start + |KeptIds(m, start, |m| - start)|
    requires NewIdsUpto(newIds, m, start, |m| - start, |m| - start)
    requires forall b :: 0 <= b < start ==> m[b] == b && Resolve(m, b) == b
    ensures var x := OriginOf(m, start, f); x < |m| && m[x] == x && FinalId(m, newIds, x) == f
    ensures f < start ==> OriginOf(m, start, f) == f
    ensures f >= start ==> OriginOf(m, start, f) >= start
  {
    KeptIdsAre(m, start, |m| - start);
    ResolveStep(m, OriginOf(m, start, f));
  }

  lemma OriginsInOrder(m: IdMap, start: nat, a: nat, b: nat)
    requires start <= |m| && a < b < start + |KeptIds(m, start, |m| - start)|
    ensures OriginOf(m, start, a) < OriginOf(m, start, b)
  {
    KeptIdsAre(m, start, |m| - start);
    if a >= start {
      KeptOrder(m, start, |m| - start, a - start, b - start);
    }
  }

  /** Structs of the result that mean the same come from structs that were told apart. */
  lemma CompactedLeavesApart(g0: Graph, g: Graph, m: IdMap, newIds: IdMap, start: nat, g': Graph, a: nat, b: nat)
    requires MapInv(g, m, 0) && AllMapped(m) && 0 < start <= |g| && NoForwards(g0) && |g0| == |g|
    requires NewIdsUpto(newIds, m, start, |g| - start, |g| - start) && Compacted(g, m, newIds, start, g')
    requires forall id :: 0 <= id < start ==> m[id] == id && Resolve(m, id) == id
    requires forall id :: 0 <= id < |g0| ==> SameMeaning(g', FinalId(m, newIds, id), g0, id)
    requires StructsApart(g0, m, start) && WfGraph(g0) && WfGraph(g')
    requires 0 < a < b < |g'| && start <= b && IsComposite(g'[b]) && SameMeaning(g', a, g', b)
    ensures LeftApart(g0, FinalIds(m, newIds), a, b)
  {
    hide KindsAgree, TargetsMapped, Sound, IsForest, KeptIds, NoForwards, WfGraph, TwoCopies, OriginOf, FinalId,
      StructsApart, SameMeaning, MapInv, Compacted;
    MapInvBasics(g, m, 0);
    CompactedSize(g, m, newIds, start, g');
    OriginIsCanonical(m, newIds, start, a);
    OriginIsCanonical(m, newIds, start, b);
    OriginsInOrder(m, start, a, b);
    var x, y := OriginOf(m, start, a), OriginOf(m, start, b);
    SameMeaningThrough(g0, g', x, y, a, b);
    SameMeaningKeepsKind(g', b, g0, y);
    ApartAt(g0, m, start, x, y);
    assert FinalIds(m, newIds)[x] == a && FinalIds(m, newIds)[y] == b;
  }

  lemma CompactedSize(g: Graph, m: IdMap, newIds: IdMap, start: nat, g': Graph)
    requires |m| == |g| && IsForest(m) && |newIds| == |m| && start <= |g| && Compacted(g, m, newIds, start, g')
    ensures |g'| == start + |KeptIds(m, start, |g| - start)|
  {
  }

  lemma ApartAt(g0: Graph, m: IdMap, start: nat, x: nat, y: nat)
    requires StructsApart(g0, m, start) && NoForwards(g0) && SameMeaning(g0, y, g0, x)
    requires 0 < x < y < |g0| && start <= y && (x < start || m[x] == x) && m[y] == y && IsComposite(g0[y])
    ensures TwoCopies(g0, x, y)
  {
    assert ToldApart(g0, x, y);
  }

  lemma SameMeaningThrough(g0: Graph, g': Graph, x: nat, y: nat, a: nat, b: nat)
    requires SameMeaning(g', a, g0, x) && SameMeaning(g', b, g0, y) && SameMeaning(g', a, g', b)
    ensures SameMeaning(g0, y, g0, x)
  {
    forall n: nat
      ensures Unfold(g0, y, n) == Unfold(g0, x, n)
    {
      assert Unfold(g', a, n) == Unfold(g0, x, n) && Unfold(g', b, n) == Unfold(g0, y, n);
    }
  }

  lemma SameMeaningKeepsKind(g: Graph, a: nat, h: Graph, b: nat)
    requires WfGraph(g) && WfGraph(h) && a < |g| && b < |h| && SameMeaning(g, a, h, b)
    ensures Kind(g[a]) == Kind(h[b])
  {
    assert Unfold(g, a, 1) == Unfold(h, b, 1);
    UnfoldInverse(g, a, h, b, 0, 0);
  }

  ghost predicate ComesFrom(g0: Graph, g': Graph, ids: seq<nat>, f: nat)
    requires f < |g'| && |ids| == |g0|
  {
    exists id :: 0 <= id < |g0| && ids[id] == f && SameShape(g'[f], g0[id])
  }

  lemma CompactedComesFrom(g0: Graph, g: Graph, m: IdMap, newIds: IdMap, start: nat, g': Graph, f: nat)
    requires |g0| == |g| == |m| && IsForest(m) && |newIds| == |m| && start <= |g|
    requires NewIdsUpto(newIds, m, start, |g| - start, |g| - start)
    requires Compacted(g, m, newIds, start, g') && start <= f < |g'|
    requires forall id :: 0 <= id < |g| ==> SameShape(g[id], g0[id])
    ensures ComesFrom(g0, g', FinalIds(m, newIds), f)
  {
    KeptIdsAre(m, start, |g| - start);
    var c := KeptIds(m, start, |g| - start)[f - start];
    ResolveStep(m, c);
    assert Remapped(g[c], g'[f], FinalIds(m, newIds)) && SameShape(g[c], g0[c]);
    SameShapeTrans(g'[f], g[c], g0[c]);
  }

  lemma SameShapeTrans(a: Rec, b: Rec, c: Rec)
    requires SameShape(a, b) && SameShape(b, c)
    ensures SameShape(a, c)
  {
  }

  lemma CompactedKeepsKind(g0: Graph, g: Graph, m: IdMap, newIds: IdMap, start: nat, g': Graph, id: nat)
    requires MapInv(g, m, 0) && AllMapped(m) && 0 < start <= |g| && |g0| == |g| && id < |g|
    requires NewIdsUpto(newIds, m, start, |g| - start, |g| - start)
    requires Compacted(g, m, newIds, start, g') && SameShape(g[id], g0[id])
    ensures FinalId(m, newIds, id) < |g'| && EdgeKind(g0[id], g'[FinalId(m, newIds, id)])
  {
    hide KeptIds, IsForest, TargetsMapped, Sound, NoForwards, WfGraph;
    var r, f := Resolve(m, id), FinalId(m, newIds, id);
    EveryIdHasFinalId(g, m, newIds, start, id);
    RootKeepsKind(g, m, id);
    if r >= start {
      assert Remapped(g[r], g'[f], FinalIds(m, newIds));
    }
  }

  lemma DedupResult(g0: Graph, g: Graph, m: IdMap, tbl: multiset<Cand>, newIds: IdMap, start: nat, g': Graph)
    requires MapInv(g, m, 0) && TableInv(g, m, tbl, start) && AllMapped(m) && BaseClosed(g, start)
    requires CanonRefs(g, m, start) && MeaningKept(g0, g) && WfGraph(g0) && StructsApart(g0, m, start)
    requires forall id :: 0 <= id < |g| ==> SameShape(g[id], g0[id])
    requires NewIdsUpto(newIds, m, start, |g| - start, |g| - start)
    requires Compacted(g, m, newIds, start, g')
    ensures DedupOk(g0, g', FinalIds(m, newIds), start)
  {
    hide KindsAgree, TargetsMapped, Sound, NoForwards, IsForest, TableInv, CanonRefs, SameShape, MaximallyShared,
      WfGraph, KeptIds, EdgeKind, ComesFrom, LeftApart, StructsApart, Compacted;
    CompactedIsWf(g, m, newIds, start, g');
    CompactedIsShared(g, m, tbl, newIds, start, g');
    ShapesKeepForwards(g0, g);
    forall id | 0 <= id < |g|
      ensures FinalId(m, newIds, id) < |g'| && EdgeKind(g0[id], g'[FinalId(m, newIds, id)])
    {
      CompactedKeepsKind(g0, g, m, newIds, start, g', id);
    }
    forall f | start <= f < |g'|
      ensures ComesFrom(g0, g', FinalIds(m, newIds), f)
    {
      CompactedComesFrom(g0, g, m, newIds, start, g', f);
    }
    if NoForwards(g0) {
      BaseStays(g, m, tbl, start);
      forall id, n: nat | 0 <= id < |g|
        ensures Unfold(g', FinalId(m, newIds, id), n) == Unfold(g0, id, n)
      {
        CompactedUnfold(g, m, newIds, start, g', id, n);
        assert SameMeaning(g, id, g0, id);
      }
      forall a, b | 0 < a < b < |g'| && start <= b && IsComposite(g'[b]) && SameMeaning(g', a, g', b)
        ensures LeftApart(g0, FinalIds(m, newIds), a, b)
      {
        CompactedLeavesApart(g0, g, m, newIds, start, g', a, b);
      }
    }
  }

  lemma BaseStillClosed(g0: Graph, g: Graph, start: nat)
    requires BaseClosed(g0, start) && |g| == |g0| && forall id :: 0 <= id < start && id < |g| ==> g[id] == g0[id]
    ensures BaseClosed(g, start)
  {
    hide RefsInRange;
    forall id | 0 <= id < start
      ensures RefsInRange(g[id], start)
    {
      assert RefsInRange(g0[id], start);
    }
  }
}
