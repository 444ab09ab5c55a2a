/** What the reference pass of BTF dedup keeps, and when it runs into a loop. */
module DedupRef {
  import opened BtfTypes
  import opened BtfGraph
  import opened Forest
  import opened DedupInv

  const ELOOP := -40

  /** Everything but reference types has been mapped. */
  ghost predicate RefReady(g: Graph, m: IdMap, start: nat)
    requires |m| == |g|
  {
    forall id :: 0 <= id < |g| && !Mapped(m, id) ==> start <= id && IsRefKind(Kind(g[id]))
  }

  ghost function Unprocessed(m: IdMap): set<nat> {
    set id: nat | id < |m| && m[id] == UNPROCESSED
  }

  /** What happens to one id on the way: a type that has been visited is left alone, any other
      is left alone or mapped, and no shape changes.  Only x, being processed, is rewritten. */
  ghost predicate IdStep(r: Rec, v: u32, r': Rec, v': u32, rewritten: bool) {
    && SameShape(r', r)
    && (v != UNPROCESSED ==> v' == v && (rewritten || r' == r))
    && (v == UNPROCESSED ==> v' <= MAX_NR_TYPES || (v' == UNPROCESSED && r' == r))
  }

  ghost predicate RefStep(g: Graph, m: IdMap, g': Graph, m': IdMap, x: nat) {
    && |g| == |m| == |g'| == |m'|
    && forall id :: 0 <= id < |g| ==> IdStep(g[id], m[id], g'[id], m'[id], id == x)
  }

  ghost predicate MeaningKept(g: Graph, g': Graph) {
    |g'| == |g| && (NoForwards(g) ==> forall id :: 0 <= id < |g| ==> SameMeaning(g', id, g, id))
  }

  /** A rank that falls along every reference of the reference types. */
  ghost predicate RanksOk(g: Graph, start: nat, rank: seq<nat>) {
    |rank| == |g|
    && forall id, k :: start <= id < |g| && IsRefKind(Kind(g[id])) && 0 <= k < RefCount(g[id]) ==>
         Ref(g[id], k) < |g| && rank[Ref(g[id], k)] < rank[id]
  }

  /** x ranks below everything in progress. */
  ghost predicate BelowProgress(m: IdMap, rank: seq<nat>, x: nat) {
    |rank| == |m| && x < |m| && forall id :: 0 <= id < |m| && m[id] == IN_PROGRESS ==> rank[x] < rank[id]
  }

  /** The order in which reference types were finished. */
  datatype Finish = Finish(order: seq<nat>, clock: nat)

  ghost predicate FinishOk(g0: Graph, m: IdMap, start: nat, f: Finish) {
    && |f.order| == |g0| == |m|
    && (forall id :: 0 <= id < |g0| ==> f.order[id] <= f.clock)
    && (forall id :: start <= id < |g0| && Mapped(m, id) && IsRefKind(Kind(g0[id])) ==> Finished(g0, m, f, id))
  }

  ghost predicate Finished(g0: Graph, m: IdMap, f: Finish, id: nat)
    requires |f.order| == |g0| == |m| && id < |g0|
  {
    forall k :: 0 <= k < RefCount(g0[id]) ==>
      Ref(g0[id], k) < |g0| && Mapped(m, Ref(g0[id], k)) && f.order[Ref(g0[id], k)] < f.order[id]
  }

  /** A finished reference type refers to canonical types only. */
  ghost predicate CanonRefs(g: Graph, m: IdMap, start: nat) {
    |m| == |g|
    && forall id :: start <= id < |g| && Mapped(m, id) && IsRefKind(Kind(g[id])) ==> AllCanon(g[id], m, RefCount(g[id]))
  }

  ghost predicate AllCanon(r: Rec, m: IdMap, n: nat) {
    forall k :: 0 <= k < n ==> Ref(r, k) < |m| && m[Ref(r, k)] == Ref(r, k)
  }

  lemma RefStepRefl(g: Graph, m: IdMap, x: nat)
    requires |g| == |m|
    requires forall id :: 0 <= id < |m| && m[id] > MAX_NR_TYPES ==> m[id] == UNPROCESSED || m[id] == IN_PROGRESS
    ensures RefStep(g, m, g, m, x) && MeaningKept(g, g)
  {
  }

  lemma RefStepTrans(g0: Graph, m0: IdMap, g1: Graph, m1: IdMap, g2: Graph, m2: IdMap, x: nat)
    requires RefStep(g0, m0, g1, m1, x) && RefStep(g1, m1, g2, m2, |g0|)
    ensures RefStep(g0, m0, g2, m2, x)
  {
    forall id | 0 <= id < |g0|
      ensures IdStep(g0[id], m0[id], g2[id], m2[id], id == x)
    {
      assert IdStep(g0[id], m0[id], g1[id], m1[id], id == x) && IdStep(g1[id], m1[id], g2[id], m2[id], false);
    }
  }

  lemma ShapesKeepForwards(g: Graph, g': Graph)
    requires |g| == |g'| && forall id :: 0 <= id < |g| ==> SameShape(g'[id], g[id])
    ensures NoForwards(g') <==> NoForwards(g)
  {
  }

  lemma MeaningKeptTrans(g0: Graph, g1: Graph, g2: Graph)
    requires MeaningKept(g0, g1) && MeaningKept(g1, g2)
    requires |g0| == |g1| && forall id :: 0 <= id < |g0| ==> SameShape(g1[id], g0[id])
    ensures MeaningKept(g0, g2)
  {
    ShapesKeepForwards(g0, g1);
    if NoForwards(g0) {
      forall id, n: nat | 0 <= id < |g0|
        ensures Unfold(g2, id, n) == Unfold(g0, id, n)
      {
        assert SameMeaning(g1, id, g0, id) && SameMeaning(g2, id, g1, id);
        assert Unfold(g1, id, n) == Unfold(g0, id, n);
      }
    }
  }

  /** Once all structs are mapped, a mapped id resolves to a canonical type. */
  lemma ReadyResolves(g: Graph, m: IdMap, start: nat, id: nat)
    requires MapInv(g, m, 0) && RefReady(g, m, start) && id < |m| && Mapped(m, id)
    ensures var r := Resolve(m, id); r < |m| && m[r] == r && EdgeKind(g[id], g[r])
  {
    MappedResolves(g, m, 0, id);
  }

  /** Storing a canonical id over the reference it stands for, in a type being processed. */
  lemma RewriteKeepsInv(g: Graph, m: IdMap, tbl: multiset<Cand>, start: nat, t: nat, k: nat, id: u32)
    requires MapInv(g, m, 0) && TableInv(g, m, tbl, start) && RefReady(g, m, start)
    requires 0 < t < |g| && k < RefCount(g[t]) && !Mapped(m, t)
    requires Ref(g[t], k) < |g| && id == Resolve(m, Ref(g[t], k))
    ensures WfRec(g[t])
    ensures var g' := g[t := WithRef(g[t], k, id)];
            && MapInv(g', m, 0) && TableInv(g', m, tbl, start) && RefReady(g', m, start)
            && MeaningKept(g, g') && (forall x :: 0 <= x < |g| ==> SameShape(g'[x], g[x]))
            && forall j :: 0 <= j < RefCount(g[t]) && j != k ==> Ref(g'[t], j) == Ref(g[t], j)
  {
    hide Sound, TableInv, NoForwards, IsForest, WfGraph, KindsAgree, TargetsMapped, SameShape, SameMeaning;
    WfAt(g, t);
    ResolveStep(m, Ref(g[t], k));
    RewriteKeepsWf(g, t, k, id);
    var g' := g[t := WithRef(g[t], k, id)];
    ShapesKeepForwards(g, g');
    if NoForwards(g) {
      RootMeansTheSame(g, m, Ref(g[t], k));
      RewriteKeepsMeaning(g, t, k, id);
      SoundInRewritten(g, g', m);
    }
    KindsInRewritten(g, g', m, start);
    UnmappedIsNotCand(g, m, tbl, start, t);
    TableInRewritten(g, g', m, tbl, start, t);
  }

  lemma KindsInRewritten(g: Graph, g': Graph, m: IdMap, start: nat)
    requires |m| == |g| == |g'| && IsForest(m) && KindsAgree(g, m) && TargetsMapped(g, m, 0) && RefReady(g, m, start)
    requires forall x :: 0 <= x < |g| ==> SameShape(g'[x], g[x])
    ensures KindsAgree(g', m) && TargetsMapped(g', m, 0) && RefReady(g', m, start)
  {
  }

  lemma SoundInRewritten(g: Graph, g': Graph, m: IdMap)
    requires |m| == |g| == |g'| && IsForest(m) && Sound(g, m)
    requires forall x :: 0 <= x < |g| ==> SameMeaning(g', x, g, x)
    ensures Sound(g', m)
  {
    forall id, n: nat | 0 <= id < |m| && Mapped(m, id)
      ensures Unfold(g', id, n) == Unfold(g', m[id], n)
    {
      assert SameMeaning(g', id, g, id) && SameMeaning(g', m[id], g, m[id]) && SameMeaning(g, id, g, m[id]);
      assert Unfold(g', id, n) == Unfold(g, id, n) && Unfold(g', m[id], n) == Unfold(g, m[id], n);
    }
  }

  lemma TableInRewritten(g: Graph, g': Graph, m: IdMap, tbl: multiset<Cand>, start: nat, t: nat)
    requires |m| == |g| == |g'| <= MAX_NR_TYPES && TableInv(g, m, tbl, start)
    requires NotCand(tbl, t) && t < |g| && !Mapped(m, t)
    requires forall x :: 0 <= x < |g| && x != t ==> g'[x] == g[x]
    ensures TableInv(g', m, tbl, start)
  {
    forall e | e in tbl
      ensures tbl[e] == 1 && CandOk(g', m, e)
    {
      assert CandOk(g, m, e);
    }
  }

  lemma FinishStep(g0: Graph, m: IdMap, start: nat, f: Finish, x: nat, v: u32)
    requires FinishOk(g0, m, start, f) && x < |m| && !Mapped(m, x) && v <= MAX_NR_TYPES
    requires forall k :: 0 <= k < RefCount(g0[x]) ==> Ref(g0[x], k) < |g0| && Mapped(m, Ref(g0[x], k))
    ensures FinishOk(g0, m[x := v], start, Finish(f.order[x := f.clock + 1], f.clock + 1))
  {
    var m', f' := m[x := v], Finish(f.order[x := f.clock + 1], f.clock + 1);
    forall id | start <= id < |g0| && Mapped(m', id) && IsRefKind(Kind(g0[id]))
      ensures Finished(g0, m', f', id)
    {
      if id != x {
        assert Finished(g0, m, f, id);
      }
    }
  }

  /** When every type has been finished, the finishing order is a rank. */
  lemma FinishIsRank(g0: Graph, m: IdMap, start: nat, f: Finish)
    requires FinishOk(g0, m, start, f)
    requires forall id :: start <= id < |m| ==> Mapped(m, id)
    ensures RanksOk(g0, start, f.order)
  {
    forall id, k | start <= id < |g0| && IsRefKind(Kind(g0[id])) && 0 <= k < RefCount(g0[id])
      ensures Ref(g0[id], k) < |g0| && f.order[Ref(g0[id], k)] < f.order[id]
    {
      assert Finished(g0, m, f, id);
    }
  }

  /** The pass so far: types not visited are as they were, and no meaning has changed. */
  ghost predicate PassOk(g0: Graph, g: Graph, m: IdMap, start: nat, f: Finish) {
    && WfGraph(g0) && |g| == |m| == |g0|
    && (forall id :: 0 <= id < |g0| ==> SameShape(g[id], g0[id]) && (m[id] == UNPROCESSED ==> g[id] == g0[id]))
    && (forall id :: 0 <= id < |m| ==> Mapped(m, id) || m[id] == UNPROCESSED || m[id] == IN_PROGRESS)
    && MeaningKept(g0, g) && FinishOk(g0, m, start, f) && CanonRefs(g, m, start)
  }

  /** x, in progress, ranks lowest of all that is. */
  ghost predicate AtBottom(m: IdMap, rank: seq<nat>, x: nat) {
    |rank| == |m| && x < |m| && forall id :: 0 <= id < |m| && m[id] == IN_PROGRESS ==> rank[x] <= rank[id]
  }

  ghost predicate RefsMapped(r: Rec, m: IdMap, n: nat) {
    forall k :: 0 <= k < n ==> Ref(r, k) < |m| && Mapped(m, Ref(r, k))
  }

  /** x in progress, its first k references rewritten and the others as they were. */
  ghost predicate Rewriting(g0: Graph, g1: Graph, m1: IdMap, g: Graph, m: IdMap, x: nat, k: nat) {
    && x < |g1| && |g0| == |g1| && RefStep(g1, m1, g, m, x) && m[x] == m1[x] == IN_PROGRESS
    && g1[x] == g0[x] && k <= RefCount(g1[x])
    && (forall j :: k <= j < RefCount(g1[x]) ==> Ref(g[x], j) == Ref(g0[x], j))
    && RefsMapped(g0[x], m, k) && AllCanon(g[x], m, k)
  }

  lemma InProgressIsNotBelow(m: IdMap, rank: seq<nat>, x: nat)
    requires x < |m| && m[x] == IN_PROGRESS
    ensures !BelowProgress(m, rank, x)
  {
  }

  lemma PassKeepsStep(g0: Graph, g: Graph, m: IdMap, start: nat, f: Finish)
    requires PassOk(g0, g, m, start, f)
    ensures RefStep(g, m, g, m, |g|) && |m| <= MAX_NR_TYPES
  {
  }

  lemma MarkProgress(g0: Graph, g: Graph, m: IdMap, tbl: multiset<Cand>, start: nat, f: Finish, rank: seq<nat>, x: nat)
    requires MapInv(g, m, 0) && TableInv(g, m, tbl, start) && RefReady(g, m, start) && PassOk(g0, g, m, start, f)
    requires x < |m| && !Mapped(m, x) && m[x] != IN_PROGRESS
    ensures var m' := m[x := IN_PROGRESS];
            && MapInv(g, m', 0) && TableInv(g, m', tbl, start) && RefReady(g, m', start) && PassOk(g0, g, m', start, f)
            && (BelowProgress(m, rank, x) ==> AtBottom(m', rank, x))
            && Unprocessed(m') < Unprocessed(m)
    ensures g[x] == g0[x] && 0 < x && start <= x && IsRefKind(Kind(g[x]))
  {
    hide KindsAgree, TargetsMapped, Sound, TableInv, NoForwards, IsForest, FinishOk, MeaningKept;
    var m' := m[x := IN_PROGRESS];
    MarkKeepsMapInv(g, m, 0, x, IN_PROGRESS);
    MarkKeepsTable(g, m, tbl, start, x, IN_PROGRESS);
    MarkKeepsFinish(g0, m, start, f, x);
    MarkKeepsCanonRefs(g, m, start, x);
    assert x in Unprocessed(m) && x !in Unprocessed(m');
  }

  lemma MarkKeepsCanonRefs(g: Graph, m: IdMap, start: nat, x: nat)
    requires CanonRefs(g, m, start) && x < |m| <= MAX_NR_TYPES && !Mapped(m, x)
    ensures CanonRefs(g, m[x := IN_PROGRESS], start)
  {
    var m' := m[x := IN_PROGRESS];
    forall id | start <= id < |g| && Mapped(m', id) && IsRefKind(Kind(g[id]))
      ensures AllCanon(g[id], m', RefCount(g[id]))
    {
      assert AllCanon(g[id], m, RefCount(g[id]));
    }
  }

  lemma MarkKeepsFinish(g0: Graph, m: IdMap, start: nat, f: Finish, x: nat)
    requires FinishOk(g0, m, start, f) && x < |m| && !Mapped(m, x)
    ensures FinishOk(g0, m[x := IN_PROGRESS], start, f)
  {
    forall id | start <= id < |g0| && Mapped(m[x := IN_PROGRESS], id) && IsRefKind(Kind(g0[id]))
      ensures Finished(g0, m[x := IN_PROGRESS], f, id)
    {
      assert Finished(g0, m, f, id);
    }
  }

  lemma RewriteStarts(g0: Graph, g1: Graph, m1: IdMap, start: nat, f: Finish, x: nat)
    requires PassOk(g0, g1, m1, start, f) && x < |m1| && m1[x] == IN_PROGRESS && g1[x] == g0[x]
    ensures Rewriting(g0, g1, m1, g1, m1, x, 0)
  {
    RefStepRefl(g1, m1, x);
  }

  /** The next reference of x is in the graph, and below everything in progress. */
  lemma RewritingRef(g0: Graph, g1: Graph, m1: IdMap, g: Graph, m: IdMap, start: nat, rank: seq<nat>, f: Finish,
                     x: nat, k: nat)
    requires WfGraph(g) && PassOk(g0, g, m, start, f) && Rewriting(g0, g1, m1, g, m, x, k) && k < RefCount(g[x])
    requires RefReady(g, m, start)
    ensures Ref(g[x], k) < |m| && Ref(g[x], k) == Ref(g0[x], k)
    ensures k < RefCount(g1[x])
    ensures RanksOk(g0, start, rank) && AtBottom(m1, rank, x) ==> BelowProgress(m, rank, Ref(g[x], k))
    ensures Unprocessed(m) <= Unprocessed(m1)
  {
    RefInGraph(g, x, k);
    forall id | 0 <= id < |m|
      ensures m[id] == UNPROCESSED ==> m1[id] == UNPROCESSED
      ensures m[id] == IN_PROGRESS ==> m1[id] == IN_PROGRESS
    {
      assert IdStep(g1[id], m1[id], g[id], m[id], id == x);
    }
    assert Kind(g[x]) == Kind(g0[x]) && RefCount(g[x]) == RefCount(g0[x]);
  }

  /** Rewriting the next reference of x. */
  lemma RewriteNext(g0: Graph, g1: Graph, m1: IdMap, g: Graph, m: IdMap, g2: Graph, m2: IdMap, tbl: multiset<Cand>,
                    start: nat, f: Finish, x: nat, k: nat, id: u32)
    requires Rewriting(g0, g1, m1, g, m, x, k) && k < RefCount(g[x])
    requires RefStep(g, m, g2, m2, |g|) && PassOk(g0, g2, m2, start, f)
    requires MapInv(g2, m2, 0) && TableInv(g2, m2, tbl, start) && RefReady(g2, m2, start)
    requires Ref(g[x], k) < |m2| && Mapped(m2, Ref(g[x], k)) && id == Resolve(m2, Ref(g[x], k))
    ensures k < RefCount(g2[x]) && 0 < x < |g2| && start <= x && WfRec(g2[x])
    ensures var g' := g2[x := WithRef(g2[x], k, id)];
            && MapInv(g', m2, 0) && TableInv(g', m2, tbl, start) && RefReady(g', m2, start)
            && PassOk(g0, g', m2, start, f) && Rewriting(g0, g1, m1, g', m2, x, k + 1)
  {
    hide RanksOk, NoForwards, SameMeaning, IsForest, TableInv, KindsAgree, TargetsMapped, Sound, FinishOk;
    assert IdStep(g[x], m[x], g2[x], m2[x], false);
    assert 0 < x by { assert Mapped(m2, 0); }
    RewriteKeepsInv(g2, m2, tbl, start, x, k, id);
    RefStepTrans(g1, m1, g, m, g2, m2, x);
    var g' := g2[x := WithRef(g2[x], k, id)];
    MeaningKeptTrans(g0, g2, g');
    RewrittenStep(g1, m1, g2, m2, g', x);
    RefsStayMapped(g0[x], g, m, g2, m2, k);
    AllStayCanon(g[x], g, m, g2, m2, k);
    ReadyResolves(g2, m2, start, Ref(g[x], k));
    RewrittenCanonRefs(g2, g', m2, start, x);
    assert Rewriting(g0, g1, m1, g', m2, x, k + 1) by {
      hide RefStep, RefsMapped, PassOk, MapInv, RefReady;
      AllCanonNext(g2[x], m2, k, id);
      RefsMappedNext(g0[x], m2, k);
    }
  }

  lemma AllCanonNext(r: Rec, m: IdMap, k: nat, id: u32)
    requires WfRec(r) && k < RefCount(r) && AllCanon(r, m, k) && id < |m| && m[id] == id
    ensures AllCanon(WithRef(r, k, id), m, k + 1)
  {
    WithRefKeepsShape(r, k, id);
  }

  lemma RefsMappedNext(r: Rec, m: IdMap, k: nat)
    requires RefsMapped(r, m, k) && Ref(r, k) < |m| && Mapped(m, Ref(r, k))
    ensures RefsMapped(r, m, k + 1)
  {
  }

  lemma AllStayCanon(r: Rec, g: Graph, m: IdMap, g2: Graph, m2: IdMap, n: nat)
    requires AllCanon(r, m, n) && RefStep(g, m, g2, m2, |g|) && |m| <= MAX_NR_TYPES
    ensures AllCanon(r, m2, n)
  {
    forall k | 0 <= k < n
      ensures Ref(r, k) < |m2| && m2[Ref(r, k)] == Ref(r, k)
    {
      var id := Ref(r, k);
      assert IdStep(g[id], m[id], g2[id], m2[id], false);
    }
  }

  lemma RewrittenCanonRefs(g: Graph, g': Graph, m: IdMap, start: nat, x: nat)
    requires CanonRefs(g, m, start) && |g'| == |g| && !Mapped(m, x)
    requires forall id :: 0 <= id < |g| && id != x ==> g'[id] == g[id]
    ensures CanonRefs(g', m, start)
  {
    forall id | start <= id < |g'| && Mapped(m, id) && IsRefKind(Kind(g'[id]))
      ensures AllCanon(g'[id], m, RefCount(g'[id]))
    {
      assert AllCanon(g[id], m, RefCount(g[id]));
    }
  }

  lemma RewrittenStep(g1: Graph, m1: IdMap, g2: Graph, m2: IdMap, g': Graph, x: nat)
    requires RefStep(g1, m1, g2, m2, x) && |g'| == |g2| && x < |g2| && m1[x] != UNPROCESSED
    requires forall id :: 0 <= id < |g2| ==> SameShape(g'[id], g2[id]) && (id != x ==> g'[id] == g2[id])
    ensures RefStep(g1, m1, g', m2, x)
  {
    forall id | 0 <= id < |g1|
      ensures IdStep(g1[id], m1[id], g'[id], m2[id], id == x)
    {
      assert IdStep(g1[id], m1[id], g2[id], m2[id], id == x);
    }
  }

  lemma RefsStayMapped(r: Rec, g: Graph, m: IdMap, g2: Graph, m2: IdMap, n: nat)
    requires RefsMapped(r, m, n) && RefStep(g, m, g2, m2, |g|)
    ensures RefsMapped(r, m2, n)
  {
    forall k | 0 <= k < n
      ensures Ref(r, k) < |m2| && Mapped(m2, Ref(r, k))
    {
      var id := Ref(r, k);
      assert IdStep(g[id], m[id], g2[id], m2[id], false);
    }
  }

  lemma RewriteEnds(g0: Graph, g1: Graph, m1: IdMap, g: Graph, m: IdMap, x: nat, k: nat)
    requires Rewriting(g0, g1, m1, g, m, x, k) && k >= RefCount(g[x])
    ensures RefStep(g1, m1, g, m, x) && RefsMapped(g0[x], m, RefCount(g0[x])) && AllCanon(g[x], m, RefCount(g[x]))
  {
    assert IdStep(g1[x], m1[x], g[x], m[x], true);
  }

  lemma RewrittenKind(g1: Graph, m1: IdMap, g: Graph, m: IdMap, x: nat)
    requires x < |g1| && RefStep(g1, m1, g, m, x) && m1[x] == IN_PROGRESS && IsRefKind(Kind(g1[x]))
    ensures m[x] == IN_PROGRESS && !Mapped(m, x) && IsRefKind(Kind(g[x])) && x < |g|
  {
    assert IdStep(g1[x], m1[x], g[x], m[x], true);
  }

  lemma FoundIsRoot(g: Graph, m: IdMap, tbl: multiset<Cand>, x: nat, y: nat)
    requires FoundEqual(g, m, tbl, x, y) && IsRefKind(Kind(g[x]))
    ensures y < |g| && (x == y || (y < |m| && m[y] == y))
  {
  }

  lemma SettledCanonRefs(g: Graph, m: IdMap, start: nat, x: nat, y: u32)
    requires CanonRefs(g, m, start) && x < |m| <= MAX_NR_TYPES && !Mapped(m, x) && AllCanon(g[x], m, RefCount(g[x]))
    ensures CanonRefs(g, m[x := y], start)
  {
    var m' := m[x := y];
    forall id | start <= id < |g| && Mapped(m', id) && IsRefKind(Kind(g[id]))
      ensures AllCanon(g[id], m', RefCount(g[id]))
    {
      assert AllCanon(g[id], m, RefCount(g[id]));
    }
  }

  /** Settling the type in progress completes the visit. */
  lemma FinishProgress(g0: Graph, g: Graph, m: IdMap, m1: IdMap, g2: Graph, m2: IdMap, start: nat, f: Finish, x: u32,
                       y: u32)
    requires x < |m| && !Mapped(m, x) && m[x] == UNPROCESSED && m1 == m[x := IN_PROGRESS]
    requires RefStep(g, m1, g2, m2, x) && PassOk(g0, g2, m2, start, f) && RefReady(g2, m2, start)
    requires RefsMapped(g0[x], m2, RefCount(g0[x])) && AllCanon(g2[x], m2, RefCount(g2[x])) && y < |m2|
    requires y <= MAX_NR_TYPES
    requires IsForest(m2[x := y]) && (x == y || m2[y] == y)
    ensures var m' := m2[x := y];
            && RefStep(g, m, g2, m', |g|) && RefReady(g2, m', start)
            && PassOk(g0, g2, m', start, Finish(f.order[x := f.clock + 1], f.clock + 1))
            && Mapped(m', x) && Resolve(m', x) == y
    ensures |f.order| == |m| <= MAX_NR_TYPES
  {
    var m' := m2[x := y];
    assert IdStep(g[x], m1[x], g2[x], m2[x], true);
    forall id | 0 <= id < |g|
      ensures IdStep(g[id], m[id], g2[id], m'[id], id == |g|)
    {
      assert IdStep(g[id], m1[id], g2[id], m2[id], id == x as nat);
    }
    FinishStep(g0, m2, start, f, x, y);
    SettledCanonRefs(g2, m2, start, x, y);
    ResolveStep(m', x);
    ResolveStep(m', y);
  }

  /** No type is in progress. */
  ghost predicate Quiet(m: IdMap) {
    forall id :: 0 <= id < |m| ==> Mapped(m, id) || m[id] == UNPROCESSED
  }

  lemma StructsAreReady(g: Graph, m: IdMap, m': IdMap, start: nat)
    requires WfGraph(g) && Prepared(g, m, start) && PassStep(g, m, m') && StructReady(g, m', start)
    requires forall id :: start <= id < |g| && IsComposite(g[id]) ==> Mapped(m', id)
    ensures RefReady(g, m', start) && Quiet(m')
    ensures forall id :: start <= id < |g| && IsRefKind(Kind(g[id])) ==> !Mapped(m', id)
  {
  }

  /** The reference pass starts with nothing finished. */
  lemma PassStarts(g: Graph, m: IdMap, start: nat)
    requires WfGraph(g) && |m| == |g| && Quiet(m)
    requires forall id :: start <= id < |g| && IsRefKind(Kind(g[id])) ==> !Mapped(m, id)
    ensures PassOk(g, g, m, start, Finish(seq(|g|, _ => 0), 0))
  {
  }

  lemma QuietIsBelow(m: IdMap, rank: seq<nat>, x: nat)
    requires Quiet(m) && |rank| == |m| && x < |m|
    ensures BelowProgress(m, rank, x)
  {
  }

  /** Mapped ids keep their mapping. */
  ghost predicate MappedFixed(m: IdMap, m': IdMap) {
    |m'| == |m| && forall id :: 0 <= id < |m| && Mapped(m, id) ==> m'[id] == m[id]
  }

  lemma MappedFixedRefl(m: IdMap)
    ensures MappedFixed(m, m)
  {
  }

  lemma MappedFixedTrans(a: IdMap, b: IdMap, c: IdMap)
    requires MappedFixed(a, b) && MappedFixed(b, c)
    ensures MappedFixed(a, c)
  {
    forall id | 0 <= id < |a| && Mapped(a, id)
      ensures c[id] == a[id]
    {
      assert Mapped(b, id);
    }
  }

  lemma StepKeepsQuiet(g: Graph, m: IdMap, g': Graph, m': IdMap)
    requires RefStep(g, m, g', m', |g|) && Quiet(m)
    ensures Quiet(m') && MappedFixed(m, m') && forall id :: 0 <= id < |m| && Mapped(m, id) ==> Mapped(m', id)
  {
    forall id | 0 <= id < |m|
      ensures (Mapped(m', id) || m'[id] == UNPROCESSED) && (Mapped(m, id) ==> m'[id] == m[id])
    {
      assert IdStep(g[id], m[id], g'[id], m'[id], false);
    }
  }

  /** What the reference pass leaves when it succeeds. */
  lemma PassEnds(g0: Graph, g: Graph, m: IdMap, start: nat, f: Finish)
    requires PassOk(g0, g, m, start, f) && Quiet(m) && RefReady(g, m, start)
    requires forall id :: start <= id < |m| ==> Mapped(m, id)
    ensures forall id :: 0 <= id < |m| ==> Mapped(m, id)
    ensures MeaningKept(g0, g) && CanonRefs(g, m, start) && RanksOk(g0, start, f.order)
    ensures |g| == |g0| && forall id :: 0 <= id < |g| ==> SameShape(g[id], g0[id])
  {
    FinishIsRank(g0, m, start, f);
  }
}
