/** The hypothetical mapping of `btf_dedup_is_equiv` as a bisimulation.

`hypot_map` pairs ids of the canonical graph with ids of the candidate graph.
The check treats a pair as equal while still comparing it, so what a successful
run establishes is that every pair matches locally and that its children are
related again.  Equal meaning at every depth then follows by induction. */
module DedupEquiv {
  import opened BtfTypes
  import opened BtfGraph
  import opened BtfEqual
  import opened Forest
  import opened DedupInv
  import opened DedupPaths
  import opened Words

  /** `resolve_fwd_id`. */
  ghost function FwdTarget(g: Graph, m: IdMap, id: nat): nat
    requires |m| == |g| && IsForest(m) && id < |m|
  {
    ResolveStep(m, id);
    if IsFwd(g[id]) && !IsFwd(g[Resolve(m, id)]) then Resolve(m, id) else id
  }

  /** Why one call may answer that the two types are equivalent. */
  ghost predicate Related(g: Graph, m: IdMap, h: IdMap, cand: nat, canon: nat)
    requires |m| == |g| && IsForest(m) && |h| == |g|
  {
    cand < |g| && canon < |g|
    && (|| Resolve(m, cand) == Resolve(m, canon)
        || (var c := FwdTarget(g, m, canon);
            c < |h| && Mapped(h, c) && h[c] < |g|
            && (h[c] == cand || Identical(g[h[c]], g[cand]))))
  }

  /** The two records agree, leaving their references aside. */
  ghost predicate LocalMatch(cand: Rec, canon: Rec) {
    var kind := Kind(cand);
    cand[0] == canon[0]
    && if (IsFwd(cand) || IsFwd(canon)) && kind != Kind(canon) then
         if IsFwd(cand) then FwdKind(cand) == Kind(canon) else FwdKind(canon) == kind
       else
         kind == Kind(canon)
         && if kind == KIND_INT then EqualIntTag(cand, canon)
            else if kind == KIND_ENUM then CompatEnum(cand, canon)
            else if kind == KIND_ENUM64 then CompatEnum64(cand, canon)
            else if kind == KIND_FWD || kind == KIND_FLOAT then EqualCommon(cand, canon)
            else HasShapeTest(kind) && ShapeTestForKind(cand, canon)
  }

  /** A pair of the hypothetical map whose comparison has finished. */
  ghost predicate Checked(g: Graph, m: IdMap, h: IdMap, x: nat)
    requires |m| == |g| && IsForest(m) && |h| == |g|
  {
    x < |g| && Mapped(h, x) && h[x] < |g| && LocalMatch(g[h[x]], g[x])
    && (Kind(g[h[x]]) == Kind(g[x]) && HasShapeTest(Kind(g[x])) ==>
          forall k :: 0 <= k < RefCount(g[x]) ==> Related(g, m, h, Ref(g[h[x]], k), Ref(g[x], k)))
  }

  /** The trail `hypot_list` holds each set entry of `hypot_map` once. */
  ghost predicate HypOk(h: IdMap, trail: seq<u32>, bound: nat) {
    && |h| == bound <= MAX_NR_TYPES
    && (forall x :: 0 <= x < |h| ==> if Mapped(h, x) then x in trail && h[x] < bound else h[x] == UNPROCESSED)
    && (forall i :: 0 <= i < |trail| ==> trail[i] < bound && Mapped(h, trail[i]))
    && (forall i, j :: 0 <= i < j < |trail| ==> trail[i] != trail[j])
  }

  /** All pairs set in h' but not in h have been compared, except possibly x. */
  ghost predicate NewChecked(g: Graph, m: IdMap, h: IdMap, h': IdMap, except: nat)
    requires |m| == |g| && IsForest(m) && |h| == |h'| == |g|
  {
    forall x :: 0 <= x < |g| && Mapped(h', x) && !Mapped(h, x) && x != except ==> Checked(g, m, h', x)
  }

  lemma RelatedExtends(g: Graph, m: IdMap, h: IdMap, h': IdMap, cand: nat, canon: nat)
    requires |m| == |g| && IsForest(m) && |h| == |g| && Extends(h, h')
    requires Related(g, m, h, cand, canon)
    ensures Related(g, m, h', cand, canon)
  {
  }

  lemma CheckedExtends(g: Graph, m: IdMap, h: IdMap, h': IdMap, x: nat)
    requires |m| == |g| && IsForest(m) && |h| == |g| && Extends(h, h') && Checked(g, m, h, x)
    ensures Checked(g, m, h', x)
  {
    if Kind(g[h[x]]) == Kind(g[x]) && HasShapeTest(Kind(g[x])) {
      forall k | 0 <= k < RefCount(g[x])
        ensures Related(g, m, h', Ref(g[h'[x]], k), Ref(g[x], k))
      {
        RelatedExtends(g, m, h, h', Ref(g[h[x]], k), Ref(g[x], k));
      }
    }
  }

  lemma NewCheckedTrans(g: Graph, m: IdMap, h0: IdMap, h1: IdMap, h2: IdMap, except: nat)
    requires |m| == |g| && IsForest(m) && |h0| == |h1| == |h2| == |g|
    requires Extends(h0, h1) && Extends(h1, h2)
    requires NewChecked(g, m, h0, h1, except) && NewChecked(g, m, h1, h2, except)
    ensures NewChecked(g, m, h0, h2, except)
  {
    forall x | 0 <= x < |g| && Mapped(h2, x) && !Mapped(h0, x) && x != except
      ensures Checked(g, m, h2, x)
    {
      if Mapped(h1, x) {
        CheckedExtends(g, m, h1, h2, x);
      }
    }
  }

  ghost predicate RefsRelated(g: Graph, m: IdMap, h: IdMap, cand: nat, canon: nat, from: nat, to: nat)
    requires |m| == |g| && IsForest(m) && |h| == |g| && cand < |g| && canon < |g|
  {
    forall k :: from <= k < to ==> Related(g, m, h, Ref(g[cand], k), Ref(g[canon], k))
  }

  lemma RefsRelatedExtends(g: Graph, m: IdMap, h: IdMap, h': IdMap, cand: nat, canon: nat, from: nat, to: nat)
    requires |m| == |g| && IsForest(m) && |h| == |g| && cand < |g| && canon < |g| && Extends(h, h')
    requires RefsRelated(g, m, h, cand, canon, from, to)
    ensures RefsRelated(g, m, h', cand, canon, from, to)
  {
    forall k | from <= k < to
      ensures Related(g, m, h', Ref(g[cand], k), Ref(g[canon], k))
    {
      RelatedExtends(g, m, h, h', Ref(g[cand], k), Ref(g[canon], k));
    }
  }

  /** Nothing has been added yet. */
  lemma NothingNew(g: Graph, m: IdMap, h: IdMap, cand: nat, canon: nat)
    requires |m| == |g| && IsForest(m) && |h| == |g|
    ensures Extends(h, h) && NewChecked(g, m, h, h, |g|) && NewReached(g, h, h, cand, canon)
  {
  }

  lemma RelatedRoots(g: Graph, m: IdMap, h: IdMap, cand: nat, canon: nat)
    requires |m| == |g| && IsForest(m) && |h| == |g| && cand < |g| && canon < |g|
    requires Resolve(m, cand) == Resolve(m, canon)
    ensures Related(g, m, h, cand, canon)
  {
  }

  /** A pair that has been added stays related. */
  lemma RelatedPair(g: Graph, m: IdMap, h: IdMap, h': IdMap, cand: nat, canon: nat)
    requires |m| == |g| && IsForest(m) && |h| == |g| && cand < |g| && canon < |g| && Extends(h, h')
    requires var c := FwdTarget(g, m, canon); c < |h| && Mapped(h, c) && h[c] == cand
    ensures Related(g, m, h', cand, canon)
  {
  }

  /** Types that are not the same already are not both void. */
  lemma FwdTargetNotVoid(g: Graph, m: IdMap, cand: nat, canon: nat)
    requires |m| == |g| && IsForest(m) && cand < |g| && canon < |g| && m[0] == 0
    ensures Resolve(m, cand) != Resolve(m, canon) ==> cand != 0 || FwdTarget(g, m, canon) != 0
    ensures NoForwards(g) ==> FwdTarget(g, m, canon) == canon
  {
    ResolveStep(m, 0);
  }

  lemma NothingPaired(h: IdMap)
    requires |h| <= MAX_NR_TYPES && forall x :: 0 <= x < |h| ==> h[x] == UNPROCESSED
    ensures HypOk(h, [], |h|)
  {
  }

  lemma HypEntry(h: IdMap, trail: seq<u32>, bound: nat, x: nat)
    requires HypOk(h, trail, bound) && x < bound
    ensures |h| == bound <= MAX_NR_TYPES && (Mapped(h, x) ==> h[x] < bound)
  {
  }

  lemma PairExtends(h0: IdMap, h1: IdMap, h2: IdMap, canon: nat, cand: u32)
    requires canon < |h0| && !Mapped(h0, canon) && h1 == h0[canon := cand] && Extends(h1, h2) && cand <= MAX_NR_TYPES
    ensures Extends(h0, h2) && h2[canon] == cand && Mapped(h2, canon)
  {
    assert Mapped(h1, canon);
    forall x | 0 <= x < |h0| && Mapped(h0, x)
      ensures h2[x] == h0[x]
    {
      assert Mapped(h1, x);
    }
  }

  /** Without references to compare, a local match finishes the pair. */
  lemma CheckedLeaf(g: Graph, m: IdMap, h: IdMap, x: nat)
    requires |m| == |g| && IsForest(m) && |h| == |g| && x < |g| && Mapped(h, x) && h[x] < |g|
    requires Kind(g[h[x]]) != Kind(g[x]) || !HasShapeTest(Kind(g[x]))
    ensures LocalMatch(g[h[x]], g[x]) ==> Checked(g, m, h, x)
  {
  }

  lemma CheckedByRefs(g: Graph, m: IdMap, h: IdMap, h': IdMap, cand: nat, x: nat)
    requires WfGraph(g) && |m| == |g| && IsForest(m) && |h| == |g| && x < |g| && cand < |g|
    requires Mapped(h, x) && h[x] == cand && Extends(h, h')
    requires Kind(g[cand]) == Kind(g[x]) && HasShapeTest(Kind(g[x])) && g[cand][0] == g[x][0]
    ensures ShapeTestForKind(g[cand], g[x]) && RefsRelated(g, m, h', cand, x, 0, RefCount(g[cand])) ==>
              Checked(g, m, h', x)
  {
    hide Related;
    ShapeTestIsSameShape(g[cand], g[x]);
  }

  predicate IsLeafKind(kind: nat) {
    kind in {KIND_INT, KIND_ENUM, KIND_ENUM64, KIND_FWD, KIND_FLOAT}
  }

  lemma NothingYet(g: Graph, m: IdMap, h: IdMap, cand: nat, canon: nat, from: nat)
    requires |m| == |g| && IsForest(m) && |h| == |g| && cand < |g| && canon < |g|
    ensures NewChecked(g, m, h, h, |g|) && RefsRelated(g, m, h, cand, canon, from, from) && Extends(h, h)
  {
  }

  /** One more reference compared. */
  lemma NextRef(g: Graph, m: IdMap, h0: IdMap, h1: IdMap, h2: IdMap, cand: nat, canon: nat,
                from: nat, to: nat, candRef: nat, canonRef: nat)
    requires |m| == |g| && IsForest(m) && |h0| == |h1| == |h2| == |g| && cand < |g| && canon < |g|
    requires Extends(h0, h1) && Extends(h1, h2) && from <= to
    requires NewChecked(g, m, h0, h1, |g|) && NewChecked(g, m, h1, h2, |g|)
    requires RefsRelated(g, m, h1, cand, canon, from, to)
    requires candRef == Ref(g[cand], to) && canonRef == Ref(g[canon], to) && Related(g, m, h2, candRef, canonRef)
    ensures RefsRelated(g, m, h2, cand, canon, from, to + 1)
    ensures Extends(h0, h2) && NewChecked(g, m, h0, h2, |g|)
  {
    RefsRelatedExtends(g, m, h1, h2, cand, canon, from, to);
    NewCheckedTrans(g, m, h0, h1, h2, |g|);
    ExtendsTrans(h0, h1, h2);
  }

  lemma ExtendsTrans(h0: IdMap, h1: IdMap, h2: IdMap)
    requires Extends(h0, h1) && Extends(h1, h2)
    ensures Extends(h0, h2)
  {
    forall x | 0 <= x < |h0| && Mapped(h0, x)
      ensures h2[x] == h0[x]
    {
      assert Mapped(h1, x);
    }
  }

  /** Two batches of references, compared one after the other, make the whole record. */
  lemma JoinRefs(g: Graph, m: IdMap, h0: IdMap, h1: IdMap, h2: IdMap, cand: nat, canon: nat, from: nat, count: nat)
    requires |m| == |g| && IsForest(m) && |h0| == |h1| == |h2| == |g| && cand < |g| && canon < |g|
    requires Extends(h0, h1) && Extends(h1, h2)
    requires NewChecked(g, m, h0, h1, |g|) && NewChecked(g, m, h1, h2, |g|)
    requires RefsRelated(g, m, h1, cand, canon, from, from + count)
    ensures RefsRelated(g, m, h2, cand, canon, from, from + count) && NewChecked(g, m, h0, h2, |g|) && Extends(h0, h2)
  {
    ExtendsTrans(h0, h1, h2);
    RefsRelatedExtends(g, m, h1, h2, cand, canon, from, from + count);
    NewCheckedTrans(g, m, h0, h1, h2, |g|);
  }

  /** A pair added first and compared afterwards is compared, like all pairs added since. */
  lemma ConcludePair(g: Graph, m: IdMap, h0: IdMap, h1: IdMap, h2: IdMap, canon: nat, cand: u32)
    requires |m| == |g| && IsForest(m) && |h0| == |h1| == |h2| == |g| && canon < |g| && cand < |g|
    requires !Mapped(h0, canon) && h1 == h0[canon := cand] && cand <= MAX_NR_TYPES
    requires Extends(h1, h2) && NewChecked(g, m, h1, h2, |g|) && Checked(g, m, h2, canon)
    ensures Extends(h0, h2) && NewChecked(g, m, h0, h2, |g|)
  {
    forall x | 0 <= x < |h0| && Mapped(h0, x)
      ensures h2[x] == h0[x]
    {
      assert Mapped(h1, x);
    }
    forall x | 0 <= x < |g| && Mapped(h2, x) && !Mapped(h0, x)
      ensures Checked(g, m, h2, x)
    {
      if x != canon {
        assert !Mapped(h1, x);
      }
    }
  }

  /** Every pair of the hypothetical map has been compared. */
  ghost predicate AllChecked(g: Graph, m: IdMap, h: IdMap)
    requires |m| == |g| && IsForest(m) && |h| == |g|
  {
    forall x :: 0 <= x < |g| && Mapped(h, x) ==> Checked(g, m, h, x)
  }

  lemma AllNewIsAll(g: Graph, m: IdMap, h0: IdMap, h: IdMap)
    requires |m| == |g| && IsForest(m) && |h0| == |h| == |g|
    requires NewChecked(g, m, h0, h, |g|) && forall x :: 0 <= x < |g| ==> !Mapped(h0, x)
    ensures AllChecked(g, m, h)
  {
  }

  /** Without forward declarations a local match is equality of shapes. */
  lemma LocalMatchIsSameShape(cand: Rec, canon: Rec)
    requires WfRec(cand) || cand == VOID
    requires WfRec(canon) || canon == VOID
    requires LocalMatch(cand, canon) && !IsFwd(cand) && !IsFwd(canon) && !IsEnumFwd(cand) && !IsEnumFwd(canon)
    ensures SameShape(cand, canon)
    ensures !HasShapeTest(Kind(cand)) ==> cand == canon
  {
    if HasShapeTest(Kind(cand)) {
      ShapeTestIsSameShape(cand, canon);
    } else {
      FullEnumsCompatAreEqual(cand, canon);
      ExactEqualityIsIdentity(cand, canon);
    }
  }

  /** Pairs assumed equal while being compared are equal: paired ids unfold to the same
      tree at every depth, and so do the ids of any related pair. */
  lemma {:induction false} PairsUnfoldAlike(g: Graph, m: IdMap, h: IdMap, x: nat, n: nat)
    requires WfGraph(g) && NoForwards(g) && |m| == |g| && IsForest(m) && Sound(g, m)
    requires |h| == |g| && AllChecked(g, m, h) && x < |g| && Mapped(h, x)
    ensures h[x] < |g| && Unfold(g, h[x], n) == Unfold(g, x, n)
    decreases n, 0
  {
    hide WfGraph, NoForwards, IsForest, Sound, LocalMatch, Related, AllChecked;
    CheckedPair(g, m, h, x);
    var c := h[x];
    if n > 0 {
      forall k | 0 <= k < RefCount(g[c])
        ensures Unfold(g, Ref(g[c], k), n - 1) == Unfold(g, Ref(g[x], k), n - 1)
      {
        if HasShapeTest(Kind(g[x])) {
          RelatedUnfoldAlike(g, m, h, Ref(g[c], k), Ref(g[x], k), n - 1);
        }
      }
      UnfoldStep(g, c, g, x, n - 1);
    }
  }

  /** What a finished comparison says about a pair. */
  lemma CheckedPair(g: Graph, m: IdMap, h: IdMap, x: nat)
    requires WfGraph(g) && NoForwards(g) && |m| == |g| && IsForest(m)
    requires |h| == |g| && AllChecked(g, m, h) && x < |g| && Mapped(h, x)
    ensures h[x] < |g| && SameShape(g[h[x]], g[x])
    ensures if HasShapeTest(Kind(g[x]))
            then forall k :: 0 <= k < RefCount(g[x]) ==> Related(g, m, h, Ref(g[h[x]], k), Ref(g[x], k))
            else g[h[x]] == g[x]
  {
    hide IsForest, Related;
    assert Checked(g, m, h, x);
    LocalMatchIsSameShape(g[h[x]], g[x]);
  }

  lemma {:induction false} RelatedUnfoldAlike(g: Graph, m: IdMap, h: IdMap, cand: nat, canon: nat, n: nat)
    requires WfGraph(g) && NoForwards(g) && |m| == |g| && IsForest(m) && Sound(g, m)
    requires |h| == |g| && AllChecked(g, m, h) && Related(g, m, h, cand, canon)
    ensures Unfold(g, cand, n) == Unfold(g, canon, n)
    decreases n, 1
  {
    if Resolve(m, cand) == Resolve(m, canon) {
      RootMeansTheSame(g, m, cand);
      RootMeansTheSame(g, m, canon);
    } else {
      PairsUnfoldAlike(g, m, h, canon, n);
      if h[canon] != cand {
        EqualRecsMeanTheSame(g, h[canon], cand);
      }
    }
  }

  /** A successful outermost check proves the two types equal. */
  lemma RelatedMeanTheSame(g: Graph, m: IdMap, h: IdMap, cand: nat, canon: nat)
    requires WfGraph(g) && NoForwards(g) && |m| == |g| && IsForest(m) && Sound(g, m)
    requires |h| == |g| && AllChecked(g, m, h) && Related(g, m, h, cand, canon)
    ensures SameMeaning(g, cand, g, canon)
  {
    forall n: nat
      ensures Unfold(g, cand, n) == Unfold(g, canon, n)
    {
      RelatedUnfoldAlike(g, m, h, cand, canon, n);
    }
  }

  lemma PairsMeanTheSame(g: Graph, m: IdMap, h: IdMap, x: nat)
    requires WfGraph(g) && NoForwards(g) && |m| == |g| && IsForest(m) && Sound(g, m)
    requires |h| == |g| && AllChecked(g, m, h) && x < |g| && Mapped(h, x)
    ensures h[x] < |g| && SameMeaning(g, h[x], g, x)
  {
    assert Checked(g, m, h, x);
    forall n: nat
      ensures Unfold(g, h[x], n) == Unfold(g, x, n)
    {
      PairsUnfoldAlike(g, m, h, x, n);
    }
  }

  // ---- what a negative answer means ----

  /** The two records differ, whatever they refer to. */
  predicate Mismatch(cand: Rec, canon: Rec) {
    !SameShape(cand, canon) || (IsFwd(cand) && cand != canon)
  }

  /** Why one call may answer that the two types are not equivalent: seen within n steps, the
      canonical type is already paired with another candidate, or the records differ, or some
      pair of references is refuted. */
  ghost predicate Refuted(g: Graph, m: IdMap, h: IdMap, cand: nat, canon: nat, n: nat)
    requires |m| == |g| && IsForest(m) && |h| == |g|
    decreases n
  {
    n > 0 && cand < |g| && canon < |g| &&
    var c := FwdTarget(g, m, canon);
    c < |g| && Mapped(h, c) && h[c] < |g| &&
    (if h[c] != cand then !Identical(g[h[c]], g[cand])
     else Mismatch(g[cand], g[c])
          || exists k :: 0 <= k < RefCount(g[cand]) && k < RefCount(g[c])
               && Refuted(g, m, h, Ref(g[cand], k), Ref(g[c], k), n - 1))
  }

  /** The refutation rests on a canonical type that is paired with another candidate. */
  ghost predicate Conflicted(g: Graph, m: IdMap, h: IdMap, cand: nat, canon: nat, n: nat)
    requires |m| == |g| && IsForest(m) && |h| == |g|
    decreases n
  {
    n > 0 && cand < |g| && canon < |g| &&
    var c := FwdTarget(g, m, canon);
    c < |g| && Mapped(h, c) && h[c] < |g| &&
    (if h[c] != cand then !Identical(g[h[c]], g[cand])
     else exists k :: 0 <= k < RefCount(g[cand]) && k < RefCount(g[c])
            && Conflicted(g, m, h, Ref(g[cand], k), Ref(g[c], k), n - 1))
  }

  ghost predicate Refutes(g: Graph, m: IdMap, h: IdMap, cand: nat, canon: nat)
    requires |m| == |g| && IsForest(m) && |h| == |g|
  {
    exists n: nat :: Refuted(g, m, h, cand, canon, n)
  }

  ghost predicate RefRefuted(g: Graph, m: IdMap, h: IdMap, cand: nat, canon: nat)
    requires |m| == |g| && IsForest(m) && |h| == |g| && cand < |g| && canon < |g|
  {
    exists k :: && 0 <= k < RefCount(g[cand]) && k < RefCount(g[canon])
                && Refutes(g, m, h, Ref(g[cand], k), Ref(g[canon], k))
  }

  lemma RefutePair(g: Graph, m: IdMap, h: IdMap, cand: nat, canon: nat)
    requires |m| == |g| && IsForest(m) && |h| == |g| && cand < |g| && canon < |g|
    requires var c := FwdTarget(g, m, canon);
             c < |g| && Mapped(h, c) && h[c] == cand && (Mismatch(g[cand], g[c]) || RefRefuted(g, m, h, cand, c))
    ensures Refutes(g, m, h, cand, canon)
  {
    var c := FwdTarget(g, m, canon);
    if Mismatch(g[cand], g[c]) {
      assert Refuted(g, m, h, cand, canon, 1);
    } else {
      var k :| 0 <= k < RefCount(g[cand]) && k < RefCount(g[c]) && Refutes(g, m, h, Ref(g[cand], k), Ref(g[c], k));
      var n: nat :| Refuted(g, m, h, Ref(g[cand], k), Ref(g[c], k), n);
      assert Refuted(g, m, h, cand, canon, n + 1);
    }
  }

  lemma RefuteTaken(g: Graph, m: IdMap, h: IdMap, cand: nat, canon: nat)
    requires |m| == |g| && IsForest(m) && |h| == |g| && cand < |g| && canon < |g|
    requires var c := FwdTarget(g, m, canon);
             c < |g| && Mapped(h, c) && h[c] < |g| && h[c] != cand && !Identical(g[h[c]], g[cand])
    ensures Refutes(g, m, h, cand, canon)
  {
    assert Refuted(g, m, h, cand, canon, 1);
  }

  lemma RefuteRef(g: Graph, m: IdMap, h: IdMap, cand: nat, canon: nat, k: nat, candRef: nat, canonRef: nat)
    requires |m| == |g| && IsForest(m) && |h| == |g| && cand < |g| && canon < |g|
    requires k < RefCount(g[cand]) && k < RefCount(g[canon])
    requires candRef == Ref(g[cand], k) && canonRef == Ref(g[canon], k) && Refutes(g, m, h, candRef, canonRef)
    ensures RefRefuted(g, m, h, cand, canon)
  {
  }

  /** Records of the same shape pass every local test. */
  lemma SameShapePassesTests(a: Rec, b: Rec)
    requires (WfRec(a) || a == VOID) && (WfRec(b) || b == VOID)
    ensures SameShape(a, b) ==> a[0] == b[0] && a[1] == b[1] && Kind(a) == Kind(b) && Vlen(a) == Vlen(b)
    ensures SameShape(a, b) ==> match Kind(a)
              case 1 => EqualIntTag(a, b)
              case 6 => CompatEnum(a, b)
              case 19 => CompatEnum64(a, b)
              case 16 => EqualCommon(a, b)
              case 3 => CompatArray(a, b)
              case 4 | 5 => ShallowEqualStruct(a, b)
              case 13 => CompatFnproto(a, b)
              case _ => true
  {
    if SameShape(a, b) && HasShapeTest(Kind(a)) {
      ShapeTestIsSameShape(a, b);
    }
  }

  /** Without forward declarations, refuted types differ in meaning, unless the refutation rests on
      a canonical type paired with another candidate. */
  lemma {:induction false} RefutedMeansDifferent(g: Graph, m: IdMap, h: IdMap, cand: nat, canon: nat, n: nat)
    requires WfGraph(g) && NoForwards(g) && |m| == |g| && IsForest(m) && |h| == |g|
    requires Refuted(g, m, h, cand, canon, n)
    ensures Conflicted(g, m, h, cand, canon, n) || Unfold(g, cand, n) != Unfold(g, canon, n)
    decreases n
  {
    hide WfGraph, IsForest;
    assert FwdTarget(g, m, canon) == canon;
    if h[canon] == cand && Unfold(g, cand, n) == Unfold(g, canon, n) {
      UnfoldInverse(g, cand, g, canon, n - 1, 0);
      var k :| && 0 <= k < RefCount(g[cand]) && k < RefCount(g[canon])
               && Refuted(g, m, h, Ref(g[cand], k), Ref(g[canon], k), n - 1);
      UnfoldInverse(g, cand, g, canon, n - 1, k);
      RefutedMeansDifferent(g, m, h, Ref(g[cand], k), Ref(g[canon], k), n - 1);
    }
  }

  lemma {:induction false} ConflictedHasConflict(g: Graph, m: IdMap, h: IdMap, cand: nat, canon: nat, n: nat)
    requires WfGraph(g) && NoForwards(g) && |m| == |g| && IsForest(m) && |h| == |g|
    requires Conflicted(g, m, h, cand, canon, n)
    ensures Conflict(g, h, cand, canon)
    decreases n
  {
    hide WfGraph, IsForest, Together, Conflict;
    assert FwdTarget(g, m, canon) == canon;
    if h[canon] != cand {
      TogetherStarts(g, canon, cand);
      TakenConflict(g, h, cand, canon);
    } else {
      var k :| && 0 <= k < RefCount(g[cand]) && k < RefCount(g[canon])
               && Conflicted(g, m, h, Ref(g[cand], k), Ref(g[canon], k), n - 1);
      ConflictedHasConflict(g, m, h, Ref(g[cand], k), Ref(g[canon], k), n - 1);
      ConflictFirst(g, h, cand, canon, k);
    }
  }

  lemma TakenConflict(g: Graph, h: IdMap, cand: nat, canon: nat)
    requires |h| == |g| && cand < |g| && canon < |g| && Together(g, canon, cand, canon, cand)
    requires Mapped(h, canon) && h[canon] < |g| && h[canon] != cand && !Identical(g[h[canon]], g[cand])
    ensures Conflict(g, h, cand, canon)
  {
    hide Together;
  }

  lemma SameMeaningBack(g: Graph, a: nat, b: nat)
    requires SameMeaning(g, a, g, b)
    ensures SameMeaning(g, b, g, a)
  {
  }

  /** A struct that is turned down does not mean the same, or it holds two copies of something
      that the candidate holds once. */
  lemma RefutedIsExplained(g: Graph, m: IdMap, h0: IdMap, h: IdMap, cand: nat, canon: nat)
    requires WfGraph(g) && NoForwards(g) && |m| == |g| && IsForest(m) && |h0| == |h| == |g|
    requires (forall x :: 0 <= x < |g| ==> !Mapped(h0, x)) && NewReached(g, h0, h, cand, canon)
    requires Refutes(g, m, h, cand, canon) && cand < |g| && canon < |g|
    ensures !SameMeaning(g, cand, g, canon) || TwoCopies(g, canon, cand)
  {
    hide WfGraph, NoForwards, IsForest, Refuted, Conflicted, Conflict, TwoCopies, NewReached;
    var n: nat :| Refuted(g, m, h, cand, canon, n);
    RefutedMeansDifferent(g, m, h, cand, canon, n);
    if SameMeaning(g, cand, g, canon) {
      assert Conflicted(g, m, h, cand, canon, n);
      ConflictedHasConflict(g, m, h, cand, canon, n);
      SameMeaningBack(g, cand, canon);
      ConflictIsTwoCopies(g, h0, h, cand, canon);
    }
  }

  /** The maps in which a candidate was turned down, and whether it was for a forward declaration
      of the base that was redirected instead. */
  datatype Ground = Ground(canon: IdMap, hypot: IdMap, adjusted: bool)

  ghost predicate Dismissed(g: Graph, ground: Ground, x: nat, cand: nat) {
    x < |g| && cand < |g| &&
    (|| !SameShape(g[x], g[cand]) || ground.adjusted
     || (|ground.canon| == |ground.hypot| == |g| && IsForest(ground.canon)
         && Refutes(g, ground.canon, ground.hypot, x, cand)))
    && (NoForwards(g) ==> !SameMeaning(g, x, g, cand) || TwoCopies(g, cand, x))
  }

  lemma UnequalDismisses(g: Graph, ground: Ground, x: nat, cand: nat)
    requires WfGraph(g) && x < |g| && cand < |g| && !ShallowEqualStruct(g[x], g[cand])
    ensures IsComposite(g[x]) ==> Dismissed(g, ground, x, cand)
  {
    SameShapePassesTests(g[x], g[cand]);
    if IsComposite(g[x]) {
      DifferentShapesDiffer(g, x, cand);
    }
  }

  lemma RefutedDismisses(g: Graph, m: IdMap, h0: IdMap, h: IdMap, x: nat, cand: nat, adjusted: bool)
    requires WfGraph(g) && |m| == |g| && IsForest(m) && |h0| == |h| == |g| && x < |g| && cand < |g|
    requires (forall y :: 0 <= y < |g| ==> !Mapped(h0, y)) && NewReached(g, h0, h, x, cand)
    requires Refutes(g, m, h, x, cand)
    ensures Dismissed(g, Ground(m, h, adjusted), x, cand)
  {
    hide WfGraph, NoForwards, IsForest, NewReached, Refutes, SameMeaning, TwoCopies;
    if NoForwards(g) {
      RefutedIsExplained(g, m, h0, h, x, cand);
    }
  }

  lemma AdjustedDismisses(g: Graph, ground: Ground, x: nat, cand: nat)
    requires ground.adjusted && !NoForwards(g) && x < |g| && cand < |g|
    ensures Dismissed(g, ground, x, cand)
  {
  }

  lemma ShallowEqualsAgree(a: Rec, b: Rec)
    requires ShallowEqualStruct(a, b) && IsComposite(a)
    ensures EdgeKind(a, b)
  {
  }

  lemma FwdIsForward(g: Graph, id: nat)
    requires id < |g| && IsFwd(g[id])
    ensures !NoForwards(g)
  {
  }

  lemma CompositeStays(g: Graph, m: IdMap, m': IdMap, id: nat)
    requires |m| == |m'| == |g| && id < |g| && OnlyFwdsMoved(g, m, m') && IsComposite(g[id])
    ensures m'[id] == m[id]
  {
  }

  lemma DifferentShapesDiffer(g: Graph, x: nat, cand: nat)
    requires WfGraph(g) && x < |g| && cand < |g| && !SameShape(g[x], g[cand])
    ensures !SameMeaning(g, x, g, cand)
  {
    hide WfGraph;
    if SameMeaning(g, x, g, cand) {
      assert Unfold(g, x, 1) == Unfold(g, cand, 1);
      UnfoldInverse(g, x, g, cand, 0, 0);
    }
  }

  /** Every candidate with this hash was turned down for a reason. */
  ghost predicate AllDismissed(g: Graph, tbl: multiset<Cand>, h: u64, x: nat, grounds: seq<Ground>) {
    forall e :: e in tbl && e.key == h ==> exists j :: 0 <= j < |grounds| && Dismissed(g, grounds[j], x, e.value)
  }

  ghost predicate DismissedUpto(g: Graph, cands: seq<Cand>, n: nat, x: nat, grounds: seq<Ground>) {
    n <= |cands| && |grounds| == n && forall j :: 0 <= j < n ==> Dismissed(g, grounds[j], x, cands[j].value)
  }

  lemma NoneDismissedYet(g: Graph, cands: seq<Cand>, x: nat)
    ensures DismissedUpto(g, cands, 0, x, [])
  {
  }

  lemma DismissedNext(g: Graph, cands: seq<Cand>, n: nat, x: nat, grounds: seq<Ground>, ground: Ground)
    requires DismissedUpto(g, cands, n, x, grounds) && n < |cands| && Dismissed(g, ground, x, cands[n].value)
    ensures DismissedUpto(g, cands, n + 1, x, grounds + [ground])
  {
    hide Dismissed;
  }

  lemma EveryCandDismissed(g: Graph, tbl: multiset<Cand>, cands: seq<Cand>, h: u64, x: nat, grounds: seq<Ground>)
    requires Visits(cands, tbl, h) && DismissedUpto(g, cands, |cands|, x, grounds)
    ensures AllDismissed(g, tbl, h, x, grounds)
  {
    hide Dismissed;
    forall e | e in tbl && e.key == h
      ensures exists j :: 0 <= j < |grounds| && Dismissed(g, grounds[j], x, e.value)
    {
      assert e in multiset(cands);
      var j :| 0 <= j < |cands| && cands[j] == e;
      assert Dismissed(g, grounds[j], x, cands[j].value);
    }
  }

  /** Types that match locally are, or declare, the same kind of type. */
  lemma MatchedFlavours(cand: Rec, canon: Rec)
    requires LocalMatch(cand, canon)
    ensures Flavour(cand) == Flavour(canon)
  {
    if IsFwd(cand) && IsFwd(canon) {
      assert cand[1] == canon[1];
    }
  }

  /** The roots of a matched pair: which of them may be linked to the other. */
  lemma RootsOfMatch(g: Graph, m: IdMap, cand: nat, canon: nat)
    requires |m| == |g| && IsForest(m) && KindsAgree(g, m) && cand < |g| && canon < |g|
    requires LocalMatch(g[cand], g[canon])
    ensures var t, c := Resolve(m, cand), Resolve(m, canon);
            && t < |g| && c < |g| && IsRoot(m, t) && IsRoot(m, c)
            && Flavour(g[t]) == Flavour(g[c])
            && (IsFwd(g[c]) && !IsFwd(g[t]) ==> IsComposite(g[t]))
            && (IsFwd(g[t]) && !IsFwd(g[c]) ==> IsComposite(g[c]))
  {
    MatchedFlavours(g[cand], g[canon]);
    RootKeepsKind(g, m, cand);
    RootKeepsKind(g, m, canon);
    ResolveStep(m, cand);
    ResolveStep(m, canon);
  }

  lemma RootsMeanTheSame(g: Graph, m: IdMap, cand: nat, canon: nat)
    requires |m| == |g| && IsForest(m) && Sound(g, m) && cand < |g| && canon < |g|
    requires SameMeaning(g, cand, g, canon)
    ensures SameMeaning(g, Resolve(m, cand), g, Resolve(m, canon))
  {
    RootMeansTheSame(g, m, cand);
    RootMeansTheSame(g, m, canon);
    forall n: nat
      ensures Unfold(g, Resolve(m, cand), n) == Unfold(g, Resolve(m, canon), n)
    {
      assert Unfold(g, cand, n) == Unfold(g, canon, n);
    }
  }

  /** What `btf_dedup_merge_hypot_map` does with one pair. */
  ghost function MergeOne(g: Graph, m: IdMap, cand: nat, canon: nat, adjustCanon: bool): IdMap
    requires |m| == |g| && IsForest(m) && cand < |g| && canon < |g|
  {
    ResolveStep(m, cand);
    ResolveStep(m, canon);
    var t, c := Resolve(m, cand), Resolve(m, canon);
    if !IsFwd(g[t]) && IsFwd(g[c]) then m[c := t]
    else if adjustCanon then m
    else if IsFwd(g[t]) && !IsFwd(g[c]) then m[t := c]
    else if IsComposite(g[t]) && !IsFwd(g[c]) && Mapped(m, c) && !Mapped(m, t) then m[t := c]
    else m
  }

  ghost predicate OnlyFwdsMoved(g: Graph, m: IdMap, m': IdMap)
    requires |m| == |m'| == |g|
  {
    forall id :: 0 <= id < |g| && !IsFwd(g[id]) ==> m'[id] == m[id]
  }

  /** What a verified hypothetical map says about its pairs, whatever happens to the canonical map. */
  ghost predicate PairsMatch(g: Graph, h: IdMap)
    requires |h| == |g|
  {
    forall x :: 0 <= x < |g| && Mapped(h, x) ==>
      h[x] < |g| && LocalMatch(g[h[x]], g[x]) && (NoForwards(g) ==> SameMeaning(g, h[x], g, x))
  }

  /** Merging one pair keeps the forest, its meaning and the candidate table. */
  lemma MergeOneKeepsInv(g: Graph, m: IdMap, tbl: multiset<Cand>, start: nat, h: IdMap, canon: nat, adjustCanon: bool)
    requires MapInv(g, m, 0) && TableInv(g, m, tbl, start) && |h| == |g| && PairsMatch(g, h)
    requires canon < |g| && Mapped(h, canon) && StructReady(g, m, start)
    ensures h[canon] < |g|
    ensures var m' := MergeOne(g, m, h[canon], canon, adjustCanon);
            && MapInv(g, m', 0) && TableInv(g, m', tbl, start) && PassStep(g, m, m')
            && (adjustCanon ==> OnlyFwdsMoved(g, m, m'))
  {
    hide KindsAgree, TargetsMapped, Sound, TableInv, NoForwards, IsForest;
    var cand := h[canon];
    var t, c := Resolve(m, cand), Resolve(m, canon);
    RootsOfMatch(g, m, cand, canon);
    VoidIsNoType(g, t);
    VoidIsNoType(g, c);
    if NoForwards(g) {
      RootsMeanTheSame(g, m, cand, canon);
    }
    if !IsFwd(g[t]) && IsFwd(g[c]) {
      LinkRoots(g, m, tbl, start, c, t);
    } else if adjustCanon {
    } else if IsFwd(g[t]) && !IsFwd(g[c]) {
      LinkRoots(g, m, tbl, start, t, c);
    } else if IsComposite(g[t]) && !IsFwd(g[c]) && Mapped(m, c) && !Mapped(m, t) {
      LinkRoots(g, m, tbl, start, t, c);
    }
  }

  lemma VoidIsNoType(g: Graph, id: nat)
    requires WfGraph(g) && id < |g|
    ensures IsFwd(g[id]) || IsComposite(g[id]) ==> id != 0
  {
  }

  lemma LinkRoots(g: Graph, m: IdMap, tbl: multiset<Cand>, start: nat, x: nat, y: u32)
    requires MapInv(g, m, 0) && TableInv(g, m, tbl, start) && x < |g| && y < |g|
    requires x != 0 && IsRoot(m, x) && IsRoot(m, y) && x != y && EdgeKind(g[x], g[y])
    requires Mapped(m, y) || IsComposite(g[y])
    requires (IsFwd(g[x]) && Mapped(m, x)) || (IsComposite(g[x]) && !Mapped(m, x) && start <= x)
    requires NoForwards(g) ==> SameMeaning(g, x, g, y)
    ensures MapInv(g, m[x := y], 0) && TableInv(g, m[x := y], tbl, start) && PassStep(g, m, m[x := y])
  {
    hide KindsAgree, TargetsMapped, Sound, Distinct, Complete, NoForwards, IsForest;
    if !Mapped(m, x) { UnmappedIsNotCand(g, m, tbl, start, x); }
    LinkKeepsMapInv(g, m, 0, x, y);
    LinkKeepsTable(g, m, tbl, start, x, y);
  }

  /** A successful check from a cleared hypothetical map justifies merging it and the pair itself. */
  lemma EquivJustifiesMerge(g: Graph, m: IdMap, h: IdMap, cand: nat, canon: nat)
    requires MapInv(g, m, 0) && |h| == |g| && AllChecked(g, m, h) && Related(g, m, h, cand, canon)
    ensures PairsMatch(g, h)
    ensures NoForwards(g) ==> SameMeaning(g, cand, g, canon)
  {
    if NoForwards(g) {
      RelatedMeanTheSame(g, m, h, cand, canon);
    }
    forall x | 0 <= x < |g| && Mapped(h, x)
      ensures h[x] < |g| && LocalMatch(g[h[x]], g[x]) && (NoForwards(g) ==> SameMeaning(g, h[x], g, x))
    {
      assert Checked(g, m, h, x);
      if NoForwards(g) {
        PairsMeanTheSame(g, m, h, x);
      }
    }
  }
}
