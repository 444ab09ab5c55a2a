/** Paths through a type graph, and the types that `btf_dedup_is_equiv` meets on them.

The check compares two graphs side by side, reference by reference, so every pair it
comes to lies at the end of one path followed from both sides. */
module DedupPaths {
  import opened BtfTypes
  import opened BtfGraph
  import opened Forest

  /** Where references with these numbers, followed one after the other, lead; |g| is nowhere. */
  ghost function Follow(g: Graph, id: nat, path: seq<nat>): nat
    decreases |path|
  {
    if path == [] then id
    else if id < |g| && path[0] < RefCount(g[id]) then Follow(g, Ref(g[id], path[0]), path[1..])
    else |g|
  }

  lemma FollowFirst(g: Graph, id: nat, k: nat, path: seq<nat>)
    requires id < |g| && k < RefCount(g[id])
    ensures Follow(g, id, [k] + path) == Follow(g, Ref(g[id], k), path)
  {
    assert ([k] + path)[1..] == path;
  }

  /** One path leads from a to x and from b to y. */
  ghost predicate Together(g: Graph, a: nat, b: nat, x: nat, y: nat) {
    x < |g| && y < |g| && exists path :: Follow(g, a, path) == x && Follow(g, b, path) == y
  }

  lemma TogetherStarts(g: Graph, a: nat, b: nat)
    requires a < |g| && b < |g|
    ensures Together(g, a, b, a, b)
  {
    assert Follow(g, a, []) == a && Follow(g, b, []) == b;
  }

  lemma TogetherFirst(g: Graph, a: nat, b: nat, k: nat, x: nat, y: nat)
    requires a < |g| && b < |g| && k < RefCount(g[a]) && k < RefCount(g[b])
    requires Together(g, Ref(g[a], k), Ref(g[b], k), x, y)
    ensures Together(g, a, b, x, y)
  {
    var path :| Follow(g, Ref(g[a], k), path) == x && Follow(g, Ref(g[b], k), path) == y;
    FollowFirst(g, a, k, path);
    FollowFirst(g, b, k, path);
  }

  /** The kinds that the check has no comparison for. */
  predicate Uncompared(r: Rec) {
    Kind(r) in {KIND_VAR, KIND_DATASEC, KIND_DECL_TAG}
  }

  /** One path leads from the candidate to such a type and, without forward declarations, from the
      canonical type to another one of the same kind. */
  ghost predicate MeetUncompared(g: Graph, cand: nat, canon: nat) {
    exists path :: UncomparedAt(g, Follow(g, cand, path), Follow(g, canon, path))
  }

  ghost predicate UncomparedAt(g: Graph, y: nat, x: nat) {
    y < |g| && Uncompared(g[y])
    && (NoForwards(g) ==> x < |g| && x != y && Kind(g[x]) == Kind(g[y]))
  }

  lemma MeetThemselves(g: Graph, cand: nat, canon: nat)
    requires UncomparedAt(g, cand, canon)
    ensures MeetUncompared(g, cand, canon)
  {
    assert Follow(g, cand, []) == cand && Follow(g, canon, []) == canon;
  }

  lemma MeetFirst(g: Graph, cand: nat, canon: nat, k: nat)
    requires cand < |g| && k < RefCount(g[cand]) && canon < |g| && k < RefCount(g[canon])
    requires MeetUncompared(g, Ref(g[cand], k), Ref(g[canon], k))
    ensures MeetUncompared(g, cand, canon)
  {
    hide UncomparedAt;
    var path :| UncomparedAt(g, Follow(g, Ref(g[cand], k), path), Follow(g, Ref(g[canon], k), path));
    FollowFirst(g, cand, k, path);
    FollowFirst(g, canon, k, path);
  }

  /** What a canonical type declares is looked at instead of it. */
  lemma MeetThrough(g: Graph, cand: nat, target: nat, canon: nat)
    requires MeetUncompared(g, cand, target) && (NoForwards(g) ==> target == canon)
    ensures MeetUncompared(g, cand, canon)
  {
    hide NoForwards;
    var path :| UncomparedAt(g, Follow(g, cand, path), Follow(g, target, path));
    assert UncomparedAt(g, Follow(g, cand, path), Follow(g, canon, path));
  }

  /** A type meets such types together with another one of its kind. */
  ghost predicate MeetsUncompared(g: Graph, id: nat) {
    exists other: nat :: id < |g| && other < |g| && other != id && Kind(g[other]) == Kind(g[id])
      && MeetUncompared(g, id, other)
  }

  lemma MeetsOther(g: Graph, id: nat, other: nat)
    requires id < |g| && other < |g| && other != id && Kind(g[other]) == Kind(g[id]) && MeetUncompared(g, id, other)
    ensures MeetsUncompared(g, id)
  {
  }

  /** Duplicate arrays or structs inside one unit: the same record, down to the ids. */
  predicate Identical(a: Rec, b: Rec) {
    (Kind(a) == KIND_ARRAY || IsComposite(a)) && a == b
  }

  /** b holds two types of the same meaning, not even identical, where a holds one. */
  ghost predicate TwoCopies(g: Graph, a: nat, b: nat) {
    exists x: nat, y: nat, z: nat :: && Together(g, a, b, x, y) && Together(g, a, b, x, z)
                                     && y != z && !Identical(g[y], g[z]) && SameMeaning(g, y, g, z)
  }

  lemma {:induction false} FollowAlike(g: Graph, a: nat, b: nat, path: seq<nat>, n: nat)
    requires WfGraph(g) && a < |g| && b < |g| && SameMeaning(g, a, g, b)
    requires Follow(g, a, path) < |g| && Follow(g, b, path) < |g|
    ensures Unfold(g, Follow(g, a, path), n) == Unfold(g, Follow(g, b, path), n)
    decreases |path|
  {
    hide WfGraph, Unfold;
    if path == [] {
    } else {
      RefInGraph(g, a, path[0]);
      RefInGraph(g, b, path[0]);
      forall n: nat
        ensures Unfold(g, Ref(g[a], path[0]), n) == Unfold(g, Ref(g[b], path[0]), n)
      {
        assert Unfold(g, a, n + 1) == Unfold(g, b, n + 1);
        UnfoldInverse(g, a, g, b, n, path[0]);
      }
      FollowAlike(g, Ref(g[a], path[0]), Ref(g[b], path[0]), path[1..], n);
    }
  }

  /** What one path leads to from two types of the same meaning means the same. */
  lemma TogetherMeanTheSame(g: Graph, a: nat, b: nat, x: nat, y: nat)
    requires WfGraph(g) && a < |g| && b < |g| && SameMeaning(g, a, g, b) && Together(g, a, b, x, y)
    ensures SameMeaning(g, x, g, y)
  {
    var path :| Follow(g, a, path) == x && Follow(g, b, path) == y;
    forall n: nat
      ensures Unfold(g, x, n) == Unfold(g, y, n)
    {
      FollowAlike(g, a, b, path, n);
    }
  }

  // ---- the pairs of a hypothetical map ----

  ghost predicate Extends(h: IdMap, h': IdMap) {
    |h'| == |h| && forall x :: 0 <= x < |h| && Mapped(h, x) ==> h'[x] == h[x]
  }

  /** All pairs set in h' but not in h are met on a path from the two types compared. */
  ghost predicate NewReached(g: Graph, h: IdMap, h': IdMap, cand: nat, canon: nat)
    requires |h| == |h'| == |g|
  {
    NoForwards(g) ==>
      forall x :: 0 <= x < |g| && Mapped(h', x) && !Mapped(h, x) ==> Together(g, canon, cand, x, h'[x])
  }

  lemma NothingReached(g: Graph, h: IdMap, cand: nat, canon: nat)
    requires |h| == |g|
    ensures NewReached(g, h, h, cand, canon)
  {
  }

  lemma ReachedTrans(g: Graph, h0: IdMap, h1: IdMap, h2: IdMap, cand: nat, canon: nat)
    requires |h0| == |h1| == |h2| == |g| && Extends(h1, h2)
    requires NewReached(g, h0, h1, cand, canon) && NewReached(g, h1, h2, cand, canon)
    ensures NewReached(g, h0, h2, cand, canon)
  {
    hide NoForwards, Together;
    if NoForwards(g) {
      forall x | 0 <= x < |g| && Mapped(h2, x) && !Mapped(h0, x)
        ensures Together(g, canon, cand, x, h2[x])
      {
        assert Mapped(h1, x) ==> h2[x] == h1[x];
      }
    }
  }

  /** What a pair of references has reached, the pair that they belong to has reached. */
  lemma ReachedFromRef(g: Graph, h: IdMap, h': IdMap, cand: nat, canon: nat, k: nat)
    requires |h| == |h'| == |g| && cand < |g| && canon < |g| && k < RefCount(g[cand]) && k < RefCount(g[canon])
    requires NewReached(g, h, h', Ref(g[cand], k), Ref(g[canon], k))
    ensures NewReached(g, h, h', cand, canon)
  {
    hide NoForwards, Together;
    if NoForwards(g) {
      forall x | 0 <= x < |g| && Mapped(h', x) && !Mapped(h, x)
        ensures Together(g, canon, cand, x, h'[x])
      {
        TogetherFirst(g, canon, cand, k, x, h'[x]);
      }
    }
  }

  /** A pair that has been added and then compared. */
  lemma ReachedPair(g: Graph, h0: IdMap, h1: IdMap, h2: IdMap, cand: u32, canon: nat, target: nat)
    requires |h0| == |h1| == |h2| == |g| && cand < |g| && target < |g| && (NoForwards(g) ==> target == canon)
    requires h1 == h0[target := cand] && cand <= MAX_NR_TYPES && Extends(h1, h2) && NewReached(g, h1, h2, cand, target)
    ensures NewReached(g, h0, h2, cand, canon)
  {
    hide NoForwards, Together;
    if NoForwards(g) {
      TogetherStarts(g, canon, cand);
      forall x | 0 <= x < |g| && Mapped(h2, x) && !Mapped(h0, x)
        ensures Together(g, canon, cand, x, h2[x])
      {
        assert Mapped(h1, target) && (x != target ==> !Mapped(h1, x));
      }
    }
  }

  /** On some path the canonical type is already paired with another candidate. */
  ghost predicate Conflict(g: Graph, h: IdMap, cand: nat, canon: nat)
    requires |h| == |g|
  {
    exists x: nat, y: nat :: && Together(g, canon, cand, x, y) && Mapped(h, x) && h[x] < |g|
                   && h[x] != y && !Identical(g[h[x]], g[y])
  }

  lemma ConflictFirst(g: Graph, h: IdMap, cand: nat, canon: nat, k: nat)
    requires |h| == |g| && cand < |g| && canon < |g| && k < RefCount(g[cand]) && k < RefCount(g[canon])
    requires Conflict(g, h, Ref(g[cand], k), Ref(g[canon], k))
    ensures Conflict(g, h, cand, canon)
  {
    var x: nat, y: nat :| && Together(g, Ref(g[canon], k), Ref(g[cand], k), x, y) && Mapped(h, x) && h[x] < |g|
                && h[x] != y && !Identical(g[h[x]], g[y]);
    TogetherFirst(g, canon, cand, k, x, y);
  }

  /** The other candidate has been met on a path, too. */
  lemma ConflictIsTwoCopies(g: Graph, h0: IdMap, h: IdMap, cand: nat, canon: nat)
    requires WfGraph(g) && NoForwards(g) && |h0| == |h| == |g| && (forall x :: 0 <= x < |g| ==> !Mapped(h0, x))
    requires NewReached(g, h0, h, cand, canon) && Conflict(g, h, cand, canon)
    requires cand < |g| && canon < |g| && SameMeaning(g, canon, g, cand)
    ensures TwoCopies(g, canon, cand)
  {
    hide WfGraph, NoForwards;
    var x: nat, y: nat :| && Together(g, canon, cand, x, y) && Mapped(h, x) && h[x] < |g|
                && h[x] != y && !Identical(g[h[x]], g[y]);
    assert Together(g, canon, cand, x, h[x]);
    TogetherMeanTheSame(g, canon, cand, x, y);
    TogetherMeanTheSame(g, canon, cand, x, h[x]);
    SameMeaningBoth(g, x, h[x], y);
  }

  lemma SameMeaningBoth(g: Graph, x: nat, y: nat, z: nat)
    requires SameMeaning(g, x, g, y) && SameMeaning(g, x, g, z)
    ensures SameMeaning(g, y, g, z) && SameMeaning(g, z, g, y)
  {
    forall n: nat
      ensures Unfold(g, y, n) == Unfold(g, z, n)
    {
      assert Unfold(g, x, n) == Unfold(g, y, n) && Unfold(g, x, n) == Unfold(g, z, n);
    }
  }
}
