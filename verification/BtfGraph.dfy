/** What a BTF type id means: the tree its record unfolds to.

A type graph may be cyclic, so a meaning is the family of all its finite
unfoldings.  Two ids mean the same type when they agree at every depth. */
module BtfGraph {
  import opened BtfTypes

  type Graph = seq<Rec>

  datatype Tree = Cut | Node(shape: seq<u32>, kids: seq<Tree>)

  ghost predicate RefsInRange(r: Rec, bound: nat) {
    forall k :: 0 <= k < RefCount(r) ==> Ref(r, k) < bound
  }

  ghost predicate WfGraph(g: Graph) {
    && 0 < |g| <= MAX_NR_TYPES && g[0] == VOID
    && (forall id :: 0 < id < |g| ==> WfRec(g[id]))
    && (forall id :: 0 <= id < |g| ==> RefsInRange(g[id], |g|))
  }

  lemma WfAt(g: Graph, id: nat)
    requires WfGraph(g) && 0 < id < |g|
    ensures WfRec(g[id])
  {
  }

  lemma RefInGraph(g: Graph, id: nat, k: nat)
    requires WfGraph(g) && id < |g| && k < RefCount(g[id])
    ensures Ref(g[id], k) < |g|
  {
    assert RefsInRange(g[id], |g|);
  }

  ghost function Unfold(g: Graph, id: nat, depth: nat): Tree
    decreases depth
  {
    if depth == 0 || id >= |g| then Cut
    else Node(Shape(g[id]),
              seq(RefCount(g[id]), k requires 0 <= k < RefCount(g[id]) => Unfold(g, Ref(g[id], k), depth - 1)))
  }

  ghost predicate SameMeaning(g: Graph, a: nat, h: Graph, b: nat) {
    forall n: nat :: Unfold(g, a, n) == Unfold(h, b, n)
  }

  /** Neither forward declarations nor enums without members. */
  ghost predicate NoForwards(g: Graph) {
    forall id :: 0 <= id < |g| ==> !IsFwd(g[id]) && (IsAnyEnum(g[id]) ==> Vlen(g[id]) > 0)
  }

  /** Same shape here, and the k-th children agree one level down. */
  lemma UnfoldStep(g: Graph, a: nat, h: Graph, b: nat, n: nat)
    requires WfGraph(g) && WfGraph(h) && a < |g| && b < |h|
    requires SameShape(g[a], h[b])
    requires forall k :: 0 <= k < RefCount(g[a]) ==> Unfold(g, Ref(g[a], k), n) == Unfold(h, Ref(h[b], k), n)
    ensures Unfold(g, a, n + 1) == Unfold(h, b, n + 1)
  {
    SameShapeIsEqualShapes(g[a], h[b]);
    var s, t := Unfold(g, a, n + 1), Unfold(h, b, n + 1);
    assert |s.kids| == |t.kids|;
    forall k | 0 <= k < |s.kids|
      ensures s.kids[k] == t.kids[k]
    {
      assert s.kids[k] == Unfold(g, Ref(g[a], k), n);
      assert t.kids[k] == Unfold(h, Ref(h[b], k), n);
    }
  }

  lemma UnfoldInverse(g: Graph, a: nat, h: Graph, b: nat, n: nat, k: nat)
    requires WfGraph(g) && WfGraph(h) && a < |g| && b < |h|
    requires Unfold(g, a, n + 1) == Unfold(h, b, n + 1)
    ensures SameShape(g[a], h[b])
    ensures k < RefCount(g[a]) ==> Unfold(g, Ref(g[a], k), n) == Unfold(h, Ref(h[b], k), n)
  {
    SameShapeIsEqualShapes(g[a], h[b]);
    var s, t := Unfold(g, a, n + 1), Unfold(h, b, n + 1);
    if k < RefCount(g[a]) {
      assert s.kids[k] == Unfold(g, Ref(g[a], k), n);
      assert t.kids[k] == Unfold(h, Ref(h[b], k), n);
    }
  }

  /** Records with the same words mean the same type. */
  lemma EqualRecsMeanTheSame(g: Graph, a: nat, b: nat)
    requires WfGraph(g) && a < |g| && b < |g| && g[a] == g[b]
    ensures SameMeaning(g, a, g, b)
  {
    forall n: nat
      ensures Unfold(g, a, n) == Unfold(g, b, n)
    {
    }
  }

  lemma RewriteKeepsWf(g: Graph, t: nat, k: nat, id: u32)
    requires WfGraph(g) && 0 < t < |g| && k < RefCount(g[t]) && id < |g|
    ensures var g' := g[t := WithRef(g[t], k, id)];
            && WfGraph(g')
            && (forall x :: 0 <= x < |g| ==> SameShape(g'[x], g[x]))
            && (forall x, j :: 0 <= x < |g| && 0 <= j < RefCount(g[x]) ==>
                  Ref(g'[x], j) == if x == t && j == k then id else Ref(g[x], j))
  {
    WithRefKeepsShape(g[t], k, id);
    var g' := g[t := WithRef(g[t], k, id)];
    assert RefsInRange(g'[t], |g'|);
  }

  /** Redirecting one reference to an id of the same meaning changes no meaning in the graph. */
  lemma {:induction false} RewriteKeepsUnfold(g: Graph, t: nat, k: nat, id: u32, x: nat, n: nat)
    requires WfGraph(g) && 0 < t < |g| && k < RefCount(g[t]) && id < |g| && x < |g|
    requires SameMeaning(g, Ref(g[t], k), g, id)
    ensures WfRec(g[t]) && Unfold(g[t := WithRef(g[t], k, id)], x, n) == Unfold(g, x, n)
    decreases n
  {
    hide WfGraph, WithRef;
    WfAt(g, t);
    if n > 0 {
      RewriteKeepsWf(g, t, k, id);
      var g' := g[t := WithRef(g[t], k, id)];
      assert SameShape(g'[x], g[x]);
      forall j | 0 <= j < RefCount(g'[x])
        ensures Unfold(g', Ref(g'[x], j), n - 1) == Unfold(g, Ref(g[x], j), n - 1)
      {
        RefInGraph(g', x, j);
        RewriteKeepsUnfold(g, t, k, id, Ref(g'[x], j), n - 1);
      }
      UnfoldStep(g', x, g, x, n - 1);
    }
  }

  lemma RewriteKeepsMeaning(g: Graph, t: nat, k: nat, id: u32)
    requires WfGraph(g) && 0 < t < |g| && k < RefCount(g[t]) && id < |g|
    requires SameMeaning(g, Ref(g[t], k), g, id)
    ensures var g' := g[t := WithRef(g[t], k, id)];
            WfGraph(g') && forall x :: 0 <= x < |g| ==> SameMeaning(g', x, g, x)
  {
    RewriteKeepsWf(g, t, k, id);
    var g' := g[t := WithRef(g[t], k, id)];
    forall x, n: nat | 0 <= x < |g|
      ensures Unfold(g', x, n) == Unfold(g, x, n)
    {
      RewriteKeepsUnfold(g, t, k, id, x, n);
    }
  }
}
