/** When the reference types of BTF dedup form a loop.

`btf_dedup_ref_type` detects loops with a mark.  That there is none is the same as that the
types can be ranked, and the pass is proved against ranks. */
module DedupLoops {
  import opened BtfTypes
  import opened BtfGraph
  import opened DedupInv
  import opened DedupRef

  predicate IsRefType(g: Graph, start: nat, id: nat) {
    start <= id < |g| && IsRefKind(Kind(g[id]))
  }

  /** A reference type of this instance and what one of its references leads to. */
  ghost predicate RefEdge(g: Graph, start: nat, x: nat, y: nat) {
    IsRefType(g, start, x) && exists k :: 0 <= k < RefCount(g[x]) && Ref(g[x], k) == y
  }

  ghost predicate RefPath(g: Graph, start: nat, path: seq<nat>) {
    forall i :: 0 <= i < |path| - 1 ==> RefEdge(g, start, path[i], path[i + 1])
  }

  /** The reference types lead back to one of them without passing any other type. */
  ghost predicate RefLoop(g: Graph, start: nat) {
    exists path :: |path| >= 2 && RefPath(g, start, path) && path[0] == path[|path| - 1]
  }

  lemma {:induction false} RanksFall(g: Graph, start: nat, rank: seq<nat>, path: seq<nat>)
    requires RanksOk(g, start, rank) && |path| >= 2 && RefPath(g, start, path)
    ensures path[0] < |g| && path[|path| - 1] < |g| && rank[path[|path| - 1]] < rank[path[0]]
    decreases |path|
  {
    assert RefEdge(g, start, path[0], path[1]);
    if |path| > 2 {
      forall i | 0 <= i < |path[1..]| - 1
        ensures RefEdge(g, start, path[1..][i], path[1..][i + 1])
      {
        assert RefEdge(g, start, path[i + 1], path[i + 2]);
      }
      RanksFall(g, start, rank, path[1..]);
    }
  }

  lemma RankedHasNoLoop(g: Graph, start: nat, rank: seq<nat>)
    requires RanksOk(g, start, rank)
    ensures !RefLoop(g, start)
  {
    if RefLoop(g, start) {
      var path :| |path| >= 2 && RefPath(g, start, path) && path[0] == path[|path| - 1];
      RanksFall(g, start, rank, path);
    }
  }

  /** The length of the longest path of at most n edges. */
  ghost function Height(g: Graph, start: nat, id: nat, n: nat): nat
    decreases n, 0
  {
    if n == 0 || !IsRefType(g, start, id) then 0 else HeightOfRefs(g, start, id, n, RefCount(g[id]))
  }

  ghost function HeightOfRefs(g: Graph, start: nat, id: nat, n: nat, k: nat): nat
    requires n > 0 && id < |g| && k <= RefCount(g[id])
    decreases n - 1, k + 1
  {
    if k == 0 then 0
    else
      var rest, one := HeightOfRefs(g, start, id, n, k - 1), 1 + Height(g, start, Ref(g[id], k - 1), n - 1);
      if rest < one then one else rest
  }

  /** A node is higher than what it refers to, and one higher than some of that. */
  lemma {:induction false} HeightOfRefsIs(g: Graph, start: nat, id: nat, n: nat, k: nat)
    requires n > 0 && id < |g| && k <= RefCount(g[id])
    ensures var h := HeightOfRefs(g, start, id, n, k);
            && (forall j :: 0 <= j < k ==> Height(g, start, Ref(g[id], j), n - 1) < h)
            && (h > 0 ==> exists j :: 0 <= j < k && Height(g, start, Ref(g[id], j), n - 1) == h - 1)
    decreases k
  {
    if k > 0 {
      HeightOfRefsIs(g, start, id, n, k - 1);
    }
  }

  /** A path as long as the height. */
  lemma {:induction false} HighPath(g: Graph, start: nat, id: nat, n: nat) returns (path: seq<nat>)
    ensures |path| == Height(g, start, id, n) + 1 <= n + 1 && path[0] == id && RefPath(g, start, path)
    decreases n
  {
    path := [id];
    if n > 0 && IsRefType(g, start, id) && Height(g, start, id, n) > 0 {
      HeightOfRefsIs(g, start, id, n, RefCount(g[id]));
      var j :| 0 <= j < RefCount(g[id]) && Height(g, start, Ref(g[id], j), n - 1) == Height(g, start, id, n) - 1;
      var rest := HighPath(g, start, Ref(g[id], j), n - 1);
      path := [id] + rest;
      forall i | 0 <= i < |path| - 1
        ensures RefEdge(g, start, path[i], path[i + 1])
      {
        assert i > 0 ==> RefEdge(g, start, rest[i - 1], rest[i]);
      }
    }
  }

  /** A height below the bound does not depend on the bound. */
  lemma {:induction false} HeightIsStable(g: Graph, start: nat, id: nat, n: nat)
    requires Height(g, start, id, n) < n
    ensures Height(g, start, id, n + 1) == Height(g, start, id, n)
    decreases n, 0
  {
    if IsRefType(g, start, id) {
      RefsAreStable(g, start, id, n, RefCount(g[id]));
    }
  }

  lemma {:induction false} RefsAreStable(g: Graph, start: nat, id: nat, n: nat, k: nat)
    requires n > 0 && id < |g| && k <= RefCount(g[id]) && HeightOfRefs(g, start, id, n, k) < n
    ensures HeightOfRefs(g, start, id, n + 1, k) == HeightOfRefs(g, start, id, n, k)
    decreases n - 1, k + 1
  {
    if k > 0 {
      RefsAreStable(g, start, id, n, k - 1);
      HeightIsStable(g, start, Ref(g[id], k - 1), n - 1);
    }
  }

  lemma {:induction false} PathInGraph(g: Graph, start: nat, path: seq<nat>, i: nat)
    requires WfGraph(g) && RefPath(g, start, path) && i < |path| && path[0] < |g|
    ensures path[i] < |g|
    decreases i
  {
    if i > 0 {
      PathInGraph(g, start, path, i - 1);
      assert RefEdge(g, start, path[i - 1], path[i]);
      var k :| 0 <= k < RefCount(g[path[i - 1]]) && Ref(g[path[i - 1]], k) == path[i];
      RefInGraph(g, path[i - 1], k);
    }
  }

  ghost function Values(path: seq<nat>): set<nat> { set x | x in path }

  lemma {:induction false} DistinctCount(path: seq<nat>)
    requires forall i, j :: 0 <= i < j < |path| ==> path[i] != path[j]
    ensures |Values(path)| == |path|
    decreases |path|
  {
    if path != [] {
      var n := |path| - 1;
      DistinctCount(path[..n]);
      assert Values(path) == Values(path[..n]) + {path[n]};
      assert path[n] !in Values(path[..n]);
    } else {
      assert Values(path) == {};
    }
  }

  lemma {:induction false} BelowCount(s: set<nat>, n: nat)
    requires forall x :: x in s ==> x < n
    ensures |s| <= n
    decreases n
  {
    if n > 0 {
      BelowCount(s - {n - 1}, n - 1);
      assert n - 1 in s ==> s == (s - {n - 1}) + {n - 1};
      assert n - 1 !in s ==> s == s - {n - 1};
    } else {
      assert s == {};
    }
  }

  /** A path of more nodes than there are types comes back to one of them. */
  lemma LongPathLoops(g: Graph, start: nat, path: seq<nat>)
    requires WfGraph(g) && RefPath(g, start, path) && |path| > |g| && path[0] < |g|
    ensures RefLoop(g, start)
  {
    hide WfGraph, RefEdge;
    forall x | x in Values(path)
      ensures x < |g|
    {
      var i :| 0 <= i < |path| && path[i] == x;
      PathInGraph(g, start, path, i);
    }
    BelowCount(Values(path), |g|);
    if forall i, j :: 0 <= i < j < |path| ==> path[i] != path[j] {
      DistinctCount(path);
    }
    var i, j :| 0 <= i < j < |path| && path[i] == path[j];
    var loop := path[i..j + 1];
    forall l | 0 <= l < |loop| - 1
      ensures RefEdge(g, start, loop[l], loop[l + 1])
    {
      assert RefEdge(g, start, path[i + l], path[i + l + 1]);
    }
    assert RefPath(g, start, loop);
  }

  ghost function Heights(g: Graph, start: nat): seq<nat> {
    seq(|g|, id requires 0 <= id < |g| => Height(g, start, id, |g|))
  }

  /** Without a loop the heights are ranks. */
  lemma NoLoopIsRanked(g: Graph, start: nat)
    requires WfGraph(g) && !RefLoop(g, start)
    ensures RanksOk(g, start, Heights(g, start))
  {
    hide WfGraph, RefLoop;
    var rank := Heights(g, start);
    forall id, k | start <= id < |g| && IsRefKind(Kind(g[id])) && 0 <= k < RefCount(g[id])
      ensures Ref(g[id], k) < |g| && rank[Ref(g[id], k)] < rank[id]
    {
      RefInGraph(g, id, k);
      var path := HighPath(g, start, id, |g|);
      if |path| > |g| {
        LongPathLoops(g, start, path);
      }
      HeightIsStable(g, start, id, |g|);
      HeightOfRefsIs(g, start, id, |g| + 1, RefCount(g[id]));
    }
  }

  /** The loop of the reference pass is one of the graph it started from. */
  lemma MustLoop(g: Graph, start: nat)
    requires WfGraph(g) && !RanksOk(g, start, Heights(g, start))
    ensures RefLoop(g, start)
  {
    hide RanksOk, RefLoop, Heights, WfGraph;
    if !RefLoop(g, start) {
      NoLoopIsRanked(g, start);
    }
  }
}
