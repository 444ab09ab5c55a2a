/** BTF dedup with names compared by content: what the pass over the strings leaves of a type graph. */
module DedupNamed {
  import opened BtfTypes
  import opened BtfGraph
  import opened BtfNames
  import opened StrSets
  import opened AddBtf
  import opened DedupStrs
  import opened DedupInv
  import opened DedupPaths
  import opened DedupApart
  import opened DedupLoops
  import opened DedupFinal

  /** Names are in range, and those of the types below start lie in the strings of the base. */
  ghost predicate WfNames(g: Graph, st: Strs, start: nat) {
    && NamesInRange(g, st) && EmptyNames(st)
    && forall id, k :: 0 <= id < start && id < |g| && 0 <= k < NameCount(g[id]) ==>
         Name(g[id], k) == 0 || Name(g[id], k) < |st.base|
  }

  /** The same types with other name offsets. */
  ghost predicate SameButOffsets(g0: Graph, was: Strs, g: Graph, st: Strs) {
    |g| == |g0| && forall id :: 0 <= id < |g0| ==>
      && Label(g[id], st) == Label(g0[id], was) && g[id][1] == g0[id][1]
      && forall k :: 0 <= k < RefCount(g0[id]) ==> Ref(g[id], k) == Ref(g0[id], k)
  }

  /** Every name, of the base or not, has gone where the pass sends it. */
  lemma NameIsRemapped(g0: Graph, was: Strs, g: Graph, p: Pool, hasBase: bool, start: nat, id: nat, k: nat)
    requires NamesDeduped(g0, was, g, p, hasBase, start) && WfNames(g0, was, start) && p.base.live == was.base
    requires id < |g0| && k < NameCount(g0[id])
    ensures NameCount(g[id]) == NameCount(g0[id]) && OffRemapped(was, p, Name(g0[id], k), Name(g[id], k))
  {
    hide PoolWf, OffRemapped;
    if id < start {
      StaysPut(was, p, Name(g0[id], k));
    } else {
      RecNext(was, p, g0[id], g[id], NameCount(g0[id]));
    }
  }

  lemma RemappedLabel(g0: Graph, was: Strs, g: Graph, p: Pool, hasBase: bool, start: nat, id: nat)
    requires WfGraph(g0) && NamesDeduped(g0, was, g, p, hasBase, start) && WfNames(g0, was, start)
    requires p.base.live == was.base && 0 < start && id < |g0|
    ensures Label(g[id], StrsOf(p)) == Label(g0[id], was) && g[id][1] == g0[id][1] && |g[id]| == |g0[id]|
    ensures forall k :: 0 <= k < RefCount(g0[id]) ==> Ref(g[id], k) == Ref(g0[id], k)
    ensures id > 0 ==> WfRec(g[id])
    ensures forall k :: 0 <= k < NameCount(g[id]) ==> OffInRange(StrsOf(p), Name(g[id], k))
  {
    hide OffRemapped, PoolWf, NameOf;
    forall k | 0 <= k < NameCount(g0[id])
      ensures NameCount(g[id]) == NameCount(g0[id]) && OffInRange(StrsOf(p), Name(g[id], k))
      ensures NameOf(StrsOf(p), Name(g[id], k)) == NameOf(was, Name(g0[id], k))
    {
      NameIsRemapped(g0, was, g, p, hasBase, start, id, k);
      OffMeans(was, p, Name(g0[id], k), Name(g[id], k));
    }
    if id >= start {
      assert RecRemapped(was, p, g0[id], g[id], NameCount(g0[id]));
      RewrittenLabel(g0[id], was, g[id], StrsOf(p), SameId());
    } else {
      assert g[id] == g0[id];
      SameWordsSameLabel(g0, id, was, StrsOf(p));
    }
  }

  lemma SameWordsSameLabel(g: Graph, id: nat, st: Strs, st': Strs)
    requires WfGraph(g) && id < |g|
    requires forall k :: 0 <= k < NameCount(g[id]) ==> NameOf(st', Name(g[id], k)) == NameOf(st, Name(g[id], k))
    ensures Label(g[id], st') == Label(g[id], st)
  {
    hide NameOf;
    var r := g[id];
    assert NameOf(st', Name(r, 0)) == NameOf(st, Name(r, 0));
    forall i | 0 <= i < |r| && IsNamePos(r, i)
      ensures NameOf(st', r[i]) == NameOf(st, r[i])
    {
      if id > 0 {
        var k := NamePosIndex(r, i);
        assert NameOf(st', Name(r, k)) == NameOf(st, Name(r, k));
      }
    }
  }

  /** What the pass leaves: well-formed, with the strings and references it had. */
  lemma DedupedIsSameButOffsets(g0: Graph, was: Strs, g: Graph, p: Pool, hasBase: bool, start: nat)
    requires WfGraph(g0) && NamesDeduped(g0, was, g, p, hasBase, start) && WfNames(g0, was, start)
    requires p.base.live == was.base && 0 < start
    ensures SameButOffsets(g0, was, g, StrsOf(p)) && WfGraph(g) && NamesInRange(g, StrsOf(p))
  {
    hide Label, WfRec, OffInRange, PoolWf, Used, RecRemapped;
    forall id | 0 <= id < |g0|
      ensures Label(g[id], StrsOf(p)) == Label(g0[id], was) && g[id][1] == g0[id][1]
      ensures forall k :: 0 <= k < RefCount(g0[id]) ==> Ref(g[id], k) == Ref(g0[id], k)
      ensures (id > 0 ==> WfRec(g[id])) && RefsInRange(g[id], |g|)
      ensures forall k :: 0 <= k < NameCount(g[id]) ==> OffInRange(StrsOf(p), Name(g[id], k))
    {
      RemappedLabel(g0, was, g, p, hasBase, start, id);
      assert RefsInRange(g0[id], |g0|);
    }
  }

  // ---- unfolding by content ----

  ghost predicate NamedAlike(g: Graph, st: Strs, a: nat, h: Graph, st': Strs, b: nat) {
    forall n: nat :: UnfoldNamed(g, st, a, n) == UnfoldNamed(h, st', b, n)
  }

  lemma {:induction false} SameUnfoldNamed(g0: Graph, was: Strs, g: Graph, st: Strs, id: nat, n: nat)
    requires SameButOffsets(g0, was, g, st)
    ensures UnfoldNamed(g, st, id, n) == UnfoldNamed(g0, was, id, n)
    decreases n
  {
    hide Label;
    if n > 0 && id < |g0| {
      forall k | 0 <= k < RefCount(g[id])
        ensures UnfoldNamed(g, st, Ref(g[id], k), n - 1) == UnfoldNamed(g0, was, Ref(g0[id], k), n - 1)
      {
        SameUnfoldNamed(g0, was, g, st, Ref(g[id], k), n - 1);
      }
      UnfoldNamedStep(g, st, id, g0, was, id, n - 1);
    }
  }

  lemma SameShapeSameLabel(a: Rec, b: Rec, st: Strs)
    requires SameShape(a, b)
    ensures Label(a, st) == Label(b, st)
  {
    hide NameOf;
  }

  /** Types that mean the same with names by offset mean the same with names by content. */
  lemma {:induction false} SameMeaningNamed(g: Graph, a: nat, h: Graph, b: nat, st: Strs, n: nat)
    requires WfGraph(g) && WfGraph(h) && a < |g| && b < |h| && Unfold(g, a, n) == Unfold(h, b, n)
    ensures UnfoldNamed(g, st, a, n) == UnfoldNamed(h, st, b, n)
    decreases n
  {
    hide WfGraph, Label, Unfold;
    if n > 0 {
      UnfoldInverse(g, a, h, b, n - 1, 0);
      SameShapeSameLabel(g[a], h[b], st);
      forall k | 0 <= k < RefCount(g[a])
        ensures UnfoldNamed(g, st, Ref(g[a], k), n - 1) == UnfoldNamed(h, st, Ref(h[b], k), n - 1)
      {
        UnfoldInverse(g, a, h, b, n - 1, k);
        RefInGraph(g, a, k);
        RefInGraph(h, b, k);
        SameMeaningNamed(g, Ref(g[a], k), h, Ref(h[b], k), st, n - 1);
      }
      UnfoldNamedStep(g, st, a, h, st, b, n - 1);
    }
  }

  // ---- when offsets tell names apart ----

  /** Names with the same content have the same offset. */
  ghost predicate NamesUnique(g: Graph, st: Strs) {
    forall x, j, y, k :: 0 <= x < |g| && 0 <= j < NameCount(g[x]) && 0 <= y < |g| && 0 <= k < NameCount(g[y])
                         && NameOf(st, Name(g[x], j)) == NameOf(st, Name(g[y], k)) ==>
      Name(g[x], j) == Name(g[y], k)
  }

  /** An offset into the base is left alone: it is the only one of its content there, and if a
      string of this instance has the same content, the one the base is searched by. */
  ghost predicate BaseOffsetAgrees(was: Strs, base: Interned, a: nat, b: nat) {
    a < |base.live| && NameOf(was, a) == NameOf(was, b) ==> if b < |base.live| then a == b else a in base.offs
  }

  ghost predicate BaseOffsetsAgree(g: Graph, was: Strs, base: Interned) {
    forall x, j, y, k :: 0 <= x < |g| && 0 <= j < NameCount(g[x]) && 0 <= y < |g| && 0 <= k < NameCount(g[y]) ==>
      BaseOffsetAgrees(was, base, Name(g[x], j), Name(g[y], k))
  }

  lemma RemappedUnique(was: Strs, p: Pool, a: nat, m: nat, b: nat, n: nat)
    requires PoolWf(p) && p.base.live == was.base && EmptyNames(was) && OffRemapped(was, p, a, m)
    requires OffRemapped(was, p, b, n)
    ensures NameOf(StrsOf(p), m) == NameOf(StrsOf(p), n) <==> NameOf(was, a) == NameOf(was, b)
    ensures BaseOffsetAgrees(was, p.base, a, b) && BaseOffsetAgrees(was, p.base, b, a)
            <==> (NameOf(StrsOf(p), m) == NameOf(StrsOf(p), n) ==> m == n)
  {
    hide StrAt;
    OffsetDenotes(p.base, NameOf(was, a));
  }

  /** The offsets tell names apart exactly if those into the base did. */
  lemma UniqueExactly(g0: Graph, was: Strs, g: Graph, p: Pool, hasBase: bool, start: nat)
    requires NamesDeduped(g0, was, g, p, hasBase, start) && WfNames(g0, was, start) && p.base.live == was.base
    ensures NamesUnique(g, StrsOf(p)) <==> BaseOffsetsAgree(g0, was, p.base)
  {
    hide OffRemapped, PoolWf, BaseOffsetAgrees, NameOf, Used;
    forall x, j, y, k | 0 <= x < |g| && 0 <= j < NameCount(g[x]) && 0 <= y < |g| && 0 <= k < NameCount(g[y])
      ensures BaseOffsetAgrees(was, p.base, Name(g0[x], j), Name(g0[y], k))
              && BaseOffsetAgrees(was, p.base, Name(g0[y], k), Name(g0[x], j))
              <==> (NameOf(StrsOf(p), Name(g[x], j)) == NameOf(StrsOf(p), Name(g[y], k)) ==>
                Name(g[x], j) == Name(g[y], k))
    {
      NameIsRemapped(g0, was, g, p, hasBase, start, x, j);
      NameIsRemapped(g0, was, g, p, hasBase, start, y, k);
      RemappedUnique(was, p, Name(g0[x], j), Name(g[x], j), Name(g0[y], k), Name(g[y], k));
    }
  }

  lemma UniqueLabelsUniqueShapes(g: Graph, st: Strs, a: nat, b: nat)
    requires WfGraph(g) && NamesUnique(g, st) && a < |g| && b < |g| && Label(g[a], st) == Label(g[b], st)
    requires g[a][1] == g[b][1]
    ensures SameShape(g[a], g[b])
  {
    hide NameOf;
    assert |Label(g[a], st)| == |g[a]| && |Label(g[b], st)| == |g[b]|;
    forall i | 0 <= i < |g[a]| && !IsRefPos(g[a], i)
      ensures g[a][i] == g[b][i]
    {
      assert Label(g[a], st)[i] == Label(g[b], st)[i];
      if IsNamePos(g[a], i) {
        var j := NameIndex(g, a, i);
        var k := NameIndex(g, b, i);
        assert NameOf(st, Name(g[a], j)) == NameOf(st, Name(g[b], k));
      }
    }
  }

  lemma NameIndex(g: Graph, id: nat, i: nat) returns (k: nat)
    requires WfGraph(g) && id < |g| && i < |g[id]| && IsNamePos(g[id], i)
    ensures k < NameCount(g[id]) && Name(g[id], k) == g[id][i]
  {
    k := 0;
    if id > 0 { k := NamePosIndex(g[id], i); }
  }

  /** With unique offsets, types that mean the same by content mean the same by offset. */
  lemma {:induction false} NamedMeansTheSame(g: Graph, st: Strs, a: nat, b: nat, n: nat)
    requires WfGraph(g) && NamesUnique(g, st) && a < |g| && b < |g|
    requires UnfoldNamed(g, st, a, n) == UnfoldNamed(g, st, b, n)
    ensures Unfold(g, a, n) == Unfold(g, b, n)
    decreases n
  {
    hide WfGraph, NamesUnique, Label, Unfold;
    if n == 0 {
      CutAtOnce(g, a, b);
    } else {
      NamedInverse(g, st, a, b, n - 1);
      UniqueLabelsUniqueShapes(g, st, a, b);
      forall k | 0 <= k < RefCount(g[a])
        ensures Unfold(g, Ref(g[a], k), n - 1) == Unfold(g, Ref(g[b], k), n - 1)
      {
        RefInGraph(g, a, k);
        RefInGraph(g, b, k);
        NamedMeansTheSame(g, st, Ref(g[a], k), Ref(g[b], k), n - 1);
      }
      UnfoldStep(g, a, g, b, n - 1);
    }
  }

  lemma CutAtOnce(g: Graph, a: nat, b: nat)
    ensures Unfold(g, a, 0) == Unfold(g, b, 0)
  {
  }

  lemma NamedInverse(g: Graph, st: Strs, a: nat, b: nat, n: nat)
    requires WfGraph(g) && a < |g| && b < |g| && UnfoldNamed(g, st, a, n + 1) == UnfoldNamed(g, st, b, n + 1)
    ensures Label(g[a], st) == Label(g[b], st) && g[a][1] == g[b][1]
    ensures forall k :: 0 <= k < RefCount(g[a]) ==>
              UnfoldNamed(g, st, Ref(g[a], k), n) == UnfoldNamed(g, st, Ref(g[b], k), n)
  {
    hide NameOf;
    var s, t := UnfoldNamed(g, st, a, n + 1), UnfoldNamed(g, st, b, n + 1);
    assert s.words[1] == RawWord(g[a][1]) && t.words[1] == RawWord(g[b][1]);
    forall k | 0 <= k < RefCount(g[a])
      ensures UnfoldNamed(g, st, Ref(g[a], k), n) == UnfoldNamed(g, st, Ref(g[b], k), n)
    {
      assert s.kids[k] == UnfoldNamed(g, st, Ref(g[a], k), n);
      assert t.kids[k] == UnfoldNamed(g, st, Ref(g[b], k), n);
    }
  }

  // ---- what does not depend on offsets ----

  lemma ForwardsAlike(g0: Graph, was: Strs, g: Graph, st: Strs)
    requires SameButOffsets(g0, was, g, st)
    ensures NoForwards(g) <==> NoForwards(g0)
  {
    hide Label;
    forall id | 0 <= id < |g0|
      ensures IsFwd(g[id]) == IsFwd(g0[id]) && IsAnyEnum(g[id]) == IsAnyEnum(g0[id]) && Vlen(g[id]) == Vlen(g0[id])
    {
    }
  }

  lemma BaseAlike(g0: Graph, was: Strs, g: Graph, st: Strs, start: nat)
    requires SameButOffsets(g0, was, g, st) && BaseClosed(g0, start)
    ensures BaseClosed(g, start)
  {
    hide Label;
    forall id | 0 <= id < start
      ensures RefsInRange(g[id], start)
    {
      assert RefsInRange(g0[id], start);
    }
  }

  lemma {:induction false} FollowsAlike(g0: Graph, was: Strs, g: Graph, st: Strs, id: nat, path: seq<nat>)
    requires SameButOffsets(g0, was, g, st)
    ensures Follow(g, id, path) == Follow(g0, id, path)
    decreases |path|
  {
    hide Label;
    if path != [] && id < |g| && path[0] < RefCount(g[id]) {
      FollowsAlike(g0, was, g, st, Ref(g[id], path[0]), path[1..]);
    }
  }

  lemma TogetherAlike(g0: Graph, was: Strs, g: Graph, st: Strs, a: nat, b: nat, x: nat, y: nat)
    requires SameButOffsets(g0, was, g, st) && Together(g, a, b, x, y)
    ensures Together(g0, a, b, x, y)
  {
    hide Label;
    var path :| Follow(g, a, path) == x && Follow(g, b, path) == y;
    FollowsAlike(g0, was, g, st, a, path);
    FollowsAlike(g0, was, g, st, b, path);
  }

  lemma MeetAlike(g0: Graph, was: Strs, g: Graph, st: Strs, id: nat, other: nat)
    requires SameButOffsets(g0, was, g, st) && MeetUncompared(g, id, other)
    ensures MeetUncompared(g0, id, other)
  {
    hide Label, NoForwards;
    var path :| UncomparedAt(g, Follow(g, id, path), Follow(g, other, path));
    ForwardsAlike(g0, was, g, st);
    FollowsAlike(g0, was, g, st, id, path);
    FollowsAlike(g0, was, g, st, other, path);
    assert UncomparedAt(g0, Follow(g0, id, path), Follow(g0, other, path));
  }

  lemma UncomparedAlike(g0: Graph, was: Strs, g: Graph, st: Strs, start: nat)
    requires SameButOffsets(g0, was, g, st) && StructMeetsUncompared(g, start)
    ensures StructMeetsUncompared(g0, start)
  {
    hide Label, UncomparedAt, MeetUncompared;
    var id :| start <= id < |g| && IsComposite(g[id]) && MeetsUncompared(g, id);
    var other: nat :| other < |g| && other != id && Kind(g[other]) == Kind(g[id]) && MeetUncompared(g, id, other);
    MeetAlike(g0, was, g, st, id, other);
    assert MeetsUncompared(g0, id) && IsComposite(g0[id]);
  }

  lemma RefLoopAlike(g0: Graph, was: Strs, g: Graph, st: Strs, start: nat)
    requires SameButOffsets(g0, was, g, st)
    ensures RefLoop(g, start) <==> RefLoop(g0, start)
  {
    hide Label;
    forall x: nat, y: nat
      ensures RefEdge(g, start, x, y) <==> RefEdge(g0, start, x, y)
    {
      EdgesAlike(g0, was, g, st, start, x, y);
    }
    PathsAlike(g0, g, start);
    PathsAlike(g, g0, start);
  }

  lemma EdgesAlike(g0: Graph, was: Strs, g: Graph, st: Strs, start: nat, x: nat, y: nat)
    requires SameButOffsets(g0, was, g, st)
    ensures RefEdge(g, start, x, y) <==> RefEdge(g0, start, x, y)
  {
    hide Label;
    if IsRefType(g, start, x) {
      assert forall k :: 0 <= k < RefCount(g[x]) ==> Ref(g[x], k) == Ref(g0[x], k);
    }
  }

  lemma PathsAlike(g: Graph, h: Graph, start: nat)
    requires forall x: nat, y: nat :: RefEdge(g, start, x, y) ==> RefEdge(h, start, x, y)
    ensures RefLoop(g, start) ==> RefLoop(h, start)
  {
    hide RefEdge;
    if RefLoop(g, start) {
      var path :| |path| >= 2 && RefPath(g, start, path) && path[0] == path[|path| - 1];
      assert RefPath(h, start, path);
    }
  }

  // ---- the result of dedup, by content ----

  /** What a successful run keeps: the result is well-formed, every type of it has the label of some
      original, every original has become one of its own kind, or a forward declaration what it
      declares, and, when the input has no forward declarations, unfolds to what it did, every name
      compared as a string. */
  ghost predicate KeptByContent(g0: Graph, was: Strs, g: Graph, st: Strs, ids: seq<nat>, start: nat) {
    && WfGraph(g) && NamesInRange(g, st) && |ids| == |g0|
    && (forall id :: 0 <= id < |g0| ==> ids[id] < |g| && EdgeKind(g0[id], g[ids[id]]))
    && (forall f :: start <= f < |g| ==> Stems(g0, was, g, st, ids, f))
    && (NoForwards(g0) ==> forall id :: 0 <= id < |g0| ==> NamedAlike(g, st, ids[id], g0, was, id))
  }

  ghost predicate Stems(g0: Graph, was: Strs, g: Graph, st: Strs, ids: seq<nat>, f: nat)
    requires |ids| == |g0| && f < |g|
  {
    exists id :: 0 <= id < |g0| && ids[id] == f && Label(g[f], st) == Label(g0[id], was)
  }

  /** Equal but for the offsets of equal names. */
  ghost predicate SameByContent(a: Rec, was: Strs, b: Rec) {
    Label(a, was) == Label(b, was) && a[1] == b[1] && SameRefs(a, b)
  }

  ghost predicate TwoCopiesByContent(g: Graph, was: Strs, a: nat, b: nat) {
    exists x: nat, y: nat, z: nat ::
      && Together(g, a, b, x, y) && Together(g, a, b, x, z) && y != z && NamedAlike(g, was, y, g, was, z)
      && !((Kind(g[y]) == KIND_ARRAY || IsComposite(g[y])) && SameByContent(g[y], was, g[z]))
  }

  /** What a successful run shares: no two types are equal by content, unless both come from the
      base, and two structs that unfold alike are left apart only if the later one came from one
      that holds two copies of something. */
  ghost predicate SharedByContent(g0: Graph, was: Strs, g: Graph, st: Strs, ids: seq<nat>, start: nat) {
    && |ids| == |g0|
    && (forall a, b :: 0 < a < b < |g| && start <= b && SharedKind(Kind(g[b])) ==> !SameByContent(g[a], st, g[b]))
    && (NoForwards(g0) ==> forall a, b :: 0 < a < b < |g| && start <= b && IsComposite(g[b])
                                          && NamedAlike(g, st, a, g, st, b) ==>
          ApartByContent(g0, was, ids, a, b))
  }

  ghost predicate ApartByContent(g0: Graph, was: Strs, ids: seq<nat>, a: nat, b: nat)
    requires |ids| == |g0|
  {
    exists x, y :: 0 <= x < |ids| && 0 <= y < |ids| && ids[x] == a && ids[y] == b && TwoCopiesByContent(g0, was, x, y)
  }

  lemma StemsFrom(g0: Graph, was: Strs, g1: Graph, st: Strs, g: Graph, ids: seq<nat>, f: nat)
    requires SameButOffsets(g0, was, g1, st) && |ids| == |g0| && f < |g| && ComesFrom(g1, g, ids, f)
    ensures Stems(g0, was, g, st, ids, f)
  {
    hide Label;
    var id :| 0 <= id < |g1| && ids[id] == f && SameShape(g[f], g1[id]);
    SameShapeSameLabel(g[f], g1[id], st);
    assert Label(g[f], st) == Label(g0[id], was);
  }

  /** The names of the result are names of the input of the later passes. */
  lemma NamesStem(g1: Graph, st: Strs, g: Graph, ids: seq<nat>, start: nat, f: nat, k: nat) returns (id: nat)
    requires WfGraph(g1) && WfGraph(g) && start <= |g1| && start <= |g| && |ids| == |g1|
    requires forall x :: 0 <= x < start ==> g[x] == g1[x]
    requires forall x :: start <= x < |g| ==> ComesFrom(g1, g, ids, x)
    requires f < |g| && k < NameCount(g[f])
    ensures id < |g1| && NameCount(g1[id]) == NameCount(g[f]) && Name(g1[id], k) == Name(g[f], k)
  {
    if f < start {
      id := f;
    } else {
      assert ComesFrom(g1, g, ids, f);
      id :| 0 <= id < |g1| && ids[id] == f && SameShape(g[f], g1[id]);
      if f > 0 { NamesAreWords(g[f], k); }
    }
  }

  lemma NamesStay(g1: Graph, st: Strs, g: Graph, ids: seq<nat>, start: nat)
    requires WfGraph(g1) && WfGraph(g) && start <= |g1| && start <= |g| && |ids| == |g1|
    requires forall x :: 0 <= x < start ==> g[x] == g1[x]
    requires forall x :: start <= x < |g| ==> ComesFrom(g1, g, ids, x)
    ensures NamesInRange(g1, st) ==> NamesInRange(g, st)
    ensures NamesUnique(g1, st) ==> NamesUnique(g, st)
  {
    hide WfGraph, ComesFrom, Name, NameCount, NameOf, OffInRange;
    if NamesInRange(g1, st) {
      forall f, k | 0 <= f < |g| && 0 <= k < NameCount(g[f])
        ensures OffInRange(st, Name(g[f], k))
      {
        var id := NamesStem(g1, st, g, ids, start, f, k);
        assert OffInRange(st, Name(g1[id], k));
      }
    }
    if NamesUnique(g1, st) {
      forall x, j, y, k | 0 <= x < |g| && 0 <= j < NameCount(g[x]) && 0 <= y < |g| && 0 <= k < NameCount(g[y])
                          && NameOf(st, Name(g[x], j)) == NameOf(st, Name(g[y], k))
        ensures Name(g[x], j) == Name(g[y], k)
      {
        var a := NamesStem(g1, st, g, ids, start, x, j);
        var b := NamesStem(g1, st, g, ids, start, y, k);
        assert NameOf(st, Name(g1[a], j)) == NameOf(st, Name(g1[b], k));
      }
    }
  }

  lemma KeptKinds(g0: Graph, was: Strs, g1: Graph, st: Strs, g: Graph, ids: seq<nat>, id: nat)
    requires SameButOffsets(g0, was, g1, st) && id < |g0| == |ids| && ids[id] < |g| && EdgeKind(g1[id], g[ids[id]])
    ensures EdgeKind(g0[id], g[ids[id]])
  {
    hide Label;
  }

  lemma KeptMeaning(g0: Graph, was: Strs, g1: Graph, st: Strs, g: Graph, a: nat, id: nat)
    requires SameButOffsets(g0, was, g1, st) && WfGraph(g) && WfGraph(g1) && a < |g| && id < |g1|
    requires SameMeaning(g, a, g1, id)
    ensures NamedAlike(g, st, a, g0, was, id)
  {
    hide SameButOffsets, WfGraph;
    forall n: nat
      ensures UnfoldNamed(g, st, a, n) == UnfoldNamed(g0, was, id, n)
    {
      SameMeaningNamed(g, a, g1, id, st, n);
      SameUnfoldNamed(g0, was, g1, st, id, n);
    }
  }

  lemma DedupKeepsContent(g0: Graph, was: Strs, g1: Graph, st: Strs, g: Graph, ids: seq<nat>, start: nat)
    requires SameButOffsets(g0, was, g1, st) && WfGraph(g1) && NamesInRange(g1, st) && DedupOk(g1, g, ids, start)
    requires start <= |g1| && start <= |g| && forall x :: 0 <= x < start ==> g[x] == g1[x]
    ensures KeptByContent(g0, was, g, st, ids, start)
  {
    hide SameButOffsets, WfGraph, ComesFrom, Stems, EdgeKind, NamesInRange, NamesUnique, SameMeaning, NamedAlike,
      MaximallyShared, LeftApart, NoForwards;
    assert |g0| == |g1| by { SameSize(g0, was, g1, st); }
    NamesStay(g1, st, g, ids, start);
    ForwardsAlike(g0, was, g1, st);
    forall id | 0 <= id < |g0|
      ensures EdgeKind(g0[id], g[ids[id]])
    {
      KeptKinds(g0, was, g1, st, g, ids, id);
    }
    forall f | start <= f < |g|
      ensures Stems(g0, was, g, st, ids, f)
    {
      StemsFrom(g0, was, g1, st, g, ids, f);
    }
    if NoForwards(g0) {
      forall id | 0 <= id < |g0|
        ensures NamedAlike(g, st, ids[id], g0, was, id)
      {
        KeptMeaning(g0, was, g1, st, g, ids[id], id);
      }
    }
  }

  lemma SameSize(g0: Graph, was: Strs, g: Graph, st: Strs)
    requires SameButOffsets(g0, was, g, st)
    ensures |g| == |g0|
  {
  }

  lemma UniqueIsEqual(g: Graph, st: Strs, a: nat, b: nat)
    requires WfGraph(g) && NamesUnique(g, st) && 0 < a < |g| && 0 < b < |g| && SameByContent(g[a], st, g[b])
    ensures g[a] == g[b]
  {
    hide NamesUnique, Label;
    UniqueLabelsUniqueShapes(g, st, a, b);
    ShapeAndRefsDetermineRec(g[a], g[b]);
  }

  lemma NamedIsMeaning(g: Graph, st: Strs, a: nat, b: nat)
    requires WfGraph(g) && NamesUnique(g, st) && a < |g| && b < |g| && NamedAlike(g, st, a, g, st, b)
    ensures SameMeaning(g, a, g, b)
  {
    hide WfGraph, NamesUnique;
    forall n: nat
      ensures Unfold(g, a, n) == Unfold(g, b, n)
    {
      NamedMeansTheSame(g, st, a, b, n);
    }
  }

  lemma CopiesByContent(g0: Graph, was: Strs, g1: Graph, st: Strs, a: nat, b: nat)
    requires SameButOffsets(g0, was, g1, st) && WfGraph(g1) && NamesUnique(g1, st) && TwoCopies(g1, a, b)
    ensures TwoCopiesByContent(g0, was, a, b)
  {
    hide SameButOffsets, WfGraph, NamesUnique, SameMeaning, NamedAlike, SameByContent;
    var x: nat, y: nat, z: nat :| && Together(g1, a, b, x, y) && Together(g1, a, b, x, z)
                                  && y != z && !Identical(g1[y], g1[z]) && SameMeaning(g1, y, g1, z);
    TogetherAlike(g0, was, g1, st, a, b, x, y);
    TogetherAlike(g0, was, g1, st, a, b, x, z);
    TogetherInGraph(g1, a, b, x, y);
    TogetherInGraph(g1, a, b, x, z);
    KeptMeaning(g0, was, g1, st, g1, y, z);
    SameUnfoldsNamed(g0, was, g1, st, y);
    NamedTrans(g0, was, g1, st, y, z);
    NotIdenticalByContent(g0, was, g1, st, y, z);
  }

  lemma TogetherInGraph(g: Graph, a: nat, b: nat, x: nat, y: nat)
    requires Together(g, a, b, x, y)
    ensures x < |g| && y < |g|
  {
  }

  lemma SameUnfoldsNamed(g0: Graph, was: Strs, g: Graph, st: Strs, id: nat)
    requires SameButOffsets(g0, was, g, st)
    ensures NamedAlike(g, st, id, g0, was, id)
  {
    hide SameButOffsets;
    forall n: nat
      ensures UnfoldNamed(g, st, id, n) == UnfoldNamed(g0, was, id, n)
    {
      SameUnfoldNamed(g0, was, g, st, id, n);
    }
  }

  lemma NamedTrans(g0: Graph, was: Strs, g: Graph, st: Strs, y: nat, z: nat)
    requires NamedAlike(g, st, y, g0, was, z) && NamedAlike(g, st, y, g0, was, y)
    ensures NamedAlike(g0, was, y, g0, was, z)
  {
    forall n: nat
      ensures UnfoldNamed(g0, was, y, n) == UnfoldNamed(g0, was, z, n)
    {
      assert UnfoldNamed(g, st, y, n) == UnfoldNamed(g0, was, y, n);
    }
  }

  lemma NotIdenticalByContent(g0: Graph, was: Strs, g1: Graph, st: Strs, y: nat, z: nat)
    requires SameButOffsets(g0, was, g1, st) && WfGraph(g1) && NamesUnique(g1, st) && y < |g1| && z < |g1|
    requires !Identical(g1[y], g1[z])
    ensures y < |g0| && z < |g0|
    ensures !((Kind(g0[y]) == KIND_ARRAY || IsComposite(g0[y])) && SameByContent(g0[y], was, g0[z]))
  {
    hide Label, NamesUnique;
    if (Kind(g0[y]) == KIND_ARRAY || IsComposite(g0[y])) && SameByContent(g0[y], was, g0[z]) {
      assert g1[y][1] == g1[z][1] && Kind(g1[y]) == Kind(g0[y]);
      UniqueIsEqual(g1, st, y, z);
    }
  }

  lemma DedupSharesContent(g0: Graph, was: Strs, g1: Graph, st: Strs, g: Graph, ids: seq<nat>, start: nat)
    requires SameButOffsets(g0, was, g1, st) && WfGraph(g1) && NamesUnique(g1, st) && DedupOk(g1, g, ids, start)
    requires start <= |g1| && start <= |g| && forall x :: 0 <= x < start ==> g[x] == g1[x]
    ensures SharedByContent(g0, was, g, st, ids, start)
  {
    hide SameButOffsets, WfGraph, ComesFrom, EdgeKind, NamesInRange, NamesUnique, SameMeaning, NamedAlike, NoForwards,
      TwoCopies, TwoCopiesByContent, SameByContent;
    assert |g0| == |g1| by { SameSize(g0, was, g1, st); }
    NamesStay(g1, st, g, ids, start);
    ForwardsAlike(g0, was, g1, st);
    forall a, b | 0 < a < b < |g| && start <= b && SharedKind(Kind(g[b]))
      ensures !SameByContent(g[a], st, g[b])
    {
      if SameByContent(g[a], st, g[b]) {
        UniqueIsEqual(g, st, a, b);
      }
    }
    if NoForwards(g0) {
      forall a, b | 0 < a < b < |g| && start <= b && IsComposite(g[b]) && NamedAlike(g, st, a, g, st, b)
        ensures ApartByContent(g0, was, ids, a, b)
      {
        NamedIsMeaning(g, st, a, b);
        var x, y :| 0 <= x < |ids| && 0 <= y < |ids| && ids[x] == a && ids[y] == b && TwoCopies(g1, x, y);
        CopiesByContent(g0, was, g1, st, x, y);
      }
    }
  }
}
