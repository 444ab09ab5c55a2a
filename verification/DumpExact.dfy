/** When `btf_dump_order_type` reports a cycle, and what it queues more than once. */
module DumpExact {
  import opened BtfTypes
  import opened BtfGraph
  import opened DumpWalk

  // ---- paths ----

  ghost predicate PathTo(g: Graph, v: Visit, u: Visit) {
    exists p :: |p| >= 1 && IsPath(g, p) && p[0] == v && p[|p| - 1] == u
  }

  lemma PathRefl(g: Graph, v: Visit)
    ensures PathTo(g, v, v)
  {
    var p := [v];
    assert IsPath(g, p) && p[0] == v && p[|p| - 1] == v;
  }

  lemma PathOn(g: Graph, v: Visit, w: Visit, u: Visit)
    requires Follows(g, v, w) && PathTo(g, w, u)
    ensures PathTo(g, v, u)
  {
    hide Follows;
    var p :| |p| >= 1 && IsPath(g, p) && p[0] == w && p[|p| - 1] == u;
    var q := [v] + p;
    forall i | 0 <= i < |q| - 1
      ensures Follows(g, q[i], q[i + 1])
    {
      assert i > 0 ==> q[i] == p[i - 1] && q[i + 1] == p[i];
    }
    assert IsPath(g, q) && q[0] == v && q[|q| - 1] == u;
  }

  ghost predicate ReachesId(g: Graph, v: Visit, y: nat) {
    exists through :: PathTo(g, v, Visit(y, through))
  }

  /** A path that passes no struct or union. */
  ghost predicate OpenPath(g: Graph, v: Visit, u: Visit) {
    exists p: seq<Visit> :: && |p| >= 1 && IsPath(g, p) && p[0] == v && p[|p| - 1] == u
                && forall i :: 0 <= i < |p| ==> p[i].id < |g| && !IsComposite(g[p[i].id])
  }

  lemma OpenRefl(g: Graph, v: Visit)
    requires v.id < |g| && !IsComposite(g[v.id])
    ensures OpenPath(g, v, v)
  {
    var p := [v];
    assert IsPath(g, p) && p[0] == v && p[|p| - 1] == v;
  }

  lemma OpenOn(g: Graph, v: Visit, w: Visit, u: Visit)
    requires Follows(g, v, w) && OpenPath(g, w, u) && v.id < |g| && !IsComposite(g[v.id])
    ensures OpenPath(g, v, u)
  {
    hide Follows;
    var p: seq<Visit> :| && |p| >= 1 && IsPath(g, p) && p[0] == w && p[|p| - 1] == u
             && forall i :: 0 <= i < |p| ==> p[i].id < |g| && !IsComposite(g[p[i].id]);
    var q := [v] + p;
    forall i | 0 <= i < |q| - 1
      ensures Follows(g, q[i], q[i + 1])
    {
      assert i > 0 ==> q[i] == p[i - 1] && q[i + 1] == p[i];
    }
    assert IsPath(g, q) && q[0] == v && q[|q| - 1] == u;
  }

  /** A function type used as such, not behind a pointer. */
  predicate DirectFuncProto(g: Graph, v: Visit) {
    v.id < |g| && Kind(g[v.id]) == KIND_FUNC_PROTO && !v.throughPtr
  }

  ghost predicate NoDirectFuncProto(g: Graph, v: Visit) {
    forall u :: PathTo(g, v, u) ==> !DirectFuncProto(g, u)
  }

  lemma NoDirectOn(g: Graph, v: Visit, w: Visit)
    requires NoDirectFuncProto(g, v) && Follows(g, v, w)
    ensures NoDirectFuncProto(g, w) && !DirectFuncProto(g, v)
  {
    hide Follows;
    PathRefl(g, v);
    forall u | PathTo(g, w, u)
      ensures !DirectFuncProto(g, u)
    {
      PathOn(g, v, w, u);
    }
  }

  /** Before any struct a function type is used directly from which y is reached. */
  ghost predicate Calls(g: Graph, v: Visit, y: nat) {
    exists f :: OpenPath(g, v, f) && DirectFuncProto(g, f) && ReachesId(g, f, y)
  }

  lemma CallsOn(g: Graph, v: Visit, w: Visit, y: nat)
    requires Follows(g, v, w) && Calls(g, w, y) && v.id < |g| && !IsComposite(g[v.id])
    ensures Calls(g, v, y)
  {
    hide Follows, OpenPath, ReachesId;
    var f :| OpenPath(g, w, f) && DirectFuncProto(g, f) && ReachesId(g, f, y);
    OpenOn(g, v, w, f);
  }

  lemma NoDirectNoCalls(g: Graph, v: Visit, y: nat)
    requires NoDirectFuncProto(g, v)
    ensures !Calls(g, v, y)
  {
    forall f | OpenPath(g, v, f)
      ensures !DirectFuncProto(g, f)
    {
      assert PathTo(g, v, f);
    }
  }

  /** A type that stands for a function type from which the traversal comes back to it. */
  ghost predicate CallsItself(g: Graph, y: nat) {
    exists through :: Calls(g, Visit(y, through), y)
  }

  /** From v the traversal gets to a struct or union that has to be defined inside itself. */
  ghost predicate BadCycle(g: Graph, v: Visit) {
    exists x: nat, through, p ::
      PathTo(g, v, Visit(x, through)) && UnsatisfiableCycle(g, x, p) && !(through && Named(g[x]))
  }

  lemma ReachesOn(g: Graph, v: Visit, w: Visit, y: nat)
    requires Follows(g, v, w) && ReachesId(g, w, y)
    ensures ReachesId(g, v, y)
  {
    var through :| PathTo(g, w, Visit(y, through));
    PathOn(g, v, w, Visit(y, through));
  }

  lemma BadCycleOn(g: Graph, v: Visit, w: Visit)
    requires Follows(g, v, w) && BadCycle(g, w)
    ensures BadCycle(g, v)
  {
    var x: nat, through, p :| PathTo(g, w, Visit(x, through)) && UnsatisfiableCycle(g, x, p)
      && !(through && Named(g[x]));
    PathOn(g, v, w, Visit(x, through));
  }

  lemma BadCycleHere(g: Graph, s: Orders, id: nat, throughPtr: bool)
    requires Trail(g, s, Visit(id, throughPtr)) && id < |s| == |g| && s[id] == Ordering && IsComposite(g[id])
    requires !(throughPtr && Named(g[id]))
    ensures BadCycle(g, Visit(id, throughPtr))
  {
    PathRefl(g, Visit(id, throughPtr));
    assert Leads(g, id, Visit(id, throughPtr));
    var p :| |p| >= 2 && IsPath(g, p) && p[0] == Visit(id, false) && p[|p| - 1] == Visit(id, throughPtr);
    assert UnsatisfiableCycle(g, id, p);
  }

  // ---- structs that must be complete ----

  /** A use of type id, through a pointer or not, needs struct or union y to be complete, if only to
      be written in place; seen within n steps.  Parameters of a function need not be complete. */
  ghost predicate Strong(g: Graph, id: nat, throughPtr: bool, y: nat, n: nat)
    decreases n
  {
    n > 0 && id < |g| &&
    var r, kind := g[id], Kind(g[id]);
    if IsComposite(r) then y == id && !(throughPtr && Named(r))
    else if kind == KIND_PTR then Strong(g, Ref(r, 0), true, y, n - 1)
    else if kind == KIND_ARRAY then Strong(g, Ref(r, 0), false, y, n - 1)
    else if kind == KIND_TYPEDEF || IsModifier(kind) then Strong(g, Ref(r, 0), throughPtr, y, n - 1)
    else kind == KIND_FUNC_PROTO && exists k :: 0 <= k < RefCount(r) && Strong(g, Ref(r, k), true, y, n - 1)
  }

  ghost predicate StrongMember(g: Graph, x: nat, y: nat, n: nat) {
    x < |g| && exists k :: 0 <= k < RefCount(g[x]) && Strong(g, Ref(g[x], k), false, y, n)
  }

  lemma {:induction false} PointerStrongLess(g: Graph, id: nat, y: nat, n: nat)
    requires Strong(g, id, true, y, n)
    ensures Strong(g, id, false, y, n)
    decreases n
  {
    var kind := Kind(g[id]);
    if !IsComposite(g[id]) && (kind == KIND_TYPEDEF || IsModifier(kind)) {
      PointerStrongLess(g, Ref(g[id], 0), y, n - 1);
    }
  }

  lemma {:induction false} StrongIsComposite(g: Graph, id: nat, throughPtr: bool, y: nat, n: nat)
    requires Strong(g, id, throughPtr, y, n)
    ensures y < |g| && IsComposite(g[y])
    decreases n
  {
    var r, kind := g[id], Kind(g[id]);
    if IsComposite(r) {
    } else if kind == KIND_FUNC_PROTO {
      var k :| 0 <= k < RefCount(r) && Strong(g, Ref(r, k), true, y, n - 1);
      StrongIsComposite(g, Ref(r, k), true, y, n - 1);
    } else {
      StrongIsComposite(g, Ref(r, 0), kind == KIND_PTR || (kind != KIND_ARRAY && throughPtr), y, n - 1);
    }
  }

  ghost predicate StrongDone(g: Graph, s: Orders, id: nat, throughPtr: bool) {
    forall y, n: nat :: 0 <= y < |s| && Strong(g, id, throughPtr, y, n) ==> s[y] == Ordered
  }

  lemma StrongBehindPointer(g: Graph, s: Orders, id: nat)
    requires StrongDone(g, s, id, false)
    ensures StrongDone(g, s, id, true)
  {
    forall y, n: nat | 0 <= y < |s| && Strong(g, id, true, y, n)
      ensures s[y] == Ordered
    {
      PointerStrongLess(g, id, y, n);
    }
  }

  lemma ProgressKeepsStrong(g: Graph, s: Orders, s': Orders, id: nat, throughPtr: bool)
    requires StrongDone(g, s, id, throughPtr) && Progress(s, s')
    ensures StrongDone(g, s', id, throughPtr)
  {
  }

  // ---- the states ----

  /** Structs are finished after all that they need complete. */
  ghost predicate FinishOrder(g: Graph, finished: seq<nat>) {
    forall p, y, n: nat :: 0 <= p < |finished| && 0 <= y && StrongMember(g, finished[p], y, n) ==> y in finished[..p]
  }

  /** Nothing is queued twice but a typedef of a function type that leads back to it. */
  ghost predicate OnceEach(g: Graph, queue: seq<u32>) {
    forall p, q :: 0 <= p < q < |queue| && queue[p] == queue[q] ==>
      queue[p] < |g| && Kind(g[queue[p]]) == KIND_TYPEDEF && CallsItself(g, queue[p])
  }

  /** What has been appended was not queued before, and is not queued twice. */
  ghost predicate AllNew(queue: seq<u32>, queue': seq<u32>) {
    && queue <= queue'
    && forall p, q :: 0 <= p < q < |queue'| && |queue| <= q ==> queue'[p] != queue'[q]
  }

  lemma AllNewRefl(queue: seq<u32>)
    ensures AllNew(queue, queue)
  {
  }

  lemma AllNewTrans(a: seq<u32>, b: seq<u32>, c: seq<u32>)
    requires AllNew(a, b) && AllNew(b, c)
    ensures AllNew(a, c)
  {
    forall p, q | 0 <= p < q < |c| && |a| <= q
      ensures c[p] != c[q]
    {
      if q < |b| {
        assert c[p] == b[p] && c[q] == b[q];
      }
    }
  }

  lemma AllNewNext(queue: seq<u32>, queue': seq<u32>, id: u32)
    requires AllNew(queue, queue') && id !in queue'
    ensures AllNew(queue, queue' + [id])
  {
  }

  ghost predicate Fine(g: Graph, referenced: seq<bool>, w: Walked) {
    && |w.s| == |referenced| == |g| > 0 && w.s[0] == Ordered
    && (forall id :: 0 <= id < |w.s| && w.s[id] == Ordering ==> IsComposite(g[id]))
    && (forall id :: 0 <= id < |w.s| && w.s[id] == Ordered ==> StrongDone(g, w.s, id, false))
    && (forall y :: 0 <= y < |g| && IsComposite(g[y]) ==> (w.s[y] == Ordered <==> y in w.finished))
    && (forall p :: 0 <= p < |w.finished| ==> w.finished[p] < |g| && IsComposite(g[w.finished[p]]))
    && FinishOrder(g, w.finished)
    && (forall p :: 0 <= p < |w.queue| ==> w.queue[p] < |g| && w.s[w.queue[p]] == Ordered)
    && OnceEach(g, w.queue)
  }

  lemma FineQueue(g: Graph, referenced: seq<bool>, w: Walked)
    requires Fine(g, referenced, w)
    ensures OnceEach(g, w.queue)
  {
  }

  lemma FineAtFirst(g: Graph, referenced: seq<bool>, w: Walked)
    requires WfGraph(g) && |w.s| == |g| == |referenced| && w.queue == [] && w.finished == []
    requires forall id :: 0 <= id < |w.s| ==> w.s[id] == if id == 0 then Ordered else NotOrdered
    ensures Fine(g, referenced, w)
  {
    assert Kind(g[0]) == 0;
  }

  /** What was ordered since was reached from v. */
  ghost predicate Reached(g: Graph, s: Orders, s': Orders, v: Visit) {
    |s| == |s'| && forall y :: 0 <= y < |s| && s'[y] == Ordered && s[y] != Ordered ==> ReachesId(g, v, y)
  }

  lemma ReachedRefl(g: Graph, s: Orders, v: Visit)
    ensures Reached(g, s, s, v)
  {
  }

  lemma ReachedTrans(g: Graph, a: Orders, b: Orders, c: Orders, v: Visit)
    requires Reached(g, a, b, v) && Reached(g, b, c, v)
    ensures Reached(g, a, c, v)
  {
  }

  lemma ReachedOn(g: Graph, s: Orders, s': Orders, v: Visit, w: Visit)
    requires Reached(g, s, s', w) && Follows(g, v, w)
    ensures Reached(g, s, s', v)
  {
    hide ReachesId;
    forall y | 0 <= y < |s| && s'[y] == Ordered && s[y] != Ordered
      ensures ReachesId(g, v, y)
    {
      ReachesOn(g, v, w, y);
    }
  }

  lemma ReachedMark(g: Graph, s: Orders, s': Orders, id: nat, throughPtr: bool)
    requires Reached(g, s, s', Visit(id, throughPtr)) && id < |s'|
    ensures Reached(g, s, s'[id := Ordered], Visit(id, throughPtr))
  {
    PathRefl(g, Visit(id, throughPtr));
  }

  /** A type other than a struct or union is marked, and perhaps queued. */
  lemma FineMark(g: Graph, referenced: seq<bool>, w: Walked, id: u32, queued: bool)
    requires Fine(g, referenced, w) && id < |g| && !IsComposite(g[id]) && StrongDone(g, w.s, id, false)
    requires queued ==> id !in w.queue || (Kind(g[id]) == KIND_TYPEDEF && CallsItself(g, id))
    ensures Fine(g, referenced, Marked(w, id, queued))
  {
    hide Strong, CallsItself, FinishOrder;
    var w' := Marked(w, id, queued);
    forall x | 0 <= x < |w'.s| && w'.s[x] == Ordered
      ensures StrongDone(g, w'.s, x, false)
    {
      assert x != id ==> StrongDone(g, w.s, x, false);
    }
  }

  lemma FineStart(g: Graph, referenced: seq<bool>, w: Walked, id: u32)
    requires Fine(g, referenced, w) && id < |g| && IsComposite(g[id]) && w.s[id] == NotOrdered
    ensures Fine(g, referenced, w.(s := w.s[id := Ordering]))
  {
    hide Strong, FinishOrder, OnceEach;
    var w' := w.(s := w.s[id := Ordering]);
    forall x | 0 <= x < |w'.s| && w'.s[x] == Ordered
      ensures StrongDone(g, w'.s, x, false)
    {
      assert StrongDone(g, w.s, x, false);
    }
  }

  ghost predicate MembersStrong(g: Graph, s: Orders, id: nat, i: nat, throughPtr: bool)
    requires id < |g|
  {
    forall k :: i <= k < RefCount(g[id]) ==> StrongDone(g, s, Ref(g[id], k), throughPtr)
  }

  lemma FinishNext(g: Graph, referenced: seq<bool>, w: Walked, id: u32)
    requires Fine(g, referenced, w) && id < |g| && IsComposite(g[id]) && MembersStrong(g, w.s, id, 0, false)
    ensures FinishOrder(g, w.finished + [id as nat])
  {
    hide Strong;
    var after := w.finished + [id as nat];
    forall p, y, n: nat | 0 <= p < |after| && 0 <= y && StrongMember(g, after[p], y, n)
      ensures y in after[..p]
    {
      if p < |w.finished| {
        assert after[..p] == w.finished[..p] && after[p] == w.finished[p];
      } else {
        assert after[..p] == w.finished;
        var k :| 0 <= k < RefCount(g[id]) && Strong(g, Ref(g[id], k), false, y, n);
        StrongIsComposite(g, Ref(g[id], k), false, y, n);
        assert StrongDone(g, w.s, Ref(g[id], k), false);
      }
    }
  }

  lemma FineFinish(g: Graph, referenced: seq<bool>, w: Walked, id: u32)
    requires Fine(g, referenced, w) && id < |g| && IsComposite(g[id]) && w.s[id] == Ordering
    requires MembersStrong(g, w.s, id, 0, false)
    ensures Fine(g, referenced, Finished(w, id, Named(g[id])))
  {
    FinishNext(g, referenced, w, id);
    hide CallsItself, FinishOrder, StrongMember, MembersStrong;
    var w' := Finished(w, id, Named(g[id]));
    assert id !in w.queue && id as nat !in w.finished;
    forall x | 0 <= x < |w'.s| && w'.s[x] == Ordered
      ensures StrongDone(g, w'.s, x, false)
    {
      assert x != id ==> StrongDone(g, w.s, x, false);
    }
    assert OnceEach(g, w'.queue);
  }

  // ---- what every visit promises ----

  ghost predicate VisitOk(g: Graph, referenced: seq<bool>, w: Walked, v: Visit, err: int, w': Walked) {
    && err in {0, 1, ELOOP}
    && (err >= 0 ==> && Fine(g, referenced, w') && Progress(w.s, w'.s) && Reached(g, w.s, w'.s, v)
                     && StrongDone(g, w'.s, v.id, v.throughPtr) && (err == 1 ==> StrongDone(g, w'.s, v.id, false))
                     && (NoDirectFuncProto(g, v) ==> AllNew(w.queue, w'.queue)))
    && (err < 0 ==> BadCycle(g, v))
  }

  lemma {:induction false} WalkOk(g: Graph, referenced: seq<bool>, rank: seq<nat>, w: Walked, id: u32, throughPtr: bool)
    requires MayWalk(g, referenced, rank, w) && id < |g| && Fine(g, referenced, w)
    requires Trail(g, w.s, Visit(id, throughPtr))
    ensures var (err, w') := Walk(g, referenced, rank, w, id, throughPtr);
            VisitOk(g, referenced, w, Visit(id, throughPtr), err, w')
    decreases |Untouched(g, w.s)|, rank[id], 1, 0
  {
    hide Walk, WalkRefs, Fine, Reached, Progress, Strong, StrongDone, BadCycle, Trail, Edge, WfGraph,
      CyclesThroughComposites, VisitOk;
    FineShape(g, referenced, w);
    var kind := Kind(g[id]);
    if w.s[id] != NotOrdered {
      SeenOk(g, referenced, rank, w, id, throughPtr);
    } else if IsPlain(kind) {
      PlainOk(g, referenced, rank, w, id, throughPtr);
    } else if IsComposite(g[id]) {
      CompositeOk(g, referenced, rank, w, id, throughPtr);
    } else if IsAnyEnum(g[id]) || IsFwd(g[id]) {
      EnumOk(g, referenced, rank, w, id, throughPtr);
    } else if kind == KIND_FUNC_PROTO {
      FuncProtoOk(g, referenced, rank, w, id, throughPtr);
    } else {
      var through' := GoesThrough(g, w.s, id, throughPtr);
      Below(g, referenced, rank, w, id, throughPtr, 0, through');
      WalkOk(g, referenced, rank, w, Ref(g[id], 0), through');
      if kind == KIND_TYPEDEF {
        TypedefNeeds(g, id, throughPtr);
        StaysOpen(g, referenced, rank, w, Ref(g[id], 0), through', id);
      }
      InnerOk(g, referenced, rank, w, id, throughPtr, through');
    }
  }

  /** All that this visit needs complete, type t needs when it is embedded. */
  ghost predicate NeededBy(g: Graph, id: nat, throughPtr: bool, t: nat) {
    forall y: nat, n: nat :: Strong(g, id, throughPtr, y, n) ==> exists m: nat :: Strong(g, t, false, y, m)
  }

  lemma TypedefNeeds(g: Graph, t: nat, throughPtr: bool)
    requires t < |g| && Kind(g[t]) == KIND_TYPEDEF
    ensures NeededBy(g, Ref(g[t], 0), throughPtr, t)
  {
    forall y: nat, n: nat | Strong(g, Ref(g[t], 0), throughPtr, y, n)
      ensures exists m: nat :: Strong(g, t, false, y, m)
    {
      assert Strong(g, t, throughPtr, y, n + 1);
      if throughPtr {
        PointerStrongLess(g, t, y, n + 1);
      }
    }
  }

  lemma NeededByInner(g: Graph, id: nat, throughPtr: bool, through': bool, t: nat)
    requires id < |g| && GoesOn(g[id], throughPtr, through') && NeededBy(g, id, throughPtr, t)
    ensures NeededBy(g, Ref(g[id], 0), through', t)
  {
    forall y: nat, n: nat | Strong(g, Ref(g[id], 0), through', y, n)
      ensures exists m: nat :: Strong(g, t, false, y, m)
    {
      assert Strong(g, id, throughPtr, y, n + 1);
    }
  }

  lemma NeededByParam(g: Graph, id: nat, k: nat, t: nat)
    requires id < |g| && Kind(g[id]) == KIND_FUNC_PROTO && k < RefCount(g[id]) && NeededBy(g, id, true, t)
    ensures NeededBy(g, Ref(g[id], k), true, t)
  {
    forall y: nat, n: nat | Strong(g, Ref(g[id], k), true, y, n)
      ensures exists m: nat :: Strong(g, t, false, y, m)
    {
      assert Strong(g, id, true, y, n + 1);
    }
  }

  /** While typedef t is being visited, visits below it do not order it: they meet a struct in the
      middle of being ordered that t needs complete.  Only a function type used directly, whose
      parameters need not be, can get around that. */
  lemma {:induction false} StaysOpen(g: Graph, referenced: seq<bool>, rank: seq<nat>, w: Walked, id: u32,
                                     throughPtr: bool, t: nat)
    requires MayWalk(g, referenced, rank, w) && id < |g| && Fine(g, referenced, w)
    requires Trail(g, w.s, Visit(id, throughPtr))
    requires t < |g| && !IsComposite(g[t]) && w.s[t] != Ordered && rank[id] < rank[t] && NeededBy(g, id, throughPtr, t)
    ensures var (err, w') := Walk(g, referenced, rank, w, id, throughPtr);
            err >= 0 && w'.s[t] == Ordered ==> Calls(g, Visit(id, throughPtr), t)
    decreases |Untouched(g, w.s)|, rank[id], 2, 0
  {
    hide Walk, WalkRefs, Fine, Strong, StrongDone, Trail, Edge, WfGraph, CyclesThroughComposites, Calls, NeededBy,
      VisitOk, Progress;
    FineShape(g, referenced, w);
    var kind := Kind(g[id]);
    if w.s[id] != NotOrdered {
      WalkSeen(g, referenced, rank, w, id, throughPtr);
    } else if IsPlain(kind) {
      WalkPlain(g, referenced, rank, w, id, throughPtr);
    } else if IsComposite(g[id]) {
      StructStaysOpen(g, referenced, rank, w, id, throughPtr, t);
    } else if IsAnyEnum(g[id]) || IsFwd(g[id]) {
      WalkEnum(g, referenced, rank, w, id, throughPtr);
    } else if kind == KIND_FUNC_PROTO {
      if throughPtr {
        ParamsFollow(g, w.s, id, true);
        WalkFuncProto(g, referenced, rank, w, id, true);
        ParamsStayOpen(g, referenced, rank, w, id, 0, false, t);
      } else {
        WalkOk(g, referenced, rank, w, id, throughPtr);
        DirectCalls(g, referenced, w, id, t, Walk(g, referenced, rank, w, id, throughPtr).0,
                    Walk(g, referenced, rank, w, id, throughPtr).1);
      }
    } else {
      var through' := GoesThrough(g, w.s, id, throughPtr);
      Below(g, referenced, rank, w, id, throughPtr, 0, through');
      NeededByInner(g, id, throughPtr, through', t);
      StaysOpen(g, referenced, rank, w, Ref(g[id], 0), through', t);
      WalkInner(g, referenced, rank, w, id, throughPtr, through');
      if Calls(g, Visit(Ref(g[id], 0), through'), t) {
        CallsOn(g, Visit(id, throughPtr), Visit(Ref(g[id], 0), through'), t);
      }
    }
  }

  lemma DirectCalls(g: Graph, referenced: seq<bool>, w: Walked, id: nat, t: nat, err: int, w': Walked)
    requires VisitOk(g, referenced, w, Visit(id, false), err, w') && id < |g| && Kind(g[id]) == KIND_FUNC_PROTO
    requires t < |w.s| && w.s[t] != Ordered
    ensures err >= 0 && t < |w'.s| && w'.s[t] == Ordered ==> Calls(g, Visit(id, false), t)
  {
    hide Fine, ReachesId, OpenPath, StrongDone, Progress, BadCycle;
    OpenRefl(g, Visit(id, false));
  }

  lemma StructStaysOpen(g: Graph, referenced: seq<bool>, rank: seq<nat>, w: Walked, id: u32, throughPtr: bool, t: nat)
    requires MayWalk(g, referenced, rank, w) && id < |g| && Fine(g, referenced, w)
    requires Trail(g, w.s, Visit(id, throughPtr)) && IsComposite(g[id]) && w.s[id] == NotOrdered
    requires t < |g| && !IsComposite(g[t]) && w.s[t] != Ordered && NeededBy(g, id, throughPtr, t)
    ensures var (err, w') := Walk(g, referenced, rank, w, id, throughPtr); err >= 0 ==> w'.s[t] != Ordered
    decreases |Untouched(g, w.s)|, rank[id], 0, 1
  {
    hide Walk, WalkRefs, Fine, Reached, Progress, StrongDone, BadCycle, Trail, Follows, Edge, WfGraph,
      MembersStrong, ReachesId;
    WalkComposite(g, referenced, rank, w, id, throughPtr);
    if !(throughPtr && Named(g[id])) {
      var w0 := w.(s := w.s[id := Ordering]);
      FineStart(g, referenced, w, id);
      EnteringUntouched(g, w.s, id);
      MembersFollow(g, w.s, id, throughPtr);
      assert MayWalk(g, referenced, rank, w0);
      WalkRefsOk(g, referenced, rank, w0, id, false, 0, false, Visit(id, throughPtr));
      var (err, w1) := WalkRefs(g, referenced, rank, w0, id, false, 0, false);
      if err >= 0 {
        ProgressLeave(w.s, w1.s, id);
        assert Strong(g, id, throughPtr, id, 1);
        OpenNeeds(g, referenced, w1, id, t);
      }
    }
  }

  /** What needs a struct that is being ordered is not ordered. */
  lemma OpenNeeds(g: Graph, referenced: seq<bool>, w: Walked, x: nat, t: nat)
    requires Fine(g, referenced, w) && x < |g| && t < |g| && w.s[x] == Ordering
    requires exists m: nat :: Strong(g, t, false, x, m)
    ensures w.s[t] != Ordered
  {
    hide Strong;
    FineShape(g, referenced, w);
    assert !StrongDone(g, w.s, t, false);
  }

  /** The same for a function type behind a pointer. */
  lemma {:induction false} ParamsStayOpen(g: Graph, referenced: seq<bool>, rank: seq<nat>, w: Walked, id: u32, i: nat,
                                          strong: bool, t: nat)
    requires MayWalk(g, referenced, rank, w) && id < |g| && Fine(g, referenced, w) && i <= RefCount(g[id])
    requires Kind(g[id]) == KIND_FUNC_PROTO && ChildrenFollow(g, w.s, Visit(id, true), id, true)
    requires t < |g| && !IsComposite(g[t]) && w.s[t] != Ordered && rank[id] < rank[t] && NeededBy(g, id, true, t)
    ensures var (err, w') := WalkRefs(g, referenced, rank, w, id, true, i, strong);
            err >= 0 && w'.s[t] == Ordered ==> Calls(g, Visit(id, true), t)
    decreases |Untouched(g, w.s)|, rank[id], 0, RefCount(g[id]) - i
  {
    hide Walk, WalkRefs, Fine, Strong, StrongDone, Trail, Edge, WfGraph, Calls, NeededBy, Progress, Follows,
      BadCycle, Reached;
    if i == RefCount(g[id]) {
      WalkRefsEnd(g, referenced, rank, w, id, true, i, strong);
    } else {
      var v, u := Visit(id, true), Visit(Ref(g[id], i), true);
      WalkRefsNext(g, referenced, rank, w, id, true, i, strong);
      RefBelow(g, referenced, rank, w, id, true, i);
      assert Trail(g, w.s, u) && Follows(g, v, u);
      NeededByParam(g, id, i, t);
      StaysOpen(g, referenced, rank, w, Ref(g[id], i), true, t);
      WalkOk(g, referenced, rank, w, Ref(g[id], i), true);
      var (err, w1) := Walk(g, referenced, rank, w, Ref(g[id], i), true);
      if err >= 0 {
        if w1.s[t] == Ordered {
          CallsOn(g, v, u, t);
        } else {
          TrailStays(g, w.s, w1.s, v, id, true);
          ProgressUntouched(g, w.s, w1.s);
          assert MayWalk(g, referenced, rank, w1);
          ParamsStayOpen(g, referenced, rank, w1, id, i + 1, strong || err > 0, t);
        }
      }
    }
  }

  lemma FineShape(g: Graph, referenced: seq<bool>, w: Walked)
    requires Fine(g, referenced, w)
    ensures |w.s| == |referenced| == |g| > 0 && w.s[0] == Ordered
    ensures forall id :: 0 <= id < |w.s| && w.s[id] == Ordering ==> IsComposite(g[id])
    ensures forall id :: 0 <= id < |w.s| && w.s[id] == Ordered ==> StrongDone(g, w.s, id, false)
  {
  }

  lemma SeenOk(g: Graph, referenced: seq<bool>, rank: seq<nat>, w: Walked, id: u32, throughPtr: bool)
    requires MayWalk(g, referenced, rank, w) && id < |g| && Fine(g, referenced, w) && w.s[id] != NotOrdered
    requires Trail(g, w.s, Visit(id, throughPtr))
    ensures var (err, w') := Walk(g, referenced, rank, w, id, throughPtr);
            VisitOk(g, referenced, w, Visit(id, throughPtr), err, w')
  {
    hide Walk, Fine, BadCycle, ReachesId, Trail;
    WalkSeen(g, referenced, rank, w, id, throughPtr);
    FineShape(g, referenced, w);
    if w.s[id] == Ordered {
      StrongBehindPointer(g, w.s, id);
    } else if !(throughPtr && Named(g[id])) {
      BadCycleHere(g, w.s, id, throughPtr);
    }
  }

  lemma PlainOk(g: Graph, referenced: seq<bool>, rank: seq<nat>, w: Walked, id: u32, throughPtr: bool)
    requires MayWalk(g, referenced, rank, w) && id < |g| && Fine(g, referenced, w) && w.s[id] == NotOrdered
    requires IsPlain(Kind(g[id]))
    ensures var (err, w') := Walk(g, referenced, rank, w, id, throughPtr);
            VisitOk(g, referenced, w, Visit(id, throughPtr), err, w')
  {
    hide Walk, Fine, ReachesId;
    WalkPlain(g, referenced, rank, w, id, throughPtr);
    FineShape(g, referenced, w);
    FineMark(g, referenced, w, id, false);
    ReachedRefl(g, w.s, Visit(id, throughPtr));
    ReachedMark(g, w.s, w.s, id, throughPtr);
  }

  lemma EnumOk(g: Graph, referenced: seq<bool>, rank: seq<nat>, w: Walked, id: u32, throughPtr: bool)
    requires MayWalk(g, referenced, rank, w) && id < |g| && Fine(g, referenced, w) && w.s[id] == NotOrdered
    requires IsAnyEnum(g[id]) || IsFwd(g[id])
    ensures var (err, w') := Walk(g, referenced, rank, w, id, throughPtr);
            VisitOk(g, referenced, w, Visit(id, throughPtr), err, w')
  {
    hide Walk, ReachesId, Fine, Strong, WfGraph;
    WalkEnum(g, referenced, rank, w, id, throughPtr);
    NotQueued(g, referenced, w, id);
    EnumIsStrong(g, w.s, id);
    FineMark(g, referenced, w, id, Named(g[id]) || !referenced[id]);
    EnumIsStrong(g, w.s[id := Ordered], id);
    FineShape(g, referenced, w);
    ReachedRefl(g, w.s, Visit(id, throughPtr));
    ReachedMark(g, w.s, w.s, id, throughPtr);
    ProgressMark(w.s, id);
  }

  lemma NotQueued(g: Graph, referenced: seq<bool>, w: Walked, id: nat)
    requires Fine(g, referenced, w) && id < |g| && w.s[id] != Ordered
    ensures id !in w.queue
  {
  }

  lemma EnumIsStrong(g: Graph, s: Orders, id: nat)
    requires id < |g| && (IsAnyEnum(g[id]) || IsFwd(g[id]))
    ensures StrongDone(g, s, id, true) && StrongDone(g, s, id, false)
  {
  }

  /** How a pointer, array, typedef or modifier goes on. */
  lemma GoesThrough(g: Graph, s: Orders, id: nat, throughPtr: bool) returns (through': bool)
    requires WfGraph(g) && id < |g| == |s| && s[0] == Ordered && s[id] == NotOrdered
    requires !IsPlain(Kind(g[id])) && !IsComposite(g[id]) && !IsAnyEnum(g[id]) && !IsFwd(g[id])
    requires Kind(g[id]) != KIND_FUNC_PROTO
    ensures GoesOn(g[id], throughPtr, through') && (Kind(g[id]) == KIND_TYPEDEF ==> through' == throughPtr)
  {
    KnownKind(g, s, id);
    through' := Kind(g[id]) == KIND_PTR || (Kind(g[id]) != KIND_ARRAY && throughPtr);
  }

  /** One step down: the measure falls and the trail goes on. */
  lemma Below(g: Graph, referenced: seq<bool>, rank: seq<nat>, w: Walked, id: nat, throughPtr: bool, k: nat,
              through': bool)
    requires MayWalk(g, referenced, rank, w) && id < |g| && !IsComposite(g[id])
    requires k < RefCount(g[id]) && Edge(g[id], throughPtr, k, through') && Trail(g, w.s, Visit(id, throughPtr))
    ensures Ref(g[id], k) < |g| == |rank| && rank[Ref(g[id], k)] < rank[id]
    ensures Follows(g, Visit(id, throughPtr), Visit(Ref(g[id], k), through'))
    ensures Trail(g, w.s, Visit(Ref(g[id], k), through'))
  {
    hide Trail, Edge, WfGraph;
    ProgressRefl(w.s);
    Descend(g, rank, w.s, w.s, id, throughPtr, k, through');
  }

  lemma InnerStrong(g: Graph, s: Orders, id: nat, throughPtr: bool, through': bool)
    requires id < |g| && GoesOn(g[id], throughPtr, through') && StrongDone(g, s, Ref(g[id], 0), through')
    ensures StrongDone(g, s, id, throughPtr) && (Kind(g[id]) == KIND_PTR ==> StrongDone(g, s, id, false))
    ensures StrongDone(g, s, Ref(g[id], 0), false) ==> StrongDone(g, s, id, false)
  {
    forall y, n: nat | 0 <= y < |s| && Strong(g, id, throughPtr, y, n)
      ensures s[y] == Ordered
    {
      assert Strong(g, Ref(g[id], 0), through', y, n - 1);
    }
    forall y, n: nat | 0 <= y < |s| && Strong(g, id, false, y, n)
      ensures Kind(g[id]) == KIND_PTR ==> Strong(g, Ref(g[id], 0), through', y, n - 1)
      ensures Kind(g[id]) != KIND_PTR ==> Strong(g, Ref(g[id], 0), false, y, n - 1)
    {
    }
  }

  /** A typedef is queued again only if it stands for a function type that leads back to it. */
  lemma QueuedAgain(g: Graph, referenced: seq<bool>, w1: Walked, id: nat, throughPtr: bool, u: Visit)
    requires Fine(g, referenced, w1) && id < |g| && !IsComposite(g[id]) && Follows(g, Visit(id, throughPtr), u)
    requires w1.s[id] == Ordered ==> Calls(g, u, id)
    ensures id in w1.queue ==> CallsItself(g, id) && !NoDirectFuncProto(g, u)
  {
    hide Calls, Follows, NoDirectFuncProto;
    if id in w1.queue {
      CallsOn(g, Visit(id, throughPtr), u, id);
      if NoDirectFuncProto(g, u) {
        NoDirectNoCalls(g, u, id);
      }
    }
  }

  lemma InnerOk(g: Graph, referenced: seq<bool>, rank: seq<nat>, w: Walked, id: u32, throughPtr: bool, through': bool)
    requires MayWalk(g, referenced, rank, w) && id < |g| && Fine(g, referenced, w) && w.s[id] == NotOrdered
    requires GoesOn(g[id], throughPtr, through') && Ref(g[id], 0) < |g|
    requires Follows(g, Visit(id, throughPtr), Visit(Ref(g[id], 0), through'))
    requires var (err, w1) := Walk(g, referenced, rank, w, Ref(g[id], 0), through');
             && VisitOk(g, referenced, w, Visit(Ref(g[id], 0), through'), err, w1)
             && (Kind(g[id]) == KIND_TYPEDEF && err >= 0 && w1.s[id] == Ordered ==>
                  Calls(g, Visit(Ref(g[id], 0), through'), id))
    ensures var (err, w') := Walk(g, referenced, rank, w, id, throughPtr);
            VisitOk(g, referenced, w, Visit(id, throughPtr), err, w')
  {
    hide Walk, Fine, Reached, Strong, StrongDone, BadCycle, Follows, CallsItself, Calls, MayWalk, NoDirectFuncProto,
      AllNew;
    var v, u := Visit(id, throughPtr), Visit(Ref(g[id], 0), through');
    WalkInner(g, referenced, rank, w, id, throughPtr, through');
    var (err, w1) := Walk(g, referenced, rank, w, Ref(g[id], 0), through');
    if err < 0 {
      BadCycleOn(g, v, u);
    } else {
      FineShape(g, referenced, w1);
      ReachedOn(g, w.s, w1.s, v, u);
      InnerStrong(g, w1.s, id, throughPtr, through');
      if Kind(g[id]) == KIND_TYPEDEF { QueuedAgain(g, referenced, w1, id, throughPtr, u); }
      if NoDirectFuncProto(g, v) { NoDirectOn(g, v, u); }
      ReachedMark(g, w.s, w1.s, id, throughPtr);
      MarkAfter(g, referenced, w, w1, id, throughPtr);
    }
  }

  /** Marking a pointer or a typedef once all that it needs complete is. */
  lemma MarkAfter(g: Graph, referenced: seq<bool>, w: Walked, w1: Walked, id: u32, throughPtr: bool)
    requires Fine(g, referenced, w1) && Progress(w.s, w1.s) && id < |g| == |w.s| && !IsComposite(g[id])
    requires w.s[id] == NotOrdered && (id in w1.queue && Kind(g[id]) == KIND_TYPEDEF ==> CallsItself(g, id))
    ensures AllNew(w.queue, w1.queue) && id !in w1.queue ==> AllNew(w.queue, w1.queue + [id])
    ensures StrongDone(g, w1.s, id, false) ==>
              var queued := Kind(g[id]) == KIND_TYPEDEF;
              var w' := Marked(w1, id, queued);
              && Fine(g, referenced, w') && Progress(w.s, w'.s)
              && StrongDone(g, w'.s, id, false) && StrongDone(g, w'.s, id, true)
  {
    hide Fine, Strong, CallsItself;
    if AllNew(w.queue, w1.queue) && id !in w1.queue { AllNewNext(w.queue, w1.queue, id); }
    if StrongDone(g, w1.s, id, false) {
      FineMark(g, referenced, w1, id, Kind(g[id]) == KIND_TYPEDEF);
      var s' := w1.s[id := Ordered];
      assert StrongDone(g, s', id, false);
      StrongBehindPointer(g, s', id);
    }
  }

  // ---- structs and function prototypes ----

  /** All references of id, visited from v. */
  ghost predicate ChildrenFollow(g: Graph, s: Orders, v: Visit, id: nat, throughPtr: bool)
    requires id < |g|
  {
    forall k :: 0 <= k < RefCount(g[id]) ==>
      && Follows(g, v, Visit(Ref(g[id], k), throughPtr)) && Trail(g, s, Visit(Ref(g[id], k), throughPtr))
  }

  lemma TrailStays(g: Graph, s: Orders, s': Orders, v: Visit, id: nat, throughPtr: bool)
    requires id < |g| && ChildrenFollow(g, s, v, id, throughPtr) && Progress(s, s')
    ensures ChildrenFollow(g, s', v, id, throughPtr)
  {
    hide Follows, Leads;
    forall k | 0 <= k < RefCount(g[id])
      ensures Follows(g, v, Visit(Ref(g[id], k), throughPtr)) && Trail(g, s', Visit(Ref(g[id], k), throughPtr))
    {
      assert Trail(g, s, Visit(Ref(g[id], k), throughPtr));
    }
  }

  ghost predicate RefsOk(g: Graph, referenced: seq<bool>, w: Walked, v: Visit, id: nat, throughPtr: bool, i: nat,
                         err: int, w': Walked)
    requires id < |g|
  {
    && err in {0, 1, ELOOP}
    && (err >= 0 ==> && Fine(g, referenced, w') && Progress(w.s, w'.s) && Reached(g, w.s, w'.s, v)
                     && MembersStrong(g, w'.s, id, i, throughPtr)
                     && (NoDirectFuncProto(g, v) ==> AllNew(w.queue, w'.queue)))
    && (err < 0 ==> BadCycle(g, v))
  }

  lemma {:induction false} WalkRefsOk(g: Graph, referenced: seq<bool>, rank: seq<nat>, w: Walked, id: u32,
                                      throughPtr: bool, i: nat, strong: bool, v: Visit)
    requires MayWalk(g, referenced, rank, w) && id < |g| && Fine(g, referenced, w) && i <= RefCount(g[id])
    requires Kind(g[id]) == KIND_FUNC_PROTO || (IsComposite(g[id]) && !throughPtr)
    requires ChildrenFollow(g, w.s, v, id, throughPtr)
    ensures var (err, w') := WalkRefs(g, referenced, rank, w, id, throughPtr, i, strong);
            RefsOk(g, referenced, w, v, id, throughPtr, i, err, w')
    decreases |Untouched(g, w.s)|, Level(g, rank, id), 0, RefCount(g[id]) - i
  {
    hide Walk, WalkRefs, Fine, Reached, Progress, Strong, StrongDone, BadCycle, Trail, Follows, Edge, WfGraph;
    if i == RefCount(g[id]) {
      WalkRefsEnd(g, referenced, rank, w, id, throughPtr, i, strong);
      ProgressRefl(w.s);
      ReachedRefl(g, w.s, v);
    } else {
      WalkRefsNext(g, referenced, rank, w, id, throughPtr, i, strong);
      RefBelow(g, referenced, rank, w, id, throughPtr, i);
      var u := Visit(Ref(g[id], i), throughPtr);
      assert Trail(g, w.s, u) && Follows(g, v, u);
      WalkOk(g, referenced, rank, w, Ref(g[id], i), throughPtr);
      var (err, w1) := Walk(g, referenced, rank, w, Ref(g[id], i), throughPtr);
      if err < 0 {
        BadCycleOn(g, v, u);
      } else {
        TrailStays(g, w.s, w1.s, v, id, throughPtr);
        ProgressUntouched(g, w.s, w1.s);
        assert MayWalk(g, referenced, rank, w1);
        WalkRefsOk(g, referenced, rank, w1, id, throughPtr, i + 1, strong || err > 0, v);
        var (err', w') := WalkRefs(g, referenced, rank, w1, id, throughPtr, i + 1, strong || err > 0);
        JoinRefs(g, referenced, w, w1, w', v, u, id, throughPtr, i, err');
      }
    }
  }

  lemma RefBelow(g: Graph, referenced: seq<bool>, rank: seq<nat>, w: Walked, id: nat, throughPtr: bool, i: nat)
    requires MayWalk(g, referenced, rank, w) && id < |g| && i < RefCount(g[id])
    requires Kind(g[id]) == KIND_FUNC_PROTO || (IsComposite(g[id]) && !throughPtr)
    ensures Ref(g[id], i) < |g| == |rank| && rank[Ref(g[id], i)] < Level(g, rank, id)
  {
    RefInGraph(g, id, i);
    assert !IsComposite(g[id]) ==> Edge(g[id], throughPtr, i, throughPtr);
  }

  /** One reference and then the rest. */
  lemma JoinRefs(g: Graph, referenced: seq<bool>, w: Walked, w1: Walked, w': Walked, v: Visit, u: Visit, id: nat,
                 throughPtr: bool, i: nat, err: int)
    requires id < |g| && Follows(g, v, u) && u == Visit(Ref(g[id], i), throughPtr)
    requires Progress(w.s, w1.s) && Reached(g, w.s, w1.s, u) && StrongDone(g, w1.s, u.id, throughPtr)
    requires NoDirectFuncProto(g, u) ==> AllNew(w.queue, w1.queue)
    requires RefsOk(g, referenced, w1, v, id, throughPtr, i + 1, err, w')
    ensures RefsOk(g, referenced, w, v, id, throughPtr, i, err, w')
  {
    hide Fine, Strong, BadCycle, Follows, ReachesId, NoDirectFuncProto, AllNew;
    if err >= 0 {
      if NoDirectFuncProto(g, v) {
        NoDirectOn(g, v, u);
        AllNewTrans(w.queue, w1.queue, w'.queue);
      }
      ProgressTrans(w.s, w1.s, w'.s);
      ReachedOn(g, w.s, w1.s, v, u);
      ReachedTrans(g, w.s, w1.s, w'.s, v);
      ProgressKeepsStrong(g, w1.s, w'.s, u.id, throughPtr);
    }
  }

  lemma CompositeOk(g: Graph, referenced: seq<bool>, rank: seq<nat>, w: Walked, id: u32, throughPtr: bool)
    requires MayWalk(g, referenced, rank, w) && id < |g| && Fine(g, referenced, w)
    requires Trail(g, w.s, Visit(id, throughPtr)) && IsComposite(g[id]) && w.s[id] == NotOrdered
    ensures var (err, w') := Walk(g, referenced, rank, w, id, throughPtr);
            VisitOk(g, referenced, w, Visit(id, throughPtr), err, w')
    decreases |Untouched(g, w.s)|, rank[id], 0, 1
  {
    hide Walk, WalkRefs, Fine, Reached, Progress, Strong, BadCycle, Trail, Follows, Edge, WfGraph, MembersStrong,
      ReachesId, NoDirectFuncProto, AllNew;
    var v := Visit(id, throughPtr);
    WalkComposite(g, referenced, rank, w, id, throughPtr);
    if throughPtr && Named(g[id]) {
      NamedIsWeak(g, w.s, id);
      AllNewRefl(w.queue);
      ProgressRefl(w.s);
      ReachedRefl(g, w.s, v);
    } else {
      var w0 := w.(s := w.s[id := Ordering]);
      FineStart(g, referenced, w, id);
      EnteringUntouched(g, w.s, id);
      MembersFollow(g, w.s, id, throughPtr);
      assert MayWalk(g, referenced, rank, w0);
      WalkRefsOk(g, referenced, rank, w0, id, false, 0, false, v);
      var (err, w1) := WalkRefs(g, referenced, rank, w0, id, false, 0, false);
      if err >= 0 {
        ProgressLeave(w.s, w1.s, id);
        FineFinish(g, referenced, w1, id);
        NotQueued(g, referenced, w1, id);
        if AllNew(w.queue, w1.queue) { AllNewNext(w.queue, w1.queue, id); }
        FinishReached(g, w.s, w1.s, id, throughPtr);
        var w' := Finished(w1, id, Named(g[id]));
        OrderedIsStrong(g, referenced, w', id, throughPtr);
      }
    }
  }

  lemma NamedIsWeak(g: Graph, s: Orders, id: nat)
    requires id < |g| && IsComposite(g[id]) && Named(g[id])
    ensures StrongDone(g, s, id, true)
  {
  }

  lemma OrderedIsStrong(g: Graph, referenced: seq<bool>, w: Walked, id: nat, throughPtr: bool)
    requires Fine(g, referenced, w) && id < |g| && w.s[id] == Ordered
    ensures StrongDone(g, w.s, id, throughPtr) && StrongDone(g, w.s, id, false)
  {
    hide Strong;
    StrongBehindPointer(g, w.s, id);
  }

  lemma FinishReached(g: Graph, s: Orders, s1: Orders, id: nat, throughPtr: bool)
    requires id < |s| == |s1| && s[id] == NotOrdered && Reached(g, s[id := Ordering], s1, Visit(id, throughPtr))
    ensures Reached(g, s, s1[id := Ordered], Visit(id, throughPtr))
  {
    hide ReachesId;
    var s0 := s[id := Ordering];
    assert forall y :: 0 <= y < |s| && s[y] != Ordered ==> s0[y] != Ordered;
    assert ReachesId(g, Visit(id, throughPtr), id) by {
      PathRefl(g, Visit(id, throughPtr));
      HereReached(g, id, throughPtr);
    }
  }

  lemma HereReached(g: Graph, id: nat, throughPtr: bool)
    ensures ReachesId(g, Visit(id, throughPtr), id)
  {
    PathRefl(g, Visit(id, throughPtr));
  }

  lemma MembersFollow(g: Graph, s: Orders, id: nat, throughPtr: bool)
    requires id < |g| == |s| && IsComposite(g[id]) && !(throughPtr && Named(g[id]))
    requires Trail(g, s, Visit(id, throughPtr))
    ensures ChildrenFollow(g, s[id := Ordering], Visit(id, throughPtr), id, false)
  {
    hide Trail;
    ProgressRefl(s[id := Ordering]);
    forall k | 0 <= k < RefCount(g[id])
      ensures Follows(g, Visit(id, throughPtr), Visit(Ref(g[id], k), false))
      ensures Trail(g, s[id := Ordering], Visit(Ref(g[id], k), false))
    {
      TrailInside(g, s, s[id := Ordering], id, throughPtr, k);
      assert Edge(g[id], throughPtr, k, false);
    }
  }

  lemma ParamsFollow(g: Graph, s: Orders, id: nat, throughPtr: bool)
    requires id < |g| == |s| && Kind(g[id]) == KIND_FUNC_PROTO && Trail(g, s, Visit(id, throughPtr))
    ensures ChildrenFollow(g, s, Visit(id, throughPtr), id, throughPtr)
  {
    hide Trail;
    ProgressRefl(s);
    forall k | 0 <= k < RefCount(g[id])
      ensures Follows(g, Visit(id, throughPtr), Visit(Ref(g[id], k), throughPtr))
      ensures Trail(g, s, Visit(Ref(g[id], k), throughPtr))
    {
      assert Edge(g[id], throughPtr, k, throughPtr);
      assert Follows(g, Visit(id, throughPtr), Visit(Ref(g[id], k), throughPtr));
      TrailOn(g, s, s, Visit(id, throughPtr), Visit(Ref(g[id], k), throughPtr));
    }
  }

  lemma ParamsStrong(g: Graph, s: Orders, id: nat, throughPtr: bool)
    requires id < |g| && Kind(g[id]) == KIND_FUNC_PROTO && MembersStrong(g, s, id, 0, throughPtr)
    ensures StrongDone(g, s, id, throughPtr) && StrongDone(g, s, id, false)
  {
    forall y, n: nat, through: bool | 0 <= y < |s| && Strong(g, id, through, y, n)
      ensures s[y] == Ordered
    {
      var k :| 0 <= k < RefCount(g[id]) && Strong(g, Ref(g[id], k), true, y, n - 1);
      assert StrongDone(g, s, Ref(g[id], k), throughPtr);
      PointerStrongLess(g, Ref(g[id], k), y, n - 1);
    }
  }

  lemma FuncProtoOk(g: Graph, referenced: seq<bool>, rank: seq<nat>, w: Walked, id: u32, throughPtr: bool)
    requires MayWalk(g, referenced, rank, w) && id < |g| && Fine(g, referenced, w)
    requires Trail(g, w.s, Visit(id, throughPtr)) && Kind(g[id]) == KIND_FUNC_PROTO && w.s[id] == NotOrdered
    ensures var (err, w') := Walk(g, referenced, rank, w, id, throughPtr);
            VisitOk(g, referenced, w, Visit(id, throughPtr), err, w')
    decreases |Untouched(g, w.s)|, rank[id], 0, RefCount(g[id]) + 1
  {
    hide Walk, WalkRefs, Fine, Reached, Progress, Strong, StrongDone, BadCycle, Trail, Follows, Edge, WfGraph,
      MembersStrong;
    WalkFuncProto(g, referenced, rank, w, id, throughPtr);
    ParamsFollow(g, w.s, id, throughPtr);
    WalkRefsOk(g, referenced, rank, w, id, throughPtr, 0, false, Visit(id, throughPtr));
    var (err, w') := WalkRefs(g, referenced, rank, w, id, throughPtr, 0, false);
    if err >= 0 {
      ParamsStrong(g, w'.s, id, throughPtr);
    }
  }

  // ---- the converse ----

  /** All that a visit needs complete is among the first q structs finished. */
  ghost predicate StrongAmong(g: Graph, finished: seq<nat>, q: nat, v: Visit)
    requires q <= |finished|
  {
    forall y: nat, n: nat :: Strong(g, v.id, v.throughPtr, y, n) ==> y in finished[..q]
  }

  lemma StrongAmongOn(g: Graph, finished: seq<nat>, q: nat, v: Visit, w: Visit)
    requires q <= |finished| && FinishOrder(g, finished) && StrongAmong(g, finished, q, v)
    requires Follows(g, v, w) && !DirectFuncProto(g, v)
    ensures StrongAmong(g, finished, q, w)
  {
    var k :| 0 <= k < RefCount(g[v.id]) && Ref(g[v.id], k) == w.id && Edge(g[v.id], v.throughPtr, k, w.throughPtr);
    forall y: nat, n: nat | Strong(g, w.id, w.throughPtr, y, n)
      ensures y in finished[..q]
    {
      if IsComposite(g[v.id]) {
        assert Strong(g, v.id, v.throughPtr, v.id, 1);
        var p :| 0 <= p < q && finished[..q][p] == v.id;
        assert StrongMember(g, finished[p], y, n);
        assert finished[..p] == finished[..q][..p];
      } else {
        assert Strong(g, v.id, v.throughPtr, y, n + 1);
      }
    }
  }

  lemma {:induction false} StrongAlong(g: Graph, finished: seq<nat>, q: nat, p: seq<Visit>)
    requires q <= |finished| && FinishOrder(g, finished) && |p| >= 1 && IsPath(g, p)
    requires StrongAmong(g, finished, q, p[0]) && NoDirectFuncProto(g, p[0])
    ensures StrongAmong(g, finished, q, p[|p| - 1])
    decreases |p|
  {
    hide Follows, StrongAmong, NoDirectFuncProto, FinishOrder;
    if |p| > 1 {
      assert Follows(g, p[0], p[1]);
      NoDirectOn(g, p[0], p[1]);
      StrongAmongOn(g, finished, q, p[0], p[1]);
      assert IsPath(g, p[1..]) by { TailIsPath(g, p); }
      StrongAlong(g, finished, q, p[1..]);
    }
  }

  lemma TailIsPath(g: Graph, p: seq<Visit>)
    requires |p| > 1 && IsPath(g, p)
    ensures IsPath(g, p[1..])
  {
    hide Follows;
    forall i | 0 <= i < |p[1..]| - 1
      ensures Follows(g, p[1..][i], p[1..][i + 1])
    {
      assert Follows(g, p[i + 1], p[i + 1 + 1]);
    }
  }

  function FirstFinished(finished: seq<nat>, x: nat): (p: nat)
    requires x in finished
    ensures p < |finished| && finished[p] == x && x !in finished[..p]
  {
    if finished[0] == x then 0
    else
      var p := 1 + FirstFinished(finished[1..], x);
      assert finished[..p] == [finished[0]] + finished[1..][..p - 1];
      p
  }

  /** A struct that has to be defined inside itself would have been finished before. */
  lemma CycleFinishedBefore(g: Graph, finished: seq<nat>, q: nat, x: nat, p: seq<Visit>)
    requires FinishOrder(g, finished) && q < |finished| && finished[q] == x
    requires UnsatisfiableCycle(g, x, p) && NoDirectFuncProto(g, Visit(x, false))
    ensures x in finished[..q]
  {
    hide Follows, NoDirectFuncProto;
    assert Follows(g, p[0], p[1]);
    assert StrongAmong(g, finished, q, p[1]) by { MemberAmong(g, finished, q, x, p[1]); }
    NoDirectOn(g, p[0], p[1]);
    TailIsPath(g, p);
    StrongAlong(g, finished, q, p[1..]);
    var last := p[|p| - 1];
    assert Strong(g, last.id, last.throughPtr, x, 1);
  }

  /** No finished struct has to be defined inside itself, function types aside. */
  lemma FinishedIsNoCycle(g: Graph, finished: seq<nat>, x: nat, p: seq<Visit>)
    requires FinishOrder(g, finished) && UnsatisfiableCycle(g, x, p) && NoDirectFuncProto(g, Visit(x, false))
    ensures x !in finished
  {
    hide FinishOrder, UnsatisfiableCycle, NoDirectFuncProto;
    if x in finished {
      CycleFinishedBefore(g, finished, FirstFinished(finished, x), x, p);
    }
  }

  lemma MemberAmong(g: Graph, finished: seq<nat>, q: nat, x: nat, w: Visit)
    requires FinishOrder(g, finished) && q < |finished| && finished[q] == x && x < |g| && IsComposite(g[x])
    requires Follows(g, Visit(x, false), w)
    ensures StrongAmong(g, finished, q, w)
  {
    hide Strong;
    forall y: nat, n: nat | Strong(g, w.id, w.throughPtr, y, n)
      ensures y in finished[..q]
    {
      assert StrongMember(g, finished[q], y, n);
    }
  }

  /** A visit that succeeds meets no struct that has to be defined inside itself, function types
      that are used directly aside. */
  lemma SuccessMeansNoCycle(g: Graph, referenced: seq<bool>, w: Walked, v: Visit)
    requires Fine(g, referenced, w) && StrongDone(g, w.s, v.id, v.throughPtr) && NoDirectFuncProto(g, v)
    ensures !BadCycle(g, v)
  {
    hide Follows, NoDirectFuncProto;
    if BadCycle(g, v) {
      var x: nat, through, p :| PathTo(g, v, Visit(x, through)) && UnsatisfiableCycle(g, x, p)
        && !(through && Named(g[x]));
      var path :| |path| >= 1 && IsPath(g, path) && path[0] == v && path[|path| - 1] == Visit(x, through);
      var all := |w.finished|;
      assert w.finished[..all] == w.finished;
      DoneIsAmong(g, referenced, w, v);
      StrongAlong(g, w.finished, all, path);
      assert Strong(g, x, through, x, 1);
      NoDirectAtEnd(g, path);
      InnerNoDirect(g, x, through);
      FinishedIsNoCycle(g, w.finished, x, p);
    }
  }

  lemma DoneIsAmong(g: Graph, referenced: seq<bool>, w: Walked, v: Visit)
    requires Fine(g, referenced, w) && StrongDone(g, w.s, v.id, v.throughPtr)
    ensures StrongAmong(g, w.finished, |w.finished|, v)
  {
    hide Strong;
    assert w.finished[..|w.finished|] == w.finished;
    forall y: nat, n: nat | Strong(g, v.id, v.throughPtr, y, n)
      ensures y in w.finished
    {
      StrongIsComposite(g, v.id, v.throughPtr, y, n);
    }
  }

  lemma {:induction false} NoDirectAtEnd(g: Graph, p: seq<Visit>)
    requires |p| >= 1 && IsPath(g, p) && NoDirectFuncProto(g, p[0])
    ensures NoDirectFuncProto(g, p[|p| - 1])
    decreases |p|
  {
    hide Follows, NoDirectFuncProto;
    if |p| > 1 {
      assert Follows(g, p[0], p[1]);
      NoDirectOn(g, p[0], p[1]);
      TailIsPath(g, p);
      NoDirectAtEnd(g, p[1..]);
    }
  }

  /** Inside a struct it makes no difference how it was come to. */
  lemma InnerNoDirect(g: Graph, x: nat, through: bool)
    requires x < |g| && IsComposite(g[x]) && !(through && Named(g[x])) && NoDirectFuncProto(g, Visit(x, through))
    ensures NoDirectFuncProto(g, Visit(x, false))
  {
    forall u | PathTo(g, Visit(x, false), u)
      ensures !DirectFuncProto(g, u)
    {
      var p :| |p| >= 1 && IsPath(g, p) && p[0] == Visit(x, false) && p[|p| - 1] == u;
      if |p| > 1 {
        assert Follows(g, Visit(x, false), p[1]);
        assert Follows(g, Visit(x, through), p[1]);
        TailIsPath(g, p);
        assert p[1..][0] == p[1] && p[1..][|p[1..]| - 1] == u;
        PathOn(g, Visit(x, through), p[1], u);
      }
    }
  }

  /** A visit that succeeds queues only what has not been queued before, each once, unless a function
      type is used directly on the way. */
  lemma QueuesOnce(g: Graph, referenced: seq<bool>, rank: seq<nat>, w: Walked, id: u32, throughPtr: bool)
    requires MayWalk(g, referenced, rank, w) && id < |g| && Fine(g, referenced, w)
    requires Trail(g, w.s, Visit(id, throughPtr))
    ensures var (err, w') := Walk(g, referenced, rank, w, id, throughPtr);
            && (err >= 0 ==> OnceEach(g, w'.queue))
            && (err >= 0 && NoDirectFuncProto(g, Visit(id, throughPtr)) ==> AllNew(w.queue, w'.queue))
  {
    hide Walk, Fine, NoDirectFuncProto, AllNew, OnceEach, Trail, WfGraph, BadCycle;
    WalkOk(g, referenced, rank, w, id, throughPtr);
    var (err, w') := Walk(g, referenced, rank, w, id, throughPtr);
    if err >= 0 {
      FineQueue(g, referenced, w');
    }
  }

  /** A first visit reports a cycle if there is one to get to, and only then, unless a function type
      is used directly on the way. */
  lemma CycleReportIsExact(g: Graph, referenced: seq<bool>, rank: seq<nat>, w: Walked, id: u32, throughPtr: bool)
    requires MayWalk(g, referenced, rank, w) && id < |g| && Fine(g, referenced, w)
    requires Trail(g, w.s, Visit(id, throughPtr))
    ensures var err, v := Walk(g, referenced, rank, w, id, throughPtr).0, Visit(id, throughPtr);
            && (err == ELOOP ==> BadCycle(g, v))
            && (NoDirectFuncProto(g, v) ==> (err == ELOOP <==> BadCycle(g, v)))
  {
    hide Walk, Fine, BadCycle, NoDirectFuncProto, Trail, WfGraph;
    WalkOk(g, referenced, rank, w, id, throughPtr);
    var (err, w') := Walk(g, referenced, rank, w, id, throughPtr);
    if err >= 0 && NoDirectFuncProto(g, Visit(id, throughPtr)) {
      SuccessMeansNoCycle(g, referenced, w', Visit(id, throughPtr));
    }
  }
}
