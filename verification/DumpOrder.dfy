/** The order in which `btf_dump` emits type definitions (btf_dump.c, lines 190-602). */
module DumpOrder {
  import opened BtfTypes
  import opened BtfGraph
  import opened DumpExact
  import opened DumpWalk

  // ---- what a C compiler needs, independently of the traversal ----

  /** The types that are emitted as definitions of their own. */
  predicate IsDefinition(r: Rec, referenced: bool) {
    if IsComposite(r) then Named(r)
    else if IsAnyEnum(r) || IsFwd(r) then Named(r) || !referenced
    else Kind(r) == KIND_TYPEDEF
  }

  /** Using type id, through a pointer or not, needs definition y to come first; seen within n
      steps.  A named struct reached through a pointer needs only a forward declaration, an
      anonymous one is written in place, array elements must be complete, and parameters of a
      function need not be. */
  ghost predicate Needs(g: Graph, referenced: seq<bool>, id: nat, throughPtr: bool, y: nat, n: nat)
    decreases n
  {
    n > 0 && id < |g| && id < |referenced| &&
    var r, kind := g[id], Kind(g[id]);
    if IsComposite(r) then if Named(r) then !throughPtr && y == id else Inside(g, referenced, id, y, n - 1)
    else if kind == KIND_PTR then Needs(g, referenced, Ref(r, 0), true, y, n - 1)
    else if kind == KIND_ARRAY then Needs(g, referenced, Ref(r, 0), false, y, n - 1)
    else if kind == KIND_TYPEDEF then (!throughPtr && y == id) || Needs(g, referenced, Ref(r, 0), throughPtr, y, n - 1)
    else if IsModifier(kind) then Needs(g, referenced, Ref(r, 0), throughPtr, y, n - 1)
    else if kind == KIND_FUNC_PROTO
      then exists k :: 0 <= k < RefCount(r) && Needs(g, referenced, Ref(r, k), true, y, n - 1)
    else (IsAnyEnum(r) || IsFwd(r)) && IsDefinition(r, referenced[id]) && y == id
  }

  /** Writing the definition of struct, union or typedef id needs y to come first. */
  ghost predicate Inside(g: Graph, referenced: seq<bool>, id: nat, y: nat, n: nat)
    decreases n
  {
    n > 0 && id < |g| && (IsComposite(g[id]) || Kind(g[id]) == KIND_TYPEDEF) &&
    exists k :: 0 <= k < RefCount(g[id]) && Needs(g, referenced, Ref(g[id], k), false, y, n - 1)
  }

  /** What is needed behind a pointer is needed without it too. */
  lemma {:induction false} PointerNeedsLess(g: Graph, referenced: seq<bool>, id: nat, y: nat, n: nat)
    requires Needs(g, referenced, id, true, y, n)
    ensures Needs(g, referenced, id, false, y, n)
    decreases n
  {
    var kind := Kind(g[id]);
    if kind == KIND_TYPEDEF || IsModifier(kind) {
      PointerNeedsLess(g, referenced, Ref(g[id], 0), y, n - 1);
    }
  }

  lemma {:induction false} NeededAreDefinitions(g: Graph, referenced: seq<bool>, id: nat, throughPtr: bool, y: nat,
                                                n: nat)
    requires Needs(g, referenced, id, throughPtr, y, n)
    ensures y < |g| && y < |referenced| && IsDefinition(g[y], referenced[y])
    decreases n
  {
    var r, kind := g[id], Kind(g[id]);
    if IsComposite(r) {
      if !Named(r) {
        InsideAreDefinitions(g, referenced, id, y, n - 1);
      }
    } else if kind == KIND_FUNC_PROTO {
      var k :| 0 <= k < RefCount(r) && Needs(g, referenced, Ref(r, k), true, y, n - 1);
      NeededAreDefinitions(g, referenced, Ref(r, k), true, y, n - 1);
    } else if kind == KIND_PTR || kind == KIND_ARRAY {
      NeededAreDefinitions(g, referenced, Ref(r, 0), kind == KIND_PTR, y, n - 1);
    } else if (kind == KIND_TYPEDEF && (throughPtr || y != id)) || IsModifier(kind) {
      NeededAreDefinitions(g, referenced, Ref(r, 0), throughPtr, y, n - 1);
    }
  }

  lemma {:induction false} InsideAreDefinitions(g: Graph, referenced: seq<bool>, id: nat, y: nat, n: nat)
    requires Inside(g, referenced, id, y, n)
    ensures y < |g| && y < |referenced| && IsDefinition(g[y], referenced[y])
    decreases n
  {
    var k :| 0 <= k < RefCount(g[id]) && Needs(g, referenced, Ref(g[id], k), false, y, n - 1);
    NeededAreDefinitions(g, referenced, Ref(g[id], k), false, y, n - 1);
  }

  // ---- the states of the traversal ----

  ghost predicate NeedsDone(g: Graph, referenced: seq<bool>, s: Orders, id: nat, throughPtr: bool) {
    forall y, n: nat :: 0 <= y < |s| && Needs(g, referenced, id, throughPtr, y, n) ==> s[y] == Ordered
  }

  ghost predicate InsideDone(g: Graph, referenced: seq<bool>, s: Orders, id: nat) {
    forall y, n: nat :: 0 <= y < |s| && Inside(g, referenced, id, y, n) ==> s[y] == Ordered
  }

  /** All that an ordered type needs is ordered. */
  ghost predicate Done(g: Graph, referenced: seq<bool>, s: Orders, id: nat) {
    NeedsDone(g, referenced, s, id, false) && InsideDone(g, referenced, s, id)
  }

  /** Each queued definition comes after all that it needs. */
  ghost predicate InOrder(g: Graph, referenced: seq<bool>, queue: seq<u32>) {
    forall p, y: u32, n: nat :: 0 <= p < |queue| && Inside(g, referenced, queue[p], y, n) ==> y in queue[..p]
  }

  ghost predicate OrderInv(g: Graph, referenced: seq<bool>, s: Orders, queue: seq<u32>) {
    && |s| == |g| == |referenced| <= 0x1_0000_0000 && |g| > 0 && s[0] == Ordered
    && (forall id :: 0 <= id < |s| && s[id] == Ordering ==> IsComposite(g[id]))
    && (forall id :: 0 <= id < |s| && s[id] == Ordered ==> Done(g, referenced, s, id))
    && (forall id :: 0 <= id < |s| && IsDefinition(g[id], referenced[id]) ==> (s[id] == Ordered <==> id in queue))
    && (forall p :: 0 <= p < |queue| ==> queue[p] < |g| && IsDefinition(g[queue[p]], referenced[queue[p]]))
    && InOrder(g, referenced, queue)
  }

  lemma ProgressKeepsNeeds(g: Graph, referenced: seq<bool>, s: Orders, s': Orders, id: nat, throughPtr: bool)
    requires NeedsDone(g, referenced, s, id, throughPtr) && Progress(s, s')
    ensures NeedsDone(g, referenced, s', id, throughPtr)
  {
  }

  lemma NeedsBehindPointer(g: Graph, referenced: seq<bool>, s: Orders, id: nat)
    requires NeedsDone(g, referenced, s, id, false)
    ensures NeedsDone(g, referenced, s, id, true)
  {
    forall y, n: nat | 0 <= y < |s| && Needs(g, referenced, id, true, y, n)
      ensures s[y] == Ordered
    {
      PointerNeedsLess(g, referenced, id, y, n);
    }
  }

  lemma OrderedIsDone(g: Graph, referenced: seq<bool>, s: Orders, queue: seq<u32>, id: nat, throughPtr: bool)
    requires OrderInv(g, referenced, s, queue) && id < |g| && s[id] == Ordered
    ensures NeedsDone(g, referenced, s, id, throughPtr) && NeedsDone(g, referenced, s, id, false)
  {
    assert Done(g, referenced, s, id);
    NeedsBehindPointer(g, referenced, s, id);
  }

  /** A type that needs no definition of its own is marked. */
  lemma MarkPlain(g: Graph, referenced: seq<bool>, s: Orders, queue: seq<u32>, id: nat)
    requires OrderInv(g, referenced, s, queue) && id < |g|
    requires !IsDefinition(g[id], referenced[id]) && Done(g, referenced, s, id)
    ensures OrderInv(g, referenced, s[id := Ordered], queue)
  {
    hide Needs, Inside, InOrder, IsDefinition;
    var s' := s[id := Ordered];
    forall x | 0 <= x < |s'| && s'[x] == Ordered
      ensures Done(g, referenced, s', x)
    {
      assert Done(g, referenced, s, x);
    }
  }

  /** Entering a struct or union. */
  lemma StartComposite(g: Graph, referenced: seq<bool>, s: Orders, queue: seq<u32>, id: nat)
    requires OrderInv(g, referenced, s, queue) && id < |g| && s[id] == NotOrdered && IsComposite(g[id])
    ensures OrderInv(g, referenced, s[id := Ordering], queue)
  {
    hide Needs, Inside, InOrder, IsDefinition;
    var s' := s[id := Ordering];
    forall x | 0 <= x < |s'| && s'[x] == Ordered
      ensures Done(g, referenced, s', x)
    {
      assert Done(g, referenced, s, x);
    }
  }

  lemma AppendInOrder(g: Graph, referenced: seq<bool>, s: Orders, queue: seq<u32>, id: u32)
    requires OrderInv(g, referenced, s, queue) && id < |g| && InsideDone(g, referenced, s, id)
    ensures InOrder(g, referenced, queue + [id])
  {
    hide Needs, Inside, IsDefinition;
    var queue' := queue + [id];
    forall p, y: u32, n: nat | 0 <= p < |queue'| && Inside(g, referenced, queue'[p], y, n)
      ensures y in queue'[..p]
    {
      if p < |queue| {
        assert queue'[..p] == queue[..p];
      } else {
        InsideAreDefinitions(g, referenced, id, y, n);
        assert queue'[..p] == queue;
      }
    }
  }

  /** A finished definition is queued and marked. */
  lemma MarkDefinition(g: Graph, referenced: seq<bool>, s: Orders, queue: seq<u32>, id: u32)
    requires OrderInv(g, referenced, s, queue) && id < |g| && IsDefinition(g[id], referenced[id])
    requires InsideDone(g, referenced, s, id) && NeedsDone(g, referenced, s[id := Ordered], id, false)
    ensures OrderInv(g, referenced, s[id := Ordered], queue + [id])
  {
    hide Needs, Inside, InOrder;
    AppendInOrder(g, referenced, s, queue, id);
    var s', queue' := s[id := Ordered], queue + [id];
    forall x | 0 <= x < |s'| && s'[x] == Ordered
      ensures Done(g, referenced, s', x)
    {
      assert x != id ==> Done(g, referenced, s, x);
    }
  }

  // ---- the traversal ----

  class BtfDump {
    const types: Graph
    /** A witness that cycles pass through structs and unions. */
    ghost const rank: seq<nat>
    var referenced: seq<bool>
    const orderState: array<OrderState>
    /** `emit_queue`, of `emit_queue_cap` words. */
    var emitQueue: seq<u32>
    var emitQueueCnt: nat
    /** What earlier calls have emitted, and all structs ordered, in the order they were finished. */
    ghost var emitted: seq<u32>
    ghost var finished: seq<nat>

    ghost predicate Valid()
      reads this, orderState
    {
      && WfGraph(types) && CyclesThroughComposites(types, rank) && emitQueueCnt <= |emitQueue|
      && orderState.Length == |referenced| == |types|
      && OrderInv(types, referenced, orderState[..], Queue())
    }

    /** All definitions emitted so far, in order. */
    ghost function Queue(): seq<u32>
      reads this
      requires emitQueueCnt <= |emitQueue|
    {
      emitted + emitQueue[..emitQueueCnt]
    }

    ghost function State(): Walked
      reads this, orderState
      requires emitQueueCnt <= |emitQueue|
    {
      Walked(orderState[..], Queue(), finished)
    }

    /** `btf_dump__new`. */
    constructor (types: Graph, ghost rank: seq<nat>)
      requires WfGraph(types) && CyclesThroughComposites(types, rank)
      ensures Valid() && fresh(orderState) && this.types == types && Queue() == [] && Settled()
      ensures forall id :: 0 <= id < |types| ==> (referenced[id] <==> IsReferenced(types, |types|, id))
    {
      this.types, this.rank := types, rank;
      emitQueue, emitQueueCnt, emitted, finished := [], 0, [], [];
      referenced := seq(|types|, _ => false);
      orderState := new OrderState[|types|](i => if i == 0 then Ordered else NotOrdered);
      new;
      MarkReferenced();
      NothingOrdered(types, referenced, orderState[..]);
      FineAtFirst(types, referenced, State());
    }

    /** `btf_dump_mark_referenced`. */
    method MarkReferenced()
      requires WfGraph(types) && |referenced| == |types| && forall id :: 0 <= id < |types| ==> !referenced[id]
      modifies this`referenced
      ensures |referenced| == |types|
      ensures forall id :: 0 <= id < |types| ==> (referenced[id] <==> IsReferenced(types, |types|, id))
    {
      var i := 1;
      while i < |types|
        invariant 1 <= i <= |types| && |referenced| == |types|
        invariant forall id :: 0 <= id < |types| ==> (referenced[id] <==> IsReferenced(types, i, id))
      {
        MarkOneReferenced(i);
        i := i + 1;
      }
    }

    method MarkOneReferenced(i: nat)
      requires WfGraph(types) && 0 < i < |types| && |referenced| == |types|
      requires forall id :: 0 <= id < |types| ==> (referenced[id] <==> IsReferenced(types, i, id))
      modifies this`referenced
      ensures |referenced| == |types|
      ensures forall id :: 0 <= id < |types| ==> (referenced[id] <==> IsReferenced(types, i + 1, id))
    {
      hide WfGraph;
      var t := types[i];
      ghost var was := referenced;
      if !IsFwd(t) {
        var j := if Kind(t) == KIND_FUNC_PROTO then 1 else 0;
        while j < RefCount(t)
          invariant 0 <= j <= RefCount(t) && |referenced| == |types|
          invariant forall id :: 0 <= id < |types| ==>
                      (referenced[id] <==> was[id] || exists k :: 0 <= k < j && Marks(t, k) && Ref(t, k) == id)
        {
          RefInGraph(types, i, j);
          referenced := referenced[Ref(t, j) := true];
          j := j + 1;
        }
      }
      forall id | 0 <= id < |types|
        ensures referenced[id] <==> IsReferenced(types, i + 1, id)
      {
        if referenced[id] && !was[id] {
          var k :| 0 <= k < RefCount(t) && Marks(t, k) && Ref(t, k) == id;
          assert Ref(types[i], k) == id;
        }
      }
    }

    /** Between calls: no type is in the middle of being ordered. */
    ghost predicate Settled()
      reads this, orderState
    {
      && emitQueueCnt <= |emitQueue| && Fine(types, referenced, State())
      && forall id :: 0 <= id < orderState.Length ==> orderState[id] != Ordering
    }

    /** `btf_dump_add_emit_queue_id`. */
    method AddEmitQueueId(id: u32)
      requires emitQueueCnt <= |emitQueue|
      modifies this`emitQueue, this`emitQueueCnt
      ensures emitQueueCnt <= |emitQueue| && Queue() == old(Queue()) + [id]
    {
      if emitQueueCnt >= |emitQueue| {
        var newCap := if |emitQueue| * 3 / 2 < 16 then 16 else |emitQueue| * 3 / 2;
        emitQueue := emitQueue + seq(newCap - |emitQueue|, _ => 0);
      }
      ghost var was := emitQueue[..emitQueueCnt];
      emitQueue := emitQueue[emitQueueCnt := id];
      emitQueueCnt := emitQueueCnt + 1;
      assert emitQueue[..emitQueueCnt] == was + [id];
    }

    /** What a visit promises: 1 if all that even an embedded use needs is defined, 0 if all that
        this use needs is, -ELOOP only if some struct has to be defined inside itself. */
    ghost predicate Visited(s: Orders, queue: seq<u32>, s': Orders, queue': seq<u32>, id: nat, throughPtr: bool,
                            err: int)
      reads this
    {
      && Progress(s, s') && queue <= queue' && OrderInv(types, referenced, s', queue')
      && NeedsDone(types, referenced, s', id, throughPtr)
      && (err == 1 ==> NeedsDone(types, referenced, s', id, false))
    }

    /** `btf_dump_order_type`. */
    method OrderType(id: u32, throughPtr: bool) returns (err: int)
      requires Valid() && id < |types| && Trail(types, orderState[..], Visit(id, throughPtr))
      modifies orderState, this`emitQueue, this`emitQueueCnt, this`finished
      ensures emitQueueCnt <= |emitQueue|
      ensures (err, State()) == old(Walk(types, referenced, rank, State(), id, throughPtr))
      ensures err in {0, 1, ELOOP} && emitQueueCnt <= |emitQueue|
      ensures err >= 0 ==> Valid()
      ensures err >= 0 ==> Visited(old(orderState[..]), old(Queue()), orderState[..], Queue(), id, throughPtr, err)
      ensures err == ELOOP ==> exists x, p :: UnsatisfiableCycle(types, x, p)
      decreases |Untouched(types, orderState[..])|, rank[id], 1
    {
      hide Walk, WalkRefs, Needs, Inside, NeedsDone, Done, OrderInv, Progress, Trail, Edge, WfGraph, Untouched,
        CyclesThroughComposites;
      ghost var s, queue := orderState[..], Queue();
      ghost var w := State();
      OrderInvShape(types, referenced, s, queue);
      if orderState[id] != NotOrdered { WalkSeen(types, referenced, rank, w, id, throughPtr); }
      if orderState[id] == Ordered {
        OrderedIsDone(types, referenced, s, queue, id, throughPtr);
        ProgressRefl(s);
        return 1;
      }
      var t := types[id];
      if orderState[id] == Ordering {
        if IsComposite(t) && throughPtr && Named(t) {
          WeakUse(types, referenced, s, id);
          ProgressRefl(s);
          return 0;
        }
        BackOnTrail(types, s, id, throughPtr);
        return ELOOP;
      }
      var kind := Kind(t);
      if kind == KIND_INT || kind == KIND_FLOAT || kind == KIND_FUNC || kind == KIND_VAR || kind == KIND_DATASEC
         || kind == KIND_DECL_TAG {
        WalkPlain(types, referenced, rank, w, id, throughPtr);
        NeedsNothing(types, referenced, s, id);
        MarkAlone(id, throughPtr);
        err := 0;
      } else if kind == KIND_PTR {
        err := OrderPtr(id, throughPtr);
      } else if kind == KIND_ARRAY {
        err := OrderInner(id, throughPtr, false);
      } else if IsComposite(t) {
        err := OrderComposite(id, throughPtr);
      } else if IsAnyEnum(t) || IsFwd(t) {
        err := OrderEnum(id, throughPtr);
      } else if kind == KIND_TYPEDEF {
        err := OrderTypedef(id, throughPtr);
      } else if IsModifier(kind) {
        err := OrderInner(id, throughPtr, throughPtr);
      } else if kind == KIND_FUNC_PROTO {
        err := OrderFuncProto(id, throughPtr);
      } else {
        KnownKind(types, s, id);
        err := EINVAL;
      }
    }

    /** Marks a type that defines nothing, once all it needs is defined. */
    method MarkAlone(id: u32, ghost throughPtr: bool)
      requires Valid() && id < |types| && orderState[id] != Ordering
      requires Done(types, referenced, orderState[..], id) && !IsDefinition(types[id], referenced[id])
      modifies orderState
      ensures orderState[..] == old(orderState[..])[id := Ordered]
      ensures Valid() && Visited(old(orderState[..]), Queue(), orderState[..], Queue(), id, throughPtr, 1)
    {
      hide Needs, Inside, NeedsDone, Done, OrderInv, Progress, WfGraph, CyclesThroughComposites, IsDefinition;
      ghost var s := orderState[..];
      MarkPlain(types, referenced, s, Queue(), id);
      ProgressMark(s, id);
      orderState[id] := Ordered;
      assert orderState[..] == s[id := Ordered];
      OrderedIsDone(types, referenced, orderState[..], Queue(), id, throughPtr);
    }

    method OrderPtr(id: u32, throughPtr: bool) returns (err: int)
      requires Valid() && id < |types| && Trail(types, orderState[..], Visit(id, throughPtr))
      requires Kind(types[id]) == KIND_PTR && orderState[id] == NotOrdered
      modifies orderState, this`emitQueue, this`emitQueueCnt, this`finished
      ensures emitQueueCnt <= |emitQueue|
      ensures (err, State()) == old(Walk(types, referenced, rank, State(), id, throughPtr))
      ensures err in {0, 1, ELOOP} && emitQueueCnt <= |emitQueue|
      ensures err >= 0 ==> Valid()
      ensures err >= 0 ==> Visited(old(orderState[..]), old(Queue()), orderState[..], Queue(), id, throughPtr, err)
      ensures err == ELOOP ==> exists x, p :: UnsatisfiableCycle(types, x, p)
      decreases |Untouched(types, orderState[..])|, rank[id], 0
    {
      hide Walk, WalkRefs, Needs, Inside, NeedsDone, Done, OrderInv, Progress, Trail, WfGraph, Untouched,
        CyclesThroughComposites;
      ghost var s := orderState[..];
      ProgressRefl(s);
      WalkInner(types, referenced, rank, State(), id, throughPtr, true);
      Descend(types, rank, s, s, id, throughPtr, 0, true);
      err := OrderType(Ref(types[id], 0), true);
      if err >= 0 {
        ghost var s1 := orderState[..];
        PtrDone(types, referenced, s1, id);
        ProgressShape(s, s1, id);
        MarkAlone(id, throughPtr);
        ProgressTrans(s, s1, orderState[..]);
      } else {
        orderState[id] := Ordered;
      }
    }

    /** Arrays and modifiers are as their inner type. */
    method OrderInner(id: u32, throughPtr: bool, through': bool) returns (err: int)
      requires Valid() && id < |types| && Trail(types, orderState[..], Visit(id, throughPtr))
      requires (Kind(types[id]) == KIND_ARRAY && !through') || (IsModifier(Kind(types[id])) && through' == throughPtr)
      requires orderState[id] == NotOrdered
      modifies orderState, this`emitQueue, this`emitQueueCnt, this`finished
      ensures emitQueueCnt <= |emitQueue|
      ensures (err, State()) == old(Walk(types, referenced, rank, State(), id, throughPtr))
      ensures err in {0, 1, ELOOP} && emitQueueCnt <= |emitQueue|
      ensures err >= 0 ==> Valid()
      ensures err >= 0 ==> Visited(old(orderState[..]), old(Queue()), orderState[..], Queue(), id, throughPtr, err)
      ensures err == ELOOP ==> exists x, p :: UnsatisfiableCycle(types, x, p)
      decreases |Untouched(types, orderState[..])|, rank[id], 0
    {
      hide Walk, WalkRefs, Needs, Inside, NeedsDone, Done, OrderInv, Progress, Trail, WfGraph, Untouched,
        CyclesThroughComposites;
      ghost var s := orderState[..];
      ProgressRefl(s);
      WalkInner(types, referenced, rank, State(), id, throughPtr, through');
      Descend(types, rank, s, s, id, throughPtr, 0, through');
      err := OrderType(Ref(types[id], 0), through');
      if err >= 0 {
        InnerDone(types, referenced, orderState[..], id, throughPtr, through');
      }
    }

    method OrderComposite(id: u32, throughPtr: bool) returns (err: int)
      requires Valid() && id < |types| && Trail(types, orderState[..], Visit(id, throughPtr))
      requires IsComposite(types[id]) && orderState[id] == NotOrdered
      modifies orderState, this`emitQueue, this`emitQueueCnt, this`finished
      ensures emitQueueCnt <= |emitQueue|
      ensures (err, State()) == old(Walk(types, referenced, rank, State(), id, throughPtr))
      ensures err in {0, 1, ELOOP} && emitQueueCnt <= |emitQueue|
      ensures err >= 0 ==> Valid()
      ensures err >= 0 ==> Visited(old(orderState[..]), old(Queue()), orderState[..], Queue(), id, throughPtr, err)
      ensures err == ELOOP ==> exists x, p :: UnsatisfiableCycle(types, x, p)
      decreases |Untouched(types, orderState[..])|, rank[id], 0
    {
      hide Walk, WalkRefs, Needs, Inside, NeedsDone, Done, OrderInv, Progress, Trail, WfGraph, Untouched,
        CyclesThroughComposites, RefsDone, IsDefinition;
      ghost var s, queue := orderState[..], Queue();
      ghost var s1 := s[id := Ordering];
      ghost var w := State();
      WalkComposite(types, referenced, rank, w, id, throughPtr);
      var t := types[id];
      if throughPtr && Named(t) {
        WeakUse(types, referenced, s, id);
        ProgressRefl(s);
        return 0;
      }
      StartComposite(types, referenced, s, queue, id);
      EnteringUntouched(types, s, id);
      orderState[id] := Ordering;
      assert orderState[..] == s1;
      ghost var w1 := State();
      ProgressRefl(s1);
      NoRefsDone(types, referenced, s1, id, false);
      var i := 0;
      ghost var strong := false;
      while i < RefCount(t)
        invariant 0 <= i <= RefCount(t) && Valid() && Progress(s1, orderState[..]) && queue <= Queue()
        invariant RefsDone(types, referenced, orderState[..], id, i, false)
        invariant WalkRefs(types, referenced, rank, w1, id, false, 0, false)
                  == WalkRefs(types, referenced, rank, State(), id, false, i, strong)
      {
        ghost var s2 := orderState[..];
        TrailInside(types, s, s2, id, throughPtr, i);
        ProgressUntouched(types, s1, s2);
        RefInGraph(types, id, i);
        WalkRefsNext(types, referenced, rank, State(), id, false, i, strong);
        err := OrderType(Ref(t, i), false);
        if err < 0 { return; }
        ProgressTrans(s1, s2, orderState[..]);
        NextRefDone(types, referenced, s2, orderState[..], id, i, false);
        strong := strong || err > 0;
        i := i + 1;
      }
      ghost var s3 := orderState[..];
      WalkRefsEnd(types, referenced, rank, State(), id, false, i, strong);
      ProgressLeave(s, s3, id);
      MembersDone(types, referenced, s3, id);
      if Named(t) {
        DefineNow(id, throughPtr);
      } else {
        MarkPlain(types, referenced, s3, Queue(), id);
        orderState[id] := Ordered;
        assert orderState[..] == s3[id := Ordered];
        OrderedIsDone(types, referenced, orderState[..], Queue(), id, throughPtr);
      }
      finished := finished + [id];
      err := 1;
    }

    /** Queues and marks a definition that needs nothing more. */
    method DefineNow(id: u32, ghost throughPtr: bool)
      requires Valid() && id < |types| && IsDefinition(types[id], referenced[id])
      requires InsideDone(types, referenced, orderState[..], id)
      requires NeedsDone(types, referenced, orderState[..][id := Ordered], id, false)
      modifies orderState, this`emitQueue, this`emitQueueCnt
      ensures Valid() && orderState[..] == old(orderState[..])[id := Ordered] && Queue() == old(Queue()) + [id]
      ensures NeedsDone(types, referenced, orderState[..], id, throughPtr)
      ensures NeedsDone(types, referenced, orderState[..], id, false)
    {
      hide Needs, Inside, NeedsDone, InsideDone, Done, OrderInv, WfGraph, CyclesThroughComposites, IsDefinition;
      ghost var s := orderState[..];
      MarkDefinition(types, referenced, s, Queue(), id);
      AddEmitQueueId(id);
      orderState[id] := Ordered;
      assert orderState[..] == s[id := Ordered];
      OrderedIsDone(types, referenced, orderState[..], Queue(), id, throughPtr);
    }

    method OrderEnum(id: u32, ghost throughPtr: bool) returns (err: int)
      requires Valid() && id < |types| && (IsAnyEnum(types[id]) || IsFwd(types[id])) && orderState[id] == NotOrdered
      modifies orderState, this`emitQueue, this`emitQueueCnt
      ensures emitQueueCnt <= |emitQueue|
      ensures (err, State()) == old(Walk(types, referenced, rank, State(), id, throughPtr))
      ensures err == 1 && emitQueueCnt <= |emitQueue| && Valid()
      ensures Visited(old(orderState[..]), old(Queue()), orderState[..], Queue(), id, throughPtr, err)
    {
      hide Walk, WalkRefs, Needs, Inside, NeedsDone, InsideDone, Done, OrderInv, Progress, WfGraph,
        CyclesThroughComposites;
      WalkEnum(types, referenced, rank, State(), id, throughPtr);
      EnumDone(types, referenced, orderState[..], id);
      ProgressMark(orderState[..], id);
      if Named(types[id]) || !referenced[id] {
        DefineNow(id, throughPtr);
      } else {
        MarkAlone(id, throughPtr);
      }
      err := 1;
    }

    method OrderTypedef(id: u32, throughPtr: bool) returns (err: int)
      requires Valid() && id < |types| && Trail(types, orderState[..], Visit(id, throughPtr))
      requires Kind(types[id]) == KIND_TYPEDEF && orderState[id] == NotOrdered
      modifies orderState, this`emitQueue, this`emitQueueCnt, this`finished
      ensures emitQueueCnt <= |emitQueue|
      ensures (err, State()) == old(Walk(types, referenced, rank, State(), id, throughPtr))
      ensures err in {0, 1, ELOOP} && emitQueueCnt <= |emitQueue|
      ensures err >= 0 ==> Valid()
      ensures err >= 0 ==> Visited(old(orderState[..]), old(Queue()), orderState[..], Queue(), id, throughPtr, err)
      ensures err == ELOOP ==> exists x, p :: UnsatisfiableCycle(types, x, p)
      decreases |Untouched(types, orderState[..])|, rank[id], 0
    {
      hide Walk, WalkRefs, Needs, Inside, NeedsDone, InsideDone, Done, OrderInv, Progress, Trail, WfGraph, Untouched,
        CyclesThroughComposites;
      ghost var s := orderState[..];
      ProgressRefl(s);
      WalkInner(types, referenced, rank, State(), id, throughPtr, throughPtr);
      Descend(types, rank, s, s, id, throughPtr, 0, throughPtr);
      var isStrong := OrderType(Ref(types[id], 0), throughPtr);
      if isStrong < 0 { return isStrong; }
      ghost var s1 := orderState[..];
      TypedefDone(types, referenced, s1, id, throughPtr);
      if throughPtr && isStrong == 0 { return 0; }
      ProgressShape(s, s1, id);
      ProgressMark(s1, id);
      DefineNow(id, throughPtr);
      ProgressTrans(s, s1, orderState[..]);
      err := 1;
    }

    method OrderFuncProto(id: u32, throughPtr: bool) returns (err: int)
      requires Valid() && id < |types| && Trail(types, orderState[..], Visit(id, throughPtr))
      requires Kind(types[id]) == KIND_FUNC_PROTO
      requires orderState[id] == NotOrdered
      modifies orderState, this`emitQueue, this`emitQueueCnt, this`finished
      ensures emitQueueCnt <= |emitQueue|
      ensures (err, State()) == old(Walk(types, referenced, rank, State(), id, throughPtr))
      ensures err in {0, 1, ELOOP} && emitQueueCnt <= |emitQueue|
      ensures err >= 0 ==> Valid()
      ensures err >= 0 ==> Visited(old(orderState[..]), old(Queue()), orderState[..], Queue(), id, throughPtr, err)
      ensures err == ELOOP ==> exists x, p :: UnsatisfiableCycle(types, x, p)
      decreases |Untouched(types, orderState[..])|, rank[id], 0
    {
      hide Walk, WalkRefs, Needs, Inside, NeedsDone, InsideDone, Done, OrderInv, Progress, Trail, WfGraph, Untouched,
        CyclesThroughComposites, RefsDone;
      ghost var s, queue, w := orderState[..], Queue(), State();
      WalkFuncProto(types, referenced, rank, w, id, throughPtr);
      WalkRefsNext(types, referenced, rank, w, id, throughPtr, 0, false);
      ProgressRefl(s);
      Descend(types, rank, s, s, id, throughPtr, 0, throughPtr);
      err := OrderType(Ref(types[id], 0), throughPtr);
      if err < 0 { return; }
      var isStrong := err > 0;
      NoRefsDone(types, referenced, s, id, throughPtr);
      NextRefDone(types, referenced, s, orderState[..], id, 0, throughPtr);
      var i := 1;
      while i < RefCount(types[id])
        invariant 1 <= i <= RefCount(types[id]) && Valid() && Progress(s, orderState[..]) && queue <= Queue()
        invariant RefsDone(types, referenced, orderState[..], id, i, throughPtr)
        invariant WalkRefs(types, referenced, rank, w, id, throughPtr, 0, false)
                  == WalkRefs(types, referenced, rank, State(), id, throughPtr, i, isStrong)
      {
        ghost var s1 := orderState[..];
        Descend(types, rank, s, s1, id, throughPtr, i, throughPtr);
        WalkRefsNext(types, referenced, rank, State(), id, throughPtr, i, isStrong);
        err := OrderType(Ref(types[id], i), throughPtr);
        if err < 0 { return; }
        if err > 0 { isStrong := true; }
        ProgressTrans(s, s1, orderState[..]);
        NextRefDone(types, referenced, s1, orderState[..], id, i, throughPtr);
        i := i + 1;
      }
      WalkRefsEnd(types, referenced, rank, State(), id, throughPtr, i, isStrong);
      FuncProtoDone(types, referenced, orderState[..], id, throughPtr);
      err := if isStrong then 1 else 0;
    }

    /** The ordering part of `btf_dump__dump_type`: what is queued is then emitted in that order. */
    method DumpType(id: u32) returns (err: int)
      requires Valid() && Settled()
      modifies this`emitQueue, this`emitQueueCnt, this`emitted, this`finished, orderState
      ensures err == EINVAL <==> id >= |types|
      ensures err in {0, EINVAL, ELOOP}
      ensures err == 0 ==> Valid() && Settled() && old(Queue()) <= Queue() && OnceEach(types, Queue())
      ensures err == 0 && NoDirectFuncProto(types, Visit(id, false)) ==> AllNew(old(Queue()), Queue())
      ensures err == 0 ==> forall y: u32, n: nat :: Needs(types, referenced, id, false, y, n) ==> y in Queue()
      ensures err == ELOOP ==> BadCycle(types, Visit(id, false))
      ensures id < |types| && NoDirectFuncProto(types, Visit(id, false)) ==>
                (err == ELOOP <==> BadCycle(types, Visit(id, false)))
      ensures emitQueueCnt <= |emitQueue|
      ensures id < |types| ==> var (r, w) := old(Walk(types, referenced, rank, State(), id, false));
                               State() == w && err == if r < 0 then r else 0
    {
      hide Needs, Inside, NeedsDone, InsideDone, Done, OrderInv, WfGraph, CyclesThroughComposites, Trail,
        UnsatisfiableCycle, Walk, Fine, BadCycle, NoDirectFuncProto, Reached, StrongDone, OnceEach, AllNew, Follows;
      if id >= |types| { return EINVAL; }
      ghost var queue, w := Queue(), State();
      emitted := queue;
      emitQueueCnt := 0;
      assert Queue() == queue;
      assert State() == w;
      NoTrail(types, orderState[..], Visit(id, false));
      WalkOk(types, referenced, rank, w, id, false);
      CycleReportIsExact(types, referenced, rank, w, id, false);
      QueuesOnce(types, referenced, rank, w, id, false);
      err := OrderType(id, false);
      if err < 0 { return; }
      NeededAreQueued(types, referenced, orderState[..], Queue(), id);
      err := 0;
    }
  }

  lemma NeededAreQueued(g: Graph, referenced: seq<bool>, s: Orders, queue: seq<u32>, id: nat)
    requires OrderInv(g, referenced, s, queue) && NeedsDone(g, referenced, s, id, false)
    ensures forall y: u32, n: nat :: Needs(g, referenced, id, false, y, n) ==> y in queue
  {
    hide Needs, Inside, InOrder, IsDefinition, Done;
    forall y: u32, n: nat | Needs(g, referenced, id, false, y, n)
      ensures y in queue
    {
      NeededAreDefinitions(g, referenced, id, false, y, n);
    }
  }

  /** The definition of x cannot be written before that of y. */
  ghost predicate Embeds(g: Graph, referenced: seq<bool>, x: u32, y: u32) {
    exists n: nat :: Inside(g, referenced, x, y, n)
  }

  /** Each definition of the chain embeds the next. */
  ghost predicate EmbedsChain(g: Graph, referenced: seq<bool>, chain: seq<u32>) {
    forall i, j :: 0 <= i < |chain| && j == i + 1 < |chain| ==> Embeds(g, referenced, chain[i], chain[j])
  }

  function FirstAt(queue: seq<u32>, y: u32): (p: nat)
    requires y in queue
    ensures p < |queue| && queue[p] == y && forall q :: 0 <= q < p ==> queue[q] != y
  {
    if queue[0] == y then 0 else 1 + FirstAt(queue[1..], y)
  }

  lemma EmbeddedFirst(g: Graph, referenced: seq<bool>, queue: seq<u32>, x: u32, y: u32)
    requires InOrder(g, referenced, queue) && x in queue && Embeds(g, referenced, x, y)
    ensures y in queue && FirstAt(queue, y) < FirstAt(queue, x)
  {
    hide Inside;
    var p := FirstAt(queue, x);
    var n: nat :| Inside(g, referenced, x, y, n);
    assert Inside(g, referenced, queue[p], y, n);
    var q :| 0 <= q < p && queue[..p][q] == y;
    assert queue[q] == y;
  }

  /** No emitted definition embeds itself, directly or through others: the end of a chain of
      embeddings is first emitted before its start. */
  lemma {:induction false} EmittedBeforeUsers(g: Graph, referenced: seq<bool>, queue: seq<u32>, chain: seq<u32>)
    requires InOrder(g, referenced, queue) && EmbedsChain(g, referenced, chain)
    requires |chain| >= 2 && chain[0] in queue
    ensures var last := chain[|chain| - 1]; last in queue && FirstAt(queue, last) < FirstAt(queue, chain[0])
    decreases |chain|
  {
    hide Embeds, InOrder;
    EmbeddedFirst(g, referenced, queue, chain[0], chain[1]);
    if |chain| > 2 {
      var rest := chain[1..];
      forall i, j | 0 <= i < |rest| && j == i + 1 < |rest|
        ensures Embeds(g, referenced, rest[i], rest[j])
      {
        assert rest[i] == chain[i + 1] && rest[j] == chain[j + 1];
      }
      EmittedBeforeUsers(g, referenced, queue, rest);
    }
  }

  lemma PtrDone(g: Graph, referenced: seq<bool>, s: Orders, id: nat)
    requires id < |g| && id < |referenced| && Kind(g[id]) == KIND_PTR
    requires NeedsDone(g, referenced, s, Ref(g[id], 0), true)
    ensures Done(g, referenced, s, id) && !IsDefinition(g[id], referenced[id])
  {
    forall y, n: nat | 0 <= y < |s| && Needs(g, referenced, id, false, y, n)
      ensures s[y] == Ordered
    {
      assert Needs(g, referenced, Ref(g[id], 0), true, y, n - 1);
    }
  }

  lemma InnerDone(g: Graph, referenced: seq<bool>, s: Orders, id: nat, throughPtr: bool, through': bool)
    requires id < |g| && id < |referenced| && NeedsDone(g, referenced, s, Ref(g[id], 0), through')
    requires (Kind(g[id]) == KIND_ARRAY && !through') || (IsModifier(Kind(g[id])) && through' == throughPtr)
    ensures NeedsDone(g, referenced, s, id, throughPtr)
    ensures NeedsDone(g, referenced, s, Ref(g[id], 0), false) ==> NeedsDone(g, referenced, s, id, false)
  {
    forall y, n: nat | 0 <= y < |s| && Needs(g, referenced, id, throughPtr, y, n)
      ensures s[y] == Ordered
    {
      assert Needs(g, referenced, Ref(g[id], 0), through', y, n - 1);
    }
    if NeedsDone(g, referenced, s, Ref(g[id], 0), false) {
      forall y, n: nat | 0 <= y < |s| && Needs(g, referenced, id, false, y, n)
        ensures s[y] == Ordered
      {
        assert Needs(g, referenced, Ref(g[id], 0), false, y, n - 1);
      }
    }
  }

  lemma EnumDone(g: Graph, referenced: seq<bool>, s: Orders, id: nat)
    requires id < |g| == |s| == |referenced| && (IsAnyEnum(g[id]) || IsFwd(g[id]))
    ensures InsideDone(g, referenced, s, id) && NeedsDone(g, referenced, s[id := Ordered], id, false)
    ensures !IsDefinition(g[id], referenced[id]) ==> Done(g, referenced, s, id)
  {
  }

  lemma TypedefDone(g: Graph, referenced: seq<bool>, s: Orders, id: nat, throughPtr: bool)
    requires id < |g| == |s| == |referenced| && Kind(g[id]) == KIND_TYPEDEF
    requires NeedsDone(g, referenced, s, Ref(g[id], 0), throughPtr)
    ensures throughPtr ==> NeedsDone(g, referenced, s, id, throughPtr)
    ensures NeedsDone(g, referenced, s, Ref(g[id], 0), false) ==>
              InsideDone(g, referenced, s, id) && NeedsDone(g, referenced, s[id := Ordered], id, false)
  {
    if throughPtr {
      forall y, n: nat | 0 <= y < |s| && Needs(g, referenced, id, throughPtr, y, n)
        ensures s[y] == Ordered
      {
        assert Needs(g, referenced, Ref(g[id], 0), throughPtr, y, n - 1);
      }
    }
    if NeedsDone(g, referenced, s, Ref(g[id], 0), false) {
      forall y, n: nat | 0 <= y < |s| && Inside(g, referenced, id, y, n)
        ensures s[y] == Ordered
      {
        assert RefCount(g[id]) == 1;
        assert Needs(g, referenced, Ref(g[id], 0), false, y, n - 1);
      }
      forall y, n: nat | 0 <= y < |s| && Needs(g, referenced, id, false, y, n)
        ensures s[id := Ordered][y] == Ordered
      {
        assert y == id || Needs(g, referenced, Ref(g[id], 0), false, y, n - 1);
      }
    }
  }

  /** The first i references of a type have been visited. */
  ghost predicate RefsDone(g: Graph, referenced: seq<bool>, s: Orders, id: nat, i: nat, throughPtr: bool)
    requires id < |g|
  {
    forall k :: 0 <= k < i ==> NeedsDone(g, referenced, s, Ref(g[id], k), throughPtr)
  }

  lemma NoRefsDone(g: Graph, referenced: seq<bool>, s: Orders, id: nat, throughPtr: bool)
    requires id < |g|
    ensures RefsDone(g, referenced, s, id, 0, throughPtr)
  {
  }

  lemma NextRefDone(g: Graph, referenced: seq<bool>, s: Orders, s': Orders, id: nat, i: nat, throughPtr: bool)
    requires id < |g| && RefsDone(g, referenced, s, id, i, throughPtr) && Progress(s, s')
    requires NeedsDone(g, referenced, s', Ref(g[id], i), throughPtr)
    ensures RefsDone(g, referenced, s', id, i + 1, throughPtr)
  {
    hide NeedsDone, Progress;
    forall k | 0 <= k < i
      ensures NeedsDone(g, referenced, s', Ref(g[id], k), throughPtr)
    {
      ProgressKeepsNeeds(g, referenced, s, s', Ref(g[id], k), throughPtr);
    }
  }

  lemma MembersDone(g: Graph, referenced: seq<bool>, s: Orders, id: nat)
    requires id < |g| == |s| == |referenced| && IsComposite(g[id])
    requires RefsDone(g, referenced, s, id, RefCount(g[id]), false)
    ensures InsideDone(g, referenced, s, id) && NeedsDone(g, referenced, s[id := Ordered], id, false)
    ensures IsDefinition(g[id], referenced[id]) <==> Named(g[id])
    ensures !Named(g[id]) ==> Done(g, referenced, s, id)
  {
    forall y, n: nat | 0 <= y < |s| && Inside(g, referenced, id, y, n)
      ensures s[y] == Ordered
    {
      var k :| 0 <= k < RefCount(g[id]) && Needs(g, referenced, Ref(g[id], k), false, y, n - 1);
      assert NeedsDone(g, referenced, s, Ref(g[id], k), false);
    }
    if !Named(g[id]) {
      forall y, n: nat, through: bool | 0 <= y < |s| && Needs(g, referenced, id, through, y, n)
        ensures s[y] == Ordered
      {
        assert Inside(g, referenced, id, y, n - 1);
      }
    }
  }

  lemma FuncProtoDone(g: Graph, referenced: seq<bool>, s: Orders, id: nat, throughPtr: bool)
    requires id < |g| && id < |referenced| && Kind(g[id]) == KIND_FUNC_PROTO
    requires RefsDone(g, referenced, s, id, RefCount(g[id]), throughPtr)
    ensures NeedsDone(g, referenced, s, id, throughPtr) && NeedsDone(g, referenced, s, id, false)
  {
    forall y, n: nat, through: bool | 0 <= y < |s| && Needs(g, referenced, id, through, y, n)
      ensures s[y] == Ordered
    {
      var k :| 0 <= k < RefCount(g[id]) && Needs(g, referenced, Ref(g[id], k), true, y, n - 1);
      assert NeedsDone(g, referenced, s, Ref(g[id], k), throughPtr);
      PointerNeedsLess(g, referenced, Ref(g[id], k), y, n - 1);
    }
  }

  lemma NothingOrdered(g: Graph, referenced: seq<bool>, s: Orders)
    requires WfGraph(g) && |s| == |g| == |referenced|
    requires forall id :: 0 <= id < |s| ==> s[id] == if id == 0 then Ordered else NotOrdered
    ensures OrderInv(g, referenced, s, [])
  {
  }

  lemma OrderInvShape(g: Graph, referenced: seq<bool>, s: Orders, queue: seq<u32>)
    requires OrderInv(g, referenced, s, queue)
    ensures |s| == |g| == |referenced| && s[0] == Ordered
    ensures forall id :: 0 <= id < |s| && s[id] == Ordering ==> IsComposite(g[id])
  {
  }

  /** Behind a pointer, a named struct needs no definition. */
  lemma WeakUse(g: Graph, referenced: seq<bool>, s: Orders, id: nat)
    requires id < |g| && IsComposite(g[id]) && Named(g[id])
    ensures NeedsDone(g, referenced, s, id, true)
  {
  }

  lemma NeedsNothing(g: Graph, referenced: seq<bool>, s: Orders, id: nat)
    requires id < |g| && id < |referenced|
    requires Kind(g[id]) in {KIND_INT, KIND_FLOAT, KIND_FUNC, KIND_VAR, KIND_DATASEC, KIND_DECL_TAG}
    ensures Done(g, referenced, s, id) && !IsDefinition(g[id], referenced[id])
  {
  }
}
