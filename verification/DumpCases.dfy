/** Small type graphs on which the ordering of definitions does the unexpected. */
module DumpCases {
  import opened BtfTypes
  import opened BtfGraph
  import opened DumpWalk

  const KIND_UNIT := 0x100_0000

  function TypedefOf(id: u32): Rec { [1, KIND_TYPEDEF * KIND_UNIT, id] }

  function PtrTo(id: u32): Rec { [0, KIND_PTR * KIND_UNIT, id] }

  /** A function returning ret, with one parameter. */
  function FuncOf(ret: u32, param: u32): Rec { [0, KIND_FUNC_PROTO * KIND_UNIT + 1, ret, 0, param] }

  function FuncReturning(ret: u32): Rec { [0, KIND_FUNC_PROTO * KIND_UNIT, ret] }

  /** A named struct with one member. */
  function StructOf(member: u32): Rec { [2, KIND_STRUCT * KIND_UNIT + 1, 8, 3, member, 0] }

  const ANON_ENUM: Rec := [0, KIND_ENUM * KIND_UNIT + 1, 4, 4, 0]

  function AtFirst(n: nat): Walked {
    Walked(seq(n, i => if i == 0 then Ordered else NotOrdered), [], [])
  }

  function NoneReferenced(n: nat): seq<bool> { seq(n, _ => false) }

  lemma KindsOfCases(id: u32, param: u32)
    ensures Kind(TypedefOf(id)) == KIND_TYPEDEF && RefCount(TypedefOf(id)) == 1 && Ref(TypedefOf(id), 0) == id
    ensures Kind(PtrTo(id)) == KIND_PTR && RefCount(PtrTo(id)) == 1 && Ref(PtrTo(id), 0) == id
    ensures Kind(FuncOf(id, param)) == KIND_FUNC_PROTO && RefCount(FuncOf(id, param)) == 2
    ensures Ref(FuncOf(id, param), 0) == id && Ref(FuncOf(id, param), 1) == param
    ensures Kind(FuncReturning(id)) == KIND_FUNC_PROTO && RefCount(FuncReturning(id)) == 1
    ensures Ref(FuncReturning(id), 0) == id
    ensures Kind(StructOf(id)) == KIND_STRUCT && RefCount(StructOf(id)) == 1 && Ref(StructOf(id), 0) == id
    ensures Named(StructOf(id))
    ensures Kind(ANON_ENUM) == KIND_ENUM && RefCount(ANON_ENUM) == 0 && !Named(ANON_ENUM)
    ensures WfRec(TypedefOf(id)) && WfRec(PtrTo(id)) && WfRec(FuncOf(id, param)) && WfRec(StructOf(id))
    ensures WfRec(ANON_ENUM)
    ensures WfRec(FuncReturning(id))
  {
  }

  /** `typedef void T(struct S);` and `struct S { T *f; };`. */
  const CALLBACK: Graph := [VOID, TypedefOf(2), FuncOf(0, 3), StructOf(4), PtrTo(1)]

  const CALLBACK_RANK: seq<nat> := [0, 2, 1, 0, 3]

  /** `typedef void T(struct S);` and a struct with a member of type T. */
  const BY_VALUE: Graph := [VOID, TypedefOf(2), FuncOf(0, 3), StructOf(1), PtrTo(1)]

  lemma CasesAreWf(g: Graph, member: u32)
    requires g == [VOID, TypedefOf(2), FuncOf(0, 3), StructOf(member), PtrTo(1)] && member < 5
    ensures WfGraph(g) && CyclesThroughComposites(g, CALLBACK_RANK)
  {
    KindsOfCases(1, 3);
    KindsOfCases(2, 3);
    KindsOfCases(0, 3);
    KindsOfCases(member, 3);
    assert Kind(VOID) == 0 && RefCount(VOID) == 0;
    hide Kind, RefCount, Ref, WfRec;
    assert RefsInRange(g[0], 5) && RefsInRange(g[1], 5) && RefsInRange(g[2], 5) && RefsInRange(g[3], 5)
      && RefsInRange(g[4], 5);
    hide RefsInRange;
    forall id | 0 <= id < |g|
      ensures (0 < id ==> WfRec(g[id])) && RefsInRange(g[id], |g|)
    {
      assert id == 0 || id == 1 || id == 2 || id == 3 || id == 4;
    }
  }

  /** A visit of the function type behind the pointer: void is ordered, and S is weak. */
  lemma BehindPointer(g: Graph, referenced: seq<bool>, w: Walked, member: u32)
    requires g == [VOID, TypedefOf(2), FuncOf(0, 3), StructOf(member), PtrTo(1)] && member < 5
    requires |w.s| == |referenced| == 5 && w.s[0] == Ordered && w.s[1] == w.s[2] == w.s[4] == NotOrdered
    requires w.s[3] != Ordered
    ensures MayWalk(g, referenced, CALLBACK_RANK, w)
    ensures var w' := Marked(w, 1, true);
            Walk(g, referenced, CALLBACK_RANK, w, 4, false) == (1, Marked(w', 4, false))
  {
    hide Walk, WalkRefs;
    CasesAreWf(g, member);
    KindsOfCases(1, 3);
    KindsOfCases(2, 3);
    KindsOfCases(0, 3);
    KindsOfCases(member, 3);
    hide WfGraph, CyclesThroughComposites;
    var r := CALLBACK_RANK;
    WalkFuncProto(g, referenced, r, w, 2, true);
    WalkRefsNext(g, referenced, r, w, 2, true, 0, false);
    WalkSeen(g, referenced, r, w, 0, true);
    WalkRefsNext(g, referenced, r, w, 2, true, 1, true);
    if w.s[3] == Ordering {
      WalkSeen(g, referenced, r, w, 3, true);
    } else {
      WalkComposite(g, referenced, r, w, 3, true);
    }
    WalkRefsEnd(g, referenced, r, w, 2, true, 2, true);
    assert Walk(g, referenced, r, w, 2, true) == (1, w);
    WalkInner(g, referenced, r, w, 1, true, true);
    WalkInner(g, referenced, r, w, 4, false, true);
  }

  /** The struct of the first graph: T is queued on the way, and then the struct. */
  lemma CallbackStruct(referenced: seq<bool>, w: Walked)
    requires |referenced| == |w.s| == 5 && w.s == AtFirst(5).s
    ensures MayWalk(CALLBACK, referenced, CALLBACK_RANK, w)
    ensures var (err, w') := Walk(CALLBACK, referenced, CALLBACK_RANK, w, 3, false);
            err == 1 && w'.queue == w.queue + [1, 3] && |w'.s| == 5
  {
    hide Walk, WalkRefs;
    var g, r := CALLBACK, CALLBACK_RANK;
    CasesAreWf(g, 4);
    KindsOfCases(4, 3);
    hide WfGraph, CyclesThroughComposites, Kind, RefCount, Ref, Named;
    WalkComposite(g, referenced, r, w, 3, false);
    var w1 := w.(s := w.s[3 := Ordering]);
    WalkRefsNext(g, referenced, r, w1, 3, false, 0, false);
    BehindPointer(g, referenced, w1, 4);
    WalkRefsEnd(g, referenced, r, Marked(Marked(w1, 1, true), 4, false), 3, false, 1, true);
  }

  /** A function type used directly: the return type is void, and the parameter is visited. */
  lemma DirectFunc(g: Graph, referenced: seq<bool>, w: Walked, member: u32)
    requires g == [VOID, TypedefOf(2), FuncOf(0, 3), StructOf(member), PtrTo(1)] && member < 5
    requires |w.s| == |referenced| == 5 && w.s[0] == Ordered && w.s[1] == w.s[2] == NotOrdered
    ensures MayWalk(g, referenced, CALLBACK_RANK, w)
    ensures var (err, w1) := Walk(g, referenced, CALLBACK_RANK, w, 3, false);
            Walk(g, referenced, CALLBACK_RANK, w, 1, false) == if err < 0 then (err, w1) else (1, Marked(w1, 1, true))
  {
    hide Walk, WalkRefs;
    var r := CALLBACK_RANK;
    CasesAreWf(g, member);
    KindsOfCases(2, 3);
    KindsOfCases(0, 3);
    hide WfGraph, CyclesThroughComposites;
    WalkInner(g, referenced, r, w, 1, false, false);
    WalkFuncProto(g, referenced, r, w, 2, false);
    WalkRefsNext(g, referenced, r, w, 2, false, 0, false);
    WalkSeen(g, referenced, r, w, 0, false);
    WalkRefsNext(g, referenced, r, w, 2, false, 1, true);
    var (err, w1) := Walk(g, referenced, r, w, 3, false);
    WalkRefsEnd(g, referenced, r, w1, 2, false, 2, true);
  }

  /** Dumping T queues it twice: once from inside S, through the pointer, and once afterwards. */
  lemma TypedefQueuedTwice(referenced: seq<bool>)
    requires |referenced| == 5
    ensures MayWalk(CALLBACK, referenced, CALLBACK_RANK, AtFirst(5))
    ensures var (err, w) := Walk(CALLBACK, referenced, CALLBACK_RANK, AtFirst(5), 1, false);
            err == 1 && w.queue == [1, 3, 1]
  {
    hide Walk, MayWalk;
    DirectFunc(CALLBACK, referenced, AtFirst(5), 4);
    CallbackStruct(referenced, AtFirst(5));
  }

  /** Dumping T and then the rest queues it twice at first, but once after the pointer to T. */
  lemma DoublingDependsOnHistory(referenced: seq<bool>)
    requires |referenced| == 5
    ensures MayWalk(CALLBACK, referenced, CALLBACK_RANK, AtFirst(5))
    ensures Walk(CALLBACK, referenced, CALLBACK_RANK, AtFirst(5), 1, false).1.queue == [1, 3, 1]
    ensures var w := Walk(CALLBACK, referenced, CALLBACK_RANK, AtFirst(5), 4, false).1;
            var w' := Walk(CALLBACK, referenced, CALLBACK_RANK, w, 1, false).1;
            w'.queue == [1] && w'.s[1] == Ordered
  {
    hide Walk, WalkRefs;
    CasesAreWf(CALLBACK, 4);
    hide WfGraph, CyclesThroughComposites, Kind, RefCount, Ref, Named;
    TypedefQueuedTwice(referenced);
    BehindPointer(CALLBACK, referenced, AtFirst(5), 4);
    WalkSeen(CALLBACK, referenced, CALLBACK_RANK, Marked(Marked(AtFirst(5), 1, true), 4, false), 1, false);
  }

  /** `typedef struct S T; struct S { T *next; };`: queued once each, although the traversal comes back to T. */
  const LIST: Graph := [VOID, TypedefOf(2), StructOf(3), PtrTo(1)]

  lemma ListQueuedOnce(referenced: seq<bool>)
    requires |referenced| == 4
    ensures MayWalk(LIST, referenced, [0, 1, 0, 2], AtFirst(4))
    ensures Walk(LIST, referenced, [0, 1, 0, 2], AtFirst(4), 1, false).1.queue == [2, 1]
  {
    hide Walk, WalkRefs;
    ListIsWf();
    ListStruct(referenced, AtFirst(4));
    KindsOfCases(2, 0);
    hide WfGraph, CyclesThroughComposites;
    WalkInner(LIST, referenced, [0, 1, 0, 2], AtFirst(4), 1, false, false);
  }

  lemma ListStruct(referenced: seq<bool>, w: Walked)
    requires |referenced| == |w.s| == 4 && w.s[1] == w.s[2] == w.s[3] == NotOrdered
    ensures MayWalk(LIST, referenced, [0, 1, 0, 2], w)
    ensures Walk(LIST, referenced, [0, 1, 0, 2], w, 2, false)
         == (1, Finished(Marked(w.(s := w.s[2 := Ordering]), 3, false), 2, true))
  {
    hide Walk, WalkRefs;
    var g, r := LIST, [0, 1, 0, 2];
    ListIsWf();
    KindsOfCases(3, 0);
    hide WfGraph, CyclesThroughComposites;
    WalkComposite(g, referenced, r, w, 2, false);
    var w0 := w.(s := w.s[2 := Ordering]);
    ListMember(referenced, w0);
    WalkRefsNext(g, referenced, r, w0, 2, false, 0, false);
    WalkRefsEnd(g, referenced, r, Marked(w0, 3, false), 2, false, 1, false);
  }

  /** The member of S, while S is being ordered: T, behind the pointer, is left out. */
  lemma ListMember(referenced: seq<bool>, w: Walked)
    requires |referenced| == |w.s| == 4 && w.s[1] == w.s[3] == NotOrdered && w.s[2] == Ordering
    ensures MayWalk(LIST, referenced, [0, 1, 0, 2], w)
    ensures Walk(LIST, referenced, [0, 1, 0, 2], w, 3, false) == (0, Marked(w, 3, false))
  {
    hide Walk, WalkRefs;
    var g, r := LIST, [0, 1, 0, 2];
    ListIsWf();
    KindsOfCases(1, 0);
    KindsOfCases(2, 0);
    KindsOfCases(3, 0);
    hide WfGraph, CyclesThroughComposites;
    WalkInner(g, referenced, r, w, 3, false, true);
    WalkInner(g, referenced, r, w, 1, true, true);
    WalkSeen(g, referenced, r, w, 2, true);
  }

  lemma ListIsWf()
    ensures WfGraph(LIST) && CyclesThroughComposites(LIST, [0, 1, 0, 2])
  {
    KindsOfCases(1, 0);
    KindsOfCases(2, 0);
    KindsOfCases(3, 0);
    assert Kind(VOID) == 0 && RefCount(VOID) == 0;
    hide Kind, RefCount, Ref, WfRec;
    assert RefsInRange(LIST[0], 4) && RefsInRange(LIST[1], 4) && RefsInRange(LIST[2], 4) && RefsInRange(LIST[3], 4);
    hide RefsInRange;
    forall id | 0 <= id < |LIST|
      ensures (0 < id ==> WfRec(LIST[id])) && RefsInRange(LIST[id], |LIST|)
    {
      assert id == 0 || id == 1 || id == 2 || id == 3;
    }
  }

  /** Whether dumping the struct reports its cycle depends on what was dumped before: at first it
      does, but not after the pointer to T. */
  lemma CycleReportDependsOnHistory(referenced: seq<bool>)
    requires |referenced| == 5
    ensures MayWalk(BY_VALUE, referenced, CALLBACK_RANK, AtFirst(5))
    ensures Walk(BY_VALUE, referenced, CALLBACK_RANK, AtFirst(5), 3, false).0 == ELOOP
    ensures var (err, w) := Walk(BY_VALUE, referenced, CALLBACK_RANK, AtFirst(5), 4, false);
            err == 1 && Walk(BY_VALUE, referenced, CALLBACK_RANK, w, 3, false).0 == 1
  {
    hide Walk, WalkRefs, MayWalk;
    BehindPointer(BY_VALUE, referenced, AtFirst(5), 1);
    ByValueStruct(referenced, AtFirst(5));
    ByValueStruct(referenced, Marked(Marked(AtFirst(5), 1, true), 4, false));
  }

  /** The struct of the second graph: a cycle if T is yet to be visited, none if it is ordered. */
  lemma ByValueStruct(referenced: seq<bool>, w: Walked)
    requires |referenced| == |w.s| == 5 && w.s[0] == Ordered && w.s[2] == w.s[3] == NotOrdered && w.s[1] != Ordering
    ensures MayWalk(BY_VALUE, referenced, CALLBACK_RANK, w)
    ensures Walk(BY_VALUE, referenced, CALLBACK_RANK, w, 3, false).0 == if w.s[1] == Ordered then 1 else ELOOP
  {
    hide Walk, WalkRefs;
    var g, r := BY_VALUE, CALLBACK_RANK;
    CasesAreWf(g, 1);
    KindsOfCases(1, 3);
    hide WfGraph, CyclesThroughComposites;
    WalkComposite(g, referenced, r, w, 3, false);
    var w1 := w.(s := w.s[3 := Ordering]);
    WalkRefsNext(g, referenced, r, w1, 3, false, 0, false);
    if w.s[1] == Ordered {
      WalkSeen(g, referenced, r, w1, 1, false);
      WalkRefsEnd(g, referenced, r, w1, 3, false, 1, true);
    } else {
      DirectFunc(g, referenced, w1, 1);
      WalkSeen(g, referenced, r, w1, 3, false);
    }
  }

  /** `typedef void T(struct S);` and a struct S with a member of type S: no cycle passes through
      the function type. */
  const SELF: Graph := [VOID, TypedefOf(2), FuncOf(0, 3), StructOf(3), PtrTo(1)]

  /** What dumping T reports depends on whether the pointer to T was dumped before, although the
      only cycle is in S. */
  lemma CycleReportDependsOnPointers(referenced: seq<bool>)
    requires |referenced| == 5
    ensures MayWalk(SELF, referenced, CALLBACK_RANK, AtFirst(5))
    ensures Walk(SELF, referenced, CALLBACK_RANK, AtFirst(5), 1, false).0 == ELOOP
    ensures var (err, w) := Walk(SELF, referenced, CALLBACK_RANK, AtFirst(5), 4, false);
            err == 1 && Walk(SELF, referenced, CALLBACK_RANK, w, 1, false).0 == 1
  {
    hide Walk, WalkRefs;
    var g, r, w := SELF, CALLBACK_RANK, AtFirst(5);
    BehindPointer(g, referenced, w, 3);
    DirectFunc(g, referenced, w, 3);
    CasesAreWf(g, 3);
    KindsOfCases(3, 3);
    hide WfGraph, CyclesThroughComposites;
    var w1 := w.(s := w.s[3 := Ordering]);
    WalkComposite(g, referenced, r, w, 3, false);
    WalkRefsNext(g, referenced, r, w1, 3, false, 0, false);
    WalkSeen(g, referenced, r, w1, 3, false);
    var w2 := Marked(Marked(w, 1, true), 4, false);
    WalkSeen(g, referenced, r, w2, 1, false);
  }

  /** `enum { ... } f(void);`: the anonymous enum is referred to, but only as a return type. */
  const RETURNED: Graph := [VOID, ANON_ENUM, FuncReturning(1)]

  /** It is not marked as referenced, and so queued as a definition of its own. */
  lemma ReturnTypeIsUnmarked()
    ensures WfGraph(RETURNED) && CyclesThroughComposites(RETURNED, [0, 0, 1])
    ensures Ref(RETURNED[2], 0) == 1 && forall id :: 0 <= id < 3 ==> !IsReferenced(RETURNED, 3, id)
    ensures Walk(RETURNED, NoneReferenced(3), [0, 0, 1], AtFirst(3), 2, false).1.queue == [1]
  {
    hide Walk, WalkRefs;
    var g, referenced, r, w := RETURNED, NoneReferenced(3), [0, 0, 1], AtFirst(3);
    KindsOfCases(1, 0);
    assert Kind(VOID) == 0 && RefCount(VOID) == 0;
    forall id | 0 <= id < |g|
      ensures (0 < id ==> WfRec(g[id])) && RefsInRange(g[id], |g|)
    {
    }
    WalkFuncProto(g, referenced, r, w, 2, false);
    WalkRefsNext(g, referenced, r, w, 2, false, 0, false);
    WalkEnum(g, referenced, r, w, 1, false);
    WalkRefsEnd(g, referenced, r, Marked(w, 1, true), 2, false, 1, true);
  }
}
