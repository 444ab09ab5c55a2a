/** The traversal of `btf_dump_order_type` as a function (btf_dump.c, lines 457-602): where it ends,
what it reaches, and when it reports a cycle. */
module DumpWalk {
  import opened BtfTypes
  import opened BtfGraph

  const EINVAL := -22
  const ELOOP := -40

  datatype OrderState = NotOrdered | Ordering | Ordered

  type Orders = seq<OrderState>

  predicate IsModifier(kind: nat) {
    kind in {KIND_VOLATILE, KIND_CONST, KIND_RESTRICT, KIND_TYPE_TAG}
  }

  predicate Named(r: Rec) { NameOff(r) != 0 }

  /** The references `btf_dump_mark_referenced` looks at: all but the type word of a forward
      declaration and the return type of a function. */
  predicate Marks(r: Rec, k: nat) {
    k < RefCount(r) && !IsFwd(r) && !(Kind(r) == KIND_FUNC_PROTO && k == 0)
  }

  /** `referenced`: the ids some type refers to, other than as a return type. */
  ghost predicate IsReferenced(g: Graph, upto: nat, id: nat) {
    exists i, k :: 0 < i < upto <= |g| && 0 <= k && Marks(g[i], k) && Ref(g[i], k) == id
  }

  // ---- states ----

  /** What one call of `btf_dump_order_type` may do to the states. */
  ghost predicate Progress(s: Orders, s': Orders) {
    && |s'| == |s|
    && forall id :: 0 <= id < |s| ==>
         (s[id] == Ordered ==> s'[id] == Ordered) && (s[id] == Ordering <==> s'[id] == Ordering)
  }

  lemma ProgressTrans(a: Orders, b: Orders, c: Orders)
    requires Progress(a, b) && Progress(b, c)
    ensures Progress(a, c)
  {
  }

  lemma ProgressMark(s: Orders, id: nat)
    requires id < |s| && s[id] != Ordering
    ensures Progress(s, s[id := Ordered])
  {
  }

  lemma ProgressLeave(s: Orders, s': Orders, id: nat)
    requires id < |s| && s[id] == NotOrdered && Progress(s[id := Ordering], s')
    ensures |s'| == |s| && s'[id] == Ordering && Progress(s, s'[id := Ordered])
  {
  }

  lemma ProgressRefl(s: Orders)
    ensures Progress(s, s)
  {
  }

  lemma ProgressShape(s: Orders, s': Orders, id: nat)
    requires Progress(s, s') && id < |s|
    ensures |s'| == |s| && (s[id] == Ordering <==> s'[id] == Ordering)
  {
  }

  // ---- termination ----

  /** The types the traversal goes on to, from id. */
  predicate Edge(r: Rec, throughPtr: bool, k: nat, through': bool) {
    var kind := Kind(r);
    if IsComposite(r) then !(throughPtr && Named(r)) && !through'
    else if kind == KIND_PTR then through'
    else if kind == KIND_ARRAY then k == 0 && !through'
    else (kind == KIND_TYPEDEF || IsModifier(kind) || kind == KIND_FUNC_PROTO) && through' == throughPtr
  }

  /** Every cycle of the graph passes through a struct or a union. */
  ghost predicate CyclesThroughComposites(g: Graph, rank: seq<nat>) {
    && |rank| == |g|
    && forall id, k, through, through' ::
         0 <= id < |g| && !IsComposite(g[id]) && 0 <= k < RefCount(g[id]) && Edge(g[id], through, k, through') ==>
           Ref(g[id], k) < |g| && rank[Ref(g[id], k)] < rank[id]
  }

  ghost function Untouched(g: Graph, s: Orders): set<nat>
    requires |s| == |g|
  {
    set id: nat | id < |g| && IsComposite(g[id]) && s[id] == NotOrdered
  }

  lemma SubsetSize(a: set<nat>, b: set<nat>)
    requires a <= b
    ensures |a| <= |b| && (a != b ==> |a| < |b|)
    decreases |a|
  {
    if x :| x in a {
      SubsetSize(a - {x}, b - {x});
      assert b == (b - {x}) + {x};
    } else {
      assert a == {};
    }
  }

  lemma ProgressUntouched(g: Graph, s: Orders, s': Orders)
    requires |s| == |g| && Progress(s, s')
    ensures |Untouched(g, s')| <= |Untouched(g, s)|
  {
    SubsetSize(Untouched(g, s'), Untouched(g, s));
  }

  lemma EnteringUntouched(g: Graph, s: Orders, id: nat)
    requires |s| == |g| && id < |g| && IsComposite(g[id]) && s[id] == NotOrdered
    ensures |Untouched(g, s[id := Ordering])| < |Untouched(g, s)|
    ensures Untouched(g, s[id := Ordering]) <= Untouched(g, s)
  {
    assert id in Untouched(g, s) && id !in Untouched(g, s[id := Ordering]);
    SubsetSize(Untouched(g, s[id := Ordering]), Untouched(g, s));
  }

  // ---- cycles ----

  datatype Visit = Visit(id: nat, throughPtr: bool)

  ghost predicate Follows(g: Graph, a: Visit, b: Visit) {
    a.id < |g| && exists k ::
      0 <= k < RefCount(g[a.id]) && Ref(g[a.id], k) == b.id && Edge(g[a.id], a.throughPtr, k, b.throughPtr)
  }

  ghost predicate IsPath(g: Graph, p: seq<Visit>) {
    forall i :: 0 <= i < |p| - 1 ==> Follows(g, p[i], p[i + 1])
  }

  /** A struct or union that has to be defined inside itself. */
  ghost predicate UnsatisfiableCycle(g: Graph, x: nat, p: seq<Visit>) {
    && |p| >= 2 && IsPath(g, p) && x < |g| && IsComposite(g[x])
    && p[0] == Visit(x, false) && p[|p| - 1].id == x && !(p[|p| - 1].throughPtr && Named(g[x]))
  }

  ghost predicate Leads(g: Graph, x: nat, v: Visit) {
    exists p :: |p| >= 2 && IsPath(g, p) && p[0] == Visit(x, false) && p[|p| - 1] == v
  }

  /** The types being ordered all lead to the one visited. */
  ghost predicate Trail(g: Graph, s: Orders, v: Visit) {
    forall x :: 0 <= x < |s| && s[x] == Ordering ==> Leads(g, x, v)
  }

  lemma LeadsOn(g: Graph, x: nat, v: Visit, w: Visit)
    requires Leads(g, x, v) && Follows(g, v, w)
    ensures Leads(g, x, w)
  {
    var p :| |p| >= 2 && IsPath(g, p) && p[0] == Visit(x, false) && p[|p| - 1] == v;
    var p' := p + [w];
    assert IsPath(g, p');
    assert p'[0] == Visit(x, false) && p'[|p'| - 1] == w;
  }

  lemma TrailOn(g: Graph, s: Orders, s': Orders, v: Visit, w: Visit)
    requires Trail(g, s, v) && Follows(g, v, w) && Progress(s, s')
    ensures Trail(g, s', w)
  {
    forall x | 0 <= x < |s'| && s'[x] == Ordering
      ensures Leads(g, x, w)
    {
      LeadsOn(g, x, v, w);
    }
  }

  lemma TrailInside(g: Graph, s: Orders, s': Orders, id: nat, throughPtr: bool, k: nat)
    requires Trail(g, s, Visit(id, throughPtr)) && id < |s| == |g| && IsComposite(g[id])
    requires !(throughPtr && Named(g[id]))
    requires k < RefCount(g[id]) && Progress(s[id := Ordering], s')
    ensures Trail(g, s', Visit(Ref(g[id], k), false))
  {
    var w := Visit(Ref(g[id], k), false);
    assert Edge(g[id], throughPtr, k, false) && Edge(g[id], false, k, false);
    assert Follows(g, Visit(id, throughPtr), w) && Follows(g, Visit(id, false), w);
    forall x | 0 <= x < |s'| && s'[x] == Ordering
      ensures Leads(g, x, w)
    {
      if x == id {
        var p := [Visit(id, false), w];
        assert IsPath(g, p) && p[|p| - 1] == w;
      } else {
        assert s[x] == Ordering;
        LeadsOn(g, x, Visit(id, throughPtr), w);
      }
    }
  }

  lemma BackOnTrail(g: Graph, s: Orders, id: nat, throughPtr: bool)
    requires Trail(g, s, Visit(id, throughPtr)) && id < |s| == |g| && s[id] == Ordering && IsComposite(g[id])
    requires !(throughPtr && Named(g[id]))
    ensures exists x, p :: UnsatisfiableCycle(g, x, p)
  {
    assert Leads(g, id, Visit(id, throughPtr));
    var p :| |p| >= 2 && IsPath(g, p) && p[0] == Visit(id, false) && p[|p| - 1] == Visit(id, throughPtr);
    assert UnsatisfiableCycle(g, id, p);
  }

  lemma NoTrail(g: Graph, s: Orders, v: Visit)
    requires forall id :: 0 <= id < |s| ==> s[id] != Ordering
    ensures Trail(g, s, v)
  {
  }

  lemma KnownKind(g: Graph, s: Orders, id: nat)
    requires WfGraph(g) && id < |g| == |s| && s[0] == Ordered && s[id] != Ordered
    ensures var kind := Kind(g[id]); 1 <= kind <= 19
  {
  }

  /** One step down from anything but a struct: the rank falls, and the trail goes on. */
  lemma Descend(g: Graph, rank: seq<nat>, s: Orders, s': Orders, id: nat, throughPtr: bool, k: nat, through': bool)
    requires WfGraph(g) && CyclesThroughComposites(g, rank) && id < |g| == |s| && !IsComposite(g[id])
    requires k < RefCount(g[id]) && Edge(g[id], throughPtr, k, through')
    requires Trail(g, s, Visit(id, throughPtr)) && Progress(s, s')
    ensures Ref(g[id], k) < |g| == |rank| && rank[Ref(g[id], k)] < rank[id]
    ensures Trail(g, s', Visit(Ref(g[id], k), through'))
    ensures |Untouched(g, s')| <= |Untouched(g, s)|
  {
    hide WfGraph, Edge;
    RefInGraph(g, id, k);
    assert Follows(g, Visit(id, throughPtr), Visit(Ref(g[id], k), through'));
    TrailOn(g, s, s', Visit(id, throughPtr), Visit(Ref(g[id], k), through'));
    ProgressUntouched(g, s, s');
  }


  // ---- the traversal as a function ----

  /** The order states, all that has been queued, and the structs in the order they were finished. */
  datatype Walked = Walked(s: Orders, queue: seq<u32>, finished: seq<nat>)

  /** Above every rank. */
  ghost function Top(rank: seq<nat>): (t: nat)
    ensures forall i :: 0 <= i < |rank| ==> rank[i] < t
  {
    if rank == [] then 0
    else
      var t := Top(rank[..|rank| - 1]);
      assert forall i :: 0 <= i < |rank| - 1 ==> rank[i] == rank[..|rank| - 1][i];
      if rank[|rank| - 1] < t then t else rank[|rank| - 1] + 1
  }

  ghost predicate MayWalk(g: Graph, referenced: seq<bool>, rank: seq<nat>, w: Walked) {
    WfGraph(g) && CyclesThroughComposites(g, rank) && |w.s| == |referenced| == |g|
  }

  function Marked(w: Walked, id: u32, queued: bool): Walked
    requires id < |w.s|
  {
    Walked(w.s[id := Ordered], if queued then w.queue + [id] else w.queue, w.finished)
  }

  function Finished(w: Walked, id: u32, queued: bool): Walked
    requires id < |w.s|
  {
    Marked(w, id, queued).(finished := w.finished + [id])
  }

  predicate IsPlain(kind: nat) {
    kind in {KIND_INT, KIND_FLOAT, KIND_FUNC, KIND_VAR, KIND_DATASEC, KIND_DECL_TAG}
  }

  /** What a visit of one type does. */
  ghost function Walk(g: Graph, referenced: seq<bool>, rank: seq<nat>, w: Walked, id: u32,
                      throughPtr: bool): (r: (int, Walked))
    requires MayWalk(g, referenced, rank, w) && id < |g|
    ensures |r.1.s| == |g| && Untouched(g, r.1.s) <= Untouched(g, w.s)
    decreases |Untouched(g, w.s)|, rank[id], 1, 0
  {
    var r, kind := g[id], Kind(g[id]);
    if w.s[id] == Ordered then (1, w)
    else if w.s[id] == Ordering then (if IsComposite(r) && throughPtr && Named(r) then 0 else ELOOP, w)
    else if IsPlain(kind) then (0, Marked(w, id, false))
    else if kind == KIND_PTR then
      var (err, w1) := Inner(g, referenced, rank, w, id, throughPtr, true);
      (err, Marked(w1, id, false))
    else if kind == KIND_ARRAY then Inner(g, referenced, rank, w, id, throughPtr, false)
    else if IsComposite(r) then
      if throughPtr && Named(r) then (0, w)
      else
        var w0 := w.(s := w.s[id := Ordering]);
        EnteringUntouched(g, w.s, id);
        var (err, w1) := WalkRefs(g, referenced, rank, w0, id, false, 0, false);
        if err < 0 then (err, w1) else (1, Finished(w1, id, Named(r)))
    else if IsAnyEnum(r) || IsFwd(r) then (1, Marked(w, id, Named(r) || !referenced[id]))
    else if kind == KIND_TYPEDEF then
      var (err, w1) := Inner(g, referenced, rank, w, id, throughPtr, throughPtr);
      if err < 0 then (err, w1) else if throughPtr && err == 0 then (0, w1) else (1, Marked(w1, id, true))
    else if IsModifier(kind) then Inner(g, referenced, rank, w, id, throughPtr, throughPtr)
    else if kind == KIND_FUNC_PROTO then WalkRefs(g, referenced, rank, w, id, throughPtr, 0, false)
    else (EINVAL, w)
  }

  /** The visit of the one type that id goes on to. */
  ghost function Inner(g: Graph, referenced: seq<bool>, rank: seq<nat>, w: Walked, id: u32, throughPtr: bool,
                       through': bool)
    : (r: (int, Walked))
    requires MayWalk(g, referenced, rank, w) && id < |g|
    requires !IsComposite(g[id]) && RefCount(g[id]) > 0 && Edge(g[id], throughPtr, 0, through')
    ensures |r.1.s| == |g| && Untouched(g, r.1.s) <= Untouched(g, w.s)
    decreases |Untouched(g, w.s)|, rank[id], 0, 0
  {
    RefInGraph(g, id, 0);
    assert rank[Ref(g[id], 0)] < rank[id];
    Walk(g, referenced, rank, w, Ref(g[id], 0), through')
  }

  ghost function Level(g: Graph, rank: seq<nat>, id: nat): nat
    requires id < |g| == |rank|
  {
    if IsComposite(g[id]) then Top(rank) else rank[id]
  }

  /** The visits of the references of id from the i-th on; strong tells whether one was so far. */
  ghost function WalkRefs(g: Graph, referenced: seq<bool>, rank: seq<nat>, w: Walked, id: u32, throughPtr: bool,
                          i: nat, strong: bool): (r: (int, Walked))
    requires MayWalk(g, referenced, rank, w) && id < |g|
    requires Kind(g[id]) == KIND_FUNC_PROTO || (IsComposite(g[id]) && !throughPtr)
    ensures |r.1.s| == |g| && Untouched(g, r.1.s) <= Untouched(g, w.s)
    decreases |Untouched(g, w.s)|, Level(g, rank, id), 0, if i <= RefCount(g[id]) then RefCount(g[id]) - i else 0
  {
    if i >= RefCount(g[id]) then (if strong then 1 else 0, w)
    else
      RefInGraph(g, id, i);
      assert !IsComposite(g[id]) ==> Edge(g[id], throughPtr, i, throughPtr);
      var (err, w1) := Walk(g, referenced, rank, w, Ref(g[id], i), throughPtr);
      SubsetSize(Untouched(g, w1.s), Untouched(g, w.s));
      if err < 0 then (err, w1) else WalkRefs(g, referenced, rank, w1, id, throughPtr, i + 1, strong || err > 0)
  }

  // ---- its cases ----

  lemma WalkSeen(g: Graph, referenced: seq<bool>, rank: seq<nat>, w: Walked, id: u32, throughPtr: bool)
    requires MayWalk(g, referenced, rank, w) && id < |g| && w.s[id] != NotOrdered
    ensures Walk(g, referenced, rank, w, id, throughPtr)
            == if w.s[id] == Ordered || (IsComposite(g[id]) && throughPtr && Named(g[id]))
              then (if w.s[id] == Ordered then 1 else 0, w)
               else (ELOOP, w)
  {
  }

  lemma WalkPlain(g: Graph, referenced: seq<bool>, rank: seq<nat>, w: Walked, id: u32, throughPtr: bool)
    requires MayWalk(g, referenced, rank, w) && id < |g| && w.s[id] == NotOrdered && IsPlain(Kind(g[id]))
    ensures Walk(g, referenced, rank, w, id, throughPtr) == (0, Marked(w, id, false))
  {
  }

  /** Pointers, arrays, typedefs and modifiers go on to one type. */
  predicate GoesOn(r: Rec, throughPtr: bool, through': bool) {
    !IsComposite(r) && Kind(r) != KIND_FUNC_PROTO && RefCount(r) > 0 && Edge(r, throughPtr, 0, through')
  }

  lemma WalkInner(g: Graph, referenced: seq<bool>, rank: seq<nat>, w: Walked, id: u32, throughPtr: bool, through': bool)
    requires MayWalk(g, referenced, rank, w) && id < |g| && w.s[id] == NotOrdered && GoesOn(g[id], throughPtr, through')
    ensures Ref(g[id], 0) < |g|
    ensures var (err, w1), kind := Walk(g, referenced, rank, w, Ref(g[id], 0), through'), Kind(g[id]);
            Walk(g, referenced, rank, w, id, throughPtr)
            == if kind == KIND_PTR then (err, Marked(w1, id, false))
               else if kind != KIND_TYPEDEF || err < 0 then (err, w1)
               else if throughPtr && err == 0 then (0, w1) else (1, Marked(w1, id, true))
  {
    RefInGraph(g, id, 0);
  }

  lemma WalkComposite(g: Graph, referenced: seq<bool>, rank: seq<nat>, w: Walked, id: u32, throughPtr: bool)
    requires MayWalk(g, referenced, rank, w) && id < |g| && w.s[id] == NotOrdered && IsComposite(g[id])
    ensures Walk(g, referenced, rank, w, id, throughPtr)
            == if throughPtr && Named(g[id]) then (0, w)
               else
                 var (err, w1) := WalkRefs(g, referenced, rank, w.(s := w.s[id := Ordering]), id, false, 0, false);
                 if err < 0 then (err, w1) else (1, Finished(w1, id, Named(g[id])))
  {
  }

  lemma WalkEnum(g: Graph, referenced: seq<bool>, rank: seq<nat>, w: Walked, id: u32, throughPtr: bool)
    requires MayWalk(g, referenced, rank, w) && id < |g| && w.s[id] == NotOrdered && (IsAnyEnum(g[id]) || IsFwd(g[id]))
    ensures Walk(g, referenced, rank, w, id, throughPtr) == (1, Marked(w, id, Named(g[id]) || !referenced[id]))
  {
  }

  lemma WalkFuncProto(g: Graph, referenced: seq<bool>, rank: seq<nat>, w: Walked, id: u32, throughPtr: bool)
    requires MayWalk(g, referenced, rank, w) && id < |g| && w.s[id] == NotOrdered && Kind(g[id]) == KIND_FUNC_PROTO
    ensures Walk(g, referenced, rank, w, id, throughPtr) == WalkRefs(g, referenced, rank, w, id, throughPtr, 0, false)
  {
  }

  lemma WalkRefsEnd(g: Graph, referenced: seq<bool>, rank: seq<nat>, w: Walked, id: u32, throughPtr: bool, i: nat,
                    strong: bool)
    requires MayWalk(g, referenced, rank, w) && id < |g| && i >= RefCount(g[id])
    requires Kind(g[id]) == KIND_FUNC_PROTO || (IsComposite(g[id]) && !throughPtr)
    ensures WalkRefs(g, referenced, rank, w, id, throughPtr, i, strong) == (if strong then 1 else 0, w)
  {
  }

  lemma WalkRefsNext(g: Graph, referenced: seq<bool>, rank: seq<nat>, w: Walked, id: u32, throughPtr: bool, i: nat,
                     strong: bool)
    requires MayWalk(g, referenced, rank, w) && id < |g| && i < RefCount(g[id])
    requires Kind(g[id]) == KIND_FUNC_PROTO || (IsComposite(g[id]) && !throughPtr)
    ensures Ref(g[id], i) < |g|
    ensures var (err, w1) := Walk(g, referenced, rank, w, Ref(g[id], i), throughPtr);
            WalkRefs(g, referenced, rank, w, id, throughPtr, i, strong)
            == if err < 0 then (err, w1)
              else WalkRefs(g, referenced, rank, w1, id, throughPtr, i + 1, strong || err > 0)
  {
    RefInGraph(g, id, i);
  }
}
