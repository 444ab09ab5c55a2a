/** The queue that joins two sequence matchers (src/matcher.cpp, lines 105-138), and its wiring
(src/lensx.cpp, lines 283-317). */
module Fifos {
  import opened Matchers
  import opened Words

  const INT_MAX := 0x7fff_ffff

  // ---- a queue that drops its oldest element when full ----

  /** What a completion does to the queue: one side pushes its timestamp, the other pops and
      records the pair. */
  datatype Op = Push(ts: u64) | Pop(ts: u64)

  datatype Pair = Pair(pushTs: u64, popTs: u64)

  datatype Queue = Queue(contents: seq<u64>, pairs: seq<Pair>)

  function Enqueue(capacity: nat, q: seq<u64>, ts: u64): seq<u64>
    requires capacity > 0
  {
    (if |q| < capacity then q else q[1..]) + [ts]
  }

  function Do(capacity: nat, q: Queue, op: Op): Queue
    requires capacity > 0
  {
    match op
    case Push(ts) => q.(contents := Enqueue(capacity, q.contents, ts))
    case Pop(ts) =>
      if q.contents == [] then q else Queue(q.contents[1..], q.pairs + [Pair(q.contents[0], ts)])
  }

  function DoAll(capacity: nat, ops: seq<Op>): (q: Queue)
    requires capacity > 0
    ensures |q.contents| <= capacity
  {
    if ops == [] then Queue([], [])
    else Do(capacity, DoAll(capacity, ops[..|ops| - 1]), ops[|ops| - 1])
  }

  function Pushed(ops: seq<Op>): seq<u64> {
    if ops == [] then []
    else Pushed(ops[..|ops| - 1]) + if ops[|ops| - 1].Push? then [ops[|ops| - 1].ts] else []
  }

  // ---- which pops find something, said by counting ----

  function Popped(ops: seq<Op>): seq<u64> {
    if ops == [] then []
    else Popped(ops[..|ops| - 1]) + if ops[|ops| - 1].Pop? then [ops[|ops| - 1].ts] else []
  }

  /** How many timestamps wait after these operations. */
  function Waiting(capacity: nat, ops: seq<Op>): (n: nat)
    requires capacity > 0
    ensures n <= capacity
  {
    if ops == [] then 0
    else
      var n := Waiting(capacity, ops[..|ops| - 1]);
      if ops[|ops| - 1].Push? then (if n < capacity then n + 1 else n) else if n > 0 then n - 1 else 0
  }

  /** The numbers of the pops that find something waiting. */
  function Served(capacity: nat, ops: seq<Op>): seq<nat>
    requires capacity > 0
  {
    if ops == [] then []
    else
      var before := ops[..|ops| - 1];
      Served(capacity, before)
      + if ops[|ops| - 1].Pop? && Waiting(capacity, before) > 0 then [|Popped(before)|] else []
  }

  ghost predicate Increasing(s: seq<nat>, bound: nat) {
    && (forall i :: 0 <= i < |s| ==> s[i] < bound)
    && (forall i, j :: 0 <= i < j < |s| ==> s[i] < s[j])
  }

  /** The pairs end, in order, at the pops that find something waiting, and at no others. */
  lemma {:induction false} PairsEndAtServedPops(capacity: nat, ops: seq<Op>)
    requires capacity > 0
    ensures var q, served, popped := DoAll(capacity, ops), Served(capacity, ops), Popped(ops);
            && |q.contents| == Waiting(capacity, ops) && |q.pairs| == |served| && Increasing(served, |popped|)
            && forall i :: 0 <= i < |served| ==> q.pairs[i].popTs == popped[served[i]]
    decreases |ops|
  {
    if ops != [] {
      PairsEndAtServedPops(capacity, ops[..|ops| - 1]);
    }
  }

  /** A pop that finds something waiting makes a pair with the oldest push that is. */
  lemma PairOfPop(capacity: nat, ops: seq<Op>, i: nat)
    requires capacity > 0 && i < |ops| && ops[i].Pop? && Waiting(capacity, ops[..i]) > 0
    ensures var waiting, pushed := Waiting(capacity, ops[..i]), Pushed(ops[..i]);
            && waiting <= |pushed| && |Served(capacity, ops[..i])| < |DoAll(capacity, ops).pairs|
            && DoAll(capacity, ops).pairs[|Served(capacity, ops[..i])|] == Pair(pushed[|pushed| - waiting], ops[i].ts)
  {
    PairsEndAtServedPops(capacity, ops[..i]);
    HoldsLatestPushes(capacity, ops[..i]);
    assert ops[..i + 1][..i] == ops[..i] && ops[..i + 1][i] == ops[i];
    PairsStay(capacity, ops, i + 1);
  }

  lemma {:induction false} PairsStay(capacity: nat, ops: seq<Op>, i: nat)
    requires capacity > 0 && i <= |ops|
    ensures DoAll(capacity, ops[..i]).pairs <= DoAll(capacity, ops).pairs
    decreases |ops|
  {
    if i == |ops| {
      assert ops[..i] == ops;
    } else {
      assert ops[..|ops| - 1][..i] == ops[..i];
      PairsStay(capacity, ops[..|ops| - 1], i);
    }
  }

  /** Some push finds the queue full. */
  ghost predicate Overflows(capacity: nat, ops: seq<Op>)
    requires capacity > 0
  {
    exists i :: 0 <= i < |ops| && ops[i].Push? && |DoAll(capacity, ops[..i]).contents| == capacity
  }

  lemma OverflowsSnoc(capacity: nat, ops: seq<Op>, op: Op)
    requires capacity > 0
    ensures Overflows(capacity, ops + [op])
            <==> Overflows(capacity, ops) || (op.Push? && |DoAll(capacity, ops).contents| == capacity)
  {
    var all := ops + [op];
    assert all[..|ops|] == ops;
    forall i | 0 <= i < |ops|
      ensures all[..i] == ops[..i] && all[i] == ops[i]
    {
    }
    if Overflows(capacity, ops) {
      var i :| 0 <= i < |ops| && ops[i].Push? && |DoAll(capacity, ops[..i]).contents| == capacity;
      assert all[i].Push?;
    } else if op.Push? && |DoAll(capacity, ops).contents| == capacity {
      assert all[|ops|].Push?;
    }
  }

  /** The queue always holds the latest pushes, in order. */
  lemma {:induction false} HoldsLatestPushes(capacity: nat, ops: seq<Op>)
    requires capacity > 0
    ensures var q, pushed := DoAll(capacity, ops), Pushed(ops);
            |q.contents| + |q.pairs| <= |pushed| && q.contents == pushed[|pushed| - |q.contents|..]
    decreases |ops|
  {
    if ops != [] {
      HoldsLatestPushes(capacity, ops[..|ops| - 1]);
    }
  }

  lemma {:induction false} StartsInOrder(capacity: nat, ops: seq<Op>)
    requires capacity > 0
    ensures var q, pushed := DoAll(capacity, ops), Pushed(ops);
            && |q.contents| + |q.pairs| <= |pushed|
            && (!Overflows(capacity, ops) <==> |q.contents| + |q.pairs| == |pushed|)
            && (!Overflows(capacity, ops) ==>
                  && q.contents == pushed[|q.pairs|..]
                  && forall i :: 0 <= i < |q.pairs| ==> q.pairs[i].pushTs == pushed[i])
    decreases |ops|
  {
    if ops != [] {
      var before, op := ops[..|ops| - 1], ops[|ops| - 1];
      StartsInOrder(capacity, before);
      assert before + [op] == ops;
      OverflowsSnoc(capacity, before, op);
    }
  }

  /** Nothing is lost exactly when no push finds the queue full, and then the i-th pop that finds
      something pairs with the i-th push. */
  lemma PairsInOrder(capacity: nat, ops: seq<Op>)
    requires capacity > 0
    ensures var q, pushed, served := DoAll(capacity, ops), Pushed(ops), Served(capacity, ops);
            && |q.contents| + |q.pairs| <= |pushed|
            && (!Overflows(capacity, ops) <==> |q.contents| + |q.pairs| == |pushed|)
            && |q.pairs| == |served| && Increasing(served, |Popped(ops)|)
            && (!Overflows(capacity, ops) ==>
                  && q.contents == pushed[|q.pairs|..]
                  && forall i :: 0 <= i < |q.pairs| ==> q.pairs[i] == Pair(pushed[i], Popped(ops)[served[i]]))
  {
    hide DoAll, Pushed, Popped, Served, Overflows, Waiting;
    StartsInOrder(capacity, ops);
    PairsEndAtServedPops(capacity, ops);
  }

  // ---- FifoQueue ----

  /** What lies between the two counters. */
  ghost function Live(queue: seq<u64>, head: nat, tail: nat): seq<u64>
    requires queue != [] && head <= tail
  {
    seq(tail - head, i requires 0 <= i < tail - head => queue[(head + i) % |queue|])
  }

  lemma LivePush(queue: seq<u64>, head: nat, tail: nat, ts: u64)
    requires queue != [] && head <= tail <= head + |queue|
    ensures var head' := if tail + 1 - head > |queue| then tail + 1 - |queue| else head;
            Live(queue[tail % |queue| := ts], head', tail + 1) == Enqueue(|queue|, Live(queue, head, tail), ts)
  {
    var head' := if tail + 1 - head > |queue| then tail + 1 - |queue| else head;
    var queue' := queue[tail % |queue| := ts];
    var live, want := Live(queue', head', tail + 1), Enqueue(|queue|, Live(queue, head, tail), ts);
    assert |live| == |want|;
    forall i | 0 <= i < |live|
      ensures live[i] == want[i]
    {
      if head' + i < tail {
        DistinctResidues(|queue|, head' + i, tail);
      }
    }
  }

  lemma LivePop(queue: seq<u64>, head: nat, tail: nat)
    requires queue != [] && head < tail
    ensures Live(queue, head, tail)[0] == queue[head % |queue|]
    ensures Live(queue, head, tail)[1..] == Live(queue, head + 1, tail)
  {
    var live := Live(queue, head, tail);
    forall i | 0 <= i < tail - head - 1
      ensures live[1..][i] == Live(queue, head + 1, tail)[i]
    {
      assert head + (i + 1) == head + 1 + i;
    }
  }

  class FifoQueue {
    const capacity: nat
    var head: nat
    var tail: nat
    const queue: array<u64>

    ghost predicate Valid()
      reads this
    {
      0 < capacity == queue.Length && head <= tail <= head + capacity && tail <= INT_MAX
    }

    ghost function Contents(): seq<u64>
      requires Valid()
      reads this, queue
    {
      Live(queue[..], head, tail)
    }

    constructor (capacity: nat)
      requires capacity > 0
      ensures Valid() && Contents() == [] && this.capacity == capacity && tail == 0 && fresh(queue)
    {
      this.capacity, head, tail := capacity, 0, 0;
      queue := new u64[capacity](_ => 0);
    }

    /** `FifoQueue::push`: the counters are of type `int`. */
    method Push(ts: u64)
      requires Valid() && tail < INT_MAX
      modifies this`head, this`tail, queue
      ensures Valid() && tail == old(tail) + 1
      ensures Contents() == Enqueue(capacity, old(Contents()), ts)
    {
      ghost var was := queue[..];
      LivePush(was, head, tail, ts);
      var slot := tail % capacity;
      tail := tail + 1;
      if tail - head > capacity {
        head := tail - capacity;
      }
      queue[slot] := ts;
      assert queue[..] == was[slot := ts];
    }

    /** `FifoQueue::pop`. */
    method Pop() returns (ok: bool, ts: u64)
      requires Valid()
      modifies this`head
      ensures Valid() && (ok <==> old(Contents()) != [])
      ensures ok ==> ts == old(Contents())[0] && Contents() == old(Contents())[1..]
      ensures !ok ==> Contents() == old(Contents())
    {
      if head >= tail { return false, 0; }
      LivePop(queue[..], head, tail);
      var slot := head % capacity;
      head := head + 1;
      ts := queue[slot];
      ok := true;
    }
  }

  // ---- two sequence matchers joined by a queue ----

  /** A report from a stage of one matcher to a stage of another; pushFirst tells which of the
      two comes first in the list of matchers. */
  datatype Wiring = Wiring(pushStages: seq<Stage>, popStages: seq<Stage>, pushStage: Stage, popStage: Stage,
                           pushFirst: bool)

  predicate WfWiring(w: Wiring) { w.pushStage in w.pushStages && w.popStage in w.popStages }

  /** What the completion callbacks of one side do. */
  function PushOps(w: Wiring, snaps: seq<StageSnapshot>): seq<Op>
    requires forall i :: 0 <= i < |snaps| ==> w.pushStage in snaps[i].ts
  {
    seq(|snaps|, i requires 0 <= i < |snaps| => Push(snaps[i].ts[w.pushStage]))
  }

  function PopOps(w: Wiring, snaps: seq<StageSnapshot>): seq<Op>
    requires forall i :: 0 <= i < |snaps| ==> w.popStage in snaps[i].ts
  {
    seq(|snaps|, i requires 0 <= i < |snaps| => Pop(snaps[i].ts[w.popStage]))
  }

  lemma OutputHasStages(stages: seq<Stage>, events: seq<RawEvent>, e: RawEvent, s: Stage)
    requires s in stages
    ensures |Output(stages, events, e)| <= 1
    ensures forall i :: 0 <= i < |Output(stages, events, e)| ==> s in Output(stages, events, e)[i].ts
  {
    hide Completes;
    assert s in StagesOf(stages);
  }

  function EventOps(w: Wiring, events: seq<RawEvent>, e: RawEvent): seq<Op>
    requires WfWiring(w)
  {
    OutputHasStages(w.pushStages, events, e, w.pushStage);
    OutputHasStages(w.popStages, events, e, w.popStage);
    var pushes, pops := PushOps(w, Output(w.pushStages, events, e)), PopOps(w, Output(w.popStages, events, e));
    if w.pushFirst then pushes + pops else pops + pushes
  }

  /** All that the two matchers do to the queue over a stream of events. */
  function OpsOf(w: Wiring, events: seq<RawEvent>): seq<Op>
    requires WfWiring(w)
  {
    if events == [] then []
    else OpsOf(w, events[..|events| - 1]) + EventOps(w, events[..|events| - 1], events[|events| - 1])
  }

  lemma OpsSnoc(w: Wiring, events: seq<RawEvent>, e: RawEvent)
    requires WfWiring(w)
    ensures OpsOf(w, events + [e]) == OpsOf(w, events) + EventOps(w, events, e)
  {
    assert (events + [e])[..|events|] == events;
  }

  lemma DoOne(capacity: nat, ops: seq<Op>, more: seq<Op>)
    requires capacity > 0 && |more| <= 1
    ensures DoAll(capacity, ops + more) == if more == [] then DoAll(capacity, ops)
              else Do(capacity, DoAll(capacity, ops), more[0])
    ensures Pushed(ops + more) == Pushed(ops) + if more != [] && more[0].Push? then [more[0].ts] else []
    ensures Popped(ops + more) == Popped(ops) + if more != [] && more[0].Pop? then [more[0].ts] else []
  {
    if more == [] {
      assert ops + more == ops;
    } else {
      assert (ops + more)[..|ops|] == ops;
    }
  }

  lemma {:induction false} OutputsHaveStages(stages: seq<Stage>, events: seq<RawEvent>, s: Stage)
    requires s in stages
    ensures forall i :: 0 <= i < |Outputs(stages, events)| ==> s in Outputs(stages, events)[i].ts
    decreases |events|
  {
    hide Output;
    if events != [] {
      OutputsHaveStages(stages, events[..|events| - 1], s);
      OutputHasStages(stages, events[..|events| - 1], events[|events| - 1], s);
    }
  }

  /** The pushes are the completions of the pushing side, in order. */
  lemma {:induction false} PushesAreCompletions(w: Wiring, events: seq<RawEvent>)
    requires WfWiring(w)
    ensures var snaps := Outputs(w.pushStages, events);
            && |Pushed(OpsOf(w, events))| == |snaps|
            && forall i :: 0 <= i < |snaps| ==>
                 w.pushStage in snaps[i].ts && Pushed(OpsOf(w, events))[i] == snaps[i].ts[w.pushStage]
    decreases |events|
  {
    hide Output, EventOps, Pushed;
    OutputsHaveStages(w.pushStages, events, w.pushStage);
    if events == [] {
      NothingPushed();
    } else {
      var before, e := events[..|events| - 1], events[|events| - 1];
      PushesAreCompletions(w, before);
      EventPushes(w, OpsOf(w, before), before, e);
    }
  }

  lemma NothingPushed()
    ensures Pushed([]) == []
  {
  }

  /** Of what one event does, the pushes are the completions of the pushing side. */
  lemma EventPushes(w: Wiring, ops: seq<Op>, before: seq<RawEvent>, e: RawEvent)
    requires WfWiring(w)
    ensures var fired, pushed := Output(w.pushStages, before, e), Pushed(ops + EventOps(w, before, e));
            && |fired| <= 1 && |pushed| == |Pushed(ops)| + |fired| && Pushed(ops) <= pushed
            && (fired != [] ==> w.pushStage in fired[0].ts && pushed[|Pushed(ops)|] == fired[0].ts[w.pushStage])
  {
    hide Output, Pushed, Popped, Completes, DoAll, Do, OpsOf;
    OutputHasStages(w.pushStages, before, e, w.pushStage);
    OutputHasStages(w.popStages, before, e, w.popStage);
    var pushes, pops := PushOps(w, Output(w.pushStages, before, e)), PopOps(w, Output(w.popStages, before, e));
    if w.pushFirst {
      DoOne(1, ops, pushes);
      DoOne(1, ops + pushes, pops);
      assert ops + EventOps(w, before, e) == ops + pushes + pops;
    } else {
      DoOne(1, ops, pops);
      DoOne(1, ops + pops, pushes);
      assert ops + EventOps(w, before, e) == ops + pops + pushes;
    }
  }

  /** While nothing overflows, the i-th recorded pair starts at the i-th completion of the pushing side. */
  lemma PairsStartAtCompletions(w: Wiring, events: seq<RawEvent>, capacity: nat)
    requires WfWiring(w) && capacity > 0 && !Overflows(capacity, OpsOf(w, events))
    ensures var pairs, snaps := DoAll(capacity, OpsOf(w, events)).pairs, Outputs(w.pushStages, events);
            && |pairs| <= |snaps|
            && forall i :: 0 <= i < |pairs| ==>
                 w.pushStage in snaps[i].ts && pairs[i].pushTs == snaps[i].ts[w.pushStage]
  {
    StartsInOrder(capacity, OpsOf(w, events));
    PushesAreCompletions(w, events);
  }

  /** The pops are the completions of the popping side, in order. */
  lemma {:induction false} PopsAreCompletions(w: Wiring, events: seq<RawEvent>)
    requires WfWiring(w)
    ensures var snaps := Outputs(w.popStages, events);
            && |Popped(OpsOf(w, events))| == |snaps|
            && forall i :: 0 <= i < |snaps| ==>
                 w.popStage in snaps[i].ts && Popped(OpsOf(w, events))[i] == snaps[i].ts[w.popStage]
    decreases |events|
  {
    hide Output, EventOps, Popped;
    OutputsHaveStages(w.popStages, events, w.popStage);
    if events == [] {
      NothingPopped();
    } else {
      var before, e := events[..|events| - 1], events[|events| - 1];
      PopsAreCompletions(w, before);
      EventPops(w, OpsOf(w, before), before, e);
    }
  }

  lemma NothingPopped()
    ensures Popped([]) == []
  {
  }

  /** Of what one event does, the pops are the completions of the popping side. */
  lemma EventPops(w: Wiring, ops: seq<Op>, before: seq<RawEvent>, e: RawEvent)
    requires WfWiring(w)
    ensures var fired, popped := Output(w.popStages, before, e), Popped(ops + EventOps(w, before, e));
            && |fired| <= 1 && |popped| == |Popped(ops)| + |fired| && Popped(ops) <= popped
            && (fired != [] ==> w.popStage in fired[0].ts && popped[|Popped(ops)|] == fired[0].ts[w.popStage])
  {
    hide Output, Popped, Pushed, Completes, DoAll, Do, OpsOf;
    OutputHasStages(w.pushStages, before, e, w.pushStage);
    OutputHasStages(w.popStages, before, e, w.popStage);
    var pushes, pops := PushOps(w, Output(w.pushStages, before, e)), PopOps(w, Output(w.popStages, before, e));
    if w.pushFirst {
      DoOne(1, ops, pushes);
      DoOne(1, ops + pushes, pops);
      assert ops + EventOps(w, before, e) == ops + pushes + pops;
    } else {
      DoOne(1, ops, pops);
      DoOne(1, ops + pops, pushes);
      assert ops + EventOps(w, before, e) == ops + pops + pushes;
    }
  }

  /** What the recorded pairs are, said about the streams of completions: they end, in order, at the
      completions of the popping side that find the queue non-empty, and while nothing overflows
      they start, in order, at those of the pushing side. */
  ghost predicate PairsCompletions(w: Wiring, events: seq<RawEvent>, capacity: nat, pairs: seq<Pair>)
    requires WfWiring(w) && capacity > 0
  {
    var ops, starts, ends := OpsOf(w, events), Outputs(w.pushStages, events), Outputs(w.popStages, events);
    var served := Served(capacity, ops);
    && |pairs| == |served| && Increasing(served, |ends|)
    && (forall i :: 0 <= i < |pairs| ==>
          w.popStage in ends[served[i]].ts && pairs[i].popTs == ends[served[i]].ts[w.popStage])
    && (!Overflows(capacity, ops) ==> |pairs| <= |starts| && forall i :: 0 <= i < |pairs| ==>
          w.pushStage in starts[i].ts && pairs[i].pushTs == starts[i].ts[w.pushStage])
  }

  lemma PairsJoinCompletions(w: Wiring, events: seq<RawEvent>, capacity: nat)
    requires WfWiring(w) && capacity > 0
    ensures PairsCompletions(w, events, capacity, DoAll(capacity, OpsOf(w, events)).pairs)
  {
    hide DoAll, OpsOf, Outputs, Served, Popped, Pushed, Waiting, Overflows;
    PairsEndAtServedPops(capacity, OpsOf(w, events));
    PopsAreCompletions(w, events);
    if !Overflows(capacity, OpsOf(w, events)) {
      PairsStartAtCompletions(w, events, capacity);
    }
  }

  /** When one event completes both sides and nothing waits, the two are paired exactly if the
      pushing matcher is the first in the list. */
  lemma OneEventBothSides(w: Wiring, events: seq<RawEvent>, e: RawEvent, capacity: nat)
    requires WfWiring(w) && capacity > 0 && Waiting(capacity, OpsOf(w, events)) == 0
    requires Output(w.pushStages, events, e) != [] && Output(w.popStages, events, e) != []
    ensures var before, after := DoAll(capacity, OpsOf(w, events)).pairs, DoAll(capacity, OpsOf(w, events + [e])).pairs;
            var push, pop := Output(w.pushStages, events, e)[0], Output(w.popStages, events, e)[0];
            && w.pushStage in push.ts && w.popStage in pop.ts
            && after == before + if w.pushFirst then [Pair(push.ts[w.pushStage], pop.ts[w.popStage])] else []
  {
    hide Output, OpsOf, Waiting, DoAll;
    var ops := OpsOf(w, events);
    PairsEndAtServedPops(capacity, ops);
    OpsSnoc(w, events, e);
    OutputHasStages(w.pushStages, events, e, w.pushStage);
    OutputHasStages(w.popStages, events, e, w.popStage);
    var pushes, pops := PushOps(w, Output(w.pushStages, events, e)), PopOps(w, Output(w.popStages, events, e));
    if w.pushFirst {
      DoOne(capacity, ops, pushes);
      DoOne(capacity, ops + pushes, pops);
      assert ops + EventOps(w, events, e) == ops + pushes + pops;
    } else {
      DoOne(capacity, ops, pops);
      DoOne(capacity, ops + pops, pushes);
      assert ops + EventOps(w, events, e) == ops + pops + pushes;
    }
  }

  class CrossSeq {
    const w: Wiring
    const pushSeq: SeqMatcher
    const popSeq: SeqMatcher
    const fifo: FifoQueue
    /** The pairs of timestamps whose differences go to the histogram of the report. */
    var recorded: seq<Pair>

    ghost predicate Valid()
      reads this, pushSeq, pushSeq.slots, popSeq, popSeq.slots, fifo, fifo.queue
    {
      && WfWiring(w) && pushSeq.stages == w.pushStages && popSeq.stages == w.popStages
      && pushSeq != popSeq && pushSeq.slots != popSeq.slots
      && pushSeq.Valid() && popSeq.Valid() && fifo.Valid() && pushSeq.events == popSeq.events
      && fifo.tail == |Outputs(w.pushStages, pushSeq.events)|
      && DoAll(fifo.capacity, OpsOf(w, pushSeq.events)) == Queue(fifo.Contents(), recorded)
    }

    constructor (w: Wiring, capacity: nat)
      requires WfWiring(w) && capacity > 0
      ensures Valid() && this.w == w && recorded == [] && fifo.capacity == capacity && pushSeq.events == []
      ensures fresh(pushSeq) && fresh(pushSeq.slots) && fresh(popSeq) && fresh(popSeq.slots) && fresh(fifo)
      ensures fresh(fifo.queue)
    {
      this.w := w;
      pushSeq := new SeqMatcher(w.pushStages);
      popSeq := new SeqMatcher(w.popStages);
      fifo := new FifoQueue(capacity);
      recorded := [];
    }

    /** `handle_ring_event` on the two matchers, with their completion callbacks. */
    method HandleRingEvent(e: RawEvent)
      requires Valid() && fifo.tail < INT_MAX
      modifies this, pushSeq, pushSeq.slots, popSeq, popSeq.slots, fifo, fifo.queue
      ensures Valid() && pushSeq.events == old(pushSeq.events) + [e] && old(recorded) <= recorded
      ensures PairsCompletions(w, pushSeq.events, fifo.capacity, recorded)
    {
      hide PairsCompletions, SlotsInv, Output, Outputs, DoAll, OpsOf, Do;
      FeedMatchers(e);
      PairsJoinCompletions(w, pushSeq.events, fifo.capacity);
    }

    /** The loop over the matchers, in the order of the list. */
    method FeedMatchers(e: RawEvent)
      requires Valid() && fifo.tail < INT_MAX
      modifies this, pushSeq, pushSeq.slots, popSeq, popSeq.slots, fifo, fifo.queue
      ensures Valid() && pushSeq.events == old(pushSeq.events) + [e] && old(recorded) <= recorded
    {
      hide SlotsInv, Output, Outputs, DoAll, OpsOf, PushOps, PopOps, Do;
      ghost var events := pushSeq.events;
      OutputHasStages(w.pushStages, events, e, w.pushStage);
      OutputHasStages(w.popStages, events, e, w.popStage);
      OpsSnoc(w, events, e);
      ghost var ops := OpsOf(w, events);
      if w.pushFirst {
        var fired := pushSeq.Feed(e);
        OnPush(fired, ops);
        ghost var ops' := ops + PushOps(w, fired);
        fired := popSeq.Feed(e);
        OnPop(fired, ops');
        assert ops' + PopOps(w, fired) == ops + EventOps(w, events, e);
      } else {
        var fired := popSeq.Feed(e);
        OnPop(fired, ops);
        ghost var ops' := ops + PopOps(w, fired);
        fired := pushSeq.Feed(e);
        OnPush(fired, ops');
        assert ops' + PushOps(w, fired) == ops + EventOps(w, events, e);
      }
    }

    /** The callback of the pushing side. */
    method OnPush(fired: seq<StageSnapshot>, ghost ops: seq<Op>)
      requires fifo.Valid() && fifo.tail < INT_MAX && |fired| <= 1
      requires forall i :: 0 <= i < |fired| ==> w.pushStage in fired[i].ts
      requires DoAll(fifo.capacity, ops) == Queue(fifo.Contents(), recorded)
      modifies fifo`head, fifo`tail, fifo.queue
      ensures fifo.Valid() && fifo.tail == old(fifo.tail) + |fired|
      ensures DoAll(fifo.capacity, ops + PushOps(w, fired)) == Queue(fifo.Contents(), recorded)
    {
      DoOne(fifo.capacity, ops, PushOps(w, fired));
      if |fired| == 1 {
        fifo.Push(fired[0].ts[w.pushStage]);
      }
    }

    /** The callback of the popping side. */
    method OnPop(fired: seq<StageSnapshot>, ghost ops: seq<Op>)
      requires fifo.Valid() && |fired| <= 1
      requires forall i :: 0 <= i < |fired| ==> w.popStage in fired[i].ts
      requires DoAll(fifo.capacity, ops) == Queue(fifo.Contents(), recorded)
      modifies fifo`head, this`recorded
      ensures fifo.Valid() && fifo.tail == old(fifo.tail) && old(recorded) <= recorded
      ensures DoAll(fifo.capacity, ops + PopOps(w, fired)) == Queue(fifo.Contents(), recorded)
    {
      DoOne(fifo.capacity, ops, PopOps(w, fired));
      if |fired| == 1 {
        var ok, pushTs := fifo.Pop();
        if ok {
          recorded := recorded + [Pair(pushTs, fired[0].ts[w.popStage])];
        }
      }
    }
  }
}
