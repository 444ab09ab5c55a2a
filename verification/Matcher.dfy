/** LensX's event pairing (src/matcher.cpp, src/matcher.h).

A mask of stages is the set of its bits; stages are below 64.  What a matcher should output is
said about the whole stream of events it has been fed. */
module Matchers {
  import opened Words

  type Stage = x: int | 0 <= x < 64

  const TID_SLOTS := 65536

  datatype RawEvent = RawEvent(ts: u64, tid: u32, stage: Stage, key: u64)

  datatype Delta = Delta(val: u64, fromStage: Stage, toStage: Stage, tsFrom: u64, tsTo: u64, tid: u32)

  /** The timestamps of a completed set of stages. */
  datatype StageSnapshot = StageSnapshot(ts: map<Stage, u64>, tid: u32)

  datatype Record = Record(ts: seq<u64>, filled: set<Stage>, tid: u32)

  const EMPTY: Record := Record(seq(64, _ => 0), {}, 0)

  function StagesOf(stages: seq<Stage>): set<Stage> { set s | s in stages }

  /** The lowest stage, 64 if there is none. */
  function FirstStage(stages: seq<Stage>): (f: int)
    ensures stages != [] ==> f in stages
    ensures forall s :: s in stages ==> f <= s
    ensures stages == [] ==> f == 64
  {
    if stages == [] then 64
    else
      var rest := FirstStage(stages[1..]);
      assert forall s :: s in stages ==> s == stages[0] || s in stages[1..];
      if stages[0] < rest then stages[0] else rest
  }

  // ---- streams of events ----

  function Seen(evs: seq<RawEvent>): set<Stage> {
    set i | 0 <= i < |evs| :: evs[i].stage
  }

  /** The timestamp of the last event of a stage. */
  function Latest(evs: seq<RawEvent>, s: Stage): u64
    requires s in Seen(evs)
  {
    var n := |evs| - 1;
    if evs[n].stage == s then evs[n].ts
    else
      SeenSnoc(evs[..n], evs[n]);
      Latest(evs[..n], s)
  }

  lemma SeenSnoc(evs: seq<RawEvent>, e: RawEvent)
    ensures Seen(evs + [e]) == Seen(evs) + {e.stage}
    ensures evs + [e] != [] && (evs + [e])[..|evs + [e]| - 1] == evs
  {
    var all := evs + [e];
    forall s | s in Seen(evs) + {e.stage}
      ensures s in Seen(all)
    {
      if s == e.stage {
        assert all[|evs|].stage == s;
      } else {
        var i :| 0 <= i < |evs| && evs[i].stage == s;
        assert all[i].stage == s;
      }
    }
  }

  lemma LatestSnoc(evs: seq<RawEvent>, e: RawEvent, s: Stage)
    requires s in Seen(evs + [e])
    ensures s != e.stage ==> s in Seen(evs)
    ensures Latest(evs + [e], s) == if s == e.stage then e.ts else Latest(evs, s)
  {
    SeenSnoc(evs, e);
  }

  // ---- SeqMatcher: what it should output ----

  function SlotOf(tid: u32): nat { tid % TID_SLOTS }

  /** The events of one slot that the matcher has a stage for. */
  function SlotEvents(stages: seq<Stage>, events: seq<RawEvent>, slot: nat): seq<RawEvent> {
    if events == [] then []
    else
      var n := |events| - 1;
      SlotEvents(stages, events[..n], slot)
      + if events[n].stage in stages && SlotOf(events[n].tid) == slot then [events[n]] else []
  }

  /** Where the last segment starts: at the last first-stage event, -1 if there is none. */
  function Cut(first: int, evs: seq<RawEvent>): (c: int)
    ensures -1 <= c < |evs|
    ensures c >= 0 ==> evs[c].stage == first
    ensures forall i :: c < i < |evs| ==> evs[i].stage != first
  {
    if evs == [] then -1
    else if evs[|evs| - 1].stage == first then |evs| - 1
    else Cut(first, evs[..|evs| - 1])
  }

  /** The last event of a slot completes its segment: every stage has been seen since the cut,
      and had not been before this event. */
  predicate Completes(stages: seq<Stage>, evs: seq<RawEvent>) {
    var c := Cut(FirstStage(stages), evs);
    c >= 0 && Seen(evs[c..]) == StagesOf(stages) && Seen(evs[c..|evs| - 1]) != StagesOf(stages)
  }

  /** The latest timestamp of each stage since the cut, and the thread of the cut. */
  function SnapshotOf(stages: seq<Stage>, evs: seq<RawEvent>): StageSnapshot
    requires Completes(stages, evs)
  {
    var c := Cut(FirstStage(stages), evs);
    StageSnapshot(map s | s in StagesOf(stages) :: Latest(evs[c..], s), evs[c].tid)
  }

  /** Every completion of a stream, in order. */
  function Outputs(stages: seq<Stage>, events: seq<RawEvent>): seq<StageSnapshot> {
    if events == [] then []
    else
      var n := |events| - 1;
      Outputs(stages, events[..n]) + Output(stages, events[..n], events[n])
  }

  /** What one more event adds. */
  function Output(stages: seq<Stage>, events: seq<RawEvent>, e: RawEvent): seq<StageSnapshot> {
    if e.stage !in stages then []
    else
      var evs := SlotEvents(stages, events, SlotOf(e.tid)) + [e];
      if Completes(stages, evs) then [SnapshotOf(stages, evs)] else []
  }

  // ---- SeqMatcher: the slots ----

  /** A slot holds its open segment; without one, it lacks the first stage. */
  ghost predicate SlotInv(stages: seq<Stage>, rec: Record, evs: seq<RawEvent>) {
    && |rec.ts| == 64 && rec.filled <= StagesOf(stages)
    && (forall i :: 0 <= i < |evs| ==> evs[i].stage in stages)
    && var c := Cut(FirstStage(stages), evs);
       if Waiting(stages, evs)
       then rec.filled == Seen(evs[c..]) && rec.tid == evs[c].tid
            && forall s :: s in rec.filled ==> rec.ts[s] == Latest(evs[c..], s)
       else FirstStage(stages) !in rec.filled
  }

  /** The slot after one event, before completion is checked. */
  function Stamp(rec: Record, e: RawEvent, restart: bool): Record
    requires |rec.ts| == 64
  {
    var rec := if restart then rec.(filled := {}, tid := e.tid) else rec;
    rec.(ts := rec.ts[e.stage := e.ts], filled := rec.filled + {e.stage})
  }

  lemma CutSnoc(first: int, evs: seq<RawEvent>, e: RawEvent)
    ensures Cut(first, evs + [e]) == if e.stage == first then |evs| else Cut(first, evs)
    ensures var c := Cut(first, evs + [e]);
            c >= 0 ==> (evs + [e])[c..] == (if e.stage == first then [e] else evs[c..] + [e])
                       && (evs + [e])[c..|evs|] == if e.stage == first then [] else evs[c..]
  {
    assert (evs + [e])[..|evs|] == evs;
  }

  /** Whether the last segment is still waiting for stages. */
  predicate Waiting(stages: seq<Stage>, evs: seq<RawEvent>) {
    var c := Cut(FirstStage(stages), evs);
    c >= 0 && Seen(evs[c..]) != StagesOf(stages)
  }

  lemma SegmentSnoc(stages: seq<Stage>, evs: seq<RawEvent>, e: RawEvent)
    requires e.stage in stages
    ensures var evs', c := evs + [e], Cut(FirstStage(stages), evs + [e]);
            && (c >= 0 <==> e.stage == FirstStage(stages) || Cut(FirstStage(stages), evs) >= 0)
            && (c >= 0 ==>
                  var was := if e.stage == FirstStage(stages) then [] else evs[c..];
                  && evs'[c..] == was + [e] && Seen(evs'[c..]) == Seen(was) + {e.stage}
                  && (Completes(stages, evs') <==>
                        Seen(was) + {e.stage} == StagesOf(stages) && Seen(was) != StagesOf(stages))
                  && forall s :: s in Seen(was) + {e.stage} ==>
                       && (s != e.stage ==> s in Seen(was))
                       && Latest(evs'[c..], s) == if s == e.stage then e.ts else Latest(was, s))
  {
    var first, evs' := FirstStage(stages), evs + [e];
    CutSnoc(first, evs, e);
    var c := Cut(first, evs');
    if c >= 0 {
      var was := if e.stage == first then [] else evs[c..];
      SeenSnoc(was, e);
      forall s | s in Seen(was) + {e.stage}
        ensures s != e.stage ==> s in Seen(was)
        ensures Latest(evs'[c..], s) == if s == e.stage then e.ts else Latest(was, s)
      {
        LatestSnoc(was, e, s);
      }
    }
  }

  /** What a slot that is full would report. */
  function Report(stages: set<Stage>, rec: Record): StageSnapshot
    requires |rec.ts| == 64
  {
    StageSnapshot(map s | s in stages :: rec.ts[s], rec.tid)
  }

  /** Feeding a slot: it fills up exactly when the segment completes. */
  lemma FeedSlot(stages: seq<Stage>, rec: Record, evs: seq<RawEvent>, e: RawEvent)
    requires SlotInv(stages, rec, evs) && e.stage in stages
    ensures var rec', evs' := Stamp(rec, e, e.stage == FirstStage(stages)), evs + [e];
            && (StagesOf(stages) <= rec'.filled <==> Completes(stages, evs'))
            && SlotInv(stages, if Completes(stages, evs') then rec'.(filled := {}) else rec', evs')
  {
    if e.stage == FirstStage(stages) {
      FeedFirst(stages, rec, evs, e);
    } else if Waiting(stages, evs) {
      FeedWaiting(stages, rec, evs, e);
    } else {
      FeedIdle(stages, rec, evs, e);
    }
  }

  lemma FeedFirst(stages: seq<Stage>, rec: Record, evs: seq<RawEvent>, e: RawEvent)
    requires SlotInv(stages, rec, evs) && e.stage in stages && e.stage == FirstStage(stages)
    ensures var rec', evs' := Stamp(rec, e, true), evs + [e];
            && (StagesOf(stages) <= rec'.filled <==> Completes(stages, evs'))
            && SlotInv(stages, if Completes(stages, evs') then rec'.(filled := {}) else rec', evs')
  {
    SegmentSnoc(stages, evs, e);
    CutSnoc(FirstStage(stages), evs, e);
    assert e.stage in StagesOf(stages) && Seen([]) == {};
    hide Seen, Latest, Cut, SnapshotOf, FirstStage, StagesOf;
  }

  lemma FeedWaiting(stages: seq<Stage>, rec: Record, evs: seq<RawEvent>, e: RawEvent)
    requires SlotInv(stages, rec, evs) && e.stage in stages && e.stage != FirstStage(stages) && Waiting(stages, evs)
    ensures var rec', evs' := Stamp(rec, e, false), evs + [e];
            && (StagesOf(stages) <= rec'.filled <==> Completes(stages, evs'))
            && SlotInv(stages, if Completes(stages, evs') then rec'.(filled := {}) else rec', evs')
  {
    SegmentSnoc(stages, evs, e);
    CutSnoc(FirstStage(stages), evs, e);
    assert e.stage in StagesOf(stages);
    hide Seen, Latest, Cut, Completes, FirstStage, StagesOf;
  }

  lemma FeedIdle(stages: seq<Stage>, rec: Record, evs: seq<RawEvent>, e: RawEvent)
    requires SlotInv(stages, rec, evs) && e.stage in stages && e.stage != FirstStage(stages) && !Waiting(stages, evs)
    ensures var rec', evs' := Stamp(rec, e, false), evs + [e];
            && !(StagesOf(stages) <= rec'.filled) && !Completes(stages, evs') && SlotInv(stages, rec', evs')
  {
    SegmentSnoc(stages, evs, e);
    CutSnoc(FirstStage(stages), evs, e);
    assert FirstStage(stages) in StagesOf(stages) && e.stage in StagesOf(stages);
    hide Seen, Latest, Cut, Completes, FirstStage, StagesOf;
  }

  lemma FullSlotHoldsLatest(stages: seq<Stage>, rec: Record, evs: seq<RawEvent>, e: RawEvent)
    requires SlotInv(stages, rec, evs) && e.stage in stages && Completes(stages, evs + [e])
    ensures var evs', c := evs + [e], Cut(FirstStage(stages), evs + [e]);
            var rec' := Stamp(rec, e, e.stage == FirstStage(stages));
            && c >= 0 && Seen(evs'[c..]) == StagesOf(stages) && rec'.tid == evs'[c].tid && |rec'.ts| == 64
            && forall s :: s in StagesOf(stages) ==> rec'.ts[s] == Latest(evs'[c..], s)
  {
    assert Seen([]) == {} && e.stage in StagesOf(stages);
    hide Seen, Latest, Cut, FirstStage, StagesOf;
    SegmentSnoc(stages, evs, e);
    CutSnoc(FirstStage(stages), evs, e);
  }

  /** And then with the right contents. */
  lemma FullSlotReports(stages: seq<Stage>, rec: Record, evs: seq<RawEvent>, e: RawEvent)
    requires SlotInv(stages, rec, evs) && e.stage in stages && Completes(stages, evs + [e])
    ensures SnapshotOf(stages, evs + [e]) == Report(StagesOf(stages), Stamp(rec, e, e.stage == FirstStage(stages)))
  {
    hide Seen, Latest, Cut, FirstStage, StagesOf, SlotInv, Completes, Stamp;
    SlotShape(stages, rec, evs);
    FullSlotHoldsLatest(stages, rec, evs, e);
    var snap := SnapshotOf(stages, evs + [e]);
    var report := Report(StagesOf(stages), Stamp(rec, e, e.stage == FirstStage(stages)));
    assert snap.ts == report.ts;
  }

  ghost predicate SlotsInv(stages: seq<Stage>, slots: seq<Record>, events: seq<RawEvent>) {
    && |slots| == TID_SLOTS
    && forall h :: 0 <= h < TID_SLOTS ==> SlotInv(stages, slots[h], SlotEvents(stages, events, h))
  }

  lemma SlotsStart(stages: seq<Stage>, slots: seq<Record>)
    requires |slots| == TID_SLOTS && forall h :: 0 <= h < TID_SLOTS ==> slots[h] == EMPTY
    ensures SlotsInv(stages, slots, [])
  {
  }

  lemma SlotsIgnore(stages: seq<Stage>, slots: seq<Record>, events: seq<RawEvent>, e: RawEvent)
    requires SlotsInv(stages, slots, events) && e.stage !in StagesOf(stages)
    ensures SlotsInv(stages, slots, events + [e]) && Output(stages, events, e) == []
  {
    hide SlotInv, SlotEvents;
    forall h | 0 <= h < TID_SLOTS
      ensures SlotInv(stages, slots[h], SlotEvents(stages, events + [e], h))
    {
      SlotEventsSnoc(stages, events, e, h);
    }
  }

  lemma SlotEventsSnoc(stages: seq<Stage>, events: seq<RawEvent>, e: RawEvent, h: nat)
    ensures SlotEvents(stages, events + [e], h)
            == if e.stage in stages && SlotOf(e.tid) == h then SlotEvents(stages, events, h) + [e]
              else SlotEvents(stages, events, h)
  {
    assert (events + [e])[..|events|] == events;
  }

  /** One event reaches one slot, and does there what it should. */
  lemma SlotsFed(stages: seq<Stage>, slots: seq<Record>, events: seq<RawEvent>, e: RawEvent)
    requires SlotsInv(stages, slots, events) && e.stage in StagesOf(stages)
    ensures |slots| == TID_SLOTS && |slots[SlotOf(e.tid)].ts| == 64
    ensures var h := SlotOf(e.tid);
            var rec := Stamp(slots[h], e, e.stage == FirstStage(stages));
            var full := StagesOf(stages) <= rec.filled;
            && |rec.ts| == 64
            && Output(stages, events, e) == (if full then [Report(StagesOf(stages), rec)] else [])
            && SlotsInv(stages, slots[h := if full then rec.(filled := {}) else rec], events + [e])
  {
    hide Completes, SnapshotOf, Stamp, Report, SlotEvents, FirstStage, SlotInv;
    var h := SlotOf(e.tid);
    var evs := SlotEvents(stages, events, h);
    SlotShape(stages, slots[h], evs);
    StampShape(slots[h], e);
    FeedSlot(stages, slots[h], evs, e);
    if Completes(stages, evs + [e]) {
      FullSlotReports(stages, slots[h], evs, e);
    }
    var rec := Stamp(slots[h], e, e.stage == FirstStage(stages));
    var slots' := slots[h := if StagesOf(stages) <= rec.filled then rec.(filled := {}) else rec];
    forall k | 0 <= k < TID_SLOTS
      ensures SlotInv(stages, slots'[k], SlotEvents(stages, events + [e], k))
    {
      SlotEventsSnoc(stages, events, e, k);
    }
  }

  lemma SlotShape(stages: seq<Stage>, rec: Record, evs: seq<RawEvent>)
    requires SlotInv(stages, rec, evs)
    ensures |rec.ts| == 64
  {
  }

  lemma StampShape(rec: Record, e: RawEvent)
    requires |rec.ts| == 64
    ensures forall restart :: |Stamp(rec, e, restart).ts| == 64
  {
  }

  // ---- SeqMatcher: what the specification means ----

  predicate AllRelevant(stages: seq<Stage>, evs: seq<RawEvent>) {
    forall i :: 0 <= i < |evs| ==> evs[i].stage in stages
  }

  /** A segment completes at most once: between two completions of a slot lies a cut. */
  lemma OncePerSegment(stages: seq<Stage>, evs: seq<RawEvent>, i: nat, j: nat)
    requires i < j <= |evs| && AllRelevant(stages, evs)
    requires Completes(stages, evs[..i]) && Completes(stages, evs[..j])
    ensures Cut(FirstStage(stages), evs[..j]) >= i
  {
    hide Seen, Cut, FirstStage, StagesOf;
    var first := FirstStage(stages);
    var c, d := Cut(first, evs[..j]), Cut(first, evs[..i]);
    CutOfPrefix(first, evs, i, j);
    if c < i {
      SliceOfPrefix(evs, i, d, i);
      SliceOfPrefix(evs, j, d, j - 1);
      SeenGrows(evs, d, i, j - 1);
      SeenIsRelevant(stages, evs, d, j - 1);
    }
  }

  lemma SliceOfPrefix<T>(s: seq<T>, n: nat, from: nat, to: nat)
    requires from <= to <= n <= |s|
    ensures s[..n][from..to] == s[from..to]
    ensures to == n ==> s[..n][from..] == s[from..to]
  {
  }

  lemma SeenIsRelevant(stages: seq<Stage>, evs: seq<RawEvent>, from: nat, to: nat)
    requires AllRelevant(stages, evs) && from <= to <= |evs|
    ensures Seen(evs[from..to]) <= StagesOf(stages)
  {
  }

  lemma CutOfPrefix(first: int, evs: seq<RawEvent>, i: nat, j: nat)
    requires i <= j <= |evs|
    ensures Cut(first, evs[..j]) >= i || Cut(first, evs[..j]) == Cut(first, evs[..i])
  {
    var c, d := Cut(first, evs[..j]), Cut(first, evs[..i]);
    assert d >= 0 ==> evs[..i][d] == evs[..j][d];
    assert 0 <= c < i ==> evs[..i][c] == evs[..j][c];
  }

  lemma SeenGrows(evs: seq<RawEvent>, c: nat, i: nat, j: nat)
    requires c <= i <= j <= |evs|
    ensures Seen(evs[c..i]) <= Seen(evs[c..j])
  {
    forall s | s in Seen(evs[c..i])
      ensures s in Seen(evs[c..j])
    {
      var k :| 0 <= k < i - c && evs[c..i][k].stage == s;
      assert evs[c..j][k].stage == s;
    }
  }

  /** A segment in which every stage has been seen has completed, at its cut or later. */
  lemma {:induction false} SegmentCompletes(stages: seq<Stage>, evs: seq<RawEvent>, j: nat) returns (i: nat)
    requires j <= |evs| && AllRelevant(stages, evs)
    requires var c := Cut(FirstStage(stages), evs[..j]); c >= 0 && Seen(evs[c..j]) == StagesOf(stages)
    ensures Cut(FirstStage(stages), evs[..j]) < i <= j && Completes(stages, evs[..i])
    ensures Cut(FirstStage(stages), evs[..i]) == Cut(FirstStage(stages), evs[..j])
    decreases j
  {
    var first, c := FirstStage(stages), Cut(FirstStage(stages), evs[..j]);
    var last := evs[..j - 1];
    assert last + [evs[j - 1]] == evs[..j];
    CutSnoc(first, last, evs[j - 1]);
    assert evs[..j][c..] == evs[c..j] && evs[..j][c..j - 1] == evs[c..j - 1];
    assert first in StagesOf(stages) && Seen([]) == {};
    if Seen(evs[c..j - 1]) != StagesOf(stages) {
      i := j;
    } else {
      i := SegmentCompletes(stages, evs, j - 1);
    }
  }

  /** The events of one thread. */
  function OnlyThread(events: seq<RawEvent>, tid: u32): seq<RawEvent> {
    if events == [] then []
    else
      var n := |events| - 1;
      OnlyThread(events[..n], tid) + if events[n].tid == tid then [events[n]] else []
  }

  /** The completions attributed to one thread. */
  function OfThread(snaps: seq<StageSnapshot>, tid: u32): seq<StageSnapshot> {
    if snaps == [] then []
    else
      var n := |snaps| - 1;
      OfThread(snaps[..n], tid) + if snaps[n].tid == tid then [snaps[n]] else []
  }

  /** No two threads share a slot. */
  ghost predicate DistinctSlots(events: seq<RawEvent>) {
    forall i, j :: 0 <= i < |events| && 0 <= j < |events| && SlotOf(events[i].tid) == SlotOf(events[j].tid) ==>
      events[i].tid == events[j].tid
  }

  lemma OfThreadAppend(snaps: seq<StageSnapshot>, more: seq<StageSnapshot>, tid: u32)
    requires |more| <= 1
    ensures OfThread(snaps + more, tid) == OfThread(snaps, tid) + if more != [] && more[0].tid == tid then more else []
  {
    if more == [] {
      assert snaps + more == snaps;
    } else {
      assert (snaps + more)[..|snaps|] == snaps;
    }
  }

  /** What reaches the slot of a thread is what that thread did. */
  lemma {:induction false} SlotIsThread(stages: seq<Stage>, events: seq<RawEvent>, tid: u32)
    requires forall i :: 0 <= i < |events| && SlotOf(events[i].tid) == SlotOf(tid) ==> events[i].tid == tid
    ensures SlotEvents(stages, OnlyThread(events, tid), SlotOf(tid)) == SlotEvents(stages, events, SlotOf(tid))
    ensures forall i :: 0 <= i < |SlotEvents(stages, events, SlotOf(tid))| ==>
              SlotEvents(stages, events, SlotOf(tid))[i].tid == tid
    decreases |events|
  {
    if events != [] {
      var n := |events| - 1;
      SlotIsThread(stages, events[..n], tid);
      assert events[..n] + [events[n]] == events;
      SlotEventsSnoc(stages, events[..n], events[n], SlotOf(tid));
      if events[n].tid == tid {
        SlotEventsSnoc(stages, OnlyThread(events[..n], tid), events[n], SlotOf(tid));
      } else {
        assert OnlyThread(events, tid) == OnlyThread(events[..n], tid);
      }
    }
  }

  /** When no two threads share a slot, what a thread completes depends on its own events only. */
  lemma {:induction false} ThreadsAreIndependent(stages: seq<Stage>, events: seq<RawEvent>, tid: u32)
    requires DistinctSlots(events)
    ensures OfThread(Outputs(stages, events), tid) == Outputs(stages, OnlyThread(events, tid))
    decreases |events|
  {
    hide Output;
    if events != [] {
      var n := |events| - 1;
      var before, e := events[..n], events[n];
      assert events == before + [e];
      ThreadsAreIndependent(stages, before, tid);
      OneEventOfThread(stages, before, e, tid);
      if e.tid == tid {
        OutputsSnoc(stages, OnlyThread(before, tid), e);
      } else {
        assert OnlyThread(events, tid) == OnlyThread(before, tid);
      }
    }
  }

  lemma OneEventOfThread(stages: seq<Stage>, before: seq<RawEvent>, e: RawEvent, tid: u32)
    requires DistinctSlots(before + [e])
    ensures OfThread(Outputs(stages, before) + Output(stages, before, e), tid)
            == OfThread(Outputs(stages, before), tid)
               + if e.tid == tid then Output(stages, OnlyThread(before, tid), e) else []
  {
    hide Completes, SnapshotOf, SlotEvents, StagesOf, SlotOf, Outputs;
    OfThreadAppend(Outputs(stages, before), Output(stages, before, e), tid);
    OutputOfThread(stages, before, e);
    if e.tid == tid {
      SlotIsThread(stages, before, tid);
    }
  }

  lemma OutputOfThread(stages: seq<Stage>, events: seq<RawEvent>, e: RawEvent)
    requires DistinctSlots(events + [e])
    ensures |Output(stages, events, e)| <= 1
    ensures Output(stages, events, e) != [] ==> Output(stages, events, e)[0].tid == e.tid
    ensures forall i :: 0 <= i < |events| && SlotOf(events[i].tid) == SlotOf(e.tid) ==> events[i].tid == e.tid
  {
    var all := events + [e];
    forall i | 0 <= i < |events| && SlotOf(events[i].tid) == SlotOf(e.tid)
      ensures events[i].tid == e.tid
    {
      assert all[i].tid == all[|events|].tid;
    }
    SlotIsThread(stages, events, e.tid);
  }

  /** Two threads whose events the matcher mixes: what the first completes takes events of the other. */
  ghost predicate Mixed(stages: seq<Stage>, events: seq<RawEvent>, a: u32, b: u32) {
    && (forall i :: 0 <= i < |events| ==> events[i].tid in {a, b})
    && OfThread(Outputs(stages, events), a) != Outputs(stages, OnlyThread(events, a))
  }

  /** One event of thread a at the first stage, and then the other stages by thread b. */
  function Relay(stages: seq<Stage>, n: nat, a: u32, b: u32): seq<RawEvent>
    requires n <= |stages| && stages != []
  {
    if n == 0 then [RawEvent(0, a, FirstStage(stages), 0)]
    else Relay(stages, n - 1, a, b)
         + if stages[n - 1] == FirstStage(stages) then [] else [RawEvent(0, b, stages[n - 1], 0)]
  }

  lemma {:induction false} RelayShape(stages: seq<Stage>, n: nat, a: u32, b: u32)
    requires n <= |stages| && stages != []
    ensures var evs := Relay(stages, n, a, b);
            && AllRelevant(stages, evs) && evs != [] && evs[0] == RawEvent(0, a, FirstStage(stages), 0)
            && forall i :: 1 <= i < |evs| ==> evs[i].tid == b && evs[i].stage != FirstStage(stages)
  {
    if n > 0 {
      RelayShape(stages, n - 1, a, b);
    }
  }

  lemma {:induction false} RelaySees(stages: seq<Stage>, n: nat, a: u32, b: u32)
    requires n <= |stages| && stages != []
    ensures Seen(Relay(stages, n, a, b)) == {FirstStage(stages)} + StagesOf(stages[..n])
  {
    hide Seen, FirstStage;
    if n == 0 {
      SeenOne(RawEvent(0, a, FirstStage(stages), 0));
      assert StagesOf(stages[..0]) == {};
    } else {
      RelaySees(stages, n - 1, a, b);
      assert stages[..n] == stages[..n - 1] + [stages[n - 1]];
      assert StagesOf(stages[..n]) == StagesOf(stages[..n - 1]) + {stages[n - 1]};
      var before := Relay(stages, n - 1, a, b);
      SeenSnoc(before, RawEvent(0, b, stages[n - 1], 0));
      assert before + [] == before;
    }
  }

  lemma SeenOne(e: RawEvent)
    ensures Seen([e]) == {e.stage}
  {
    assert [e][0] == e;
  }

  lemma {:induction false} OnlyFirst(evs: seq<RawEvent>, a: u32)
    requires evs != [] && evs[0].tid == a && forall i :: 1 <= i < |evs| ==> evs[i].tid != a
    ensures OnlyThread(evs, a) == [evs[0]]
    decreases |evs|
  {
    if |evs| > 1 {
      OnlyFirst(evs[..|evs| - 1], a);
    } else {
      assert OnlyThread(evs[..0], a) == [];
    }
  }

  /** A completion of a prefix of a slot's events is among the outputs. */
  lemma {:induction false} CompletionIsOutput(stages: seq<Stage>, evs: seq<RawEvent>, i: nat, tid: u32, slot: nat)
    requires 0 < i <= |evs| && Completes(stages, evs[..i]) && SnapshotOf(stages, evs[..i]).tid == tid
    requires AllRelevant(stages, evs) && forall k :: 0 <= k < |evs| ==> SlotOf(evs[k].tid) == slot
    ensures OfThread(Outputs(stages, evs), tid) != []
    decreases |evs|
  {
    hide Completes, SnapshotOf, SlotEvents;
    var n := |evs| - 1;
    assert evs[..n] + [evs[n]] == evs;
    AllInSlot(stages, evs[..n], slot);
    var last := Output(stages, evs[..n], evs[n]);
    OfThreadAppend(Outputs(stages, evs[..n]), last, tid);
    if i < |evs| {
      assert evs[..n][..i] == evs[..i];
      CompletionIsOutput(stages, evs[..n], i, tid, slot);
    } else {
      assert evs[..i] == evs;
      assert last == [SnapshotOf(stages, evs)];
    }
  }

  lemma {:induction false} AllInSlot(stages: seq<Stage>, evs: seq<RawEvent>, slot: nat)
    requires AllRelevant(stages, evs) && forall k :: 0 <= k < |evs| ==> SlotOf(evs[k].tid) == slot
    ensures SlotEvents(stages, evs, slot) == evs
    decreases |evs|
  {
    if evs != [] {
      AllInSlot(stages, evs[..|evs| - 1], slot);
    }
  }

  /** Two threads that share a slot can be mixed, unless there is only one stage to see. */
  lemma SharedSlotsMix(stages: seq<Stage>, a: u32, b: u32, s: Stage)
    requires a != b && SlotOf(a) == SlotOf(b) && s in stages && s != FirstStage(stages)
    ensures Mixed(stages, Relay(stages, |stages|, a, b), a, b)
  {
    hide Seen, FirstStage, Relay, OfThread, Outputs, SlotOf;
    var evs := Relay(stages, |stages|, a, b);
    RelayShape(stages, |stages|, a, b);
    RelayCompletes(stages, a, b);
    OnlyFirst(evs, a);
    AloneIncomplete(stages, evs[0], s);
  }

  lemma RelayCompletes(stages: seq<Stage>, a: u32, b: u32)
    requires SlotOf(a) == SlotOf(b) && stages != []
    ensures OfThread(Outputs(stages, Relay(stages, |stages|, a, b)), a) != []
  {
    hide Seen, FirstStage, Completes, SnapshotOf, Cut, Relay, OfThread, Outputs, SlotOf;
    var n := |stages|;
    var evs := Relay(stages, n, a, b);
    RelayShape(stages, n, a, b);
    RelaySees(stages, n, a, b);
    assert stages[..n] == stages && evs[..|evs|] == evs && evs[0..|evs|] == evs;
    assert FirstStage(stages) in StagesOf(stages);
    CutOfFirst(FirstStage(stages), evs);
    var i := SegmentCompletes(stages, evs, |evs|);
    CutIsFirst(stages, evs, i);
    CompletionIsOutput(stages, evs, i, a, SlotOf(a));
  }

  lemma CutOfFirst(first: int, evs: seq<RawEvent>)
    requires evs != [] && evs[0].stage == first && forall k :: 1 <= k < |evs| ==> evs[k].stage != first
    ensures Cut(first, evs) == 0
  {
  }

  lemma CutIsFirst(stages: seq<Stage>, evs: seq<RawEvent>, i: nat)
    requires 0 < i <= |evs| && Completes(stages, evs[..i]) && evs[0].stage == FirstStage(stages)
    requires forall k :: 1 <= k < |evs| ==> evs[k].stage != FirstStage(stages)
    ensures SnapshotOf(stages, evs[..i]).tid == evs[0].tid
  {
  }

  lemma AloneIncomplete(stages: seq<Stage>, e: RawEvent, s: Stage)
    requires s in stages && s != e.stage && e.stage in stages
    ensures Outputs(stages, [e]) == []
  {
    SeenOne(e);
    assert [e] == [] + [e] && [e][..0] == [];
    OutputsSnoc(stages, [], e);
    assert s in StagesOf(stages);
    var evs := SlotEvents(stages, [], SlotOf(e.tid)) + [e];
    assert evs == [e];
    var c := Cut(FirstStage(stages), evs);
    if c >= 0 {
      assert evs[c..] == [e];
    }
  }

  // ---- SeqMatcher: when threads are independent ----

  /** All stages are the same one. */
  predicate OneStage(stages: seq<Stage>) {
    forall i, j :: 0 <= i < |stages| && 0 <= j < |stages| ==> stages[i] == stages[j]
  }

  /** With one stage, every event of it completes by itself, whoever shares the slot. */
  lemma OneStageOutput(stages: seq<Stage>, events: seq<RawEvent>, e: RawEvent)
    requires OneStage(stages)
    ensures Output(stages, events, e) == if e.stage in stages then [StageSnapshot(map[e.stage := e.ts], e.tid)] else []
  {
    if e.stage in stages {
      var evs := SlotEvents(stages, events, SlotOf(e.tid));
      assert StagesOf(stages) == {e.stage};
      SegmentSnoc(stages, evs, e);
      CutSnoc(e.stage, evs, e);
      var ts := SnapshotOf(stages, evs + [e]).ts;
      assert ts.Keys == {e.stage} && ts == map[e.stage := e.ts];
    }
  }

  lemma {:induction false} OneStageIsIndependent(stages: seq<Stage>, events: seq<RawEvent>, tid: u32)
    requires OneStage(stages)
    ensures OfThread(Outputs(stages, events), tid) == Outputs(stages, OnlyThread(events, tid))
    decreases |events|
  {
    hide Output, OneStage;
    if events != [] {
      var n := |events| - 1;
      var before, e := events[..n], events[n];
      OneStageIsIndependent(stages, before, tid);
      OneStageOutput(stages, before, e);
      OfThreadAppend(Outputs(stages, before), Output(stages, before, e), tid);
      if e.tid == tid {
        OneStageOutput(stages, OnlyThread(before, tid), e);
        OutputsSnoc(stages, OnlyThread(before, tid), e);
      } else {
        assert OnlyThread(events, tid) == OnlyThread(before, tid);
      }
    }
  }

  ghost predicate ByThreads(events: seq<RawEvent>, tids: set<u32>) {
    forall i :: 0 <= i < |events| ==> events[i].tid in tids
  }

  /** Whatever these threads do, each completes what it would complete alone. */
  ghost predicate Independent(stages: seq<Stage>, tids: set<u32>) {
    forall events: seq<RawEvent>, tid: u32 :: ByThreads(events, tids) ==>
      OfThread(Outputs(stages, events), tid) == Outputs(stages, OnlyThread(events, tid))
  }

  /** Threads are independent exactly if no two of them share a slot or there is only one stage. */
  lemma IndependentIffNothingShared(stages: seq<Stage>, tids: set<u32>)
    ensures Independent(stages, tids)
            <==> (forall a, b :: a in tids && b in tids && SlotOf(a) == SlotOf(b) ==> a == b) || OneStage(stages)
  {
    hide OfThread, Outputs, OnlyThread, Relay, FirstStage, SlotOf;
    if forall a, b :: a in tids && b in tids && SlotOf(a) == SlotOf(b) ==> a == b {
      forall events: seq<RawEvent>, tid: u32 | ByThreads(events, tids)
        ensures OfThread(Outputs(stages, events), tid) == Outputs(stages, OnlyThread(events, tid))
      {
        ThreadsAreIndependent(stages, events, tid);
      }
    } else if OneStage(stages) {
      forall events: seq<RawEvent>, tid: u32 | ByThreads(events, tids)
        ensures OfThread(Outputs(stages, events), tid) == Outputs(stages, OnlyThread(events, tid))
      {
        OneStageIsIndependent(stages, events, tid);
      }
    } else {
      var a, b :| a in tids && b in tids && SlotOf(a) == SlotOf(b) && a != b;
      var i, j :| 0 <= i < |stages| && 0 <= j < |stages| && stages[i] != stages[j];
      var s := if stages[i] != FirstStage(stages) then stages[i] else stages[j];
      SharedSlotsMix(stages, a, b, s);
      assert ByThreads(Relay(stages, |stages|, a, b), tids);
    }
  }

  // ---- deltas ----

  function DeltaOf(snap: StageSnapshot, from: Stage, to: Stage): Delta
    requires from in snap.ts && to in snap.ts
  {
    Delta((snap.ts[to] as int - snap.ts[from] as int) % 0x1_0000_0000_0000_0000, from, to, snap.ts[from], snap.ts[to],
      snap.tid)
  }

  predicate Covers(stages: seq<Stage>, snap: StageSnapshot) {
    forall i :: 0 <= i < |stages| ==> stages[i] in snap.ts
  }

  /** The deltas from stage i to stages i+1 up to j. */
  function DeltasFrom(stages: seq<Stage>, snap: StageSnapshot, i: nat, j: nat): (d: seq<Delta>)
    requires i < j <= |stages| && Covers(stages, snap)
    ensures |d| == j - i - 1
    ensures forall k :: i < k < j ==> d[k - i - 1] == DeltaOf(snap, stages[i], stages[k])
  {
    seq(j - i - 1, k requires 0 <= k < j - i - 1 => DeltaOf(snap, stages[i], stages[i + 1 + k]))
  }

  /** All deltas from the first i stages to later ones. */
  function Deltas(stages: seq<Stage>, snap: StageSnapshot, i: nat): seq<Delta>
    requires i <= |stages| && Covers(stages, snap)
  {
    if i == 0 then [] else Deltas(stages, snap, i - 1) + DeltasFrom(stages, snap, i - 1, |stages|)
  }

  ghost function AllDeltas(stages: seq<Stage>, snaps: seq<StageSnapshot>): seq<Delta>
    requires forall i :: 0 <= i < |snaps| ==> Covers(stages, snaps[i])
  {
    if snaps == [] then []
    else AllDeltas(stages, snaps[..|snaps| - 1]) + Deltas(stages, snaps[|snaps| - 1], |stages|)
  }

  lemma AllDeltasSnoc(stages: seq<Stage>, snaps: seq<StageSnapshot>, snap: StageSnapshot)
    requires forall i :: 0 <= i < |snaps| ==> Covers(stages, snaps[i])
    requires Covers(stages, snap)
    ensures AllDeltas(stages, snaps + [snap]) == AllDeltas(stages, snaps) + Deltas(stages, snap, |stages|)
  {
    assert (snaps + [snap])[..|snaps|] == snaps;
  }

  lemma DeltasFromSnoc(stages: seq<Stage>, snap: StageSnapshot, i: nat, j: nat)
    requires i < j < |stages| && Covers(stages, snap)
    ensures stages[i] in snap.ts && stages[j] in snap.ts
    ensures DeltasFrom(stages, snap, i, j + 1) == DeltasFrom(stages, snap, i, j) + [DeltaOf(snap, stages[i], stages[j])]
  {
  }

  // ---- what the deltas report, said without computing them ----

  /** How many pairs of positions there are, of m in all, whose first is below i. */
  function PairsBefore(m: nat, i: nat): nat
    requires i <= m
  {
    if i == 0 then 0 else PairsBefore(m, i - 1) + (m - i)
  }

  /** Where the pair (i, j) comes when pairs are listed by their first position and then by their second. */
  function Place(m: nat, i: nat, j: nat): nat
    requires i < j < m
  {
    PairsBefore(m, i) + (j - i - 1)
  }

  /** Added to the first timestamp, the value gives the second. */
  ghost predicate IsDelta(d: Delta, snap: StageSnapshot, from: Stage, to: Stage) {
    && from in snap.ts && to in snap.ts && d.fromStage == from && d.toStage == to
    && d.tsFrom == snap.ts[from] && d.tsTo == snap.ts[to] && d.tid == snap.tid
    && (d.tsFrom + d.val) % 0x1_0000_0000_0000_0000 == d.tsTo
  }

  /** When the first timestamp is not the later one, that is the time between them, and otherwise
      what is missing from it to 2^64. */
  lemma DeltaIsTimeBetween(d: Delta, snap: StageSnapshot, from: Stage, to: Stage)
    requires IsDelta(d, snap, from, to)
    ensures d.tsFrom <= d.tsTo ==> d.val == d.tsTo - d.tsFrom
    ensures d.tsFrom > d.tsTo ==> d.val == d.tsTo - d.tsFrom + 0x1_0000_0000_0000_0000
  {
    assert (d.tsFrom + d.val) / 0x1_0000_0000_0000_0000 <= 1;
  }

  /** The n-th completion is reported by one delta for each two positions in the list of stages. */
  ghost predicate ReportsOne(stages: seq<Stage>, snap: StageSnapshot, ds: seq<Delta>, at: nat) {
    && at + PairsBefore(|stages|, |stages|) <= |ds|
    && forall i, j :: 0 <= i < j < |stages| ==>
         && at + Place(|stages|, i, j) < |ds|
         && IsDelta(ds[at + Place(|stages|, i, j)], snap, stages[i], stages[j])
  }

  /** The deltas report these completions, in order, and nothing else. */
  ghost predicate ReportsAll(stages: seq<Stage>, snaps: seq<StageSnapshot>, ds: seq<Delta>) {
    && |ds| == |snaps| * PairsBefore(|stages|, |stages|)
    && forall n :: 0 <= n < |snaps| ==> ReportsOne(stages, snaps[n], ds, n * PairsBefore(|stages|, |stages|))
  }

  lemma DeltaOfIsDelta(snap: StageSnapshot, from: Stage, to: Stage)
    requires from in snap.ts && to in snap.ts
    ensures IsDelta(DeltaOf(snap, from, to), snap, from, to)
  {
    var a: int, b: int := snap.ts[from], snap.ts[to];
    if a <= b {
      assert DeltaOf(snap, from, to).val == b - a;
    } else {
      assert DeltaOf(snap, from, to).val == b - a + 0x1_0000_0000_0000_0000;
    }
  }

  lemma {:induction false} PairsGrow(m: nat, i: nat, k: nat)
    requires i <= k <= m
    ensures PairsBefore(m, i) <= PairsBefore(m, k)
  {
    if i < k {
      PairsGrow(m, i, k - 1);
    }
  }

  lemma {:induction false} DeltasAt(stages: seq<Stage>, snap: StageSnapshot, k: nat)
    requires k <= |stages| && Covers(stages, snap)
    ensures |Deltas(stages, snap, k)| == PairsBefore(|stages|, k)
    ensures forall i, j :: 0 <= i < k && i < j < |stages| ==>
              && Place(|stages|, i, j) < |Deltas(stages, snap, k)|
              && IsDelta(Deltas(stages, snap, k)[Place(|stages|, i, j)], snap, stages[i], stages[j])
  {
    hide IsDelta, DeltaOf, DeltasFrom, Covers;
    if k > 0 {
      var m, before := |stages|, Deltas(stages, snap, k - 1);
      DeltasAt(stages, snap, k - 1);
      var all, row := Deltas(stages, snap, k), DeltasFrom(stages, snap, k - 1, m);
      assert all == before + row;
      hide Deltas;
      forall i, j | 0 <= i < k && i < j < m
        ensures Place(m, i, j) < |all| && IsDelta(all[Place(m, i, j)], snap, stages[i], stages[j])
      {
        if i < k - 1 {
          assert Place(m, i, j) < |before|;
          assert all[Place(m, i, j)] == before[Place(m, i, j)];
        } else {
          assert Place(m, i, j) == |before| + (j - k);
          assert all[Place(m, i, j)] == row[j - k];
          RowAt(stages, snap, i, j);
        }
      }
    }
  }

  lemma RowAt(stages: seq<Stage>, snap: StageSnapshot, i: nat, j: nat)
    requires i < j < |stages| && Covers(stages, snap)
    ensures IsDelta(DeltasFrom(stages, snap, i, |stages|)[j - i - 1], snap, stages[i], stages[j])
  {
    hide IsDelta, DeltaOf;
    DeltaOfIsDelta(snap, stages[i], stages[j]);
  }

  lemma DeltasReport(stages: seq<Stage>, snap: StageSnapshot)
    requires Covers(stages, snap)
    ensures |Deltas(stages, snap, |stages|)| == PairsBefore(|stages|, |stages|)
    ensures ReportsOne(stages, snap, Deltas(stages, snap, |stages|), 0)
  {
    hide IsDelta, Deltas;
    DeltasAt(stages, snap, |stages|);
  }

  /** Wherever the deltas of a completion stand in a list, they report it. */
  lemma ReportsMoved(stages: seq<Stage>, snap: StageSnapshot, ds: seq<Delta>, at: nat, all: seq<Delta>, to: nat)
    requires ReportsOne(stages, snap, ds, at)
    requires var n := PairsBefore(|stages|, |stages|); to + n <= |all| && all[to..to + n] == ds[at..at + n]
    ensures ReportsOne(stages, snap, all, to)
  {
    hide IsDelta, Place, PairsBefore;
    var m := |stages|;
    forall i, j | 0 <= i < j < m
      ensures to + Place(m, i, j) < |all| && IsDelta(all[to + Place(m, i, j)], snap, stages[i], stages[j])
    {
      PlaceInRange(m, i, j);
      var k, n := Place(m, i, j), PairsBefore(m, m);
      assert all[to + k] == all[to..to + n][k] == ds[at..at + n][k] == ds[at + k];
    }
  }

  lemma PlaceInRange(m: nat, i: nat, j: nat)
    requires i < j < m
    ensures Place(m, i, j) < PairsBefore(m, m)
  {
    PairsGrow(m, i + 1, m);
  }

  lemma {:induction false} AllDeltasReport(stages: seq<Stage>, snaps: seq<StageSnapshot>)
    requires forall i :: 0 <= i < |snaps| ==> Covers(stages, snaps[i])
    ensures ReportsAll(stages, snaps, AllDeltas(stages, snaps))
    decreases |snaps|
  {
    hide Covers, Deltas, ReportsOne;
    if snaps != [] {
      var last, m := |snaps| - 1, PairsBefore(|stages|, |stages|);
      var before, all := AllDeltas(stages, snaps[..last]), AllDeltas(stages, snaps);
      AllDeltasReport(stages, snaps[..last]);
      DeltasReport(stages, snaps[last]);
      var own := Deltas(stages, snaps[last], |stages|);
      assert all == before + own && |before| == last * m;
      assert |all| == last * m + m == |snaps| * m;
      forall n | 0 <= n < |snaps|
        ensures ReportsOne(stages, snaps[n], all, n * m)
      {
        if n < last {
          FitsBefore(n, last, m);
          assert ReportsOne(stages, snaps[..last][n], before, n * m);
          ReportsMoved(stages, snaps[n], before, n * m, all, n * m);
        } else {
          ReportsMoved(stages, snaps[n], own, 0, all, n * m);
        }
      }
    }
  }

  lemma FitsBefore(n: nat, last: nat, m: nat)
    requires n < last
    ensures n * m + m <= last * m
  {
    assert (n + 1) * m <= last * m;
  }

  /** The double loop over stages that both matchers run on completion. */
  method CollectDeltas(stages: seq<Stage>, snap: StageSnapshot) returns (d: seq<Delta>)
    requires Covers(stages, snap)
    ensures d == Deltas(stages, snap, |stages|)
    ensures ReportsOne(stages, snap, d, 0) && |d| == PairsBefore(|stages|, |stages|)
  {
    hide Covers, DeltasFrom, ReportsOne, PairsBefore;
    d := [];
    var i := 0;
    while i < |stages|
      invariant 0 <= i <= |stages| && d == Deltas(stages, snap, i)
    {
      ghost var before := d;
      var j := i + 1;
      while j < |stages|
        invariant i < j <= |stages| && d == before + DeltasFrom(stages, snap, i, j)
      {
        DeltasFromSnoc(stages, snap, i, j);
        d := d + [DeltaOf(snap, stages[i], stages[j])];
        j := j + 1;
      }
      i := i + 1;
    }
    DeltasReport(stages, snap);
  }

  // ---- SeqMatcher ----

  class SeqMatcher {
    const stages: seq<Stage>
    const stagesMask: set<Stage>
    const firstStage: int
    const slots: array<Record>
    var pending: seq<Delta>

    /** All events fed so far, and the completions of before the last drain. */
    ghost var events: seq<RawEvent>
    ghost var drained: seq<StageSnapshot>
    ghost var undrained: seq<StageSnapshot>

    ghost predicate Valid()
      reads this, slots
    {
      && stagesMask == StagesOf(stages) && firstStage == FirstStage(stages)
      && SlotsInv(stages, slots[..], events)
      && Outputs(stages, events) == drained + undrained && PendingInv()
    }

    ghost predicate PendingInv()
      reads this`pending, this`undrained
    {
      && (forall i :: 0 <= i < |undrained| ==> Covers(stages, undrained[i]))
      && pending == AllDeltas(stages, undrained)
    }

    constructor (stages: seq<Stage>)
      ensures Valid() && fresh(slots) && this.stages == stages && events == [] && pending == []
    {
      var mask: set<Stage>, first: int := {}, 64;
      var i := 0;
      while i < |stages|
        invariant 0 <= i <= |stages| && mask == StagesOf(stages[..i]) && first == FirstStage(stages[..i])
      {
        MaskSnoc(stages, i);
        mask := mask + {stages[i]};
        if stages[i] < first { first := stages[i]; }
        i := i + 1;
      }
      assert stages[..i] == stages;
      this.stages, stagesMask, firstStage := stages, mask, first;
      slots := new Record[TID_SLOTS](_ => EMPTY);
      pending, events, drained, undrained := [], [], [], [];
      new;
      SlotsStart(stages, slots[..]);
    }

    /** `SeqMatcher::feed`; fired holds the snapshot the completion callbacks are given, if any. */
    method Feed(e: RawEvent) returns (fired: seq<StageSnapshot>)
      requires Valid()
      modifies this`pending, this`events, this`undrained, slots
      ensures Valid() && events == old(events) + [e]
      ensures fired == Output(stages, old(events), e)
      ensures Outputs(stages, events) == Outputs(stages, old(events)) + fired && undrained == old(undrained) + fired
    {
      hide SlotsInv, FirstStage, StagesOf, Stamp, Output, PendingInv, Outputs;
      fired := [];
      OutputsSnoc(stages, events, e);
      if e.stage !in stagesMask {
        SlotsIgnore(stages, slots[..], events, e);
        events := events + [e];
        return;
      }
      var h := SlotOf(e.tid);
      ghost var was := slots[..];
      SlotsFed(stages, was, events, e);
      var slot := Stamp(slots[h], e, e.stage == firstStage);
      if slot.filled >= stagesMask {
        var snap := Report(stagesMask, slot);
        AllStagesCovered(stages, slot);
        Emit(snap);
        fired := [snap];
        assert drained + undrained == old(drained + undrained) + fired;
        slot := slot.(filled := {});
      }
      slots[h] := slot;
      assert slots[..] == was[h := slot];
      events := events + [e];
    }

    method Emit(snap: StageSnapshot)
      requires PendingInv() && Covers(stages, snap)
      modifies this`pending, this`undrained
      ensures PendingInv() && undrained == old(undrained) + [snap]
    {
      var d := CollectDeltas(stages, snap);
      pending := pending + d;
      AllDeltasSnoc(stages, undrained, snap);
      undrained := undrained + [snap];
    }

    /** `SeqMatcher::drain`. */
    method Drain() returns (ret: seq<Delta>)
      requires Valid()
      modifies this`pending, this`drained, this`undrained
      ensures Valid() && ReportsAll(stages, old(undrained), ret)
      ensures undrained == [] && pending == []
      ensures Outputs(stages, events) == drained == old(drained) + old(undrained)
    {
      AllDeltasReport(stages, undrained);
      hide ReportsAll;
      ret := pending;
      pending := [];
      drained := drained + undrained;
      undrained := [];
    }
  }

  lemma MaskSnoc(stages: seq<Stage>, i: nat)
    requires i < |stages|
    ensures StagesOf(stages[..i + 1]) == StagesOf(stages[..i]) + {stages[i]}
    ensures FirstStage(stages[..i + 1]) == if stages[i] < FirstStage(stages[..i]) then stages[i]
              else FirstStage(stages[..i])
  {
    var a, b := stages[..i], stages[..i + 1];
    assert b == a + [stages[i]];
    assert forall s :: s in b <==> s in a || s == stages[i];
  }

  lemma AllStagesCovered(stages: seq<Stage>, rec: Record)
    requires |rec.ts| == 64
    ensures Covers(stages, Report(StagesOf(stages), rec))
  {
  }

  lemma OutputsSnoc(stages: seq<Stage>, events: seq<RawEvent>, e: RawEvent)
    ensures Outputs(stages, events + [e]) == Outputs(stages, events) + Output(stages, events, e)
  {
    assert (events + [e])[..|events|] == events;
  }

  // ---- KeyMatcher: what it should output ----

  function KeyEvents(stages: seq<Stage>, events: seq<RawEvent>, key: u64): seq<RawEvent> {
    if events == [] then []
    else
      var n := |events| - 1;
      KeyEvents(stages, events[..n], key)
      + if events[n].stage in stages && events[n].key == key then [events[n]] else []
  }

  /** The events of a key since its last completion: a completion empties them. */
  function Open(stages: seq<Stage>, evs: seq<RawEvent>): seq<RawEvent> {
    if evs == [] then []
    else
      var n := |evs| - 1;
      var open := Open(stages, evs[..n]) + [evs[n]];
      if Seen(open) == StagesOf(stages) then [] else open
  }

  /** The open events are the last ones, and do not cover all stages. */
  lemma {:induction false} OpenIsIncomplete(stages: seq<Stage>, evs: seq<RawEvent>)
    ensures var open := Open(stages, evs); |open| <= |evs| && open == evs[|evs| - |open|..]
    ensures stages != [] ==> Seen(Open(stages, evs)) != StagesOf(stages)
    decreases |evs|
  {
    assert Seen([]) == {} && (stages != [] ==> stages[0] in StagesOf(stages));
    hide Seen, StagesOf;
    if evs != [] {
      OpenIsIncomplete(stages, evs[..|evs| - 1]);
    }
  }

  /** The thread of the last first-stage event, 0 before there is one. */
  function LastTid(first: int, evs: seq<RawEvent>): u32 {
    var c := Cut(first, evs);
    if c < 0 then 0 else evs[c].tid
  }

  function KeySnapshot(stages: seq<Stage>, evs: seq<RawEvent>): StageSnapshot {
    StageSnapshot(map s | s in Seen(evs) :: Latest(evs, s), LastTid(FirstStage(stages), evs))
  }

  /** What one more event of its key completes: all stages have been seen since the last completion. */
  function KeyOutput(stages: seq<Stage>, events: seq<RawEvent>, e: RawEvent): seq<StageSnapshot> {
    if e.stage !in stages then []
    else
      var evs := Open(stages, KeyEvents(stages, events, e.key)) + [e];
      if Seen(evs) == StagesOf(stages) then [KeySnapshot(stages, evs)] else []
  }

  /** Every completion of a stream, with its key, in order. */
  function KeyOutputs(stages: seq<Stage>, events: seq<RawEvent>): seq<(u64, StageSnapshot)> {
    if events == [] then []
    else
      var n := |events| - 1;
      KeyOutputs(stages, events[..n]) + Tagged(events[n].key, KeyOutput(stages, events[..n], events[n]))
  }

  function Tagged(key: u64, snaps: seq<StageSnapshot>): seq<(u64, StageSnapshot)> {
    seq(|snaps|, i requires 0 <= i < |snaps| => (key, snaps[i]))
  }

  function SnapsOf(outs: seq<(u64, StageSnapshot)>): seq<StageSnapshot> {
    seq(|outs|, i requires 0 <= i < |outs| => outs[i].1)
  }

  lemma SnapsAppend(outs: seq<(u64, StageSnapshot)>, key: u64, snaps: seq<StageSnapshot>)
    ensures SnapsOf(outs + Tagged(key, snaps)) == SnapsOf(outs) + snaps
  {
  }

  // ---- KeyMatcher: the records ----

  ghost predicate RecordInv(stages: seq<Stage>, rec: Record, open: seq<RawEvent>) {
    && |rec.ts| == 64 && rec.filled == Seen(open) <= StagesOf(stages) && rec.tid == LastTid(FirstStage(stages), open)
    && forall s :: s in rec.filled ==> rec.ts[s] == Latest(open, s)
  }

  /** The record of a key after one event, before completion is checked. */
  function StampKey(rec: Record, e: RawEvent, isFirst: bool): Record
    requires |rec.ts| == 64
  {
    var rec := if isFirst then rec.(tid := e.tid) else rec;
    rec.(ts := rec.ts[e.stage := e.ts], filled := rec.filled + {e.stage})
  }

  /** There is a record for exactly the keys with events since their last completion. */
  ghost predicate RecordsInv(stages: seq<Stage>, records: map<u64, Record>, events: seq<RawEvent>) {
    forall k: u64 ::
      var open := Open(stages, KeyEvents(stages, events, k));
      (k in records <==> open != []) && (k in records ==> RecordInv(stages, records[k], open))
  }

  lemma FeedKey(stages: seq<Stage>, rec: Record, open: seq<RawEvent>, e: RawEvent)
    requires RecordInv(stages, rec, open) && e.stage in stages
    ensures var rec' := StampKey(rec, e, e.stage == FirstStage(stages)); RecordInv(stages, rec', open + [e])
  {
    SeenSnoc(open, e);
    CutSnoc(FirstStage(stages), open, e);
    forall s | s in Seen(open + [e])
      ensures s != e.stage ==> s in Seen(open)
      ensures Latest(open + [e], s) == if s == e.stage then e.ts else Latest(open, s)
    {
      LatestSnoc(open, e, s);
    }
  }

  lemma EmptyRecord(stages: seq<Stage>)
    ensures RecordInv(stages, EMPTY, [])
  {
  }

  lemma KeyEventsSnoc(stages: seq<Stage>, events: seq<RawEvent>, e: RawEvent, key: u64)
    ensures KeyEvents(stages, events + [e], key)
            == if e.stage in stages && e.key == key then KeyEvents(stages, events, key) + [e]
              else KeyEvents(stages, events, key)
  {
    assert (events + [e])[..|events|] == events;
  }

  lemma OpenSnoc(stages: seq<Stage>, evs: seq<RawEvent>, e: RawEvent)
    ensures Open(stages, evs + [e])
            == if Seen(Open(stages, evs) + [e]) == StagesOf(stages) then [] else Open(stages, evs) + [e]
  {
    assert (evs + [e])[..|evs|] == evs;
  }

  lemma FullRecordReports(stages: seq<Stage>, rec: Record, open: seq<RawEvent>)
    requires RecordInv(stages, rec, open)
    ensures StagesOf(stages) <= rec.filled <==> Seen(open) == StagesOf(stages)
    ensures Seen(open) == StagesOf(stages) ==> Report(StagesOf(stages), rec) == KeySnapshot(stages, open)
  {
    hide Seen, Latest;
  }

  /** One event reaches the record of its key, and does there what it should. */
  lemma RecordsFed(stages: seq<Stage>, records: map<u64, Record>, events: seq<RawEvent>, e: RawEvent)
    requires RecordsInv(stages, records, events) && e.stage in StagesOf(stages)
    ensures var rec0 := if e.key in records then records[e.key] else EMPTY;
            && |rec0.ts| == 64
            && var rec := StampKey(rec0, e, e.stage == FirstStage(stages));
               var full := StagesOf(stages) <= rec.filled;
            && |rec.ts| == 64
            && KeyOutput(stages, events, e) == (if full then [Report(StagesOf(stages), rec)] else [])
            && RecordsInv(stages, if full then records - {e.key} else records[e.key := rec], events + [e])
  {
    hide Seen, Latest, Cut, Open, KeyEvents, StampKey, LastTid, Report, KeySnapshot, FirstStage;
    var rec0 := if e.key in records then records[e.key] else EMPTY;
    var evs := KeyEvents(stages, events, e.key);
    EmptyRecord(stages);
    FeedKey(stages, rec0, Open(stages, evs), e);
    var rec := StampKey(rec0, e, e.stage == FirstStage(stages));
    FullRecordReports(stages, rec, Open(stages, evs) + [e]);
    KeyEventsSnoc(stages, events, e, e.key);
    OpenSnoc(stages, evs, e);
    var records' := if StagesOf(stages) <= rec.filled then records - {e.key} else records[e.key := rec];
    forall k: u64
      ensures var open := Open(stages, KeyEvents(stages, events + [e], k));
              (k in records' <==> open != []) && (k in records' ==> RecordInv(stages, records'[k], open))
    {
      KeyEventsSnoc(stages, events, e, k);
    }
  }

  lemma RecordsIgnore(stages: seq<Stage>, records: map<u64, Record>, events: seq<RawEvent>, e: RawEvent)
    requires RecordsInv(stages, records, events) && e.stage !in StagesOf(stages)
    ensures RecordsInv(stages, records, events + [e]) && KeyOutput(stages, events, e) == []
  {
    hide Open, KeyEvents, RecordInv;
    forall k: u64
      ensures KeyEvents(stages, events + [e], k) == KeyEvents(stages, events, k)
    {
      KeyEventsSnoc(stages, events, e, k);
    }
  }

  /** There is a record for exactly the keys that have seen some stage since their last
      completion, and no such key has seen all of them. */
  lemma RecordsAreIncomplete(stages: seq<Stage>, records: map<u64, Record>, events: seq<RawEvent>, key: u64)
    requires RecordsInv(stages, records, events)
    ensures var seen := Seen(Open(stages, KeyEvents(stages, events, key)));
            && (key in records <==> {} < seen < StagesOf(stages))
            && (key in records ==> records[key].filled == seen)
  {
    var open := Open(stages, KeyEvents(stages, events, key));
    OpenIsIncomplete(stages, KeyEvents(stages, events, key));
    if open != [] {
      assert open[0].stage in Seen(open);
    }
    assert stages == [] ==> StagesOf(stages) == {};
  }

  /** The events of one key. */
  function OnlyKey(events: seq<RawEvent>, key: u64): seq<RawEvent> {
    if events == [] then []
    else
      var n := |events| - 1;
      OnlyKey(events[..n], key) + if events[n].key == key then [events[n]] else []
  }

  /** The completions of one key. */
  function OfKey(outs: seq<(u64, StageSnapshot)>, key: u64): seq<(u64, StageSnapshot)> {
    if outs == [] then []
    else
      var n := |outs| - 1;
      OfKey(outs[..n], key) + if outs[n].0 == key then [outs[n]] else []
  }

  lemma OfKeyAppend(outs: seq<(u64, StageSnapshot)>, more: seq<(u64, StageSnapshot)>, key: u64)
    requires |more| <= 1
    ensures OfKey(outs + more, key) == OfKey(outs, key) + if more != [] && more[0].0 == key then more else []
  {
    if more == [] {
      assert outs + more == outs;
    } else {
      assert (outs + more)[..|outs|] == outs;
    }
  }

  lemma {:induction false} KeyEventsOfKey(stages: seq<Stage>, events: seq<RawEvent>, key: u64)
    ensures KeyEvents(stages, OnlyKey(events, key), key) == KeyEvents(stages, events, key)
    decreases |events|
  {
    if events != [] {
      var n := |events| - 1;
      KeyEventsOfKey(stages, events[..n], key);
      assert events[..n] + [events[n]] == events;
      KeyEventsSnoc(stages, events[..n], events[n], key);
      if events[n].key == key {
        KeyEventsSnoc(stages, OnlyKey(events[..n], key), events[n], key);
      } else {
        assert OnlyKey(events, key) == OnlyKey(events[..n], key);
      }
    }
  }

  lemma KeyOutputsSnoc(stages: seq<Stage>, events: seq<RawEvent>, e: RawEvent)
    ensures KeyOutputs(stages, events + [e]) == KeyOutputs(stages, events) + Tagged(e.key, KeyOutput(stages, events, e))
  {
    assert (events + [e])[..|events|] == events;
  }

  /** For any interleaving, the completions of a key are those of its own events alone. */
  lemma {:induction false} KeysAreIndependent(stages: seq<Stage>, events: seq<RawEvent>, key: u64)
    ensures OfKey(KeyOutputs(stages, events), key) == KeyOutputs(stages, OnlyKey(events, key))
    decreases |events|
  {
    hide Open, KeyEvents, KeySnapshot, Seen, StagesOf;
    if events != [] {
      var n := |events| - 1;
      var before, e := events[..n], events[n];
      KeysAreIndependent(stages, before, key);
      OfKeyAppend(KeyOutputs(stages, before), Tagged(e.key, KeyOutput(stages, before, e)), key);
      if e.key == key {
        KeyEventsOfKey(stages, before, key);
        KeyOutputsSnoc(stages, OnlyKey(before, key), e);
      } else {
        assert OnlyKey(events, key) == OnlyKey(before, key);
      }
    }
  }

  // ---- KeyMatcher ----

  class KeyMatcher {
    const stages: seq<Stage>
    const stagesMask: set<Stage>
    const firstStage: int
    var records: map<u64, Record>
    var pending: seq<Delta>

    /** All events fed so far, and the completions of before and after the last drain. */
    ghost var events: seq<RawEvent>
    ghost var drained: seq<StageSnapshot>
    ghost var undrained: seq<StageSnapshot>

    ghost predicate Valid()
      reads this
    {
      && stagesMask == StagesOf(stages) && firstStage == FirstStage(stages)
      && RecordsInv(stages, records, events)
      && SnapsOf(KeyOutputs(stages, events)) == drained + undrained
      && (forall i :: 0 <= i < |undrained| ==> Covers(stages, undrained[i]))
      && pending == AllDeltas(stages, undrained)
    }

    constructor (stages: seq<Stage>)
      ensures Valid() && this.stages == stages && events == [] && pending == []
    {
      var mask: set<Stage>, first: int := {}, 64;
      var i := 0;
      while i < |stages|
        invariant 0 <= i <= |stages| && mask == StagesOf(stages[..i]) && first == FirstStage(stages[..i])
      {
        MaskSnoc(stages, i);
        mask := mask + {stages[i]};
        if stages[i] < first { first := stages[i]; }
        i := i + 1;
      }
      assert stages[..i] == stages;
      this.stages, stagesMask, firstStage := stages, mask, first;
      records, pending, events, drained, undrained := map[], [], [], [], [];
    }

    /** `KeyMatcher::feed`. */
    method Feed(e: RawEvent)
      requires Valid()
      modifies this
      ensures Valid() && events == old(events) + [e]
      ensures undrained == old(undrained) + KeyOutput(stages, old(events), e) && drained == old(drained)
      ensures KeyOutputs(stages, events)
                == KeyOutputs(stages, old(events)) + Tagged(e.key, KeyOutput(stages, old(events), e))
    {
      hide RecordsInv, FirstStage, StagesOf, StampKey, KeyOutput, AllDeltas, Covers, KeyOutputs, SnapsOf, Tagged;
      KeyOutputsSnoc(stages, events, e);
      SnapsAppend(KeyOutputs(stages, events), e.key, KeyOutput(stages, events, e));
      if e.stage !in stagesMask {
        RecordsIgnore(stages, records, events, e);
        events := events + [e];
        assert undrained == undrained + [];
        return;
      }
      RecordsFed(stages, records, events, e);
      var rec := StampKey(if e.key in records then records[e.key] else EMPTY, e, e.stage == firstStage);
      records := records[e.key := rec];
      if rec.filled >= stagesMask {
        var snap := Report(stagesMask, rec);
        AllStagesCovered(stages, rec);
        var d := CollectDeltas(stages, snap);
        pending := pending + d;
        AllDeltasSnoc(stages, undrained, snap);
        undrained := undrained + [snap];
        assert records - {e.key} == old(records) - {e.key};
        records := records - {e.key};
      }
      events := events + [e];
      assert undrained == old(undrained) + KeyOutput(stages, old(events), e);
    }

    /** `KeyMatcher::drain`. */
    method Drain() returns (ret: seq<Delta>)
      requires Valid()
      modifies this`pending, this`drained, this`undrained
      ensures Valid() && ReportsAll(stages, old(undrained), ret)
      ensures undrained == [] && pending == []
      ensures SnapsOf(KeyOutputs(stages, events)) == drained == old(drained) + old(undrained)
    {
      AllDeltasReport(stages, undrained);
      hide RecordsInv, FirstStage, StagesOf, KeyOutputs, SnapsOf, ReportsAll;
      ret := pending;
      pending := [];
      drained := drained + undrained;
      undrained := [];
    }
  }
}
