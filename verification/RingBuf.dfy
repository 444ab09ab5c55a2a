/** The consumer of a BPF ring buffer against a concurrent producer (ringbuf.c, lines 194-246).

The state machine interleaves the atomic steps of `ringbuf_process_ring` with those of the
kernel: a reservation writes a busy header and only then moves producer_pos, a reserved record
is filled in and then committed or discarded, and space is reserved only behind consumer_pos.
Positions count bytes and never wrap; addresses are positions modulo the size of the ring. */
module RingBuf {
  import opened Words

  /** A length leaves the two flag bits of a header clear. */
  type Len = x: int | 0 <= x < 0x4000_0000

  const BUSY_BIT := 0x8000_0000
  const DISCARD_BIT := 0x4000_0000
  const HDR_SZ := 8

  predicate IsBusy(len: u32) { len / BUSY_BIT % 2 == 1 }

  predicate IsDiscarded(len: u32) { len / DISCARD_BIT % 2 == 1 }

  /** `roundup_len`. */
  function RoundupLen(len: u32): nat {
    var len := len * 4 % 0x1_0000_0000 / 4;
    (len + HDR_SZ + 7) / 8 * 8
  }

  datatype Status = Busy | Committed | Discarded

  /** What the producer has reserved: a header and len bytes behind it. */
  datatype Record = Record(pos: nat, len: Len, status: Status, body: seq<u32>)

  datatype Pc =
    | Idle
    | LoadConsumerPos
    | LoadProducerPos
    | Test
    | LoadLen
    | Callback(at: nat, len: nat)
    | StoreConsumerPos
    | StoreAndFail(err: int)

  /** mem holds one cell per byte of the ring; a header sits in the cell of its first byte.
      recs are all reservations in order; freed, taken and seen count those below consumer_pos
      and below the consumer's own two variables; loaded is what freed was when the consumer last
      loaded producer_pos; given and present tell how many samples had been delivered, and how many
      records reserved, when the consumer was last called. */
  datatype Ring = Ring(
    mem: seq<u32>, consumerPos: nat, producerPos: nat, reserving: seq<Len>, recs: seq<Record>,
    pc: Pc, consPos: nat, prodPos: nat, gotNewData: bool, cnt: nat, ret: int,
    delivered: seq<seq<u32>>, given: nat, present: nat, freed: nat, taken: nat, seen: nat, loaded: nat)

  datatype Step =
    | Reserve(len: Len)
    | Publish
    | Fill(i: nat, j: nat, b: u32)
    | Finish(i: nat, discard: bool)
    | Call
    | Consume(cbResult: int)

  function Header(r: Record): u32 {
    r.len + (match r.status case Busy => BUSY_BIT case Committed => 0 case Discarded => DISCARD_BIT)
  }

  function Addr(s: Ring, pos: nat): (a: nat)
    requires |s.mem| > 0
    ensures a < |s.mem|
  {
    pos % |s.mem|
  }

  /** The bytes a callback finds behind the header at a position. */
  function Sample(s: Ring, at: nat, len: nat): seq<u32>
    requires |s.mem| > 0
  {
    seq(len, j requires 0 <= j < len => s.mem[Addr(s, at + HDR_SZ + j)])
  }

  function Fresh(mem: seq<u32>): Ring {
    Ring(mem, 0, 0, [], [], Idle, 0, 0, false, 0, 0, [], 0, 0, 0, 0, 0, 0)
  }

  predicate Enabled(s: Ring, step: Step) {
    |s.mem| > 0 &&
    match step
    case Reserve(len) =>
      s.reserving == [] && s.producerPos + RoundupLen(len) - s.consumerPos < |s.mem|
    case Publish => |s.reserving| == 1
    case Fill(i, j, b) => i < |s.recs| && s.recs[i].status == Busy && j < s.recs[i].len && j < |s.recs[i].body|
    case Finish(i, _) => i < |s.recs| && s.recs[i].status == Busy
    case Call => s.pc == Idle
    case Consume(_) => s.pc != Idle
  }

  function Apply(s: Ring, step: Step): Ring
    requires Enabled(s, step)
  {
    match step
    case Reserve(len) =>
      s.(mem := s.mem[Addr(s, s.producerPos) := len + BUSY_BIT], reserving := [len])
    case Publish =>
      var len := s.reserving[0];
      s.(reserving := [], producerPos := s.producerPos + RoundupLen(len),
         recs := s.recs + [Record(s.producerPos, len, Busy, Sample(s, s.producerPos, len))])
    case Fill(i, j, b) =>
      var r := s.recs[i];
      s.(mem := s.mem[Addr(s, r.pos + HDR_SZ + j) := b], recs := s.recs[i := r.(body := r.body[j := b])])
    case Finish(i, discard) =>
      var r := s.recs[i].(status := if discard then Discarded else Committed);
      s.(mem := s.mem[Addr(s, r.pos) := Header(r)], recs := s.recs[i := r])
    case Call =>
      s.(pc := LoadConsumerPos, cnt := 0, given := |s.delivered|, present := |s.recs|)
    case Consume(cbResult) =>
      ConsumerStep(s, cbResult)
  }

  /** One step of `ringbuf_process_ring`. */
  function ConsumerStep(s: Ring, cbResult: int): Ring
    requires |s.mem| > 0
  {
    match s.pc
    case Idle => s
    case LoadConsumerPos =>
      s.(consPos := s.consumerPos, taken := s.freed, pc := LoadProducerPos)
    case LoadProducerPos =>
      s.(gotNewData := false, prodPos := s.producerPos, seen := |s.recs|, loaded := s.freed, pc := Test)
    case Test =>
      if s.consPos < s.prodPos then s.(pc := LoadLen)
      else if s.gotNewData then s.(pc := LoadProducerPos)
      else s.(pc := Idle, ret := s.cnt)
    case LoadLen =>
      var len := s.mem[Addr(s, s.consPos)];
      if IsBusy(len) then s.(pc := Idle, ret := s.cnt)
      else s.(gotNewData := true, consPos := s.consPos + RoundupLen(len), taken := s.taken + 1,
              pc := if IsDiscarded(len) then StoreConsumerPos else Callback(s.consPos, len))
    case Callback(at, len) =>
      var s := s.(delivered := s.delivered + [Sample(s, at, len)]);
      if cbResult < 0 then s.(pc := StoreAndFail(cbResult)) else s.(cnt := s.cnt + 1, pc := StoreConsumerPos)
    case StoreConsumerPos =>
      s.(consumerPos := s.consPos, freed := s.taken, pc := Test)
    case StoreAndFail(err) =>
      s.(consumerPos := s.consPos, freed := s.taken, pc := Idle, ret := err)
  }

  // ---- the invariant ----

  /** Where record i starts, or would start. */
  function PosAt(s: Ring, i: nat): nat {
    if i < |s.recs| then s.recs[i].pos else s.producerPos
  }

  function Span(r: Record): nat {
    RoundupLen(r.len)
  }

  /** Records lie end to end, from position 0 up to producer_pos. */
  ghost predicate Layout(s: Ring) {
    && PosAt(s, 0) == 0
    && (forall i :: 0 <= i < |s.recs| ==> s.recs[i].len == |s.recs[i].body|)
    && (forall i, j :: 0 <= i < |s.recs| && j == i + 1 ==> s.recs[i].pos + Span(s.recs[i]) == PosAt(s, j))
  }

  /** The memory of a record holds it. */
  ghost predicate Held(s: Ring, r: Record)
    requires |s.mem| > 0
  {
    && s.mem[Addr(s, r.pos)] == Header(r)
    && forall j :: 0 <= j < r.len && j < |r.body| ==> s.mem[Addr(s, r.pos + HDR_SZ + j)] == r.body[j]
  }

  /** The committed records among the first n. */
  function Samples(recs: seq<Record>, n: nat): seq<seq<u32>>
    requires n <= |recs|
  {
    if n == 0 then []
    else Samples(recs, n - 1) + if recs[n - 1].status == Committed then [recs[n - 1].body] else []
  }

  ghost predicate Window(s: Ring)
    requires |s.mem| > 0
  {
    && |s.reserving| <= 1
    && (s.reserving == [] ==> s.producerPos - s.consumerPos < |s.mem|)
    && (s.reserving != [] ==> s.producerPos + RoundupLen(s.reserving[0]) - s.consumerPos < |s.mem|
                              && s.mem[Addr(s, s.producerPos)] == s.reserving[0] + BUSY_BIT)
  }

  ghost predicate Counts(s: Ring) {
    && s.freed <= s.taken <= |s.recs| && s.consumerPos == PosAt(s, s.freed)
    && (s.pc != Idle && s.pc != LoadConsumerPos ==> s.consPos == PosAt(s, s.taken))
    && (forall i :: 0 <= i < s.taken ==> s.recs[i].status != Busy)
    && (s.pc == Test && !s.gotNewData ==> s.loaded == s.freed)
    && (s.pc.Callback? || s.pc == StoreConsumerPos ==> s.gotNewData)
    && s.present <= |s.recs| && (s.pc in {Idle, LoadConsumerPos, LoadProducerPos} || s.present <= s.seen)
    && match s.pc
       case Idle | LoadConsumerPos | LoadProducerPos => s.taken == s.freed
       case Test => s.taken == s.freed && s.taken <= s.seen <= |s.recs| && s.prodPos == PosAt(s, s.seen)
       case LoadLen => s.taken == s.freed && s.taken < s.seen <= |s.recs| && s.prodPos == PosAt(s, s.seen)
       case Callback(at, len) =>
         && s.taken == s.freed + 1 && s.taken <= s.seen <= |s.recs| && s.prodPos == PosAt(s, s.seen)
         && var r := s.recs[s.freed]; r.status == Committed && at == r.pos && len == r.len
       case StoreConsumerPos | StoreAndFail(_) =>
         s.taken == s.freed + 1 && s.taken <= s.seen <= |s.recs| && s.prodPos == PosAt(s, s.seen)
  }

  /** How many records the callback has been given or will never be. */
  function Passed(s: Ring): int { if s.pc.Callback? then s.taken - 1 else s.taken }

  ghost predicate Results(s: Ring) {
    && 0 <= Passed(s) <= |s.recs| && s.delivered == Samples(s.recs, Passed(s))
    && (s.pc != Idle ==> s.given + s.cnt + (if s.pc.StoreAndFail? then 1 else 0) == |s.delivered|)
    && (s.pc.StoreAndFail? ==> s.pc.err < 0)
  }

  ghost predicate Inv(s: Ring) {
    && |s.mem| > 0 && Layout(s) && Window(s) && Counts(s) && Results(s)
    && forall i :: s.freed <= i < |s.recs| ==> Held(s, s.recs[i])
  }

  // ---- lengths and addresses ----

  lemma RoundupLenIs(len: Len)
    ensures RoundupLen(len) % 8 == 0 && len + HDR_SZ <= RoundupLen(len) < len + HDR_SZ + 8
  {
  }

  lemma FlagsDoNotCount(len: Len)
    ensures RoundupLen(len + BUSY_BIT) == RoundupLen(len) == RoundupLen(len + DISCARD_BIT)
  {
    assert (len + BUSY_BIT) * 4 % 0x1_0000_0000 == len * 4 == (len + DISCARD_BIT) * 4 % 0x1_0000_0000;
  }

  lemma HeaderReads(r: Record)
    ensures IsBusy(Header(r)) <==> r.status == Busy
    ensures IsDiscarded(Header(r)) <==> r.status == Discarded
    ensures RoundupLen(Header(r)) == Span(r)
    ensures r.status == Committed ==> Header(r) == r.len
  {
    hide RoundupLen;
    FlagsDoNotCount(r.len);
  }

  lemma {:induction false} LaterRecordsFollow(s: Ring, i: nat, j: nat)
    requires Layout(s) && i < j <= |s.recs|
    ensures s.recs[i].pos + Span(s.recs[i]) <= PosAt(s, j)
    decreases j
  {
    hide Span;
    if i < j - 1 {
      LaterRecordsFollow(s, i, j - 1);
      assert s.recs[j - 1].pos + Span(s.recs[j - 1]) == PosAt(s, j);
    }
  }

  /** Storing outside a record, but within reach of the ring, leaves the record alone. */
  lemma StoreElsewhere(s: Ring, mem: seq<u32>, r: Record, lo: nat, pos: nat, v: u32)
    requires |s.mem| > 0 && Held(s, r) && lo <= r.pos && r.pos + Span(r) <= lo + |s.mem| && lo <= pos < lo + |s.mem|
    requires pos < r.pos || r.pos + Span(r) <= pos
    requires mem == s.mem[Addr(s, pos) := v]
    ensures Held(s.(mem := mem), r)
  {
    RoundupLenIs(r.len);
    var t := s.(mem := mem);
    forall p: nat | r.pos <= p < r.pos + Span(r)
      ensures mem[Addr(t, p)] == s.mem[Addr(s, p)]
    {
      if p < pos { DistinctResidues(|mem|, p, pos); } else { DistinctResidues(|mem|, pos, p); }
    }
    assert Addr(t, r.pos) == Addr(s, r.pos);
  }

  /** A record not yet freed is within reach. */
  lemma RecordInWindow(s: Ring, i: nat)
    requires |s.mem| > 0 && Layout(s) && Window(s) && Counts(s) && s.freed <= i < |s.recs|
    ensures s.consumerPos <= s.recs[i].pos && s.recs[i].pos + Span(s.recs[i]) <= s.producerPos < s.consumerPos + |s.mem|
  {
    hide Span;
    LaterRecordsFollow(s, i, |s.recs|);
    if s.freed < i {
      LaterRecordsFollow(s, s.freed, i);
    }
  }

  // ---- every step keeps the invariant ----

  lemma {:induction false} SamplesOfPrefix(a: seq<Record>, b: seq<Record>, n: nat)
    requires n <= |a| && n <= |b| && forall i :: 0 <= i < n ==> a[i] == b[i]
    ensures Samples(a, n) == Samples(b, n)
  {
    if n > 0 {
      SamplesOfPrefix(a, b, n - 1);
    }
  }

  /** The log decides the layout, and the memory what is held. */
  lemma SameLog(s: Ring, t: Ring)
    requires Layout(s) && t.recs == s.recs && t.producerPos == s.producerPos
    ensures Layout(t) && forall k :: 0 <= k ==> PosAt(t, k) == PosAt(s, k)
  {
    hide Span;
    forall i, j | 0 <= i < |t.recs| && j == i + 1
      ensures t.recs[i].pos + Span(t.recs[i]) == PosAt(t, j)
    {
      assert s.recs[i].pos + Span(s.recs[i]) == PosAt(s, j);
    }
  }

  lemma StillHeld(s: Ring, t: Ring)
    requires |s.mem| > 0 && t.mem == s.mem && t.recs == s.recs && s.freed <= t.freed
    requires forall i :: s.freed <= i < |s.recs| ==> Held(s, s.recs[i])
    ensures forall i :: t.freed <= i < |t.recs| ==> Held(t, t.recs[i])
  {
    forall i | t.freed <= i < |t.recs|
      ensures Held(t, t.recs[i])
    {
      assert Held(s, s.recs[i]);
    }
  }

  lemma ReserveKeepsInv(s: Ring, len: Len)
    requires Inv(s) && Enabled(s, Reserve(len))
    ensures Inv(Apply(s, Reserve(len)))
  {
    hide Span, RoundupLen, Layout;
    var t := Apply(s, Reserve(len));
    RoundupLenIs(len);
    SameLog(s, t);
    forall i | s.freed <= i < |s.recs|
      ensures Held(t, t.recs[i])
    {
      RecordInWindow(s, i);
      StoreElsewhere(s, t.mem, s.recs[i], s.consumerPos, s.producerPos, len + BUSY_BIT);
      assert Held(s.(mem := t.mem), s.recs[i]);
    }
  }

  lemma PublishKeepsLayout(s: Ring)
    requires Inv(s) && Enabled(s, Publish)
    ensures var t := Apply(s, Publish);
            && Layout(t) && (forall k :: 0 <= k <= |s.recs| ==> PosAt(t, k) == PosAt(s, k))
            && forall i :: t.freed <= i < |t.recs| ==> Held(t, t.recs[i])
  {
    hide RoundupLen, Window, Counts, Results;
    var t := Apply(s, Publish);
    var n := |s.recs|;
    SpanIs(t.recs[n]);
    forall i, j | 0 <= i < |t.recs| && j == i + 1
      ensures t.recs[i].pos + Span(t.recs[i]) == PosAt(t, j)
    {
      assert i < n ==> s.recs[i].pos + Span(s.recs[i]) == PosAt(s, j);
    }
    forall i | t.freed <= i < |t.recs|
      ensures Held(t, t.recs[i])
    {
      if i < n {
        assert Held(s, s.recs[i]);
      } else {
        ReservedIsHeld(s);
      }
    }
  }

  lemma ReservedIsHeld(s: Ring)
    requires Inv(s) && Enabled(s, Publish)
    ensures var t := Apply(s, Publish); Held(t, t.recs[|s.recs|])
  {
    hide Layout, Counts, Results, RoundupLen;
    var t, len := Apply(s, Publish), s.reserving[0];
    var r := t.recs[|s.recs|];
    assert s.mem[Addr(t, r.pos)] == Header(r);
    forall j | 0 <= j < r.len
      ensures t.mem[Addr(t, r.pos + HDR_SZ + j)] == r.body[j]
    {
      assert Sample(s, s.producerPos, len)[j] == s.mem[Addr(s, s.producerPos + HDR_SZ + j)];
    }
  }

  lemma PublishKeepsInv(s: Ring)
    requires Inv(s) && Enabled(s, Publish)
    ensures Inv(Apply(s, Publish))
  {
    hide RoundupLen, Layout, Held, Samples, PosAt, Span;
    var t := Apply(s, Publish);
    PublishKeepsLayout(s);
    SamplesOfPrefix(s.recs, t.recs, Passed(s));
  }

  /** Nothing but the memory and record i differs, and that record has not moved. */
  ghost predicate OnlyRecord(s: Ring, t: Ring, i: nat) {
    && i < |s.recs| == |t.recs| && t == s.(mem := t.mem, recs := t.recs) && |t.mem| == |s.mem|
    && (forall k :: 0 <= k < |s.recs| && k != i ==> t.recs[k] == s.recs[k])
    && t.recs[i].pos == s.recs[i].pos && t.recs[i].len == s.recs[i].len && |t.recs[i].body| == |s.recs[i].body|
  }

  lemma KeepsLayout(s: Ring, t: Ring, i: nat)
    requires Layout(s) && OnlyRecord(s, t, i)
    ensures Layout(t) && forall k :: 0 <= k <= |s.recs| ==> PosAt(t, k) == PosAt(s, k)
  {
    hide RoundupLen;
    forall k, j | 0 <= k < |t.recs| && j == k + 1
      ensures t.recs[k].pos + Span(t.recs[k]) == PosAt(t, j)
    {
      assert s.recs[k].pos + Span(s.recs[k]) == PosAt(s, j);
    }
  }

  /** A store inside a record changes one of its cells. */
  lemma StoreInside(s: Ring, mem: seq<u32>, r: Record, pos: nat, v: u32, p: nat)
    requires |s.mem| > 0 && Span(r) <= |s.mem| && mem == s.mem[Addr(s, pos) := v]
    requires r.pos <= pos < r.pos + Span(r) && r.pos <= p < r.pos + Span(r)
    ensures mem[Addr(s, p)] == if p == pos then v else s.mem[Addr(s, p)]
  {
    if p < pos { DistinctResidues(|mem|, p, pos); }
    if pos < p { DistinctResidues(|mem|, pos, p); }
  }

  /** The other records, and the header being reserved, are still there. */
  lemma StoreKeepsOthers(s: Ring, t: Ring, i: nat, pos: nat, v: u32)
    requires Inv(s) && OnlyRecord(s, t, i) && s.freed <= i && t.mem == s.mem[Addr(s, pos) := v]
    requires s.recs[i].pos <= pos < s.recs[i].pos + Span(s.recs[i])
    ensures Window(t)
    ensures forall k :: s.freed <= k < |s.recs| && k != i ==> Held(t, t.recs[k])
  {
    hide RoundupLen, Span, Results;
    RecordInWindow(s, i);
    if s.reserving != [] {
      RoundupLenIs(s.reserving[0]);
      DistinctResidues(|s.mem|, pos, s.producerPos);
    }
    forall k | s.freed <= k < |s.recs| && k != i
      ensures Held(t, t.recs[k])
    {
      RecordInWindow(s, k);
      if k < i { LaterRecordsFollow(s, k, i); } else { LaterRecordsFollow(s, i, k); }
      StoreElsewhere(s, t.mem, s.recs[k], s.consumerPos, pos, v);
      assert Held(s.(mem := t.mem), s.recs[k]);
    }
  }

  lemma FillKeepsInv(s: Ring, i: nat, j: nat, b: u32)
    requires Inv(s) && Enabled(s, Fill(i, j, b))
    ensures Inv(Apply(s, Fill(i, j, b)))
  {
    hide RoundupLen, Span, Layout, Samples, Window;
    var t := Apply(s, Fill(i, j, b));
    var r, pos := s.recs[i], s.recs[i].pos + HDR_SZ + j;
    SamplesOfPrefix(s.recs, t.recs, Passed(s));
    RoundupLenIs(r.len);
    SpanIs(r);
    RecordInWindow(s, i);
    KeepsLayout(s, t, i);
    StoreKeepsOthers(s, t, i, pos, b);
    forall p: nat | r.pos <= p < r.pos + Span(r)
      ensures t.mem[Addr(s, p)] == if p == pos then b else s.mem[Addr(s, p)]
    {
      StoreInside(s, t.mem, r, pos, b, p);
    }
    assert Held(t, t.recs[i]);
  }

  lemma SpanIs(r: Record)
    ensures Span(r) == RoundupLen(r.len)
  {
  }

  lemma FinishKeepsInv(s: Ring, i: nat, discard: bool)
    requires Inv(s) && Enabled(s, Finish(i, discard))
    ensures Inv(Apply(s, Finish(i, discard)))
  {
    hide RoundupLen, Span, Layout, Samples, Window;
    var t := Apply(s, Finish(i, discard));
    var r, v := s.recs[i], Header(t.recs[i]);
    SamplesOfPrefix(s.recs, t.recs, Passed(s));
    RoundupLenIs(r.len);
    SpanIs(r);
    RecordInWindow(s, i);
    KeepsLayout(s, t, i);
    StoreKeepsOthers(s, t, i, r.pos, v);
    forall p: nat | r.pos <= p < r.pos + Span(r)
      ensures t.mem[Addr(s, p)] == if p == r.pos then v else s.mem[Addr(s, p)]
    {
      StoreInside(s, t.mem, r, r.pos, v, p);
    }
    assert Held(t, t.recs[i]);
  }

  /** The consumer at a committed or discarded record reads what was put there. */
  lemma SampleIsBody(s: Ring, r: Record)
    requires |s.mem| > 0 && Held(s, r) && |r.body| == r.len
    ensures Sample(s, r.pos, r.len) == r.body
  {
  }

  lemma ConsumerKeepsInv(s: Ring, cbResult: int)
    requires Inv(s)
    ensures Inv(ConsumerStep(s, cbResult))
  {
    hide ConsumerStep, Inv;
    match s.pc
    case LoadLen => LoadLenKeepsInv(s, cbResult);
    case Callback(_, _) => CallbackKeepsInv(s, cbResult);
    case StoreConsumerPos => StoreKeepsInv(s, cbResult);
    case StoreAndFail(_) => StoreKeepsInv(s, cbResult);
    case _ => LoadKeepsInv(s, cbResult);
  }

  lemma LoadKeepsInv(s: Ring, cbResult: int)
    requires Inv(s) && s.pc in {Idle, LoadConsumerPos, LoadProducerPos, Test}
    ensures Inv(ConsumerStep(s, cbResult))
  {
    hide RoundupLen, Span, Layout, Held, Sample, Samples;
    SameLog(s, ConsumerStep(s, cbResult));
    StillHeld(s, ConsumerStep(s, cbResult));
  }

  lemma LoadLenKeepsInv(s: Ring, cbResult: int)
    requires Inv(s) && s.pc.LoadLen?
    ensures Inv(ConsumerStep(s, cbResult))
  {
    hide RoundupLen, Span, Layout, Held, IsBusy, IsDiscarded, Sample, PosAt;
    SameLog(s, ConsumerStep(s, cbResult));
    StillHeld(s, ConsumerStep(s, cbResult));
    HeaderAt(s);
  }

  lemma CallbackKeepsInv(s: Ring, cbResult: int)
    requires Inv(s) && s.pc.Callback?
    ensures Inv(ConsumerStep(s, cbResult))
  {
    hide RoundupLen, Span, Held, Sample, Window;
    var t := ConsumerStep(s, cbResult);
    SameLog(s, t);
    StillHeld(s, t);
    assert Window(t) by { SameWindow(s, t); }
    SampleIsBody(s, s.recs[s.freed]);
  }

  lemma SameWindow(s: Ring, t: Ring)
    requires |s.mem| > 0 && Window(s) && t.mem == s.mem && t.reserving == s.reserving && t.producerPos == s.producerPos
    requires t.consumerPos >= s.consumerPos
    ensures Window(t)
  {
  }

  lemma StoreKeepsInv(s: Ring, cbResult: int)
    requires Inv(s) && (s.pc.StoreConsumerPos? || s.pc.StoreAndFail?)
    ensures Inv(ConsumerStep(s, cbResult))
  {
    hide RoundupLen, Span, Held, Sample, Samples, Window;
    var t := ConsumerStep(s, cbResult);
    SameLog(s, t);
    StillHeld(s, t);
    LaterRecordsFollow(s, s.freed, s.taken);
    assert Window(t) by { SameWindow(s, t); }
  }

  /** What the consumer finds at its next record. */
  lemma HeaderAt(s: Ring)
    requires Inv(s) && s.pc.LoadLen?
    ensures var r, len := s.recs[s.taken], s.mem[Addr(s, s.consPos)];
            && (IsBusy(len) <==> r.status == Busy) && (IsDiscarded(len) <==> r.status == Discarded)
            && (r.status == Committed ==> len == r.len) && s.consPos == r.pos
            && s.consPos + RoundupLen(len) == PosAt(s, s.taken + 1)
  {
    hide RoundupLen, Span, IsBusy, IsDiscarded, Window, Results;
    var r := s.recs[s.taken];
    HeaderReads(r);
    assert Held(s, r);
    assert r.pos + Span(r) == PosAt(s, s.taken + 1);
  }

  lemma StepKeepsInv(s: Ring, step: Step)
    requires Inv(s) && Enabled(s, step)
    ensures Inv(Apply(s, step))
  {
    match step
    case Reserve(len) => ReserveKeepsInv(s, len);
    case Publish => PublishKeepsInv(s);
    case Fill(i, j, b) => FillKeepsInv(s, i, j, b);
    case Finish(i, discard) => FinishKeepsInv(s, i, discard);
    case Call => CallKeepsInv(s);
    case Consume(cbResult) => ConsumerKeepsInv(s, cbResult);
  }

  lemma CallKeepsInv(s: Ring)
    requires Inv(s) && s.pc == Idle
    ensures Inv(Apply(s, Call))
  {
    hide RoundupLen, Span, Layout, Held;
    SameLog(s, Apply(s, Call));
    StillHeld(s, Apply(s, Call));
  }

  // ---- whole runs ----

  /** The state after a sequence of steps; a step that is not enabled does nothing. */
  ghost function Run(s: Ring, steps: seq<Step>): Ring
    decreases |steps|
  {
    if steps == [] then s
    else
      var last := |steps| - 1;
      var before := Run(s, steps[..last]);
      if Enabled(before, steps[last]) then Apply(before, steps[last]) else before
  }

  lemma {:induction false} RunKeepsInv(s: Ring, steps: seq<Step>)
    requires Inv(s)
    ensures Inv(Run(s, steps))
    decreases |steps|
  {
    hide Inv;
    if steps != [] {
      var last := |steps| - 1;
      RunKeepsInv(s, steps[..last]);
      var before := Run(s, steps[..last]);
      if Enabled(before, steps[last]) {
        StepKeepsInv(before, steps[last]);
      }
    }
  }

  /** However the producer and any number of calls of the consumer interleave: the callback has
      been given the committed samples below the consumer, each once and in reservation order,
      with the content they were committed with; consumer_pos is on a record boundary and not
      beyond producer_pos; and no busy record lies below it. */
  lemma RunsDeliverSamples(mem: seq<u32>, steps: seq<Step>)
    requires |mem| > 0
    ensures var s := Run(Fresh(mem), steps);
            && s.freed <= |s.recs| && s.consumerPos == PosAt(s, s.freed) <= s.producerPos
            && (forall i :: 0 <= i < s.freed ==> s.recs[i].status != Busy)
            && s.freed <= Passed(s) <= |s.recs| && s.delivered == Samples(s.recs, Passed(s))
            && (s.pc == Idle ==> s.delivered == Samples(s.recs, s.freed))
  {
    var s := Run(Fresh(mem), steps);
    assert Inv(Fresh(mem));
    RunKeepsInv(Fresh(mem), steps);
    if s.freed < |s.recs| {
      RecordInWindow(s, s.freed);
    }
  }

  /** The log only grows, and a finished record never changes. */
  ghost predicate LogGrows(s: Ring, t: Ring) {
    && |s.recs| <= |t.recs|
    && forall i :: 0 <= i < |s.recs| ==>
         && t.recs[i].pos == s.recs[i].pos && t.recs[i].len == s.recs[i].len
         && (s.recs[i].status != Busy ==> t.recs[i] == s.recs[i])
  }

  lemma {:induction false} RunGrowsLog(s: Ring, steps: seq<Step>)
    ensures LogGrows(s, Run(s, steps))
    decreases |steps|
  {
    if steps != [] {
      RunGrowsLog(s, steps[..|steps| - 1]);
    }
  }

  lemma {:induction false} SamplesGrow(a: seq<Record>, b: seq<Record>, n: nat, m: nat)
    requires n <= |a| <= |b| && n <= m <= |b| && forall i :: 0 <= i < n ==> a[i] == b[i]
    ensures Samples(a, n) <= Samples(b, m)
    decreases m
  {
    if n == m {
      SamplesOfPrefix(a, b, n);
    } else {
      SamplesGrow(a, b, n, m - 1);
    }
  }

  /** When the callback never fails, and when it does, how the work was split over calls does not
      matter: what has been delivered depends on the log and on consumer_pos alone, and a
      consumer that is further on has delivered the same samples and then more. */
  lemma PollsDoNotMatter(mem1: seq<u32>, steps1: seq<Step>, mem2: seq<u32>, steps2: seq<Step>)
    requires |mem1| > 0 && |mem2| > 0
    ensures var s, t := Run(Fresh(mem1), steps1), Run(Fresh(mem2), steps2);
            s.pc == Idle && t.pc == Idle && LogGrows(s, t) && s.consumerPos <= t.consumerPos ==>
              s.delivered <= t.delivered && (s.consumerPos == t.consumerPos ==> s.delivered == t.delivered)
  {
    var s, t := Run(Fresh(mem1), steps1), Run(Fresh(mem2), steps2);
    assert Inv(Fresh(mem1)) && Inv(Fresh(mem2));
    RunKeepsInv(Fresh(mem1), steps1);
    RunKeepsInv(Fresh(mem2), steps2);
    if s.pc == Idle && t.pc == Idle && LogGrows(s, t) && s.consumerPos <= t.consumerPos {
      BoundariesOrdered(s, t);
      SamplesGrow(s.recs, t.recs, s.freed, t.freed);
      if s.consumerPos == t.consumerPos {
        SamplesOfPrefix(s.recs, t.recs, s.freed);
      }
    }
  }

  lemma BoundariesOrdered(s: Ring, t: Ring)
    requires Layout(s) && Layout(t) && LogGrows(s, t) && s.freed <= |s.recs| && t.freed <= |t.recs|
    requires PosAt(s, s.freed) <= PosAt(t, t.freed)
    ensures s.freed <= t.freed && (PosAt(s, s.freed) == PosAt(t, t.freed) ==> s.freed == t.freed)
  {
    SamePlace(s, t, s.freed);
    if s.freed < t.freed {
      RecordsTakeSpace(t, s.freed, t.freed);
    } else if t.freed < s.freed {
      RecordsTakeSpace(t, t.freed, s.freed);
    }
  }

  lemma SamePlace(s: Ring, t: Ring, i: nat)
    requires Layout(s) && Layout(t) && LogGrows(s, t) && i <= |s.recs|
    ensures PosAt(s, i) == PosAt(t, i)
  {
    hide RoundupLen;
    if i == |s.recs| && i > 0 {
      assert s.recs[i - 1].pos + Span(s.recs[i - 1]) == PosAt(s, i);
      assert t.recs[i - 1].pos + Span(t.recs[i - 1]) == PosAt(t, i);
    }
  }

  lemma RecordsTakeSpace(s: Ring, i: nat, j: nat)
    requires Layout(s) && i < j <= |s.recs|
    ensures PosAt(s, i) < PosAt(s, j)
  {
    hide RoundupLen, Span;
    SpanIs(s.recs[i]);
    RoundupLenIs(s.recs[i].len);
    LaterRecordsFollow(s, i, j);
  }

  /** What a call of the consumer returns, and why it stops: at the first record that is still
      busy; or past all records there were when it last loaded producer_pos, at which time it had
      freed what it has freed now, so that it found nothing new; or because a callback failed, and
      the record whose callback failed is not delivered again. */
  lemma CallReturns(s: Ring, cbResult: int)
    requires Inv(s) && s.pc != Idle
    ensures var t := ConsumerStep(s, cbResult);
            t.pc == Idle ==>
              && (t.ret >= 0 ==> t.ret == |t.delivered| - t.given
                                 && ((t.freed < |t.recs| && t.recs[t.freed].status == Busy)
                                     || t.loaded == t.freed == t.seen >= t.present))
              && (t.ret < 0 ==> s.pc == StoreAndFail(t.ret) && |t.delivered| > t.given && t.freed == s.freed + 1)
  {
    hide RoundupLen, Span, Held, Samples, Window;
    if s.pc.LoadLen? {
      HeaderAt(s);
    } else if s.pc.Test? && s.consPos >= s.prodPos && s.taken < s.seen {
      RecordsTakeSpace(s, s.taken, s.seen);
    }
  }

  // ---- a call ends ----

  /** How far a call still has to go at most, while nothing new is reserved. */
  ghost function Distance(s: Ring): nat
    requires s.taken <= |s.recs|
  {
    match s.pc
    case Idle => 0
    case _ =>
      8 * (|s.recs| - s.taken)
      + match s.pc
        case LoadLen => 1
        case Test => if s.gotNewData then 4 else 2
        case LoadProducerPos => 3
        case LoadConsumerPos => 4
        case StoreAndFail(_) => 5
        case StoreConsumerPos => 6
        case _ => 7
  }

  /** Where a consumer stops that starts at record i: at the first busy one, or past all. */
  function StopAt(recs: seq<Record>, i: nat): (n: nat)
    requires i <= |recs|
    ensures i <= n <= |recs|
    decreases |recs| - i
  {
    if i == |recs| || recs[i].status == Busy then i else StopAt(recs, i + 1)
  }

  lemma {:induction false} StopsThere(recs: seq<Record>, i: nat, n: nat)
    requires i <= n <= |recs| && (forall k :: i <= k < n ==> recs[k].status != Busy)
    ensures n <= StopAt(recs, i) && (n == |recs| || recs[n].status == Busy ==> n == StopAt(recs, i))
    decreases n - i
  {
    if i < n {
      StopsThere(recs, i + 1, n);
    }
  }

  /** How many of the records from lo up to hi are committed. */
  function CountCommitted(recs: seq<Record>, lo: nat, hi: nat): nat
    requires lo <= hi <= |recs|
  {
    if lo == hi then 0
    else CountCommitted(recs, lo, hi - 1) + if recs[hi - 1].status == Committed then 1 else 0
  }

  lemma {:induction false} SamplesAreCommitted(recs: seq<Record>, lo: nat, hi: nat)
    requires lo <= hi <= |recs|
    ensures |Samples(recs, hi)| == |Samples(recs, lo)| + CountCommitted(recs, lo, hi)
    decreases hi
  {
    if lo < hi {
      SamplesAreCommitted(recs, lo, hi - 1);
    }
  }

  /** Between a call and its end, while nothing is reserved, filled or finished. */
  ghost predicate OnCourse(s0: Ring, s: Ring, results: set<int>) {
    && Inv(s) && s.recs == s0.recs && s.given == |s0.delivered| && s0.freed <= s.freed
    && (s.pc in {Idle, LoadConsumerPos, LoadProducerPos} || s.seen == |s.recs|)
    && (s.pc.StoreAndFail? ==> s.pc.err in results && s.recs[s.freed].status == Committed)
    && (s.pc == Idle ==>
          if s.ret >= 0
          then s.ret == |s.delivered| - s.given && (s.freed == |s.recs| || s.recs[s.freed].status == Busy)
          else s.ret in results && s0.freed < s.freed && s.recs[s.freed - 1].status == Committed)
  }

  lemma CourseStarts(s: Ring)
    requires Inv(s) && s.pc == Idle
    ensures OnCourse(s, Apply(s, Call), {}) && Distance(Apply(s, Call)) == 8 * (|s.recs| - s.freed) + 4
  {
    hide Layout, Held, Window, Results;
    CallKeepsInv(s);
  }

  lemma StaysOnCourse(s0: Ring, s: Ring, results: set<int>, cbResult: int)
    requires OnCourse(s0, s, results) && s.pc != Idle
    ensures var t := ConsumerStep(s, cbResult);
            && OnCourse(s0, t, results + {cbResult}) && t.taken <= |t.recs| && Distance(t) < Distance(s)
  {
    hide Layout, Held, Window, Samples, RoundupLen, IsBusy, IsDiscarded, Sample;
    ConsumerKeepsInv(s, cbResult);
    CallReturns(s, cbResult);
    if s.pc.LoadLen? {
      HeaderAt(s);
    } else if s.pc.Test? && s.taken < s.seen {
      RecordsTakeSpace(s, s.taken, s.seen);
    }
  }

  ghost predicate ConsumerOnly(steps: seq<Step>) {
    forall i :: 0 <= i < |steps| ==> steps[i].Consume?
  }

  /** What the callbacks return. */
  ghost function ResultsOf(steps: seq<Step>): set<int> {
    set i | 0 <= i < |steps| && steps[i].Consume? :: steps[i].cbResult
  }

  /** No callback fails. */
  ghost predicate NoneFails(steps: seq<Step>) {
    forall i :: 0 <= i < |steps| && steps[i].Consume? ==> steps[i].cbResult >= 0
  }

  lemma NoResultFails(steps: seq<Step>)
    requires NoneFails(steps)
    ensures forall x :: x in ResultsOf(steps) ==> x >= 0
  {
  }

  lemma ResultsSnoc(steps: seq<Step>, cbResult: int)
    ensures ResultsOf(steps + [Consume(cbResult)]) == ResultsOf(steps) + {cbResult}
  {
    var all := steps + [Consume(cbResult)];
    forall x | x in ResultsOf(steps) + {cbResult}
      ensures x in ResultsOf(all)
    {
      if x == cbResult {
        assert all[|steps|].cbResult == x;
      } else {
        var i :| 0 <= i < |steps| && steps[i].Consume? && steps[i].cbResult == x;
        assert all[i] == steps[i];
      }
    }
  }

  lemma {:induction false} GoesOn(s0: Ring, s: Ring, steps: seq<Step>)
    requires OnCourse(s0, s, {}) && ConsumerOnly(steps)
    ensures var t := Run(s, steps);
            && OnCourse(s0, t, ResultsOf(steps)) && t.taken <= |t.recs|
            && (t.pc == Idle || Distance(t) + |steps| <= Distance(s))
    decreases |steps|
  {
    hide OnCourse, Distance, ResultsOf;
    if steps == [] {
      NoResults(s0, s);
    } else {
      var n := |steps| - 1;
      GoesOn(s0, s, steps[..n]);
      var before, cb := Run(s, steps[..n]), steps[n].cbResult;
      assert steps == steps[..n] + [Consume(cb)];
      ResultsSnoc(steps[..n], cb);
      OnCourseKnows(s0, before, ResultsOf(steps[..n]), cb);
      if before.pc != Idle {
        StaysOnCourse(s0, before, ResultsOf(steps[..n]), cb);
      }
    }
  }

  lemma NoResults(s0: Ring, s: Ring)
    requires OnCourse(s0, s, {})
    ensures OnCourse(s0, s, ResultsOf([])) && s.taken <= |s.recs|
  {
    assert ResultsOf([]) == {};
  }

  lemma OnCourseKnows(s0: Ring, s: Ring, results: set<int>, cbResult: int)
    requires OnCourse(s0, s, results)
    ensures |s.mem| > 0 && s.taken <= |s.recs| && (s.pc == Idle ==> OnCourse(s0, s, results + {cbResult}))
  {
  }

  /** How a call that started in s has ended in t.  If it does not return an error, it returns how
      many committed records there are up to the first busy one, or the end, and has freed the
      records up to there; otherwise it returns what a callback did, and the last record freed is
      the one that callback was given. */
  ghost predicate Ended(s: Ring, t: Ring, results: set<int>) {
    && t.pc == Idle && t.recs == s.recs && s.freed <= t.freed <= |t.recs| && t.delivered == Samples(s.recs, t.freed)
    && if t.ret >= 0
       then t.freed == StopAt(s.recs, s.freed) && t.ret == CountCommitted(s.recs, s.freed, t.freed)
       else && s.freed < t.freed <= StopAt(s.recs, s.freed) && s.recs[t.freed - 1].status == Committed
            && t.ret in results
  }

  lemma CourseEnds(s: Ring, t: Ring, results: set<int>)
    requires Inv(s) && s.pc == Idle && OnCourse(s, t, results) && t.pc == Idle
    ensures Ended(s, t, results)
  {
    hide Layout, Held, Window;
    StopsThere(s.recs, s.freed, t.freed);
    SamplesAreCommitted(s.recs, s.freed, t.freed);
  }

  /** A call ends, within a number of steps that the records decide, if the producer does nothing
      meanwhile, and it returns no error if no callback fails. */
  lemma CallEnds(s: Ring, steps: seq<Step>)
    requires Inv(s) && s.pc == Idle && ConsumerOnly(steps) && |steps| >= 8 * (|s.recs| - s.freed) + 4
    ensures var t := Run(Apply(s, Call), steps); Ended(s, t, ResultsOf(steps)) && (NoneFails(steps) ==> t.ret >= 0)
  {
    hide Inv, ConsumerOnly, OnCourse, Distance, Run, ResultsOf, NoneFails, StopAt, CountCommitted, Samples;
    CanBeCalled(s);
    CourseStarts(s);
    GoesOn(s, Apply(s, Call), steps);
    var t := Run(Apply(s, Call), steps);
    DistanceIsPositive(t);
    CourseEnds(s, t, ResultsOf(steps));
    if NoneFails(steps) { NoResultFails(steps); }
  }

  lemma CanBeCalled(s: Ring)
    requires Inv(s) && s.pc == Idle
    ensures Enabled(s, Call) && s.freed <= |s.recs|
  {
  }

  lemma DistanceIsPositive(s: Ring)
    requires s.taken <= |s.recs|
    ensures s.pc == Idle <==> Distance(s) == 0
  {
  }

  /** One committed record and a consumer that is called: the sample is delivered and 1 returned. */
  lemma OneRecordIsConsumed(s: Ring, steps: seq<Step>)
    requires Inv(s) && s.pc == Idle && |s.recs| == s.freed + 1 && s.recs[s.freed].status == Committed
    requires ConsumerOnly(steps) && |steps| >= 12 && NoneFails(steps)
    ensures var t := Run(Apply(s, Call), steps);
            t.pc == Idle && t.ret == 1 && t.freed == |s.recs| && t.delivered == s.delivered + [s.recs[s.freed].body]
  {
    hide Layout, Held, Window, ConsumerOnly, NoneFails, Run;
    CallEnds(s, steps);
    assert CountCommitted(s.recs, s.freed, s.freed + 1) == 1;
    assert StopAt(s.recs, s.freed) == s.freed + 1;
  }
}
