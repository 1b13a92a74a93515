/** Whole-run guarantees of the boundary ingress adapter: its state invariant, refinement of in-order replay,
    and what a receipt keeps. */
module BoundaryIngressProofs {
  import opened Common
  import opened BoundaryIngress

  // ---------------------------------------------------------------- in-order replay

  /** The reference source: the keys and the validation a consumer would hold. */
  datatype Source = Source(keys: set<string>, validation: Validation)

  /** The event a generation's log carries at a cursor. */
  type Log = (int, int) -> Event

  function SourceOf(s: State): Source {
    Source(s.sourceKeys, s.validation)
  }

  function Consume(src: Source, a: Action): Source {
    match a
    case Upsert(key) => src.(keys := src.keys + {key})
    case Remove(key) => src.(keys := src.keys - {key})
    case Validate(v) => src.(validation := v)
  }

  /** Apply the log entries after `from`, up to and including `upTo`, once each and in order. */
  function Replay(log: Log, generation: int, src: Source, from: int, upTo: int): Source
    decreases upTo - from
  {
    if upTo <= from then src else Consume(Replay(log, generation, src, from, upTo - 1), log(generation, upTo).action)
  }

  lemma {:induction false} ReplayFirst(log: Log, generation: int, src: Source, from: int, upTo: int)
    requires from < upTo
    ensures Replay(log, generation, src, from, upTo) ==
            Replay(log, generation, Consume(src, log(generation, from + 1).action), from + 1, upTo)
    decreases upTo - from
  {
    if from + 1 < upTo {
      ReplayFirst(log, generation, src, from, upTo - 1);
    } else {
      assert Replay(log, generation, src, from, from) == src;
    }
  }

  ghost predicate WellIndexed(log: Log) {
    forall g, c :: log(g, c).cursor == c
  }

  /** Every delivered event is the log entry of its generation and cursor. */
  ghost predicate FromLog(ops: seq<Op>, log: Log) {
    WellIndexed(log) && forall op <- ops :: op.Deliver? ==> op.event == log(op.generation, op.event.cursor)
  }

  ghost predicate BufferedFromLog(buffered: map<int, Event>, generation: int, log: Log) {
    forall c <- buffered :: buffered[c] == log(generation, c)
  }

  // ---------------------------------------------------------------- draining

  ghost predicate IsSettled(s: State) {
    s.cursor.Some? && s.phase == Settled(s.validation) && s.replayFrom.None? && s.lastStampedAt.Some?
  }

  /** Phase and replay point a known cursor and the events still buffered beyond it call for. */
  ghost predicate Resting(s: State) {
    && s.cursor.Some?
    && s.phase == (if s.buffered == map[] then Settled(s.validation) else ReplayRequired)
    && s.replayFrom == (if s.buffered == map[] then None else Some(s.cursor.value + 1))
  }

  /** `r` is `s` moved to the end of the contiguous run buffered after its cursor. */
  ghost predicate Drained(s: State, r: State, log: Log)
    requires s.cursor.Some?
  {
    && Resting(r)
    && s.cursor.value <= r.cursor.value
    && (forall c :: s.cursor.value < c <= r.cursor.value ==> c in s.buffered)
    && r.cursor.value + 1 !in s.buffered
    && r.buffered == After(s.buffered, r.cursor.value)
    && SourceOf(r) == Replay(log, s.generation, SourceOf(s), s.cursor.value, r.cursor.value)
    && r.lastStampedAt == (if r.cursor == s.cursor then s.lastStampedAt
                           else Some(log(s.generation, r.cursor.value).stampedAt))
    && SameOutside(s, r)
  }

  /** Only what event application may touch differs. */
  ghost predicate SameOutside(s: State, r: State) {
    && r.generation == s.generation && r.members == s.members && r.staleEvents == s.staleEvents
    && r.delivery == s.delivery && r.now == s.now && r.revision == s.revision
  }

  /** Draining stops exactly at the end of the buffered contiguous run, and leaves what lies beyond. */
  lemma {:induction false} DrainExact(s: State, log: Log)
    requires IsSettled(s) && WellIndexed(log) && BufferedFromLog(s.buffered, s.generation, log)
    requires forall c <- s.buffered :: s.cursor.value < c
    ensures Drained(s, Drain(s), log)
    decreases |s.buffered.Keys|
  {
    var next := s.cursor.value + 1;
    if next in s.buffered {
      var rest := s.buffered - {next};
      assert rest.Keys == s.buffered.Keys - {next};
      assert s.buffered[next] == log(s.generation, next);
      var t := ApplyEvent(s.(buffered := rest), s.buffered[next]);
      DrainExact(t, log);
      DrainedEarlier(s, t, Drain(t), log);
    } else {
      assert After(s.buffered, s.cursor.value) == s.buffered;
    }
  }

  lemma DrainedEarlier(s: State, t: State, r: State, log: Log)
    requires s.cursor.Some? && s.cursor.value + 1 in s.buffered
    requires s.buffered[s.cursor.value + 1] == log(s.generation, s.cursor.value + 1) && WellIndexed(log)
    requires t == ApplyEvent(s.(buffered := s.buffered - {s.cursor.value + 1}), s.buffered[s.cursor.value + 1])
    requires Drained(t, r, log)
    ensures Drained(s, r, log)
  {
    var next := s.cursor.value + 1;
    assert t.cursor == Some(next);
    forall c | s.cursor.value < c <= r.cursor.value ensures c in s.buffered {
      assert c == next || c in t.buffered;
    }
    assert r.buffered == After(s.buffered, r.cursor.value);
    assert SourceOf(t) == Consume(SourceOf(s), log(s.generation, next).action);
    ReplayFirst(log, s.generation, SourceOf(s), s.cursor.value, r.cursor.value);
  }

  // ---------------------------------------------------------------- the state invariant

  ghost predicate BufferFits(maxBuffered: int, buffered: map<int, Event>, cursor: Option<int>) {
    && (buffered == map[] || |buffered| <= maxBuffered)
    && (forall c <- buffered :: buffered[c].cursor == c)
    && (cursor.Some? ==> forall c <- buffered :: cursor.value + 1 < c)
  }

  ghost predicate PhaseFits(s: State) {
    match s.phase
    case Detached => s.cursor.None?
    case Bootstrapping => s.cursor.None?
    case Live => s.validation == Valid && Resting(s) && s.buffered == map[]
    case InvalidSource => s.validation == Invalid && Resting(s) && s.buffered == map[]
    case ReplayRequired => Resting(s) && s.buffered != map[]
    case Backpressured => s.replayFrom == Some(if s.cursor.None? then 0 else s.cursor.value + 1)
  }

  ghost predicate Consistent(p: Policy, s: State) {
    && BufferFits(p.maxBuffered, s.buffered, s.cursor)
    && PhaseFits(s)
    && (s.delivery.Some? ==> s.delivery.value.acked <= s.delivery.value.targets)
    && (s.cursor.Some? ==> s.lastStampedAt.Some?)
  }

  /** A log that agrees with one buffer. */
  ghost function LogOf(buffered: map<int, Event>): Log {
    (g, c) => if c in buffered && buffered[c].cursor == c then buffered[c] else Event(c, 0, Validate(Valid))
  }

  lemma AfterShrinks(maxBuffered: int, buffered: map<int, Event>, cursor: int)
    requires buffered == map[] || |buffered| <= maxBuffered
    ensures var kept := After(buffered, cursor); kept == map[] || |kept| <= maxBuffered
  {
    var kept := After(buffered, cursor);
    assert buffered.Keys == kept.Keys + (buffered.Keys - kept.Keys);
    assert |buffered.Keys| == |kept.Keys| + |buffered.Keys - kept.Keys|;
  }

  lemma DrainedFits(maxBuffered: int, s: State, r: State, log: Log)
    requires s.cursor.Some? && s.lastStampedAt.Some? && (s.buffered == map[] || |s.buffered| <= maxBuffered)
    requires forall c <- s.buffered :: s.buffered[c].cursor == c
    requires Drained(s, r, log)
    ensures r.lastStampedAt.Some? && BufferFits(maxBuffered, r.buffered, r.cursor)
  {
    AfterShrinks(maxBuffered, s.buffered, r.cursor.value);
  }

  /** Draining a settled state within the bound keeps it within the bound and at rest. */
  lemma DrainFits(maxBuffered: int, s: State)
    requires IsSettled(s) && (s.buffered == map[] || |s.buffered| <= maxBuffered)
    requires forall c <- s.buffered :: s.cursor.value < c && s.buffered[c].cursor == c
    ensures
      var r := Drain(s);
      Resting(r) && r.lastStampedAt.Some? && SameOutside(s, r) && BufferFits(maxBuffered, r.buffered, r.cursor)
  {
    DrainExact(s, LogOf(s.buffered));
    DrainedFits(maxBuffered, s, Drain(s), LogOf(s.buffered));
  }

  lemma SnapshotConsistent(p: Policy, s: State, op: Op)
    requires Consistent(p, s) && op.Snapshot? && s.generation <= op.generation
    ensures Consistent(p, Step(p, s, op)) && Step(p, s, op).revision == s.revision + 1
  {
    AfterShrinks(p.maxBuffered, s.buffered, op.cursor);
    DrainFits(p.maxBuffered, Install(s, op));
  }

  lemma BootstrapConsistent(p: Policy, s: State, e: Event)
    requires Consistent(p, s) && s.cursor.None?
    ensures var t := BootstrapEvent(s, p.maxBuffered, e); Consistent(p, t) && t.revision == s.revision + 1
  {
  }

  lemma CursorConsistent(p: Policy, s: State, e: Event)
    requires Consistent(p, s) && s.cursor.Some?
    ensures var t := CursorEvent(s, p.maxBuffered, e); Consistent(p, t) && (t == s || t.revision == s.revision + 1)
  {
    hide Drain;
    if s.cursor == Some(e.cursor - 1) {
      DrainFits(p.maxBuffered, ApplyEvent(s, e));
    }
  }

  lemma DeliverConsistent(p: Policy, s: State, generation: int, e: Event)
    requires Consistent(p, s)
    ensures var t := DeliverStep(s, p.maxBuffered, generation, e);
      Consistent(p, t) && (t == s || t.revision == s.revision + 1)
  {
    hide BootstrapEvent, CursorEvent;
    if s.generation <= generation {
      var t := Enter(s, generation);
      if t.cursor.None? {
        BootstrapConsistent(p, t, e);
      } else {
        CursorConsistent(p, t, e);
      }
    }
  }

  lemma StepConsistent(p: Policy, s: State, op: Op)
    requires Consistent(p, s)
    ensures Consistent(p, Step(p, s, op))
  {
    hide Drain, DeliverStep;
    if op.Snapshot? && s.generation <= op.generation {
      SnapshotConsistent(p, s, op);
    } else if op.Deliver? {
      DeliverConsistent(p, s, op.generation, op.event);
    }
  }

  lemma InitiallyConsistent(p: Policy)
    ensures Consistent(p, INITIAL)
  {
  }

  lemma {:induction false} RunConsistent(p: Policy, ops: seq<Op>)
    ensures Consistent(p, Run(p, INITIAL, ops))
  {
    hide Step, Consistent;
    if ops == [] {
      InitiallyConsistent(p);
    } else {
      RunConsistent(p, ops[..|ops| - 1]);
      StepConsistent(p, Run(p, INITIAL, ops[..|ops| - 1]), ops[|ops| - 1]);
    }
  }

  /** The revision grows by at most one a step, and never stays while an observer could see a change. */
  lemma RevisionCoversChanges(p: Policy, ops: seq<Op>, op: Op)
    ensures
      var s := Run(p, INITIAL, ops);
      var t := Step(p, s, op);
      && s.revision <= t.revision <= s.revision + 1
      && (t.revision == s.revision ==> Observe(p, t) == Observe(p, s))
  {
    hide Drain, DeliverStep, Run;
    var s := Run(p, INITIAL, ops);
    RunConsistent(p, ops);
    if op.Snapshot? && s.generation <= op.generation {
      SnapshotConsistent(p, s, op);
    } else if op.Deliver? {
      DeliverConsistent(p, s, op.generation, op.event);
    }
  }

  // ---------------------------------------------------------------- refinement of in-order replay

  function Prior(ops: seq<Op>): seq<Op>
    requires ops != []
  {
    ops[..|ops| - 1]
  }

  /** The last snapshot that was not stale when it arrived. */
  function LastSnapshot(p: Policy, ops: seq<Op>): Option<Op> {
    if ops == [] then None
    else
      var op := ops[|ops| - 1];
      if op.Snapshot? && op.generation >= Run(p, INITIAL, Prior(ops)).generation then Some(op)
      else LastSnapshot(p, Prior(ops))
  }

  /** Source keys and validation are the base snapshot replayed through the current cursor. */
  ghost predicate Replayed(s: State, base: Option<Op>, log: Log) {
    s.cursor.Some? ==>
      && base.Some? && base.value.Snapshot?
      && base.value.generation == s.generation
      && base.value.cursor <= s.cursor.value
      && SourceOf(s) == Replay(log, s.generation, Source(base.value.sourceKeys, base.value.validation),
                               base.value.cursor, s.cursor.value)
  }

  lemma {:induction false} ReplayJoins(log: Log, generation: int, src: Source, from: int, mid: int, upTo: int)
    requires from <= mid <= upTo
    ensures Replay(log, generation, Replay(log, generation, src, from, mid), mid, upTo) ==
            Replay(log, generation, src, from, upTo)
    decreases upTo - mid
  {
    if mid < upTo {
      ReplayJoins(log, generation, src, from, mid, upTo - 1);
    }
  }

  lemma SnapshotReplays(p: Policy, s: State, op: Op, log: Log)
    requires op.Snapshot? && s.generation <= op.generation
    requires WellIndexed(log) && BufferedFromLog(s.buffered, s.generation, log)
    ensures var t := Step(p, s, op); Replayed(t, Some(op), log) && BufferedFromLog(t.buffered, t.generation, log)
  {
    DrainExact(Install(s, op), log);
  }

  lemma InOrderReplays(s: State, e: Event, base: Option<Op>, log: Log)
    requires WellIndexed(log) && BufferedFromLog(s.buffered, s.generation, log) && Replayed(s, base, log)
    requires s.cursor == Some(e.cursor - 1) && e == log(s.generation, e.cursor)
    requires forall c <- s.buffered :: e.cursor < c
    ensures var t := Drain(ApplyEvent(s, e)); Replayed(t, base, log) && BufferedFromLog(t.buffered, t.generation, log)
  {
    var t := ApplyEvent(s, e);
    var b := base.value;
    DrainExact(t, log);
    ReplayJoins(log, s.generation, Source(b.sourceKeys, b.validation), b.cursor, e.cursor, Drain(t).cursor.value);
  }

  lemma DeliverReplays(p: Policy, s: State, generation: int, e: Event, base: Option<Op>, log: Log)
    requires Consistent(p, s) && WellIndexed(log) && e == log(generation, e.cursor)
    requires BufferedFromLog(s.buffered, s.generation, log) && Replayed(s, base, log)
    ensures
      var t := DeliverStep(s, p.maxBuffered, generation, e);
      Replayed(t, base, log) && BufferedFromLog(t.buffered, t.generation, log)
  {
    if s.generation == generation && s.cursor == Some(e.cursor - 1) {
      InOrderReplays(s, e, base, log);
    }
  }

  /** Whatever arrives, in whatever order and with whatever duplicates, resubscriptions and stale
      generations: a known cursor means exactly the last accepted snapshot followed by the log. */
  lemma {:induction false} RefinesInOrderReplay(p: Policy, ops: seq<Op>, log: Log)
    requires FromLog(ops, log)
    ensures
      var s := Run(p, INITIAL, ops);
      Replayed(s, LastSnapshot(p, ops), log) && BufferedFromLog(s.buffered, s.generation, log)
  {
    if ops != [] {
      var s, op := Run(p, INITIAL, Prior(ops)), ops[|ops| - 1];
      RefinesInOrderReplay(p, Prior(ops), log);
      RunConsistent(p, Prior(ops));
      if op.Snapshot? && op.generation >= s.generation {
        SnapshotReplays(p, s, op, log);
      } else if op.Deliver? {
        DeliverReplays(p, s, op.generation, op.event, LastSnapshot(p, Prior(ops)), log);
      }
    }
  }

  // ---------------------------------------------------------------- delivery receipts

  /** Members whose acknowledgement of `receiptId` is among the operations. */
  function AckedBy(ops: seq<Op>, receiptId: string): set<string> {
    if ops == [] then {}
    else
      var op := ops[|ops| - 1];
      AckedBy(Prior(ops), receiptId) + if op.Ack? && op.receiptId == receiptId then {op.member} else {}
  }

  /** Until the next receipt is opened, a receipt with targets keeps exactly those targets, whoever
      joins, leaves or resubscribes, and converges exactly when each of them has acknowledged. */
  lemma {:induction false} ReceiptTargetsAreFixed(p: Policy, s0: State, ops: seq<Op>)
    requires s0.delivery.Some? && s0.delivery.value.targets != {}
    requires forall op <- ops :: !op.OpenReceipt?
    ensures
      var s, d := Run(p, s0, ops), s0.delivery.value;
      && s.delivery == Some(Delivery(d.receiptId, d.targets, d.acked + (d.targets * AckedBy(ops, d.receiptId))))
      && (s.delivery.value.Converged() <==> d.targets <= d.acked + AckedBy(ops, d.receiptId))
  {
    var d := s0.delivery.value;
    if ops == [] {
      assert d.acked + (d.targets * AckedBy(ops, d.receiptId)) == d.acked;
    } else {
      assert forall o <- Prior(ops) :: o in ops;
      ReceiptTargetsAreFixed(p, s0, Prior(ops));
      var s, op := Run(p, s0, Prior(ops)), ops[|ops| - 1];
      StepKeepsReceipt(p, s, op);
      var before, after := AckedBy(Prior(ops), d.receiptId), AckedBy(ops, d.receiptId);
      if op.Ack? && op.receiptId == d.receiptId && op.member in d.targets {
        assert d.acked + (d.targets * after) == d.acked + (d.targets * before) + {op.member};
      } else {
        assert d.targets * after == d.targets * before;
      }
    }
  }

  lemma StepKeepsReceipt(p: Policy, s: State, op: Op)
    requires s.delivery.Some? && s.delivery.value.targets != {} && !op.OpenReceipt?
    ensures
      var d := s.delivery.value;
      Step(p, s, op).delivery ==
      Some(if op.Ack? && op.receiptId == d.receiptId && op.member in d.targets then d.(acked := d.acked + {op.member})
           else d)
  {
    if op.Snapshot? && s.generation <= op.generation {
      DrainKeepsReceipt(Install(s, op));
    } else if op.Deliver? && s.cursor == Some(op.event.cursor - 1) {
      DrainKeepsReceipt(ApplyEvent(s, op.event));
    } else if op.Ack? && op.member in s.delivery.value.acked {
      assert s.delivery.value.acked + {op.member} == s.delivery.value.acked;
    }
  }

  lemma {:induction false} DrainKeepsReceipt(s: State)
    requires s.cursor.Some?
    ensures Drain(s).delivery == s.delivery
    decreases |s.buffered.Keys|
  {
    var next := s.cursor.value + 1;
    if next in s.buffered {
      var rest := s.buffered - {next};
      assert rest.Keys == s.buffered.Keys - {next};
      DrainKeepsReceipt(ApplyEvent(s.(buffered := rest), s.buffered[next]));
    }
  }
}
