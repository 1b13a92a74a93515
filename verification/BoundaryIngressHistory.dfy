/** What any run of the boundary ingress adapter holds, told from its history: generation, members, receipts,
    freshness, and what is left from before a generation was entered. */
module BoundaryIngressHistory {
  import opened Common
  import opened BoundaryIngress
  import opened BoundaryIngressProofs

  // ---------------------------------------------------------------- the history's own account

  predicate Carries(op: Op) {
    op.Snapshot? || op.Deliver?
  }

  /** A subscription names its generation; anything else only moves it up. */
  function GenerationAfter(ops: seq<Op>): int {
    if ops == [] then 0
    else
      var before, op := GenerationAfter(Prior(ops)), ops[|ops| - 1];
      if op.Subscribe? then op.generation else if Carries(op) then Max(before, op.generation) else before
  }

  function StaleAfter(ops: seq<Op>): nat {
    if ops == [] then 0
    else
      var op := ops[|ops| - 1];
      StaleAfter(Prior(ops)) + if Carries(op) && op.generation < GenerationAfter(Prior(ops)) then 1 else 0
  }

  /** The members of the last snapshot that was not stale, or none since a subscription, with those who joined
      and without those who left after it. */
  function MembersAfter(ops: seq<Op>): set<string> {
    if ops == [] then {}
    else
      var before, op := MembersAfter(Prior(ops)), ops[|ops| - 1];
      match op
      case Subscribe(_) => {}
      case Snapshot(generation, _, _, _, members, _) =>
        if generation < GenerationAfter(Prior(ops)) then before else members
      case MemberJoin(member) => before + {member}
      case MemberLeave(member) => before - {member}
      case _ => before
  }

  function NowAfter(ops: seq<Op>): int {
    if ops == [] then 0 else if ops[|ops| - 1].Tick? then ops[|ops| - 1].now else NowAfter(Prior(ops))
  }

  /** Enters a generation without its snapshot. */
  predicate Unsyncs(op: Op, generation: int) {
    op.Subscribe? || (op.Deliver? && generation < op.generation)
  }

  predicate Syncs(op: Op, generation: int) {
    op.Snapshot? && generation <= op.generation
  }

  /** Since the generation was entered, its snapshot arrived. */
  predicate Synced(ops: seq<Op>) {
    ops != [] &&
    var op, before := ops[|ops| - 1], GenerationAfter(Prior(ops));
    Syncs(op, before) || (!Unsyncs(op, before) && Synced(Prior(ops)))
  }

  /** The last operation that entered a generation without its snapshot. */
  function LastUnsync(ops: seq<Op>): (i: Option<nat>)
    ensures i.Some? ==> i.value < |ops|
  {
    if ops == [] then None
    else if Unsyncs(ops[|ops| - 1], GenerationAfter(Prior(ops))) then Some(|ops| - 1)
    else LastUnsync(Prior(ops))
  }

  // ---------------------------------------------------------------- every run keeps it

  lemma {:induction false} DrainKeeps(s: State)
    requires s.cursor.Some?
    ensures SameOutside(s, Drain(s))
    ensures s.phase != Detached && s.phase != Bootstrapping ==>
              Drain(s).phase != Detached && Drain(s).phase != Bootstrapping
    decreases |s.buffered.Keys|
  {
    var next := s.cursor.value + 1;
    if next in s.buffered {
      var rest := s.buffered - {next};
      assert rest.Keys == s.buffered.Keys - {next};
      DrainKeeps(ApplyEvent(s.(buffered := rest), s.buffered[next]));
    }
  }

  /** Generation, members, clock and stale count, and whether there is a cursor. */
  ghost predicate Tells(s: State, ops: seq<Op>) {
    && s.generation == GenerationAfter(ops) && s.members == MembersAfter(ops)
    && s.now == NowAfter(ops) && s.staleEvents == StaleAfter(ops)
    && (s.cursor.Some? <==> Synced(ops))
  }

  lemma StepTells(p: Policy, s: State, ops: seq<Op>)
    requires ops != [] && Tells(s, Prior(ops))
    ensures Tells(Step(p, s, ops[|ops| - 1]), ops)
  {
    var op := ops[|ops| - 1];
    hide Drain;
    if op.Snapshot? && s.generation <= op.generation {
      DrainKeeps(Install(s, op));
    } else if op.Deliver? && s.cursor == Some(op.event.cursor - 1) {
      DrainKeeps(ApplyEvent(s, op.event));
    }
  }

  lemma {:induction false} RunTells(p: Policy, ops: seq<Op>)
    ensures Tells(Run(p, INITIAL, ops), ops)
  {
    if ops == [] {
      assert Tells(INITIAL, []);
    } else {
      hide Step, Tells;
      RunTells(p, Prior(ops));
      StepTells(p, Run(p, INITIAL, Prior(ops)), ops);
    }
  }

  // ---------------------------------------------------------------- what is held for later

  /** The first event for a cursor that was delivered since the generation was entered. */
  function FirstDelivered(ops: seq<Op>, cursor: int): Option<Event> {
    if ops == [] then None
    else
      var op, before := ops[|ops| - 1], FirstDelivered(Prior(ops), cursor);
      var entered := Unsyncs(op, GenerationAfter(Prior(ops)));
      if op.Deliver? && op.generation >= GenerationAfter(Prior(ops)) && op.event.cursor == cursor then
        if entered || before.None? then Some(op.event) else before
      else if entered then None
      else before
  }

  /** What is held was delivered first; what was delivered is held unless the buffer is full. */
  ghost predicate HoldsFirst(p: Policy, s: State, ops: seq<Op>) {
    s.cursor.None? ==>
      && (forall c <- s.buffered :: FirstDelivered(ops, c) == Some(s.buffered[c]))
      && (|s.buffered| < p.maxBuffered ==> forall c | FirstDelivered(ops, c).Some? :: c in s.buffered)
  }

  lemma StepHoldsFirst(p: Policy, s: State, ops: seq<Op>)
    requires ops != [] && Tells(s, Prior(ops)) && HoldsFirst(p, s, Prior(ops))
    ensures HoldsFirst(p, Step(p, s, ops[|ops| - 1]), ops)
  {
    hide Drain, MembersAfter, StaleAfter, NowAfter, Synced;
  }

  /** Until the snapshot arrives, what is held for a cursor is the event first delivered for it, and that is held
      wherever the buffer has room. */
  lemma {:induction false} FirstIsHeld(p: Policy, ops: seq<Op>)
    ensures HoldsFirst(p, Run(p, INITIAL, ops), ops)
  {
    if ops != [] {
      hide Step, HoldsFirst;
      FirstIsHeld(p, Prior(ops));
      RunTells(p, Prior(ops));
      StepHoldsFirst(p, Run(p, INITIAL, Prior(ops)), ops);
    }
  }

  // ---------------------------------------------------------------- before the snapshot

  /** What the state in which a generation was entered leaves to it: a subscription drops the keys. */
  ghost predicate Inherits(s: State, left: State, subscribed: bool) {
    && s.sourceKeys == (if subscribed then {} else left.sourceKeys)
    && s.validation == left.validation && s.lastStampedAt == left.lastStampedAt
    && Asks(s, Bootstrapping, if subscribed then None else left.replayFrom)
  }

  /** The phase and replay point a state is in until an event is refused; then all is asked for. */
  predicate Asks(s: State, phase: Phase, replayFrom: Option<int>) {
    (s.phase == phase && s.replayFrom == replayFrom) || (s.phase == Backpressured && s.replayFrom == Some(0))
  }

  ghost predicate Unsynced(p: Policy, s: State, ops: seq<Op>) {
    match LastUnsync(ops)
    case None => SourceOf(s) == Source({}, Valid) && s.lastStampedAt.None? && Asks(s, Detached, None)
    case Some(i) => Inherits(s, Run(p, INITIAL, ops[..i]), ops[i].Subscribe?)
  }

  lemma StepEnters(p: Policy, s: State, op: Op)
    requires Unsyncs(op, s.generation)
    ensures Inherits(Step(p, s, op), s, op.Subscribe?)
  {
  }

  lemma StepWaits(p: Policy, s: State, op: Op)
    requires s.cursor.None? && !Unsyncs(op, s.generation) && !Syncs(op, s.generation)
    ensures
      var t := Step(p, s, op);
      && SourceOf(t) == SourceOf(s) && t.lastStampedAt == s.lastStampedAt && Asks(t, s.phase, s.replayFrom)
  {
  }

  lemma StepUnsynced(p: Policy, s: State, ops: seq<Op>)
    requires ops != [] && s == Run(p, INITIAL, Prior(ops)) && Tells(s, Prior(ops)) && !Synced(ops)
    requires s.cursor.None? ==> Unsynced(p, s, Prior(ops))
    ensures Unsynced(p, Step(p, s, ops[|ops| - 1]), ops)
  {
    assert s.generation == GenerationAfter(Prior(ops)) && (s.cursor.Some? <==> Synced(Prior(ops)));
    hide Run, Tells, Step, GenerationAfter, MembersAfter;
    var op := ops[|ops| - 1];
    if Unsyncs(op, s.generation) {
      StepEnters(p, s, op);
      assert ops[..|ops| - 1] == Prior(ops);
    } else {
      StepWaits(p, s, op);
      assert LastUnsync(ops) == LastUnsync(Prior(ops));
      if LastUnsync(ops).Some? {
        assert ops[..LastUnsync(ops).value] == Prior(ops)[..LastUnsync(ops).value];
      }
    }
  }

  /** Until the snapshot comes, nothing but the buffer and the phase of refusal moves. */
  lemma {:induction false} RunUnsynced(p: Policy, ops: seq<Op>)
    requires !Synced(ops)
    ensures Unsynced(p, Run(p, INITIAL, ops), ops)
  {
    if ops == [] {
      assert Run(p, INITIAL, ops) == INITIAL;
    } else {
      hide Step, Unsynced;
      RunTells(p, Prior(ops));
      if !Synced(Prior(ops)) {
        RunUnsynced(p, Prior(ops));
      }
      StepUnsynced(p, Run(p, INITIAL, Prior(ops)), ops);
    }
  }

  // ---------------------------------------------------------------- receipts

  function LastOpen(ops: seq<Op>): (i: Option<nat>)
    ensures i.Some? ==> i.value < |ops| && ops[i.value].OpenReceipt?
  {
    if ops == [] then None else if ops[|ops| - 1].OpenReceipt? then Some(|ops| - 1) else LastOpen(Prior(ops))
  }

  /** The first member to join from some operation on. */
  function FirstJoin(ops: seq<Op>, from: nat): (i: Option<nat>)
    requires from <= |ops|
    ensures i.Some? ==> from <= i.value < |ops| && ops[i.value].MemberJoin?
  {
    if |ops| == from then None
    else
      var earlier := FirstJoin(Prior(ops), from);
      if earlier.Some? then earlier else if ops[|ops| - 1].MemberJoin? then Some(|ops| - 1) else None
  }

  /** Whom a receipt is for, and the operation from which on their acknowledgements count. */
  datatype Addressed = Addressed(targets: set<string>, from: nat)

  /** The members there were when it was opened, or, if there were none, the first to join afterwards alone. */
  function Addressees(ops: seq<Op>, i: nat): (a: Addressed)
    requires i < |ops|
    ensures a.from <= |ops|
  {
    var members, join := MembersAfter(ops[..i]), FirstJoin(ops, i + 1);
    if members != {} then Addressed(members, i + 1)
    else if join.Some? then Addressed({ops[join.value].member}, join.value + 1)
    else Addressed({}, |ops|)
  }

  ghost predicate ReceiptTells(delivery: Option<Delivery>, ops: seq<Op>) {
    match LastOpen(ops)
    case None => delivery == None
    case Some(i) =>
      var id, a := ops[i].receiptId, Addressees(ops, i);
      delivery == Some(Delivery(id, a.targets, a.targets * AckedBy(ops[a.from..], id)))
  }

  lemma StepDelivers(p: Policy, s: State, op: Op)
    ensures Step(p, s, op).delivery ==
      if op.OpenReceipt? then Some(Delivery(op.receiptId, s.members, {}))
      else if s.delivery.None? then None
      else
        var d := s.delivery.value;
        if op.MemberJoin? && d.targets == {} then Some(d.(targets := {op.member}))
        else if op.Ack? && op.receiptId == d.receiptId && op.member in d.targets then
          Some(d.(acked := d.acked + {op.member}))
        else Some(d)
  {
    hide Drain;
    if op.Snapshot? && s.generation <= op.generation {
      DrainKeeps(Install(s, op));
    } else if op.Deliver? && s.cursor == Some(op.event.cursor - 1) {
      DrainKeeps(ApplyEvent(s, op.event));
    } else if op.Ack? && s.delivery.Some? && op.member in s.delivery.value.acked {
      assert s.delivery.value.acked + {op.member} == s.delivery.value.acked;
    }
  }

  /** One more operation adds its acknowledgement, or the first joiner to an empty receipt. */
  lemma AddresseesNext(ops: seq<Op>, i: nat)
    requires i < |ops| - 1
    ensures
      var before, a, op := Addressees(Prior(ops), i), Addressees(ops, i), ops[|ops| - 1];
      if before.targets == {} then
        if op.MemberJoin? then a == Addressed({op.member}, |ops|) else a == Addressed({}, |ops|)
      else a == before && before.from < |ops|
  {
    assert Prior(ops)[..i] == ops[..i];
    assert FirstJoin(Prior(ops), i + 1).Some? ==> FirstJoin(ops, i + 1) == FirstJoin(Prior(ops), i + 1);
  }

  lemma AckedNext(ops: seq<Op>, from: nat, id: string)
    requires from < |ops|
    ensures
      var op := ops[|ops| - 1];
      AckedBy(ops[from..], id) ==
      AckedBy(Prior(ops)[from..], id) + if op.Ack? && op.receiptId == id then {op.member} else {}
  {
    assert Prior(ops[from..]) == Prior(ops)[from..];
  }

  lemma ReceiptNext(p: Policy, s: State, ops: seq<Op>)
    requires ops != [] && s.members == MembersAfter(Prior(ops)) && ReceiptTells(s.delivery, Prior(ops))
    ensures ReceiptTells(Step(p, s, ops[|ops| - 1]).delivery, ops)
  {
    var op := ops[|ops| - 1];
    StepDelivers(p, s, op);
    hide Step, AckedBy, MembersAfter;
    if op.OpenReceipt? {
      var a := Addressees(ops, |ops| - 1);
      assert ops[..|ops| - 1] == Prior(ops) && a == Addressed(s.members, |ops|);
      assert a.targets * AckedBy(ops[a.from..], op.receiptId) == {} by {
        NothingAcked(op.receiptId);
        assert ops[|ops|..] == [];
      }
    } else if LastOpen(Prior(ops)).Some? {
      var i := LastOpen(Prior(ops)).value;
      var id, before, a := ops[i].receiptId, Addressees(Prior(ops), i), Addressees(ops, i);
      hide Addressees;
      AddresseesNext(ops, i);
      if before.targets == {} {
        NothingAcked(id);
        assert ops[|ops|..] == [] && a.targets * {} == {} && {} * AckedBy(Prior(ops)[before.from..], id) == {};
      } else {
        AckedNext(ops, a.from, id);
        AckAdds(a.targets, AckedBy(Prior(ops)[a.from..], id), op, id);
        var had := a.targets * AckedBy(Prior(ops)[a.from..], id);
        assert s.delivery == Some(Delivery(id, a.targets, had)) && had + {} == had;
      }
    }
  }

  lemma NothingAcked(id: string)
    ensures AckedBy([], id) == {}
  {
  }

  lemma AckAdds(targets: set<string>, acked: set<string>, op: Op, id: string)
    ensures
      targets * (acked + if op.Ack? && op.receiptId == id then {op.member} else {}) ==
      targets * acked + if op.Ack? && op.receiptId == id && op.member in targets then {op.member} else {}
  {
  }

  /** A receipt is for the members there were when it was opened, or the first to join after that if there were
      none; it has the acknowledgements of those it is for, and has converged exactly when it is for someone and
      all of them acknowledged. */
  lemma {:induction false} ReceiptsExact(p: Policy, ops: seq<Op>)
    ensures
      var delivery := Run(p, INITIAL, ops).delivery;
      && ReceiptTells(delivery, ops)
      && forall i | LastOpen(ops) == Some(i) ::
           var id, a := ops[i].receiptId, Addressees(ops, i);
           delivery.value.Converged() <==> a.targets != {} && a.targets <= AckedBy(ops[a.from..], id)
  {
    if ops == [] {
      assert Run(p, INITIAL, ops) == INITIAL;
    } else {
      hide Step, ReceiptTells, Tells;
      ReceiptsExact(p, Prior(ops));
      RunTells(p, Prior(ops));
      assert Run(p, INITIAL, Prior(ops)).members == MembersAfter(Prior(ops)) by {
        MembersTold(Run(p, INITIAL, Prior(ops)), Prior(ops));
      }
      ReceiptNext(p, Run(p, INITIAL, Prior(ops)), ops);
      ConvergedTells(Run(p, INITIAL, ops).delivery, ops);
    }
  }

  lemma MembersTold(s: State, ops: seq<Op>)
    requires Tells(s, ops)
    ensures s.members == MembersAfter(ops)
  {
  }

  lemma ConvergedTells(delivery: Option<Delivery>, ops: seq<Op>)
    requires ReceiptTells(delivery, ops)
    ensures forall i | LastOpen(ops) == Some(i) ::
              var id, a := ops[i].receiptId, Addressees(ops, i);
              delivery.Some? &&
              (delivery.value.Converged() <==> a.targets != {} && a.targets <= AckedBy(ops[a.from..], id))
  {
    hide AckedBy, Addressees;
  }

  // ---------------------------------------------------------------- freshness and the revision

  /** When what is known was stamped: by the log entry at the cursor, by the snapshot if nothing followed it, or,
      before a snapshot, by whatever was known when the generation was entered. */
  ghost function StampAfter(p: Policy, ops: seq<Op>, log: Log): Option<int>
    decreases |ops|
  {
    var base, cursor := LastSnapshot(p, ops), Run(p, INITIAL, ops).cursor;
    if !Synced(ops) then
      if LastUnsync(ops).None? then None else StampAfter(p, ops[..LastUnsync(ops).value], log)
    else if base.None? || !base.value.Snapshot? || cursor.None? then None
    else if cursor.value == base.value.cursor then Some(base.value.stampedAt)
    else Some(log(GenerationAfter(ops), cursor.value).stampedAt)
  }

  ghost predicate Stamped(s: State, base: Option<Op>, log: Log) {
    s.cursor.Some? ==>
      && base.Some? && base.value.Snapshot? && base.value.cursor <= s.cursor.value
      && s.lastStampedAt == Some(if s.cursor.value == base.value.cursor then base.value.stampedAt
                                 else log(s.generation, s.cursor.value).stampedAt)
  }

  lemma StepStamped(p: Policy, s: State, op: Op, base: Option<Op>, log: Log)
    requires WellIndexed(log) && (op.Deliver? ==> op.event == log(op.generation, op.event.cursor))
    requires Consistent(p, s) && BufferedFromLog(s.buffered, s.generation, log) && Stamped(s, base, log)
    ensures Stamped(Step(p, s, op), if op.Snapshot? && op.generation >= s.generation then Some(op) else base, log)
  {
    if op.Snapshot? && op.generation >= s.generation {
      hide Drain, Replay;
      DrainExact(Install(s, op), log);
    } else if op.Deliver? && op.generation == s.generation && s.cursor == Some(op.event.cursor - 1) {
      hide Drain, Replay;
      DrainExact(ApplyEvent(s, op.event), log);
    }
  }

  lemma {:induction false} RunStamped(p: Policy, ops: seq<Op>, log: Log)
    requires FromLog(ops, log)
    ensures Stamped(Run(p, INITIAL, ops), LastSnapshot(p, ops), log)
  {
    if ops != [] {
      hide Step, Stamped;
      RunStamped(p, Prior(ops), log);
      RefinesInOrderReplay(p, Prior(ops), log);
      RunConsistent(p, Prior(ops));
      StepStamped(p, Run(p, INITIAL, Prior(ops)), ops[|ops| - 1], LastSnapshot(p, Prior(ops)), log);
    }
  }

  lemma {:induction false} StampsExact(p: Policy, ops: seq<Op>, log: Log)
    requires FromLog(ops, log)
    ensures Run(p, INITIAL, ops).lastStampedAt == StampAfter(p, ops, log)
    decreases |ops|
  {
    hide Run, Step;
    RunTells(p, ops);
    if Synced(ops) {
      RunStamped(p, ops, log);
    } else {
      RunUnsynced(p, ops);
      if LastUnsync(ops).Some? {
        var before := ops[..LastUnsync(ops).value];
        assert forall op <- before :: op in ops;
        StampsExact(p, before, log);
      }
    }
  }

  /** An observer sees a fresh source exactly when the last tick is within the horizon of the last stamp. */
  lemma FreshExact(p: Policy, ops: seq<Op>, log: Log)
    requires FromLog(ops, log)
    ensures
      var stamp := StampAfter(p, ops, log);
      Observe(p, Run(p, INITIAL, ops)).isFresh <==> stamp.Some? && NowAfter(ops) <= stamp.value + p.freshnessHorizon
  {
    hide Run;
    StampsExact(p, ops, log);
    RunTells(p, ops);
  }

  /** An operation that raises the revision whatever it changes. */
  predicate AlwaysCounts(s: State, op: Op) {
    || op.Subscribe? || op.Snapshot? || op.OpenReceipt?
    || (op.Deliver? && !(op.generation == s.generation && s.cursor.Some? && op.event.cursor <= s.cursor.value))
  }

  /** Any other raises it exactly when an observer sees a change; so no duplicate ever does. */
  lemma RevisionExact(p: Policy, ops: seq<Op>, op: Op)
    ensures
      var s := Run(p, INITIAL, ops);
      var t := Step(p, s, op);
      t.revision == (if AlwaysCounts(s, op) || Observe(p, t) != Observe(p, s) then s.revision + 1 else s.revision)
  {
    hide Run, Drain;
    var s := Run(p, INITIAL, ops);
    RunConsistent(p, ops);
    if op.Snapshot? && s.generation <= op.generation {
      DrainKeeps(Install(s, op));
    } else if op.Deliver? && s.cursor == Some(op.event.cursor - 1) {
      DrainKeeps(ApplyEvent(s, op.event));
    }
  }

  /** An observer sees a ready source exactly when the snapshot has arrived, nothing waits or was refused at the
      cursor, and the source is valid; an invalid one is told apart by its phase. */
  lemma PhaseExact(p: Policy, ops: seq<Op>)
    ensures
      var s := Run(p, INITIAL, ops);
      var caughtUp := Synced(ops) && s.buffered == map[] && s.phase != Backpressured;
      && (Observe(p, s).ready <==> caughtUp && s.validation == Valid)
      && (s.phase == Live <==> caughtUp && s.validation == Valid)
      && (s.phase == InvalidSource <==> caughtUp && s.validation == Invalid)
  {
    hide Run;
    RunConsistent(p, ops);
    RunTells(p, ops);
  }
}
