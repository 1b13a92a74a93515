/** Exactly when the order of delivery cannot be told from where a session ends. */
module BoundaryIngressEnds {
  import opened Common
  import opened BoundaryIngress
  import opened BoundaryIngressProofs
  import opened BoundaryIngressOrder

  // ---------------------------------------------------------------- nothing beyond the snapshot

  ghost predicate AtSnapshot(s: State, snapshot: Op)
    requires snapshot.Snapshot?
  {
    && s.cursor == Some(snapshot.cursor) && s.buffered == map[]
    && SourceOf(s) == Source(snapshot.sourceKeys, snapshot.validation)
    && s.phase == Settled(snapshot.validation) && s.replayFrom == None
    && s.lastStampedAt == Some(snapshot.stampedAt)
  }

  /** Before the snapshot only what was received is buffered; after it nothing happens. */
  ghost predicate Below(s: State, snapshot: Op, snapshots: seq<Op>, received: set<int>)
    requires snapshot.Snapshot?
  {
    && s.generation == snapshot.generation
    && if snapshots == [] then s.cursor.None? && s.buffered.Keys <= received else AtSnapshot(s, snapshot)
  }

  predicate NoneBeyond(snapshot: Op, received: set<int>)
    requires snapshot.Snapshot?
  {
    forall c <- received :: c <= snapshot.cursor
  }

  lemma BelowStep(p: Policy, s: State, op: Op, snapshot: Op, snapshots: seq<Op>, received: set<int>)
    requires snapshot.Snapshot? && Below(s, snapshot, snapshots, received) && NoneBeyond(snapshot, received)
    requires !op.Subscribe? && (op.Snapshot? || op.Deliver? ==> op.generation <= snapshot.generation)
    requires op.Deliver? && op.generation == snapshot.generation ==> op.event.cursor <= snapshot.cursor
    requires op.Snapshot? && op.generation == snapshot.generation ==> op == snapshot
    ensures
      var current := IsCurrent(op, snapshot.generation);
      Below(Step(p, s, op), snapshot, if op.Snapshot? && current then [op] else snapshots,
            if op.Deliver? && current then received + {op.event.cursor} else received)
  {
    if op.Snapshot? && op.generation == s.generation && snapshots == [] {
      assert After(s.buffered, op.cursor) == map[];
    }
  }

  lemma {:induction false} BelowRun(p: Policy, s0: State, snapshot: Op, all: set<int>, ops: seq<Op>)
    requires snapshot.Snapshot? && JustEntered(s0) && s0.generation == snapshot.generation
    requires WithinGeneration(ops, s0.generation) && NoneBeyond(snapshot, all)
    requires Snapshots(ops, s0.generation) == [] || Snapshots(ops, s0.generation) == [snapshot]
    requires Received(ops, s0.generation) <= all
    ensures Below(Run(p, s0, ops), snapshot, Snapshots(ops, s0.generation), Received(ops, s0.generation))
  {
    if ops == [] {
      assert Below(s0, snapshot, [], {});
    } else {
      hide Step, Below;
      var g, op := s0.generation, ops[|ops| - 1];
      var snapshots, received := Snapshots(Prior(ops), g), Received(Prior(ops), g);
      assert op in ops && forall o <- Prior(ops) :: o in ops;
      assert snapshots == [] || snapshots == [snapshot];
      if op.Snapshot? && op.generation == g {
        assert (snapshots + [op])[|snapshots|] == op && snapshots == [] && op == snapshot;
      }
      assert op.Deliver? && op.generation == g ==> op.event.cursor in Received(ops, g);
      BelowRun(p, s0, snapshot, all, Prior(ops));
      BelowStep(p, Run(p, s0, Prior(ops)), op, snapshot, snapshots, received);
      assert received + {} == received;
    }
  }

  lemma NoneBeyondEndsAlike(p: Policy, s0: State, snapshot: Op, received: set<int>, ops: seq<Op>, ops': seq<Op>,
                            log: Log)
    requires JustEntered(s0) && snapshot.Snapshot? && s0.generation == snapshot.generation
    requires Delivers(ops, snapshot, received, log) && Delivers(ops', snapshot, received, log)
    requires NoneBeyond(snapshot, received)
    ensures EndAlike(Run(p, s0, ops), Run(p, s0, ops'))
  {
    BelowRun(p, s0, snapshot, received, ops);
    BelowRun(p, s0, snapshot, received, ops');
  }

  // ---------------------------------------------------------------- a cursor beyond it, and too little room

  /** Draining never takes up a cursor that is not buffered, and ends at rest. */
  lemma {:induction false} DrainMisses(s: State, r: int)
    requires s.cursor.Some? && s.cursor.value < r && r !in s.buffered && s.phase != Backpressured
    requires forall c <- s.buffered :: s.buffered[c].cursor == c
    ensures Drain(s).cursor.value < r && r !in Drain(s).buffered && Drain(s).phase != Backpressured
    decreases |s.buffered.Keys|
  {
    var next := s.cursor.value + 1;
    if next in s.buffered {
      var rest := s.buffered - {next};
      assert rest.Keys == s.buffered.Keys - {next};
      DrainMisses(ApplyEvent(s.(buffered := rest), s.buffered[next]), r);
    }
  }

  /** Before the snapshot the buffer takes what is delivered until it is full. */
  ghost predicate Filling(s: State, g: int, maxBuffered: int, received: set<int>) {
    && s.generation == g && s.cursor.None? && s.buffered.Keys <= received
    && (|s.buffered| >= maxBuffered || s.buffered.Keys == received)
    && forall c <- s.buffered :: s.buffered[c].cursor == c
  }

  lemma FillingStep(p: Policy, s: State, g: int, c: int, received: set<int>, log: Log)
    requires WellIndexed(log) && Filling(s, g, p.maxBuffered, received)
    ensures Filling(Step(p, s, Deliver(g, log(g, c))), g, p.maxBuffered, received + {c})
    ensures |s.buffered| >= p.maxBuffered && c !in s.buffered ==>
              Step(p, s, Deliver(g, log(g, c))).buffered == s.buffered
  {
    hide Drain, CursorEvent;
    var e := log(g, c);
    assert Step(p, s, Deliver(g, e)) == BootstrapEvent(s, p.maxBuffered, e) && e.cursor == c;
    hide Step, DeliverStep;
    var t := BootstrapEvent(s, p.maxBuffered, e);
    if t.buffered != s.buffered {
      assert t.buffered.Keys == s.buffered.Keys + {c} && |t.buffered| == |t.buffered.Keys|;
      assert |s.buffered| == |s.buffered.Keys|;
    }
  }

  lemma {:induction false} FillingRun(p: Policy, s0: State, order: seq<int>, log: Log)
    requires JustEntered(s0) && WellIndexed(log)
    ensures Filling(Run(p, s0, DeliverEach(order, s0.generation, log)), s0.generation, p.maxBuffered,
                    Cursors(order))
  {
    var g := s0.generation;
    if order == [] {
      assert DeliverEach(order, g, log) == [];
    } else {
      hide Run, Step, Filling, Cursors, DeliverEach;
      var c, init := order[|order| - 1], order[..|order| - 1];
      var ops, before := DeliverEach(order, g, log), DeliverEach(init, g, log);
      FillingRun(p, s0, init, log);
      LastDelivered(order, g, log);
      assert Prior(ops) == before;
      RunLast(p, s0, ops);
      FillingStep(p, Run(p, s0, before), g, c, Cursors(init), log);
    }
  }

  lemma RunLast(p: Policy, s0: State, ops: seq<Op>)
    requires ops != []
    ensures Run(p, s0, ops) == Step(p, Run(p, s0, Prior(ops)), ops[|ops| - 1])
  {
  }

  /** The snapshot last, after as many others as there are slots and then `r`: nothing is left of `r`. */
  lemma LastIsMissed(p: Policy, s0: State, snapshot: Op, all: set<int>, r: int, order: seq<int>, log: Log)
    requires JustEntered(s0) && WellIndexed(log) && snapshot.Snapshot? && snapshot.generation == s0.generation
    requires r in all && snapshot.cursor < r && p.maxBuffered < |all| && Cursors(order) == all - {r}
    ensures
      var s := Run(p, s0, DeliverEach(order, s0.generation, log) +
                          [Deliver(s0.generation, log(s0.generation, r))] + [snapshot]);
      s.cursor.Some? && s.cursor.value < r && r !in s.buffered && s.phase != Backpressured
  {
    var g := s0.generation;
    var first := DeliverEach(order, g, log);
    var full := first + [Deliver(g, log(g, r))];
    assert Prior(full) == first && Prior(full + [snapshot]) == full;
    FillingRun(p, s0, order, log);
    var s, t := Run(p, s0, first), Run(p, s0, full);
    assert |all - {r}| == |all| - 1 && |s.buffered| == |s.buffered.Keys|;
    FillingStep(p, s, g, r, all - {r}, log);
    assert t.buffered == s.buffered && r !in t.buffered;
    var installed := Install(t, snapshot);
    DrainMisses(installed, r);
  }

  /** After the snapshot, with each buffered event under its own cursor. */
  ghost predicate Keyed(s: State, g: int) {
    s.generation == g && s.cursor.Some? && forall c <- s.buffered :: s.buffered[c].cursor == c
  }

  /** `r` last: it is taken up, kept for later, or refused. */
  lemma LastIsNoticed(p: Policy, s: State, g: int, r: int, log: Log)
    requires WellIndexed(log) && Keyed(s, g)
    ensures Keyed(Step(p, s, Deliver(g, log(g, r))), g)
    ensures
      var t := Step(p, s, Deliver(g, log(g, r)));
      t.phase == Backpressured || r in t.buffered || (t.cursor.Some? && r <= t.cursor.value)
  {
    hide Drain;
    if s.cursor.value + 1 == r {
      DrainGoesOn(ApplyEvent(s, log(g, r)));
    }
  }

  lemma {:induction false} DrainGoesOn(s: State)
    requires Keyed(s, s.generation)
    ensures s.cursor.value <= Drain(s).cursor.value && Keyed(Drain(s), s.generation)
    decreases |s.buffered.Keys|
  {
    var next := s.cursor.value + 1;
    if next in s.buffered {
      var rest := s.buffered - {next};
      assert rest.Keys == s.buffered.Keys - {next};
      DrainGoesOn(ApplyEvent(s.(buffered := rest), s.buffered[next]));
    }
  }

  lemma {:induction false} KeyedRun(p: Policy, s0: State, snapshot: Op, order: seq<int>, log: Log)
    requires JustEntered(s0) && WellIndexed(log) && snapshot.Snapshot? && snapshot.generation == s0.generation
    ensures Keyed(Run(p, s0, [snapshot] + DeliverEach(order, s0.generation, log)), s0.generation)
  {
    var g := s0.generation;
    var ops := [snapshot] + DeliverEach(order, g, log);
    if order == [] {
      assert ops == [snapshot] && Prior(ops) == [] && Run(p, s0, ops) == Step(p, s0, snapshot);
      assert Install(s0, snapshot).buffered == map[];
    } else {
      var c, init := order[|order| - 1], order[..|order| - 1];
      var before := [snapshot] + DeliverEach(init, g, log);
      KeyedRun(p, s0, snapshot, init, log);
      assert ops == before + [Deliver(g, log(g, c))] && Prior(ops) == before;
      hide Step, Keyed;
      LastIsNoticed(p, Run(p, s0, before), g, c, log);
    }
  }

  // ---------------------------------------------------------------- exactly when

  /** One cursor too many: delivered right before the snapshot it leaves no trace, delivered last it does. */
  lemma TooManyEndApart(p: Policy, s0: State, snapshot: Op, all: set<int>, r: int, log: Log)
    returns (ops: seq<Op>, ops': seq<Op>)
    requires JustEntered(s0) && WellIndexed(log) && snapshot.Snapshot? && snapshot.generation == s0.generation
    requires r in all && snapshot.cursor < r && p.maxBuffered < |all|
    ensures Delivers(ops, snapshot, all, log) && Delivers(ops', snapshot, all, log)
    ensures ops != [] && IsCurrent(ops[0], s0.generation) && ops' != [] && IsCurrent(ops'[0], s0.generation)
    ensures !EndAlike(Run(p, s0, ops), Run(p, s0, ops'))
  {
    hide Run, Step, Received, Snapshots, WithinGeneration, FromLog;
    var g := s0.generation;
    var order := Listing(all - {r});
    var each := DeliverEach(order, g, log);
    TooMany(g, snapshot, all, r, order, log);
    ops := each + [Deliver(g, log(g, r))] + [snapshot];
    LastIsMissed(p, s0, snapshot, all, r, order, log);
    ops' := [snapshot] + each + [Deliver(g, log(g, r))];
    OthersFirst(g, snapshot, order, r, log);
    assert all - {r} + {r} == all && Prior(ops') == [snapshot] + each;
    KeyedRun(p, s0, snapshot, order, log);
    LastIsNoticed(p, Run(p, s0, [snapshot] + each), g, r, log);
    RunLast(p, s0, ops');
  }

  lemma OthersFirst(g: int, snapshot: Op, order: seq<int>, r: int, log: Log)
    requires snapshot.Snapshot? && snapshot.generation == g && WellIndexed(log)
    ensures Delivers([snapshot] + DeliverEach(order, g, log), snapshot, Cursors(order), log)
    ensures Delivers([snapshot] + DeliverEach(order, g, log) + [Deliver(g, log(g, r))], snapshot,
                     Cursors(order) + {r}, log)
  {
    assert Prior([snapshot]) == [] && Snapshots([snapshot], g) == [snapshot] && Received([snapshot], g) == {};
    EachIsDelivered([snapshot], order, g, log);
    assert {} + Cursors(order) == Cursors(order);
    OneMoreDelivered([snapshot] + DeliverEach(order, g, log), r, g, log);
  }

  lemma SnapshotRests(p: Policy, s0: State, ops: seq<Op>, snapshot: Op, log: Log)
    requires snapshot.Snapshot? && snapshot.generation == s0.generation && JustEntered(s0) && WellIndexed(log)
    requires FromLog(ops, log) && WithinGeneration(ops, s0.generation) && Snapshots(ops, s0.generation) == []
    requires Unrefused(p, s0, ops)
    ensures Run(p, s0, ops + [snapshot]).phase != Backpressured
  {
    hide Received;
    assert Prior(ops + [snapshot]) == ops;
    SessionFrom(p, s0, ops, log);
    SnapshotCatches(p, Run(p, s0, ops), snapshot, Received(ops, s0.generation), log);
  }

  /** After the snapshot, with a gap before whatever comes, the buffer fills in the same way. */
  ghost predicate Waiting(s: State, g: int, cursor: int, maxBuffered: int, received: set<int>) {
    && s.generation == g && s.cursor == Some(cursor)
    && (|s.buffered| >= maxBuffered || s.buffered.Keys == received)
  }

  lemma WaitingStep(p: Policy, s: State, g: int, cursor: int, c: int, received: set<int>, log: Log)
    requires WellIndexed(log) && Waiting(s, g, cursor, p.maxBuffered, received) && cursor + 1 < c
    ensures
      var t := Step(p, s, Deliver(g, log(g, c)));
      && Waiting(t, g, cursor, p.maxBuffered, received + {c})
      && (|s.buffered| >= p.maxBuffered ==> t.phase == Backpressured)
  {
    hide Drain;
    var e := log(g, c);
    assert Step(p, s, Deliver(g, e)) == CursorEvent(s, p.maxBuffered, e) && e.cursor == c;
    hide Step;
    var t := CursorEvent(s, p.maxBuffered, e);
    if t.buffered != s.buffered {
      assert t.buffered.Keys == s.buffered.Keys + {c};
    }
  }

  lemma {:induction false} WaitingRun(p: Policy, s0: State, snapshot: Op, order: seq<int>, log: Log)
    requires JustEntered(s0) && WellIndexed(log) && snapshot.Snapshot? && snapshot.generation == s0.generation
    requires forall c <- Cursors(order) :: snapshot.cursor + 1 < c
    ensures Waiting(Run(p, s0, [snapshot] + DeliverEach(order, s0.generation, log)), s0.generation, snapshot.cursor,
                    p.maxBuffered, Cursors(order))
  {
    var g := s0.generation;
    var ops := [snapshot] + DeliverEach(order, g, log);
    if order == [] {
      assert ops == [snapshot] && Prior(ops) == [] && Run(p, s0, ops) == Step(p, s0, snapshot);
      assert Install(s0, snapshot).buffered == map[] && Cursors(order) == {};
    } else {
      hide Run, Step, Waiting, Cursors, DeliverEach;
      var c, init := order[|order| - 1], order[..|order| - 1];
      var before := [snapshot] + DeliverEach(init, g, log);
      LastDelivered(order, g, log);
      WaitingRun(p, s0, snapshot, init, log);
      assert ops == before + [Deliver(g, log(g, c))] && Prior(ops) == before;
      RunLast(p, s0, ops);
      WaitingStep(p, Run(p, s0, before), g, snapshot.cursor, c, Cursors(init), log);
    }
  }

  /** As many cursors as slots, all with a gap before them: a duplicate is refused after the snapshot only. */
  lemma DuplicateEndsApart(p: Policy, s0: State, snapshot: Op, all: set<int>, log: Log)
    returns (ops: seq<Op>, ops': seq<Op>)
    requires JustEntered(s0) && WellIndexed(log) && snapshot.Snapshot? && snapshot.generation == s0.generation
    requires all != {} && p.maxBuffered == |all| && forall c <- all :: snapshot.cursor + 1 < c
    ensures Delivers(ops, snapshot, all, log) && Delivers(ops', snapshot, all, log)
    ensures ops != [] && IsCurrent(ops[0], s0.generation) && ops' != [] && IsCurrent(ops'[0], s0.generation)
    ensures !EndAlike(Run(p, s0, ops), Run(p, s0, ops'))
  {
    hide Run, Step, Received, Snapshots, WithinGeneration, FromLog;
    var g := s0.generation;
    var c := Member(all);
    var order := Listing(all);
    var once := [snapshot] + DeliverEach(order, g, log);
    ops := once + [Deliver(g, log(g, c))];
    OthersFirst(g, snapshot, order, c, log);
    assert all + {c} == all && Prior(ops) == once;
    WaitingRun(p, s0, snapshot, order, log);
    WaitingStep(p, Run(p, s0, once), g, snapshot.cursor, c, all, log);
    RunLast(p, s0, ops);
    var others := Listing(all - {c});
    TooMany(g, snapshot, all, c, others, log);
    var full := DeliverEach(others, g, log) + [Deliver(g, log(g, c))];
    OneMoreDelivered(DeliverEach(others, g, log), c, g, log);
    ops' := full + [snapshot];
    RoomIsEnough(p, s0, snapshot.(cursor := c), all, full, log);
    SnapshotRests(p, s0, full, snapshot, log);
  }

  /** All deliveries that enter generation `g` with this snapshot and these cursors end alike. */
  ghost predicate AllEndAlike(p: Policy, s0: State, snapshot: Op, received: set<int>, log: Log)
    requires snapshot.Snapshot?
  {
    forall ops, ops' |
      && Delivers(ops, snapshot, received, log) && Enters(s0, snapshot.generation, ops)
      && Delivers(ops', snapshot, received, log) && Enters(s0, snapshot.generation, ops') ::
      EndAlike(Run(p, s0, ops), Run(p, s0, ops'))
  }

  /** Any two deliveries of the same events and the same snapshot, in any orders and with any duplicates, end
      alike exactly when there is room or no cursor is beyond the snapshot's. */
  lemma AllEndAlikeIff(p: Policy, s0: State, snapshot: Op, received: set<int>, log: Log)
    requires WellIndexed(log) && snapshot.Snapshot? && s0.generation <= snapshot.generation
    requires s0.generation == snapshot.generation ==> JustEntered(s0)
    ensures AllEndAlike(p, s0, snapshot, received, log) <==>
            Roomy(p.maxBuffered, snapshot, received) || NoneBeyond(snapshot, received)
  {
    hide Run, Step, Delivers, Roomy, EndAlike;
    var g := snapshot.generation;
    if Roomy(p.maxBuffered, snapshot, received) || NoneBeyond(snapshot, received) {
      forall ops, ops' |
        && Delivers(ops, snapshot, received, log) && Enters(s0, g, ops)
        && Delivers(ops', snapshot, received, log) && Enters(s0, g, ops')
        ensures EndAlike(Run(p, s0, ops), Run(p, s0, ops'))
      {
        if Roomy(p.maxBuffered, snapshot, received) {
          OrderDoesNotMatterWithRoom(p, s0, snapshot, received, ops, ops', log);
        } else {
          RunEnters(p, s0, g, ops);
          RunEnters(p, s0, g, ops');
          NoneBeyondEndsAlike(p, Enter(s0, g), snapshot, received, ops, ops', log);
        }
      }
    } else {
      var ops, ops' := SomeEndApart(p, Enter(s0, g), snapshot, received, log);
      RunEnters(p, s0, g, ops);
      RunEnters(p, s0, g, ops');
    }
  }

  lemma SomeEndApart(p: Policy, s0: State, snapshot: Op, all: set<int>, log: Log) returns (ops: seq<Op>, ops': seq<Op>)
    requires JustEntered(s0) && WellIndexed(log) && snapshot.Snapshot? && snapshot.generation == s0.generation
    requires !Roomy(p.maxBuffered, snapshot, all) && !NoneBeyond(snapshot, all)
    ensures Delivers(ops, snapshot, all, log) && Delivers(ops', snapshot, all, log)
    ensures ops != [] && IsCurrent(ops[0], s0.generation) && ops' != [] && IsCurrent(ops'[0], s0.generation)
    ensures !EndAlike(Run(p, s0, ops), Run(p, s0, ops'))
  {
    var r :| r in all && snapshot.cursor < r;
    if p.maxBuffered < |all| {
      ops, ops' := TooManyEndApart(p, s0, snapshot, all, r, log);
    } else {
      ops, ops' := DuplicateEndsApart(p, s0, snapshot, all, log);
    }
  }
}
