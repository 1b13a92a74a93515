/** Delivery order within one generation: what a session reaches whatever the order was, and exactly when no
    order is refused. */
module BoundaryIngressOrder {
  import opened Common
  import opened BoundaryIngress
  import opened BoundaryIngressProofs

  /** Operations that stay within generation `g`: no resubscription, nothing newer. */
  predicate WithinGeneration(ops: seq<Op>, g: int) {
    forall op <- ops :: !op.Subscribe? && (op.Snapshot? || op.Deliver? ==> op.generation <= g)
  }

  function Received(ops: seq<Op>, g: int): set<int> {
    if ops == [] then {}
    else
      var op := ops[|ops| - 1];
      Received(Prior(ops), g) + if op.Deliver? && op.generation == g then {op.event.cursor} else {}
  }

  function Snapshots(ops: seq<Op>, g: int): seq<Op> {
    if ops == [] then []
    else
      var op := ops[|ops| - 1];
      Snapshots(Prior(ops), g) + if op.Snapshot? && op.generation == g then [op] else []
  }

  /** No operation of a run is refused for lack of room. */
  ghost predicate Unrefused(p: Policy, s: State, ops: seq<Op>) {
    ops != [] ==> Run(p, s, ops).phase != Backpressured && Unrefused(p, s, Prior(ops))
  }

  /** A generation just entered: nothing known, nothing buffered. */
  predicate JustEntered(s: State) {
    s.phase in {Detached, Bootstrapping} && s.cursor.None? && s.buffered == map[]
  }

  ghost function Beyond(received: set<int>, cursor: int, g: int, log: Log): map<int, Event> {
    map c | c in received && cursor < c :: log(g, c)
  }

  /** The state the snapshot and the received cursors determine, whatever their order was. */
  ghost predicate Caught(s: State, snapshot: Op, received: set<int>, log: Log)
    requires snapshot.Snapshot?
  {
    && s.generation == snapshot.generation && Resting(s)
    && snapshot.cursor <= s.cursor.value
    && (forall c :: snapshot.cursor < c <= s.cursor.value ==> c in received)
    && s.cursor.value + 1 !in received
    && s.buffered == Beyond(received, s.cursor.value, s.generation, log)
    && SourceOf(s) == Replay(log, s.generation, Source(snapshot.sourceKeys, snapshot.validation),
                             snapshot.cursor, s.cursor.value)
    && s.lastStampedAt == Some(if s.cursor.value == snapshot.cursor then snapshot.stampedAt
                               else log(s.generation, s.cursor.value).stampedAt)
  }

  lemma SnapshotCatches(p: Policy, s: State, op: Op, received: set<int>, log: Log)
    requires op.Snapshot? && s.generation == op.generation && WellIndexed(log)
    requires s.buffered == (map c | c in received :: log(s.generation, c))
    ensures Caught(Step(p, s, op), op, received, log)
  {
    hide Drain, Replay, Consume;
    var t := Install(s, op);
    DrainExact(t, log);
    var d := Drain(t);
    assert forall c :: c in t.buffered <==> c in received && op.cursor < c;
    assert forall c :: op.cursor < c <= d.cursor.value ==> c in t.buffered && c in received;
    assert forall c <- d.buffered :: c in t.buffered && d.buffered[c] == log(s.generation, c);
    assert d.buffered == Beyond(received, d.cursor.value, s.generation, log);
  }

  lemma InOrderKeepsCaught(s: State, e: Event, snapshot: Op, received: set<int>, log: Log)
    requires snapshot.Snapshot? && Caught(s, snapshot, received, log) && s.cursor == Some(e.cursor - 1)
    requires WellIndexed(log) && e == log(s.generation, e.cursor)
    ensures Caught(Drain(ApplyEvent(s, e)), snapshot, received + {e.cursor}, log)
  {
    var a := ApplyEvent(s, e);
    DrainExact(a, log);
    var d, r := Drain(a), received + {e.cursor};
    var src := Source(snapshot.sourceKeys, snapshot.validation);
    ReplayJoins(log, s.generation, src, snapshot.cursor, e.cursor, d.cursor.value);
    forall c | snapshot.cursor < c <= d.cursor.value ensures c in r {
      assert c <= s.cursor.value || c == e.cursor || c in a.buffered;
    }
    assert d.cursor.value + 1 !in r;
    assert d.buffered == Beyond(r, d.cursor.value, s.generation, log);
  }

  lemma DuplicateKeepsCaught(s: State, cursor: int, snapshot: Op, received: set<int>, log: Log)
    requires snapshot.Snapshot? && Caught(s, snapshot, received, log) && cursor <= s.cursor.value
    ensures Caught(s, snapshot, received + {cursor}, log)
  {
    hide Replay, SourceOf;
    assert Beyond(received + {cursor}, s.cursor.value, s.generation, log) ==
           Beyond(received, s.cursor.value, s.generation, log);
  }

  lemma GapKeepsCaught(s: State, e: Event, snapshot: Op, received: set<int>, log: Log)
    requires snapshot.Snapshot? && Caught(s, snapshot, received, log) && s.cursor.value + 1 < e.cursor
    requires e == log(s.generation, e.cursor)
    ensures
      var t := s.(buffered := s.buffered[e.cursor := e], phase := ReplayRequired,
                  replayFrom := Some(s.cursor.value + 1));
      Caught(Changed(t), snapshot, received + {e.cursor}, log)
  {
    hide Replay;
    assert Beyond(received + {e.cursor}, s.cursor.value, s.generation, log) ==
           Beyond(received, s.cursor.value, s.generation, log)[e.cursor := e];
    assert e.cursor in s.buffered[e.cursor := e];
  }

  lemma EventKeepsCaught(p: Policy, s: State, e: Event, snapshot: Op, received: set<int>, log: Log)
    requires snapshot.Snapshot? && Caught(s, snapshot, received, log)
    requires WellIndexed(log) && e == log(s.generation, e.cursor)
    requires CursorEvent(s, p.maxBuffered, e).phase != Backpressured
    ensures Caught(CursorEvent(s, p.maxBuffered, e), snapshot, received + {e.cursor}, log)
  {
    if e.cursor == s.cursor.value + 1 {
      InOrderKeepsCaught(s, e, snapshot, received, log);
    } else if e.cursor <= s.cursor.value {
      DuplicateKeepsCaught(s, e.cursor, snapshot, received, log);
    } else {
      GapKeepsCaught(s, e, snapshot, received, log);
    }
  }

  /** What a state within generation `g` holds, given the snapshots and cursors received so far. */
  ghost predicate Session(s: State, g: int, snapshots: seq<Op>, received: set<int>, log: Log) {
    && s.generation == g
    && (snapshots == [] ==> s.cursor.None? && s.buffered == AllOf(received, g, log))
    && (snapshots != [] ==> snapshots[0].Snapshot? && Caught(s, snapshots[0], received, log))
  }

  ghost function AllOf(received: set<int>, g: int, log: Log): map<int, Event> {
    map c | c in received :: log(g, c)
  }

  lemma SessionStep(p: Policy, s: State, op: Op, snapshots: seq<Op>, received: set<int>, log: Log)
    requires WellIndexed(log) && Session(s, s.generation, snapshots, received, log)
    requires !op.Subscribe? && (op.Snapshot? || op.Deliver? ==> op.generation <= s.generation)
    requires op.Deliver? ==> op.event == log(op.generation, op.event.cursor)
    requires op.Snapshot? && op.generation == s.generation ==> snapshots == []
    requires Step(p, s, op).phase != Backpressured
    ensures
      var current := (op.Snapshot? || op.Deliver?) && op.generation == s.generation;
      Session(Step(p, s, op), s.generation,
              if op.Snapshot? && current then [op] else snapshots,
              if op.Deliver? && current then received + {op.event.cursor} else received, log)
  {
    if op.Snapshot? && op.generation == s.generation {
      SnapshotCatches(p, s, op, received, log);
    } else if op.Deliver? && op.generation == s.generation {
      if s.cursor.Some? {
        EventKeepsCaught(p, s, op.event, snapshots[0], received, log);
      } else {
        assert Step(p, s, op).buffered == AllOf(received + {op.event.cursor}, s.generation, log);
      }
    }
  }

  /** After any operations within one generation: before its snapshot, the buffer is exactly what was
      received; after it, the cursor ends the longest received run and the buffer is what lies beyond. */
  lemma {:induction false} SessionFrom(p: Policy, s0: State, ops: seq<Op>, log: Log)
    requires JustEntered(s0) && WithinGeneration(ops, s0.generation) && FromLog(ops, log)
    requires |Snapshots(ops, s0.generation)| <= 1 && Unrefused(p, s0, ops)
    ensures Session(Run(p, s0, ops), s0.generation, Snapshots(ops, s0.generation), Received(ops, s0.generation), log)
  {
    var g := s0.generation;
    if ops == [] {
      assert s0.buffered == AllOf({}, g, log);
    } else {
      var op := ops[|ops| - 1];
      assert op in ops && forall o <- Prior(ops) :: o in ops;
      SessionFrom(p, s0, Prior(ops), log);
      SessionStep(p, Run(p, s0, Prior(ops)), op, Snapshots(Prior(ops), g), Received(Prior(ops), g), log);
      assert Received(Prior(ops), g) + {} == Received(Prior(ops), g);
    }
  }

  /** The same cursor, buffer and source, in the same phase. */
  ghost predicate EndAlike(s: State, t: State) {
    && s.cursor == t.cursor && s.buffered == t.buffered && SourceOf(s) == SourceOf(t)
    && s.phase == t.phase && s.replayFrom == t.replayFrom && s.lastStampedAt == t.lastStampedAt
  }

  /** A snapshot and a set of received cursors fix the cursor, hence everything `Caught` speaks of. */
  lemma CaughtIsUnique(s: State, t: State, snapshot: Op, received: set<int>, log: Log)
    requires snapshot.Snapshot? && Caught(s, snapshot, received, log) && Caught(t, snapshot, received, log)
    ensures EndAlike(s, t)
  {
    var c, d := s.cursor.value, t.cursor.value;
    assert (c < d ==> c + 1 in received) && (d < c ==> d + 1 in received);
  }

  // ---------------------------------------------------------------- entering a generation

  predicate IsCurrent(op: Op, g: int) {
    (op.Snapshot? || op.Deliver?) && op.generation == g
  }

  /** Generation `g` begins with the operations: it was just subscribed to, or their first one enters it. */
  predicate Enters(s0: State, g: int, ops: seq<Op>) {
    if s0.generation == g then JustEntered(s0) else s0.generation < g && ops != [] && IsCurrent(ops[0], g)
  }

  lemma EnteringStep(p: Policy, s: State, op: Op)
    requires (op.Snapshot? || op.Deliver?) && s.generation < op.generation
    ensures JustEntered(Enter(s, op.generation)) && Step(p, s, op) == Step(p, Enter(s, op.generation), op)
  {
    hide Drain;
    if op.Snapshot? {
      assert Install(s, op) == Install(Enter(s, op.generation), op);
    }
  }

  /** A run that enters a generation is the run from the state just entered. */
  lemma {:induction false} RunEnters(p: Policy, s0: State, g: int, ops: seq<Op>)
    requires Enters(s0, g, ops)
    ensures JustEntered(Enter(s0, g)) && Enter(s0, g).generation == g
    ensures Run(p, s0, ops) == Run(p, Enter(s0, g), ops)
    ensures Unrefused(p, s0, ops) <==> Unrefused(p, Enter(s0, g), ops)
  {
    hide Step;
    if s0.generation < g {
      var op := ops[|ops| - 1];
      if |ops| == 1 {
        EnteringStep(p, s0, op);
        assert Prior(ops) == [] && Run(p, s0, []) == s0 && Run(p, Enter(s0, g), []) == Enter(s0, g);
      } else {
        assert Prior(ops)[0] == ops[0];
        RunEnters(p, s0, g, Prior(ops));
      }
    }
  }

  /** Operations of one generation, from its log, with one snapshot. */
  ghost predicate Delivers(ops: seq<Op>, snapshot: Op, received: set<int>, log: Log) {
    && snapshot.Snapshot? && WithinGeneration(ops, snapshot.generation) && FromLog(ops, log)
    && Snapshots(ops, snapshot.generation) == [snapshot] && Received(ops, snapshot.generation) == received
  }

  /** After any operations within one generation, however it was entered: before its snapshot, the buffer is
      exactly what was received; after it, the cursor ends the longest received run and the buffer is what
      lies beyond. */
  lemma SessionState(p: Policy, s0: State, g: int, ops: seq<Op>, log: Log)
    requires Enters(s0, g, ops) && WithinGeneration(ops, g) && FromLog(ops, log)
    requires |Snapshots(ops, g)| <= 1 && Unrefused(p, s0, ops)
    ensures Session(Run(p, s0, ops), g, Snapshots(ops, g), Received(ops, g), log)
  {
    RunEnters(p, s0, g, ops);
    SessionFrom(p, Enter(s0, g), ops, log);
  }

  /** Two deliveries of the same events and the same snapshot, in any two orders and with any duplicates, end
      alike if neither is refused. */
  lemma OrderDoesNotMatter(p: Policy, s0: State, snapshot: Op, received: set<int>, ops: seq<Op>, ops': seq<Op>,
                           log: Log)
    requires Delivers(ops, snapshot, received, log) && Enters(s0, snapshot.generation, ops) && Unrefused(p, s0, ops)
    requires Delivers(ops', snapshot, received, log) && Enters(s0, snapshot.generation, ops') && Unrefused(p, s0, ops')
    ensures EndAlike(Run(p, s0, ops), Run(p, s0, ops'))
  {
    SessionState(p, s0, snapshot.generation, ops, log);
    SessionState(p, s0, snapshot.generation, ops', log);
    CaughtIsUnique(Run(p, s0, ops), Run(p, s0, ops'), snapshot, received, log);
  }

  // ---------------------------------------------------------------- exactly when there is room

  /** Room for a snapshot and a set of cursors: fewer cursors than slots, or as many if one of them is at or
      right after the snapshot and so never has to wait. */
  predicate Roomy(maxBuffered: int, snapshot: Op, received: set<int>)
    requires snapshot.Snapshot?
  {
    received == {} || |received| < maxBuffered ||
    (|received| == maxBuffered && exists c <- received :: c <= snapshot.cursor + 1)
  }

  lemma SubsetSize(a: set<int>, b: set<int>)
    requires a <= b
    ensures |a| <= |b| && (|a| == |b| ==> a == b)
  {
    assert b == a + (b - a);
    assert |b| == |a| + |b - a|;
  }

  lemma RoomForBootstrap(maxBuffered: int, snapshot: Op, received: set<int>, all: set<int>, cursor: int)
    requires snapshot.Snapshot? && Roomy(maxBuffered, snapshot, all) && received + {cursor} <= all
    requires cursor !in received
    ensures |received| < maxBuffered
  {
    SubsetSize(received, all);
  }

  lemma RoomForGap(maxBuffered: int, snapshot: Op, waiting: set<int>, all: set<int>, cursor: int)
    requires snapshot.Snapshot? && Roomy(maxBuffered, snapshot, all) && waiting <= all && all != {}
    requires snapshot.cursor <= cursor && forall c <- waiting :: cursor + 1 < c
    ensures |waiting| < maxBuffered
  {
    SubsetSize(waiting, all);
    if |all| == maxBuffered {
      var c :| c in all && c <= snapshot.cursor + 1;
      assert c !in waiting;
    }
  }

  lemma RoomForEvent(p: Policy, s: State, e: Event, snapshot: Op, snapshots: seq<Op>, received: set<int>, all: set<int>,
                     log: Log)
    requires WellIndexed(log) && Session(s, s.generation, snapshots, received, log) && s.phase != Backpressured
    requires e == log(s.generation, e.cursor) && received <= all && e.cursor in all
    requires snapshot.Snapshot? && (snapshots == [] || snapshots == [snapshot]) && Roomy(p.maxBuffered, snapshot, all)
    ensures DeliverStep(s, p.maxBuffered, s.generation, e).phase != Backpressured
  {
    hide Replay, Drain;
    if s.cursor.None? {
      hide Caught, Roomy;
      assert s.buffered.Keys == received;
      if e.cursor !in received {
        RoomForBootstrap(p.maxBuffered, snapshot, received, all, e.cursor);
      }
    } else if s.cursor == Some(e.cursor - 1) {
      InOrderKeepsCaught(s, e, snapshot, received, log);
    } else if s.cursor.value < e.cursor {
      hide Roomy;
      assert s.buffered.Keys <= received;
      RoomForGap(p.maxBuffered, snapshot, s.buffered.Keys, all, s.cursor.value);
    }
  }

  lemma RoomForOne(p: Policy, s: State, op: Op, snapshot: Op, snapshots: seq<Op>, received: set<int>, all: set<int>,
                   log: Log)
    requires WellIndexed(log) && Session(s, s.generation, snapshots, received, log) && s.phase != Backpressured
    requires !op.Subscribe? && (op.Snapshot? || op.Deliver? ==> op.generation <= s.generation)
    requires op.Deliver? ==> op.event == log(op.generation, op.event.cursor)
    requires op.Snapshot? && op.generation == s.generation ==> snapshots == []
    requires snapshot.Snapshot? && (snapshots == [] || snapshots == [snapshot]) && Roomy(p.maxBuffered, snapshot, all)
    requires received <= all && (op.Deliver? && op.generation == s.generation ==> op.event.cursor in all)
    ensures Step(p, s, op).phase != Backpressured
  {
    hide Replay, Drain, BootstrapEvent, CursorEvent, Roomy;
    if op.Snapshot? && op.generation == s.generation {
      SnapshotCatches(p, s, op, received, log);
    } else if op.Deliver? && op.generation == s.generation {
      hide Session;
      RoomForEvent(p, s, op.event, snapshot, snapshots, received, all, log);
    }
  }

  lemma {:induction false} RoomIsEnough(p: Policy, s0: State, snapshot: Op, all: set<int>, ops: seq<Op>, log: Log)
    requires JustEntered(s0) && WithinGeneration(ops, s0.generation) && FromLog(ops, log)
    requires snapshot.Snapshot? && snapshot.generation == s0.generation && Roomy(p.maxBuffered, snapshot, all)
    requires Snapshots(ops, s0.generation) == [] || Snapshots(ops, s0.generation) == [snapshot]
    requires Received(ops, s0.generation) <= all
    ensures Unrefused(p, s0, ops)
  {
    if ops != [] {
      var g, op := s0.generation, ops[|ops| - 1];
      var snapshots, received := Snapshots(Prior(ops), g), Received(Prior(ops), g);
      assert op in ops && forall o <- Prior(ops) :: o in ops;
      assert snapshots == [] || snapshots == [snapshot];
      RoomIsEnough(p, s0, snapshot, all, Prior(ops), log);
      SessionFrom(p, s0, Prior(ops), log);
      RoomForOne(p, Run(p, s0, Prior(ops)), op, snapshot, snapshots, received, all, log);
    }
  }

  // ---------------------------------------------------------------- too little room

  /** The log entries at some cursors, one after the other. */
  function DeliverEach(cursors: seq<int>, g: int, log: Log): seq<Op> {
    seq(|cursors|, i requires 0 <= i < |cursors| => Deliver(g, log(g, cursors[i])))
  }

  function Cursors(order: seq<int>): set<int> {
    set c | c in order
  }

  lemma LastDelivered(order: seq<int>, g: int, log: Log)
    requires order != []
    ensures
      var c, init := order[|order| - 1], order[..|order| - 1];
      && DeliverEach(order, g, log) == DeliverEach(init, g, log) + [Deliver(g, log(g, c))]
      && Cursors(order) == Cursors(init) + {c}
  {
    var c, init := order[|order| - 1], order[..|order| - 1];
    assert order == init + [c];
  }

  lemma Member(all: set<int>) returns (c: int)
    requires all != {}
    ensures c in all
  {
    if forall x: int :: x !in all {
      assert false;
    }
    c :| c in all;
  }

  lemma {:induction false} Listing(all: set<int>) returns (order: seq<int>)
    ensures Cursors(order) == all
  {
    order := [];
    if all != {} {
      var c := Member(all);
      var rest := Listing(all - {c});
      order := rest + [c];
      assert Cursors(order) == Cursors(rest) + {c};
    }
  }

  lemma {:induction false} EachIsDelivered(before: seq<Op>, order: seq<int>, g: int, log: Log)
    requires WithinGeneration(before, g) && FromLog(before, log)
    ensures var ops := before + DeliverEach(order, g, log);
      && WithinGeneration(ops, g) && FromLog(ops, log)
      && Snapshots(ops, g) == Snapshots(before, g) && Received(ops, g) == Received(before, g) + Cursors(order)
  {
    hide Received, Snapshots, FromLog, WithinGeneration;
    if order == [] {
      assert before + DeliverEach(order, g, log) == before && Cursors(order) == {};
    } else {
      var c, init := order[|order| - 1], order[..|order| - 1];
      EachIsDelivered(before, init, g, log);
      OneMoreDelivered(before + DeliverEach(init, g, log), c, g, log);
      LastDelivered(order, g, log);
      assert before + DeliverEach(order, g, log) == before + DeliverEach(init, g, log) + [Deliver(g, log(g, c))];
    }
  }

  lemma OneMoreDelivered(ops: seq<Op>, c: int, g: int, log: Log)
    requires WithinGeneration(ops, g) && FromLog(ops, log)
    ensures var more := ops + [Deliver(g, log(g, c))];
      && Prior(more) == ops && WithinGeneration(more, g) && FromLog(more, log)
      && Snapshots(more, g) == Snapshots(ops, g) && Received(more, g) == Received(ops, g) + {c}
  {
    assert Prior(ops + [Deliver(g, log(g, c))]) == ops;
  }

  /** A new cursor finds no slot before the snapshot, a waiting one none after it. */
  lemma FullIsRefused(p: Policy, s: State, c: int, log: Log)
    requires WellIndexed(log) && |s.buffered| >= p.maxBuffered
    requires if s.cursor.None? then c !in s.buffered else s.cursor.value + 1 < c
    ensures Step(p, s, Deliver(s.generation, log(s.generation, c))).phase == Backpressured
  {
    assert log(s.generation, c).cursor == c;
  }

  lemma OneMoreIsRefused(p: Policy, s0: State, before: seq<Op>, c: int, log: Log)
    requires WellIndexed(log)
    requires var s := Run(p, s0, before);
      && s.generation == s0.generation && |s.buffered| >= p.maxBuffered
      && if s.cursor.None? then c !in s.buffered else s.cursor.value + 1 < c
    ensures Run(p, s0, before + [Deliver(s0.generation, log(s0.generation, c))]).phase == Backpressured
  {
    hide Step;
    var ops := before + [Deliver(s0.generation, log(s0.generation, c))];
    assert Prior(ops) == before;
    FullIsRefused(p, Run(p, s0, before), c, log);
  }

  lemma TooMany(g: int, snapshot: Op, all: set<int>, c: int, order: seq<int>, log: Log)
    requires snapshot.Snapshot? && snapshot.generation == g && WellIndexed(log)
    requires c in all && Cursors(order) == all - {c}
    ensures
      var first := DeliverEach(order, g, log);
      var full := first + [Deliver(g, log(g, c))];
      && WithinGeneration(first, g) && FromLog(first, log)
      && Snapshots(first, g) == [] && Received(first, g) == all - {c}
      && Delivers(full + [snapshot], snapshot, all, log) && Prior(full + [snapshot]) == full && Prior(full) == first
  {
    var first := DeliverEach(order, g, log);
    EachIsDelivered([], order, g, log);
    assert [] + first == first && {} + (all - {c}) == all - {c};
    OneMoreDelivered(first, c, g, log);
    var full := first + [Deliver(g, log(g, c))];
    assert Prior(full + [snapshot]) == full && all - {c} + {c} == all;
  }

  /** More cursors than slots: before the snapshot, the last of them is refused. */
  lemma TooManyAreRefused(p: Policy, s0: State, snapshot: Op, all: set<int>, log: Log) returns (ops: seq<Op>)
    requires JustEntered(s0) && WellIndexed(log) && snapshot.Snapshot? && snapshot.generation == s0.generation
    requires all != {} && p.maxBuffered < |all|
    ensures Delivers(ops, snapshot, all, log) && !Unrefused(p, s0, ops)
  {
    hide Run, Step, Received, Snapshots, WithinGeneration, FromLog, Delivers, DeliverEach;
    var g := s0.generation;
    var c := Member(all);
    var order := Listing(all - {c});
    TooMany(g, snapshot, all, c, order, log);
    var first := DeliverEach(order, g, log);
    var full := first + [Deliver(g, log(g, c))];
    ops := full + [snapshot];
    if Unrefused(p, s0, ops) {
      assert Unrefused(p, s0, full) && Unrefused(p, s0, first);
      SessionFrom(p, s0, first, log);
      NothingForgotten(Run(p, s0, first), all - {c}, log);
      OneMoreIsRefused(p, s0, first, c, log);
    }
  }

  lemma NothingForgotten(s: State, received: set<int>, log: Log)
    requires Session(s, s.generation, [], received, log)
    ensures s.cursor.None? && s.buffered.Keys == received && |s.buffered| == |received|
  {
    assert s.buffered.Keys == received;
  }

  /** As many cursors as slots, all beyond the one right after the snapshot: they all wait, and then a duplicate
      is refused. */
  lemma DuplicateIsRefused(p: Policy, s0: State, snapshot: Op, all: set<int>, log: Log) returns (ops: seq<Op>)
    requires JustEntered(s0) && WellIndexed(log) && snapshot.Snapshot? && snapshot.generation == s0.generation
    requires all != {} && p.maxBuffered == |all| && forall c <- all :: snapshot.cursor + 1 < c
    ensures Delivers(ops, snapshot, all, log) && !Unrefused(p, s0, ops)
  {
    var g := s0.generation;
    var c := Member(all);
    var order := Listing(all);
    assert Prior([snapshot]) == [] && Snapshots([snapshot], g) == [snapshot] && Received([snapshot], g) == {};
    EachIsDelivered([snapshot], order, g, log);
    var once := [snapshot] + DeliverEach(order, g, log);
    OneMoreDelivered(once, c, g, log);
    ops := once + [Deliver(g, log(g, c))];
    assert {} + all == all && all + {c} == all && Prior(ops) == once;
    hide Run, Step;
    assert Delivers(ops, snapshot, all, log);
    if Unrefused(p, s0, ops) {
      SessionFrom(p, s0, once, log);
      var s := Run(p, s0, once);
      NothingConsumed(s, snapshot, all, log);
      OneMoreIsRefused(p, s0, once, c, log);
    }
  }

  lemma NothingConsumed(s: State, snapshot: Op, all: set<int>, log: Log)
    requires snapshot.Snapshot? && Caught(s, snapshot, all, log) && forall c <- all :: snapshot.cursor + 1 < c
    ensures s.cursor == Some(snapshot.cursor) && s.buffered.Keys == all && |s.buffered| == |all|
  {
    hide Replay;
    var next := snapshot.cursor + 1;
    assert next !in all;
    assert s.buffered.Keys == all;
  }

  /** Every delivery of a snapshot and a set of log entries, in any order and with any duplicates, goes through
      without a refusal exactly when there is room. */
  lemma RoomIff(p: Policy, s0: State, snapshot: Op, received: set<int>, log: Log)
    requires JustEntered(s0) && WellIndexed(log) && snapshot.Snapshot? && snapshot.generation == s0.generation
    ensures (forall ops | Delivers(ops, snapshot, received, log) :: Unrefused(p, s0, ops)) <==>
            Roomy(p.maxBuffered, snapshot, received)
  {
    if Roomy(p.maxBuffered, snapshot, received) {
      forall ops | Delivers(ops, snapshot, received, log) ensures Unrefused(p, s0, ops) {
        RoomIsEnough(p, s0, snapshot, received, ops, log);
      }
    } else if |received| > p.maxBuffered {
      var ops := TooManyAreRefused(p, s0, snapshot, received, log);
    } else {
      var ops := DuplicateIsRefused(p, s0, snapshot, received, log);
    }
  }

  /** With room, any two deliveries of the same events and the same snapshot end alike, however their generation
      was entered. */
  lemma OrderDoesNotMatterWithRoom(p: Policy, s0: State, snapshot: Op, received: set<int>, ops: seq<Op>, ops': seq<Op>,
                                   log: Log)
    requires Delivers(ops, snapshot, received, log) && Enters(s0, snapshot.generation, ops)
    requires Delivers(ops', snapshot, received, log) && Enters(s0, snapshot.generation, ops')
    requires Roomy(p.maxBuffered, snapshot, received)
    ensures EndAlike(Run(p, s0, ops), Run(p, s0, ops'))
  {
    RunEnters(p, s0, snapshot.generation, ops);
    RunEnters(p, s0, snapshot.generation, ops');
    RoomIsEnough(p, Enter(s0, snapshot.generation), snapshot, received, ops, log);
    RoomIsEnough(p, Enter(s0, snapshot.generation), snapshot, received, ops', log);
    OrderDoesNotMatter(p, s0, snapshot, received, ops, ops', log);
  }

  const ONE_SLOT := Policy(1, 0)
  const ORIGIN := Snapshot(0, 0, 0, {}, {}, Valid)
  const GAP := Deliver(0, Event(2, 0, Upsert("k")))

  lemma DuplicateAfterSnapshot()
    ensures Run(ONE_SLOT, INITIAL, [ORIGIN, GAP, GAP]).phase == Backpressured
  {
    RunThree(ONE_SLOT, INITIAL, ORIGIN, GAP, GAP);
    var installed := Install(INITIAL, ORIGIN);
    assert installed.buffered == map[] && Drain(installed) == installed;
    var s := Step(ONE_SLOT, Changed(installed), GAP);
    assert s.buffered == map[2 := GAP.event] && s.cursor == Some(0);
  }

  lemma DuplicateBeforeSnapshot()
    ensures Run(ONE_SLOT, INITIAL, [GAP, GAP, ORIGIN]).phase == ReplayRequired
  {
    RunThree(ONE_SLOT, INITIAL, GAP, GAP, ORIGIN);
    var s := Step(ONE_SLOT, Step(ONE_SLOT, INITIAL, GAP), GAP);
    assert s.buffered == map[2 := GAP.event];
    assert After(s.buffered, 0) == s.buffered && Install(s, ORIGIN).cursor == Some(0);
  }

  /** Without room order can matter: one slot and one cursor that has to wait. A duplicate is refused after the
      snapshot but not before it, and the two orders end in different phases. */
  lemma FullBufferRefusesDuplicate()
    ensures Received([ORIGIN, GAP, GAP], 0) == Received([GAP, GAP, ORIGIN], 0) == {2}
    ensures Run(ONE_SLOT, INITIAL, [ORIGIN, GAP, GAP]).phase != Run(ONE_SLOT, INITIAL, [GAP, GAP, ORIGIN]).phase
  {
    ReceivedThree(ORIGIN, GAP, GAP, 0);
    ReceivedThree(GAP, GAP, ORIGIN, 0);
    DuplicateAfterSnapshot();
    DuplicateBeforeSnapshot();
  }

  lemma RunThree(p: Policy, s: State, a: Op, b: Op, c: Op)
    ensures Run(p, s, [a, b, c]) == Step(p, Step(p, Step(p, s, a), b), c)
  {
    assert Prior([a, b, c]) == [a, b] && Prior([a, b]) == [a] && Prior([a]) == [];
    assert Run(p, s, [a]) == Step(p, s, a) && Run(p, s, [a, b]) == Step(p, Step(p, s, a), b);
  }

  lemma ReceivedThree(a: Op, b: Op, c: Op, g: int)
    ensures Received([a, b, c], g) ==
            set op | op in {a, b, c} && op.Deliver? && op.generation == g :: op.event.cursor
  {
    assert Prior([a, b, c]) == [a, b] && Prior([a, b]) == [a] && Prior([a]) == [];
    assert Received([a], g) == if a.Deliver? && a.generation == g then {a.event.cursor} else {};
  }
}
