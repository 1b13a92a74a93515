/** The boundary ingress adapter's transition owner: generation fencing, snapshot bootstrap,
    a bounded reorder buffer, delivery receipts and observation revisions. */
module BoundaryIngress {
  import opened Common

  datatype Validation = Valid | Invalid
  datatype Action = Upsert(key: string) | Remove(key: string) | Validate(validation: Validation)
  datatype Event = Event(cursor: int, stampedAt: int, action: Action)
  datatype Phase = Detached | Bootstrapping | Live | InvalidSource | ReplayRequired | Backpressured
  datatype Delivery = Delivery(receiptId: string, targets: set<string>, acked: set<string>) {
    predicate Converged() {
      targets != {} && targets <= acked
    }
  }
  datatype Policy = Policy(maxBuffered: int, freshnessHorizon: int)

  datatype State = State(
    phase: Phase,
    generation: int,
    cursor: Option<int>,
    buffered: map<int, Event>,
    sourceKeys: set<string>,
    members: set<string>,
    validation: Validation,
    replayFrom: Option<int>,
    staleEvents: nat,
    delivery: Option<Delivery>,
    lastStampedAt: Option<int>,
    now: int,
    revision: nat)

  datatype Op =
    | Subscribe(generation: int)
    | Snapshot(generation: int, cursor: int, stampedAt: int, sourceKeys: set<string>, members: set<string>,
               validation: Validation)
    | Deliver(generation: int, event: Event)
    | MemberJoin(member: string)
    | MemberLeave(member: string)
    | OpenReceipt(receiptId: string)
    | Ack(receiptId: string, member: string)
    | Tick(now: int)

  const INITIAL :=
    State(Detached, 0, None, map[], {}, {}, Valid, None, 0, None, None, 0, 0)

  // ---------------------------------------------------------------- transitions

  function Settled(v: Validation): Phase {
    if v == Valid then Live else InvalidSource
  }

  function AfterAction(keys: set<string>, a: Action): set<string> {
    match a
    case Upsert(key) => keys + {key}
    case Remove(key) => keys - {key}
    case Validate(_) => keys
  }

  function AfterValidation(v: Validation, a: Action): Validation {
    if a.Validate? then a.validation else v
  }

  function ApplyEvent(s: State, e: Event): State {
    var validation := AfterValidation(s.validation, e.action);
    s.(sourceKeys := AfterAction(s.sourceKeys, e.action), validation := validation, cursor := Some(e.cursor),
       lastStampedAt := Some(e.stampedAt), phase := Settled(validation), replayFrom := None)
  }

  /** Apply buffered events while the one right after the cursor is there. */
  function Drain(s: State): (r: State)
    requires s.cursor.Some?
    ensures r.cursor.Some?
    decreases |s.buffered.Keys|
  {
    var next := s.cursor.value + 1;
    if next in s.buffered then
      var rest := s.buffered - {next};
      assert rest.Keys == s.buffered.Keys - {next};
      Drain(ApplyEvent(s.(buffered := rest), s.buffered[next]))
    else if s.buffered != map[] then s.(phase := ReplayRequired, replayFrom := Some(next))
    else s
  }

  function Changed(s: State): State {
    s.(revision := s.revision + 1)
  }

  function SubscribeStep(s: State, generation: int): State {
    Changed(s.(generation := generation, cursor := None, buffered := map[], sourceKeys := {}, members := {},
               replayFrom := None, phase := Bootstrapping))
  }

  function Stale(s: State): State {
    Changed(s.(staleEvents := s.staleEvents + 1))
  }

  function After(buffered: map<int, Event>, cursor: int): map<int, Event> {
    map c | c in buffered && c > cursor :: buffered[c]
  }

  /** The state a fresh snapshot installs, before buffered events are drained onto it. */
  function Install(s: State, op: Op): State
    requires op.Snapshot?
  {
    var kept := if op.generation > s.generation then map[] else s.buffered;
    s.(generation := Max(s.generation, op.generation), cursor := Some(op.cursor),
       lastStampedAt := Some(op.stampedAt), sourceKeys := op.sourceKeys, members := op.members,
       validation := op.validation, phase := Settled(op.validation), replayFrom := None,
       buffered := After(kept, op.cursor))
  }

  /** Enter a newer generation on its first event; `replayFrom` is left as it was. */
  function Enter(s: State, generation: int): State {
    if generation > s.generation then
      s.(generation := generation, cursor := None, buffered := map[], phase := Bootstrapping)
    else s
  }

  function BootstrapEvent(s: State, maxBuffered: int, e: Event): State {
    if |s.buffered| >= maxBuffered && e.cursor !in s.buffered then
      Changed(s.(phase := Backpressured, replayFrom := Some(0)))
    else if e.cursor in s.buffered then Changed(s)
    else Changed(s.(buffered := s.buffered[e.cursor := e]))
  }

  function CursorEvent(s: State, maxBuffered: int, e: Event): State
    requires s.cursor.Some?
  {
    var c := s.cursor.value;
    if e.cursor <= c then s
    else if e.cursor == c + 1 then Changed(Drain(ApplyEvent(s, e)))
    else if |s.buffered| >= maxBuffered then Changed(s.(phase := Backpressured, replayFrom := Some(c + 1)))
    else Changed(s.(buffered := s.buffered[e.cursor := e], phase := ReplayRequired, replayFrom := Some(c + 1)))
  }

  function DeliverStep(s: State, maxBuffered: int, generation: int, e: Event): State {
    if generation < s.generation then Stale(s)
    else
      var t := Enter(s, generation);
      if t.cursor.None? then BootstrapEvent(t, maxBuffered, e) else CursorEvent(t, maxBuffered, e)
  }

  function JoinStep(s: State, member: string): State {
    var delivery :=
      if s.delivery.Some? && s.delivery.value.targets == {} then Some(s.delivery.value.(targets := {member}))
      else s.delivery;
    var t := s.(members := s.members + {member}, delivery := delivery);
    if t == s then s else Changed(t)
  }

  function AckStep(s: State, receiptId: string, member: string): State {
    if s.delivery.None? || s.delivery.value.receiptId != receiptId then s
    else
      var d := s.delivery.value;
      if member in d.targets && member !in d.acked then
        Changed(s.(delivery := Some(d.(acked := d.acked + {member}))))
      else s
  }

  predicate Fresh(s: State, horizon: int) {
    s.lastStampedAt.Some? && s.now - s.lastStampedAt.value <= horizon
  }

  function TickStep(s: State, horizon: int, now: int): State {
    var t := s.(now := now);
    if Fresh(t, horizon) != Fresh(s, horizon) then Changed(t) else t
  }

  function Step(p: Policy, s: State, op: Op): State {
    match op
    case Subscribe(generation) => SubscribeStep(s, generation)
    case Snapshot(generation, _, _, _, _, _) =>
      if generation < s.generation then Stale(s) else Changed(Drain(Install(s, op)))
    case Deliver(generation, event) => DeliverStep(s, p.maxBuffered, generation, event)
    case MemberJoin(member) => JoinStep(s, member)
    case MemberLeave(member) =>
      if member in s.members then Changed(s.(members := s.members - {member})) else s
    case OpenReceipt(receiptId) => Changed(s.(delivery := Some(Delivery(receiptId, s.members, {}))))
    case Ack(receiptId, member) => AckStep(s, receiptId, member)
    case Tick(now) => TickStep(s, p.freshnessHorizon, now)
  }

  function Run(p: Policy, s: State, ops: seq<Op>): State {
    if ops == [] then s else Step(p, Run(p, s, ops[..|ops| - 1]), ops[|ops| - 1])
  }

  /** What an observer sees; `now` is not part of it. */
  datatype Projection = Projection(
    phase: Phase, generation: int, cursor: Option<int>, bufferedCursors: set<int>, sourceKeys: set<string>,
    members: set<string>, validation: Validation, replayFrom: Option<int>, staleEvents: nat,
    delivery: Option<Delivery>, converged: bool, ready: bool, isFresh: bool)

  function Observe(p: Policy, s: State): Projection {
    Projection(s.phase, s.generation, s.cursor, s.buffered.Keys, s.sourceKeys, s.members, s.validation,
               s.replayFrom, s.staleEvents, s.delivery, s.delivery.Some? && s.delivery.value.Converged(),
               s.phase == Live && s.validation == Valid, Fresh(s, p.freshnessHorizon))
  }

  // ---------------------------------------------------------------- the mutable object

  class DeliveryCell {
    const receiptId: string
    var targets: set<string>
    var acked: set<string>

    constructor (receiptId: string, targets: set<string>)
      ensures View() == Delivery(receiptId, targets, {})
    {
      this.receiptId, this.targets, this.acked := receiptId, targets, {};
    }

    ghost function View(): Delivery
      reads this
    {
      Delivery(receiptId, targets, acked)
    }
  }

  class Model {
    const policy: Policy
    var phase: Phase
    var generation: int
    var cursor: Option<int>
    var buffered: map<int, Event>
    var sourceKeys: set<string>
    var members: set<string>
    var validation: Validation
    var replayFrom: Option<int>
    var staleEvents: nat
    var delivery: DeliveryCell?
    var lastStampedAt: Option<int>
    var now: int
    var revision: nat

    ghost function Footprint(): set<object>
      reads this
    {
      if delivery == null then {this} else {this, delivery}
    }

    ghost function View(): State
      reads this, delivery
    {
      State(phase, generation, cursor, buffered, sourceKeys, members, validation, replayFrom, staleEvents,
            if delivery == null then None else Some(delivery.View()), lastStampedAt, now, revision)
    }

    constructor (policy: Policy)
      ensures View() == INITIAL && this.policy == policy && fresh(Footprint())
    {
      this.policy := policy;
      phase, generation, cursor, buffered := Detached, 0, None, map[];
      sourceKeys, members, validation, replayFrom := {}, {}, Valid, None;
      staleEvents, delivery, lastStampedAt, now, revision := 0, null, None, 0, 0;
    }

    method MarkChanged()
      modifies this`revision
      ensures View() == Changed(old(View()))
    {
      revision := revision + 1;
    }

    method ApplyEventNow(event: Event)
      modifies this`sourceKeys, this`validation, this`cursor, this`lastStampedAt, this`phase, this`replayFrom
      ensures View() == ApplyEvent(old(View()), event)
    {
      match event.action {
        case Upsert(key) => sourceKeys := sourceKeys + {key};
        case Remove(key) => sourceKeys := sourceKeys - {key};
        case Validate(v) => validation := v;
      }
      cursor := Some(event.cursor);
      lastStampedAt := Some(event.stampedAt);
      phase := if validation == Valid then Live else InvalidSource;
      replayFrom := None;
    }

    method DrainContiguous()
      requires cursor.Some?
      modifies this`buffered, this`cursor, this`lastStampedAt, this`sourceKeys, this`validation, this`phase
      modifies this`replayFrom
      ensures View() == Drain(old(View())) && delivery == old(delivery)
    {
      while cursor.value + 1 in buffered
        invariant cursor.Some? && delivery == old(delivery)
        invariant Drain(View()) == Drain(old(View()))
        decreases |buffered.Keys|
      {
        var event := buffered[cursor.value + 1];
        assert (buffered - {cursor.value + 1}).Keys == buffered.Keys - {cursor.value + 1};
        buffered := buffered - {cursor.value + 1};
        ApplyEventNow(event);
      }
      if buffered != map[] {
        phase := ReplayRequired;
        replayFrom := Some(cursor.value + 1);
      }
    }

    method ApplySubscribe(generation: int)
      modifies this`generation, this`buffered, this`cursor, this`sourceKeys, this`members, this`phase, this`replayFrom
      modifies this`revision
      ensures View() == SubscribeStep(old(View()), generation) && delivery == old(delivery)
    {
      this.generation := generation;
      cursor := None;
      buffered := map[];
      sourceKeys := {};
      members := {};
      replayFrom := None;
      phase := Bootstrapping;
      MarkChanged();
    }

    method InstallSnapshot(op: Op)
      requires op.Snapshot? && op.generation >= generation
      modifies this`generation, this`buffered, this`cursor, this`lastStampedAt, this`sourceKeys, this`members
      modifies this`validation, this`phase, this`replayFrom
      ensures View() == Install(old(View()), op) && delivery == old(delivery)
    {
      hide After;
      if op.generation > generation {
        generation := op.generation;
        buffered := map[];
      }
      TakeSource(op);
      cursor := Some(op.cursor);
      replayFrom := None;
      buffered := After(buffered, op.cursor);
    }

    method TakeSource(op: Op)
      requires op.Snapshot?
      modifies this`lastStampedAt, this`sourceKeys, this`members, this`validation, this`phase
      ensures View() == old(View()).(lastStampedAt := Some(op.stampedAt), sourceKeys := op.sourceKeys,
                                     members := op.members, validation := op.validation,
                                     phase := Settled(op.validation))
    {
      lastStampedAt := Some(op.stampedAt);
      sourceKeys := op.sourceKeys;
      members := op.members;
      validation := op.validation;
      phase := if validation == Valid then Live else InvalidSource;
    }

    method ApplySnapshot(op: Op)
      requires op.Snapshot?
      modifies this
      ensures View() == Step(policy, old(View()), op) && delivery == old(delivery)
    {
      if op.generation < generation {
        staleEvents := staleEvents + 1;
        MarkChanged();
        return;
      }
      InstallSnapshot(op);
      DrainContiguous();
      MarkChanged();
    }

    method ApplyDeliver(generation: int, event: Event)
      modifies this`generation, this`buffered, this`cursor, this`lastStampedAt, this`sourceKeys, this`validation
      modifies this`phase, this`replayFrom, this`staleEvents, this`revision
      ensures View() == DeliverStep(old(View()), policy.maxBuffered, generation, event) && delivery == old(delivery)
    {
      hide Drain;
      if generation < this.generation {
        staleEvents := staleEvents + 1;
        MarkChanged();
        return;
      }
      if generation > this.generation {
        this.generation := generation;
        cursor := None;
        buffered := map[];
        phase := Bootstrapping;
      }
      if cursor.None? {
        BufferEarly(event);
      } else {
        DeliverAtCursor(event);
      }
    }

    method BufferEarly(event: Event)
      modifies this`buffered, this`phase, this`replayFrom, this`revision
      ensures View() == BootstrapEvent(old(View()), policy.maxBuffered, event)
    {
      if |buffered| >= policy.maxBuffered && event.cursor !in buffered {
        phase := Backpressured;
        replayFrom := Some(0);
        MarkChanged();
        return;
      }
      if event.cursor !in buffered {
        buffered := buffered[event.cursor := event];
      }
      MarkChanged();
    }

    method DeliverAtCursor(event: Event)
      requires cursor.Some?
      modifies this`buffered, this`cursor, this`lastStampedAt, this`sourceKeys, this`validation, this`phase
      modifies this`replayFrom, this`revision
      ensures View() == CursorEvent(old(View()), policy.maxBuffered, event)
    {
      hide Drain;
      if event.cursor <= cursor.value {
        return;
      }
      if event.cursor == cursor.value + 1 {
        ApplyEventNow(event);
        DrainContiguous();
        MarkChanged();
        return;
      }
      if |buffered| >= policy.maxBuffered {
        phase := Backpressured;
        replayFrom := Some(cursor.value + 1);
        MarkChanged();
        return;
      }
      buffered := buffered[event.cursor := event];
      phase := ReplayRequired;
      replayFrom := Some(cursor.value + 1);
      MarkChanged();
    }

    method ApplyJoin(member: string)
      modifies this, delivery
      ensures View() == JoinStep(old(View()), member) && delivery == old(delivery)
    {
      var changed := member !in members;
      members := members + {member};
      if delivery != null && delivery.targets == {} {
        delivery.targets := delivery.targets + {member};
        assert delivery.targets == {member};
        changed := true;
      }
      assert !changed ==> old(View()).members + {member} == old(View()).members;
      if changed {
        MarkChanged();
      }
    }

    method ApplyAck(receiptId: string, member: string)
      modifies this, delivery
      ensures View() == AckStep(old(View()), receiptId, member) && delivery == old(delivery)
    {
      if delivery == null || delivery.receiptId != receiptId {
        return;
      }
      if member in delivery.targets && member !in delivery.acked {
        delivery.acked := delivery.acked + {member};
        MarkChanged();
      }
    }

    method Apply(op: Op)
      modifies this, delivery
      ensures View() == Step(policy, old(View()), op)
      ensures delivery == old(delivery) || fresh(delivery)
    {
      match op {
        case Subscribe(generation) => ApplySubscribe(generation);
        case Snapshot(_, _, _, _, _, _) => ApplySnapshot(op);
        case Deliver(generation, event) => ApplyDeliver(generation, event);
        case MemberJoin(member) => ApplyJoin(member);
        case MemberLeave(member) =>
          if member in members {
            members := members - {member};
            MarkChanged();
          }
        case OpenReceipt(receiptId) =>
          delivery := new DeliveryCell(receiptId, members);
          MarkChanged();
        case Ack(receiptId, member) => ApplyAck(receiptId, member);
        case Tick(now) =>
          var wasFresh := IsFresh();
          this.now := now;
          var isFresh := IsFresh();
          if isFresh != wasFresh {
            MarkChanged();
          }
      }
    }

    predicate IsFresh()
      reads this
    {
      lastStampedAt.Some? && now - lastStampedAt.value <= policy.freshnessHorizon
    }
  }
}
