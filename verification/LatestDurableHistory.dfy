/** What a run of the latest durable projection answers and holds, told from its history by a simpler machine:
    three registers per key and one rule each, with nothing to put back. */
module LatestDurableHistory {
  import opened Common
  import opened Documents
  import opened LatestDurable
  import opened LatestDurableProofs

  /** The newest revision ever taken, the one a claim has out, and the epoch acknowledged last. */
  datatype Registers = Registers(newest: Option<Revision>, flying: Option<Revision>, durable: Option<int>)

  predicate IsNewer(r: Registers, epoch: int) {
    r.newest.Some? ==> r.newest.value.epoch < epoch
  }

  /** The newest revision is neither out nor durable. */
  predicate Waits(r: Registers) {
    && r.newest.Some?
    && (r.flying.Some? ==> r.flying.value.epoch < r.newest.value.epoch)
    && (r.durable.Some? ==> r.durable.value < r.newest.value.epoch)
  }

  predicate Flies(r: Registers, epoch: int) {
    r.flying.Some? && r.flying.value.epoch == epoch
  }

  /** The highest generation reconnected to. */
  function GenerationAfter(generation: int, ops: seq<Op>): int {
    if ops == [] then generation
    else
      var before := GenerationAfter(generation, Front(ops));
      if Last(ops).Reconnect? then Max(before, Last(ops).generation) else before
  }

  function Recorded(generation: int, ops: seq<Op>, key: string): Registers {
    if ops == [] then Registers(None, None, None)
    else Record(Recorded(generation, Front(ops), key), GenerationAfter(generation, Front(ops)), Last(ops), key)
  }

  /** One operation under generation `now`. */
  function Record(r: Registers, now: int, op: Op, key: string): Registers {
    match op
    case UpsertDesired(k, epoch, value) =>
      if k == key && IsNewer(r, epoch) then r.(newest := Some(Revision(epoch, value))) else r
    case Claim(k, generation) =>
      if k == key && generation == now && r.flying.None? && Waits(r) then r.(flying := r.newest) else r
    case AckApplied(k, generation, epoch) =>
      if k == key && generation == now && Flies(r, epoch) then r.(flying := None, durable := Some(epoch)) else r
    case FailRetryable(k, generation, epoch) =>
      if k == key && generation == now && Flies(r, epoch) then r.(flying := None) else r
    case Reconnect(generation) => if generation > now then r.(flying := None) else r
  }

  /** What is answered, from the registers alone. */
  function Answer(r: Registers, now: int, op: Op): Outcome
    requires !op.Reconnect?
  {
    match op
    case UpsertDesired(_, epoch, value) =>
      if IsNewer(r, epoch) then Accepted
      else if r.durable.Some? && epoch <= r.durable.value then AlreadyDurable(r.durable.value)
      else if epoch < r.newest.value.epoch then StaleEpoch(r.newest.value.epoch)
      else if value == r.newest.value.value then UpsertUnchanged
      else EpochConflict
    case Claim(key, generation) =>
      if generation != now then StaleGeneration(now)
      else if r.flying.Some? then Busy
      else if Waits(r) then Claimed(Envelope(now, key, r.newest.value.epoch, r.newest.value.value))
      else Empty
    case AckApplied(_, generation, epoch) =>
      if generation != now then StaleGeneration(now)
      else if Flies(r, epoch) then AckAdvanced(epoch)
      else if r.durable.Some? && epoch <= r.durable.value then AckUnchanged(r.durable.value)
      else UnknownEpoch
    case FailRetryable(_, generation, epoch) =>
      if generation != now then StaleGeneration(now)
      else if !Flies(r, epoch) then UnknownEpoch
      else if r.flying == r.newest then Pending
      else Superseded
  }

  /** Keys something was ever to be made durable for. */
  function Wanted(ops: seq<Op>): set<string> {
    set op | op in ops && op.UpsertDesired? :: op.key
  }

  function PutBack(generation: int, ops: seq<Op>): set<string> {
    set k | k in Wanted(ops) && Recorded(generation, ops, k).flying.Some? &&
            Recorded(generation, ops, k).flying == Recorded(generation, ops, k).newest
  }

  function Overtaken(generation: int, ops: seq<Op>): set<string> {
    set k | k in Wanted(ops) && Recorded(generation, ops, k).flying.Some? &&
            Recorded(generation, ops, k).flying != Recorded(generation, ops, k).newest
  }

  function ReconnectAnswer(generation: int, ops: seq<Op>, next: int): Outcome {
    var now := GenerationAfter(generation, ops);
    if next < now then StaleGeneration(now)
    else if next == now then ReconnectUnchanged(now)
    else ReconnectAdvanced(next, |PutBack(generation, ops)|, |Overtaken(generation, ops)|)
  }

  // ---------------------------------------------------------------- refinement

  /** Durable, out and newest never pass one another. */
  predicate Sound(r: Registers) {
    && (r.flying.Some? ==>
          r.newest.Some? && (r.flying == r.newest || r.flying.value.epoch < r.newest.value.epoch))
    && (r.durable.Some? ==> r.newest.Some? && r.durable.value <= r.newest.value.epoch)
    && (r.durable.Some? && r.flying.Some? ==> r.durable.value < r.flying.value.epoch)
  }

  /** The entry the registers stand for: the newest revision is desired while it waits. */
  function Held(r: Registers, now: int, key: string): Entry {
    Entry(if Waits(r) then r.newest else None,
          if r.flying.Some? then Some(Envelope(now, key, r.flying.value.epoch, r.flying.value.value)) else None,
          r.durable)
  }

  lemma UpsertRecords(r: Registers, now: int, op: Op)
    requires Sound(r) && op.UpsertDesired?
    ensures var next := Record(r, now, op, op.key);
      Sound(next) &&
      UpsertEntry(Held(r, now, op.key), op.epoch, op.value) == (Held(next, now, op.key), Answer(r, now, op))
  {
  }

  lemma ClaimRecords(r: Registers, now: int, op: Op)
    requires Sound(r) && op.Claim? && op.generation == now
    ensures var next := Record(r, now, op, op.key);
      Sound(next) && ClaimEntry(Held(r, now, op.key), now, op.key) == (Held(next, now, op.key), Answer(r, now, op))
  {
  }

  lemma AckRecords(r: Registers, now: int, op: Op)
    requires Sound(r) && op.AckApplied? && op.generation == now
    ensures var next := Record(r, now, op, op.key);
      Sound(next) && AckEntry(Held(r, now, op.key), op.epoch) == (Held(next, now, op.key), Answer(r, now, op))
  {
  }

  lemma FailRecords(r: Registers, now: int, op: Op)
    requires Sound(r) && op.FailRetryable? && op.generation == now
    ensures var next := Record(r, now, op, op.key);
      Sound(next) && FailEntry(Held(r, now, op.key), op.epoch) == (Held(next, now, op.key), Answer(r, now, op))
  {
  }

  lemma RequeueRecords(r: Registers, now: int, later: int, key: string)
    requires Sound(r)
    ensures var next := r.(flying := None);
      Sound(next) && Requeue(Held(r, now, key)) == Held(next, later, key)
    ensures Requeue(NEW_ENTRY) == NEW_ENTRY
  {
  }

  lemma StepRecords(s: State, op: Op, key: string, r: Registers)
    requires Sound(r) && EntryOf(s, key) == Held(r, s.generation, key)
    ensures var next := Record(r, s.generation, op, key);
      Sound(next) && EntryOf(Step(s, op).0, key) == Held(next, Step(s, op).0.generation, key)
    ensures !op.Reconnect? && op.key == key ==> Step(s, op).1 == Answer(r, s.generation, op)
  {
    hide UpsertEntry, ClaimEntry, AckEntry, FailEntry, Requeue, Held, Sound, Waits, Flies, IsNewer;
    match op {
      case UpsertDesired(_, _, _) => UpsertRecords(r, s.generation, op);
      case Claim(_, generation) =>
        if generation == s.generation {
          ClaimRecords(r, s.generation, op);
        }
      case AckApplied(_, generation, _) =>
        if generation == s.generation {
          AckRecords(r, s.generation, op);
        }
      case FailRetryable(_, generation, _) =>
        if generation == s.generation {
          FailRecords(r, s.generation, op);
        }
      case Reconnect(generation) => RequeueRecords(r, s.generation, generation, key);
    }
  }

  /** After any run each entry is what the registers of its key stand for. */
  lemma {:induction false} RunRecords(generation: int, ops: seq<Op>, key: string)
    ensures
      var s, r := Run(Initial(generation), ops), Recorded(generation, ops, key);
      s.generation == GenerationAfter(generation, ops) && Sound(r) && EntryOf(s, key) == Held(r, s.generation, key)
  {
    hide Step, Sound, Held, Record;
    if ops == [] {
      NothingRecorded(generation, key);
    } else {
      RunRecords(generation, Front(ops), key);
      var s := Run(Initial(generation), Front(ops));
      StepRecords(s, Last(ops), key, Recorded(generation, Front(ops), key));
      StepGeneration(s, Last(ops));
    }
  }

  lemma NothingRecorded(generation: int, key: string)
    ensures
      var r := Registers(None, None, None);
      Sound(r) && EntryOf(Initial(generation), key) == Held(r, generation, key)
  {
  }

  lemma StepGeneration(s: State, op: Op)
    ensures Step(s, op).0.generation == if op.Reconnect? then Max(s.generation, op.generation) else s.generation
  {
  }

  /** Every answer to an upsert, claim, acknowledgement or failure is the one the registers give. */
  lemma AnswersExact(generation: int, ops: seq<Op>, op: Op)
    requires !op.Reconnect?
    ensures Step(Run(Initial(generation), ops), op).1 ==
            Answer(Recorded(generation, ops, op.key), GenerationAfter(generation, ops), op)
  {
    RunRecords(generation, ops, op.key);
    StepRecords(Run(Initial(generation), ops), op, op.key, Recorded(generation, ops, op.key));
  }

  lemma {:induction false} OnlyWantedFly(generation: int, ops: seq<Op>, key: string)
    requires key !in Wanted(ops)
    ensures Recorded(generation, ops, key) == Registers(None, None, None)
  {
    if ops != [] {
      assert forall op <- Front(ops) :: op in ops;
      assert Last(ops) in ops;
      OnlyWantedFly(generation, Front(ops), key);
    }
  }

  /** Every answer to a reconnection: the fence, and how many envelopes were put back or overtaken. */
  lemma ReconnectsExact(generation: int, ops: seq<Op>, next: int)
    ensures Step(Run(Initial(generation), ops), Reconnect(next)).1 == ReconnectAnswer(generation, ops, next)
  {
    hide Recorded, Run;
    var s := Run(Initial(generation), ops);
    RunRecords(generation, ops, "");
    forall k
      ensures k in RequeuedKeys(s.entries) <==> k in PutBack(generation, ops)
      ensures k in SupersededKeys(s.entries) <==> k in Overtaken(generation, ops)
    {
      RunRecords(generation, ops, k);
      if k !in Wanted(ops) {
        OnlyWantedFly(generation, ops, k);
      }
    }
    assert RequeuedKeys(s.entries) == PutBack(generation, ops);
    assert SupersededKeys(s.entries) == Overtaken(generation, ops);
  }

  // ---------------------------------------------------------------- when an upsert is accepted, and a claim served

  lemma {:induction false} NewestIsAccepted(generation: int, ops: seq<Op>, key: string)
    ensures Recorded(generation, ops, key).newest == NewestAccepted(generation, ops, key)
  {
    hide Step, Run, Waits, Flies;
    if ops != [] {
      NewestIsAccepted(generation, Front(ops), key);
      if !Last(ops).Reconnect? && Last(ops).key == key {
        AnswersExact(generation, Front(ops), Last(ops));
      }
    }
  }

  /** A revision is accepted exactly when none was before, or only older ones. */
  lemma AcceptedIffNewer(generation: int, ops: seq<Op>, key: string, epoch: int, value: Json)
    ensures
      var newest := NewestAccepted(generation, ops, key);
      Step(Run(Initial(generation), ops), UpsertDesired(key, epoch, value)).1 == Accepted <==>
        newest.None? || newest.value.epoch < epoch
  {
    hide Step, Run, Recorded;
    NewestIsAccepted(generation, ops, key);
    AnswersExact(generation, ops, UpsertDesired(key, epoch, value));
  }

  /** A claim is served, with the newest accepted revision, exactly under the current generation, with nothing
      out, and with that revision not yet durable. */
  lemma ClaimedIffWaiting(generation: int, ops: seq<Op>, key: string, claimed: int)
    ensures
      var newest, r := NewestAccepted(generation, ops, key), Recorded(generation, ops, key);
      var outcome := Step(Run(Initial(generation), ops), Claim(key, claimed)).1;
      && (outcome.Claimed? <==>
            && claimed == GenerationAfter(generation, ops) && r.flying.None?
            && newest.Some? && (r.durable.Some? ==> r.durable.value < newest.value.epoch))
      && (outcome.Claimed? ==>
            outcome.envelope == Envelope(claimed, key, newest.value.epoch, newest.value.value))
  {
    hide Step, Run, Recorded;
    NewestIsAccepted(generation, ops, key);
    AnswersExact(generation, ops, Claim(key, claimed));
  }
}
