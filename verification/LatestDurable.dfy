/** The keyed latest durable projection: per key, the newest desired revision, at most one
    envelope in flight, and the epoch made durable so far, fenced by one sink generation. */
module LatestDurable {
  import opened Common
  import opened Documents

  datatype Revision = Revision(epoch: int, value: Json)
  datatype Envelope = Envelope(generation: int, key: string, epoch: int, value: Json)
  datatype Entry = Entry(desired: Option<Revision>, inflight: Option<Envelope>, durableThrough: Option<int>)
  datatype State = State(generation: int, entries: map<string, Entry>)

  datatype Op =
    | UpsertDesired(key: string, epoch: int, value: Json)
    | Claim(key: string, generation: int)
    | AckApplied(key: string, generation: int, epoch: int)
    | FailRetryable(key: string, generation: int, epoch: int)
    | Reconnect(generation: int)

  datatype Outcome =
    | AlreadyDurable(durableThrough: int)
    | StaleEpoch(current: int)
    | UpsertUnchanged
    | EpochConflict
    | Accepted
    | StaleGeneration(current: int)
    | Busy
    | Empty
    | Claimed(envelope: Envelope)
    | AckUnchanged(durableThrough: int)
    | UnknownEpoch
    | AckAdvanced(durableThrough: int)
    | Superseded
    | Pending
    | ReconnectUnchanged(generation: int)
    | ReconnectAdvanced(generation: int, requeued: nat, superseded: nat)

  const NEW_ENTRY := Entry(None, None, None)

  // ---------------------------------------------------------------- transitions

  function Retained(e: Entry): seq<Revision> {
    (if e.desired.Some? then [e.desired.value] else []) +
    (if e.inflight.Some? then [Revision(e.inflight.value.epoch, e.inflight.value.value)] else [])
  }

  function Newest(e: Entry): Option<int> {
    var r := Retained(e);
    if r == [] then None
    else if |r| == 1 then Some(r[0].epoch)
    else Some(Max(r[0].epoch, r[1].epoch))
  }

  function UpsertEntry(e: Entry, epoch: int, value: Json): (Entry, Outcome) {
    if e.durableThrough.Some? && epoch <= e.durableThrough.value then (e, AlreadyDurable(e.durableThrough.value))
    else
      var newest := Newest(e);
      if newest.Some? && epoch < newest.value then (e, StaleEpoch(newest.value))
      else if newest == Some(epoch) then
        var r := Retained(e);
        var current := if r[0].epoch == epoch then r[0] else r[|r| - 1];
        (e, if current.value == value then UpsertUnchanged else EpochConflict)
      else (e.(desired := Some(Revision(epoch, value))), Accepted)
  }

  function ClaimEntry(e: Entry, generation: int, key: string): (Entry, Outcome) {
    if e.inflight.Some? then (e, Busy)
    else if e.desired.None? then (e, Empty)
    else
      var envelope := Envelope(generation, key, e.desired.value.epoch, e.desired.value.value);
      (e.(desired := None, inflight := Some(envelope)), Claimed(envelope))
  }

  predicate InFlightAt(e: Entry, epoch: int) {
    e.inflight.Some? && e.inflight.value.epoch == epoch
  }

  function AckEntry(e: Entry, epoch: int): (Entry, Outcome) {
    if !InFlightAt(e, epoch) then
      if e.durableThrough.Some? && epoch <= e.durableThrough.value then (e, AckUnchanged(e.durableThrough.value))
      else (e, UnknownEpoch)
    else if e.durableThrough.None? || epoch > e.durableThrough.value then
      (e.(inflight := None, durableThrough := Some(epoch)), AckAdvanced(epoch))
    else (e.(inflight := None), AckUnchanged(e.durableThrough.value))
  }

  predicate IsSuperseded(e: Entry) {
    e.inflight.Some? && e.desired.Some? && e.desired.value.epoch > e.inflight.value.epoch
  }

  /** Take the in-flight envelope back: it becomes desired again unless something newer is. */
  function Requeue(e: Entry): Entry {
    if e.inflight.None? then e
    else if IsSuperseded(e) then e.(inflight := None)
    else Entry(Some(Revision(e.inflight.value.epoch, e.inflight.value.value)), None, e.durableThrough)
  }

  function FailEntry(e: Entry, epoch: int): (Entry, Outcome) {
    if !InFlightAt(e, epoch) then (e, UnknownEpoch)
    else (Requeue(e), if IsSuperseded(e) then Superseded else Pending)
  }

  function EntryOf(s: State, key: string): Entry {
    if key in s.entries then s.entries[key] else NEW_ENTRY
  }

  function Put(s: State, key: string, r: (Entry, Outcome)): (State, Outcome) {
    (s.(entries := s.entries[key := r.0]), r.1)
  }

  function RequeueEntries(entries: map<string, Entry>): map<string, Entry> {
    map k | k in entries :: Requeue(entries[k])
  }

  function InFlightKeys(entries: map<string, Entry>): set<string> {
    set k | k in entries && entries[k].inflight.Some?
  }

  function RequeuedKeys(entries: map<string, Entry>): set<string> {
    set k | k in entries && entries[k].inflight.Some? && !IsSuperseded(entries[k])
  }

  function SupersededKeys(entries: map<string, Entry>): set<string> {
    set k | k in entries && IsSuperseded(entries[k])
  }

  function Step(s: State, op: Op): (State, Outcome) {
    match op
    case UpsertDesired(key, epoch, value) => Put(s, key, UpsertEntry(EntryOf(s, key), epoch, value))
    case Reconnect(generation) =>
      if generation < s.generation then (s, StaleGeneration(s.generation))
      else if generation == s.generation then (s, ReconnectUnchanged(generation))
      else
        (State(generation, RequeueEntries(s.entries)),
         ReconnectAdvanced(generation, |RequeuedKeys(s.entries)|, |SupersededKeys(s.entries)|))
    case Claim(key, generation) =>
      if generation != s.generation then (s, StaleGeneration(s.generation))
      else Put(s, key, ClaimEntry(EntryOf(s, key), s.generation, key))
    case AckApplied(key, generation, epoch) =>
      if generation != s.generation then (s, StaleGeneration(s.generation))
      else Put(s, key, AckEntry(EntryOf(s, key), epoch))
    case FailRetryable(key, generation, epoch) =>
      if generation != s.generation then (s, StaleGeneration(s.generation))
      else Put(s, key, FailEntry(EntryOf(s, key), epoch))
  }

  function Run(s: State, ops: seq<Op>): State {
    if ops == [] then s else Step(Run(s, ops[..|ops| - 1]), ops[|ops| - 1]).0
  }

  function Initial(generation: int): State {
    State(generation, map[])
  }

  /** The state just before operation `i` of a run from a new projection. */
  function Before(generation: int, ops: seq<Op>, i: nat): State
    requires i <= |ops|
  {
    Run(Initial(generation), ops[..i])
  }

  function OutcomeAt(generation: int, ops: seq<Op>, i: nat): Outcome
    requires i < |ops|
  {
    Step(Before(generation, ops, i), ops[i]).1
  }

  // ---------------------------------------------------------------- the mutable object

  class EntryCell {
    var desired: Option<Revision>
    var inflight: Option<Envelope>
    var durableThrough: Option<int>

    constructor ()
      ensures View() == NEW_ENTRY
    {
      desired, inflight, durableThrough := None, None, None;
    }

    function View(): Entry
      reads this
    {
      Entry(desired, inflight, durableThrough)
    }

    method Upsert(epoch: int, value: Json) returns (r: Outcome)
      modifies this
      ensures (View(), r) == UpsertEntry(old(View()), epoch, value)
    {
      if durableThrough.Some? && epoch <= durableThrough.value {
        return AlreadyDurable(durableThrough.value);
      }
      var retained: seq<Revision> := [];
      if desired.Some? { retained := retained + [desired.value]; }
      if inflight.Some? { retained := retained + [Revision(inflight.value.epoch, inflight.value.value)]; }
      assert retained == Retained(View());
      var newest := Newest(View());
      if newest.Some? && epoch < newest.value {
        return StaleEpoch(newest.value);
      }
      if newest == Some(epoch) {
        var current := if retained[0].epoch == epoch then retained[0] else retained[|retained| - 1];
        return if current.value == value then UpsertUnchanged else EpochConflict;
      }
      desired := Some(Revision(epoch, value));
      r := Accepted;
    }

    method Claim(generation: int, key: string) returns (r: Outcome)
      modifies this
      ensures (View(), r) == ClaimEntry(old(View()), generation, key)
    {
      if inflight.Some? {
        return Busy;
      }
      if desired.None? {
        return Empty;
      }
      var envelope := Envelope(generation, key, desired.value.epoch, desired.value.value);
      desired := None;
      inflight := Some(envelope);
      r := Claimed(envelope);
    }

    method Ack(epoch: int) returns (r: Outcome)
      modifies this
      ensures (View(), r) == AckEntry(old(View()), epoch)
    {
      if inflight.None? || inflight.value.epoch != epoch {
        if durableThrough.Some? && epoch <= durableThrough.value {
          return AckUnchanged(durableThrough.value);
        }
        return UnknownEpoch;
      }
      inflight := None;
      if durableThrough.None? || epoch > durableThrough.value {
        durableThrough := Some(epoch);
        r := AckAdvanced(epoch);
      } else {
        r := AckUnchanged(durableThrough.value);
      }
    }

    method Fail(epoch: int) returns (r: Outcome)
      modifies this
      ensures (View(), r) == FailEntry(old(View()), epoch)
    {
      if inflight.None? || inflight.value.epoch != epoch {
        return UnknownEpoch;
      }
      var requeued := TakeBack();
      r := if requeued then Pending else Superseded;
    }

    /** Drop the in-flight envelope, or make it desired again; does nothing when idle. */
    method TakeBack() returns (requeued: bool)
      modifies this
      ensures View() == Requeue(old(View()))
      ensures requeued == (old(View()).inflight.Some? && !IsSuperseded(old(View())))
    {
      requeued := false;
      if inflight.Some? {
        if !(desired.Some? && desired.value.epoch > inflight.value.epoch) {
          desired := Some(Revision(inflight.value.epoch, inflight.value.value));
          requeued := true;
        }
        inflight := None;
      }
    }
  }

  class LatestDurableProjectionReference {
    var generation: int
    var entries: map<string, EntryCell>

    /** No entry object is shared between two keys. */
    ghost predicate Valid()
      reads this
    {
      forall j, k :: j in entries && k in entries && j != k ==> entries[j] != entries[k]
    }

    ghost function View(): State
      reads this, entries.Values
    {
      State(generation, map k | k in entries :: entries[k].View())
    }

    constructor (generation: int)
      ensures Valid() && View() == Initial(generation)
    {
      this.generation := generation;
      entries := map[];
    }

    method GetEntry(key: string) returns (e: EntryCell)
      requires Valid()
      modifies this`entries
      ensures Valid() && key in entries && entries[key] == e && e.View() == EntryOf(old(View()), key)
      ensures entries == old(entries)[key := e]
      ensures if key in old(entries) then e in old(entries).Values else fresh(e)
    {
      if key !in entries {
        e := new EntryCell();
        entries := entries[key := e];
      } else {
        e := entries[key];
        assert entries == entries[key := e];
      }
    }

    method Upsert(key: string, epoch: int, value: Json) returns (r: Outcome)
      requires Valid()
      modifies this, entries.Values
      ensures Valid() && (View(), r) == Step(old(View()), UpsertDesired(key, epoch, value))
    {
      hide UpsertEntry;
      var entry := GetEntry(key);
      r := entry.Upsert(epoch, value);
      assert View().entries == old(View()).entries[key := entry.View()];
    }

    method Claim(key: string, generation: int) returns (r: Outcome)
      requires Valid()
      modifies this, entries.Values
      ensures Valid() && (View(), r) == Step(old(View()), Op.Claim(key, generation))
    {
      if generation != this.generation {
        return StaleGeneration(this.generation);
      }
      hide ClaimEntry;
      var entry := GetEntry(key);
      r := entry.Claim(this.generation, key);
      assert View().entries == old(View()).entries[key := entry.View()];
    }

    method AckApplied(key: string, generation: int, epoch: int) returns (r: Outcome)
      requires Valid()
      modifies this, entries.Values
      ensures Valid() && (View(), r) == Step(old(View()), Op.AckApplied(key, generation, epoch))
    {
      if generation != this.generation {
        return StaleGeneration(this.generation);
      }
      hide AckEntry;
      var entry := GetEntry(key);
      r := entry.Ack(epoch);
      assert View().entries == old(View()).entries[key := entry.View()];
    }

    method FailRetryable(key: string, generation: int, epoch: int) returns (r: Outcome)
      requires Valid()
      modifies this, entries.Values
      ensures Valid() && (View(), r) == Step(old(View()), Op.FailRetryable(key, generation, epoch))
    {
      if generation != this.generation {
        return StaleGeneration(this.generation);
      }
      hide FailEntry;
      var entry := GetEntry(key);
      r := entry.Fail(epoch);
      assert View().entries == old(View()).entries[key := entry.View()];
    }

    method Reconnect(generation: int) returns (r: Outcome)
      requires Valid()
      modifies this, entries.Values
      ensures Valid() && (View(), r) == Step(old(View()), Op.Reconnect(generation))
    {
      if generation < this.generation {
        return StaleGeneration(this.generation);
      }
      if generation == this.generation {
        return ReconnectUnchanged(generation);
      }
      var requeued, superseded := RequeueAll();
      ghost var requeuedEntries := View().entries;
      this.generation := generation;
      assert View() == State(generation, requeuedEntries);
      r := ReconnectAdvanced(generation, requeued, superseded);
    }

    method Apply(op: Op) returns (r: Outcome)
      requires Valid()
      modifies this, entries.Values
      ensures Valid() && (View(), r) == Step(old(View()), op)
    {
      match op {
        case UpsertDesired(key, epoch, value) => r := Upsert(key, epoch, value);
        case Claim(key, g) => r := Claim(key, g);
        case AckApplied(key, g, epoch) => r := AckApplied(key, g, epoch);
        case FailRetryable(key, g, epoch) => r := FailRetryable(key, g, epoch);
        case Reconnect(g) => r := Reconnect(g);
      }
    }

    method RequeueAll() returns (requeued: nat, superseded: nat)
      requires Valid()
      modifies entries.Values
      ensures View().entries == RequeueEntries(old(View()).entries)
      ensures requeued == |RequeuedKeys(old(View()).entries)|
      ensures superseded == |SupersededKeys(old(View()).entries)|
    {
      ghost var before := View().entries;
      ghost var again, dropped: set<string> := {}, {};
      requeued, superseded := 0, 0;
      hide Requeue, IsSuperseded;
      var keys := entries.Keys;
      while keys != {}
        invariant keys <= entries.Keys && requeued == |again| && superseded == |dropped|
        invariant forall k <- entries :: entries[k].View() == if k in keys then before[k] else Requeue(before[k])
        invariant forall k :: k in again <==> k in RequeuedKeys(before) && k !in keys
        invariant forall k :: k in dropped <==> k in SupersededKeys(before) && k !in keys
        decreases keys
      {
        var key :| key in keys;
        var busy := entries[key].inflight.Some?;
        var requeuedHere := entries[key].TakeBack();
        if requeuedHere {
          requeued, again := requeued + 1, again + {key};
        } else if busy {
          superseded, dropped := superseded + 1, dropped + {key};
        }
        keys := keys - {key};
      }
      assert again == RequeuedKeys(before) && dropped == SupersededKeys(before);
      assert View().entries == RequeueEntries(before);
    }
  }
}
