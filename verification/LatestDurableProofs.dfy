/** Whole-run guarantees of the latest durable projection. */
module LatestDurableProofs {
  import opened Common
  import opened LatestDurable

  function Last<T>(s: seq<T>): T
    requires s != []
  {
    s[|s| - 1]
  }

  function Front<T>(s: seq<T>): seq<T>
    requires s != []
  {
    s[..|s| - 1]
  }

  // ---------------------------------------------------------------- what every run keeps

  /** durable < in flight < desired, and the envelope is fenced by the current generation. */
  ghost predicate Ordered(e: Entry, generation: int, key: string) {
    && (e.desired.Some? && e.inflight.Some? ==> e.inflight.value.epoch < e.desired.value.epoch)
    && (e.durableThrough.Some? && e.desired.Some? ==> e.durableThrough.value < e.desired.value.epoch)
    && (e.durableThrough.Some? && e.inflight.Some? ==> e.durableThrough.value < e.inflight.value.epoch)
    && (e.inflight.Some? ==> e.inflight.value.generation == generation && e.inflight.value.key == key)
  }

  lemma OrderedStays(s: State, op: Op, key: string)
    requires Ordered(EntryOf(s, key), s.generation, key)
    ensures Ordered(EntryOf(Step(s, op).0, key), Step(s, op).0.generation, key)
  {
  }

  lemma {:induction false} RetainedEpochsOrdered(generation: int, ops: seq<Op>, key: string)
    ensures var s := Run(Initial(generation), ops); Ordered(EntryOf(s, key), s.generation, key)
  {
    hide Step, Ordered;
    if ops != [] {
      RetainedEpochsOrdered(generation, Front(ops), key);
      OrderedStays(Run(Initial(generation), Front(ops)), Last(ops), key);
    } else {
      NewEntryOrdered(generation, key);
    }
  }

  lemma NewEntryOrdered(generation: int, key: string)
    ensures Ordered(EntryOf(Initial(generation), key), generation, key)
  {
  }

  predicate AcceptsAt(s: State, op: Op, key: string) {
    op.UpsertDesired? && op.key == key && Step(s, op).1 == Accepted
  }

  /** The last revision of `key` whose upsert was accepted. */
  function NewestAccepted(generation: int, ops: seq<Op>, key: string): Option<Revision> {
    if ops == [] then None
    else if AcceptsAt(Run(Initial(generation), Front(ops)), Last(ops), key) then
      Some(Revision(Last(ops).epoch, Last(ops).value))
    else NewestAccepted(generation, Front(ops), key)
  }

  /** Where the newest accepted revision lives: desired, else in flight, else durable. */
  ghost predicate Holds(e: Entry, newest: Option<Revision>) {
    match newest
    case None => e == NEW_ENTRY
    case Some(r) =>
      if e.desired.Some? then e.desired.value == r
      else if e.inflight.Some? then Revision(e.inflight.value.epoch, e.inflight.value.value) == r
      else e.durableThrough == Some(r.epoch)
  }

  lemma HoldsStays(s: State, op: Op, key: string, newest: Option<Revision>)
    requires Ordered(EntryOf(s, key), s.generation, key) && Holds(EntryOf(s, key), newest)
    ensures Holds(EntryOf(Step(s, op).0, key),
                  if AcceptsAt(s, op, key) then Some(Revision(op.epoch, op.value)) else newest)
  {
  }

  lemma {:induction false} NewestRevisionNeverLost(generation: int, ops: seq<Op>, key: string)
    ensures Holds(EntryOf(Run(Initial(generation), ops), key), NewestAccepted(generation, ops, key))
  {
    hide Step, Ordered, AcceptsAt;
    if ops != [] {
      NewestRevisionNeverLost(generation, Front(ops), key);
      RetainedEpochsOrdered(generation, Front(ops), key);
      HoldsStays(Run(Initial(generation), Front(ops)), Last(ops), key, NewestAccepted(generation, Front(ops), key));
    }
  }

  /** The durable epoch of a key changes in one way only: the envelope in flight, under the
      current generation, is acknowledged, and then it always moves up to that epoch. */
  lemma DurableMovesOnlyByMatchingAck(generation: int, ops: seq<Op>, op: Op, key: string)
    ensures
      var s := Run(Initial(generation), ops);
      var before, after := EntryOf(s, key), EntryOf(Step(s, op).0, key);
      var acked := op.AckApplied? && op.key == key && op.generation == s.generation && InFlightAt(before, op.epoch);
      && (before.durableThrough != after.durableThrough <==> acked)
      && (acked ==>
            && after.durableThrough == Some(op.epoch)
            && Step(s, op).1 == AckAdvanced(op.epoch)
            && before.inflight.value.generation == s.generation
            && (before.durableThrough.Some? ==> before.durableThrough.value < op.epoch))
  {
    RetainedEpochsOrdered(generation, ops, key);
  }

  // ---------------------------------------------------------------- epoch discipline

  /** `epoch` is not above everything the entry still knows about. */
  ghost predicate Reached(e: Entry, epoch: int) {
    || (e.desired.Some? && epoch <= e.desired.value.epoch)
    || (e.inflight.Some? && epoch <= e.inflight.value.epoch)
    || (e.durableThrough.Some? && epoch <= e.durableThrough.value)
  }

  /** Nothing retained is older than `r`, and a retained revision of its epoch is `r` itself. */
  ghost predicate NotOlder(e: Entry, r: Revision) {
    && Reached(e, r.epoch)
    && (forall x <- Retained(e) :: r.epoch <= x.epoch && (x.epoch == r.epoch ==> x == r))
  }

  lemma ReachedStays(s: State, op: Op, key: string, epoch: int)
    requires Ordered(EntryOf(s, key), s.generation, key)
    requires Reached(EntryOf(s, key), epoch)
    ensures Reached(EntryOf(Step(s, op).0, key), epoch)
    ensures AcceptsAt(s, op, key) ==> epoch < op.epoch
  {
  }

  lemma RetainedOrigin(s: State, op: Op, key: string, r: Revision)
    requires r in Retained(EntryOf(Step(s, op).0, key))
    ensures r in Retained(EntryOf(s, key)) || (AcceptsAt(s, op, key) && op == UpsertDesired(key, r.epoch, r.value))
  {
  }

  lemma NotOlderStays(s: State, op: Op, key: string, r: Revision)
    requires Ordered(EntryOf(s, key), s.generation, key)
    requires NotOlder(EntryOf(s, key), r)
    ensures NotOlder(EntryOf(Step(s, op).0, key), r)
  {
    var e, e' := EntryOf(s, key), EntryOf(Step(s, op).0, key);
    ReachedStays(s, op, key, r.epoch);
    forall x <- Retained(e') ensures r.epoch <= x.epoch && (x.epoch == r.epoch ==> x == r) {
      RetainedOrigin(s, op, key, x);
    }
  }

  /** Runs compose one operation at a time. */
  lemma BeforeNext(generation: int, ops: seq<Op>, i: nat)
    requires i < |ops|
    ensures Before(generation, ops, i + 1) == Step(Before(generation, ops, i), ops[i]).0
  {
    assert Front(ops[..i + 1]) == ops[..i];
  }

  lemma {:induction false} ReachedForever(generation: int, ops: seq<Op>, i: nat, j: nat, key: string, epoch: int)
    requires i <= j <= |ops| && Reached(EntryOf(Before(generation, ops, i), key), epoch)
    ensures Reached(EntryOf(Before(generation, ops, j), key), epoch)
  {
    hide Step, Ordered, Reached;
    if i < j {
      ReachedForever(generation, ops, i, j - 1, key, epoch);
      BeforeNext(generation, ops, j - 1);
      RetainedEpochsOrdered(generation, ops[..j - 1], key);
      ReachedStays(Before(generation, ops, j - 1), ops[j - 1], key, epoch);
    }
  }

  lemma {:induction false} NotOlderForever(generation: int, ops: seq<Op>, i: nat, j: nat, key: string, r: Revision)
    requires i <= j <= |ops| && NotOlder(EntryOf(Before(generation, ops, i), key), r)
    ensures NotOlder(EntryOf(Before(generation, ops, j), key), r)
  {
    hide Step, Ordered, NotOlder;
    if i < j {
      NotOlderForever(generation, ops, i, j - 1, key, r);
      BeforeNext(generation, ops, j - 1);
      RetainedEpochsOrdered(generation, ops[..j - 1], key);
      NotOlderStays(Before(generation, ops, j - 1), ops[j - 1], key, r);
    }
  }

  predicate AcceptedAt(generation: int, ops: seq<Op>, i: nat, key: string, r: Revision) {
    i < |ops| && ops[i] == UpsertDesired(key, r.epoch, r.value) && OutcomeAt(generation, ops, i) == Accepted
  }

  predicate ClaimedAt(generation: int, ops: seq<Op>, i: nat, envelope: Envelope) {
    i < |ops| && OutcomeAt(generation, ops, i) == Claimed(envelope)
  }

  lemma AcceptLeaves(s: State, op: Op, key: string)
    requires AcceptsAt(s, op, key)
    ensures Reached(EntryOf(Step(s, op).0, key), op.epoch)
  {
  }

  lemma ClaimLeaves(s: State, op: Op, envelope: Envelope)
    requires Step(s, op).1 == Claimed(envelope)
    ensures
      var r := Revision(envelope.epoch, envelope.value);
      && NotOlder(EntryOf(Step(s, op).0, envelope.key), r) && r in Retained(EntryOf(s, envelope.key))
      && envelope.generation == s.generation
  {
    assert Retained(EntryOf(Step(s, op).0, envelope.key)) == [Revision(envelope.epoch, envelope.value)];
    assert Retained(EntryOf(s, envelope.key))[0] == Revision(envelope.epoch, envelope.value);
  }

  lemma AcceptedEpochsIncrease(generation: int, ops: seq<Op>, i: nat, j: nat, key: string, r: Revision, r': Revision)
    requires i < j && AcceptedAt(generation, ops, i, key, r) && AcceptedAt(generation, ops, j, key, r')
    ensures r.epoch < r'.epoch
  {
    hide Step, Ordered, Reached;
    BeforeNext(generation, ops, i);
    AcceptLeaves(Before(generation, ops, i), ops[i], key);
    ReachedForever(generation, ops, i + 1, j, key, r.epoch);
    RetainedEpochsOrdered(generation, ops[..j], key);
    ReachedStays(Before(generation, ops, j), ops[j], key, r.epoch);
  }

  /** Claims of one key never go back in epoch, and one epoch is only ever claimed with one value. */
  lemma ClaimsNeverGoBack(generation: int, ops: seq<Op>, i: nat, j: nat, a: Envelope, b: Envelope)
    requires i < j && ClaimedAt(generation, ops, i, a) && ClaimedAt(generation, ops, j, b) && a.key == b.key
    ensures a.epoch <= b.epoch
    ensures a.epoch == b.epoch ==> a.value == b.value
  {
    hide Step, Ordered, Reached, Retained;
    BeforeNext(generation, ops, i);
    ClaimLeaves(Before(generation, ops, i), ops[i], a);
    NotOlderForever(generation, ops, i + 1, j, a.key, Revision(a.epoch, a.value));
    ClaimLeaves(Before(generation, ops, j), ops[j], b);
  }

  /** Every retained revision, hence every claimed envelope, was accepted at an earlier step. */
  lemma {:induction false} RetainedWasAccepted(generation: int, ops: seq<Op>, i: nat, key: string, r: Revision)
    requires i <= |ops| && r in Retained(EntryOf(Before(generation, ops, i), key))
    ensures exists j: nat :: j < i && AcceptedAt(generation, ops, j, key, r)
  {
    hide Step;
    if i > 0 {
      BeforeNext(generation, ops, i - 1);
      RetainedOrigin(Before(generation, ops, i - 1), ops[i - 1], key, r);
      if r in Retained(EntryOf(Before(generation, ops, i - 1), key)) {
        RetainedWasAccepted(generation, ops, i - 1, key, r);
      } else {
        assert AcceptedAt(generation, ops, i - 1, key, r);
      }
    }
  }

  lemma ClaimedWasAccepted(generation: int, ops: seq<Op>, i: nat, envelope: Envelope)
    requires ClaimedAt(generation, ops, i, envelope)
    ensures
      var r := Revision(envelope.epoch, envelope.value);
      exists j: nat :: j < i && AcceptedAt(generation, ops, j, envelope.key, r)
    ensures envelope.generation == Before(generation, ops, i).generation
  {
    hide Step, Retained, NotOlder;
    ClaimLeaves(Before(generation, ops, i), ops[i], envelope);
    RetainedWasAccepted(generation, ops, i, envelope.key, Revision(envelope.epoch, envelope.value));
  }

  // ---------------------------------------------------------------- reconnect as single failures

  datatype Failures = Failures(state: State, pending: set<string>, superseded: set<string>)

  /** Report a retryable failure, under the current generation, for each key's envelope in turn. */
  function FailEach(s: State, order: seq<string>): Failures {
    if order == [] then Failures(s, {}, {})
    else
      var f := FailEach(s, Front(order));
      var key := Last(order);
      var e := EntryOf(f.state, key);
      var epoch := if e.inflight.Some? then e.inflight.value.epoch else 0;
      var (state, outcome) := Step(f.state, FailRetryable(key, s.generation, epoch));
      Failures(state,
               if outcome == Pending then f.pending + {key} else f.pending,
               if outcome == Superseded then f.superseded + {key} else f.superseded)
  }

  lemma {:induction false} FailEachRequeues(s: State, order: seq<string>)
    requires forall i, j :: 0 <= i < j < |order| ==> order[i] != order[j]
    requires forall k <- order :: k in InFlightKeys(s.entries)
    ensures
      var f := FailEach(s, order);
      && f.state.generation == s.generation
      && f.state.entries == (map k | k in s.entries :: if k in order then Requeue(s.entries[k]) else s.entries[k])
      && f.pending == (set k | k in order && k in RequeuedKeys(s.entries))
      && f.superseded == (set k | k in order && k in SupersededKeys(s.entries))
  {
    if order == [] {
      assert s.entries == map k | k in s.entries :: s.entries[k];
    } else {
      var key := Last(order);
      assert forall k :: k in order <==> k in Front(order) || k == key;
      FailEachRequeues(s, Front(order));
      assert key !in Front(order) && EntryOf(FailEach(s, Front(order)).state, key) == s.entries[key];
    }
  }

  lemma ReconnectRefinesFailures(s: State, order: seq<string>, generation: int)
    requires s.generation < generation
    requires forall i, j :: 0 <= i < j < |order| ==> order[i] != order[j]
    requires forall k :: k in order <==> k in InFlightKeys(s.entries)
    ensures
      var f := FailEach(s, order);
      && Step(s, Reconnect(generation)) ==
         (State(generation, f.state.entries), ReconnectAdvanced(generation, |f.pending|, |f.superseded|))
      && |f.pending| + |f.superseded| == |InFlightKeys(s.entries)|
  {
    hide FailEach;
    FailEachRequeues(s, order);
    var f := FailEach(s, order);
    assert f.state.entries == RequeueEntries(s.entries);
    assert f.pending == RequeuedKeys(s.entries) && f.superseded == SupersededKeys(s.entries);
    InFlightSplits(s.entries);
  }

  lemma InFlightSplits(entries: map<string, Entry>)
    ensures |RequeuedKeys(entries)| + |SupersededKeys(entries)| == |InFlightKeys(entries)|
  {
    assert RequeuedKeys(entries) + SupersededKeys(entries) == InFlightKeys(entries);
    assert RequeuedKeys(entries) !! SupersededKeys(entries);
  }
}
