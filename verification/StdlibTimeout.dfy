/** The timeout around an operation: each poll looks at the clock, then at the operation, then at a
    cancellation. */
module StdlibTimeout {
  import opened Common

  datatype Adapter = Quiet | Completed(value: int) | Unavailable
  datatype Cancellation = NotCancelled | Cancelled | CancellationUnavailable
  datatype Poll = Poll(now: nat, operation: Adapter, cancellation: Cancellation)

  datatype Reason = DeadlineOverflow | ClockRegression | OperationUnavailable | NoCancellation

  /** How a timeout ends. */
  datatype Outcome = Finished(value: int) | TimedOut | WasCancelled | Failed(reason: Reason)

  datatype State = Pending(deadline: nat, lastNow: nat) | Ended(outcome: Outcome)

  /** `calls` counts the operation calls of the step, and as many cancellation calls. */
  datatype Observation = Waiting(deadline: nat, calls: nat) | Over(outcome: Outcome, calls: nat)

  function Started(now: nat, duration: nat): State {
    if duration > U64_MAX - now then Ended(Failed(DeadlineOverflow)) else Pending(now + duration, now)
  }

  function Polled(s: State, p: Poll): (State, Observation) {
    if s.Ended? then (s, Over(s.outcome, 0))
    else if p.now < s.lastNow then (Ended(Failed(ClockRegression)), Over(Failed(ClockRegression), 0))
    else if p.now >= s.deadline then (Ended(TimedOut), Over(TimedOut, 0))
    else
      match p.operation
      case Completed(value) => (Ended(Finished(value)), Over(Finished(value), 1))
      case Unavailable => (Ended(Failed(OperationUnavailable)), Over(Failed(OperationUnavailable), 1))
      case Quiet =>
        match p.cancellation
        case Cancelled => (Ended(WasCancelled), Over(WasCancelled, 1))
        case CancellationUnavailable => (Ended(Failed(NoCancellation)), Over(Failed(NoCancellation), 1))
        case NotCancelled => (Pending(s.deadline, p.now), Waiting(s.deadline, 1))
  }

  class Timeout {
    var started: bool
    var outcome: Option<Outcome>
    var deadline: nat
    var lastNow: nat

    ghost function View(): State
      reads this
    {
      if outcome.Some? then Ended(outcome.value) else Pending(deadline, lastNow)
    }

    constructor ()
      ensures !started
    {
      started, outcome, deadline, lastNow := false, None, 0, 0;
    }

    method Start(now: nat, duration: nat) returns (seen: Observation)
      modifies this
      ensures started && View() == Started(now, duration)
      ensures View().Ended? ==> seen == Over(View().outcome, 0)
      ensures View().Pending? ==> seen == Waiting(View().deadline, 0)
    {
      started := true;
      if duration > U64_MAX - now {
        outcome := Some(Failed(DeadlineOverflow));
        return Over(Failed(DeadlineOverflow), 0);
      }
      outcome, deadline, lastNow := None, now + duration, now;
      return Waiting(deadline, 0);
    }

    method Poll(p: Poll) returns (seen: Observation)
      requires started
      modifies this
      ensures started && (View(), seen) == Polled(old(View()), p)
    {
      if outcome.Some? {
        return Over(outcome.value, 0);
      }
      if p.now < lastNow {
        outcome := Some(Failed(ClockRegression));
        return Over(outcome.value, 0);
      }
      lastNow := p.now;
      if p.now >= deadline {
        outcome := Some(TimedOut);
        return Over(TimedOut, 0);
      }
      if p.operation.Completed? {
        outcome := Some(Finished(p.operation.value));
        return Over(outcome.value, 1);
      }
      if p.operation.Unavailable? {
        outcome := Some(Failed(OperationUnavailable));
        return Over(outcome.value, 1);
      }
      if p.cancellation.Cancelled? {
        outcome := Some(WasCancelled);
        return Over(WasCancelled, 1);
      }
      if p.cancellation.CancellationUnavailable? {
        outcome := Some(Failed(NoCancellation));
        return Over(outcome.value, 1);
      }
      return Waiting(deadline, 1);
    }
  }

  // ---------------------------------------------------------------- whole runs

  function Run(s: State, polls: seq<Poll>): State {
    if polls == [] then s else Polled(Run(s, polls[..|polls| - 1]), polls[|polls| - 1]).0
  }

  /** How often a run called the operation. */
  function Calls(s: State, polls: seq<Poll>): nat {
    if polls == [] then 0
    else Calls(s, polls[..|polls| - 1]) + Polled(Run(s, polls[..|polls| - 1]), polls[|polls| - 1]).1.calls
  }

  function TimeBefore(start: nat, polls: seq<Poll>, i: nat): nat
    requires i <= |polls|
  {
    if i == 0 then start else polls[i - 1].now
  }

  /** Reaching the operation at all: the clock neither stepped back nor reached the deadline. */
  predicate InTime(start: nat, deadline: nat, polls: seq<Poll>, i: nat)
    requires i < |polls|
  {
    TimeBefore(start, polls, i) <= polls[i].now < deadline
  }

  predicate Decides(start: nat, deadline: nat, polls: seq<Poll>, i: nat)
    requires i < |polls|
  {
    !InTime(start, deadline, polls, i) || !polls[i].operation.Quiet? || !polls[i].cancellation.NotCancelled?
  }

  /** What a deciding poll decides: the clock first, then the operation, then the cancellation. */
  function Decision(start: nat, deadline: nat, polls: seq<Poll>, i: nat): Outcome
    requires i < |polls|
  {
    if !InTime(start, deadline, polls, i) then
      if polls[i].now < TimeBefore(start, polls, i) then Failed(ClockRegression) else TimedOut
    else if polls[i].operation.Completed? then Finished(polls[i].operation.value)
    else if polls[i].operation.Unavailable? then Failed(OperationUnavailable)
    else if polls[i].cancellation.Cancelled? then WasCancelled
    else Failed(NoCancellation)
  }

  predicate NoneDecides(start: nat, deadline: nat, polls: seq<Poll>) {
    forall i | 0 <= i < |polls| :: !Decides(start, deadline, polls, i)
  }

  ghost predicate FirstDecides(start: nat, deadline: nat, polls: seq<Poll>, i: nat) {
    i < |polls| && Decides(start, deadline, polls, i) && forall j | 0 <= j < i :: !Decides(start, deadline, polls, j)
  }

  /** Whether a poll decides depends on it and the one before it. */
  lemma SamePrefix(start: nat, deadline: nat, polls: seq<Poll>, n: nat)
    requires n <= |polls|
    ensures forall i | 0 <= i < n ::
              && Decides(start, deadline, polls[..n], i) == Decides(start, deadline, polls, i)
              && InTime(start, deadline, polls[..n], i) == InTime(start, deadline, polls, i)
              && Decision(start, deadline, polls[..n], i) == Decision(start, deadline, polls, i)
    ensures TimeBefore(start, polls[..n], n) == TimeBefore(start, polls, n)
  {
    forall i | 0 <= i < n
      ensures Decides(start, deadline, polls[..n], i) == Decides(start, deadline, polls, i)
      ensures InTime(start, deadline, polls[..n], i) == InTime(start, deadline, polls, i)
      ensures Decision(start, deadline, polls[..n], i) == Decision(start, deadline, polls, i)
    {
      assert polls[..n][i] == polls[i] && (i > 0 ==> polls[..n][i - 1] == polls[i - 1]);
    }
  }

  /** While no poll decides, every poll calls the operation and moves the clock. */
  lemma {:induction false} WaitingExact(now: nat, duration: nat, polls: seq<Poll>)
    requires duration <= U64_MAX - now
    requires NoneDecides(now, now + duration, polls)
    ensures var s := Started(now, duration);
      Run(s, polls) == Pending(now + duration, TimeBefore(now, polls, |polls|)) && Calls(s, polls) == |polls|
  {
    if polls != [] {
      var n := |polls| - 1;
      SamePrefix(now, now + duration, polls, n);
      WaitingExact(now, duration, polls[..n]);
      assert !Decides(now, now + duration, polls, n);
    }
  }

  /** The first deciding poll fixes the outcome for good; the operation was called once by each poll
      before it, by it only if the clock let it, and never again. */
  lemma {:induction false} TimeoutExact(now: nat, duration: nat, polls: seq<Poll>, i: nat)
    requires duration <= U64_MAX - now && FirstDecides(now, now + duration, polls, i)
    ensures var s, deadline := Started(now, duration), now + duration;
      && Run(s, polls) == Ended(Decision(now, deadline, polls, i))
      && Calls(s, polls) == if InTime(now, deadline, polls, i) then i + 1 else i
    decreases |polls|
  {
    var n := |polls| - 1;
    SamePrefix(now, now + duration, polls, n);
    if i < n {
      TimeoutExact(now, duration, polls[..n], i);
    } else {
      WaitingExact(now, duration, polls[..n]);
    }
  }

  /** Every answer, from the polls alone: none before the clock could overflow, none but the first decision, and a
      call of the operation exactly where the clock let an undecided poll reach it. */
  lemma {:induction false} TimeoutAnswers(now: nat, duration: nat, polls: seq<Poll>, p: Poll)
    ensures
      var answer := Polled(Run(Started(now, duration), polls), p).1;
      var deadline, all := now + duration, polls + [p];
      if deadline > 0xFFFF_FFFF_FFFF_FFFF then answer == Over(Failed(DeadlineOverflow), 0)
      else
        && (NoneDecides(now, deadline, all) ==> answer == Waiting(deadline, 1))
        && forall i: nat | FirstDecides(now, deadline, all, i) ::
             var calls := if i == |polls| && InTime(now, deadline, all, i) then 1 else 0;
             answer == Over(Decision(now, deadline, all, i), calls)
  {
    var deadline, all, n := now + duration, polls + [p], |polls|;
    if deadline > U64_MAX {
      OverflowEnds(now, duration, polls);
    } else {
      assert all[..n] == polls && all[n] == p;
      SamePrefix(now, deadline, all, n);
      if NoneDecides(now, deadline, polls) {
        WaitingExact(now, duration, polls);
      }
      forall i: nat | FirstDecides(now, deadline, all, i) && i < n
        ensures Run(Started(now, duration), polls) == Ended(Decision(now, deadline, all, i))
      {
        TimeoutExact(now, duration, polls, i);
      }
      assert NoneDecides(now, deadline, all) ==> !Decides(now, deadline, all, n);
    }
  }

  lemma {:induction false} OverflowEnds(now: nat, duration: nat, polls: seq<Poll>)
    requires duration > U64_MAX - now
    ensures Run(Started(now, duration), polls) == Ended(Failed(DeadlineOverflow))
  {
    if polls != [] {
      OverflowEnds(now, duration, polls[..|polls| - 1]);
    }
  }

  /** A poll that does not decide is no earlier than the one before it. */
  lemma {:induction false} UndecidedPollsAdvance(now: nat, deadline: nat, polls: seq<Poll>, i: nat, j: nat)
    requires i <= j < |polls| && NoneDecides(now, deadline, polls)
    ensures now <= polls[i].now <= polls[j].now < deadline
  {
    assert !Decides(now, deadline, polls, i) && !Decides(now, deadline, polls, j);
    if i < j {
      UndecidedPollsAdvance(now, deadline, polls, i, j - 1);
    } else if i > 0 {
      UndecidedPollsAdvance(now, deadline, polls, i - 1, i - 1);
    }
  }
}
