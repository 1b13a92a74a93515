/** The one-shot timer: started once, polled with a clock that may step back. */
module StdlibTimer {
  import opened Common

  datatype State =
    | Overflowed
    | Pending(deadline: nat, lastNow: nat)
    | Fired(deadline: nat, at: nat)

  datatype Observation =
    | DeadlineOverflow
    | Waiting(deadline: nat)
    | ClockRegression(deadline: nat)
    | HasFired(at: nat)

  function Started(now: nat, duration: nat): State {
    if duration > U64_MAX - now then Overflowed else Pending(now + duration, now)
  }

  function Polled(s: State, now: nat): (State, Observation) {
    match s
    case Overflowed => (s, DeadlineOverflow)
    case Fired(_, at) => (s, HasFired(at))
    case Pending(deadline, lastNow) =>
      if now < lastNow then (s, ClockRegression(deadline))
      else if now >= deadline then (Fired(deadline, now), HasFired(now))
      else (Pending(deadline, now), Waiting(deadline))
  }

  datatype Status = IsUnstarted | IsPending | IsUnavailable | IsFired

  class Timer {
    var status: Status
    var deadline: nat
    var lastNow: nat
    var firedAt: nat

    ghost function View(): State
      reads this
      requires status != IsUnstarted
    {
      match status
      case IsUnavailable => Overflowed
      case IsPending => Pending(deadline, lastNow)
      case IsFired => Fired(deadline, firedAt)
    }

    constructor ()
      ensures status == IsUnstarted
    {
      status, deadline, lastNow, firedAt := IsUnstarted, 0, 0, 0;
    }

    method Start(now: nat, duration: nat) returns (seen: Observation)
      modifies this
      ensures status != IsUnstarted && View() == Started(now, duration)
      ensures seen == if View().Overflowed? then DeadlineOverflow else Waiting(now + duration)
    {
      if duration > U64_MAX - now {
        status := IsUnavailable;
        return DeadlineOverflow;
      }
      status, deadline, lastNow := IsPending, now + duration, now;
      return Waiting(deadline);
    }

    method Poll(now: nat) returns (seen: Observation)
      requires status != IsUnstarted
      modifies this
      ensures status != IsUnstarted && (View(), seen) == Polled(old(View()), now)
    {
      if status != IsPending {
        return if status == IsFired then HasFired(firedAt) else DeadlineOverflow;
      }
      if now < lastNow {
        return ClockRegression(deadline);
      }
      lastNow := now;
      if now >= deadline {
        status, firedAt := IsFired, now;
        return HasFired(now);
      }
      return Waiting(deadline);
    }
  }

  // ---------------------------------------------------------------- whole runs

  function Run(s: State, polls: seq<nat>): State {
    if polls == [] then s else Polled(Run(s, polls[..|polls| - 1]), polls[|polls| - 1]).0
  }

  /** The latest time among the start and the polls. */
  function Latest(start: nat, polls: seq<nat>): (t: nat)
    ensures t >= start && (t == start || t in polls) && forall i | 0 <= i < |polls| :: polls[i] <= t
  {
    if polls == [] then start else Max(Latest(start, polls[..|polls| - 1]), polls[|polls| - 1])
  }

  /** The first poll at or past the deadline. */
  function FirstDue(polls: seq<nat>, deadline: nat): (first: Option<nat>)
    ensures first.None? <==> forall i | 0 <= i < |polls| :: polls[i] < deadline
    ensures first.Some? ==> first.value < |polls| && polls[first.value] >= deadline &&
                            forall i | 0 <= i < first.value :: polls[i] < deadline
  {
    if polls == [] then None
    else
      var earlier := FirstDue(polls[..|polls| - 1], deadline);
      if earlier.Some? then earlier
      else if polls[|polls| - 1] >= deadline then Some(|polls| - 1)
      else None
  }

  /** However the clock steps back, the timer fires at exactly the first poll at or past its deadline and
      stays fired at that time; until then it remembers the latest time it saw. */
  lemma {:induction false} TimerExact(now: nat, duration: nat, polls: seq<nat>)
    requires duration <= U64_MAX - now
    ensures now + duration <= U64_MAX
    ensures Run(Started(now, duration), polls) ==
            match FirstDue(polls, now + duration)
            case Some(i) => Fired(now + duration, polls[i])
            case None => Pending(now + duration, Latest(now, polls))
  {
    if polls != [] {
      TimerExact(now, duration, polls[..|polls| - 1]);
    }
  }

  /** A timer whose deadline would not fit never does anything else. */
  lemma {:induction false} OverflowStays(now: nat, duration: nat, polls: seq<nat>)
    requires duration > U64_MAX - now
    ensures Run(Started(now, duration), polls) == Overflowed
  {
    if polls != [] {
      OverflowStays(now, duration, polls[..|polls| - 1]);
    }
  }

  /** What one more poll answers, from the polls before it alone. */
  lemma TimerAnswers(now: nat, duration: nat, polls: seq<nat>, poll: nat)
    ensures Polled(Run(Started(now, duration), polls), poll).1 ==
            if now + duration > 0xFFFF_FFFF_FFFF_FFFF then DeadlineOverflow
            else
              match FirstDue(polls, now + duration)
              case Some(i) => HasFired(polls[i])
              case None =>
                if poll < Latest(now, polls) then ClockRegression(now + duration)
                else if poll >= now + duration then HasFired(poll)
                else Waiting(now + duration)
  {
    if duration > U64_MAX - now {
      OverflowStays(now, duration, polls);
    } else {
      TimerExact(now, duration, polls);
    }
  }
}
