/** The revision barrier: waits until an observed revision reaches the required one and a predicate holds. */
module StdlibBarrier {
  import opened Common

  datatype Cancellation = NotCancelled | Cancelled | CancellationUnavailable

  datatype Op =
    | Dispose
    | Receipt
    | Advance(revision: nat, holds: bool)
    | Recheck(now: nat, revision: nat, holds: bool)
    | Observe(now: nat, holds: bool, cancellation: Cancellation)

  datatype Status = Pending | Disposed | Satisfied | TimedOut | WasCancelled | ClockRegression | NoCancellation

  datatype State = State(status: Status, revision: nat, generation: nat, required: nat, deadline: Option<nat>,
                         lastNow: Option<nat>)

  /** What a step shows: outcome, revision and generation, and for an observation whether the
      cancellation was asked. */
  datatype Observation = Observation(status: Status, revision: nat, generation: nat, calls: Option<nat>)

  function Started(revision: nat, required: nat, deadline: Option<nat>): State {
    State(Pending, revision, 0, required, deadline, None)
  }

  predicate Regresses(lastNow: Option<nat>, op: Op) {
    (op.Recheck? || op.Observe?) && lastNow.Some? && op.now < lastNow.value
  }

  predicate Reached(deadline: Option<nat>, now: nat) {
    deadline.Some? && now >= deadline.value
  }

  function Applied(s: State, op: Op): State {
    if !s.status.Pending? then s
    else if Regresses(s.lastNow, op) then s.(status := ClockRegression)
    else
      match op
      case Dispose => s.(status := Disposed)
      case Receipt => s
      case Advance(revision, holds) =>
        var top := Max(s.revision, revision);
        s.(revision := top, generation := s.generation + 1,
           status := if top >= s.required && holds then Satisfied else Pending)
      case Recheck(now, revision, holds) =>
        var top := Max(s.revision, revision);
        s.(revision := top, generation := s.generation + 1, lastNow := Some(now),
           status := if top >= s.required && holds then Satisfied else Pending)
      case Observe(now, holds, cancellation) =>
        s.(lastNow := Some(now),
           status := if Reached(s.deadline, now) then TimedOut
                     else if s.revision >= s.required && holds then Satisfied
                     else if cancellation.Cancelled? then WasCancelled
                     else if cancellation.CancellationUnavailable? then NoCancellation
                     else Pending)
  }

  /** The cancellation is asked only by an observation that neither the clock nor the revision settles. */
  function Seen(s: State, op: Op): Observation {
    var next := Applied(s, op);
    var asked := s.status.Pending? && op.Observe? && !Regresses(s.lastNow, op) && !Reached(s.deadline, op.now) &&
                 !(s.revision >= s.required && op.holds);
    Observation(next.status, next.revision, next.generation, if op.Observe? then Some(if asked then 1 else 0) else None)
  }

  class Barrier {
    var started: bool
    var status: Status
    var revision: nat
    var generation: nat
    var required: nat
    var deadline: Option<nat>
    var lastNow: Option<nat>

    ghost function View(): State
      reads this
    {
      State(status, revision, generation, required, deadline, lastNow)
    }

    constructor ()
      ensures !started
    {
      started, status, revision, generation := false, Pending, 0, 0;
      required, deadline, lastNow := 0, None, None;
    }

    method Look(calls: Option<nat>) returns (seen: Observation)
      ensures seen == Observation(status, revision, generation, calls)
    {
      return Observation(status, revision, generation, calls);
    }

    method Start(revision: nat, required: nat, deadline: Option<nat>) returns (seen: Observation)
      modifies this
      ensures started && View() == Started(revision, required, deadline)
      ensures seen == Observation(Pending, revision, 0, None)
    {
      started, status, this.revision, generation := true, Pending, revision, 0;
      this.required, this.deadline, lastNow := required, deadline, None;
      seen := Look(None);
    }

    method Raise(revision: nat, holds: bool)
      requires status == Pending
      modifies this`revision, this`generation, this`status
      ensures this.revision == Max(old(this.revision), revision) && generation == old(generation) + 1
      ensures status == if this.revision >= required && holds then Satisfied else Pending
    {
      generation := generation + 1;
      this.revision := Max(this.revision, revision);
      if this.revision >= required && holds {
        status := Satisfied;
      }
    }

    method Apply(op: Op) returns (seen: Observation)
      requires started
      modifies this
      ensures started && View() == Applied(old(View()), op) && seen == Seen(old(View()), op)
    {
      var noCalls := if op.Observe? then Some(0) else None;
      if status != Pending {
        seen := Look(noCalls);
        return;
      }
      match op {
        case Dispose =>
          status := Disposed;
          seen := Look(None);
          return;
        case Receipt =>
          seen := Look(None);
          return;
        case Advance(revision, holds) =>
          Raise(revision, holds);
          seen := Look(None);
          return;
        case _ =>
      }
      if lastNow.Some? && op.now < lastNow.value {
        status := ClockRegression;
        seen := Look(noCalls);
        return;
      }
      lastNow := Some(op.now);
      if op.Recheck? {
        Raise(op.revision, op.holds);
        seen := Look(None);
        return;
      }
      if deadline.Some? && op.now >= deadline.value {
        status := TimedOut;
        seen := Look(Some(0));
        return;
      }
      if revision >= required && op.holds {
        status := Satisfied;
        seen := Look(Some(0));
        return;
      }
      if op.cancellation.Cancelled? {
        status := WasCancelled;
      } else if op.cancellation.CancellationUnavailable? {
        status := NoCancellation;
      }
      seen := Look(Some(1));
    }
  }

  // ---------------------------------------------------------------- whole runs

  function Run(s: State, ops: seq<Op>): State {
    if ops == [] then s else Applied(Run(s, ops[..|ops| - 1]), ops[|ops| - 1])
  }

  predicate Presents(op: Op) {
    op.Advance? || op.Recheck?
  }

  /** The largest revision among the start and those presented. */
  function Highest(revision: nat, ops: seq<Op>): nat {
    if ops == [] then revision
    else
      var last := ops[|ops| - 1];
      Max(Highest(revision, ops[..|ops| - 1]), if Presents(last) then last.revision else 0)
  }

  lemma {:induction false} HighestExact(revision: nat, ops: seq<Op>)
    ensures
      var top := Highest(revision, ops);
      && revision <= top && (forall op <- ops | Presents(op) :: op.revision <= top)
      && (top == revision || exists op <- ops :: Presents(op) && op.revision == top)
  {
    if ops != [] {
      HighestExact(revision, ops[..|ops| - 1]);
      assert forall op <- ops :: op in ops[..|ops| - 1] || op == ops[|ops| - 1];
    }
  }

  function Presented(ops: seq<Op>): nat {
    if ops == [] then 0 else Presented(ops[..|ops| - 1]) + if Presents(ops[|ops| - 1]) then 1 else 0
  }

  /** The time of the last operation that carries one. */
  function Clock(ops: seq<Op>): Option<nat> {
    if ops == [] then None
    else
      var last := ops[|ops| - 1];
      if last.Recheck? || last.Observe? then Some(last.now) else Clock(ops[..|ops| - 1])
  }

  /** How operation `i` settles the barrier, from the operations up to it alone. */
  function Verdict(start: State, ops: seq<Op>, i: nat): Status
    requires i < |ops|
  {
    var op, revision := ops[i], Highest(start.revision, ops[..i + 1]);
    if op.Dispose? then Disposed
    else if op.Receipt? then Pending
    else if !op.Advance? && Clock(ops[..i]).Some? && op.now < Clock(ops[..i]).value then ClockRegression
    else if op.Observe? && start.deadline.Some? && start.deadline.value <= op.now then TimedOut
    else if revision >= start.required && op.holds then Satisfied
    else if op.Observe? && op.cancellation.Cancelled? then WasCancelled
    else if op.Observe? && op.cancellation.CancellationUnavailable? then NoCancellation
    else Pending
  }

  /** The operations that were looked at when operation `i` settled the barrier: not one whose clock stepped back. */
  function Looked(start: State, ops: seq<Op>, i: nat): seq<Op>
    requires i < |ops|
  {
    if Verdict(start, ops, i).ClockRegression? then ops[..i] else ops[..i + 1]
  }

  ghost predicate FirstSettles(start: State, ops: seq<Op>, i: nat) {
    i < |ops| && Verdict(start, ops, i) != Pending && forall j | 0 <= j < i :: Verdict(start, ops, j) == Pending
  }

  lemma VerdictsBefore(s: State, ops: seq<Op>, n: nat)
    requires n <= |ops|
    ensures forall i | 0 <= i < n :: Verdict(s, ops[..n], i) == Verdict(s, ops, i)
  {
    forall i | 0 <= i < n ensures Verdict(s, ops[..n], i) == Verdict(s, ops, i) {
      assert ops[..n][..i] == ops[..i] && ops[..n][..i + 1] == ops[..i + 1];
    }
  }

  /** Operations that settle nothing leave a pending barrier at the highest revision presented. */
  lemma {:induction false} PendingExact(revision: nat, required: nat, deadline: Option<nat>, ops: seq<Op>)
    requires var s := Started(revision, required, deadline); forall i | 0 <= i < |ops| :: Verdict(s, ops, i) == Pending
    ensures Run(Started(revision, required, deadline), ops) ==
            State(Pending, Highest(revision, ops), Presented(ops), required, deadline, Clock(ops))
  {
    if ops != [] {
      var s, n := Started(revision, required, deadline), |ops| - 1;
      assert ops[..n + 1] == ops && Verdict(s, ops, n) == Pending;
      VerdictsBefore(s, ops, n);
      PendingExact(revision, required, deadline, ops[..n]);
    }
  }

  /** The first operation that settles the barrier does so for good, at the highest revision presented up
      to it, unless it came with a clock that stepped back and so was not looked at. */
  lemma {:induction false} SettledExact(revision: nat, required: nat, deadline: Option<nat>, ops: seq<Op>, i: nat)
    requires FirstSettles(Started(revision, required, deadline), ops, i)
    ensures
      var s := Started(revision, required, deadline);
      var seen := Looked(s, ops, i);
      var end := Run(s, ops);
      && end.status == Verdict(s, ops, i)
      && end.revision == Highest(revision, seen) && end.generation == Presented(seen)
      && (end.status.Satisfied? ==> end.revision >= required)
    decreases |ops|
  {
    var s, n := Started(revision, required, deadline), |ops| - 1;
    VerdictsBefore(s, ops, n);
    if i < n {
      hide Verdict, Highest, Presented, Clock;
      SettledExact(revision, required, deadline, ops[..n], i);
      assert ops[..n][..i] == ops[..i] && ops[..n][..i + 1] == ops[..i + 1];
    } else {
      PendingExact(revision, required, deadline, ops[..n]);
      assert ops[..n + 1] == ops;
    }
  }

  /** Every answer, from the operations alone; the cancellation is asked exactly by an observation that comes before
      the barrier is settled and that is settled by the cancellation or not at all. */
  lemma BarrierAnswers(revision: nat, required: nat, deadline: Option<nat>, ops: seq<Op>, op: Op)
    ensures
      var s, all := Started(revision, required, deadline), ops + [op];
      var seen, verdict := Seen(Run(s, ops), op), Verdict(s, all, |ops|);
      var open := forall j | 0 <= j < |ops| :: Verdict(s, all, j) == Pending;
      && (open && verdict == Pending ==>
            (seen.status, seen.revision, seen.generation) == (Pending, Highest(revision, all), Presented(all)))
      && (forall i: nat | FirstSettles(s, all, i) ::
            && seen.status == Verdict(s, all, i)
            && seen.revision == Highest(revision, Looked(s, all, i)) && seen.generation == Presented(Looked(s, all, i)))
      && (seen.calls.Some? <==> op.Observe?)
      && (seen.calls.Some? ==>
            seen.calls.value == if open && verdict in {Pending, WasCancelled, NoCancellation} then 1 else 0)
  {
    var s, all, n := Started(revision, required, deadline), ops + [op], |ops|;
    assert all[..n] == ops && all[..n + 1] == all && all[n] == op;
    assert Run(s, all) == Applied(Run(s, ops), op);
    VerdictsBefore(s, all, n);
    if forall j | 0 <= j <= n :: Verdict(s, all, j) == Pending {
      PendingExact(revision, required, deadline, all);
    }
    forall i: nat | FirstSettles(s, all, i)
      ensures
        var end := Run(s, all);
        && end.status == Verdict(s, all, i)
        && end.revision == Highest(revision, Looked(s, all, i)) && end.generation == Presented(Looked(s, all, i))
    {
      SettledExact(revision, required, deadline, all, i);
    }
    if op.Observe? {
      AskedIff(revision, required, deadline, ops, op);
    }
  }

  lemma AskedIff(revision: nat, required: nat, deadline: Option<nat>, ops: seq<Op>, op: Op)
    requires op.Observe?
    ensures
      var s, all := Started(revision, required, deadline), ops + [op];
      var open := forall j | 0 <= j < |ops| :: Verdict(s, all, j) == Pending;
      Seen(Run(s, ops), op).calls ==
      Some(if open && Verdict(s, all, |ops|) in {Pending, WasCancelled, NoCancellation} then 1 else 0)
  {
    var s, all, n := Started(revision, required, deadline), ops + [op], |ops|;
    assert all[..n] == ops && all[..n + 1] == all && all[n] == op;
    VerdictsBefore(s, all, n);
    if forall j | 0 <= j < n :: Verdict(s, all, j) == Pending {
      PendingExact(revision, required, deadline, ops);
      HighestStays(revision, ops, op);
    } else {
      var i := FirstSettled(s, ops);
      SettledExact(revision, required, deadline, ops, i);
    }
  }

  lemma HighestStays(revision: nat, ops: seq<Op>, op: Op)
    requires !Presents(op)
    ensures Highest(revision, ops + [op]) == Highest(revision, ops)
  {
    assert (ops + [op])[..|ops|] == ops;
  }

  lemma {:induction false} FirstSettled(s: State, ops: seq<Op>) returns (i: nat)
    requires exists j | 0 <= j < |ops| :: Verdict(s, ops, j) != Pending
    ensures FirstSettles(s, ops, i)
  {
    var n := |ops| - 1;
    hide Verdict;
    VerdictsBefore(s, ops, n);
    if forall j | 0 <= j < n :: Verdict(s, ops, j) == Pending {
      i := n;
    } else {
      i := FirstSettled(s, ops[..n]);
    }
  }

  function WithoutReceipts(ops: seq<Op>): seq<Op> {
    if ops == [] then []
    else WithoutReceipts(ops[..|ops| - 1]) + if ops[|ops| - 1].Receipt? then [] else [ops[|ops| - 1]]
  }

  /** Receipts carry no authority: a run is what it would have been without them. */
  lemma {:induction false} ReceiptsChangeNothing(s: State, ops: seq<Op>)
    ensures Run(s, ops) == Run(s, WithoutReceipts(ops))
  {
    if ops != [] {
      var init, last := ops[..|ops| - 1], ops[|ops| - 1];
      ReceiptsChangeNothing(s, init);
      if !last.Receipt? {
        assert WithoutReceipts(ops)[..|WithoutReceipts(init)|] == WithoutReceipts(init);
      } else {
        assert WithoutReceipts(ops) == WithoutReceipts(init);
      }
    }
  }
}
