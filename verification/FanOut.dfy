/**
 * The corpus pipeline as interleaved steps: a generator blocked in a select, a bounded channel, and workers that stop
 * at their first error and cancel the shared context.
 */
module FanOut {
  import opened Options

  /** `Canceled` stands for every error that is context.Canceled. */
  datatype Err = Canceled | Other(what: string)

  /** A worker receiving from the channel, running the sink on an item, or returned, perhaps because the sink failed. */
  datatype Worker = Waiting | Busy(item: nat) | Exited(failed: Option<nat>)

  /** The generator still offering items, or returned after closing the channel. */
  datatype Generator = Offering | Closed(err: Option<Err>)

  /**
   * `sent` items went into the channel, item by item from 0; `buffer` is what it holds; `cause` is the context's
   * cancel cause; `succeeded` lists the items whose sink call returned nil, so the done counter is its length.
   */
  datatype State = State(
    gen: Generator, sent: nat, buffer: seq<nat>, workers: seq<Worker>, cause: Option<Err>, succeeded: seq<nat>)

  datatype Step =
    | Send                            // the select sends the next item
    | Abort                           // the select sees the context done
    | Break(err: Err)                 // rendering a document fails
    | Finish                          // every item has been sent
    | Take(w: nat)                    // a worker receives an item
    | Leave(w: nat)                   // a worker finds the channel closed and drained
    | Succeed(w: nat)                 // a sink call returns nil
    | Fail(w: nat, err: Err)          // a sink call returns an error
    | CancelParent(err: Err)          // the caller's context is cancelled

  function Start(n: nat): State {
    State(Offering, 0, [], seq(n, _ => Waiting), None, [])
  }

  /** `total` is the number of items, `n` the number of workers and the channel's capacity. */
  predicate Enabled(total: nat, n: nat, s: State, step: Step) {
    match step
    case Send => s.gen == Offering && s.sent < total && |s.buffer| < n
    case Abort => s.gen == Offering && s.sent < total && s.cause.Some?
    case Break(_) => s.gen == Offering && s.sent < total
    case Finish => s.gen == Offering && s.sent == total
    case Take(w) => w < |s.workers| && s.workers[w] == Waiting && s.buffer != []
    case Leave(w) => w < |s.workers| && s.workers[w] == Waiting && s.buffer == [] && s.gen.Closed?
    case Succeed(w) => w < |s.workers| && s.workers[w].Busy?
    case Fail(w, _) => w < |s.workers| && s.workers[w].Busy?
    case CancelParent(_) => s.cause.None?
  }

  /** Only the first cancellation sets the cause. */
  function Cancel(s: State, err: Err): State {
    if s.cause.None? then s.(cause := Some(err)) else s
  }

  function Next(total: nat, n: nat, s: State, step: Step): State
    requires Enabled(total, n, s, step)
  {
    match step
    case Send => s.(sent := s.sent + 1, buffer := s.buffer + [s.sent])
    case Abort => s.(gen := Closed(s.cause))
    case Break(err) => s.(gen := Closed(Some(err)))
    case Finish => s.(gen := Closed(None))
    case Take(w) => s.(buffer := s.buffer[1..], workers := s.workers[w := Busy(s.buffer[0])])
    case Leave(w) => s.(workers := s.workers[w := Exited(None)])
    case Succeed(w) => s.(workers := s.workers[w := Waiting], succeeded := s.succeeded + [s.workers[w].item])
    case Fail(w, err) => Cancel(s.(workers := s.workers[w := Exited(Some(s.workers[w].item))]), err)
    case CancelParent(err) => Cancel(s, err)
  }

  predicate AllExited(workers: seq<Worker>) {
    forall w :: w in workers ==> w.Exited?
  }

  /** The generator has returned and the wait group is done. */
  predicate Returned(s: State) {
    s.gen.Closed? && AllExited(s.workers)
  }

  /** The error returned: the cancel cause unless it is a cancellation, else the generator's own error. */
  function Result(s: State): Option<Err>
    requires s.gen.Closed?
  {
    if s.cause.Some? && s.cause != Some(Canceled) then s.cause else s.gen.err
  }

  // ---------- conservation ----------

  /** The sum of a weight over the workers. */
  function Tally(ws: seq<Worker>, weight: Worker -> nat): nat {
    if ws == [] then 0 else Tally(ws[..|ws| - 1], weight) + weight(ws[|ws| - 1])
  }

  function IsBusy(): Worker -> nat {
    (w: Worker) => if w.Busy? then 1 else 0
  }

  function HasFailed(): Worker -> nat {
    (w: Worker) => if w.Exited? && w.failed.Some? then 1 else 0
  }

  /** One for a worker that is running item `x` or failed on it. */
  function Has(x: nat): Worker -> nat {
    (w: Worker) => if w == Busy(x) || w == Exited(Some(x)) then 1 else 0
  }

  /** Work still ahead of a worker: a sink call to return from and an exit to take. */
  function Ahead(): Worker -> nat {
    (w: Worker) => if w.Exited? then 0 else if w.Busy? then 2 else 1
  }

  lemma {:induction false} UpdateTally(ws: seq<Worker>, i: nat, w: Worker, weight: Worker -> nat)
    requires i < |ws|
    ensures Tally(ws[i := w], weight) == Tally(ws, weight) - weight(ws[i]) + weight(w)
  {
    var us := ws[i := w];
    if i < |ws| - 1 {
      UpdateTally(ws[..|ws| - 1], i, w, weight);
      assert us[..|ws| - 1] == ws[..|ws| - 1][i := w];
    } else {
      assert us[..|ws| - 1] == ws[..|ws| - 1];
    }
  }

  lemma {:induction false} ZeroTally(ws: seq<Worker>, weight: Worker -> nat)
    ensures Tally(ws, weight) == 0 <==> forall w :: w in ws ==> weight(w) == 0
  {
    if ws != [] {
      ZeroTally(ws[..|ws| - 1], weight);
      assert ws == ws[..|ws| - 1] + [ws[|ws| - 1]];
      assert forall w :: w in ws <==> w in ws[..|ws| - 1] || w == ws[|ws| - 1];
    }
  }

  lemma {:induction false} BoundTally(ws: seq<Worker>, weight: Worker -> nat)
    requires forall w :: weight(w) <= 1
    ensures Tally(ws, weight) <= |ws|
  {
    if ws != [] { BoundTally(ws[..|ws| - 1], weight); }
  }

  /** The items finished or in the channel. */
  function Queued(s: State, x: nat): nat {
    multiset(s.succeeded)[x] + multiset(s.buffer)[x]
  }

  /** How often item `x` is in some place: finished, held or dropped by a worker, or in the channel. */
  function Places(s: State, x: nat): nat {
    Queued(s, x) + Tally(s.workers, Has(x))
  }

  /** What every interleaving keeps: each sent item is in exactly one place, no other item is anywhere. */
  ghost predicate Inv(total: nat, n: nat, s: State) {
    && n > 0 && |s.workers| == n && s.sent <= total && |s.buffer| <= n
    && (forall x: nat :: Places(s, x) == if x < s.sent then 1 else 0)
    && s.sent == |s.succeeded| + Tally(s.workers, HasFailed()) + Tally(s.workers, IsBusy()) + |s.buffer|
    && (s.cause.None? ==> Tally(s.workers, HasFailed()) == 0)
    && (Exited(None) in s.workers ==> s.gen.Closed? && s.buffer == [])
    && (s.gen == Closed(None) ==> s.sent == total)
  }

  lemma {:induction false} InvStart(total: nat, n: nat)
    requires n > 0
    ensures Inv(total, n, Start(n))
  {
    var s := Start(n);
    ZeroTally(s.workers, HasFailed());
    ZeroTally(s.workers, IsBusy());
    forall x: nat ensures Places(s, x) == 0 { ZeroTally(s.workers, Has(x)); }
  }

  lemma {:induction false} CountEnds(a: seq<nat>, v: nat, x: nat)
    ensures multiset(a + [v])[x] == multiset(a)[x] + if v == x then 1 else 0
    ensures a != [] ==> multiset(a)[x] == multiset(a[1..])[x] + if a[0] == x then 1 else 0
  {
    if a != [] { assert a == [a[0]] + a[1..]; }
  }

  lemma {:induction false} QueuedNext(total: nat, n: nat, s: State, step: Step, x: nat)
    requires Enabled(total, n, s, step)
    ensures Queued(Next(total, n, s, step), x) == Queued(s, x) +
              match step
              case Send => if x == s.sent then 1 else 0
              case Take(_) => if x == s.buffer[0] then -1 else 0
              case Succeed(w) => if x == s.workers[w].item then 1 else 0
              case _ => 0
  {
    CountEnds(s.buffer, s.sent, x);
    if step.Succeed? { CountEnds(s.succeeded, s.workers[step.w].item, x); }
  }

  /** A step moves items between places; only a send brings a new one. */
  lemma {:induction false} PlacesNext(total: nat, n: nat, s: State, step: Step, x: nat)
    requires Enabled(total, n, s, step)
    ensures Places(Next(total, n, s, step), x) == Places(s, x) + if step.Send? && x == s.sent then 1 else 0
  {
    QueuedNext(total, n, s, step, x);
    if step.Take? || step.Leave? || step.Succeed? || step.Fail? {
      UpdateTally(s.workers, step.w, Next(total, n, s, step).workers[step.w], Has(x));
    }
  }

  lemma {:induction false} TalliesNext(total: nat, n: nat, s: State, step: Step)
    requires Enabled(total, n, s, step)
    ensures var r := Next(total, n, s, step);
            && Tally(r.workers, HasFailed()) == Tally(s.workers, HasFailed()) + (if step.Fail? then 1 else 0)
            && Tally(r.workers, IsBusy()) == Tally(s.workers, IsBusy())
                 + (if step.Take? then 1 else if step.Succeed? || step.Fail? then -1 else 0)
            && Tally(r.workers, Ahead()) == Tally(s.workers, Ahead())
                 + (if step.Take? then 1 else if step.Leave? || step.Succeed? then -1 else if step.Fail? then -2 else 0)
  {
    if step.Take? || step.Leave? || step.Succeed? || step.Fail? {
      var w := Next(total, n, s, step).workers[step.w];
      UpdateTally(s.workers, step.w, w, HasFailed());
      UpdateTally(s.workers, step.w, w, IsBusy());
      UpdateTally(s.workers, step.w, w, Ahead());
    }
  }

  lemma {:induction false} NoneLeft(total: nat, n: nat, s: State, step: Step)
    requires Enabled(total, n, s, step) && !step.Leave? && Exited(None) in Next(total, n, s, step).workers
    ensures Exited(None) in s.workers
  {
    var r := Next(total, n, s, step);
    var i :| 0 <= i < |r.workers| && r.workers[i] == Exited(None);
    assert s.workers[i] == Exited(None);
  }

  lemma {:induction false} InvNext(total: nat, n: nat, s: State, step: Step)
    requires Inv(total, n, s) && Enabled(total, n, s, step)
    ensures Inv(total, n, Next(total, n, s, step))
  {
    var r := Next(total, n, s, step);
    TalliesNext(total, n, s, step);
    forall x: nat ensures Places(r, x) == if x < r.sent then 1 else 0 { PlacesNext(total, n, s, step, x); }
    if Exited(None) in r.workers && !step.Leave? { NoneLeft(total, n, s, step); }
  }

  // ---------- no deadlock, termination ----------

  /**
   * Until the call returns, some step other than a cancellation by the caller can be taken, given only that a sink
   * call that is running returns. In particular a generator blocked on a full channel is released by the first error.
   */
  lemma {:induction false} NeverStuck(total: nat, n: nat, s: State) returns (step: Step)
    requires Inv(total, n, s) && !Returned(s)
    ensures Enabled(total, n, s, step) && !step.CancelParent?
  {
    if s.gen == Offering && (s.sent == total || s.cause.Some? || |s.buffer| < n) {
      step := if s.sent == total then Finish else if s.cause.Some? then Abort else Send;
    } else {
      var i := 0;
      if s.gen == Offering {
        ZeroTally(s.workers, HasFailed());
        assert s.workers[0] in s.workers && HasFailed()(s.workers[0]) == 0;
      } else {
        var w :| w in s.workers && !w.Exited?;
        i :| 0 <= i < |s.workers| && s.workers[i] == w;
      }
      step := if s.workers[i].Busy? then Succeed(i) else if s.buffer == [] then Leave(i) else Take(i);
    }
  }

  function Measure(total: nat, s: State): nat
    requires s.sent <= total
  {
    3 * (total - s.sent) + 2 * |s.buffer| + Tally(s.workers, Ahead())
    + (if s.gen == Offering then 1 else 0) + (if s.cause.None? then 1 else 0)
  }

  lemma {:induction false} MeasureDecreases(total: nat, n: nat, s: State, step: Step)
    requires s.sent <= total && Enabled(total, n, s, step)
    ensures Measure(total, Next(total, n, s, step)) < Measure(total, s)
  {
    TalliesNext(total, n, s, step);
  }

  /** The state after these steps from the start, if each was enabled in its turn. */
  function Run(total: nat, n: nat, steps: seq<Step>): Option<State> {
    if steps == [] then Some(Start(n))
    else
      match Run(total, n, steps[..|steps| - 1])
      case None => None
      case Some(s) =>
        if Enabled(total, n, s, steps[|steps| - 1]) then Some(Next(total, n, s, steps[|steps| - 1])) else None
  }

  lemma {:induction false} WaitingAhead(ws: seq<Worker>)
    requires forall i :: 0 <= i < |ws| ==> ws[i] == Waiting
    ensures Tally(ws, Ahead()) == |ws|
  {
    if ws != [] {
      WaitingAhead(ws[..|ws| - 1]);
    }
  }

  /** Every interleaving keeps the invariant and is over within a fixed number of steps. */
  lemma {:induction false} EveryRun(total: nat, n: nat, steps: seq<Step>)
    requires n > 0 && Run(total, n, steps).Some?
    ensures var s := Run(total, n, steps).value;
            Inv(total, n, s) && Measure(total, s) + |steps| <= 3 * total + n + 2
  {
    if steps == [] {
      InvStart(total, n);
      WaitingAhead(Start(n).workers);
    } else {
      var before, step := steps[..|steps| - 1], steps[|steps| - 1];
      EveryRun(total, n, before);
      InvNext(total, n, Run(total, n, before).value, step);
      MeasureDecreases(total, n, Run(total, n, before).value, step);
    }
  }

  // ---------- what the call returns ----------

  /**
   * On return every item sent has succeeded, failed or been left in the channel, and at most one sink call per worker
   * has failed. The result is nil exactly when the generator sent everything and the context was not cancelled, or was
   * cancelled with a Canceled cause; without a cause every item has then succeeded once, so only a Canceled cause that
   * came after the last send can hide a loss.
   */
  lemma {:induction false} OnReturn(total: nat, n: nat, s: State)
    requires Inv(total, n, s) && Returned(s)
    ensures s.sent == |s.succeeded| + Tally(s.workers, HasFailed()) + |s.buffer| && Tally(s.workers, HasFailed()) <= n
    ensures Result(s).None? <==> s.gen == Closed(None) && (s.cause.None? || s.cause == Some(Canceled))
    ensures Result(s).None? && s.cause != Some(Canceled) ==>
              |s.succeeded| == total && forall x :: 0 <= x < total ==> multiset(s.succeeded)[x] == 1
  {
    ZeroTally(s.workers, IsBusy());
    ZeroTally(s.workers, HasFailed());
    BoundTally(s.workers, HasFailed());
    if s.cause.None? {
      assert s.workers[0] in s.workers && HasFailed()(s.workers[0]) == 0;
      assert s.workers[0] == Exited(None) && s.buffer == [];
      forall x: nat | x < total && s.gen == Closed(None) ensures multiset(s.succeeded)[x] == 1 {
        assert Places(s, x) == 1;
        forall w | w in s.workers ensures Has(x)(w) == 0 { assert HasFailed()(w) == 0; }
        ZeroTally(s.workers, Has(x));
      }
    }
  }

  /** The error of the first sink call to fail. */
  function FirstFailure(steps: seq<Step>): Option<Err> {
    if steps == [] then None
    else
      var first := FirstFailure(steps[..|steps| - 1]);
      if first.None? && steps[|steps| - 1].Fail? then Some(steps[|steps| - 1].err) else first
  }

  /** Without a cancellation by the caller, the cause is the first sink error, and later errors do not replace it. */
  lemma {:induction false} FirstErrorWins(total: nat, n: nat, steps: seq<Step>)
    requires Run(total, n, steps).Some? && forall step :: step in steps ==> !step.CancelParent?
    ensures Run(total, n, steps).value.cause == FirstFailure(steps)
  {
    if steps != [] {
      assert steps[|steps| - 1] in steps;
      FirstErrorWins(total, n, steps[..|steps| - 1]);
    }
  }

  // ---------- the error that comes back ----------

  /** The error of the first sink call to fail or of the caller's cancellation, whichever came first. */
  function FirstCause(steps: seq<Step>): Option<Err> {
    if steps == [] then None
    else
      var first, last := FirstCause(steps[..|steps| - 1]), steps[|steps| - 1];
      if first.None? && (last.Fail? || last.CancelParent?) then Some(last.err) else first
  }

  /** The error that rendering a document failed with, if it did. */
  function Broke(steps: seq<Step>): Option<Err> {
    if steps == [] then None
    else if steps[|steps| - 1].Break? then Some(steps[|steps| - 1].err)
    else Broke(steps[..|steps| - 1])
  }

  predicate Aborted(steps: seq<Step>) {
    exists i :: 0 <= i < |steps| && steps[i] == Abort
  }

  /** What the history of a run makes of its cause and of the generator. */
  lemma {:induction false} CauseAndGenerator(total: nat, n: nat, steps: seq<Step>)
    requires Run(total, n, steps).Some?
    ensures var s := Run(total, n, steps).value;
            && s.cause == FirstCause(steps)
            && (s.gen == Offering ==> Broke(steps).None? && !Aborted(steps))
            && (Aborted(steps) ==> s.cause.Some? && Broke(steps).None?)
            && (Aborted(steps) || Broke(steps).Some? ==> s.sent < total)
            && (s.gen.Closed? ==>
                  s.gen.err == if Broke(steps).Some? then Broke(steps) else if Aborted(steps) then s.cause else None)
  {
    if steps != [] {
      var before, last := steps[..|steps| - 1], steps[|steps| - 1];
      CauseAndGenerator(total, n, before);
      assert forall i :: 0 <= i < |before| ==> before[i] == steps[i];
      assert Aborted(steps) <==> Aborted(before) || last == Abort;
    }
  }

  /** What a call with this history returns. */
  function ReturnedError(steps: seq<Step>): Option<Err> {
    if FirstCause(steps).Some? && FirstCause(steps) != Some(Canceled) then FirstCause(steps)
    else if Broke(steps).Some? then Broke(steps)
    else if Aborted(steps) then Some(Canceled)
    else None
  }

  /**
   * On every run that returns: the first sink error or cancellation comes back if it is not context.Canceled; otherwise
   * the error of rendering, or Canceled if the generator was cut off by the cancellation, or nil. So where the caller
   * does not cancel and no sink fails with Canceled, it is the first sink error, or else the generator's own.
   */
  lemma {:induction false} ReturnsExactly(total: nat, n: nat, steps: seq<Step>)
    requires Run(total, n, steps).Some? && Returned(Run(total, n, steps).value)
    ensures Result(Run(total, n, steps).value) == ReturnedError(steps)
    ensures Aborted(steps) || Broke(steps).Some? ==> Run(total, n, steps).value.sent < total
    ensures (forall step :: step in steps ==> !step.CancelParent? && !Cancels(step)) ==>
              Result(Run(total, n, steps).value) ==
              if FirstFailure(steps).Some? then FirstFailure(steps) else Broke(steps)
  {
    CauseAndGenerator(total, n, steps);
    if forall step :: step in steps ==> !step.CancelParent? && !Cancels(step) {
      FirstErrorWins(total, n, steps);
      CanceledBySomeStep(total, n, steps);
    }
  }

  lemma {:induction false} RunSnoc(total: nat, n: nat, steps: seq<Step>, s: State, step: Step)
    requires Run(total, n, steps) == Some(s) && Enabled(total, n, s, step)
    ensures Run(total, n, steps + [step]) == Some(Next(total, n, s, step))
  {
    assert (steps + [step])[..|steps|] == steps;
  }

  // ---------- whole runs that return nil ----------

  predicate Cancels(step: Step) {
    step == CancelParent(Canceled) || (step.Fail? && step.err == Canceled)
  }

  lemma {:induction false} CanceledBySomeStep(total: nat, n: nat, steps: seq<Step>)
    requires Run(total, n, steps).Some? && forall step :: step in steps ==> !Cancels(step)
    ensures Run(total, n, steps).value.cause != Some(Canceled)
  {
    if steps != [] {
      var before := steps[..|steps| - 1];
      assert steps[|steps| - 1] in steps && forall step :: step in before ==> step in steps;
      CanceledBySomeStep(total, n, before);
    }
  }

  /** On every run in which nobody cancels with context.Canceled, a nil result means that every item succeeded once. */
  lemma {:induction false} NilMeansAll(total: nat, n: nat, steps: seq<Step>)
    requires n > 0 && Run(total, n, steps).Some? && Returned(Run(total, n, steps).value)
    requires Result(Run(total, n, steps).value).None? && forall step :: step in steps ==> !Cancels(step)
    ensures var s := Run(total, n, steps).value;
            |s.succeeded| == total && forall x :: 0 <= x < total ==> multiset(s.succeeded)[x] == 1
  {
    EveryRun(total, n, steps);
    CanceledBySomeStep(total, n, steps);
    OnReturn(total, n, Run(total, n, steps).value);
  }

  // ---------- an interrupt that looks like success ----------

  function Upto(k: nat): seq<nat> {
    seq(k, i => i)
  }

  /** The first k items delivered, one after the other, by the first worker. */
  lemma {:induction false} Delivered(total: nat, n: nat, k: nat) returns (steps: seq<Step>)
    requires n > 0 && k <= total
    ensures Run(total, n, steps) == Some(State(Offering, k, [], Start(n).workers, None, Upto(k)))
  {
    if k == 0 {
      steps := [];
      assert Upto(0) == [];
    } else {
      var before := Delivered(total, n, k - 1);
      var s0 := State(Offering, k - 1, [], Start(n).workers, None, Upto(k - 1));
      RunSnoc(total, n, before, s0, Send);
      var s1 := Next(total, n, s0, Send);
      RunSnoc(total, n, before + [Send], s1, Take(0));
      var s2 := Next(total, n, s1, Take(0));
      RunSnoc(total, n, before + [Send] + [Take(0)], s2, Succeed(0));
      steps := before + [Send] + [Take(0)] + [Succeed(0)];
      assert s2.workers[0 := Waiting] == Start(n).workers;
      assert Upto(k - 1) + [k - 1] == Upto(k);
    }
  }

  /** All workers but the first up to some number have left; the first failed on an item. */
  function OthersLeft(n: nat, k: nat, item: nat): seq<Worker> {
    seq(n, i => if i == 0 then Exited(Some(item)) else if i < k then Exited(None) else Waiting)
  }

  lemma {:induction false} OthersLeave(total: nat, n: nat, steps: seq<Step>, s: State, item: nat, k: nat)
    returns (all: seq<Step>)
    requires Run(total, n, steps) == Some(s) && s.gen.Closed? && s.buffer == [] && 1 <= k <= n
    requires s.workers == OthersLeft(n, k, item)
    ensures Run(total, n, all) == Some(s.(workers := OthersLeft(n, n, item)))
    decreases n - k
  {
    if k == n {
      all := steps;
    } else {
      RunSnoc(total, n, steps, s, Leave(k));
      assert s.workers[k := Exited(None)] == OthersLeft(n, k + 1, item);
      all := OthersLeave(total, n, steps + [Leave(k)], s.(workers := OthersLeft(n, k + 1, item)), item, k + 1);
    }
  }

  lemma {:induction false} AllSent(total: nat, n: nat) returns (steps: seq<Step>)
    requires total >= 1 && n >= 1
    ensures Run(total, n, steps) ==
            Some(State(Closed(None), total, [total - 1], Start(n).workers, None, Upto(total - 1)))
  {
    var before := Delivered(total, n, total - 1);
    var s0 := State(Offering, total - 1, [], Start(n).workers, None, Upto(total - 1));
    RunSnoc(total, n, before, s0, Send);
    var s1 := Next(total, n, s0, Send);
    assert s1.buffer == [total - 1];
    RunSnoc(total, n, before + [Send], s1, Finish);
    steps := before + [Send] + [Finish];
  }

  lemma {:induction false} InterruptedAfter(total: nat, n: nat, steps: seq<Step>, s: State) returns (all: seq<Step>)
    requires total >= 1 && n >= 1 && Run(total, n, steps) == Some(s)
    requires s == State(Closed(None), total, [total - 1], Start(n).workers, None, Upto(total - 1))
    ensures Run(total, n, all) ==
            Some(State(Closed(None), total, [], OthersLeft(n, n, total - 1), Some(Canceled), Upto(total - 1)))
  {
    RunSnoc(total, n, steps, s, CancelParent(Canceled));
    var s3 := Next(total, n, s, CancelParent(Canceled));
    RunSnoc(total, n, steps + [CancelParent(Canceled)], s3, Take(0));
    var s4 := Next(total, n, s3, Take(0));
    assert s4.workers[0] == Busy(total - 1);
    RunSnoc(total, n, steps + [CancelParent(Canceled)] + [Take(0)], s4, Fail(0, Canceled));
    var s5 := Next(total, n, s4, Fail(0, Canceled));
    assert s5.workers == OthersLeft(n, 1, total - 1);
    all := OthersLeave(total, n, steps + [CancelParent(Canceled)] + [Take(0)] + [Fail(0, Canceled)], s5, total - 1, 1);
  }

  lemma {:induction false} OthersExited(n: nat, item: nat)
    ensures AllExited(OthersLeft(n, n, item))
  {
    forall w | w in OthersLeft(n, n, item) ensures w.Exited? {
      var i :| 0 <= i < n && OthersLeft(n, n, item)[i] == w;
    }
  }

  /**
   * For every number of items and workers: an interrupt after the last send, the last item failing with it, and the
   * call returns nil one item short.
   */
  lemma {:induction false} InterruptLooksLikeSuccess(total: nat, n: nat) returns (steps: seq<Step>)
    requires total >= 1 && n >= 1
    ensures var r := Run(total, n, steps);
            r.Some? && Returned(r.value) && Result(r.value) == None && r.value.succeeded == Upto(total - 1)
  {
    var sent := AllSent(total, n);
    steps := InterruptedAfter(
      total, n, sent, State(Closed(None), total, [total - 1], Start(n).workers, None, Upto(total - 1)));
    OthersExited(n, total - 1);
  }

  /** The whole call under any scheduler that keeps picking enabled steps; it returns after finitely many. */
  method FanOut(total: nat, n: nat, pick: State -> Step)
    returns (done: nat, err: Option<Err>, s: State, ghost steps: seq<Step>)
    requires n > 0
    requires forall s :: Inv(total, n, s) && !Returned(s) ==> Enabled(total, n, s, pick(s))
    ensures Run(total, n, steps) == Some(s) && Inv(total, n, s) && Returned(s)
    ensures done == |s.succeeded| && err == ReturnedError(steps)
    ensures err.None? && s.cause != Some(Canceled) ==> done == total
  {
    s, steps := Start(n), [];
    InvStart(total, n);
    while !Returned(s)
      invariant Inv(total, n, s) && Run(total, n, steps) == Some(s)
      decreases Measure(total, s)
    {
      var step := pick(s);
      InvNext(total, n, s, step);
      MeasureDecreases(total, n, s, step);
      RunSnoc(total, n, steps, s, step);
      s, steps := Next(total, n, s, step), steps + [step];
    }
    OnReturn(total, n, s);
    ReturnsExactly(total, n, steps);
    done, err := |s.succeeded|, Result(s);
  }
}
