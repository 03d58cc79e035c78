/**
 The shared-cursor worker pool of `server/scripts/sync-style-gold-reference-pack.ts` and of
 `server/scripts/harvest-style-gold-candidates.ts`.  Workers run one at a time and are suspended only while
 they await the row they hold; which one resumes next is up to the scheduler, and a row may fail.
 */
module WorkerPool {

  /** `Ready` before its first turn; `Busy` while it awaits a row; then it has returned, or its row was rejected. */
  datatype Worker = Ready | Busy(row: nat) | Returned | Rejected

  /**
   `rows` rows to process.  `next` is the shared cursor.  One of the two pools increments the cursor before it
   looks whether a row is left, so that it `overshoots`; the other looks first.  `handed` lists the rows in the
   order in which they were handed out.
   */
  datatype State = State(
    rows: nat, overshoots: bool, next: nat, workers: seq<Worker>,
    handed: seq<nat>, processed: set<nat>, failed: set<nat>)

  datatype Step =
    | Start(w: nat)   // the first turn of a worker
    | Resume(w: nat)  // the awaited row is done; on to the next one
    | Fail(w: nat)    // the awaited row is rejected, and with it the worker

  function Initial(rows: nat, overshoots: bool, concurrency: int): State {
    State(rows, overshoots, 0, seq(if concurrency > 1 then concurrency else 1, _ => Ready), [], {}, {})
  }

  predicate Enabled(s: State, step: Step) {
    step.w < |s.workers| &&
    match step
    case Start(w) => s.workers[w].Ready?
    case _ => s.workers[step.w].Busy?
  }

  /** Take the next row, or return when none is left. */
  function TakeNext(s: State, w: nat): State
    requires w < |s.workers|
  {
    if s.next < s.rows then
      s.(next := s.next + 1, workers := s.workers[w := Busy(s.next)], handed := s.handed + [s.next])
    else
      s.(next := if s.overshoots then s.next + 1 else s.next, workers := s.workers[w := Returned])
  }

  function Next(s: State, step: Step): State
    requires Enabled(s, step)
  {
    match step
    case Start(w) => TakeNext(s, w)
    case Resume(w) => TakeNext(s.(processed := s.processed + {s.workers[w].row}), w)
    case Fail(w) => s.(failed := s.failed + {s.workers[w].row}, workers := s.workers[w := Rejected])
  }

  /** A run: any schedule. */
  ghost predicate IsRun(states: seq<State>, steps: seq<Step>) {
    && |states| == |steps| + 1
    && (exists rows, overshoots, concurrency :: states[0] == Initial(rows, overshoots, concurrency))
    && forall i :: 0 <= i < |steps| ==> Enabled(states[i], steps[i]) && states[i + 1] == Next(states[i], steps[i])
  }

  // ----- The invariant -----

  function Handed(s: State): nat {
    if s.next < s.rows then s.next else s.rows
  }

  /** A worker holds row `r`. */
  ghost predicate Holds(ws: seq<Worker>, r: nat) {
    exists w :: 0 <= w < |ws| && ws[w] == Busy(r)
  }

  ghost predicate NoneShared(ws: seq<Worker>) {
    forall v, w :: 0 <= v < w < |ws| && ws[v].Busy? ==> ws[v] != ws[w]
  }

  ghost predicate SomeRejected(ws: seq<Worker>) {
    exists w :: 0 <= w < |ws| && ws[w].Rejected?
  }

  ghost predicate SomeReturned(ws: seq<Worker>) {
    exists w :: 0 <= w < |ws| && ws[w].Returned?
  }

  /** The rows 0, 1, 2, ... each once. */
  predicate InOrder(handed: seq<nat>, n: nat) {
    |handed| == n && forall k :: 0 <= k < n ==> handed[k] == k
  }

  /** In flight, processed or failed, and only one of these. */
  ghost predicate Accounted(ws: seq<Worker>, processed: set<nat>, failed: set<nat>, handed: nat) {
    forall r: nat ::
      && (r < handed <==> Holds(ws, r) || r in processed || r in failed)
      && !(Holds(ws, r) && r in processed) && !(Holds(ws, r) && r in failed) && !(r in processed && r in failed)
  }

  /**
   Rows are handed out once each, in order; a row handed out is in flight, processed or failed, and only one of
   these; no two workers hold the same row; a worker returns only when no row is left.
   */
  ghost predicate Invariant(s: State) {
    && (!s.overshoots ==> s.next <= s.rows)
    && InOrder(s.handed, Handed(s))
    && Accounted(s.workers, s.processed, s.failed, Handed(s))
    && NoneShared(s.workers)
    && (SomeReturned(s.workers) ==> s.next >= s.rows)
    && (SomeRejected(s.workers) <==> s.failed != {})
  }

  lemma {:induction false} Release(ws: seq<Worker>, w: nat, x: Worker, r: nat)
    requires w < |ws| && ws[w].Busy? && !x.Busy? && NoneShared(ws)
    ensures NoneShared(ws[w := x])
    ensures Holds(ws[w := x], r) <==> Holds(ws, r) && r != ws[w].row
  {
    if Holds(ws, r) && r != ws[w].row {
      var v :| 0 <= v < |ws| && ws[v] == Busy(r);
      assert ws[w := x][v] == Busy(r);
    }
    if Holds(ws[w := x], r) {
      var v :| 0 <= v < |ws| && ws[w := x][v] == Busy(r);
      assert ws[v] == Busy(r);
    }
  }

  lemma {:induction false} Acquire(ws: seq<Worker>, w: nat, row: nat, r: nat)
    requires w < |ws| && !ws[w].Busy? && NoneShared(ws) && !Holds(ws, row)
    ensures NoneShared(ws[w := Busy(row)])
    ensures Holds(ws[w := Busy(row)], r) <==> Holds(ws, r) || r == row
  {
    if Holds(ws, r) {
      var v :| 0 <= v < |ws| && ws[v] == Busy(r);
      assert ws[w := Busy(row)][v] == Busy(r);
    }
    assert ws[w := Busy(row)][w] == Busy(row);
    if Holds(ws[w := Busy(row)], r) && r != row {
      var v :| 0 <= v < |ws| && ws[w := Busy(row)][v] == Busy(r);
      assert ws[v] == Busy(r);
    }
  }

  lemma {:induction false} Idle(ws: seq<Worker>, w: nat, x: Worker, r: nat)
    requires w < |ws| && !ws[w].Busy? && !x.Busy? && NoneShared(ws)
    ensures NoneShared(ws[w := x])
    ensures Holds(ws[w := x], r) <==> Holds(ws, r)
  {
    if Holds(ws, r) {
      var v :| 0 <= v < |ws| && ws[v] == Busy(r);
      assert ws[w := x][v] == Busy(r);
    }
    if Holds(ws[w := x], r) {
      var v :| 0 <= v < |ws| && ws[w := x][v] == Busy(r);
      assert ws[v] == Busy(r);
    }
  }

  lemma {:induction false} OutcomeAfter(ws: seq<Worker>, w: nat, x: Worker)
    requires w < |ws| && (ws[w].Ready? || ws[w].Busy?)
    ensures SomeRejected(ws[w := x]) <==> SomeRejected(ws) || x.Rejected?
    ensures SomeReturned(ws[w := x]) <==> SomeReturned(ws) || x.Returned?
  {
    var ws' := ws[w := x];
    assert ws'[w] == x && forall v :: 0 <= v < |ws| && v != w ==> ws'[v] == ws[v];
    if SomeRejected(ws) {
      var v :| 0 <= v < |ws| && ws[v].Rejected?;
      assert ws'[v].Rejected?;
    }
    if SomeReturned(ws) {
      var v :| 0 <= v < |ws| && ws[v].Returned?;
      assert ws'[v].Returned?;
    }
  }

  /** A worker lets go of its row, which is now processed, or failed. */
  lemma {:induction false} ReleaseKeeps(s: State, w: nat, x: Worker)
    requires Invariant(s) && w < |s.workers| && s.workers[w].Busy? && !x.Busy?
    ensures var ws, row := s.workers[w := x], s.workers[w].row;
            && NoneShared(ws)
            && Accounted(ws, s.processed + {row}, s.failed, Handed(s))
            && Accounted(ws, s.processed, s.failed + {row}, Handed(s))
  {
    var ws, row := s.workers[w := x], s.workers[w].row;
    assert Holds(s.workers, row);
    forall r: nat
      ensures Holds(ws, r) <==> Holds(s.workers, r) && r != row
    {
      Release(s.workers, w, x, r);
    }
    Release(s.workers, w, x, 0);
    hide Holds, NoneShared, SomeRejected, SomeReturned, InOrder, Handed;
  }

  /** A worker without a row takes the next one, or none. */
  lemma {:induction false} AcquireKeeps(s: State, w: nat)
    requires Invariant(s) && w < |s.workers| && s.workers[w].Ready?
    ensures s.next < s.rows ==>
              NoneShared(s.workers[w := Busy(s.next)])
                && Accounted(s.workers[w := Busy(s.next)], s.processed, s.failed, s.next + 1)
    ensures s.next >= s.rows ==>
              NoneShared(s.workers[w := Returned])
                && Accounted(s.workers[w := Returned], s.processed, s.failed, Handed(s))
  {
    if s.next < s.rows {
      assert !Holds(s.workers, s.next);
      forall r: nat
        ensures Holds(s.workers[w := Busy(s.next)], r) <==> Holds(s.workers, r) || r == s.next
      {
        Acquire(s.workers, w, s.next, r);
      }
      Acquire(s.workers, w, s.next, 0);
    } else {
      forall r: nat
        ensures Holds(s.workers[w := Returned], r) <==> Holds(s.workers, r)
      {
        Idle(s.workers, w, Returned, r);
      }
      Idle(s.workers, w, Returned, 0);
    }
    hide Holds, NoneShared, SomeRejected, SomeReturned, InOrder;
  }

  lemma {:induction false} TakeNextKeeps(s: State, w: nat)
    requires Invariant(s) && w < |s.workers| && s.workers[w].Ready?
    ensures Invariant(TakeNext(s, w))
  {
    AcquireKeeps(s, w);
    OutcomeAfter(s.workers, w, if s.next < s.rows then Busy(s.next) else Returned);
    hide Holds, NoneShared, SomeRejected, SomeReturned, Accounted;
  }

  /** A worker between two rows is as good as one that has not started. */
  function Between(s: State, w: nat): State
    requires w < |s.workers| && s.workers[w].Busy?
  {
    s.(processed := s.processed + {s.workers[w].row}, workers := s.workers[w := Ready])
  }

  lemma {:induction false} BetweenKeeps(s: State, w: nat)
    requires Invariant(s) && w < |s.workers| && s.workers[w].Busy?
    ensures Invariant(Between(s, w))
    ensures TakeNext(Between(s, w), w) == Next(s, Resume(w))
  {
    ReleaseKeeps(s, w, Ready);
    OutcomeAfter(s.workers, w, Ready);
    hide Holds, NoneShared, SomeRejected, SomeReturned, Accounted, InOrder;
    assert s.workers[w := Ready][w := Busy(s.next)] == s.workers[w := Busy(s.next)];
    assert s.workers[w := Ready][w := Returned] == s.workers[w := Returned];
  }

  lemma {:induction false} FailKeeps(s: State, w: nat)
    requires Invariant(s) && w < |s.workers| && s.workers[w].Busy?
    ensures Invariant(Next(s, Fail(w)))
  {
    ReleaseKeeps(s, w, Rejected);
    OutcomeAfter(s.workers, w, Rejected);
    hide Holds, NoneShared, SomeRejected, SomeReturned, Accounted, InOrder;
    assert s.workers[w].row in s.failed + {s.workers[w].row};
  }

  lemma {:induction false} StepKeeps(s: State, step: Step)
    requires Invariant(s) && Enabled(s, step)
    ensures Invariant(Next(s, step))
  {
    hide Invariant;
    match step
    case Start(w) => TakeNextKeeps(s, w);
    case Resume(w) =>
      BetweenKeeps(s, w);
      TakeNextKeeps(Between(s, w), w);
    case Fail(w) => FailKeeps(s, w);
  }

  // ----- Every schedule -----

  /** In every run each row handed out is the next one, at most once, and is in flight, processed or failed. */
  lemma {:induction false} RunKeeps(states: seq<State>, steps: seq<Step>, i: nat)
    requires IsRun(states, steps) && i < |states|
    ensures Invariant(states[i]) && |states[i].workers| == |states[0].workers| && states[i].rows == states[0].rows
    decreases i
  {
    if i == 0 {
      var rows, overshoots, concurrency :| states[0] == Initial(rows, overshoots, concurrency);
      assert Invariant(Initial(rows, overshoots, concurrency));
    } else {
      RunKeeps(states, steps, i - 1);
      StepKeeps(states[i - 1], steps[i - 1]);
    }
  }

  function RowsInFlight(ws: seq<Worker>): set<nat> {
    set w | 0 <= w < |ws| && ws[w].Busy? :: ws[w].row
  }

  lemma {:induction false} InFlightBound(ws: seq<Worker>)
    ensures |RowsInFlight(ws)| <= |ws|
  {
    if ws == [] {
      assert RowsInFlight(ws) == {};
    } else {
      var n := |ws| - 1;
      InFlightBound(ws[..n]);
      assert RowsInFlight(ws) == RowsInFlight(ws[..n]) + if ws[n].Busy? then {ws[n].row} else {};
    }
  }

  /** So at most max(1, concurrency) rows are ever in flight. */
  lemma {:induction false} ConcurrencyRespected(states: seq<State>, steps: seq<Step>, i: nat, concurrency: int)
    requires IsRun(states, steps) && i < |states|
    requires states[0] == Initial(states[0].rows, states[0].overshoots, concurrency)
    ensures |RowsInFlight(states[i].workers)| <= if concurrency > 1 then concurrency else 1
  {
    RunKeeps(states, steps, i);
    InFlightBound(states[i].workers);
  }

  lemma {:induction false} InFlightExactly(ws: seq<Worker>)
    requires NoneShared(ws) && forall w :: 0 <= w < |ws| ==> ws[w].Busy?
    ensures |RowsInFlight(ws)| == |ws|
    decreases |ws|
  {
    if ws == [] {
      assert RowsInFlight(ws) == {};
    } else {
      var n := |ws| - 1;
      var before := ws[..n];
      forall v, w | 0 <= v < w < n && before[v].Busy?
        ensures before[v] != before[w]
      {
        assert ws[v] != ws[w];
      }
      InFlightExactly(before);
      assert RowsInFlight(ws) == RowsInFlight(before) + {ws[n].row};
      forall v | 0 <= v < n
        ensures ws[v].row != ws[n].row
      {
        assert ws[v] != ws[n];
      }
      assert ws[n].row !in RowsInFlight(before);
    }
  }

  /** And exactly so many while rows are left, once every worker has started and as long as no row was rejected. */
  lemma {:induction false} ConcurrencyUsed(states: seq<State>, steps: seq<Step>, i: nat, concurrency: int)
    requires IsRun(states, steps) && i < |states|
    requires states[0] == Initial(states[0].rows, states[0].overshoots, concurrency)
    requires states[i].next < states[i].rows && states[i].failed == {}
    requires forall w :: 0 <= w < |states[i].workers| ==> !states[i].workers[w].Ready?
    ensures |RowsInFlight(states[i].workers)| == if concurrency > 1 then concurrency else 1
  {
    RunKeeps(states, steps, i);
    var ws := states[i].workers;
    forall w | 0 <= w < |ws|
      ensures ws[w].Busy?
    {
      assert !SomeReturned(ws) && !SomeRejected(ws);
    }
    InFlightExactly(ws);
  }

  // ----- Termination -----

  function Weight(w: Worker): nat {
    if w.Ready? then 2 else if w.Busy? then 1 else 0
  }

  function Weights(ws: seq<Worker>): nat {
    if ws == [] then 0 else Weight(ws[0]) + Weights(ws[1..])
  }

  /** What is left to do: the rows not handed out, and the turns the workers still have. */
  function Measure(s: State): nat {
    s.rows - Handed(s) + Weights(s.workers)
  }

  lemma {:induction false} WeightsUpdate(ws: seq<Worker>, w: nat, x: Worker)
    requires w < |ws|
    ensures Weights(ws[w := x]) + Weight(ws[w]) == Weights(ws) + Weight(x)
  {
    if w == 0 {
      assert ws[w := x][1..] == ws[1..];
    } else {
      assert ws[w := x][1..] == ws[1..][w - 1 := x];
      WeightsUpdate(ws[1..], w - 1, x);
    }
  }

  /** Every step uses some of it up, whatever the schedule. */
  lemma {:induction false} StepDecreases(s: State, step: Step)
    requires Enabled(s, step)
    ensures Measure(Next(s, step)) < Measure(s)
  {
    var w := step.w;
    WeightsUpdate(s.workers, w, Next(s, step).workers[w]);
    hide Weights;
  }

  lemma {:induction false} RunIsBounded(states: seq<State>, steps: seq<Step>, i: nat)
    requires IsRun(states, steps) && i < |states|
    ensures i + Measure(states[i]) <= Measure(states[0])
    decreases i
  {
    if i > 0 {
      RunIsBounded(states, steps, i - 1);
      StepDecreases(states[i - 1], steps[i - 1]);
    }
  }

  // ----- Completion -----

  /** No worker has a turn left: no step is enabled. */
  ghost predicate Settled(s: State) {
    forall w :: 0 <= w < |s.workers| ==> s.workers[w].Returned? || s.workers[w].Rejected?
  }

  lemma {:induction false} SettledIsStuck(s: State)
    ensures Settled(s) <==> !exists step :: Enabled(s, step)
  {
    if !Settled(s) {
      var w :| 0 <= w < |s.workers| && !s.workers[w].Returned? && !s.workers[w].Rejected?;
      if s.workers[w].Ready? {
        assert Enabled(s, Start(w));
      } else {
        assert Enabled(s, Resume(w));
      }
    }
  }

  /**
   When a pool has settled, every row handed out was processed or failed.  Every row was handed out unless all
   workers were rejected, and without a failure every row was processed.
   */
  ghost predicate Complete(s: State) {
    && (forall r: nat :: r < Handed(s) <==> r in s.processed || r in s.failed)
    && (SomeReturned(s.workers) ==> Handed(s) == s.rows)
    && (s.failed == {} ==> forall r: nat :: r < s.rows <==> r in s.processed)
  }

  lemma {:induction false} SettledState(s: State)
    requires Invariant(s) && Settled(s) && s.workers != []
    ensures Complete(s)
  {
    assert forall r: nat :: !Holds(s.workers, r);
    if s.failed == {} {
      assert !s.workers[0].Rejected?;
      assert Handed(s) == s.rows;
    }
  }

  /** Under every schedule. */
  lemma {:induction false} SettledIsComplete(states: seq<State>, steps: seq<Step>, i: nat)
    requires IsRun(states, steps) && i < |states| && Settled(states[i])
    ensures Complete(states[i])
  {
    RunKeeps(states, steps, i);
    assert |states[0].workers| > 0;
    hide *;
    SettledState(states[i]);
  }

  // ----- The pool itself -----

  /** The step a worker takes when it has its turn. */
  function StepOf(s: State, w: nat, ok: bool): Step
    requires w < |s.workers|
  {
    if s.workers[w].Ready? then Start(w) else if ok then Resume(w) else Fail(w)
  }

  /** The state the workers of one pool share. */
  class Pool {
    const rows: nat
    const overshoots: bool
    var next: nat
    var workers: seq<Worker>
    var processed: set<nat>
    var failed: set<nat>
    ghost var handed: seq<nat>

    ghost function View(): State
      reads this
    {
      State(rows, overshoots, next, workers, handed, processed, failed)
    }

    constructor (rows: nat, overshoots: bool, concurrency: int)
      ensures View() == Initial(rows, overshoots, concurrency)
      ensures |workers| == (if concurrency >= 1 then concurrency else 1) && next == 0
      ensures forall w :: 0 <= w < |workers| ==> workers[w] == Ready
    {
      this.rows, this.overshoots := rows, overshoots;
      next, processed, failed := 0, {}, {};
      workers := seq(if concurrency > 1 then concurrency else 1, _ => Ready);
      handed := [];
    }

    /** A worker's code between two suspensions. */
    method RunUntilAwait(w: nat)
      requires w < |workers|
      modifies this
      ensures View() == TakeNext(old(View()), w)
    {
      var currentIndex := next;
      if overshoots || currentIndex < rows {
        next := next + 1;
      }
      if currentIndex >= rows {
        workers := workers[w := Returned];
      } else {
        workers := workers[w := Busy(currentIndex)];
        handed := handed + [currentIndex];
      }
    }

    /** Let a worker that can move have its turn; `ok` says whether the row it awaits succeeds. */
    method Turn(w: nat, ok: bool)
      requires w < |workers| && (workers[w].Ready? || workers[w].Busy?)
      modifies this
      ensures var step := StepOf(old(View()), w, ok); Enabled(old(View()), step) && View() == Next(old(View()), step)
      ensures Measure(View()) < old(Measure(View()))
    {
      StepDecreases(View(), StepOf(View(), w, ok));
      match workers[w]
      case Ready => RunUntilAwait(w);
      case Busy(row) =>
        if ok {
          processed := processed + {row};
          RunUntilAwait(w);
        } else {
          failed := failed + {row};
          workers := workers[w := Rejected];
        }
      case _ =>
    }

    /** Run the pool to the end under an arbitrary schedule, which any choice of `oracle` gives. */
    method RunAll(oracle: nat -> (nat, bool))
      requires Invariant(View()) && workers != []
      modifies this
      ensures Invariant(View()) && Settled(View()) && Complete(View())
      ensures failed == {} ==> forall r: nat :: r < rows <==> r in processed
    {
      var turn := 0;
      while exists w :: 0 <= w < |workers| && (workers[w].Ready? || workers[w].Busy?)
        invariant Invariant(View()) && workers != []
        decreases Measure(View())
      {
        var (preferred, ok) := oracle(turn);
        var w: nat :| w < |workers| && (workers[w].Ready? || workers[w].Busy?);
        if preferred < |workers| && (workers[preferred].Ready? || workers[preferred].Busy?) {
          w := preferred;
        }
        StepKeeps(View(), StepOf(View(), w, ok));
        Turn(w, ok);
        turn := turn + 1;
      }
      hide Invariant;
      SettledState(View());
    }
  }
}
