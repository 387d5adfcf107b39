/** The operations my_atomic.h builds from compare-and-swap, run by any number of threads
    under any schedule, against the one-step bodies atomic/rwlock.h runs under a mutex. */
module AtomicCells {
  import opened Common

  const MODULUS := 0x1_0000_0000

  type Cell = x: int | 0 <= x < MODULUS

  datatype Op = Add(v: Cell) | Fas(v: Cell) | Load | Store(v: Cell)

  // ---------------------------------------------------------------- the mutex bodies

  function MutexCell(op: Op, cell: Cell): Cell {
    match op
    case Add(v) => (cell + v) % MODULUS
    case Fas(v) => v
    case Load => cell
    case Store(v) => v
  }

  function MutexReturn(op: Op, cell: Cell): Option<Cell> {
    if op.Store? then None else Some(cell)
  }

  // ---------------------------------------------------------------- the compare-and-swap bodies

  /** Where a thread is inside its call. `since` is the number of operations that had taken
      effect when the call began, `seen` when the thread last looked at the cell. */
  datatype Local =
    | Idle
    | Entered(op: Op, since: nat)
    | Trying(op: Op, since: nat, tmp: Cell, seen: nat)
    | Returned(op: Op, since: nat, result: Option<Cell>, at: nat)

  datatype Event = Event(thread: nat, op: Op, result: Option<Cell>)

  /** The shared cell, the threads, and the history of completed operations. */
  datatype State = State(cell: Cell, threads: map<nat, Local>, log: seq<Event>) {
    function Of(t: nat): Local {
      if t in threads then threads[t] else Idle
    }
    function With(t: nat, l: Local): State {
      this.(threads := threads[t := l])
    }
  }

  datatype Step = Call(t: nat, op: Op) | Read(t: nat) | Cas(t: nat)

  predicate Enabled(s: State, step: Step) {
    match step
    case Call(t, _) => s.Of(t).Idle? || s.Of(t).Returned?
    case Read(t) => s.Of(t).Entered?
    case Cas(t) => s.Of(t).Trying?
  }

  /** The value the loop offers to store when the cell still holds `tmp`. */
  function Offered(op: Op, tmp: Cell): Cell {
    match op
    case Add(v) => (tmp + v) % MODULUS
    case Fas(v) => v
    case Load => tmp
    case Store(v) => v
  }

  function Apply(s: State, step: Step): State
    requires Enabled(s, step)
  {
    match step
    case Call(t, op) =>
      // load has no plain read: it starts from ret = 0
      if op.Load? then s.With(t, Trying(op, |s.log|, 0, |s.log|))
      else s.With(t, Entered(op, |s.log|))
    case Read(t) =>
      var l := s.Of(t);
      s.With(t, Trying(l.op, l.since, s.cell, |s.log|))
    case Cas(t) =>
      var l := s.Of(t);
      if s.cell == l.tmp then
        Finish(s.(cell := Offered(l.op, l.tmp)), t, l.tmp)
      else if l.op.Load? then
        Finish(s, t, s.cell)
      else
        s.With(t, l.(tmp := s.cell, seen := |s.log|))
  }

  /** The call returns the value left in `tmp`; store throws it away. */
  function Finish(s: State, t: nat, tmp: Cell): State
    requires s.Of(t).Trying?
  {
    var l := s.Of(t);
    var result := if l.op.Store? then None else Some(tmp);
    s.With(t, Returned(l.op, l.since, result, |s.log|)).(log := s.log + [Event(t, l.op, result)])
  }

  ghost predicate Next(s: State, s': State) {
    exists step :: Enabled(s, step) && s' == Apply(s, step)
  }

  ghost predicate IsRun(start: Cell, run: seq<State>) {
    && |run| > 0
    && run[0] == State(start, map[], [])
    && forall i | 0 < i < |run| :: Next(run[i - 1], run[i])
  }

  // ---------------------------------------------------------------- sequential meaning of a history

  /** The cell after the mutex bodies of the history have run one after the other. */
  function After(start: Cell, log: seq<Event>): Cell {
    if log == [] then start else MutexCell(log[|log| - 1].op, After(start, log[..|log| - 1]))
  }

  /** Every operation returned what its mutex body returns at its place in the history. */
  ghost predicate Sequential(start: Cell, log: seq<Event>) {
    forall k | 0 <= k < |log| :: log[k].result == MutexReturn(log[k].op, After(start, log[..k]))
  }

  /** What holds of one thread: its last look, and that its effect lies inside its own call. */
  ghost predicate ThreadInv(start: Cell, s: State, t: nat) {
    match s.Of(t)
    case Idle => true
    case Entered(op, since) => !op.Load? && since <= |s.log| && Absent(s.log, since, t)
    case Trying(op, since, tmp, seen) =>
      && since <= seen <= |s.log| && Absent(s.log, since, t)
      && (!op.Load? ==> tmp == After(start, s.log[..seen]))
    case Returned(op, since, result, at) =>
      since <= at < |s.log| && s.log[at] == Event(t, op, result) && Absent(s.log, at + 1, t)
  }

  ghost predicate Absent(log: seq<Event>, from: nat, t: nat) {
    forall k | from <= k < |log| :: log[k].thread != t
  }

  ghost predicate Inv(start: Cell, s: State) {
    && s.cell == After(start, s.log)
    && Sequential(start, s.log)
    && forall t: nat :: ThreadInv(start, s, t)
  }

  // ---------------------------------------------------------------- refinement

  /** One step of any thread is either invisible or exactly the mutex body of that thread's
      operation, with the mutex body's return value. */
  lemma StepRefinesMutex(start: Cell, s: State, step: Step)
    requires Inv(start, s) && Enabled(s, step)
    ensures var s' := Apply(s, step);
            || (s'.cell == s.cell && s'.log == s.log)
            || (step.Cas? && var op := s.Of(step.t).op;
                && s'.cell == MutexCell(op, s.cell)
                && s'.log == s.log + [Event(step.t, op, MutexReturn(op, s.cell))])
  {
  }

  lemma StepKeepsInv(start: Cell, s: State, step: Step)
    requires Inv(start, s) && Enabled(s, step)
    ensures Inv(start, Apply(s, step))
  {
    var s' := Apply(s, step);
    HistoryKept(start, s, step);
    forall t: nat
      ensures ThreadInv(start, s', t)
    {
      assert ThreadInv(start, s, t);
      if t == step.t {
        OwnThreadKept(start, s, step);
      } else {
        OtherThreadKept(start, s, s', t);
      }
    }
  }

  lemma HistoryKept(start: Cell, s: State, step: Step)
    requires Inv(start, s) && Enabled(s, step)
    ensures var s' := Apply(s, step);
            s'.cell == After(start, s'.log) && Sequential(start, s'.log)
  {
    StepRefinesMutex(start, s, step);
    var s' := Apply(s, step);
    if s'.log != s.log {
      var e := s'.log[|s.log|];
      ExtendKeepsSequential(start, s.log, e);
    }
  }

  lemma OwnThreadKept(start: Cell, s: State, step: Step)
    requires Enabled(s, step) && s.cell == After(start, s.log) && ThreadInv(start, s, step.t)
    ensures ThreadInv(start, Apply(s, step), step.t)
  {
    assert s.log[..|s.log|] == s.log;
  }

  lemma ExtendKeepsSequential(start: Cell, log: seq<Event>, e: Event)
    requires Sequential(start, log)
    requires e.result == MutexReturn(e.op, After(start, log))
    ensures Sequential(start, log + [e])
  {
    var longer := log + [e];
    forall k | 0 <= k < |longer|
      ensures longer[k].result == MutexReturn(longer[k].op, After(start, longer[..k]))
    {
      assert longer[..k] == log[..k];
      assert log[..|log|] == log;
    }
  }

  lemma OtherThreadKept(start: Cell, s: State, s': State, t: nat)
    requires ThreadInv(start, s, t) && s'.Of(t) == s.Of(t)
    requires s'.log == s.log
          || (|s'.log| == |s.log| + 1 && s'.log[..|s.log|] == s.log && s'.log[|s.log|].thread != t)
    ensures ThreadInv(start, s', t)
  {
    if s.Of(t).Trying? {
      assert s'.log[..s.Of(t).seen] == s.log[..s.Of(t).seen];
    }
  }

  /** Every run is explained by its history: the cell is what the mutex bodies leave, every result
      is what they return, and each effect falls between the call and the return of its thread. */
  lemma {:induction false} RunsRefineMutex(start: Cell, run: seq<State>, n: nat)
    requires IsRun(start, run) && n < |run|
    ensures Inv(start, run[n])
  {
    if n > 0 {
      RunsRefineMutex(start, run, n - 1);
      assert Next(run[n - 1], run[n]);
      var step :| Enabled(run[n - 1], step) && run[n] == Apply(run[n - 1], step);
      StepKeepsInv(start, run[n - 1], step);
    }
  }

  /** A thread has to retry only if another thread's operation took effect since it last looked. */
  lemma RetryMeansOthersProgressed(start: Cell, s: State, t: nat)
    requires Inv(start, s) && Enabled(s, Cas(t))
    requires Apply(s, Cas(t)).log == s.log
    ensures s.Of(t).seen < |s.log|
    ensures forall k | s.Of(t).seen <= k < |s.log| :: s.log[k].thread != t
  {
    assert ThreadInv(start, s, t);
    assert s.log[..|s.log|] == s.log;
  }

  // ---------------------------------------------------------------- counters

  function Added(log: seq<Event>): nat {
    if log == [] then 0
    else Added(log[..|log| - 1]) + match log[|log| - 1].op case Add(v) => v as nat case _ => 0
  }

  /** The first value plus everything the history added, wrapped. */
  function Total(start: Cell, log: seq<Event>): Cell {
    (start + Added(log)) % MODULUS
  }

  ghost predicate OnlyAddsAndLoads(log: seq<Event>) {
    forall k | 0 <= k < |log| :: log[k].op.Add? || log[k].op.Load?
  }

  lemma {:induction false} AfterAdds(start: Cell, log: seq<Event>)
    requires OnlyAddsAndLoads(log)
    ensures After(start, log) == Total(start, log)
  {
    if log != [] {
      var shorter := log[..|log| - 1];
      AfterAdds(start, shorter);
      assert log[|log| - 1].op.Add? || log[|log| - 1].op.Load?;
    }
  }

  /** In any run of adds and loads the cell is its first value plus everything added, modulo 2^32,
      and the k-th completed add returned the total of those before it. */
  lemma CounterRun(start: Cell, run: seq<State>, n: nat)
    requires IsRun(start, run) && n < |run|
    requires OnlyAddsAndLoads(run[n].log)
    ensures run[n].cell == Total(start, run[n].log)
    ensures forall k | 0 <= k < |run[n].log| ::
              run[n].log[k].result == Some(Total(start, run[n].log[..k]))
  {
    RunsRefineMutex(start, run, n);
    CounterHistory(start, run[n].log);
  }

  lemma CounterHistory(start: Cell, log: seq<Event>)
    requires Sequential(start, log) && OnlyAddsAndLoads(log)
    ensures After(start, log) == Total(start, log)
    ensures forall k | 0 <= k < |log| :: log[k].result == Some(Total(start, log[..k]))
  {
    AfterAdds(start, log);
    forall k | 0 <= k < |log|
      ensures log[k].result == Some(Total(start, log[..k]))
    {
      AddReturnsTotal(start, log, k);
    }
  }

  lemma AddReturnsTotal(start: Cell, log: seq<Event>, k: nat)
    requires Sequential(start, log) && OnlyAddsAndLoads(log) && k < |log|
    ensures log[k].result == Some(Total(start, log[..k]))
  {
    AfterAdds(start, log[..k]);
    assert log[k].op.Add? || log[k].op.Load?;
    assert log[k].result == MutexReturn(log[k].op, After(start, log[..k]));
  }

  // ---------------------------------------------------------------- swaps, stores and single calls

  lemma {:induction false} AfterWrite(start: Cell, before: seq<Event>, e: Event, since: seq<Event>, v: Cell)
    requires (e.op == Fas(v) || e.op == Store(v)) && OnlyAddsAndLoads(since)
    ensures After(start, before + [e] + since) == Total(v, since)
  {
    var log := before + [e] + since;
    if since == [] {
      assert log[|log| - 1] == e;
    } else {
      var shorter := since[..|since| - 1];
      AfterWrite(start, before, e, shorter, v);
      assert log[..|log| - 1] == before + [e] + shorter && log[|log| - 1] == since[|since| - 1];
      OneMore(v, since);
    }
  }

  lemma OneMore(v: Cell, since: seq<Event>)
    requires since != [] && OnlyAddsAndLoads(since)
    ensures MutexCell(since[|since| - 1].op, Total(v, since[..|since| - 1])) == Total(v, since)
  {
    assert since[|since| - 1].op.Add? || since[|since| - 1].op.Load?;
  }

  lemma Around<T>(log: seq<T>, j: nat, k: nat)
    requires j < k <= |log|
    ensures log[..k] == log[..j] + [log[j]] + log[j + 1..k]
  {
  }

  lemma WriteBefore(start: Cell, log: seq<Event>, j: nat, k: nat, v: Cell)
    requires Sequential(start, log) && j < k < |log| && !log[k].op.Store?
    requires (log[j].op == Fas(v) || log[j].op == Store(v)) && OnlyAddsAndLoads(log[j + 1..k])
    ensures log[k].result == Some(Total(v, log[j + 1..k]))
  {
    Around(log, j, k);
    AfterWrite(start, log[..j], log[j], log[j + 1..k], v);
    assert log[k].result == MutexReturn(log[k].op, After(start, log[..k]));
  }

  /** Whatever returns a value returns the last one swapped in or stored, plus what was added since. */
  lemma ReturnsLastWrite(start: Cell, run: seq<State>, n: nat, j: nat, k: nat, v: Cell)
    requires IsRun(start, run) && n < |run| && j < k < |run[n].log| && !run[n].log[k].op.Store?
    requires run[n].log[j].op == Fas(v) || run[n].log[j].op == Store(v)
    requires OnlyAddsAndLoads(run[n].log[j + 1..k])
    ensures run[n].log[k].result == Some(Total(v, run[n].log[j + 1..k]))
  {
    RunsRefineMutex(start, run, n);
    WriteBefore(start, run[n].log, j, k, v);
  }

  /** A call that nobody interrupts: what it leaves in the cell and what it returns. */
  lemma SoloCall(s: State, t: nat, op: Op)
    requires s.Of(t).Idle? || s.Of(t).Returned?
    ensures Enabled(s, Call(t, op))
    ensures var s1 := Apply(s, Call(t, op));
            && (!op.Load? ==> Enabled(s1, Read(t)))
            && var s2 := if op.Load? then s1 else Apply(s1, Read(t));
               && Enabled(s2, Cas(t))
               && var s3 := Apply(s2, Cas(t));
                  && s3.Of(t).Returned?
                  && match op
                     case Add(v) => s3.cell == (s.cell + v) % MODULUS && s3.Of(t).result == Some(s.cell)
                     case Fas(v) => s3.cell == v && s3.Of(t).result == Some(s.cell)
                     case Load => s3.cell == s.cell && s3.Of(t).result == Some(s.cell)
                     case Store(v) => s3.cell == v && s3.Of(t).result == None
  {
  }
}
