/** The worker-thread pool. Every critical section of the mutex is one step; a step is taken by any thread that
can take it, so a run is any sequence of steps. */
module ThreadPools {
  import opened Results

  /** Tasks are told apart by number. */
  type Task = nat

  /** `Ready` workers are about to lock the mutex: they start, have just finished a task, or were woken. */
  datatype Worker = Ready | Sleeping | Working(task: Task) | Exited

  /** `posted` and `started` record the accepted posts and the dequeued tasks in order. */
  datatype State = State(running: bool, queue: seq<Task>, workers: seq<Worker>, posted: seq<Task>, started: seq<Task>)

  datatype Step =
    | Check(w: nat)                  // lock, then sleep, take a task or leave
    | Finish(w: nat)                 // the task returns or throws
    | Wake(w: nat)                   // spurious wakeup
    | Post(task: Task, wakes: nat)   // lock, push, notify one
    | Shutdown

  ghost predicate Init(s: State, threads: nat) {
    s == State(true, [], seq(threads, _ => Ready), [], [])
  }

  ghost function CountOf(workers: seq<Worker>, kind: Worker): (n: nat)
    ensures n <= |workers|
  {
    if workers == [] then 0 else
      CountOf(workers[..|workers| - 1], kind) + if workers[|workers| - 1] == kind then 1 else 0
  }

  predicate SomeoneSleeps(workers: seq<Worker>) {
    exists w :: 0 <= w < |workers| && workers[w] == Sleeping
  }

  /** When a thread may take a step. `notify_one` picks any sleeping worker, if there is one. */
  predicate Enabled(s: State, step: Step) {
    match step
    case Check(w) => w < |s.workers| && s.workers[w] == Ready
    case Finish(w) => w < |s.workers| && s.workers[w].Working?
    case Wake(w) => w < |s.workers| && s.workers[w] == Sleeping
    case Post(_, wakes) => s.running && SomeoneSleeps(s.workers) ==> wakes < |s.workers| && s.workers[wakes] == Sleeping
    case Shutdown => true
  }

  function WakeAll(workers: seq<Worker>): (r: seq<Worker>)
    ensures |r| == |workers| && forall w | 0 <= w < |r| :: r[w] == if workers[w] == Sleeping then Ready else workers[w]
  {
    seq(|workers|, w requires 0 <= w < |workers| => if workers[w] == Sleeping then Ready else workers[w])
  }

  function Apply(s: State, step: Step): (t: State)
    requires Enabled(s, step)
  {
    match step
    case Check(w) =>
      if !s.running then s.(workers := s.workers[w := Exited])
      else if s.queue == [] then s.(workers := s.workers[w := Sleeping])
      else s.(workers := s.workers[w := Working(s.queue[0])], queue := s.queue[1..], started := s.started + [s.queue[0]])
    case Finish(w) => s.(workers := s.workers[w := Ready])
    case Wake(w) => s.(workers := s.workers[w := Ready])
    case Post(task, wakes) =>
      if !s.running then s
      else s.(queue := s.queue + [task], posted := s.posted + [task],
              workers := if SomeoneSleeps(s.workers) then s.workers[wakes := Ready] else s.workers)
    case Shutdown => s.(running := false, workers := WakeAll(s.workers))
  }

  ghost predicate Takes(s: State, step: Step, t: State) {
    Enabled(s, step) && t == Apply(s, step)
  }

  ghost predicate Next(s: State, t: State) {
    exists step :: Takes(s, step, t)
  }

  ghost predicate Run(states: seq<State>, threads: nat) {
    && states != [] && Init(states[0], threads)
    && forall i, j | 0 <= i && j == i + 1 && j < |states| :: Next(states[i], states[j])
  }

  // ---------------------------------------------------------------- what every state keeps

  ghost predicate Invariant(s: State) {
    // first in, first out, nothing lost and nothing twice
    && s.started + s.queue == s.posted
    // no lost wakeup
    && (s.running && CountOf(s.workers, Sleeping) > 0 ==> |s.queue| <= CountOf(s.workers, Ready))
    // after shutdown nobody sleeps
    && (!s.running ==> CountOf(s.workers, Sleeping) == 0)
    // workers leave only after shutdown
    && (s.running ==> CountOf(s.workers, Exited) == 0)
  }

  lemma {:induction false} CountUpdate(workers: seq<Worker>, w: nat, to: Worker, kind: Worker)
    requires w < |workers|
    ensures CountOf(workers[w := to], kind) ==
            CountOf(workers, kind) - (if workers[w] == kind then 1 else 0) + if to == kind then 1 else 0
  {
    var l := |workers| - 1;
    if w < l {
      CountUpdate(workers[..l], w, to, kind);
      assert workers[w := to][..l] == workers[..l][w := to];
    } else {
      assert workers[w := to][..l] == workers[..l];
    }
  }

  lemma {:induction false} CountZero(workers: seq<Worker>, kind: Worker)
    ensures CountOf(workers, kind) == 0 <==> forall w | 0 <= w < |workers| :: workers[w] != kind
  {
    if workers != [] {
      CountZero(workers[..|workers| - 1], kind);
    }
  }

  lemma InitKeeps(s: State, threads: nat)
    requires Init(s, threads)
    ensures Invariant(s)
  {
    CountZero(s.workers, Sleeping);
    CountZero(s.workers, Exited);
  }

  lemma UpdateCounts(workers: seq<Worker>, w: nat, to: Worker)
    requires w < |workers|
    ensures forall kind ::
              CountOf(workers[w := to], kind) ==
              CountOf(workers, kind) - (if workers[w] == kind then 1 else 0) + if to == kind then 1 else 0
  {
    forall kind
      ensures CountOf(workers[w := to], kind) ==
              CountOf(workers, kind) - (if workers[w] == kind then 1 else 0) + if to == kind then 1 else 0
    {
      CountUpdate(workers, w, to, kind);
    }
  }

  /** Every step keeps the invariant. */
  lemma StepKeeps(s: State, step: Step)
    requires Invariant(s) && Enabled(s, step)
    ensures Invariant(Apply(s, step))
  {
    match step
    case Check(w) =>
      CheckKeeps(s, w);
    case Finish(w) =>
      UpdateCounts(s.workers, w, Ready);
    case Wake(w) =>
      UpdateCounts(s.workers, w, Ready);
    case Post(task, wakes) =>
      if s.running {
        CountZero(s.workers, Sleeping);
        if SomeoneSleeps(s.workers) {
          UpdateCounts(s.workers, wakes, Ready);
        }
        assert s.started + (s.queue + [task]) == s.started + s.queue + [task];
      }
    case Shutdown =>
      CountZero(WakeAll(s.workers), Sleeping);
  }

  lemma CheckKeeps(s: State, w: nat)
    requires Invariant(s) && w < |s.workers| && s.workers[w] == Ready
    ensures Invariant(Apply(s, Check(w)))
  {
    if !s.running {
      UpdateCounts(s.workers, w, Exited);
    } else if s.queue == [] {
      UpdateCounts(s.workers, w, Sleeping);
    } else {
      UpdateCounts(s.workers, w, Working(s.queue[0]));
      assert s.started + [s.queue[0]] + s.queue[1..] == s.started + s.queue;
    }
  }

  /** Hence every state of every run has it. */
  lemma {:induction false} RunKeeps(states: seq<State>, threads: nat, i: nat)
    requires Run(states, threads) && i < |states|
    ensures Invariant(states[i])
  {
    if i == 0 {
      InitKeeps(states[0], threads);
    } else {
      RunKeeps(states, threads, i - 1);
      assert Next(states[i - 1], states[i]);
      var step :| Takes(states[i - 1], step, states[i]);
      StepKeeps(states[i - 1], step);
    }
  }

  /** Started tasks are a prefix of the accepted posts, in order: each is taken at most once, none out of turn. */
  lemma FirstInFirstOut(states: seq<State>, threads: nat, i: nat)
    requires Run(states, threads) && i < |states|
    ensures states[i].started <= states[i].posted && states[i].queue == states[i].posted[|states[i].started|..]
  {
    RunKeeps(states, threads, i);
  }

  /** While the pool runs, a waiting task never meets only sleeping workers. */
  lemma NeverStuck(states: seq<State>, threads: nat, i: nat)
    requires Run(states, threads) && i < |states| && threads > 0
    ensures |states[i].workers| == threads
    ensures states[i].running && states[i].queue != [] ==>
              exists w :: 0 <= w < threads && (states[i].workers[w] == Ready || states[i].workers[w].Working?)
  {
    var s := states[i];
    RunKeeps(states, threads, i);
    SameThreads(states, threads, i);
    CountZero(s.workers, Sleeping);
    CountZero(s.workers, Ready);
    CountZero(s.workers, Exited);
    if s.running && s.queue != [] && s.workers[0] == Sleeping {
      assert CountOf(s.workers, Ready) > 0;
    }
  }

  lemma {:induction false} SameThreads(states: seq<State>, threads: nat, i: nat)
    requires Run(states, threads) && i < |states|
    ensures |states[i].workers| == threads
  {
    if i > 0 {
      SameThreads(states, threads, i - 1);
      assert Next(states[i - 1], states[i]);
    }
  }

  /** Once shut down the pool never runs again, starts nothing and accepts nothing. */
  lemma {:induction false} NothingAfterShutdown(states: seq<State>, threads: nat, i: nat, j: nat)
    requires Run(states, threads) && i <= j < |states| && !states[i].running
    ensures !states[j].running && states[j].started == states[i].started && states[j].posted == states[i].posted && states[j].queue == states[i].queue
    decreases j
  {
    if i < j {
      NothingAfterShutdown(states, threads, i, j - 1);
      assert Next(states[j - 1], states[j]);
    }
  }

  /** A worker that wakes with nothing to do goes back to sleep, and nothing has changed. */
  lemma WakeRechecks(s: State, w: nat)
    requires s.running && s.queue == [] && Enabled(s, Wake(w))
    ensures Enabled(Apply(s, Wake(w)), Check(w)) && Apply(Apply(s, Wake(w)), Check(w)) == s
  {
    assert s.workers[w := Ready][w := Sleeping] == s.workers;
  }

  // ---------------------------------------------------------------- what a run does with its posts

  /** The states that a list of steps leads through. */
  ghost predicate Path(states: seq<State>, steps: seq<Step>, threads: nat) {
    && |states| == |steps| + 1 && Init(states[0], threads)
    && forall i, j | 0 <= i < |steps| && j == i + 1 :: Takes(states[i], steps[i], states[j])
  }

  lemma PathIsRun(states: seq<State>, steps: seq<Step>, threads: nat)
    requires Path(states, steps, threads)
    ensures Run(states, threads)
  {
    forall i, j | 0 <= i && j == i + 1 && j < |states|
      ensures Next(states[i], states[j])
    {
      assert Takes(states[i], steps[i], states[j]);
    }
  }

  /** Every run takes some list of steps. */
  lemma {:induction false} RunHasSteps(states: seq<State>, threads: nat) returns (steps: seq<Step>)
    requires Run(states, threads)
    ensures Path(states, steps, threads)
  {
    if |states| == 1 {
      steps := [];
    } else {
      var l := |states| - 1;
      var before := RunHasSteps(states[..l], threads);
      assert Next(states[l - 1], states[l]);
      var step :| Takes(states[l - 1], step, states[l]);
      steps := before + [step];
      forall i, j | 0 <= i < |steps| && j == i + 1
        ensures Takes(states[i], steps[i], states[j])
      {
        if i < l - 1 {
          assert Takes(states[..l][i], before[i], states[..l][j]);
        }
      }
    }
  }

  /** The tasks of the posts that come before the first shutdown, in order. */
  ghost function Accepted(steps: seq<Step>): seq<Task> {
    if steps == [] then [] else
      var (before, last) := (steps[..|steps| - 1], steps[|steps| - 1]);
      Accepted(before) + if last.Post? && Shutdown !in before then [last.task] else []
  }

  lemma PathBefore(states: seq<State>, steps: seq<Step>, threads: nat)
    requires Path(states, steps, threads) && steps != []
    ensures Path(states[..|steps|], steps[..|steps| - 1], threads)
    ensures Takes(states[|steps| - 1], steps[|steps| - 1], states[|steps|])
  {
    var before, first := states[..|steps|], steps[..|steps| - 1];
    forall i, j | 0 <= i < |first| && j == i + 1
      ensures Takes(before[i], first[i], before[j])
    {
      assert Takes(states[i], steps[i], states[j]);
    }
  }

  lemma AcceptedNext(s: State, steps: seq<Step>, step: Step, t: State)
    requires Takes(s, step, t) && s.posted == Accepted(steps) && (s.running <==> Shutdown !in steps)
    ensures t.posted == Accepted(steps + [step]) && (t.running <==> Shutdown !in steps + [step])
  {
    assert (steps + [step])[..|steps|] == steps;
  }

  /** The accepted posts of a run are exactly the posts before the first shutdown; each of them has been started or waits. */
  lemma {:induction false} PostsAreKept(states: seq<State>, steps: seq<Step>, threads: nat)
    requires Path(states, steps, threads)
    ensures var s := states[|steps|];
            && s.posted == Accepted(steps) && s.started + s.queue == Accepted(steps)
            && (s.running <==> Shutdown !in steps)
  {
    PathIsRun(states, steps, threads);
    RunKeeps(states, threads, |steps|);
    if steps != [] {
      var l := |steps| - 1;
      PathBefore(states, steps, threads);
      PostsAreKept(states[..l + 1], steps[..l], threads);
      AcceptedNext(states[l], steps[..l], steps[l], states[l + 1]);
      assert steps == steps[..l] + [steps[l]];
    }
  }

  /** While a task waits and a worker is ready, that worker may start the oldest task, and does so when it takes the mutex. */
  lemma OldestIsStarted(states: seq<State>, steps: seq<Step>, threads: nat, w: nat)
    requires Path(states, steps, threads)
    requires var s := states[|steps|]; s.running && s.queue != [] && w < |s.workers| && s.workers[w] == Ready
    ensures var s := states[|steps|];
            && Enabled(s, Check(w)) && |s.started| < |Accepted(steps)|
            && var t := Apply(s, Check(w));
               && t.workers == s.workers[w := Working(Accepted(steps)[|s.started|])]
               && t.started == Accepted(steps)[..|s.started| + 1] && t.started + t.queue == Accepted(steps) && t.running
  {
    PostsAreKept(states, steps, threads);
    var s := states[|steps|];
    assert Accepted(steps)[|s.started|] == s.queue[0];
    assert s.started + [s.queue[0]] + s.queue[1..] == s.started + s.queue;
  }

  // ---------------------------------------------------------------- the join after shutdown ends

  /** How many more steps the workers can take once the pool is down. */
  ghost function Left(workers: seq<Worker>): nat {
    if workers == [] then 0 else
      Left(workers[..|workers| - 1]) +
      match workers[|workers| - 1]
      case Exited => 0
      case Ready => 1
      case Working(_) => 2
      case Sleeping => 2
  }

  lemma {:induction false} LeftDrops(workers: seq<Worker>, w: nat, to: Worker)
    requires w < |workers|
    requires (workers[w] == Ready && to == Exited) || (workers[w].Working? && to == Ready) || (workers[w] == Sleeping && to == Ready)
    ensures Left(workers[w := to]) < Left(workers)
  {
    var l := |workers| - 1;
    if w < l {
      LeftDrops(workers[..l], w, to);
      assert workers[w := to][..l] == workers[..l][w := to];
    } else {
      assert workers[w := to][..l] == workers[..l];
    }
  }

  lemma {:induction false} NoneLeft(workers: seq<Worker>)
    ensures Left(workers) == 0 <==> forall w | 0 <= w < |workers| :: workers[w] == Exited
  {
    if workers != [] {
      NoneLeft(workers[..|workers| - 1]);
    }
  }

  /** After shutdown each worker step uses up the rest, and while anything is left some worker can step: all exit. */
  lemma JoinEnds(s: State)
    requires Invariant(s) && !s.running
    ensures forall w: nat | w < |s.workers| && s.workers[w] != Exited :: Enabled(s, Check(w)) || Enabled(s, Finish(w))
    ensures forall w: nat | Enabled(s, Check(w)) :: Left(Apply(s, Check(w)).workers) < Left(s.workers)
    ensures forall w: nat | Enabled(s, Finish(w)) :: Left(Apply(s, Finish(w)).workers) < Left(s.workers)
    ensures Left(s.workers) == 0 <==> forall w | 0 <= w < |s.workers| :: s.workers[w] == Exited
  {
    CountZero(s.workers, Sleeping);
    NoneLeft(s.workers);
    forall w: nat | Enabled(s, Check(w))
      ensures Left(Apply(s, Check(w)).workers) < Left(s.workers)
    {
      LeftDrops(s.workers, w, Exited);
    }
    forall w: nat | Enabled(s, Finish(w))
      ensures Left(Apply(s, Finish(w)).workers) < Left(s.workers)
    {
      LeftDrops(s.workers, w, Ready);
    }
  }

  /** Once the pool is down, posting and shutting down again change nothing, nobody is left to wake, and every other step
  uses up the rest. */
  lemma StepAfterShutdown(s: State, step: Step)
    requires Invariant(s) && !s.running && Enabled(s, step)
    ensures step.Post? || step.Shutdown? ==> Apply(s, step) == s
    ensures !step.Wake? && (step.Check? || step.Finish? ==> Left(Apply(s, step).workers) < Left(s.workers))
  {
    CountZero(s.workers, Sleeping);
    JoinEnds(s);
    if step.Shutdown? {
      assert WakeAll(s.workers) == s.workers;
    }
  }

  /** How many steps between states `i` and `j` change anything. */
  ghost function Moves(states: seq<State>, i: nat, j: nat): nat
    requires i <= j < |states|
  {
    if i == j then 0 else Moves(states, i, j - 1) + if states[j] != states[j - 1] then 1 else 0
  }

  lemma {:induction false} LeftAtMost(workers: seq<Worker>)
    ensures Left(workers) <= 2 * |workers|
  {
    if workers != [] {
      LeftAtMost(workers[..|workers| - 1]);
    }
  }

  lemma MoveUsesUp(s: State, t: State)
    requires Invariant(s) && !s.running && Next(s, t)
    ensures t != s ==> Left(t.workers) < Left(s.workers)
  {
    var step :| Takes(s, step, t);
    StepAfterShutdown(s, step);
  }

  lemma {:induction false} MovesLeft(states: seq<State>, threads: nat, i: nat, j: nat)
    requires Run(states, threads) && i <= j < |states| && !states[i].running
    ensures Moves(states, i, j) + Left(states[j].workers) <= Left(states[i].workers)
    decreases j
  {
    if i < j {
      MovesLeft(states, threads, i, j - 1);
      NothingAfterShutdown(states, threads, i, j - 1);
      RunKeeps(states, threads, j - 1);
      MoveUsesUp(states[j - 1], states[j]);
    }
  }

  /** After shutdown a run makes at most two moves per thread, whatever is still posted; and where no worker can move, all
  have left. */
  lemma JoinRun(states: seq<State>, threads: nat, i: nat, j: nat)
    requires Run(states, threads) && i <= j < |states| && !states[i].running
    ensures Moves(states, i, j) + Left(states[j].workers) <= 2 * threads
    ensures (forall w: nat :: !Enabled(states[j], Check(w)) && !Enabled(states[j], Finish(w))) <==>
            states[j].workers == seq(threads, _ => Exited)
  {
    MovesLeft(states, threads, i, j);
    SameThreads(states, threads, i);
    LeftAtMost(states[i].workers);
    SameThreads(states, threads, j);
    NothingAfterShutdown(states, threads, i, j);
    RunKeeps(states, threads, j);
    JoinEnds(states[j]);
  }

  // ---------------------------------------------------------------- the critical sections as code

  class ThreadPool {
    var workQueue: seq<Task>
    var running: bool
    var workers: seq<Worker>
    ghost var posted: seq<Task>
    ghost var started: seq<Task>

    ghost function View(): State
      reads this
    {
      State(running, workQueue, workers, posted, started)
    }

    constructor (threads: nat)
      requires threads > 0
      ensures Init(View(), threads)
    {
      workQueue, running, posted, started := [], true, [], [];
      workers := seq(threads, _ => Ready);
    }

    /** One pass of a worker through its critical section. */
    method ThreadStep(w: nat) returns (work: Option<Task>)
      requires Enabled(View(), Check(w))
      modifies this
      ensures View() == Apply(old(View()), Check(w))
      ensures running == old(running) && posted == old(posted)
      ensures old(running) && old(workQueue) != [] ==>
                && workQueue == old(workQueue)[1..] && started == old(started) + [old(workQueue)[0]]
                && workers == old(workers)[w := Working(old(workQueue)[0])]
      ensures !old(running) || old(workQueue) == [] ==>
                && workQueue == old(workQueue) && started == old(started)
                && workers == old(workers)[w := if old(running) then Sleeping else Exited]
      ensures work == if old(running) && old(workQueue) != [] then Some(old(workQueue)[0]) else None
    {
      work := None;
      if running && workQueue == [] {
        workers := workers[w := Sleeping];
        return;
      }
      if !running {
        workers := workers[w := Exited];
        return;
      }
      work := Some(workQueue[0]);
      workers := workers[w := Working(workQueue[0])];
      started := started + [workQueue[0]];
      workQueue := workQueue[1..];
    }

    method TaskDone(w: nat)
      requires Enabled(View(), Finish(w))
      modifies this
      ensures View() == Apply(old(View()), Finish(w))
      ensures workers == old(workers)[w := Ready] && unchanged(`workQueue, `running, `posted, `started)
    {
      workers := workers[w := Ready];
    }

    /** `wakes` is the worker that `notify_one` picks. */
    method PostTask(task: Task, wakes: nat) returns (r: Result<()>)
      requires Enabled(View(), Post(task, wakes))
      modifies this
      ensures View() == Apply(old(View()), Post(task, wakes))
      ensures unchanged(`running, `started)
      ensures !old(running) ==> r.Failure? && unchanged(this)
      ensures old(running) ==> r.Success? && workQueue == old(workQueue) + [task] && posted == old(posted) + [task]
      ensures old(running) ==> workers == if SomeoneSleeps(old(workers)) then old(workers)[wakes := Ready] else old(workers)
    {
      if !running {
        return Failure("service shut down");
      }
      workQueue := workQueue + [task];
      posted := posted + [task];
      if SomeoneSleeps(workers) {
        workers := workers[wakes := Ready];
      }
      r := Success(());
    }

    method ShutDown()
      modifies this
      ensures View() == Apply(old(View()), Shutdown)
      ensures !running && unchanged(`workQueue, `posted, `started) && |workers| == |old(workers)|
      ensures forall w | 0 <= w < |workers| :: workers[w] == if old(workers)[w] == Sleeping then Ready else old(workers)[w]
    {
      running := false;
      workers := WakeAll(workers);
    }
  }

  method MakeThreadPool(threads: int) returns (r: Result<ThreadPool>)
    ensures r.Failure? <==> threads < 1
    ensures r.Success? ==> fresh(r.value) && Init(r.value.View(), threads)
  {
    if threads < 1 {
      return Failure("Number of threads must be positive");
    }
    var pool := new ThreadPool(threads);
    r := Success(pool);
  }
}
