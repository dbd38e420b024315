/** Before shutdown, every submitted job is executed: left to themselves the threads
    of the pool run out of steps, and then nothing is left to do. */
module ThreadPoolProgress {
  import opened Options
  import opened ThreadPool
  import opened ThreadPoolHistory

  /** Steps a worker can take before it sleeps, not counting those for a job in the
      queue. */
  function WorkerSteps(pc: Worker): nat {
    match pc
    case AtUnlock(_) => 5
    case Running(_) => 4
    case AtLock => 3
    case Woken => 3
    case AtTest => 2
    case AtCheck => 1
    case _ => 0
  }

  function WorkersSteps(workers: seq<Worker>): nat {
    if workers == [] then 0 else WorkerSteps(workers[0]) + WorkersSteps(workers[1..])
  }

  /** Steps for a submission in progress: its own, six for its job, and three for each
      of the `n` workers that its signal may wake. */
  function ClientSteps(pc: Client, n: nat): nat {
    match pc
    case Idle => 0
    case SubLock(_) => 3 * n + 10
    case SubLink(_) => 3 * n + 9
    case SubSignal => 3 * n + 2
    case SubUnlock => 1
  }

  function ClientsSteps(clients: seq<Client>, n: nat): nat {
    if clients == [] then 0 else ClientSteps(clients[0], n) + ClientsSteps(clients[1..], n)
  }

  /** Bounds the steps left before shutdown. */
  function Left(s: State): nat {
    6 * |s.queue| + WorkersSteps(s.workers) + ClientsSteps(s.clients, |s.workers|)
  }

  lemma {:induction false} WorkersStepsUpdate(workers: seq<Worker>, w: nat, pc: Worker)
    requires w < |workers|
    ensures WorkersSteps(workers[w := pc]) == WorkersSteps(workers) - WorkerSteps(workers[w]) + WorkerSteps(pc)
  {
    if w == 0 {
      assert workers[w := pc][1..] == workers[1..];
    } else {
      assert workers[w := pc][1..] == workers[1..][w - 1 := pc];
      WorkersStepsUpdate(workers[1..], w - 1, pc);
    }
  }

  lemma {:induction false} ClientsStepsUpdate(clients: seq<Client>, c: nat, pc: Client, n: nat)
    requires c < |clients|
    ensures ClientsSteps(clients[c := pc], n) ==
            ClientsSteps(clients, n) - ClientSteps(clients[c], n) + ClientSteps(pc, n)
  {
    if c == 0 {
      assert clients[c := pc][1..] == clients[1..];
    } else {
      assert clients[c := pc][1..] == clients[1..][c - 1 := pc];
      ClientsStepsUpdate(clients[1..], c - 1, pc, n);
    }
  }

  /** Waking any number of workers gives each three steps at most. */
  lemma {:induction false} WakingAddsSteps(before: seq<Worker>, after: seq<Worker>)
    requires |before| == |after|
    requires forall i | 0 <= i < |before| :: after[i] == before[i] || (before[i].Asleep? && after[i].Woken?)
    ensures WorkersSteps(after) <= WorkersSteps(before) + 3 * |before|
  {
    if before != [] {
      WakingAddsSteps(before[1..], after[1..]);
    }
  }

  /** What an action from outside adds: a submission its steps, a spurious wake-up the
      way back to sleep. */
  function Added(a: Action, n: nat): nat {
    if a.Submit? then 3 * n + 10 else if a.SpuriousWake? then 3 else 0
  }

  lemma WorkerUsesStep(s: State, w: nat)
    requires Control(s) && !s.shutdown && WorkerEnabled(s, w)
    ensures Left(WorkerNext(s, w)) < Left(s)
  {
    assert WorkerFacts(s, w);
    WorkersStepsUpdate(s.workers, w, WorkerNext(s, w).workers[w]);
  }

  lemma ClientUsesStep(s: State, c: nat, woken: set<nat>)
    requires ClientEnabled(s, c, woken)
    ensures Left(ClientNext(s, c, woken)) < Left(s)
  {
    var t := ClientNext(s, c, woken);
    ClientsStepsUpdate(s.clients, c, t.clients[c], |s.workers|);
    if s.clients[c].SubSignal? {
      WakingAddsSteps(s.workers, t.workers);
    }
  }

  /** Before shutdown every step inside the pool uses up one of those left. */
  lemma StepsRunOut(s: State, a: Action)
    requires Control(s) && s.destroyer.NotCalled? && Enabled(s, a) && !a.Destroy?
    ensures Next(s, a).destroyer.NotCalled?
    ensures Left(Next(s, a)) <= Left(s) + (if Internal(a) then -1 else Added(a, |s.workers|))
  {
    if a.WorkerStep? {
      WorkerUsesStep(s, a.w);
    } else if a.ClientStep? {
      ClientUsesStep(s, a.c, a.woken);
    } else if a.SpuriousWake? {
      WorkersStepsUpdate(s.workers, a.w, Woken);
    } else if a.Submit? {
      ClientsStepsUpdate(s.clients, a.c, SubLock(a.job), |s.workers|);
    }
  }

  function AddedAll(run: seq<Action>, n: nat): nat {
    if run == [] then 0 else
    var a := run[|run| - 1];
    AddedAll(run[..|run| - 1], n) + (if Internal(a) then 0 else 1 + Added(a, n))
  }

  /** Until destroy is called, a run is no longer than the steps left and what its
      submissions and spurious wake-ups add. */
  lemma {:induction false} RunsAreBounded(s: State, run: seq<Action>)
    requires Inv(s) && s.destroyer.NotCalled? && Exec(s, run).Some?
    requires forall a | a in run :: !a.Destroy?
    ensures var t := Exec(s, run).value;
            && Inv(t) && t.destroyer.NotCalled? && |t.workers| == |s.workers|
            && |run| + Left(t) <= Left(s) + AddedAll(run, |s.workers|)
    decreases |run|
  {
    if run != [] {
      var pre, a := run[..|run| - 1], run[|run| - 1];
      RunsAreBounded(s, pre);
      var t := Exec(s, pre).value;
      StepKeepsControl(t, a);
      StepKeepsWakeups(t, a);
      StepKeepsConservation(t, a);
      StepsRunOut(t, a);
    }
  }

  /** Every submission was dequeued, and executed exactly once. */
  ghost predicate AllExecuted(s: State) {
    && s.queue == [] && |s.takenBy| == |s.submitted|
    && forall ticket | 0 <= ticket < |s.submitted| :: ExecutedOnce(s, ticket)
  }

  /** When no thread of the pool can move, all workers sleep and nothing is left. */
  lemma StuckMeansDone(s: State)
    requires Inv(s) && s.destroyer.NotCalled? && |s.workers| > 0 && !CanProceed(s)
    ensures forall w | 0 <= w < |s.workers| :: s.workers[w].Asleep?
    ensures forall c | 0 <= c < |s.clients| :: s.clients[c].Idle?
    ensures AllExecuted(s)
  {
    if s.owner != Free {
      OwnerCanProceed(s);
    }
    forall w | 0 <= w < |s.workers|
      ensures s.workers[w].Asleep?
    {
      assert WorkerFacts(s, w);
      assert !Enabled(s, WorkerStep(w));
    }
    forall c | 0 <= c < |s.clients|
      ensures s.clients[c].Idle?
    {
      assert !Enabled(s, ClientStep(c, {}));
    }
    assert s.workers[0].Asleep?;
    if s.queue != [] {
      SeekersPositive(s.workers);
    }
    assert s.submitted[|s.takenBy|..] == [];
    forall ticket | 0 <= ticket < |s.submitted|
      ensures ExecutedOnce(s, ticket)
    {
      ExecutedExactlyOnce(s, ticket);
    }
  }

  /** From every state reached before destroy is called: however the threads of the
      pool are scheduled, they take no more than the steps left, and when they have
      taken all they can, every job that clients handed over in the run has been
      executed, exactly as often as it was handed over. */
  lemma SubmissionsAreExecuted(numThreads: nat, numClients: nat, run: seq<Action>, more: seq<Action>)
    requires numThreads > 0 && Exec(Init(numThreads, numClients), run).Some?
    requires var s := Exec(Init(numThreads, numClients), run).value;
             s.destroyer.NotCalled? && Exec(s, more).Some?
    requires forall a | a in more :: Internal(a)
    ensures var s := Exec(Init(numThreads, numClients), run).value;
            && |more| <= Left(s)
            && (!CanProceed(Exec(s, more).value) ==>
                  AllExecuted(Exec(s, more).value) && ExecutedJobs(Exec(s, more).value) == multiset(Calls(run)))
  {
    ReachableStatesAreSound(numThreads, numClients, run);
    WorkersNeverChange(numThreads, numClients, run);
    var s := Exec(Init(numThreads, numClients), run).value;
    RunsAreBounded(s, more);
    NothingAdded(more, |s.workers|);
    if !CanProceed(Exec(s, more).value) {
      StuckMeansDone(Exec(s, more).value);
      StuckMeansEveryCall(numThreads, numClients, run, more);
    }
  }

  lemma StuckMeansEveryCall(numThreads: nat, numClients: nat, run: seq<Action>, more: seq<Action>)
    requires Exec(Init(numThreads, numClients), run).Some?
    requires Exec(Exec(Init(numThreads, numClients), run).value, more).Some?
    requires forall a | a in more :: Internal(a)
    requires var t := Exec(Exec(Init(numThreads, numClients), run).value, more).value;
             && |t.takenBy| == |t.submitted| && (forall w | 0 <= w < |t.workers| :: t.workers[w].Asleep?)
             && forall c | 0 <= c < |t.clients| :: t.clients[c].Idle?
    ensures ExecutedJobs(Exec(Exec(Init(numThreads, numClients), run).value, more).value) == multiset(Calls(run))
  {
    var init := Init(numThreads, numClients);
    ExecConcat(init, run, more);
    CallsConcat(run, more);
    NoCalls(more);
    assert Calls(run + more) == Calls(run);
    ReachableStatesAreSound(numThreads, numClients, run + more);
    IdleClientsLinkedAll(numThreads, numClients, run + more);
    var t := Exec(init, run + more).value;
    ExecutedAreDequeued(t);
    assert t.submitted[..|t.takenBy|] == t.submitted;
  }

  lemma {:induction false} NothingAdded(run: seq<Action>, n: nat)
    requires forall a | a in run :: Internal(a)
    ensures AddedAll(run, n) == 0
  {
    if run != [] {
      NothingAdded(run[..|run| - 1], n);
    }
  }

  /** Such a schedule always exists. */
  lemma {:induction false} PoolCanFinish(s: State) returns (more: seq<Action>)
    requires Inv(s) && s.destroyer.NotCalled?
    ensures (forall a | a in more :: Internal(a)) && Exec(s, more).Some? && !CanProceed(Exec(s, more).value)
    decreases Left(s)
  {
    more := [];
    if a :| Internal(a) && Enabled(s, a) {
      StepsRunOut(s, a);
      StepKeepsControl(s, a);
      StepKeepsWakeups(s, a);
      StepKeepsConservation(s, a);
      var rest := PoolCanFinish(Next(s, a));
      ExecFirst(s, a, rest);
      more := [a] + rest;
    }
  }

  lemma {:induction false} ExecFirst(s: State, a: Action, rest: seq<Action>)
    requires Enabled(s, a)
    ensures Exec(s, [a] + rest) == Exec(Next(s, a), rest)
    decreases |rest|
  {
    var run := [a] + rest;
    if rest == [] {
      assert run[..0] == [];
    } else {
      assert run[..|run| - 1] == [a] + rest[..|rest| - 1];
      ExecFirst(s, a, rest[..|rest| - 1]);
    }
  }

  /** Every workload can be handed over and is executed: nothing keeps a client from
      submitting before destroy is called. */
  lemma {:induction false} WorkloadIsExecuted(numThreads: nat, numClients: nat, c: nat, jobs: seq<Job>)
    returns (run: seq<Action>)
    requires numThreads > 0 && c < numClients
    ensures Exec(Init(numThreads, numClients), run).Some? && Calls(run) == jobs
    ensures var s := Exec(Init(numThreads, numClients), run).value;
            s.destroyer.NotCalled? && !CanProceed(s) && ExecutedJobs(s) == multiset(jobs)
    decreases |jobs|
  {
    var init := Init(numThreads, numClients);
    run := [];
    if jobs != [] {
      run := WorkloadIsExecuted(numThreads, numClients, c, jobs[..|jobs| - 1]);
      run := SubmitOne(numThreads, numClients, run, c, jobs[|jobs| - 1]);
      assert jobs == jobs[..|jobs| - 1] + [jobs[|jobs| - 1]];
    }
    ReachableStatesAreSound(numThreads, numClients, run);
    var more := PoolCanFinish(Exec(init, run).value);
    SubmissionsAreExecuted(numThreads, numClients, run, more);
    RunsAreBounded(Exec(init, run).value, more);
    ExecConcat(init, run, more);
    CallsConcat(run, more);
    NoCalls(more);
    run := run + more;
  }

  /** In a pool that rests, a client can submit. */
  lemma SubmitOne(numThreads: nat, numClients: nat, run: seq<Action>, c: nat, job: Job) returns (run': seq<Action>)
    requires numThreads > 0 && c < numClients && Exec(Init(numThreads, numClients), run).Some?
    requires var s := Exec(Init(numThreads, numClients), run).value; s.destroyer.NotCalled? && !CanProceed(s)
    ensures Exec(Init(numThreads, numClients), run').Some? && Calls(run') == Calls(run) + [job]
    ensures Exec(Init(numThreads, numClients), run').value.destroyer.NotCalled?
  {
    ReachableStatesAreSound(numThreads, numClients, run);
    WorkersNeverChange(numThreads, numClients, run);
    CallsKeepTheirOrder(numThreads, numClients, run, c);
    StuckMeansDone(Exec(Init(numThreads, numClients), run).value);
    run' := run + [Submit(c, job)];
    ExecNext(Init(numThreads, numClients), run, Submit(c, job), run');
  }

  lemma ExecNext(s: State, run: seq<Action>, a: Action, run': seq<Action>)
    requires Exec(s, run).Some? && Enabled(Exec(s, run).value, a) && run' == run + [a]
    ensures Exec(s, run') == Some(Next(Exec(s, run).value, a))
    ensures Calls(run') == Calls(run) + (if a.Submit? then [a.job] else [])
  {
    assert run'[..|run|] == run;
  }

  // ---------- Under continuing load ----------

  /** The steps that workers take in a run. */
  function StepsOfWorkers(run: seq<Action>): nat {
    if run == [] then 0 else StepsOfWorkers(run[..|run| - 1]) + (if run[|run| - 1].WorkerStep? then 1 else 0)
  }

  /** The workers that were asleep before and are woken after. */
  function NewlyWoken(before: seq<Worker>, after: seq<Worker>): nat {
    if before == [] || after == [] then 0 else
    (if before[0].Asleep? && after[0].Woken? then 1 else 0) + NewlyWoken(before[1..], after[1..])
  }

  /** How often a run wakes a worker, by a signal or spuriously. */
  function WakeUps(s: State, run: seq<Action>): nat
    requires Exec(s, run).Some?
    decreases |run|
  {
    if run == [] then 0 else
    var pre := run[..|run| - 1];
    WakeUps(s, pre) + NewlyWoken(Exec(s, pre).value.workers, Exec(s, run).value.workers)
  }

  /** Each worker that is woken has three more steps, and nobody else has more. */
  lemma {:induction false} WakingPaysSteps(before: seq<Worker>, after: seq<Worker>)
    requires |before| == |after|
    requires forall i | 0 <= i < |before| :: after[i] == before[i] || (before[i].Asleep? && after[i].Woken?)
    ensures WorkersSteps(after) == WorkersSteps(before) + 3 * NewlyWoken(before, after)
  {
    if before != [] {
      WakingPaysSteps(before[1..], after[1..]);
    }
  }

  /** A worker's step is paid from those it had left, or from the six of a job it
      dequeues. */
  lemma StepIsPaid(s: State, a: Action)
    requires Control(s) && s.destroyer.NotCalled? && Enabled(s, a) && !a.Destroy?
    ensures var t := Next(s, a);
            (if a.WorkerStep? then 1 else 0) + WorkersSteps(t.workers) + 6 * |s.takenBy|
            <= WorkersSteps(s.workers) + 6 * |t.takenBy| + 3 * NewlyWoken(s.workers, t.workers)
  {
    var t := Next(s, a);
    if a.WorkerStep? {
      assert WorkerFacts(s, a.w);
      WorkersStepsUpdate(s.workers, a.w, t.workers[a.w]);
    } else {
      WakingPaysSteps(s.workers, t.workers);
    }
  }

  lemma {:induction false} StepsArePaid(s: State, run: seq<Action>)
    requires Inv(s) && s.destroyer.NotCalled? && Exec(s, run).Some? && forall a | a in run :: !a.Destroy?
    ensures var t := Exec(s, run).value;
            StepsOfWorkers(run) + WorkersSteps(t.workers) + 6 * |s.takenBy|
            <= WorkersSteps(s.workers) + 6 * |t.takenBy| + 3 * WakeUps(s, run)
    decreases |run|
  {
    if run != [] {
      var pre, a := run[..|run| - 1], run[|run| - 1];
      StepsArePaid(s, pre);
      RunsAreBounded(s, pre);
      StepIsPaid(Exec(s, pre).value, a);
    }
  }

  lemma {:induction false} StepsAtStart(workers: seq<Worker>)
    requires forall w | 0 <= w < |workers| :: workers[w].AtLock?
    ensures WorkersSteps(workers) == 3 * |workers|
  {
    if workers != [] {
      StepsAtStart(workers[1..]);
    }
  }

  /** Whoever else goes on submitting: a ticket is dequeued at the latest when the
      workers have taken three steps each, six for every ticket before it, three for
      every wake-up, and one more. */
  lemma TicketIsDequeued(numThreads: nat, numClients: nat, run: seq<Action>, ticket: nat)
    requires Exec(Init(numThreads, numClients), run).Some? && forall a | a in run :: !a.Destroy?
    requires StepsOfWorkers(run) > 3 * numThreads + 6 * ticket + 3 * WakeUps(Init(numThreads, numClients), run)
    ensures var s := Exec(Init(numThreads, numClients), run).value;
            ticket < |s.takenBy| <= |s.submitted|
  {
    var init := Init(numThreads, numClients);
    assert Exec(init, []) == Some(init);
    ReachableStatesAreSound(numThreads, numClients, []);
    ReachableStatesAreSound(numThreads, numClients, run);
    StepsArePaid(init, run);
    StepsAtStart(init.workers);
  }
}
