/** The thread pool from outside: what becomes of the jobs that clients hand over. The
    calls are read off a run's actions, not off what the pool records. */
module ThreadPoolHistory {
  import opened Options
  import opened ThreadPool

  /** The jobs that clients called `thread_pool_submit` with, in the order of the
      calls. */
  function Calls(run: seq<Action>): seq<Job> {
    if run == [] then [] else
    var a := run[|run| - 1];
    Calls(run[..|run| - 1]) + (if a.Submit? then [a.job] else [])
  }

  /** Those of one client. */
  function CallsOf(run: seq<Action>, c: nat): seq<Job> {
    if run == [] then [] else
    var a := run[|run| - 1];
    CallsOf(run[..|run| - 1], c) + (if a.Submit? && a.c == c then [a.job] else [])
  }

  /** The job of a call that has not linked it yet. */
  function Waiting(pc: Client): seq<Job> {
    match pc
    case SubLock(job) => [job]
    case SubLink(job) => [job]
    case _ => []
  }

  /** How many calls have not linked this job yet. */
  function WaitingWith(clients: seq<Client>, job: Job): nat {
    if clients == [] then 0 else
    (if Waiting(clients[0]) == [job] then 1 else 0) + WaitingWith(clients[1..], job)
  }

  /** How often a job is among these. */
  function Times(jobs: seq<Job>, job: Job): nat {
    multiset(jobs)[job]
  }

  /** What the steps of client `c` added to the submissions. */
  function LinkedBy(s: State, run: seq<Action>, c: nat): seq<Job>
    requires Exec(s, run).Some?
    decreases |run|
  {
    if run == [] then [] else
    var pre, a := run[..|run| - 1], run[|run| - 1];
    var before, after := Exec(s, pre).value.submitted, Exec(s, run).value.submitted;
    LinkedBy(s, pre, c) +
    (if a.ClientStep? && a.c == c && |before| <= |after| then after[|before|..] else [])
  }

  lemma {:induction false} WaitingUpdate(clients: seq<Client>, c: nat, pc: Client, job: Job)
    requires c < |clients|
    ensures WaitingWith(clients[c := pc], job) + (if Waiting(clients[c]) == [job] then 1 else 0)
            == WaitingWith(clients, job) + (if Waiting(pc) == [job] then 1 else 0)
  {
    if c == 0 {
      assert clients[c := pc][1..] == clients[1..];
    } else {
      assert clients[c := pc][1..] == clients[1..][c - 1 := pc];
      WaitingUpdate(clients[1..], c - 1, pc, job);
    }
  }

  lemma {:induction false} NobodyWaits(clients: seq<Client>, job: Job)
    requires forall c | 0 <= c < |clients| :: clients[c].Idle?
    ensures WaitingWith(clients, job) == 0
  {
    if clients != [] {
      NobodyWaits(clients[1..], job);
    }
  }

  /** Submissions are only added to, one at a time, by clients. */
  lemma SubmissionsOnlyGrow(s: State, a: Action)
    requires Enabled(s, a)
    ensures s.submitted <= Next(s, a).submitted && |Next(s, a).submitted| <= |s.submitted| + 1
    ensures Next(s, a).submitted != s.submitted ==> a.ClientStep?
  {
  }

  /** One step: a call's job waits, and then is linked once. */
  lemma StepKeepsCalls(s: State, a: Action, job: Job)
    requires Enabled(s, a)
    ensures var t := Next(s, a);
            Times(t.submitted, job) + WaitingWith(t.clients, job)
            == Times(s.submitted, job) + WaitingWith(s.clients, job) + (if a.Submit? && a.job == job then 1 else 0)
  {
    if a.Submit? {
      WaitingUpdate(s.clients, a.c, SubLock(a.job), job);
    } else if a.ClientStep? {
      ClientKeepsCalls(s, a.c, a.woken, job);
    } else {
      OthersLeaveCalls(s, a);
    }
  }

  lemma OthersLeaveCalls(s: State, a: Action)
    requires Enabled(s, a) && !a.ClientStep? && !a.Submit?
    ensures Next(s, a).submitted == s.submitted && Next(s, a).clients == s.clients
  {
  }

  lemma ClientKeepsCalls(s: State, c: nat, woken: set<nat>, job: Job)
    requires ClientEnabled(s, c, woken)
    ensures var t := ClientNext(s, c, woken);
            Times(t.submitted, job) + WaitingWith(t.clients, job)
            == Times(s.submitted, job) + WaitingWith(s.clients, job)
  {
    var t := ClientNext(s, c, woken);
    WaitingUpdate(s.clients, c, t.clients[c], job);
    if s.clients[c].SubLink? {
      TimesNext(s.submitted, s.clients[c].job, job);
    }
  }

  lemma TimesNext(jobs: seq<Job>, next: Job, job: Job)
    ensures Times(jobs + [next], job) == Times(jobs, job) + (if [next] == [job] then 1 else 0)
  {
    assert [next] == [job] <==> next == job;
  }

  /** Every job that was handed over has been linked, once for each call, or its call
      is still about to link it. */
  lemma {:induction false} CallsAreLinked(numThreads: nat, numClients: nat, run: seq<Action>, job: Job)
    requires Exec(Init(numThreads, numClients), run).Some?
    ensures var s := Exec(Init(numThreads, numClients), run).value;
            Times(Calls(run), job) == Times(s.submitted, job) + WaitingWith(s.clients, job)
    decreases |run|
  {
    if run == [] {
      NobodyWaits(Init(numThreads, numClients).clients, job);
    } else {
      var pre, a := run[..|run| - 1], run[|run| - 1];
      CallsAreLinked(numThreads, numClients, pre, job);
      StepKeepsCalls(Exec(Init(numThreads, numClients), pre).value, a, job);
    }
  }

  /** Each client's jobs are linked in the order of its calls. */
  lemma {:induction false} CallsKeepTheirOrder(numThreads: nat, numClients: nat, run: seq<Action>, c: nat)
    requires Exec(Init(numThreads, numClients), run).Some? && c < numClients
    ensures var s := Exec(Init(numThreads, numClients), run).value;
            |s.clients| == numClients &&
            CallsOf(run, c) == LinkedBy(Init(numThreads, numClients), run, c) + Waiting(s.clients[c])
    decreases |run|
  {
    if run != [] {
      var pre, a := run[..|run| - 1], run[|run| - 1];
      CallsKeepTheirOrder(numThreads, numClients, pre, c);
      var s := Exec(Init(numThreads, numClients), pre).value;
      StepKeepsOrder(s, a, c);
    }
  }

  lemma StepKeepsOrder(s: State, a: Action, c: nat)
    requires Enabled(s, a) && c < |s.clients|
    ensures var t := Next(s, a);
            && |t.clients| == |s.clients| && s.submitted <= t.submitted
            && Waiting(s.clients[c]) + (if a.Submit? && a.c == c then [a.job] else [])
               == (if a.ClientStep? && a.c == c then t.submitted[|s.submitted|..] else []) + Waiting(t.clients[c])
  {
    if a.ClientStep? {
      ClientKeepsOrder(s, a.c, a.woken);
    } else if !a.Submit? {
      OthersLeaveCalls(s, a);
    }
  }

  lemma ClientKeepsOrder(s: State, c: nat, woken: set<nat>)
    requires ClientEnabled(s, c, woken)
    ensures var t := ClientNext(s, c, woken);
            && |t.clients| == |s.clients| && s.submitted <= t.submitted
            && Waiting(s.clients[c]) == t.submitted[|s.submitted|..] + Waiting(t.clients[c])
            && forall d | 0 <= d < |s.clients| && d != c :: t.clients[d] == s.clients[d]
  {
  }

  // ---------- Execution ----------

  function JobsOf(items: seq<Item>): (jobs: seq<Job>)
    ensures |jobs| == |items| && forall i | 0 <= i < |items| :: jobs[i] == items[i].job
  {
    seq(|items|, i requires 0 <= i < |items| => items[i].job)
  }

  function ExecutedItems(s: State): (items: seq<Item>)
    ensures |items| == |s.executed| && forall i | 0 <= i < |items| :: items[i] == s.executed[i].item
  {
    seq(|s.executed|, i requires 0 <= i < |s.executed| => s.executed[i].item)
  }

  /** The jobs that were executed, as often as they were. */
  function ExecutedJobs(s: State): multiset<Job> {
    multiset(JobsOf(ExecutedItems(s)))
  }

  /** The items carry each ticket of these jobs once. */
  predicate Tickets(items: seq<Item>, jobs: seq<Job>) {
    && (forall i | 0 <= i < |items| :: items[i].ticket < |jobs| && items[i].job == jobs[items[i].ticket])
    && (forall i, j | 0 <= i < j < |items| :: items[i].ticket != items[j].ticket)
    && (forall t | 0 <= t < |jobs| :: HasTicket(items, t))
  }

  predicate HasTicket(items: seq<Item>, ticket: nat) {
    exists i | 0 <= i < |items| :: items[i].ticket == ticket
  }

  lemma {:induction false} TicketsPermute(items: seq<Item>, jobs: seq<Job>)
    requires Tickets(items, jobs)
    ensures multiset(JobsOf(items)) == multiset(jobs)
    decreases |jobs|
  {
    if jobs == [] {
      assert items == [];
    } else {
      var n := |jobs| - 1;
      assert HasTicket(items, n);
      var i :| 0 <= i < |items| && items[i].ticket == n;
      TicketsWithout(items, jobs, i);
      TicketsPermute(items[..i] + items[i + 1..], jobs[..n]);
      JobsTakenOut(items, i);
      TakenOut(jobs, n);
      assert jobs[..n] + jobs[n + 1..] == jobs[..n];
    }
  }

  lemma JobsTakenOut(items: seq<Item>, i: nat)
    requires i < |items|
    ensures multiset(JobsOf(items)) == multiset(JobsOf(items[..i] + items[i + 1..])) + multiset{items[i].job}
  {
    assert JobsOf(items[..i] + items[i + 1..]) == JobsOf(items)[..i] + JobsOf(items)[i + 1..];
    TakenOut(JobsOf(items), i);
  }

  lemma TakenOut(jobs: seq<Job>, i: nat)
    requires i < |jobs|
    ensures multiset(jobs) == multiset(jobs[..i] + jobs[i + 1..]) + multiset{jobs[i]}
  {
    assert jobs == jobs[..i] + [jobs[i]] + jobs[i + 1..];
  }

  lemma TicketsWithout(items: seq<Item>, jobs: seq<Job>, i: nat)
    requires Tickets(items, jobs) && i < |items| && items[i].ticket == |jobs| - 1
    ensures Tickets(items[..i] + items[i + 1..], jobs[..|jobs| - 1])
  {
    var n, rest := |jobs| - 1, items[..i] + items[i + 1..];
    forall k | 0 <= k < |rest|
      ensures rest[k].ticket < n
    {
      assert rest[k] == items[if k < i then k else k + 1];
    }
    forall t | 0 <= t < n
      ensures HasTicket(rest, t)
    {
      assert HasTicket(items, t);
      var k :| 0 <= k < |items| && items[k].ticket == t;
      assert rest[if k < i then k else k - 1].ticket == t;
    }
  }

  /** Once no worker holds a job, the jobs executed are the jobs dequeued. */
  lemma ExecutedAreDequeued(s: State)
    requires Inv(s) && forall w | 0 <= w < |s.workers| :: HeldItem(s.workers[w]) == None
    ensures ExecutedJobs(s) == multiset(s.submitted[..|s.takenBy|])
  {
    var items, jobs := ExecutedItems(s), s.submitted[..|s.takenBy|];
    forall i | 0 <= i < |items|
      ensures items[i].ticket < |jobs| && items[i].job == jobs[items[i].ticket]
    {
      assert TakenBy(s, s.executed[i].worker, s.executed[i].item);
    }
    forall t | 0 <= t < |jobs|
      ensures HasTicket(items, t)
    {
      assert ExecutedTicket(s, t);
      var e :| e in s.executed && e.item.ticket == t;
      var i :| 0 <= i < |s.executed| && s.executed[i] == e;
      assert items[i].ticket == t;
    }
    TicketsPermute(items, jobs);
  }

  lemma {:induction false} ExecConcat(s: State, a: seq<Action>, b: seq<Action>)
    requires Exec(s, a).Some?
    ensures Exec(s, a + b) == Exec(Exec(s, a).value, b)
    decreases |b|
  {
    if b == [] {
      assert a + b == a;
    } else {
      ExecConcat(s, a, b[..|b| - 1]);
      assert (a + b)[..|a + b| - 1] == a + b[..|b| - 1];
    }
  }

  lemma {:induction false} CallsConcat(a: seq<Action>, b: seq<Action>)
    ensures Calls(a + b) == Calls(a) + Calls(b)
  {
    if b == [] {
      assert a + b == a;
    } else {
      CallsConcat(a, b[..|b| - 1]);
      assert (a + b)[..|a + b| - 1] == a + b[..|b| - 1];
    }
  }

  lemma {:induction false} NoCalls(run: seq<Action>)
    requires forall a | a in run :: !a.Submit?
    ensures Calls(run) == []
  {
    if run != [] {
      NoCalls(run[..|run| - 1]);
    }
  }

  /** When destroy has returned, every job that was ever handed over was executed once
      or freed once. */
  lemma DestroyAccountsForEveryCall(numThreads: nat, numClients: nat, run: seq<Action>)
    requires Exec(Init(numThreads, numClients), run).Some?
    requires Exec(Init(numThreads, numClients), run).value.destroyer.Destroyed?
    ensures var s := Exec(Init(numThreads, numClients), run).value;
            multiset(Calls(run)) == ExecutedJobs(s) + multiset(s.freed)
  {
    ReachableStatesAreSound(numThreads, numClients, run);
    var s := Exec(Init(numThreads, numClients), run).value;
    IdleClientsLinkedAll(numThreads, numClients, run);
    ExecutedAreDequeued(s);
    assert s.submitted == s.submitted[..|s.takenBy|] + s.freed;
  }

  /** When every call has returned, the jobs linked are the jobs handed over. */
  lemma IdleClientsLinkedAll(numThreads: nat, numClients: nat, run: seq<Action>)
    requires Exec(Init(numThreads, numClients), run).Some?
    requires var s := Exec(Init(numThreads, numClients), run).value;
             forall c | 0 <= c < |s.clients| :: s.clients[c].Idle?
    ensures multiset(Exec(Init(numThreads, numClients), run).value.submitted) == multiset(Calls(run))
  {
    var s := Exec(Init(numThreads, numClients), run).value;
    forall job
      ensures multiset(s.submitted)[job] == multiset(Calls(run))[job]
    {
      CallsAreLinked(numThreads, numClients, run, job);
      NobodyWaits(s.clients, job);
    }
  }
}
