/** The thread pool of `threading.c` under every interleaving: workers, clients that
    submit, and one destroyer, each taking one statement at a time. The mutex is
    explicit, so a step that needs it waits until it is free. */
module ThreadPool {
  import opened Options
  import opened WorkQueue

  datatype Job = Job(func: int, argument: int)

  /** A dequeued job and its position in the order of submission. */
  datatype Item = Item(ticket: nat, job: Job)

  /** Where a worker stands in `worker_thread`. */
  datatype Worker =
    | AtLock                        // about to lock the mutex
    | AtTest                        // at the wait condition, mutex held
    | Asleep                        // inside pthread_cond_wait
    | Woken                         // leaving pthread_cond_wait, must lock again
    | AtCheck                       // past the wait, about to read the flag, mutex held
    | AtTake                        // about to unlink the head, mutex held
    | AtUnlock(item: Option<Item>)  // about to unlock, mutex held
    | Running(held: Item)           // executing the job
    | AtLeave                       // saw the flag, about to unlock, mutex held
    | Exited

  /** Where a client stands in `thread_pool_submit`. */
  datatype Client =
    | Idle
    | SubLock(job: Job)
    | SubLink(job: Job)             // mutex held
    | SubSignal                     // linked, about to signal, mutex held
    | SubUnlock                     // mutex held

  /** Where the destroyer stands in `thread_pool_destroy`. */
  datatype Destroyer =
    | NotCalled
    | DesLock
    | DesSet                        // mutex held
    | DesBroadcast                  // flag set, mutex held
    | DesUnlock                     // mutex held
    | Joining(next: nat)
    | DesDrain
    | Destroyed

  datatype Owner = Free | ByWorker(w: nat) | ByClient(c: nat) | ByDestroyer

  /** One completed execution. */
  datatype Execution = Execution(worker: nat, item: Item)

  datatype State = State(
    workers: seq<Worker>,
    clients: seq<Client>,
    destroyer: Destroyer,
    owner: Owner,
    shutdown: bool,
    queue: seq<Job>,
    submitted: seq<Job>,            // everything ever linked, in order
    takenBy: seq<nat>,              // the worker that dequeued each ticket
    executed: seq<Execution>,
    freed: seq<Job>)                // what the destroyer's clean-up loop freed

  function Init(numThreads: nat, numClients: nat): State {
    State(seq(numThreads, _ => AtLock), seq(numClients, _ => Idle), NotCalled, Free, false, [], [], [], [], [])
  }

  datatype Action =
    | WorkerStep(w: nat)
    | SpuriousWake(w: nat)
    | Submit(c: nat, job: Job)      // the call begins
    | ClientStep(c: nat, woken: set<nat>)
    | Destroy                       // the call begins
    | DestroyerStep

  // ---------- Steps ----------

  predicate WorkerEnabled(s: State, w: nat) {
    w < |s.workers| &&
    match s.workers[w]
    case AtLock | Woken => s.owner == Free
    case Running(_) => true
    case Asleep | Exited => false
    case _ => s.owner == ByWorker(w)
  }

  function SetWorker(s: State, w: nat, pc: Worker): State
    requires w < |s.workers|
  {
    s.(workers := s.workers[w := pc])
  }

  function WorkerNext(s: State, w: nat): State
    requires WorkerEnabled(s, w)
  {
    match s.workers[w]
    case AtLock | Woken => SetWorker(s, w, AtTest).(owner := ByWorker(w))
    case AtTest =>
      if s.queue == [] && !s.shutdown then SetWorker(s, w, Asleep).(owner := Free)
      else SetWorker(s, w, AtCheck)
    case AtCheck => SetWorker(s, w, if s.shutdown then AtLeave else AtTake)
    case AtTake =>
      var (head, rest) := Popped(s.queue);
      if head.None? then SetWorker(s, w, AtUnlock(None))
      else SetWorker(s, w, AtUnlock(Some(Item(|s.takenBy|, head.value))))
           .(queue := rest, takenBy := s.takenBy + [w])
    case AtUnlock(item) =>
      SetWorker(s, w, if item.Some? then Running(item.value) else AtLock).(owner := Free)
    case Running(held) => SetWorker(s, w, AtLock).(executed := s.executed + [Execution(w, held)])
    case AtLeave => SetWorker(s, w, Exited).(owner := Free)
  }

  function Wake(workers: seq<Worker>, woken: set<nat>): seq<Worker> {
    seq(|workers|, i requires 0 <= i < |workers| =>
      if i in woken && workers[i].Asleep? then Woken else workers[i])
  }

  /** `pthread_cond_signal` wakes at least one sleeper if there is any. */
  predicate SignalWakes(workers: seq<Worker>, woken: set<nat>) {
    (exists i | 0 <= i < |workers| :: workers[i].Asleep?) ==>
      exists i | 0 <= i < |workers| :: workers[i].Asleep? && i in woken
  }

  predicate ClientEnabled(s: State, c: nat, woken: set<nat>) {
    c < |s.clients| &&
    match s.clients[c]
    case Idle => false
    case SubLock(_) => s.owner == Free
    case SubSignal => s.owner == ByClient(c) && SignalWakes(s.workers, woken)
    case _ => s.owner == ByClient(c)
  }

  function ClientNext(s: State, c: nat, woken: set<nat>): State
    requires ClientEnabled(s, c, woken)
  {
    match s.clients[c]
    case SubLock(job) => s.(clients := s.clients[c := SubLink(job)], owner := ByClient(c))
    case SubLink(job) =>
      s.(clients := s.clients[c := SubSignal], queue := Pushed(s.queue, job), submitted := s.submitted + [job])
    case SubSignal => s.(clients := s.clients[c := SubUnlock], workers := Wake(s.workers, woken))
    case SubUnlock => s.(clients := s.clients[c := Idle], owner := Free)
  }

  predicate DestroyerEnabled(s: State) {
    match s.destroyer
    case NotCalled | Destroyed => false
    case DesLock => s.owner == Free
    case DesSet | DesBroadcast | DesUnlock => s.owner == ByDestroyer
    case Joining(i) =>
      if i < |s.workers| then s.workers[i].Exited? else forall c | c in s.clients :: c.Idle?
    case DesDrain => true
  }

  /** `pthread_cond_broadcast`. */
  function WakeAll(workers: seq<Worker>): seq<Worker> {
    seq(|workers|, i requires 0 <= i < |workers| => if workers[i].Asleep? then Woken else workers[i])
  }

  function DestroyerNext(s: State): State
    requires DestroyerEnabled(s)
  {
    match s.destroyer
    case DesLock => s.(destroyer := DesSet, owner := ByDestroyer)
    case DesSet => s.(destroyer := DesBroadcast, shutdown := true)
    case DesBroadcast => s.(destroyer := DesUnlock, workers := WakeAll(s.workers))
    case DesUnlock => s.(destroyer := Joining(0), owner := Free)
    case Joining(i) => s.(destroyer := if i < |s.workers| then Joining(i + 1) else DesDrain)
    case DesDrain => s.(destroyer := Destroyed, freed := s.queue, queue := [])
  }

  /** A submission may begin as long as the destroyer has not reached its
      clean-up loop. */
  predicate Enabled(s: State, a: Action) {
    match a
    case WorkerStep(w) => WorkerEnabled(s, w)
    case SpuriousWake(w) => w < |s.workers| && s.workers[w].Asleep?
    case Submit(c, _) =>
      c < |s.clients| && s.clients[c].Idle? && !s.destroyer.DesDrain? && !s.destroyer.Destroyed?
    case ClientStep(c, woken) => ClientEnabled(s, c, woken)
    case Destroy => s.destroyer.NotCalled?
    case DestroyerStep => DestroyerEnabled(s)
  }

  function Next(s: State, a: Action): State
    requires Enabled(s, a)
  {
    match a
    case WorkerStep(w) => WorkerNext(s, w)
    case SpuriousWake(w) => SetWorker(s, w, Woken)
    case Submit(c, job) => s.(clients := s.clients[c := SubLock(job)])
    case ClientStep(c, woken) => ClientNext(s, c, woken)
    case Destroy => s.(destroyer := DesLock)
    case DestroyerStep => DestroyerNext(s)
  }

  /** The state after a run, if each of its actions was enabled in turn. */
  function Exec(s: State, run: seq<Action>): Option<State>
    decreases |run|
  {
    if run == [] then Some(s) else
    var before := Exec(s, run[..|run| - 1]);
    if before.Some? && Enabled(before.value, run[|run| - 1]) then Some(Next(before.value, run[|run| - 1]))
    else None
  }

  // ---------- The mutex, the flag and the sleepers ----------

  predicate Holds(pc: Worker) {
    pc.AtTest? || pc.AtCheck? || pc.AtTake? || pc.AtUnlock? || pc.AtLeave?
  }

  predicate ClientHolds(pc: Client) {
    pc.SubLink? || pc.SubSignal? || pc.SubUnlock?
  }

  predicate DestroyerHolds(pc: Destroyer) {
    pc.DesSet? || pc.DesBroadcast? || pc.DesUnlock?
  }

  /** Whoever stands inside a locked region owns the mutex, and nobody else. */
  predicate MutualExclusion(s: State) {
    && (forall w | 0 <= w < |s.workers| :: Holds(s.workers[w]) <==> s.owner == ByWorker(w))
    && (forall c | 0 <= c < |s.clients| :: ClientHolds(s.clients[c]) <==> s.owner == ByClient(c))
    && (DestroyerHolds(s.destroyer) <==> s.owner == ByDestroyer)
    && (s.owner.ByWorker? ==> s.owner.w < |s.workers|)
    && (s.owner.ByClient? ==> s.owner.c < |s.clients|)
  }

  /** Between setting the flag and the end of `thread_pool_destroy`. */
  predicate ShuttingDown(pc: Destroyer) {
    pc.DesBroadcast? || pc.DesUnlock? || pc.Joining? || pc.DesDrain? || pc.Destroyed?
  }

  /** What one worker's position says about the flag and the queue. */
  predicate WorkerFacts(s: State, w: nat)
    requires w < |s.workers|
  {
    match s.workers[w]
    case AtCheck => s.shutdown || s.queue != []
    case AtTake => !s.shutdown && s.queue != []
    case AtUnlock(item) => !s.shutdown && item.Some?
    case AtLeave | Exited => s.shutdown
    case Asleep => s.shutdown ==> s.destroyer.DesBroadcast?
    case _ => true
  }

  predicate Control(s: State) {
    && MutualExclusion(s)
    && (s.shutdown <==> ShuttingDown(s.destroyer))
    && (forall w | 0 <= w < |s.workers| :: WorkerFacts(s, w))
    && (s.destroyer.Joining? ==>
          s.destroyer.next <= |s.workers| && forall w | 0 <= w < s.destroyer.next :: s.workers[w].Exited?)
    && (s.destroyer.DesDrain? || s.destroyer.Destroyed? ==>
          && (forall w | 0 <= w < |s.workers| :: s.workers[w].Exited?)
          && (forall c | 0 <= c < |s.clients| :: s.clients[c].Idle?))
  }

  lemma WorkerKeepsControl(s: State, w: nat)
    requires Control(s) && WorkerEnabled(s, w)
    ensures Control(WorkerNext(s, w))
  {
    var t := WorkerNext(s, w);
    assert WorkerFacts(s, w);
    forall v | 0 <= v < |t.workers|
      ensures WorkerFacts(t, v)
    {
      assert WorkerFacts(s, v);
    }
  }

  lemma ClientKeepsControl(s: State, c: nat, woken: set<nat>)
    requires Control(s) && ClientEnabled(s, c, woken)
    ensures Control(ClientNext(s, c, woken))
  {
    var t := ClientNext(s, c, woken);
    forall v | 0 <= v < |t.workers|
      ensures WorkerFacts(t, v)
    {
      assert WorkerFacts(s, v);
    }
  }

  lemma DestroyerKeepsControl(s: State)
    requires Control(s) && DestroyerEnabled(s)
    ensures Control(DestroyerNext(s))
  {
    var t := DestroyerNext(s);
    forall v | 0 <= v < |t.workers|
      ensures WorkerFacts(t, v)
    {
      assert WorkerFacts(s, v);
    }
    if s.destroyer.Joining? && s.destroyer.next == |s.workers| {
      assert forall c | 0 <= c < |s.clients| :: s.clients[c] in s.clients;
    }
  }

  lemma StepKeepsControl(s: State, a: Action)
    requires Control(s) && Enabled(s, a)
    ensures Control(Next(s, a))
  {
    match a
    case WorkerStep(w) => WorkerKeepsControl(s, w);
    case ClientStep(c, woken) => ClientKeepsControl(s, c, woken);
    case DestroyerStep => DestroyerKeepsControl(s);
    case _ =>
      forall v | 0 <= v < |s.workers|
        ensures WorkerFacts(Next(s, a), v)
      {
        assert WorkerFacts(s, v);
      }
  }

  // ---------- No lost wake-up ----------

  /** A worker that will test the queue before it can sleep. */
  predicate Seeking(pc: Worker) {
    pc.AtLock? || pc.Woken? || pc.AtTest? || pc.AtCheck? || pc.AtTake?
  }

  function Seekers(workers: seq<Worker>): nat {
    if workers == [] then 0 else (if Seeking(workers[0]) then 1 else 0) + Seekers(workers[1..])
  }

  lemma {:induction false} SeekersUpdate(workers: seq<Worker>, w: nat, pc: Worker)
    requires w < |workers|
    ensures Seekers(workers[w := pc]) ==
            Seekers(workers) - (if Seeking(workers[w]) then 1 else 0) + (if Seeking(pc) then 1 else 0)
  {
    if w == 0 {
      assert workers[w := pc][1..] == workers[1..];
    } else {
      assert workers[w := pc][1..] == workers[1..][w - 1 := pc];
      SeekersUpdate(workers[1..], w - 1, pc);
    }
  }

  lemma {:induction false} WakeAddsSeekers(workers: seq<Worker>, woken: set<nat>)
    ensures Seekers(Wake(workers, woken)) >= Seekers(workers)
    ensures (exists i | 0 <= i < |workers| :: workers[i].Asleep? && i in woken) ==>
              Seekers(Wake(workers, woken)) > Seekers(workers)
  {
    if workers != [] {
      var shifted := set i | i in woken && i > 0 :: i - 1;
      assert Wake(workers, woken)[1..] == Wake(workers[1..], shifted) by {
        forall i | 0 <= i < |workers| - 1
          ensures i in shifted <==> i + 1 in woken
        {
          if i + 1 in woken {
            assert (i + 1) - 1 in shifted;
          }
        }
      }
      WakeAddsSeekers(workers[1..], shifted);
      forall i | 0 < i < |workers| && workers[i].Asleep? && i in woken
        ensures workers[1..][i - 1].Asleep? && i - 1 in shifted
      {
      }
    }
  }

  predicate SomeoneSleeps(s: State) {
    exists w | 0 <= w < |s.workers| :: s.workers[w].Asleep?
  }

  /** A client has linked a job and is about to signal. */
  predicate SignalPending(s: State) {
    s.owner.ByClient? && s.owner.c < |s.clients| && s.clients[s.owner.c].SubSignal?
  }

  /** While anyone sleeps, each queued job has a worker on its way to it, except
      the one about to be signalled. */
  predicate NoLostWakeup(s: State) {
    !s.shutdown && SomeoneSleeps(s) ==>
      |s.queue| <= Seekers(s.workers) + (if SignalPending(s) then 1 else 0)
  }

  lemma WorkerKeepsWakeups(s: State, w: nat)
    requires Control(s) && NoLostWakeup(s) && WorkerEnabled(s, w)
    ensures NoLostWakeup(WorkerNext(s, w))
  {
    var t := WorkerNext(s, w);
    SeekersUpdate(s.workers, w, t.workers[w]);
    if SomeoneSleeps(t) {
      var v :| 0 <= v < |t.workers| && t.workers[v].Asleep?;
      assert v != w ==> s.workers[v].Asleep?;
    }
  }

  lemma ClientKeepsWakeups(s: State, c: nat, woken: set<nat>)
    requires Control(s) && NoLostWakeup(s) && ClientEnabled(s, c, woken)
    ensures NoLostWakeup(ClientNext(s, c, woken))
  {
    var t := ClientNext(s, c, woken);
    WakeAddsSeekers(s.workers, woken);
    if SomeoneSleeps(t) {
      var v :| 0 <= v < |t.workers| && t.workers[v].Asleep?;
      assert s.workers[v].Asleep?;
    }
  }

  lemma StepKeepsWakeups(s: State, a: Action)
    requires Control(s) && NoLostWakeup(s) && Enabled(s, a)
    ensures NoLostWakeup(Next(s, a))
  {
    match a
    case WorkerStep(w) => WorkerKeepsWakeups(s, w);
    case ClientStep(c, woken) => ClientKeepsWakeups(s, c, woken);
    case SpuriousWake(w) => SeekersUpdate(s.workers, w, Woken);
    case DestroyerStep =>
      if s.destroyer.DesDrain? {
        assert forall w | 0 <= w < |s.workers| :: s.workers[w].Exited?;
      }
    case _ =>
  }

  // ---------- Conservation ----------

  function HeldItem(pc: Worker): Option<Item> {
    match pc
    case AtUnlock(item) => item
    case Running(held) => Some(held)
    case _ => None
  }

  /** `w` is the worker that dequeued this item, and the item is what was
      submitted under its ticket. */
  predicate TakenBy(s: State, w: nat, item: Item) {
    item.ticket < |s.takenBy| <= |s.submitted| && s.takenBy[item.ticket] == w && s.submitted[item.ticket] == item.job
  }

  predicate ExecutedTicket(s: State, ticket: nat) {
    exists e | e in s.executed :: e.item.ticket == ticket
  }

  /** Every submission is, in order, dequeued or queued or freed; every dequeued
      one is in the hands of its worker or was executed by it, once. */
  predicate Conservation(s: State) {
    && |s.takenBy| <= |s.submitted|
    && s.submitted[|s.takenBy|..] == s.queue + s.freed
    && (s.destroyer.Destroyed? || s.freed == [])
    && (s.destroyer.Destroyed? ==> s.queue == [])
    && (forall w | 0 <= w < |s.workers| ::
          var item := HeldItem(s.workers[w]);
          item.Some? ==> TakenBy(s, w, item.value) && !ExecutedTicket(s, item.value.ticket))
    && (forall i | 0 <= i < |s.executed| :: TakenBy(s, s.executed[i].worker, s.executed[i].item))
    && (forall i, j | 0 <= i < j < |s.executed| :: s.executed[i].item.ticket != s.executed[j].item.ticket)
    && (forall t | 0 <= t < |s.takenBy| ::
          s.takenBy[t] < |s.workers| &&
          (ExecutedTicket(s, t) || HeldItem(s.workers[s.takenBy[t]]) == Some(Item(t, s.submitted[t]))))
  }

  /** A step that neither dequeues nor executes only has to keep the queue in
      line with the submissions. */
  lemma OtherStepsKeepConservation(s: State, t: State)
    requires Conservation(s)
    requires t.takenBy == s.takenBy && t.executed == s.executed && s.submitted <= t.submitted
    requires t.submitted[|t.takenBy|..] == t.queue + t.freed
    requires t.destroyer.Destroyed? || t.freed == []
    requires t.destroyer.Destroyed? ==> t.queue == []
    requires |t.workers| == |s.workers|
    requires forall v | 0 <= v < |t.workers| :: HeldItem(t.workers[v]) == HeldItem(s.workers[v])
    ensures Conservation(t)
  {
    forall ticket
      ensures ExecutedTicket(t, ticket) <==> ExecutedTicket(s, ticket)
    {
    }
    forall i | 0 <= i < |t.executed|
      ensures TakenBy(t, t.executed[i].worker, t.executed[i].item)
    {
      assert TakenBy(s, s.executed[i].worker, s.executed[i].item);
    }
  }

  lemma WorkerKeepsConservation(s: State, w: nat)
    requires Control(s) && Conservation(s) && WorkerEnabled(s, w)
    ensures Conservation(WorkerNext(s, w))
  {
    assert WorkerFacts(s, w);
    if s.workers[w].AtTake? {
      TakeKeepsConservation(s, w);
    } else if s.workers[w].Running? {
      RunKeepsConservation(s, w);
    } else {
      OtherStepsKeepConservation(s, WorkerNext(s, w));
    }
  }

  lemma TakeKeepsConservation(s: State, w: nat)
    requires Control(s) && Conservation(s) && WorkerEnabled(s, w) && s.workers[w].AtTake?
    ensures Conservation(WorkerNext(s, w))
  {
    var t := WorkerNext(s, w);
    assert WorkerFacts(s, w);
    var k := |s.takenBy|;
    assert s.freed == [];
    assert s.submitted[k] == s.queue[0] by {
      assert s.submitted[k..][0] == (s.queue + s.freed)[0];
    }
    assert s.submitted[k + 1..] == s.submitted[k..][1..] == s.queue[1..] + s.freed;
    assert forall ticket :: ExecutedTicket(t, ticket) <==> ExecutedTicket(s, ticket);
    assert !ExecutedTicket(s, k) by {
      assert forall i | 0 <= i < |s.executed| :: TakenBy(s, s.executed[i].worker, s.executed[i].item);
    }
    forall i | 0 <= i < |t.executed|
      ensures TakenBy(t, t.executed[i].worker, t.executed[i].item)
    {
      assert TakenBy(s, s.executed[i].worker, s.executed[i].item);
    }
  }

  lemma RunKeepsConservation(s: State, w: nat)
    requires Conservation(s) && WorkerEnabled(s, w) && s.workers[w].Running?
    ensures Conservation(WorkerNext(s, w))
  {
    var t := WorkerNext(s, w);
    var item := s.workers[w].held;
    assert HeldItem(s.workers[w]) == Some(item);
    var done := Execution(w, item);
    forall ticket
      ensures ExecutedTicket(t, ticket) <==> ExecutedTicket(s, ticket) || ticket == item.ticket
    {
      if ExecutedTicket(s, ticket) {
        var e :| e in s.executed && e.item.ticket == ticket;
        assert e in t.executed;
      }
      assert done in t.executed;
    }
    forall i | 0 <= i < |s.executed|
      ensures s.executed[i].item.ticket != item.ticket
    {
      assert s.executed[i] in s.executed;
    }
    forall i | 0 <= i < |t.executed|
      ensures TakenBy(t, t.executed[i].worker, t.executed[i].item)
    {
      if i < |s.executed| {
        assert TakenBy(s, s.executed[i].worker, s.executed[i].item);
      }
    }
  }

  lemma StepKeepsConservation(s: State, a: Action)
    requires Control(s) && Conservation(s) && Enabled(s, a)
    ensures Conservation(Next(s, a))
  {
    if a.WorkerStep? {
      WorkerKeepsConservation(s, a.w);
    } else {
      var t := Next(s, a);
      if a.ClientStep? && s.clients[a.c].SubLink? {
        assert t.submitted[|t.takenBy|..] == s.submitted[|s.takenBy|..] + [s.clients[a.c].job];
      }
      OtherStepsKeepConservation(s, t);
    }
  }

  // ---------- Every reachable state ----------

  predicate Inv(s: State) {
    Control(s) && NoLostWakeup(s) && Conservation(s)
  }

  lemma {:induction false} ReachableStatesAreSound(numThreads: nat, numClients: nat, run: seq<Action>)
    requires Exec(Init(numThreads, numClients), run).Some?
    ensures Inv(Exec(Init(numThreads, numClients), run).value)
    decreases |run|
  {
    if run != [] {
      var pre, a := run[..|run| - 1], run[|run| - 1];
      ReachableStatesAreSound(numThreads, numClients, pre);
      var s := Exec(Init(numThreads, numClients), pre).value;
      StepKeepsControl(s, a);
      StepKeepsWakeups(s, a);
      StepKeepsConservation(s, a);
    }
  }

  // ---------- What follows before shutdown ----------

  /** With the mutex free and anyone asleep, each queued job has its own worker on
      the way to it; so a non-empty queue never coexists with all workers
      asleep. */
  lemma SleepersNeverMissWork(numThreads: nat, numClients: nat, run: seq<Action>)
    requires Exec(Init(numThreads, numClients), run).Some?
    requires var s := Exec(Init(numThreads, numClients), run).value; !s.shutdown && s.owner == Free
    ensures var s := Exec(Init(numThreads, numClients), run).value;
            && (SomeoneSleeps(s) ==> |s.queue| <= Seekers(s.workers))
            && (s.queue != [] && numThreads > 0 ==> exists w | 0 <= w < |s.workers| :: !s.workers[w].Asleep?)
  {
    ReachableStatesAreSound(numThreads, numClients, run);
    WorkersNeverChange(numThreads, numClients, run);
    var s := Exec(Init(numThreads, numClients), run).value;
    if s.queue != [] && numThreads > 0 && s.workers[0].Asleep? {
      SeekersPositive(s.workers);
    }
  }

  lemma SeekersPositive(workers: seq<Worker>)
    requires Seekers(workers) > 0
    ensures exists w | 0 <= w < |workers| :: Seeking(workers[w])
  {
    if !Seeking(workers[0]) {
      SeekersPositive(workers[1..]);
      var w :| 0 <= w < |workers[1..]| && Seeking(workers[1..][w]);
      assert Seeking(workers[w + 1]);
    }
  }

  /** The action is one that some thread already inside the pool can take. */
  predicate Internal(a: Action) {
    a.WorkerStep? || a.ClientStep? || a.DestroyerStep?
  }

  ghost predicate CanProceed(s: State) {
    exists a :: Internal(a) && Enabled(s, a)
  }

  /** Whoever owns the mutex can take its next step. */
  lemma OwnerCanProceed(s: State)
    requires Control(s) && s.owner != Free
    ensures CanProceed(s)
  {
    match s.owner
    case ByWorker(w) =>
      assert Holds(s.workers[w]);
      assert Enabled(s, WorkerStep(w));
    case ByClient(c) =>
      assert ClientHolds(s.clients[c]);
      var sleepers := set w: nat | w < |s.workers| && s.workers[w].Asleep?;
      assert SignalWakes(s.workers, sleepers);
      assert Enabled(s, ClientStep(c, sleepers));
    case ByDestroyer =>
      assert Enabled(s, DestroyerStep);
  }

  /** Before shutdown, a queued job never leaves the pool stuck: some thread can
      move without the help of a spurious wake-up or a new call. */
  lemma QueuedJobsNeverStall(numThreads: nat, numClients: nat, run: seq<Action>)
    requires numThreads > 0 && Exec(Init(numThreads, numClients), run).Some?
    requires var s := Exec(Init(numThreads, numClients), run).value; !s.shutdown && s.queue != []
    ensures CanProceed(Exec(Init(numThreads, numClients), run).value)
  {
    ReachableStatesAreSound(numThreads, numClients, run);
    WorkersNeverChange(numThreads, numClients, run);
    var s := Exec(Init(numThreads, numClients), run).value;
    if s.owner != Free {
      OwnerCanProceed(s);
    } else {
      assert WorkerFacts(s, 0);
      if s.workers[0].Asleep? {
        SeekersPositive(s.workers);
        var w :| 0 <= w < |s.workers| && Seeking(s.workers[w]);
        assert Enabled(s, WorkerStep(w));
      } else {
        assert Enabled(s, WorkerStep(0));
      }
    }
  }

  lemma {:induction false} WorkersNeverChange(numThreads: nat, numClients: nat, run: seq<Action>)
    requires Exec(Init(numThreads, numClients), run).Some?
    ensures |Exec(Init(numThreads, numClients), run).value.workers| == numThreads
    decreases |run|
  {
    if run != [] {
      WorkersNeverChange(numThreads, numClients, run[..|run| - 1]);
    }
  }

  // ---------- First in, first out, exactly once ----------

  /** The jobs that workers unlinked, in the order of the run. */
  function Dequeued(s: State, run: seq<Action>): seq<Job>
    requires Exec(s, run).Some?
    decreases |run|
  {
    if run == [] then [] else
    var pre, a := run[..|run| - 1], run[|run| - 1];
    var t := Exec(s, pre).value;
    Dequeued(s, pre) + (if a.WorkerStep? && t.workers[a.w].AtTake? && t.queue != [] then [t.queue[0]] else [])
  }

  /** Submissions come out in order: what was dequeued, then what is still queued
      or was freed. */
  lemma {:induction false} FirstInFirstOut(numThreads: nat, numClients: nat, run: seq<Action>)
    requires Exec(Init(numThreads, numClients), run).Some?
    ensures var s := Exec(Init(numThreads, numClients), run).value;
            && s.submitted == Dequeued(Init(numThreads, numClients), run) + s.queue + s.freed
            && |s.takenBy| == |Dequeued(Init(numThreads, numClients), run)|
    decreases |run|
  {
    if run != [] {
      var init, pre, a := Init(numThreads, numClients), run[..|run| - 1], run[|run| - 1];
      FirstInFirstOut(numThreads, numClients, pre);
      ReachableStatesAreSound(numThreads, numClients, pre);
      StepIsFifo(Exec(init, pre).value, a, Dequeued(init, pre));
    }
  }

  lemma StepIsFifo(s: State, a: Action, out: seq<Job>)
    requires Inv(s) && Enabled(s, a)
    requires s.submitted == out + s.queue + s.freed && |s.takenBy| == |out|
    ensures var t := Next(s, a);
            var out' := out + (if a.WorkerStep? && s.workers[a.w].AtTake? && s.queue != [] then [s.queue[0]] else []);
            t.submitted == out' + t.queue + t.freed && |t.takenBy| == |out'|
  {
    var t := Next(s, a);
    if a.WorkerStep? && s.workers[a.w].AtTake? {
      assert WorkerFacts(s, a.w);
      assert s.queue == [s.queue[0]] + s.queue[1..];
      assert out + s.queue + s.freed == (out + [s.queue[0]]) + s.queue[1..] + s.freed;
    } else {
      assert out + [] == out && t.takenBy == s.takenBy;
      if a.ClientStep? && s.clients[a.c].SubLink? {
        assert s.freed == [];
        assert out + (s.queue + [s.clients[a.c].job]) == out + s.queue + [s.clients[a.c].job];
      }
    }
  }

  /** The entry at `i` is the one execution of the ticket: by the worker that
      dequeued it, of the job submitted under it. */
  predicate OnlyExecution(s: State, i: nat, ticket: nat)
    requires ticket < |s.takenBy| <= |s.submitted|
  {
    && i < |s.executed|
    && s.executed[i] == Execution(s.takenBy[ticket], Item(ticket, s.submitted[ticket]))
    && forall j | 0 <= j < |s.executed| && j != i :: s.executed[j].item.ticket != ticket
  }

  ghost predicate ExecutedOnce(s: State, ticket: nat)
    requires ticket < |s.takenBy| <= |s.submitted|
  {
    exists i :: OnlyExecution(s, i, ticket)
  }

  /** Once no worker holds a job, each dequeued ticket was executed by the worker
      that dequeued it, with the job submitted under it, exactly once. */
  lemma ExecutedExactlyOnce(s: State, ticket: nat)
    requires Inv(s) && ticket < |s.takenBy|
    requires forall w | 0 <= w < |s.workers| :: HeldItem(s.workers[w]) == None
    ensures ExecutedOnce(s, ticket)
  {
    assert ExecutedTicket(s, ticket);
    var e :| e in s.executed && e.item.ticket == ticket;
    var i :| 0 <= i < |s.executed| && s.executed[i] == e;
    assert TakenBy(s, s.executed[i].worker, s.executed[i].item);
    assert OnlyExecution(s, i, ticket);
  }

  // ---------- Shutdown ----------

  /** Once the flag is set, no worker goes to sleep and none dequeues. */
  lemma ShutdownStopsWaitingAndDequeuing(s: State, a: Action)
    requires Inv(s) && Enabled(s, a) && s.shutdown
    ensures Next(s, a).shutdown && Next(s, a).takenBy == s.takenBy
    ensures forall w | 0 <= w < |s.workers| :: Next(s, a).workers[w].Asleep? ==> s.workers[w].Asleep?
  {
    if a.WorkerStep? {
      assert WorkerFacts(s, a.w);
    }
  }

  /** Steps a worker can still take once the flag is set. */
  function WorkerRank(pc: Worker): nat {
    match pc
    case AtUnlock(_) => 8
    case AtTake => 8
    case Running(_) => 7
    case Asleep => 6
    case AtLock => 5
    case Woken => 5
    case AtTest => 4
    case AtCheck => 3
    case AtLeave => 1
    case Exited => 0
  }

  function WorkersRank(workers: seq<Worker>): nat {
    if workers == [] then 0 else WorkerRank(workers[0]) + WorkersRank(workers[1..])
  }

  function ClientRank(pc: Client): nat {
    match pc
    case Idle => 0
    case SubLock(_) => 4
    case SubLink(_) => 3
    case SubSignal => 2
    case SubUnlock => 1
  }

  function ClientsRank(clients: seq<Client>): nat {
    if clients == [] then 0 else ClientRank(clients[0]) + ClientsRank(clients[1..])
  }

  function DestroyerRank(s: State): int {
    match s.destroyer
    case NotCalled => |s.workers| + 7
    case DesLock => |s.workers| + 6
    case DesSet => |s.workers| + 5
    case DesBroadcast => |s.workers| + 4
    case DesUnlock => |s.workers| + 3
    case Joining(i) => |s.workers| - i + 2
    case DesDrain => 1
    case Destroyed => 0
  }

  /** Bounds the steps left after the flag is set. */
  function Remaining(s: State): int {
    WorkersRank(s.workers) + ClientsRank(s.clients) + DestroyerRank(s)
  }

  lemma {:induction false} WorkersRankUpdate(workers: seq<Worker>, w: nat, pc: Worker)
    requires w < |workers|
    ensures WorkersRank(workers[w := pc]) == WorkersRank(workers) - WorkerRank(workers[w]) + WorkerRank(pc)
  {
    if w == 0 {
      assert workers[w := pc][1..] == workers[1..];
    } else {
      assert workers[w := pc][1..] == workers[1..][w - 1 := pc];
      WorkersRankUpdate(workers[1..], w - 1, pc);
    }
  }

  lemma {:induction false} ClientsRankUpdate(clients: seq<Client>, c: nat, pc: Client)
    requires c < |clients|
    ensures ClientsRank(clients[c := pc]) == ClientsRank(clients) - ClientRank(clients[c]) + ClientRank(pc)
  {
    if c == 0 {
      assert clients[c := pc][1..] == clients[1..];
    } else {
      assert clients[c := pc][1..] == clients[1..][c - 1 := pc];
      ClientsRankUpdate(clients[1..], c - 1, pc);
    }
  }

  /** Waking threads only brings them nearer to their exit. */
  lemma {:induction false} RankDropsPointwise(before: seq<Worker>, after: seq<Worker>)
    requires |before| == |after|
    requires forall i | 0 <= i < |before| :: WorkerRank(after[i]) <= WorkerRank(before[i])
    ensures WorkersRank(after) <= WorkersRank(before)
  {
    if before != [] {
      RankDropsPointwise(before[1..], after[1..]);
    }
  }

  lemma WorkerStepsRunOut(s: State, w: nat)
    requires Control(s) && WorkerEnabled(s, w) && s.shutdown
    ensures WorkersRank(WorkerNext(s, w).workers) < WorkersRank(s.workers)
  {
    assert WorkerFacts(s, w);
    WorkersRankUpdate(s.workers, w, WorkerNext(s, w).workers[w]);
  }

  lemma ClientStepsRunOut(s: State, c: nat, woken: set<nat>)
    requires ClientEnabled(s, c, woken)
    ensures var t := ClientNext(s, c, woken);
            ClientsRank(t.clients) < ClientsRank(s.clients) && WorkersRank(t.workers) <= WorkersRank(s.workers)
  {
    var t := ClientNext(s, c, woken);
    ClientsRankUpdate(s.clients, c, t.clients[c]);
    RankDropsPointwise(s.workers, t.workers);
  }

  /** After the flag is set every step other than a new submission uses up some of
      the remaining steps, and a new submission adds four. */
  lemma ShutdownStepsRunOut(s: State, a: Action)
    requires Inv(s) && Enabled(s, a) && s.shutdown
    ensures Remaining(Next(s, a)) <= Remaining(s) + (if a.Submit? then 4 else -1)
  {
    if a.WorkerStep? {
      WorkerStepsRunOut(s, a.w);
    } else if a.SpuriousWake? {
      WorkersRankUpdate(s.workers, a.w, Woken);
    } else if a.Submit? {
      ClientsRankUpdate(s.clients, a.c, SubLock(a.job));
    } else if a.ClientStep? {
      ClientStepsRunOut(s, a.c, a.woken);
    } else if a.DestroyerStep? {
      RankDropsPointwise(s.workers, DestroyerNext(s).workers);
    }
  }

  function Submissions(run: seq<Action>): nat {
    if run == [] then 0 else Submissions(run[..|run| - 1]) + (if run[|run| - 1].Submit? then 1 else 0)
  }

  /** From the moment the flag is set, no run is longer than the remaining steps
      and five for each new submission. */
  lemma {:induction false} ShutdownRunsAreBounded(s: State, run: seq<Action>)
    requires Inv(s) && s.shutdown && Exec(s, run).Some?
    ensures var t := Exec(s, run).value;
            && Inv(t) && t.shutdown && 0 <= Remaining(t)
            && |run| + Remaining(t) <= Remaining(s) + 5 * Submissions(run)
    decreases |run|
  {
    if run == [] {
      assert s.destroyer.Joining? ==> s.destroyer.next <= |s.workers|;
    } else {
      var pre, a := run[..|run| - 1], run[|run| - 1];
      ShutdownRunsAreBounded(s, pre);
      var t := Exec(s, pre).value;
      StepKeepsControl(t, a);
      StepKeepsWakeups(t, a);
      StepKeepsConservation(t, a);
      ShutdownStepsRunOut(t, a);
      ShutdownStopsWaitingAndDequeuing(t, a);
    }
  }

  /** After the flag is set, the pool is stuck only when destroy has returned. */
  lemma ShutdownNeverStalls(s: State)
    requires Inv(s) && s.shutdown && !s.destroyer.Destroyed?
    ensures CanProceed(s)
  {
    if s.owner != Free {
      OwnerCanProceed(s);
    } else if c :| 0 <= c < |s.clients| && !s.clients[c].Idle? {
      assert Enabled(s, ClientStep(c, {}));
    } else if w :| 0 <= w < |s.workers| && !s.workers[w].Exited? {
      assert WorkerFacts(s, w);
      assert Enabled(s, WorkerStep(w));
    } else {
      assert Enabled(s, DestroyerStep);
    }
  }

  /** What destroy leaves behind: all workers gone, every dequeued job executed
      exactly once, and the rest of the submissions freed, in order. */
  lemma DestroyLeavesNothing(numThreads: nat, numClients: nat, run: seq<Action>)
    requires Exec(Init(numThreads, numClients), run).Some?
    requires Exec(Init(numThreads, numClients), run).value.destroyer.Destroyed?
    ensures var s := Exec(Init(numThreads, numClients), run).value;
            && (forall w | 0 <= w < |s.workers| :: s.workers[w].Exited?)
            && |s.takenBy| <= |s.submitted| && s.queue == [] && s.freed == s.submitted[|s.takenBy|..]
            && (forall i | 0 <= i < |s.executed| :: s.executed[i].item.ticket < |s.takenBy|)
            && forall t | 0 <= t < |s.takenBy| :: ExecutedOnce(s, t)
  {
    ReachableStatesAreSound(numThreads, numClients, run);
    var s := Exec(Init(numThreads, numClients), run).value;
    forall t | 0 <= t < |s.takenBy|
      ensures ExecutedOnce(s, t)
    {
      ExecutedExactlyOnce(s, t);
    }
    forall i | 0 <= i < |s.executed|
      ensures s.executed[i].item.ticket < |s.takenBy|
    {
      assert TakenBy(s, s.executed[i].worker, s.executed[i].item);
    }
  }
}
