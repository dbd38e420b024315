/** The linked work queue of `threading.c`: singly linked items with a head, a tail
    and a count. */
module WorkQueue {
  import opened Options
  import opened Sequences

  class WorkItem<Job> {
    const job: Job
    var next: WorkItem?<Job>

    constructor (job: Job)
      ensures this.job == job && next == null
    {
      this.job, next := job, null;
    }
  }

  /** The queue's two operations, on its contents. */
  function Pushed<Job>(queue: seq<Job>, job: Job): seq<Job> {
    queue + [job]
  }

  function Popped<Job>(queue: seq<Job>): (Option<Job>, seq<Job>) {
    if queue == [] then (None, []) else (Some(queue[0]), queue[1..])
  }

  /** The jobs along a chain of items. */
  function Jobs<Job>(chain: seq<WorkItem<Job>>): (js: seq<Job>)
    ensures |js| == |chain|
    ensures forall i | 0 <= i < |chain| :: js[i] == chain[i].job
  {
    seq(|chain|, i requires 0 <= i < |chain| => chain[i].job)
  }

  class Queue<Job> {
    var head: WorkItem?<Job>
    var tail: WorkItem?<Job>
    var count: int
    ghost var chain: seq<WorkItem<Job>>

    /** `chain` is what one reaches from `head`; `tail` is its last item and
        `count` its length. */
    ghost predicate Valid()
      reads this, chain
    {
      && count == |chain|
      && (chain == [] ==> head == null && tail == null)
      && (chain != [] ==> head == chain[0] && tail == chain[|chain| - 1])
      && (forall i | 0 <= i < |chain| - 1 :: chain[i].next == chain[i + 1])
      && (chain != [] ==> chain[|chain| - 1].next == null)
    }

    ghost function Contents(): seq<Job>
      reads this
    {
      Jobs(chain)
    }

    constructor ()
      ensures Valid() && chain == []
    {
      head, tail, count, chain := null, null, 0, [];
    }

    /** The linking step of `thread_pool_submit`. */
    method Push(job: Job)
      requires Valid()
      modifies this, tail
      ensures Valid() && Contents() == Pushed(old(Contents()), job)
      ensures exists item :: fresh(item) && chain == old(chain) + [item]
    {
      var item := new WorkItem(job);
      if tail != null {
        tail.next := item;
      } else {
        head := item;
      }
      tail := item;
      count := count + 1;
      chain := chain + [item];
    }

    /** The unlinking step of `worker_thread`; an empty queue yields nothing. */
    method Pop() returns (job: Option<Job>)
      requires Valid()
      modifies this
      ensures Valid() && (job, Contents()) == Popped(old(Contents()))
      ensures chain == if old(chain) == [] then [] else old(chain)[1..]
    {
      var item := head;
      if item != null {
        head := item.next;
        if head == null {
          tail := null;
        }
        count := count - 1;
        chain := chain[1..];
        assert Contents() == old(Contents())[1..];
        return Some(item.job);
      }
      return None;
    }

    /** The clean-up loop of `thread_pool_destroy`: walks from the head and frees
        each remaining item. */
    method Drain() returns (freed: seq<WorkItem<Job>>)
      requires Valid()
      ensures freed == chain
      ensures Distinct(freed)
    {
      freed := [];
      var item := head;
      while item != null
        invariant |freed| <= |chain| && freed == chain[..|freed|]
        invariant item == if |freed| < |chain| then chain[|freed|] else null
        decreases |chain| - |freed|
      {
        var next := item.next;
        freed := freed + [item];
        item := next;
      }
      ChainIsDistinct();
    }

    /** A chain that ends never meets itself. */
    lemma ChainIsDistinct()
      requires Valid()
      ensures Distinct(chain)
    {
      forall i, j | 0 <= i < j < |chain|
        ensures chain[i] != chain[j]
      {
        DistinctFrom(i, j);
      }
    }

    lemma DistinctFrom(i: nat, j: nat)
      requires Valid() && i < j < |chain|
      ensures chain[i] != chain[j]
      decreases |chain| - j
    {
      if j == |chain| - 1 {
        assert chain[i].next == chain[i + 1];
      } else {
        DistinctFrom(i + 1, j + 1);
        assert chain[i].next == chain[i + 1] && chain[j].next == chain[j + 1];
      }
    }
  }
}
