/**
  The ready queues of Kernel/Scheduler.cpp. Each method is one section under
  `g_ready_queues_lock`; what other code does to a thread between the sections
  (its affinity, its activity, its priority) is left open.
*/
module Scheduler {

  const BUCKETS: nat := 32
  const THREAD_PRIORITY_MIN: nat := 1
  const THREAD_PRIORITY_MAX: nat := 99

  function PriorityIndex(priority: nat): nat
    requires THREAD_PRIORITY_MIN <= priority <= THREAD_PRIORITY_MAX
  {
    var count := THREAD_PRIORITY_MAX - THREAD_PRIORITY_MIN + 1;
    (count - (priority - THREAD_PRIORITY_MIN)) / count * (BUCKETS - 1)
  }

  /**
    A higher priority never gets a worse bucket; but the integer division makes
    two buckets of the 32, so only the lowest priority is told from the others.
  */
  lemma BucketsByPriority(p: nat, q: nat)
    requires THREAD_PRIORITY_MIN <= p <= THREAD_PRIORITY_MAX && THREAD_PRIORITY_MIN <= q <= THREAD_PRIORITY_MAX
    ensures PriorityIndex(p) == if p == 1 then 31 else 0
    ensures PriorityIndex(p) < BUCKETS
    ensures q <= p ==> PriorityIndex(p) <= PriorityIndex(q)
    ensures PriorityIndex(p) < PriorityIndex(q) <==> q == THREAD_PRIORITY_MIN < p
  {
    OneOfTwo(p);
    OneOfTwo(q);
  }

  lemma IndexBound(p: nat)
    requires THREAD_PRIORITY_MIN <= p <= THREAD_PRIORITY_MAX
    ensures PriorityIndex(p) < BUCKETS
  {
    OneOfTwo(p);
  }

  lemma OneOfTwo(p: nat)
    requires THREAD_PRIORITY_MIN <= p <= THREAD_PRIORITY_MAX
    ensures PriorityIndex(p) == if p == THREAD_PRIORITY_MIN then BUCKETS - 1 else 0
  {
    var count := THREAD_PRIORITY_MAX - THREAD_PRIORITY_MIN + 1;
    var rest := count - (p - THREAD_PRIORITY_MIN);
    assert rest / count == if p == THREAD_PRIORITY_MIN then 1 else 0;
  }

  class Thread {
    var priority: nat
    var affinity: set<nat>
    var active: bool
    var runnablePriority: int

    constructor (priority: nat, affinity: set<nat>)
      ensures this.priority == priority && this.affinity == affinity && !active && runnablePriority == -1
    {
      this.priority, this.affinity := priority, affinity;
      active, runnablePriority := false, -1;
    }

    /** May be given to this processor now. */
    predicate Eligible(processor: nat)
      reads this
    {
      !active && processor in affinity
    }
  }

  ghost predicate NoneEligible(list: seq<Thread>, processor: nat)
    reads set t | t in list
  {
    forall k :: 0 <= k < |list| ==> !list[k].Eligible(processor)
  }

  /** __builtin_ffsl less one. */
  method FirstSet(mask: seq<bool>) returns (i: nat)
    requires true in mask
    ensures i < |mask| && mask[i] && forall j :: 0 <= j < i ==> !mask[j]
  {
    i := 0;
    while !mask[i]
      invariant i < |mask| && (forall j :: 0 <= j < i ==> !mask[j])
      invariant exists j :: i <= j < |mask| && mask[j]
      decreases |mask| - i
    {
      i := i + 1;
    }
  }

  class ReadyQueues {
    var queues: seq<seq<Thread>>
    var mask: seq<bool>

    /** Every thread that has ever been queued. */
    ghost var threads: set<Thread>

    /** Mask bits, buckets and the threads' own priorities agree. */
    ghost predicate Valid()
      reads this, threads
    {
      && |queues| == |mask| == BUCKETS
      && (forall i :: 0 <= i < BUCKETS ==> (mask[i] <==> queues[i] != []))
      && (forall i, k :: 0 <= i < BUCKETS && 0 <= k < |queues[i]| ==>
            queues[i][k] in threads && queues[i][k].runnablePriority == i)
      && (forall t :: t in threads ==>
            t.runnablePriority < BUCKETS && (0 <= t.runnablePriority ==> t in queues[t.runnablePriority]))
      && (forall i, j, k :: 0 <= i < BUCKETS && 0 <= j < k < |queues[i]| ==> queues[i][j] != queues[i][k])
    }

    constructor ()
      ensures Valid() && threads == {} && forall i :: 0 <= i < BUCKETS ==> queues[i] == []
    {
      queues := seq(BUCKETS, _ => []);
      mask := seq(BUCKETS, _ => false);
      threads := {};
    }

    /** A thread is in at most one bucket, once, and its own priority says which. */
    lemma OnePlace(t: Thread, i: nat, j: nat, k: nat, l: nat)
      requires Valid() && i < BUCKETS && j < BUCKETS && k < |queues[i]| && l < |queues[j]|
      requires queues[i][k] == t == queues[j][l]
      ensures i == j == t.runnablePriority && k == l
    {
      assert queues[i][k].runnablePriority == i && queues[j][l].runnablePriority == j;
    }

    method QueueRunnableThread(thread: Thread, idle: Thread)
      requires Valid()
      requires thread != idle ==>
                 thread.runnablePriority < 0 && THREAD_PRIORITY_MIN <= thread.priority <= THREAD_PRIORITY_MAX
      modifies this, thread`runnablePriority
      ensures Valid()
      ensures thread == idle ==> queues == old(queues) && thread.runnablePriority == old(thread.runnablePriority)
      ensures thread != idle ==>
                var i := PriorityIndex(thread.priority);
                i < BUCKETS && queues == old(queues)[i := old(queues)[i] + [thread]] && thread.runnablePriority == i
      ensures threads == if thread == idle then old(threads) else old(threads) + {thread}
    {
      if thread == idle {
        return;
      }
      IndexBound(thread.priority);
      hide PriorityIndex;
      var i := PriorityIndex(thread.priority);
      NotQueued(thread);
      thread.runnablePriority := i;
      threads := threads + {thread};
      var wasEmpty := queues[i] == [];
      queues := queues[i := queues[i] + [thread]];
      if wasEmpty {
        mask := mask[i := true];
      }
    }

    lemma NotQueued(t: Thread)
      requires Valid() && t.runnablePriority < 0
      ensures forall i :: 0 <= i < BUCKETS ==> t !in queues[i]
    {
    }

    /** Take one thread out of its bucket. */
    method Unlink(thread: Thread, i: nat, k: nat)
      requires Valid() && i < BUCKETS && k < |queues[i]| && queues[i][k] == thread
      modifies this, thread`runnablePriority
      ensures Valid() && queues == old(queues)[i := old(queues)[i][..k] + old(queues)[i][k + 1..]]
      ensures thread.runnablePriority == -1 && threads == old(threads)
    {
      ghost var before := queues[i];
      thread.runnablePriority := -1;
      queues := queues[i := queues[i][..k] + queues[i][k + 1..]];
      if queues[i] == [] {
        mask := mask[i := false];
      }
      forall t | t in threads && t.runnablePriority == i
        ensures t in queues[i]
      {
        assert t in before;
        var j :| 0 <= j < |before| && before[j] == t;
        assert if j < k then queues[i][j] == t else queues[i][j - 1] == t;
      }
    }

    method DequeueRunnableThread(thread: Thread, idle: Thread, processor: nat, checkAffinity: bool) returns (r: bool)
      requires Valid() && (thread.runnablePriority >= 0 ==> thread in threads)
      modifies this, thread`runnablePriority
      ensures Valid() && threads == old(threads)
      ensures r <==> thread == idle
                     || (old(thread.runnablePriority) >= 0 && (checkAffinity ==> processor in thread.affinity))
      ensures !r || thread == idle ==> queues == old(queues) && thread.runnablePriority == old(thread.runnablePriority)
      ensures r && thread != idle ==> thread.runnablePriority == -1 && Without(old(queues), queues, thread, old(thread.runnablePriority))
    {
      if thread == idle {
        return true;
      }
      var i := thread.runnablePriority;
      if i < 0 {
        return false;
      }
      if checkAffinity && processor !in thread.affinity {
        return false;
      }
      assert mask[i];
      ghost var before := queues;
      var k: nat :| k < |queues[i]| && queues[i][k] == thread;
      Unlink(thread, i, k);
      assert before[i][k] == thread;
      return true;
    }
  
    /** The oldest eligible thread of the best bucket that has one, or else the idle thread. */
    method PullNextRunnableThread(processor: nat, idle: Thread)
      returns (r: Thread, ghost found: bool, ghost i: nat, ghost k: nat)
      requires Valid()
      modifies this, threads
      ensures Valid() && threads == old(threads)
      ensures found ==> i < BUCKETS && k < |old(queues)[i]| && old(queues)[i][k] == r && old(r.Eligible(processor))
      ensures found ==> old(NoneEligible(queues[i][..k], processor))
      ensures found ==> forall j :: 0 <= j < i ==> old(NoneEligible(queues[j], processor))
      ensures found ==> queues == old(queues)[i := old(queues)[i][..k] + old(queues)[i][k + 1..]]
      ensures found ==> r.runnablePriority == -1 && r.active && !old(r.active) && processor in r.affinity
      ensures !found ==> r == idle && queues == old(queues)
      ensures !found ==> forall t :: t in threads && t.runnablePriority >= 0 ==> t.active || processor !in t.affinity
      ensures !found ==> forall j :: 0 <= j < BUCKETS ==> old(NoneEligible(queues[j], processor))
      ensures forall t :: t in threads && !(found && t == r) ==>
                t.runnablePriority == old(t.runnablePriority) && t.active == old(t.active)
      ensures forall t :: t in threads ==> t.affinity == old(t.affinity) && t.priority == old(t.priority)
    {
      var hit, bucket, place := Select(processor);
      found, i, k := hit, bucket, place;
      if !hit {
        return idle, false, 0, 0;
      }
      r := queues[bucket][place];
      Unlink(r, bucket, place);
      r.active := true;
    }

    /** The walk over the mask: the place of the thread to pull. */
    method Select(processor: nat) returns (found: bool, i: nat, k: nat)
      requires Valid()
      ensures found ==> i < BUCKETS && k < |queues[i]| && queues[i][k].Eligible(processor)
      ensures found ==> NoneEligible(queues[i][..k], processor)
      ensures found ==> forall j :: 0 <= j < i ==> NoneEligible(queues[j], processor)
      ensures !found ==> forall j :: 0 <= j < BUCKETS ==> NoneEligible(queues[j], processor)
    {
      var priorityMask := mask;
      ghost var low: nat := 0;
      while true in priorityMask
        invariant low <= BUCKETS && |priorityMask| == BUCKETS
        invariant forall j :: 0 <= j < low ==> !priorityMask[j] && NoneEligible(queues[j], processor)
        invariant forall j :: low <= j < BUCKETS ==> priorityMask[j] == mask[j]
        decreases BUCKETS - low
      {
        i := FirstSet(priorityMask);
        k := SearchBucket(queues[i], processor);
        if k < |queues[i]| {
          return true, i, k;
        }
        priorityMask := priorityMask[i := false];
        low := i + 1;
      }
      return false, 0, 0;
    }
  }

  /** The inner loop of pull_next_runnable_thread: the first eligible thread, or the end of the list. */
  method SearchBucket(list: seq<Thread>, processor: nat) returns (at: nat)
    ensures at <= |list| && NoneEligible(list[..at], processor)
    ensures at < |list| ==> list[at].Eligible(processor)
  {
    at := 0;
    while at < |list|
      invariant at <= |list| && NoneEligible(list[..at], processor)
    {
      if !list[at].active {
        if processor in list[at].affinity {
          return;
        }
      }
      at := at + 1;
    }
  }

  /** The bucket lost that thread and kept the order of the others. */
  ghost predicate Without(before: seq<seq<Thread>>, after: seq<seq<Thread>>, t: Thread, i: int) {
    && 0 <= i < |before|
    && exists k :: 0 <= k < |before[i]| && before[i][k] == t && after == before[i := before[i][..k] + before[i][k + 1..]]
  }

  /** Two threads of one priority in the ready queues, and nothing else. */
  method TwoQueued(affinity: set<nat>, affinity': set<nat>) returns (ready: ReadyQueues, first: Thread, second: Thread, idle: Thread)
    ensures fresh(ready) && fresh(first) && fresh(second) && first != second && idle !in {first, second}
    ensures ready.Valid() && ready.threads == {first, second} && 0 <= first.runnablePriority == second.runnablePriority
    ensures first.affinity == affinity && second.affinity == affinity' && !first.active && !second.active
  {
    hide PriorityIndex;
    ready := new ReadyQueues();
    idle := new Thread(THREAD_PRIORITY_MIN, {});
    first := new Thread(50, affinity);
    second := new Thread(50, affinity');
    ready.QueueRunnableThread(first, idle);
    ready.QueueRunnableThread(second, idle);
  }

  /** Of two queued threads the first may not run on this processor: the second is pulled, and the first stays. */
  method PassedOver(processor: nat, other: nat) returns (first: Thread, second: Thread, pulled: Thread, again: Thread, idle: Thread)
    requires processor != other
    ensures first != second && pulled == second && again == idle != first && first.runnablePriority >= 0
  {
    var ready;
    ready, first, second, idle := TwoQueued({other}, {processor});
    ghost var found, i, k;
    pulled, found, i, k := ready.PullNextRunnableThread(processor, idle);
    again, found, i, k := ready.PullNextRunnableThread(processor, idle);
  }
}
