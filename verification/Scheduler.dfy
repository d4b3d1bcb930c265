/** The scheduler's threads and queues in memory: singly linked lists threaded through the
    `next` field of the threads, updated in place. */
module Scheduler {
  import opened Sequences
  import opened SchedMachine

  class ThreadTask {
    const id: nat
    var state: int
    var next: ThreadTask?

    constructor (id: nat, state: int)
      ensures this.id == id && this.state == state && next == null
    {
      this.id, this.state, next := id, state, null;
    }
  }

  /** The thread after position `i`, or null at the end. */
  ghost function Next(q: seq<ThreadTask>, i: nat): ThreadTask?
    requires i < |q|
  {
    if i + 1 < |q| then q[i + 1] else null
  }

  /** From `head`, the `next` fields run through exactly `q`. */
  ghost predicate Chain(head: ThreadTask?, q: seq<ThreadTask>)
    reads Elems(q)`next
  {
    && head == (if q == [] then null else q[0])
    && forall i {:trigger q[i]} :: 0 <= i < |q| ==> q[i].next == Next(q, i)
  }

  /** Two queues, given by their heads and threads, that an update elsewhere leaves alone. */
  datatype Others = Others(h: ThreadTask?, p: seq<ThreadTask>, k: ThreadTask?, r: seq<ThreadTask>)

  ghost predicate Intact(o: Others)
    reads Elems(o.p)`next, Elems(o.r)`next
  {
    Chain(o.h, o.p) && Chain(o.k, o.r)
  }

  ghost predicate Outside(o: Others, q: seq<ThreadTask>) {
    forall x :: x in q ==> x !in o.p && x !in o.r
  }

  lemma ChainHead(head: ThreadTask?, q: seq<ThreadTask>)
    requires Chain(head, q)
    ensures head == if q == [] then null else q[0]
  {
  }

  lemma ChainEmpty()
    ensures Chain(null, [])
  {
  }

  /** `add_thread_task`. */
  method AddThreadTask(queue: ThreadTask?, task: ThreadTask, ghost q: seq<ThreadTask>, ghost o: Others)
    returns (head: ThreadTask?)
    requires Chain(queue, q) && NoDup(q) && task !in q
    requires Intact(o) && Outside(o, q) && Outside(o, [task])
    modifies Elems(q)`next, task`next
    ensures Chain(head, q + [task]) && Intact(o)
  {
    head := queue;
    if queue == null {
      head := task;
    } else {
      var current: ThreadTask := queue;
      ghost var i := 0;
      assert q[0].next == Next(q, 0);
      while current.next != null
        invariant 0 <= i < |q| && current == q[i] && current.next == Next(q, i)
        decreases |q| - i
      {
        current := current.next;
        i := i + 1;
        assert q[i].next == Next(q, i);
      }
      assert current !in o.p && current !in o.r;
      current.next := task;
    }
    assert task !in o.p && task !in o.r;
    task.next := null;
    ghost var r := q + [task];
    forall j | 0 <= j < |r| ensures r[j].next == Next(r, j) {
      assert j < |q| ==> r[j] == q[j];
    }
  }

  /** `pop_thread_task`: the popped thread keeps a stale `next`. */
  method PopThreadTask(queue: ThreadTask?, ghost q: seq<ThreadTask>, ghost o: Others)
    returns (task: ThreadTask?, head: ThreadTask?)
    requires Chain(queue, q) && Intact(o)
    ensures Intact(o)
    ensures q == [] ==> task == null && head == null
    ensures q != [] ==> task == q[0] && Chain(head, q[1..])
  {
    if queue == null {
      return null, null;
    }
    task := queue;
    assert q[0].next == Next(q, 0);
    head := queue.next;
    ghost var r := q[1..];
    forall j | 0 <= j < |r| ensures r[j].next == Next(r, j) {
      assert r[j] == q[j + 1];
    }
  }

  /** `rm_thread_task`: nothing happens when the thread is not in the queue. */
  method RmThreadTask(queue: ThreadTask?, task: ThreadTask, ghost q: seq<ThreadTask>, ghost o: Others)
    returns (head: ThreadTask?)
    requires Chain(queue, q) && NoDup(q)
    requires Intact(o) && Outside(o, q)
    modifies Elems(q)`next
    ensures Chain(head, Remove(q, task)) && Intact(o)
  {
    head := queue;
    if queue == null {
      return;
    }
    var current: ThreadTask?, prev: ThreadTask? := queue, null;
    ghost var i := 0;
    while current != null && current != task
      invariant 0 <= i <= |q| && current == (if i < |q| then q[i] else null)
      invariant prev == (if i > 0 then q[i - 1] else null)
      invariant task !in q[..i]
      decreases |q| - i
    {
      prev := current;
      current := current.next;
      i := i + 1;
    }
    if current == null {
      assert q[..i] == q;
      RemoveSpec(q, task);
    } else {
      RemoveAt(q, i);
      head := Bypass(queue, prev, current, q, i, o);
    }
  }

  /** The relinking of `rm_thread_task` around the thread at position `i`. */
  method Bypass(queue: ThreadTask?, prev: ThreadTask?, current: ThreadTask, ghost q: seq<ThreadTask>, ghost i: nat,
                ghost o: Others)
    returns (head: ThreadTask?)
    requires Chain(queue, q) && NoDup(q) && i < |q| && current == q[i]
    requires prev == (if i > 0 then q[i - 1] else null)
    requires Intact(o) && Outside(o, q)
    modifies Elems(q)`next
    ensures Chain(head, q[..i] + q[i + 1..]) && Intact(o)
  {
    hide NoDup;
    head := queue;
    ghost var r := q[..i] + q[i + 1..];
    assert current.next == Next(q, i);
    if prev == null {
      head := current.next;
    } else {
      PositionsDiffer(q, i - 1);
      assert prev !in o.p && prev !in o.r;
      prev.next := current.next;
    }
    forall j | 0 <= j < |r| ensures r[j].next == Next(r, j) {
      var m := if j < i then j else j + 1;
      assert r[j] == q[m] && (m != i - 1 ==> q[m].next == Next(q, m));
    }
  }

  /** `task` is the first thread of the queue with that id. */
  ghost predicate IsFirst(q: seq<ThreadTask>, task: ThreadTask, pid: nat) {
    exists i :: 0 <= i < |q| && q[i] == task && task.id == pid && forall j :: 0 <= j < i ==> q[j].id != pid
  }

  /** One of the searches of `get_thread_task_by_id`. */
  method FindById(queue: ThreadTask?, pid: nat, ghost q: seq<ThreadTask>, ghost o: Others) returns (task: ThreadTask?)
    requires Chain(queue, q) && Intact(o)
    ensures Chain(queue, q) && Intact(o)
    ensures task != null ==> task.id == pid && task in q
    ensures task == null ==> forall t :: t in q ==> t.id != pid
    ensures task != null ==> IsFirst(q, task, pid)
  {
    task := queue;
    ghost var i := 0;
    while task != null
      invariant 0 <= i <= |q| && task == (if i < |q| then q[i] else null)
      invariant forall j :: 0 <= j < i ==> q[j].id != pid
      decreases |q| - i
    {
      if task.id == pid {
        return;
      }
      assert q[i].next == Next(q, i);
      task := task.next;
      i := i + 1;
    }
  }

  /** The linked queues are exactly the queues of the state machine. */
  ghost predicate Linked(ready: ThreadTask?, wait: ThreadTask?, zombie: ThreadTask?, s: State<ThreadTask>)
    reads Elems(s.ready)`next, Elems(s.wait)`next, Elems(s.zombie)`next
  {
    Chain(ready, s.ready) && Chain(wait, s.wait) && Chain(zombie, s.zombie)
  }

  ghost predicate StatesMatch(status: map<ThreadTask, int>)
    reads status.Keys`state
  {
    forall t :: t in status ==> t.state == status[t]
  }

  lemma QueuesApart<T>(s: State<T>)
    requires Inv(s)
    ensures NoDup(s.ready) && NoDup(s.wait) && NoDup(s.zombie) && s.current in s.status
    ensures forall x :: x in s.ready ==> x !in s.wait && x !in s.zombie
    ensures forall x :: x in s.wait ==> x !in s.zombie
    ensures forall x :: x in s.ready || x in s.wait || x in s.zombie ==> x in s.status
  {
  }

  lemma CurrentQueue<T>(s: State<T>)
    requires Inv(s)
    ensures s.current in s.status && TASK_READY <= s.status[s.current] <= TASK_EXITED
    ensures s.status[s.current] != TASK_READY ==> s.current !in s.ready
    ensures s.current !in s.wait && s.current !in s.zombie
  {
  }

  lemma KnownThread<T>(s: State<T>, t: T)
    requires Inv(s) && (t in s.ready || t in s.wait)
    ensures t in s.status
  {
  }

  /** A killed thread that was not running is in no queue once it is detached. */
  lemma KilledOutside<T>(s: State<T>, t: T)
    requires Inv(s) && t != s.current && (t in s.ready || t in s.wait)
    ensures NoDup(s.zombie) && t !in s.zombie && forall x :: x in s.zombie ==> x in s.status
    ensures t !in Remove(s.ready, t) && t !in Remove(s.wait, t)
    ensures forall x :: x in s.zombie ==> x !in Remove(s.ready, t) && x !in Remove(s.wait, t)
  {
    QueuesApart(s);
    RemoveSpec(s.ready, t);
    RemoveSpec(s.wait, t);
  }

  lemma HeadQueued<T>(s: State<T>)
    requires Inv(s) && s.ready != []
    ensures s.ready[0] in s.status && s.ready[0] in s.ready
  {
  }

  class Scheduler {
    var readyQueue: ThreadTask?
    var waitQueue: ThreadTask?
    var zombieQueue: ThreadTask?
    var current: ThreadTask
    var threadCnt: nat
    ghost var s: State<ThreadTask>

    ghost predicate Valid()
      reads this, s.status.Keys`state, Elems(s.ready)`next, Elems(s.wait)`next, Elems(s.zombie)`next
    {
      && Inv(s) && s.current == current
      && Linked(readyQueue, waitQueue, zombieQueue, s)
      && StatesMatch(s.status)
    }

    /** `sched_init`. */
    constructor ()
      ensures Valid() && fresh(s.status.Keys) && threadCnt == 1
      ensures exists idleThread :: idleThread != current && s == Initial(current, idleThread)
    {
      var idleTask := new ThreadTask(0, TASK_RUNNING);
      var idleThread := new ThreadTask(0, TASK_READY);
      readyQueue, waitQueue, zombieQueue := idleThread, null, null;
      current, threadCnt := idleTask, 1;
      s := Initial(idleTask, idleThread);
      new;
      SchedMachine.InitialInv(idleTask, idleThread);
    }

    /** A new thread that nothing points to yet. */
    method NewThread() returns (task: ThreadTask)
      requires Valid()
      ensures Valid() && fresh(task) && task !in s.status
      ensures task.id == threadCnt && task.state == TASK_READY
    {
      hide Inv, NoDup;
      ghost var known := s.status.Keys;
      task := new ThreadTask(threadCnt, TASK_READY);
      assert task !in known;
    }

    /** The queue part of `thread_create`, and of fork; null when the thread or one of its stacks
        cannot be allocated, in the second case after its id was used up. */
    method ThreadCreate(taskMemory: bool, stackMemory: bool) returns (task: ThreadTask?)
      requires Valid()
      modifies this, Elems(s.ready)`next
      ensures Valid() && threadCnt == old(threadCnt) + (if taskMemory then 1 else 0)
      ensures task == null <==> !(taskMemory && stackMemory)
      ensures task == null ==> s == old(s)
      ensures task != null ==>
        fresh(task) && task.id == old(threadCnt) && Enabled(old(s), Creating(task)) && s == Step(old(s), Creating(task))
    {
      hide Inv, NoDup, Chain, Next;
      if !taskMemory {
        return null;
      }
      QueuesApart(s);
      ghost var before := s;
      var created := NewThread();
      threadCnt := threadCnt + 1;
      if !stackMemory {
        return null;
      }
      StepInv(before, Creating(created));
      readyQueue := AddThreadTask(readyQueue, created, before.ready, Others(waitQueue, before.wait, zombieQueue,
        before.zombie));
      s := Step(before, Creating(created));
      task := created;
    }

    /** `_exec`: the new thread becomes current while it is still queued. */
    method Launch() returns (task: ThreadTask)
      requires Valid()
      modifies this, Elems(s.ready)`next
      ensures Valid() && fresh(task)
      ensures Enabled(old(s), Launching(task)) && s == Step(old(s), Launching(task))
    {
      ghost var before := s;
      task := ThreadCreate(true, true);
      StepInv(before, Launching(task));
      current := task;
      s := Step(before, Launching(task));
    }

    /** `schedule`, up to the switch: the running thread goes to the queue of its state. */
    method ParkCurrent()
      requires Valid()
      modifies `readyQueue, `waitQueue, `zombieQueue, s.status.Keys
      ensures Linked(readyQueue, waitQueue, zombieQueue, Park(s)) && StatesMatch(Park(s).status)
    {
      hide Inv, NoDup, Chain, Next;
      QueuesApart(s);
      CurrentQueue(s);
      var prev := current;
      if prev.state == TASK_RUNNING {
        prev.state := TASK_READY;
        readyQueue := AddThreadTask(readyQueue, prev, s.ready, Others(waitQueue, s.wait, zombieQueue, s.zombie));
      } else if prev.state == TASK_BLOCKED {
        waitQueue := AddThreadTask(waitQueue, prev, s.wait, Others(readyQueue, s.ready, zombieQueue, s.zombie));
      } else if prev.state == TASK_EXITED {
        zombieQueue := AddThreadTask(zombieQueue, prev, s.zombie, Others(readyQueue, s.ready, waitQueue, s.wait));
      } else {
        assert prev.state == TASK_READY;
      }
    }

    method Schedule()
      requires Valid()
      modifies this, s.status.Keys
      ensures Valid() && s == SchedMachine.Schedule(old(s)) && threadCnt == old(threadCnt)
    {
      hide Inv, NoDup, Chain, Next;
      QueuesApart(s);
      CurrentQueue(s);
      ScheduleInv(s);
      ChainHead(readyQueue, s.ready);
      var prev, next := current, readyQueue;
      if next == null || next == prev {
        return;
      }
      HeadQueued(s);
      ghost var t := Park(s);
      ParkCurrent();
      RunNext(next, t);
    }

    /** `schedule`, the switch: the first ready thread leaves its queue and becomes current. */
    method RunNext(first: ThreadTask, ghost t: State<ThreadTask>)
      requires t.ready != [] && t.ready[0] == first && first in t.status
      requires Linked(readyQueue, waitQueue, zombieQueue, t) && StatesMatch(t.status)
      modifies `readyQueue, `current, `s, first`state
      ensures s == Switch(t, first) && current == first
      ensures Linked(readyQueue, waitQueue, zombieQueue, s) && StatesMatch(s.status)
    {
      hide Chain, Next, NoDup;
      ChainHead(readyQueue, t.ready);
      first.state := TASK_RUNNING;
      assert Chain(readyQueue, t.ready);
      var next: ThreadTask?;
      next, readyQueue := PopThreadTask(readyQueue, t.ready, Others(waitQueue, t.wait, zombieQueue, t.zombie));
      current := next;
      s := Switch(t, next);
    }

    /** Taking a thread off the ready and wait queues, as `_exit` and `_kill` do. */
    method Detach(task: ThreadTask)
      requires Valid() && task in s.status
      modifies `readyQueue, `waitQueue, s.status.Keys
      ensures Linked(readyQueue, waitQueue, zombieQueue, Detached(s, task)) && StatesMatch(Detached(s, task).status)
    {
      hide Inv, NoDup, Chain, Next;
      QueuesApart(s);
      readyQueue := RmThreadTask(readyQueue, task, s.ready, Others(waitQueue, s.wait, zombieQueue, s.zombie));
      RemoveSpec(s.ready, task);
      waitQueue := RmThreadTask(waitQueue, task, s.wait, Others(readyQueue, Remove(s.ready, task), zombieQueue,
        s.zombie));
      MarkExited(task, Detached(s, task));
    }

    method MarkExited(task: ThreadTask, ghost d: State<ThreadTask>)
      requires Linked(readyQueue, waitQueue, zombieQueue, d) && StatesMatch(s.status) && task in s.status
      modifies task`state
      ensures Linked(readyQueue, waitQueue, zombieQueue, d) && StatesMatch(s.status[task := TASK_EXITED])
    {
      task.state := TASK_EXITED;
    }

    /** `_exit`. */
    method Exit()
      requires Valid()
      modifies this, s.status.Keys
      ensures Valid() && s == Step(old(s), Exiting) && threadCnt == old(threadCnt)
    {
      hide NoDup, AllIn, Apart, Chain, Next;
      DetachedInv(s, current);
      ghost var d := Detached(s, current);
      Detach(current);
      s := d;
      Schedule();
    }

    /** `get_thread_task_by_id`, which looks at the ready and the wait queue. */
    method GetThreadTaskById(pid: nat) returns (task: ThreadTask?)
      requires Valid()
      ensures Valid()
      ensures task != null ==> task.id == pid && (task in s.ready || task in s.wait)
      ensures task == null ==> forall t :: t in s.ready || t in s.wait ==> t.id != pid
      ensures task != null ==>
        || IsFirst(s.ready, task, pid)
        || (IsFirst(s.wait, task, pid) && forall t :: t in s.ready ==> t.id != pid)
    {
      hide Inv, Chain;
      task := FindById(readyQueue, pid, s.ready, Others(waitQueue, s.wait, zombieQueue, s.zombie));
      if task == null {
        task := FindById(waitQueue, pid, s.wait, Others(readyQueue, s.ready, zombieQueue, s.zombie));
      }
    }

    /** `_kill`. */
    method Kill(pid: nat) returns (ret: int, ghost killed: ThreadTask?)
      requires Valid()
      modifies this, s.status.Keys
      ensures Valid() && threadCnt == old(threadCnt)
      ensures ret == -1 ==> s == old(s) && forall t :: t in s.ready || t in s.wait ==> t.id != pid
      ensures ret != -1 ==>
        && ret == 0 && killed != null && killed.id == pid
        && Enabled(old(s), Killing(killed)) && s == Step(old(s), Killing(killed))
    {
      hide NoDup, AllIn, Apart, Chain, Next;
      var task := GetThreadTaskById(pid);
      killed := task;
      if task == null {
        return -1, killed;
      }
      KnownThread(s, task);
      DetachedInv(s, task);
      ghost var d := Detached(s, task);
      var curr := current;
      Detach(task);
      if curr == task {
        s := d;
        Schedule();
      } else {
        KilledOutside(s, task);
        ToZombies(task, d);
      }
      ret := 0;
    }

    /** A killed thread that was not running waits to be freed. */
    method ToZombies(task: ThreadTask, ghost d: State<ThreadTask>)
      requires Linked(readyQueue, waitQueue, zombieQueue, d) && StatesMatch(d.status) && d.current == current
      requires NoDup(d.zombie) && task !in d.zombie && task !in d.ready && task !in d.wait
      requires forall x :: x in d.zombie ==> x !in d.ready && x !in d.wait
      requires Inv(d.(zombie := d.zombie + [task]))
      modifies `zombieQueue, `s, Elems(d.zombie)`next, task`next
      ensures Valid() && s == d.(zombie := d.zombie + [task])
    {
      hide Inv, NoDup, Chain, Next;
      zombieQueue := AddThreadTask(zombieQueue, task, d.zombie, Others(readyQueue, d.ready, waitQueue, d.wait));
      s := d.(zombie := d.zombie + [task]);
    }

    /** `kill_zombies`: every zombie is taken off the queue and freed. */
    method KillZombies()
      requires Valid()
      modifies `zombieQueue, `s
      ensures Valid() && s == Step(old(s), Reaping) && zombieQueue == null
      ensures s.zombie == [] && Elems(s.freed) == Elems(old(s).freed) + Elems(old(s).zombie)
      ensures s.current == old(s).current && s.ready == old(s).ready && s.wait == old(s).wait
        && s.status == old(s).status
    {
      hide NoDup, AllIn, Apart, Chain, Next;
      ghost var before, i := s, 0;
      StepInv(before, Reaping);
      ghost var o := Others(readyQueue, s.ready, waitQueue, s.wait);
      var zombie: ThreadTask?;
      assert before.zombie[0..] == before.zombie;
      zombie, zombieQueue := PopThreadTask(zombieQueue, before.zombie, o);
      while zombie != null
        invariant i <= |before.zombie|
        invariant zombie == (if i < |before.zombie| then before.zombie[i] else null)
        invariant i < |before.zombie| ==> Chain(zombieQueue, before.zombie[i + 1..])
        invariant i == |before.zombie| ==> zombieQueue == null
        invariant Intact(o)
        invariant s == before.(freed := before.freed + before.zombie[..i])
        decreases |before.zombie| - i
      {
        s := s.(freed := s.freed + [zombie]);
        assert before.zombie[..i] + [before.zombie[i]] == before.zombie[..i + 1];
        i := i + 1;
        assert before.zombie[i..] != [] ==> before.zombie[i..][1..] == before.zombie[i + 1..];
        zombie, zombieQueue := PopThreadTask(zombieQueue, before.zombie[i..], o);
      }
      assert before.zombie[..i] == before.zombie;
      ChainEmpty();
      s := Step(before, Reaping);
    }
  }
}
