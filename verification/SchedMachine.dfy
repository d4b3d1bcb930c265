/** The scheduler as a state machine: the current thread, the three queues, and the steps
    that create, switch, end, kill and reap threads. */
module SchedMachine {
  import opened Sequences

  const TASK_READY := 0
  const TASK_RUNNING := 1
  const TASK_BLOCKED := 2
  const TASK_EXITED := 3

  /** `freed` lists the threads whose memory was given back, oldest first. */
  datatype State<T(==)> = State(current: T, ready: seq<T>, wait: seq<T>, zombie: seq<T>, freed: seq<T>, status: map<T,
                                int>)

  /** `Creating` is also what fork does to the queues; `Launching` is `_exec`, which makes
      the new thread current while it is still in the ready queue. */
  datatype Op<T> = Creating(t: T) | Launching(t: T) | Scheduling | Exiting | Killing(t: T) | Reaping

  /** `rm_thread_task`. */
  function Remove<T(==)>(q: seq<T>, t: T): (r: seq<T>)
    ensures |r| <= |q|
  {
    if q == [] then [] else if q[0] == t then q[1..] else [q[0]] + Remove(q[1..], t)
  }

  /** Where `schedule` puts the thread that stops running. */
  function Park<T>(s: State<T>): State<T>
    requires s.current in s.status
  {
    var st := s.status[s.current];
    if st == TASK_RUNNING then s.(status := s.status[s.current := TASK_READY], ready := s.ready + [s.current])
    else if st == TASK_BLOCKED then s.(wait := s.wait + [s.current])
    else if st == TASK_EXITED then s.(zombie := s.zombie + [s.current])
    else s
  }

  /** `schedule`. */
  function Schedule<T>(s: State<T>): State<T>
    requires s.current in s.status
  {
    if s.ready == [] || s.ready[0] == s.current then s
    else if TASK_READY <= s.status[s.current] <= TASK_EXITED then Switch(Park(s), s.ready[0])
    else s
  }

  function Switch<T>(s: State<T>, next: T): State<T>
    requires s.ready != []
  {
    s.(status := s.status[next := TASK_RUNNING], ready := s.ready[1..], current := next)
  }

  function Detached<T>(s: State<T>, t: T): State<T> {
    s.(ready := Remove(s.ready, t), wait := Remove(s.wait, t), status := s.status[t := TASK_EXITED])
  }

  predicate Enabled<T>(s: State<T>, op: Op<T>) {
    match op
    case Creating(t) => t !in s.status
    case Launching(t) => t !in s.status
    case Killing(t) => t in s.ready || t in s.wait
    case _ => true
  }

  function Step<T>(s: State<T>, op: Op<T>): State<T>
    requires s.current in s.status
  {
    match op
    case Creating(t) => s.(ready := s.ready + [t], status := s.status[t := TASK_READY])
    case Launching(t) => s.(ready := s.ready + [t], status := s.status[t := TASK_READY], current := t)
    case Scheduling => Schedule(s)
    case Exiting => Schedule(Detached(s, s.current))
    case Killing(t) =>
      var d := Detached(s, t);
      if s.current == t then Schedule(d) else d.(zombie := d.zombie + [t])
    case Reaping => s.(freed := s.freed + s.zombie, zombie := [])
  }

  // ---------------------------------------------------------------- the invariant

  ghost predicate Apart<T>(p: seq<T>, q: seq<T>) {
    forall x :: x in p ==> x !in q
  }

  ghost predicate AllIn<T>(q: seq<T>, status: map<T, int>, st: int) {
    forall x :: x in q ==> x in status && status[x] == st
  }

  /** Queues are duplicate-free and disjoint from each other and from what was freed, their
      members have the matching state, and the current thread is in the ready queue exactly
      when its state is READY and in no other queue ever. */
  ghost predicate Inv<T>(s: State<T>) {
    && NoDup(s.ready) && NoDup(s.wait) && NoDup(s.zombie) && NoDup(s.freed)
    && AllIn(s.ready, s.status, TASK_READY) && AllIn(s.wait, s.status, TASK_BLOCKED)
    && AllIn(s.zombie, s.status, TASK_EXITED) && AllIn(s.freed, s.status, TASK_EXITED)
    && Apart(s.zombie, s.freed)
    && s.current in s.status && TASK_READY <= s.status[s.current] <= TASK_EXITED
    && (s.current in s.ready <==> s.status[s.current] == TASK_READY)
    && s.current !in s.wait && s.current !in s.zombie && s.current !in s.freed
  }

  lemma {:induction false} RemoveSpec<T>(q: seq<T>, t: T)
    requires NoDup(q)
    ensures NoDup(Remove(q, t)) && t !in Remove(q, t)
    ensures forall x :: x in Remove(q, t) <==> x in q && x != t
    ensures t !in q ==> Remove(q, t) == q
  {
    if q != [] {
      var r := q[1..];
      assert q == [q[0]] + r;
      if q[0] == t {
        assert forall i :: 0 <= i < |r| ==> r[i] == q[i + 1];
      } else {
        RemoveSpec(r, t);
        NoDupCons(q[0], Remove(r, t));
        assert q[0] !in r;
      }
    }
  }

  lemma NoDupConcat<T>(p: seq<T>, q: seq<T>)
    requires NoDup(p) && NoDup(q) && Apart(p, q)
    ensures NoDup(p + q)
  {
    forall i, j | 0 <= i < j < |p + q| ensures (p + q)[i] != (p + q)[j] {
      if i < |p| <= j {
        assert p[i] in p && q[j - |p|] in q;
      }
    }
  }

  lemma SwitchInv<T>(s: State<T>, next: T)
    requires s.ready != [] && s.ready[0] == next && NoDup(s.ready) && NoDup(s.wait) && NoDup(s.zombie) && NoDup(s.freed)
    requires AllIn(s.ready, s.status, TASK_READY) && AllIn(s.wait, s.status, TASK_BLOCKED)
    requires AllIn(s.zombie, s.status, TASK_EXITED) && AllIn(s.freed, s.status, TASK_EXITED) && Apart(s.zombie, s.freed)
    ensures Inv(Switch(s, next))
    ensures Switch(s, next).status[next] == TASK_RUNNING
  {
  }

  lemma ScheduleInv<T>(s: State<T>)
    requires Inv(s)
    ensures Inv(Schedule(s))
  {
    hide NoDup;
    if s.ready != [] && s.ready[0] != s.current {
      var st := s.status[s.current];
      if st == TASK_RUNNING {
        NoDupAppend(s.ready, s.current);
      } else if st == TASK_BLOCKED {
        NoDupAppend(s.wait, s.current);
      } else if st == TASK_EXITED {
        NoDupAppend(s.zombie, s.current);
      }
      SwitchInv(Park(s), s.ready[0]);
    }
  }

  /** Taking a thread that is current or queued off its queues and marking it exited. */
  lemma DetachedInv<T>(s: State<T>, t: T)
    requires Inv(s) && (t == s.current || t in s.ready || t in s.wait)
    ensures t == s.current ==> Inv(Detached(s, t))
    ensures t != s.current ==> Inv(Detached(s, t).(zombie := s.zombie + [t]))
  {
    hide NoDup;
    RemoveSpec(s.ready, t);
    RemoveSpec(s.wait, t);
    var d := Detached(s, t);
    assert AllIn(d.ready, d.status, TASK_READY);
    assert AllIn(d.wait, d.status, TASK_BLOCKED);
    assert AllIn(d.zombie, d.status, TASK_EXITED);
    assert AllIn(d.freed, d.status, TASK_EXITED);
    if t != s.current {
      assert t in s.status && s.status[t] != TASK_EXITED;
      assert t !in s.zombie && t !in s.freed;
      NoDupAppend(s.zombie, t);
      assert AllIn(s.zombie + [t], d.status, TASK_EXITED);
      assert Apart(s.zombie + [t], s.freed);
    }
  }

  lemma StepInv<T>(s: State<T>, op: Op<T>)
    requires Inv(s) && Enabled(s, op)
    ensures Inv(Step(s, op))
  {
    hide NoDup, Remove;
    match op
    case Creating(t) => NoDupAppend(s.ready, t);
    case Launching(t) => NoDupAppend(s.ready, t);
    case Scheduling => ScheduleInv(s);
    case Exiting =>
      DetachedInv(s, s.current);
      ScheduleInv(Detached(s, s.current));
    case Killing(t) =>
      DetachedInv(s, t);
      if s.current == t {
        ScheduleInv(Detached(s, t));
      }
    case Reaping =>
      assert forall x :: x in s.freed ==> x !in s.zombie;
      NoDupConcat(s.freed, s.zombie);
      assert AllIn(s.freed + s.zombie, s.status, TASK_EXITED);
      NoDupEmpty<T>();
  }

  // ---------------------------------------------------------------- runs

  /** After `sched_init`: the idle task runs off-queue and the idle thread is ready. */
  function Initial<T>(idleTask: T, idleThread: T): State<T> {
    State(idleTask, [idleThread], [], [], [], map[idleTask := TASK_RUNNING, idleThread := TASK_READY])
  }

  lemma InitialInv<T>(idleTask: T, idleThread: T)
    requires idleTask != idleThread
    ensures Inv(Initial(idleTask, idleThread))
  {
  }

  ghost predicate Run<T>(s: State<T>, ops: seq<Op<T>>)
    decreases |ops|
  {
    Inv(s) && (ops == [] || (Enabled(s, ops[0]) && Run(Step(s, ops[0]), ops[1..])))
  }

  ghost function Reached<T>(s: State<T>, ops: seq<Op<T>>): (r: State<T>)
    requires Run(s, ops)
    ensures Inv(r)
    decreases |ops|
  {
    if ops == [] then s else Reached(Step(s, ops[0]), ops[1..])
  }

  /** A zombie stays one until it is freed, and what was freed stays freed. */
  lemma ZombiesKept<T>(s: State<T>, op: Op<T>)
    requires s.current in s.status
    ensures var r := Step(s, op);
      s.freed <= r.freed && forall z :: z in s.zombie || z in s.freed ==> z in r.zombie || z in r.freed
  {
    hide Remove;
  }

  /** In every run the queues stay duplicate-free and disjoint, and what was freed stays
      freed, once each; a thread that is a zombie at some point is later still a zombie or
      has been freed. */
  lemma {:induction false} RunInv<T>(s: State<T>, ops: seq<Op<T>>)
    requires Run(s, ops)
    ensures Inv(Reached(s, ops))
    ensures s.freed <= Reached(s, ops).freed
    ensures forall z :: z in s.zombie || z in s.freed ==> z in Reached(s, ops).zombie || z in Reached(s, ops).freed
    decreases |ops|
  {
    hide NoDup, AllIn, Apart, Enabled, Step;
    if ops != [] {
      ZombiesKept(s, ops[0]);
      RunInv(Step(s, ops[0]), ops[1..]);
    }
  }

  /** Any sequence of enabled steps is a run: the invariant never stops one. */
  lemma EnabledStepsRun<T>(s: State<T>, ops: seq<Op<T>>, op: Op<T>)
    requires Run(s, ops) && Enabled(Reached(s, ops), op)
    ensures Run(s, ops + [op]) && Reached(s, ops + [op]) == Step(Reached(s, ops), op)
    decreases |ops|
  {
    hide NoDup, AllIn, Apart, Enabled, Step;
    if ops == [] {
      StepInv(s, op);
      assert [op][1..] == [];
      assert ops + [op] == [op];
    } else {
      assert (ops + [op])[1..] == ops[1..] + [op];
      EnabledStepsRun(Step(s, ops[0]), ops[1..], op);
    }
  }

  // ---------------------------------------------------------------- no thread is lost

  predicate Placed<T(==)>(s: State<T>, x: T) {
    x == s.current || x in s.ready || x in s.wait || x in s.zombie || x in s.freed
  }

  /** Every thread ever created is current, in a queue, or freed. */
  ghost predicate Accounted<T>(s: State<T>) {
    forall x :: x in s.status ==> Placed(s, x)
  }

  /** Every step but a launch keeps all threads accounted for. */
  lemma StepAccounts<T>(s: State<T>, op: Op<T>)
    requires Inv(s) && Enabled(s, op) && Accounted(s) && !op.Launching?
    ensures Accounted(Step(s, op))
  {
    hide NoDup, Remove;
    match op
    case Creating(t) =>
    case Scheduling => ScheduleAccounts(s);
    case Exiting =>
      DetachedInv(s, s.current);
      DetachedAccounts(s, s.current);
      ScheduleAccounts(Detached(s, s.current));
    case Killing(t) =>
      DetachedInv(s, t);
      DetachedAccounts(s, t);
      if s.current == t {
        ScheduleAccounts(Detached(s, t));
      }
    case Reaping =>
  }

  lemma ScheduleAccounts<T>(s: State<T>)
    requires Inv(s) && Accounted(s)
    ensures Accounted(Schedule(s))
  {
    hide NoDup;
    if s.ready != [] {
      var rest := s.ready[1..];
      assert s.ready == [s.ready[0]] + rest;
      assert (s.ready + [s.current])[1..] == rest + [s.current];
      assert forall x :: x in s.ready ==> x == s.ready[0] || x in rest;
    }
  }

  lemma DetachedAccounts<T>(s: State<T>, t: T)
    requires Inv(s) && Accounted(s) && (t == s.current || t in s.ready || t in s.wait)
    ensures t == s.current ==> Accounted(Detached(s, t))
    ensures Accounted(Detached(s, t).(zombie := s.zombie + [t]))
  {
    hide NoDup, Remove;
    RemoveSpec(s.ready, t);
    RemoveSpec(s.wait, t);
    assert t in s.zombie + [t];
  }

  /** A launch keeps them exactly when the launching thread is itself in the ready queue;
      otherwise that thread is lost. */
  lemma LaunchAccountsIff<T>(s: State<T>, t: T)
    requires Inv(s) && Accounted(s) && Enabled(s, Launching(t))
    ensures Accounted(Step(s, Launching(t))) <==> s.current in s.ready
    ensures s.current !in s.ready ==> !Placed(Step(s, Launching(t)), s.current)
  {
    assert s.current in Step(s, Launching(t)).status && s.current != t;
  }

  /** A lost thread is never found again, whatever happens. */
  lemma {:induction false} LostForever<T>(s: State<T>, ops: seq<Op<T>>, x: T)
    requires Run(s, ops) && x in s.status && !Placed(s, x)
    ensures x in Reached(s, ops).status && !Placed(Reached(s, ops), x)
    decreases |ops|
  {
    hide NoDup, AllIn, Apart, Enabled, Step, Placed;
    if ops != [] {
      LostStays(s, ops[0], x);
      LostForever(Step(s, ops[0]), ops[1..], x);
    }
  }

  lemma LostStays<T>(s: State<T>, op: Op<T>, x: T)
    requires Inv(s) && Enabled(s, op) && x in s.status && !Placed(s, x)
    ensures x in Step(s, op).status && !Placed(Step(s, op), x)
  {
    hide NoDup, Remove;
    RemoveSpec(s.ready, s.current);
    match op
    case Killing(t) =>
      RemoveSpec(s.ready, t);
      RemoveSpec(s.wait, t);
    case Exiting => RemoveSpec(s.wait, s.current);
    case _ =>
  }

  /** From the start on, no thread is lost in a run without launches. */
  lemma {:induction false} RunAccounts<T>(s: State<T>, ops: seq<Op<T>>)
    requires Run(s, ops) && Accounted(s) && forall i :: 0 <= i < |ops| ==> !ops[i].Launching?
    ensures Accounted(Reached(s, ops))
    decreases |ops|
  {
    hide NoDup, AllIn, Apart, Enabled, Step, Accounted;
    if ops != [] {
      StepAccounts(s, ops[0]);
      RunAccounts(Step(s, ops[0]), ops[1..]);
    }
  }

  lemma InitialAccounted<T>(idleTask: T, idleThread: T)
    ensures Accounted(Initial(idleTask, idleThread))
  {
    assert idleThread in Initial(idleTask, idleThread).ready;
  }

  /** The very first launch loses the idle task. */
  lemma FirstLaunchLoses<T>(a: T, b: T, c: T)
    requires a != b && c !in {a, b}
    ensures a in Initial(a, b).status && !Placed(Step(Initial(a, b), Launching(c)), a)
  {
    InitialInv(a, b);
    InitialAccounted(a, b);
    LaunchAccountsIff(Initial(a, b), c);
  }

  // ---------------------------------------------------------------- removal by position

  lemma {:induction false} RemoveAt<T>(q: seq<T>, i: nat)
    requires NoDup(q) && i < |q|
    ensures Remove(q, q[i]) == q[..i] + q[i + 1..]
  {
    if i > 0 {
      RemoveAt(q[1..], i - 1);
      assert q[1..][i - 1] == q[i] && q[0] != q[i];
      assert [q[0]] + (q[1..][..i - 1] + q[1..][i..]) == q[..i] + q[i + 1..];
    } else {
      assert q[..0] + q[1..] == q[1..];
    }
  }
}
