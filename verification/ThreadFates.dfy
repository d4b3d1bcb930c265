/** What the steps of the scheduler do to each thread: who runs next, where the thread goes that
    stops running, who ends, and what is freed. */
module ThreadFates {
  import opened Sequences
  import opened SchedMachine

  // ---------------------------------------------------------------- round robin

  /** `n` calls of `schedule`. */
  function Calls<T>(n: nat): (ops: seq<Op<T>>)
    ensures |ops| == n && forall i :: 0 <= i < n ==> ops[i] == Scheduling
  {
    seq(n, _ => Scheduling)
  }

  /** After `i` turns of the ring that the running thread and the ready threads form. */
  ghost function Turned<T>(s: State<T>, i: nat): State<T>
    requires i <= |s.ready|
  {
    var ring := [s.current] + s.ready;
    if i == 0 then s
    else s.(current := ring[i], ready := ring[i + 1..] + ring[..i],
            status := s.status[ring[0] := TASK_READY][ring[i] := TASK_RUNNING])
  }

  lemma RingTurns<T>(ring: seq<T>, i: nat)
    requires i < |ring|
    ensures var q := ring[i + 1..] + ring[..i];
      if i + 1 < |ring| then q[0] == ring[i + 1] && (q + [ring[i]])[1..] == ring[i + 2..] + ring[..i + 1]
      else q == ring[..i] && (i > 0 ==> q[0] == ring[0] && (q + [ring[i]])[1..] == ring[1..])
  {
    var q := ring[i + 1..] + ring[..i];
    assert ring[..i] + [ring[i]] == ring[..i + 1];
    if i + 1 < |ring| {
      assert q[1..] == ring[i + 2..] + ring[..i];
      assert (q + [ring[i]])[1..] == q[1..] + [ring[i]];
    } else {
      assert q == ring[..i] && ring[..i + 1] == ring;
    }
  }

  lemma StatusTurns<T>(status: map<T, int>, a: T, b: T)
    requires a in status && b in status && a != b && status[a] == TASK_RUNNING && status[b] == TASK_READY
    ensures status[a := TASK_READY][b := TASK_RUNNING][b := TASK_READY] == status[a := TASK_READY]
    ensures status[a := TASK_READY][a := TASK_RUNNING] == status
  {
  }

  lemma RingMembers<T>(s: State<T>, i: nat)
    requires Inv(s) && s.status[s.current] == TASK_RUNNING && i <= |s.ready|
    ensures var ring := [s.current] + s.ready;
      && ring[i] in s.status && (i > 0 ==> ring[i] != s.current && s.status[ring[i]] == TASK_READY)
      && forall j :: 0 <= j <= |s.ready| && j != i ==> ring[j] != ring[i]
  {
    assert i > 0 ==> ([s.current] + s.ready)[i] in s.ready;
    assert forall j :: 0 < j <= |s.ready| ==> ([s.current] + s.ready)[j] in s.ready;
  }

  lemma Turn<T>(s: State<T>, i: nat)
    requires Inv(s) && s.status[s.current] == TASK_RUNNING && i <= |s.ready|
    ensures Turned(s, i).current in Turned(s, i).status
    ensures Schedule(Turned(s, i)) == if i < |s.ready| then Turned(s, i + 1) else s
  {
    hide NoDup, AllIn, Apart;
    var ring := [s.current] + s.ready;
    RingMembers(s, i);
    RingTurns(ring, i);
    assert ring[1..] == s.ready && ring[1..] + ring[..0] == s.ready;
    if i > 0 {
      StatusTurns(s.status, s.current, ring[i]);
    }
  }

  lemma {:induction false} Turns<T>(s: State<T>, i: nat, n: nat)
    requires Inv(s) && s.status[s.current] == TASK_RUNNING && i + n == |s.ready| + 1
    requires i <= |s.ready| ==> Inv(Turned(s, i))
    ensures var r := if i <= |s.ready| then Turned(s, i) else s; Run(r, Calls(n)) && Reached(r, Calls(n)) == s
    decreases n
  {
    hide NoDup, AllIn, Apart, Turned, Schedule;
    if n > 0 {
      Turn(s, i);
      ScheduleInv(Turned(s, i));
      Turns(s, i + 1, n - 1);
      assert Calls<T>(n)[1..] == Calls(n - 1);
    }
  }

  /** Round robin: a running thread and the ready threads all have their turn, and then everything
      is as it was. */
  lemma RoundRobin<T>(s: State<T>)
    requires Inv(s) && s.status[s.current] == TASK_RUNNING
    ensures Run(s, Calls(|s.ready| + 1)) && Reached(s, Calls(|s.ready| + 1)) == s
  {
    hide NoDup;
    Turns(s, 0, |s.ready| + 1);
  }

  // ---------------------------------------------------------------- what becomes of a thread

  /** Ready or running, as opposed to blocked or exited. */
  predicate Runnable(st: int) {
    st == TASK_READY || st == TASK_RUNNING
  }

  /** Neither makes a thread runnable that was not, nor the other way round. */
  predicate SameFate(before: int, after: int) {
    if Runnable(before) then Runnable(after) else after == before
  }

  /** Who comes to exist, and who ends, in a step: only the thread that exits or is killed ends,
      only a created or launched thread is new, and that one is ready.  Nobody else changes
      between runnable, blocked and exited, and only reaping gives memory back. */
  lemma Fates<T>(s: State<T>, op: Op<T>, x: T)
    requires Inv(s) && Enabled(s, op)
    ensures var r := Step(s, op);
      && (x in r.status <==> x in s.status || op == Creating(x) || op == Launching(x))
      && (op == Creating(x) || op == Launching(x) ==> r.status[x] == TASK_READY)
      && (op == Killing(x) || (op.Exiting? && x == s.current) ==> r.status[x] == TASK_EXITED)
      && (x in s.status && op != Killing(x) && !(op.Exiting? && x == s.current) ==>
           SameFate(s.status[x], r.status[x]))
      && (!op.Reaping? ==> r.freed == s.freed)
  {
    hide NoDup, Remove;
    match op
    case Exiting =>
      DetachedInv(s, s.current);
      ScheduleFates(Detached(s, s.current), x);
    case Killing(t) =>
      DetachedInv(s, t);
      if t == s.current {
        ScheduleFates(Detached(s, t), x);
      }
    case Scheduling => ScheduleFates(s, x);
    case _ =>
  }

  lemma ScheduleFates<T>(s: State<T>, x: T)
    requires Inv(s)
    ensures var r := Schedule(s);
      && r.status.Keys == s.status.Keys && r.freed == s.freed
      && (x in s.status ==> SameFate(s.status[x], r.status[x]))
  {
    hide NoDup;
  }

  /** An exited thread stays exited, and once it is not current it never runs again. */
  lemma {:induction false} ExitedForever<T>(s: State<T>, ops: seq<Op<T>>, x: T)
    requires Run(s, ops) && x in s.status && s.status[x] == TASK_EXITED
    ensures x in Reached(s, ops).status && Reached(s, ops).status[x] == TASK_EXITED
    ensures s.current != x ==> Reached(s, ops).current != x
    decreases |ops|
  {
    hide NoDup, AllIn, Apart, Step, Enabled;
    if ops != [] {
      ExitedStays(s, ops[0], x);
      ExitedForever(Step(s, ops[0]), ops[1..], x);
    }
  }

  lemma ExitedStays<T>(s: State<T>, op: Op<T>, x: T)
    requires Inv(s) && Enabled(s, op) && x in s.status && s.status[x] == TASK_EXITED
    ensures var r := Step(s, op); x in r.status && r.status[x] == TASK_EXITED && (s.current != x ==> r.current != x)
  {
    hide NoDup, Remove;
    Fates(s, op, x);
    NewCurrent(s, op);
  }

  /** Whoever becomes current was ready before, or was launched. */
  lemma NewCurrent<T>(s: State<T>, op: Op<T>)
    requires Inv(s) && Enabled(s, op)
    ensures var c := Step(s, op).current; c == s.current || c in s.ready || op == Launching(c)
  {
    hide NoDup, Remove;
    RemoveSpec(s.ready, s.current);
  }

  /** Where a thread that exits or kills itself is afterwards: among the zombies, unless nobody else
      is ready; then it keeps running, exited. */
  lemma WhereExitLeads<T>(s: State<T>, op: Op<T>)
    requires Inv(s) && (op == Exiting || op == Killing(s.current))
    ensures var r := Step(s, op);
      if exists x :: x in s.ready && x != s.current
      then r.zombie == s.zombie + [s.current] && r.current != s.current && s.current !in r.ready
      else r.current == s.current && r.ready == [] && r.zombie == s.zombie
    ensures s.current !in s.ready && s.ready != [] ==>
      Step(s, op).current == s.ready[0] && Step(s, op).ready == s.ready[1..]
  {
    hide NoDup, Remove;
    RemoveSpec(s.ready, s.current);
    var d := Detached(s, s.current);
    DetachedInv(s, s.current);
    assert d.ready != [] ==> d.ready[0] in d.ready;
    assert s.current !in d.ready[..];
    if d.ready != [] {
      assert d.ready == [d.ready[0]] + d.ready[1..];
    }
  }

  /** A killed thread that is not current is a zombie right away. */
  lemma WhereKillLeads<T>(s: State<T>, t: T)
    requires Inv(s) && Enabled(s, Killing(t)) && t != s.current
    ensures var r := Step(s, Killing(t));
      && r.current == s.current && r.zombie == s.zombie + [t]
      && TakenOut(s.ready, t, r.ready) && TakenOut(s.wait, t, r.wait)
  {
    hide NoDup, Remove;
    RemoveTakesOut(s.ready, t);
    RemoveTakesOut(s.wait, t);
  }

  /** `r` is `q` without `t`, in the same order. */
  ghost predicate TakenOut<T>(q: seq<T>, t: T, r: seq<T>) {
    if t in q then exists i :: 0 <= i < |q| && q[i] == t && r == q[..i] + q[i + 1..] else r == q
  }

  lemma RemoveTakesOut<T>(q: seq<T>, t: T)
    requires NoDup(q)
    ensures TakenOut(q, t, Remove(q, t))
  {
    hide NoDup, Remove;
    if t in q {
      var i :| 0 <= i < |q| && q[i] == t;
      RemoveAt(q, i);
    } else {
      RemoveSpec(q, t);
    }
  }

  // ---------------------------------------------------------------- reaping

  /** Reaping frees exactly the zombies, and touches nothing else. */
  lemma ReapingFrees<T>(s: State<T>)
    ensures var r := Step(s, Reaping);
      && r.zombie == [] && Elems(r.freed) == Elems(s.freed) + Elems(s.zombie)
      && r.current == s.current && r.ready == s.ready && r.wait == s.wait && r.status == s.status
    requires s.current in s.status
  {
  }

  /** A thread that is a zombie before some reaping of a run is freed at its end. */
  lemma {:induction false} ReapedInRun<T>(s: State<T>, ops: seq<Op<T>>, z: T)
    requires Run(s, ops) && (z in s.zombie || z in s.freed)
    ensures z in s.freed || (exists i :: 0 <= i < |ops| && ops[i].Reaping?) ==> z in Reached(s, ops).freed
    decreases |ops|
  {
    hide NoDup, AllIn, Apart, Step, Enabled;
    if ops != [] {
      ZombiesKept(s, ops[0]);
      if ops[0].Reaping? {
        ReapingFrees(s);
        assert z in Elems(s.freed) + Elems(s.zombie);
        assert z in Elems(Step(s, ops[0]).freed);
      }
      ReapedInRun(Step(s, ops[0]), ops[1..], z);
      assert forall i :: 1 <= i < |ops| ==> ops[i] == ops[1..][i - 1];
    }
  }
}
