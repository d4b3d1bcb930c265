/** Bounded waiting: how many calls of `schedule` a ready thread can be kept waiting, and the
    exact condition under which there is a bound at all. */
module Waiting {
  import opened Sequences
  import opened SchedMachine

  /** Whether a step enters `schedule`: also the exit and the kill of the current thread do. */
  predicate Enters<T(==)>(s: State<T>, op: Op<T>) {
    op.Scheduling? || op.Exiting? || op == Killing(s.current)
  }

  ghost function Calls<T>(s: State<T>, ops: seq<Op<T>>): nat
    requires Run(s, ops)
    decreases |ops|
  {
    if ops == [] then 0 else (if Enters(s, ops[0]) then 1 else 0) + Calls(Step(s, ops[0]), ops[1..])
  }

  /** Nobody kills `t`; everything else may happen. */
  predicate Spares<T(==)>(ops: seq<Op<T>>, t: T) {
    forall i :: 0 <= i < |ops| ==> ops[i] != Killing(t)
  }

  ghost predicate BecomesCurrent<T>(s: State<T>, ops: seq<Op<T>>, t: T)
    requires Run(s, ops)
    decreases |ops|
  {
    s.current == t || (ops != [] && BecomesCurrent(Step(s, ops[0]), ops[1..], t))
  }

  /** The current thread is not queued before position `k`. */
  predicate NotAhead<T(==)>(s: State<T>, k: nat)
    requires k <= |s.ready|
  {
    forall i :: 0 <= i < k ==> s.ready[i] != s.current
  }

  predicate Waits<T(==)>(s: State<T>, t: T, k: nat) {
    k < |s.ready| && s.ready[k] == t && NotAhead(s, k)
  }

  // ---------------------------------------------------------------- one step

  /** One `schedule` makes the head of the ready queue current and moves everybody else up. */
  lemma ScheduleMoves<T>(s: State<T>, t: T, k: nat)
    requires Inv(s) && Waits(s, t, k) && s.current != t
    ensures if k == 0 then Schedule(s).current == t else Waits(Schedule(s), t, k - 1) && Schedule(s).current != t
  {
  }

  /** Taking another thread out of a queue moves nobody back, and nobody new comes ahead. */
  lemma RemoveMoves<T>(q: seq<T>, x: T, k: nat) returns (j: nat)
    requires NoDup(q) && k < |q| && q[k] != x
    ensures j <= k && j < |Remove(q, x)| && Remove(q, x)[j] == q[k]
    ensures forall m :: 0 <= m < j ==> Remove(q, x)[m] in q[..k]
  {
    hide NoDup, Remove;
    RemoveSpec(q, x);
    if i: nat :| i < |q| && q[i] == x {
      RemoveAt(q, i);
      j := if i < k then k - 1 else k;
      forall m | 0 <= m < j ensures Remove(q, x)[m] in q[..k] {
        assert Remove(q, x)[m] == q[..k][if m < i then m else m + 1];
      }
    } else {
      j := k;
    }
  }

  lemma DetachMoves<T>(s: State<T>, x: T, t: T, k: nat) returns (j: nat)
    requires Inv(s) && Waits(s, t, k) && x != t
    ensures j <= k && Waits(Detached(s, x), t, j)
  {
    hide NoDup, Remove;
    j := RemoveMoves(s.ready, x, k);
  }

  /** What any step but the kill of `t` does to a waiting thread. */
  lemma StepMoves<T>(s: State<T>, op: Op<T>, t: T, k: nat) returns (j: nat)
    requires Inv(s) && Enabled(s, op) && Waits(s, t, k) && s.current != t && op != Killing(t)
    ensures Step(s, op).current == t || (Waits(Step(s, op), t, j) && (if Enters(s, op) then j < k else j <= k))
  {
    hide NoDup, Remove, Schedule;
    j := k;
    match op
    case Creating(x) =>
    case Launching(x) =>
    case Scheduling =>
      ScheduleMoves(s, t, k);
      j := if k > 0 then k - 1 else 0;
    case Exiting =>
      j := LeaveMoves(s, t, k);
    case Killing(x) =>
      if x == s.current {
        j := LeaveMoves(s, t, k);
      } else {
        j := DetachMoves(s, x, t, k);
      }
    case Reaping =>
  }

  /** The current thread ends and another takes over. */
  lemma LeaveMoves<T>(s: State<T>, t: T, k: nat) returns (j: nat)
    requires Inv(s) && Waits(s, t, k) && s.current != t
    ensures var r := Schedule(Detached(s, s.current)); r.current == t || (Waits(r, t, j) && j < k)
  {
    hide NoDup, Remove, Schedule;
    DetachedInv(s, s.current);
    j := DetachMoves(s, s.current, t, k);
    ScheduleMoves(Detached(s, s.current), t, j);
    j := if j > 0 then j - 1 else 0;
  }

  // ---------------------------------------------------------------- whole runs

  /** A thread at position `k` with the current thread not ahead of it becomes current within
      `k + 1` calls of `schedule`, whatever else happens. */
  lemma {:induction false} BoundedWaiting<T>(s: State<T>, ops: seq<Op<T>>, t: T, k: nat)
    requires Run(s, ops) && Spares(ops, t) && Waits(s, t, k) && Calls(s, ops) >= k + 1
    ensures BecomesCurrent(s, ops, t)
    decreases |ops|
  {
    hide NoDup, AllIn, Apart, Step, Waits, Enters, Enabled;
    if s.current != t {
      assert Spares(ops[1..], t);
      var j := StepMoves(s, ops[0], t, k);
      var r := Step(s, ops[0]);
      if r.current == t {
        assert BecomesCurrent(r, ops[1..], t);
      } else {
        BoundedWaiting(r, ops[1..], t, j);
      }
    }
  }

  /** `k + 1` cannot be improved: `n <= k` calls need not be enough. */
  lemma {:induction false} StillWaiting<T>(s: State<T>, t: T, k: nat, n: nat) returns (ops: seq<Op<T>>)
    requires Inv(s) && Waits(s, t, k) && s.current != t && n <= k
    ensures Run(s, ops) && Spares(ops, t) && Calls(s, ops) == n && !BecomesCurrent(s, ops, t)
    decreases n
  {
    hide NoDup, AllIn, Apart, Schedule, Waits;
    ops := [];
    if n > 0 {
      ScheduleMoves(s, t, k);
      ScheduleInv(s);
      ops := StillWaiting(Schedule(s), t, k - 1, n - 1);
      Prepend(s, Scheduling, ops, t);
      ops := [Scheduling] + ops;
    }
  }

  /** A first step before a run in which `t` is never reached. */
  lemma Prepend<T>(s: State<T>, op: Op<T>, ops: seq<Op<T>>, t: T)
    requires Inv(s) && Enabled(s, op) && op != Killing(t) && s.current != t
    requires Run(Step(s, op), ops) && Spares(ops, t) && !BecomesCurrent(Step(s, op), ops, t)
    ensures Run(s, [op] + ops) && Spares([op] + ops, t) && !BecomesCurrent(s, [op] + ops, t)
    ensures Calls(s, [op] + ops) == (if Enters(s, op) then 1 else 0) + Calls(Step(s, op), ops)
  {
    hide NoDup, AllIn, Apart, Step, Enabled;
    assert ([op] + ops)[1..] == ops;
  }

  /** With the current thread queued ahead of `t`, no number of calls is enough: kill those in
      front of the current thread, and every `schedule` returns at once. */
  lemma {:induction false} NeverReached<T>(s: State<T>, t: T, k: nat, m: nat, n: nat) returns (ops: seq<Op<T>>)
    requires Inv(s) && m < k < |s.ready| && s.ready[k] == t && s.ready[m] == s.current
    ensures Run(s, ops) && Spares(ops, t) && Calls(s, ops) == n && !BecomesCurrent(s, ops, t)
    decreases m, n
  {
    assert s.current != t;
    ops := [];
    if m > 0 {
      var x := s.ready[0];
      assert x != s.current && x != t;
      KillHead(s);
      ops := NeverReached(Step(s, Killing(x)), t, k - 1, m - 1, n);
      Prepend(s, Killing(x), ops, t);
      ops := [Killing(x)] + ops;
    } else if n > 0 {
      assert Step(s, Scheduling) == s;
      ops := NeverReached(s, t, k, 0, n - 1);
      Prepend(s, Scheduling, ops, t);
      ops := [Scheduling] + ops;
    }
  }

  lemma KillHead<T>(s: State<T>)
    requires Inv(s) && s.ready != [] && s.ready[0] != s.current
    ensures Enabled(s, Killing(s.ready[0]))
    ensures var r := Step(s, Killing(s.ready[0])); Inv(r) && r.ready == s.ready[1..] && r.current == s.current
  {
    hide NoDup;
    StepInv(s, Killing(s.ready[0]));
  }

  /** `n` calls of `schedule` are always enough for `t`. */
  ghost predicate WaitsAtMost<T(!new)>(s: State<T>, t: T, n: nat) {
    forall ops: seq<Op<T>> :: Run(s, ops) && Spares(ops, t) && Calls(s, ops) >= n ==> BecomesCurrent(s, ops, t)
  }

  /** Bounded waiting exactly: for a thread at position `k` of the ready queue that is not
      already current there is a bound if and only if the current thread is not queued ahead of
      it, and then the least bound is `k + 1`. */
  lemma BoundedWaitingIff<T(!new)>(s: State<T>, t: T, k: nat, n: nat)
    requires Inv(s) && k < |s.ready| && s.ready[k] == t
    ensures WaitsAtMost(s, t, n) <==> s.current == t || (NotAhead(s, k) && n >= k + 1)
  {
    hide Inv, Run, Calls, Spares;
    if s.current == t {
      return;
    }
    hide BecomesCurrent;
    if !NotAhead(s, k) {
      var m: nat :| m < k && s.ready[m] == s.current;
      var ops := NeverReached(s, t, k, m, n);
      assert !WaitsAtMost(s, t, n);
    } else if n <= k {
      var ops := StillWaiting(s, t, k, n);
      assert !WaitsAtMost(s, t, n);
    } else {
      forall ops: seq<Op<T>> | Run(s, ops) && Spares(ops, t) && Calls(s, ops) >= n ensures BecomesCurrent(s, ops, t) {
        BoundedWaiting(s, ops, t, k);
      }
    }
  }

  /** The failing case is reachable: a launch, a creation, and the kill of the idle thread leave
      the launched thread current at the head of the queue, with the new thread behind it. */
  lemma LaunchedGetsAhead<T(!new)>(a: T, b: T, c: T, t: T, n: nat)
    requires a != b && c !in {a, b} && t !in {a, b, c}
    ensures var ops := [Launching(c), Creating(t), Killing(b)];
      && Run(Initial(a, b), ops)
      && Reached(Initial(a, b), ops).current == c && Reached(Initial(a, b), ops).ready == [c, t]
      && !WaitsAtMost(Reached(Initial(a, b), ops), t, n)
  {
    var ops := [Launching(c), Creating(t), Killing(b)];
    var s := Initial(a, b);
    var s1 := Step(s, ops[0]);
    var s2 := Step(s1, ops[1]);
    var s3 := Step(s2, ops[2]);
    assert s1.ready == [b, c] && s2.ready == [b, c, t];
    assert s2.ready[1..] == [c, t];
    InitialInv(a, b);
    hide Inv, Step, Initial;
    StepInv(s, ops[0]);
    StepInv(s1, ops[1]);
    StepInv(s2, ops[2]);
    assert ops[1..] == [Creating(t), Killing(b)] && ops[1..][1..] == [Killing(b)] && ops[1..][1..][1..] == [];
    assert Run(s3, []);
    assert Run(s2, ops[1..][1..]) && Reached(s2, ops[1..][1..]) == s3;
    assert Run(s1, ops[1..]) && Reached(s1, ops[1..]) == s3;
    BoundedWaitingIff(s3, t, 1, n);
  }
}
