/** The timer list: insertion in order of expiration, and one pass of the timer interrupt
    handler, whose callbacks may add timers of their own. */
module Timers {
  import opened Sequences

  /** What a timer does when it fires: print a message, or re-arm itself after a period;
      `keep_schedule` also asks for a reschedule. */
  datatype Callback = PrintMessage | PrintUptime | KeepSchedule

  class Timer {
    const callback: Callback
    const expiration: nat
    var next: Timer?

    constructor (callback: Callback, expiration: nat)
      ensures this.callback == callback && this.expiration == expiration && next == null
    {
      this.callback, this.expiration, next := callback, expiration, null;
    }
  }

  // ---------------------------------------------------------------- the list as a value

  ghost predicate Sorted(l: seq<Timer>) {
    forall i, j :: 0 <= i < j < |l| ==> l[i].expiration <= l[j].expiration
  }

  /** How many timers of `l` expire before `e`: where a timer for `e` is inserted. */
  ghost function Place(l: seq<Timer>, e: nat): (k: nat)
    ensures k <= |l|
    ensures forall i :: 0 <= i < k ==> l[i].expiration < e
    ensures k < |l| ==> l[k].expiration >= e
  {
    if l == [] || l[0].expiration >= e then 0 else 1 + Place(l[1..], e)
  }

  ghost function Insert(l: seq<Timer>, t: Timer): seq<Timer> {
    l[..Place(l, t.expiration)] + [t] + l[Place(l, t.expiration)..]
  }

  lemma PlaceUnique(l: seq<Timer>, e: nat, k: nat)
    requires k <= |l| && (forall i :: 0 <= i < k ==> l[i].expiration < e) && (k < |l| ==> l[k].expiration >= e)
    ensures Place(l, e) == k
  {
  }

  lemma FirstStays(l: seq<Timer>, t: Timer)
    requires Insert(l, t)[0] != t
    ensures l != [] && Insert(l, t)[0] == l[0]
  {
    hide Place, Insert;
    InsertAt(l, t);
  }

  /** The new timer goes before every timer with the same or a later expiration. */
  lemma InsertAt(l: seq<Timer>, t: Timer)
    ensures var k, m := Place(l, t.expiration), Insert(l, t);
      && |m| == |l| + 1 && m[k] == t
      && (forall j :: 0 <= j < k ==> m[j] == l[j])
      && (forall j :: k < j < |m| ==> m[j] == l[j - 1])
  {
    hide Place;
  }

  /** Insertion keeps the list sorted. */
  lemma InsertSorted(l: seq<Timer>, t: Timer)
    requires Sorted(l)
    ensures Sorted(Insert(l, t))
  {
    hide Place, Insert;
    InsertAt(l, t);
  }

  lemma InsertDistinct(l: seq<Timer>, t: Timer)
    requires NoDup(l) && t !in l
    ensures NoDup(Insert(l, t))
  {
    hide Place, Insert;
    InsertAt(l, t);
  }

  lemma InsertAddsOne(l: seq<Timer>, t: Timer)
    ensures multiset(Insert(l, t)) == multiset(l) + multiset{t}
  {
    var k := Place(l, t.expiration);
    assert l == l[..k] + l[k..];
  }

  /** How many timers at the front are due at `tick`. */
  ghost function Due(l: seq<Timer>, tick: nat): (k: nat)
    ensures k <= |l|
    ensures forall i :: 0 <= i < k ==> l[i].expiration <= tick
    ensures k < |l| ==> l[k].expiration > tick
  {
    if l == [] || l[0].expiration > tick then 0 else 1 + Due(l[1..], tick)
  }

  /** In a sorted list the front that is due is everything that is due. */
  lemma DueIsAll(l: seq<Timer>, tick: nat)
    requires Sorted(l)
    ensures forall i :: 0 <= i < |l| ==> (l[i].expiration <= tick <==> i < Due(l, tick))
  {
  }

  /** A timer that expires after `tick` goes behind the due ones and does not change them. */
  lemma InsertBehindDue(l: seq<Timer>, t: Timer, tick: nat)
    requires Sorted(l) && t.expiration > tick
    ensures Due(Insert(l, t), tick) == Due(l, tick)
    ensures Insert(l, t)[..Due(l, tick)] == l[..Due(l, tick)]
  {
  }

  // ---------------------------------------------------------------- the list in memory

  ghost function Next(l: seq<Timer>, i: nat): Timer?
    requires i < |l|
  {
    if i + 1 < |l| then l[i + 1] else null
  }

  /** From `head`, the `next` fields run through exactly `l`. */
  ghost predicate Chain(head: Timer?, l: seq<Timer>)
    reads Elems(l)`next
  {
    && head == (if l == [] then null else l[0])
    && forall i {:trigger l[i]} :: 0 <= i < |l| ==> l[i].next == Next(l, i)
  }

  function Period(c: Callback, freq: nat): nat {
    match c
    case PrintMessage => 0
    case PrintUptime => 2 * freq
    case KeepSchedule => freq / 256
  }

  /** In seconds: `print_uptime` comes every two seconds, and `keep_schedule` 256 times a second
      or, where `freq` does not divide by that, more often by less than a tick per period. */
  lemma PeriodsInSeconds(freq: nat)
    ensures Period(PrintUptime, freq) == freq + freq
    ensures 256 * Period(KeepSchedule, freq) <= freq < 256 * (Period(KeepSchedule, freq) + 1)
  {
  }

  /** The timers of `l` that re-arm themselves when they fire. */
  ghost function Rearming(l: seq<Timer>): seq<Timer> {
    if l == [] then []
    else Rearming(l[..|l| - 1]) + if l[|l| - 1].callback == PrintMessage then [] else [l[|l| - 1]]
  }

  /** `added` are the successors of the re-arming timers of `fired`, in the same order, each a
      full period after some moment between `tick` and `now`. */
  ghost predicate Successors(added: seq<Timer>, fired: seq<Timer>, tick: nat, now: nat, freq: nat) {
    && |added| == |Rearming(fired)|
    && forall i :: 0 <= i < |added| ==>
         && added[i].callback == Rearming(fired)[i].callback
         && tick <= added[i].expiration - Period(added[i].callback, freq) <= now
  }

  /** A re-armed timer is due again in the same pass exactly when its period is zero and the
      counter has not advanced since the handler sampled it.  The period of `keep_schedule` is
      zero below 256 Hz, that of `print_uptime` at 0 Hz. */
  lemma RearmedDueIff(c: Callback, tick: nat, now: nat, freq: nat)
    requires c != PrintMessage && tick <= now
    ensures now + Period(c, freq) <= tick <==> Period(c, freq) == 0 && now == tick
    ensures Period(c, freq) == 0 <==> freq < if c == KeepSchedule then 256 else 1
  {
  }

  ghost predicate Repeats(t: Timer, freq: nat) {
    t.callback != PrintMessage && Period(t.callback, freq) == 0
  }

  /** Every pass over `l` comes to an end: each reading of the counter is later than the one
      before, or no timer re-arms with a zero period. */
  ghost predicate Settles(l: seq<Timer>, freq: nat, advances: bool) {
    advances || forall t :: t in l ==> !Repeats(t, freq)
  }

  /** Some due timer re-arms with a zero period. */
  ghost predicate Stuck(l: seq<Timer>, tick: nat, freq: nat) {
    exists t :: t in l[..Due(l, tick)] && Repeats(t, freq)
  }

  /** One round of the handler while the counter stands still at `tick`: `s` is what the first
      timer re-arms, if anything. */
  ghost function StillRound(l: seq<Timer>, s: Timer?): seq<Timer>
    requires l != []
  {
    if s == null then l[1..] else Insert(l[1..], s)
  }

  /** On a counter that stands still, a round keeps a due timer of zero period due; without such a
      timer it leaves one due timer less. */
  lemma StillCounter(l: seq<Timer>, s: Timer?, tick: nat, freq: nat)
    requires Sorted(l) && l != [] && l[0].expiration <= tick
    requires s == null <==> l[0].callback == PrintMessage
    requires s != null ==> s.callback == l[0].callback && s.expiration == tick + Period(s.callback, freq)
    ensures Sorted(StillRound(l, s))
    ensures Stuck(StillRound(l, s), tick, freq) <==> Stuck(l, tick, freq)
    ensures Stuck(l, tick, freq) ==> StillRound(l, s) != [] && StillRound(l, s)[0].expiration <= tick
    ensures !Stuck(l, tick, freq) ==> Due(StillRound(l, s), tick) == Due(l, tick) - 1
  {
    hide Sorted, Insert, Place, Due;
    var rest, d := l[1..], Due(l, tick);
    SortedTail(l);
    PopDue(l, tick);
    assert l[..d] == [l[0]] + rest[..d - 1];
    DueIsAll(l, tick);
    DueIsAll(rest, tick);
    if s != null {
      InsertSorted(rest, s);
      if Repeats(s, freq) {
        InsertDue(rest, s, tick);
        assert l[0] in l[..d];
      } else {
        InsertBehindDue(rest, s, tick);
      }
    }
  }

  /** Rounds of a pass at a counter that stands still, in which the timers `added` are re-armed. */
  ghost predicate StillRounds(l: seq<Timer>, added: seq<Timer?>, tick: nat, freq: nat)
    decreases |added|
  {
    added == [] || (
      && l != [] && l[0].expiration <= tick
      && (added[0] == null <==> l[0].callback == PrintMessage)
      && (added[0] != null ==>
           added[0].callback == l[0].callback && added[0].expiration == tick + Period(l[0].callback, freq))
      && StillRounds(StillRound(l, added[0]), added[1..], tick, freq))
  }

  ghost function AfterRounds(l: seq<Timer>, added: seq<Timer?>, tick: nat, freq: nat): seq<Timer>
    requires StillRounds(l, added, tick, freq)
    decreases |added|
  {
    if added == [] then l else AfterRounds(StillRound(l, added[0]), added[1..], tick, freq)
  }

  /** A pass at a counter that stands still: with a due timer of zero period the head of the list
      is due after any number of rounds, so the loop never ends; without one the rounds made and
      the timers still due add up to those due at the start, so it ends after exactly that many. */
  lemma {:induction false} StillPass(l: seq<Timer>, added: seq<Timer?>, tick: nat, freq: nat)
    requires Sorted(l) && StillRounds(l, added, tick, freq)
    ensures var m := AfterRounds(l, added, tick, freq);
      && (Stuck(l, tick, freq) ==> m != [] && m[0].expiration <= tick)
      && (!Stuck(l, tick, freq) ==> |added| + Due(m, tick) == Due(l, tick))
    decreases |added|
  {
    hide Sorted, Due, Insert, StillRound;
    if added == [] {
      if Stuck(l, tick, freq) {
        StuckIsDue(l, tick, freq);
      }
    } else {
      StillCounter(l, added[0], tick, freq);
      StillPass(StillRound(l, added[0]), added[1..], tick, freq);
    }
  }

  lemma StuckIsDue(l: seq<Timer>, tick: nat, freq: nat)
    requires Stuck(l, tick, freq)
    ensures l != [] && l[0].expiration <= tick
  {
  }

  lemma InsertDue(l: seq<Timer>, t: Timer, tick: nat)
    requires t.expiration <= tick
    ensures t in Insert(l, t)[..Due(Insert(l, t), tick)]
    ensures Insert(l, t) != [] && Insert(l, t)[0].expiration <= tick
  {
    var k, m := Place(l, t.expiration), Insert(l, t);
    hide Insert, Place;
    InsertAt(l, t);
    assert Due(m, tick) > k by {
      DueBeyond(m, tick, k);
    }
    assert m[..Due(m, tick)][k] == t;
  }

  lemma DueBeyond(l: seq<Timer>, tick: nat, k: nat)
    requires k < |l| && forall i :: 0 <= i <= k ==> l[i].expiration <= tick
    ensures Due(l, tick) > k
  {
  }

  class TimerList {
    const freq: nat
    const advances: bool         // whether each reading of the counter is later than the last
    var head: Timer?
    var needSchedule: bool
    var now: nat                 // the last reading of the counter
    var armed: nat               // ticks until the next interrupt, as last programmed
    var enabled: bool            // whether the timer interrupt is enabled
    ghost var armedAt: nat       // the reading from which `armed` was computed
    ghost var l: seq<Timer>

    ghost predicate Valid()
      reads this, Elems(l)`next
    {
      Chain(head, l) && Sorted(l) && NoDup(l)
    }

    /** The interrupt will come when the first timer of the list expires. */
    ghost predicate Armed()
      reads this
    {
      l != [] ==> enabled && armedAt + armed == l[0].expiration
    }

    constructor (freq: nat, advances: bool)
      ensures Valid() && Armed() && l == [] && this.freq == freq && this.advances == advances && !needSchedule
    {
      this.advances := advances;
      this.freq, head, needSchedule, now, armed, enabled := freq, null, false, 0, 0, false;
      armedAt, l := 0, [];
    }

    /** The counter never runs backwards. */
    method GetTick() returns (tick: nat)
      modifies `now
      ensures tick == now >= old(now) && (advances ==> now > old(now))
    {
      var reading :| reading >= now;
      if advances && reading == now {
        reading := now + 1;
      }
      now := reading;
      tick := now;
    }

    /** `add_timer`; null when the timer cannot be allocated. */
    method AddTimer(callback: Callback, ticks: nat, memory: bool) returns (t: Timer?)
      requires Valid()
      modifies `now, `head, `armed, `enabled, `armedAt, `l, Elems(l)`next
      ensures Valid() && (t == null <==> !memory)
      ensures t == null ==> unchanged(`now, `head, `armed, `enabled, `armedAt, `l)
      ensures t != null ==>
        && now >= old(now) && (advances ==> now > old(now)) && fresh(t)
        && t.callback == callback && t.expiration == now + ticks
        && t !in old(l) && l == Insert(old(l), t)
        && enabled
        && (l[0] == t ==> armedAt == now && armed == ticks)
        && (l[0] != t ==> armedAt == old(armedAt) && armed == old(armed))
      ensures old(Armed()) ==> Armed()
    {
      hide Sorted, NoDup, Insert, Chain;
      if !memory {
        return null;
      }
      var tick := GetTick();
      ghost var known := Elems(l);
      var timer := new Timer(callback, tick + ticks);
      assert timer !in known;
      InsertSorted(l, timer);
      InsertDistinct(l, timer);
      var reset := Link(timer);
      if reset {
        armed, armedAt := head.expiration - tick, tick;
      } else {
        FirstStays(old(l), timer);
      }
      enabled := true;
      t := timer;
    }

    /** The insertion itself; true when the new timer is the first to expire. */
    method Link(t: Timer) returns (reset: bool)
      requires Valid() && t !in l && Sorted(Insert(l, t)) && NoDup(Insert(l, t))
      modifies `head, `l, Elems(l)`next, t`next
      ensures Valid() && l == Insert(old(l), t) && (reset <==> l[0] == t)
      ensures head != null && head == l[0]
    {
      hide Sorted, NoDup;
      ghost var m, e := l, t.expiration;
      if head == null {
        t.next := null;
        head := t;
        reset := true;
      } else if head.expiration >= t.expiration {
        PlaceUnique(m, e, 0);
        t.next := head;
        head := t;
        reset := true;
      } else {
        LinkAfter(t);
        reset := false;
      }
      l := Insert(m, t);
    }

    /** The walk to the last timer that expires earlier. */
    method LinkAfter(t: Timer)
      requires Chain(head, l) && NoDup(l) && t !in l && l != [] && l[0].expiration < t.expiration
      modifies Elems(l)`next, t`next
      ensures Chain(head, Insert(l, t)) && Place(l, t.expiration) > 0
    {
      hide NoDup, Insert, Place;
      var curr: Timer := head;
      ghost var i := 0;
      while curr.next != null && curr.next.expiration < t.expiration
        invariant 0 <= i < |l| && curr == l[i] && curr.next == Next(l, i)
        invariant forall j :: 0 <= j <= i ==> l[j].expiration < t.expiration
        decreases |l| - i
      {
        curr := curr.next;
        i := i + 1;
      }
      PlaceUnique(l, t.expiration, i + 1);
      LinkBehind(curr, t, i);
    }

    /** The relinking behind the timer at position `i`. */
    method LinkBehind(curr: Timer, t: Timer, ghost i: nat)
      requires Chain(head, l) && NoDup(l) && t !in l
      requires i < |l| && curr == l[i] && Place(l, t.expiration) == i + 1
      modifies curr`next, t`next
      ensures Chain(head, Insert(l, t))
    {
      hide NoDup, Insert, Place;
      InsertAt(l, t);
      PositionsDiffer(l, i);
      ghost var m := Insert(l, t);
      t.next := curr.next;
      curr.next := t;
      forall j | 0 <= j < |m| ensures m[j].next == Next(m, j) {
        assert j <= i ==> m[j] == l[j];
        assert j > i + 1 ==> m[j] == l[j - 1];
      }
    }

    /** The callback of a fired timer; returns the timer it added, if any. */
    method Run(callback: Callback) returns (added: Timer?)
      requires Valid()
      modifies `now, `head, `armed, `enabled, `armedAt, `l, `needSchedule, Elems(l)`next
      ensures Valid() && now >= old(now)
      ensures callback == PrintMessage <==> added == null
      ensures added == null ==> unchanged(`l, `armed, `armedAt, `enabled)
      ensures added != null ==>
        && fresh(added) && added !in old(l) && l == Insert(old(l), added)
        && added.callback == callback && added.expiration == now + Period(callback, freq)
        && (advances ==> now > old(now))
      ensures needSchedule == (old(needSchedule) || callback == KeepSchedule)
    {
      added := null;
      match callback
      case PrintMessage =>
      case PrintUptime => added := AddTimer(PrintUptime, 2 * freq, true);
      case KeepSchedule =>
        added := AddTimer(KeepSchedule, freq / 256, true);
        needSchedule := true;
    }

    /** Taking the first timer off the list. */
    method PopHead() returns (t: Timer)
      requires Valid() && l != []
      modifies `head, `l
      ensures Valid() && t == old(l)[0] && l == old(l)[1..]
    {
      t := head;
      head := t.next;
      ghost var m := l[1..];
      assert forall j {:trigger m[j]} :: 0 <= j < |m| ==> m[j] == l[j + 1];
      l := m;
    }

    /** One round of the loop in `core_timer_handler`. */
    method FireOne(ghost m: seq<Timer>, ghost d: nat, tick: nat, ghost fired: seq<Timer>, ghost added: seq<Timer>)
      returns (t: Timer, s: Timer?)
      requires Valid() && Settles(l, freq, advances) && tick <= now && head != null && head.expiration <= tick
      requires Progress(m, d, tick, now, freq, fired, added, l)
      modifies `now, `head, `armed, `enabled, `armedAt, `l, `needSchedule, Elems(l)`next
      ensures Valid() && now >= old(now) && (s == null || fresh(s))
      ensures |fired| < d <= |m| && t == m[|fired|]
      ensures Progress(m, d, tick, now, freq, fired + [t], With(added, s), l)
      ensures s == null ==> unchanged(`armed, `armedAt, `enabled)
      ensures needSchedule == (old(needSchedule) || t.callback == KeepSchedule)
      ensures forall x :: x in l ==> x in old(l) || x == s
      ensures Settles(l, freq, advances)
    {
      hide Sorted, NoDup, Chain, Progress, Due, Insert;
      ChainHead(head, l);
      ghost var before := l;
      ghost var at := now;
      ProgressPop(m, d, tick, at, freq, fired, added, before);
      SortedTail(before);
      t := PopHead();
      assert t in before;
      ghost var rest := l;
      s := Run(t.callback);
      ProgressStep(m, d, tick, at, now, freq, fired, added, before, s);
      if s != null {
        InsertMembers(rest, s);
      }
    }

    /** The loop of `core_timer_handler`; `removed` tells whether a timer fired. */
    method FireDue(tick: nat) returns (removed: bool, ghost fired: seq<Timer>, ghost added: seq<Timer>)
      requires Valid() && Settles(l, freq, advances) && now >= tick && !enabled
      modifies `now, `head, `armed, `enabled, `armedAt, `l, `needSchedule, Elems(l)`next
      ensures Valid() && now >= old(now) && (removed <==> fired != [])
      ensures fired == old(l)[..Due(old(l), tick)]
      ensures Successors(added, fired, tick, now, freq) && forall t :: t in added ==> fresh(t)
      ensures multiset(l) == multiset(old(l)[Due(old(l), tick)..]) + multiset(added)
      ensures l != [] ==> l[0].expiration > tick
      ensures added == [] ==> unchanged(`armed, `armedAt, `enabled)
      ensures fired == [] ==> added == [] && l == old(l)
      ensures needSchedule <==> old(needSchedule) || exists t :: t in fired && t.callback == KeepSchedule
    {
      hide Sorted, NoDup, Chain, Successors, Progress, Due;
      removed := false;
      ghost var m, d := l, Due(l, tick);
      fired, added := [], [];
      ProgressStart(m, tick, now, freq);
      while head != null && head.expiration <= tick
        invariant Valid() && now >= old(now) && Settles(l, freq, advances)
        invariant Progress(m, d, tick, now, freq, fired, added, l) && |fired| <= d
        invariant forall t :: t in added ==> fresh(t)
        invariant forall t :: t in l ==> t in m || t in added
        invariant added == [] ==> unchanged(`armed, `armedAt, `enabled)
        invariant fired == [] ==> added == [] && l == m
        invariant needSchedule <==> old(needSchedule) || exists t :: t in fired && t.callback == KeepSchedule
        invariant removed <==> fired != []
        decreases d - |fired|
      {
        var t, s := FireOne(m, d, tick, fired, added);
        fired, added := fired + [t], With(added, s);
        removed := true;
      }
      ChainHead(head, l);
      ProgressDone(m, d, tick, now, freq, fired, added, l);
    }

    /** The interrupt is set for the first timer left, if a timer fired. */
    method Rearm(removed: bool, tick: nat)
      requires Valid() && (l != [] ==> l[0].expiration > tick)
      modifies `armed, `enabled, `armedAt
      ensures Valid()
      ensures if removed && l != [] then enabled && armedAt == tick && armed == l[0].expiration - tick
              else unchanged(`armed, `enabled, `armedAt)
    {
      hide Sorted, NoDup, Chain;
      ChainHead(head, l);
      if removed && head != null {
        armed, armedAt := head.expiration - tick, tick;
        enabled := true;
      }
    }

    /** `core_timer_handler`, as one sequential pass: exactly the timers due at the sampled
        tick fire, once each and in order, and nothing that is due is left.  The interrupt is
        armed afterwards exactly if something fired or nothing is listed: so it stays armed if
        it was and the handler was not called before its time. */
    method Handle() returns (tick: nat, resched: bool, ghost fired: seq<Timer>, ghost added: seq<Timer>)
      requires Valid() && Settles(l, freq, advances)
      modifies this, Elems(l)`next
      ensures Valid() && now >= tick >= old(now)
      ensures fired == old(l)[..Due(old(l), tick)]
      ensures Successors(added, fired, tick, now, freq) && forall t :: t in added ==> fresh(t)
      ensures multiset(l) == multiset(old(l)[Due(old(l), tick)..]) + multiset(added)
      ensures l != [] ==> l[0].expiration > tick
      ensures fired != [] && l != [] ==> armedAt == tick && armed == l[0].expiration - tick > 0
      ensures fired == [] ==> l == old(l) && armed == old(armed) && armedAt == old(armedAt)
      ensures enabled <==> fired != [] && l != []
      ensures Armed() <==> fired != [] || l == []
      ensures old(Armed()) && tick >= old(armedAt + armed) ==> Armed()
      ensures resched <==> old(needSchedule) || exists t :: t in fired && t.callback == KeepSchedule
      ensures !needSchedule
    {
      hide Sorted, NoDup, Chain, Successors, Due;
      tick := GetTick();
      enabled := false;
      var removed;
      removed, fired, added := FireDue(tick);
      Rearm(removed, tick);
      resched := false;
      if needSchedule {
        needSchedule := false;
        resched := true;
      }
    }
  }

  // ---------------------------------------------------------------- a pass on values

  function With(added: seq<Timer>, s: Timer?): seq<Timer> {
    if s == null then added else added + [s]
  }

  /** In the middle of a pass over the list `m`, of which the first `d` timers are due: what
      has fired, what was added, and what the list is now. */
  ghost predicate Progress(m: seq<Timer>, d: nat, tick: nat, now: nat, freq: nat, fired: seq<Timer>, added: seq<Timer>,
                           l: seq<Timer>) {
    && |fired| <= d <= |m| && fired == m[..|fired|]
    && Due(l, tick) == d - |fired| && l[..d - |fired|] == m[|fired|..d]
    && Successors(added, fired, tick, now, freq)
    && multiset(l) == multiset(m[|fired|..]) + multiset(added)
  }

  lemma ProgressStart(m: seq<Timer>, tick: nat, now: nat, freq: nat)
    ensures Progress(m, Due(m, tick), tick, now, freq, [], [], m)
  {
  }

  lemma ProgressDone(m: seq<Timer>, d: nat, tick: nat, now: nat, freq: nat, fired: seq<Timer>, added: seq<Timer>,
                     l: seq<Timer>)
    requires Progress(m, d, tick, now, freq, fired, added, l) && (l == [] || l[0].expiration > tick)
    ensures |fired| == d <= |m| && fired == m[..d] && Successors(added, fired, tick, now, freq)
    ensures multiset(l) == multiset(m[d..]) + multiset(added)
  {
  }

  lemma ProgressPop(m: seq<Timer>, d: nat, tick: nat, now: nat, freq: nat, fired: seq<Timer>, added: seq<Timer>,
                    l: seq<Timer>)
    requires Progress(m, d, tick, now, freq, fired, added, l) && l != [] && l[0].expiration <= tick
    ensures |fired| < d <= |m| && l[0] == m[|fired|]
  {
  }

  lemma ProgressStep(m: seq<Timer>, d: nat, tick: nat, at: nat, now: nat, freq: nat, fired: seq<Timer>,
                     added: seq<Timer>, l: seq<Timer>, s: Timer?)
    requires at <= now && Progress(m, d, tick, at, freq, fired, added, l) && l != [] && l[0].expiration <= tick
      && Sorted(l[1..])
    requires s == null <==> l[0].callback == PrintMessage
    requires s != null ==>
      && s.callback == l[0].callback && s.expiration > tick
      && tick <= s.expiration - Period(s.callback, freq) <= now
    ensures Progress(m, d, tick, now, freq, fired + [l[0]], With(added, s),
      if s == null then l[1..] else Insert(l[1..], s))
  {
    hide Successors, Sorted, Place, Insert, Period;
    var i, rest := |fired|, l[1..];
    ProgressPop(m, d, tick, at, freq, fired, added, l);
    PopDue(l, tick);
    PopMultiset(l);
    PopMultiset(m[i..]);
    assert m[i..][1..] == m[i + 1..] && fired + [l[0]] == m[..i + 1];
    assert rest[..d - i - 1] == l[..d - i][1..] == m[i..d][1..] == m[i + 1..d];
    SuccessorsStep(added, fired, l[0], s, tick, at, now, freq);
    if s != null {
      InsertBehindDue(rest, s, tick);
      InsertAddsOne(rest, s);
      var t: Timer := s;
      assert multiset(added + [t]) == multiset(added) + multiset{t};
    }
    assert m[i..][0] == l[0];
    Cancel(l[0], multiset(rest), multiset(m[i + 1..]), multiset(added), multiset(l));
  }

  lemma Cancel(t: Timer, a: multiset<Timer>, b: multiset<Timer>, c: multiset<Timer>, l: multiset<Timer>)
    requires l == multiset{t} + a && l == (multiset{t} + b) + c
    ensures a == b + c
  {
    assert l - multiset{t} == a;
    assert l - multiset{t} == b + c;
  }

  lemma SortedTail(l: seq<Timer>)
    requires Sorted(l) && l != []
    ensures Sorted(l[1..])
  {
  }

  lemma PopDue(l: seq<Timer>, tick: nat)
    requires l != [] && l[0].expiration <= tick
    ensures Due(l, tick) == 1 + Due(l[1..], tick)
  {
  }

  lemma PopMultiset(l: seq<Timer>)
    requires l != []
    ensures multiset(l) == multiset{l[0]} + multiset(l[1..])
  {
    assert l == [l[0]] + l[1..];
  }

  lemma InsertMembers(l: seq<Timer>, t: Timer)
    ensures forall x :: x in Insert(l, t) <==> x in l || x == t
  {
  }

  /** A fired timer adds its successor, or none. */
  lemma SuccessorsStep(added: seq<Timer>, fired: seq<Timer>, t: Timer, s: Timer?, tick: nat, at: nat, now: nat,
                       freq: nat)
    requires at <= now && Successors(added, fired, tick, at, freq) && (s == null <==> t.callback == PrintMessage)
    requires s != null ==> s.callback == t.callback && tick <= s.expiration - Period(t.callback, freq) <= now
    ensures Successors(if s == null then added else added + [s], fired + [t], tick, now, freq)
  {
  }

  lemma ChainHead(head: Timer?, l: seq<Timer>)
    requires Chain(head, l)
    ensures head == if l == [] then null else l[0]
  {
  }
}
