/** The phase-counting barrier: `pthread_barrier_init` and `pthread_barrier_wait` for
    platforms that lack them. */
module Barrier {

  const WRAP: int := 0x1_0000_0000

  type Unsigned = x: int | 0 <= x < 0x1_0000_0000

  // ---- the object, under its mutex ----

  datatype Arrival = Arrival(count: Unsigned, phase: Unsigned, serial: bool)

  /** What one arrival makes of the two counters. */
  function Arrive(limit: Unsigned, count: Unsigned, phase: Unsigned): Arrival {
    var count' := (count + 1) % WRAP;
    if count' >= limit then Arrival(0, (phase + 1) % WRAP, true) else Arrival(count', phase, false)
  }

  class PthreadBarrier {
    var limit: Unsigned
    var count: Unsigned
    var phase: Unsigned

    /** `pthread_barrier_init`; a zero count is an error and changes nothing. */
    method Init(n: Unsigned) returns (ok: bool)
      modifies this
      ensures ok <==> n != 0
      ensures ok ==> limit == n && count == 0 && phase == 0
      ensures !ok ==> unchanged(this)
    {
      if n == 0 {
        return false;
      }
      limit := n;
      count := 0;
      phase := 0;
      return true;
    }

    /** The counters are those of the state `s`. */
    ghost predicate Models(s: State)
      reads this
    {
      s.limit == limit && s.count == count && s.phase == phase
    }

    /** The part of `pthread_barrier_wait` up to its return or its first sleep: a step of
        thread `t` that enters. */
    method Enter(ghost s: State, ghost t: nat) returns (serial: bool, saved: Unsigned, ghost s': State)
      requires Models(s) && t < |s.threads| && s.threads[t].Outside?
      modifies this
      ensures EnterStep(s, s', t) && Models(s')
      ensures serial <==> s'.gen == s.gen + 1
      ensures !serial ==> s'.threads[t] == Waiting(saved, s.gen)
    {
      saved := phase;
      count := (count + 1) % WRAP;
      if count >= limit {
        phase := (phase + 1) % WRAP;
        count := 0;
        serial := true;
      } else {
        saved := phase;
        serial := false;
      }
      s' := Entered(s, t);
    }

    /** One awakening, genuine or spurious, in the waiting loop: a step of thread `t` that
        wakes. With exactly `limit` threads it leaves exactly if its generation is over. */
    method Recheck(saved: Unsigned, ghost s: State, ghost t: nat) returns (leave: bool, ghost s': State)
      requires Models(s) && t < |s.threads| && s.threads[t].Waiting? && s.threads[t].saved == saved
      ensures WakeStep(s, s', t) && (leave <==> s'.threads[t].Outside?)
      ensures Inv(s) && NoLag(s) ==> (leave <==> s.threads[t].gen < s.gen)
    {
      leave := saved != phase;
      s' := Woken(s, t);
      if Inv(s) && NoLag(s) {
        PhaseTells(s, t);
      }
    }
  }

  // ---- every interleaving ----

  /** A thread is outside the barrier or asleep in it; `gen` is the true number of the
      generation it waits for, of which the code sees only `saved`. */
  datatype Thread = Outside | Waiting(saved: Unsigned, gen: nat)

  datatype Event = Arrived(tid: nat, gen: nat) | Returned(tid: nat, gen: nat, serial: bool)

  datatype State = State(limit: Unsigned, count: Unsigned, phase: Unsigned, gen: nat,
                         threads: seq<Thread>, log: seq<Event>)

  ghost predicate Init(s: State) {
    && 0 < s.limit && s.count == 0 && s.phase == 0 && s.gen == 0 && s.log == []
    && forall t | 0 <= t < |s.threads| :: s.threads[t] == Outside
  }

  /** Thread `t` calls `pthread_barrier_wait`. */
  ghost function Entered(s: State, t: nat): State
    requires t < |s.threads|
  {
    var a := Arrive(s.limit, s.count, s.phase);
    var arrived := s.log + [Arrived(t, s.gen)];
    if a.serial
    then s.(count := a.count, phase := a.phase, gen := s.gen + 1, log := arrived + [Returned(t, s.gen, true)])
    else s.(count := a.count, phase := a.phase, log := arrived, threads := s.threads[t := Waiting(a.phase, s.gen)])
  }

  ghost predicate EnterStep(s: State, s': State, t: nat) {
    t < |s.threads| && s.threads[t].Outside? && s' == Entered(s, t)
  }

  /** Thread `t` wakes up, for whatever reason, and tests the phase. */
  ghost function Woken(s: State, t: nat): State
    requires t < |s.threads| && s.threads[t].Waiting?
  {
    if s.threads[t].saved == s.phase then s
    else s.(threads := s.threads[t := Outside], log := s.log + [Returned(t, s.threads[t].gen, false)])
  }

  ghost predicate WakeStep(s: State, s': State, t: nat) {
    t < |s.threads| && s.threads[t].Waiting? && s' == Woken(s, t)
  }

  ghost predicate Next(s: State, s': State) {
    exists t: nat :: EnterStep(s, s', t) || WakeStep(s, s', t)
  }

  ghost predicate IsRun(run: seq<State>) {
    && 0 < |run| && Init(run[0])
    && forall i | 0 < i < |run| :: Next(run[i - 1], run[i])
  }

  // ---- counting ----

  /** How many threads wait for generation `g`. */
  ghost function Waiters(threads: seq<Thread>, g: nat): nat {
    if threads == [] then 0
    else Waiters(threads[..|threads| - 1], g)
         + if threads[|threads| - 1].Waiting? && threads[|threads| - 1].gen == g then 1 else 0
  }

  ghost function Arrivals(log: seq<Event>, g: nat): nat {
    if log == [] then 0
    else Arrivals(log[..|log| - 1], g)
         + if log[|log| - 1].Arrived? && log[|log| - 1].gen == g then 1 else 0
  }

  ghost function Serials(log: seq<Event>, g: nat): nat {
    if log == [] then 0
    else Serials(log[..|log| - 1], g)
         + if log[|log| - 1].Returned? && log[|log| - 1].gen == g && log[|log| - 1].serial then 1 else 0
  }

  lemma {:induction false} WaitersUpdate(threads: seq<Thread>, t: nat, x: Thread, g: nat)
    requires t < |threads|
    ensures Waiters(threads[t := x], g)
            == Waiters(threads, g) + (if x.Waiting? && x.gen == g then 1 else 0)
               - (if threads[t].Waiting? && threads[t].gen == g then 1 else 0)
  {
    var n := |threads| - 1;
    if t == n {
      assert threads[t := x][..n] == threads[..n];
    } else {
      assert threads[t := x][..n] == threads[..n][t := x];
      WaitersUpdate(threads[..n], t, x, g);
    }
  }

  lemma {:induction false} NoWaiters(threads: seq<Thread>, g: nat)
    ensures (forall t | 0 <= t < |threads| :: threads[t] == Outside) ==> Waiters(threads, g) == 0
    ensures (forall t | 0 <= t < |threads| && threads[t].Waiting? :: threads[t].gen < g) ==> Waiters(threads, g) == 0
  {
    if threads != [] { NoWaiters(threads[..|threads| - 1], g); }
  }

  /** There are at most as many waiters as threads; when only `t` is missing, everyone
      else waits for `g`. */
  lemma {:induction false} AllButOne(threads: seq<Thread>, g: nat, t: nat, i: nat)
    requires t < |threads| && i < |threads| && i != t
    requires !threads[t].Waiting? && Waiters(threads, g) >= |threads| - 1
    ensures threads[i].Waiting? && threads[i].gen == g
  {
    var n := |threads| - 1;
    WaitersBound(threads[..n], g);
    if i != n && t != n {
      AllButOne(threads[..n], g, t, i);
    } else if t == n {
      Everyone(threads[..n], g, i);
    } else {
      WaitersBoundMissing(threads[..n], g, t);
    }
  }

  lemma {:induction false} WaitersBound(threads: seq<Thread>, g: nat)
    ensures Waiters(threads, g) <= |threads|
  {
    if threads != [] { WaitersBound(threads[..|threads| - 1], g); }
  }

  lemma {:induction false} WaitersBoundMissing(threads: seq<Thread>, g: nat, t: nat)
    requires t < |threads| && !threads[t].Waiting?
    ensures Waiters(threads, g) <= |threads| - 1
  {
    var n := |threads| - 1;
    WaitersBound(threads[..n], g);
    if t != n { WaitersBoundMissing(threads[..n], g, t); }
  }

  lemma {:induction false} Everyone(threads: seq<Thread>, g: nat, i: nat)
    requires i < |threads| && Waiters(threads, g) >= |threads|
    ensures threads[i].Waiting? && threads[i].gen == g
  {
    var n := |threads| - 1;
    WaitersBound(threads[..n], g);
    if i != n { Everyone(threads[..n], g, i); }
  }

  lemma LogAppend(log: seq<Event>, e: Event, g: nat)
    ensures Arrivals(log + [e], g) == Arrivals(log, g) + if e.Arrived? && e.gen == g then 1 else 0
    ensures Serials(log + [e], g) == Serials(log, g) + if e.Returned? && e.gen == g && e.serial then 1 else 0
  {
    assert (log + [e])[..|log|] == log;
  }

  // ---- what every step keeps ----

  ghost predicate Inv(s: State) { Counters(s) && Generations(s) && Sleepers(s) && Returns(s) }

  ghost predicate Counters(s: State) {
    && 0 < s.limit && s.count < s.limit && s.phase == s.gen % WRAP
    && s.count == Waiters(s.threads, s.gen) == Arrivals(s.log, s.gen)
  }

  /** Every generation that is over had `limit` arrivals and one serial return. */
  ghost predicate Generations(s: State) {
    && (forall g: nat | g < s.gen :: Arrivals(s.log, g) == s.limit && Serials(s.log, g) == 1)
    && (forall g: nat | g >= s.gen :: Serials(s.log, g) == 0)
    && (forall g: nat | g > s.gen :: Arrivals(s.log, g) == 0)
  }

  ghost predicate Sleepers(s: State) {
    forall t | 0 <= t < |s.threads| && s.threads[t].Waiting? ::
      s.threads[t].gen <= s.gen && s.threads[t].saved == s.threads[t].gen % WRAP
  }

  ghost predicate Returns(s: State) {
    forall i | 0 <= i < |s.log| && s.log[i].Returned? :: Complete(s.log, s.limit, i)
  }

  /** Before the return at position `i` of the log, `limit` threads had arrived. */
  ghost predicate Complete(log: seq<Event>, limit: int, i: nat)
    requires i < |log| && log[i].Returned?
  {
    Arrivals(log[..i], log[i].gen) == limit
  }

  lemma InvInit(s: State)
    requires Init(s)
    ensures Inv(s)
  {
    NoWaiters(s.threads, s.gen);
  }

  /** One more event leaves earlier returns complete. */
  lemma ReturnsKept(s: State, s': State, e: Event)
    requires Returns(s) && s'.log == s.log + [e] && s'.limit == s.limit
    requires e.Returned? ==> Arrivals(s.log, e.gen) == s.limit
    ensures Returns(s')
  {
    forall i | 0 <= i < |s'.log| && s'.log[i].Returned? ensures Complete(s'.log, s'.limit, i) {
      if i < |s.log| {
        assert s'.log[..i] == s.log[..i];
        assert Complete(s.log, s.limit, i);
      } else {
        assert s'.log[..i] == s.log;
      }
    }
  }

  lemma InvWake(s: State, s': State, t: nat)
    requires Inv(s) && WakeStep(s, s', t)
    ensures Inv(s')
  {
    if s.threads[t].saved != s.phase {
      var g, e := s.threads[t].gen, Returned(t, s.threads[t].gen, false);
      assert g < s.gen && Arrivals(s.log, g) == s.limit;
      WaitersUpdate(s.threads, t, Outside, s.gen);
      ReturnsKept(s, s', e);
      QuietEvent(s, s', e);
      LogAppend(s.log, e, s.gen);
      hide Generations, Returns, Waiters, Arrivals;
    }
  }

  /** A return that is not serial counts for nothing. */
  lemma QuietEvent(s: State, s': State, e: Event)
    requires Generations(s) && s'.log == s.log + [e] && s'.limit == s.limit && s'.gen == s.gen && e.Returned? && !e.serial
    ensures Generations(s')
  {
    forall g: nat ensures Arrivals(s'.log, g) == Arrivals(s.log, g) && Serials(s'.log, g) == Serials(s.log, g) {
      LogAppend(s.log, e, g);
    }
  }

  /** An arrival that does not complete the generation. */
  lemma InvEnterWait(s: State, s': State, t: nat)
    requires Inv(s) && EnterStep(s, s', t) && !Arrive(s.limit, s.count, s.phase).serial
    ensures Inv(s')
  {
    var e := Arrived(t, s.gen);
    WaitersUpdate(s.threads, t, s'.threads[t], s.gen);
    ReturnsKept(s, s', e);
    ArrivalEvent(s, s', e);
    LogAppend(s.log, e, s.gen);
    hide Generations, Returns, Waiters, Arrivals;
  }

  lemma ArrivalEvent(s: State, s': State, e: Event)
    requires Generations(s) && s'.log == s.log + [e] && s'.limit == s.limit && s'.gen == s.gen && e.Arrived? && e.gen == s.gen
    ensures Generations(s')
  {
    forall g: nat ensures Arrivals(s'.log, g) == Arrivals(s.log, g) + (if g == s.gen then 1 else 0)
                          && Serials(s'.log, g) == Serials(s.log, g)
    {
      LogAppend(s.log, e, g);
    }
  }

  /** The arrival that completes the generation. */
  lemma InvEnterSerial(s: State, s': State, t: nat)
    requires Inv(s) && EnterStep(s, s', t) && Arrive(s.limit, s.count, s.phase).serial
    ensures Inv(s')
  {
    var e, r := Arrived(t, s.gen), Returned(t, s.gen, true);
    var arrived := s.(log := s.log + [e]);
    ReturnsKept(s, arrived, e);
    LogAppend(s.log, e, s.gen);
    ReturnsKept(arrived, s', r);
    SerialEvents(s, arrived, s', e, r);
    NoWaiters(s.threads, s'.gen);
    NextPhase(s.gen);
    hide Generations, Returns, Waiters, Serials;
  }

  lemma NextPhase(g: nat)
    ensures (g % WRAP + 1) % WRAP == (g + 1) % WRAP
  {
  }

  lemma SerialEvents(s: State, a: State, s': State, e: Event, r: Event)
    requires Generations(s) && a.log == s.log + [e] && s'.log == a.log + [r] && s'.limit == s.limit && s'.gen == s.gen + 1
    requires e.Arrived? && e.gen == s.gen && r.Returned? && r.gen == s.gen && r.serial && Arrivals(a.log, s.gen) == s.limit
    ensures Generations(s') && Arrivals(s'.log, s'.gen) == 0
  {
    forall g: nat ensures Arrivals(s'.log, g) == Arrivals(s.log, g) + (if g == s.gen then 1 else 0)
                          && Serials(s'.log, g) == Serials(s.log, g) + (if g == s.gen then 1 else 0)
                          && Arrivals(a.log, g) == Arrivals(s'.log, g)
    {
      LogAppend(s.log, e, g);
      LogAppend(a.log, r, g);
    }
  }

  lemma InvNext(s: State, s': State)
    requires Inv(s) && Next(s, s')
    ensures Inv(s')
  {
    var t: nat :| EnterStep(s, s', t) || WakeStep(s, s', t);
    if WakeStep(s, s', t) {
      InvWake(s, s', t);
    } else if Arrive(s.limit, s.count, s.phase).serial {
      InvEnterSerial(s, s', t);
    } else {
      InvEnterWait(s, s', t);
    }
  }

  lemma {:induction false} RunKeepsInv(run: seq<State>, i: nat)
    requires IsRun(run) && i < |run|
    ensures Inv(run[i])
  {
    if i == 0 {
      InvInit(run[0]);
    } else {
      RunKeepsInv(run, i - 1);
      InvNext(run[i - 1], run[i]);
    }
  }

  /** Safety, over every interleaving and any number of threads: nobody leaves a
      generation before `limit` threads have arrived in it, every completed generation has
      exactly one serial return, and `count` is the number of sleepers of the current one. */
  lemma BarrierSafety(run: seq<State>, i: nat, k: nat, g: nat)
    requires IsRun(run) && i < |run|
    ensures var s := run[i];
            && s.count == Waiters(s.threads, s.gen) == Arrivals(s.log, s.gen)
            && (k < |s.log| && s.log[k].Returned? ==> Arrivals(s.log[..k], s.log[k].gen) == s.limit)
            && Serials(s.log, g) == (if g < s.gen then 1 else 0)
  {
    RunKeepsInv(run, i);
    assert k < |run[i].log| && run[i].log[k].Returned? ==> Complete(run[i].log, run[i].limit, k);
  }

  // ---- exactly `limit` participants ----

  /** Nobody sleeps for a generation older than the previous one. */
  ghost predicate NoLag(s: State) {
    |s.threads| == s.limit
    && forall t | 0 <= t < |s.threads| && s.threads[t].Waiting? :: s.threads[t].gen >= s.gen - 1
  }

  lemma NoLagNext(s: State, s': State)
    requires Inv(s) && NoLag(s) && Next(s, s')
    ensures NoLag(s')
  {
    var t: nat :| EnterStep(s, s', t) || WakeStep(s, s', t);
    if EnterStep(s, s', t) && Arrive(s.limit, s.count, s.phase).serial {
      forall i | 0 <= i < |s'.threads| && s'.threads[i].Waiting? ensures s'.threads[i].gen >= s'.gen - 1 {
        AllButOne(s.threads, s.gen, t, i);
      }
    }
  }

  lemma {:induction false} RunNoLag(run: seq<State>, i: nat)
    requires IsRun(run) && i < |run| && |run[0].threads| == run[0].limit
    ensures Inv(run[i]) && NoLag(run[i])
  {
    RunKeepsInv(run, i);
    if i != 0 {
      RunNoLag(run, i - 1);
      NoLagNext(run[i - 1], run[i]);
    }
  }

  /** With exactly `limit` participants the wrapping comparison is exact: a sleeper
      leaves if and only if its generation is over. */
  lemma PhaseTestExact(run: seq<State>, i: nat, t: nat)
    requires IsRun(run) && i < |run| && |run[0].threads| == run[0].limit
    requires t < |run[i].threads| && run[i].threads[t].Waiting?
    ensures var s := run[i]; s.threads[t].saved != s.phase <==> s.threads[t].gen < s.gen
  {
    RunNoLag(run, i);
    PhaseTells(run[i], t);
  }

  lemma PhaseTells(s: State, t: nat)
    requires Inv(s) && NoLag(s) && t < |s.threads| && s.threads[t].Waiting?
    ensures s.threads[t].saved != s.phase <==> s.threads[t].gen < s.gen
  {
    ConsecutiveDiffer(s.threads[t].gen, s.gen);
    hide Generations, Returns, Waiters, Arrivals;
  }

  lemma ConsecutiveDiffer(g: nat, g': nat)
    requires g' - 1 <= g <= g'
    ensures g % WRAP != g' % WRAP <==> g < g'
  {
  }

  /** In general a sleeper never leaves early; it is kept asleep wrongly exactly when a
      multiple of two to the 32 generations have passed. */
  lemma PhaseTestInGeneral(run: seq<State>, i: nat, t: nat)
    requires IsRun(run) && i < |run| && t < |run[i].threads| && run[i].threads[t].Waiting?
    ensures var s := run[i]; var behind := s.gen - s.threads[t].gen;
            && 0 <= behind && (s.threads[t].saved == s.phase <==> behind % WRAP == 0)
  {
    RunKeepsInv(run, i);
    SameRemainder(run[i].threads[t].gen, run[i].gen);
  }

  lemma SameRemainder(g: nat, g': nat)
    requires g <= g'
    ensures g % WRAP == g' % WRAP <==> (g' - g) % WRAP == 0
  {
  }

  // ---- a sleeper that is overtaken ----

  /** Thread 0 of three sleeps for the first of `n` generations, at a limit of two. */
  ghost predicate Overtaken(s: State, n: nat) {
    && s.limit == 2 && s.count == 0 && s.gen == n && s.phase == n % WRAP
    && s.threads == [Waiting(0, 0), Outside, Outside]
  }

  lemma ExtendRun(run: seq<State>, s: State)
    requires IsRun(run) && Next(run[|run| - 1], s)
    ensures IsRun(run + [s])
  {
    var more := run + [s];
    forall i | 0 < i < |more| ensures Next(more[i - 1], more[i]) {
      if i < |run| { assert Next(run[i - 1], run[i]); }
    }
  }

  lemma NextByEntering(s: State, t: nat)
    requires t < |s.threads| && s.threads[t].Outside?
    ensures Next(s, Entered(s, t))
  {
    assert EnterStep(s, Entered(s, t), t);
  }

  lemma NextByWaking(s: State, t: nat)
    requires t < |s.threads| && s.threads[t].Waiting?
    ensures Next(s, Woken(s, t))
  {
    assert WakeStep(s, Woken(s, t), t);
  }

  /** One generation of the other two threads: one sleeps, one completes, the first leaves. */
  lemma OneRound(s: State, n: nat)
    requires Overtaken(s, n)
    ensures var a := Entered(s, 1); var b := Entered(a, 2);
      && b.threads[1].Waiting? && Next(s, a) && Next(a, b) && Next(b, Woken(b, 1)) && Overtaken(Woken(b, 1), n + 1)
  {
    var a := Entered(s, 1);
    assert a.threads == [Waiting(0, 0), Waiting(n % WRAP, n), Outside];
    NextByEntering(s, 1);
    var b := Entered(a, 2);
    NextByEntering(a, 2);
    NextPhase(n);
    NextByWaking(b, 1);
  }

  /** Runs in which thread 0 is never scheduled again reach every generation. */
  lemma {:induction false} OvertakenRun(n: nat) returns (run: seq<State>)
    requires 0 < n
    ensures IsRun(run) && Overtaken(run[|run| - 1], n)
  {
    if n == 1 {
      var s := State(2, 0, 0, 0, [Outside, Outside, Outside], []);
      var a := Entered(s, 0);
      assert a.threads == [Waiting(0, 0), Outside, Outside];
      run := [s];
      NextByEntering(s, 0);
      ExtendRun(run, a);
      NextByEntering(a, 1);
      ExtendRun([s] + [a], Entered(a, 1));
      run := [s] + [a] + [Entered(a, 1)];
    } else {
      var r := OvertakenRun(n - 1);
      var s := r[|r| - 1];
      OneRound(s, n - 1);
      var a := Entered(s, 1);
      var b := Entered(a, 2);
      hide Overtaken, Entered, Woken, Next;
      ExtendRun(r, a);
      ExtendRun(r + [a], b);
      ExtendRun(r + [a] + [b], Woken(b, 1));
      run := r + [a] + [b] + [Woken(b, 1)];
    }
  }

  /** The failure is real: for every positive multiple of 2^32 there is a run in which a
      sleeper is that many generations behind, and waking up does not let it leave. */
  lemma SleeperKept(k: nat) returns (run: seq<State>)
    requires 0 < k
    ensures IsRun(run) && var s := run[|run| - 1];
      |s.threads| == 3 && s.threads[0] == Waiting(0, 0) && s.gen == k * WRAP && WakeStep(s, s, 0)
  {
    run := OvertakenRun(k * WRAP);
    assert k * WRAP % WRAP == 0;
  }
}
