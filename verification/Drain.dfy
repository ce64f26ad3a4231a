/** Taking the AoC offline while service calls run: calls count themselves in, recheck the firmware
    state, use the services, count themselves out; `aoc_take_offline` frees the services once it has
    seen the count at zero. Any number of threads, any interleaving. */
module Drain {

  datatype Firmware = Offline | Loaded | Starting | Online | Ssr

  type Thread = nat
  /** Service devices are created afresh at each start of the firmware; a generation names one batch. */
  type Generation = nat

  /** Where a thread is inside a service call on a device of generation `g`. */
  datatype Pc =
    | Counted(g: Generation)   // counted in, state not rechecked
    | Inside(g: Generation)    // recheck passed, using the services
    | Asleep(g: Generation)    // in `wait_event` on the device's queue
    | Woken(g: Generation)     // out of the wait, nothing checked yet
    | Leaving(g: Generation)   // about to count out

  /** What the holder of `aoc_service_lock` is doing. */
  datatype Control =
    | Free
    | Draining     // state is offline, polling the active count
    | Drained      // saw it at zero
    | Removed      // devices unregistered, service array not yet freed
    | Built        // service array rebuilt, not yet online
    | Registering  // online, devices not yet on the bus

  /** `threads` holds every thread that has counted itself in. `bus` are the generations whose devices
      are registered, `dead` those whose devices are marked dead, `latest` the newest one. */
  datatype State = State(
    firmware: Firmware, active: int, services: bool,
    bus: set<Generation>, dead: set<Generation>, latest: Generation,
    control: Control, threads: map<Thread, Pc>)

  datatype Event =
    | Enter(t: Thread, g: Generation)
    | Recheck(t: Thread)
    | Sleep(t: Thread)
    | Ready(t: Thread)
    | Interrupt(t: Thread)
    | AfterWait(t: Thread)
    | Quit(t: Thread)
    | Leave(t: Thread)
    | TakeOffline
    | Poll
    | Remove
    | FreeServices
    | Build
    | AbortBuild
    | GoOnline
    | Register
    | Write(v: Firmware)

  function At(s: State, t: Thread, pc: Pc): State {
    s.(threads := s.threads[t := pc])
  }

  /** `aoc_wakeup_queues` on every registered device: mark dead, wake the sleepers. */
  function WakeAll(s: State): State {
    s.(dead := s.dead + s.bus,
       threads := map t | t in s.threads ::
         if s.threads[t].Asleep? && s.threads[t].g in s.bus then Woken(s.threads[t].g) else s.threads[t])
  }

  /** A step of a thread inside a service call; nothing changes if it is elsewhere. */
  function ThreadStep(s: State, e: Event, t: Thread): State
    requires t in s.threads
  {
    match (e, s.threads[t])
    case (Recheck(_), Counted(g)) => At(s, t, if s.firmware == Online then Inside(g) else Leaving(g))
    case (Sleep(_), Inside(g)) => if s.firmware == Online && g !in s.dead then At(s, t, Asleep(g)) else s
    case (Ready(_), Asleep(g)) => if s.firmware == Online then At(s, t, Woken(g)) else s
    case (Interrupt(_), Asleep(g)) => At(s, t, Woken(g))
    case (AfterWait(_), Woken(g)) =>
      At(s, t, if s.firmware == Online && g !in s.dead then Inside(g) else Leaving(g))
    case (Quit(_), Inside(g)) => At(s, t, Leaving(g))
    case (Leave(_), Leaving(_)) => s.(active := s.active - 1, threads := s.threads - {t})
    case _ => s
  }

  function Next(s: State, e: Event): State {
    match e
    case Enter(t, g) =>
      if t !in s.threads && g <= s.latest
      then At(s, t, Counted(g)).(active := s.active + 1) else s
    case TakeOffline =>
      if s.control == Free && (s.firmware == Online || s.firmware == Ssr)
      then s.(firmware := Offline, control := Draining) else s
    case Poll =>
      if s.control != Draining then s
      else if s.active == 0 then s.(control := Drained) else WakeAll(s)
    case Remove => if s.control == Drained then s.(bus := {}, control := Removed) else s
    case FreeServices => if s.control == Removed then s.(services := false, control := Free) else s
    case Build =>
      if s.control == Free then s.(services := true, latest := s.latest + 1, control := Built) else s
    case AbortBuild => if s.control == Built then s.(control := Free) else s
    case GoOnline => if s.control == Built then s.(firmware := Online, control := Registering) else s
    case Register => if s.control == Registering then s.(bus := s.bus + {s.latest}, control := Free) else s
    case Write(v) => if v != Online then s.(firmware := v) else s
    case _ => if e.t in s.threads then ThreadStep(s, e, e.t) else s
  }

  function Run(s: State, es: seq<Event>): State
    decreases |es|
  {
    if es == [] then s else Run(Next(s, es[0]), es[1..])
  }

  const Boot := State(Offline, 0, false, {}, {}, 0, Free, map[])

  // ---------------------------------------------------------------------------------------------
  // Safety

  /** A thread that may touch the service array or wait on it. */
  predicate Using(pc: Pc) {
    pc.Inside? || pc.Asleep? || pc.Woken?
  }

  ghost predicate Quiet(s: State) {
    forall t :: t in s.threads ==> !Using(s.threads[t])
  }

  ghost predicate Inv(s: State) {
    && s.active == |s.threads|
    && (s.firmware == Online ==> s.services)
    && (!s.services ==> Quiet(s))
    && (s.control == Built || s.control == Registering ==> s.services)
    && (s.control == Draining || s.control == Drained || s.control == Removed ==> s.firmware != Online)
    && (s.control == Drained || s.control == Removed ==> Quiet(s))
  }

  /** Moving one thread keeps the count; moving it to a using state needs the services. */
  lemma MoveOk(s: State, t: Thread, pc: Pc)
    requires Inv(s) && t in s.threads
    requires Using(pc) ==> Using(s.threads[t]) || s.firmware == Online
    ensures Inv(At(s, t, pc))
  {
    assert At(s, t, pc).threads.Keys == s.threads.Keys;
  }

  lemma ThreadStepOk(s: State, e: Event, t: Thread)
    requires Inv(s) && t in s.threads
    ensures Inv(ThreadStep(s, e, t))
  {
    var s' := ThreadStep(s, e, t);
    if e.Leave? && s.threads[t].Leaving? {
      assert s'.threads.Keys == s.threads.Keys - {t};
    } else if s' != s {
      MoveOk(s, t, s'.threads[t]);
    }
  }

  lemma EnterOk(s: State, t: Thread, g: Generation)
    requires Inv(s)
    ensures Inv(Next(s, Enter(t, g)))
  {
    var s' := Next(s, Enter(t, g));
    if s' != s {
      assert s'.threads.Keys == s.threads.Keys + {t};
    }
  }

  lemma PollOk(s: State)
    requires Inv(s)
    ensures Inv(Next(s, Poll))
  {
    assert WakeAll(s).threads.Keys == s.threads.Keys;
    if s.active == 0 {
      assert s.threads.Keys == {};
    }
  }

  lemma StepOk(s: State, e: Event)
    requires Inv(s)
    ensures Inv(Next(s, e))
  {
    match e
    case Enter(t, g) => EnterOk(s, t, g);
    case Poll => PollOk(s);
    case TakeOffline =>
    case Remove =>
    case FreeServices =>
    case Build =>
    case AbortBuild =>
    case GoOnline =>
    case Register =>
    case Write(_) =>
    case _ =>
      if e.t in s.threads {
        ThreadStepOk(s, e, e.t);
      }
  }

  lemma {:induction false} RunOk(s: State, es: seq<Event>)
    requires Inv(s)
    ensures Inv(Run(s, es))
    decreases |es|
  {
    if es != [] {
      StepOk(s, es[0]);
      RunOk(Next(s, es[0]), es[1..]);
    }
  }

  /** In every reachable state the active count is the number of threads counted in; a thread using the
      services finds them allocated; and from the moment the drain has seen zero until the array is
      rebuilt no thread uses it. */
  lemma {:induction false} ServicesSafe(es: seq<Event>)
    ensures var s := Run(Boot, es);
            && s.active == |s.threads|
            && (forall t :: t in s.threads && Using(s.threads[t]) ==> s.services)
            && (s.control == Drained || s.control == Removed || !s.services ==> Quiet(s))
  {
    RunOk(Boot, es);
  }

  // ---------------------------------------------------------------------------------------------
  // Progress

  lemma {:induction false} RunAppend(s: State, a: seq<Event>, b: seq<Event>)
    ensures Run(s, a + b) == Run(Run(s, a), b)
    decreases |a|
  {
    if a == [] {
      assert a + b == b;
    } else {
      assert (a + b)[1..] == a[1..] + b;
      RunAppend(Next(s, a[0]), a[1..], b);
    }
  }

  /** The thread sleeps on a device that is no longer registered. */
  ghost predicate StrandedAt(s: State, t: Thread) {
    t in s.threads && s.threads[t].Asleep? && s.threads[t].g !in s.bus
  }

  ghost predicate Stranded(s: State) {
    exists t :: StrandedAt(s, t)
  }

  /** Nothing from outside (a signal, a timeout) gets a thread out of its wait. */
  ghost predicate NoInterrupt(es: seq<Event>) {
    forall e :: e in es ==> !e.Interrupt?
  }

  /** While the drain runs, a thread that is awake gets out by its own steps: no check it makes and no
      condition it waits for keeps it in. */
  lemma ThreadLeaves(s: State, t: Thread) returns (es: seq<Event>)
    requires Inv(s) && s.control == Draining && t in s.threads && !s.threads[t].Asleep?
    ensures Run(s, es) == s.(active := s.active - 1, threads := s.threads - {t}) && NoInterrupt(es)
  {
    var g := s.threads[t].g;
    var last := [Leave(t)];
    assert last[1..] == [];
    var out := At(s, t, Leaving(g));
    assert out.threads - {t} == s.threads - {t};
    assert Run(out, last) == s.(active := s.active - 1, threads := s.threads - {t});
    if s.threads[t].Leaving? {
      es := last;
      assert out == s by { assert s.threads[t := Leaving(g)] == s.threads; }
    } else {
      var first := if s.threads[t].Counted? then Recheck(t)
                   else if s.threads[t].Inside? then Quit(t) else AfterWait(t);
      es := [first] + last;
      assert Next(s, first) == out && es[1..] == last;
    }
  }

  lemma {:induction false} AwakeDrain(s: State) returns (es: seq<Event>)
    requires Inv(s) && s.control == Draining && forall t :: t in s.threads ==> !s.threads[t].Asleep?
    ensures Run(s, es) == s.(control := Drained, active := 0, threads := map[]) && NoInterrupt(es)
    decreases |s.threads|
  {
    if s.threads.Keys == {} {
      es := [Poll];
      assert es[1..] == [] && s.active == 0 && s.threads == map[];
      assert Run(Next(s, Poll), []) == s.(control := Drained);
    } else {
      var t :| t in s.threads;
      var first := ThreadLeaves(s, t);
      RunOk(s, first);
      var s' := Run(s, first);
      assert s'.threads.Keys == s.threads.Keys - {t};
      var rest := AwakeDrain(s');
      RunAppend(s, first, rest);
      es := first + rest;
    }
  }

  lemma DrainCompletes(s: State) returns (es: seq<Event>)
    requires Inv(s) && s.control == Draining && !Stranded(s)
    ensures Run(s, es) == s.(control := Drained, active := 0, threads := map[], dead := Run(s, es).dead)
    ensures NoInterrupt(es)
  {
    if s.active == 0 {
      assert s.threads.Keys == {};
      es := AwakeDrain(s);
    } else {
      PollOk(s);
      var s' := Next(s, Poll);
      forall t | t in s'.threads
        ensures !s'.threads[t].Asleep?
      {
        assert !StrandedAt(s, t);
      }
      var rest := AwakeDrain(s');
      es := [Poll] + rest;
      assert es[1..] == rest;
    }
  }

  /** A thread asleep on an unregistered device is woken by nothing the drain does. */
  lemma {:induction false} StrandedStays(s: State, t: Thread, es: seq<Event>)
    requires Inv(s) && s.control == Draining && StrandedAt(s, t) && NoInterrupt(es)
    ensures Run(s, es).control == Draining && StrandedAt(Run(s, es), t)
    decreases |es|
  {
    if es != [] {
      var s' := Next(s, es[0]);
      StepOk(s, es[0]);
      assert s.active != 0 by {
        assert t in s.threads.Keys;
      }
      assert s'.control == Draining && StrandedAt(s', t);
      StrandedStays(s', t, es[1..]);
    }
  }

  /** From any state of the drain the active count can reach zero without outside help exactly when no
      thread sleeps on a device that has left the bus. */
  lemma {:induction false} DrainExact(s: State)
    requires Inv(s) && s.control == Draining
    ensures (exists es :: NoInterrupt(es) && Run(s, es).control == Drained) <==> !Stranded(s)
  {
    if Stranded(s) {
      var t :| StrandedAt(s, t);
      forall es | NoInterrupt(es)
        ensures Run(s, es).control != Drained
      {
        StrandedStays(s, t, es);
      }
    } else {
      var es := DrainCompletes(s);
    }
  }

  /** Devices removed by a drain that found nobody active are never marked dead; a client that kept one
      can sleep on it after the restart, and the next drain does not end. */
  lemma {:induction false} StrandedReachable() returns (es: seq<Event>)
    ensures Run(Boot, es).control == Draining && Stranded(Run(Boot, es))
  {
    var up := [Build, GoOnline, Register];
    var down := [TakeOffline, Poll, Remove, FreeServices];
    var sleep := [Enter(0, 1), Recheck(0), Sleep(0), TakeOffline];
    var s1 := State(Online, 0, true, {1}, {}, 1, Free, map[]);
    Three(Boot, up);
    assert Run(Boot, up) == s1;
    var s2 := State(Offline, 0, false, {}, {}, 1, Free, map[]);
    Four(s1, down);
    assert Run(s1, down) == s2;
    var s3 := State(Online, 0, true, {2}, {}, 2, Free, map[]);
    Three(s2, up);
    assert Run(s2, up) == s3;
    Four(s3, sleep);
    var s4 := Run(s3, sleep);
    assert s4.threads[0] == Asleep(1) && StrandedAt(s4, 0);
    RunAppend(Boot, up, down);
    RunAppend(Boot, up + down, up);
    RunAppend(Boot, up + down + up, sleep);
    es := up + down + up + sleep;
  }

  lemma Three(s: State, es: seq<Event>)
    requires |es| == 3
    ensures Run(s, es) == Next(Next(Next(s, es[0]), es[1]), es[2])
  {
    var s1 := Next(s, es[0]);
    var s2 := Next(s1, es[1]);
    assert Run(s, es) == Run(s1, es[1..]) == Run(s2, es[1..][1..]);
    assert Run(s2, es[1..][1..]) == Run(Next(s2, es[2]), []);
  }

  lemma Four(s: State, es: seq<Event>)
    requires |es| == 4
    ensures Run(s, es) == Next(Next(Next(Next(s, es[0]), es[1]), es[2]), es[3])
  {
    Three(Next(s, es[0]), es[1..]);
  }
}
