/** Whole cycles of the AoC going offline and coming back: which devices are dead, who can sleep, and that calls
    and restarts get where they should. */
module DrainCycles {
  import opened Drain

  // ---------------------------------------------------------------------------------------------
  // Dead devices

  /** Nobody sleeps on a dead device. Apart from the drain itself, devices on the bus are alive, and a batch not
      yet on the bus has never been marked. */
  ghost predicate Alive(s: State) {
    && (forall t :: t in s.threads && s.threads[t].Asleep? ==> s.threads[t].g !in s.dead)
    && (forall g :: g in s.dead || g in s.bus ==> g <= s.latest)
    && (s.control != Draining && s.control != Drained ==> s.bus !! s.dead)
    && (s.control == Built || s.control == Registering ==> s.latest !in s.bus && s.latest !in s.dead)
  }

  lemma AliveStep(s: State, e: Event)
    requires Alive(s)
    ensures Alive(Next(s, e))
  {
    match e
    case Poll =>
    case Enter(_, _) =>
    case TakeOffline =>
    case Remove =>
    case FreeServices =>
    case Build =>
    case AbortBuild =>
    case GoOnline =>
    case Register =>
    case Write(_) =>
    case _ =>
  }

  lemma {:induction false} AliveRun(s: State, es: seq<Event>)
    requires Alive(s)
    ensures Alive(Run(s, es))
    decreases |es|
  {
    if es != [] {
      AliveStep(s, es[0]);
      AliveRun(Next(s, es[0]), es[1..]);
    }
  }

  /** In every run nobody sleeps on a dead device, and a device on the bus is dead only while a drain is under
      way: marking stops with the batch that was registered. */
  lemma {:induction false} DeadExactly(es: seq<Event>)
    ensures var s := Run(Boot, es);
            && (forall t :: t in s.threads && s.threads[t].Asleep? ==> s.threads[t].g !in s.dead)
            && (s.control != Draining && s.control != Drained ==> s.bus !! s.dead)
  {
    AliveRun(Boot, es);
  }

  lemma {:induction false} DeadStays(s: State, es: seq<Event>, g: Generation)
    requires g in s.dead
    ensures g in Run(s, es).dead
    decreases |es|
  {
    if es != [] {
      DeadStays(Next(s, es[0]), es[1..], g);
    }
  }

  /** Only idle drains strand: once a drain has found somebody active, nobody ever sleeps again on a device that
      was registered then, whatever comes later. */
  lemma {:induction false} BusyDrainStrandsNone(es: seq<Event>, more: seq<Event>, g: Generation, t: Thread)
    requires var s := Run(Boot, es); s.control == Draining && s.active != 0 && g in s.bus
    ensures var s' := Run(Next(Run(Boot, es), Poll), more);
            g in s'.dead && !(t in s'.threads && s'.threads[t] == Asleep(g))
  {
    var s := Run(Boot, es);
    AliveRun(Boot, es);
    AliveStep(s, Poll);
    AliveRun(Next(s, Poll), more);
    DeadStays(Next(s, Poll), more, g);
  }

  // ---------------------------------------------------------------------------------------------
  // Calls

  lemma Two(s: State, a: Event, b: Event)
    ensures Run(s, [a, b]) == Next(Next(s, a), b)
  {
    assert [a, b][1..] == [b] && [b][1..] == [];
    assert Run(Next(s, a), [b]) == Run(Next(Next(s, a), b), []);
  }

  /** A call finds its way in exactly while the firmware is online, and goes out again leaving no trace. */
  lemma {:induction false} CallInAndOut(s: State, t: Thread, g: Generation)
    requires t !in s.threads && g <= s.latest
    ensures Run(s, [Enter(t, g), Recheck(t)])
            == At(s, t, if s.firmware == Online then Inside(g) else Leaving(g)).(active := s.active + 1)
    ensures s.firmware == Online ==> Run(s, [Enter(t, g), Recheck(t)] + [Quit(t), Leave(t)]) == s
    ensures s.firmware != Online ==> Run(s, [Enter(t, g), Recheck(t)] + [Leave(t)]) == s
  {
    var enter, quit, leave := [Enter(t, g), Recheck(t)], [Quit(t), Leave(t)], [Leave(t)];
    var s1 := Next(s, Enter(t, g));
    Two(s, Enter(t, g), Recheck(t));
    var s2 := Run(s, enter);
    assert s2.threads == s.threads[t := s2.threads[t]];
    assert s2 == At(s, t, s2.threads[t]).(active := s.active + 1);
    RunAppend(s, enter, quit);
    RunAppend(s, enter, leave);
    assert s2.threads - {t} == s.threads;
    assert leave[1..] == [];
    assert Run(s2, leave) == Run(Next(s2, Leave(t)), []);
    if s.firmware == Online {
      Two(s2, Quit(t), Leave(t));
      var s3 := Next(s2, Quit(t));
      assert s3.threads - {t} == s.threads;
    }
  }

  /** A sleeper on a live device goes on with its call when there is something to read, and only then or when
      interrupted: while the firmware is online and its device alive nothing turns it away. */
  lemma {:induction false} SleeperServed(s: State, t: Thread)
    requires s.firmware == Online && t in s.threads && s.threads[t].Asleep? && s.threads[t].g !in s.dead
    ensures Run(s, [Ready(t), AfterWait(t)]) == At(s, t, Inside(s.threads[t].g))
    ensures Run(s, [Interrupt(t), AfterWait(t)]) == At(s, t, Inside(s.threads[t].g))
  {
    var g := s.threads[t].g;
    Two(s, Ready(t), AfterWait(t));
    Two(s, Interrupt(t), AfterWait(t));
    assert Next(s, Ready(t)) == Next(s, Interrupt(t)) == At(s, t, Woken(g));
    assert s.threads[t := Woken(g)][t := Inside(g)] == s.threads[t := Inside(g)];
  }

  /** A crash of the firmware turns away the call that wakes up next. */
  lemma {:induction false} CrashTurnsAway(s: State, t: Thread, v: Firmware)
    requires t in s.threads && s.threads[t].Woken? && v != Online
    ensures Run(s, [Write(v), AfterWait(t)]) == At(s, t, Leaving(s.threads[t].g)).(firmware := v)
  {
    Two(s, Write(v), AfterWait(t));
  }

  // ---------------------------------------------------------------------------------------------
  // Cycles

  /** With signals to its sleepers every drain ends, stranded ones too. */
  lemma {:induction false} SignalsEndDrain(s: State) returns (es: seq<Event>)
    requires Inv(s) && s.control == Draining
    ensures Run(s, es).control == Drained
    decreases |s.threads|
  {
    if s.threads.Keys == {} {
      es := [Poll];
      assert es[1..] == [] && s.active == 0;
      assert Run(Next(s, Poll), []).control == Drained;
    } else {
      var t :| t in s.threads;
      var wake := if s.threads[t].Asleep? then [Interrupt(t)] else [];
      var s1 := Run(s, wake);
      RunOk(s, wake);
      assert s1.threads.Keys == s.threads.Keys && s1.control == Draining && !s1.threads[t].Asleep? by {
        assert wake != [] ==> wake[1..] == [] && s1 == Run(Next(s, Interrupt(t)), []);
      }
      var leave := ThreadLeaves(s1, t);
      RunOk(s1, leave);
      var rest := SignalsEndDrain(Run(s1, leave));
      RunAppend(s, wake, leave);
      RunAppend(s, wake + leave, rest);
      es := wake + leave + rest;
    }
  }

  /** The rest of a drain: devices unregistered, services freed. */
  lemma DrainedFrees(s: State)
    requires s.control == Drained
    ensures Run(s, [Remove, FreeServices]) == s.(bus := {}, services := false, control := Free)
  {
    Two(s, Remove, FreeServices);
  }

  /** From a running or crashed firmware the services can be taken down, unless somebody is stranded. */
  lemma {:induction false} TakesDown(s: State) returns (es: seq<Event>)
    requires Inv(s) && s.control == Free && (s.firmware == Online || s.firmware == Ssr) && !Stranded(s)
    ensures NoInterrupt(es)
    ensures var s' := Run(s, [TakeOffline] + es);
            s'.control == Free && !s'.services && s'.bus == {} && s'.threads == map[]
  {
    var s1 := Next(s, TakeOffline);
    StepOk(s, TakeOffline);
    assert !Stranded(s1) by {
      assert forall t :: StrandedAt(s1, t) ==> StrandedAt(s, t);
    }
    var drain := DrainCompletes(s1);
    DrainedFrees(Run(s1, drain));
    RunAppend(s1, drain, [Remove, FreeServices]);
    es := drain + [Remove, FreeServices];
    assert ([TakeOffline] + es)[1..] == es;
  }

  /** Whatever has happened, unless somebody is stranded in a drain, the AoC can be brought online with a batch
      of live devices. */
  lemma {:induction false} Recovers(es: seq<Event>) returns (more: seq<Event>)
    requires Run(Boot, es).control == Draining ==> !Stranded(Run(Boot, es))
    ensures NoInterrupt(more)
    ensures var s := Run(Boot, es + more);
            && s.control == Free && s.firmware == Online && s.services
            && s.latest == Run(Boot, es).latest + 1 && s.latest in s.bus && s.latest !in s.dead
  {
    var s := Run(Boot, es);
    RunOk(Boot, es);
    var free := ComesFree(s);
    var up := [Build, GoOnline, Register];
    Three(Run(s, free), up);
    RunAppend(s, free, up);
    RunAppend(Boot, es, free + up);
    more := free + up;
    AliveRun(Boot, es + more);
  }

  /** The holder of the lock can always go on to give it up. */
  lemma ComesFree(s: State) returns (es: seq<Event>)
    requires Inv(s) && (s.control == Draining ==> !Stranded(s))
    ensures NoInterrupt(es) && Run(s, es).control == Free && Run(s, es).latest == s.latest
  {
    match s.control
    case Free => es := [];
    case Draining =>
      var drain := DrainCompletes(s);
      DrainedFrees(Run(s, drain));
      RunAppend(s, drain, [Remove, FreeServices]);
      es := drain + [Remove, FreeServices];
    case Drained =>
      es := [Remove, FreeServices];
      DrainedFrees(s);
    case Removed => es := One(s, FreeServices);
    case Built => es := One(s, AbortBuild);
    case Registering => es := One(s, Register);
  }

  lemma One(s: State, e: Event) returns (es: seq<Event>)
    ensures es == [e] && Run(s, es) == Next(s, e)
  {
    es := [e];
    assert es[1..] == [];
    assert Run(Next(s, e), []) == Next(s, e);
  }
}
