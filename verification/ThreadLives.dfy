/** The life of a thread over whole runs: exit is final, sleep lasts, and nobody is lost alive. */
module ThreadLives {
  import opened Scheduler

  // ----- exit -----

  /** No event brings a dead thread back, and no switch goes to it. */
  lemma DeadStays(s: State, e: Event, t: Ref)
    requires Inv(s) && Enabled(s, e) && t in s.threads && s.threads[t].status == Dead
    ensures t in Next(s, e).threads && Next(s, e).threads[t].status == Dead
    ensures Observe(s, e).Switched? ==> Observe(s, e).to != t
  {
    if e.Interrupt? && Due(s.threads[s.current]) {
      PickFacts(s, e.frame, e.uptime);
      SwitchResult(s, e.frame, e.uptime);
    }
  }

  /** No switch of the trace goes to thread t. */
  ghost predicate NeverResumed(trace: seq<Obs>, t: Ref) {
    forall i :: 0 <= i < |trace| && trace[i].Switched? ==> trace[i].to != t
  }

  lemma NeverResumedCons(o: Obs, rest: seq<Obs>, t: Ref)
    requires NeverResumed(rest, t) && (o.Switched? ==> o.to != t)
    ensures NeverResumed([o] + rest, t)
  {
    var trace := [o] + rest;
    forall i | 0 <= i < |trace| && trace[i].Switched? ensures trace[i].to != t {
      if i > 0 { assert trace[i] == rest[i - 1]; }
    }
  }

  lemma {:induction false} DeadForever(s: State, events: seq<Event>, t: Ref)
    requires Inv(s) && EnabledRun(s, events) && t in s.threads && s.threads[t].status == Dead
    ensures t in Run(s, events).threads && Run(s, events).threads[t].status == Dead
    ensures NeverResumed(Trace(s, events), t)
    decreases |events|
  {
    if events != [] {
      var e := events[0];
      NextKeepsInv(s, e);
      DeadStays(s, e, t);
      DeadForever(Next(s, e), events[1..], t);
      NeverResumedCons(Observe(s, e), Trace(Next(s, e), events[1..]), t);
    }
  }

  /** A thread that exits is dead in every later state of every run and is never switched to again. */
  lemma ExitIsFinal(s: State, outOfTicks: bool, events: seq<Event>)
    requires Inv(s) && EnabledRun(s, [Exit(outOfTicks)] + events)
    ensures var run := [Exit(outOfTicks)] + events;
      && s.current in Run(s, run).threads && Run(s, run).threads[s.current].status == Dead
      && NeverResumed(Trace(s, run), s.current)
  {
    var run := [Exit(outOfTicks)] + events;
    var s1 := Next(s, Exit(outOfTicks));
    assert run[1..] == events;
    NextKeepsInv(s, Exit(outOfTicks));
    DeadForever(s1, events, s.current);
    NeverResumedCons(Observe(s, Exit(outOfTicks)), Trace(s1, events), s.current);
  }

  /** If it gives up the rest of its slice, the next interrupt takes the processor away from it. */
  lemma ExitYields(s: State, frame: int, uptime: nat)
    requires Inv(s) && Enabled(s, Exit(true))
    ensures Inv(Next(s, Exit(true)))
    ensures var o := Observe(Next(s, Exit(true)), Interrupt(frame, uptime));
      o.Switched? && o.from == s.current && o.to != s.current
  {
    NextKeepsInv(s, Exit(true));
    DeadStays(Next(s, Exit(true)), Interrupt(frame, uptime), s.current);
  }

  // ----- sleep -----

  ghost predicate Asleep(s: State, t: Ref, wakeup: nat) {
    t in s.threads && s.threads[t].status == Sleep && s.threads[t].wakeup == wakeup
  }

  /** A sleeper is left alone by everything but an interrupt after its wakeup time. */
  lemma SleeperStays(s: State, e: Event, t: Ref, wakeup: nat)
    requires Inv(s) && Enabled(s, e) && Asleep(s, t, wakeup) && (e.Interrupt? ==> e.uptime <= wakeup)
    ensures Asleep(Next(s, e), t, wakeup)
    ensures Observe(s, e).Switched? ==> Observe(s, e).to != t
  {
    if e.Interrupt? && Due(s.threads[s.current]) {
      PickFacts(s, e.frame, e.uptime);
      SwitchResult(s, e.frame, e.uptime);
    }
  }

  /** No interrupt of the run comes after that time. */
  ghost predicate AllBefore(events: seq<Event>, wakeup: nat) {
    forall i :: 0 <= i < |events| && events[i].Interrupt? ==> events[i].uptime <= wakeup
  }

  lemma {:induction false} SleeperSleeps(s: State, events: seq<Event>, t: Ref, wakeup: nat)
    requires Inv(s) && EnabledRun(s, events) && Asleep(s, t, wakeup) && AllBefore(events, wakeup)
    ensures Asleep(Run(s, events), t, wakeup) && NeverResumed(Trace(s, events), t)
    decreases |events|
  {
    if events != [] {
      var e := events[0];
      NextKeepsInv(s, e);
      SleeperStays(s, e, t, wakeup);
      SleeperSleeps(Next(s, e), events[1..], t, wakeup);
      NeverResumedCons(Observe(s, e), Trace(Next(s, e), events[1..]), t);
    }
  }

  /** A thread that goes to sleep is asleep, and not switched to, in every run up to its wakeup time; and the
      next interrupt takes the processor away from it at once. */
  lemma SleepIsHonoured(s: State, wakeup: nat, events: seq<Event>, frame: int, uptime: nat)
    requires Inv(s) && EnabledRun(s, [GoToSleep(wakeup)] + events) && AllBefore(events, wakeup)
    ensures var run := [GoToSleep(wakeup)] + events;
      Asleep(Run(s, run), s.current, wakeup) && NeverResumed(Trace(s, run), s.current)
    ensures Inv(Next(s, GoToSleep(wakeup)))
    ensures var o := Observe(Next(s, GoToSleep(wakeup)), Interrupt(frame, uptime));
      o.Switched? && o.from == s.current && (uptime <= wakeup ==> o.to != s.current)
  {
    var run := [GoToSleep(wakeup)] + events;
    var s1 := Next(s, GoToSleep(wakeup));
    assert run[1..] == events;
    NextKeepsInv(s, GoToSleep(wakeup));
    SleeperSleeps(s1, events, s.current, wakeup);
    NeverResumedCons(Observe(s, GoToSleep(wakeup)), Trace(s1, events), s.current);
    if uptime <= wakeup { SleeperStays(s1, Interrupt(frame, uptime), s.current, wakeup); }
  }

  // ----- the list -----

  /** The thread m places behind place i, around the end of the list. */
  function Behind(list: seq<Ref>, i: nat, m: nat): Ref
    requires i < |list| && m < |list|
  {
    if i + m < |list| then list[i + m] else list[i + m - |list|]
  }

  lemma RotationAt(list: seq<Ref>, i: nat, m: nat)
    requires i < |list| && 0 < m < |list|
    ensures |Rotation(list, i)| == |list| - 1 && Rotation(list, i)[m - 1] == Behind(list, i, m)
  {}

  lemma PrunedIff(list: seq<Ref>, i: nat, k: nat, m: nat)
    requires Distinct(list) && i < |list| && k < |list| && 0 < m < |list|
    ensures Behind(list, i, m) in Pruned(list, i, k) <==> m > k
  {
    var p, behind, at := Pruned(list, i, k), |list| - 1 - i, if i + m < |list| then i + m else i + m - |list|;
    if m > k {
      var place := if k <= behind then (if at > i then at - k else at) else at - (k - behind);
      assert p[place] == list[at];
    } else {
      forall place | 0 <= place < |p| ensures p[place] != list[at] {
        var from := if k <= behind then (if place > i then place + k else place) else place + (k - behind);
        assert p[place] == list[from] && from != at;
      }
    }
  }

  /** The thread m places behind the current one is dead. */
  ghost predicate DeadBehind(s: State, m: nat)
    requires s.current in s.list && m < |s.list|
  {
    var t := Behind(s.list, Position(s.list, s.current), m);
    t in s.threads && s.threads[t].status == Dead
  }

  lemma DeadPrefixIff(s: State, frame: int, d: nat)
    requires Inv(s) && 0 < d < |s.list|
    requires AllKnown(Out(s, frame), Rotation(s.list, Position(s.list, s.current)))
    ensures DeadPrefix(Out(s, frame), Rotation(s.list, Position(s.list, s.current))) >= d <==>
      forall m: nat :: 0 < m <= d ==> DeadBehind(s, m)
  {
    var i := Position(s.list, s.current);
    var rot, out := Rotation(s.list, i), Out(s, frame);
    var k := DeadPrefix(out, rot);
    RotationMembers(s.list, i);
    forall m: nat | 0 < m <= d ensures DeadBehind(s, m) <==> out[rot[m - 1]].status == Dead {
      RotationAt(s.list, i, m);
      assert rot[m - 1] in rot;
    }
    if k < d { assert !DeadBehind(s, k + 1); }
  }

  /** A switch takes a thread out of the list exactly if it is dead and so are all threads between the current
      one and it: the search deletes what it passes and nothing else. */
  lemma SwitchDeletesIff(s: State, frame: int, uptime: nat, d: nat)
    requires Inv(s) && Due(s.threads[s.current]) && 0 < d < |s.list|
    ensures var t := Behind(s.list, Position(s.list, s.current), d);
      t !in Next(s, Interrupt(frame, uptime)).list <==> forall m: nat :: 0 < m <= d ==> DeadBehind(s, m)
    ensures s.current in Next(s, Interrupt(frame, uptime)).list
  {
    var i := Position(s.list, s.current);
    PickFacts(s, frame, uptime);
    SwitchResult(s, frame, uptime);
    var k := DeadPrefix(Out(s, frame), Rotation(s.list, i));
    PrunedIsSublist(s.list, i, k);
    PrunedIff(s.list, i, k, d);
    DeadPrefixIff(s, frame, d);
  }

  /** A switch goes to the thread d places behind the current one, other than the idle one, exactly if all threads
      in between are dead and it is ready, new, or asleep past its wakeup time; it then runs with a new slice. */
  lemma SwitchResumesIff(s: State, frame: int, uptime: nat, d: nat)
    requires Inv(s) && Due(s.threads[s.current]) && 0 < d < |s.list|
    requires Behind(s.list, Position(s.list, s.current), d) != s.idle
    ensures var t, s1 := Behind(s.list, Position(s.list, s.current), d), Next(s, Interrupt(frame, uptime));
      && t in s.threads
      && (s1.current == t <==>
            && (forall m: nat :: 0 < m < d ==> DeadBehind(s, m))
            && var u := s.threads[t];
            u.status == Ready || u.status == New || (u.status == Sleep && uptime > u.wakeup))
      && s1.current in s1.threads && s1.threads[s1.current].status == Running && s1.threads[s1.current].ticks == 0
  {
    var i := Position(s.list, s.current);
    var rot, out := Rotation(s.list, i), Out(s, frame);
    var t := Behind(s.list, i, d);
    PickFacts(s, frame, uptime);
    SwitchResult(s, frame, uptime);
    RotationMembers(s.list, i);
    RotationAt(s.list, i, d);
    assert t == rot[d - 1] && t in rot;
    var k := DeadPrefix(out, rot);
    if d > 1 { DeadPrefixIff(s, frame, d - 1); }
    assert k >= d - 1 <==> forall m: nat :: 0 < m < d ==> DeadBehind(s, m);
    if k < |rot| {
      RotationAt(s.list, i, k + 1);
      SamePlace(s.list, i, d, k + 1);
    }
  }

  lemma SamePlace(list: seq<Ref>, i: nat, d: nat, m: nat)
    requires Distinct(list) && i < |list| && 0 < d < |list| && 0 < m < |list|
    ensures Behind(list, i, d) == Behind(list, i, m) <==> d == m
  {}

  lemma StepKeepsListed(s: State, e: Event, t: Ref)
    requires Inv(s) && Enabled(s, e) && t in s.list && s.threads[t].status != Dead
    ensures t in Next(s, e).list
  {
    match e
    case Interrupt(frame, uptime) =>
      if Due(s.threads[s.current]) {
        PickFacts(s, frame, uptime);
        SwitchResult(s, frame, uptime);
      }
    case Create(ref, _, _) => assert Next(s, e).list[1..] == s.list;
    case _ =>
  }

  /** No thread is lost alive: over every run, a thread of the list that is not dead at the end is still in
      the list. */
  lemma {:induction false} RunKeepsListed(s: State, events: seq<Event>, t: Ref)
    requires Inv(s) && EnabledRun(s, events) && t in s.list
    ensures t in Run(s, events).threads
    ensures Run(s, events).threads[t].status != Dead ==> t in Run(s, events).list
    decreases |events|
  {
    if s.threads[t].status == Dead {
      DeadForever(s, events, t);
    } else if events != [] {
      NextKeepsInv(s, events[0]);
      StepKeepsListed(s, events[0], t);
      RunKeepsListed(Next(s, events[0]), events[1..], t);
    }
  }
}
