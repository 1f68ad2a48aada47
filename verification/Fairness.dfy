/** Who gets the processor: the exact choice of a switch, round robin while nobody sleeps, and
    starvation behind a sleeper. */
module Fairness {
  import opened Bits
  import opened Scheduler

  // ----- the choice of one switch -----

  /** Thread t is the first of refs that is not dead. */
  ghost predicate FirstAlive(threads: Threads, refs: seq<Ref>, t: Ref)
    requires AllKnown(threads, refs)
  {
    exists k :: 0 <= k < |refs| && refs[k] == t && threads[refs[k]].status != Dead
      && forall j :: 0 <= j < k ==> threads[refs[j]].status == Dead
  }

  lemma FirstAliveIff(threads: Threads, refs: seq<Ref>, t: Ref)
    requires AllKnown(threads, refs)
    ensures var k := DeadPrefix(threads, refs); FirstAlive(threads, refs, t) <==> k < |refs| && refs[k] == t
  {
    var k := DeadPrefix(threads, refs);
    if FirstAlive(threads, refs, t) {
      var m :| 0 <= m < |refs| && refs[m] == t && threads[refs[m]].status != Dead
        && forall j :: 0 <= j < m ==> threads[refs[j]].status == Dead;
      assert m == k;
    }
  }

  /** The threads in the order in which a switch looks at them. */
  ghost function Others(s: State): seq<Ref>
    requires Known(s)
  {
    Rotation(s.list, Position(s.list, s.current))
  }

  /** A thread other than the idle one gets the processor exactly if it is the first thread after the
      current one, wrapping around at the end of the list, that is not dead, and it may run. The idle
      thread gets it exactly if no other thread does. */
  lemma SwitchChoosesIff(s: State, frame: int, uptime: nat, t: Ref)
    requires Inv(s) && Due(s.threads[s.current])
    ensures AllKnown(Out(s, frame), Others(s))
    ensures t != s.idle ==>
      (Schedule(s, frame, uptime).0.current == t <==>
       t in s.threads && FirstAlive(Out(s, frame), Others(s), t) && Eligible(Out(s, frame)[t], uptime))
    ensures Schedule(s, frame, uptime).0.current == s.idle <==>
      forall u :: u in s.threads && u != s.idle && FirstAlive(Out(s, frame), Others(s), u) ==>
        !Eligible(Out(s, frame)[u], uptime)
  {
    SwitchResult(s, frame, uptime);
    var out, others := Out(s, frame), Others(s);
    forall u
      ensures FirstAlive(out, others, u) <==> DeadPrefix(out, others) < |others| && others[DeadPrefix(out, others)] == u
    {
      FirstAliveIff(out, others, u);
    }
  }

  // ----- round robin -----

  /** Nobody in the list sleeps, waits or is dead. */
  ghost predicate AllLive(s: State)
    requires Known(s)
  {
    forall j :: 0 <= j < |s.list| ==> s.threads[s.list[j]].status in {New, Ready, Running}
  }

  lemma {:induction false} PositionOf(list: seq<Ref>, i: nat)
    requires Distinct(list) && i < |list|
    ensures Position(list, list[i]) == i
  {
    var j := Position(list, list[i]);
    assert list[j] == list[i];
  }

  /** The next position, around the end of a list of n. */
  function Wrap(i: nat, n: nat): nat { if i + 1 == n then 0 else i + 1 }

  /** The position k steps on. */
  function Along(i: nat, k: nat, n: nat): (j: nat)
    requires i < n
    ensures j < n
    decreases k
  {
    if k == 0 then i else Along(Wrap(i, n), k - 1, n)
  }

  lemma {:induction false} AlongQuotient(i: nat, k: nat, n: nat) returns (q: nat)
    requires i < n
    ensures i + k == n * q + Along(i, k, n)
    decreases k
  {
    q := 0;
    if k > 0 {
      var q0 := AlongQuotient(Wrap(i, n), k - 1, n);
      q := if i + 1 == n then q0 + 1 else q0;
      assert n * (q0 + 1) == n * q0 + n;
    }
  }

  lemma AlongIsMod(i: nat, k: nat, n: nat)
    requires i < n
    ensures Along(i, k, n) == (i + k) % n
  {
    var q := AlongQuotient(i, k, n);
    DivUnique(i + k, n, q, Along(i, k, n));
  }

  lemma RotationFirst(list: seq<Ref>, i: nat)
    requires i < |list|
    ensures |list| > 1 ==> Rotation(list, i) != [] && Rotation(list, i)[0] == list[Wrap(i, |list|)]
    ensures |list| == 1 ==> Rotation(list, i) == [] && Wrap(i, |list|) == i
  {
  }

  /** The threads other than the i-th are ready or new. */
  ghost predicate OthersReady(threads: Threads, list: seq<Ref>, i: nat) {
    AllKnown(threads, list) && forall j :: 0 <= j < |list| && j != i ==> threads[list[j]].status in {New, Ready}
  }

  lemma OutReady(s: State, frame: int)
    requires Inv(s) && AllLive(s)
    ensures OthersReady(Out(s, frame), s.list, Position(s.list, s.current))
  {
    var i := Position(s.list, s.current);
    forall j | 0 <= j < |s.list| && j != i
      ensures s.list[j] in s.threads && Out(s, frame)[s.list[j]].status in {New, Ready}
    {
      if j < i { assert s.list[j] != s.list[i]; } else { assert s.list[i] != s.list[j]; }
    }
  }

  lemma RotationReady(threads: Threads, list: seq<Ref>, i: nat)
    requires i < |list| && OthersReady(threads, list, i)
    ensures AllKnown(threads, Rotation(list, i)) && DeadPrefix(threads, Rotation(list, i)) == 0
    ensures |list| > 1 ==> Rotation(list, i) != [] && threads[Rotation(list, i)[0]].status in {New, Ready}
  {
    var rot, behind := Rotation(list, i), |list| - 1 - i;
    forall x | 0 <= x < |rot| ensures rot[x] in threads && threads[rot[x]].status in {New, Ready} {
      assert rot[x] == list[if x < behind then i + 1 + x else x - behind];
    }
  }

  /** The first thread of the rotation, while all live, may run. */
  lemma LiveNext(s: State, frame: int)
    requires Inv(s) && AllLive(s)
    ensures var i := Position(s.list, s.current);
      && AllKnown(Out(s, frame), Rotation(s.list, i)) && DeadPrefix(Out(s, frame), Rotation(s.list, i)) == 0
      && (|s.list| > 1 ==> Rotation(s.list, i) != [] && Out(s, frame)[Rotation(s.list, i)[0]].status in {New, Ready})
  {
    OutReady(s, frame);
    RotationReady(Out(s, frame), s.list, Position(s.list, s.current));
  }

  lemma LivePick(s: State, frame: int, uptime: nat)
    requires Inv(s) && AllLive(s)
    ensures var i := Position(s.list, s.current);
      && AllKnown(Out(s, frame), Rotation(s.list, i)) && DeadPrefix(Out(s, frame), Rotation(s.list, i)) == 0
      && Pick(Out(s, frame), Rotation(s.list, i), s.idle, uptime) == s.list[Wrap(i, |s.list|)]
  {
    RotationFirst(s.list, Position(s.list, s.current));
    LiveNext(s, frame);
    if |s.list| == 1 { assert s.list[0] == s.idle; }
  }

  /** A switch that takes nobody out of the list. */
  lemma PlainSwitch(s: State, frame: int, uptime: nat, next: Ref)
    requires Known(s) && Due(s.threads[s.current]) && next in s.threads
    requires var rotation := Rotation(s.list, Position(s.list, s.current));
      && AllKnown(Out(s, frame), rotation) && DeadPrefix(Out(s, frame), rotation) == 0
      && Pick(Out(s, frame), rotation, s.idle, uptime) == next
    ensures var out := Out(s, frame);
      Schedule(s, frame, uptime).0 == State(out[next := SwitchedIn(out[next])], s.list, next, s.idle)
  {
    assert Pruned(s.list, Position(s.list, s.current), 0) == s.list;
  }

  /** While all live, a switch goes to the next thread of the list. */
  lemma LiveSwitch(s: State, frame: int, uptime: nat)
    requires Inv(s) && AllLive(s) && Due(s.threads[s.current])
    ensures var s1 := Schedule(s, frame, uptime).0;
      && s1.list == s.list && s1.threads[s1.current].ticks == 0
      && s1.current == s.list[Wrap(Position(s.list, s.current), |s.list|)]
      && (forall t :: t in s.threads ==> t in s1.threads)
      && (forall t :: t in s.threads && s.threads[t].status in {New, Ready, Running} ==>
        s1.threads[t].status in {New, Ready, Running})
  {
    LivePick(s, frame, uptime);
    PlainSwitch(s, frame, uptime, s.list[Wrap(Position(s.list, s.current), |s.list|)]);
  }

  lemma LiveSwitchKeeps(s: State, frame: int, uptime: nat)
    requires Inv(s) && AllLive(s) && Due(s.threads[s.current])
    ensures Inv(Schedule(s, frame, uptime).0) && AllLive(Schedule(s, frame, uptime).0)
  {
    SwitchKeepsInv(s, frame, uptime);
    LiveSwitch(s, frame, uptime);
  }

  lemma LiveTick(s: State)
    requires Inv(s) && AllLive(s) && !Due(s.threads[s.current])
    ensures var s1 := s.(threads := s.threads[s.current := Ticked(s.threads[s.current])]);
      Inv(s1) && AllLive(s1) && s1.threads[s1.current].ticks == s.threads[s.current].ticks + 1
  {
    TickKeepsInv(s);
  }

  /** The ticks of the current thread that count towards its slice. */
  ghost function Used(s: State): nat
    requires Known(s)
  {
    if s.threads[s.current].ticks > NUMBER_OF_TICKS then NUMBER_OF_TICKS else s.threads[s.current].ticks
  }

  /** The switches among m interrupts: one every NUMBER_OF_TICKS + 1. */
  ghost function Switches(used: nat, m: nat): nat { (used + m) / (NUMBER_OF_TICKS + 1) }

  lemma SwitchesStep(used: nat, m: nat)
    requires m > 0 && used <= NUMBER_OF_TICKS
    ensures Switches(used, m) == if used == NUMBER_OF_TICKS then 1 + Switches(0, m - 1) else Switches(used + 1, m - 1)
  {}

  ghost predicate Interrupts(events: seq<Event>) { forall j :: 0 <= j < |events| ==> events[j].Interrupt? }

  lemma {:induction false} InterruptsEnabled(s: State, events: seq<Event>)
    requires Inv(s) && Interrupts(events)
    ensures EnabledRun(s, events)
    decreases |events|
  {
    if events != [] {
      NextKeepsInv(s, events[0]);
      InterruptsEnabled(Next(s, events[0]), events[1..]);
    }
  }

  /** The thread whose turn it is after m more interrupts. */
  ghost function Turn(s: State, m: nat): Ref
    requires Known(s)
  {
    s.list[Along(Position(s.list, s.current), Switches(Used(s), m), |s.list|)]
  }

  lemma TurnAfterSwitch(s: State, s1: State, m: nat)
    requires Known(s) && Known(s1) && Distinct(s.list) && m > 0 && s.threads[s.current].ticks >= NUMBER_OF_TICKS
    requires s1.list == s.list && s1.threads[s1.current].ticks == 0
    requires s1.current == s.list[Wrap(Position(s.list, s.current), |s.list|)]
    ensures Turn(s1, m - 1) == Turn(s, m)
  {
    SwitchesStep(Used(s), m);
    PositionOf(s.list, Wrap(Position(s.list, s.current), |s.list|));
  }

  lemma TurnAfterTick(s: State, s1: State, m: nat)
    requires Known(s) && Known(s1) && m > 0 && s.threads[s.current].ticks < NUMBER_OF_TICKS
    requires s1.list == s.list && s1.current == s.current
    requires s1.threads[s.current].ticks == s.threads[s.current].ticks + 1
    ensures Turn(s1, m - 1) == Turn(s, m)
  {
    SwitchesStep(Used(s), m);
  }

  lemma LiveStep(s: State, e: Event, m: nat)
    requires Inv(s) && AllLive(s) && e.Interrupt? && m > 0
    ensures var s1 := Next(s, e); Inv(s1) && AllLive(s1) && s1.list == s.list && Turn(s1, m - 1) == Turn(s, m)
  {
    var s1 := Next(s, e);
    NextKeepsInv(s, e);
    if Due(s.threads[s.current]) {
      assert s.threads[s.current].status != Sleep;
      LiveSwitch(s, e.frame, e.uptime);
      LiveSwitchKeeps(s, e.frame, e.uptime);
      TurnAfterSwitch(s, s1, m);
    } else {
      LiveTick(s);
      TurnAfterTick(s, s1, m);
    }
  }

  lemma {:induction false} RunTakesTurns(s: State, events: seq<Event>)
    requires Inv(s) && AllLive(s) && Interrupts(events) && EnabledRun(s, events)
    ensures var s1 := Run(s, events); s1.list == s.list && AllLive(s1) && s1.current == Turn(s, |events|)
    decreases |events|
  {
    if events == [] {
      assert Switches(Used(s), 0) == 0;
    } else {
      LiveStep(s, events[0], |events|);
      RunTakesTurns(Next(s, events[0]), events[1..]);
    }
  }

  /** Round robin: while nobody sleeps, waits or dies, m interrupts move the processor along the list by
      one thread for each full slice, and leave the list as it is. */
  lemma RoundRobin(s: State, events: seq<Event>)
    requires Inv(s) && AllLive(s) && Interrupts(events)
    ensures EnabledRun(s, events)
    ensures var s1 := Run(s, events); s1.list == s.list && AllLive(s1) && s1.current == Turn(s, |events|)
  {
    InterruptsEnabled(s, events);
    RunTakesTurns(s, events);
  }

  /** The turn is the thread as many places on in the list as there are full slices. */
  lemma TurnIs(s: State, m: nat)
    requires Known(s)
    ensures var i, n := Position(s.list, s.current), |s.list|;
      (i + Switches(Used(s), m)) % n < n && Turn(s, m) == s.list[(i + Switches(Used(s), m)) % n]
  {
    AlongIsMod(Position(s.list, s.current), Switches(Used(s), m), |s.list|);
  }

  /** Every thread of the list is running at some time within one slice for each thread. */
  lemma EveryThreadRuns(s: State, events: seq<Event>, t: Ref) returns (m: nat)
    requires Inv(s) && AllLive(s) && Interrupts(events) && t in s.list
    requires |events| >= |s.list| * (NUMBER_OF_TICKS + 1)
    ensures m <= |events| && m <= |s.list| * (NUMBER_OF_TICKS + 1)
    ensures EnabledRun(s, events[..m]) && Run(s, events[..m]).current == t
  {
    var steps := StepsTo(Position(s.list, s.current), Position(s.list, t), |s.list|);
    m := SliceEnd(Used(s), steps, |s.list|);
    InterruptsEnabled(s, events[..m]);
    RunTakesTurns(s, events[..m]);
  }

  lemma StepsTo(i: nat, j: nat, n: nat) returns (steps: nat)
    requires i < n && j < n
    ensures steps < n && Along(i, steps, n) == j
  {
    steps := if j >= i then j - i else j - i + n;
    AlongIsMod(i, steps, n);
    if j >= i { DivUnique(j, n, 0, j); } else { DivUnique(j + n, n, 1, j); }
  }

  lemma SliceEnd(used: nat, steps: nat, n: nat) returns (m: nat)
    requires used <= NUMBER_OF_TICKS && steps < n
    ensures m <= n * (NUMBER_OF_TICKS + 1) && Switches(used, m) == steps
  {
    if steps == 0 {
      m := 0;
      assert used / (NUMBER_OF_TICKS + 1) == 0;
    } else {
      m := steps * (NUMBER_OF_TICKS + 1) - used;
      assert used + m == steps * (NUMBER_OF_TICKS + 1);
    }
  }

  // ----- starvation -----

  /** The idle thread runs and the thread that a switch looks at first sleeps. */
  ghost predicate SleeperNext(s: State, sleeper: Ref) {
    && Known(s) && s.current == s.idle && sleeper != s.idle
    && Others(s) != [] && Others(s)[0] == sleeper && sleeper in s.threads && s.threads[sleeper].status == Sleep
  }

  lemma SleeperStaysNext(s: State, frame: int, uptime: nat, sleeper: Ref)
    requires Inv(s) && SleeperNext(s, sleeper) && uptime <= s.threads[sleeper].wakeup
    ensures var s1 := Schedule(s, frame, uptime).0;
      && s1.list == s.list && s1.idle == s.idle && SleeperNext(s1, sleeper)
      && forall t :: t in s.threads && t != s.idle ==> t in s1.threads && s1.threads[t] == s.threads[t]
  {
    if Due(s.threads[s.current]) {
      RotationMembers(s.list, Position(s.list, s.current));
      PlainSwitch(s, frame, uptime, s.idle);
    }
  }

  /** Ready threads starve behind a sleeper: as long as the thread after the idle one sleeps, every
      interrupt resumes the idle thread, and no other thread changes. */
  lemma {:induction false} ReadyThreadsStarveBehindSleeper(s: State, events: seq<Event>, sleeper: Ref)
    requires Inv(s) && EnabledRun(s, events) && SleeperNext(s, sleeper) && Interrupts(events)
    requires forall j :: 0 <= j < |events| ==> events[j].uptime <= s.threads[sleeper].wakeup
    ensures Run(s, events).current == s.idle && Run(s, events).list == s.list
    ensures forall t :: t in s.threads && t != s.idle ==>
      t in Run(s, events).threads && Run(s, events).threads[t] == s.threads[t]
    decreases |events|
  {
    if events != [] {
      var e := events[0];
      SleeperStaysNext(s, e.frame, e.uptime, sleeper);
      NextKeepsInv(s, e);
      ReadyThreadsStarveBehindSleeper(Next(s, e), events[1..], sleeper);
    }
  }

  /** The idle thread is the last of the list: threads are added at its head. */
  ghost predicate IdleLast(s: State) { s.list != [] && s.list[|s.list| - 1] == s.idle }

  lemma SwitchKeepsIdleLast(s: State, frame: int, uptime: nat)
    requires Inv(s) && Due(s.threads[s.current]) && IdleLast(s)
    ensures IdleLast(Schedule(s, frame, uptime).0)
  {
    var k := ListAfterSwitch(s, frame, uptime);
    LastStays(s, Schedule(s, frame, uptime).0, Position(s.list, s.current), k);
  }

  lemma LastStays(s: State, s1: State, i: nat, k: nat)
    requires IdleLast(s) && i < |s.list| && k < |s.list| && Distinct(s.list) && s.idle in Pruned(s.list, i, k)
    requires s1.list == Pruned(s.list, i, k) && s1.idle == s.idle
    ensures IdleLast(s1)
  {
    LastOfPruned(s.list, i, k);
  }

  /** A switch takes threads out of the list, but not the idle one. */
  lemma ListAfterSwitch(s: State, frame: int, uptime: nat) returns (k: nat)
    requires Inv(s) && Due(s.threads[s.current])
    ensures k < |s.list| && s.idle in Pruned(s.list, Position(s.list, s.current), k)
    ensures var s1 := Schedule(s, frame, uptime).0;
      s1.list == Pruned(s.list, Position(s.list, s.current), k) && s1.idle == s.idle
  {
    PickFacts(s, frame, uptime);
    k := DeadPrefix(Out(s, frame), Rotation(s.list, Position(s.list, s.current)));
    SwitchResult(s, frame, uptime);
  }

  /** If the last thread stays it stays the last. */
  lemma LastOfPruned(list: seq<Ref>, i: nat, k: nat)
    requires i < |list| && k < |list| && Distinct(list) && list[|list| - 1] in Pruned(list, i, k)
    ensures var p := Pruned(list, i, k); p != [] && p[|p| - 1] == list[|list| - 1]
  {
    var p := Pruned(list, i, k);
    var j := Position(p, list[|list| - 1]);
    if k <= |list| - 1 - i {
      assert p[j] == list[if j <= i then j else j + k];
    } else {
      assert p[j] == list[k - (|list| - 1 - i) + j];
    }
  }

  /** In every state that is reached from the first one the idle thread is the last of the list, so that
      the thread after it is the first one. */
  lemma {:induction false} RunKeepsIdleLast(s: State, events: seq<Event>)
    requires Inv(s) && EnabledRun(s, events) && IdleLast(s)
    ensures IdleLast(Run(s, events))
    decreases |events|
  {
    if events != [] {
      var e := events[0];
      NextKeepsInv(s, e);
      if e.Interrupt? && Due(s.threads[s.current]) { SwitchKeepsIdleLast(s, e.frame, e.uptime); }
      RunKeepsIdleLast(Next(s, e), events[1..]);
    }
  }

  lemma SuccessorOfIdle(s: State)
    requires Inv(s) && IdleLast(s) && s.current == s.idle
    ensures Others(s) == s.list[..|s.list| - 1]
  {
    PositionOf(s.list, |s.list| - 1);
  }

  // ----- a run into starvation -----

  lemma ConsRun(s: State, e: Event, rest: seq<Event>)
    requires Inv(s) && Enabled(s, e) && Inv(Next(s, e)) && EnabledRun(Next(s, e), rest)
    ensures EnabledRun(s, [e] + rest) && Run(s, [e] + rest) == Run(Next(s, e), rest)
  {
    assert ([e] + rest)[1..] == rest;
  }

  lemma RunFirst(s: State, events: seq<Event>)
    requires Inv(s) && EnabledRun(s, events) && events != []
    ensures Enabled(s, events[0]) && Inv(Next(s, events[0])) && EnabledRun(Next(s, events[0]), events[1..])
    ensures Run(s, events) == Run(Next(s, events[0]), events[1..])
  {
    NextKeepsInv(s, events[0]);
  }

  lemma {:induction false} RunConcat(s: State, first: seq<Event>, rest: seq<Event>)
    requires Inv(s) && EnabledRun(s, first) && EnabledRun(Run(s, first), rest)
    ensures EnabledRun(s, first + rest) && Run(s, first + rest) == Run(Run(s, first), rest)
    decreases |first|
  {
    if first == [] {
      assert first + rest == rest;
    } else {
      RunFirst(s, first);
      RunConcat(Next(s, first[0]), first[1..], rest);
      ConsRun(s, first[0], first[1..] + rest);
      assert first + rest == [first[0]] + (first[1..] + rest);
    }
  }

  function Ticks(n: nat): (events: seq<Event>)
    ensures |events| == n && forall j :: 0 <= j < n ==> events[j] == Interrupt(0, 0)
  {
    seq(n, _ => Interrupt(0, 0))
  }

  /** Interrupts within a slice only count. */
  lemma {:induction false} RunTicks(s: State, n: nat)
    requires Inv(s) && s.threads[s.current].status != Sleep && s.threads[s.current].ticks + n <= NUMBER_OF_TICKS
    ensures EnabledRun(s, Ticks(n))
    ensures var t := s.threads[s.current];
      Run(s, Ticks(n)) == s.(threads := s.threads[s.current := t.(ticks := t.ticks + n)])
    decreases n
  {
    if n == 0 {
      assert s.threads[s.current := s.threads[s.current]] == s.threads;
    } else {
      assert Ticks(n)[1..] == Ticks(n - 1);
      TickKeepsInv(s);
      var s1 := Next(s, Interrupt(0, 0));
      RunTicks(s1, n - 1);
      var t := s.threads[s.current];
      assert s.threads[s.current := s1.threads[s.current]][s.current := t.(ticks := t.ticks + n)]
          == s.threads[s.current := s.threads[s.current].(ticks := s.threads[s.current].ticks + n)];
    }
  }

  /** Some run leads from s to s1. */
  ghost predicate Reaches(s: State, s1: State) {
    Inv(s) && exists events :: EnabledRun(s, events) && Run(s, events) == s1
  }

  lemma ReachesOnward(s: State, s1: State, s2: State)
    requires Reaches(s, s1) && Reaches(s1, s2)
    ensures Reaches(s, s2)
  {
    var first :| EnabledRun(s, first) && Run(s, first) == s1;
    var rest :| EnabledRun(s1, rest) && Run(s1, rest) == s2;
    RunConcat(s, first, rest);
  }

  lemma SingleRun(s: State, e: Event)
    requires Inv(s) && Enabled(s, e)
    ensures EnabledRun(s, [e]) && Run(s, [e]) == Next(s, e)
  {
    NextKeepsInv(s, e);
    var none: seq<Event> := [];
    assert EnabledRun(Next(s, e), none) && Run(Next(s, e), none) == Next(s, e);
    ConsRun(s, e, none);
    assert [e] + none == [e];
  }

  lemma ReachesNext(s: State, s1: State, e: Event)
    requires Reaches(s, s1) && Inv(s1) && Enabled(s1, e)
    ensures Reaches(s, Next(s1, e))
  {
    SingleRun(s1, e);
    assert Reaches(s1, Next(s1, e));
    ReachesOnward(s, s1, Next(s1, e));
  }

  /** The current thread uses up its slice. */
  lemma ReachesSliceEnd(s: State, s1: State)
    requires Reaches(s, s1) && Inv(s1) && s1.threads[s1.current].status != Sleep && s1.threads[s1.current].ticks == 0
    ensures Reaches(s, s1.(threads := s1.threads[s1.current := s1.threads[s1.current].(ticks := NUMBER_OF_TICKS)]))
  {
    RunTicks(s1, NUMBER_OF_TICKS);
    ReachesOnward(s, s1, Run(s1, Ticks(NUMBER_OF_TICKS)));
  }

  /** The idle thread 0 and the threads 1 and 2, created in this order. */
  function Three(idle: Thread, a: Thread, b: Thread, current: Ref): State {
    State(map[0 := idle, 1 := a, 2 := b], [2, 1, 0], current, 0)
  }

  ghost predicate ThreeOk(idle: Thread, a: Thread, b: Thread, current: Ref) {
    && idle.tid == 0 && a.tid == 1 && b.tid == 2 && current in {0, 1, 2}
    && idle.status in {New, Ready, Running}
    && (idle.status == Running ==> current == 0) && (a.status == Running ==> current == 1)
      && (b.status == Running ==> current == 2)
  }

  lemma ThreeInv(idle: Thread, a: Thread, b: Thread, current: Ref)
    requires ThreeOk(idle, a, b, current)
    ensures Inv(Three(idle, a, b, current))
  {
    var s := Three(idle, a, b, current);
    assert s.list[0] == 2 && s.list[1] == 1 && s.list[2] == 0;
  }

  /** A switch among the three: from the current thread to the one behind it, if that may run. */
  lemma ThreeSwitch(s: State, i: nat)
    requires Inv(s) && s.list == [2, 1, 0] && i < 3 && s.current == s.list[i] && Due(s.threads[s.current])
    requires Eligible(s.threads[s.list[Wrap(i, 3)]], 0)
    ensures var next, out := s.list[Wrap(i, 3)], Out(s, 0);
      Schedule(s, 0, 0).0 == State(out[next := SwitchedIn(out[next])], s.list, next, s.idle)
  {
    PositionOf(s.list, i);
    RotationFirst(s.list, i);
    RotationMembers(s.list, i);
    PlainSwitch(s, 0, 0, s.list[Wrap(i, 3)]);
  }

  /** The idle thread is switched out for thread 2, that for thread 1, and that for the idle thread. */
  function Switched(idle: Thread, a: Thread, b: Thread, current: Ref): State {
    if current == 0 then Three(SwitchedOut(idle, 0), a, SwitchedIn(b), 2)
    else if current == 2 then Three(idle, SwitchedIn(a), SwitchedOut(b, 0), 1)
    else Three(SwitchedIn(idle), SwitchedOut(a, 0), b, 0)
  }

  lemma SwitchedIs(idle: Thread, a: Thread, b: Thread, current: Ref)
    requires current in {0, 1, 2}
    ensures var threads := map[0 := idle, 1 := a, 2 := b];
      var next := if current == 0 then 2 else current - 1;
      var out := threads[current := SwitchedOut(threads[current], 0)];
      State(out[next := SwitchedIn(out[next])], [2, 1, 0], next, 0) == Switched(idle, a, b, current)
  {}

  lemma ThreeSchedule(idle: Thread, a: Thread, b: Thread, current: Ref)
    requires ThreeOk(idle, a, b, current) && Inv(Three(idle, a, b, current))
    requires var s := Three(idle, a, b, current);
      Due(s.threads[current]) && Eligible(s.threads[if current == 0 then 2 else current - 1], 0)
    ensures Schedule(Three(idle, a, b, current), 0, 0).0 == Switched(idle, a, b, current)
  {
    ThreeSwitch(Three(idle, a, b, current), 2 - current);
    SwitchedIs(idle, a, b, current);
  }

  lemma ReachesSwitched(idle: Thread, a: Thread, b: Thread, current: Ref)
    requires ThreeOk(idle, a, b, current) && Reaches(Boot(0, 0, 0), Three(idle, a, b, current))
    requires var s := Three(idle, a, b, current);
      Due(s.threads[current]) && Eligible(s.threads[if current == 0 then 2 else current - 1], 0)
    ensures Reaches(Boot(0, 0, 0), Switched(idle, a, b, current))
  {
    ThreeInv(idle, a, b, current);
    ReachesNext(Boot(0, 0, 0), Three(idle, a, b, current), Interrupt(0, 0));
    ThreeSchedule(idle, a, b, current);
  }

  function Waited(t: Thread): Thread { t.(ticks := NUMBER_OF_TICKS) }

  lemma WaitedIs(idle: Thread, a: Thread, b: Thread)
    ensures map[0 := idle, 1 := a, 2 := b][0 := Waited(idle)] == map[0 := Waited(idle), 1 := a, 2 := b]
    ensures map[0 := idle, 1 := a, 2 := b][1 := Waited(a)] == map[0 := idle, 1 := Waited(a), 2 := b]
  {}

  lemma ReachesIdleWaited(idle: Thread, a: Thread, b: Thread)
    requires ThreeOk(idle, a, b, 0) && Reaches(Boot(0, 0, 0), Three(idle, a, b, 0)) && idle.ticks == 0
    ensures Reaches(Boot(0, 0, 0), Three(Waited(idle), a, b, 0))
  {
    ThreeInv(idle, a, b, 0);
    WaitedIs(idle, a, b);
    ReachesSliceEnd(Boot(0, 0, 0), Three(idle, a, b, 0));
  }

  lemma ReachesOneWaited(idle: Thread, a: Thread, b: Thread)
    requires ThreeOk(idle, a, b, 1) && Reaches(Boot(0, 0, 0), Three(idle, a, b, 1)) && a.ticks == 0 && a.status != Sleep
    ensures Reaches(Boot(0, 0, 0), Three(idle, Waited(a), b, 1))
  {
    ThreeInv(idle, a, b, 1);
    WaitedIs(idle, a, b);
    ReachesSliceEnd(Boot(0, 0, 0), Three(idle, a, b, 1));
  }

  lemma ReachesSleep(idle: Thread, a: Thread, b: Thread, w: nat)
    requires ThreeOk(idle, a, b, 2) && Reaches(Boot(0, 0, 0), Three(idle, a, b, 2)) && b.status == Running
    ensures Reaches(Boot(0, 0, 0), Three(idle, a, b.(status := Sleep, wakeup := w), 2))
  {
    var s := Three(idle, a, b, 2);
    ThreeInv(idle, a, b, 2);
    ReachesNext(Boot(0, 0, 0), s, GoToSleep(w));
    assert Next(s, GoToSleep(w)) == Three(idle, a, b.(status := Sleep, wakeup := w), 2);
  }

  function NewThread(tid: nat): Thread { Thread(tid, New, 0, 0, 0) }

  /** The first thread runs and the threads 1 and 2 are there. */
  lemma ThreeCreated()
    ensures Reaches(Boot(0, 0, 0), Three(NewThread(0), NewThread(1), NewThread(2), 0))
  {
    var s := Boot(0, 0, 0);
    var none: seq<Event> := [];
    assert EnabledRun(s, none) && Run(s, none) == s;
    ReachesNext(s, s, Create(1, 1, 0));
    var s1 := Next(s, Create(1, 1, 0));
    NextKeepsInv(s, Create(1, 1, 0));
    assert s1 == State(map[0 := NewThread(0), 1 := NewThread(1)], [1, 0], 0, 0);
    ReachesNext(s, s1, Create(2, 2, 0));
    assert [2] + [1, 0] == [2, 1, 0];
    assert Next(s1, Create(2, 2, 0)) == Three(NewThread(0), NewThread(1), NewThread(2), 0);
  }

  /** From the first state a run leads to one in which the idle thread runs, thread 2, the first of the
      list, sleeps until time w, and thread 1 is ready; from there on thread 1 starves until time w. */
  lemma StarvationIsReached(w: nat) returns (s: State)
    ensures Reaches(Boot(0, 0, 0), s) && Inv(s) && IdleLast(s)
    ensures SleeperNext(s, 2) && s.threads[2].wakeup == w && 1 in s.list && s.threads[1].status == Ready
  {
    var idle, a, b := NewThread(0), NewThread(1), NewThread(2);
    ThreeCreated();
    ReachesIdleWaited(idle, a, b);
    ReachesSwitched(Waited(idle), a, b, 0);
    var idle1, b1 := SwitchedOut(Waited(idle), 0), SwitchedIn(b);
    ReachesSleep(idle1, a, b1, w);
    var b2 := b1.(status := Sleep, wakeup := w);
    ReachesSwitched(idle1, a, b2, 2);
    var a1, b3 := SwitchedIn(a), SwitchedOut(b2, 0);
    ReachesOneWaited(idle1, a1, b3);
    ReachesSwitched(idle1, Waited(a1), b3, 1);
    s := Three(SwitchedIn(idle1), SwitchedOut(Waited(a1), 0), b3, 0);
    SleeperIsNext(SwitchedIn(idle1), SwitchedOut(Waited(a1), 0), b3);
  }

  lemma SleeperIsNext(idle: Thread, a: Thread, b: Thread)
    requires ThreeOk(idle, a, b, 0) && b.status == Sleep
    ensures var s := Three(idle, a, b, 0); Inv(s) && IdleLast(s) && SleeperNext(s, 2) && 1 in s.list
  {
    var s := Three(idle, a, b, 0);
    ThreeInv(idle, a, b, 0);
    SuccessorOfIdle(s);
    assert s.list[1] == 1;
  }
}
