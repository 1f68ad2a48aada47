/** The thread scheduler as a state machine: timer ticks, switches, sleeping, exiting and creation. */
module Scheduler {

  const NUMBER_OF_TICKS: nat := 0x200
  const TID_LIMIT: nat := 0x1_0000

  datatype Status = New | Init | Running | Ready | Sleep | Wait | Dead

  /** A thread; `frame` is the execution frame it resumes with. */
  datatype Thread = Thread(tid: nat, status: Status, ticks: nat, frame: int, wakeup: nat)

  /** A reference to a thread. */
  type Ref = nat
  type Threads = map<Ref, Thread>

  /** The threads that were ever created, the list the scheduler walks, and the two globals. */
  datatype State = State(threads: Threads, list: seq<Ref>, current: Ref, idle: Ref)

  function Position(list: seq<Ref>, t: Ref): (i: nat)
    requires t in list
    ensures i < |list| && list[i] == t
  {
    if list[0] == t then 0 else 1 + Position(list[1..], t)
  }

  // ----- what a switch decides -----

  /** The threads of the list in the order in which they are looked at: those behind the current one,
      then those before it. */
  function Rotation(list: seq<Ref>, i: nat): seq<Ref>
    requires i < |list|
  {
    list[i + 1..] + list[..i]
  }

  /** The list after the first k threads of the rotation have been taken out. */
  function Pruned(list: seq<Ref>, i: nat, k: nat): seq<Ref>
    requires i < |list| && k < |list|
  {
    var behind := |list| - 1 - i;
    if k <= behind then list[..i + 1] + list[i + 1 + k..] else list[k - behind..i + 1]
  }

  predicate AllKnown(threads: Threads, refs: seq<Ref>) {
    forall j :: 0 <= j < |refs| ==> refs[j] in threads
  }

  /** How many threads at the start of refs are dead. */
  function DeadPrefix(threads: Threads, refs: seq<Ref>): (k: nat)
    requires AllKnown(threads, refs)
    ensures k <= |refs|
    ensures forall j :: 0 <= j < k ==> threads[refs[j]].status == Dead
    ensures k < |refs| ==> threads[refs[k]].status != Dead
  {
    if refs == [] || threads[refs[0]].status != Dead then 0 else 1 + DeadPrefix(threads, refs[1..])
  }

  /** A thread that may run: ready, new, or asleep past its wakeup time. */
  predicate Eligible(t: Thread, uptime: nat) {
    t.status in {Ready, New} || (t.status == Sleep && uptime > t.wakeup)
  }

  /** The thread that runs next: the first thread of the rotation that is not dead, if it may run,
      and the idle thread otherwise. */
  function Pick(threads: Threads, rotation: seq<Ref>, idle: Ref, uptime: nat): Ref
    requires AllKnown(threads, rotation)
  {
    var k := DeadPrefix(threads, rotation);
    if k < |rotation| && Eligible(threads[rotation[k]], uptime) then rotation[k] else idle
  }

  /** The time slice of a thread is over. */
  predicate Due(t: Thread) {
    t.status == Sleep || t.ticks >= NUMBER_OF_TICKS
  }

  function Ticked(t: Thread): Thread {
    t.(ticks := (if t.status == Sleep then NUMBER_OF_TICKS else t.ticks) + 1)
  }

  /** A thread that is switched out: it keeps the frame it was interrupted with, unless it never ran. */
  function SwitchedOut(t: Thread, frame: int): Thread {
    Ticked(t).(frame := if t.status != New then frame else t.frame,
               status := if t.status != Sleep && t.status != Dead then Ready else t.status)
  }

  function SwitchedIn(t: Thread): Thread { t.(status := Running, ticks := 0) }

  ghost predicate Known(s: State) {
    AllKnown(s.threads, s.list) && s.current in s.list && s.idle in s.threads
  }

  ghost function Out(s: State, frame: int): Threads
    requires Known(s)
  {
    s.threads[s.current := SwitchedOut(s.threads[s.current], frame)]
  }

  /** `schedule`: the new state and the frame to resume. */
  ghost function Schedule(s: State, frame: int, uptime: nat): (State, int)
    requires Known(s)
  {
    var t := s.threads[s.current];
    if !Due(t) then (s.(threads := s.threads[s.current := Ticked(t)]), frame)
    else
      var out := Out(s, frame);
      var i := Position(s.list, s.current);
      var rotation := Rotation(s.list, i);
      var k := DeadPrefix(out, rotation);
      var pick := Pick(out, rotation, s.idle, uptime);
      (State(out[pick := SwitchedIn(out[pick])], Pruned(s.list, i, k), pick, s.idle), out[pick].frame)
  }

  // ----- the invariant -----

  ghost predicate Distinct(list: seq<Ref>) {
    forall i, j :: 0 <= i < j < |list| ==> list[i] != list[j]
  }

  ghost predicate DistinctTids(threads: Threads, list: seq<Ref>)
    requires AllKnown(threads, list)
  {
    forall i, j :: 0 <= i < j < |list| ==> threads[list[i]].tid != threads[list[j]].tid
  }

  /** The list has no repetitions, tids tell its threads apart, the current thread and a live idle
      thread are in it, and only the current thread is running. */
  ghost predicate Inv(s: State) {
    && Known(s) && Distinct(s.list) && DistinctTids(s.threads, s.list)
    && s.idle in s.list
    && s.threads[s.idle].status !in {Sleep, Dead, Init, Wait}
    && (forall t :: t in s.threads && s.threads[t].status == Running ==> t == s.current)
  }

  lemma PrunedIsSublist(list: seq<Ref>, i: nat, k: nat)
    requires i < |list| && k < |list|
    ensures var p := Pruned(list, i, k);
      && |p| == |list| - k
      && list[i] in p
      && (forall t :: t in p ==> t in list)
      && (Distinct(list) ==> Distinct(p))
  {
    var p := Pruned(list, i, k);
    var behind := |list| - 1 - i;
    if k <= behind { assert p[i] == list[i]; } else { assert p[|p| - 1] == list[i]; }
  }

  /** What is taken out is exactly the start of the rotation. */
  lemma PrunedKeepsRest(list: seq<Ref>, i: nat, k: nat, t: Ref)
    requires i < |list| && k < |list| && t in list
    ensures t in Pruned(list, i, k) || t in Rotation(list, i)[..k]
  {
    var j := Position(list, t);
    var behind := |list| - 1 - i;
    var p := Pruned(list, i, k);
    var rot := Rotation(list, i);
    if k <= behind {
      if j <= i { assert p[j] == t; }
      else if j >= i + 1 + k { assert p[j - k] == t; }
      else { assert rot[j - i - 1] == t; assert rot[..k][j - i - 1] == t; }
    } else {
      if j > i { assert rot[j - i - 1] == t; assert rot[..k][j - i - 1] == t; }
      else if j < k - behind { assert rot[behind + j] == t; assert rot[..k][behind + j] == t; }
      else { assert p[j - (k - behind)] == t; }
    }
  }

  lemma RotationMembers(list: seq<Ref>, i: nat)
    requires i < |list|
    ensures |Rotation(list, i)| == |list| - 1
    ensures forall t :: t in Rotation(list, i) ==> t in list
    ensures forall t :: t in list ==> t == list[i] || t in Rotation(list, i)
    ensures Distinct(list) ==> list[i] !in Rotation(list, i)
  {
    var rot := Rotation(list, i);
    forall t | t in list ensures t == list[i] || t in rot {
      var j := Position(list, t);
      if j < i { assert rot[|list| - 1 - i + j] == t; } else if j > i { assert rot[j - i - 1] == t; }
    }
  }

  /** The thread picked is the idle thread, or ready, new, or asleep past its wakeup time; it is in the
      list, it is not dead, and it stays in the list when the dead ones are taken out. */
  lemma PickFacts(s: State, frame: int, uptime: nat)
    requires Inv(s) && Due(s.threads[s.current])
    ensures var out := Out(s, frame);
      var i := Position(s.list, s.current);
      var rotation := Rotation(s.list, i);
      var k := DeadPrefix(out, rotation);
      var pick := Pick(out, rotation, s.idle, uptime);
      && AllKnown(out, rotation) && k < |s.list|
      && (pick == s.idle || Eligible(out[pick], uptime)) && out[pick].status != Dead
      && pick in Pruned(s.list, i, k) && s.idle in Pruned(s.list, i, k)
      && (forall t :: t in s.list && t !in Pruned(s.list, i, k) ==> s.threads[t].status == Dead)
  {
    var out := Out(s, frame);
    var i := Position(s.list, s.current);
    var rotation := Rotation(s.list, i);
    RotationMembers(s.list, i);
    var k := DeadPrefix(out, rotation);
    PrunedIsSublist(s.list, i, k);
    forall t | t in s.list && t !in Pruned(s.list, i, k) ensures s.threads[t].status == Dead && t in rotation {
      PrunedKeepsRest(s.list, i, k, t);
      var j := Position(rotation[..k], t);
      assert rotation[j] == t;
    }
    if k < |rotation| {
      var t := rotation[k];
      assert t in rotation && t in s.list;
    }
  }

  /** A change of the list to a part of it, and of threads that keeps tids, keeps tids distinct. */
  lemma SublistKeepsTids(threads: Threads, list: seq<Ref>, threads1: Threads, list1: seq<Ref>)
    requires AllKnown(threads, list) && DistinctTids(threads, list)
    requires Distinct(list1) && forall t :: t in list1 ==> t in list
    requires forall t :: t in threads ==> t in threads1 && threads1[t].tid == threads[t].tid
    ensures AllKnown(threads1, list1) && DistinctTids(threads1, list1)
  {
    forall j | 0 <= j < |list1| ensures list1[j] in threads1 {
      assert list1[j] in list;
    }
    forall a, b | 0 <= a < b < |list1| ensures threads1[list1[a]].tid != threads1[list1[b]].tid {
      assert list1[a] in list && list1[b] in list;
      var x, y := Position(list, list1[a]), Position(list, list1[b]);
      if x < y { assert threads[list[x]].tid != threads[list[y]].tid; }
      else { assert threads[list[y]].tid != threads[list[x]].tid; }
    }
  }

  lemma TickKeepsInv(s: State)
    requires Inv(s)
    ensures Inv(s.(threads := s.threads[s.current := Ticked(s.threads[s.current])]))
  {
    SublistKeepsTids(s.threads, s.list, s.threads[s.current := Ticked(s.threads[s.current])], s.list);
  }

  /** A switch, spelled out. */
  lemma SwitchResult(s: State, frame: int, uptime: nat)
    requires Inv(s) && Due(s.threads[s.current])
    ensures var out := Out(s, frame);
      var i := Position(s.list, s.current);
      var rotation := Rotation(s.list, i);
      && AllKnown(out, rotation) && DeadPrefix(out, rotation) < |s.list| && Pick(out, rotation, s.idle, uptime) in out
      && var pick := Pick(out, rotation, s.idle, uptime);
      Schedule(s, frame, uptime)
        == (State(out[pick := SwitchedIn(out[pick])], Pruned(s.list, i, DeadPrefix(out, rotation)), pick, s.idle),
          out[pick].frame)
  {}

  /** Switching to a thread of a part of the list that holds the idle thread keeps the invariant. */
  lemma SwitchInKeepsInv(out: Threads, list: seq<Ref>, pick: Ref, idle: Ref)
    requires AllKnown(out, list) && Distinct(list) && DistinctTids(out, list) && pick in list && idle in list
    requires out[idle].status !in {Sleep, Dead, Init, Wait}
    requires forall t :: t in out ==> out[t].status != Running
    ensures Inv(State(out[pick := SwitchedIn(out[pick])], list, pick, idle))
  {
    SublistKeepsTids(out, list, out[pick := SwitchedIn(out[pick])], list);
  }

  lemma NobodyRuns(s: State, frame: int)
    requires Inv(s)
    ensures forall t :: t in Out(s, frame) ==> Out(s, frame)[t].status != Running
    ensures Out(s, frame)[s.idle].status !in {Sleep, Dead, Init, Wait}
  {}

  lemma PrunedStaysDistinct(s: State, frame: int, i: nat, k: nat)
    requires Inv(s) && i < |s.list| && k < |s.list|
    ensures var out, list1 := Out(s, frame), Pruned(s.list, i, k);
      AllKnown(out, list1) && Distinct(list1) && DistinctTids(out, list1)
  {
    PrunedIsSublist(s.list, i, k);
    SublistKeepsTids(s.threads, s.list, Out(s, frame), Pruned(s.list, i, k));
  }

  lemma SwitchKeepsInv(s: State, frame: int, uptime: nat)
    requires Inv(s) && Due(s.threads[s.current])
    ensures Inv(Schedule(s, frame, uptime).0)
  {
    var out, i := Out(s, frame), Position(s.list, s.current);
    SwitchResult(s, frame, uptime);
    PickFacts(s, frame, uptime);
    var k, pick := DeadPrefix(out, Rotation(s.list, i)), Pick(out, Rotation(s.list, i), s.idle, uptime);
    PrunedStaysDistinct(s, frame, i, k);
    NobodyRuns(s, frame);
    SwitchInKeepsInv(out, Pruned(s.list, i, k), pick, s.idle);
  }

  /** Every call of the scheduler keeps the invariant. */
  lemma ScheduleKeepsInv(s: State, frame: int, uptime: nat)
    requires Inv(s)
    ensures Inv(Schedule(s, frame, uptime).0)
  {
    if Due(s.threads[s.current]) { SwitchKeepsInv(s, frame, uptime); } else { TickKeepsInv(s); }
  }

  // ----- runs -----

  /** What can happen: a call of the scheduler with the interrupted frame, or an action of the thread
      that is running, or the creation of a thread. */
  datatype Event =
    | Interrupt(frame: int, uptime: nat)
    | GoToSleep(wakeup: nat)
    | Exit(outOfTicks: bool)
    | Create(ref: Ref, tid: nat, frame: int)

  /** Only a thread that has been switched to acts, the idle thread neither sleeps nor exits, and the
      16-bit tid of a new thread is not that of a thread in the list. */
  ghost predicate Enabled(s: State, e: Event)
    requires Known(s)
  {
    match e
    case Interrupt(_, _) => true
    case GoToSleep(_) => s.current != s.idle && s.threads[s.current].status == Running
    case Exit(_) => s.current != s.idle && s.threads[s.current].status == Running
    case Create(ref, tid, _) =>
      ref !in s.threads && tid < TID_LIMIT && forall j :: 0 <= j < |s.list| ==> s.threads[s.list[j]].tid != tid
  }

  ghost function Next(s: State, e: Event): State
    requires Known(s) && Enabled(s, e)
  {
    var t := s.threads[s.current];
    match e
    case Interrupt(frame, uptime) => Schedule(s, frame, uptime).0
    case GoToSleep(wakeup) => s.(threads := s.threads[s.current := t.(status := Sleep, wakeup := wakeup)])
    case Exit(outOfTicks) =>
      var ticks := if outOfTicks then NUMBER_OF_TICKS else t.ticks;
      s.(threads := s.threads[s.current := t.(status := Dead, ticks := ticks)])
    case Create(ref, tid, frame) =>
      s.(threads := s.threads[ref := Thread(tid, New, 0, frame, 0)], list := [ref] + s.list)
  }

  lemma CreateKeepsInv(s: State, ref: Ref, tid: nat, frame: int)
    requires Inv(s) && Enabled(s, Create(ref, tid, frame))
    ensures Inv(Next(s, Create(ref, tid, frame)))
  {
    var s1 := Next(s, Create(ref, tid, frame));
    assert forall j :: 0 < j < |s1.list| ==> s1.list[j] == s.list[j - 1];
    assert s1.list[1..] == s.list;
    assert s.current in s1.list[1..] && s.idle in s1.list[1..];
  }

  lemma NextKeepsInv(s: State, e: Event)
    requires Inv(s) && Enabled(s, e)
    ensures Inv(Next(s, e))
  {
    match e
    case Interrupt(frame, uptime) => ScheduleKeepsInv(s, frame, uptime);
    case GoToSleep(_) => SublistKeepsTids(s.threads, s.list, Next(s, e).threads, s.list);
    case Exit(_) => SublistKeepsTids(s.threads, s.list, Next(s, e).threads, s.list);
    case Create(ref, tid, frame) => CreateKeepsInv(s, ref, tid, frame);
  }

  ghost predicate EnabledRun(s: State, events: seq<Event>)
    requires Inv(s)
    decreases |events|
  {
    events == [] ||
    (Enabled(s, events[0]) && (NextKeepsInv(s, events[0]); EnabledRun(Next(s, events[0]), events[1..])))
  }

  ghost function Run(s: State, events: seq<Event>): (r: State)
    requires Inv(s) && EnabledRun(s, events)
    ensures Inv(r)
    decreases |events|
  {
    if events == [] then s
    else
      NextKeepsInv(s, events[0]);
      Run(Next(s, events[0]), events[1..])
  }

  /** The state after the idle thread, the first one, has been created. */
  ghost function Boot(idle: Ref, tid: nat, frame: int): (s: State)
    ensures Inv(s)
  {
    State(map[idle := Thread(tid, New, 0, frame, 0)], [idle], idle, idle)
  }

  // ----- execution frames over whole runs -----

  /** What an observer of frames sees of one event. */
  datatype Obs =
    | Created(t: Ref, frame: int)
    | Switched(from: Ref, to: Ref, frameIn: int, frameOut: int)
    | Kept(frameIn: int, frameOut: int)
    | Acted

  ghost function Observe(s: State, e: Event): Obs
    requires Inv(s) && Enabled(s, e)
  {
    match e
    case Interrupt(frame, uptime) =>
      var (s1, result) := Schedule(s, frame, uptime);
      if Due(s.threads[s.current]) then Switched(s.current, s1.current, frame, result) else Kept(frame, result)
    case Create(ref, _, frame) => Created(ref, frame)
    case _ => Acted
  }

  ghost function Trace(s: State, events: seq<Event>): seq<Obs>
    requires Inv(s) && EnabledRun(s, events)
    decreases |events|
  {
    if events == [] then []
    else
      NextKeepsInv(s, events[0]);
      [Observe(s, events[0])] + Trace(Next(s, events[0]), events[1..])
  }

  /** The thread was switched to at some point of the history. */
  ghost predicate Ran(h: seq<Obs>, t: Ref) {
    h != [] && ((h[|h| - 1].Switched? && h[|h| - 1].to == t) || Ran(h[..|h| - 1], t))
  }

  /** The frame a thread has to resume with: the one that came in at its most recent switch-out after
      it had been switched to, or the one it was created with. */
  ghost function Saved(h: seq<Obs>, t: Ref): int {
    if h == [] then 0
    else
      var last, before := h[|h| - 1], h[..|h| - 1];
      match last
      case Created(u, frame) => if u == t then frame else Saved(before, t)
      case Switched(from, _, frameIn, _) => if from == t && Ran(before, t) then frameIn else Saved(before, t)
      case _ => Saved(before, t)
  }

  /** A switch returns the saved frame of the thread it switches to; any other call returns the frame
      it was given. */
  ghost predicate Faithful(h: seq<Obs>, o: Obs) {
    && (o.Switched? ==> o.frameOut == Saved(h + [o], o.to))
    && (o.Kept? ==> o.frameOut == o.frameIn)
  }

  ghost predicate AllFaithful(h: seq<Obs>, trace: seq<Obs>)
    decreases |trace|
  {
    trace == [] || (Faithful(h, trace[0]) && AllFaithful(h + [trace[0]], trace[1..]))
  }

  /** The threads hold the frames that the history asks for. */
  ghost predicate Tracks(s: State, h: seq<Obs>)
    requires Known(s)
  {
    && (forall t :: t in s.threads ==> s.threads[t].frame == Saved(h, t))
    && (forall t :: t in s.threads && s.threads[t].status == New ==> !Ran(h, t))
    && (forall t :: t !in s.threads ==> !Ran(h, t))
    && (s.threads[s.current].status != New ==> Ran(h, s.current))
  }

  lemma HistoryStep(h: seq<Obs>, o: Obs, t: Ref)
    ensures Ran(h + [o], t) <==> (o.Switched? && o.to == t) || Ran(h, t)
    ensures Saved(h + [o], t) ==
      match o
      case Created(u, frame) => if u == t then frame else Saved(h, t)
      case Switched(from, _, frameIn, _) => if from == t && Ran(h, t) then frameIn else Saved(h, t)
      case _ => Saved(h, t)
  {
    assert (h + [o])[..|h|] == h;
  }

  /** What a switch does to one thread, next to what it does to that thread's history. */
  lemma SwitchTracksThread(s: State, h: seq<Obs>, frame: int, uptime: nat, t: Ref)
    requires Inv(s) && Tracks(s, h) && Due(s.threads[s.current])
    ensures var s1 := Schedule(s, frame, uptime).0;
      var h1 := h + [Observe(s, Interrupt(frame, uptime))];
      if t in s1.threads then s1.threads[t].frame == Saved(h1, t) && (s1.threads[t].status == New ==> !Ran(h1, t))
      else !Ran(h1, t)
  {
    var o := Observe(s, Interrupt(frame, uptime));
    var out := Out(s, frame);
    SwitchResult(s, frame, uptime);
    assert o.Switched? && o.from == s.current && o.frameIn == frame && o.to in out;
    assert Schedule(s, frame, uptime).0.threads == out[o.to := SwitchedIn(out[o.to])];
    HistoryStep(h, o, t);
  }

  lemma SwitchTracks(s: State, h: seq<Obs>, frame: int, uptime: nat)
    requires Inv(s) && Tracks(s, h) && Due(s.threads[s.current])
    ensures var s1 := Schedule(s, frame, uptime).0;
      var o := Observe(s, Interrupt(frame, uptime));
      Inv(s1) && Tracks(s1, h + [o]) && Faithful(h, o)
  {
    var s1 := Schedule(s, frame, uptime).0;
    var o := Observe(s, Interrupt(frame, uptime));
    SwitchKeepsInv(s, frame, uptime);
    forall t
      ensures t in s1.threads ==> s1.threads[t].frame == Saved(h + [o], t)
      ensures t !in s1.threads || s1.threads[t].status == New ==> !Ran(h + [o], t)
    {
      SwitchTracksThread(s, h, frame, uptime, t);
    }
    HistoryStep(h, o, s1.current);
  }

  lemma NextTracks(s: State, h: seq<Obs>, e: Event)
    requires Inv(s) && Enabled(s, e) && Tracks(s, h)
    ensures var o := Observe(s, e);
      Inv(Next(s, e)) && Tracks(Next(s, e), h + [o]) && Faithful(h, o)
  {
    NextKeepsInv(s, e);
    var o := Observe(s, e);
    if e.Interrupt? && Due(s.threads[s.current]) {
      SwitchTracks(s, h, e.frame, e.uptime);
    } else {
      forall t ensures (Ran(h + [o], t) <==> Ran(h, t))
        && Saved(h + [o], t) == if e.Create? && t == e.ref then e.frame else Saved(h, t) {
        HistoryStep(h, o, t);
      }
    }
  }

  /** Context preservation over every run: each switch resumes its thread with the frame of that
      thread's most recent switch-out, or with its creation frame if it never ran before. */
  lemma {:induction false} RunPreservesContext(s: State, h: seq<Obs>, events: seq<Event>)
    requires Inv(s) && EnabledRun(s, events) && Tracks(s, h)
    ensures AllFaithful(h, Trace(s, events))
    decreases |events|
  {
    if events != [] {
      NextTracks(s, h, events[0]);
      var o := Observe(s, events[0]);
      RunPreservesContext(Next(s, events[0]), h + [o], events[1..]);
      assert Trace(s, events)[1..] == Trace(Next(s, events[0]), events[1..]);
    }
  }

  lemma BootTracks(idle: Ref, tid: nat, frame: int)
    ensures Tracks(Boot(idle, tid, frame), [Created(idle, frame)])
  {
    var h := [Created(idle, frame)];
    assert h[..0] == [];
    forall t ensures !Ran(h, t) && (t == idle ==> Saved(h, t) == frame) {
      assert !Ran([], t);
    }
  }
}
