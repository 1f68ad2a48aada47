/** The scheduler as it lies in memory: threads linked by `next` pointers, updated in place. */
module ThreadList {
  import opened Scheduler

  /** A thread and its link; 0 is the null pointer. */
  datatype Cell = Cell(thread: Thread, next: Ref)

  type Memory = map<Ref, Cell>

  ghost predicate LinkedAt(mem: Memory, list: seq<Ref>, i: nat)
    requires i < |list|
  {
    && list[i] in mem && list[i] > 0
    && mem[list[i]].next == if i + 1 < |list| then list[i + 1] else 0
  }

  ghost predicate Linked(mem: Memory, list: seq<Ref>) {
    forall i :: 0 <= i < |list| ==> LinkedAt(mem, list, i)
  }

  ghost function ThreadsOf(mem: Memory): Threads {
    map t | t in mem :: mem[t].thread
  }

  /** The thread behind position i, or the first one. */
  function Following(list: seq<Ref>, i: nat): Ref
    requires i < |list|
  {
    if i + 1 < |list| then list[i + 1] else list[0]
  }

  function Removed(list: seq<Ref>, p: nat): seq<Ref>
    requires p < |list|
  {
    list[..p] + list[p + 1..]
  }

  /** Where the current thread stands after j threads of the rotation have been taken out. */
  function CurrentPlace(n: nat, i: nat, j: nat): nat
    requires i < n && j < n
  {
    if j <= n - 1 - i then i else i - (j - (n - 1 - i))
  }

  /** Where the next thread looked at stands in the pruned list. */
  function NextPlace(n: nat, i: nat, j: nat): nat
    requires i < n && j < n
  {
    if j < n - 1 - i then i + 1 else 0
  }

  /** The next thread looked at is the next one of the rotation, or the current one at its end. */
  lemma PrunedNext(list: seq<Ref>, i: nat, j: nat)
    requires i < |list| && j < |list|
    ensures var p := Pruned(list, i, j);
      var at := CurrentPlace(|list|, i, j);
      && at < |p| && p[at] == list[i]
      && Following(p, at) == (if j < |list| - 1 then Rotation(list, i)[j] else list[i])
  {
    var behind := |list| - 1 - i;
    if j < behind {
      assert Rotation(list, i)[j] == list[i + 1 + j];
    } else if j < |list| - 1 {
      assert Rotation(list, i)[j] == list[j - behind];
    }
  }

  /** Taking the next thread of the rotation out is one more pruning. */
  lemma PrunedRemove(list: seq<Ref>, i: nat, j: nat)
    requires i < |list| && j < |list| - 1
    ensures var p := Pruned(list, i, j);
      var q := NextPlace(|list|, i, j);
      q < |p| && p[q] == Rotation(list, i)[j] && Removed(p, q) == Pruned(list, i, j + 1)
  {
    var p := Pruned(list, i, j);
    var behind := |list| - 1 - i;
    if j < behind {
      assert Removed(p, i + 1) == list[..i + 1] + list[i + 2 + j..];
    } else if j == behind {
      assert p == list[..i + 1];
    }
  }

  /** Unlinking position p. */
  lemma UnlinkHolds(mem: Memory, list: seq<Ref>, p: nat)
    requires Linked(mem, list) && Distinct(list) && 0 < p < |list|
    ensures LinkedAt(mem, list, p - 1) && LinkedAt(mem, list, p)
    ensures Linked(mem[list[p - 1] := mem[list[p - 1]].(next := mem[list[p]].next)], Removed(list, p))
  {
    assert LinkedAt(mem, list, p - 1) && LinkedAt(mem, list, p);
    var mem1, list1 := mem[list[p - 1] := mem[list[p - 1]].(next := mem[list[p]].next)], Removed(list, p);
    forall i | 0 <= i < |list1| ensures LinkedAt(mem1, list1, i) {
      var k := if i < p then i else i + 1;
      assert LinkedAt(mem, list, k);
      if k < p - 1 { assert list[k] != list[p - 1]; } else if k > p - 1 { assert list[p - 1] != list[k]; }
    }
  }

  /** Position p is that of the first thread with this tid, or the length of the list. */
  ghost predicate FirstWithTid(threads: Threads, list: seq<Ref>, tid: nat, p: nat)
    requires AllKnown(threads, list)
  {
    && p <= |list| && (p < |list| ==> threads[list[p]].tid == tid)
    && forall i :: 0 <= i < p ==> threads[list[i]].tid != tid
  }

  lemma PushLinked(mem: Memory, list: seq<Ref>, ref: Ref, t: Thread)
    requires Linked(mem, list) && ref > 0 && ref !in mem && list != []
    ensures Linked(mem[ref := Cell(t, list[0])], [ref] + list)
    ensures Distinct(list) ==> Distinct([ref] + list)
  {
    var mem1, list1 := mem[ref := Cell(t, list[0])], [ref] + list;
    forall k | 0 <= k < |list1| ensures LinkedAt(mem1, list1, k) {
      if k > 0 { assert LinkedAt(mem, list, k - 1) && list1[k] == list[k - 1]; }
    }
    forall k | 0 <= k < |list| ensures list[k] != ref { assert LinkedAt(mem, list, k); }
  }

  class ThreadScheduler {
    var mem: Memory
    var threadList: Ref
    var listSize: nat
    var current: Ref
    var idle: Ref
    ghost var list: seq<Ref>

    ghost function St(): State
      reads this
    {
      State(ThreadsOf(mem), list, current, idle)
    }

    /** The list in memory is `list`, ends in null, and its length is `thread_list_size`. */
    ghost predicate ListOk()
      reads this
    {
      && Linked(mem, list) && Distinct(list) && listSize == |list|
      && threadList == if list == [] then 0 else list[0]
    }

    ghost predicate Valid()
      reads this
    {
      ListOk() && Inv(St())
    }

    constructor (first: Ref, tid: nat, frame: int)
      requires first > 0
      ensures Valid() && St() == Boot(first, tid, frame)
    {
      mem := map[first := Cell(Thread(tid, New, 0, frame, 0), 0)];
      threadList, listSize, current, idle := first, 1, first, first;
      list := [first];
      new;
      assert LinkedAt(mem, list, 0);
      assert ThreadsOf(mem) == map[first := Thread(tid, New, 0, frame, 0)];
    }

    /** `scheduler_get_next_thread`; the current thread, if there is one, stands at position `at`. */
    method GetNextThread(ghost at: nat) returns (next: Ref)
      requires ListOk() && (list != [] && current != 0 ==> at < |list| && list[at] == current)
      ensures next == if list == [] then 0 else if current == 0 then list[0] else Following(list, at)
    {
      assert list != [] ==> LinkedAt(mem, list, 0);
      if listSize == 0 || threadList == 0 {
        return 0;
      }
      if current == 0 {
        return threadList;
      }
      assert LinkedAt(mem, list, at);
      assert at + 1 < |list| ==> LinkedAt(mem, list, at + 1);
      if mem[current].next == 0 {
        return threadList;
      }
      return mem[current].next;
    }

    /** The loop of `scheduler_delete_thread`: the first thread with that tid and the one before it. */
    method Search(tid: nat, ghost p: nat) returns (item: Ref, prev: Ref)
      requires ListOk() && AllKnown(ThreadsOf(mem), list) && FirstWithTid(ThreadsOf(mem), list, tid, p)
      ensures item == (if p < |list| then list[p] else 0) && prev == (if p > 0 then list[p - 1] else 0)
    {
      item, prev := threadList, 0;
      ghost var i := 0;
      while item != 0 && mem[item].thread.tid != tid
        invariant i <= p && item == (if i < |list| then list[i] else 0)
        invariant item != 0 ==> item in mem && i < |list|
        invariant prev == if i > 0 then list[i - 1] else 0
        invariant list != [] ==> LinkedAt(mem, list, if i < |list| then i else 0)
        decreases p - i
      {
        assert LinkedAt(mem, list, i) && ThreadsOf(mem)[list[i]].tid == mem[item].thread.tid;
        assert i + 1 < |list| ==> LinkedAt(mem, list, i + 1);
        prev := item;
        item := mem[item].next;
        i := i + 1;
      }
      if i < |list| { assert LinkedAt(mem, list, i) && ThreadsOf(mem)[list[i]].tid == mem[item].thread.tid; }
    }

    /** `scheduler_delete_thread`; the first thread with that tid stands at position p, which is the length
        of the list if there is none. */
    method DeleteThread(tid: nat, ghost p: nat)
      requires ListOk() && AllKnown(ThreadsOf(mem), list) && FirstWithTid(ThreadsOf(mem), list, tid, p)
      modifies this`mem, this`threadList, this`listSize, this`list
      ensures ListOk() && ThreadsOf(mem) == old(ThreadsOf(mem))
      ensures list == if p < |old(list)| then Removed(old(list), p) else old(list)
    {
      var item, prev := Search(tid, p);
      assert p < |list| ==> LinkedAt(mem, list, p);
      if item == 0 {
        return;
      }
      if item == threadList {
        threadList := mem[item].next;
        forall k | 0 <= k < |list| - 1 ensures LinkedAt(mem, Removed(list, 0), k) {
          assert LinkedAt(mem, list, k + 1);
        }
      } else {
        UnlinkHolds(mem, list, p);
        mem := mem[prev := mem[prev].(next := mem[item].next)];
      }
      listSize := listSize - 1;
      list := Removed(list, p);
      assert ThreadsOf(mem) == old(ThreadsOf(mem));
    }

    /** `scheduler_add_thread` on a thread that `create_thread` has made. */
    method AddThread(ref: Ref, tid: nat, frame: int)
      requires Valid() && ref > 0 && ref !in mem && Enabled(St(), Create(ref, tid, frame))
      modifies this`mem, this`threadList, this`listSize, this`list
      ensures Valid() && St() == Next(old(St()), Create(ref, tid, frame))
    {
      CreateKeepsInv(St(), ref, tid, frame);
      ghost var s1 := Next(St(), Create(ref, tid, frame));
      assert LinkedAt(mem, list, 0);
      PushLinked(mem, list, ref, Thread(tid, New, 0, frame, 0));
      mem := mem[ref := Cell(Thread(tid, New, 0, frame, 0), threadList)];
      listSize := listSize + 1;
      threadList := ref;
      list := [ref] + list;
      assert ThreadsOf(mem) == s1.threads;
    }

    /** The status changes of `thread_sleep` and of `sys_thread_exit` or `thread_suicide_trap`. */
    method ActCurrent(e: Event)
      requires Valid() && (e.GoToSleep? || e.Exit?) && Enabled(St(), e)
      modifies this`mem
      ensures Valid() && St() == Next(old(St()), e)
    {
      NextKeepsInv(St(), e);
      ghost var s1 := Next(St(), e);
      var t := mem[current].thread;
      if e.GoToSleep? {
        SetCurrent(t.(status := Sleep, wakeup := e.wakeup));
      } else {
        SetCurrent(t.(status := Dead, ticks := if e.outOfTicks then NUMBER_OF_TICKS else t.ticks));
      }
    }

    /** Overwrite the current thread, keeping its link. */
    method SetCurrent(t: Thread)
      requires ListOk() && current in mem
      modifies this`mem
      ensures ListOk() && ThreadsOf(mem) == old(ThreadsOf(mem))[current := t] && mem.Keys == old(mem.Keys)
    {
      ghost var before := mem;
      mem := mem[current := mem[current].(thread := t)];
      forall k | 0 <= k < |list| ensures LinkedAt(mem, list, k) { assert LinkedAt(before, list, k); }
      assert ThreadsOf(mem) == ThreadsOf(before)[current := t];
    }

    /** The dead branch of the search loop: the j-th thread of the rotation is deleted and the search
        moves on to the next one. */
    method DeleteAndAdvance(candidate: Ref, ghost all: seq<Ref>, ghost place: nat, ghost j: nat) returns (next: Ref)
      requires ListOk() && place < |all| && j < |all| - 1 && all[place] == current && list == Pruned(all, place, j)
      requires AllKnown(ThreadsOf(mem), list) && DistinctTids(ThreadsOf(mem), list)
      requires candidate == Rotation(all, place)[j] && candidate in mem && current > 0
      modifies this`mem, this`threadList, this`listSize, this`list
      ensures ListOk() && ThreadsOf(mem) == old(ThreadsOf(mem)) && list == Pruned(all, place, j + 1)
      ensures next == if j + 1 < |all| - 1 then Rotation(all, place)[j + 1] else current
    {
      PrunedRemove(all, place, j);
      DeleteThread(mem[candidate].thread.tid, NextPlace(|all|, place, j));
      PrunedNext(all, place, j + 1);
      next := GetNextThread(CurrentPlace(|all|, place, j + 1));
    }

    /** One turn of the search loop of `schedule`: the j-th thread of the rotation may run, is dead and
        deleted, or ends the search. */
    method Examine(candidate: Ref, uptime: nat, ghost threads: Threads, ghost all: seq<Ref>, ghost place: nat,
                   ghost j: nat)
      returns (found: bool, next: Ref, ghost j1: nat)
      requires ListOk() && ThreadsOf(mem) == threads
      requires Searched(threads, all, idle) && place < |all| && all[place] == current
      requires current == idle ==> threads[idle].status == Ready
      requires AllKnown(threads, Rotation(all, place)) && j <= DeadPrefix(threads, Rotation(all, place))
      requires list == Pruned(all, place, j) && candidate == Candidate(all, place, j) && candidate in mem && current > 0
      modifies this`mem, this`threadList, this`listSize, this`list
      ensures j1 <= DeadPrefix(threads, Rotation(all, place)) && j1 < |all|
      ensures ListOk() && ThreadsOf(mem) == threads && list == Pruned(all, place, j1)
      ensures found ==> next == candidate && j1 == DeadPrefix(threads, Rotation(all, place))
      ensures found ==> next == Pick(threads, Rotation(all, place), idle, uptime)
      ensures !found ==> next == Candidate(all, place, j1)
      ensures !found && j1 == j ==>
        j == DeadPrefix(threads, Rotation(all, place)) && Pick(threads, Rotation(all, place), idle, uptime) == idle
      ensures !found && j1 != j ==> j1 == j + 1
    {
      found, next, j1 := false, candidate, j;
      assert threads[candidate] == mem[candidate].thread;
      CandidateFacts(threads, all, place, j, idle, uptime);
      if mem[candidate].thread.status == Sleep && uptime > mem[candidate].thread.wakeup {
        found := true;
      } else if mem[candidate].thread.status == Dead {
        PrunedKeepsTids(threads, all, place, j);
        next := DeleteAndAdvance(candidate, all, place, j);
        j1 := j + 1;
      } else if mem[candidate].thread.status in {Ready, New} {
        found := true;
      } else {
        PrunedNext(all, place, j);
        next := GetNextThread(CurrentPlace(|all|, place, j));
      }
    }

    /** The search loop of `schedule`: dead threads are deleted until one is found that may run, or the
        search gives up and the idle thread is taken. */
    method FindThread(uptime: nat, ghost place: nat) returns (pick: Ref)
      requires ListOk() && place < |list| && list[place] == current && Searched(ThreadsOf(mem), list, idle)
      requires current == idle ==> ThreadsOf(mem)[idle].status == Ready
      modifies this`mem, this`threadList, this`listSize, this`list
      ensures ListOk() && ThreadsOf(mem) == old(ThreadsOf(mem))
      ensures AllKnown(ThreadsOf(mem), Rotation(old(list), place))
      ensures pick == Pick(ThreadsOf(mem), Rotation(old(list), place), idle, uptime)
      ensures list == Pruned(old(list), place, DeadPrefix(ThreadsOf(mem), Rotation(old(list), place)))
    {
      ghost var all, threads := list, ThreadsOf(mem);
      RotationKnown(threads, all, place);
      ghost var dead := DeadPrefix(threads, Rotation(all, place));
      ghost var goal := Pick(threads, Rotation(all, place), idle, uptime);
      ghost var j := 0;
      SearchStarts(threads, all, place, idle, uptime);
      assert LinkedAt(mem, list, place);
      pick := idle;
      var prevTid := mem[current].thread.tid;
      var candidate := GetNextThread(place);
      while mem[candidate].thread.tid != prevTid
        invariant ListOk() && ThreadsOf(mem) == threads && j <= dead && list == Pruned(all, place, j)
        invariant candidate == Candidate(all, place, j) && candidate in mem && pick == idle
        invariant mem[candidate].thread.tid == prevTid ==> j == dead && goal == idle
        decreases dead - j, if mem[candidate].thread.tid != prevTid then 1 else 0
      {
        prevTid := mem[candidate].thread.tid;
        ghost var j1;
        var found, next;
        found, next, j1 := Examine(candidate, uptime, threads, all, place, j);
        if found {
          pick := next;
          j := j1;
          break;
        }
        SearchGoesOn(threads, all, place, j, j1, idle, uptime);
        candidate, j := next, j1;
      }
    }

    /** `schedule`. */
    method Interrupted(frame: int, uptime: nat) returns (resume: int)
      requires Valid()
      modifies this
      ensures Valid() && (St(), resume) == Schedule(old(St()), frame, uptime)
    {
      ghost var s := St();
      ScheduleKeepsInv(s, frame, uptime);
      assert s.threads[current] == mem[current].thread;
      var t := mem[current].thread;
      if t.status == Sleep {
        t := t.(ticks := NUMBER_OF_TICKS);
      }
      if t.ticks < NUMBER_OF_TICKS {
        SetCurrent(t.(ticks := t.ticks + 1));
        return frame;
      }
      PutAside(t, frame);
      assert ThreadsOf(mem) == Out(s, frame);
      resume := SwitchAway(uptime, s, frame);
    }

    /** The part of `schedule` that puts the current thread t aside. */
    method PutAside(current: Thread, frame: int)
      requires ListOk() && this.current in mem && (current.status == Sleep ==> current.ticks == NUMBER_OF_TICKS)
      modifies this`mem
      ensures ListOk() && mem.Keys == old(mem.Keys)
      ensures ThreadsOf(mem) == old(ThreadsOf(mem))[this.current := SwitchedOut(current, frame)]
    {
      var t := current.(ticks := current.ticks + 1);
      if t.status != New {
        t := t.(frame := frame);
      }
      if t.status != Sleep && t.status != Dead {
        t := t.(status := Ready);
      }
      SetCurrent(t);
    }

    /** The part of `schedule` after the current thread has been put aside. */
    method SwitchAway(uptime: nat, ghost s: State, ghost frame: int) returns (resume: int)
      requires ListOk() && Inv(s) && Due(s.threads[s.current])
      requires St() == s.(threads := Out(s, frame))
      modifies this
      ensures ListOk() && (St(), resume) == Schedule(s, frame, uptime)
    {
      SwitchResult(s, frame, uptime);
      PickFacts(s, frame, uptime);
      SublistKeepsTids(s.threads, list, ThreadsOf(mem), list);
      var pick := FindThread(uptime, Position(list, current));
      resume := SwitchTo(pick);
    }

    /** The end of `schedule`: the thread found becomes the running one. */
    method SwitchTo(pick: Ref) returns (resume: int)
      requires ListOk() && pick in mem
      modifies this`mem, this`current
      ensures ListOk() && current == pick && resume == old(ThreadsOf(mem))[pick].frame
      ensures ThreadsOf(mem) == old(ThreadsOf(mem))[pick := SwitchedIn(old(ThreadsOf(mem))[pick])]
    {
      current := pick;
      var t := mem[pick].thread;
      SetCurrent(t.(status := Running, ticks := 0));
      resume := t.frame;
    }
  }

  /** The j-th thread of the rotation, and the current one at its end. */
  function Candidate(list: seq<Ref>, i: nat, j: nat): Ref
    requires i < |list| && j < |list|
  {
    if j < |list| - 1 then Rotation(list, i)[j] else list[i]
  }

  /** What the search needs of the list: known threads with different tids and a live idle thread. */
  ghost predicate Searched(threads: Threads, list: seq<Ref>, idle: Ref) {
    && AllKnown(threads, list) && Distinct(list) && DistinctTids(threads, list)
    && idle in list && threads[idle].status !in {Sleep, Dead, Init, Wait}
  }

  /** What the status of the thread looked at tells about the result of the search. */
  lemma CandidateFacts(threads: Threads, list: seq<Ref>, i: nat, j: nat, idle: Ref, uptime: nat)
    requires i < |list| && AllKnown(threads, list) && idle in list
    requires threads[idle].status !in {Sleep, Dead, Init, Wait}
    requires list[i] == idle ==> threads[idle].status == Ready
    ensures AllKnown(threads, Rotation(list, i)) && |Rotation(list, i)| == |list| - 1
    ensures var rot := Rotation(list, i);
      var dead := DeadPrefix(threads, rot);
      var goal := Pick(threads, rot, idle, uptime);
      j <= dead ==>
        var candidate := Candidate(list, i, j);
        && candidate in threads
        && (if threads[candidate].status == Dead then j < dead else j == dead)
        && (threads[candidate].status != Dead ==>
          goal == if Eligible(threads[candidate], uptime) then candidate else idle)
        && (|list| == 1 ==> dead == 0 && goal == idle)
  {
    RotationKnown(threads, list, i);
    RotationMembers(list, i);
    var rot := Rotation(list, i);
    var dead := DeadPrefix(threads, rot);
  }

  lemma RotationKnown(threads: Threads, list: seq<Ref>, i: nat)
    requires i < |list| && AllKnown(threads, list)
    ensures AllKnown(threads, Rotation(list, i)) && |Rotation(list, i)| == |list| - 1
  {
    RotationMembers(list, i);
    var rot := Rotation(list, i);
    forall x | 0 <= x < |rot| ensures rot[x] in threads { assert rot[x] in list; }
  }

  lemma PrunedKeepsTids(threads: Threads, list: seq<Ref>, i: nat, j: nat)
    requires i < |list| && j < |list| && Distinct(list) && AllKnown(threads, list) && DistinctTids(threads, list)
    ensures AllKnown(threads, Pruned(list, i, j)) && DistinctTids(threads, Pruned(list, i, j))
  {
    PrunedIsSublist(list, i, j);
    SublistKeepsTids(threads, list, threads, Pruned(list, i, j));
  }

  /** Threads looked at one after the other have different tids. */
  lemma CandidateTids(threads: Threads, list: seq<Ref>, i: nat, j: nat)
    requires i < |list| && j < |list| && Distinct(list) && AllKnown(threads, list) && DistinctTids(threads, list)
    ensures AllKnown(threads, Rotation(list, i)) && |Rotation(list, i)| == |list| - 1
    ensures var rot := Rotation(list, i);
      threads[Candidate(list, i, j)].tid == (if j == 0 then threads[list[i]].tid else threads[rot[j - 1]].tid) <==>
        |list| == 1
  {
    RotationKnown(threads, list, i);
    var behind := |list| - 1 - i;
    var rot := Rotation(list, i);
    assert forall x :: 0 <= x < |rot| ==> rot[x] == if x < behind then list[i + 1 + x] else list[x - behind];
  }

  lemma SearchStarts(threads: Threads, list: seq<Ref>, i: nat, idle: Ref, uptime: nat)
    requires Searched(threads, list, idle) && i < |list| && (list[i] == idle ==> threads[idle].status == Ready)
    ensures AllKnown(threads, Rotation(list, i)) && Pruned(list, i, 0) == list
    ensures Following(list, i) == Candidate(list, i, 0) && Candidate(list, i, 0) in threads
    ensures threads[Candidate(list, i, 0)].tid == threads[list[i]].tid ==>
      DeadPrefix(threads, Rotation(list, i)) == 0 && Pick(threads, Rotation(list, i), idle, uptime) == idle
  {
    PrunedNext(list, i, 0);
    CandidateTids(threads, list, i, 0);
    CandidateFacts(threads, list, i, 0, idle, uptime);
  }

  /** After a turn that found nobody: the next candidate is another thread, or the search is over. */
  lemma SearchGoesOn(threads: Threads, list: seq<Ref>, i: nat, j: nat, j1: nat, idle: Ref, uptime: nat)
    requires Searched(threads, list, idle) && i < |list| && (list[i] == idle ==> threads[idle].status == Ready)
    requires AllKnown(threads, Rotation(list, i))
    requires j <= j1 <= DeadPrefix(threads, Rotation(list, i)) && j1 <= j + 1 && j1 < |list|
    requires j1 == j ==>
      j == DeadPrefix(threads, Rotation(list, i)) && Pick(threads, Rotation(list, i), idle, uptime) == idle
    ensures Candidate(list, i, j) in threads && Candidate(list, i, j1) in threads
    ensures threads[Candidate(list, i, j1)].tid == threads[Candidate(list, i, j)].tid ==>
      j1 == j && j1 == DeadPrefix(threads, Rotation(list, i)) && Pick(threads, Rotation(list, i), idle, uptime) == idle
  {
    CandidateFacts(threads, list, i, j, idle, uptime);
    CandidateFacts(threads, list, i, j1, idle, uptime);
    CandidateTids(threads, list, i, j1);
  }
}
