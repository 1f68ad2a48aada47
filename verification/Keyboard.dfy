/** Pending keyboard reads: a queue of requests that key presses fill in order. */
module Keyboard {

  /** A read request: how many characters it wants and those it has. */
  datatype Request = Request(id: nat, length: nat, filled: seq<char>)

  /** Requests still waiting, the head first, and those completed, the oldest first. */
  datatype Queue = Queue(pending: seq<Request>, done: seq<Request>)

  function Add(q: Queue, id: nat, length: nat): Queue {
    q.(pending := q.pending + [Request(id, length, [])])
  }

  /** A pressed key goes to the head of the queue; a request that is then full leaves it. */
  function Deliver(q: Queue, c: char): Queue {
    if q.pending == [] then q
    else
      var r := q.pending[0];
      var r1 := if |r.filled| < r.length then r.(filled := r.filled + [c]) else r;
      if |r1.filled| == r1.length then Queue(q.pending[1..], q.done + [r1])
      else Queue([r1] + q.pending[1..], q.done)
  }

  datatype Event = Read(id: nat, length: nat) | Key(c: char)

  /** `sys_read_keyboard` does not enqueue a read of no characters. */
  function Next(q: Queue, e: Event): Queue {
    match e
    case Read(id, length) => if length > 0 then Add(q, id, length) else q
    case Key(c) => Deliver(q, c)
  }

  function Run(q: Queue, es: seq<Event>): Queue
    decreases |es|
  {
    if es == [] then q else Run(Next(q, es[0]), es[1..])
  }

  // ----- what every event keeps -----

  ghost predicate Waiting(r: Request) { |r.filled| < r.length }

  ghost predicate Complete(r: Request) { |r.filled| == r.length > 0 }

  /** Completed requests have exactly their length; only the head of the queue is partly filled. */
  ghost predicate Inv(q: Queue) {
    && (forall i :: 0 <= i < |q.done| ==> Complete(q.done[i]))
    && (forall i :: 0 <= i < |q.pending| ==> Waiting(q.pending[i]))
    && (forall i :: 0 < i < |q.pending| ==> q.pending[i].filled == [])
  }

  lemma NextKeepsInv(q: Queue, e: Event)
    requires Inv(q)
    ensures Inv(Next(q, e))
  {
    if e.Key? && q.pending != [] {
      var q1 := Next(q, e);
      assert forall i :: 0 < i < |q.pending| ==> q.pending[1..][i - 1] == q.pending[i];
    }
  }

  // ----- requests in the order in which they were made -----

  function All(q: Queue): seq<Request> { q.done + q.pending }

  /** The requests as they were made, with nothing in their buffers. */
  function Blank(rs: seq<Request>): seq<Request> {
    seq(|rs|, i requires 0 <= i < |rs| => rs[i].(filled := []))
  }

  function Buffers(rs: seq<Request>): seq<seq<char>> { seq(|rs|, i requires 0 <= i < |rs| => rs[i].filled) }

  /** Deal a stream of characters out to these requests, one after the other. */
  function Served(made: seq<Request>, stream: seq<char>): seq<seq<char>>
    decreases |made|
  {
    if made == [] then []
    else
      var n := if made[0].length <= |stream| then made[0].length else |stream|;
      [stream[..n]] + Served(made[1..], stream[n..])
  }

  /** The requests that a run of events makes. */
  function Requested(es: seq<Event>): seq<Request>
    decreases |es|
  {
    if es == [] then []
    else Made(es[0]) + Requested(es[1..])
  }

  function Made(e: Event): seq<Request> {
    if e.Read? && e.length > 0 then [Request(e.id, e.length, [])] else []
  }

  /** The characters pressed while some request was waiting. */
  function Accepted(q: Queue, es: seq<Event>): seq<char>
    decreases |es|
  {
    if es == [] then []
    else Kept(q, es[0]) + Accepted(Next(q, es[0]), es[1..])
  }

  function Kept(q: Queue, e: Event): seq<char> {
    if e.Key? && q.pending != [] then [e.c] else []
  }

  function Concat(bs: seq<seq<char>>): seq<char> {
    if bs == [] then [] else bs[0] + Concat(bs[1..])
  }

  // ----- one event on the buffers -----

  lemma {:induction false} ConcatAppend(xs: seq<seq<char>>, ys: seq<seq<char>>)
    ensures Concat(xs + ys) == Concat(xs) + Concat(ys)
    decreases |xs|
  {
    if xs == [] {
      assert xs + ys == ys;
    } else {
      assert (xs + ys)[1..] == xs[1..] + ys;
      ConcatAppend(xs[1..], ys);
    }
  }

  lemma {:induction false} ConcatEmpty(bs: seq<seq<char>>)
    requires forall i :: 0 <= i < |bs| ==> bs[i] == []
    ensures Concat(bs) == []
    decreases |bs|
  {
    if bs != [] { ConcatEmpty(bs[1..]); }
  }

  /** Changing the buffer at index d appends to the concatenation if the later buffers are empty. */
  lemma ConcatUpdate(bs: seq<seq<char>>, d: nat, c: char)
    requires d < |bs| && forall i :: d < i < |bs| ==> bs[i] == []
    ensures Concat(bs[d := bs[d] + [c]]) == Concat(bs) + [c]
  {
    var tail := bs[d + 1..];
    ConcatEmpty(tail);
    assert bs == bs[..d] + ([bs[d]] + tail);
    ConcatAppend(bs[..d], [bs[d]] + tail);
    assert bs[d := bs[d] + [c]] == bs[..d] + ([bs[d] + [c]] + tail);
    ConcatAppend(bs[..d], [bs[d] + [c]] + tail);
  }

  /** A key changes one request: the oldest that is waiting. */
  lemma DeliverUpdates(q: Queue, c: char)
    requires Inv(q) && q.pending != []
    ensures var d, r := |q.done|, q.pending[0]; All(Deliver(q, c)) == All(q)[d := r.(filled := r.filled + [c])]
  {
    assert Waiting(q.pending[0]);
  }

  /** A key adds its character at the end of the characters delivered so far. */
  lemma DeliverAppends(q: Queue, c: char)
    requires Inv(q)
    ensures Concat(Buffers(All(Deliver(q, c)))) == Concat(Buffers(All(q))) + if q.pending == [] then [] else [c]
    ensures Blank(All(Deliver(q, c))) == Blank(All(q))
  {
    if q.pending != [] {
      DeliverUpdates(q, c);
      var bs, d := Buffers(All(q)), |q.done|;
      ConcatUpdate(bs, d, c);
      assert Buffers(All(Deliver(q, c))) == bs[d := bs[d] + [c]];
    }
  }

  lemma AddAppends(q: Queue, id: nat, length: nat)
    ensures var all, all1 := All(q), All(Add(q, id, length));
      Blank(all1) == Blank(all) + [Request(id, length, [])] && Concat(Buffers(all1)) == Concat(Buffers(all))
  {
    var all, all1 := All(q), All(Add(q, id, length));
    assert all1 == all + [Request(id, length, [])];
    assert Buffers(all1) == Buffers(all) + [[]];
    ConcatAppend(Buffers(all), [[]]);
    assert Concat([[]]) == [];
  }

  // ----- runs -----

  /** Over any run the requests keep the order in which they were made, and their buffers, read in
      that order, spell the characters accepted: none lost, repeated or reordered. */
  lemma {:induction false} RunConserves(q: Queue, es: seq<Event>)
    requires Inv(q)
    ensures Inv(Run(q, es))
    ensures Blank(All(Run(q, es))) == Blank(All(q)) + Requested(es)
    ensures Concat(Buffers(All(Run(q, es)))) == Concat(Buffers(All(q))) + Accepted(q, es)
    decreases |es|
  {
    if es != [] {
      NextKeepsInv(q, es[0]);
      NextConserves(q, es[0]);
      RunConserves(Next(q, es[0]), es[1..]);
    }
  }

  lemma NextConserves(q: Queue, e: Event)
    requires Inv(q)
    ensures Blank(All(Next(q, e))) == Blank(All(q)) + Made(e)
    ensures Concat(Buffers(All(Next(q, e)))) == Concat(Buffers(All(q))) + Kept(q, e)
  {
    match e
    case Read(id, length) => AddAppends(q, id, length);
    case Key(c) => DeliverAppends(q, c);
  }

  /** Requests that are full one after the other, up to one that is partly filled, hold what
      dealing out the concatenation gives them. */
  lemma {:induction false} FullPrefixIsServed(rs: seq<Request>, d: nat)
    requires d <= |rs|
    requires forall i :: 0 <= i < d ==> |rs[i].filled| == rs[i].length
    requires forall i :: d <= i < |rs| ==> |rs[i].filled| < rs[i].length
    requires forall i :: d < i < |rs| ==> rs[i].filled == []
    ensures Buffers(rs) == Served(Blank(rs), Concat(Buffers(rs)))
    decreases |rs|
  {
    if rs != [] {
      var stream, first := Concat(Buffers(rs)), rs[0].filled;
      assert Buffers(rs)[1..] == Buffers(rs[1..]) && Blank(rs)[1..] == Blank(rs[1..]);
      assert stream == first + Concat(Buffers(rs[1..]));
      FullPrefixIsServed(rs[1..], if d == 0 then 0 else d - 1);
      if d == 0 { ConcatEmpty(Buffers(rs[1..])); }
      assert stream[..|first|] == first && stream[|first|..] == Concat(Buffers(rs[1..]));
      assert Buffers(rs) == [first] + Buffers(rs[1..]);
    }
  }

  /** From an empty queue, after any run every request holds the part of the accepted characters
      that dealing them out in request order gives it. */
  lemma RunServesInOrder(es: seq<Event>)
    ensures var start := Queue([], []);
      var q := Run(start, es);
      && Blank(All(q)) == Requested(es)
      && Buffers(All(q)) == Served(Requested(es), Accepted(start, es))
      && (forall i :: 0 <= i < |q.done| ==> |q.done[i].filled| == q.done[i].length)
  {
    var start := Queue([], []);
    var q := Run(start, es);
    RunConserves(start, es);
    FullPrefixIsServed(All(q), |q.done|);
    assert Blank(All(start)) + Requested(es) == Requested(es);
    assert Concat(Buffers(All(start))) + Accepted(start, es) == Accepted(start, es);
    forall i | 0 <= i < |q.done| ensures |q.done[i].filled| == q.done[i].length { assert Complete(q.done[i]); }
  }
}
