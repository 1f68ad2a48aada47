/** The linked list of pending operations that the keyboard driver and the interrupt handler share.
    Operations are records at addresses; address 0 stands for NULL. */
module KeyboardDriver {
  import opened Keyboard

  datatype Operation = Operation(length: nat, buffer: seq<char>, nbytes: nat, read: bool, next: nat)

  type Operations = map<nat, Operation>

  /** Node i of the list is waiting and points to its successor, the last one to NULL. */
  ghost predicate NodeOk(ops: Operations, nodes: seq<nat>, i: nat)
    requires i < |nodes|
  {
    && nodes[i] != 0 && nodes[i] in ops
    && ops[nodes[i]].next == (if i + 1 < |nodes| then nodes[i + 1] else 0)
    && ops[nodes[i]].nbytes < ops[nodes[i]].length == |ops[nodes[i]].buffer| && !ops[nodes[i]].read
  }

  ghost predicate Linked(ops: Operations, nodes: seq<nat>) {
    && (forall i :: 0 <= i < |nodes| ==> NodeOk(ops, nodes, i))
    && (forall i, j :: 0 <= i < j < |nodes| ==> nodes[i] != nodes[j])
  }

  ghost predicate Apart(ops: Operations, waiting: seq<nat>, finished: seq<nat>) {
    forall i :: 0 <= i < |finished| ==> finished[i] in ops && finished[i] !in waiting
  }

  function AsRequest(ops: Operations, p: nat): Request {
    if p in ops && ops[p].nbytes <= |ops[p].buffer| then Request(p, ops[p].length, ops[p].buffer[..ops[p].nbytes])
    else Request(p, 0, [])
  }

  function AsRequests(ops: Operations, nodes: seq<nat>): seq<Request> {
    seq(|nodes|, i requires 0 <= i < |nodes| => AsRequest(ops, nodes[i]))
  }

  class Driver {
    var ops: Operations
    var head: nat
    var tail: nat
    ghost var waiting: seq<nat>
    ghost var finished: seq<nat>

    ghost function Q(): Queue
      reads this
    {
      Queue(AsRequests(ops, waiting), AsRequests(ops, finished))
    }

    /** The tail is only meaningful while the queue is not empty. */
    ghost predicate Valid()
      reads this
    {
      && Linked(ops, waiting) && Apart(ops, waiting, finished)
      && head == (if waiting == [] then 0 else waiting[0])
      && (waiting != [] ==> tail == waiting[|waiting| - 1])
    }

    /** `_ps2_keyboard_driver_init`. */
    constructor ()
      ensures Valid() && Q() == Queue([], [])
    {
      ops, head, tail, waiting, finished := map[], 0, 0, [], [];
    }

    /** `_ps2_keyboard_add_operation` for the operation that `sys_read_keyboard` sets up. */
    method AddOperation(p: nat, length: nat, buffer: seq<char>)
      requires Valid() && p != 0 && p !in ops && length > 0 && |buffer| == length
      modifies this
      ensures Valid() && Q() == old(Next(Q(), Read(p, length)))
    {
      ghost var start := ops;
      var newOp := Operation(length, buffer, 0, false, 0);
      ops := ops[p := newOp];
      assert waiting != [] ==> NodeOk(start, waiting, 0);
      AppendHolds(start, waiting, finished, p, newOp);
      if head == 0 {
        head, tail := p, p;
      } else {
        assert NodeOk(start, waiting, |waiting| - 1);
        ops := ops[tail := ops[tail].(next := p)];
        tail := p;
      }
      waiting := waiting + [p];
    }

    /** The part of `handle_keyboard_interrupt` that delivers the character of a pressed key. */
    method KeyPressed(c: char)
      requires Valid()
      modifies this
      ensures Valid() && Q() == old(Next(Q(), Key(c)))
    {
      assert waiting != [] ==> NodeOk(ops, waiting, 0);
      if head != 0 {
        if !ops[head].read {
          ghost var start := ops;
          if ops[head].nbytes < ops[head].length {
            var op := ops[head];
            ops := ops[head := op.(buffer := op.buffer[op.nbytes := c], nbytes := op.nbytes + 1)];
          }
          FillHolds(start, waiting, finished, c);
          if ops[head].nbytes == ops[head].length {
            ops := ops[head := ops[head].(read := true)];
            PopHolds(start, waiting, finished, c);
            head := ops[head].next;
            finished := finished + [waiting[0]];
            waiting := waiting[1..];
          }
        }
      }
    }
  }

  /** The list after a new operation has been put at its end. */
  function Append(ops: Operations, nodes: seq<nat>, p: nat, op: Operation): Operations {
    if nodes == [] then ops[p := op]
    else
      var last := nodes[|nodes| - 1];
      if last in ops then ops[p := op][last := ops[last].(next := p)] else ops[p := op]
  }

  lemma AppendHolds(ops: Operations, nodes: seq<nat>, finished: seq<nat>, p: nat, op: Operation)
    requires Linked(ops, nodes) && Apart(ops, nodes, finished) && p != 0 && p !in ops
    requires op.next == 0 && op.nbytes == 0 && !op.read && 0 < op.length == |op.buffer|
    ensures var ops1 := Append(ops, nodes, p, op);
      && Linked(ops1, nodes + [p]) && Apart(ops1, nodes + [p], finished)
      && AsRequests(ops1, nodes + [p]) == AsRequests(ops, nodes) + [Request(p, op.length, [])]
      && AsRequests(ops1, finished) == AsRequests(ops, finished)
  {
    var ops1, nodes1 := Append(ops, nodes, p, op), nodes + [p];
    assert forall i :: 0 <= i < |nodes| ==> NodeOk(ops, nodes, i);
    forall i | 0 <= i < |nodes1| ensures NodeOk(ops1, nodes1, i) {
      if i < |nodes| { assert NodeOk(ops, nodes, i); }
    }
    forall i | 0 <= i < |nodes| ensures AsRequest(ops1, nodes[i]) == AsRequest(ops, nodes[i]) {
      assert NodeOk(ops, nodes, i);
    }
  }

  /** The head after it has received a character. */
  function Fill(ops: Operations, h: nat, c: char): Operations {
    if h in ops && ops[h].nbytes < |ops[h].buffer| then
      ops[h := ops[h].(buffer := ops[h].buffer[ops[h].nbytes := c], nbytes := ops[h].nbytes + 1)]
    else ops
  }

  lemma FillRequests(ops: Operations, nodes: seq<nat>, finished: seq<nat>, c: char)
    requires Linked(ops, nodes) && Apart(ops, nodes, finished) && nodes != []
    ensures var ops1 := Fill(ops, nodes[0], c);
      var r := AsRequest(ops, nodes[0]);
      && AsRequest(ops1, nodes[0]) == r.(filled := r.filled + [c])
      && AsRequests(ops1, nodes[1..]) == AsRequests(ops, nodes)[1..]
      && AsRequests(ops1, finished) == AsRequests(ops, finished)
  {
    assert NodeOk(ops, nodes, 0);
    var op := ops[nodes[0]];
    assert op.buffer[op.nbytes := c][..op.nbytes + 1] == op.buffer[..op.nbytes] + [c];
  }

  /** A head that is not yet full stays at the head. */
  lemma FillHolds(ops: Operations, nodes: seq<nat>, finished: seq<nat>, c: char)
    requires Linked(ops, nodes) && Apart(ops, nodes, finished) && nodes != []
    ensures nodes[0] in ops
    ensures var ops1, q := Fill(ops, nodes[0], c), Queue(AsRequests(ops, nodes), AsRequests(ops, finished));
      ops[nodes[0]].nbytes + 1 < ops[nodes[0]].length ==>
        && Linked(ops1, nodes) && Apart(ops1, nodes, finished)
        && Queue(AsRequests(ops1, nodes), AsRequests(ops1, finished)) == Deliver(q, c)
  {
    var ops1 := Fill(ops, nodes[0], c);
    FillRequests(ops, nodes, finished, c);
    assert NodeOk(ops, nodes, 0);
    if ops[nodes[0]].nbytes + 1 < ops[nodes[0]].length {
      forall i | 0 <= i < |nodes| ensures NodeOk(ops1, nodes, i) { assert NodeOk(ops, nodes, i); }
      assert AsRequests(ops1, nodes) == [AsRequest(ops1, nodes[0])] + AsRequests(ops1, nodes[1..]);
    }
  }

  /** A head that has become full is taken off. */
  lemma PopHolds(ops: Operations, nodes: seq<nat>, finished: seq<nat>, c: char)
    requires Linked(ops, nodes) && Apart(ops, nodes, finished) && nodes != []
    ensures nodes[0] in ops
    ensures var filled, q := Fill(ops, nodes[0], c), Queue(AsRequests(ops, nodes), AsRequests(ops, finished));
      var ops1 := filled[nodes[0] := filled[nodes[0]].(read := true)];
      ops[nodes[0]].nbytes + 1 == ops[nodes[0]].length ==>
        && Linked(ops1, nodes[1..]) && Apart(ops1, nodes[1..], finished + [nodes[0]])
        && ops1[nodes[0]].next == (if |nodes| == 1 then 0 else nodes[1])
        && Queue(AsRequests(ops1, nodes[1..]), AsRequests(ops1, finished + [nodes[0]])) == Deliver(q, c)
  {
    assert NodeOk(ops, nodes, 0);
    var filled := Fill(ops, nodes[0], c);
    var ops1 := filled[nodes[0] := filled[nodes[0]].(read := true)];
    FillRequests(ops, nodes, finished, c);
    if ops[nodes[0]].nbytes + 1 == ops[nodes[0]].length {
      var rest := nodes[1..];
      forall i | 0 <= i < |rest| ensures NodeOk(ops1, rest, i) { assert NodeOk(ops, nodes, i + 1); }
      assert AsRequest(ops1, nodes[0]) == AsRequest(filled, nodes[0]);
      assert AsRequests(ops1, rest) == AsRequests(filled, rest);
      assert AsRequests(ops1, finished + [nodes[0]]) == AsRequests(filled, finished) + [AsRequest(filled, nodes[0])];
    }
  }
}
