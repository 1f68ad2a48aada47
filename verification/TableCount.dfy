/** How many tables it takes to map consecutive pages. */
module TableCount {
  import opened Bits
  import opened PageTable
  import opened Addresses
  import opened Mapping

  /** The table indices of page number q. */
  function NumberPath(depth: nat, q: nat): (path: Path)
    ensures path != []
  {
    if depth == 4 then [q / 512 / 512 / 512 % 512, q / 512 / 512 % 512, q / 512 % 512, q % 512]
    else [q / 512 / 512 % 512, q / 512 % 512, q % 512]
  }

  lemma NumberPathIs(depth: nat, v: nat)
    requires depth in {3, 4}
    ensures PagePath(depth, v) == NumberPath(depth, v / PageSize(depth))
  {
    DivDiv(v, 0x1000, 512);
    DivDiv(v, 0x20_0000, 512);
    DivDiv(v, 0x4000_0000, 512);
  }

  /** The tables below the root that the pages up to q fill or begin. */
  function Groups(depth: nat, q: nat): nat {
    q / 512 + q / 512 / 512 + if depth == 4 then q / 512 / 512 / 512 else 0
  }

  /** A bound on the tables missing on the paths of the n pages from page q on. */
  function TableBound(depth: nat, q: nat, n: nat): int {
    if n == 0 then 0 else depth - 1 + Groups(depth, q + n - 1) - Groups(depth, q)
  }

  /** Where a path to a neighbour is complete, only the tables behind the common indices can be missing. */
  lemma {:induction false} MissingBeside(mem: Memory, f: Frame, path: Path, path': Path, c: nat)
    requires |path| == |path'| && c < |path| && path[..c] == path'[..c] && LastTable(mem, f, path).Some?
    ensures Missing(mem, f, path') <= |path| - 1 - c
    decreases |path|
  {
    if c > 0 {
      assert path[0] == path[..c][0] == path'[..c][0] == path'[0];
      assert path[1..][..c - 1] == path[..c][1..] == path'[..c][1..] == path'[1..][..c - 1];
      MissingBeside(mem, Base(Read(mem, f, path[0])), path[1..], path'[1..], c - 1);
    }
  }

  lemma NextQuotient(q: nat)
    ensures (q + 1) / 512 == q / 512 + if (q + 1) % 512 == 0 then 1 else 0
  {}

  // ----- mapping along a chain of neighbours -----

  /** The path shares all but the last cost + 1 indices with its neighbour. */
  ghost predicate Near(path: Path, path': Path, cost: nat) {
    |path| == |path'| && cost < |path| && path[..|path| - 1 - cost] == path'[..|path| - 1 - cost]
  }

  /** Each page is near the one before it. */
  ghost predicate Chain(before: Path, pages: seq<Path>, costs: seq<nat>)
    decreases |pages|
  {
    |pages| == |costs| && (pages == [] || (Near(before, pages[0], costs[0]) && Chain(pages[0], pages[1..], costs[1..])))
  }

  function Sum(costs: seq<nat>): nat
    decreases |costs|
  {
    if costs == [] then 0 else costs[0] + Sum(costs[1..])
  }

  lemma MissingNear(mem: Memory, f: Frame, path: Path, path': Path, cost: nat)
    requires path != [] && Near(path, path', cost) && LastTable(mem, f, path).Some?
    ensures path' != [] && Missing(mem, f, path') <= cost
  {
    MissingBeside(mem, f, path, path', |path| - 1 - cost);
  }

  function PagesIn(reqs: seq<Request>): seq<Path> {
    seq(|reqs|, k requires 0 <= k < |reqs| => reqs[k].page)
  }

  ghost predicate AllOk(st: State, depth: nat, root: Frame, reqs: seq<Request>) {
    && Valid(st, depth) && IsRoot(st, root)
    && (forall k :: 0 <= k < |reqs| ==> reqs[k].page != [] && RequestOk(st.labels, depth, root, reqs[k]))
  }

  lemma AfterFirst(st: State, depth: nat, root: Frame, reqs: seq<Request>)
    requires AllOk(st, depth, root, reqs) && reqs != [] && |st.supply| >= Missing(st.mem, root, reqs[0].page)
    ensures var st1 := MapPath(st, root, reqs[0].page, reqs[0].user, reqs[0].leaf);
      && AllOk(st1, depth, root, reqs[1..]) && LastTable(st1.mem, root, reqs[0].page).Some?
      && |st1.supply| == |st.supply| - Missing(st.mem, root, reqs[0].page)
  {
    var req := reqs[0];
    assert RequestOk(st.labels, depth, root, req);
    MapKeepsValid(st, depth, root, req.page, req.user, req.leaf);
    MapTakesFromSupply(st, depth, root, req.page, req.user, req.leaf);
    var st1 := MapPath(st, root, req.page, req.user, req.leaf);
    forall k | 0 <= k < |reqs[1..]|
      ensures reqs[1..][k].page != [] && RequestOk(st1.labels, depth, root, reqs[1..][k])
    {
      assert RequestOk(st.labels, depth, root, reqs[k + 1]);
    }
  }

  lemma {:induction false} EnoughAlong(st: State, depth: nat, root: Frame, reqs: seq<Request>, before: Path,
                                       costs: seq<nat>)
    requires AllOk(st, depth, root, reqs) && Chain(before, PagesIn(reqs), costs) && |st.supply| >= Sum(costs)
    requires before != [] && LastTable(st.mem, root, before).Some?
    ensures Enough(st, root, reqs)
    decreases |reqs|
  {
    if reqs != [] {
      var page := reqs[0].page;
      assert PagesIn(reqs)[0] == page && PagesIn(reqs)[1..] == PagesIn(reqs[1..]);
      MissingNear(st.mem, root, before, page, costs[0]);
      AfterFirst(st, depth, root, reqs);
      EnoughAlong(MapPath(st, root, page, reqs[0].user, reqs[0].leaf), depth, root, reqs[1..], page, costs[1..]);
    }
  }

  lemma EnoughFromFirst(st: State, depth: nat, root: Frame, reqs: seq<Request>, costs: seq<nat>)
    requires AllOk(st, depth, root, reqs) && reqs != [] && Chain(PagesIn(reqs)[0], PagesIn(reqs)[1..], costs)
    requires |st.supply| >= depth - 1 + Sum(costs)
    ensures Enough(st, root, reqs)
  {
    var page := reqs[0].page;
    assert |page| == depth by { assert RequestOk(st.labels, depth, root, reqs[0]); }
    assert PagesIn(reqs)[1..] == PagesIn(reqs[1..]);
    AfterFirst(st, depth, root, reqs);
    EnoughAlong(MapPath(st, root, page, reqs[0].user, reqs[0].leaf), depth, root, reqs[1..], page, costs);
  }

  // ----- consecutive pages -----

  function Begun(depth: nat, q: nat): nat {
    GroupsGrow(depth, q, q + 1);
    Groups(depth, q + 1) - Groups(depth, q)
  }

  lemma GroupsGrow(depth: nat, p: nat, q: nat)
    requires p <= q
    ensures Groups(depth, p) <= Groups(depth, q)
  {
    assert p / 512 <= q / 512;
    assert p / 512 / 512 <= q / 512 / 512;
  }

  lemma NextIsNear(depth: nat, q: nat)
    requires depth in {3, 4}
    ensures Near(NumberPath(depth, q), NumberPath(depth, q + 1), Begun(depth, q))
  {
    NextQuotient(q);
    NextQuotient(q / 512);
    NextQuotient(q / 512 / 512);
    var p, p' := NumberPath(depth, q), NumberPath(depth, q + 1);
    var c := Begun(depth, q);
    assert c <= depth - 1;
    assert p[..depth - 1 - c] == p'[..depth - 1 - c];
  }

  /** The n pages after page q. */
  function PagesAfter(depth: nat, q: nat, n: nat): (pages: seq<Path>)
    ensures |pages| == n
    decreases n
  {
    if n == 0 then [] else [NumberPath(depth, q + 1)] + PagesAfter(depth, q + 1, n - 1)
  }

  function CostsAfter(depth: nat, q: nat, n: nat): (costs: seq<nat>)
    ensures |costs| == n
    decreases n
  {
    if n == 0 then [] else [Begun(depth, q)] + CostsAfter(depth, q + 1, n - 1)
  }

  lemma {:induction false} ConsecutiveIsChain(depth: nat, q: nat, n: nat)
    requires depth in {3, 4}
    ensures Chain(NumberPath(depth, q), PagesAfter(depth, q, n), CostsAfter(depth, q, n))
    decreases n
  {
    if n > 0 {
      NextIsNear(depth, q);
      ConsecutiveIsChain(depth, q + 1, n - 1);
      var page, pages, costs := NumberPath(depth, q + 1), PagesAfter(depth, q + 1, n - 1),
        CostsAfter(depth, q + 1, n - 1);
      ChainCons(NumberPath(depth, q), page, pages, Begun(depth, q), costs);
    }
  }

  lemma ChainCons(before: Path, page: Path, pages: seq<Path>, cost: nat, costs: seq<nat>)
    requires Near(before, page, cost) && Chain(page, pages, costs)
    ensures Chain(before, [page] + pages, [cost] + costs)
  {
    assert ([page] + pages)[1..] == pages && ([cost] + costs)[1..] == costs;
  }

  lemma {:induction false} SumOfCosts(depth: nat, q: nat, n: nat)
    ensures Sum(CostsAfter(depth, q, n)) == Groups(depth, q + n) - Groups(depth, q)
    decreases n
  {
    if n > 0 {
      SumOfCosts(depth, q + 1, n - 1);
      var costs := CostsAfter(depth, q + 1, n - 1);
      assert ([Begun(depth, q)] + costs)[1..] == costs;
      assert q + 1 + (n - 1) == q + n;
    }
  }

  lemma {:induction false} PagesAfterAt(depth: nat, q: nat, n: nat, k: nat)
    requires k < n
    ensures PagesAfter(depth, q, n)[k] == NumberPath(depth, q + 1 + k)
    decreases n
  {
    if k > 0 { PagesAfterAt(depth, q + 1, n - 1, k - 1); }
  }

  /** The pages are the consecutive ones from page q on. */
  ghost predicate Consecutive(depth: nat, pages: seq<Path>, q: nat) {
    forall k :: 0 <= k < |pages| ==> pages[k] == NumberPath(depth, q + k)
  }

  lemma ConsecutiveRest(depth: nat, pages: seq<Path>, q: nat)
    requires pages != [] && Consecutive(depth, pages, q)
    ensures pages[1..] == PagesAfter(depth, q, |pages| - 1)
  {
    var rest, after := pages[1..], PagesAfter(depth, q, |pages| - 1);
    forall k | 0 <= k < |rest| ensures rest[k] == after[k] {
      PagesAfterAt(depth, q, |rest|, k);
      assert pages[k + 1] == NumberPath(depth, q + (k + 1));
    }
  }

  lemma ConsecutiveCosts(depth: nat, pages: seq<Path>, q: nat) returns (costs: seq<nat>)
    requires depth in {3, 4} && pages != [] && Consecutive(depth, pages, q)
    ensures Chain(pages[0], pages[1..], costs) && depth - 1 + Sum(costs) == TableBound(depth, q, |pages|)
  {
    var n := |pages| - 1;
    costs := CostsAfter(depth, q, n);
    ConsecutiveRest(depth, pages, q);
    ConsecutiveIsChain(depth, q, n);
    SumOfCosts(depth, q, n);
    assert pages[0] == NumberPath(depth, q + 0);
  }

  /** For n consecutive pages, depth - 1 frames and one for each table begun on the way are enough. */
  lemma BoundIsEnough(st: State, depth: nat, root: Frame, reqs: seq<Request>, q: nat)
    requires depth in {3, 4} && AllOk(st, depth, root, reqs) && Consecutive(depth, PagesIn(reqs), q)
    requires |st.supply| >= TableBound(depth, q, |reqs|)
    ensures Enough(st, root, reqs)
  {
    if reqs != [] {
      var costs := ConsecutiveCosts(depth, PagesIn(reqs), q);
      EnoughFromFirst(st, depth, root, reqs, costs);
    }
  }

  /** The bound in round numbers. */
  lemma TableBoundRounded(depth: nat, q: nat, n: nat)
    requires depth in {3, 4}
    ensures TableBound(depth, q, n) <= n / 512 + n / 512 / 512 + n / 512 / 512 / 512 + 6
  {
    if n > 0 {
      var q1, q2, q3 := q / 512, q / 512 / 512, q / 512 / 512 / 512;
      var a := QuotientDifference(q, n - 1, n);
      var b := QuotientDifference(q1, a, n / 512 + 1);
      var c := QuotientDifference(q2, b, n / 512 / 512 + 1);
    }
  }

  /** Quotients of numbers that are at most n apart. */
  lemma QuotientDifference(q: nat, d: nat, n: nat) returns (a: nat)
    requires d <= n
    ensures a == (q + d) / 512 - q / 512 && a <= n / 512 + 1
  {
    a := (q + d) / 512 - q / 512;
  }
}
