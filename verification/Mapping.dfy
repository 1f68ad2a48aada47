/** Mapping and unmapping a page as state transformers, and what they do to every translation. */
module Mapping {
  import opened PageTable

  /** Memory, the frames the physical allocator will hand out next, and where each table hangs. */
  datatype State = State(mem: Memory, supply: seq<Frame>, labels: Labels)

  ghost predicate FreshFrames(st: State) {
    && (forall k :: 0 <= k < |st.supply| ==>
          st.supply[k] !in st.labels && Aligned(st.supply[k]) && IsTable(st.mem, st.supply[k]))
    && (forall j, k :: 0 <= j < k < |st.supply| ==> st.supply[j] != st.supply[k])
  }

  ghost predicate Valid(st: State, depth: nat) {
    WellFormed(st.mem, st.labels, depth) && FreshFrames(st)
  }

  /** The entry written for a page: huge-page entries carry the huge bit when they are present. */
  ghost predicate LeafFits(depth: nat, leaf: Word) {
    Present(leaf) && depth == 3 ==> Large(leaf)
  }

  ghost function AsLeaf(leaf: Word): Option<Word> {
    if Present(leaf) then Some(leaf) else None
  }

  // ----- mapping -----

  ghost function LinkNext(st: State, f: Frame, i: nat, user: nat): State
    requires st.supply != [] && f in st.labels
  {
    var n := st.supply[0];
    State(Linked(st.mem, f, i, n, user), st.supply[1..],
          st.labels[n := Label(f, st.labels[f].prefix + [i])])
  }

  /** Follow `path` from table f, creating the missing tables, and fill the leaf if it is absent. */
  ghost function MapPath(st: State, f: Frame, path: Path, user: nat, leaf: Word): State
    requires path != []
    decreases |path|
  {
    var e := Read(st.mem, f, path[0]);
    if |path| == 1 then
      if Present(e) then st else st.(mem := Write(st.mem, f, path[0], leaf))
    else if Present(e) then
      MapPath(st, Base(e), path[1..], user, leaf)
    else if st.supply == [] || f !in st.labels then
      st
    else
      MapPath(LinkNext(st, f, path[0], user), st.supply[0], path[1..], user, leaf)
  }

  /** How many tables are missing on the way to the leaf of `path`. */
  function Missing(mem: Memory, f: Frame, path: Path): (n: nat)
    requires path != []
    ensures n < |path|
    decreases |path|
  {
    if |path| == 1 then 0
    else
      var e := Read(mem, f, path[0]);
      if Present(e) then Missing(mem, Base(e), path[1..]) else |path| - 1
  }

  /** Mapping needs a frame for each missing table and no more. */
  ghost predicate CanMap(st: State, depth: nat, f: Frame, path: Path, user: nat, leaf: Word) {
    && Valid(st, depth)
    && LeadsToLeaf(st.labels, depth, f, path)
    && |st.supply| >= Missing(st.mem, f, path)
    && user in {0, USER_LEVEL}
    && LeafFits(depth, leaf)
  }

  /** The state after the first missing table on a path has been linked can map the rest. */
  lemma LinkNextCanMap(st: State, depth: nat, f: Frame, path: Path, user: nat, leaf: Word)
    requires CanMap(st, depth, f, path, user, leaf)
    requires |path| > 1 && !Present(Read(st.mem, f, path[0]))
    ensures CanLink(st.mem, st.labels, depth, f, path[0], st.supply[0], user)
    ensures CanMap(LinkNext(st, f, path[0], user), depth, st.supply[0], path[1..], user, leaf)
  {
    var n := st.supply[0];
    LinkKeepsWellFormed(st.mem, st.labels, depth, f, path[0], n, user);
    var st1 := LinkNext(st, f, path[0], user);
    assert TableOk(st.mem, st.labels, depth, f);
    forall k | 0 <= k < |st1.supply|
      ensures st1.supply[k] !in st1.labels && Aligned(st1.supply[k]) && IsTable(st1.mem, st1.supply[k])
    {
      assert st1.supply[k] == st.supply[k + 1];
    }
  }

  lemma {:induction false} MapKeepsValid(st: State, depth: nat, f: Frame, path: Path, user: nat, leaf: Word)
    requires CanMap(st, depth, f, path, user, leaf)
    ensures var st1 := MapPath(st, f, path, user, leaf);
      && Valid(st1, depth)
      && (forall g :: g in st.labels ==> g in st1.labels && st1.labels[g] == st.labels[g])
      && (forall g, i :: Present(Read(st.mem, g, i)) && g in st.labels ==> Read(st1.mem, g, i) == Read(st.mem, g, i))
      && LastTable(st1.mem, f, path).Some?
    decreases |path|
  {
    var e := Read(st.mem, f, path[0]);
    if |path| == 1 {
      if !Present(e) {
        assert TableOk(st.mem, st.labels, depth, f);
        LeafWriteKeepsWellFormed(st.mem, st.labels, depth, f, path[0], leaf);
      }
    } else if Present(e) {
      StepDown(st.mem, st.labels, depth, f, path);
      MapKeepsValid(st, depth, Base(e), path[1..], user, leaf);
    } else {
      LinkNextCanMap(st, depth, f, path, user, leaf);
      var st0 := LinkNext(st, f, path[0], user);
      MapKeepsValid(st0, depth, st.supply[0], path[1..], user, leaf);
      TableEntryFields(st.supply[0], user);
      assert TableOk(st.mem, st.labels, depth, f);
      assert Read(st0.mem, f, path[0]) == TableEntry(st.supply[0], user);
      forall g, i | Present(Read(st.mem, g, i)) && g in st.labels
        ensures Read(MapPath(st, f, path, user, leaf).mem, g, i) == Read(st.mem, g, i)
      {
        assert Read(st0.mem, g, i) == Read(st.mem, g, i);
      }
    }
  }

  /** New tables live in frames of the supply. */
  lemma {:induction false} MapLabelsFromSupply(st: State, depth: nat, f: Frame, path: Path, user: nat, leaf: Word)
    requires CanMap(st, depth, f, path, user, leaf)
    ensures forall g :: g in MapPath(st, f, path, user, leaf).labels ==> g in st.labels || g in st.supply
    decreases |path|
  {
    if |path| > 1 {
      var e := Read(st.mem, f, path[0]);
      if Present(e) {
        StepDown(st.mem, st.labels, depth, f, path);
        MapLabelsFromSupply(st, depth, Base(e), path[1..], user, leaf);
      } else {
        LinkNextCanMap(st, depth, f, path, user, leaf);
        MapLabelsFromSupply(LinkNext(st, f, path[0], user), depth, st.supply[0], path[1..], user, leaf);
      }
    }
  }

  /** Mapping takes its new tables from the front of the supply, one for each missing table. */
  lemma {:induction false} MapTakesFromSupply(st: State, depth: nat, f: Frame, path: Path, user: nat, leaf: Word)
    requires CanMap(st, depth, f, path, user, leaf)
    ensures MapPath(st, f, path, user, leaf).supply == st.supply[Missing(st.mem, f, path)..]
    decreases |path|
  {
    if |path| == 1 {
      assert st.supply == st.supply[0..];
    } else {
      var e := Read(st.mem, f, path[0]);
      if Present(e) {
        StepDown(st.mem, st.labels, depth, f, path);
        MapTakesFromSupply(st, depth, Base(e), path[1..], user, leaf);
      } else {
        LinkNextCanMap(st, depth, f, path, user, leaf);
        var st0 := LinkNext(st, f, path[0], user);
        MapTakesFromSupply(st0, depth, st.supply[0], path[1..], user, leaf);
        assert TableOk(st.mem, st.labels, depth, f);
        assert Read(st0.mem, st.supply[0], path[1]) == 0;
        var k := |path| - 2;
        assert st0.supply[k..] == st.supply[k + 1..];
      }
    }
  }

  /** The walk of s from g ends in the leaf of `path` from f, which was absent, and reads what was written;
      or it is what it was. */
  ghost predicate WalkAfter(st: State, st1: State, f: Frame, path: Path, leaf: Word, g: Frame, s: Path)
    requires path != [] && s != []
  {
    Walk(st1.mem, g, s) ==
      if && Walk(st.mem, f, path).None?
         && LastTable(st1.mem, g, s) == LastTable(st1.mem, f, path) && Last(s) == Last(path)
      then AsLeaf(leaf)
      else Walk(st.mem, g, s)
  }

  /** Mapping changes the translations that end in the mapped leaf, and only if that leaf was absent. */
  lemma {:induction false} MapWalks(st: State, depth: nat, f: Frame, path: Path, user: nat, leaf: Word, g: Frame,
                                    s: Path)
    requires CanMap(st, depth, f, path, user, leaf)
    requires LeadsToLeaf(st.labels, depth, g, s)
    ensures WalkAfter(st, MapPath(st, f, path, user, leaf), f, path, leaf, g, s)
    decreases |path|
  {
    var e := Read(st.mem, f, path[0]);
    if |path| == 1 {
      if !Present(e) { LeafWriteWalks(st.mem, st.labels, depth, f, path[0], leaf, g, s); }
    } else if Present(e) {
      StepDown(st.mem, st.labels, depth, f, path);
      MapWalks(st, depth, Base(e), path[1..], user, leaf, g, s);
      PresentWalks(st, depth, f, path, user, leaf, g, s);
    } else {
      LinkNextCanMap(st, depth, f, path, user, leaf);
      MapWalks(LinkNext(st, f, path[0], user), depth, st.supply[0], path[1..], user, leaf, g, s);
      LinkedWalks(st, depth, f, path, user, leaf, g, s);
    }
  }

  lemma PresentWalks(st: State, depth: nat, f: Frame, path: Path, user: nat, leaf: Word, g: Frame, s: Path)
    requires CanMap(st, depth, f, path, user, leaf) && LeadsToLeaf(st.labels, depth, g, s)
    requires |path| > 1 && Present(Read(st.mem, f, path[0]))
    requires var st1 := MapPath(st, f, path, user, leaf);
      WalkAfter(st, st1, Base(Read(st.mem, f, path[0])), path[1..], leaf, g, s)
    ensures WalkAfter(st, MapPath(st, f, path, user, leaf), f, path, leaf, g, s)
  {
    MapKeepsValid(st, depth, f, path, user, leaf);
    assert Read(MapPath(st, f, path, user, leaf).mem, f, path[0]) == Read(st.mem, f, path[0]);
  }

  lemma LinkedWalks(st: State, depth: nat, f: Frame, path: Path, user: nat, leaf: Word, g: Frame, s: Path)
    requires CanMap(st, depth, f, path, user, leaf) && LeadsToLeaf(st.labels, depth, g, s)
    requires |path| > 1 && !Present(Read(st.mem, f, path[0])) && st.supply != []
    requires var st0 := LinkNext(st, f, path[0], user);
      WalkAfter(st0, MapPath(st, f, path, user, leaf), st.supply[0], path[1..], leaf, g, s)
    ensures WalkAfter(st, MapPath(st, f, path, user, leaf), f, path, leaf, g, s)
  {
    LinkNextCanMap(st, depth, f, path, user, leaf);
    LinkKeepsWalks(st.mem, st.labels, depth, f, path[0], st.supply[0], user, g, s);
    LinkedFirst(st, depth, f, path, user, leaf);
  }

  /** Behind a table that had to be linked nothing was mapped, and the path goes on through it. */
  lemma LinkedFirst(st: State, depth: nat, f: Frame, path: Path, user: nat, leaf: Word)
    requires CanMap(st, depth, f, path, user, leaf)
    requires |path| > 1 && !Present(Read(st.mem, f, path[0]))
    ensures var st0, st1 := LinkNext(st, f, path[0], user), MapPath(st, f, path, user, leaf);
      && Walk(st0.mem, st.supply[0], path[1..]).None?
      && LastTable(st1.mem, f, path) == LastTable(st1.mem, st.supply[0], path[1..])
  {
    var n, st0 := st.supply[0], LinkNext(st, f, path[0], user);
    LinkNextCanMap(st, depth, f, path, user, leaf);
    MapKeepsValid(st0, depth, n, path[1..], user, leaf);
    TableEntryFields(n, user);
    assert TableOk(st.mem, st.labels, depth, f);
    assert Read(st0.mem, f, path[0]) == TableEntry(n, user);
    assert Read(st0.mem, n, path[1]) == 0;
  }

  /** Mapping a page that is already mapped changes nothing at all. */
  lemma {:induction false} MapOfMappedIsNoop(st: State, f: Frame, path: Path, user: nat, leaf: Word)
    requires path != [] && Walk(st.mem, f, path).Some?
    ensures MapPath(st, f, path, user, leaf) == st
    decreases |path|
  {
    if |path| > 1 {
      MapOfMappedIsNoop(st, Base(Read(st.mem, f, path[0])), path[1..], user, leaf);
    }
  }

  // ----- unmapping -----

  /** Clear the leaf entry of `path` if every level is present. */
  ghost function UnmapPath(st: State, f: Frame, path: Path): State
    requires path != []
    decreases |path|
  {
    var e := Read(st.mem, f, path[0]);
    if !Present(e) then st
    else if |path| == 1 then st.(mem := Write(st.mem, f, path[0], 0))
    else UnmapPath(st, Base(e), path[1..])
  }

  lemma {:induction false} UnmapIsLeafWrite(st: State, f: Frame, path: Path)
    requires path != []
    ensures Walk(st.mem, f, path).Some? ==> LastTable(st.mem, f, path).Some?
    ensures UnmapPath(st, f, path) ==
      if Walk(st.mem, f, path).None? then st
      else st.(mem := Write(st.mem, LastTable(st.mem, f, path).value, Last(path), 0))
    decreases |path|
  {
    if |path| > 1 && Present(Read(st.mem, f, path[0])) {
      UnmapIsLeafWrite(st, Base(Read(st.mem, f, path[0])), path[1..]);
    }
  }

  /** Unmapping removes the translations that end in the unmapped leaf and keeps all others. */
  lemma UnmapWalks(st: State, depth: nat, f: Frame, path: Path, g: Frame, s: Path)
    requires Valid(st, depth) && LeadsToLeaf(st.labels, depth, f, path) && LeadsToLeaf(st.labels, depth, g, s)
    ensures var st1 := UnmapPath(st, f, path);
      && LastTable(st1.mem, g, s) == LastTable(st.mem, g, s)
      && Walk(st1.mem, g, s) ==
        if LastTable(st.mem, g, s) == LastTable(st.mem, f, path) && Last(s) == Last(path) then None
        else Walk(st.mem, g, s)
  {
    UnmapIsLeafWrite(st, f, path);
    WalkIsLastTableRead(st.mem, g, s);
    WalkIsLastTableRead(st.mem, f, path);
    if Walk(st.mem, f, path).Some? {
      LastTableLabel(st.mem, st.labels, depth, f, path);
      LeafWriteWalks(st.mem, st.labels, depth, LastTable(st.mem, f, path).value, Last(path), 0, g, s);
    }
  }

  lemma UnmapKeepsValid(st: State, depth: nat, f: Frame, path: Path)
    requires Valid(st, depth) && LeadsToLeaf(st.labels, depth, f, path)
    ensures Valid(UnmapPath(st, f, path), depth)
    ensures UnmapPath(st, f, path).labels == st.labels && UnmapPath(st, f, path).supply == st.supply
  {
    UnmapIsLeafWrite(st, f, path);
    if Walk(st.mem, f, path).Some? {
      LastTableLabel(st.mem, st.labels, depth, f, path);
      var t := LastTable(st.mem, f, path).value;
      assert TableOk(st.mem, st.labels, depth, t);
      LeafWriteKeepsWellFormed(st.mem, st.labels, depth, t, Last(path), 0);
    }
  }

  // ----- translations of one root as a partial map from pages to frames -----

  ghost predicate IsRoot(st: State, r: Frame) {
    r in st.labels && st.labels[r].prefix == []
  }

  /** The frame a page of root r translates to. */
  ghost function Translate(st: State, r: Frame, page: Path): Option<Frame>
    requires page != []
  {
    match Walk(st.mem, r, page)
    case None => None
    case Some(e) => Some(Base(e))
  }

  /** Two roots resolve `page` through the same subtree: they are the same root, or their entries
      for it point to the same table. */
  ghost predicate Shares(st: State, r: Frame, r': Frame, page: Path)
    requires page != []
  {
    var e, e' := Read(st.mem, r, page[0]), Read(st.mem, r', page[0]);
    r == r' || (Present(e) && Present(e') && Base(e) == Base(e'))
  }

  /** Only higher-half pages can be shared between different roots. */
  lemma SharedIsHigherHalf(st: State, depth: nat, r: Frame, r': Frame, page: Path)
    requires Valid(st, depth) && IsRoot(st, r) && IsRoot(st, r')
    requires LeadsToLeaf(st.labels, depth, r, page) && LeadsToLeaf(st.labels, depth, r', page)
    requires Shares(st, r, r', page) && page[0] < LOWER_HALF
    ensures r == r'
  {
    assert LinkOk(st.mem, st.labels, depth, r, page[0]) && LinkOk(st.mem, st.labels, depth, r', page[0]);
  }

  /** Two paths from roots end in the same leaf entry exactly if they are the same page of roots
      that share it. */
  lemma SameLeafIffShared(st: State, depth: nat, r: Frame, page: Path, r': Frame, page': Path)
    requires Valid(st, depth) && IsRoot(st, r) && IsRoot(st, r')
    requires LeadsToLeaf(st.labels, depth, r, page) && LeadsToLeaf(st.labels, depth, r', page')
    requires LastTable(st.mem, r, page).Some?
    ensures LastTable(st.mem, r', page') == LastTable(st.mem, r, page) && Last(page') == Last(page)
            <==> page' == page && Shares(st, r, r', page)
  {
    if LastTable(st.mem, r', page') == LastTable(st.mem, r, page) && Last(page') == Last(page) {
      LastTableLabel(st.mem, st.labels, depth, r, page);
      LastTableLabel(st.mem, st.labels, depth, r', page');
      var n := |page| - 1;
      assert [] + page[..n] == page[..n] && [] + page'[..n] == page'[..n];
      assert page == page[..n] + [Last(page)];
      assert page' == page'[..n] + [Last(page')];
      LastTableAbove(st.mem, st.labels, depth, r, page);
      LastTableAbove(st.mem, st.labels, depth, r', page');
    }
  }

  /** Mapping leaves the tables beside and above the table it starts from alone. */
  lemma {:induction false} MapWritesBelow(st: State, depth: nat, f: Frame, path: Path, user: nat, leaf: Word, g: Frame,
                                          i: nat)
    requires CanMap(st, depth, f, path, user, leaf)
    requires g in st.labels && |st.labels[g].prefix| <= |st.labels[f].prefix| && (g != f || i != path[0])
    ensures Read(MapPath(st, f, path, user, leaf).mem, g, i) == Read(st.mem, g, i)
    decreases |path|
  {
    if |path| > 1 {
      var e := Read(st.mem, f, path[0]);
      if Present(e) {
        StepDown(st.mem, st.labels, depth, f, path);
        MapWritesBelow(st, depth, Base(e), path[1..], user, leaf, g, i);
      } else {
        LinkNextCanMap(st, depth, f, path, user, leaf);
        MapWritesBelow(LinkNext(st, f, path[0], user), depth, st.supply[0], path[1..], user, leaf, g, i);
      }
    }
  }

  /** A missing table is filled by the next frame of the supply. */
  lemma MapLinksSupply(st: State, depth: nat, f: Frame, path: Path, user: nat, leaf: Word)
    requires CanMap(st, depth, f, path, user, leaf)
    requires |path| > 1 && !Present(Read(st.mem, f, path[0]))
    ensures Read(MapPath(st, f, path, user, leaf).mem, f, path[0]) == TableEntry(st.supply[0], user)
  {
    LinkNextCanMap(st, depth, f, path, user, leaf);
    var st0 := LinkNext(st, f, path[0], user);
    MapWritesBelow(st0, depth, st.supply[0], path[1..], user, leaf, f, path[0]);
    assert TableOk(st.mem, st.labels, depth, f);
  }

  /** Mapping a page neither adds nor removes roots that share it. */
  lemma MapKeepsSharing(st: State, depth: nat, r: Frame, page: Path, user: nat, leaf: Word, r': Frame)
    requires CanMap(st, depth, r, page, user, leaf) && IsRoot(st, r) && IsRoot(st, r')
    ensures Shares(MapPath(st, r, page, user, leaf), r, r', page) == Shares(st, r, r', page)
  {
    if r != r' {
      MapKeepsValid(st, depth, r, page, user, leaf);
      MapWritesBelow(st, depth, r, page, user, leaf, r', page[0]);
      if !Present(Read(st.mem, r, page[0])) {
        MapLinksSupply(st, depth, r, page, user, leaf);
        TableEntryFields(st.supply[0], user);
        assert LinkOk(st.mem, st.labels, depth, r', page[0]);
      }
    }
  }

  /** Mapping an unmapped page in root r adds exactly that page to the translations of r and of the
      roots that share it; every other translation of every root is unchanged. Mapping a mapped
      page changes no translation. */
  lemma MapRefinesUpdate(st: State, depth: nat, r: Frame, page: Path, user: nat, leaf: Word, r': Frame, page': Path)
    requires CanMap(st, depth, r, page, user, leaf) && IsRoot(st, r)
    requires IsRoot(st, r') && LeadsToLeaf(st.labels, depth, r', page')
    ensures Walk(MapPath(st, r, page, user, leaf).mem, r', page') ==
      if page' == page && Shares(st, r, r', page) && Walk(st.mem, r, page).None? then AsLeaf(leaf)
      else Walk(st.mem, r', page')
  {
    var st1 := MapPath(st, r, page, user, leaf);
    MapKeepsValid(st, depth, r, page, user, leaf);
    MapWalks(st, depth, r, page, user, leaf, r', page');
    SameLeafIffShared(st1, depth, r, page, r', page');
    MapKeepsSharing(st, depth, r, page, user, leaf, r');
  }

  /** Unmapping removes exactly that page from r and from the roots that share it. */
  lemma UnmapRefinesRemoval(st: State, depth: nat, r: Frame, page: Path, r': Frame, page': Path)
    requires Valid(st, depth) && IsRoot(st, r) && LeadsToLeaf(st.labels, depth, r, page)
    requires IsRoot(st, r') && LeadsToLeaf(st.labels, depth, r', page')
    ensures Walk(UnmapPath(st, r, page).mem, r', page') ==
      if page' == page && Shares(st, r, r', page) then None else Walk(st.mem, r', page')
  {
    UnmapWalks(st, depth, r, page, r', page');
    WalkIsLastTableRead(st.mem, r', page');
    if LastTable(st.mem, r, page).Some? {
      SameLeafIffShared(st, depth, r, page, r', page');
    } else if page' == page && Shares(st, r, r', page) {
      assert LastTable(st.mem, r', page) == LastTable(st.mem, r, page);
    }
  }

  /** Unmapping a page straight after mapping it restores every translation of every root. */
  lemma UnmapUndoesMap(st: State, depth: nat, r: Frame, page: Path, user: nat, leaf: Word, r': Frame, page': Path)
    requires CanMap(st, depth, r, page, user, leaf) && IsRoot(st, r)
    requires IsRoot(st, r') && LeadsToLeaf(st.labels, depth, r', page')
    requires Walk(st.mem, r, page).None?
    ensures Walk(UnmapPath(MapPath(st, r, page, user, leaf), r, page).mem, r', page') == Walk(st.mem, r', page')
  {
    MapKeepsValid(st, depth, r, page, user, leaf);
    MapKeepsSharing(st, depth, r, page, user, leaf, r');
    MapRefinesUpdate(st, depth, r, page, user, leaf, r', page');
    UnmapRefinesRemoval(MapPath(st, r, page, user, leaf), depth, r, page, r', page');
  }

  // ----- mapping a list of pages -----

  datatype Request = Request(page: Path, user: nat, leaf: Word)

  ghost function MapAll(st: State, root: Frame, reqs: seq<Request>): State
    requires forall k :: 0 <= k < |reqs| ==> reqs[k].page != []
    decreases |reqs|
  {
    if reqs == [] then st
    else MapAll(MapPath(st, root, reqs[0].page, reqs[0].user, reqs[0].leaf), root, reqs[1..])
  }

  ghost predicate RequestOk(labels: Labels, depth: nat, root: Frame, req: Request) {
    LeadsToLeaf(labels, depth, root, req.page) && req.user in {0, USER_LEVEL} && LeafFits(depth, req.leaf)
  }

  /** Each request finds a frame for every table that is missing when its turn comes. */
  ghost predicate Enough(st: State, root: Frame, reqs: seq<Request>)
    requires forall k :: 0 <= k < |reqs| ==> reqs[k].page != []
    decreases |reqs|
  {
    reqs == [] ||
    (&& |st.supply| >= Missing(st.mem, root, reqs[0].page)
     && Enough(MapPath(st, root, reqs[0].page, reqs[0].user, reqs[0].leaf), root, reqs[1..]))
  }

  ghost predicate CanMapAll(st: State, depth: nat, root: Frame, reqs: seq<Request>) {
    && Valid(st, depth) && IsRoot(st, root)
    && (forall k :: 0 <= k < |reqs| ==> reqs[k].page != []) && Enough(st, root, reqs)
    && forall k :: 0 <= k < |reqs| ==> RequestOk(st.labels, depth, root, reqs[k])
  }

  lemma MapFirst(st: State, depth: nat, root: Frame, reqs: seq<Request>)
    requires CanMapAll(st, depth, root, reqs) && reqs != []
    ensures CanMap(st, depth, root, reqs[0].page, reqs[0].user, reqs[0].leaf)
    ensures var st1 := MapPath(st, root, reqs[0].page, reqs[0].user, reqs[0].leaf);
      && CanMapAll(st1, depth, root, reqs[1..])
      && (forall r :: IsRoot(st, r) ==> IsRoot(st1, r))
      && (forall g :: g in st.labels ==> g in st1.labels && st1.labels[g] == st.labels[g])
  {
    var req := reqs[0];
    assert RequestOk(st.labels, depth, root, req);
    MapKeepsValid(st, depth, root, req.page, req.user, req.leaf);
    var st1 := MapPath(st, root, req.page, req.user, req.leaf);
    forall k | 0 <= k < |reqs[1..]| ensures RequestOk(st1.labels, depth, root, reqs[1..][k]) {
      assert RequestOk(st.labels, depth, root, reqs[k + 1]);
    }
  }

  lemma {:induction false} MapAllKeepsValid(st: State, depth: nat, root: Frame, reqs: seq<Request>)
    requires CanMapAll(st, depth, root, reqs)
    ensures Valid(MapAll(st, root, reqs), depth)
    ensures forall r :: IsRoot(st, r) ==> IsRoot(MapAll(st, root, reqs), r)
    decreases |reqs|
  {
    if reqs != [] {
      MapFirst(st, depth, root, reqs);
      MapAllKeepsValid(MapPath(st, root, reqs[0].page, reqs[0].user, reqs[0].leaf), depth, root, reqs[1..]);
    }
  }

  /** Mapping a list of pages keeps the tree valid and every translation that the list does not name. */
  lemma {:induction false} MapAllKeepsOthers(st: State, depth: nat, root: Frame, reqs: seq<Request>, r: Frame,
                                             page: Path)
    requires CanMapAll(st, depth, root, reqs)
    requires IsRoot(st, r) && LeadsToLeaf(st.labels, depth, r, page)
    requires forall k :: 0 <= k < |reqs| ==> reqs[k].page != page
    ensures var st1 := MapAll(st, root, reqs);
      Valid(st1, depth) && IsRoot(st1, r) && Walk(st1.mem, r, page) == Walk(st.mem, r, page)
    decreases |reqs|
  {
    if reqs != [] {
      var req := reqs[0];
      MapFirst(st, depth, root, reqs);
      MapRefinesUpdate(st, depth, root, req.page, req.user, req.leaf, r, page);
      MapAllKeepsOthers(MapPath(st, root, req.page, req.user, req.leaf), depth, root, reqs[1..], r, page);
    }
  }

  /** Each page of a list without repetitions that was unmapped gets the leaf asked for. */
  lemma {:induction false} MapAllMaps(st: State, depth: nat, root: Frame, reqs: seq<Request>, k: nat)
    requires CanMapAll(st, depth, root, reqs) && k < |reqs|
    requires forall i, j :: 0 <= i < j < |reqs| ==> reqs[i].page != reqs[j].page
    requires Walk(st.mem, root, reqs[k].page).None?
    ensures Walk(MapAll(st, root, reqs).mem, root, reqs[k].page) == AsLeaf(reqs[k].leaf)
    decreases |reqs|
  {
    var req := reqs[0];
    var st1 := MapPath(st, root, req.page, req.user, req.leaf);
    MapFirst(st, depth, root, reqs);
    assert RequestOk(st.labels, depth, root, reqs[k]);
    MapRefinesUpdate(st, depth, root, req.page, req.user, req.leaf, root, reqs[k].page);
    if k == 0 {
      MapAllKeepsOthers(st1, depth, root, reqs[1..], root, req.page);
    } else {
      assert reqs[1..][k - 1] == reqs[k];
      MapAllMaps(st1, depth, root, reqs[1..], k - 1);
    }
  }
}
