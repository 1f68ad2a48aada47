/** Backing pages with fresh frames: each page is mapped to the next frame of the supply. A frame is
    as large as a page, 4 KiB or 2 MiB. */
module Backing {
  import opened Bits
  import opened PageTable
  import opened Addresses
  import opened Mapping

  // ----- frames as large as a page -----

  predicate Overlap(size: nat, f: Frame, g: Frame)
    requires size > 0
  {
    f / size == g / size
  }

  /** No page table lies within the page frame of f. */
  ghost predicate Clear(labels: Labels, size: nat, f: Frame)
    requires size > 0
  {
    forall g :: g in labels ==> !Overlap(size, f, g)
  }

  /** Frame f starts a page frame that holds no page table. */
  ghost predicate PageFrame(st: State, size: nat, f: Frame)
    requires size > 0
  {
    f % size == 0 && Clear(st.labels, size, f)
  }

  /** The supply hands out whole page frames, as `pmm_alloc_frame` does. */
  ghost predicate WholeFrames(st: State, size: nat)
    requires size > 0
  {
    forall k :: 0 <= k < |st.supply| ==> PageFrame(st, size, st.supply[k])
  }

  /** A page frame that is neither used for tables nor in the supply: no later mapping will use it. */
  ghost predicate Taken(st: State, size: nat, f: Frame)
    requires size > 0
  {
    PageFrame(st, size, f) && f !in st.supply
  }

  ghost predicate Unused(st: State, f: Frame) { f !in st.labels && f !in st.supply }

  ghost predicate Extends(st: State, st1: State, size: nat)
    requires size > 0
  {
    && (forall g :: g in st.labels ==> g in st1.labels && st1.labels[g] == st.labels[g])
    && (forall f :: Taken(st, size, f) ==> Taken(st1, size, f))
    && (forall f :: Unused(st, f) ==> Unused(st1, f))
  }

  lemma AlignedFramesApart(size: nat, f: Frame, g: Frame)
    requires size > 0 && f % size == 0 && g % size == 0
    ensures Overlap(size, f, g) <==> f == g
  {
    assert f == size * (f / size) && g == size * (g / size);
  }

  // ----- backing -----

  /** Take the next frame of the supply and map the page to it; `low` holds the bits below the frame. */
  ghost function BackOne(st: State, root: Frame, page: Path, user: nat, low: nat): State
    requires st.supply != [] && page != []
  {
    MapPath(st.(supply := st.supply[1..]), root, page, user, st.supply[0] + low)
  }

  ghost predicate Named(pages: seq<Path>) { forall k :: 0 <= k < |pages| ==> pages[k] != [] }

  /** Back the pages one after the other. */
  ghost function Back(st: State, root: Frame, pages: seq<Path>, user: nat, low: nat): State
    requires Named(pages)
    decreases |pages|
  {
    if pages == [] || st.supply == [] then st
    else Back(BackOne(st, root, pages[0], user, low), root, pages[1..], user, low)
  }

  /** The frames the pages get, in order. */
  ghost function BackFrames(st: State, root: Frame, pages: seq<Path>, user: nat, low: nat): seq<Frame>
    requires Named(pages)
    decreases |pages|
  {
    if pages == [] || st.supply == [] then []
    else [st.supply[0]] + BackFrames(BackOne(st, root, pages[0], user, low), root, pages[1..], user, low)
  }

  /** Each page finds its own frame and one for every table that is missing when its turn comes. */
  ghost predicate EnoughToBack(st: State, root: Frame, pages: seq<Path>, user: nat, low: nat)
    requires Named(pages)
    decreases |pages|
  {
    pages == [] ||
    (&& |st.supply| >= 1 + Missing(st.mem, root, pages[0])
     && EnoughToBack(BackOne(st, root, pages[0], user, low), root, pages[1..], user, low))
  }

  /** The low bits of an entry that maps a page of this depth. */
  ghost predicate LowBits(depth: nat, low: nat) {
    low < 0x1000 && Present(low) && (depth == 3 ==> Large(low))
  }

  ghost predicate BackReady(st: State, depth: nat, root: Frame, pages: seq<Path>, user: nat, low: nat) {
    && depth in {3, 4} && Valid(st, depth) && IsRoot(st, root) && WholeFrames(st, PageSize(depth))
    && user in {0, USER_LEVEL} && LowBits(depth, low)
    && Named(pages)
    && forall k :: 0 <= k < |pages| ==> LeadsToLeaf(st.labels, depth, root, pages[k])
  }

  ghost predicate CanBack(st: State, depth: nat, root: Frame, pages: seq<Path>, user: nat, low: nat) {
    BackReady(st, depth, root, pages, user, low) && EnoughToBack(st, root, pages, user, low)
  }

  lemma TakeKeepsValid(st: State, depth: nat)
    requires depth in {3, 4} && Valid(st, depth) && st.supply != []
    ensures var st0 := st.(supply := st.supply[1..]);
      Valid(st0, depth) && Aligned(st.supply[0]) && Unused(st0, st.supply[0])
  {
    var st0 := st.(supply := st.supply[1..]);
    forall k | 0 <= k < |st0.supply|
      ensures st0.supply[k] !in st0.labels && Aligned(st0.supply[k]) && IsTable(st0.mem, st0.supply[k])
    {
      assert st0.supply[k] == st.supply[k + 1];
    }
  }

  lemma CanMapFirst(st: State, depth: nat, root: Frame, pages: seq<Path>, user: nat, low: nat)
    requires BackReady(st, depth, root, pages, user, low) && pages != []
    requires |st.supply| >= 1 + Missing(st.mem, root, pages[0])
    ensures CanMap(st.(supply := st.supply[1..]), depth, root, pages[0], user, st.supply[0] + low)
    ensures Present(st.supply[0] + low) && Base(st.supply[0] + low) == st.supply[0]
  {
    TakeKeepsValid(st, depth);
    AlignedFields(st.supply[0], low);
  }

  /** Labels from the supply stay apart from every page frame outside it. */
  lemma StaysClear(st: State, st1: State, size: nat, f: Frame)
    requires size > 0 && WholeFrames(st, size) && PageFrame(st, size, f) && f !in st1.labels
    requires forall g :: g in st1.labels ==> g in st.labels || g in st.supply
    ensures PageFrame(st1, size, f)
  {
    forall g | g in st1.labels ensures !Overlap(size, f, g) {
      if g in st.supply {
        var k :| 0 <= k < |st.supply| && st.supply[k] == g;
        AlignedFramesApart(size, f, g);
      }
    }
  }

  /** After a step that moves frames from the supply to the labels, the rest of the supply is whole,
      and what was taken stays taken. */
  lemma MoveKeepsWhole(st: State, st1: State, size: nat)
    requires size > 0 && WholeFrames(st, size)
    requires forall g :: g in st1.labels ==> g in st.labels || g in st.supply
    requires forall g :: g in st1.supply ==> g in st.supply && g !in st1.labels
    requires forall g :: g in st.labels ==> g in st1.labels && st1.labels[g] == st.labels[g]
    ensures WholeFrames(st1, size) && Extends(st, st1, size)
  {
    forall k | 0 <= k < |st1.supply| ensures PageFrame(st1, size, st1.supply[k]) {
      var f := st1.supply[k];
      assert f in st1.supply;
      var j :| 0 <= j < |st.supply| && st.supply[j] == f;
      StaysClear(st, st1, size, f);
    }
    forall f | Taken(st, size, f) ensures Taken(st1, size, f) {
      if f in st1.labels {
        assert f in st.labels;
        assert Overlap(size, f, f);
      }
      StaysClear(st, st1, size, f);
    }
  }

  lemma BackFirst(st: State, depth: nat, root: Frame, pages: seq<Path>, user: nat, low: nat)
    requires BackReady(st, depth, root, pages, user, low) && pages != []
    requires |st.supply| >= 1 + Missing(st.mem, root, pages[0])
    ensures var st1 := BackOne(st, root, pages[0], user, low);
      && BackReady(st1, depth, root, pages[1..], user, low)
      && Extends(st, st1, PageSize(depth)) && Taken(st1, PageSize(depth), st.supply[0])
      && |st1.supply| == |st.supply| - 1 - Missing(st.mem, root, pages[0])
      && LastTable(st1.mem, root, pages[0]).Some?
  {
    BackMoves(st, depth, root, pages, user, low);
    var st1 := BackOne(st, root, pages[0], user, low);
    MoveKeepsWhole(st, st1, PageSize(depth));
    StaysClear(st, st1, PageSize(depth), st.supply[0]);
  }

  /** Backing a page moves frames from the supply to the labels and drops the frame of the page. */
  lemma BackMoves(st: State, depth: nat, root: Frame, pages: seq<Path>, user: nat, low: nat)
    requires BackReady(st, depth, root, pages, user, low) && pages != []
    requires |st.supply| >= 1 + Missing(st.mem, root, pages[0])
    ensures var st1 := BackOne(st, root, pages[0], user, low);
      && Valid(st1, depth) && LastTable(st1.mem, root, pages[0]).Some?
      && (forall g :: g in st1.labels ==> g in st.labels || g in st.supply)
      && (forall g :: g in st1.supply ==> g in st.supply && g !in st1.labels)
      && (forall g :: g in st.labels ==> g in st1.labels && st1.labels[g] == st.labels[g])
      && Unused(st1, st.supply[0])
      && |st1.supply| == |st.supply| - 1 - Missing(st.mem, root, pages[0])
  {
    CanMapFirst(st, depth, root, pages, user, low);
    TakeKeepsValid(st, depth);
    var st0, leaf := st.(supply := st.supply[1..]), st.supply[0] + low;
    MapKeepsValid(st0, depth, root, pages[0], user, leaf);
    MapTakesFromSupply(st0, depth, root, pages[0], user, leaf);
    MapLabelsFromSupply(st0, depth, root, pages[0], user, leaf);
  }

  /** Backing one page gives it the frame if it had none, and keeps every other page. */
  lemma BackFirstTranslates(st: State, depth: nat, root: Frame, pages: seq<Path>, user: nat, low: nat, page: Path)
    requires BackReady(st, depth, root, pages, user, low) && pages != []
    requires |st.supply| >= 1 + Missing(st.mem, root, pages[0])
    requires LeadsToLeaf(st.labels, depth, root, page)
    ensures Translate(BackOne(st, root, pages[0], user, low), root, page) ==
      if page == pages[0] && Translate(st, root, page).None? then Some(st.supply[0]) else Translate(st, root, page)
    ensures Walk(BackOne(st, root, pages[0], user, low).mem, root, page) ==
      if page == pages[0] && Translate(st, root, page).None? then Some(st.supply[0] + low) else Walk(st.mem, root, page)
  {
    CanMapFirst(st, depth, root, pages, user, low);
    MapRefinesUpdate(st.(supply := st.supply[1..]), depth, root, pages[0], user, st.supply[0] + low, root, page);
  }

  /** Backing pages keeps the tables valid and the taken frames taken. */
  lemma {:induction false} BackKeepsValid(st: State, depth: nat, root: Frame, pages: seq<Path>, user: nat, low: nat)
    requires CanBack(st, depth, root, pages, user, low)
    ensures var st1 := Back(st, root, pages, user, low);
      Valid(st1, depth) && WholeFrames(st1, PageSize(depth)) && Extends(st, st1, PageSize(depth))
    decreases |pages|
  {
    if pages != [] {
      BackFirst(st, depth, root, pages, user, low);
      BackKeepsValid(BackOne(st, root, pages[0], user, low), depth, root, pages[1..], user, low);
    }
  }

  /** The pages get distinct page frames of the supply, which are taken from then on. */
  lemma {:induction false} BackFramesAreTaken(st: State, depth: nat, root: Frame, pages: seq<Path>, user: nat, low: nat)
    requires CanBack(st, depth, root, pages, user, low)
    ensures var fs, st1 := BackFrames(st, root, pages, user, low), Back(st, root, pages, user, low);
      && |fs| == |pages|
      && (forall k :: 0 <= k < |fs| ==> !Taken(st, PageSize(depth), fs[k]) && Taken(st1, PageSize(depth), fs[k]))
      && (forall j, k :: 0 <= j < k < |fs| ==> fs[j] != fs[k])
    decreases |pages|
  {
    if pages != [] {
      BackFirst(st, depth, root, pages, user, low);
      var st1 := BackOne(st, root, pages[0], user, low);
      BackFramesAreTaken(st1, depth, root, pages[1..], user, low);
      BackKeepsValid(st1, depth, root, pages[1..], user, low);
    }
  }

  /** Backing pages changes no translation of another page. */
  lemma {:induction false} BackKeepsOthers(st: State, depth: nat, root: Frame, pages: seq<Path>, user: nat, low: nat,
                                           page: Path)
    requires CanBack(st, depth, root, pages, user, low)
    requires LeadsToLeaf(st.labels, depth, root, page) && page !in pages
    ensures Translate(Back(st, root, pages, user, low), root, page) == Translate(st, root, page)
    ensures Walk(Back(st, root, pages, user, low).mem, root, page) == Walk(st.mem, root, page)
    decreases |pages|
  {
    if pages != [] {
      BackFirst(st, depth, root, pages, user, low);
      BackFirstTranslates(st, depth, root, pages, user, low, page);
      BackKeepsOthers(BackOne(st, root, pages[0], user, low), depth, root, pages[1..], user, low, page);
    }
  }

  lemma {:induction false} BackFramesFromSupply(st: State, depth: nat, root: Frame, pages: seq<Path>, user: nat,
                                                low: nat, k: nat)
    requires CanBack(st, depth, root, pages, user, low) && k < |pages|
    ensures k < |BackFrames(st, root, pages, user, low)| && BackFrames(st, root, pages, user, low)[k] in st.supply
    decreases |pages|
  {
    BackFirst(st, depth, root, pages, user, low);
    if k > 0 {
      BackMoves(st, depth, root, pages, user, low);
      BackFramesFromSupply(BackOne(st, root, pages[0], user, low), depth, root, pages[1..], user, low, k - 1);
    }
  }

  /** When the first page has been backed the others can be. */
  lemma BackRest(st: State, depth: nat, root: Frame, pages: seq<Path>, user: nat, low: nat, page: Path)
    requires CanBack(st, depth, root, pages, user, low) && pages != [] && LeadsToLeaf(st.labels, depth, root, page)
    ensures var st1 := BackOne(st, root, pages[0], user, low);
      CanBack(st1, depth, root, pages[1..], user, low) && LeadsToLeaf(st1.labels, depth, root, page)
  {
    BackFirst(st, depth, root, pages, user, low);
  }

  lemma BackWritesFirst(st: State, depth: nat, root: Frame, pages: seq<Path>, user: nat, low: nat)
    requires CanBack(st, depth, root, pages, user, low) && pages != [] && pages[0] !in pages[1..]
    requires Walk(st.mem, root, pages[0]).None?
    ensures Walk(Back(st, root, pages, user, low).mem, root, pages[0]) == Some(st.supply[0] + low)
  {
    BackRest(st, depth, root, pages, user, low, pages[0]);
    BackFirstTranslates(st, depth, root, pages, user, low, pages[0]);
    BackKeepsOthers(BackOne(st, root, pages[0], user, low), depth, root, pages[1..], user, low, pages[0]);
  }

  /** Page k stands in the list once. */
  ghost predicate Once(pages: seq<Path>, k: nat) {
    k < |pages| && pages[k] !in pages[..k] && pages[k] !in pages[k + 1..]
  }

  /** Every page that had no translation gets an entry for the frame taken for it, with the bits asked for. */
  lemma {:induction false} BackWrites(st: State, depth: nat, root: Frame, pages: seq<Path>, user: nat, low: nat, k: nat)
    requires CanBack(st, depth, root, pages, user, low) && k < |BackFrames(st, root, pages, user, low)| == |pages|
    requires Once(pages, k) && Walk(st.mem, root, pages[k]).None?
    ensures Walk(Back(st, root, pages, user, low).mem, root, pages[k]) ==
      Some(BackFrames(st, root, pages, user, low)[k] + low)
    decreases |pages|
  {
    if k == 0 {
      BackWritesFirst(st, depth, root, pages, user, low);
    } else {
      BackRest(st, depth, root, pages, user, low, pages[k]);
      assert pages[0] in pages[..k];
      BackFirstTranslates(st, depth, root, pages, user, low, pages[k]);
      assert pages[1..][..k - 1] == pages[1..k] && pages[1..][k..] == pages[k + 1..];
      BackWrites(BackOne(st, root, pages[0], user, low), depth, root, pages[1..], user, low, k - 1);
    }
  }

  /** So it translates to that frame. */
  lemma BackMaps(st: State, depth: nat, root: Frame, pages: seq<Path>, user: nat, low: nat, k: nat)
    requires CanBack(st, depth, root, pages, user, low) && k < |pages|
    requires forall i, j :: 0 <= i < j < |pages| ==> pages[i] != pages[j]
    requires Translate(st, root, pages[k]).None?
    ensures k < |BackFrames(st, root, pages, user, low)|
    ensures Translate(Back(st, root, pages, user, low), root, pages[k]) ==
      Some(BackFrames(st, root, pages, user, low)[k])
    ensures Walk(Back(st, root, pages, user, low).mem, root, pages[k]) ==
      Some(BackFrames(st, root, pages, user, low)[k] + low)
  {
    BackFramesAreTaken(st, depth, root, pages, user, low);
    BackFramesFromSupply(st, depth, root, pages, user, low, k);
    BackWrites(st, depth, root, pages, user, low, k);
    AlignedFields(BackFrames(st, root, pages, user, low)[k], low);
  }

  /** A page that has a translation keeps it. */
  lemma {:induction false} BackKeepsMapped(st: State, depth: nat, root: Frame, pages: seq<Path>, user: nat, low: nat,
                                           page: Path)
    requires CanBack(st, depth, root, pages, user, low)
    requires LeadsToLeaf(st.labels, depth, root, page) && Translate(st, root, page).Some?
    ensures Translate(Back(st, root, pages, user, low), root, page) == Translate(st, root, page)
    ensures Walk(Back(st, root, pages, user, low).mem, root, page) == Walk(st.mem, root, page)
    decreases |pages|
  {
    if pages != [] {
      BackFirst(st, depth, root, pages, user, low);
      BackFirstTranslates(st, depth, root, pages, user, low, page);
      BackKeepsMapped(BackOne(st, root, pages[0], user, low), depth, root, pages[1..], user, low, page);
    }
  }

  /** A page has the frame taken for it exactly if it had no translation before; otherwise it keeps the frame
      it had, and the one taken for it is lost. */
  lemma BackMapsIff(st: State, depth: nat, root: Frame, pages: seq<Path>, user: nat, low: nat, k: nat)
    requires CanBack(st, depth, root, pages, user, low) && k < |pages|
    requires forall i, j :: 0 <= i < j < |pages| ==> pages[i] != pages[j]
    requires Translate(st, root, pages[k]).Some? ==> Translate(st, root, pages[k]).value !in st.supply
    ensures k < |BackFrames(st, root, pages, user, low)|
    ensures var before := Translate(st, root, pages[k]);
      var after := Translate(Back(st, root, pages, user, low), root, pages[k]);
      && (after == Some(BackFrames(st, root, pages, user, low)[k]) <==> before.None?)
      && (before.Some? ==> after == before)
  {
    BackFramesFromSupply(st, depth, root, pages, user, low, k);
    if Translate(st, root, pages[k]).None? {
      BackMaps(st, depth, root, pages, user, low, k);
    } else {
      BackKeepsMapped(st, depth, root, pages, user, low, pages[k]);
    }
  }
}
