/** The viewport scanner: `findMainContentContainer`, `isScrollable` and
    the scroll loop of `scrollAndCollect`. Elements are abstract records
    with integer metrics; what is rendered at a scroll position is given by
    a function from positions to snapshots. */
module Scroll {

  import opened Wrappers
  import opened Strings
  import opened Blocks
  import opened Store

  /** An element as the scanner sees it: class name, computed `overflowY`,
      `scrollHeight`, `clientHeight` and the width and height of its
      bounding box. */
  datatype Element = Element(
    className: string,
    overflowY: string,
    scrollHeight: nat,
    clientHeight: nat,
    width: nat,
    height: nat)

  /** `isScrollable(el)`: it may scroll vertically and its content is more
      than 50 pixels taller than its visible part. */
  predicate IsScrollable(el: Element) {
    (el.overflowY == "auto" || el.overflowY == "scroll")
    && el.scrollHeight > el.clientHeight + 50
  }

  /** A class name that marks a navigation, sidebar, catalog or tree. */
  predicate IsOutlineClass(cls: string) {
    var c := ToLower(cls);
    Contains(c, "nav") || Contains(c, "sidebar") || Contains(c, "catalog") || Contains(c, "tree")
  }

  /** The outline test ignores case: a class name is an outline class
      exactly when its lower-case form is one. */
  lemma OutlineIgnoresCase(cls: string)
    ensures IsOutlineClass(ToLower(cls)) <==> IsOutlineClass(cls)
  {
    ToLowerIdempotent(cls);
  }

  /** A `div` the fallback scan may choose. */
  predicate Eligible(el: Element) {
    IsScrollable(el) && !IsOutlineClass(el.className) && el.width >= 400
  }

  function Area(el: Element): nat {
    el.width * el.height
  }

  const PrioritySelectors: seq<string> :=
    [".docx-editor-container", ".render-document", "#innerdocbodyWrap", ".etherpad-container-wrapper"]

  /** The page: what `document.querySelector` returns for each priority
      selector (absent for `null`), all `div` elements in document order,
      and `document.documentElement`. */
  datatype Page = Page(query: map<string, Element>, divs: seq<Element>, root: Element)

  /** Where the chosen container came from. */
  datatype Origin = Priority(k: nat) | Candidate(i: nat) | DocumentRoot

  datatype Choice = Choice(origin: Origin, element: Element)

  /** The `k`-th priority selector finds a scrollable element. */
  predicate PriorityHit(page: Page, k: int) {
    0 <= k < |PrioritySelectors|
    && PrioritySelectors[k] in page.query
    && IsScrollable(page.query[PrioritySelectors[k]])
  }

  /** The first priority selector from `k` on that finds a scrollable element. */
  function FirstPriority(page: Page, k: nat): (r: Option<nat>)
    ensures r.Some? ==> k <= r.value && PriorityHit(page, r.value)
    ensures r.Some? ==> forall j :: k <= j < r.value ==> !PriorityHit(page, j)
    ensures r.None? ==> forall j :: k <= j < |PrioritySelectors| ==> !PriorityHit(page, j)
    decreases |PrioritySelectors| - k
  {
    if k >= |PrioritySelectors| then None
    else if PriorityHit(page, k) then Some(k)
    else FirstPriority(page, k + 1)
  }

  /** The winner of the fallback scan over `divs[..n]`: the first eligible
      `div` of largest positive area, or `None` when no eligible `div` has
      a positive area. */
  function BestUpTo(divs: seq<Element>, n: nat): (r: Option<nat>)
    requires n <= |divs|
    ensures r.Some? ==> r.value < n && Eligible(divs[r.value]) && Area(divs[r.value]) > 0
    ensures r.Some? ==> forall j :: 0 <= j < n && Eligible(divs[j]) ==> Area(divs[j]) <= Area(divs[r.value])
    ensures r.Some? ==> forall j :: 0 <= j < r.value && Eligible(divs[j]) ==> Area(divs[j]) < Area(divs[r.value])
    ensures r.None? ==> forall j :: 0 <= j < n && Eligible(divs[j]) ==> Area(divs[j]) == 0
  {
    if n == 0 then None
    else
      var best := BestUpTo(divs, n - 1);
      var maxArea := if best.Some? then Area(divs[best.value]) else 0;
      if Eligible(divs[n - 1]) && Area(divs[n - 1]) > maxArea then Some(n - 1) else best
  }

  /** The container `findMainContentContainer` returns. */
  function MainContainer(page: Page): Choice {
    match FirstPriority(page, 0)
    case Some(k) => Choice(Priority(k), page.query[PrioritySelectors[k]])
    case None =>
      match BestUpTo(page.divs, |page.divs|)
      case Some(i) => Choice(Candidate(i), page.divs[i])
      case None => Choice(DocumentRoot, page.root)
  }

  /** `findMainContentContainer()`: the first priority selector whose
      element is scrollable; else the eligible `div` of largest area (the
      first one on ties); else the document root. It always returns an
      element. */
  method FindMainContentContainer(page: Page) returns (c: Choice)
    ensures c == MainContainer(page)
    ensures c.origin.Priority? ==>
      PriorityHit(page, c.origin.k) && c.element == page.query[PrioritySelectors[c.origin.k]]
      && forall j :: 0 <= j < c.origin.k ==> !PriorityHit(page, j)
    ensures c.origin.Candidate? ==>
      (forall j :: 0 <= j < |PrioritySelectors| ==> !PriorityHit(page, j))
      && c.origin.i < |page.divs| && c.element == page.divs[c.origin.i]
      && Eligible(c.element) && Area(c.element) > 0
      && (forall j :: 0 <= j < |page.divs| && Eligible(page.divs[j]) ==> Area(page.divs[j]) <= Area(c.element))
      && (forall j :: 0 <= j < c.origin.i && Eligible(page.divs[j]) ==> Area(page.divs[j]) < Area(c.element))
    ensures c.origin.DocumentRoot? ==>
      (forall j :: 0 <= j < |PrioritySelectors| ==> !PriorityHit(page, j))
      && (forall j :: 0 <= j < |page.divs| && Eligible(page.divs[j]) ==> Area(page.divs[j]) == 0)
      && c.element == page.root
  {
    var k := 0;
    while k < |PrioritySelectors|
      invariant 0 <= k <= |PrioritySelectors|
      invariant FirstPriority(page, 0) == FirstPriority(page, k)
    {
      var sel := PrioritySelectors[k];
      if sel in page.query && IsScrollable(page.query[sel]) {
        return Choice(Priority(k), page.query[sel]);
      }
      k := k + 1;
    }
    var maxArea: nat := 0;
    var best: Option<nat> := None;
    for i := 0 to |page.divs|
      invariant best == BestUpTo(page.divs, i)
      invariant maxArea == if best.Some? then Area(page.divs[best.value]) else 0
    {
      var div := page.divs[i];
      if !IsScrollable(div) {
        continue;
      }
      if IsOutlineClass(div.className) {
        continue;
      }
      if div.width < 400 {
        continue;
      }
      var area := div.width * div.height;
      if area > maxArea {
        maxArea := area;
        best := Some(i);
      }
    }
    if best.Some? {
      c := Choice(Candidate(best.value), page.divs[best.value]);
    } else {
      c := Choice(DocumentRoot, page.root);
    }
  }

  // ---------------------------------------------------------------------
  // The scroll plan

  /** `Math.floor(viewportHeight * 0.8)`, in integers. */
  function Step(clientHeight: nat): nat {
    (4 * clientHeight) / 5
  }

  /** Short enough for a single collection pass. */
  predicate IsShort(el: Element) {
    el.scrollHeight <= el.clientHeight + 100
  }

  /** The scroll loop ends: the document is short or the step is positive. */
  predicate CanScan(el: Element) {
    IsShort(el) || Step(el.clientHeight) > 0
  }

  /** The positions `cur, cur + step, ...` below `total`. */
  function Stops(cur: nat, total: nat, step: nat): seq<nat>
    requires step > 0
    decreases total - cur
  {
    if cur < total then [cur] + Stops(cur + step, total, step) else []
  }

  /** The scroll positions at which `scrollAndCollect` collects, starting
      with the position the container has on entry: one pass for a short
      document; otherwise the stepped positions from 0 and a last pass at
      the full height. */
  function ScrollPlan(el: Element, initTop: int): seq<int>
    requires CanScan(el)
  {
    if IsShort(el) then [initTop]
    else [initTop] + Stops(0, el.scrollHeight, Step(el.clientHeight)) + [el.scrollHeight]
  }

  /** The scroll position the container is left at. */
  function FinalTop(el: Element, initTop: int): int {
    if IsShort(el) then initTop else 0
  }

  /** The stepped positions are `cur + k * step`, all below `total`, and
      one more step would reach `total`. */
  lemma {:induction false} StopsShape(cur: nat, total: nat, step: nat)
    requires step > 0
    ensures forall k :: 0 <= k < |Stops(cur, total, step)| ==>
      Stops(cur, total, step)[k] == cur + k * step && Stops(cur, total, step)[k] < total
    ensures cur + |Stops(cur, total, step)| * step >= total
    ensures Stops(cur, total, step) == [] <==> cur >= total
    decreases total - cur
  {
    if cur < total {
      var rest := Stops(cur + step, total, step);
      StopsShape(cur + step, total, step);
      forall k | 0 < k < |rest| + 1 ensures ([cur] + rest)[k] == cur + k * step {
        assert ([cur] + rest)[k] == rest[k - 1];
        assert cur + step + (k - 1) * step == cur + k * step;
      }
      assert cur + step + |rest| * step == cur + (|rest| + 1) * step;
    }
  }

  /** Every offset in `[cur, total)` lies within one step below some
      stepped position. */
  lemma {:induction false} StopsCover(cur: nat, total: nat, step: nat, y: nat)
    requires step > 0 && cur <= y < total
    ensures exists k :: (0 <= k < |Stops(cur, total, step)|
      && Stops(cur, total, step)[k] <= y < Stops(cur, total, step)[k] + step)
    decreases total - cur
  {
    var rest := Stops(cur + step, total, step);
    assert Stops(cur, total, step) == [cur] + rest;
    if y >= cur + step {
      StopsCover(cur + step, total, step, y);
      var k :| 0 <= k < |rest| && rest[k] <= y < rest[k] + step;
      assert Stops(cur, total, step)[k + 1] == rest[k];
    } else {
      assert Stops(cur, total, step)[0] == cur;
    }
  }

  /** A long document is collected first at its entry position, then at
      `0, step, 2*step, ...` and last at its full height, and every offset
      below the height lies within one step below some stepped position:
      no part of the document falls between two viewports. */
  lemma ScrollCoverage(el: Element, initTop: int, y: nat)
    requires CanScan(el) && !IsShort(el) && y < el.scrollHeight
    ensures |ScrollPlan(el, initTop)| >= 3
    ensures ScrollPlan(el, initTop)[0] == initTop
    ensures ScrollPlan(el, initTop)[1] == 0
    ensures ScrollPlan(el, initTop)[|ScrollPlan(el, initTop)| - 1] == el.scrollHeight
    ensures exists k :: (1 <= k < |ScrollPlan(el, initTop)| - 1
      && ScrollPlan(el, initTop)[k] <= y < ScrollPlan(el, initTop)[k] + Step(el.clientHeight))
  {
    var s := Step(el.clientHeight);
    var total := el.scrollHeight;
    var stops := Stops(0, total, s);
    var plan := ScrollPlan(el, initTop);
    assert plan == [initTop] + stops + [total];
    assert stops == [0] + Stops(s, total, s);
    StopsCover(0, total, s, y);
    var k :| 0 <= k < |stops| && stops[k] <= y < stops[k] + s;
    assert plan[k + 1] == stops[k];
  }

  /** The number of collection passes: one for a short document, otherwise
      the stepped passes plus the first and the last. */
  lemma PassCount(el: Element, initTop: int)
    requires CanScan(el)
    ensures IsShort(el) ==> |ScrollPlan(el, initTop)| == 1
    ensures !IsShort(el) ==>
      |ScrollPlan(el, initTop)| == |Stops(0, el.scrollHeight, Step(el.clientHeight))| + 2
      && (|ScrollPlan(el, initTop)| - 3) * Step(el.clientHeight) < el.scrollHeight
      && (|ScrollPlan(el, initTop)| - 2) * Step(el.clientHeight) >= el.scrollHeight
  {
    if !IsShort(el) {
      var s := Step(el.clientHeight);
      var stops := Stops(0, el.scrollHeight, s);
      StopsShape(0, el.scrollHeight, s);
      assert stops[|stops| - 1] == (|stops| - 1) * s;
    }
  }

  // ---------------------------------------------------------------------
  // scrollAndCollect

  /** The snapshots seen at the positions `ps`. */
  function Views(view: int -> Snapshot, ps: seq<int>): (r: seq<Snapshot>)
    ensures |r| == |ps| && forall i :: 0 <= i < |ps| ==> r[i] == view(ps[i])
  {
    seq(|ps|, i requires 0 <= i < |ps| => view(ps[i]))
  }

  /** The pool after collection passes at the positions `ps`, in turn. */
  function Gathered(view: int -> Snapshot, ps: seq<int>): Pool {
    if ps == [] then EmptyPool else Collect(Gathered(view, ps[..|ps| - 1]), view(ps[|ps| - 1]))
  }

  /** Passes at the positions `ps` are the passes over the snapshots seen
      there. */
  lemma {:induction false} GatheredIsCollectAll(view: int -> Snapshot, ps: seq<int>)
    ensures Gathered(view, ps) == CollectAll(EmptyPool, Views(view, ps))
    decreases |ps|
  {
    if ps != [] {
      var ps' := ps[..|ps| - 1];
      GatheredIsCollectAll(view, ps');
      assert Views(view, ps)[..|ps'|] == Views(view, ps');
    }
  }

  /** The blocks a whole run collects from a page. */
  function CollectedPool(page: Page, initTop: int, view: int -> Snapshot): Pool
    requires CanScan(MainContainer(page).element)
  {
    Gathered(view, ScrollPlan(MainContainer(page).element, initTop))
  }

  /** One collection pass at position `x`, recorded after the positions
      already taken. */
  method CollectAt(store: BlockStore, view: int -> Snapshot, positions: seq<int>, x: int)
    returns (positions': seq<int>)
    requires store.State() == Gathered(view, positions)
    modifies store
    ensures positions' == positions + [x]
    ensures store.State() == Gathered(view, positions')
  {
    store.CollectVisibleBlocks(view(x));
    positions' := positions + [x];
    assert positions'[..|positions|] == positions;
  }

  /** One stepped pass moves one position from the plan's rest to the
      positions taken. */
  lemma StopsTake(positions: seq<int>, next: seq<int>, cur: nat, total: nat, step: nat, plan: seq<int>)
    requires step > 0 && cur < total
    requires positions + Stops(cur, total, step) == plan
    requires next == positions + [cur]
    ensures next + Stops(cur + step, total, step) == plan
  {
    var rest: seq<int> := Stops(cur + step, total, step);
    assert Stops(cur, total, step) == [cur] + rest;
    ConcatAssoc(positions, [cur], rest);
  }

  /** One turn of the stepping loop: a pass at `cur`, then one step on. */
  method ScanStep(store: BlockStore, view: int -> Snapshot, positions: seq<int>,
                  cur: nat, total: nat, step: nat, ghost plan: seq<int>)
    returns (positions': seq<int>, cur': nat)
    requires step > 0 && cur < total
    requires positions + Stops(cur, total, step) == plan
    requires store.State() == Gathered(view, positions)
    modifies store
    ensures positions' + Stops(cur', total, step) == plan
    ensures store.State() == Gathered(view, positions')
    ensures cur' == cur + step
  {
    ghost var next := positions + [cur];
    StopsTake(positions, next, cur, total, step, plan);
    positions' := CollectAt(store, view, positions, cur);
    cur' := cur + step;
  }

  /** The stepped passes and the last pass of a long document, after the
      pass at the entry position: collects at `0, step, 2*step, ...` below
      the height and then at the height. */
  method ScanLong(store: BlockStore, container: Element, view: int -> Snapshot, before: seq<int>)
    returns (positions: seq<int>)
    requires !IsShort(container) && Step(container.clientHeight) > 0
    requires store.State() == Gathered(view, before)
    modifies store
    ensures positions == before + Stops(0, container.scrollHeight, Step(container.clientHeight)) + [container.scrollHeight]
    ensures store.State() == Gathered(view, positions)
  {
    var totalHeight := container.scrollHeight;
    var viewportHeight := container.clientHeight;
    var step := (4 * viewportHeight) / 5;
    ghost var plan := before + Stops(0, totalHeight, step);
    positions := before;
    var currentScroll: nat := 0;
    while currentScroll < totalHeight
      invariant positions + Stops(currentScroll, totalHeight, step) == plan
      invariant store.State() == Gathered(view, positions)
      decreases totalHeight - currentScroll
    {
      positions, currentScroll := ScanStep(store, view, positions, currentScroll, totalHeight, step, plan);
    }
    assert Stops(currentScroll, totalHeight, step) == [];
    positions := CollectAt(store, view, positions, totalHeight);
  }

  /** `scrollAndCollect()`: clears the store, picks the container, collects
      at the entry position and, for a long document, at every stepped
      position and at the full height, then scrolls back to the top. `view`
      gives what is rendered at each scroll position; the pauses between
      passes are left out. */
  method ScrollAndCollect(store: BlockStore, page: Page, initTop: int, view: int -> Snapshot)
    returns (blocks: seq<Block>, container: Element, positions: seq<int>, finalTop: int)
    requires CanScan(MainContainer(page).element)
    modifies store
    ensures container == MainContainer(page).element
    ensures positions == ScrollPlan(container, initTop)
    ensures finalTop == FinalTop(container, initTop)
    ensures store.State() == CollectedPool(page, initTop, view)
    ensures PoolValid(store.State()) && blocks == Values(store.State())
  {
    store.Clear();
    var choice := FindMainContentContainer(page);
    container := choice.element;

    positions := CollectAt(store, view, [], initTop);

    if container.scrollHeight <= container.clientHeight + 100 {
      finalTop := initTop;
    } else {
      positions := ScanLong(store, container, view, positions);
      finalTop := 0;
    }
    GatheredIsCollectAll(view, positions);
    CollectAllValid(EmptyPool, Views(view, positions));
    blocks := store.GetSortedBlocks();
  }
}
