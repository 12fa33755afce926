/** What the left-to-right sweep has to produce, stated without the sweep.

    At an abscissa `x` the valid input rectangles that span `x` cut the vertical line
    into regions. A separated rectangle is a maximal horizontal run of abscissas over
    which one region stays in the cross section. */
module SweepSpec {
  import opened IdSets

  datatype Rect = Rect(left: int, top: int, right: int, bottom: int)

  datatype RectSet = RectSet(idSet: bv64, rect: Rect)

  /** What identifies a started rectangle: everything but its left edge. */
  datatype Key = Key(top: int, bottom: int, idSet: bv64)

  /** Empty and inverted rectangles are dropped. */
  predicate Valid(r: Rect) {
    r.left < r.right && r.top < r.bottom
  }

  predicate Active(rects: seq<Rect>, i: nat, x: int) {
    i < |rects| && Valid(rects[i]) && rects[i].left <= x < rects[i].right
  }

  /** The ids of the valid inputs that contain the unit cell at (x, y). */
  function Cover(rects: seq<Rect>, x: int, y: int): set<nat> {
    set i: nat | i < |rects| && Active(rects, i, x) && rects[i].top <= y < rects[i].bottom
  }

  /** Some rectangle that spans x has a horizontal edge at y. */
  ghost predicate Edge(rects: seq<Rect>, x: int, y: int) {
    exists i: nat :: Active(rects, i, x) && (y == rects[i].top || y == rects[i].bottom)
  }

  /** `k` is a region of the cross section at x: two consecutive edges with a covered strip between them. */
  ghost predicate Region(rects: seq<Rect>, x: int, k: Key) {
    && k.top < k.bottom
    && Edge(rects, x, k.top)
    && Edge(rects, x, k.bottom)
    && (forall y :: k.top < y < k.bottom ==> !Edge(rects, x, y))
    && k.idSet != 0
    && Members(k.idSet) == Cover(rects, x, k.top)
  }

  function KeyOf(o: RectSet): Key {
    Key(o.rect.top, o.rect.bottom, o.idSet)
  }

  /** `k` is in every cross section from l to x, and not in the one before l. */
  ghost predicate OpenSince(rects: seq<Rect>, k: Key, l: int, x: int) {
    && l <= x
    && (forall t :: l <= t <= x ==> Region(rects, t, k))
    && !Region(rects, l - 1, k)
  }

  /** `o` is a maximal run of one region. */
  ghost predicate IsRun(rects: seq<Rect>, o: RectSet) {
    && OpenSince(rects, KeyOf(o), o.rect.left, o.rect.right - 1)
    && !Region(rects, o.rect.right, KeyOf(o))
  }

  /** Order in which finished rectangles are emitted: by right edge, then as the map of
      started rectangles iterates. */
  predicate EmittedBefore(a: RectSet, b: RectSet) {
    || a.rect.right < b.rect.right
    || (a.rect.right == b.rect.right && KeyLess(KeyOf(a), KeyOf(b)))
  }

  predicate KeyLess(a: Key, b: Key) {
    || a.top < b.top
    || (a.top == b.top && a.bottom < b.bottom)
    || (a.top == b.top && a.bottom == b.bottom && Less(a.idSet, b.idSet))
  }

  ghost predicate Emitted(s: seq<RectSet>) {
    forall i, j :: 0 <= i < j < |s| ==> EmittedBefore(s[i], s[j])
  }

  /** The separation of `rects`: all maximal runs, each once, in emission order. */
  ghost predicate IsSeparation(rects: seq<Rect>, s: seq<RectSet>) {
    && Emitted(s)
    && forall o :: o in s <==> IsRun(rects, o)
  }

  // ---- Facts about cross sections ----

  lemma CoverConstantBetweenEdges(rects: seq<Rect>, x: int, y0: int, y1: int)
    requires y0 <= y1
    requires forall y :: y0 < y <= y1 ==> !Edge(rects, x, y)
    ensures Cover(rects, x, y0) == Cover(rects, x, y1)
  {
    forall i: nat | i < |rects| && Active(rects, i, x)
      ensures rects[i].top <= y0 < rects[i].bottom <==> rects[i].top <= y1 < rects[i].bottom
    {
      if y0 < rects[i].top <= y1 { assert Edge(rects, x, rects[i].top); }
      if y0 < rects[i].bottom <= y1 { assert Edge(rects, x, rects[i].bottom); }
    }
  }

  /** Everywhere inside a region the covering set is the region's set. */
  lemma RegionCover(rects: seq<Rect>, x: int, k: Key, y: int)
    requires Region(rects, x, k) && k.top <= y < k.bottom
    ensures Members(k.idSet) == Cover(rects, x, y)
    ensures Cover(rects, x, y) != {}
  {
    CoverConstantBetweenEdges(rects, x, k.top, y);
    SameMembersSameBits(k.idSet, 0);
    NoMembers();
  }

  lemma RegionIsUnique(rects: seq<Rect>, x: int, k: Key, k': Key, y: int)
    requires Region(rects, x, k) && k.top <= y < k.bottom
    requires Region(rects, x, k') && k'.top <= y < k'.bottom
    ensures k == k'
  {
    SameMembersSameBits(k.idSet, k'.idSet);
  }

  lemma SameActiveSameRegions(rects: seq<Rect>, x: int, x': int, k: Key)
    requires forall i: nat :: Active(rects, i, x) <==> Active(rects, i, x')
    ensures Region(rects, x, k) <==> Region(rects, x', k)
  {
    forall y ensures Edge(rects, x, y) <==> Edge(rects, x', y) {}
    assert Cover(rects, x, k.top) == Cover(rects, x', k.top);
  }

  /** A lower bound for all abscissas that matter. */
  function LeftLimit(rects: seq<Rect>): (l: int)
    ensures forall i: nat, x: int :: Active(rects, i, x) ==> l <= x
  {
    if rects == [] then 0
    else
      var l := LeftLimit(rects[1..]);
      var m := if rects[0].left < l then rects[0].left else l;
      assert forall i: nat, x: int :: Active(rects, i, x) ==> i == 0 || Active(rects[1..], i - 1, x);
      m
  }

  function RightLimit(rects: seq<Rect>): (r: int)
    ensures forall i: nat, x: int :: Active(rects, i, x) ==> x < r
  {
    if rects == [] then 0
    else
      var r := RightLimit(rects[1..]);
      var m := if rects[0].right > r then rects[0].right else r;
      assert forall i: nat, x: int :: Active(rects, i, x) ==> i == 0 || Active(rects[1..], i - 1, x);
      m
  }

  lemma RegionWithinLimits(rects: seq<Rect>, x: int, k: Key)
    requires Region(rects, x, k)
    ensures LeftLimit(rects) <= x < RightLimit(rects)
  {
  }

  /** A region present at x has been open since some abscissa. */
  lemma {:induction false} RunStart(rects: seq<Rect>, k: Key, x: int) returns (l: int)
    requires Region(rects, x, k)
    ensures OpenSince(rects, k, l, x)
    decreases x - LeftLimit(rects)
  {
    RegionWithinLimits(rects, x, k);
    if Region(rects, x - 1, k) {
      RegionWithinLimits(rects, x - 1, k);
      l := RunStart(rects, k, x - 1);
    } else {
      l := x;
    }
  }

  /** A region present at x disappears at some later abscissa. */
  lemma {:induction false} RunEnd(rects: seq<Rect>, k: Key, x: int) returns (r: int)
    requires Region(rects, x, k)
    ensures x < r && !Region(rects, r, k)
    ensures forall t :: x <= t < r ==> Region(rects, t, k)
    decreases RightLimit(rects) - x
  {
    RegionWithinLimits(rects, x, k);
    if Region(rects, x + 1, k) {
      r := RunEnd(rects, k, x + 1);
    } else {
      r := x + 1;
    }
  }

  lemma OpenSinceIsUnique(rects: seq<Rect>, k: Key, l: int, l': int, x: int)
    requires OpenSince(rects, k, l, x) && OpenSince(rects, k, l', x)
    ensures l == l'
  {
    assert l' - 1 < l || Region(rects, l' - 1, k);
    assert l - 1 < l' || Region(rects, l - 1, k);
  }
}
