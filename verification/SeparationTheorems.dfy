/** What a separation promises its caller (separate_rects.h, the comment on `separate_rects_64`),
    proved of everything that `SeparateRects` appends. */
module SeparationTheorems {
  import opened IdSets
  import opened SweepSpec

  predicate Contains(r: Rect, x: int, y: int) {
    r.left <= x < r.right && r.top <= y < r.bottom
  }

  /** The ids of the inputs containing the point. An empty or inverted rectangle contains none. */
  function Covering(rects: seq<Rect>, x: int, y: int): set<nat> {
    set i: nat | i < |rects| && Contains(rects[i], x, y)
  }

  lemma CoveringIsCover(rects: seq<Rect>, x: int, y: int)
    ensures Covering(rects, x, y) == Cover(rects, x, y)
  {
  }

  lemma OutputSpans(rects: seq<Rect>, o: RectSet, x: int, y: int)
    requires IsRun(rects, o) && Contains(o.rect, x, y)
    ensures Region(rects, x, KeyOf(o))
    ensures Members(o.idSet) == Covering(rects, x, y) && Covering(rects, x, y) != {}
  {
    RegionCover(rects, x, KeyOf(o), y);
    CoveringIsCover(rects, x, y);
  }

  /** Two outputs that share a point are the same output. */
  lemma OutputsDisjoint(rects: seq<Rect>, o: RectSet, p: RectSet, x: int, y: int)
    requires IsRun(rects, o) && Contains(o.rect, x, y)
    requires IsRun(rects, p) && Contains(p.rect, x, y)
    ensures o == p
  {
    OutputSpans(rects, o, x, y);
    OutputSpans(rects, p, x, y);
    RegionIsUnique(rects, x, KeyOf(o), KeyOf(p), y);
    var k := KeyOf(o);
    SameRun(rects, k, o.rect.left, o.rect.right, p.rect.left, p.rect.right, x);
  }

  lemma SameRun(rects: seq<Rect>, k: Key, l: int, r: int, l': int, r': int, x: int)
    requires OpenSince(rects, k, l, r - 1) && !Region(rects, r, k)
    requires OpenSince(rects, k, l', r' - 1) && !Region(rects, r', k)
    requires l <= x < r && l' <= x < r'
    ensures l == l' && r == r'
  {
    hide Region;
    OpenSinceIsUnique(rects, k, l, l', x);
    assert r < r' ==> Region(rects, r, k);
    assert r' < r ==> Region(rects, r', k);
  }

  /** A region at x reaches down to some y from an edge above it. */
  lemma {:induction false} EdgeAbove(rects: seq<Rect>, x: int, y: int, top: int) returns (t: int)
    requires Edge(rects, x, top) && top <= y
    ensures top <= t <= y && Edge(rects, x, t)
    ensures forall z :: t < z <= y ==> !Edge(rects, x, z)
    decreases y - top
  {
    if Edge(rects, x, y) {
      t := y;
    } else {
      t := EdgeAbove(rects, x, y - 1, top);
    }
  }

  lemma {:induction false} EdgeBelow(rects: seq<Rect>, x: int, y: int, bottom: int) returns (b: int)
    requires Edge(rects, x, bottom) && y <= bottom
    ensures y <= b <= bottom && Edge(rects, x, b)
    ensures forall z :: y <= z < b ==> !Edge(rects, x, z)
    decreases bottom - y
  {
    if Edge(rects, x, y) {
      b := y;
    } else {
      b := EdgeBelow(rects, x, y + 1, bottom);
    }
  }

  /** Every non-empty set of ids below 64 has a word. */
  lemma {:induction false} WordOf(ids: set<nat>) returns (bits: bv64)
    requires forall i :: i in ids ==> i < MAX_ELEMENTS
    ensures Members(bits) == ids
    decreases ids
  {
    if ids == {} {
      bits := 0;
      NoMembers();
    } else {
      var i :| i in ids;
      var rest := WordOf(ids - {i});
      bits := With(rest, i);
      AddIsUnion(rest, i);
    }
  }

  /** A covered point lies in a region of the cross section through it. */
  lemma CoveredRegion(rects: seq<Rect>, x: int, y: int) returns (k: Key)
    requires |rects| <= MAX_ELEMENTS
    requires Cover(rects, x, y) != {}
    ensures Region(rects, x, k) && k.top <= y < k.bottom
  {
    var i :| i in Cover(rects, x, y);
    assert Edge(rects, x, rects[i].top) && Edge(rects, x, rects[i].bottom);
    var t := EdgeAbove(rects, x, y, rects[i].top);
    var b := EdgeBelow(rects, x, y + 1, rects[i].bottom);
    CoverConstantBetweenEdges(rects, x, t, y);
    var bits := WordOf(Cover(rects, x, t));
    NoMembers();
    k := Key(t, b, bits);
  }

  /** A covered point lies in an output. */
  lemma CoveredPointEmitted(rects: seq<Rect>, x: int, y: int) returns (o: RectSet)
    requires |rects| <= 64
    requires Covering(rects, x, y) != {}
    ensures IsRun(rects, o) && Contains(o.rect, x, y)
  {
    CoveringIsCover(rects, x, y);
    var k := CoveredRegion(rects, x, y);
    var l := RunStart(rects, k, x);
    var r := RunEnd(rects, k, x);
    o := RectSet(k.idSet, Rect(l, k.top, r, k.bottom));
    RunFromTo(rects, k, l, x, r, o);
  }

  lemma RunFromTo(rects: seq<Rect>, k: Key, l: int, x: int, r: int, o: RectSet)
    requires OpenSince(rects, k, l, x)
    requires x < r && !Region(rects, r, k)
    requires forall t :: x <= t < r ==> Region(rects, t, k)
    requires KeyOf(o) == k && o.rect.left == l && o.rect.right == r
    ensures IsRun(rects, o)
  {
    hide Region;
  }

  lemma EmissionHasNoRepeats(s: seq<RectSet>, i: nat, j: nat)
    requires Emitted(s) && i < |s| && j < |s|
    ensures i != j ==> s[i] != s[j]
  {
    if i < j {
      assert EmittedBefore(s[i], s[j]);
    } else if j < i {
      assert EmittedBefore(s[j], s[i]);
    }
  }

  /** The contract of separate_rects: each point lies in at most one output; it lies in one exactly
      when an input contains it; and that output carries exactly the inputs containing it. */
  lemma ExactLabelledPartition(rects: seq<Rect>, s: seq<RectSet>, x: int, y: int)
    requires |rects| <= 64 && IsSeparation(rects, s)
    ensures forall i, j ::
      0 <= i < |s| && 0 <= j < |s| && Contains(s[i].rect, x, y) && Contains(s[j].rect, x, y) ==> i == j
    ensures (exists i :: 0 <= i < |s| && Contains(s[i].rect, x, y)) <==> Covering(rects, x, y) != {}
    ensures forall i :: 0 <= i < |s| && Contains(s[i].rect, x, y) ==> Members(s[i].idSet) == Covering(rects, x, y)
  {
    hide IsRun, Covering, Members;
    forall i, j | 0 <= i < |s| && 0 <= j < |s| && Contains(s[i].rect, x, y) && Contains(s[j].rect, x, y)
      ensures i == j
    {
      assert s[i] in s && s[j] in s;
      OutputsDisjoint(rects, s[i], s[j], x, y);
      EmissionHasNoRepeats(s, i, j);
    }
    forall i | 0 <= i < |s| && Contains(s[i].rect, x, y)
      ensures Members(s[i].idSet) == Covering(rects, x, y) && Covering(rects, x, y) != {}
    {
      assert s[i] in s;
      OutputSpans(rects, s[i], x, y);
    }
    if Covering(rects, x, y) != {} {
      var o := CoveredPointEmitted(rects, x, y);
      assert o in s;
    }
  }

  /** There is only one separation, so the emission order is settled too. */
  lemma {:induction false} SeparationIsUnique(rects: seq<Rect>, s: seq<RectSet>, t: seq<RectSet>)
    requires IsSeparation(rects, s) && IsSeparation(rects, t)
    ensures s == t
  {
    hide IsRun;
    SameSortedElements(s, t);
  }

  lemma EmittedBeforeAsymmetric(a: RectSet, b: RectSet)
    ensures !(EmittedBefore(a, b) && EmittedBefore(b, a))
  {
    KeyLessAsymmetric(KeyOf(a), KeyOf(b));
    hide KeyLess;
  }

  lemma KeyLessAsymmetric(a: Key, b: Key)
    ensures !(KeyLess(a, b) && KeyLess(b, a))
  {
  }

  lemma EmittedBeforeIrreflexive(a: RectSet)
    ensures !EmittedBefore(a, a)
  {
  }

  lemma {:induction false} SameSortedElements(s: seq<RectSet>, t: seq<RectSet>)
    requires Emitted(s) && Emitted(t)
    requires forall o :: o in s <==> o in t
    ensures s == t
  {
    hide EmittedBefore;
    HeadMember(s);
    HeadMember(t);
    if s != [] && t != [] {
      assert s[0] in t && t[0] in s;
      var i :| 0 <= i < |t| && t[i] == s[0];
      var j :| 0 <= j < |s| && s[j] == t[0];
      assert i == 0 || EmittedBefore(t[0], s[0]);
      assert j == 0 || EmittedBefore(s[0], t[0]);
      EmittedBeforeAsymmetric(s[0], t[0]);
      TailMember(s);
      TailMember(t);
      SameSortedElements(s[1..], t[1..]);
    }
  }

  lemma HeadMember(s: seq<RectSet>)
    ensures s == [] || exists o :: o in s
  {
    if s != [] {
      assert s[0] in s;
    }
  }

  lemma TailMember(s: seq<RectSet>)
    requires Emitted(s) && s != []
    ensures Emitted(s[1..])
    ensures forall o :: o in s[1..] <==> o in s && o != s[0]
  {
    EmittedBeforeIrreflexive(s[0]);
    hide EmittedBefore;
    assert s == [s[0]] + s[1..];
    forall o | o in s[1..] ensures o != s[0] {
      var i :| 0 <= i < |s[1..]| && s[1..][i] == o;
      assert EmittedBefore(s[0], s[i + 1]);
    }
  }

  /** The order in which outputs are emitted: by right edge, and those with one right edge from top to bottom. */
  lemma EmissionOrder(rects: seq<Rect>, s: seq<RectSet>, i: nat, j: nat)
    requires IsSeparation(rects, s) && i < j < |s|
    ensures s[i].rect.right < s[j].rect.right
        || (s[i].rect.right == s[j].rect.right && s[i].rect.top < s[j].rect.top)
  {
    assert EmittedBefore(s[i], s[j]) && s[i] in s && s[j] in s;
    EmissionHasNoRepeats(s, i, j);
    if Corner(s[i]) == Corner(s[j]) {
      CornerIsUnique(rects, s[i], s[j]);
    }
    hide IsRun;
  }

  // ---- The output is canonical ----

  /** Outputs with the same extent and ids never meet along a vertical edge: they would be one output. */
  lemma NoSplitAcross(rects: seq<Rect>, o: RectSet, p: RectSet)
    requires IsRun(rects, o) && IsRun(rects, p) && KeyOf(o) == KeyOf(p)
    ensures o.rect.right != p.rect.left
  {
    hide Region;
    assert Region(rects, p.rect.left, KeyOf(p));
  }

  /** Crossing an edge changes the covering set. */
  lemma EdgeChangesCover(rects: seq<Rect>, x: int, y0: int, y: int)
    requires y0 < y && Edge(rects, x, y)
    requires forall z :: y0 < z < y ==> !Edge(rects, x, z)
    ensures Cover(rects, x, y0) != Cover(rects, x, y)
  {
    var i: nat :| Active(rects, i, x) && (y == rects[i].top || y == rects[i].bottom);
    if y == rects[i].top {
      assert i in Cover(rects, x, y) && i !in Cover(rects, x, y0);
    } else {
      assert Edge(rects, x, rects[i].top);
      assert i in Cover(rects, x, y0) && i !in Cover(rects, x, y);
    }
  }

  /** Outputs that touch along a horizontal edge over a common abscissa carry different ids. */
  lemma NoSplitDown(rects: seq<Rect>, o: RectSet, p: RectSet, x: int)
    requires IsRun(rects, o) && IsRun(rects, p)
    requires o.rect.bottom == p.rect.top
    requires o.rect.left <= x < o.rect.right && p.rect.left <= x < p.rect.right
    ensures o.idSet != p.idSet
  {
    assert Region(rects, x, KeyOf(o)) && Region(rects, x, KeyOf(p));
    EdgeChangesCover(rects, x, o.rect.top, o.rect.bottom);
  }

  // ---- Where the output edges are, and how many outputs there are ----

  function XEdges(rects: seq<Rect>): set<int> {
    if rects == [] then {}
    else
      var r := rects[|rects| - 1];
      XEdges(rects[..|rects| - 1]) + (if Valid(r) then {r.left, r.right} else {})
  }

  function YEdges(rects: seq<Rect>): set<int> {
    if rects == [] then {}
    else
      var r := rects[|rects| - 1];
      YEdges(rects[..|rects| - 1]) + (if Valid(r) then {r.top, r.bottom} else {})
  }

  function ValidCount(rects: seq<Rect>): nat {
    if rects == [] then 0
    else ValidCount(rects[..|rects| - 1]) + (if Valid(rects[|rects| - 1]) then 1 else 0)
  }

  lemma {:induction false} EdgesOfInputs(rects: seq<Rect>, i: nat)
    requires i < |rects| && Valid(rects[i])
    ensures rects[i].left in XEdges(rects) && rects[i].right in XEdges(rects)
    ensures rects[i].top in YEdges(rects) && rects[i].bottom in YEdges(rects)
  {
    if i < |rects| - 1 {
      EdgesOfInputs(rects[..|rects| - 1], i);
    }
  }

  lemma {:induction false} EdgeCount(rects: seq<Rect>)
    ensures |XEdges(rects)| <= 2 * ValidCount(rects)
    ensures |YEdges(rects)| <= 2 * ValidCount(rects)
  {
    if rects != [] {
      var t := rects[..|rects| - 1];
      var r := rects[|rects| - 1];
      EdgeCount(t);
      UnionCount(XEdges(t), if Valid(r) then {r.left, r.right} else {});
      UnionCount(YEdges(t), if Valid(r) then {r.top, r.bottom} else {});
    }
  }

  lemma UnionCount(a: set<int>, b: set<int>)
    ensures |a + b| <= |a| + |b|
  {
    assert |a + b| == |a| + |b| - |a * b|;
  }

  /** Every edge of an output is an edge of a valid input. */
  lemma OutputEdges(rects: seq<Rect>, o: RectSet)
    requires IsRun(rects, o)
    ensures o.rect.left in XEdges(rects) && o.rect.right in XEdges(rects)
    ensures o.rect.top in YEdges(rects) && o.rect.bottom in YEdges(rects)
    ensures Valid(o.rect)
  {
    var k := KeyOf(o);
    ChangeIsXEdge(rects, o.rect.left, k);
    ChangeIsXEdge(rects, o.rect.right, k);
    assert Region(rects, o.rect.left, k);
    EdgeIsYEdge(rects, o.rect.left, k.top);
    EdgeIsYEdge(rects, o.rect.left, k.bottom);
  }

  lemma ChangeIsXEdge(rects: seq<Rect>, x: int, k: Key)
    requires Region(rects, x - 1, k) != Region(rects, x, k)
    ensures x in XEdges(rects)
  {
    if forall i: nat :: Active(rects, i, x - 1) <==> Active(rects, i, x) {
      SameActiveSameRegions(rects, x - 1, x, k);
    } else {
      var i: nat :| Active(rects, i, x - 1) != Active(rects, i, x);
      EdgesOfInputs(rects, i);
    }
  }

  lemma EdgeIsYEdge(rects: seq<Rect>, x: int, y: int)
    requires Edge(rects, x, y)
    ensures y in YEdges(rects)
  {
    var i: nat :| Active(rects, i, x) && (y == rects[i].top || y == rects[i].bottom);
    EdgesOfInputs(rects, i);
  }

  lemma Inhabited(s: set<int>)
    ensures s == {} || exists e :: e in s
  {
    if forall e :: e !in s {
      assert s == {};
    }
  }

  lemma {:induction false} LeastElement(s: set<int>) returns (m: int)
    requires s != {}
    ensures m in s && forall e :: e in s ==> m <= e
    decreases s
  {
    Inhabited(s);
    var e :| e in s;
    if s == {e} {
      m := e;
    } else {
      var r := s - {e};
      assert s == r + {e};
      assert r != {};
      var n := LeastElement(r);
      m := if e < n then e else n;
    }
  }

  lemma GreatestElement(s: set<int>) returns (m: int)
    requires s != {}
    ensures m in s && forall e :: e in s ==> e <= m
  {
    var negated := set e | e in s :: -e;
    Inhabited(s);
    var e :| e in s;
    assert -e in negated;
    var n := LeastElement(negated);
    m := -n;
    forall f | f in s ensures f <= m { assert -f in negated; }
  }

  /** A corner: the right edge and the top of an output. No two outputs share one. */
  function Corner(o: RectSet): (int, int) {
    (o.rect.right, o.rect.top)
  }

  lemma CornerIsUnique(rects: seq<Rect>, o: RectSet, p: RectSet)
    requires IsRun(rects, o) && IsRun(rects, p) && Corner(o) == Corner(p)
    ensures o == p
  {
    OutputEdges(rects, o);
    OutputEdges(rects, p);
    OutputsDisjoint(rects, o, p, o.rect.right - 1, o.rect.top);
  }

  function Product(a: set<int>, b: set<int>): set<(int, int)> {
    set x, y | x in a && y in b :: (x, y)
  }

  lemma {:induction false} ProductCount(a: set<int>, b: set<int>)
    ensures |Product(a, b)| == |a| * |b|
  {
    if a == {} {
      assert Product(a, b) == {};
    } else {
      Inhabited(a);
      var x :| x in a;
      var a' := a - {x};
      ProductCount(a', b);
      RowCount(x, b);
      assert Product(a, b) == Product(a', b) + Product({x}, b);
      assert Product(a', b) !! Product({x}, b);
      assert |Product(a, b)| == |Product(a', b)| + |Product({x}, b)|;
      assert |a| == |a'| + 1;
      assert (|a'| + 1) * |b| == |a'| * |b| + |b|;
    }
  }

  lemma {:induction false} RowCount(x: int, b: set<int>)
    ensures |Product({x}, b)| == |b|
  {
    if b == {} {
      assert Product({x}, b) == {};
    } else {
      Inhabited(b);
      var y :| y in b;
      RowCount(x, b - {y});
      assert Product({x}, b) == Product({x}, b - {y}) + {(x, y)};
    }
  }

  lemma {:induction false} DistinctCornersCount(s: seq<RectSet>, corners: set<(int, int)>)
    requires forall i, j :: 0 <= i < j < |s| ==> Corner(s[i]) != Corner(s[j])
    requires forall i :: 0 <= i < |s| ==> Corner(s[i]) in corners
    ensures |s| <= |corners|
  {
    if s != [] {
      var n := |s| - 1;
      var c := Corner(s[n]);
      forall i | 0 <= i < n ensures Corner(s[..n][i]) in corners - {c} {}
      DistinctCornersCount(s[..n], corners - {c});
      assert corners == (corners - {c}) + {c};
    }
  }

  lemma SquareMonotone(a: nat, b: nat, n: nat)
    requires a <= n && b <= n
    ensures a * b <= n * n
  {
    assert a * b <= a * n;
    assert a * n <= n * n;
  }

  lemma CornersDistinct(rects: seq<Rect>, s: seq<RectSet>)
    requires IsSeparation(rects, s)
    ensures forall i, j :: 0 <= i < j < |s| ==> Corner(s[i]) != Corner(s[j])
  {
    hide IsRun, EmittedBefore;
    forall i, j | 0 <= i < j < |s| ensures Corner(s[i]) != Corner(s[j]) {
      assert s[i] in s && s[j] in s;
      EmissionHasNoRepeats(s, i, j);
      if Corner(s[i]) == Corner(s[j]) { CornerIsUnique(rects, s[i], s[j]); }
    }
  }

  /** No output ends at the leftmost edge or starts at the lowest one. */
  lemma CornersInProduct(rects: seq<Rect>, s: seq<RectSet>, x0: int, y1: int)
    requires IsSeparation(rects, s)
    requires forall x :: x in XEdges(rects) ==> x0 <= x
    requires forall y :: y in YEdges(rects) ==> y <= y1
    ensures forall i :: 0 <= i < |s| ==> Corner(s[i]) in Product(XEdges(rects) - {x0}, YEdges(rects) - {y1})
  {
    hide IsRun, EmittedBefore, XEdges, YEdges;
    forall i | 0 <= i < |s| ensures Corner(s[i]) in Product(XEdges(rects) - {x0}, YEdges(rects) - {y1}) {
      assert s[i] in s;
      OutputEdges(rects, s[i]);
    }
  }

  lemma CornerCount(rects: seq<Rect>, s: seq<RectSet>)
    requires IsSeparation(rects, s) && s != []
    ensures |XEdges(rects)| > 0 && |YEdges(rects)| > 0
    ensures |s| <= (|XEdges(rects)| - 1) * (|YEdges(rects)| - 1)
  {
    hide IsRun, EmittedBefore, Product, XEdges, YEdges;
    assert s[0] in s;
    OutputEdges(rects, s[0]);
    var xs, ys := XEdges(rects), YEdges(rects);
    var x0 := LeastElement(xs);
    var y1 := GreatestElement(ys);
    CornersInProduct(rects, s, x0, y1);
    CornersDistinct(rects, s);
    DistinctCornersCount(s, Product(xs - {x0}, ys - {y1}));
    ProductCount(xs - {x0}, ys - {y1});
    assert |xs - {x0}| == |xs| - 1 && |ys - {y1}| == |ys| - 1;
  }

  /** With n valid inputs at most (2n-1)^2 rectangles are emitted, and none when n is 0. */
  lemma OutputCount(rects: seq<Rect>, s: seq<RectSet>)
    requires IsSeparation(rects, s)
    ensures ValidCount(rects) == 0 ==> s == []
    ensures ValidCount(rects) > 0 ==> |s| <= (2 * ValidCount(rects) - 1) * (2 * ValidCount(rects) - 1)
  {
    hide IsSeparation, ValidCount, XEdges, YEdges;
    if s != [] {
      CornerCount(rects, s);
      EdgeCount(rects);
      SquareMonotone(|XEdges(rects)| - 1, |YEdges(rects)| - 1, 2 * ValidCount(rects) - 1);
    }
  }
}
