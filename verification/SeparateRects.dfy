/** The line sweep of separate_rects.cpp, `separate_rects`, on integer coordinates.

    `std::set<SweepEvent>` and `std::map<StartedRect, bool>` are kept as sequences in their
    iteration order, strictly increasing under the source's comparators, and each loop of
    the source is a loop here. */
module SeparateRects {
  import opened IdSets
  import opened SweepSpec

  datatype EventType = START | END

  /** `at` is the event's x or its y, which share storage in the source. */
  datatype SweepEvent = SweepEvent(kind: EventType, at: int, rectId: nat)

  /** The comparator of events: neither the type nor anything else takes part. */
  predicate EventLess(a: SweepEvent, b: SweepEvent) {
    a.at < b.at || (a.at == b.at && a.rectId < b.rectId)
  }

  ghost predicate EventSet(s: seq<SweepEvent>) {
    forall i, j :: 0 <= i < j < |s| ==> EventLess(s[i], s[j])
  }

  datatype StartedRect = StartedRect(idSet: bv64, left: int, top: int, bottom: int)
  {
    /** `left` is not part of the key. */
    function Key(): Key {
      SweepSpec.Key(top, bottom, idSet)
    }
  }

  predicate StartedLess(a: StartedRect, b: StartedRect) {
    KeyLess(a.Key(), b.Key())
  }

  /** An entry of the map of started rectangles. */
  datatype Entry = Entry(rect: StartedRect, seen: bool)

  ghost predicate StartedMap(s: seq<Entry>) {
    forall i, j :: 0 <= i < j < |s| ==> StartedLess(s[i].rect, s[j].rect)
  }

  // ---- Ordered set of events ----

  function InsertEvent(s: seq<SweepEvent>, e: SweepEvent): seq<SweepEvent> {
    if s == [] then [e]
    else if EventLess(e, s[0]) then [e] + s
    else if EventLess(s[0], e) then [s[0]] + InsertEvent(s[1..], e)
    else s
  }

  lemma {:induction false} InsertEventSpec(s: seq<SweepEvent>, e: SweepEvent)
    requires EventSet(s)
    requires forall d :: d in s ==> d.at != e.at || d.rectId != e.rectId
    ensures EventSet(InsertEvent(s, e))
    ensures forall d :: d in InsertEvent(s, e) <==> d in s || d == e
  {
    if s != [] && EventLess(s[0], e) {
      InsertEventSpec(s[1..], e);
      var t := InsertEvent(s[1..], e);
      forall j | 0 <= j < |t| ensures EventLess(s[0], t[j]) {
        assert t[j] in t;
        if t[j] != e { var k :| 0 <= k < |s[1..]| && s[1..][k] == t[j]; assert s[k + 1] == t[j]; }
      }
      forall d ensures d in InsertEvent(s, e) <==> d in s || d == e {
        assert s == [s[0]] + s[1..];
      }
    } else if s != [] {
      assert s[0] in s;
      assert EventLess(e, s[0]);
    }
  }

  /** The position of the event equivalent to e, or the size of the set when there is none. */
  function FindEvent(s: seq<SweepEvent>, e: SweepEvent): (k: nat)
    ensures k <= |s|
    ensures k < |s| ==> s[k].at == e.at && s[k].rectId == e.rectId
    ensures k == |s| ==> forall d :: d in s ==> d.at != e.at || d.rectId != e.rectId
  {
    if s == [] then 0
    else if s[0].at == e.at && s[0].rectId == e.rectId then 0
    else 1 + FindEvent(s[1..], e)
  }

  function EraseAt<T>(s: seq<T>, k: nat): seq<T>
    requires k < |s|
  {
    s[..k] + s[k + 1..]
  }

  lemma EraseEventSpec(s: seq<SweepEvent>, k: nat)
    requires EventSet(s) && k < |s|
    ensures EventSet(EraseAt(s, k))
    ensures forall d :: d in EraseAt(s, k) <==> d in s && d != s[k]
  {
    var t := EraseAt(s, k);
    forall d ensures d in t <==> d in s && d != s[k] {
      if d in s && d != s[k] {
        var i :| 0 <= i < |s| && s[i] == d;
        assert t[if i < k then i else i - 1] == d;
      }
      if d in t {
        var i :| 0 <= i < |t| && t[i] == d;
        assert s[if i < k then i else i + 1] == d;
      }
    }
  }

  // ---- Events of rectangles ----

  function StartH(rects: seq<Rect>, i: nat): SweepEvent requires i < |rects| {
    SweepEvent(START, rects[i].left, i)
  }

  function EndH(rects: seq<Rect>, i: nat): SweepEvent requires i < |rects| {
    SweepEvent(END, rects[i].right, i)
  }

  function StartV(rects: seq<Rect>, i: nat): SweepEvent requires i < |rects| {
    SweepEvent(START, rects[i].top, i)
  }

  function EndV(rects: seq<Rect>, i: nat): SweepEvent requires i < |rects| {
    SweepEvent(END, rects[i].bottom, i)
  }

  /** h holds the left and right events of the first n rectangles that are valid. */
  ghost predicate HEventsOf(rects: seq<Rect>, n: nat, h: seq<SweepEvent>) {
    && n <= |rects|
    && EventSet(h)
    && forall e :: e in h <==>
        e.rectId < n && Valid(rects[e.rectId]) && (e == StartH(rects, e.rectId) || e == EndH(rects, e.rectId))
  }

  /** v holds the top and bottom events of the rectangles in `ids`. */
  ghost predicate VEventsOf(rects: seq<Rect>, ids: set<nat>, v: seq<SweepEvent>) {
    && (forall i :: i in ids ==> i < |rects| && Valid(rects[i]))
    && EventSet(v)
    && forall e :: e in v <==>
        e.rectId in ids && (e == StartV(rects, e.rectId) || e == EndV(rects, e.rectId))
  }

  method CollectHEvents(rects: seq<Rect>) returns (h: seq<SweepEvent>)
    ensures HEventsOf(rects, |rects|, h)
  {
    h := [];
    for i := 0 to |rects|
      invariant HEventsOf(rects, i, h)
    {
      var rect := rects[i];
      if rect.left >= rect.right || rect.top >= rect.bottom {
        continue;
      }
      InsertEventSpec(h, StartH(rects, i));
      h := InsertEvent(h, SweepEvent(START, rect.left, i));
      InsertEventSpec(h, EndH(rects, i));
      h := InsertEvent(h, SweepEvent(END, rect.right, i));
    }
  }

  /** Ids whose left event lies before position k and whose right event does not. */
  ghost function IdsOpen(rects: seq<Rect>, h: seq<SweepEvent>, k: nat): set<nat>
    requires k <= |h|
  {
    set i: nat | i < |rects| && Valid(rects[i]) && StartH(rects, i) in h[..k] && EndH(rects, i) !in h[..k]
  }

  lemma EnterSweepLine(rects: seq<Rect>, ids: set<nat>, v: seq<SweepEvent>, i: nat)
    requires VEventsOf(rects, ids, v)
    requires i < |rects| && Valid(rects[i]) && i !in ids
    ensures VEventsOf(rects, ids + {i}, InsertEvent(InsertEvent(v, StartV(rects, i)), EndV(rects, i)))
  {
    InsertEventSpec(v, StartV(rects, i));
    InsertEventSpec(InsertEvent(v, StartV(rects, i)), EndV(rects, i));
  }

  lemma LeaveFinds(rects: seq<Rect>, ids: set<nat>, v: seq<SweepEvent>, i: nat)
    requires VEventsOf(rects, ids, v) && i in ids
    ensures FindEvent(v, StartV(rects, i)) < |v|
    ensures v[FindEvent(v, StartV(rects, i))] == StartV(rects, i)
    ensures EventSet(EraseAt(v, FindEvent(v, StartV(rects, i))))
    ensures forall d :: d in EraseAt(v, FindEvent(v, StartV(rects, i))) <==> d in v && d != StartV(rects, i)
  {
    assert StartV(rects, i) in v;
    var k := FindEvent(v, StartV(rects, i));
    assert v[k] in v;
    EraseEventSpec(v, k);
  }

  lemma LeaveSweepLine(rects: seq<Rect>, ids: set<nat>, v: seq<SweepEvent>, i: nat, v1: seq<SweepEvent>)
    requires VEventsOf(rects, ids, v) && i in ids
    requires EventSet(v1)
    requires forall d :: d in v1 <==> d in v && d != StartV(rects, i)
    ensures FindEvent(v1, EndV(rects, i)) < |v1|
    ensures VEventsOf(rects, ids - {i}, EraseAt(v1, FindEvent(v1, EndV(rects, i))))
  {
    assert EndV(rects, i) in v1;
    var k := FindEvent(v1, EndV(rects, i));
    assert v1[k] in v1;
    assert v1[k] == EndV(rects, i);
    EraseEventSpec(v1, k);
    WithoutRect(rects, ids, v, i, EraseAt(v1, k));
    hide FindEvent, EraseAt, EventSet, VEventsOf;
  }

  lemma WithoutRect(rects: seq<Rect>, ids: set<nat>, v: seq<SweepEvent>, i: nat, v2: seq<SweepEvent>)
    requires VEventsOf(rects, ids, v) && i in ids && EventSet(v2)
    requires forall d :: d in v2 <==> d in v && d != StartV(rects, i) && d != EndV(rects, i)
    ensures VEventsOf(rects, ids - {i}, v2)
  {
    hide EventSet;
  }

  /** One event of the sweep: the rectangle's top and bottom enter or leave the sweep line. */
  method UpdateVEvents(rects: seq<Rect>, ghost ids: set<nat>, v: seq<SweepEvent>, hEvt: SweepEvent)
    returns (v': seq<SweepEvent>)
    requires VEventsOf(rects, ids, v)
    requires hEvt.rectId < |rects| && Valid(rects[hEvt.rectId])
    requires hEvt.kind == START <==> hEvt.rectId !in ids
    ensures VEventsOf(rects, if hEvt.kind == START then ids + {hEvt.rectId} else ids - {hEvt.rectId}, v')
  {
    hide VEventsOf, EventSet, InsertEvent, FindEvent;
    var rect := rects[hEvt.rectId];
    if hEvt.kind == START {
      EnterSweepLine(rects, ids, v, hEvt.rectId);
      v' := InsertEvent(v, SweepEvent(START, rect.top, hEvt.rectId));
      v' := InsertEvent(v', SweepEvent(END, rect.bottom, hEvt.rectId));
    } else {
      LeaveFinds(rects, ids, v, hEvt.rectId);
      var startIt := FindEvent(v, SweepEvent(START, rect.top, hEvt.rectId));
      assert startIt != |v|;
      v' := EraseAt(v, startIt);
      LeaveSweepLine(rects, ids, v, hEvt.rectId, v');
      var endIt := FindEvent(v', SweepEvent(END, rect.bottom, hEvt.rectId));
      assert endIt != |v'|;
      v' := EraseAt(v', endIt);
    }
  }

  // ---- The cross section at a stop ----

  /** A horizontal slice of the cross section: a y and the ids covering what starts there. */
  type Slice = (int, bv64)

  /** `a` is the cross section at x: all edges from top to bottom, each with the set covering
      the strip that it starts. */
  ghost predicate CrossSection(rects: seq<Rect>, x: int, a: seq<Slice>) {
    && (forall m, n :: 0 <= m < n < |a| ==> a[m].0 < a[n].0)
    && (forall m :: 0 <= m < |a| ==> Edge(rects, x, a[m].0))
    && (forall y :: Edge(rects, x, y) ==> exists m :: 0 <= m < |a| && a[m].0 == y)
    && (forall m :: 0 <= m < |a| ==> Members(a[m].1) == Cover(rects, x, a[m].0))
  }

  ghost function ActiveIds(rects: seq<Rect>, x: int): set<nat> {
    set i: nat | i < |rects| && Active(rects, i, x)
  }

  /** The ids whose top event has been passed and whose bottom event has not. */
  ghost function IdsBetween(rects: seq<Rect>, v: seq<SweepEvent>, j: nat): set<nat>
    requires j <= |v|
  {
    set i: nat | i < |rects| && StartV(rects, i) in v[..j] && EndV(rects, i) !in v[..j]
  }

  lemma IdsBetweenStep(rects: seq<Rect>, x: int, v: seq<SweepEvent>, j: nat)
    requires VEventsOf(rects, ActiveIds(rects, x), v) && j < |v|
    ensures v[j].rectId < |rects|
    ensures IdsBetween(rects, v, j + 1)
         == if v[j].kind == START then IdsBetween(rects, v, j) + {v[j].rectId}
            else IdsBetween(rects, v, j) - {v[j].rectId}
  {
    var e := v[j];
    assert e in v;
    assert v[..j + 1] == v[..j] + [e];
    if e.kind == START {
      // The bottom event of the same rectangle lies further down.
      assert EndV(rects, e.rectId) !in v[..j];
    }
  }

  /** Once every event at the current y has been passed, the running set is the covering set. */
  lemma IdsBetweenIsCover(rects: seq<Rect>, x: int, v: seq<SweepEvent>, j: nat)
    requires VEventsOf(rects, ActiveIds(rects, x), v)
    requires 0 < j <= |v|
    requires j < |v| ==> v[j - 1].at < v[j].at
    ensures IdsBetween(rects, v, j) == Cover(rects, x, v[j - 1].at)
  {
    var y := v[j - 1].at;
    forall e | e in v ensures e in v[..j] <==> e.at <= y {
      var k :| 0 <= k < |v| && v[k] == e;
      if k < j {
        assert v[..j][k] == e;
        assert k == j - 1 || EventLess(v[k], v[j - 1]);
      } else {
        assert k == j || EventLess(v[j], v[k]);
      }
    }
    forall i: nat | i < |rects| && Active(rects, i, x)
      ensures i in IdsBetween(rects, v, j) <==> i in Cover(rects, x, y)
    {
      assert i in ActiveIds(rects, x);
      assert StartV(rects, i) in v && EndV(rects, i) in v;
    }
    forall i: nat | i in IdsBetween(rects, v, j)
      ensures Active(rects, i, x)
    {
      assert StartV(rects, i) in v;
      assert i in ActiveIds(rects, x);
    }
  }

  /** `a` holds the slices of the first j events; the last one may still change. */
  ghost predicate Scanned(rects: seq<Rect>, x: int, v: seq<SweepEvent>, j: nat, a: seq<Slice>, bits: bv64)
    requires j <= |v|
  {
    && Members(bits) == IdsBetween(rects, v, j)
    && (j == 0 <==> a == [])
    && (j > 0 ==> a[|a| - 1] == (v[j - 1].at, bits))
    && (forall m, n :: 0 <= m < n < |a| ==> a[m].0 < a[n].0)
    && (forall m :: 0 <= m < |a| - 1 ==> Members(a[m].1) == Cover(rects, x, a[m].0))
    && (forall m :: 0 <= m < |a| ==> Edge(rects, x, a[m].0))
    && (forall i :: 0 <= i < j ==> exists m :: 0 <= m < |a| && a[m].0 == v[i].at)
  }

  function RecordSlice(a: seq<Slice>, y: int, bits: bv64): seq<Slice> {
    if |a| > 0 && a[|a| - 1].0 == y then a[|a| - 1 := (y, bits)] else a + [(y, bits)]
  }

  /** One more event: at the y of the last slice it changes that slice's set, otherwise it opens a slice, and the
      slice before is final. */
  lemma ScanStep(rects: seq<Rect>, x: int, v: seq<SweepEvent>, j: nat, a: seq<Slice>, bits: bv64, bits': bv64)
    requires VEventsOf(rects, ActiveIds(rects, x), v)
    requires j < |v| && Scanned(rects, x, v, j, a, bits)
    requires Members(bits') == IdsBetween(rects, v, j + 1)
    ensures Scanned(rects, x, v, j + 1, RecordSlice(a, v[j].at, bits'), bits')
  {
    assert v[j] in v;
    assert Edge(rects, x, v[j].at);
    assert j > 0 ==> EventLess(v[j - 1], v[j]);
    if j > 0 && v[j - 1].at == v[j].at {
      hide VEventsOf, Edge;
      ScanSame(rects, x, v, j, a, bits, bits');
    } else {
      if j > 0 { IdsBetweenIsCover(rects, x, v, j); }
      hide VEventsOf, Edge;
      ScanNew(rects, x, v, j, a, bits, bits');
    }
  }

  lemma ScanSame(rects: seq<Rect>, x: int, v: seq<SweepEvent>, j: nat, a: seq<Slice>, bits: bv64, bits': bv64)
    requires 0 < j < |v| && v[j - 1].at == v[j].at && Scanned(rects, x, v, j, a, bits)
    requires Members(bits') == IdsBetween(rects, v, j + 1)
    ensures Scanned(rects, x, v, j + 1, RecordSlice(a, v[j].at, bits'), bits')
  {
    hide Members, IdsBetween, Edge, Cover;
    var a' := RecordSlice(a, v[j].at, bits');
    assert forall m :: 0 <= m < |a| ==> a[m].0 == a'[m].0;
  }

  lemma ScanNew(rects: seq<Rect>, x: int, v: seq<SweepEvent>, j: nat, a: seq<Slice>, bits: bv64, bits': bv64)
    requires j < |v| && Scanned(rects, x, v, j, a, bits) && Edge(rects, x, v[j].at)
    requires j > 0 ==> v[j - 1].at < v[j].at && Members(bits) == Cover(rects, x, v[j - 1].at)
    requires Members(bits') == IdsBetween(rects, v, j + 1)
    ensures Scanned(rects, x, v, j + 1, RecordSlice(a, v[j].at, bits'), bits')
  {
    hide Members, IdsBetween, Edge, Cover;
    var a' := RecordSlice(a, v[j].at, bits');
    assert forall m :: 0 <= m < |a| ==> a[m].0 == a'[m].0;
    assert a'[|a'| - 1].0 == v[j].at;
  }

  lemma ScannedMembers(rects: seq<Rect>, x: int, v: seq<SweepEvent>, j: nat, a: seq<Slice>, bits: bv64)
    requires j <= |v| && Scanned(rects, x, v, j, a, bits)
    ensures Members(bits) == IdsBetween(rects, v, j)
  {
  }

  lemma ScanStart(rects: seq<Rect>, x: int, v: seq<SweepEvent>)
    ensures Scanned(rects, x, v, 0, [], 0)
  {
    NoMembers();
  }

  lemma ScanDone(rects: seq<Rect>, x: int, v: seq<SweepEvent>, a: seq<Slice>, bits: bv64)
    requires VEventsOf(rects, ActiveIds(rects, x), v)
    requires Scanned(rects, x, v, |v|, a, bits)
    ensures CrossSection(rects, x, a)
  {
    hide Members, IdsBetween;
    if |v| > 0 {
      IdsBetweenIsCover(rects, x, v, |v|);
    }
    EdgesAreEvents(rects, x, v);
  }

  method ScanActiveRegions(rects: seq<Rect>, ghost x: int, v: seq<SweepEvent>)
    returns (activeRegions: seq<Slice>)
    requires |rects| <= MAX_ELEMENTS
    requires VEventsOf(rects, ActiveIds(rects, x), v)
    ensures CrossSection(rects, x, activeRegions)
  {
    hide Members, IdsBetween, ActiveIds, VEventsOf, Scanned, CrossSection;
    activeRegions := [];
    var activeSet := new IdSet();
    ScanStart(rects, x, v);
    for j := 0 to |v|
      invariant fresh(activeSet)
      invariant Scanned(rects, x, v, j, activeRegions, activeSet.bitset)
    {
      var vEvt := v[j];
      ghost var bits := activeSet.bitset;
      IdsBetweenStep(rects, x, v, j);
      ScannedMembers(rects, x, v, j, activeRegions, bits);
      if vEvt.kind == START {
        activeSet.Add(vEvt.rectId);
      } else {
        activeSet.Subtract(vEvt.rectId);
      }
      ScanStep(rects, x, v, j, activeRegions, bits, activeSet.bitset);
      if |activeRegions| > 0 && activeRegions[|activeRegions| - 1].0 == vEvt.at {
        activeRegions := activeRegions[|activeRegions| - 1 := (vEvt.at, activeSet.bitset)];
      } else {
        activeRegions := activeRegions + [(vEvt.at, activeSet.bitset)];
      }
    }
    ScanDone(rects, x, v, activeRegions, activeSet.bitset);
  }

  lemma EdgesAreEvents(rects: seq<Rect>, x: int, v: seq<SweepEvent>)
    requires VEventsOf(rects, ActiveIds(rects, x), v)
    ensures forall y :: Edge(rects, x, y) ==> exists i :: 0 <= i < |v| && v[i].at == y
  {
    forall y | Edge(rects, x, y)
      ensures exists i :: 0 <= i < |v| && v[i].at == y
    {
      var i: nat :| Active(rects, i, x) && (y == rects[i].top || y == rects[i].bottom);
      assert i in ActiveIds(rects, x);
      var e := if y == rects[i].top then StartV(rects, i) else EndV(rects, i);
      assert e in v;
    }
  }

  /** The region that slice m starts; the next slice bounds it below. */
  function RegionKey(a: seq<Slice>, m: nat): Key
    requires m + 1 < |a|
  {
    Key(a[m].0, a[m + 1].0, a[m].1)
  }

  /** k is one of the non-empty regions among the first n slices. */
  ghost predicate RegionAmong(a: seq<Slice>, n: nat, k: Key) {
    exists m: nat :: m < n && m + 1 < |a| && a[m].1 != 0 && RegionKey(a, m) == k
  }

  /** The lowest slice covers nothing, so a covered slice always has a successor. */
  lemma LastSliceEmpty(rects: seq<Rect>, x: int, a: seq<Slice>)
    requires CrossSection(rects, x, a) && a != []
    ensures a[|a| - 1].1 == 0
  {
    var y := a[|a| - 1].0;
    forall i: nat | i < |rects| && Active(rects, i, x)
      ensures rects[i].bottom <= y
    {
      assert Edge(rects, x, rects[i].bottom);
      var m :| 0 <= m < |a| && a[m].0 == rects[i].bottom;
    }
    assert Cover(rects, x, y) == {};
    NoMembers();
    SameMembersSameBits(a[|a| - 1].1, 0);
  }

  lemma SliceIsRegion(rects: seq<Rect>, x: int, a: seq<Slice>, m: nat)
    requires CrossSection(rects, x, a) && m + 1 < |a| && a[m].1 != 0
    ensures Region(rects, x, RegionKey(a, m))
  {
    hide Members, Edge;
    forall n | 0 <= n < |a| ensures a[n].0 <= a[m].0 || a[m + 1].0 <= a[n].0 {
      assert n <= m || m + 1 <= n;
    }
  }

  lemma RegionIsSlice(rects: seq<Rect>, x: int, a: seq<Slice>, k: Key)
    requires CrossSection(rects, x, a) && Region(rects, x, k)
    ensures RegionAmong(a, |a|, k)
  {
    hide Members, Edge;
    var m: nat :| m < |a| && a[m].0 == k.top;
    var n: nat :| n < |a| && a[n].0 == k.bottom;
    assert m < n;
    assert m + 1 == n by {
      assert Edge(rects, x, a[m + 1].0);
    }
    SameMembersSameBits(a[m].1, k.idSet);
    assert RegionKey(a, m) == k;
  }

  /** The cross section lists exactly the regions. */
  lemma SlicesAreRegions(rects: seq<Rect>, x: int, a: seq<Slice>, k: Key)
    requires CrossSection(rects, x, a)
    ensures RegionAmong(a, |a|, k) <==> Region(rects, x, k)
  {
    hide Region, CrossSection;
    if RegionAmong(a, |a|, k) {
      var m: nat :| m < |a| && m + 1 < |a| && a[m].1 != 0 && RegionKey(a, m) == k;
      SliceIsRegion(rects, x, a, m);
    }
    if Region(rects, x, k) {
      RegionIsSlice(rects, x, a, k);
    }
  }

  // ---- Ordered map of started rectangles ----

  function FindStarted(s: seq<Entry>, k: Key): (i: nat)
    ensures i <= |s|
    ensures i < |s| ==> s[i].rect.Key() == k
    ensures i == |s| ==> forall e :: e in s ==> e.rect.Key() != k
  {
    if s == [] then 0
    else if s[0].rect.Key() == k then 0
    else 1 + FindStarted(s[1..], k)
  }

  function InsertStarted(s: seq<Entry>, e: Entry): seq<Entry> {
    if s == [] then [e]
    else if StartedLess(s[0].rect, e.rect) then [s[0]] + InsertStarted(s[1..], e)
    else [e] + s
  }

  lemma {:induction false} InsertStartedSpec(s: seq<Entry>, e: Entry)
    requires StartedMap(s)
    requires forall d :: d in s ==> d.rect.Key() != e.rect.Key()
    ensures StartedMap(InsertStarted(s, e))
    ensures forall d :: d in InsertStarted(s, e) <==> d in s || d == e
  {
    if s != [] && StartedLess(s[0].rect, e.rect) {
      InsertStartedSpec(s[1..], e);
      var t := InsertStarted(s[1..], e);
      forall j | 0 <= j < |t| ensures StartedLess(s[0].rect, t[j].rect) {
        assert t[j] in t;
        if t[j] != e { var k :| 0 <= k < |s[1..]| && s[1..][k] == t[j]; assert s[k + 1] == t[j]; }
      }
      assert s == [s[0]] + s[1..];
    } else if s != [] {
      assert s[0] in s;
      KeyLessTotal(e.rect.Key(), s[0].rect.Key());
      forall j | 0 <= j < |s| ensures StartedLess(e.rect, s[j].rect) {
        if j > 0 { KeyLessTransitive(e.rect.Key(), s[0].rect.Key(), s[j].rect.Key()); }
      }
    }
  }

  /** The comparator of started rectangles orders any two different keys. */
  lemma KeyLessTotal(a: Key, b: Key)
    ensures a == b || KeyLess(a, b) || KeyLess(b, a)
  {
    hide Less;
    BitsTotal(a.idSet, b.idSet);
  }

  lemma KeyLessIrreflexive(a: Key)
    ensures !KeyLess(a, a)
  {
  }

  lemma KeyLessTransitive(a: Key, b: Key, c: Key)
    requires KeyLess(a, b) && KeyLess(b, c)
    ensures KeyLess(a, c)
  {
    hide Less;
    if a.top == b.top == c.top && a.bottom == b.bottom == c.bottom {
      LessTransitive(a.idSet, b.idSet, c.idSet);
    }
  }

  ghost predicate HasKey(s: seq<Entry>, k: Key) {
    exists e :: e in s && e.rect.Key() == k
  }

  lemma OneEntryPerKey(s: seq<Entry>, d: Entry, e: Entry)
    requires StartedMap(s) && d in s && e in s && d.rect.Key() == e.rect.Key()
    ensures d == e
  {
    var i :| 0 <= i < |s| && s[i] == d;
    var j :| 0 <= j < |s| && s[j] == e;
    KeyLessIrreflexive(d.rect.Key());
  }

  // ---- The three loops over the map at a stop ----

  /** s' holds the rectangles of s, all unseen. */
  ghost predicate Unmarked(s: seq<Entry>, s': seq<Entry>) {
    forall r: StartedRect, b: bool :: Entry(r, b) in s' <==> !b && (Entry(r, false) in s || Entry(r, true) in s)
  }

  method MarkUnseen(s: seq<Entry>) returns (s': seq<Entry>)
    requires StartedMap(s)
    ensures StartedMap(s')
    ensures forall e :: e in s' ==> !e.seen
    ensures Unmarked(s, s')
  {
    s' := s;
    for i := 0 to |s|
      invariant |s'| == |s|
      invariant forall j :: 0 <= j < i ==> s'[j] == Entry(s[j].rect, false)
      invariant forall j :: i <= j < |s| ==> s'[j] == s[j]
    {
      s' := s'[i := Entry(s'[i].rect, false)];
    }
    forall r: StartedRect, b: bool
      ensures Entry(r, b) in s' <==> !b && (Entry(r, false) in s || Entry(r, true) in s)
    {
      if Entry(r, b) in s' {
        var j :| 0 <= j < |s| && s'[j] == Entry(r, b);
        assert s[j] in s;
      }
      if !b && (Entry(r, false) in s || Entry(r, true) in s) {
        var c :| Entry(r, c) in s;
        var j :| 0 <= j < |s| && s[j] == Entry(r, c);
        assert s'[j] in s';
      }
    }
  }

  /** `s` is the map once the first n slices have been looked up in the all-unseen map s0. */
  ghost predicate Matched(s0: seq<Entry>, x: int, a: seq<Slice>, n: nat, s: seq<Entry>) {
    && StartedMap(s)
    && forall r: StartedRect, b: bool :: Entry(r, b) in s <==>
        || (Entry(r, false) in s0 && (b <==> RegionAmong(a, n, r.Key())))
        || (b && r.left == x && RegionAmong(a, n, r.Key()) && !HasKey(s0, r.Key()))
  }

  lemma MatchKeepsKeys(s0: seq<Entry>, x: int, a: seq<Slice>, n: nat, s: seq<Entry>, k: Key)
    requires forall e :: e in s0 ==> !e.seen
    requires Matched(s0, x, a, n, s)
    ensures HasKey(s, k) <==> HasKey(s0, k) || RegionAmong(a, n, k)
  {
    if HasKey(s, k) {
      var e :| e in s && e.rect.Key() == k;
      assert Entry(e.rect, e.seen) in s;
    }
    if HasKey(s0, k) {
      var e :| e in s0 && e.rect.Key() == k;
      assert e == Entry(e.rect, false);
      assert Entry(e.rect, RegionAmong(a, n, k)) in s;
    } else if RegionAmong(a, n, k) {
      assert Entry(StartedRect(k.idSet, x, k.top, k.bottom), true) in s;
    }
  }

  lemma RegionAmongStep(a: seq<Slice>, n: nat, k: Key)
    requires n < |a|
    requires a[n].1 != 0 ==> n + 1 < |a|
    ensures RegionAmong(a, n + 1, k) <==> RegionAmong(a, n, k) || (a[n].1 != 0 && k == RegionKey(a, n))
  {
  }

  method MatchRegions(ghost rects: seq<Rect>, x: int, a: seq<Slice>, s0: seq<Entry>) returns (s: seq<Entry>)
    requires CrossSection(rects, x, a)
    requires StartedMap(s0) && forall e :: e in s0 ==> !e.seen
    ensures Matched(s0, x, a, |a|, s)
  {
    hide Matched, CrossSection, StartedMap;
    s := s0;
    NothingMatched(s0, x, a);
    for m := 0 to |a|
      invariant Matched(s0, x, a, m, s)
    {
      var regionSet := a[m].1;
      if regionSet == 0 {
        MatchEmpty(s0, x, a, m, s);
        continue;
      }
      SliceHasSuccessor(rects, x, a, m);
      assert m + 1 < |a|;
      var rectKey := StartedRect(regionSet, x, a[m].0, a[m + 1].0);
      var i := FindStarted(s, rectKey.Key());
      if i == |s| {
        MatchNew(s0, x, a, m, s, rectKey);
        s := InsertStarted(s, Entry(rectKey, true));
      } else {
        MatchKnown(s0, x, a, m, s, i);
        s := s[i := Entry(s[i].rect, true)];
      }
    }
  }

  lemma NothingMatched(s0: seq<Entry>, x: int, a: seq<Slice>)
    requires StartedMap(s0) && forall e :: e in s0 ==> !e.seen
    ensures Matched(s0, x, a, 0, s0)
  {
  }

  lemma SliceHasSuccessor(rects: seq<Rect>, x: int, a: seq<Slice>, m: nat)
    requires CrossSection(rects, x, a) && m < |a| && a[m].1 != 0
    ensures m + 1 < |a|
  {
    LastSliceEmpty(rects, x, a);
  }

  lemma MatchEmpty(s0: seq<Entry>, x: int, a: seq<Slice>, m: nat, s: seq<Entry>)
    requires Matched(s0, x, a, m, s) && m < |a| && a[m].1 == 0
    ensures Matched(s0, x, a, m + 1, s)
  {
    forall k ensures RegionAmong(a, m + 1, k) <==> RegionAmong(a, m, k) { RegionAmongStep(a, m, k); }
  }

  lemma MatchNew(s0: seq<Entry>, x: int, a: seq<Slice>, m: nat, s: seq<Entry>, r: StartedRect)
    requires forall e :: e in s0 ==> !e.seen
    requires Matched(s0, x, a, m, s) && m + 1 < |a| && a[m].1 != 0
    requires r.Key() == RegionKey(a, m) && r.left == x
    requires !HasKey(s, r.Key())
    ensures Matched(s0, x, a, m + 1, InsertStarted(s, Entry(r, true)))
  {
    MatchKeepsKeys(s0, x, a, m, s, r.Key());
    InsertStartedSpec(s, Entry(r, true));
    forall k ensures RegionAmong(a, m + 1, k) <==> RegionAmong(a, m, k) || k == RegionKey(a, m) {
      RegionAmongStep(a, m, k);
    }
    forall q: StartedRect | Entry(q, false) in s0
      ensures q.Key() != r.Key()
    {
    }
  }

  lemma MatchKnown(s0: seq<Entry>, x: int, a: seq<Slice>, m: nat, s: seq<Entry>, i: nat)
    requires forall e :: e in s0 ==> !e.seen
    requires StartedMap(s0)
    requires Matched(s0, x, a, m, s) && m + 1 < |a| && a[m].1 != 0
    requires i < |s| && s[i].rect.Key() == RegionKey(a, m)
    ensures Matched(s0, x, a, m + 1, s[i := Entry(s[i].rect, true)])
  {
    var k := RegionKey(a, m);
    var s' := s[i := Entry(s[i].rect, true)];
    forall k ensures RegionAmong(a, m + 1, k) <==> RegionAmong(a, m, k) || k == RegionKey(a, m) {
      RegionAmongStep(a, m, k);
    }
    forall d ensures d in s' <==> (d in s && d.rect.Key() != k) || d == Entry(s[i].rect, true) {
      UpdatedMember(s, i, d);
    }
    assert Entry(s[i].rect, s[i].seen) in s;
    forall r: StartedRect | Entry(r, false) in s0 && r.Key() == k
      ensures r == s[i].rect
    {
      assert Entry(r, RegionAmong(a, m, k)) in s;
      OneEntryPerKey(s, s[i], Entry(r, RegionAmong(a, m, k)));
    }
    forall r: StartedRect | r.Key() == k && r.left == x && !HasKey(s0, k)
      ensures r == s[i].rect
    {
    }
  }

  lemma UpdatedMember(s: seq<Entry>, i: nat, d: Entry)
    requires StartedMap(s) && i < |s|
    ensures d in s[i := Entry(s[i].rect, true)] <==>
            (d in s && d.rect.Key() != s[i].rect.Key()) || d == Entry(s[i].rect, true)
  {
    var s' := s[i := Entry(s[i].rect, true)];
    assert s'[i] in s';
    if d in s && d.rect.Key() != s[i].rect.Key() {
      var j :| 0 <= j < |s| && s[j] == d;
      assert s'[j] in s';
    }
    if d in s' && d != Entry(s[i].rect, true) {
      var j :| 0 <= j < |s'| && s'[j] == d;
      assert s[j] in s;
      KeyLessIrreflexive(s[i].rect.Key());
    }
  }

  /** The rectangle that a started rectangle becomes when it ends at x. */
  function Finish(r: StartedRect, x: int): RectSet {
    RectSet(r.idSet, Rect(r.left, r.top, x, r.bottom))
  }

  /** What is left of the map, and what is emitted, when the unseen entries end at x. */
  function Kept(s: seq<Entry>): seq<Entry> {
    if s == [] then []
    else Kept(s[..|s| - 1]) + (if s[|s| - 1].seen then [s[|s| - 1]] else [])
  }

  function Ended(s: seq<Entry>, x: int): seq<RectSet> {
    if s == [] then []
    else Ended(s[..|s| - 1], x) + (if s[|s| - 1].seen then [] else [Finish(s[|s| - 1].rect, x)])
  }

  lemma {:induction false} KeptSpec(s: seq<Entry>)
    requires StartedMap(s)
    ensures StartedMap(Kept(s))
    ensures forall e :: e in Kept(s) <==> e in s && e.seen
  {
    if s != [] {
      var n := |s| - 1;
      var t := s[..n];
      KeptSpec(t);
      assert s == t + [s[n]];
      forall i | 0 <= i < |Kept(t)| ensures StartedLess(Kept(t)[i].rect, s[n].rect) {
        assert Kept(t)[i] in t;
      }
    }
  }

  lemma {:induction false} EndedSpec(s: seq<Entry>, x: int)
    requires StartedMap(s)
    ensures Emitted(Ended(s, x))
    ensures forall o :: o in Ended(s, x) ==> o.rect.right == x
    ensures forall r :: Finish(r, x) in Ended(s, x) <==> Entry(r, false) in s
  {
    if s != [] {
      var n := |s| - 1;
      var t := s[..n];
      EndedSpec(t, x);
      assert s == t + [s[n]];
      forall i | 0 <= i < |Ended(t, x)| ensures EmittedBefore(Ended(t, x)[i], Finish(s[n].rect, x)) {
        var o := Ended(t, x)[i];
        var r := StartedRect(o.idSet, o.rect.left, o.rect.top, o.rect.bottom);
        assert o == Finish(r, x);
        assert Entry(r, false) in t;
      }
      forall r ensures Finish(r, x) == Finish(s[n].rect, x) <==> r == s[n].rect {}
    }
  }

  /** The map while its unseen entries are being erased: the first p entries are dealt with. */
  ghost predicate Ending(s: seq<Entry>, p: nat, x: int, it: nat, s': seq<Entry>, ended: seq<RectSet>) {
    && p <= |s|
    && it == |Kept(s[..p])|
    && s' == Kept(s[..p]) + s[p..]
    && ended == Ended(s[..p], x)
  }

  lemma EndStep(s: seq<Entry>, p: nat, x: int, it: nat, s': seq<Entry>, ended: seq<RectSet>)
    requires Ending(s, p, x, it, s', ended) && it < |s'|
    ensures p < |s| && s'[it] == s[p]
    ensures if s'[it].seen then Ending(s, p + 1, x, it + 1, s', ended)
            else Ending(s, p + 1, x, it, EraseAt(s', it), ended + [Finish(s'[it].rect, x)])
  {
    assert s[..p + 1][..p] == s[..p];
    assert s[p..] == [s[p]] + s[p + 1..];
    var before := Kept(s[..p]);
    if s[p].seen {
      assert s' == (before + [s[p]]) + s[p + 1..];
    } else {
      assert EraseAt(s', it) == before + s[p + 1..];
    }
  }

  lemma EndStart(s: seq<Entry>, x: int)
    ensures Ending(s, 0, x, 0, s, [])
  {
    assert s[..0] == [] && s[0..] == s;
  }

  lemma EndDone(s: seq<Entry>, p: nat, x: int, it: nat, s': seq<Entry>, ended: seq<RectSet>)
    requires Ending(s, p, x, it, s', ended) && it >= |s'|
    ensures s' == Kept(s) && ended == Ended(s, x)
  {
    assert s[..p] == s;
  }

  method EndUnseen(s: seq<Entry>, x: int, out: seq<RectSet>) returns (s': seq<Entry>, out': seq<RectSet>)
    ensures s' == Kept(s)
    ensures out' == out + Ended(s, x)
  {
    hide Ending, Kept, Ended;
    s', out' := s, out;
    var it := 0;
    ghost var p, ended := 0, [];
    EndStart(s, x);
    while it < |s'|
      invariant p <= |s| && Ending(s, p, x, it, s', ended)
      invariant out' == out + ended
      decreases |s| - p
    {
      EndStep(s, p, x, it, s', ended);
      if !s'[it].seen {
        ended := ended + [Finish(s'[it].rect, x)];
        out' := out' + [Finish(s'[it].rect, x)];
        s' := s'[..it] + s'[it + 1..];
      } else {
        it := it + 1;
      }
      p := p + 1;
    }
    EndDone(s, p, x, it, s', ended);
  }

  // ---- The sweep ----

  /** Everything left of the stop at x is settled: all runs that end before x are emitted, and
      the map holds the regions just left of x with the abscissa since which they have been open. */
  ghost predicate Settled(rects: seq<Rect>, x: int, s: seq<Entry>, out: seq<RectSet>) {
    && StartedMap(s)
    && (forall r: StartedRect :: (exists b :: Entry(r, b) in s) <==> OpenSince(rects, r.Key(), r.left, x - 1))
    && Emitted(out)
    && forall o :: o in out <==> IsRun(rects, o) && o.rect.right < x
  }

  lemma KeysAreRegions(rects: seq<Rect>, x: int, s: seq<Entry>, out: seq<RectSet>, k: Key)
    requires Settled(rects, x, s, out)
    ensures HasKey(s, k) <==> Region(rects, x - 1, k)
  {
    if HasKey(s, k) {
      var e :| e in s && e.rect.Key() == k;
      assert Entry(e.rect, e.seen) in s;
      assert OpenSince(rects, e.rect.Key(), e.rect.left, x - 1);
    }
    if Region(rects, x - 1, k) {
      var l := RunStart(rects, k, x - 1);
      var r := StartedRect(k.idSet, l, k.top, k.bottom);
      assert r.Key() == k;
      var b :| Entry(r, b) in s;
    }
  }

  /** One stop of the sweep settles everything up to and including x. */
  lemma SettleStop(rects: seq<Rect>, x: int, a: seq<Slice>, s: seq<Entry>, s0: seq<Entry>, s1: seq<Entry>,
                   out: seq<RectSet>)
    requires CrossSection(rects, x, a)
    requires Settled(rects, x, s, out)
    requires StartedMap(s0)
    requires Unmarked(s, s0)
    requires Matched(s0, x, a, |a|, s1)
    ensures Settled(rects, x + 1, Kept(s1), out + Ended(s1, x))
  {
    hide CrossSection, Region;
    KeptSpec(s1);
    EndedSpec(s1, x);
    forall k
      ensures RegionAmong(a, |a|, k) <==> Region(rects, x, k)
      ensures HasKey(s0, k) <==> Region(rects, x - 1, k)
    {
      SlicesAreRegions(rects, x, a, k);
      SameKeys(s, s0, k);
      KeysAreRegions(rects, x, s, out, k);
    }
    forall r: StartedRect
      ensures (exists b :: Entry(r, b) in Kept(s1)) <==> OpenSince(rects, r.Key(), r.left, x)
    {
      KeptIsOpen(rects, x, a, s, s0, s1, out, r);
    }
    forall o: RectSet
      ensures o in Ended(s1, x) <==> IsRun(rects, o) && o.rect.right == x
    {
      EndedIsRun(rects, x, a, s, s0, s1, out, o);
    }
    var out' := out + Ended(s1, x);
    forall i, j | 0 <= i < j < |out'| ensures EmittedBefore(out'[i], out'[j]) {
      if i < |out| { assert out[i] in out; }
      if j >= |out| { assert out'[j] in Ended(s1, x); }
    }
  }

  lemma SameKeys(s: seq<Entry>, s0: seq<Entry>, k: Key)
    requires Unmarked(s, s0)
    ensures HasKey(s0, k) <==> HasKey(s, k)
  {
    if HasKey(s, k) {
      var e :| e in s && e.rect.Key() == k;
      assert Entry(e.rect, e.seen) in s;
      assert Entry(e.rect, false) in s0;
    }
    if HasKey(s0, k) {
      var e :| e in s0 && e.rect.Key() == k;
      assert Entry(e.rect, e.seen) in s0;
    }
  }

  lemma KeptIsOpen(rects: seq<Rect>, x: int, a: seq<Slice>, s: seq<Entry>, s0: seq<Entry>, s1: seq<Entry>,
                   out: seq<RectSet>, r: StartedRect)
    requires Settled(rects, x, s, out)
    requires Unmarked(s, s0)
    requires Matched(s0, x, a, |a|, s1)
    requires forall k :: RegionAmong(a, |a|, k) <==> Region(rects, x, k)
    requires forall k :: HasKey(s0, k) <==> Region(rects, x - 1, k)
    requires forall e :: e in Kept(s1) <==> e in s1 && e.seen
    ensures (exists b :: Entry(r, b) in Kept(s1)) <==> OpenSince(rects, r.Key(), r.left, x)
  {
    hide Region, RegionAmong, HasKey;
    var k := r.Key();
    assert (exists b :: Entry(r, b) in Kept(s1)) <==> Entry(r, true) in s1;
    assert Entry(r, false) in s0 <==> OpenSince(rects, k, r.left, x - 1);
  }

  lemma EndedIsRun(rects: seq<Rect>, x: int, a: seq<Slice>, s: seq<Entry>, s0: seq<Entry>, s1: seq<Entry>,
                   out: seq<RectSet>, o: RectSet)
    requires Settled(rects, x, s, out)
    requires Unmarked(s, s0)
    requires Matched(s0, x, a, |a|, s1)
    requires forall k :: RegionAmong(a, |a|, k) <==> Region(rects, x, k)
    requires forall o :: o in Ended(s1, x) ==> o.rect.right == x
    requires forall r :: Finish(r, x) in Ended(s1, x) <==> Entry(r, false) in s1
    ensures o in Ended(s1, x) <==> IsRun(rects, o) && o.rect.right == x
  {
    hide Region, RegionAmong;
    if o.rect.right == x {
      var r := StartedRect(o.idSet, o.rect.left, o.rect.top, o.rect.bottom);
      assert o == Finish(r, x);
      assert r.Key() == KeyOf(o);
      assert Entry(r, false) in s0 <==> OpenSince(rects, r.Key(), r.left, x - 1);
    }
  }

  /** Nothing changes between two stops. */
  lemma SettleGap(rects: seq<Rect>, x: int, x': int, s: seq<Entry>, out: seq<RectSet>)
    requires x < x'
    requires Settled(rects, x + 1, s, out)
    requires forall t, k :: x <= t < x' ==> (Region(rects, t, k) <==> Region(rects, x, k))
    ensures Settled(rects, x', s, out)
  {
    hide Region;
    forall r: StartedRect
      ensures OpenSince(rects, r.Key(), r.left, x) <==> OpenSince(rects, r.Key(), r.left, x' - 1)
    {
      if OpenSince(rects, r.Key(), r.left, x' - 1) {
        assert x < r.left ==> (Region(rects, r.left, r.Key()) <==> Region(rects, r.left - 1, r.Key()));
      }
    }
    forall o | IsRun(rects, o) && o.rect.right < x'
      ensures o.rect.right < x + 1
    {
      assert x < o.rect.right ==>
          (Region(rects, o.rect.right - 1, KeyOf(o)) <==> Region(rects, o.rect.right, KeyOf(o)));
    }
  }

  // ---- Rectangles on the sweep line ----

  /** At the last event with its x, the open ids are the active ones, and they stay so until the next event. */
  lemma OpenIdsAreActive(rects: seq<Rect>, h: seq<SweepEvent>, k: nat, x: int)
    requires HEventsOf(rects, |rects|, h)
    requires k <= |h|
    requires k > 0 ==> h[k - 1].at <= x
    requires k < |h| ==> x < h[k].at
    ensures IdsOpen(rects, h, k) == ActiveIds(rects, x)
  {
    forall e | e in h ensures e in h[..k] <==> e.at <= x {
      var j :| 0 <= j < |h| && h[j] == e;
      if j < k {
        assert h[..k][j] == e;
        assert j == k - 1 || EventLess(h[j], h[k - 1]);
      } else {
        assert j == k || EventLess(h[k], h[j]);
      }
    }
    forall i: nat | i < |rects| && Valid(rects[i])
      ensures i in IdsOpen(rects, h, k) <==> Active(rects, i, x)
    {
      assert StartH(rects, i) in h && EndH(rects, i) in h;
    }
  }

  lemma IdsOpenStep(rects: seq<Rect>, h: seq<SweepEvent>, k: nat)
    requires HEventsOf(rects, |rects|, h) && k < |h|
    ensures h[k].rectId < |rects| && Valid(rects[h[k].rectId])
    ensures h[k].kind == START <==> h[k].rectId !in IdsOpen(rects, h, k)
    ensures IdsOpen(rects, h, k + 1)
         == if h[k].kind == START then IdsOpen(rects, h, k) + {h[k].rectId} else IdsOpen(rects, h, k) - {h[k].rectId}
  {
    var e := h[k];
    assert e in h;
    assert h[..k + 1] == h[..k] + [e];
    assert e !in h[..k];
    if e.kind == END {
      var s := StartH(rects, e.rectId);
      assert s in h;
      var j :| 0 <= j < |h| && h[j] == s;
      assert j < k by { assert s.at < e.at; }
      assert h[..k][j] == s;
    } else {
      assert EndH(rects, e.rectId) !in h[..k];
    }
  }

  /** Between two stops every cross section is the same. */
  lemma GapRegions(rects: seq<Rect>, h: seq<SweepEvent>, k: nat, x: int, t: int, key: Key)
    requires HEventsOf(rects, |rects|, h)
    requires k <= |h|
    requires k > 0 ==> h[k - 1].at <= x
    requires x <= t && (k < |h| ==> t < h[k].at)
    ensures Region(rects, t, key) <==> Region(rects, x, key)
  {
    OpenIdsAreActive(rects, h, k, x);
    OpenIdsAreActive(rects, h, k, t);
    forall i: nat ensures Active(rects, i, x) <==> Active(rects, i, t) {
      assert i in ActiveIds(rects, x) <==> i in ActiveIds(rects, t);
    }
    SameActiveSameRegions(rects, x, t, key);
  }

  /** Left of the first event nothing is active and nothing has been emitted. */
  lemma SettledAtStart(rects: seq<Rect>, h: seq<SweepEvent>, x: int)
    requires HEventsOf(rects, |rects|, h)
    requires |h| > 0 ==> x <= h[0].at
    ensures Settled(rects, x, [], [])
  {
    forall t, key | t < x ensures !Region(rects, t, key) {
      OpenIdsAreActive(rects, h, 0, t);
      forall i: nat ensures !Active(rects, i, t) {
        assert i !in ActiveIds(rects, t);
      }
    }
    hide Region;
    forall r: StartedRect ensures !OpenSince(rects, r.Key(), r.left, x - 1) {
      assert !Region(rects, x - 1, r.Key());
    }
    forall o | IsRun(rects, o) ensures o.rect.right >= x {
      assert Region(rects, o.rect.right - 1, KeyOf(o));
    }
  }

  lemma HeadEntry(s: seq<Entry>)
    ensures s == [] || exists r: StartedRect, b: bool :: Entry(r, b) in s
  {
    if s != [] {
      assert Entry(s[0].rect, s[0].seen) in s;
    }
  }

  /** Right of the last event nothing is active, so the map is empty and all runs are emitted. */
  lemma SettledAtEnd(rects: seq<Rect>, h: seq<SweepEvent>, x: int, s: seq<Entry>, out: seq<RectSet>)
    requires HEventsOf(rects, |rects|, h)
    requires |h| > 0 ==> h[|h| - 1].at <= x
    requires Settled(rects, x + 1, s, out)
    ensures s == []
    ensures IsSeparation(rects, out)
  {
    forall t, key | x <= t ensures !Region(rects, t, key) {
      OpenIdsAreActive(rects, h, |h|, t);
      forall i: nat ensures !Active(rects, i, t) {
        assert i !in ActiveIds(rects, t);
      }
    }
    hide Region;
    forall r: StartedRect, b: bool ensures Entry(r, b) !in s {
      assert !Region(rects, x, r.Key());
    }
    HeadEntry(s);
    forall o | IsRun(rects, o) ensures o.rect.right < x + 1 {
      assert Region(rects, o.rect.right - 1, KeyOf(o));
    }
  }

  /** The state between two events: the events with the x of the next one that came before it
      have only moved rectangles on and off the sweep line. */
  ghost predicate SweepState(rects: seq<Rect>, h: seq<SweepEvent>, k: nat, v: seq<SweepEvent>, s: seq<Entry>,
                             emitted: seq<RectSet>)
    requires k <= |h|
  {
    && VEventsOf(rects, IdsOpen(rects, h, k), v)
    && (k < |h| ==> Settled(rects, h[k].at, s, emitted))
    && (k == |h| ==> s == [] && IsSeparation(rects, emitted))
  }

  lemma SweepStart(rects: seq<Rect>, h: seq<SweepEvent>)
    requires HEventsOf(rects, |rects|, h)
    ensures SweepState(rects, h, 0, [], [], [])
  {
    var x := if |h| > 0 then h[0].at else 0;
    SettledAtStart(rects, h, x);
    if h == [] {
      SettledAtStart(rects, h, 1);
      SettledAtEnd(rects, h, 0, [], []);
    }
  }

  lemma EventIsOfRect(rects: seq<Rect>, h: seq<SweepEvent>, k: nat, v: seq<SweepEvent>, s: seq<Entry>,
                      emitted: seq<RectSet>)
    requires HEventsOf(rects, |rects|, h) && k < |h|
    requires SweepState(rects, h, k, v, s, emitted)
    ensures VEventsOf(rects, IdsOpen(rects, h, k), v)
    ensures h[k].rectId < |rects| && Valid(rects[h[k].rectId])
    ensures h[k].kind == START <==> h[k].rectId !in IdsOpen(rects, h, k)
    ensures IdsOpen(rects, h, k + 1)
         == if h[k].kind == START then IdsOpen(rects, h, k) + {h[k].rectId} else IdsOpen(rects, h, k) - {h[k].rectId}
    ensures Settled(rects, h[k].at, s, emitted) && StartedMap(s)
  {
    IdsOpenStep(rects, h, k);
  }

  lemma SameStop(rects: seq<Rect>, h: seq<SweepEvent>, k: nat, v: seq<SweepEvent>, s: seq<Entry>, emitted: seq<RectSet>)
    requires k + 1 < |h| && h[k + 1].at == h[k].at
    requires VEventsOf(rects, IdsOpen(rects, h, k + 1), v)
    requires Settled(rects, h[k].at, s, emitted)
    ensures SweepState(rects, h, k + 1, v, s, emitted)
  {
  }

  lemma AtStop(rects: seq<Rect>, h: seq<SweepEvent>, k: nat)
    requires HEventsOf(rects, |rects|, h) && k < |h|
    requires k + 1 < |h| ==> h[k + 1].at != h[k].at
    ensures IdsOpen(rects, h, k + 1) == ActiveIds(rects, h[k].at)
  {
    assert k + 1 < |h| ==> EventLess(h[k], h[k + 1]);
    OpenIdsAreActive(rects, h, k + 1, h[k].at);
  }

  lemma StopDone(rects: seq<Rect>, h: seq<SweepEvent>, k: nat, v: seq<SweepEvent>, a: seq<Slice>,
                 s: seq<Entry>, s0: seq<Entry>, s1: seq<Entry>, emitted: seq<RectSet>)
    requires HEventsOf(rects, |rects|, h) && k < |h|
    requires k + 1 < |h| ==> h[k + 1].at != h[k].at
    requires VEventsOf(rects, IdsOpen(rects, h, k + 1), v)
    requires Settled(rects, h[k].at, s, emitted)
    requires CrossSection(rects, h[k].at, a)
    requires StartedMap(s0) && Unmarked(s, s0)
    requires Matched(s0, h[k].at, a, |a|, s1)
    ensures SweepState(rects, h, k + 1, v, Kept(s1), emitted + Ended(s1, h[k].at))
  {
    hide Settled, CrossSection, StartedMap, Unmarked, Matched, VEventsOf, Region, IsSeparation;
    var x := h[k].at;
    SettleStop(rects, x, a, s, s0, s1, emitted);
    if k + 1 < |h| {
      assert EventLess(h[k], h[k + 1]);
      forall t, key | x <= t < h[k + 1].at
        ensures Region(rects, t, key) <==> Region(rects, x, key)
      {
        GapRegions(rects, h, k + 1, x, t, key);
      }
      SettleGap(rects, x, h[k + 1].at, Kept(s1), emitted + Ended(s1, x));
    } else {
      SettledAtEnd(rects, h, x, Kept(s1), emitted + Ended(s1, x));
    }
  }

  lemma SweepDone(rects: seq<Rect>, h: seq<SweepEvent>, v: seq<SweepEvent>, s: seq<Entry>, emitted: seq<RectSet>)
    requires SweepState(rects, h, |h|, v, s, emitted)
    ensures s == [] && IsSeparation(rects, emitted)
  {
  }

  lemma Capacity()
    ensures MAX_ELEMENTS == 64
  {
  }

  /** separate_rects: appends the separation of the input to `out0`. */
  method SeparateRects(rects: seq<Rect>, out0: seq<RectSet>) returns (out: seq<RectSet>)
    ensures |rects| > 64 ==> out == out0
    ensures |rects| <= 64 ==> out0 <= out && IsSeparation(rects, out[|out0|..])
  {
    hide *;
    Capacity();
    out := out0;
    if |rects| > MAX_ELEMENTS {
      return;
    }
    var h := CollectHEvents(rects);
    var v, started := [], [];
    ghost var emitted := [];
    SweepStart(rects, h);
    for k := 0 to |h|
      invariant SweepState(rects, h, k, v, started, emitted)
      invariant out == out0 + emitted
    {
      var hEvt := h[k];
      EventIsOfRect(rects, h, k, v, started, emitted);
      v := UpdateVEvents(rects, IdsOpen(rects, h, k), v, hEvt);
      if k + 1 < |h| && h[k + 1].at == hEvt.at {
        SameStop(rects, h, k, v, started, emitted);
        continue;
      }
      AtStop(rects, h, k);
      var activeRegions := ScanActiveRegions(rects, hEvt.at, v);
      ghost var s := started;
      started := MarkUnseen(started);
      ghost var s0 := started;
      started := MatchRegions(rects, hEvt.at, activeRegions, started);
      ghost var s1 := started;
      started, out := EndUnseen(started, hEvt.at, out);
      StopDone(rects, h, k, v, activeRegions, s, s0, s1, emitted);
      emitted := emitted + Ended(s1, hEvt.at);
    }
    SweepDone(rects, h, v, started, emitted);
    assert started == [];
    assert out[|out0|..] == emitted;
  }
}
