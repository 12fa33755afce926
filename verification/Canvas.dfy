/** Rows of bytes in one buffer, filled from left to right, several rows at a time.

    A picture is a function from row and column to a byte. `Painted` is the buffer once some rows of the
    picture are complete and the next few have been started. */
module Canvas {
  import opened Arithmetic

  type Byte = bv8

  type Pixel = bv32

  type Picture = (nat, nat) -> Byte

  /** Where column c of row y lies. */
  function At(y: nat, stride: nat, c: nat): nat {
    y * stride + c
  }

  lemma AtZero(stride: nat)
    ensures At(0, stride, 0) == 0
  {
  }

  lemma AtOffset(y: nat, stride: nat)
    ensures forall c: nat :: At(y, stride, c) == At(y, stride, 0) + c
  {
  }

  lemma NextAt(y: nat, stride: nat)
    ensures At(y + 1, stride, 0) == At(y, stride, 0) + stride
  {
    assert (y + 1) * stride == y * stride + stride;
  }

  lemma AtGrows(y: nat, z: nat, stride: nat)
    requires y <= z
    ensures At(y, stride, 0) <= At(z, stride, 0)
  {
    Grow(y, z, stride);
  }

  /** Where the rows of a picture start: at multiples of a stride; or in groups of rows that are half a width each,
      the groups starting where so many halves of the width end. An odd width rounds down in both places. */
  datatype Layout = Rows(stride: nat) | Halves(width: nat, group: nat)

  /** n rows of half the width, rounded down. */
  function Halved(n: nat, width: nat): nat {
    n * width / 2
  }

  /** Where column c of row y of a picture lies. */
  function Place(l: Layout, y: nat, c: nat): nat {
    match l
    case Rows(stride) => At(y, stride, c)
    case Halves(width, group) =>
      if group == 0 then c else Halved(y / group * group, width) + Halved(y % group, width) + c
  }

  /** How many columns a row can have without running into the next one. */
  function Room(l: Layout): nat {
    match l
    case Rows(stride) => stride
    case Halves(width, group) => if group == 0 then 0 else width / 2
  }

  lemma HalfStart(width: nat, group: nat, q: nat, k: nat)
    requires k < group
    ensures Place(Halves(width, group), q * group + k, 0) == Halved(q * group, width) + Halved(k, width)
  {
    Split(q, group, k);
    hide Halved;
  }

  lemma PlaceOffset(l: Layout, y: nat)
    ensures forall c: nat :: Place(l, y, c) == Place(l, y, 0) + c
  {
    hide Halved;
  }

  lemma HalvedAdd(n: nat, k: nat, width: nat)
    ensures Halved(n, width) + Halved(k, width) <= Halved(n + k, width)
  {
    assert (n + k) * width == n * width + k * width;
    HalvesAdd(n * width, k * width);
  }

  lemma HalvesAdd(a: nat, b: nat)
    ensures a / 2 + b / 2 <= (a + b) / 2
  {
  }

  lemma PlaceNext(l: Layout, y: nat)
    ensures Place(l, y, 0) + Room(l) <= Place(l, y + 1, 0)
  {
    match l
    case Rows(stride) => NextAt(y, stride);
    case Halves(width, group) =>
      if group > 0 {
        hide Place;
        var q, k := Divide(y, group);
        PlaceNextHalf(width, group, q, k);
      }
  }

  lemma Divide(y: nat, group: nat) returns (q: nat, k: nat)
    requires group > 0
    ensures k < group && y == q * group + k
  {
    q, k := y / group, y % group;
  }

  lemma PlaceNextHalf(width: nat, group: nat, q: nat, k: nat)
    requires k < group
    ensures Place(Halves(width, group), q * group + k, 0) + width / 2
         <= Place(Halves(width, group), q * group + k + 1, 0)
  {
    HalfStart(width, group, q, k);
    HalvedAdd(k, 1, width);
    assert Halved(1, width) == width / 2;
    hide Place, Halved;
    if k + 1 < group {
      HalfStart(width, group, q, k + 1);
    } else {
      assert (q + 1) * group == q * group + k + 1;
      HalfStart(width, group, q + 1, 0);
      HalvedAdd(q * group, k + 1, width);
    }
  }

  lemma {:induction false} PlaceGrows(l: Layout, y: nat, z: nat)
    requires y <= z
    ensures Place(l, y, 0) <= Place(l, z, 0)
    decreases z - y
  {
    hide Place;
    if y < z {
      PlaceNext(l, y);
      PlaceGrows(l, y + 1, z);
    }
  }

  /** No two rows share a byte. */
  lemma RowsApart(l: Layout, y: nat, z: nat)
    requires y < z
    ensures Place(l, y, 0) + Room(l) <= Place(l, z, 0)
  {
    hide Place, Room;
    PlaceNext(l, y);
    PlaceGrows(l, y + 1, z);
  }

  /** Column c of row y has been painted: in one of the `full` first rows, or left of where a later row has got to. */
  predicate Reached(y: nat, c: nat, cols: nat, full: nat, parts: seq<nat>) {
    c < cols && (y < full || (full <= y < full + |parts| && c < parts[y - full]))
  }

  /** No byte lies in two places. */
  lemma OnePlace(l: Layout, y: nat, c: nat, y': nat, c': nat)
    requires c < Room(l) && c' < Room(l) && Place(l, y, c) == Place(l, y', c')
    ensures y == y' && c == c'
  {
    PlaceOffset(l, y);
    PlaceOffset(l, y');
    hide Place, Room;
    if y < y' {
      RowsApart(l, y, y');
    } else if y' < y {
      RowsApart(l, y', y);
    }
  }

  /** Byte m is column c of row y. */
  ghost predicate IsPlace(l: Layout, cols: nat, m: nat, y: nat, c: nat) {
    c < cols && m == Place(l, y, c)
  }

  ghost predicate InPicture(l: Layout, cols: nat, m: nat) {
    exists y: nat, c: nat :: IsPlace(l, cols, m, y, c)
  }

  /** The row and the column of byte m. */
  ghost function PlaceOf(l: Layout, cols: nat, m: nat): (r: (nat, nat))
    requires InPicture(l, cols, m)
    ensures IsPlace(l, cols, m, r.0, r.1)
  {
    var y: nat, c: nat :| IsPlace(l, cols, m, y, c);
    (y, c)
  }

  ghost predicate ReachedAt(l: Layout, cols: nat, full: nat, parts: seq<nat>, m: nat) {
    InPicture(l, cols, m) && Reached(PlaceOf(l, cols, m).0, PlaceOf(l, cols, m).1, cols, full, parts)
  }

  /** The buffer with some rows of the picture complete and the next few started. */
  ghost function Painted(before: seq<Byte>, l: Layout, cols: nat, f: Picture, full: nat,
                         parts: seq<nat>): (s: seq<Byte>)
    ensures |s| == |before|
  {
    seq(|before|, m requires 0 <= m < |before| =>
      if ReachedAt(l, cols, full, parts, m) then f(PlaceOf(l, cols, m).0, PlaceOf(l, cols, m).1) else before[m])
  }

  lemma PaintedPoint(before: seq<Byte>, l: Layout, cols: nat, f: Picture, full: nat, parts: seq<nat>, m: nat)
    requires m < |before|
    ensures Painted(before, l, cols, f, full, parts)[m]
         == if ReachedAt(l, cols, full, parts, m) then f(PlaceOf(l, cols, m).0, PlaceOf(l, cols, m).1) else before[m]
  {
  }

  lemma SplitAt(l: Layout, cols: nat, m: nat, y: nat, c: nat)
    requires c < cols <= Room(l)
    ensures InPicture(l, cols, m) && PlaceOf(l, cols, m) == (y, c) <==> m == Place(l, y, c)
  {
    hide Place, Room;
    if m == Place(l, y, c) {
      assert IsPlace(l, cols, m, y, c);
      var at := PlaceOf(l, cols, m);
      OnePlace(l, y, c, at.0, at.1);
    }
  }

  /** What a buffer with the first h rows painted holds in the rows. */
  lemma PaintedAt(before: seq<Byte>, l: Layout, cols: nat, f: Picture, h: nat, y: nat, c: nat)
    requires cols <= Room(l) && c < Room(l) && Place(l, y, c) < |before|
    ensures Painted(before, l, cols, f, h, [])[Place(l, y, c)]
         == if y < h && c < cols then f(y, c) else before[Place(l, y, c)]
  {
    var m := Place(l, y, c);
    PaintedPoint(before, l, cols, f, h, [], m);
    hide Place, Room, Painted;
    if c < cols {
      SplitAt(l, cols, m, y, c);
    } else if InPicture(l, cols, m) {
      OnePlace(l, y, c, PlaceOf(l, cols, m).0, PlaceOf(l, cols, m).1);
    }
  }

  /** A byte outside the rows that are painted. */
  ghost predicate Elsewhere(l: Layout, cols: nat, h: nat, m: nat) {
    forall y: nat, c: nat :: IsPlace(l, cols, m, y, c) ==> y >= h
  }

  lemma PaintedElsewhere(before: seq<Byte>, l: Layout, cols: nat, f: Picture, h: nat, m: nat)
    requires m < |before| && Elsewhere(l, cols, h, m)
    ensures Painted(before, l, cols, f, h, [])[m] == before[m]
  {
    PaintedPoint(before, l, cols, f, h, [], m);
    hide Painted, Place;
  }

  ghost predicate AllEqual(parts: seq<nat>, n: nat) {
    forall k :: 0 <= k < |parts| ==> parts[k] == n
  }

  lemma PaintNothing(before: seq<Byte>, l: Layout, cols: nat, f: Picture, parts: seq<nat>)
    requires AllEqual(parts, 0)
    ensures Painted(before, l, cols, f, 0, parts) == before
  {
    hide Painted, InPicture, PlaceOf;
    forall m | 0 <= m < |before| ensures Painted(before, l, cols, f, 0, parts)[m] == before[m] {
      PaintedPoint(before, l, cols, f, 0, parts, m);
    }
  }

  lemma ReachedNext(y: nat, c: nat, cols: nat, full: nat, parts: seq<nat>, k: nat)
    requires k < |parts| && parts[k] < cols
    ensures Reached(y, c, cols, full, parts[k := parts[k] + 1])
      <==> Reached(y, c, cols, full, parts) || (y == full + k && c == parts[k])
  {
  }

  lemma ReachedAtNext(l: Layout, cols: nat, full: nat, parts: seq<nat>, k: nat, m: nat)
    requires k < |parts| && parts[k] < cols <= Room(l)
    ensures ReachedAt(l, cols, full, parts[k := parts[k] + 1], m)
       <==> ReachedAt(l, cols, full, parts, m) || m == Place(l, full + k, parts[k])
    ensures m == Place(l, full + k, parts[k])
        ==> InPicture(l, cols, m) && PlaceOf(l, cols, m) == (full + k, parts[k])
  {
    hide Place, Room, InPicture, PlaceOf, Reached;
    SplitAt(l, cols, m, full + k, parts[k]);
    if InPicture(l, cols, m) {
      ReachedNext(PlaceOf(l, cols, m).0, PlaceOf(l, cols, m).1, cols, full, parts, k);
    }
  }

  lemma PaintByte(before: seq<Byte>, l: Layout, cols: nat, f: Picture, full: nat, parts: seq<nat>, k: nat)
    requires k < |parts| && parts[k] < cols <= Room(l)
    requires Place(l, full + k, parts[k]) < |before|
    ensures Painted(before, l, cols, f, full, parts[k := parts[k] + 1])
         == Painted(before, l, cols, f, full, parts)[Place(l, full + k, parts[k]) := f(full + k, parts[k])]
  {
    hide Painted, InPicture, PlaceOf, ReachedAt, Place, Room;
    var at, parts' := Place(l, full + k, parts[k]), parts[k := parts[k] + 1];
    forall m | 0 <= m < |before|
      ensures Painted(before, l, cols, f, full, parts')[m]
           == Painted(before, l, cols, f, full, parts)[at := f(full + k, parts[k])][m]
    {
      PaintedPoint(before, l, cols, f, full, parts, m);
      PaintedPoint(before, l, cols, f, full, parts', m);
      ReachedAtNext(l, cols, full, parts, k, m);
    }
  }

  lemma PaintRowsDone(before: seq<Byte>, l: Layout, cols: nat, f: Picture, full: nat, parts: seq<nat>, next: seq<nat>)
    requires AllEqual(parts, cols) && AllEqual(next, 0)
    ensures Painted(before, l, cols, f, full, parts) == Painted(before, l, cols, f, full + |parts|, next)
  {
    hide Painted, InPicture, PlaceOf;
    forall m | 0 <= m < |before|
      ensures Painted(before, l, cols, f, full, parts)[m]
          == Painted(before, l, cols, f, full + |parts|, next)[m]
    {
      PaintedPoint(before, l, cols, f, full, parts, m);
      PaintedPoint(before, l, cols, f, full + |parts|, next, m);
    }
  }

  /** s with v written over it from position at on. */
  function Splice(s: seq<Byte>, at: nat, v: seq<Byte>): seq<Byte>
    requires at + |v| <= |s|
  {
    s[..at] + v + s[at + |v|..]
  }

  /** n bytes of row y of the picture from column c on. */
  function Stretch(f: Picture, y: nat, c: nat, n: nat): (v: seq<Byte>)
    ensures |v| == n
  {
    seq(n, k requires 0 <= k < n => f(y, c + k))
  }

  lemma {:induction false} PaintStretch(before: seq<Byte>, l: Layout, cols: nat, f: Picture, full: nat,
                                        parts: seq<nat>, k: nat, n: nat)
    requires k < |parts| && parts[k] + n <= cols <= Room(l)
    requires Place(l, full + k, parts[k]) + n <= |before|
    ensures Painted(before, l, cols, f, full, parts[k := parts[k] + n])
         == Splice(Painted(before, l, cols, f, full, parts), Place(l, full + k, parts[k]),
                   Stretch(f, full + k, parts[k], n))
  {
    hide Painted, Place, Room;
    var here := Place(l, full + k, parts[k]);
    if n == 0 {
      assert parts[k := parts[k] + n] == parts;
    } else {
      PaintStretch(before, l, cols, f, full, parts, k, n - 1);
      PlaceOffset(l, full + k);
      var parts' := parts[k := parts[k] + n - 1];
      PaintByte(before, l, cols, f, full, parts', k);
      assert parts'[k := parts[k] + n] == parts[k := parts[k] + n];
      assert Stretch(f, full + k, parts[k], n) == Stretch(f, full + k, parts[k], n - 1)
          + [f(full + k, parts[k] + n - 1)];
    }
  }

  // ---- Two nibbles to a byte ----

  function Join(low: bv32, high: bv32): Byte {
    ((low | (high << 4)) & 0xff) as Byte
  }

  /** Nibble x of the row of bytes that starts at `row`. */
  function NibbleAt(s: seq<Byte>, row: nat, x: nat): bv32
    requires row + x / 2 < |s|
  {
    if x % 2 == 0 then s[row + x / 2] as bv32 & 0xf else s[row + x / 2] as bv32 >> 4
  }

  lemma JoinedNibbles(low: bv32, high: bv32)
    requires low < 16 && high < 16
    ensures Join(low, high) as bv32 & 0xf == low && Join(low, high) as bv32 >> 4 == high
  {
  }

  lemma NibbleOfJoined(s: seq<Byte>, row: nat, x: nat, low: bv32, high: bv32)
    requires row + x / 2 < |s| && s[row + x / 2] == Join(low, high) && low < 16 && high < 16
    ensures NibbleAt(s, row, x) == if x % 2 == 0 then low else high
  {
    JoinedNibbles(low, high);
    hide Join;
  }
}
