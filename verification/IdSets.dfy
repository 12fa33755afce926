/** Sets of rectangle ids packed into one unsigned 64-bit word (separate_rects.h, `IdSet<uint64_t>`).

    The word is a real bit-vector. `Members` is the set it stands for, and the lemmas
    below make the two interchangeable: adding and subtracting an id are set union and
    difference, and two words that stand for the same set are the same word. */
module IdSets {

  const MAX_ELEMENTS: nat := 64

  /** The bit of an id, by doubling; `ShiftIsMask` shows it is one shifted left by the id. */
  function Mask(id: nat): bv64 {
    if id == 0 then 1 else Mask(id - 1) << 1
  }

  predicate Hits(bits: bv64, mask: bv64) {
    bits & mask != 0
  }

  predicate Has(bits: bv64, id: nat) {
    Hits(bits, Mask(id))
  }

  function With(bits: bv64, id: nat): bv64 {
    bits | Mask(id)
  }

  function Without(bits: bv64, id: nat): bv64 {
    bits & !Mask(id)
  }

  /** The ids a word stands for. */
  function Members(bits: bv64): set<nat> {
    set id: nat | id < MAX_ELEMENTS && Has(bits, id)
  }

  /** An id set that is updated in place, as the sweep's running set is. */
  class IdSet {
    var bitset: bv64

    constructor ()
      ensures bitset == 0 && Members(bitset) == {}
    {
      bitset := 0;
      NoMembers();
    }

    method Add(id: nat)
      requires id < MAX_ELEMENTS
      modifies this
      ensures Members(bitset) == old(Members(bitset)) + {id}
    {
      hide Has, Hits, With, Mask;
      AddIsUnion(bitset, id);
      ShiftedAdd(bitset, id);
      bitset := bitset | ((1 as bv64) << id);
    }

    method Subtract(id: nat)
      requires id < MAX_ELEMENTS
      modifies this
      ensures Members(bitset) == old(Members(bitset)) - {id}
    {
      hide Has, Hits, Without, Mask;
      SubtractIsDifference(bitset, id);
      ShiftedSubtract(bitset, id);
      bitset := bitset & !((1 as bv64) << id);
    }
  }

  // ---- Shifted single bits ----

  // The shift amount is seven bits wide, which is how a 64-bit shift reads it.
  lemma SmallShiftAmount(i: nat)
    requires i < MAX_ELEMENTS
    ensures (i as bv7) < 64
    ensures i < 63 ==> (i as bv7) < 63
  {
  }

  lemma SuccessorAsNat(x: bv7)
    requires x < 63
    ensures (x + 1) as nat == x as nat + 1
  {
  }

  lemma SameAsNat(x: bv7, y: bv7)
    requires x as nat == y as nat
    ensures x == y
  {
  }

  lemma NextShiftAmountOf(k: nat, x: bv7)
    requires 0 < k < MAX_ELEMENTS && x < 63 && x as nat == k - 1
    ensures k as bv7 == x + 1
  {
    SuccessorAsNat(x);
    SameAsNat(k as bv7, x + 1);
  }

  lemma NextShiftAmount(k: nat)
    requires 0 < k < MAX_ELEMENTS
    ensures k as bv7 == ((k - 1) as bv7) + 1
  {
    SmallShiftAmount(k - 1);
    NextShiftAmountOf(k, (k - 1) as bv7);
  }

  lemma ShiftOnce(x: bv7)
    requires x < 63
    ensures (1 as bv64) << (x + 1) == ((1 as bv64) << x) << 1
  {
  }

  lemma ShiftNonZero(x: bv7)
    requires x < 64
    ensures (1 as bv64) << x != 0
  {
  }

  lemma {:induction false} ShiftIsMask(id: nat)
    requires id < MAX_ELEMENTS
    ensures (1 as bv64) << id == Mask(id)
  {
    if id > 0 {
      ShiftIsMask(id - 1);
      NextShiftAmount(id);
      SmallShiftAmount(id - 1);
      ShiftOnce((id - 1) as bv7);
    }
  }

  lemma ShiftedAdd(bits: bv64, id: nat)
    requires id < MAX_ELEMENTS
    ensures bits | ((1 as bv64) << id) == With(bits, id)
  {
    ShiftIsMask(id);
  }

  lemma ShiftedSubtract(bits: bv64, id: nat)
    requires id < MAX_ELEMENTS
    ensures bits & !((1 as bv64) << id) == Without(bits, id)
  {
    ShiftIsMask(id);
  }

  lemma MaskNonZero(id: nat)
    requires id < MAX_ELEMENTS
    ensures Mask(id) != 0
  {
    ShiftIsMask(id);
    SmallShiftAmount(id);
    ShiftNonZero(id as bv7);
  }

  lemma ShiftDisjoint(x: bv64, y: bv64)
    ensures x & y == 0 ==> (x << 1) & (y << 1) == 0
    ensures 1 & (y << 1) == 0
  {
  }

  /** Distinct ids own distinct bits. */
  lemma {:induction false} MasksDisjoint(i: nat, j: nat)
    requires i < j
    ensures Mask(i) & Mask(j) == 0
    ensures Mask(j) & Mask(i) == 0
  {
    if i == 0 {
      ShiftDisjoint(0, Mask(j - 1));
    } else {
      MasksDisjoint(i - 1, j - 1);
      ShiftDisjoint(Mask(i - 1), Mask(j - 1));
    }
  }

  // ---- Set algebra ----

  lemma OtherBitKeptByOr(bits: bv64, m: bv64, n: bv64)
    requires m & n == 0
    ensures Hits(bits | m, n) <==> Hits(bits, n)
  {
    OrDistributes(bits, m, n);
    OrNothing(bits & n);
  }

  lemma OrDistributes(a: bv64, b: bv64, c: bv64)
    ensures (a | b) & c == (a & c) | (b & c)
  {
  }

  lemma OrNothing(a: bv64)
    ensures a | 0 == a
  {
  }

  lemma OtherBitKeptByAnd(bits: bv64, m: bv64, n: bv64)
    requires m & n == 0
    ensures Hits(bits & !m, n) <==> Hits(bits, n)
  {
  }

  lemma OtherIdKeptByWith(bits: bv64, id: nat, j: nat)
    requires id != j
    ensures Has(With(bits, id), j) <==> Has(bits, j)
  {
    hide Mask, Hits;
    var m, n := Mask(id), Mask(j);
    assert m & n == 0 by {
      if id < j { MasksDisjoint(id, j); } else { MasksDisjoint(j, id); }
    }
    OtherBitKeptByOr(bits, m, n);
  }

  lemma OtherIdKeptByWithout(bits: bv64, id: nat, j: nat)
    requires id != j
    ensures Has(Without(bits, id), j) <==> Has(bits, j)
  {
    hide Mask, Hits;
    var m, n := Mask(id), Mask(j);
    assert m & n == 0 by {
      if id < j { MasksDisjoint(id, j); } else { MasksDisjoint(j, id); }
    }
    OtherBitKeptByAnd(bits, m, n);
  }

  lemma OwnIdUpdated(bits: bv64, id: nat)
    requires id < MAX_ELEMENTS
    ensures Has(With(bits, id), id)
    ensures !Has(Without(bits, id), id)
  {
    MaskNonZero(id);
    assert (bits | Mask(id)) & Mask(id) == Mask(id);
    assert (bits & !Mask(id)) & Mask(id) == 0;
  }

  lemma ZeroHasNone(id: nat)
    ensures !Has(0, id)
  {
    assert 0 & Mask(id) == 0;
  }

  lemma NoMembers()
    ensures Members(0) == {}
  {
    hide Has;
    forall i: nat ensures !Has(0, i) { ZeroHasNone(i); }
  }

  lemma AddIsUnion(bits: bv64, id: nat)
    requires id < MAX_ELEMENTS
    ensures Members(With(bits, id)) == Members(bits) + {id}
  {
    hide Has, With;
    forall j: nat | j < MAX_ELEMENTS
      ensures Has(With(bits, id), j) <==> j == id || Has(bits, j)
    {
      if id == j { OwnIdUpdated(bits, id); } else { OtherIdKeptByWith(bits, id, j); }
    }
  }

  lemma SubtractIsDifference(bits: bv64, id: nat)
    requires id < MAX_ELEMENTS
    ensures Members(Without(bits, id)) == Members(bits) - {id}
  {
    hide Has, Without;
    forall j: nat | j < MAX_ELEMENTS
      ensures Has(Without(bits, id), j) <==> j != id && Has(bits, j)
    {
      if id == j { OwnIdUpdated(bits, id); } else { OtherIdKeptByWithout(bits, id, j); }
    }
  }

  // ---- Equal sets are equal words ----

  // Nothing of d lies below the single bit m; neither does m itself: then nothing of d lies below the next bit.
  lemma NextLowBits(d: bv64, m: bv64)
    requires m & (m - 1) == 0
    requires d & (m - 1) == 0 && !Hits(d, m)
    ensures d & ((m << 1) - 1) == 0
  {
  }

  lemma NextBitIsSingle(m: bv64)
    requires m & (m - 1) == 0
    ensures (m << 1) & ((m << 1) - 1) == 0
  {
  }

  lemma {:induction false} MaskIsSingleBit(k: nat)
    ensures Mask(k) & (Mask(k) - 1) == 0
  {
    if k > 0 {
      MaskIsSingleBit(k - 1);
      NextBitIsSingle(Mask(k - 1));
    }
  }

  predicate LowBitsClear(d: bv64, k: nat) {
    d & (Mask(k) - 1) == 0
  }

  lemma NextLowBitsClear(d: bv64, k: nat)
    requires LowBitsClear(d, k) && !Has(d, k)
    ensures LowBitsClear(d, k + 1)
  {
    MaskIsSingleBit(k);
    NextLowBits(d, Mask(k));
  }

  lemma NothingBelow(d: bv64)
    ensures LowBitsClear(d, 0)
  {
  }

  lemma {:induction false} AbsentIdsLowBitsClear(d: bv64, k: nat)
    requires forall i: nat | i < k :: !Has(d, i)
    ensures LowBitsClear(d, k)
  {
    hide Has, Mask;
    if k == 0 {
      NothingBelow(d);
    } else {
      hide LowBitsClear;
      AbsentIdsLowBitsClear(d, k - 1);
      NextLowBitsClear(d, k - 1);
    }
  }

  lemma DifferenceMisses(a: bv64, b: bv64, m: bv64)
    requires m & (m - 1) == 0
    requires Hits(a, m) == Hits(b, m)
    ensures !Hits(a ^ b, m)
  {
  }

  lemma DifferenceHasNone(a: bv64, b: bv64, id: nat)
    requires Has(a, id) == Has(b, id)
    ensures !Has(a ^ b, id)
  {
    MaskIsSingleBit(id);
    DifferenceMisses(a, b, Mask(id));
  }

  lemma TopBit(d: bv64, m: bv64)
    requires m == 0x8000_0000_0000_0000
    requires d & (m - 1) == 0 && !Hits(d, m)
    ensures d == 0
  {
  }

  lemma NoBits(d: bv64)
    requires forall i: nat | i < MAX_ELEMENTS :: !Has(d, i)
    ensures d == 0
  {
    AbsentIdsLowBitsClear(d, 63);
    assert !Has(d, 63);
    ShiftIsMask(63);
    TopBit(d, Mask(63));
  }

  lemma XorZero(a: bv64, b: bv64)
    requires a ^ b == 0
    ensures a == b
  {
  }

  /** Two words standing for the same ids are equal, so comparing words compares sets. */
  lemma SameMembersSameBits(a: bv64, b: bv64)
    ensures Members(a) == Members(b) <==> a == b
  {
    if Members(a) == Members(b) {
      hide Has;
      var d := a ^ b;
      forall i: nat | i < MAX_ELEMENTS
        ensures !Has(d, i)
      {
        assert i in Members(a) <==> i in Members(b);
        DifferenceHasNone(a, b, i);
      }
      NoBits(d);
      XorZero(a, b);
    }
  }

  // ---- Words are totally ordered ----

  /** Comparison of id sets compares their words. */
  predicate Less(a: bv64, b: bv64) {
    a < b
  }

  predicate AtMost(a: bv64, b: bv64) {
    a <= b
  }

  function Half(a: bv64): bv64 {
    a >> 1
  }

  lemma HalfIsSmaller(a: bv64)
    requires a != 0
    ensures a >> 1 < a
  {
  }

  /** Number of significant bits. */
  function BitLength(a: bv64): nat
    decreases a
  {
    if a == 0 then 0 else
      HalfIsSmaller(a);
      1 + BitLength(Half(a))
  }

  lemma NoSignificantBits(a: bv64)
    requires BitLength(a) == 0
    ensures a == 0
  {
  }

  lemma BitLengthOfHalf(a: bv64)
    requires BitLength(a) > 0
    ensures BitLength(Half(a)) == BitLength(a) - 1
  {
  }

  lemma AtMostZero(a: bv64)
    requires AtMost(a, 0)
    ensures a == 0
  {
  }

  lemma HalvesOrdered(a: bv64, b: bv64)
    requires AtMost(a, b)
    ensures AtMost(Half(a), Half(b))
  {
  }

  lemma SameHalves(a: bv64, b: bv64)
    requires AtMost(a, b) && AtMost(b, a) && Half(a) == Half(b)
    ensures a == b
  {
  }

  lemma {:induction false} AtMostAntisymmetric(a: bv64, b: bv64)
    requires AtMost(a, b) && AtMost(b, a)
    ensures a == b
    decreases BitLength(a)
  {
    hide AtMost, Half, BitLength;
    if BitLength(a) == 0 {
      NoSignificantBits(a);
      AtMostZero(b);
    } else {
      HalvesOrdered(a, b);
      HalvesOrdered(b, a);
      BitLengthOfHalf(a);
      AtMostAntisymmetric(Half(a), Half(b));
      SameHalves(a, b);
    }
  }

  lemma NotLess(a: bv64, b: bv64)
    requires !Less(a, b)
    ensures AtMost(b, a)
  {
  }

  lemma LessTransitive(a: bv64, b: bv64, c: bv64)
    requires Less(a, b) && Less(b, c)
    ensures Less(a, c)
  {
  }

  /** Two different words are ordered one way or the other. */
  lemma BitsTotal(a: bv64, b: bv64)
    ensures a == b || Less(a, b) || Less(b, a)
  {
    hide AtMost, Less;
    if !Less(a, b) && !Less(b, a) {
      NotLess(a, b);
      NotLess(b, a);
      AtMostAntisymmetric(a, b);
    }
  }
}
