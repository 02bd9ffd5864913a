/** 64-bit words as sets of bit positions: the masks and shifts the page allocator scans with. */
module Words {

  const ALL_ONES: bv64 := 0xffff_ffff_ffff_ffff

  predicate Bit(w: bv64, i: bv7)
    requires i < 64
  {
    (w >> i) & 1 == 1
  }

  /** The bit position of a number below 64, and back. */
  function Pos(i: nat): (r: bv7)
    requires i < 64
    ensures r < 64
  {
    i as bv7
  }

  function Index(b: bv7): nat {
    b as nat
  }

  lemma IndexPos(i: nat)
    requires i < 64
    ensures Index(Pos(i)) == i
  {
  }

  lemma IndexOrder(a: bv7, b: bv7)
    ensures (Index(a) < Index(b)) == (a < b)
  {
  }

  lemma PosOrder(i: nat, j: nat)
    requires i < 64 && j < 64
    ensures (Pos(i) < Pos(j)) == (i < j)
    ensures (Pos(i) == Pos(j)) == (i == j)
  {
    hide *;
    IndexPos(i);
    IndexPos(j);
    IndexOrder(Pos(i), Pos(j));
  }

  function And(v: bv64, w: bv64): bv64 {
    v & w
  }

  function Or(v: bv64, w: bv64): bv64 {
    v | w
  }

  function Not(w: bv64): bv64 {
    !w
  }

  /** `1ull << b`. */
  function Mask(b: bv7): bv64
    requires b < 64
  {
    1 << b
  }

  /** `UINT64_MAX << b`. */
  function From(b: bv7): bv64
    requires b < 64
  {
    ALL_ONES << b
  }

  /** `(1ull << b) - 1`. */
  function Below(b: bv7): bv64
    requires b < 64
  {
    (1 << b) - 1
  }

  lemma MaskBit(i: bv7, b: bv7)
    requires i < 64 && b < 64
    ensures Bit(Mask(b), i) == (i == b)
  {
  }

  lemma FromBit(i: bv7, b: bv7)
    requires i < 64 && b < 64
    ensures Bit(From(b), i) == !(i < b)
  {
  }

  lemma BelowBit(i: bv7, b: bv7)
    requires i < 64 && b < 64
    ensures Bit(Below(b), i) == (i < b)
  {
  }

  lemma AndBit(v: bv64, w: bv64, i: bv7)
    requires i < 64
    ensures Bit(And(v, w), i) == (Bit(v, i) && Bit(w, i))
  {
  }

  lemma NotBit(w: bv64, i: bv7)
    requires i < 64
    ensures Bit(Not(w), i) == !Bit(w, i)
  {
  }

  lemma DeMorgan(v: bv64, w: bv64)
    ensures Or(v, w) == Not(And(Not(v), Not(w)))
  {
  }

  lemma OrBit(v: bv64, w: bv64, i: bv7)
    requires i < 64
    ensures Bit(Or(v, w), i) == (Bit(v, i) || Bit(w, i))
  {
    hide Bit, And, Or, Not;
    DeMorgan(v, w);
    AndBit(Not(v), Not(w), i);
    NotBit(v, i);
    NotBit(w, i);
    NotBit(And(Not(v), Not(w)), i);
  }

  lemma AndMaskZero(w: bv64, b: bv7)
    requires b < 64
    ensures (And(w, Mask(b)) == 0) == !Bit(w, b)
  {
  }

  lemma ZeroBit(i: bv7)
    requires i < 64
    ensures !Bit(0, i)
  {
  }

  lemma OnesBit(i: bv7)
    requires i < 64
    ensures Bit(ALL_ONES, i)
  {
  }

  // The same operations by mathematical bit number, as the allocator uses them.

  predicate Has(w: bv64, i: nat)
    requires i < 64
  {
    Bit(w, Pos(i))
  }

  function WithBit(w: bv64, i: nat): bv64
    requires i < 64
  {
    Or(w, Mask(Pos(i)))
  }

  function WithoutBit(w: bv64, i: nat): bv64
    requires i < 64
  {
    And(w, Not(Mask(Pos(i))))
  }

  function KeepFrom(w: bv64, i: nat): bv64
    requires i < 64
  {
    And(w, From(Pos(i)))
  }

  function KeepBelow(w: bv64, i: nat): bv64
    requires i < 64
  {
    And(w, Below(Pos(i)))
  }

  predicate IsClear(w: bv64, i: nat)
    requires i < 64
  {
    And(w, Mask(Pos(i))) == 0
  }

  lemma HasWith(w: bv64, i: nat, j: nat)
    requires i < 64 && j < 64
    ensures Has(WithBit(w, j), i) == (i == j || Has(w, i))
  {
    hide Bit, Pos, Mask, From, Below, And, Or, Not;
    OrBit(w, Mask(Pos(j)), Pos(i));
    MaskBit(Pos(i), Pos(j));
    PosOrder(i, j);
  }

  lemma HasWithout(w: bv64, i: nat, j: nat)
    requires i < 64 && j < 64
    ensures Has(WithoutBit(w, j), i) == (i != j && Has(w, i))
  {
    hide Bit, Pos, Mask, From, Below, And, Or, Not;
    AndBit(w, Not(Mask(Pos(j))), Pos(i));
    NotBit(Mask(Pos(j)), Pos(i));
    MaskBit(Pos(i), Pos(j));
    PosOrder(i, j);
  }

  lemma HasFrom(w: bv64, i: nat, j: nat)
    requires i < 64 && j < 64
    ensures Has(KeepFrom(w, j), i) == (j <= i && Has(w, i))
  {
    hide Bit, Pos, Mask, From, Below, And, Or, Not;
    AndBit(w, From(Pos(j)), Pos(i));
    FromBit(Pos(i), Pos(j));
    PosOrder(i, j);
  }

  lemma HasBelow(w: bv64, i: nat, j: nat)
    requires i < 64 && j < 64
    ensures Has(KeepBelow(w, j), i) == (i < j && Has(w, i))
  {
    hide Bit, Pos, Mask, From, Below, And, Or, Not;
    AndBit(w, Below(Pos(j)), Pos(i));
    BelowBit(Pos(i), Pos(j));
    PosOrder(i, j);
  }

  lemma HasNot(w: bv64, i: nat)
    requires i < 64
    ensures Has(Not(w), i) == !Has(w, i)
  {
    hide Bit, Pos, Mask, From, Below, And, Or, Not;
    NotBit(w, Pos(i));
  }

  lemma HasTest(w: bv64, i: nat)
    requires i < 64
    ensures IsClear(w, i) == !Has(w, i)
  {
    hide Bit, Pos, Mask, From, Below, And, Or, Not;
    AndMaskZero(w, Pos(i));
  }

  lemma HasOnes(i: nat)
    requires i < 64
    ensures Has(ALL_ONES, i)
  {
    hide Bit, Pos, Mask, From, Below, And, Or, Not;
    OnesBit(Pos(i));
  }

  lemma HasZero(i: nat)
    requires i < 64
    ensures !Has(0, i)
  {
    hide Bit, Pos, Mask, From, Below, And, Or, Not;
    ZeroBit(Pos(i));
  }

  /** Some bit at or above `i` is set. */
  predicate Rest(w: bv64, i: bv7)
    requires i <= 64
  {
    w >> i != 0
  }

  lemma RestStep(w: bv64, i: bv7)
    requires i < 64 && Rest(w, i) && !Bit(w, i)
    ensures i < 63 && Rest(w, i + 1)
  {
  }

  lemma RestStart(w: bv64)
    requires w != 0
    ensures Rest(w, Pos(0))
  {
  }

  lemma PosNext(r: nat)
    requires r < 64 && Pos(r) < 63
    ensures r < 63 && Pos(r + 1) == Pos(r) + 1
  {
  }

  lemma RestNext(w: bv64, r: nat)
    requires r < 64 && Rest(w, Pos(r)) && !Has(w, r)
    ensures r + 1 < 64 && Rest(w, Pos(r + 1))
  {
    hide Bit, Pos, Rest;
    RestStep(w, Pos(r));
    PosNext(r);
  }

  function Scan(w: bv64, r: nat): nat
    requires r < 64 && Rest(w, Pos(r))
    decreases 64 - r
  {
    if Has(w, r) then r
    else
      RestNext(w, r);
      Scan(w, r + 1)
  }

  /** Number of trailing zero bits of a non-zero word (`__builtin_ctzll`). */
  function Ctz(w: bv64): nat
    requires w != 0
  {
    RestStart(w);
    Scan(w, 0)
  }

  lemma {:induction false} ScanLowest(w: bv64, r: nat)
    requires r < 64 && Rest(w, Pos(r))
    ensures r <= Scan(w, r) < 64 && Has(w, Scan(w, r))
    ensures forall k :: r <= k < Scan(w, r) ==> !Has(w, k)
    decreases 64 - r
  {
    hide Bit, Pos, Rest;
    if Has(w, r) {
    } else {
      RestNext(w, r);
      ScanLowest(w, r + 1);
    }
  }

  /** `Ctz` is the position of the lowest set bit. */
  lemma CtzLowest(w: bv64)
    requires w != 0
    ensures Ctz(w) < 64 && Has(w, Ctz(w))
    ensures forall k :: 0 <= k < Ctz(w) ==> !Has(w, k)
  {
    hide Bit, Pos, Rest, Scan;
    RestStart(w);
    ScanLowest(w, 0);
  }
}
