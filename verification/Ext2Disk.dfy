/** What the blocks of an ext2 volume (kernel/src/ext2.c) encode: little-endian fields, bitmaps,
    group descriptors, and the set of blocks in use. */
module Ext2Disk {
  import opened Arith
  import opened BlockCache

  // ---------------------------------------------------------------- fields

  /** Fields of a block; reading past its end gives 0. */
  function U16(b: Block, at: nat): (v: nat)
    ensures v < 0x1_0000
  {
    if at + 2 <= |b| then b[at] as int + 0x100 * (b[at + 1] as int) else 0
  }

  function U32(b: Block, at: nat): (v: nat)
    ensures v < 0x1_0000_0000
  {
    if at + 4 <= |b| then
      b[at] as int + 0x100 * (b[at + 1] as int) + 0x1_0000 * (b[at + 2] as int) + 0x100_0000 * (b[at + 3] as int)
    else 0
  }

  /** Stores a field; past the end nothing happens. */
  function PutU16(b: Block, at: nat, v: nat): (r: Block)
    requires v < 0x1_0000
    ensures |r| == |b| && (at + 2 <= |b| ==> U16(r, at) == v)
    ensures forall i :: 0 <= i < |b| && !(at <= i < at + 2) ==> r[i] == b[i]
  {
    if at + 2 <= |b| then b[at := v % 0x100][at + 1 := v / 0x100] else b
  }

  function PutU32(b: Block, at: nat, v: nat): (r: Block)
    requires v < 0x1_0000_0000
    ensures |r| == |b| && (at + 4 <= |b| ==> U32(r, at) == v)
    ensures forall i :: 0 <= i < |b| && !(at <= i < at + 4) ==> r[i] == b[i]
  {
    var hi := v / 0x1_0000;
    assert v == v % 0x1_0000 + 0x1_0000 * hi;
    if at + 4 <= |b| then PutU16(PutU16(b, at, v % 0x1_0000), at + 2, hi) else b
  }

  // ---------------------------------------------------------------- bits

  function Two(n: nat): nat {
    if n == 0 then 1 else 2 * Two(n - 1)
  }

  /** Bit `k` of a number. */
  predicate Bit(x: nat, k: nat) {
    if k == 0 then x % 2 == 1 else Bit(x / 2, k - 1)
  }

  /** `x | (1 << k)` and `x & ~(1 << k)`. */
  function SetBit(x: nat, k: nat, on: bool): nat {
    if k == 0 then x / 2 * 2 + (if on then 1 else 0) else x % 2 + 2 * SetBit(x / 2, k - 1, on)
  }

  lemma {:induction false} SetBitFits(x: nat, k: nat, on: bool, n: nat)
    requires x < Two(n) && k < n
    ensures SetBit(x, k, on) < Two(n)
  {
    if k == 0 {
    } else {
      SetBitFits(x / 2, k - 1, on, n - 1);
    }
  }

  lemma {:induction false} BitOfSetBit(x: nat, k: nat, on: bool, j: nat)
    ensures Bit(SetBit(x, k, on), j) <==> if j == k then on else Bit(x, j)
  {
    if k == 0 {
      assert j != 0 ==> (x / 2 * 2 + (if on then 1 else 0)) / 2 == x / 2;
    } else if j != 0 {
      BitOfSetBit(x / 2, k - 1, on, j - 1);
      assert SetBit(x, k, on) / 2 == SetBit(x / 2, k - 1, on);
    }
  }

  /** Bit `bit` of a bitmap block. */
  predicate BitAt(b: Block, bit: nat) {
    bit / 8 < |b| && Bit(b[bit / 8], bit % 8)
  }

  lemma ByteSize()
    ensures Two(8) == 256
  {
    assert Two(4) == 16;
  }

  function PutBit(b: Block, bit: nat, on: bool): (r: Block)
    ensures |r| == |b|
  {
    if bit / 8 >= |b| then b else
      ByteSize();
      SetBitFits(b[bit / 8], bit % 8, on, 8);
      b[bit / 8 := SetBit(b[bit / 8], bit % 8, on)]
  }

  lemma BitOfPutBit(b: Block, bit: nat, on: bool, j: nat)
    requires bit / 8 < |b| && j / 8 < |b|
    ensures BitAt(PutBit(b, bit, on), j) <==> if j == bit then on else BitAt(b, j)
  {
    ByteSize();
    SetBitFits(b[bit / 8], bit % 8, on, 8);
    BitOfSetBit(b[bit / 8], bit % 8, on, j % 8);
  }

  // ---------------------------------------------------------------- geometry

  type Blocks = map<nat, Block>

  function At(d: Blocks, b: nat): Block {
    if b in d then d[b] else []
  }

  /** `struct ext2_fs` as far as it describes the volume; the first data block is block 0. */
  datatype Geo = Geo(bs: nat, count: nat, bpg: nat, groups: nat)

  /** The group of a block and its place in that group's bitmap. */
  function Group(geo: Geo, b: nat): nat {
    if geo.bpg == 0 then 0 else b / geo.bpg
  }

  function BitNo(geo: Geo, b: nat): nat {
    if geo.bpg == 0 then 0 else b % geo.bpg
  }

  /** A bitmap covers its group, and the groups cover the volume and no more. */
  predicate GeoOk(geo: Geo) {
    && geo.bs in {1024, 2048, 4096}
    && 0 < geo.count < 0x1_0000_0000
    && 0 < geo.bpg <= 8 * geo.bs
    && Group(geo, geo.count - 1) + 1 == geo.groups
  }

  lemma InGroup(geo: Geo, b: nat)
    requires GeoOk(geo) && b < geo.count
    ensures Group(geo, b) < geo.groups && BitNo(geo, b) / 8 < geo.bs
  {
    DivMono(b, geo.count - 1, geo.bpg);
  }

  lemma SameBlock(geo: Geo, a: nat, b: nat)
    requires GeoOk(geo) && Group(geo, a) == Group(geo, b) && BitNo(geo, a) == BitNo(geo, b)
    ensures a == b
  {
    SameDivMod(a, b, geo.bpg);
  }

  lemma BlockOfBit(geo: Geo, g: nat, bit: nat)
    requires GeoOk(geo) && bit < geo.bpg
    ensures Group(geo, g * geo.bpg + bit) == g && BitNo(geo, g * geo.bpg + bit) == bit
  {
    DivMod(g * geo.bpg + bit, geo.bpg, g, bit);
  }

  ghost predicate Sized(geo: Geo, d: Blocks) {
    && (forall b: nat :: b in d <==> b < geo.count)
    && (forall b :: b in d ==> |d[b]| == geo.bs)
  }

  /** Group descriptors are 32 bytes each, in a table that starts on block 1 (2 for the smallest blocks). */
  function GdBlock(geo: Geo, g: nat): nat {
    (if geo.bs == 1024 then 2 else 1) + (if geo.bs < 32 then 0 else g / (geo.bs / 32))
  }

  function GdAt(geo: Geo, g: nat): nat {
    if geo.bs < 32 then 0 else 32 * (g % (geo.bs / 32))
  }

  lemma GdFits(geo: Geo, g: nat)
    requires GeoOk(geo)
    ensures GdAt(geo, g) + 32 <= geo.bs
  {
  }

  lemma GdApart(geo: Geo, g: nat, h: nat)
    requires GeoOk(geo) && g != h && GdBlock(geo, g) == GdBlock(geo, h)
    ensures GdAt(geo, g) + 32 <= GdAt(geo, h) || GdAt(geo, h) + 32 <= GdAt(geo, g)
  {
    var per := geo.bs / 32;
    if g % per == h % per { SameDivMod(g, h, per); }
  }

  /** The block bitmap's place and the free count, as the descriptor of group `g` records them. */
  function BitmapOf(geo: Geo, d: Blocks, g: nat): nat {
    U32(At(d, GdBlock(geo, g)), GdAt(geo, g))
  }

  function FreeOf(geo: Geo, d: Blocks, g: nat): nat {
    U16(At(d, GdBlock(geo, g)), GdAt(geo, g) + 12)
  }

  /** Group `g` has its descriptor and its bitmap, both among the metadata blocks. */
  predicate GroupOk(geo: Geo, d: Blocks, meta: set<nat>, g: nat) {
    && GdBlock(geo, g) < geo.count && GdBlock(geo, g) in meta
    && BitmapOf(geo, d, g) < geo.count && BitmapOf(geo, d, g) in meta
  }

  predicate Apart(geo: Geo, d: Blocks, g: nat, h: nat) {
    && (g != h ==> BitmapOf(geo, d, g) != BitmapOf(geo, d, h))
    && BitmapOf(geo, d, g) != GdBlock(geo, h)
  }

  ghost predicate Shape(geo: Geo, d: Blocks, meta: set<nat>) {
    && GeoOk(geo) && Sized(geo, d)
    && (forall g: nat :: g < geo.groups ==> GroupOk(geo, d, meta, g))
    && (forall g: nat, h: nat :: g < geo.groups && h < geo.groups ==> Apart(geo, d, g, h))
  }

  predicate Used(geo: Geo, d: Blocks, b: nat) {
    BitAt(At(d, BitmapOf(geo, d, Group(geo, b))), BitNo(geo, b))
  }

  predicate FreeBlock(geo: Geo, d: Blocks, b: nat) {
    b < geo.count && !Used(geo, d, b)
  }

  function FreeIn(geo: Geo, d: Blocks, g: nat): set<nat> {
    set b: nat | b < geo.count && Group(geo, b) == g && !Used(geo, d, b)
  }

  /** Each group's free count is the number of its clear bits that stand for a block. */
  ghost predicate Counted(geo: Geo, d: Blocks) {
    forall g: nat :: g < geo.groups ==> FreeOf(geo, d, g) == |FreeIn(geo, d, g)|
  }

  // ---------------------------------------------------------------- changing them

  /** Agreement on the metadata blocks. */
  ghost predicate SameMeta(geo: Geo, d: Blocks, e: Blocks, meta: set<nat>) {
    Sized(geo, e) && forall b :: b in meta ==> At(e, b) == At(d, b)
  }

  /** What the metadata says depends on metadata blocks alone. */
  lemma MetaDecides(geo: Geo, d: Blocks, e: Blocks, meta: set<nat>)
    requires Shape(geo, d, meta) && SameMeta(geo, d, e, meta)
    ensures Shape(geo, e, meta)
    ensures forall g: nat :: g < geo.groups ==>
              FreeOf(geo, e, g) == FreeOf(geo, d, g) && FreeIn(geo, e, g) == FreeIn(geo, d, g)
    ensures forall b: nat :: b < geo.count ==> Used(geo, e, b) == Used(geo, d, b)
    ensures Counted(geo, d) ==> Counted(geo, e)
  {
    hide GdBlock, GdAt, U16, U32, Sized, Group, BitNo, BitAt, At;
    forall g: nat | g < geo.groups
      ensures BitmapOf(geo, e, g) == BitmapOf(geo, d, g) && FreeOf(geo, e, g) == FreeOf(geo, d, g) &&
              GroupOk(geo, e, meta, g)
    {
      assert GroupOk(geo, d, meta, g);
    }
    forall g: nat, h: nat | g < geo.groups && h < geo.groups
      ensures Apart(geo, e, g, h)
    {
      assert Apart(geo, d, g, h);
    }
    forall b: nat | b < geo.count
      ensures Used(geo, e, b) == Used(geo, d, b)
    {
      hide GeoOk;
      InGroup(geo, b);
      assert GroupOk(geo, d, meta, Group(geo, b));
    }
  }

  /** The bitmap write of an allocation or a release. */
  function BitChanged(geo: Geo, d: Blocks, b: nat, on: bool): Blocks
  {
    var at := BitmapOf(geo, d, Group(geo, b));
    d[at := PutBit(At(d, at), BitNo(geo, b), on)]
  }

  lemma BitmapFits(geo: Geo, d: Blocks, meta: set<nat>, b: nat)
    requires Shape(geo, d, meta) && b < geo.count
    ensures Group(geo, b) < geo.groups && BitmapOf(geo, d, Group(geo, b)) in d &&
            BitmapOf(geo, d, Group(geo, b)) in meta
    ensures |At(d, BitmapOf(geo, d, Group(geo, b)))| == geo.bs && BitNo(geo, b) / 8 < geo.bs
  {
    hide GdBlock, GdAt, U32, Group, BitNo;
    InGroup(geo, b);
    assert GroupOk(geo, d, meta, Group(geo, b));
  }

  lemma BitChangedGroups(geo: Geo, d: Blocks, meta: set<nat>, b: nat, on: bool)
    requires Shape(geo, d, meta) && b < geo.count
    ensures Shape(geo, BitChanged(geo, d, b, on), meta)
    ensures forall g: nat :: g < geo.groups ==> BitmapOf(geo, BitChanged(geo, d, b, on), g) == BitmapOf(geo, d, g)
    ensures forall g: nat :: g < geo.groups ==> FreeOf(geo, BitChanged(geo, d, b, on), g) == FreeOf(geo, d, g)
  {
    hide GdBlock, GdAt, U16, U32, Group, BitNo, BitAt;
    BitmapFits(geo, d, meta, b);
    var e := BitChanged(geo, d, b, on);
    var at := BitmapOf(geo, d, Group(geo, b));
    hide PutBit;
    assert Sized(geo, e);
    forall g: nat | g < geo.groups
      ensures At(e, GdBlock(geo, g)) == At(d, GdBlock(geo, g))
      ensures BitmapOf(geo, e, g) == BitmapOf(geo, d, g) && FreeOf(geo, e, g) == FreeOf(geo, d, g) &&
              GroupOk(geo, e, meta, g)
    {
      assert GroupOk(geo, d, meta, g) && Apart(geo, d, Group(geo, b), g);
    }
    forall g: nat, h: nat | g < geo.groups && h < geo.groups
      ensures Apart(geo, e, g, h)
    {
      assert Apart(geo, d, g, h);
    }
  }

  /** Setting or clearing a block's bit changes whether that block is in use, and no other. */
  lemma BitChangedUsed(geo: Geo, d: Blocks, meta: set<nat>, b: nat, on: bool, x: nat)
    requires Shape(geo, d, meta) && b < geo.count && x < geo.count
    ensures Used(geo, BitChanged(geo, d, b, on), x) <==> if x == b then on else Used(geo, d, x)
  {
    hide GdBlock, GdAt, U16, U32, Group, BitNo, BitAt;
    BitChangedGroups(geo, d, meta, b, on);
    BitmapFits(geo, d, meta, b);
    BitmapFits(geo, d, meta, x);
    assert Apart(geo, d, Group(geo, b), Group(geo, x));
    if Group(geo, x) == Group(geo, b) && BitNo(geo, x) == BitNo(geo, b) { SameBlock(geo, x, b); }
    BitOfPutBit(At(d, BitmapOf(geo, d, Group(geo, b))), BitNo(geo, b), on, BitNo(geo, x));
    hide Shape, GeoOk, PutBit;
  }

  lemma Shape1(geo: Geo, d: Blocks, meta: set<nat>)
    requires Shape(geo, d, meta)
    ensures GeoOk(geo) && Sized(geo, d)
  {
  }

  /** The descriptor write of an allocation or a release. */
  function FreeChanged(geo: Geo, d: Blocks, g: nat, v: nat): Blocks
    requires v < 0x1_0000
  {
    d[GdBlock(geo, g) := PutU16(At(d, GdBlock(geo, g)), GdAt(geo, g) + 12, v)]
  }

  lemma GdIn(geo: Geo, d: Blocks, meta: set<nat>, g: nat)
    requires Shape(geo, d, meta) && g < geo.groups
    ensures GdBlock(geo, g) in d && GdBlock(geo, g) in meta && GdAt(geo, g) + 32 <= |At(d, GdBlock(geo, g))|
  {
    hide GdBlock, GdAt, U32, Group, BitNo;
    assert GroupOk(geo, d, meta, g);
    GdFits(geo, g);
  }

  lemma FreeChangedField(geo: Geo, d: Blocks, meta: set<nat>, g: nat, v: nat, h: nat)
    requires Shape(geo, d, meta) && g < geo.groups && h < geo.groups && v < 0x1_0000
    ensures BitmapOf(geo, FreeChanged(geo, d, g, v), h) == BitmapOf(geo, d, h)
    ensures FreeOf(geo, FreeChanged(geo, d, g, v), h) == if h == g then v else FreeOf(geo, d, h)
  {
    hide GdBlock, GdAt, Group, BitNo;
    GdIn(geo, d, meta, h);
    if h != g && GdBlock(geo, g) == GdBlock(geo, h) { GdApart(geo, g, h); }
    hide Shape;
    hide GeoOk;
    hide PutU16;
  }

  /** Recording a free count changes that count, and neither any other nor what is in use. */
  lemma FreeChangedRest(geo: Geo, d: Blocks, meta: set<nat>, g: nat, v: nat)
    requires Shape(geo, d, meta) && g < geo.groups && v < 0x1_0000
    ensures Shape(geo, FreeChanged(geo, d, g, v), meta)
    ensures forall x: nat :: x < geo.count ==> Used(geo, FreeChanged(geo, d, g, v), x) == Used(geo, d, x)
  {
    hide GdBlock, GdAt, U16, U32, Group, BitNo, BitAt, PutU16;
    var e := FreeChanged(geo, d, g, v);
    GdIn(geo, d, meta, g);
    forall h: nat | h < geo.groups
      ensures BitmapOf(geo, e, h) == BitmapOf(geo, d, h) && GroupOk(geo, e, meta, h)
    {
      FreeChangedField(geo, d, meta, g, v, h);
      assert GroupOk(geo, d, meta, h);
    }
    forall a: nat, h: nat | a < geo.groups && h < geo.groups
      ensures Apart(geo, e, a, h)
    {
      assert Apart(geo, d, a, h);
    }
    forall x: nat | x < geo.count
      ensures Used(geo, e, x) == Used(geo, d, x)
    {
      BitmapFits(geo, d, meta, x);
      assert Apart(geo, d, Group(geo, x), g);
    }
  }

  // ---------------------------------------------------------------- taking and giving back

  /** The volume with block `b` in use and its group's count one less. */
  function Taken(geo: Geo, d: Blocks, b: nat): Blocks
  {
    var free := FreeOf(geo, d, Group(geo, b));
    FreeChanged(geo, BitChanged(geo, d, b, true), Group(geo, b), if free > 0 then free - 1 else 0)
  }

  /** The volume with block `b` given back and its group's 16-bit count one more. */
  function Released(geo: Geo, d: Blocks, b: nat): Blocks
  {
    FreeChanged(geo, BitChanged(geo, d, b, false), Group(geo, b), (FreeOf(geo, d, Group(geo, b)) + 1) % 0x1_0000)
  }

  /** Only metadata blocks are rewritten. */
  ghost predicate OnlyMeta(d: Blocks, e: Blocks, meta: set<nat>) {
    forall x: nat :: x !in meta ==> At(e, x) == At(d, x)
  }

  /** Block `b` goes in or out of use, its group's count becomes `v`. */
  lemma ChangeUse(geo: Geo, d: Blocks, meta: set<nat>, b: nat, on: bool, v: nat)
    requires Shape(geo, d, meta) && b < geo.count && v < 0x1_0000
    ensures Shape(geo, BitChanged(geo, d, b, on), meta) && OnlyMeta(d, BitChanged(geo, d, b, on), meta)
    ensures var e := FreeChanged(geo, BitChanged(geo, d, b, on), Group(geo, b), v);
            && Shape(geo, e, meta) && OnlyMeta(d, e, meta)
            && (forall x: nat :: x < geo.count ==> (Used(geo, e, x) <==> if x == b then on else Used(geo, d, x)))
            && (forall g: nat :: g < geo.groups ==> FreeOf(geo, e, g) == if g == Group(geo, b) then v
                else FreeOf(geo, d, g))
  {
    hide Shape, GdBlock, BitmapOf, FreeOf, PutBit, PutU16, Group, BitNo, Used, U16, U32;
    BitmapFits(geo, d, meta, b);
    BitChangedGroups(geo, d, meta, b, on);
    var m := BitChanged(geo, d, b, on);
    GdIn(geo, m, meta, Group(geo, b));
    FreeChangedRest(geo, m, meta, Group(geo, b), v);
    assert OnlyMeta(d, m, meta);
    var e := FreeChanged(geo, m, Group(geo, b), v);
    assert OnlyMeta(d, e, meta);
    hide FreeChanged, BitChanged;
    forall x: nat | x < geo.count
      ensures Used(geo, e, x) <==> if x == b then on else Used(geo, d, x)
    {
      BitChangedUsed(geo, d, meta, b, on, x);
    }
    forall g: nat | g < geo.groups
      ensures FreeOf(geo, e, g) == if g == Group(geo, b) then v else FreeOf(geo, d, g)
    {
      FreeChangedField(geo, m, meta, Group(geo, b), v, g);
    }
  }

  /** Allocation marks exactly one block, and keeps the counts exact. */
  lemma TakenCounts(geo: Geo, d: Blocks, meta: set<nat>, b: nat)
    requires Shape(geo, d, meta) && FreeBlock(geo, d, b)
    ensures Shape(geo, Taken(geo, d, b), meta) && OnlyMeta(d, Taken(geo, d, b), meta)
    ensures forall x: nat :: x < geo.count ==> (Used(geo, Taken(geo, d, b), x) <==> x == b || Used(geo, d, x))
    ensures Counted(geo, d) ==> Counted(geo, Taken(geo, d, b))
  {
    hide Shape, GdBlock, BitmapOf, FreeOf, Group, BitNo, Used, FreeChanged, BitChanged, OnlyMeta;
    var free := FreeOf(geo, d, Group(geo, b));
    var v := if free > 0 then free - 1 else 0;
    assert free < 0x1_0000 by { FreeFits(geo, d, Group(geo, b)); }
    ChangeUse(geo, d, meta, b, true, v);
    BitmapFits(geo, d, meta, b);
    var e := Taken(geo, d, b);
    if Counted(geo, d) {
      forall g: nat | g < geo.groups
        ensures FreeOf(geo, e, g) == |FreeIn(geo, e, g)|
      {
        assert FreeIn(geo, e, g) == FreeIn(geo, d, g) - {b};
        assert b in FreeIn(geo, d, Group(geo, b));
        if g != Group(geo, b) { assert FreeIn(geo, e, g) == FreeIn(geo, d, g); }
      }
    }
  }

  lemma FreeFits(geo: Geo, d: Blocks, g: nat)
    ensures FreeOf(geo, d, g) < 0x1_0000
  {
  }

  /** A group never has as many blocks as would overflow its 16-bit count. */
  lemma FewPerGroup(geo: Geo, g: nat, s: set<nat>)
    requires GeoOk(geo) && forall x :: x in s ==> Group(geo, x) == g
    ensures |s| <= 32768
  {
    IntervalCard(s, g * geo.bpg, geo.bpg);
  }

  /** Releasing a block in use clears exactly its bit, and keeps the counts exact. */
  lemma ReleasedCounts(geo: Geo, d: Blocks, meta: set<nat>, b: nat)
    requires Shape(geo, d, meta) && b < geo.count && Used(geo, d, b)
    ensures Shape(geo, Released(geo, d, b), meta) && OnlyMeta(d, Released(geo, d, b), meta)
    ensures forall x: nat :: x < geo.count ==> (Used(geo, Released(geo, d, b), x) <==> x != b && Used(geo, d, x))
    ensures Counted(geo, d) ==> Counted(geo, Released(geo, d, b))
  {
    hide GdBlock, BitmapOf, FreeOf, Group, BitNo, Used, FreeChanged, BitChanged, OnlyMeta;
    var v := (FreeOf(geo, d, Group(geo, b)) + 1) % 0x1_0000;
    ChangeUse(geo, d, meta, b, false, v);
    BitmapFits(geo, d, meta, b);
    var e := Released(geo, d, b);
    assert GeoOk(geo);
    hide Shape, GeoOk;
    if Counted(geo, d) {
      forall g: nat | g < geo.groups
        ensures FreeOf(geo, e, g) == |FreeIn(geo, e, g)|
      {
        if g == Group(geo, b) {
          assert FreeIn(geo, e, g) == FreeIn(geo, d, g) + {b};
          FewPerGroup(geo, g, FreeIn(geo, e, g));
        } else {
          assert FreeIn(geo, e, g) == FreeIn(geo, d, g);
        }
      }
    }
  }
}
