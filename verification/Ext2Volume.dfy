/** A mounted volume (kernel/src/ext2.c): block I/O through the cache, and the block allocator. */
module Ext2Volume {
  import opened Arith
  import opened BlockCache
  import opened Ext2Disk

  const EIO: int := 5
  const ENOSPC: int := 28
  const EFBIG: int := 27

  /** The blocks of one file system, as the cache presents them. */
  ghost predicate Presents(view: Disk, fs: nat, disk: Blocks) {
    forall b: nat :: (b in disk <==> Key(fs, b) in view) && (b in disk ==> disk[b] == view[Key(fs, b)])
  }

  /** Every block of other file systems is as it was. */
  ghost predicate OthersKept(before: Disk, after: Disk, fs: nat) {
    forall k :: k in before && k.fs != fs ==> k in after && after[k] == before[k]
  }

  /** The disk after the first `n` blocks of a run have been written. */
  ghost function PutRun(d: Blocks, first: nat, blocks: seq<Block>, n: nat): Blocks
    requires n <= |blocks|
  {
    if n == 0 then d else PutRun(d, first, blocks, n - 1)[first + n - 1 := blocks[n - 1]]
  }

  lemma {:induction false} PresentsRun(view: Disk, fs: nat, disk: Blocks, first: nat, blocks: seq<Block>, n: nat)
    requires n <= |blocks| && Presents(view, fs, disk)
    ensures Presents(Put(view, fs, first, blocks, n), fs, PutRun(disk, first, blocks, n))
    ensures OthersKept(view, Put(view, fs, first, blocks, n), fs)
  {
    if n == 0 {
    } else {
      PresentsRun(view, fs, disk, first, blocks, n - 1);
    }
  }

  lemma {:induction false} PutRunAt(d: Blocks, first: nat, blocks: seq<Block>, n: nat, b: nat)
    requires n <= |blocks|
    ensures At(PutRun(d, first, blocks, n), b) == if first <= b < first + n then blocks[b - first] else At(d, b)
    ensures b in PutRun(d, first, blocks, n) <==> b in d || first <= b < first + n
  {
    if n == 0 {
    } else {
      PutRunAt(d, first, blocks, n - 1, b);
    }
  }

  lemma SizedPut(geo: Geo, d: Blocks, b: nat, data: Block)
    requires Sized(geo, d) && |data| == geo.bs
    ensures b in d ==> Sized(geo, d[b := data])
  {
  }

  lemma SizedRun(geo: Geo, d: Blocks, first: nat, blocks: seq<Block>)
    requires Sized(geo, d) && first + |blocks| <= geo.count
    requires forall i :: 0 <= i < |blocks| ==> |blocks[i]| == geo.bs
    ensures Sized(geo, PutRun(d, first, blocks, |blocks|))
  {
    forall b: nat { PutRunAt(d, first, blocks, |blocks|, b); }
  }

  lemma PresentsPut(view: Disk, fs: nat, disk: Blocks, b: nat, data: Block)
    requires Presents(view, fs, disk)
    ensures Presents(view[Key(fs, b) := data], fs, disk[b := data])
    ensures OthersKept(view, view[Key(fs, b) := data], fs)
  {
  }

  /** Group `g` offers nothing: its count says so, or all its bits are set. */
  predicate NoneFree(geo: Geo, d: Blocks, g: nat) {
    FreeOf(geo, d, g) == 0 || FreeIn(geo, d, g) == {}
  }

  /** Full is full: a scan that met only groups that offer nothing met no free block at all. */
  lemma AllGroupsFull(geo: Geo, d: Blocks, start: nat)
    requires GeoOk(geo) && Counted(geo, d)
    requires forall s: nat :: s < geo.groups ==> NoneFree(geo, d, Round(start, s, geo.groups))
    ensures forall b: nat :: b < geo.count ==> Used(geo, d, b)
  {
    forall b: nat | b < geo.count
      ensures Used(geo, d, b)
    {
      hide Used, Group, BitNo, FreeOf;
      InGroup(geo, b);
      var g, n := Group(geo, b), geo.groups;
      var s := if g >= start % n then g - start % n else g - start % n + n;
      RoundTo(start, s, n, g);
      assert NoneFree(geo, d, Round(start, s, n));
      assert b in FreeIn(geo, d, g) || Used(geo, d, b);
    }
  }

  /** The bit a step of the scan looks at: the start group is entered in the middle and wraps. */
  function ScanBit(geo: Geo, first: bool, start: nat, step: nat): (bit: nat)
    requires GeoOk(geo) && step < geo.bpg
    ensures bit < geo.bpg
  {
    if first then Round(start, step, geo.bpg) else step
  }

  /** Past the end of the volume, or in use. */
  predicate Taken1(geo: Geo, d: Blocks, b: nat) {
    b >= geo.count || Used(geo, d, b)
  }

  function BlockNo(geo: Geo, g: nat, bit: nat): nat {
    g * geo.bpg + bit
  }

  lemma BlockNoOf(geo: Geo, b: nat)
    requires GeoOk(geo)
    ensures BlockNo(geo, Group(geo, b), BitNo(geo, b)) == b && BitNo(geo, b) < geo.bpg
  {
  }

  lemma WholeGroupScanned(geo: Geo, d: Blocks, g: nat, first: bool, start: nat)
    requires GeoOk(geo)
    requires forall s: nat :: s < geo.bpg ==> Taken1(geo, d, BlockNo(geo, g, ScanBit(geo, first, start, s)))
    ensures FreeIn(geo, d, g) == {}
  {
    hide Used, BlockNo, Group, BitNo;
    forall b: nat | b < geo.count && Group(geo, b) == g
      ensures Used(geo, d, b)
    {
      BlockNoOf(geo, b);
      var bit, n := BitNo(geo, b), geo.bpg;
      var s := if !first then bit else if bit >= start % n then bit - start % n else bit - start % n + n;
      if first { RoundTo(start, s, n, bit); }
      assert Taken1(geo, d, BlockNo(geo, g, ScanBit(geo, first, start, s)));
    }
  }

  lemma BlockNoIs(geo: Geo, g: nat, bit: nat)
    requires GeoOk(geo) && bit < geo.bpg
    ensures Group(geo, BlockNo(geo, g, bit)) == g && BitNo(geo, BlockNo(geo, g, bit)) == bit
  {
    BlockOfBit(geo, g, bit);
  }

  function Zeros(n: nat): (r: Block)
    ensures |r| == n && forall i :: 0 <= i < n ==> r[i] == 0
  {
    seq(n, _ => 0)
  }

  /** The volume after block `b` has been allocated. */
  ghost function Allocated(geo: Geo, d: Blocks, b: nat, zero: bool): Blocks {
    if zero then Taken(geo, d, b)[b := Zeros(geo.bs)] else Taken(geo, d, b)
  }

  /** The volume after block `b` has been given back, its group's count with it or not. */
  ghost function Freed(geo: Geo, d: Blocks, b: nat, counted: bool): Blocks {
    if counted then Released(geo, d, b) else BitChanged(geo, d, b, false)
  }

  /** What an allocation that failed half way may leave: more blocks marked, nothing else. */
  ghost predicate Grown(geo: Geo, d: Blocks, e: Blocks, meta: set<nat>) {
    && OnlyMeta(d, e, meta)
    && forall x: nat :: x < geo.count && Used(geo, d, x) ==> Used(geo, e, x)
  }

  lemma GrownSame(geo: Geo, d: Blocks, meta: set<nat>)
    ensures Grown(geo, d, d, meta)
  {
  }

  /** Metadata blocks are always in use, so no allocation ever hands one out. */
  ghost predicate Guarded(geo: Geo, d: Blocks, meta: set<nat>) {
    forall b :: b in meta && b < geo.count ==> Used(geo, d, b)
  }

  lemma GrownGuards(geo: Geo, d: Blocks, e: Blocks, meta: set<nat>)
    requires Guarded(geo, d, meta) && Grown(geo, d, e, meta)
    ensures Guarded(geo, e, meta)
  {
  }

  lemma BitChangedGrows(geo: Geo, d: Blocks, meta: set<nat>, b: nat)
    requires Shape(geo, d, meta) && b < geo.count
    ensures Shape(geo, BitChanged(geo, d, b, true), meta) && Grown(geo, d, BitChanged(geo, d, b, true), meta)
  {
    hide Used, Shape, BitChanged;
    ChangeUse(geo, d, meta, b, true, 0);
    forall x: nat | x < geo.count && Used(geo, d, x)
      ensures Used(geo, BitChanged(geo, d, b, true), x)
    {
      BitChangedUsed(geo, d, meta, b, true, x);
    }
  }

  /** A block outside the metadata can be rewritten without changing what the metadata says. */
  lemma RewriteKeepsUse(geo: Geo, d: Blocks, meta: set<nat>, b: nat, data: Block)
    requires Shape(geo, d, meta) && b < geo.count && b !in meta && |data| == geo.bs
    ensures Shape(geo, d[b := data], meta)
    ensures forall x: nat :: x < geo.count ==> Used(geo, d[b := data], x) == Used(geo, d, x)
    ensures Counted(geo, d) ==> Counted(geo, d[b := data])
    ensures Guarded(geo, d, meta) ==> Guarded(geo, d[b := data], meta)
  {
    hide Shape, Used, Counted;
    Shape1(geo, d, meta);
    MetaDecides(geo, d, d[b := data], meta);
  }

  /** One block in use that was not, outside the metadata; the counts stay exact; no block but that
      one and the metadata is touched. */
  lemma AllocatedOk(geo: Geo, d: Blocks, meta: set<nat>, b: nat, zero: bool)
    requires Shape(geo, d, meta) && Guarded(geo, d, meta) && FreeBlock(geo, d, b)
    ensures b !in meta
    ensures Shape(geo, Allocated(geo, d, b, zero), meta) && Guarded(geo, Allocated(geo, d, b, zero), meta)
    ensures forall x: nat :: x < geo.count ==> (Used(geo, Allocated(geo, d, b, zero), x) <==> x == b || Used(geo, d, x))
    ensures Counted(geo, d) ==> Counted(geo, Allocated(geo, d, b, zero))
    ensures forall x: nat :: x !in meta && x != b ==> At(Allocated(geo, d, b, zero), x) == At(d, x)
    ensures At(Allocated(geo, d, b, zero), b) == if zero then Zeros(geo.bs) else At(d, b)
    ensures Grown(geo, d, Taken(geo, d, b), meta) && Shape(geo, Taken(geo, d, b), meta)
  {
    hide Used, Taken, Shape, Counted;
    TakenCounts(geo, d, meta, b);
    RewriteKeepsUse(geo, Taken(geo, d, b), meta, b, Zeros(geo.bs));
  }

  lemma ClaimSteps(geo: Geo, d: Blocks, meta: set<nat>, b: nat, zero: bool)
    requires Shape(geo, d, meta) && Guarded(geo, d, meta) && FreeBlock(geo, d, b)
    ensures Group(geo, b) < geo.groups && BitmapOf(geo, d, Group(geo, b)) in d && b in d &&
            FreeOf(geo, d, Group(geo, b)) < 0x1_0000
    ensures Grown(geo, d, d, meta)
    ensures Shape(geo, BitChanged(geo, d, b, true), meta) && Grown(geo, d, BitChanged(geo, d, b, true), meta)
    ensures Shape(geo, Taken(geo, d, b), meta) && Grown(geo, d, Taken(geo, d, b), meta) && b in Taken(geo, d, b)
    ensures Shape(geo, Allocated(geo, d, b, zero), meta)
  {
    BitmapFits(geo, d, meta, b);
    BitChangedGrows(geo, d, meta, b);
    AllocatedOk(geo, d, meta, b, zero);
    Shape1(geo, d, meta);
    Shape1(geo, Taken(geo, d, b), meta);
    hide Shape, Taken, BitChanged, Allocated, Used;
  }

  lemma UnmarkSteps(geo: Geo, d: Blocks, meta: set<nat>, b: nat)
    requires Shape(geo, d, meta) && b < geo.count && Used(geo, d, b)
    ensures Group(geo, b) < geo.groups && BitmapOf(geo, d, Group(geo, b)) in d
    ensures Shape(geo, BitChanged(geo, d, b, false), meta) && Shape(geo, Released(geo, d, b), meta)
  {
    hide Shape, Used, Released, BitChanged;
    BitmapFits(geo, d, meta, b);
    ReleasedCounts(geo, d, meta, b);
    ChangeUse(geo, d, meta, b, false, 0);
  }

  lemma BitmapIn(geo: Geo, d: Blocks, meta: set<nat>, g: nat)
    requires Shape(geo, d, meta) && g < geo.groups
    ensures BitmapOf(geo, d, g) in d
  {
    assert GroupOk(geo, d, meta, g);
  }

  lemma OthersSame(view: Disk, fs: nat)
    ensures OthersKept(view, view, fs)
  {
  }

  lemma OthersTrans(a: Disk, b: Disk, c: Disk, fs: nat)
    requires OthersKept(a, b, fs) && OthersKept(b, c, fs)
    ensures OthersKept(a, c, fs)
  {
  }

  class Volume {
    const cache: Cache
    const fs: nat
    const geo: Geo
    ghost const meta: set<nat>
    var next: nat
    ghost var disk: Blocks

    ghost predicate Valid()
      reads this, cache
    {
      cache.Valid() && Presents(cache.view, fs, disk) && GeoOk(geo) && Sized(geo, disk)
    }

    constructor (cache: Cache, fs: nat, geo: Geo, ghost meta: set<nat>, ghost disk: Blocks)
      requires cache.Valid() && Presents(cache.view, fs, disk) && GeoOk(geo) && Sized(geo, disk)
      ensures Valid() && this.cache == cache && this.fs == fs && this.geo == geo && this.meta == meta &&
              this.disk == disk
    {
      this.cache := cache;
      this.fs := fs;
      this.geo := geo;
      this.meta := meta;
      this.disk := disk;
      next := 0;
    }

    method ReadBlock(b: nat) returns (ok: bool, data: Block)
      requires Valid()
      modifies cache
      ensures Valid() && cache.view == old(cache.view)
      ensures ok ==> b in disk && data == disk[b] && |data| == geo.bs
      ensures cache.reliable && b in disk ==> ok
    {
      ok, data := cache.ReadBlock(Key(fs, b));
    }

    method WriteBlock(b: nat, data: Block) returns (ok: bool)
      requires Valid() && |data| == geo.bs
      modifies cache, `disk
      ensures Valid() && OthersKept(old(cache.view), cache.view, fs)
      ensures ok ==> b in old(disk) && disk == old(disk)[b := data]
      ensures !ok ==> disk == old(disk)
      ensures cache.reliable && b in old(disk) ==> ok
    {
      PresentsPut(cache.view, fs, disk, b, data);
      PresentsKey(cache.view, fs, disk, b);
      SizedPut(geo, disk, b, data);
      hide Presents, Represents, GeoOk, OthersKept, Sized;
      ok := cache.WriteBlock(Key(fs, b), data);
      if ok { disk := disk[b := data]; }
    }

    /** The multi-block device write, and the multi-block device read where it may be taken. */
    method WriteRun(first: nat, blocks: seq<Block>) returns (ok: bool)
      requires Valid() && first + |blocks| <= geo.count
      requires forall i :: 0 <= i < |blocks| ==> |blocks[i]| == geo.bs
      modifies cache, `disk
      ensures Valid() && OthersKept(old(cache.view), cache.view, fs)
      ensures disk == if ok then PutRun(old(disk), first, blocks, |blocks|) else old(disk)
      ensures cache.reliable ==> ok
    {
      PresentsRun(cache.view, fs, disk, first, blocks, |blocks|);
      assert InDevice(cache.view, fs, first, |blocks|);
      SizedRun(geo, disk, first, blocks);
      hide *;
      assert cache.Valid();
      ok := cache.WriteDirect(fs, first, blocks);
      if ok { disk := PutRun(disk, first, blocks, |blocks|); }
    }

    method ReadRun(first: nat, n: nat) returns (ok: bool, blocks: seq<Block>)
      requires Valid() && first + n <= geo.count
      ensures ok ==> |blocks| == n && forall i :: 0 <= i < n ==> blocks[i] == At(disk, first + i)
      ensures cache.reliable && !DirtyIn(cache.entries, fs, first, n) ==> ok
    {
      ok, blocks := cache.ReadDirect(fs, first, n);
    }

    /** `read_group_desc`, as far as blocks are concerned. */
    method ReadGroup(g: nat) returns (ok: bool, bitmap: nat, free: nat)
      requires Valid() && Shape(geo, disk, meta) && g < geo.groups
      modifies cache
      ensures Valid() && cache.view == old(cache.view)
      ensures ok ==> bitmap == BitmapOf(geo, disk, g) && free == FreeOf(geo, disk, g)
      ensures cache.reliable ==> ok
    {
      GdIn(geo, disk, meta, g);
      hide Shape, Presents, Represents, GdBlock, GdAt, U16, U32;
      var data;
      bitmap, free := 0, 0;
      ok, data := ReadBlock(GdBlock(geo, g));
      if ok { bitmap, free := U32(data, GdAt(geo, g)), U16(data, GdAt(geo, g) + 12); }
    }

    /** `write_group_desc` with a new free count: the block around it is read, changed and written. */
    method WriteFree(g: nat, v: nat) returns (ok: bool)
      requires Valid() && Shape(geo, disk, meta) && g < geo.groups && v < 0x1_0000
      modifies cache, `disk
      ensures Valid() && OthersKept(old(cache.view), cache.view, fs)
      ensures disk == if ok then FreeChanged(geo, old(disk), g, v) else old(disk)
      ensures cache.reliable ==> ok
    {
      GdIn(geo, disk, meta, g);
      hide Shape, Presents, Represents, GdBlock, GdAt, U16, U32, PutU16, Sized, GeoOk;
      var data;
      ok, data := ReadBlock(GdBlock(geo, g));
      if !ok { return; }
      ok := WriteBlock(GdBlock(geo, g), PutU16(data, GdAt(geo, g) + 12, v));
    }

    /** The bit loop of `alloc_block_maybe_zero` over one group's bitmap. */
    method FindBit(g: nat, first: bool, start: nat, bitmap: Block) returns (found: bool, b: nat)
      requires Valid() && Shape(geo, disk, meta) && g < geo.groups
      requires bitmap == At(disk, BitmapOf(geo, disk, g)) && |bitmap| == geo.bs
      ensures found ==> FreeBlock(geo, disk, b) && Group(geo, b) == g
      ensures !found ==> FreeIn(geo, disk, g) == {}
    {
      hide Shape, Presents, Represents, BlockNo, Group, BitNo, BitmapOf, BitAt, Round;
      found, b := false, 0;
      var step := 0;
      while step < geo.bpg
        invariant step <= geo.bpg
        invariant forall s: nat :: s < step ==> Taken1(geo, disk, BlockNo(geo, g, ScanBit(geo, first, start, s)))
      {
        var bit := ScanBit(geo, first, start, step);
        b := BlockNo(geo, g, bit);
        assert Group(geo, b) == g && BitNo(geo, b) == bit by { BlockNoIs(geo, g, bit); }
        if b < geo.count && !BitAt(bitmap, bit) { return true, b; }
        step := step + 1;
      }
      WholeGroupScanned(geo, disk, g, first, start);
    }

    /** `alloc_block_maybe_zero`: a block that was free is in use afterwards and nothing else
        changed, or the volume has no free block, or a device call failed. */
    method AllocBlock(zero: bool) returns (rc: int, b: nat)
      requires Valid() && Shape(geo, disk, meta) && Guarded(geo, disk, meta)
      modifies cache, `disk, `next
      ensures Valid() && Shape(geo, disk, meta) && OthersKept(old(cache.view), cache.view, fs)
      ensures rc in {0, -ENOSPC, -EIO} && (cache.reliable ==> rc != -EIO)
      ensures rc == 0 ==> FreeBlock(geo, old(disk), b) && disk == Allocated(geo, old(disk), b, zero)
      ensures next == if rc == 0 then (if b + 1 >= geo.count then 0 else b + 1) else old(next)
      ensures rc == -ENOSPC ==> disk == old(disk) && (Counted(geo, disk) ==> forall x: nat :: x < geo.count ==>
              Used(geo, disk, x))
      ensures rc == -EIO ==> Grown(geo, old(disk), disk, meta)
    {
      hide Presents, Represents, Group, BitNo, BitmapOf, FreeOf, Used, OthersKept;
      b := 0;
      OthersSame(cache.view, fs);
      GrownSame(geo, disk, meta);
      var start := if next >= geo.count then 0 else next;
      InGroup(geo, start);
      var startGroup, startBit := Group(geo, start), BitNo(geo, start);
      var step := 0;
      while step < geo.groups
        invariant step <= geo.groups && Valid() && disk == old(disk) && cache.view == old(cache.view) &&
                  next == old(next)
        invariant forall s: nat :: s < step ==> NoneFree(geo, disk, Round(startGroup, s, geo.groups))
      {
        var g := Round(startGroup, step, geo.groups);
        BitmapIn(geo, disk, meta, g);
        var ok, bitmapBlock, free := ReadGroup(g);
        if !ok { return -EIO, b; }
        if free != 0 {
          var data;
          ok, data := ReadBlock(bitmapBlock);
          if !ok { return -EIO, b; }
          var found;
          found, b := FindBit(g, g == startGroup, startBit, data);
          if found {
            rc := Claim(b, bitmapBlock, data, free, zero);
            return;
          }
        }
        step := step + 1;
      }
      if Counted(geo, disk) { AllGroupsFull(geo, disk, startGroup); }
      return -ENOSPC, b;
    }

    /** The tail of a successful search: bitmap and descriptor, and then the block itself. */
    method Claim(b: nat, bitmapBlock: nat, bitmap: Block, free: nat, zero: bool) returns (rc: int)
      requires Valid() && Shape(geo, disk, meta) && Guarded(geo, disk, meta) && FreeBlock(geo, disk, b)
      requires bitmapBlock == BitmapOf(geo, disk, Group(geo, b)) && bitmap == At(disk, bitmapBlock) &&
               |bitmap| == geo.bs
      requires free == FreeOf(geo, disk, Group(geo, b))
      modifies cache, `disk, `next
      ensures Valid() && Shape(geo, disk, meta) && OthersKept(old(cache.view), cache.view, fs)
      ensures rc in {0, -EIO} && (cache.reliable ==> rc == 0)
      ensures rc == 0 ==> disk == Allocated(geo, old(disk), b, zero)
      ensures next == if rc == 0 then (if b + 1 >= geo.count then 0 else b + 1) else old(next)
      ensures rc == -EIO ==> Grown(geo, old(disk), disk, meta)
    {
      hide Presents, Represents, Group, BitNo, BitmapOf, FreeOf, Used, Shape, OthersKept, Sized, GeoOk, Grown, Guarded,
           Taken;
      ClaimSteps(geo, disk, meta, b, zero);
      var ok := Mark(b, bitmapBlock, bitmap, free);
      if !ok { return -EIO; }
      if zero {
        ghost var view := cache.view;
        ok := WriteBlock(b, Zeros(geo.bs));
        OthersTrans(old(cache.view), view, cache.view, fs);
        if !ok { return -EIO; }
      }
      next := if b + 1 >= geo.count then 0 else b + 1;
      return 0;
    }

    method Mark(b: nat, bitmapBlock: nat, bitmap: Block, free: nat) returns (ok: bool)
      requires Valid() && Shape(geo, disk, meta) && Guarded(geo, disk, meta) && FreeBlock(geo, disk, b)
      requires bitmapBlock == BitmapOf(geo, disk, Group(geo, b)) && bitmap == At(disk, bitmapBlock) &&
               |bitmap| == geo.bs
      requires free == FreeOf(geo, disk, Group(geo, b))
      modifies cache, `disk
      ensures Valid() && Shape(geo, disk, meta) && OthersKept(old(cache.view), cache.view, fs)
      ensures cache.reliable ==> ok
      ensures if ok then disk == Taken(geo, old(disk), b) else Grown(geo, old(disk), disk, meta)
    {
      hide Presents, Represents, Group, BitNo, BitmapOf, FreeOf, Used, Shape, FreeChanged, OthersKept, Sized, PutBit,
           GeoOk, Grown, Guarded;
      ClaimSteps(geo, disk, meta, b, false);
      ok := WriteBlock(bitmapBlock, PutBit(bitmap, BitNo(geo, b), true));
      if !ok { return; }
      ghost var view := cache.view;
      ok := WriteFree(Group(geo, b), if free > 0 then free - 1 else 0);
      OthersTrans(old(cache.view), view, cache.view, fs);
    }

    /** `free_block`: a block in use goes out of use; anything else is refused. The count is written
        without looking at whether that worked. */
    method FreeBlockAt(b: nat) returns (ok: bool, ghost counted: bool)
      requires Valid() && Shape(geo, disk, meta)
      modifies cache, `disk
      ensures Valid() && Shape(geo, disk, meta) && OthersKept(old(cache.view), cache.view, fs)
      ensures ok ==> b < geo.count && Used(geo, old(disk), b)
      ensures disk == if ok then Freed(geo, old(disk), b, counted) else old(disk)
      ensures cache.reliable ==> counted && (ok <==> b < geo.count && Used(geo, old(disk), b))
    {
      counted := true;
      hide Presents, Represents, Group, BitNo, BitmapOf, FreeOf, OthersKept, Sized, PutBit, GeoOk, BitAt, Shape;
      OthersSame(cache.view, fs);
      if b >= geo.count { return false, true; }
      BitmapFits(geo, disk, meta, b);
      var at, free, bitmap;
      ok, at, free := ReadGroup(Group(geo, b));
      if !ok { return; }
      ok, bitmap := ReadBlock(at);
      if !ok { return; }
      if !BitAt(bitmap, BitNo(geo, b)) { return false, true; }
      ok, counted := Unmark(b, at, bitmap, free);
    }

    method Unmark(b: nat, at: nat, bitmap: Block, free: nat) returns (ok: bool, ghost counted: bool)
      requires Valid() && Shape(geo, disk, meta) && b < geo.count && Used(geo, disk, b)
      requires at == BitmapOf(geo, disk, Group(geo, b)) && bitmap == At(disk, at) && |bitmap| == geo.bs
      requires free == FreeOf(geo, disk, Group(geo, b))
      modifies cache, `disk
      ensures Valid() && Shape(geo, disk, meta) && OthersKept(old(cache.view), cache.view, fs)
      ensures disk == if ok then Freed(geo, old(disk), b, counted) else old(disk)
      ensures cache.reliable ==> ok && counted
    {
      hide Presents, Represents, Group, BitNo, BitmapOf, FreeOf, Used, Shape, FreeChanged, OthersKept, Sized, PutBit,
           GeoOk, Counted, OnlyMeta;
      UnmarkSteps(geo, disk, meta, b);
      ok := WriteBlock(at, PutBit(bitmap, BitNo(geo, b), false));
      counted := true;
      if !ok { return; }
      ghost var view := cache.view;
      var written := WriteFree(Group(geo, b), (free + 1) % 0x1_0000);
      counted := written;
      OthersTrans(old(cache.view), view, cache.view, fs);
    }
  }

  lemma PresentsKey(view: Disk, fs: nat, disk: Blocks, b: nat)
    requires Presents(view, fs, disk)
    ensures b in disk <==> Key(fs, b) in view
  {
  }
}
