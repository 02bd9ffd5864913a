/** The block tree of an inode (kernel/src/ext2.c): twelve direct blocks and three indirect trees,
    as a function from file block to disk block. */
module Ext2Tree {
  import opened Arith
  import opened BlockCache
  import opened Ext2Disk
  import opened Ext2Volume

  /** The place of a block in a file: which of the fifteen inode slots, then which entry at each level. */
  datatype Owner = Owner(ino: nat, path: seq<nat>)

  type Roots = map<nat, seq<nat>>
  type Owners = map<nat, Owner>

  function Height(k: nat): nat {
    if k < 12 then 0 else k - 11
  }

  /** Pointers per block. */
  function Fan(geo: Geo): nat {
    geo.bs / 4
  }

  predicate PathOk(geo: Geo, path: seq<nat>) {
    && 1 <= |path| && path[0] < 15 && |path| - 1 <= Height(path[0])
    && forall i :: 1 <= i < |path| ==> path[i] < Fan(geo)
  }

  /** How many levels of pointers are still below a block at this place; 0 is data. */
  function Below(path: seq<nat>): int {
    if |path| == 0 then 4 else Height(path[0]) - (|path| - 1)
  }

  function Pointer(d: Blocks, p: nat, j: nat): nat {
    U32(At(d, p), 4 * j)
  }

  function Root(roots: Roots, ino: nat, k: nat): nat {
    if ino in roots && k < |roots[ino]| then roots[ino][k] else 0
  }

  /** The block at a place, or 0 where nothing is mapped. */
  function Follow(d: Blocks, roots: Roots, ino: nat, path: seq<nat>): nat
    decreases |path|
  {
    if |path| == 0 then 0
    else if |path| == 1 then Root(roots, ino, path[0])
    else
      var p := Follow(d, roots, ino, path[..|path| - 1]);
      if p == 0 then 0 else Pointer(d, p, path[|path| - 1])
  }

  // ---------------------------------------------------------------- the invariant

  /** Whatever block is at this place of a file knows that it is there. */
  predicate Known(d: Blocks, roots: Roots, own: Owners, ino: nat, path: seq<nat>) {
    var b := Follow(d, roots, ino, path);
    b != 0 ==> b in own && own[b] == Owner(ino, path)
  }

  /** The block is in use, is no metadata, and is where its owner says. */
  predicate Placed(geo: Geo, d: Blocks, meta: set<nat>, roots: Roots, own: Owners, b: nat)
    requires b in own
  {
    && 0 < b < geo.count && b !in meta && Used(geo, d, b)
    && PathOk(geo, own[b].path) && Follow(d, roots, own[b].ino, own[b].path) == b
  }

  /** `own` lists exactly the blocks of all files, each at one place of one file. */
  ghost predicate Tree(geo: Geo, d: Blocks, meta: set<nat>, roots: Roots, own: Owners) {
    && Shape(geo, d, meta) && Guarded(geo, d, meta) && 0 in meta
    && (forall ino :: ino in roots ==> |roots[ino]| == 15)
    && (forall ino: nat, path: seq<nat> :: PathOk(geo, path) ==> Known(d, roots, own, ino, path))
    && (forall b :: b in own ==> Placed(geo, d, meta, roots, own, b))
  }

  /** No block is at two places, of one file or of two. */
  lemma OnePlace(geo: Geo, d: Blocks, meta: set<nat>, roots: Roots, own: Owners, ino: nat, path: seq<nat>, ino': nat,
      path': seq<nat>)
    requires Tree(geo, d, meta, roots, own) && PathOk(geo, path) && PathOk(geo, path')
    requires Follow(d, roots, ino, path) == Follow(d, roots, ino', path') != 0
    ensures ino == ino' && path == path'
  {
    assert Known(d, roots, own, ino, path) && Known(d, roots, own, ino', path');
  }

  lemma BlockAt(geo: Geo, d: Blocks, meta: set<nat>, roots: Roots, own: Owners, ino: nat, path: seq<nat>)
    requires Tree(geo, d, meta, roots, own) && PathOk(geo, path)
    ensures var b := Follow(d, roots, ino, path);
            b != 0 ==> b in own && own[b] == Owner(ino, path) && 0 < b < geo.count && b !in meta && Used(geo, d, b)
  {
    hide Shape, Guarded, Used, PathOk, Follow;
    assert Known(d, roots, own, ino, path);
    var b := Follow(d, roots, ino, path);
    if b != 0 { assert Placed(geo, d, meta, roots, own, b); }
  }

  // ---------------------------------------------------------------- changes that move nothing

  /** Only blocks that hold no pointers of any file differ, and no more blocks became free. */
  ghost predicate PointersKept(geo: Geo, d: Blocks, e: Blocks, own: Owners) {
    && (forall p :: p in own && Below(own[p].path) > 0 ==> At(e, p) == At(d, p))
    && (forall b :: b in own && b < geo.count && Used(geo, d, b) ==> Used(geo, e, b))
  }

  lemma PrefixOk(geo: Geo, path: seq<nat>)
    requires PathOk(geo, path) && |path| > 1
    ensures PathOk(geo, path[..|path| - 1]) && Below(path[..|path| - 1]) > 0
  {
  }

  lemma {:induction false} KeptFollow(geo: Geo, d: Blocks, e: Blocks, meta: set<nat>, roots: Roots, own: Owners,
      ino: nat, path: seq<nat>)
    requires Tree(geo, d, meta, roots, own) && PointersKept(geo, d, e, own) && PathOk(geo, path)
    ensures Follow(e, roots, ino, path) == Follow(d, roots, ino, path)
    decreases |path|
  {
    hide Tree, PathOk, Used, Below;
    if |path| > 1 {
      var up := path[..|path| - 1];
      PrefixOk(geo, path);
      KeptFollow(geo, d, e, meta, roots, own, ino, up);
      BlockAt(geo, d, meta, roots, own, ino, up);
    } else {
      PathNonempty(geo, path);
    }
  }

  lemma PathNonempty(geo: Geo, path: seq<nat>)
    requires PathOk(geo, path)
    ensures |path| >= 1
  {
  }

  /** Writing data, or marking blocks that belong to no file, moves no file's block. */
  lemma KeptTree(geo: Geo, d: Blocks, e: Blocks, meta: set<nat>, roots: Roots, own: Owners)
    requires Tree(geo, d, meta, roots, own) && PointersKept(geo, d, e, own)
    requires Shape(geo, e, meta) && Guarded(geo, e, meta)
    ensures Tree(geo, e, meta, roots, own)
    ensures forall ino: nat, path :: PathOk(geo, path) ==> Follow(e, roots, ino, path) == Follow(d, roots, ino, path)
  {
    hide Shape, Guarded, Used, PathOk, Below, Follow;
    forall ino: nat, path: seq<nat> | PathOk(geo, path)
      ensures Known(e, roots, own, ino, path) && Follow(e, roots, ino, path) == Follow(d, roots, ino, path)
    {
      assert Known(d, roots, own, ino, path);
      KeptFollow(geo, d, e, meta, roots, own, ino, path);
    }
    forall b | b in own
      ensures Placed(geo, e, meta, roots, own, b)
    {
      assert Placed(geo, d, meta, roots, own, b);
    }
  }

  // ---------------------------------------------------------------- adding a block

  function Up(path: seq<nat>): seq<nat>
    requires |path| >= 1
  {
    path[..|path| - 1]
  }

  function Last(path: seq<nat>): nat
    requires |path| >= 1
  {
    path[|path| - 1]
  }

  /** The pointer to a new block goes into its parent block, or into the inode. */
  ghost function Hung(geo: Geo, d: Blocks, p: nat, path: seq<nat>, b: nat): Blocks
    requires |path| >= 1 && b < 0x1_0000_0000
  {
    if |path| == 1 then d else d[p := PutU32(At(d, p), 4 * Last(path), b)]
  }

  function SetRoot(roots: Roots, ino: nat, k: nat, b: nat): Roots
    requires ino in roots && k < |roots[ino]|
  {
    var blocks: seq<nat> := roots[ino][k := b];
    roots[ino := blocks]
  }

  ghost function HungRoot(roots: Roots, ino: nat, path: seq<nat>, b: nat): Roots
    requires |path| >= 1 && ino in roots && path[0] < |roots[ino]|
  {
    if |path| == 1 then SetRoot(roots, ino, path[0], b) else roots
  }

  /** An empty place of a file whose parent, if it needs one, is there. */
  ghost predicate Vacant(geo: Geo, d: Blocks, roots: Roots, ino: nat, path: seq<nat>, p: nat) {
    && PathOk(geo, path) && ino in roots && Follow(d, roots, ino, path) == 0
    && (|path| > 1 ==> p != 0 && p == Follow(d, roots, ino, Up(path)))
  }

  lemma EntryOfZeros(n: nat, j: nat)
    ensures U32(Zeros(n), 4 * j) == 0
  {
  }

  lemma EntryOfPut(b: Block, j: nat, v: nat, i: nat)
    requires v < 0x1_0000_0000 && 4 * j + 4 <= |b|
    ensures U32(PutU32(b, 4 * j, v), 4 * i) == if i == j then v else U32(b, 4 * i)
  {
    hide PutU32;
  }

  lemma NewIsFresh(geo: Geo, d: Blocks, meta: set<nat>, roots: Roots, own: Owners, b: nat)
    requires Tree(geo, d, meta, roots, own) && FreeBlock(geo, d, b)
    ensures b !in own && b !in meta && b != 0 && b < 0x1_0000_0000
  {
    hide PathOk, Follow, Used;
    assert b in own ==> Placed(geo, d, meta, roots, own, b);
  }

  /** What adding does to the blocks that hold pointers. */
  ghost predicate HungBlocks(geo: Geo, d: Blocks, e: Blocks, own: Owners, path: seq<nat>, p: nat, b: nat)
    requires |path| >= 1
  {
    && (forall q :: q in own && !(|path| > 1 && q == p) ==> At(e, q) == At(d, q))
    && (|path| > 1 ==> forall i: nat :: Pointer(e, p, i) == if i == Last(path) then b else Pointer(d, p, i))
    && (Below(path) > 0 ==> forall i: nat :: Pointer(e, b, i) == 0)
  }

  lemma AllocationKeeps(geo: Geo, d: Blocks, meta: set<nat>, roots: Roots, own: Owners, b: nat, zero: bool)
    requires Tree(geo, d, meta, roots, own) && FreeBlock(geo, d, b)
    ensures PointersKept(geo, d, Allocated(geo, d, b, zero), own)
    ensures forall q :: q in own ==> At(Allocated(geo, d, b, zero), q) == At(d, q)
    ensures Tree(geo, Allocated(geo, d, b, zero), meta, roots, own)
  {
    hide Shape, PathOk, Follow, Used, Allocated, Below;
    NewIsFresh(geo, d, meta, roots, own, b);
    AllocatedOk(geo, d, meta, b, zero);
    forall q | q in own
      ensures At(Allocated(geo, d, b, zero), q) == At(d, q)
    {
      assert Placed(geo, d, meta, roots, own, q);
    }
    KeptTree(geo, d, Allocated(geo, d, b, zero), meta, roots, own);
  }

  lemma PointerBlockSize(geo: Geo, d: Blocks, meta: set<nat>, j: nat, p: nat)
    requires Shape(geo, d, meta) && p < geo.count && j < Fan(geo)
    ensures |At(d, p)| == geo.bs && 4 * j + 4 <= geo.bs
  {
  }

  lemma AddedBlocks(geo: Geo, d: Blocks, meta: set<nat>, roots: Roots, own: Owners, ino: nat, path: seq<nat>, p: nat,
      b: nat, zero: bool)
    requires Tree(geo, d, meta, roots, own) && Vacant(geo, d, roots, ino, path, p) && FreeBlock(geo, d, b)
    requires b < 0x1_0000_0000 && (Below(path) > 0 ==> zero)
    ensures |path| >= 1 && HungBlocks(geo, d, Hung(geo, Allocated(geo, d, b, zero), p, path, b), own, path, p, b)
  {
    hide Tree, Follow, Used, Allocated, Below, PutU32, U32, Shape, Fan, Guarded, GeoOk, Sized;
    AllocationKeeps(geo, d, meta, roots, own, b, zero);
    NewIsFresh(geo, d, meta, roots, own, b);
    assert TreeParts(geo, d, meta, roots, own);
    AllocatedOk(geo, d, meta, b, zero);
    var m := Allocated(geo, d, b, zero);
    var e := Hung(geo, m, p, path, b);
    if |path| > 1 {
      PrefixOk(geo, path);
      BlockAt(geo, d, meta, roots, own, ino, Up(path));
      PointerBlockSize(geo, d, meta, Last(path), p);
      forall i: nat { EntryOfPut(At(d, p), Last(path), b, i); }
    }
    forall i: nat { EntryOfZeros(geo.bs, i); }
  }

  ghost predicate TreeParts(geo: Geo, d: Blocks, meta: set<nat>, roots: Roots, own: Owners)
    ensures Tree(geo, d, meta, roots, own) ==> TreeParts(geo, d, meta, roots, own)
  {
    Shape(geo, d, meta) && Guarded(geo, d, meta) && 0 in meta && forall ino :: ino in roots ==> |roots[ino]| == 15
  }

  /** After adding, the new place holds the new block and every other place of every file is as before. */
  lemma {:induction false} AddedFollow(geo: Geo, d: Blocks, e: Blocks, meta: set<nat>, roots: Roots, own: Owners,
      ino: nat, path: seq<nat>, p: nat, b: nat, ino': nat, path': seq<nat>)
    requires Tree(geo, d, meta, roots, own) && Vacant(geo, d, roots, ino, path, p) && b != 0 && b !in own
    requires |path| >= 1 && path[0] < |roots[ino]| && HungBlocks(geo, d, e, own, path, p, b) && PathOk(geo, path')
    ensures Follow(e, HungRoot(roots, ino, path, b), ino', path') ==
            if ino' == ino && path' == path then b else Follow(d, roots, ino', path')
    decreases |path'|
  {
    hide Tree, PathOk, Used, Below, U32, HungBlocks;
    if |path'| > 1 {
      PrefixOk(geo, path');
      AddedFollow(geo, d, e, meta, roots, own, ino, path, p, b, ino', Up(path'));
      BlockAt(geo, d, meta, roots, own, ino', Up(path'));
      if |path| > 1 {
        PrefixOk(geo, path);
        BlockAt(geo, d, meta, roots, own, ino, Up(path));
      }
      AddedEntry(geo, d, e, meta, roots, own, ino, path, p, b, ino', path');
    } else {
      PathNonempty(geo, path');
    }
  }

  lemma AddedEntry(geo: Geo, d: Blocks, e: Blocks, meta: set<nat>, roots: Roots, own: Owners, ino: nat,
      path: seq<nat>, p: nat, b: nat, ino': nat, path': seq<nat>)
    requires Tree(geo, d, meta, roots, own) && Vacant(geo, d, roots, ino, path, p) && b != 0 && b !in own
    requires |path| >= 1 && HungBlocks(geo, d, e, own, path, p, b) && PathOk(geo, path') && |path'| > 1
    ensures var q := Follow(d, roots, ino', Up(path'));
            q != 0 ==> Pointer(e, q, Last(path')) == if ino' == ino && path' == path then b
                else Pointer(d, q, Last(path'))
    ensures ino' == ino && Up(path') == path ==> Pointer(e, b, Last(path')) == 0
  {
    hide Tree, Used, U32;
    PrefixOk(geo, path');
    BlockAt(geo, d, meta, roots, own, ino', Up(path'));
    assert path' == Up(path') + [Last(path')];
    if |path| > 1 {
      PrefixOk(geo, path);
      BlockAt(geo, d, meta, roots, own, ino, Up(path));
      assert path == Up(path) + [Last(path)];
    }
  }

  /** The volume with a new block hung at a place of a file. */
  ghost function Added(geo: Geo, d: Blocks, path: seq<nat>, p: nat, b: nat, zero: bool): Blocks
    requires |path| >= 1 && b < 0x1_0000_0000
  {
    Hung(geo, Allocated(geo, d, b, zero), p, path, b)
  }

  /** Blocks below no other block, the data blocks of the files, keep their bytes. */
  ghost predicate DataKept(d: Blocks, e: Blocks, own: Owners) {
    forall q :: q in own && Below(own[q].path) == 0 ==> At(e, q) == At(d, q)
  }

  /** What the bitmaps say after adding. */
  lemma AddedUse(geo: Geo, d: Blocks, meta: set<nat>, roots: Roots, own: Owners, ino: nat, path: seq<nat>, p: nat,
      b: nat, zero: bool)
    requires Tree(geo, d, meta, roots, own) && Vacant(geo, d, roots, ino, path, p) && FreeBlock(geo, d, b)
    requires b < 0x1_0000_0000 && |path| >= 1
    ensures var e := Added(geo, d, path, p, b, zero);
            && Shape(geo, e, meta) && Guarded(geo, e, meta)
            && (forall x: nat :: x < geo.count ==> (Used(geo, e, x) <==> x == b || Used(geo, d, x)))
            && (Counted(geo, d) ==> Counted(geo, e))
  {
    hide Tree, Follow, Used, Allocated, Below, PutU32, U32, Shape, Fan, Guarded, Counted, PathOk;
    assert TreeParts(geo, d, meta, roots, own);
    AllocatedOk(geo, d, meta, b, zero);
    if |path| > 1 {
      PrefixOk(geo, path);
      BlockAt(geo, d, meta, roots, own, ino, Up(path));
      LastFits(geo, path);
      var m := Allocated(geo, d, b, zero);
      PointerBlockSize(geo, m, meta, Last(path), p);
      RewriteKeepsUse(geo, m, meta, p, PutU32(At(m, p), 4 * Last(path), b));
    }
  }

  lemma LastFits(geo: Geo, path: seq<nat>)
    requires PathOk(geo, path) && |path| > 1
    ensures Last(path) < Fan(geo)
  {
  }

  /** Hanging a fresh block at an empty place of a file: the place now holds it, every other place of
      every file is as before, and the files' data is untouched. */
  lemma AddKeepsTree(geo: Geo, d: Blocks, meta: set<nat>, roots: Roots, own: Owners, ino: nat, path: seq<nat>, p: nat,
      b: nat, zero: bool)
    requires Tree(geo, d, meta, roots, own) && Vacant(geo, d, roots, ino, path, p) && FreeBlock(geo, d, b)
    requires b < 0x1_0000_0000 && (Below(path) > 0 ==> zero)
    ensures b !in own && |path| >= 1 && path[0] < |roots[ino]|
    ensures var e := Added(geo, d, path, p, b, zero);
            && Tree(geo, e, meta, HungRoot(roots, ino, path, b), own[b := Owner(ino, path)])
            && (forall ino': nat, path' :: PathOk(geo, path') ==>
                 (Follow(e, HungRoot(roots, ino, path, b), ino', path') ==
                  if ino' == ino && path' == path then b else Follow(d, roots, ino', path')))
            && DataKept(d, e, own)
  {
    hide Follow, Used, Below, Allocated, PutU32, U32, Shape, Fan, Guarded, Counted, HungBlocks, Hung, PathOk;
    VacantParts(geo, d, roots, ino, path, p);
    NewIsFresh(geo, d, meta, roots, own, b);
    AddedBlocks(geo, d, meta, roots, own, ino, path, p, b, zero);
    AddedUse(geo, d, meta, roots, own, ino, path, p, b, zero);
    var e := Added(geo, d, path, p, b, zero);
    var roots' := HungRoot(roots, ino, path, b);
    var own' := own[b := Owner(ino, path)];
    hide Added, HungRoot;
    assert forall i :: i in roots' ==> |roots'[i]| == 15 by { HungRootSize(roots, ino, path, b); }
    forall ino': nat, path': seq<nat> | PathOk(geo, path')
      ensures Known(e, roots', own', ino', path')
      ensures Follow(e, roots', ino', path') == if ino' == ino && path' == path then b
              else Follow(d, roots, ino', path')
    {
      AddedFollow(geo, d, e, meta, roots, own, ino, path, p, b, ino', path');
      assert Known(d, roots, own, ino', path');
    }
    forall q | q in own'
      ensures Placed(geo, e, meta, roots', own', q)
    {
      if q != b { assert Placed(geo, d, meta, roots, own, q); }
    }
    DataUntouched(geo, d, e, meta, roots, own, ino, path, p, b);
  }

  lemma HungRootSize(roots: Roots, ino: nat, path: seq<nat>, b: nat)
    requires |path| >= 1 && ino in roots && path[0] < |roots[ino]| && forall i :: i in roots ==> |roots[i]| == 15
    ensures forall i :: i in HungRoot(roots, ino, path, b) ==> |HungRoot(roots, ino, path, b)[i]| == 15
  {
  }

  lemma VacantParts(geo: Geo, d: Blocks, roots: Roots, ino: nat, path: seq<nat>, p: nat)
    requires Vacant(geo, d, roots, ino, path, p)
    ensures |path| >= 1 && path[0] < 15 && ino in roots
  {
  }

  lemma DataUntouched(geo: Geo, d: Blocks, e: Blocks, meta: set<nat>, roots: Roots, own: Owners, ino: nat,
      path: seq<nat>, p: nat, b: nat)
    requires Tree(geo, d, meta, roots, own) && Vacant(geo, d, roots, ino, path, p)
    requires |path| >= 1 && HungBlocks(geo, d, e, own, path, p, b)
    ensures DataKept(d, e, own)
  {
    hide Tree, Follow, Used, Below, PathOk;
    if |path| > 1 {
      PrefixOk(geo, path);
      BlockAt(geo, d, meta, roots, own, ino, Up(path));
    }
  }

  // ---------------------------------------------------------------- file block numbers

  function Times(a: nat, b: nat): (r: nat)
    ensures a > 0 && b > 0 ==> r > 0
  {
    if b > 0 then AtLeast(b, a); a * b else 0
  }

  /** File blocks one entry stands for, `levels` levels above the data. */
  function Span(fan: nat, levels: nat): (n: nat)
    ensures fan > 0 ==> n > 0
  {
    if levels == 0 then 1 else Times(Span(fan, levels - 1), fan)
  }

  function Div(a: nat, n: nat): nat {
    if n == 0 then 0 else a / n
  }

  function Mod(a: nat, n: nat): nat {
    if n == 0 then 0 else a % n
  }

  /** The place of a file block: `file_block` and `file_block_for_write` compute it level by level.
      Past the end of the triple tree there is none. */
  function Locate(fan: nat, i: nat): seq<nat>
    requires fan > 0
  {
    if i < 12 then [i]
    else if i - 12 < fan then [12, i - 12]
    else
      var r := i - 12 - fan;
      if r < Span(fan, 2) then [13, Div(r, fan), Mod(r, fan)]
      else
        var t := r - Span(fan, 2);
        var rest := Mod(t, Span(fan, 2));
        if t < Span(fan, 3) then [14, Div(t, Span(fan, 2)), Div(rest, fan), Mod(rest, fan)] else []
  }

  /** The file block at a place. */
  function Index(fan: nat, path: seq<nat>): nat {
    if |path| == 1 then path[0]
    else if |path| == 2 then 12 + path[1]
    else if |path| == 3 then 12 + fan + Times(path[1], fan) + path[2]
    else if |path| == 4 then 12 + fan + Span(fan, 2) + Times(path[1], Span(fan, 2)) + Times(path[2], fan) + path[3]
    else 0
  }

  lemma DivParts(a: nat, n: nat)
    requires 0 < n
    ensures Times(Div(a, n), n) + Mod(a, n) == a && Mod(a, n) < n
  {
  }

  lemma DivBelow(a: nat, n: nat, q: nat)
    requires 0 < n && a < Times(q, n)
    ensures Div(a, n) < q
  {
    if a / n >= q { AtLeast(a / n - q + 1, n); }
  }

  lemma TimesLaws(a: nat, b: nat)
    ensures Times(1, a) == a && Times(a, b) == Times(b, a)
  {
  }

  lemma Squares(fan: nat)
    ensures Span(fan, 1) == fan && Span(fan, 2) == Times(fan, fan) && Span(fan, 3) == Times(fan, Span(fan, 2))
  {
    hide Times;
    TimesLaws(fan, Span(fan, 2));
    assert Span(fan, 0) == 1;
    assert Span(fan, 1) == fan;
  }

  /** Distinct file blocks have distinct places, all of them data places. */
  lemma LocateIndex(geo: Geo, i: nat)
    requires Fan(geo) > 0 && Locate(Fan(geo), i) != []
    ensures Index(Fan(geo), Locate(Fan(geo), i)) == i
    ensures PathOk(geo, Locate(Fan(geo), i)) && Below(Locate(Fan(geo), i)) == 0
  {
    hide Times, Span, Fan, Div, Mod;
    var fan := Fan(geo);
    Squares(fan);
    if i >= 12 + fan {
      var r := i - 12 - fan;
      if r < Span(fan, 2) {
        DivBelow(r, fan, fan);
        DivParts(r, fan);
      } else {
        var t := r - Span(fan, 2);
        var u := Mod(t, Span(fan, 2));
        DivBelow(t, Span(fan, 2), fan);
        DivParts(t, Span(fan, 2));
        DivBelow(u, fan, fan);
        DivParts(u, fan);
      }
    }
  }

  lemma LocateInjective(geo: Geo, i: nat, j: nat)
    requires Fan(geo) > 0 && Locate(Fan(geo), i) == Locate(Fan(geo), j) != []
    ensures i == j
  {
    hide Locate, Index;
    LocateIndex(geo, i);
    LocateIndex(geo, j);
  }
}
