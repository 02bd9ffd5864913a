/** Files of a volume as values (kernel/src/ext2.c): what adding blocks may change, and what the files
    hold. */
module Ext2State {
  import opened Ext2Disk
  import opened Ext2Volume
  import opened Ext2Tree

  /** A volume together with the trees of all its files. */
  datatype State = State(disk: Blocks, roots: Roots, own: Owners)

  ghost predicate Ok(geo: Geo, meta: set<nat>, s: State) {
    Tree(geo, s.disk, meta, s.roots, s.own)
  }

  function Place(s: State, ino: nat, path: seq<nat>): nat {
    Follow(s.disk, s.roots, ino, path)
  }

  /** From `s` to `t` only places of file `ino` on the way to `path` were filled, with blocks that
      were free, and no file's data changed. */
  ghost predicate Extends(geo: Geo, s: State, t: State, ino: nat, path: seq<nat>) {
    && (forall i: nat, q: seq<nat> :: PathOk(geo, q) && !(i == ino && q <= path && Place(s, i, q) == 0) ==>
        Place(t, i, q) == Place(s, i, q))
    && (forall b :: b in s.own ==> b in t.own && t.own[b] == s.own[b])
    && DataKept(s.disk, t.disk, s.own)
    && (forall b :: b in t.own && b !in s.own ==> FreeBlock(geo, s.disk, b))
    && (forall b: nat :: b < geo.count && Used(geo, s.disk, b) ==> Used(geo, t.disk, b))
    && FreeKept(geo, s.disk, t.disk)
    && t.roots.Keys == s.roots.Keys
    && (forall i :: i in s.roots && i != ino ==> t.roots[i] == s.roots[i])
  }

  /** A block that is still free holds what it held. */
  ghost predicate FreeKept(geo: Geo, d: Blocks, e: Blocks) {
    forall b: nat :: b < geo.count && !Used(geo, e, b) ==> At(e, b) == At(d, b)
  }

  lemma ExtendsSame(geo: Geo, s: State, ino: nat, path: seq<nat>)
    ensures Extends(geo, s, s, ino, path)
  {
  }

  lemma ExtendsTrans(geo: Geo, meta: set<nat>, s: State, t: State, u: State, ino: nat, path: seq<nat>)
    requires Extends(geo, s, t, ino, path) && Extends(geo, t, u, ino, path)
    ensures Extends(geo, s, u, ino, path)
  {
    hide PathOk, Place, Used, Below;
    forall b | b in u.own && b !in s.own
      ensures FreeBlock(geo, s.disk, b)
    {
      assert b in t.own || FreeBlock(geo, t.disk, b);
    }
  }

  /** The nearer place on the way is on the way to the farther one. */
  lemma ExtendsOn(geo: Geo, s: State, t: State, ino: nat, path: seq<nat>, further: seq<nat>)
    requires Extends(geo, s, t, ino, path) && path <= further
    ensures Extends(geo, s, t, ino, further)
  {
    hide PathOk, Place, Used, Below;
    forall i: nat, q: seq<nat> | PathOk(geo, q) && !(i == ino && q <= further && Place(s, i, q) == 0)
      ensures Place(t, i, q) == Place(s, i, q)
    {
    }
  }

  ghost function After(geo: Geo, s: State, ino: nat, path: seq<nat>, p: nat, b: nat, zero: bool): State
    requires |path| >= 1 && b < 0x1_0000_0000 && ino in s.roots && path[0] < |s.roots[ino]|
  {
    State(Added(geo, s.disk, path, p, b, zero), HungRoot(s.roots, ino, path, b), s.own[b := Owner(ino, path)])
  }

  lemma AddExtends(geo: Geo, meta: set<nat>, s: State, ino: nat, path: seq<nat>, p: nat, b: nat, zero: bool)
    requires Ok(geo, meta, s) && Vacant(geo, s.disk, s.roots, ino, path, p) && FreeBlock(geo, s.disk, b)
    requires b < 0x1_0000_0000 && (Below(path) > 0 ==> zero)
    ensures |path| >= 1 && path[0] < |s.roots[ino]|
    ensures Ok(geo, meta, After(geo, s, ino, path, p, b, zero))
    ensures Extends(geo, s, After(geo, s, ino, path, p, b, zero), ino, path)
    ensures Place(After(geo, s, ino, path, p, b, zero), ino, path) == b && b != 0
    ensures Counted(geo, s.disk) ==> Counted(geo, Added(geo, s.disk, path, p, b, zero))
  {
    hide Tree, PathOk, Used, Below, Follow, Added, Counted;
    AddKeepsTree(geo, s.disk, meta, s.roots, s.own, ino, path, p, b, zero);
    AddedUse(geo, s.disk, meta, s.roots, s.own, ino, path, p, b, zero);
    NewIsFresh(geo, s.disk, meta, s.roots, s.own, b);
    VacantIs(geo, s, ino, path, p);
    AddedFree(geo, meta, s, ino, path, p, b, zero);
    var t := After(geo, s, ino, path, p, b, zero);
    forall i: nat, q: seq<nat> | PathOk(geo, q) && !(i == ino && q <= path && Place(s, i, q) == 0)
      ensures Place(t, i, q) == Place(s, i, q)
    {
    }
  }

  /** Adding writes to no block that stays free. */
  lemma AddedFree(geo: Geo, meta: set<nat>, s: State, ino: nat, path: seq<nat>, p: nat, b: nat, zero: bool)
    requires Ok(geo, meta, s) && Vacant(geo, s.disk, s.roots, ino, path, p) && FreeBlock(geo, s.disk, b)
    requires b < 0x1_0000_0000 && |path| >= 1
    ensures FreeKept(geo, s.disk, Added(geo, s.disk, path, p, b, zero))
  {
    hide Tree, Used, Allocated, Follow, PutU32;
    OkParts(geo, meta, s, ino);
    AllocatedOk(geo, s.disk, meta, b, zero);
    AddedUse(geo, s.disk, meta, s.roots, s.own, ino, path, p, b, zero);
    if |path| > 1 {
      PrefixOk(geo, path);
      BlockAt(geo, s.disk, meta, s.roots, s.own, ino, Up(path));
    }
  }

  lemma VacantIs(geo: Geo, s: State, ino: nat, path: seq<nat>, p: nat)
    requires Vacant(geo, s.disk, s.roots, ino, path, p)
    ensures PathOk(geo, path) && Place(s, ino, path) == 0 && ino in s.roots
  {
  }

  /** A block was taken but never hung anywhere: no file notices. */
  lemma LeakExtends(geo: Geo, meta: set<nat>, s: State, e: Blocks, ino: nat, path: seq<nat>)
    requires Ok(geo, meta, s) && Shape(geo, e, meta) && Grown(geo, s.disk, e, meta)
    ensures Ok(geo, meta, s.(disk := e)) && Extends(geo, s, s.(disk := e), ino, path)
  {
    hide Shape, PathOk, Used, Below, Follow, Guarded;
    forall b | b in s.own
      ensures At(e, b) == At(s.disk, b) && b < geo.count && Used(geo, s.disk, b)
    {
      assert Placed(geo, s.disk, meta, s.roots, s.own, b);
    }
    GrownGuards(geo, s.disk, e, meta);
    GrownFree(geo, s.disk, e, meta);
    KeptTree(geo, s.disk, e, meta, s.roots, s.own);
  }

  lemma GrownFree(geo: Geo, d: Blocks, e: Blocks, meta: set<nat>)
    requires Guarded(geo, d, meta) && Grown(geo, d, e, meta)
    ensures FreeKept(geo, d, e)
  {
    hide Used;
  }

  lemma AllocatedFree(geo: Geo, d: Blocks, meta: set<nat>, b: nat, zero: bool)
    requires Shape(geo, d, meta) && Guarded(geo, d, meta) && FreeBlock(geo, d, b)
    ensures FreeKept(geo, d, Allocated(geo, d, b, zero))
  {
    hide Shape, Used, Allocated, Counted;
    AllocatedOk(geo, d, meta, b, zero);
  }

  lemma AllocLeakExtends(geo: Geo, meta: set<nat>, s: State, b: nat, zero: bool, ino: nat, path: seq<nat>)
    requires Ok(geo, meta, s) && FreeBlock(geo, s.disk, b)
    ensures Ok(geo, meta, s.(disk := Allocated(geo, s.disk, b, zero)))
    ensures Extends(geo, s, s.(disk := Allocated(geo, s.disk, b, zero)), ino, path)
  {
    hide Shape, PathOk, Used, Below, Follow, Guarded, Allocated, Counted;
    AllocationKeeps(geo, s.disk, meta, s.roots, s.own, b, zero);
    AllocatedOk(geo, s.disk, meta, b, zero);
    AllocatedFree(geo, s.disk, meta, b, zero);
    KeptTree(geo, s.disk, Allocated(geo, s.disk, b, zero), meta, s.roots, s.own);
  }

  /** The place of file block `i`, and the disk block there. */
  function Map(geo: Geo, s: State, ino: nat, i: nat): nat {
    if Fan(geo) == 0 then 0 else Place(s, ino, Locate(Fan(geo), i))
  }

  /** `file_block` answers for this index; past the double tree it refuses where no triple tree is. */
  predicate Answers(geo: Geo, blocks: seq<nat>, i: nat) {
    && Fan(geo) > 0 && Locate(Fan(geo), i) != []
    && (|Locate(Fan(geo), i)| == 4 ==> |blocks| == 15 && blocks[14] != 0)
  }

  lemma PlaceStep(s: State, ino: nat, path: seq<nat>, j: nat)
    requires |path| >= 1
    ensures Place(s, ino, path + [j]) == if Place(s, ino, path) == 0 then 0 else Pointer(s.disk, Place(s, ino, path), j)
  {
    assert (path + [j])[..|path|] == path;
  }

  lemma PlaceRoot(s: State, ino: nat, k: nat)
    requires ino in s.roots && k < |s.roots[ino]|
    ensures Place(s, ino, [k]) == s.roots[ino][k]
  {
  }

  lemma PlaceIn(geo: Geo, meta: set<nat>, s: State, ino: nat, path: seq<nat>)
    requires Ok(geo, meta, s) && PathOk(geo, path)
    ensures Place(s, ino, path) != 0 ==>
              Place(s, ino, path) in s.disk && Place(s, ino, path) < geo.count && Place(s, ino, path) in s.own &&
              s.own[Place(s, ino, path)] == Owner(ino, path)
  {
    hide PathOk, Follow, Used;
    BlockAt(geo, s.disk, meta, s.roots, s.own, ino, path);
    Shape1(geo, s.disk, meta);
  }

  lemma OkParts(geo: Geo, meta: set<nat>, s: State, ino: nat)
    requires Ok(geo, meta, s)
    ensures Shape(geo, s.disk, meta) && Guarded(geo, s.disk, meta) && GeoOk(geo)
    ensures ino in s.roots ==> |s.roots[ino]| == 15
    ensures Fan(geo) >= 256
  {
  }

  lemma Elsewhere(geo: Geo, s: State, t: State, ino: nat, path: seq<nat>, q: seq<nat>)
    requires Extends(geo, s, t, ino, path) && PathOk(geo, q) && |q| > |path|
    ensures Place(t, ino, q) == Place(s, ino, q)
  {
    hide PathOk, Place, Used, Below;
  }

  lemma OnTheWay(geo: Geo, at: seq<nat>, path: seq<nat>)
    requires PathOk(geo, path) && Below(path) == 0 && 1 <= |at| && at <= path
    ensures PathOk(geo, at) && (at != path ==> Below(at) > 0) && (|at| == |path| ==> at == path)
  {
  }

  /** Adding at one file block leaves every other file block, of this file and of all others, where it was. */
  lemma OthersStay(geo: Geo, s: State, t: State, ino: nat, i: nat, ino': nat, i': nat)
    requires Fan(geo) > 0 && Extends(geo, s, t, ino, Locate(Fan(geo), i))
    requires Locate(Fan(geo), i) != [] && Locate(Fan(geo), i') != [] && (ino' != ino || i' != i)
    ensures Map(geo, t, ino', i') == Map(geo, s, ino', i')
  {
    hide Locate, Place, Used, Fan;
    LocateIndex(geo, i);
    LocateIndex(geo, i');
    var path, path' := Locate(Fan(geo), i), Locate(Fan(geo), i');
    if path' <= path {
      OnTheWay(geo, path', path);
      if path' == path && i != i' { LocateInjective(geo, i, i'); }
    }
  }

  /** No block of the volume is free. */
  ghost predicate Full(geo: Geo, d: Blocks) {
    forall x: nat :: x < geo.count ==> Used(geo, d, x)
  }

  lemma BlockFits(geo: Geo, d: Blocks, b: nat)
    requires FreeBlock(geo, d, b) && GeoOk(geo)
    ensures b < 0x1_0000_0000
  {
  }

  lemma ParentPath(geo: Geo, path: seq<nat>, j: nat)
    requires PathOk(geo, path + [j]) && |path| >= 1
    ensures PathOk(geo, path) && Up(path + [j]) == path && Last(path + [j]) == j
  {
    PrefixOk(geo, path + [j]);
    assert (path + [j])[..|path|] == path;
  }

  lemma RootVacant(geo: Geo, s: State, ino: nat, k: nat)
    requires k < 15 && ino in s.roots && Place(s, ino, [k]) == 0
    ensures Vacant(geo, s.disk, s.roots, ino, [k], 0) && (k < 12 ==> Below([k]) <= 0)
  {
  }

  lemma EntryVacant(geo: Geo, s: State, ino: nat, path: seq<nat>, j: nat)
    requires PathOk(geo, path + [j]) && |path| >= 1 && ino in s.roots
    requires Place(s, ino, path) != 0 && Place(s, ino, path + [j]) == 0
    ensures Vacant(geo, s.disk, s.roots, ino, path + [j], Place(s, ino, path))
  {
    assert (path + [j])[..|path|] == path;
  }

  /** A newly added block holds zeros, or, if it was not cleared, what it held while it was free. */
  ghost predicate Fresh(geo: Geo, d: Blocks, e: Blocks, b: nat, zero: bool) {
    At(e, b) == if zero then Zeros(geo.bs) else At(d, b)
  }

  lemma ZeroedOnAlloc(geo: Geo, meta: set<nat>, s: State, b: nat, zero: bool)
    requires Ok(geo, meta, s) && FreeBlock(geo, s.disk, b)
    ensures Fresh(geo, s.disk, Allocated(geo, s.disk, b, zero), b, zero)
  {
    hide Tree, Used, Allocated;
    OkParts(geo, meta, s, 0);
    AllocatedOk(geo, s.disk, meta, b, zero);
  }

  lemma AfterRoot(geo: Geo, s: State, ino: nat, k: nat, b: nat, zero: bool)
    requires b < 0x1_0000_0000 && ino in s.roots && k < |s.roots[ino]|
    ensures After(geo, s, ino, [k], 0, b, zero) ==
            State(Allocated(geo, s.disk, b, zero), SetRoot(s.roots, ino, k, b), s.own[b := Owner(ino, [k])])
  {
  }

  /** Reading a pointer block before the allocation and writing it after loses nothing. */
  lemma AddedIs(geo: Geo, meta: set<nat>, s: State, ino: nat, path: seq<nat>, j: nat, b: nat, zero: bool)
    requires Ok(geo, meta, s) && PathOk(geo, path) && |path| >= 1 && FreeBlock(geo, s.disk, b) && b < 0x1_0000_0000
    requires Place(s, ino, path) != 0
    ensures var p := Place(s, ino, path);
            && p in Allocated(geo, s.disk, b, zero)
            && var e := Added(geo, s.disk, path + [j], p, b, zero);
               && e == Allocated(geo, s.disk, b, zero)[p := PutU32(At(s.disk, p), 4 * j, b)]
               && Fresh(geo, s.disk, e, b, zero)
  {
    hide Tree, Used, Allocated, Follow, PathOk, PutU32;
    OkParts(geo, meta, s, 0);
    PlaceIn(geo, meta, s, ino, path);
    AllocationKeeps(geo, s.disk, meta, s.roots, s.own, b, zero);
    AllocatedOk(geo, s.disk, meta, b, zero);
    NewIsFresh(geo, s.disk, meta, s.roots, s.own, b);
    Shape1(geo, Allocated(geo, s.disk, b, zero), meta);
  }

  lemma RootPath(geo: Geo, k: nat)
    requires k < 15
    ensures PathOk(geo, [k])
  {
  }
}
