/** The set of blocks of a file (kernel/src/ext2.c): counting them, and giving them all back. */
module Ext2Truncate {
  import opened Ext2Disk
  import opened Ext2Volume
  import opened Ext2Tree
  import opened Ext2State

  /** The blocks at and below a place of a file. */
  function Sub(own: Owners, ino: nat, path: seq<nat>): set<nat> {
    set b | b in own && own[b].ino == ino && path <= own[b].path
  }

  /** The blocks strictly below a place, in its first `n` entries. */
  function SubBelow(own: Owners, ino: nat, path: seq<nat>, n: nat): set<nat> {
    set b | b in own && own[b].ino == ino && path < own[b].path && own[b].path[|path|] < n
  }

  /** The blocks under the first `n` of the fifteen slots. */
  function SubRoots(own: Owners, ino: nat, n: nat): set<nat> {
    set b | b in own && own[b].ino == ino && 1 <= |own[b].path| && own[b].path[0] < n
  }

  /** All the blocks of a file. */
  function FileBlocks(own: Owners, ino: nat): set<nat> {
    set b | b in own && own[b].ino == ino
  }

  lemma {:induction false} NothingBelowHole(d: Blocks, roots: Roots, ino: nat, path: seq<nat>, longer: seq<nat>)
    requires |path| >= 1 && path <= longer && Follow(d, roots, ino, path) == 0
    ensures Follow(d, roots, ino, longer) == 0
    decreases |longer|
  {
    if |longer| == |path| {
      assert longer == path;
    } else {
      NothingBelowHole(d, roots, ino, path, longer[..|longer| - 1]);
    }
  }

  lemma HoleIsEmpty(geo: Geo, meta: set<nat>, s: State, ino: nat, path: seq<nat>)
    requires Ok(geo, meta, s) && |path| >= 1 && Place(s, ino, path) == 0
    ensures Sub(s.own, ino, path) == {}
  {
    hide Follow, PathOk, Used, Shape, Guarded;
    forall b | b in s.own && s.own[b].ino == ino && path <= s.own[b].path
      ensures false
    {
      assert Placed(geo, s.disk, meta, s.roots, s.own, b);
      NothingBelowHole(s.disk, s.roots, ino, path, s.own[b].path);
    }
  }

  /** A block is what is below it and itself. */
  lemma SubIs(geo: Geo, meta: set<nat>, s: State, ino: nat, path: seq<nat>)
    requires Ok(geo, meta, s) && PathOk(geo, path) && Place(s, ino, path) != 0
    ensures Sub(s.own, ino, path) == {Place(s, ino, path)} + SubBelow(s.own, ino, path, Fan(geo))
    ensures Place(s, ino, path) !in SubBelow(s.own, ino, path, Fan(geo))
  {
    hide Follow, Used, Shape, Guarded;
    var p := Place(s, ino, path);
    PlaceIn(geo, meta, s, ino, path);
    forall b | b in s.own && s.own[b].ino == ino && path <= s.own[b].path && b != p
      ensures path < s.own[b].path && s.own[b].path[|path|] < Fan(geo)
    {
      assert Placed(geo, s.disk, meta, s.roots, s.own, b);
      assert path == s.own[b].path ==> Follow(s.disk, s.roots, ino, path) == b;
    }
  }

  lemma SubBelowNext(own: Owners, ino: nat, path: seq<nat>, n: nat)
    ensures SubBelow(own, ino, path, n + 1) == SubBelow(own, ino, path, n) + Sub(own, ino, path + [n])
    ensures SubBelow(own, ino, path, n) !! Sub(own, ino, path + [n])
    ensures SubBelow(own, ino, path, 0) == {}
  {
    forall b | b in own
      ensures path + [n] <= own[b].path <==> path < own[b].path && own[b].path[|path|] == n
    {
      if path < own[b].path && own[b].path[|path|] == n {
        assert own[b].path[..|path| + 1] == path + [n];
      }
    }
  }

  lemma SubRootsNext(geo: Geo, meta: set<nat>, s: State, ino: nat, n: nat)
    requires Ok(geo, meta, s)
    ensures SubRoots(s.own, ino, n + 1) == SubRoots(s.own, ino, n) + Sub(s.own, ino, [n])
    ensures SubRoots(s.own, ino, n) !! Sub(s.own, ino, [n])
    ensures SubRoots(s.own, ino, 0) == {} && SubRoots(s.own, ino, 15) == FileBlocks(s.own, ino)
  {
    hide Follow, Used, Shape, Guarded;
    forall b | b in s.own
      ensures [n] <= s.own[b].path <==> 1 <= |s.own[b].path| && s.own[b].path[0] == n
      ensures 1 <= |s.own[b].path| && s.own[b].path[0] < 15
    {
      assert Placed(geo, s.disk, meta, s.roots, s.own, b);
      if s.own[b].path[0] == n { assert s.own[b].path[..1] == [n]; }
    }
  }

  /** A data block has nothing below it. */
  lemma DataIsAlone(geo: Geo, meta: set<nat>, s: State, ino: nat, path: seq<nat>)
    requires Ok(geo, meta, s) && PathOk(geo, path) && Below(path) == 0 && Place(s, ino, path) != 0
    ensures Sub(s.own, ino, path) == {Place(s, ino, path)}
  {
    hide Follow, Used, Shape, Guarded;
    PlaceIn(geo, meta, s, ino, path);
    forall b | b in s.own && s.own[b].ino == ino && path <= s.own[b].path
      ensures b == Place(s, ino, path)
    {
      assert Placed(geo, s.disk, meta, s.roots, s.own, b);
      assert s.own[b].path == path;
      assert Follow(s.disk, s.roots, ino, path) == b;
    }
  }

  // ---------------------------------------------------------------- giving back

  /** The volume `d` is that of `s` with the blocks of `freed` given back; nothing but metadata differs. */
  ghost predicate FreedFrom(geo: Geo, meta: set<nat>, s: State, d: Blocks, freed: set<nat>) {
    && Shape(geo, d, meta) && OnlyMeta(s.disk, d, meta) && freed <= s.own.Keys
    && (forall x: nat :: x < geo.count ==> (Used(geo, d, x) <==> Used(geo, s.disk, x) && x !in freed))
  }

  lemma FreedNone(geo: Geo, meta: set<nat>, s: State)
    requires Ok(geo, meta, s)
    ensures FreedFrom(geo, meta, s, s.disk, {})
  {
  }

  lemma FreedOne(geo: Geo, meta: set<nat>, s: State, d: Blocks, freed: set<nat>, b: nat, counted: bool)
    requires Ok(geo, meta, s) && FreedFrom(geo, meta, s, d, freed) && b in s.own && b !in freed
    ensures b < geo.count && Used(geo, d, b)
    ensures FreedFrom(geo, meta, s, Freed(geo, d, b, counted), freed + {b})
    ensures counted && Counted(geo, d) ==> Counted(geo, Freed(geo, d, b, counted))
  {
    hide Follow, PathOk, Used, Shape, Guarded, Counted, Released, BitChanged;
    assert Placed(geo, s.disk, meta, s.roots, s.own, b);
    ReleasedCounts(geo, d, meta, b);
    ChangeUse(geo, d, meta, b, false, 0);
    var e := Freed(geo, d, b, counted);
    forall x: nat | x < geo.count
      ensures Used(geo, e, x) <==> x != b && Used(geo, d, x)
    {
      BitChangedUsed(geo, d, meta, b, false, x);
    }
  }

  /** The pointers of the files read the same however much has been given back. */
  lemma FreedPlace(geo: Geo, meta: set<nat>, s: State, d: Blocks, freed: set<nat>, b: nat)
    requires Ok(geo, meta, s) && FreedFrom(geo, meta, s, d, freed) && b in s.own
    ensures At(d, b) == At(s.disk, b) && b < geo.count && b in d
  {
    hide Follow, PathOk, Used, Guarded;
    assert Placed(geo, s.disk, meta, s.roots, s.own, b);
    Shape1(geo, d, meta);
  }

  // ---------------------------------------------------------------- the empty file

  function NoBlocks(): seq<nat> {
    seq<nat>(15, _ => 0)
  }

  /** The state after file `ino` has lost its blocks. */
  ghost function Emptied(s: State, d: Blocks, ino: nat): State {
    State(d, s.roots[ino := NoBlocks()], s.own - FileBlocks(s.own, ino))
  }

  lemma {:induction false} EmptiedFollow(geo: Geo, meta: set<nat>, s: State, d: Blocks, freed: set<nat>, ino: nat,
      ino': nat, path: seq<nat>)
    requires Ok(geo, meta, s) && FreedFrom(geo, meta, s, d, freed) && PathOk(geo, path)
    ensures Place(Emptied(s, d, ino), ino', path) == if ino' == ino then 0 else Place(s, ino', path)
    decreases |path|
  {
    hide Ok, PathOk, Used, FreedFrom;
    PathNonempty(geo, path);
    if |path| <= 1 {
    } else {
      PrefixOk(geo, path);
      EmptiedFollow(geo, meta, s, d, freed, ino, ino', Up(path));
      PlaceIn(geo, meta, s, ino', Up(path));
      if Place(s, ino', Up(path)) != 0 { FreedPlace(geo, meta, s, d, freed, Place(s, ino', Up(path))); }
    }
  }

  /** Giving back blocks of one file, all of them or some, and emptying its inode leaves every other
      file as it was. */
  lemma EmptiedOk(geo: Geo, meta: set<nat>, s: State, d: Blocks, freed: set<nat>, ino: nat)
    requires Ok(geo, meta, s) && FreedFrom(geo, meta, s, d, freed) && freed <= FileBlocks(s.own, ino)
    ensures Ok(geo, meta, Emptied(s, d, ino))
    ensures forall ino': nat, path: seq<nat> :: PathOk(geo, path) ==>
              Place(Emptied(s, d, ino), ino', path) == if ino' == ino then 0 else Place(s, ino', path)
  {
    hide Follow, PathOk, Used, Shape, Below;
    var t := Emptied(s, d, ino);
    forall ino': nat, path: seq<nat> | PathOk(geo, path)
      ensures Known(t.disk, t.roots, t.own, ino', path)
      ensures Place(t, ino', path) == if ino' == ino then 0 else Place(s, ino', path)
    {
      assert Known(s.disk, s.roots, s.own, ino', path);
      EmptiedFollow(geo, meta, s, d, freed, ino, ino', path);
    }
    forall b | b in t.own
      ensures Placed(geo, t.disk, meta, t.roots, t.own, b)
    {
      assert Placed(geo, s.disk, meta, s.roots, s.own, b);
      assert b !in FileBlocks(s.own, ino) && s.own[b].ino != ino;
      assert Place(t, s.own[b].ino, s.own[b].path) == Place(s, s.own[b].ino, s.own[b].path);
    }
    forall b | b in meta && b < geo.count
      ensures Used(geo, d, b)
    {
      assert b in s.own ==> Placed(geo, s.disk, meta, s.roots, s.own, b);
    }
  }
}
