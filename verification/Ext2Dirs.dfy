/** Directories as files of records (kernel/src/ext2.c): adding, removing and enumerating entries. */
module Ext2Dirs {
  import opened Bytes
  import Arith
  import opened BlockCache
  import opened Ext2Disk
  import opened Ext2Volume
  import opened Ext2Tree
  import opened Ext2State
  import opened Ext2Bytes
  import opened Ext2Stored
  import opened Ext2Files
  import D = Dirents

  /** Block `k` of a directory. */
  function DirBlock(geo: Geo, s: State, ino: nat, k: nat): Block {
    At(s.disk, Map(geo, s, ino, k))
  }

  predicate BlockOk(geo: Geo, s: State, ino: nat, k: nat) {
    Map(geo, s, ino, k) != 0 && D.Tiled(DirBlock(geo, s, ino, k), 0)
  }

  /** All `n` blocks of a directory are there and tiled. */
  ghost predicate DirOk(geo: Geo, s: State, ino: nat, n: nat) {
    forall k: nat :: k < n ==> BlockOk(geo, s, ino, k)
  }

  /** What blocks `k` to `n` of a directory list. */
  ghost function DirListing(geo: Geo, s: State, ino: nat, k: nat, n: nat): seq<D.Dirent>
    decreases n - k
  {
    if k >= n then [] else D.Listing(DirBlock(geo, s, ino, k), 0) + DirListing(geo, s, ino, k + 1, n)
  }

  /** No byte of another file differs. */
  ghost predicate OtherFiles(geo: Geo, s: State, t: State, ino: nat) {
    forall ino': nat, x: nat :: ino' != ino ==> ByteAt(geo, t, ino', x) == ByteAt(geo, s, ino', x)
  }

  lemma {:induction false} SameListing(geo: Geo, s: State, t: State, ino: nat, k: nat, n: nat)
    requires forall j: nat :: k <= j < n ==> DirBlock(geo, t, ino, j) == DirBlock(geo, s, ino, j)
    ensures DirListing(geo, t, ino, k, n) == DirListing(geo, s, ino, k, n)
    decreases n - k
  {
    hide DirBlock, D.Listing;
    if k >= n {
    } else {
      SameListing(geo, s, t, ino, k + 1, n);
    }
  }

  lemma {:induction false} ListingSplit(geo: Geo, s: State, ino: nat, k: nat, m: nat, n: nat)
    requires k <= m <= n
    ensures DirListing(geo, s, ino, k, n) == DirListing(geo, s, ino, k, m) + DirListing(geo, s, ino, m, n)
    decreases m - k
  {
    hide DirBlock, D.Listing;
    if k < m {
      ListingSplit(geo, s, ino, k + 1, m, n);
    } else {
      assert DirListing(geo, s, ino, k, m) == [];
    }
  }

  lemma InsertedInside(l: seq<D.Dirent>, before: seq<D.Dirent>, after: seq<D.Dirent>, r: seq<D.Dirent>, e: D.Dirent)
    requires D.Inserted(before, after, e)
    ensures D.Inserted(l + (before + r), l + (after + r), e)
  {
    var k: nat :| D.InsertedAt(before, after, e, k);
    assert k <= |before| && after == before[..k] + [e] + before[k..];
    var a, b := l + (before + r), l + (after + r);
    assert a[..|l| + k] == l + before[..k];
    assert a[|l| + k..] == before[k..] + r;
    assert b == a[..|l| + k] + [e] + a[|l| + k..];
    assert D.InsertedAt(a, b, e, |l| + k);
  }

  /** One block of a directory was rewritten. */
  ghost predicate OneBlock(geo: Geo, s: State, t: State, ino: nat, n: nat, k: nat, c: Block) {
    k < n && DirBlock(geo, t, ino, k) == c && forall j: nat :: j < n && j != k ==>
        DirBlock(geo, t, ino, j) == DirBlock(geo, s, ino, j)
  }

  lemma BlockSplit(geo: Geo, s: State, ino: nat, k: nat, n: nat)
    requires k < n
    ensures DirListing(geo, s, ino, 0, n) ==
            DirListing(geo, s, ino, 0, k) + (D.Listing(DirBlock(geo, s, ino, k), 0) + DirListing(geo, s, ino, k + 1, n))
  {
    hide DirBlock, D.Listing;
    ListingSplit(geo, s, ino, 0, k, n);
  }

  /** Adding to, or removing from, what one block lists does so for the whole directory. */
  lemma BlockInserted(geo: Geo, s: State, t: State, ino: nat, n: nat, k: nat, c: Block, e: D.Dirent)
    requires OneBlock(geo, s, t, ino, n, k, c) && D.Inserted(D.Listing(DirBlock(geo, s, ino, k), 0), D.Listing(c, 0), e)
    ensures D.Inserted(DirListing(geo, s, ino, 0, n), DirListing(geo, t, ino, 0, n), e)
  {
    hide DirBlock, D.Listing, D.Inserted, DirListing;
    BlockSplit(geo, s, ino, k, n);
    BlockSplit(geo, t, ino, k, n);
    SameListing(geo, s, t, ino, 0, k);
    SameListing(geo, s, t, ino, k + 1, n);
    InsertedInside(DirListing(geo, s, ino, 0, k), D.Listing(DirBlock(geo, s, ino, k), 0), D.Listing(c, 0),
        DirListing(geo, s, ino, k + 1, n), e);
  }

  lemma BlockRemoved(geo: Geo, s: State, t: State, ino: nat, n: nat, k: nat, c: Block, e: D.Dirent)
    requires OneBlock(geo, s, t, ino, n, k, c) && D.Inserted(D.Listing(c, 0), D.Listing(DirBlock(geo, s, ino, k), 0), e)
    ensures D.Inserted(DirListing(geo, t, ino, 0, n), DirListing(geo, s, ino, 0, n), e)
  {
    hide DirBlock, D.Listing, D.Inserted, DirListing;
    BlockSplit(geo, s, ino, k, n);
    BlockSplit(geo, t, ino, k, n);
    SameListing(geo, s, t, ino, 0, k);
    SameListing(geo, s, t, ino, k + 1, n);
    InsertedInside(DirListing(geo, s, ino, 0, k), D.Listing(c, 0), D.Listing(DirBlock(geo, s, ino, k), 0),
        DirListing(geo, s, ino, k + 1, n), e);
  }

  /** Storing a tiled block over a block of a directory. */
  lemma StoreInDir(geo: Geo, meta: set<nat>, s: State, ino: nat, n: nat, k: nat, c: Block)
    requires Ok(geo, meta, s) && k < n && Map(geo, s, ino, k) != 0 && |c| == geo.bs && D.Tiled(c, 0)
    requires forall j: nat :: j < n && j != k ==> BlockOk(geo, s, ino, j)
    ensures var t := s.(disk := s.disk[Map(geo, s, ino, k) := c]);
            Ok(geo, meta, t) && OneBlock(geo, s, t, ino, n, k, c) && DirOk(geo, t, ino, n) && OtherFiles(geo, s, t, ino)
            && (Counted(geo, s.disk) ==> Counted(geo, t.disk))
  {
    hide Ok, Map, ByteAt, D.Tiled, Counted;
    var b := Map(geo, s, ino, k);
    var t := s.(disk := s.disk[b := c]);
    MapOk(geo, meta, s, ino, k);
    StoreKeepsTree(geo, meta, s, b, c);
    forall ino': nat, x: nat | ino' != ino
      ensures ByteAt(geo, t, ino', x) == ByteAt(geo, s, ino', x)
    {
      StoreBytes(geo, meta, s, ino, k, c, ino', x);
    }
    forall j: nat | j < n
      ensures DirBlock(geo, t, ino, j) == (if j == k then c else DirBlock(geo, s, ino, j)) && BlockOk(geo, t, ino, j)
    {
      assert j != k ==> BlockOk(geo, s, ino, j);
      if Map(geo, s, ino, j) == b { MapInjective(geo, meta, s, ino, k, ino, j); }
    }
  }

  /** Adding a block past the end of a directory leaves its blocks as they were. */
  lemma AppendKeepsDir(geo: Geo, meta: set<nat>, s: State, t: State, ino: nat, n: nat)
    requires Ok(geo, meta, s) && Fan(geo) > 0 && Extends(geo, s, t, ino, Locate(Fan(geo), n)) && DirOk(geo, s, ino, n)
    ensures DirOk(geo, t, ino, n) && OtherFiles(geo, s, t, ino)
    ensures forall k: nat :: k < n ==> DirBlock(geo, t, ino, k) == DirBlock(geo, s, ino, k)
    ensures DirListing(geo, t, ino, 0, n) == DirListing(geo, s, ino, 0, n)
  {
    hide Ok, Map, ByteAt, D.Tiled, Locate, Fan, Below, DirListing, Place, PathOk, Used;
    forall ino': nat, x: nat | ino' != ino
      ensures ByteAt(geo, t, ino', x) == ByteAt(geo, s, ino', x)
    {
      AddBytes(geo, meta, s, t, ino, n, ino', x);
    }
    forall j: nat | j < n
      ensures DirBlock(geo, t, ino, j) == DirBlock(geo, s, ino, j) && BlockOk(geo, t, ino, j)
    {
      assert BlockOk(geo, s, ino, j);
      StaysMapped(geo, meta, s, t, ino, n, j);
      MapOk(geo, meta, s, ino, j);
    }
    SameListing(geo, s, t, ino, 0, n);
  }

  lemma OtherTrans(geo: Geo, s: State, t: State, u: State, ino: nat)
    requires OtherFiles(geo, s, t, ino) && OtherFiles(geo, t, u, ino)
    ensures OtherFiles(geo, s, u, ino)
  {
    hide ByteAt;
  }

  lemma OtherSame(geo: Geo, s: State, ino: nat)
    ensures OtherFiles(geo, s, s, ino)
  {
  }

  /** After an entry could not be added: the directory as its inode is stored has the blocks it had, all
      tiled, and lists what it did, or that and the entry; no other file changed. */
  ghost predicate StillDir(geo: Geo, meta: set<nat>, s: State, t: State, ino: nat, n: nat, e: D.Dirent) {
    && Ok(geo, meta, t) && DirOk(geo, t, ino, n) && OtherFiles(geo, s, t, ino)
    && var before, now := DirListing(geo, s, ino, 0, n), DirListing(geo, t, ino, 0, n);
       now == before || D.Inserted(before, now, e)
  }

  lemma PrunedDir(geo: Geo, meta: set<nat>, s: State, t: State, ino: nat, n: nat, e: D.Dirent)
    requires StillDir(geo, meta, s, t, ino, n, e) && DirOk(geo, s, ino, n) && Grew(s.roots, t.roots, ino)
    ensures StillDir(geo, meta, s, Pruned(t, s.roots), ino, n, e)
  {
    hide Ok, Map, ByteAt, D.Tiled, DirListing, Grew, Pruned, D.Inserted, SlotThere;
    var p := Pruned(t, s.roots);
    PrunedOk(geo, meta, t, s.roots, ino);
    forall j: nat | j < n
      ensures DirBlock(geo, p, ino, j) == DirBlock(geo, t, ino, j) && BlockOk(geo, p, ino, j)
    {
      assert BlockOk(geo, s, ino, j) && BlockOk(geo, t, ino, j);
      PrunedStays(geo, s, t, ino, j);
    }
    SameListing(geo, t, p, ino, 0, n);
    OkParts(geo, meta, t, ino);
    forall i: nat, x: nat | i != ino
      ensures ByteAt(geo, p, i, x) == ByteAt(geo, s, i, x)
    {
      PrunedByte(geo, t, s.roots, ino, i, x);
      if !SlotThere(geo, s.roots, i, x) { NoSlotNoByte(geo, s, i, x); }
    }
  }

  /** A file block the stored inode had is where the copy in hand has it. */
  lemma PrunedStays(geo: Geo, s: State, t: State, ino: nat, j: nat)
    requires Grew(s.roots, t.roots, ino) && Map(geo, s, ino, j) != 0
    ensures Map(geo, Pruned(t, s.roots), ino, j) == Map(geo, t, ino, j) && Pruned(t, s.roots).disk == t.disk
  {
    hide Grew, Locate, Fan;
    var path := Locate(Fan(geo), j);
    if path == [] {
      PlaceOfNothing(s, ino);
    } else {
      RootMapped(s, ino, path);
      assert Place(s, ino, [path[0]]) == Root(s.roots, ino, path[0]);
      PrunedPlace(t, s.roots, ino, ino, path);
    }
  }

  // ---------------------------------------------------------------- operations

  /** Sizes are 32-bit. */
  const SIZE_LIMIT: nat := 0x1_0000_0000

  /** A directory in hand: its blocks are whole, mapped and tiled. */
  ghost predicate IsDir(fs: FileSystem, dir: Inode, n: nat)
    reads fs, fs.vol, fs.vol.cache, dir
  {
    fs.Valid() && fs.Holds(dir) && dir.size == n * fs.vol.geo.bs < SIZE_LIMIT && DirOk(fs.vol.geo, fs.S(), dir.ino, n)
  }

  ghost function Lists(fs: FileSystem, dir: Inode, n: nat): seq<D.Dirent>
    reads fs, fs.vol, dir
  {
    DirListing(fs.vol.geo, fs.S(), dir.ino, 0, n)
  }

  /** The number of blocks a size takes. */
  function BlocksOf(geo: Geo, size: nat): nat {
    if geo.bs == 0 then 0 else (size + geo.bs - 1) / geo.bs
  }

  lemma WholeBlocks(geo: Geo, n: nat)
    requires GeoOk(geo)
    ensures BlocksOf(geo, n * geo.bs) == n
  {
    Arith.DivMod(n * geo.bs + geo.bs - 1, geo.bs, n, geo.bs - 1);
  }

  /** Fetches block `k` of a directory, if it can be read. */
  method Fetch(fs: FileSystem, dir: Inode, k: nat, ghost n: nat) returns (ok: bool, b: nat, data: Block)
    requires IsDir(fs, dir, n) && k < n
    modifies fs.vol.cache
    ensures IsDir(fs, dir, n) && fs.vol.cache.view == old(fs.vol.cache.view)
    ensures ok ==> b == Map(fs.vol.geo, fs.S(), dir.ino, k) != 0 && data == DirBlock(fs.vol.geo, fs.S(), dir.ino, k)
    ensures ok ==> |data| == fs.vol.geo.bs && 0 < |data| < 0x1_0000 && D.Tiled(data, 0)
    ensures fs.vol.cache.reliable ==> ok
  {
    hide Ok, Map, Presents, Represents, Sized, D.Tiled, Answers, Locate, DirListing;
    ghost var geo := fs.vol.geo;
    assert BlockOk(geo, fs.S(), dir.ino, k);
    MapOk(geo, fs.vol.meta, fs.S(), dir.ino, k);
    MappedAnswers(geo, fs.vol.meta, fs.S(), dir.ino, k);
    data := [];
    ok, b := fs.FileBlock(dir, k);
    if !ok || b == 0 { return false, b, data; }
    ok, data := fs.vol.ReadBlock(b);
  }

  /** The inode has reached the table, or the table is as it was. */
  ghost predicate Stored(fs: FileSystem, dir: Inode, table: map<nat, Record>, ok: bool)
    reads fs, dir
  {
    if ok then dir.ino in fs.table && fs.table == table[dir.ino := fs.table[dir.ino]] &&
        fs.table[dir.ino].blocks == dir.blocks
    else fs.table == table
  }

  /** Rewrites block `k` of a directory and stores its inode. */
  method Update(fs: FileSystem, dir: Inode, k: nat, b: nat, c: Block, ghost n: nat) returns (ok: bool)
    requires fs.Valid() && fs.Holds(dir) && k < n && |c| == fs.vol.geo.bs && D.Tiled(c, 0)
    requires b == Map(fs.vol.geo, fs.S(), dir.ino, k) != 0
    requires forall j: nat :: j < n && j != k ==> BlockOk(fs.vol.geo, fs.S(), dir.ino, j)
    modifies fs, fs.vol, fs.vol.cache
    ensures fs.Valid() && fs.Holds(dir) && OtherFiles(fs.vol.geo, old(fs.S()), fs.S(), dir.ino)
    ensures ok ==> DirOk(fs.vol.geo, fs.S(), dir.ino, n) && OneBlock(fs.vol.geo, old(fs.S()), fs.S(), dir.ino, n, k, c)
    ensures Counted(fs.vol.geo, old(fs.vol.disk)) ==> Counted(fs.vol.geo, fs.vol.disk)
    ensures !ok ==> fs.S() == old(fs.S()) || OneBlock(fs.vol.geo, old(fs.S()), fs.S(), dir.ino, n, k, c)
    ensures fs.S() != old(fs.S()) ==> DirOk(fs.vol.geo, fs.S(), dir.ino, n)
    ensures fs.roots == old(fs.roots) && Stored(fs, dir, old(fs.table), ok)
    ensures fs.vol.cache.reliable ==> ok
  {
    hide Ok, Map, Presents, Represents, Sized, D.Tiled, DirOk, OneBlock, OtherFiles, DirListing, GeoOk, Counted;
    OtherSame(fs.vol.geo, fs.S(), dir.ino);
    MapOk(fs.vol.geo, fs.vol.meta, fs.S(), dir.ino, k);
    StoreInDir(fs.vol.geo, fs.vol.meta, fs.S(), dir.ino, n, k, c);
    ok := fs.vol.WriteBlock(b, c);
    if !ok { return; }
    ok := fs.WriteInode(dir);
  }

  /** Block `k` of the directory has no record with room for a name this long. */
  ghost predicate NoRoomIn(fs: FileSystem, dir: Inode, k: nat, nameLen: nat)
    reads fs, fs.vol, dir
  {
    D.NoRoom(DirBlock(fs.vol.geo, fs.S(), dir.ino, k), 0, D.RecLen(nameLen))
  }

  /** Either the directory is as long as a file can be, or the volume is full. */
  ghost predicate CannotGrow(fs: FileSystem, n: nat)
    reads fs, fs.vol
  {
    Fan(fs.vol.geo) > 0 && (Locate(Fan(fs.vol.geo), n) == [] ||
        (Counted(fs.vol.geo, fs.vol.disk) ==> Full(fs.vol.geo, fs.vol.disk)))
  }

  /** No record of the directory has room for a name this long. */
  ghost predicate NoRoomAnywhere(geo: Geo, s: State, ino: nat, n: nat, nameLen: nat) {
    forall k: nat :: k < n ==> D.NoRoom(DirBlock(geo, s, ino, k), 0, D.RecLen(nameLen))
  }

  /** The size after an entry has been added, as the state before tells it: the same, or a block more,
      or 0 where a block more is 4 GiB. */
  ghost function SizeAfter(geo: Geo, s: State, ino: nat, n: nat, nameLen: nat): nat {
    if !NoRoomAnywhere(geo, s, ino, n, nameLen) then n * geo.bs
    else if (n + 1) * geo.bs < SIZE_LIMIT then (n + 1) * geo.bs
    else 0
  }

  lemma RoomSomewhere(geo: Geo, s: State, ino: nat, n: nat, k: nat, nameLen: nat)
    requires k < n && !D.NoRoom(DirBlock(geo, s, ino, k), 0, D.RecLen(nameLen))
    ensures !NoRoomAnywhere(geo, s, ino, n, nameLen)
  {
  }

  /** The entry went into the first record with room of block `k`, the first block with room. */
  ghost predicate TookFirstBlock(geo: Geo, s: State, t: State, dir: nat, n: nat, k: nat, name: D.Name, ino: nat,
      kind: byte) {
    && k < n && ino < 0x1_0000_0000 && |name| < 0x100
    && (forall j: nat :: j < k ==> D.NoRoom(DirBlock(geo, s, dir, j), 0, D.RecLen(|name|)))
    && D.TookFirst(DirBlock(geo, s, dir, k), DirBlock(geo, t, dir, k), ino, kind, name)
    && OneBlock(geo, s, t, dir, n, k, DirBlock(geo, t, dir, k))
  }

  lemma FirstBlockTook(geo: Geo, s: State, t: State, dir: nat, n: nat, k: nat, c: Block, name: D.Name, ino: nat,
      kind: byte)
    requires OneBlock(geo, s, t, dir, n, k, c) && ino < 0x1_0000_0000 && |name| < 0x100
    requires forall j: nat :: j < k ==> D.NoRoom(DirBlock(geo, s, dir, j), 0, D.RecLen(|name|))
    requires D.TookFirst(DirBlock(geo, s, dir, k), c, ino, kind, name)
    ensures TookFirstBlock(geo, s, t, dir, n, k, name, ino, kind)
  {
    hide D.TookFirst;
  }

  /** The limit is within what the block tree maps: with 4096-byte blocks, the block that would make a
      directory 4 GiB can be had, and the size wraps. */
  lemma WrapsAtFourGiB(geo: Geo)
    requires geo.bs == 4096
    ensures Locate(Fan(geo), 0xF_FFFF) != []
    ensures 0xF_FFFF * geo.bs < SIZE_LIMIT && (0xF_FFFF * geo.bs + geo.bs) % SIZE_LIMIT == 0
    ensures forall s: State, ino: nat, nameLen: nat :: NoRoomAnywhere(geo, s, ino, 0xF_FFFF, nameLen) ==>
            SizeAfter(geo, s, ino, 0xF_FFFF, nameLen) == 0
  {
    hide NoRoomAnywhere;
  }

  /** `add_dirent`: the directory lists one entry more, in the first record that has room or in a
      block of its own at the end, and stays tiled; no other file changes. The block that would
      take it to 4 GiB wraps its size to 0, and it then reads as empty. */
  method AddDirent(fs: FileSystem, dir: Inode, name: D.Name, ino: nat, kind: byte, ghost n: nat)
      returns (ok: bool, ghost m: nat)
    requires IsDir(fs, dir, n) && 0 < |name| < 0x100 && 0 < ino < 0x1_0000_0000
    modifies fs, fs.vol, fs.vol.cache, dir
    ensures fs.Valid() && fs.Holds(dir) && OtherFiles(fs.vol.geo, old(fs.S()), fs.S(), dir.ino)
    ensures ok ==> n <= m <= n + 1 && D.Inserted(old(Lists(fs, dir, n)), Lists(fs, dir, m), D.Dirent(name, ino, kind))
    ensures ok ==> if m * fs.vol.geo.bs < SIZE_LIMIT then IsDir(fs, dir, m) else dir.size == 0 && IsDir(fs, dir, 0)
    ensures fs.vol.cache.reliable && Counted(fs.vol.geo, old(fs.vol.disk)) ==> Counted(fs.vol.geo, fs.vol.disk)
    ensures ok && old(fs.Synced()) ==> fs.Synced()
    ensures !ok ==> fs.table == old(fs.table) && Grew(old(fs.roots), fs.roots, dir.ino)
    ensures !ok ==>
              StillDir(fs.vol.geo, fs.vol.meta, old(fs.S()), Pruned(fs.S(), old(fs.roots)), dir.ino, n,
                  D.Dirent(name, ino, kind))
    ensures !ok && fs.vol.cache.reliable ==> IsDir(fs, dir, n) && Lists(fs, dir, n) == old(Lists(fs, dir, n))
    ensures !ok && fs.vol.cache.reliable ==> CannotGrow(fs, n) && forall k: nat :: k < n ==>
            NoRoomIn(fs, dir, k, |name|)
    ensures ok && fs.vol.cache.reliable ==>
            (m == n + 1 <==> NoRoomAnywhere(fs.vol.geo, old(fs.S()), dir.ino, n, |name|))
    ensures ok && fs.vol.cache.reliable ==> dir.size == SizeAfter(fs.vol.geo, old(fs.S()), dir.ino, n, |name|)
    ensures ok && m == n && fs.vol.cache.reliable ==>
              exists k: nat :: TookFirstBlock(fs.vol.geo, old(fs.S()), fs.S(), dir.ino, n, k, name, ino, kind)
  {
    hide StillDir, Grew, Pruned, Ok, Map, Presents, Represents, Sized, D.Tiled, DirOk, OneBlock, OtherFiles,
         DirListing, GeoOk, D.Inserted, D.NoRoom, BlocksOf, DirBlock, CannotGrow, Counted, D.TookFirst;
    m := n;
    ghost var s := fs.S();
    ghost var geo := fs.vol.geo;
    WholeBlocks(geo, n);
    OtherSame(geo, s, dir.ino);
    var blocks := BlocksOf(fs.vol.geo, dir.size);
    var k := 0;
    while k < blocks
      invariant k <= n && IsDir(fs, dir, n) && fs.S() == s && fs.table == old(fs.table)
      invariant fs.vol.cache.reliable ==> forall j: nat :: j < k ==>
                D.NoRoom(DirBlock(geo, s, dir.ino, j), 0, D.RecLen(|name|))
    {
      var got, b, data := Fetch(fs, dir, k, n);
      if got {
        var room, c := D.AddInBlock(data, name, ino, kind);
        if room {
          DirOkAt(geo, s, dir.ino, n);
          ok := Update(fs, dir, k, b, c, n);
          GrewSame(s.roots, dir.ino);
          if fs.S() != s { BlockInserted(geo, s, fs.S(), dir.ino, n, k, c, D.Dirent(name, ino, kind)); }
          StillIs(geo, fs.vol.meta, s, fs.S(), dir.ino, n, D.Dirent(name, ino, kind));
          if ok {
            BlockInserted(geo, s, fs.S(), dir.ino, n, k, c, D.Dirent(name, ino, kind));
            RoomSomewhere(geo, s, dir.ino, n, k, |name|);
            if fs.vol.cache.reliable { FirstBlockTook(geo, s, fs.S(), dir.ino, n, k, c, name, ino, kind); }
          }
          return;
        }
      }
      k := k + 1;
    }
    ok, m := Append(fs, dir, name, ino, kind, n, blocks);
    GrewOthers(s.roots, fs.roots, dir.ino);
  }

  /** The tail of `add_dirent`: a new block with the entry as its only record. */
  method Append(fs: FileSystem, dir: Inode, name: D.Name, ino: nat, kind: byte, ghost n: nat, blocks: nat)
      returns (ok: bool, ghost m: nat)
    requires IsDir(fs, dir, n) && 0 < |name| < 0x100 && 0 < ino < 0x1_0000_0000 && blocks == n
    modifies fs, fs.vol, fs.vol.cache, dir
    ensures fs.Valid() && fs.Holds(dir) && OtherFiles(fs.vol.geo, old(fs.S()), fs.S(), dir.ino)
    ensures ok ==> m == n + 1 && D.Inserted(old(Lists(fs, dir, n)), Lists(fs, dir, m), D.Dirent(name, ino, kind))
    ensures ok ==> if m * fs.vol.geo.bs < SIZE_LIMIT then IsDir(fs, dir, m) else dir.size == 0 && IsDir(fs, dir, 0)
    ensures fs.vol.cache.reliable && Counted(fs.vol.geo, old(fs.vol.disk)) ==> Counted(fs.vol.geo, fs.vol.disk)
    ensures Grew(old(fs.roots), fs.roots, dir.ino) && Stored(fs, dir, old(fs.table), ok)
    ensures !ok ==>
              StillDir(fs.vol.geo, fs.vol.meta, old(fs.S()), Pruned(fs.S(), old(fs.roots)), dir.ino, n,
                  D.Dirent(name, ino, kind))
    ensures !ok && fs.vol.cache.reliable ==>
              IsDir(fs, dir, n) && Lists(fs, dir, n) == old(Lists(fs, dir, n)) && CannotGrow(fs, n)
    ensures !ok && fs.vol.cache.reliable ==> forall k: nat :: k < n ==>
            DirBlock(fs.vol.geo, fs.S(), dir.ino, k) == DirBlock(fs.vol.geo, old(fs.S()), dir.ino, k)
  {
    hide StillDir, Grew, Pruned, Ok, Map, Presents, Represents, Sized, D.Tiled, OneBlock, OtherFiles, DirListing,
         D.Inserted, Fan, Locate, Extends, Answers, Full, Counted, D.PutRec;
    m := n + 1;
    ghost var s := fs.S();
    var rc, b := fs.FileBlockForWrite(dir, blocks, true);
    ghost var t := fs.S();
    ghost var geo := fs.vol.geo;
    AppendKeepsDir(geo, fs.vol.meta, s, t, dir.ino, n);
    ExtendsGrew(geo, fs.vol.meta, s, t, dir.ino, Locate(Fan(geo), n));
    StillIs(geo, fs.vol.meta, s, t, dir.ino, n, D.Dirent(name, ino, kind));
    if rc != 0 { return false, m; }
    AppendedInside(geo, fs.vol.meta, t, dir.ino, n);
    var data;
    ok, data := fs.vol.ReadBlock(b);
    if !ok { return; }
    var c := Alone(fs.vol.geo, name, ino, kind);
    AloneLists(geo, name, ino, kind);
    dir.size := (dir.size + fs.vol.geo.bs) % SIZE_LIMIT;
    SizeWraps(geo, n);
    assert forall j: nat :: j < m && j != n ==> BlockOk(geo, t, dir.ino, j);
    ok := Update(fs, dir, blocks, b, c, m);
    OtherTrans(geo, s, t, fs.S(), dir.ino);
    if fs.S() != t { AppendedStill(geo, t, fs.S(), dir.ino, n, c); }
    StillIs(geo, fs.vol.meta, s, fs.S(), dir.ino, n, D.Dirent(name, ino, kind));
    if ok { Appended(geo, s, t, fs.S(), dir.ino, n, c, D.Dirent(name, ino, kind)); }
  }

  /** Whole blocks reach the 32-bit limit exactly or stay below it. */
  lemma SizeWraps(geo: Geo, n: nat)
    requires GeoOk(geo) && n * geo.bs < SIZE_LIMIT
    ensures (n * geo.bs + geo.bs) % SIZE_LIMIT == if (n + 1) * geo.bs < SIZE_LIMIT then (n + 1) * geo.bs else 0
  {
    assert n * geo.bs + geo.bs == (n + 1) * geo.bs;
    if geo.bs == 1024 {
    } else if geo.bs == 2048 {
    } else {
      assert geo.bs == 4096;
    }
  }

  lemma AppendedInside(geo: Geo, meta: set<nat>, s: State, ino: nat, n: nat)
    requires Ok(geo, meta, s)
    ensures Map(geo, s, ino, n) != 0 ==> Map(geo, s, ino, n) in s.disk
  {
    hide Ok, Map;
    MapOk(geo, meta, s, ino, n);
  }

  /** A block with one record that covers it. */
  function Alone(geo: Geo, name: D.Name, ino: nat, kind: byte): (c: Block)
    requires GeoOk(geo) && |name| < 0x100 && ino < 0x1_0000_0000
    ensures |c| == geo.bs
  {
    D.PutRec(Zeros(geo.bs), 0, ino, geo.bs, kind, name)
  }

  lemma AloneLists(geo: Geo, name: D.Name, ino: nat, kind: byte)
    requires GeoOk(geo) && 0 < |name| < 0x100 && 0 < ino < 0x1_0000_0000
    ensures D.Tiled(Alone(geo, name, ino, kind), 0) &&
            D.Listing(Alone(geo, name, ino, kind), 0) == [D.Dirent(name, ino, kind)]
  {
    hide D.Listing, D.PutRec, D.RecAt, U16, U32;
    var c := Alone(geo, name, ino, kind);
    D.PutRecIs(Zeros(geo.bs), 0, ino, geo.bs, kind, name);
    D.ListingStep(c, 0);
    D.ListingStep(c, geo.bs);
  }

  lemma Appended(geo: Geo, s: State, t: State, u: State, ino: nat, n: nat, c: Block, e: D.Dirent)
    requires DirListing(geo, t, ino, 0, n) == DirListing(geo, s, ino, 0, n)
    requires OneBlock(geo, t, u, ino, n + 1, n, c) && D.Listing(c, 0) == [e]
    ensures D.Inserted(DirListing(geo, s, ino, 0, n), DirListing(geo, u, ino, 0, n + 1), e)
  {
    hide DirBlock, D.Listing, D.Inserted;
    BlockSplit(geo, u, ino, n, n + 1);
    SameListing(geo, t, u, ino, 0, n);
    var l := DirListing(geo, s, ino, 0, n);
    assert DirListing(geo, u, ino, n + 1, n + 1) == [];
    D.InsertedBetween(l, [], e);
    assert l + [] == l && l + [e] + [] == l + ([e] + []);
  }

  /** What is in the block past the end does not matter for what is before it. */
  lemma AppendedStill(geo: Geo, s: State, t: State, ino: nat, n: nat, c: Block)
    requires OneBlock(geo, s, t, ino, n + 1, n, c) && DirOk(geo, t, ino, n + 1)
    ensures DirOk(geo, t, ino, n) && DirListing(geo, t, ino, 0, n) == DirListing(geo, s, ino, 0, n)
  {
    hide DirBlock, BlockOk;
    SameListing(geo, s, t, ino, 0, n);
  }

  lemma StillIs(geo: Geo, meta: set<nat>, s: State, t: State, ino: nat, n: nat, e: D.Dirent)
    requires Ok(geo, meta, t) && DirOk(geo, t, ino, n) && OtherFiles(geo, s, t, ino) && DirOk(geo, s, ino, n)
    requires var before, now := DirListing(geo, s, ino, 0, n), DirListing(geo, t, ino, 0, n);
             now == before || D.Inserted(before, now, e)
    requires Grew(s.roots, t.roots, ino)
    ensures StillDir(geo, meta, s, Pruned(t, s.roots), ino, n, e)
  {
    hide Ok, DirOk, OtherFiles, DirListing, D.Inserted, Grew, Pruned;
    PrunedDir(geo, meta, s, t, ino, n, e);
  }

  lemma DirOkAt(geo: Geo, s: State, ino: nat, n: nat)
    requires DirOk(geo, s, ino, n)
    ensures forall j: nat :: j < n ==> BlockOk(geo, s, ino, j)
  {
  }

  /** `remove_dirent`: the directory lists one entry less, one of that name, and stays tiled; when no
      block lists the name, nothing changes. */
  method RemoveDirent(fs: FileSystem, dir: Inode, name: D.Name, ghost n: nat)
      returns (ok: bool, ino: nat, ghost kind: byte)
    requires IsDir(fs, dir, n) && 0 < |name| < 0x100
    modifies fs, fs.vol, fs.vol.cache
    ensures fs.Valid() && fs.Holds(dir) && OtherFiles(fs.vol.geo, old(fs.S()), fs.S(), dir.ino)
    ensures ok ==>
              IsDir(fs, dir, n) && ino != 0 &&
              D.Inserted(Lists(fs, dir, n), old(Lists(fs, dir, n)), D.Dirent(name, ino, kind))
    ensures Counted(fs.vol.geo, old(fs.vol.disk)) ==> Counted(fs.vol.geo, fs.vol.disk)
    ensures fs.roots == old(fs.roots) && (old(fs.Synced()) ==> fs.Synced())
    ensures !ok ==>
              && fs.table == old(fs.table) && IsDir(fs, dir, n)
              && (fs.S() == old(fs.S()) ||
                  D.Inserted(Lists(fs, dir, n), old(Lists(fs, dir, n)), D.Dirent(name, ino, kind)))
    ensures !ok && fs.vol.cache.reliable ==> fs.S() == old(fs.S()) && forall e :: e in Lists(fs, dir, n) ==>
            e.name != name
  {
    hide Ok, Map, Presents, Represents, Sized, D.Tiled, DirOk, OneBlock, OtherFiles, DirListing, GeoOk, D.Inserted,
         BlocksOf, Counted;
    ghost var s := fs.S();
    ghost var geo := fs.vol.geo;
    WholeBlocks(geo, n);
    OtherSame(geo, s, dir.ino);
    ListsNothing(geo, s, dir.ino);
    kind := 0;
    var blocks := BlocksOf(fs.vol.geo, dir.size);
    var k := 0;
    while k < blocks
      invariant k <= n && IsDir(fs, dir, n) && fs.S() == s && fs.table == old(fs.table)
      invariant fs.vol.cache.reliable ==> forall e :: e in DirListing(geo, s, dir.ino, 0, k) ==> e.name != name
    {
      var got, b, data := Fetch(fs, dir, k, n);
      ListsOn(geo, s, dir.ino, k);
      if got {
        var found, c;
        found, c, ino, kind := D.RemoveInBlock(data, name);
        if found {
          DirOkAt(geo, s, dir.ino, n);
          ok := Update(fs, dir, k, b, c, n);
          if fs.S() != s || ok { BlockRemoved(geo, s, fs.S(), dir.ino, n, k, c, D.Dirent(name, ino, kind)); }
          return;
        }
      }
      k := k + 1;
    }
    return false, 0, kind;
  }

  lemma ListsNothing(geo: Geo, s: State, ino: nat)
    ensures DirListing(geo, s, ino, 0, 0) == []
  {
  }

  lemma ListsOn(geo: Geo, s: State, ino: nat, k: nat)
    ensures DirListing(geo, s, ino, 0, k + 1) == DirListing(geo, s, ino, 0, k) + D.Listing(DirBlock(geo, s, ino, k), 0)
  {
    hide DirBlock, D.Listing;
    ListingSplit(geo, s, ino, 0, k, k + 1);
    assert DirListing(geo, s, ino, k + 1, k + 1) == [];
  }

  // ---------------------------------------------------------------- enumeration

  /** `.` and `..` are not enumerated. */
  predicate IsDot(name: D.Name) {
    name == [46] || name == [46, 46]
  }

  function Shown(e: D.Dirent): seq<D.Dirent> {
    if IsDot(e.name) then [] else [e]
  }

  function Visible(l: seq<D.Dirent>): seq<D.Dirent> {
    if |l| == 0 then [] else Shown(l[0]) + Visible(l[1..])
  }

  lemma VisibleStep(l: seq<D.Dirent>)
    requires |l| > 0
    ensures Visible(l) == Shown(l[0]) + Visible(l[1..])
  {
  }

  lemma Assoc<T>(a: seq<T>, b: seq<T>, c: seq<T>)
    ensures a + (b + c) == a + b + c
  {
  }

  lemma {:induction false} VisibleJoin(a: seq<D.Dirent>, b: seq<D.Dirent>)
    ensures Visible(a + b) == Visible(a) + Visible(b)
  {
    hide Visible, IsDot;
    if |a| == 0 {
      VisibleNone();
      assert a + b == b;
    } else {
      VisibleJoin(a[1..], b);
      VisibleStep(a);
      VisibleStep(a + b);
      assert (a + b)[0] == a[0] && (a + b)[1..] == a[1..] + b;
      Assoc(Shown(a[0]), Visible(a[1..]), Visible(b));
    }
  }

  /** A cursor stands before a record of block `k`, or at the end of the directory. */
  ghost predicate Cursor(geo: Geo, s: State, ino: nat, n: nat, cursor: nat, k: nat, at: nat) {
    && cursor == k * geo.bs + at
    && (if k < n then at < geo.bs && D.Walks(DirBlock(geo, s, ino, k), 0, at) && D.Tiled(DirBlock(geo, s, ino, k), at)
        else k == n && at == 0)
  }

  /** What is still to be enumerated there. */
  ghost function Rest(geo: Geo, s: State, ino: nat, n: nat, k: nat, at: nat): seq<D.Dirent> {
    if k < n then Visible(D.Listing(DirBlock(geo, s, ino, k), at) + DirListing(geo, s, ino, k + 1, n)) else []
  }

  /** Stepping over one record. */
  lemma CursorStep(geo: Geo, s: State, ino: nat, n: nat, cursor: nat, k: nat, at: nat)
    requires GeoOk(geo) && DirOk(geo, s, ino, n) && Cursor(geo, s, ino, n, cursor, k, at) && k < n &&
             |DirBlock(geo, s, ino, k)| == geo.bs
    ensures var b := DirBlock(geo, s, ino, k);
            var len := U16(b, at + 4);
            var k', at' := if at + len == geo.bs then k + 1 else k, if at + len == geo.bs then 0 else at + len;
            && D.Fits(b, at) && Cursor(geo, s, ino, n, cursor + len, k', at')
            && Rest(geo, s, ino, n, k, at) == Visible(D.Entry(D.RecAt(b, at))) + Rest(geo, s, ino, n, k', at')
  {
    hide DirBlock, D.Listing, D.RecAt, U16, U32, D.Entry, Visible, D.Walks, D.Roomy, Map;
    var b := DirBlock(geo, s, ino, k);
    var len := U16(b, at + 4);
    D.TiledEnds(b, at);
    D.TiledNext(b, at);
    D.WalkOn(b, 0, at);
    D.ListingStep(b, at);
    D.TiledEnds(b, at + len);
    var e, more := D.Entry(D.RecAt(b, at)), DirListing(geo, s, ino, k + 1, n);
    assert e + D.Listing(b, at + len) + more == e + (D.Listing(b, at + len) + more);
    VisibleJoin(e, D.Listing(b, at + len) + more);
    if at + len == geo.bs {
      EndLists(b, at + len);
      assert [] + more == more;
      assert (k + 1) * geo.bs == k * geo.bs + geo.bs;
      if k + 1 < n {
        assert BlockOk(geo, s, ino, k + 1);
        D.TiledEnds(DirBlock(geo, s, ino, k + 1), 0);
      } else {
        VisibleNone();
      }
    }
  }

  lemma EndLists(b: Block, at: nat)
    requires at + 8 > |b|
    ensures D.Listing(b, at) == []
  {
    D.ListingStep(b, at);
  }

  lemma VisibleNone()
    ensures Visible([]) == []
  {
  }

  lemma CursorAt(geo: Geo, s: State, ino: nat, n: nat, cursor: nat, k: nat, at: nat)
    requires GeoOk(geo) && Cursor(geo, s, ino, n, cursor, k, at) && k < n
    ensures Ix(geo, cursor) == k && Off(geo, cursor) == at && cursor < n * geo.bs
  {
    hide D.Walks, D.Tiled, DirBlock;
    Arith.DivMod(cursor, geo.bs, k, at);
    MulLe(k + 1, n, geo.bs);
    assert (k + 1) * geo.bs == k * geo.bs + geo.bs;
  }

  /** `ext2_next_dirent`: the next entry still to be enumerated, and the cursor past it. */
  method NextDirent(fs: FileSystem, dir: Inode, cursor: nat, ghost n: nat, ghost k: nat, ghost at: nat)
      returns (found: bool, e: D.Dirent, next: nat, ghost k': nat, ghost at': nat)
    requires IsDir(fs, dir, n) && Cursor(fs.vol.geo, fs.S(), dir.ino, n, cursor, k, at)
    modifies fs.vol.cache
    ensures IsDir(fs, dir, n) && fs.vol.cache.view == old(fs.vol.cache.view)
    ensures Cursor(fs.vol.geo, fs.S(), dir.ino, n, next, k', at')
    ensures found ==> Rest(fs.vol.geo, fs.S(), dir.ino, n, k, at) == [e] + Rest(fs.vol.geo, fs.S(), dir.ino, n, k', at')
    ensures found ==> next > cursor
    ensures !found && fs.vol.cache.reliable ==> Rest(fs.vol.geo, fs.S(), dir.ino, n, k, at) == []
  {
    hide Ok, Map, Presents, Represents, Sized, D.Tiled, D.Walks, DirOk, DirListing, D.Listing, D.RecAt, D.Entry,
         DirBlock, Cursor, Rest, U16, U32, Visible, D.Fits;
    next, k', at' := cursor, k, at;
    e := D.Dirent([], 0, 0);
    ghost var geo := fs.vol.geo;
    while next + 8 <= dir.size
      invariant IsDir(fs, dir, n) && fs.vol.cache.view == old(fs.vol.cache.view) && next >= cursor
      invariant Cursor(geo, fs.S(), dir.ino, n, next, k', at')
      invariant Rest(geo, fs.S(), dir.ino, n, k', at') == Rest(geo, fs.S(), dir.ino, n, k, at)
      decreases dir.size - next
    {
      InsideDir(geo, fs.S(), dir.ino, n, next, k', at');
      CursorAt(geo, fs.S(), dir.ino, n, next, k', at');
      var got, b, data := Fetch(fs, dir, Ix(fs.vol.geo, next), n);
      if !got { return false, e, next, k', at'; }
      var within := Off(fs.vol.geo, next);
      CursorStep(geo, fs.S(), dir.ino, n, next, k', at');
      var len := U16(data, within + 4);
      FitsLong(data, within);
      RecIs(data, within);
      var r := D.RecAt(data, within);
      next := next + len;
      ghost var bs := fs.vol.geo.bs;
      k', at' := if at' + len == bs then k' + 1 else k', if at' + len == bs then 0 else at' + len;
      if r.ino != 0 && r.name != [] && !IsDot(r.name) {
        return true, D.Dirent(r.name, r.ino, r.kind), next, k', at';
      }
    }
    AtEnd(geo, fs.S(), dir.ino, n, next, k', at', fs.vol.meta);
    return false, e, next, k', at';
  }

  lemma FitsLong(b: Block, at: nat)
    requires D.Fits(b, at)
    ensures U16(b, at + 4) >= 8
  {
  }

  /** A record shows itself, or nothing. */
  lemma RecIs(b: Block, at: nat)
    ensures var r := D.RecAt(b, at);
            Visible(D.Entry(r)) ==
            if r.ino != 0 && r.name != [] && !IsDot(r.name) then [D.Dirent(r.name, r.ino, r.kind)] else []
  {
  }

  lemma InsideDir(geo: Geo, s: State, ino: nat, n: nat, cursor: nat, k: nat, at: nat)
    requires Cursor(geo, s, ino, n, cursor, k, at) && cursor + 8 <= n * geo.bs
    ensures k < n
  {
  }

  lemma AtEnd(geo: Geo, s: State, ino: nat, n: nat, cursor: nat, k: nat, at: nat, meta: set<nat>)
    requires Ok(geo, meta, s) && DirOk(geo, s, ino, n) && Cursor(geo, s, ino, n, cursor, k, at) &&
             cursor + 8 > n * geo.bs
    ensures Rest(geo, s, ino, n, k, at) == []
  {
    hide Ok, Cursor, DirOk, Visible;
    if k < n { CursorInside(geo, s, ino, n, cursor, k, at, meta); }
  }

  lemma CursorInside(geo: Geo, s: State, ino: nat, n: nat, cursor: nat, k: nat, at: nat, meta: set<nat>)
    requires Ok(geo, meta, s) && DirOk(geo, s, ino, n) && Cursor(geo, s, ino, n, cursor, k, at) && k < n
    ensures cursor + 8 <= n * geo.bs
  {
    hide Ok, Tree, D.Walks, Map, D.Listing;
    OkParts(geo, meta, s, ino);
    MulLe(k + 1, n, geo.bs);
    assert (k + 1) * geo.bs == k * geo.bs + geo.bs;
    assert BlockOk(geo, s, ino, k);
    MapOk(geo, meta, s, ino, k);
    Shape1(geo, s.disk, meta);
    D.TiledEnds(DirBlock(geo, s, ino, k), at);
  }

  /** `ext2_dirent`: the entry at a position, counting those that are enumerated. */
  method DirentAt(fs: FileSystem, dir: Inode, index: nat, ghost n: nat) returns (found: bool, e: D.Dirent)
    requires IsDir(fs, dir, n)
    modifies fs.vol.cache
    ensures IsDir(fs, dir, n) && fs.vol.cache.view == old(fs.vol.cache.view)
    ensures found ==> index < |Visible(Lists(fs, dir, n))| && e == Visible(Lists(fs, dir, n))[index]
    ensures !found && fs.vol.cache.reliable ==> index >= |Visible(Lists(fs, dir, n))|
  {
    hide Ok, Map, Presents, Represents, Sized, D.Tiled, D.Walks, DirOk, DirListing, D.Listing, DirBlock, Cursor, Rest,
         Visible, GeoOk;
    ghost var geo := fs.vol.geo;
    ghost var all := Visible(Lists(fs, dir, n));
    StartOfDir(geo, fs.S(), dir.ino, n, fs.vol.meta);
    var cursor, i := 0, 0;
    ghost var k, at := 0, 0;
    while true
      invariant IsDir(fs, dir, n) && fs.vol.cache.view == old(fs.vol.cache.view)
      invariant Cursor(geo, fs.S(), dir.ino, n, cursor, k, at) && i <= index && i <= |all|
      invariant all[i..] == Rest(geo, fs.S(), dir.ino, n, k, at)
      decreases index - i
    {
      ghost var rest := Rest(geo, fs.S(), dir.ino, n, k, at);
      found, e, cursor, k, at := NextDirent(fs, dir, cursor, n, k, at);
      if !found { return; }
      assert all[i..][0] == e && all[i..][1..] == all[i + 1..];
      if i == index { return; }
      i := i + 1;
    }
  }

  lemma StartOfDir(geo: Geo, s: State, ino: nat, n: nat, meta: set<nat>)
    requires Ok(geo, meta, s) && DirOk(geo, s, ino, n)
    ensures Cursor(geo, s, ino, n, 0, 0, 0)
    ensures Rest(geo, s, ino, n, 0, 0) == Visible(DirListing(geo, s, ino, 0, n)) &&
            Visible(DirListing(geo, s, ino, 0, n))[0..] == Rest(geo, s, ino, n, 0, 0)
  {
    hide Ok, Tree, D.Walks, Map, D.Listing;
    OkParts(geo, meta, s, ino);
    if n > 0 {
      assert BlockOk(geo, s, ino, 0);
      D.TiledEnds(DirBlock(geo, s, ino, 0), 0);
    } else {
      VisibleNone();
    }
  }
}
