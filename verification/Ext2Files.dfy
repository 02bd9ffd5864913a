/** Files on a volume (kernel/src/ext2.c): looking blocks up, adding them, reading, writing and
    truncating. */
module Ext2Files {
  import opened Bytes
  import opened Arith
  import opened BlockCache
  import opened Ext2Disk
  import opened Ext2Volume
  import opened Ext2Tree
  import opened Ext2State
  import opened Ext2Bytes
  import opened Ext2Truncate
  import opened Ext2Stored

  /** The largest transfer past the cache. */
  const DIRECT_MAX: nat := 128 * 1024

  datatype Record = Record(size: nat, blocks: seq<nat>, sectors: nat)

  /** `struct ext2_node`: the copy of an inode that an operation works on. */
  class Inode {
    const ino: nat
    var blocks: seq<nat>
    var size: nat

    constructor (ino: nat, blocks: seq<nat>, size: nat)
      ensures this.ino == ino && this.blocks == blocks && this.size == size
    {
      this.ino := ino;
      this.blocks := blocks;
      this.size := size;
    }
  }

  class FileSystem {
    const vol: Volume
    /** The inode table, as far as files are concerned. */
    var table: map<nat, Record>
    ghost var roots: Roots
    ghost var own: Owners

    ghost function S(): State
      reads this, vol
    {
      State(vol.disk, roots, own)
    }

    ghost predicate Valid()
      reads this, vol, vol.cache
    {
      vol.Valid() && Ok(vol.geo, vol.meta, S())
    }

    /** The file system's idea of this inode is the one in hand. */
    ghost predicate Holds(node: Inode)
      reads this, node
    {
      node.ino in roots && roots[node.ino] == node.blocks
    }

    /** Every inode of the table has the blocks its file's tree starts from. */
    ghost predicate Synced()
      reads this
    {
      table.Keys == roots.Keys && forall i :: i in table ==> roots[i] == table[i].blocks
    }

    constructor (vol: Volume, table: map<nat, Record>, ghost roots: Roots, ghost own: Owners)
      requires vol.Valid() && Ok(vol.geo, vol.meta, State(vol.disk, roots, own))
      ensures Valid() && this.vol == vol && this.table == table && this.roots == roots && this.own == own
    {
      hide Tree, Represents, Presents, Sized, GeoOk;
      this.table := table;
      this.vol := vol;
      this.roots := roots;
      this.own := own;
    }

    /** One level of `file_block`: the entry of a pointer block, or 0 below a hole. */
    method Lookup(ghost ino: nat, ghost path: seq<nat>, p: nat, j: nat) returns (ok: bool, b: nat)
      requires Valid() && PathOk(vol.geo, path) && p == Place(S(), ino, path)
      modifies vol.cache
      ensures Valid() && vol.cache.view == old(vol.cache.view)
      ensures ok ==> b == Place(S(), ino, path + [j])
      ensures vol.cache.reliable ==> ok
    {
      hide PathOk, Follow, Presents, Represents, Tree, U32, Sized, GeoOk;
      PathNonempty(vol.geo, path);
      PlaceStep(S(), ino, path, j);
      PlaceIn(vol.geo, vol.meta, S(), ino, path);
      if p == 0 { return true, 0; }
      var data;
      b := 0;
      ok, data := vol.ReadBlock(p);
      if ok { b := U32(data, 4 * j); }
    }

    /** `file_block` */
    method FileBlock(node: Inode, i: nat) returns (ok: bool, b: nat)
      requires Valid() && Holds(node)
      modifies vol.cache
      ensures Valid() && vol.cache.view == old(vol.cache.view)
      ensures ok ==> Answers(vol.geo, node.blocks, i) && b == Map(vol.geo, S(), node.ino, i)
      ensures vol.cache.reliable ==> (ok <==> Answers(vol.geo, node.blocks, i))
    {
      hide Follow, Presents, Represents, Tree, Fan, Sized, Shape, Guarded, GeoOk, Span, Div, Mod, Height;
      OkParts(vol.geo, vol.meta, S(), node.ino);
      var fan := Fan(vol.geo);
      ghost var path := Locate(fan, i);
      b := 0;
      if i < 12 {
        PlaceRoot(S(), node.ino, i);
        return true, node.blocks[i];
      }
      if path != [] { LocateIndex(vol.geo, i); }
      if i - 12 < fan {
        PlaceRoot(S(), node.ino, 12);
        assert path == [12] + [i - 12];
        assert PathOk(vol.geo, [12]) by { RootPath(vol.geo, 12); }
        ok, b := Lookup(node.ino, [12], node.blocks[12], i - 12);
        return;
      }
      var r := i - 12 - fan;
      if r < Span(fan, 2) {
        PlaceRoot(S(), node.ino, 13);
        assert path == [13] + [Div(r, fan)] + [Mod(r, fan)];
        RootPath(vol.geo, 13);
        PrefixOk(vol.geo, path);
        assert Up(path) == [13] + [Div(r, fan)];
        ok, b := Lookup(node.ino, [13], node.blocks[13], Div(r, fan));
        if !ok { return; }
        ok, b := Lookup(node.ino, [13] + [Div(r, fan)], b, Mod(r, fan));
        return;
      }
      if node.blocks[14] == 0 { return false, 0; }
      var t := r - Span(fan, 2);
      if t >= Span(fan, 3) { return false, 0; }
      var rem := Mod(t, Span(fan, 2));
      PlaceRoot(S(), node.ino, 14);
      RootPath(vol.geo, 14);
      assert path == [14] + [Div(t, Span(fan, 2))] + [Div(rem, fan)] + [Mod(rem, fan)];
      PrefixOk(vol.geo, path);
      assert Up(path) == [14] + [Div(t, Span(fan, 2))] + [Div(rem, fan)];
      PrefixOk(vol.geo, Up(path));
      assert Up(Up(path)) == [14] + [Div(t, Span(fan, 2))];
      ok, b := Lookup(node.ino, [14], node.blocks[14], Div(t, Span(fan, 2)));
      if !ok { return; }
      ok, b := Lookup(node.ino, [14] + [Div(t, Span(fan, 2))], b, Div(rem, fan));
      if !ok { return; }
      ok, b := Lookup(node.ino, [14] + [Div(t, Span(fan, 2))] + [Div(rem, fan)], b, Mod(rem, fan));
    }

    /** Fills one of the fifteen slots of the inode, if it is empty. */
    method EnsureRoot(node: Inode, k: nat, zero: bool) returns (rc: int)
      requires Valid() && Holds(node) && k < 15 && (k >= 12 ==> zero)
      modifies `roots, `own, vol, vol.cache, node
      ensures Valid() && Holds(node) && node.size == old(node.size) && Extends(vol.geo, old(S()), S(), node.ino, [k])
      ensures rc in {0, -ENOSPC, -EIO} && (vol.cache.reliable ==> rc != -EIO)
      ensures rc == 0 ==> |node.blocks| == 15 && node.blocks[k] != 0 && Place(S(), node.ino, [k]) == node.blocks[k]
      ensures rc != 0 ==> Extends(vol.geo, old(S()), S(), node.ino, [])
      ensures rc == 0 && Place(old(S()), node.ino, [k]) == 0 ==>
                Fresh(vol.geo, old(vol.disk), vol.disk, node.blocks[k], zero)
      ensures vol.cache.reliable && Place(old(S()), node.ino, [k]) != 0 ==> rc == 0
      ensures rc != -EIO && Counted(vol.geo, old(vol.disk)) ==> Counted(vol.geo, vol.disk)
      ensures rc == -ENOSPC && Counted(vol.geo, vol.disk) ==> Full(vol.geo, vol.disk)
    {
      hide Follow, Presents, Represents, Tree, Sized, Shape, Guarded, GeoOk, Used, PathOk, Counted, Extends, Allocated,
           Place, Zeros, Height;
      OkParts(vol.geo, vol.meta, S(), node.ino);
      ExtendsSame(vol.geo, S(), node.ino, [k]);
      ExtendsSame(vol.geo, S(), node.ino, []);
      RootPath(vol.geo, k);
      PlaceRoot(S(), node.ino, k);
      if node.blocks[k] != 0 { return 0; }
      ghost var s := S();
      RootVacant(vol.geo, s, node.ino, k);
      var b;
      rc, b := vol.AllocBlock(zero);
      if rc != 0 {
        if rc == -EIO { LeakExtends(vol.geo, vol.meta, s, vol.disk, node.ino, []); }
        ExtendsOn(vol.geo, s, S(), node.ino, [], [k]);
        return;
      }
      assert b < 0x1_0000_0000 by { BlockFits(vol.geo, s.disk, b); }
      AddExtends(vol.geo, vol.meta, s, node.ino, [k], 0, b, zero);
      ZeroedOnAlloc(vol.geo, vol.meta, s, b, zero);
      node.blocks := node.blocks[k := b];
      roots := roots[node.ino := node.blocks];
      own := own[b := Owner(node.ino, [k])];
      AfterRoot(vol.geo, s, node.ino, k, b, zero);
    }

    /** Fills one entry of a pointer block, if it is empty. */
    method EnsureEntry(ghost ino: nat, ghost path: seq<nat>, p: nat, j: nat, zero: bool) returns (rc: int, b: nat)
      requires Valid() && ino in roots && PathOk(vol.geo, path + [j]) && |path| >= 1
      requires p == Place(S(), ino, path) != 0 && (Below(path + [j]) > 0 ==> zero)
      modifies `roots, `own, vol, vol.cache
      ensures Valid() && roots == old(roots) && Extends(vol.geo, old(S()), S(), ino, path + [j])
      ensures rc in {0, -ENOSPC, -EIO} && (vol.cache.reliable ==> rc != -EIO)
      ensures rc == 0 ==> b != 0 && Place(S(), ino, path + [j]) == b
      ensures rc != 0 ==> Extends(vol.geo, old(S()), S(), ino, [])
      ensures rc == 0 && Place(old(S()), ino, path + [j]) == 0 ==> Fresh(vol.geo, old(vol.disk), vol.disk, b, zero)
      ensures vol.cache.reliable && Place(old(S()), ino, path + [j]) != 0 ==> rc == 0
      ensures rc != -EIO && Counted(vol.geo, old(vol.disk)) ==> Counted(vol.geo, vol.disk)
      ensures rc == -ENOSPC && Counted(vol.geo, vol.disk) ==> Full(vol.geo, vol.disk)
    {
      hide Follow, Presents, Represents, Tree, Sized, Shape, Guarded, GeoOk, Used, PathOk, Counted, Extends, Allocated,
           Place, Zeros, U32, PutU32, Below, Height;
      OkParts(vol.geo, vol.meta, S(), ino);
      ghost var s := S();
      ghost var to := path + [j];
      ExtendsSame(vol.geo, s, ino, to);
      ExtendsSame(vol.geo, s, ino, []);
      ParentPath(vol.geo, path, j);
      PlaceStep(s, ino, path, j);
      PlaceIn(vol.geo, vol.meta, s, ino, path);
      b := 0;
      var ok, data := vol.ReadBlock(p);
      if !ok { return -EIO, b; }
      b := U32(data, 4 * j);
      if b != 0 { return 0, b; }
      rc, b := vol.AllocBlock(zero);
      if rc != 0 {
        if rc == -EIO { LeakExtends(vol.geo, vol.meta, s, vol.disk, ino, []); }
        ExtendsOn(vol.geo, s, S(), ino, [], to);
        return;
      }
      BlockFits(vol.geo, s.disk, b);
      EntryVacant(vol.geo, s, ino, path, j);
      AddExtends(vol.geo, vol.meta, s, ino, to, p, b, zero);
      AllocLeakExtends(vol.geo, vol.meta, s, b, zero, ino, []);
      AddedIs(vol.geo, vol.meta, s, ino, path, j, b, zero);
      ok := vol.WriteBlock(p, PutU32(data, 4 * j, b));
      if !ok {
        ExtendsOn(vol.geo, s, S(), ino, [], to);
        return -EIO, b;
      }
      own := own[b := Owner(ino, to)];
    }

    /** `file_block_for_write`: afterwards the file block has a disk block, or an error says why not;
        either way no other file block of any file has moved. */
    method FileBlockForWrite(node: Inode, i: nat, zero: bool) returns (rc: int, b: nat)
      requires Valid() && Holds(node)
      modifies `roots, `own, vol, vol.cache, node
      ensures Valid() && Holds(node) && node.size == old(node.size) && Fan(vol.geo) > 0
      ensures Extends(vol.geo, old(S()), S(), node.ino, Locate(Fan(vol.geo), i))
      ensures rc in {0, -ENOSPC, -EIO, -EFBIG} && (vol.cache.reliable ==> rc != -EIO)
      ensures rc != 0 ==> Map(vol.geo, S(), node.ino, i) == Map(vol.geo, old(S()), node.ino, i)
      ensures rc == -EFBIG <==> Locate(Fan(vol.geo), i) == []
      ensures rc == 0 ==> b != 0 && Answers(vol.geo, node.blocks, i) && Map(vol.geo, S(), node.ino, i) == b
      ensures rc == 0 && Map(vol.geo, old(S()), node.ino, i) == 0 ==> Fresh(vol.geo, old(vol.disk), vol.disk, b, zero)
      ensures vol.cache.reliable && Map(vol.geo, old(S()), node.ino, i) != 0 ==> rc == 0
      ensures rc != -EIO && Counted(vol.geo, old(vol.disk)) ==> Counted(vol.geo, vol.disk)
      ensures rc == -ENOSPC && Counted(vol.geo, vol.disk) ==> Full(vol.geo, vol.disk)
    {
      hide Follow, Presents, Represents, Tree, Fan, Sized, Shape, Guarded, GeoOk, Span, Div, Mod, Height, Extends,
           Counted, Used, PathOk, Place, Zeros, Full, Below, Ok;
      ghost var s := S();
      OkParts(vol.geo, vol.meta, s, node.ino);
      var fan := Fan(vol.geo);
      ghost var path := Locate(fan, i);
      if path != [] {
        LocateIndex(vol.geo, i);
      } else {
        ExtendsSame(vol.geo, s, node.ino, path);
        PlaceOfNothing(s, node.ino);
      }
      if i < 12 {
        rc := EnsureRoot(node, i, zero);
        if rc != 0 { Elsewhere(vol.geo, s, S(), node.ino, [], path); }
        return rc, if rc == 0 then node.blocks[i] else 0;
      }
      b := 0;
      if i - 12 < fan {
        assert path == [12] + [i - 12];
        rc := EnsureRoot(node, 12, true);
        RootMapped(s, node.ino, path);
        Elsewhere(vol.geo, s, S(), node.ino, [12], path);
        ExtendsOn(vol.geo, s, S(), node.ino, [12], path);
        if rc != 0 { return; }
        rc, b := NextLevel(node, s, [12], node.blocks[12], i - 12, path, zero);
        return;
      }
      var r := i - 12 - fan;
      if r < Span(fan, 2) {
        assert path == [13] + [Div(r, fan)] + [Mod(r, fan)];
        rc := EnsureRoot(node, 13, true);
        RootMapped(s, node.ino, path);
        Elsewhere(vol.geo, s, S(), node.ino, [13], path);
        ExtendsOn(vol.geo, s, S(), node.ino, [13], path);
        if rc != 0 { return; }
        rc, b := NextLevel(node, s, [13], node.blocks[13], Div(r, fan), path, true);
        if rc != 0 { return; }
        rc, b := NextLevel(node, s, [13] + [Div(r, fan)], b, Mod(r, fan), path, zero);
        return;
      }
      var t := r - Span(fan, 2);
      if t >= Span(fan, 3) { return -EFBIG, b; }
      rc, b := TripleForWrite(node, i, t, path, zero);
    }

    /** The triple tree's part of `file_block_for_write`. */
    method TripleForWrite(node: Inode, ghost i: nat, t: nat, ghost path: seq<nat>, zero: bool) returns (rc: int, b: nat)
      requires Valid() && Holds(node) && Fan(vol.geo) > 0 && path == Locate(Fan(vol.geo), i) &&
               t < Span(Fan(vol.geo), 3)
      requires i == 12 + Fan(vol.geo) + Span(Fan(vol.geo), 2) + t
      modifies `roots, `own, vol, vol.cache, node
      ensures Valid() && Holds(node) && node.size == old(node.size)
      ensures Extends(vol.geo, old(S()), S(), node.ino, path)
      ensures rc in {0, -ENOSPC, -EIO} && (vol.cache.reliable ==> rc != -EIO)
      ensures rc != 0 ==> Place(S(), node.ino, path) == Place(old(S()), node.ino, path)
      ensures rc == 0 ==> b != 0 && |node.blocks| == 15 && node.blocks[14] != 0 && Place(S(), node.ino, path) == b
      ensures rc == 0 && Place(old(S()), node.ino, path) == 0 ==> Fresh(vol.geo, old(vol.disk), vol.disk, b, zero)
      ensures vol.cache.reliable && Place(old(S()), node.ino, path) != 0 ==> rc == 0
      ensures rc != -EIO && Counted(vol.geo, old(vol.disk)) ==> Counted(vol.geo, vol.disk)
      ensures rc == -ENOSPC && Counted(vol.geo, vol.disk) ==> Full(vol.geo, vol.disk)
    {
      hide Follow, Presents, Represents, Tree, Fan, Sized, Shape, Guarded, GeoOk, Span, Div, Mod, Height, Extends,
           Counted, Used, PathOk, Place, Zeros, Full, Below, Ok;
      ghost var s := S();
      LocateIndex(vol.geo, i);
      var fan := Fan(vol.geo);
      b := 0;
      var rem := Mod(t, Span(fan, 2));
      assert path == [14] + [Div(t, Span(fan, 2))] + [Div(rem, fan)] + [Mod(rem, fan)];
      rc := EnsureRoot(node, 14, true);
      RootMapped(s, node.ino, path);
      Elsewhere(vol.geo, s, S(), node.ino, [14], path);
      ExtendsOn(vol.geo, s, S(), node.ino, [14], path);
      if rc != 0 { return; }
      rc, b := NextLevel(node, s, [14], node.blocks[14], Div(t, Span(fan, 2)), path, true);
      if rc != 0 { return; }
      rc, b := NextLevel(node, s, [14] + [Div(t, Span(fan, 2))], b, Div(rem, fan), path, true);
      if rc != 0 { return; }
      rc, b := NextLevel(node, s, [14] + [Div(t, Span(fan, 2))] + [Div(rem, fan)], b, Mod(rem, fan), path, zero);
    }

    /** One more level on the way to `path`, counted from the state `s` the walk began in. */
    method NextLevel(node: Inode, ghost s: State, ghost at: seq<nat>, p: nat, j: nat, ghost path: seq<nat>,
        zero: bool) returns (rc: int, b: nat)
      requires Valid() && Holds(node) && PathOk(vol.geo, path) && Below(path) == 0
      requires |at| >= 1 && at + [j] <= path && (|at| + 1 < |path| ==> zero)
      requires p == Place(S(), node.ino, at) != 0 && Extends(vol.geo, s, S(), node.ino, path)
      modifies `roots, `own, vol, vol.cache
      ensures Valid() && roots == old(roots) && Extends(vol.geo, s, S(), node.ino, path)
      ensures rc in {0, -ENOSPC, -EIO} && (vol.cache.reliable ==> rc != -EIO)
      ensures rc == 0 ==> b != 0 && Place(S(), node.ino, at + [j]) == b
      ensures at + [j] != path || rc != 0 ==> Place(S(), node.ino, path) == Place(old(S()), node.ino, path)
      ensures rc == 0 && at + [j] == path && Place(old(S()), node.ino, path) == 0 ==>
                Fresh(vol.geo, s.disk, vol.disk, b, zero)
      ensures vol.cache.reliable && Place(s, node.ino, path) != 0 ==> rc == 0
      ensures rc != -EIO && Counted(vol.geo, old(vol.disk)) ==> Counted(vol.geo, vol.disk)
      ensures rc == -ENOSPC && Counted(vol.geo, vol.disk) ==> Full(vol.geo, vol.disk)
    {
      hide Follow, Presents, Represents, Tree, Fan, Sized, Shape, Guarded, GeoOk, Span, Div, Mod, Height, Extends,
           Counted, Used, PathOk, Place, Zeros, Full, Below, Ok;
      OnTheWay(vol.geo, at + [j], path);
      ghost var t := S();
      if Place(s, node.ino, path) != 0 { WayMapped(vol.geo, s, t, node.ino, at + [j], path); }
      rc, b := EnsureEntry(node.ino, at, p, j, zero);
      if rc == 0 && at + [j] == path && Place(t, node.ino, path) == 0 {
        AddedWasFree(vol.geo, vol.meta, t, S(), node.ino, path);
        FreshSince(vol.geo, s, t, node.ino, path, vol.disk, b, zero);
      }
      if rc != 0 {
        Elsewhere(vol.geo, t, S(), node.ino, [], path);
      } else if at + [j] != path {
        Elsewhere(vol.geo, t, S(), node.ino, at + [j], path);
      }
      ExtendsOn(vol.geo, t, S(), node.ino, at + [j], path);
      ExtendsTrans(vol.geo, vol.meta, s, t, S(), node.ino, path);
    }

    /** The part of `ext2_write_file` that goes through the cache: one block, or a piece of one. */
    method WriteChunk(node: Inode, ghost s: State, off: nat, src: seq<byte>, done: nat) returns (rc: int, next: nat)
      requires Valid() && Holds(node) && done < |src| && Wrote(vol.geo, s, S(), node.ino, off, src, done)
      requires Partly(vol.geo, s, S(), node.ino, off, src, done)
      requires vol.cache.reliable ==> Clear(vol.geo, s, S(), node.ino, off, src, done)
      modifies `roots, `own, vol, vol.cache, node
      ensures Valid() && Holds(node) && node.size == old(node.size)
      ensures Wrote(vol.geo, s, S(), node.ino, off, src, next) && Partly(vol.geo, s, S(), node.ino, off, src, next)
      ensures vol.cache.reliable ==> Clear(vol.geo, s, S(), node.ino, off, src, next)
      ensures if rc == 0 then done < next <= |src| else next == done
      ensures rc in {0, -ENOSPC, -EIO, -EFBIG} && (vol.cache.reliable ==> rc != -EIO)
      ensures rc == -EFBIG ==> TooFar(vol.geo, off + done)
      ensures vol.cache.reliable && Counted(vol.geo, old(vol.disk)) ==> Counted(vol.geo, vol.disk)
      ensures rc == -ENOSPC && Counted(vol.geo, vol.disk) ==> Full(vol.geo, vol.disk)
    {
      hide Follow, Presents, Represents, Tree, Fan, Shape, Guarded, Extends, Counted, Place, Zeros, Full, Wrote,
           Locate, Map, Ix, Off, Splice, Ok, Sized, Answers, Partly, Clear, Rewrote, FilledWithZeros;
      next := done;
      var geo := vol.geo;
      var o := off + done;
      var i, within := Ix(geo, o), Off(geo, o);
      WithinBlock(geo, o);
      var chunk := if geo.bs - within > |src| - done then |src| - done else geo.bs - within;
      ghost var t := S();
      var b;
      rc, b := FileBlockForWrite(node, i, true);
      AddedFills(geo, t, S(), node.ino, i, rc, b);
      WroteAdd(geo, vol.meta, s, t, S(), node.ino, i, off, src, done);
      PartlyAdd(geo, vol.meta, s, t, S(), node.ino, i, off, src, done, true);
      if vol.cache.reliable { ClearAdd(geo, vol.meta, s, t, S(), node.ino, i, off, src, done); }
      if rc != 0 { return; }
      WroteChunk(geo, vol.meta, s, S(), node.ino, off, src, done, chunk);
      MapOk(geo, vol.meta, S(), node.ino, i);
      t := S();
      var ok, data := vol.ReadBlock(b);
      if !ok { return -EIO, next; }
      ok := vol.WriteBlock(b, Splice(data, within, src[done..done + chunk]));
      if !ok { return -EIO, next; }
      next := done + chunk;
      PartlyStore(geo, s, t, S(), node.ino, off, src, done, next);
      if vol.cache.reliable { ClearChunk(geo, s, t, S(), node.ino, off, src, done, next); }
    }

    /** The part of `ext2_write_file` that goes past the cache: as many whole blocks as turn out to lie
        side by side on the disk. Blocks it adds on the way are not zeroed first. */
    method WriteWhole(node: Inode, ghost s: State, off: nat, src: seq<byte>, done: nat, ghost clear: nat)
        returns (rc: int, next: nat, ghost ahead: nat)
      requires Valid() && Holds(node) && Wrote(vol.geo, s, S(), node.ino, off, src, done)
      requires Off(vol.geo, off + done) == 0 && done + vol.geo.bs <= |src|
      requires Partly(vol.geo, s, S(), node.ino, off, src, done)
      requires vol.cache.reliable ==> Ahead(vol.geo, s, S(), node.ino, off, src, done, clear)
      modifies `roots, `own, vol, vol.cache, node
      ensures Valid() && Holds(node) && node.size == old(node.size)
      ensures Wrote(vol.geo, s, S(), node.ino, off, src, next) && Partly(vol.geo, s, S(), node.ino, off, src, next)
      ensures vol.cache.reliable ==> Ahead(vol.geo, s, S(), node.ino, off, src, next, ahead)
      ensures vol.cache.reliable && rc != 0 ==> Clear(vol.geo, s, S(), node.ino, off, src, next)
      ensures if rc == 0 then done < next <= |src| else next == done
      ensures rc in {0, -ENOSPC, -EIO, -EFBIG} && (vol.cache.reliable ==> rc != -EIO)
      ensures rc == -EFBIG ==> TooFar(vol.geo, off + done)
      ensures vol.cache.reliable && Counted(vol.geo, old(vol.disk)) ==> Counted(vol.geo, vol.disk)
      ensures rc == -ENOSPC && Counted(vol.geo, vol.disk) ==> Full(vol.geo, vol.disk)
    {
      hide Follow, Presents, Represents, Tree, Fan, Shape, Guarded, Extends, Counted, Place, Zeros, Full, Wrote,
           Locate, Map, Ix, Off, Cut, Ok, Sized, Answers, GeoOk, Consecutive, Unwritten, FilledWithZeros, PutRun,
           Partly, Ahead, Clear, Rewrote, Fresh;
      next, ahead := done, done;
      var geo := vol.geo;
      var o := off + done;
      var i := Ix(geo, o);
      var max := MaxRun(geo, |src| - done);
      ghost var t := S();
      var first;
      rc, first := FileBlockForWrite(node, i, false);
      StillPending(geo, off, src, done, max, 0);
      WroteAdd(geo, vol.meta, s, t, S(), node.ino, i, off, src, done);
      PartlyAdd(geo, vol.meta, s, t, S(), node.ino, i, off, src, done, false);
      if vol.cache.reliable { AheadFirst(geo, vol.meta, s, t, S(), node.ino, off, src, done, clear, rc); }
      AheadIs(geo, s, S(), node.ino, off, src, done);
      if rc != 0 { return; }
      RunOfOne(geo, S(), node.ino, i, first);
      var n := 1;
      ghost var given := false;
      ahead := done + geo.bs;
      while n < max
        invariant 1 <= n <= max && Valid() && Holds(node) && node.size == old(node.size)
        invariant Wrote(geo, s, S(), node.ino, off, src, done) && Consecutive(geo, S(), node.ino, i, first, n)
        invariant Partly(geo, s, S(), node.ino, off, src, done) && ahead == done + n * geo.bs && !given
        invariant vol.cache.reliable ==> Clear(geo, s, S(), node.ino, off, src, ahead)
        invariant vol.cache.reliable && Counted(geo, old(vol.disk)) ==> Counted(geo, vol.disk)
      {
        t := S();
        var more, b := FileBlockForWrite(node, i + n, false);
        StillPending(geo, off, src, done, max, n);
        WroteAdd(geo, vol.meta, s, t, S(), node.ino, i + n, off, src, done);
        PartlyAdd(geo, vol.meta, s, t, S(), node.ino, i + n, off, src, done, false);
        if vol.cache.reliable { AheadNext(geo, vol.meta, s, t, S(), node.ino, off, src, done, n, more); }
        given := more == 0 && b != first + n;
        if more == 0 { ahead := done + (n + 1) * geo.bs; RunFits(geo, |src| - done, max, n + 1); }
        RunGrows(geo, vol.meta, t, S(), node.ino, i, first, n, b, more == 0 && b == first + n);
        if more != 0 || b != first + n { break; }
        n := n + 1;
      }
      RunFits(geo, |src| - done, max, n);
      RunInside(geo, vol.meta, S(), node.ino, i, first, n);
      WroteRun(geo, vol.meta, s, S(), node.ino, off, src, done, first, n);
      t := S();
      var ok := vol.WriteRun(first, Cut(src, done, geo.bs, n));
      if !ok { return -EIO, next, ahead; }
      next := done + n * geo.bs;
      PartlyStore(geo, s, t, S(), node.ino, off, src, done, next);
      if vol.cache.reliable { AheadAfter(geo, s, t, S(), node.ino, off, src, done, n, ahead, given); }
    }

    /** `ext2_write_file`: on success the bytes are in the file and on blocks of its own; in any case no
        byte outside the range, of this file or another, has changed. */
    method WriteFile(node: Inode, off: nat, src: seq<byte>) returns (rc: int, ghost done: nat)
      requires Valid() && Holds(node)
      modifies this, vol, vol.cache, node
      ensures Valid() && Holds(node)
      ensures rc >= 0 ==> rc == |src| && Wrote(vol.geo, old(S()), S(), node.ino, off, src, |src|)
      ensures rc >= 0 ==>
                node.ino in table && table[node.ino].size == node.size && table[node.ino].blocks == node.blocks
      ensures table == if rc >= 0 then old(table)[node.ino := table[node.ino]] else old(table)
      ensures rc >= 0 ==> node.size == if off + |src| > old(node.size) then off + |src| else old(node.size)
      ensures rc < 0 ==> rc in {-ENOSPC, -EIO, -EFBIG} && Wrote(vol.geo, old(S()), S(), node.ino, off, src, 0)
      ensures Grew(old(roots), roots, node.ino) && Ok(vol.geo, vol.meta, Pruned(S(), old(roots)))
      ensures rc < 0 ==> Wrote(vol.geo, old(S()), Pruned(S(), old(roots)), node.ino, off, src, 0)
      ensures rc < 0 ==>
                FailedWrite(vol.geo, old(S()), Pruned(S(), old(roots)), node.ino, off, src, done, vol.cache.reliable)
      ensures old(Synced()) && rc >= 0 ==> Synced()
      ensures rc == -EFBIG ==> off + |src| > 0xffff_ffff || exists x: nat ::
                off <= x < off + |src| && TooFar(vol.geo, x)
      ensures vol.cache.reliable ==> rc != -EIO
      ensures vol.cache.reliable && Counted(vol.geo, old(vol.disk)) ==> Counted(vol.geo, vol.disk)
      ensures rc == -ENOSPC && Counted(vol.geo, vol.disk) ==> Full(vol.geo, vol.disk)
    {
      hide Partly, Ahead, Clear, Grew, Pruned, FailedWrite, Follow, Presents, Represents, Tree, Fan, Shape, Guarded,
           Extends, Counted, Place, Zeros, Full, Wrote, Locate, Map, Ix, Off, Ok, Sized, GeoOk;
      ghost var s := S();
      done := 0;
      WroteNothing(vol.geo, s, node.ino, off, src);
      NothingBuilt(vol.geo, s, node.ino, off, src);
      AheadIs(vol.geo, s, s, node.ino, off, src, 0);
      WriteEnds(vol.geo, vol.meta, s, s, node.ino, off, src, 0, vol.cache.reliable);
      if off + |src| > 0xffff_ffff { return -EFBIG, 0; }
      var at := 0;
      ghost var clear: nat := 0;
      while at < |src|
        invariant Valid() && Holds(node) && node.size == old(node.size) && at <= |src| && table == old(table)
        invariant Wrote(vol.geo, s, S(), node.ino, off, src, at) && Partly(vol.geo, s, S(), node.ino, off, src, at)
        invariant vol.cache.reliable ==> Ahead(vol.geo, s, S(), node.ino, off, src, at, clear)
        invariant vol.cache.reliable && Counted(vol.geo, old(vol.disk)) ==> Counted(vol.geo, vol.disk)
      {
        if Off(vol.geo, off + at) == 0 && |src| - at >= vol.geo.bs {
          rc, at, clear := WriteWhole(node, s, off, src, at, clear);
        } else {
          AheadHere(vol.geo, s, S(), node.ino, off, src, at, clear);
          rc, at := WriteChunk(node, s, off, src, at);
          clear := at;
          AheadIs(vol.geo, s, S(), node.ino, off, src, at);
        }
        if rc != 0 {
          done := at;
          WroteSome(vol.geo, s, S(), node.ino, off, src, at);
          WriteEnds(vol.geo, vol.meta, s, S(), node.ino, off, src, at, vol.cache.reliable);
          return;
        }
      }
      if off + at > node.size { node.size := off + at; }
      done := at;
      WroteSome(vol.geo, s, S(), node.ino, off, src, at);
      NothingAhead(vol.geo, s, S(), node.ino, off, src);
      WriteEnds(vol.geo, vol.meta, s, S(), node.ino, off, src, at, vol.cache.reliable);
      GrewOthers(s.roots, roots, node.ino);
      var ok := WriteInode(node);
      if !ok { return -EIO, done; }
      return at, done;
    }

    /** `ext2_read_file`: the bytes of the file, up to its size, whichever way each block is fetched. */
    method ReadFile(node: Inode, off: nat, len: nat) returns (ok: bool, bytes: seq<byte>)
      requires Valid() && Holds(node)
      modifies vol.cache
      ensures Valid() && vol.cache.view == old(vol.cache.view)
      ensures ok ==> bytes == Contents(vol.geo, S(), node.ino, off, Readable(node.size, off, len))
      ensures ok ==> AllAnswer(vol.geo, node.blocks, off, Readable(node.size, off, len))
      ensures vol.cache.reliable && AllAnswer(vol.geo, node.blocks, off, Readable(node.size, off, len)) ==> ok
    {
      hide Follow, Presents, Represents, Tree, Fan, Shape, Guarded, Place, Zeros, Locate, Map, Ix, Off, Ok, Sized,
           Answers, AllAnswer, Contents, Copied;
      ContentsNone(vol.geo, S(), node.ino, off);
      AnswerNone(vol.geo, node.blocks, off);
      bytes := [];
      if off >= node.size { return true, []; }
      var want := Readable(node.size, off, len);
      var geo := vol.geo;
      while |bytes| < want
        invariant Valid() && vol.cache.view == old(vol.cache.view)
        invariant |bytes| <= want && bytes == Contents(geo, S(), node.ino, off, |bytes|)
        invariant AllAnswer(geo, node.blocks, off, |bytes|)
        decreases want - |bytes|
      {
        var o := off + |bytes|;
        var i, within := Ix(geo, o), Off(geo, o);
        WithinBlock(geo, o);
        var chunk := if geo.bs - within > want - |bytes| then want - |bytes| else geo.bs - within;
        var b;
        ok, b := FileBlock(node, i);
        if !ok { AnswerHere(geo, node.blocks, off, want, o); return; }
        var got: seq<byte>;
        var direct := false;
        got := [];
        if within == 0 && chunk == geo.bs && b != 0 {
          direct, got := ReadWhole(node, o, b, want - |bytes|);
        }
        if !direct {
          ok, got := ReadChunk(node, o, b, chunk);
          if !ok { return; }
          AnswerChunk(geo, node.blocks, o, chunk);
        }
        AnswerJoin(geo, node.blocks, off, |bytes|, |got|);
        ContentsJoin(geo, S(), node.ino, off, |bytes|, |got|);
        bytes := bytes + got;
      }
      ok := true;
    }

    method ReadChunk(node: Inode, o: nat, b: nat, chunk: nat) returns (ok: bool, got: seq<byte>)
      requires Valid() && Off(vol.geo, o) + chunk <= vol.geo.bs && b == Map(vol.geo, S(), node.ino, Ix(vol.geo, o))
      modifies vol.cache
      ensures Valid() && vol.cache.view == old(vol.cache.view)
      ensures ok ==> got == Contents(vol.geo, S(), node.ino, o, chunk) && |got| == chunk
      ensures vol.cache.reliable ==> ok
    {
      hide Follow, Presents, Represents, Tree, Fan, Shape, Guarded, Place, Zeros, Locate, Map, Ix, Off, Ok, Contents;
      MapOk(vol.geo, vol.meta, S(), node.ino, Ix(vol.geo, o));
      ChunkContents(vol.geo, S(), node.ino, o, chunk);
      if b == 0 { return true, Zeros(chunk); }
      var data;
      got := [];
      ok, data := vol.ReadBlock(b);
      if ok { got := data[Off(vol.geo, o)..Off(vol.geo, o) + chunk]; }
    }

    /** The device read of several blocks at once, where they lie side by side and none is dirty. */
    method ReadWhole(node: Inode, o: nat, b: nat, left: nat) returns (taken: bool, got: seq<byte>)
      requires Valid() && Holds(node) && Off(vol.geo, o) == 0 && b == Map(vol.geo, S(), node.ino, Ix(vol.geo, o)) != 0
      requires vol.geo.bs <= left
      modifies vol.cache
      ensures Valid() && vol.cache.view == old(vol.cache.view)
      ensures taken ==> 0 < |got| <= left && got == Contents(vol.geo, S(), node.ino, o, |got|)
      ensures taken ==> AllAnswer(vol.geo, node.blocks, o, |got|)
    {
      hide Follow, Presents, Represents, Tree, Fan, Shape, Guarded, Place, Zeros, Locate, Map, Ix, Off, Ok, Contents,
           Consecutive, Sized, Answers, AllAnswer, Join, GeoOk;
      var geo, i := vol.geo, Ix(vol.geo, o);
      got, taken := [], false;
      RunOfOne(geo, S(), node.ino, i, b);
      BlockSizePositive(geo);
      var n, bytes := 1, geo.bs;
      while bytes + geo.bs <= left && bytes + geo.bs <= DIRECT_MAX
        invariant n >= 1 && bytes == n * geo.bs && 0 < bytes <= left && Valid() && vol.cache.view == old(vol.cache.view)
        invariant Consecutive(geo, S(), node.ino, i, b, n)
        decreases left - bytes
      {
        var ok, next := FileBlock(node, i + n);
        if !ok || next != b + n { break; }
        RunGrowsHere(geo, S(), node.ino, i, b, n);
        n, bytes := n + 1, bytes + geo.bs;
      }
      if n == 1 { return; }
      RunInside(geo, vol.meta, S(), node.ino, i, b, n);
      var ok, blocks := vol.ReadRun(b, n);
      if !ok { return; }
      RunContents(geo, vol.meta, S(), node.ino, o, b, blocks);
      AnswerRun(geo, vol.meta, S(), node.ino, o, b, n);
      return true, Join(blocks);
    }

    /** `count_indirect_tree_blocks`: the blocks at and below a place. */
    method CountTree(ghost ino: nat, ghost path: seq<nat>, p: nat, depth: nat) returns (count: nat)
      requires Valid() && PathOk(vol.geo, path) && p == Place(S(), ino, path) && depth == Below(path)
      modifies vol.cache
      ensures Valid() && vol.cache.view == old(vol.cache.view)
      ensures vol.cache.reliable ==> count == |Sub(own, ino, path)|
      decreases depth
    {
      hide Follow, Presents, Represents, Tree, Shape, Guarded, PathOk, Place, Sized, GeoOk, Sub, SubBelow, U32, Below,
           Fan, Ok;
      if p == 0 {
        PathNonempty(vol.geo, path);
        HoleIsEmpty(vol.geo, vol.meta, S(), ino, path);
        return 0;
      }
      SubIs(vol.geo, vol.meta, S(), ino, path);
      PlaceIn(vol.geo, vol.meta, S(), ino, path);
      count := 1;
      if depth == 0 {
        DataIsAlone(vol.geo, vol.meta, S(), ino, path);
        return;
      }
      var ok, data := vol.ReadBlock(p);
      if !ok { return; }
      var i := 0;
      SubBelowNext(own, ino, path, 0);
      while i < Fan(vol.geo)
        invariant i <= Fan(vol.geo) && Valid() && vol.cache.view == old(vol.cache.view)
        invariant vol.cache.reliable ==> count == 1 + |SubBelow(own, ino, path, i)|
      {
        PathNonempty(vol.geo, path);
        ChildPath(vol.geo, path, i);
        PlaceStep(S(), ino, path, i);
        SubBelowNext(own, ino, path, i);
        var child := U32(data, 4 * i);
        if child == 0 {
          HoleIsEmpty(vol.geo, vol.meta, S(), ino, path + [i]);
        } else if depth == 1 {
          DataIsAlone(vol.geo, vol.meta, S(), ino, path + [i]);
          count := count + 1;
        } else {
          var below := CountTree(ino, path + [i], child, depth - 1);
          count := count + below;
        }
        i := i + 1;
      }
    }

    /** `count_allocated_blocks` */
    method CountBlocks(node: Inode) returns (count: nat)
      requires Valid() && Holds(node)
      modifies vol.cache
      ensures Valid() && vol.cache.view == old(vol.cache.view)
      ensures vol.cache.reliable ==> count == |FileBlocks(own, node.ino)|
    {
      hide Follow, Presents, Represents, Tree, Shape, Guarded, PathOk, Place, Sized, GeoOk, Sub, SubRoots, FileBlocks,
           Fan, Ok, Height;
      OkParts(vol.geo, vol.meta, S(), node.ino);
      count := 0;
      var k := 0;
      SubRootsNext(vol.geo, vol.meta, S(), node.ino, 0);
      while k < 12
        invariant k <= 12 && Valid() && vol.cache.view == old(vol.cache.view)
        invariant count == |SubRoots(own, node.ino, k)|
      {
        RootPath(vol.geo, k);
        RootHeight(k);
        PlaceRoot(S(), node.ino, k);
        SubRootsNext(vol.geo, vol.meta, S(), node.ino, k);
        if node.blocks[k] != 0 {
          DataIsAlone(vol.geo, vol.meta, S(), node.ino, [k]);
          count := count + 1;
        } else {
          HoleIsEmpty(vol.geo, vol.meta, S(), node.ino, [k]);
        }
        k := k + 1;
      }
      while k < 15
        invariant 12 <= k <= 15 && Valid() && vol.cache.view == old(vol.cache.view)
        invariant vol.cache.reliable ==> count == |SubRoots(own, node.ino, k)|
      {
        RootPath(vol.geo, k);
        RootHeight(k);
        PlaceRoot(S(), node.ino, k);
        SubRootsNext(vol.geo, vol.meta, S(), node.ino, k);
        var more := CountTree(node.ino, [k], node.blocks[k], k - 11);
        count := count + more;
        k := k + 1;
      }
    }

    /** `write_inode`: the inode's size, blocks and sector count reach the table, or nothing does. */
    method WriteInode(node: Inode) returns (ok: bool)
      requires Valid() && Holds(node)
      modifies vol.cache, `table
      ensures Valid() && vol.cache.view == old(vol.cache.view)
      ensures !ok ==> table == old(table)
      ensures ok ==> node.ino in table && table == old(table)[node.ino := table[node.ino]]
      ensures ok ==> table[node.ino].size == node.size && table[node.ino].blocks == node.blocks
      ensures ok && vol.cache.reliable ==> table[node.ino].sectors == |FileBlocks(own, node.ino)| * (vol.geo.bs / 512)
      ensures vol.cache.reliable ==> ok
    {
      hide Follow, Presents, Represents, Tree, Sized, GeoOk, FileBlocks, Ok;
      var count := CountBlocks(node);
      ok := vol.cache.DeviceCall();
      if ok { table := table[node.ino := Record(node.size, node.blocks, count * (vol.geo.bs / 512))]; }
    }

    /** `free_indirect_tree`, against the state `s` in which freeing began. */
    method FreeTree(ghost s: State, ghost ino: nat, ghost path: seq<nat>, p: nat, depth: nat, ghost freed: set<nat>)
        returns (ghost now: set<nat>)
      requires vol.Valid() && Ok(vol.geo, vol.meta, s) && FreedFrom(vol.geo, vol.meta, s, vol.disk, freed)
      requires PathOk(vol.geo, path) && p == Place(s, ino, path) && depth == Below(path) &&
               Sub(s.own, ino, path) !! freed
      modifies vol, vol.cache
      ensures vol.Valid() && FreedFrom(vol.geo, vol.meta, s, vol.disk, now)
      ensures freed <= now <= freed + Sub(s.own, ino, path)
      ensures vol.cache.reliable ==> now == freed + Sub(s.own, ino, path)
      ensures vol.cache.reliable && Counted(vol.geo, old(vol.disk)) ==> Counted(vol.geo, vol.disk)
      decreases depth
    {
      hide Follow, Presents, Represents, Tree, Shape, Guarded, PathOk, Place, Sized, GeoOk, Sub, SubBelow, U32, Below,
           Fan, Ok, FreedFrom, Counted, Freed, Used;
      now := freed;
      if p == 0 {
        PathNonempty(vol.geo, path);
        HoleIsEmpty(vol.geo, vol.meta, s, ino, path);
        return;
      }
      SubIs(vol.geo, vol.meta, s, ino, path);
      PlaceIn(vol.geo, vol.meta, s, ino, path);
      if depth == 0 {
        DataIsAlone(vol.geo, vol.meta, s, ino, path);
      } else {
        FreedPlace(vol.geo, vol.meta, s, vol.disk, now, p);
        FreedShape(vol.geo, vol.meta, s, vol.disk, now);
        var ok, data := vol.ReadBlock(p);
        if ok { now := FreeEntries(s, ino, path, p, data, depth, freed); }
      }
      FreedOne(vol.geo, vol.meta, s, vol.disk, now, p, true);
      FreedOne(vol.geo, vol.meta, s, vol.disk, now, p, false);
      FreedShape(vol.geo, vol.meta, s, vol.disk, now);
      var done, counted := vol.FreeBlockAt(p);
      if done { now := now + {p}; }
    }

    /** The entry loop of `free_indirect_tree`. */
    method FreeEntries(ghost s: State, ghost ino: nat, ghost path: seq<nat>, ghost p: nat, data: Block, depth: nat,
        ghost freed: set<nat>) returns (ghost now: set<nat>)
      requires vol.Valid() && Ok(vol.geo, vol.meta, s) && FreedFrom(vol.geo, vol.meta, s, vol.disk, freed)
      requires PathOk(vol.geo, path) && p == Place(s, ino, path) != 0 && depth == Below(path) && depth > 0
      requires Sub(s.own, ino, path) !! freed && data == At(s.disk, p)
      modifies vol, vol.cache
      ensures vol.Valid() && FreedFrom(vol.geo, vol.meta, s, vol.disk, now)
      ensures freed <= now <= freed + SubBelow(s.own, ino, path, Fan(vol.geo))
      ensures vol.cache.reliable ==> now == freed + SubBelow(s.own, ino, path, Fan(vol.geo))
      ensures vol.cache.reliable && Counted(vol.geo, old(vol.disk)) ==> Counted(vol.geo, vol.disk)
      decreases depth, 0
    {
      hide Follow, Presents, Represents, Tree, Shape, Guarded, PathOk, Place, Sized, GeoOk, Sub, SubBelow, U32, Below,
           Fan, Ok, FreedFrom, Counted, Freed, Used;
      now := freed;
      var i := 0;
      SubBelowNext(s.own, ino, path, 0);
      PathNonempty(vol.geo, path);
      while i < Fan(vol.geo)
        invariant i <= Fan(vol.geo) && vol.Valid() && FreedFrom(vol.geo, vol.meta, s, vol.disk, now)
        invariant freed <= now <= freed + SubBelow(s.own, ino, path, i)
        invariant vol.cache.reliable ==> now == freed + SubBelow(s.own, ino, path, i)
        invariant vol.cache.reliable && Counted(vol.geo, old(vol.disk)) ==> Counted(vol.geo, vol.disk)
      {
        ChildPath(vol.geo, path, i);
        PlaceStep(s, ino, path, i);
        SubBelowNext(s.own, ino, path, i);
        SubWithin(s.own, ino, path, i);
        var child := U32(data, 4 * i);
        if child == 0 {
          HoleIsEmpty(vol.geo, vol.meta, s, ino, path + [i]);
        } else {
          now := FreeTree(s, ino, path + [i], child, depth - 1, now);
        }
        i := i + 1;
      }
    }

    /** The part of `ext2_truncate` that gives the blocks back, slot by slot. */
    method FreeFile(node: Inode) returns (ghost freed: set<nat>)
      requires Valid() && Holds(node)
      modifies vol, vol.cache, node`blocks
      ensures vol.Valid() && node.blocks == NoBlocks()
      ensures FreedFrom(vol.geo, vol.meta, old(S()), vol.disk, freed) && freed <= FileBlocks(own, node.ino)
      ensures vol.cache.reliable ==> freed == FileBlocks(own, node.ino)
      ensures vol.cache.reliable && Counted(vol.geo, old(vol.disk)) ==> Counted(vol.geo, vol.disk)
    {
      hide Follow, Presents, Represents, Tree, Shape, Guarded, PathOk, Place, Sized, GeoOk, Sub, Fan, Ok, FreedFrom,
           Counted, Used, SubRoots, Height;
      ghost var s := S();
      OkParts(vol.geo, vol.meta, s, node.ino);
      freed := {};
      FreedNone(vol.geo, vol.meta, s);
      SubRootsNext(vol.geo, vol.meta, s, node.ino, 0);
      var k := 0;
      while k < 15
        invariant k <= 15 && vol.Valid() && |node.blocks| == 15
        invariant FreedFrom(vol.geo, vol.meta, s, vol.disk, freed) && freed <= SubRoots(s.own, node.ino, k)
        invariant forall j :: k <= j < 15 ==> node.blocks[j] == s.roots[node.ino][j]
        invariant forall j :: 0 <= j < k ==> node.blocks[j] == 0
        invariant vol.cache.reliable ==> freed == SubRoots(s.own, node.ino, k)
        invariant vol.cache.reliable && Counted(vol.geo, old(vol.disk)) ==> Counted(vol.geo, vol.disk)
      {
        RootPath(vol.geo, k);
        RootHeight(k);
        PlaceRoot(s, node.ino, k);
        SubRootsNext(vol.geo, vol.meta, s, node.ino, k);
        freed := FreeTree(s, node.ino, [k], node.blocks[k], if k < 12 then 0 else k - 11, freed);
        node.blocks := node.blocks[k := 0];
        k := k + 1;
      }
      SubRootsNext(vol.geo, vol.meta, s, node.ino, 0);
      assert node.blocks == NoBlocks();
    }

    /** `ext2_truncate` to nothing: exactly the file's blocks go out of use, if no device call fails,
        and no other file's; to any other size: only the size changes. The blocks go first and the inode
        is stored last: if that fails, the inode as it is stored keeps the blocks that are gone. */
    method Truncate(node: Inode, size: nat) returns (ok: bool, ghost freed: set<nat>)
      requires Valid() && Holds(node)
      modifies this, vol, vol.cache, node
      ensures vol.Valid() && FreedFrom(vol.geo, vol.meta, old(S()), vol.disk, freed)
      ensures freed <= FileBlocks(old(own), node.ino) && (size != 0 ==> freed == {} && vol.disk == old(vol.disk))
      ensures vol.cache.reliable ==> ok && (size == 0 ==> freed == FileBlocks(old(own), node.ino))
      ensures node.size == size % 0x1_0000_0000 && node.blocks == if size == 0 then NoBlocks() else old(node.blocks)
      ensures ok ==> Valid() && Holds(node)
      ensures ok ==> S() == if size == 0 then Emptied(old(S()), vol.disk, node.ino) else old(S())
      ensures ok && size == 0 ==> OnlyZeroed(vol.geo, old(S()), S(), node.ino)
      ensures ok ==> node.ino in table && table == old(table)[node.ino := table[node.ino]]
      ensures ok ==> table[node.ino].size == node.size && table[node.ino].blocks == node.blocks
      ensures ok && old(Synced()) ==> Synced()
      ensures !ok ==> table == old(table) && S() == Stale(old(S()), vol.disk)
      ensures !ok ==> (Valid() <==> freed == {})
      ensures size == 0 ==> Ok(vol.geo, vol.meta, Emptied(old(S()), vol.disk, node.ino))
      ensures size == 0 ==> OnlyZeroed(vol.geo, old(S()), Emptied(old(S()), vol.disk, node.ino), node.ino)
      ensures forall x: nat :: x < vol.geo.count && x !in FileBlocks(old(own), node.ino) ==>
                Used(vol.geo, vol.disk, x) == Used(vol.geo, old(vol.disk), x)
      ensures size == 0 && vol.cache.reliable ==> forall x: nat :: x in FileBlocks(old(own), node.ino) ==>
                x < vol.geo.count && Used(vol.geo, old(vol.disk), x) && !Used(vol.geo, vol.disk, x)
      ensures vol.cache.reliable && Counted(vol.geo, old(vol.disk)) ==> Counted(vol.geo, vol.disk)
    {
      hide Follow, Presents, Represents, Tree, Shape, Guarded, PathOk, Place, Sized, GeoOk, Sub, Fan, Ok, FreedFrom,
           Counted, Used, SubRoots, Height, OnlyZeroed;
      ghost var s := S();
      freed := {};
      FreedNone(vol.geo, vol.meta, s);
      if size != 0 {
        node.size := size % 0x1_0000_0000;
        ok := WriteInode(node);
        return;
      }
      freed := FreeFile(node);
      EmptiedOk(vol.geo, vol.meta, s, vol.disk, freed, node.ino);
      EmptiedBytes(vol.geo, vol.meta, s, vol.disk, freed, node.ino);
      FreedUse(vol.geo, vol.meta, s, vol.disk, freed);
      StaleExactly(vol.geo, vol.meta, s, vol.disk, freed);
      node.size := 0;
      roots, own := roots[node.ino := NoBlocks()], own - FileBlocks(own, node.ino);
      ok := WriteInode(node);
      if !ok { roots, own := s.roots, s.own; }
    }
  }

  /** File `ino` reads as zeros everywhere, and no byte of another file changed. */
  ghost predicate OnlyZeroed(geo: Geo, s: State, t: State, ino: nat) {
    forall ino': nat, x: nat :: ByteAt(geo, t, ino', x) == if ino' == ino then 0 else ByteAt(geo, s, ino', x)
  }

  lemma EmptiedBytes(geo: Geo, meta: set<nat>, s: State, d: Blocks, freed: set<nat>, ino: nat)
    requires Ok(geo, meta, s) && FreedFrom(geo, meta, s, d, freed) && freed <= FileBlocks(s.own, ino)
    ensures OnlyZeroed(geo, s, Emptied(s, d, ino), ino)
  {
    hide Ok, FreedFrom, Locate, PathOk, Place, Ix, Off, Fan, Emptied;
    EmptiedOk(geo, meta, s, d, freed, ino);
    var t := Emptied(s, d, ino);
    forall ino': nat, x: nat
      ensures ByteAt(geo, t, ino', x) == if ino' == ino then 0 else ByteAt(geo, s, ino', x)
    {
      EmptiedByte(geo, meta, s, d, freed, ino, ino', x);
    }
  }

  lemma EmptiedByte(geo: Geo, meta: set<nat>, s: State, d: Blocks, freed: set<nat>, ino: nat, ino': nat, x: nat)
    requires Ok(geo, meta, s) && FreedFrom(geo, meta, s, d, freed)
    requires forall i: nat, path: seq<nat> :: PathOk(geo, path) ==>
             Place(Emptied(s, d, ino), i, path) == if i == ino then 0 else Place(s, i, path)
    ensures ByteAt(geo, Emptied(s, d, ino), ino', x) == if ino' == ino then 0 else ByteAt(geo, s, ino', x)
  {
    hide Ok, FreedFrom, Locate, PathOk, Place, Ix, Off, Fan;
    var i, t := Ix(geo, x), Emptied(s, d, ino);
    MapOk(geo, meta, s, ino', i);
    if Locate(Fan(geo), i) == [] {
      PlaceOfNothing(s, ino');
      PlaceOfNothing(t, ino');
    } else {
      LocateIndex(geo, i);
      if Map(geo, s, ino', i) != 0 {
        FreedPlace(geo, meta, s, d, freed, Map(geo, s, ino', i));
      }
    }
  }

  lemma ChildPath(geo: Geo, path: seq<nat>, i: nat)
    requires PathOk(geo, path) && Below(path) > 0 && i < Fan(geo)
    ensures PathOk(geo, path + [i]) && Below(path + [i]) == Below(path) - 1
  {
  }

  lemma RootHeight(k: nat)
    requires k < 15
    ensures Below([k]) == if k < 12 then 0 else k - 11
  {
  }

  lemma SubWithin(own: Owners, ino: nat, path: seq<nat>, i: nat)
    ensures Sub(own, ino, path + [i]) <= Sub(own, ino, path)
  {
  }

  lemma FreedShape(geo: Geo, meta: set<nat>, s: State, d: Blocks, freed: set<nat>)
    requires FreedFrom(geo, meta, s, d, freed)
    ensures Shape(geo, d, meta)
  {
  }

  lemma FreedUse(geo: Geo, meta: set<nat>, s: State, d: Blocks, freed: set<nat>)
    requires Ok(geo, meta, s) && FreedFrom(geo, meta, s, d, freed)
    ensures forall x: nat :: x < geo.count && x !in freed ==> Used(geo, d, x) == Used(geo, s.disk, x)
    ensures forall x: nat :: x in freed ==> x < geo.count && !Used(geo, d, x) && Used(geo, s.disk, x)
  {
    hide Shape, Guarded, PathOk, Follow, Used;
    forall x: nat | x in freed
      ensures x < geo.count && Used(geo, s.disk, x)
    {
      assert Placed(geo, s.disk, meta, s.roots, s.own, x);
    }
  }

  function Readable(size: nat, off: nat, len: nat): nat {
    if off >= size then 0 else if len > size - off then size - off else len
  }

  ghost predicate AllAnswer(geo: Geo, blocks: seq<nat>, off: nat, n: nat) {
    forall x: nat :: off <= x < off + n ==> Answers(geo, blocks, Ix(geo, x))
  }

  /** A mapped file block is one `file_block` answers for. */
  lemma MappedAnswers(geo: Geo, meta: set<nat>, s: State, ino: nat, i: nat)
    requires Ok(geo, meta, s) && Map(geo, s, ino, i) != 0 && ino in s.roots
    ensures Answers(geo, s.roots[ino], i)
  {
    hide Tree, Locate, Fan, Follow;
    MapOk(geo, meta, s, ino, i);
    OkParts(geo, meta, s, ino);
    var path := Locate(Fan(geo), i);
    if |path| == 4 {
      TripleRoot(geo, i);
      if s.roots[ino][14] == 0 {
        PlaceRoot(s, ino, 14);
        NothingBelowHole(s.disk, s.roots, ino, [14], path);
      }
    }
  }

  lemma TripleRoot(geo: Geo, i: nat)
    requires Fan(geo) > 0 && |Locate(Fan(geo), i)| == 4
    ensures [14] <= Locate(Fan(geo), i)
  {
  }

  /** The first byte that only the triple tree maps. */
  function TripleStart(geo: Geo): nat {
    (12 + Fan(geo) + Span(Fan(geo), 2)) * geo.bs
  }

  /** Of the bytes that a 32-bit size lets a file have, `ext2_read_file` refuses exactly those from there
      on, in a file without a triple tree. */
  lemma RefusedExactly(geo: Geo, blocks: seq<nat>, x: nat)
    requires GeoOk(geo) && |blocks| == 15 && x < 0x1_0000_0000
    ensures Answers(geo, blocks, Ix(geo, x)) <==> x < TripleStart(geo) || blocks[14] != 0
  {
    hide Div, Mod;
    TripleStartsAt(geo);
    var fan := Fan(geo);
    assert Span(fan, 3) == Times(Span(fan, 2), fan);
    if geo.bs == 1024 {
    } else if geo.bs == 2048 {
    } else {
      assert geo.bs == 4096;
    }
  }

  /** It happens with the two smaller block sizes, from 67383296 and from 537944064 bytes on. With blocks
      of 4096 bytes no 32-bit size reaches that far. */
  lemma TripleStartsAt(geo: Geo)
    requires GeoOk(geo)
    ensures geo.bs == 1024 ==> Fan(geo) == 256 && Span(256, 2) == 65536 && TripleStart(geo) == 67383296
    ensures geo.bs == 2048 ==> Fan(geo) == 512 && Span(512, 2) == 262144 && TripleStart(geo) == 537944064
    ensures geo.bs == 4096 ==> Fan(geo) == 1024 && Span(1024, 2) == 0x10_0000 && TripleStart(geo) == 4299210752
  {
    assert Span(Fan(geo), 1) == Fan(geo);
    assert Span(Fan(geo), 2) == Times(Fan(geo), Fan(geo));
  }

  lemma AnswerNone(geo: Geo, blocks: seq<nat>, off: nat)
    ensures AllAnswer(geo, blocks, off, 0)
  {
  }

  lemma AnswerJoin(geo: Geo, blocks: seq<nat>, off: nat, m: nat, n: nat)
    requires AllAnswer(geo, blocks, off, m) && AllAnswer(geo, blocks, off + m, n)
    ensures AllAnswer(geo, blocks, off, m + n)
  {
    hide Answers, Ix;
  }

  lemma AnswerChunk(geo: Geo, blocks: seq<nat>, o: nat, chunk: nat)
    requires GeoOk(geo) && Off(geo, o) + chunk <= geo.bs && Answers(geo, blocks, Ix(geo, o))
    ensures AllAnswer(geo, blocks, o, chunk)
  {
    hide Answers, Ix, Off, GeoOk;
    forall x: nat | o <= x < o + chunk
      ensures Answers(geo, blocks, Ix(geo, x))
    {
      InBlock(geo, o, x - o);
    }
  }

  /** A run of mapped blocks answers throughout. */
  lemma AnswerRun(geo: Geo, meta: set<nat>, s: State, ino: nat, o: nat, first: nat, n: nat)
    requires Ok(geo, meta, s) && ino in s.roots && Off(geo, o) == 0 && Consecutive(geo, s, ino, Ix(geo, o), first, n)
    ensures AllAnswer(geo, s.roots[ino], o, n * geo.bs)
  {
    hide Answers, Ix, Off, Ok, GeoOk, Map;
    OkParts(geo, meta, s, ino);
    forall x: nat | o <= x < o + n * geo.bs
      ensures Answers(geo, s.roots[ino], Ix(geo, x))
    {
      InRun(geo, o, n, x);
      assert OnRun(geo, s, ino, Ix(geo, o), first, Ix(geo, x) - Ix(geo, o));
      MappedAnswers(geo, meta, s, ino, Ix(geo, x));
    }
  }

  /** Writing and then reading: on a device that does not fail, a write that returns its length is read
      back whole, whatever mix of cached and direct blocks either call took. */
  method WriteThenRead(fs: FileSystem, node: Inode, off: nat, src: seq<byte>)
      returns (rc: int, ok: bool, bytes: seq<byte>)
    requires fs.Valid() && fs.Holds(node)
    modifies fs, fs.vol, fs.vol.cache, node
    ensures fs.Valid() && fs.Holds(node)
    ensures rc >= 0 && ok ==> bytes == src
    ensures rc >= 0 && fs.vol.cache.reliable ==> ok
  {
    hide Wrote, Contents, Ok, AllAnswer, Counted, Full, TooFar, Used;
    ghost var s := fs.S();
    ghost var done;
    rc, done := fs.WriteFile(node, off, src);
    ok, bytes := fs.ReadFile(node, off, |src|);
    if rc >= 0 {
      ReadBack(fs.vol.geo, s, fs.S(), node.ino, off, src);
      WrittenAnswers(fs.vol.geo, fs.vol.meta, s, fs.S(), node.ino, off, src);
      assert Readable(node.size, off, |src|) == |src|;
    }
  }

  lemma WrittenAnswers(geo: Geo, meta: set<nat>, s: State, t: State, ino: nat, off: nat, src: seq<byte>)
    requires Ok(geo, meta, t) && ino in t.roots && Wrote(geo, s, t, ino, off, src, |src|)
    ensures AllAnswer(geo, t.roots[ino], off, |src|)
  {
    hide Answers, Ok, Map, Ix, ByteAt;
    forall x: nat | off <= x < off + |src|
      ensures Answers(geo, t.roots[ino], Ix(geo, x))
    {
      MappedAnswers(geo, meta, t, ino, Ix(geo, x));
    }
  }

  lemma AnswerHere(geo: Geo, blocks: seq<nat>, off: nat, n: nat, x: nat)
    requires off <= x < off + n
    ensures AllAnswer(geo, blocks, off, n) ==> Answers(geo, blocks, Ix(geo, x))
  {
  }

  lemma ContentsNone(geo: Geo, s: State, ino: nat, off: nat)
    ensures Contents(geo, s, ino, off, 0) == []
  {
  }

  lemma BlockSizePositive(geo: Geo)
    requires GeoOk(geo)
    ensures geo.bs > 0
  {
  }

  lemma RunGrowsHere(geo: Geo, s: State, ino: nat, i: nat, first: nat, n: nat)
    requires Consecutive(geo, s, ino, i, first, n) && Map(geo, s, ino, i + n) == first + n
    ensures Consecutive(geo, s, ino, i, first, n + 1)
  {
  }

  lemma WroteSome(geo: Geo, s: State, t: State, ino: nat, off: nat, src: seq<byte>, done: nat)
    requires Wrote(geo, s, t, ino, off, src, done)
    ensures Wrote(geo, s, t, ino, off, src, 0)
  {
  }

  /** Past the end of what the triple tree can map. */
  predicate TooFar(geo: Geo, x: nat) {
    Fan(geo) > 0 && Locate(Fan(geo), Ix(geo, x)) == []
  }

  /** At least one whole block, as many as are left, and no more than one transfer takes. */
  function MaxRun(geo: Geo, left: nat): (n: nat)
    requires GeoOk(geo) && geo.bs <= left
    ensures n >= 1
  {
    var m := left / geo.bs;
    DivMono(geo.bs, left, geo.bs);
    if m > DIRECT_MAX / geo.bs then DIRECT_MAX / geo.bs else m
  }

  lemma MaxRunFits(geo: Geo, left: nat)
    requires GeoOk(geo) && geo.bs <= left
    ensures MaxRun(geo, left) * geo.bs <= left
  {
    var m := left / geo.bs;
    MulLe(MaxRun(geo, left), m, geo.bs);
  }

  lemma RunFits(geo: Geo, left: nat, max: nat, n: nat)
    requires GeoOk(geo) && geo.bs <= left && max == MaxRun(geo, left) && 1 <= n <= max
    ensures 0 < geo.bs <= n * geo.bs <= left
  {
    MaxRunFits(geo, left);
    MulLe(n, max, geo.bs);
    MulLe(1, n, geo.bs);
  }

  lemma StillPending(geo: Geo, off: nat, src: seq<byte>, done: nat, max: nat, n: nat)
    requires GeoOk(geo) && Off(geo, off + done) == 0 && done + geo.bs <= |src| && max == MaxRun(geo, |src| - done) &&
             n < max
    ensures Unwritten(geo, Ix(geo, off + done) + n, off, src, done)
  {
    hide Ix, Off, GeoOk, MaxRun;
    MaxRunFits(geo, |src| - done);
    forall x: nat | Ix(geo, x) == Ix(geo, off + done) + n
      ensures off + done <= x < off + |src|
    {
      InRun(geo, off + done, max, x);
    }
  }

  lemma RunOfOne(geo: Geo, s: State, ino: nat, i: nat, first: nat)
    requires Map(geo, s, ino, i) == first != 0
    ensures Consecutive(geo, s, ino, i, first, 1)
  {
  }

  lemma RunGrows(geo: Geo, meta: set<nat>, s: State, t: State, ino: nat, i: nat, first: nat, n: nat, b: nat, more: bool)
    requires Ok(geo, meta, s) && Fan(geo) > 0 && Extends(geo, s, t, ino, Locate(Fan(geo), i + n))
    requires Consecutive(geo, s, ino, i, first, n) && (more ==> Map(geo, t, ino, i + n) == b == first + n)
    ensures Consecutive(geo, t, ino, i, first, if more then n + 1 else n)
  {
    hide Ok, Map, Extends, Locate, Fan;
    forall k: nat | k < n
      ensures OnRun(geo, t, ino, i, first, k)
    {
      assert OnRun(geo, s, ino, i, first, k);
      StaysMapped(geo, meta, s, t, ino, i + n, i + k);
    }
  }

  lemma RunInside(geo: Geo, meta: set<nat>, s: State, ino: nat, i: nat, first: nat, n: nat)
    requires Ok(geo, meta, s) && Consecutive(geo, s, ino, i, first, n) && n >= 1
    ensures first + n <= geo.count
  {
    hide Ok, Map;
    assert OnRun(geo, s, ino, i, first, n - 1);
    MapOk(geo, meta, s, ino, i + (n - 1));
  }

  lemma WithinBlock(geo: Geo, o: nat)
    requires GeoOk(geo)
    ensures Off(geo, o) < geo.bs
  {
  }

  lemma AddedFills(geo: Geo, s: State, t: State, ino: nat, i: nat, rc: int, b: nat)
    requires rc != 0 ==> Map(geo, t, ino, i) == Map(geo, s, ino, i)
    requires rc == 0 ==> Map(geo, t, ino, i) == b && (Map(geo, s, ino, i) == 0 ==> At(t.disk, b) == Zeros(geo.bs))
    ensures FilledWithZeros(geo, s, t, ino, i)
  {
  }
}
