/** What a call that fails leaves behind (kernel/src/ext2.c): the tree of the inode as it is stored, which
    the blocks added to the copy in hand never reached. */
module Ext2Stored {
  import opened Bytes
  import opened BlockCache
  import opened Ext2Disk
  import opened Ext2Volume
  import opened Ext2Tree
  import opened Ext2State
  import opened Ext2Bytes
  import opened Ext2Truncate

  // ---------------------------------------------------------------- blocks on the way

  /** The way to a mapped place is mapped, and adding to the file leaves it where it was. */
  lemma WayMapped(geo: Geo, s: State, t: State, ino: nat, at: seq<nat>, path: seq<nat>)
    requires Extends(geo, s, t, ino, path) && PathOk(geo, at) && at <= path && Place(s, ino, path) != 0
    ensures Place(s, ino, at) != 0 && Place(t, ino, at) == Place(s, ino, at)
  {
    hide PathOk, Follow, Used, Below;
    PathNonempty(geo, at);
    if Place(s, ino, at) == 0 { NothingBelowHole(s.disk, s.roots, ino, at, path); }
  }

  lemma RootMapped(s: State, ino: nat, path: seq<nat>)
    requires |path| >= 1
    ensures Place(s, ino, path) != 0 ==> Place(s, ino, [path[0]]) != 0
  {
    hide Follow;
    if Place(s, ino, [path[0]]) == 0 { NothingBelowHole(s.disk, s.roots, ino, [path[0]], path); }
  }

  /** A block that was added had been free. */
  lemma AddedWasFree(geo: Geo, meta: set<nat>, s: State, t: State, ino: nat, path: seq<nat>)
    requires Ok(geo, meta, s) && Ok(geo, meta, t) && Extends(geo, s, t, ino, path) && PathOk(geo, path)
    requires Place(s, ino, path) == 0 && Place(t, ino, path) != 0
    ensures FreeBlock(geo, s.disk, Place(t, ino, path))
  {
    hide PathOk, Follow, Used, Below, Shape, Guarded;
    var b := Place(t, ino, path);
    PlaceIn(geo, meta, t, ino, path);
    assert b in s.own ==> Placed(geo, s.disk, meta, s.roots, s.own, b);
  }

  lemma FreshSince(geo: Geo, s: State, t: State, ino: nat, path: seq<nat>, e: Blocks, b: nat, zero: bool)
    requires Extends(geo, s, t, ino, path) && FreeBlock(geo, t.disk, b) && Fresh(geo, t.disk, e, b, zero)
    ensures Fresh(geo, s.disk, e, b, zero)
  {
    hide PathOk, Place, Used, Below;
  }

  // ---------------------------------------------------------------- the stored inode

  /** The slots of inode `ino` that were in use are as they were; no other inode's changed. */
  ghost predicate Grew(before: Roots, now: Roots, ino: nat) {
    && now.Keys == before.Keys && (forall i :: i in before ==> |now[i]| == |before[i]|)
    && (forall i :: i in before && i != ino ==> now[i] == before[i])
    && (forall k: nat :: Root(before, ino, k) != 0 ==> Root(now, ino, k) == Root(before, ino, k))
  }

  /** The state as the inodes `stored` show it: what hangs below slots they lack is out of reach. */
  ghost function Pruned(s: State, stored: Roots): State {
    State(s.disk, stored, map b | b in s.own && InReach(stored, s.own[b].ino, s.own[b].path) :: s.own[b])
  }

  predicate InReach(stored: Roots, ino: nat, path: seq<nat>) {
    |path| >= 1 && Root(stored, ino, path[0]) != 0
  }

  lemma GrewRoot(before: Roots, now: Roots, ino: nat, i: nat, k: nat)
    requires Grew(before, now, ino)
    ensures Root(before, i, k) != 0 ==> Root(now, i, k) == Root(before, i, k)
  {
  }

  lemma {:induction false} PrunedPlace(s: State, stored: Roots, ino: nat, i: nat, path: seq<nat>)
    requires Grew(stored, s.roots, ino)
    ensures Place(Pruned(s, stored), i, path) == if InReach(stored, i, path) then Place(s, i, path) else 0
    decreases |path|
  {
    hide Grew;
    if |path| == 0 {
    } else {
      GrewRoot(stored, s.roots, ino, i, path[0]);
      if |path| > 1 { PrunedPlace(s, stored, ino, i, path[..|path| - 1]); }
    }
  }

  /** The inode as it was stored before a call still has a sound tree, of blocks all its own, whatever
      the call has added to the copy it worked on. */
  lemma PrunedOk(geo: Geo, meta: set<nat>, s: State, stored: Roots, ino: nat)
    requires Ok(geo, meta, s) && Grew(stored, s.roots, ino)
    ensures Ok(geo, meta, Pruned(s, stored))
  {
    hide Follow, PathOk, Used, Shape, Guarded, Below;
    var t := Pruned(s, stored);
    forall i: nat, path: seq<nat> | PathOk(geo, path)
      ensures Known(t.disk, t.roots, t.own, i, path)
    {
      PrunedPlace(s, stored, ino, i, path);
      assert Known(s.disk, s.roots, s.own, i, path);
    }
    forall b | b in t.own
      ensures Placed(geo, t.disk, meta, t.roots, t.own, b)
    {
      assert Placed(geo, s.disk, meta, s.roots, s.own, b);
      PrunedPlace(s, stored, ino, s.own[b].ino, s.own[b].path);
    }
    forall i | i in stored
      ensures |stored[i]| == 15
    {
      assert i in s.roots && |s.roots[i]| == 15;
    }
  }

  /** Byte `x` is under a slot that the stored inode has. */
  predicate SlotThere(geo: Geo, stored: Roots, ino: nat, x: nat) {
    Fan(geo) > 0 && InReach(stored, ino, Locate(Fan(geo), Ix(geo, x)))
  }

  lemma PrunedMap(geo: Geo, s: State, stored: Roots, ino: nat, i: nat, x: nat)
    requires Grew(stored, s.roots, ino) && Fan(geo) > 0
    ensures Map(geo, Pruned(s, stored), i, Ix(geo, x)) ==
            if SlotThere(geo, stored, i, x) then Map(geo, s, i, Ix(geo, x)) else 0
  {
    hide Grew, Follow, Locate, Ix, Pruned, Fan;
    PrunedPlace(s, stored, ino, i, Locate(Fan(geo), Ix(geo, x)));
  }

  /** A slot that is empty has only holes below it. */
  lemma NoSlotNoByte(geo: Geo, s: State, ino: nat, x: nat)
    requires Fan(geo) > 0 && !SlotThere(geo, s.roots, ino, x)
    ensures Map(geo, s, ino, Ix(geo, x)) == 0 && ByteAt(geo, s, ino, x) == 0
  {
    hide Locate, Ix, Fan;
    var path := Locate(Fan(geo), Ix(geo, x));
    if |path| >= 1 {
      assert Place(s, ino, [path[0]]) == Root(s.roots, ino, path[0]);
      RootMapped(s, ino, path);
    } else {
      PlaceOfNothing(s, ino);
    }
  }

  /** A byte of the stored inode's file: that of the copy, or zero where the copy's block is out of reach. */
  lemma PrunedByte(geo: Geo, s: State, stored: Roots, ino: nat, i: nat, x: nat)
    requires Grew(stored, s.roots, ino) && Fan(geo) > 0
    ensures ByteAt(geo, Pruned(s, stored), i, x) == if SlotThere(geo, stored, i, x) then ByteAt(geo, s, i, x) else 0
  {
    hide Grew, Map, SlotThere, Fan, Ix;
    PrunedMap(geo, s, stored, ino, i, x);
  }

  // ---------------------------------------------------------------- a write that fails

  /** From `s` to `t` blocks were added to file `ino` and data stored, and nothing else. */
  ghost predicate Built(geo: Geo, s: State, t: State, ino: nat) {
    && Grew(s.roots, t.roots, ino) && FreeKept(geo, s.disk, t.disk)
    && (forall b: nat :: b < geo.count && Used(geo, s.disk, b) ==> Used(geo, t.disk, b))
    && (forall i: nat :: Map(geo, s, ino, i) != 0 ==> Map(geo, t, ino, i) == Map(geo, s, ino, i))
  }

  /** Byte `x` lies in a block that was given to the file in place of a hole and neither cleared nor
      written: it reads what the block held while it was free. */
  predicate LeftOver(geo: Geo, s: State, t: State, ino: nat, x: nat) {
    var b := Map(geo, t, ino, Ix(geo, x));
    && Map(geo, s, ino, Ix(geo, x)) == 0 && b != 0 && FreeBlock(geo, s.disk, b)
    && ByteAt(geo, t, ino, x) == Byte(At(s.disk, b), Off(geo, x))
  }

  /** Past the first `done` bytes of the range, every byte is as it was or left over. */
  ghost predicate Tail(geo: Geo, s: State, t: State, ino: nat, off: nat, src: seq<byte>, done: nat) {
    forall x: nat :: off + done <= x < off + |src| ==> OldOrLeft(geo, s, t, ino, x)
  }

  predicate OldOrLeft(geo: Geo, s: State, t: State, ino: nat, x: nat) {
    ByteAt(geo, t, ino, x) == ByteAt(geo, s, ino, x) || LeftOver(geo, s, t, ino, x)
  }

  /** Past the first `from` bytes of the range, every byte is as it was. */
  ghost predicate Clear(geo: Geo, s: State, t: State, ino: nat, off: nat, src: seq<byte>, from: nat) {
    forall x: nat :: off + from <= x < off + |src| ==> ByteAt(geo, t, ino, x) == ByteAt(geo, s, ino, x)
  }

  /** How far a write has come. */
  ghost predicate Partly(geo: Geo, s: State, t: State, ino: nat, off: nat, src: seq<byte>, done: nat) {
    Built(geo, s, t, ino) && Tail(geo, s, t, ino, off, src, done)
  }

  /** All past `clear` is as it was; between `done` and `clear` there is nothing, or one whole block that
      the file has been given and that is written next. */
  ghost predicate Ahead(geo: Geo, s: State, t: State, ino: nat, off: nat, src: seq<byte>, done: nat, clear: nat) {
    && Clear(geo, s, t, ino, off, src, clear)
    && (clear != done ==>
          && clear == done + geo.bs && clear <= |src| && Off(geo, off + done) == 0
          && Map(geo, t, ino, Ix(geo, off + done)) != 0)
  }

  lemma NothingBuilt(geo: Geo, s: State, ino: nat, off: nat, src: seq<byte>)
    ensures Partly(geo, s, s, ino, off, src, 0) && Ahead(geo, s, s, ino, off, src, 0, 0)
  {
    hide Map, Used, ByteAt;
  }

  lemma GrewOthers(before: Roots, now: Roots, ino: nat)
    requires Grew(before, now, ino)
    ensures now.Keys == before.Keys && forall i :: i in before && i != ino ==> now[i] == before[i]
  {
  }

  lemma GrewSame(r: Roots, ino: nat)
    ensures Grew(r, r, ino)
  {
  }

  lemma GrewTrans(a: Roots, b: Roots, c: Roots, ino: nat)
    requires Grew(a, b, ino) && Grew(b, c, ino)
    ensures Grew(a, c, ino)
  {
  }

  lemma ExtendsGrew(geo: Geo, meta: set<nat>, s: State, t: State, ino: nat, path: seq<nat>)
    requires Ok(geo, meta, s) && Ok(geo, meta, t) && Extends(geo, s, t, ino, path)
    ensures Grew(s.roots, t.roots, ino)
  {
    hide Used, Below, Tree;
    forall i | i in s.roots
      ensures |t.roots[i]| == |s.roots[i]|
    {
      OkParts(geo, meta, s, i);
      OkParts(geo, meta, t, i);
    }
    forall k: nat | Root(s.roots, ino, k) != 0
      ensures Root(t.roots, ino, k) == Root(s.roots, ino, k)
    {
      OkParts(geo, meta, s, ino);
      RootPath(geo, k);
      assert Place(s, ino, [k]) == Root(s.roots, ino, k) && Place(t, ino, [k]) == Root(t.roots, ino, k);
    }
  }

  lemma BuiltAdd(geo: Geo, meta: set<nat>, s: State, t: State, u: State, ino: nat, i: nat)
    requires Built(geo, s, t, ino) && Ok(geo, meta, t) && Ok(geo, meta, u)
    requires Fan(geo) > 0 && Extends(geo, t, u, ino, Locate(Fan(geo), i))
    ensures Built(geo, s, u, ino)
  {
    hide Ok, Map, Locate, Fan, Grew, Place, PathOk, Below, Used;
    ExtendsGrew(geo, meta, t, u, ino, Locate(Fan(geo), i));
    GrewTrans(s.roots, t.roots, u.roots, ino);
    forall j: nat | Map(geo, s, ino, j) != 0
      ensures Map(geo, u, ino, j) == Map(geo, s, ino, j)
    {
      StaysMapped(geo, meta, t, u, ino, i, j);
    }
  }

  lemma BuiltStore(geo: Geo, s: State, t: State, u: State, ino: nat, lo: nat, hi: nat)
    requires Built(geo, s, t, ino) && Rewrote(geo, t, u, ino, lo, hi)
    ensures Built(geo, s, u, ino)
  {
    hide Map, Used, Grew, ByteAt;
  }

  /** Storing bytes leaves those past them as they were or left over. */
  lemma TailStore(geo: Geo, s: State, t: State, u: State, ino: nat, off: nat, src: seq<byte>, done: nat, next: nat)
    requires Tail(geo, s, t, ino, off, src, done) && done <= next
    requires Rewrote(geo, t, u, ino, off + done, off + next)
    ensures Tail(geo, s, u, ino, off, src, next)
  {
    hide Map, Used, UseKept, ByteAt, Ix, Off;
    forall x: nat | off + next <= x < off + |src|
      ensures OldOrLeft(geo, s, u, ino, x)
    {
      assert OldOrLeft(geo, s, t, ino, x);
      assert Map(geo, u, ino, Ix(geo, x)) == Map(geo, t, ino, Ix(geo, x));
    }
  }

  lemma ClearStore(geo: Geo, s: State, t: State, u: State, ino: nat, off: nat, src: seq<byte>, lo: nat, next: nat,
      from: nat)
    requires Clear(geo, s, t, ino, off, src, from) && next <= from && Rewrote(geo, t, u, ino, off + lo, off + next)
    ensures Clear(geo, s, u, ino, off, src, from)
  {
    hide Map, Used, UseKept, ByteAt, SameMap;
  }

  /** Giving file block `i` a disk block: its bytes stay zero, or, uncleared, are left over. */
  lemma TailAdd(geo: Geo, meta: set<nat>, s: State, t: State, u: State, ino: nat, i: nat, off: nat, src: seq<byte>,
      done: nat, zero: bool)
    requires Built(geo, s, t, ino) && Tail(geo, s, t, ino, off, src, done) && Ok(geo, meta, t) && Ok(geo, meta, u)
    requires Fan(geo) > 0 && Extends(geo, t, u, ino, Locate(Fan(geo), i))
    requires Map(geo, t, ino, i) == 0 && Map(geo, u, ino, i) != 0 ==>
               Fresh(geo, t.disk, u.disk, Map(geo, u, ino, i), zero)
    ensures Tail(geo, s, u, ino, off, src, done)
  {
    hide Built, Ok, Map, Extends, Locate, Fan, Used, ByteAt, Ix, Fresh, LeftOver;
    forall x: nat | off + done <= x < off + |src|
      ensures OldOrLeft(geo, s, u, ino, x)
    {
      assert OldOrLeft(geo, s, t, ino, x);
      OldOrLeftAdd(geo, meta, s, t, u, ino, i, x, zero);
    }
  }

  lemma OldOrLeftAdd(geo: Geo, meta: set<nat>, s: State, t: State, u: State, ino: nat, i: nat, x: nat, zero: bool)
    requires Built(geo, s, t, ino) && OldOrLeft(geo, s, t, ino, x) && Ok(geo, meta, t) && Ok(geo, meta, u)
    requires Fan(geo) > 0 && Extends(geo, t, u, ino, Locate(Fan(geo), i))
    requires Map(geo, t, ino, i) == 0 && Map(geo, u, ino, i) != 0 ==>
               Fresh(geo, t.disk, u.disk, Map(geo, u, ino, i), zero)
    ensures OldOrLeft(geo, s, u, ino, x)
  {
    hide Ok, Map, Locate, Fan, Used, Ix, Off, Grew, Extends, Byte;
    var j := Ix(geo, x);
    if j == i && Map(geo, t, ino, i) == 0 && Map(geo, u, ino, i) != 0 && !zero {
      AddedHere(geo, meta, t, u, ino, i);
    } else {
      AddBytes(geo, meta, t, u, ino, i, ino, x);
      if Map(geo, t, ino, j) != 0 { StaysMapped(geo, meta, t, u, ino, i, j); }
    }
  }

  lemma AddedHere(geo: Geo, meta: set<nat>, s: State, t: State, ino: nat, i: nat)
    requires Ok(geo, meta, s) && Ok(geo, meta, t) && Fan(geo) > 0 && Extends(geo, s, t, ino, Locate(Fan(geo), i))
    requires Map(geo, s, ino, i) == 0 && Map(geo, t, ino, i) != 0
    ensures FreeBlock(geo, s.disk, Map(geo, t, ino, i))
  {
    hide Ok, Locate, Fan, Used, Extends, Follow;
    MapOk(geo, meta, t, ino, i);
    LocateIndex(geo, i);
    AddedWasFree(geo, meta, s, t, ino, Locate(Fan(geo), i));
  }

  /** Giving a file block a disk block changes nothing past it, and nothing at all if it got none. */
  lemma ClearAdd(geo: Geo, meta: set<nat>, s: State, t: State, u: State, ino: nat, i: nat, off: nat, src: seq<byte>,
      from: nat)
    requires Clear(geo, s, t, ino, off, src, from) && Ok(geo, meta, t)
    requires Fan(geo) > 0 && Extends(geo, t, u, ino, Locate(Fan(geo), i))
    requires FilledWithZeros(geo, t, u, ino, i) || forall x: nat :: off + from <= x ==> Ix(geo, x) != i
    ensures Clear(geo, s, u, ino, off, src, from)
  {
    hide Ok, Map, Extends, Locate, Fan, Used, ByteAt, Ix, FilledWithZeros;
    forall x: nat | off + from <= x < off + |src|
      ensures ByteAt(geo, u, ino, x) == ByteAt(geo, s, ino, x)
    {
      AddBytes(geo, meta, t, u, ino, i, ino, x);
    }
  }

  lemma PartlyAdd(geo: Geo, meta: set<nat>, s: State, t: State, u: State, ino: nat, i: nat, off: nat, src: seq<byte>,
      done: nat, zero: bool)
    requires Partly(geo, s, t, ino, off, src, done) && Ok(geo, meta, t) && Ok(geo, meta, u)
    requires Fan(geo) > 0 && Extends(geo, t, u, ino, Locate(Fan(geo), i))
    requires Map(geo, t, ino, i) == 0 && Map(geo, u, ino, i) != 0 ==>
               Fresh(geo, t.disk, u.disk, Map(geo, u, ino, i), zero)
    ensures Partly(geo, s, u, ino, off, src, done)
  {
    hide Built, Ok, Map, Extends, Locate, Fan, Tail, Fresh;
    BuiltAdd(geo, meta, s, t, u, ino, i);
    TailAdd(geo, meta, s, t, u, ino, i, off, src, done, zero);
  }

  lemma PartlyStore(geo: Geo, s: State, t: State, u: State, ino: nat, off: nat, src: seq<byte>, done: nat, next: nat)
    requires Partly(geo, s, t, ino, off, src, done) && done <= next
    requires Rewrote(geo, t, u, ino, off + done, off + next)
    ensures Partly(geo, s, u, ino, off, src, next)
  {
    hide Built, Tail, Rewrote;
    BuiltStore(geo, s, t, u, ino, off + done, off + next);
    TailStore(geo, s, t, u, ino, off, src, done, next);
  }

  /** On a device that does not fail, giving block `n` of a run a disk block leaves what is past that
      block as it was, and the block too if it got none. */
  lemma AheadNext(geo: Geo, meta: set<nat>, s: State, t: State, u: State, ino: nat, off: nat, src: seq<byte>,
      done: nat, n: nat, rc: int)
    requires Clear(geo, s, t, ino, off, src, done + n * geo.bs) && Ok(geo, meta, t) && Off(geo, off + done) == 0
    requires Fan(geo) > 0 && Extends(geo, t, u, ino, Locate(Fan(geo), Ix(geo, off + done) + n))
    requires rc != 0 ==> Map(geo, u, ino, Ix(geo, off + done) + n) == 0
    ensures Clear(geo, s, u, ino, off, src, done + (n + 1) * geo.bs)
    ensures rc != 0 ==> Clear(geo, s, u, ino, off, src, done + n * geo.bs)
  {
    hide Ok, Map, Extends, Locate, Fan, ByteAt, Ix, Off, GeoOk;
    OkParts(geo, meta, t, ino);
    var o, i, from := off + done, Ix(geo, off + done) + n, done + (n + 1) * geo.bs;
    assert from == done + n * geo.bs + geo.bs;
    forall x: nat | off + from <= x
      ensures Ix(geo, x) != i
    {
      InRun(geo, o, n + 1, x);
    }
    ClearAdd(geo, meta, s, t, u, ino, i, off, src, from);
    if rc != 0 { ClearAdd(geo, meta, s, t, u, ino, i, off, src, done + n * geo.bs); }
  }

  lemma AheadFirst(geo: Geo, meta: set<nat>, s: State, t: State, u: State, ino: nat, off: nat, src: seq<byte>,
      done: nat, clear: nat, rc: int)
    requires Ahead(geo, s, t, ino, off, src, done, clear) && Ok(geo, meta, t) && Off(geo, off + done) == 0
    requires Fan(geo) > 0 && Extends(geo, t, u, ino, Locate(Fan(geo), Ix(geo, off + done)))
    requires rc != 0 ==> Map(geo, u, ino, Ix(geo, off + done)) == Map(geo, t, ino, Ix(geo, off + done)) == 0
    ensures Clear(geo, s, u, ino, off, src, done + geo.bs) && (rc != 0 ==> Clear(geo, s, u, ino, off, src, done))
  {
    hide Ok, Map, Extends, Locate, Fan, ByteAt, Ix, Off, GeoOk, Clear;
    if clear == done {
      assert done + 0 * geo.bs == done && done + 1 * geo.bs == done + geo.bs;
      AheadNext(geo, meta, s, t, u, ino, off, src, done, 0, rc);
    } else {
      AlreadyThere(geo, meta, t, u, ino, Ix(geo, off + done));
      ClearAdd(geo, meta, s, t, u, ino, Ix(geo, off + done), off, src, clear);
    }
  }

  lemma AlreadyThere(geo: Geo, meta: set<nat>, s: State, t: State, ino: nat, i: nat)
    requires Map(geo, s, ino, i) != 0
    ensures FilledWithZeros(geo, s, t, ino, i)
  {
  }

  lemma ClearChunk(geo: Geo, s: State, t: State, u: State, ino: nat, off: nat, src: seq<byte>, done: nat, next: nat)
    requires Clear(geo, s, t, ino, off, src, done) && done <= next && Rewrote(geo, t, u, ino, off + done, off + next)
    ensures Clear(geo, s, u, ino, off, src, next)
  {
    hide Map, UseKept, ByteAt, SameMap;
  }

  lemma AheadIs(geo: Geo, s: State, t: State, ino: nat, off: nat, src: seq<byte>, done: nat)
    ensures Clear(geo, s, t, ino, off, src, done) <==> Ahead(geo, s, t, ino, off, src, done, done)
  {
  }

  /** After a run of `n` blocks is written, at most the next block has been given and not written. */
  lemma AheadAfter(geo: Geo, s: State, t: State, u: State, ino: nat, off: nat, src: seq<byte>, done: nat, n: nat,
      ahead: nat, given: bool)
    requires GeoOk(geo) && Off(geo, off + done) == 0 && ahead == done + (if given then n + 1 else n) * geo.bs
    requires given ==> ahead <= |src| && Map(geo, t, ino, Ix(geo, off + done) + n) != 0
    requires Clear(geo, s, t, ino, off, src, ahead)
    requires Rewrote(geo, t, u, ino, off + done, off + done + n * geo.bs)
    ensures Ahead(geo, s, u, ino, off, src, done + n * geo.bs, ahead)
  {
    hide Map, UseKept, ByteAt, Ix, Off, GeoOk, Clear, Rewrote;
    NextBlock(geo, off + done, n);
    assert (n + 1) * geo.bs == n * geo.bs + geo.bs;
    ClearStore(geo, s, t, u, ino, off, src, done, done + n * geo.bs, ahead);
    StoredMap(geo, t, u, ino, off + done, off + done + n * geo.bs, Ix(geo, off + done) + n);
  }

  lemma StoredMap(geo: Geo, s: State, t: State, ino: nat, lo: nat, hi: nat, i: nat)
    requires Rewrote(geo, s, t, ino, lo, hi)
    ensures Map(geo, t, ino, i) == Map(geo, s, ino, i)
  {
    hide Map, UseKept, ByteAt;
  }

  /** What a write that failed after `done` bytes shows through the stored inode: those bytes, as far as
      they are under slots it has; past them the old bytes, or, unless `clean`, left-over ones. */
  ghost predicate FailedWrite(geo: Geo, s: State, t: State, ino: nat, off: nat, src: seq<byte>, done: nat,
      clean: bool) {
    && done <= |src|
    && forall x: nat :: off <= x < off + |src| ==>
         if SlotThere(geo, s.roots, ino, x) && x < off + done then ByteAt(geo, t, ino, x) == src[x - off]
         else if clean || !SlotThere(geo, s.roots, ino, x) then ByteAt(geo, t, ino, x) == ByteAt(geo, s, ino, x)
         else OldOrLeft(geo, s, t, ino, x)
  }

  /** Through the stored inode a failed write has changed no byte outside its range, and inside it what
      `FailedWrite` says. */
  lemma PrunedFailed(geo: Geo, s: State, t: State, ino: nat, off: nat, src: seq<byte>, done: nat, clean: bool)
    requires Fan(geo) > 0 && Wrote(geo, s, t, ino, off, src, done) && Partly(geo, s, t, ino, off, src, done)
    requires clean ==> Clear(geo, s, t, ino, off, src, done)
    ensures Wrote(geo, s, Pruned(t, s.roots), ino, off, src, 0)
    ensures FailedWrite(geo, s, Pruned(t, s.roots), ino, off, src, done, clean)
  {
    hide Map, ByteAt, Ix, Off, SlotThere, Fan, Pruned, Used, Grew, FreeKept, Byte;
    var p := Pruned(t, s.roots);
    forall i: nat, x: nat
      ensures ByteAt(geo, p, i, x) == if SlotThere(geo, s.roots, i, x) then ByteAt(geo, t, i, x) else 0
      ensures Map(geo, p, i, Ix(geo, x)) == if SlotThere(geo, s.roots, i, x) then Map(geo, t, i, Ix(geo, x)) else 0
      ensures !SlotThere(geo, s.roots, i, x) ==> ByteAt(geo, s, i, x) == 0
    {
      PrunedByte(geo, t, s.roots, ino, i, x);
      PrunedMap(geo, t, s.roots, ino, i, x);
      if !SlotThere(geo, s.roots, i, x) { NoSlotNoByte(geo, s, i, x); }
    }
    forall x: nat | off + done <= x < off + |src| && SlotThere(geo, s.roots, ino, x)
      ensures OldOrLeft(geo, s, p, ino, x)
    {
      assert OldOrLeft(geo, s, t, ino, x);
    }
  }

  lemma WriteEnds(geo: Geo, meta: set<nat>, s: State, t: State, ino: nat, off: nat, src: seq<byte>, done: nat,
      clean: bool)
    requires Ok(geo, meta, t) && Wrote(geo, s, t, ino, off, src, done) && Partly(geo, s, t, ino, off, src, done)
    requires clean ==> Clear(geo, s, t, ino, off, src, done)
    ensures Grew(s.roots, t.roots, ino) && Ok(geo, meta, Pruned(t, s.roots))
    ensures Wrote(geo, s, Pruned(t, s.roots), ino, off, src, 0)
    ensures FailedWrite(geo, s, Pruned(t, s.roots), ino, off, src, done, clean)
  {
    hide Wrote, FailedWrite, Ok, Clear, Tail, Grew, FreeKept, Map, Used, Pruned, Fan;
    OkParts(geo, meta, t, ino);
    PrunedOk(geo, meta, t, s.roots, ino);
    PrunedFailed(geo, s, t, ino, off, src, done, clean);
  }

  lemma NothingAhead(geo: Geo, s: State, t: State, ino: nat, off: nat, src: seq<byte>)
    ensures Clear(geo, s, t, ino, off, src, |src|)
  {
  }

  lemma AheadHere(geo: Geo, s: State, t: State, ino: nat, off: nat, src: seq<byte>, done: nat, clear: nat)
    requires Off(geo, off + done) != 0 || |src| - done < geo.bs
    ensures Ahead(geo, s, t, ino, off, src, done, clear) ==> Clear(geo, s, t, ino, off, src, done)
  {
    hide Map, Ix, Off;
  }

  /** A byte that a failed write leaves neither as it was nor as it should be: exactly one in a block
      given in place of a hole and not written, which held some other byte before. */
  lemma NeitherOldNorNew(geo: Geo, s: State, t: State, ino: nat, off: nat, src: seq<byte>, done: nat, clean: bool,
      x: nat)
    requires FailedWrite(geo, s, t, ino, off, src, done, clean) && off <= x < off + |src|
    ensures ByteAt(geo, t, ino, x) !in {ByteAt(geo, s, ino, x), src[x - off]} <==>
            && !clean && off + done <= x && LeftOver(geo, s, t, ino, x)
            && Byte(At(s.disk, Map(geo, t, ino, Ix(geo, x))), Off(geo, x)) !in {0, src[x - off]}
  {
    hide Map, Ix, Off, SlotThere, Byte, Used;
  }

  // ---------------------------------------------------------------- a truncation that fails

  /** The state as the inodes stored before a truncation show it, on the volume it has left. */
  ghost function Stale(s: State, d: Blocks): State {
    State(d, s.roots, s.own)
  }

  lemma {:induction false} StalePlace(geo: Geo, meta: set<nat>, s: State, d: Blocks, freed: set<nat>, ino: nat,
      path: seq<nat>)
    requires Ok(geo, meta, s) && FreedFrom(geo, meta, s, d, freed) && PathOk(geo, path)
    ensures Place(Stale(s, d), ino, path) == Place(s, ino, path)
    decreases |path|
  {
    hide Ok, PathOk, Used, FreedFrom;
    PathNonempty(geo, path);
    if |path| <= 1 {
    } else {
      PrefixOk(geo, path);
      StalePlace(geo, meta, s, d, freed, ino, Up(path));
      PlaceIn(geo, meta, s, ino, Up(path));
      if Place(s, ino, Up(path)) != 0 { FreedPlace(geo, meta, s, d, freed, Place(s, ino, Up(path))); }
    }
  }

  /** A truncation whose inode never reached the disk has harmed nothing exactly if it had given no block
      back; otherwise no account of the blocks fits the inodes as they are stored. */
  lemma StaleExactly(geo: Geo, meta: set<nat>, s: State, d: Blocks, freed: set<nat>)
    requires Ok(geo, meta, s) && FreedFrom(geo, meta, s, d, freed)
    ensures Ok(geo, meta, Stale(s, d)) <==> freed == {}
    ensures freed != {} ==> forall own: Owners :: !Ok(geo, meta, State(d, s.roots, own))
  {
    hide Shape, PathOk, Follow, Used, Below, Guarded;
    if freed == {} {
      StaleSound(geo, meta, s, d);
    } else {
      var b :| b in freed;
      assert Placed(geo, s.disk, meta, s.roots, s.own, b);
      StalePlace(geo, meta, s, d, freed, s.own[b].ino, s.own[b].path);
      forall own: Owners
        ensures !Ok(geo, meta, State(d, s.roots, own))
      {
        if Ok(geo, meta, State(d, s.roots, own)) {
          BlockAt(geo, d, meta, s.roots, own, s.own[b].ino, s.own[b].path);
        }
      }
    }
  }

  lemma StaleSound(geo: Geo, meta: set<nat>, s: State, d: Blocks)
    requires Ok(geo, meta, s) && FreedFrom(geo, meta, s, d, {})
    ensures Ok(geo, meta, Stale(s, d))
  {
    hide Shape, PathOk, Follow, Used, Below;
    forall b | b in s.own
      ensures At(d, b) == At(s.disk, b) && b < geo.count
    {
      FreedPlace(geo, meta, s, d, {}, b);
    }
    KeptTree(geo, s.disk, d, meta, s.roots, s.own);
  }

  /** Until a block is handed out again, the stored inode reads the bytes the file had. */
  lemma StaleByte(geo: Geo, meta: set<nat>, s: State, d: Blocks, freed: set<nat>, ino: nat, x: nat)
    requires Ok(geo, meta, s) && FreedFrom(geo, meta, s, d, freed)
    ensures ByteAt(geo, Stale(s, d), ino, x) == ByteAt(geo, s, ino, x)
  {
    hide Ok, FreedFrom, Locate, PathOk, Follow, Ix, Off, Fan;
    var i := Ix(geo, x);
    MapOk(geo, meta, s, ino, i);
    if Locate(Fan(geo), i) == [] {
      PlaceOfNothing(s, ino);
      PlaceOfNothing(Stale(s, d), ino);
    } else {
      LocateIndex(geo, i);
      StalePlace(geo, meta, s, d, freed, ino, Locate(Fan(geo), i));
      if Map(geo, s, ino, i) != 0 { FreedPlace(geo, meta, s, d, freed, Map(geo, s, ino, i)); }
    }
  }

  /** Once a freed direct block belongs to another file, the stored inode reads that file's bytes. */
  lemma StaleShares(geo: Geo, s: State, u: State, ino: nat, k: nat, other: nat, i: nat, x: nat, y: nat)
    requires GeoOk(geo) && k < 12 && ino in s.roots && |s.roots[ino]| == 15 && ino in u.roots
    requires s.roots[ino][k] == Map(geo, u, other, i) != 0
    requires Ix(geo, x) == k && Ix(geo, y) == i && Off(geo, x) == Off(geo, y)
    ensures ByteAt(geo, State(u.disk, u.roots[ino := s.roots[ino]], u.own), ino, x) == ByteAt(geo, u, other, y)
  {
    hide Ix, Off, Byte;
    var t := State(u.disk, u.roots[ino := s.roots[ino]], u.own);
    assert Place(t, ino, [k]) == s.roots[ino][k];
  }

  /** A volume of eight blocks with one file of one block, in the geometry of the smallest block size. */
  function SmallGeo(): Geo {
    Geo(1024, 8, 8, 1)
  }

  function SmallBlock(b: nat): Block {
    if b == 2 then Zeros(1024)[0 := 3][12 := 3] else if b == 3 then Zeros(1024)[0 := 31] else Zeros(1024)
  }

  ghost function OneFile(): State {
    State(map b: nat | b < 8 :: SmallBlock(b), map[12 := NoBlocks()[0 := 4]], map[4 := Owner(12, [0])])
  }

  lemma LowBits(b: nat)
    requires b < 8
    ensures Bit(31, b) <==> b < 5
  {
    assert Bit(31, 4) && !Bit(31, 5) && !Bit(31, 6) && !Bit(31, 7);
  }

  lemma OneFileMeta()
    ensures At(OneFile().disk, 3) == SmallBlock(3) && BitmapOf(SmallGeo(), OneFile().disk, 0) == 3
  {
    assert At(OneFile().disk, 2) == SmallBlock(2);
  }

  lemma OneFileUse(b: nat)
    requires b < 8
    ensures Used(SmallGeo(), OneFile().disk, b) <==> b < 5
  {
    hide OneFile, Bit;
    OneFileMeta();
    LowBits(b);
    assert Group(SmallGeo(), b) == 0 && BitNo(SmallGeo(), b) == b && b / 8 == 0 && b % 8 == b;
  }

  lemma OneFilePlaces(ino: nat, path: seq<nat>)
    requires PathOk(SmallGeo(), path)
    ensures Place(OneFile(), ino, path) == if ino == 12 && path == [0] then 4 else 0
  {
    var s := OneFile();
    if Root(s.roots, ino, path[0]) == 0 {
      RootMapped(s, ino, path);
      assert Place(s, ino, [path[0]]) == 0;
    } else {
      assert path == [0];
    }
  }

  lemma OneFileOk()
    ensures Ok(SmallGeo(), {0, 1, 2, 3}, OneFile())
  {
    hide Follow, Used, PathOk;
    var geo, s, meta := SmallGeo(), OneFile(), {0, 1, 2, 3};
    forall b: nat | b < 8
      ensures Used(geo, s.disk, b) <==> b < 5
    {
      OneFileUse(b);
    }
    assert Shape(geo, s.disk, meta) by {
      assert At(s.disk, 2) == SmallBlock(2);
      assert BitmapOf(geo, s.disk, 0) == 3;
    }
    RootPath(geo, 0);
    OneFilePlaces(12, [0]);
    forall ino: nat, path: seq<nat> | PathOk(geo, path)
      ensures Known(s.disk, s.roots, s.own, ino, path)
    {
      OneFilePlaces(ino, path);
    }
  }

  /** So it can happen: the one block of the file is free, and its stored inode still points there. */
  lemma TruncationCanHarm()
    ensures var geo, meta, s := SmallGeo(), {0, 1, 2, 3}, OneFile();
            && Ok(geo, meta, s)
            && var d := Freed(geo, s.disk, 4, true);
               && FreedFrom(geo, meta, s, d, {4}) && FreeBlock(geo, d, 4) && Place(Stale(s, d), 12, [0]) == 4
               && !Ok(geo, meta, Stale(s, d))
  {
    hide Ok, FreedFrom, Used, Freed;
    var geo, meta, s := SmallGeo(), {0, 1, 2, 3}, OneFile();
    OneFileOk();
    FreedNone(geo, meta, s);
    FreedOne(geo, meta, s, s.disk, {}, 4, true);
    var d := Freed(geo, s.disk, 4, true);
    assert {} + {4} == {4};
    StaleExactly(geo, meta, s, d, {4});
    FreedIsFree(geo, meta, s, d, {4}, 4);
    assert s.roots[12][0] == 4;
  }

  lemma FreedIsFree(geo: Geo, meta: set<nat>, s: State, d: Blocks, freed: set<nat>, b: nat)
    requires FreedFrom(geo, meta, s, d, freed) && b in freed && b < geo.count
    ensures FreeBlock(geo, d, b)
  {
    hide Used;
  }
}
