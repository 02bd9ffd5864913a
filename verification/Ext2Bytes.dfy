/** The bytes of files (kernel/src/ext2.c), and what storing blocks does to them. */
module Ext2Bytes {
  import opened Bytes
  import opened Arith
  import opened BlockCache
  import opened Ext2Disk
  import opened Ext2Volume
  import opened Ext2Tree
  import opened Ext2State

  /** The block of a file a byte is in, and its place there. */
  function Ix(geo: Geo, x: nat): nat {
    if geo.bs == 0 then 0 else x / geo.bs
  }

  function Off(geo: Geo, x: nat): nat {
    if geo.bs == 0 then 0 else x % geo.bs
  }

  function Byte(b: Block, k: nat): byte {
    if k < |b| then b[k] else 0
  }

  /** Byte `x` of file `ino`; a hole reads as zero. */
  function ByteAt(geo: Geo, s: State, ino: nat, x: nat): byte {
    var b := Map(geo, s, ino, Ix(geo, x));
    if b == 0 then 0 else Byte(At(s.disk, b), Off(geo, x))
  }

  ghost predicate SameMap(geo: Geo, s: State, t: State) {
    forall i: nat, j: nat :: Map(geo, t, i, j) == Map(geo, s, i, j)
  }

  /** The same blocks are in use, and those that are not hold what they held. */
  ghost predicate UseKept(geo: Geo, d: Blocks, e: Blocks) {
    && (forall x: nat :: x < geo.count ==> Used(geo, e, x) == Used(geo, d, x))
    && FreeKept(geo, d, e)
  }

  /** Only bytes `lo` to `hi` of file `ino` differ, and no block moved. */
  ghost predicate Rewrote(geo: Geo, s: State, t: State, ino: nat, lo: nat, hi: nat) {
    && t.roots == s.roots && SameMap(geo, s, t) && UseKept(geo, s.disk, t.disk)
    && forall ino': nat, x: nat :: ino' != ino || x < lo || hi <= x ==>
         ByteAt(geo, t, ino', x) == ByteAt(geo, s, ino', x)
  }

  // ---------------------------------------------------------------- positions

  lemma InBlock(geo: Geo, o: nat, k: nat)
    requires GeoOk(geo) && Off(geo, o) + k < geo.bs
    ensures Ix(geo, o + k) == Ix(geo, o) && Off(geo, o + k) == Off(geo, o) + k
  {
    DivMod(o + k, geo.bs, o / geo.bs, o % geo.bs + k);
  }

  /** A byte in the block of `o` lies within that block's reach of `o`. */
  lemma BlockReach(geo: Geo, o: nat, x: nat)
    requires GeoOk(geo) && Ix(geo, x) == Ix(geo, o)
    ensures o - Off(geo, o) <= x < o - Off(geo, o) + geo.bs && x == o - Off(geo, o) + Off(geo, x)
  {
  }

  lemma InRun(geo: Geo, o: nat, n: nat, x: nat)
    requires GeoOk(geo) && Off(geo, o) == 0
    ensures o <= x < o + n * geo.bs <==> Ix(geo, o) <= Ix(geo, x) < Ix(geo, o) + n
  {
    var bs := geo.bs;
    assert o == o / bs * bs;
    var q := x / bs;
    assert x == q * bs + x % bs;
    if q >= o / bs { MulLe(o / bs, q, bs); } else { MulLe(q + 1, o / bs, bs); }
    if q < o / bs + n { MulLe(q + 1, o / bs + n, bs); } else { MulLe(o / bs + n, q, bs); }
    assert (q + 1) * bs == q * bs + bs;
    assert (o / bs + n) * bs == o + n * bs;
  }

  lemma MulLe(a: nat, b: nat, n: nat)
    requires a <= b
    ensures a * n <= b * n
  {
    assert b * n == a * n + (b - a) * n;
  }

  // ---------------------------------------------------------------- storing

  lemma MapOk(geo: Geo, meta: set<nat>, s: State, ino: nat, i: nat)
    requires Ok(geo, meta, s)
    ensures Fan(geo) > 0
    ensures var b := Map(geo, s, ino, i);
            b != 0 ==>
              Locate(Fan(geo), i) != [] && b in s.own && s.own[b] == Owner(ino, Locate(Fan(geo), i)) &&
              Below(s.own[b].path) == 0 && 0 < b < geo.count && b !in meta && b in s.disk
  {
    hide Tree, PathOk, Follow, Used, Locate, Fan;
    OkParts(geo, meta, s, ino);
    var path := Locate(Fan(geo), i);
    if path == [] {
      PlaceOfNothing(s, ino);
    } else {
      LocateIndex(geo, i);
      PlaceIn(geo, meta, s, ino, path);
      BlockAt(geo, s.disk, meta, s.roots, s.own, ino, path);
    }
  }

  lemma PlaceOfNothing(s: State, ino: nat)
    ensures Place(s, ino, []) == 0
  {
  }

  /** A block of one file is not a block of another, nor another block of that file. */
  lemma MapInjective(geo: Geo, meta: set<nat>, s: State, ino: nat, i: nat, ino': nat, i': nat)
    requires Ok(geo, meta, s) && Map(geo, s, ino, i) == Map(geo, s, ino', i') != 0
    ensures ino == ino' && i == i'
  {
    hide Tree, Follow, Used, Locate, Fan, Map;
    MapOk(geo, meta, s, ino, i);
    MapOk(geo, meta, s, ino', i');
    LocateInjective(geo, i, i');
  }

  lemma StoreKeepsTree(geo: Geo, meta: set<nat>, s: State, b: nat, data: Block)
    requires Ok(geo, meta, s) && b in s.own && Below(s.own[b].path) == 0 && |data| == geo.bs
    ensures Ok(geo, meta, s.(disk := s.disk[b := data])) && SameMap(geo, s, s.(disk := s.disk[b := data]))
    ensures UseKept(geo, s.disk, s.disk[b := data])
    ensures Counted(geo, s.disk) ==> Counted(geo, s.disk[b := data])
  {
    hide Follow, Used, Shape, Guarded, Counted, PathOk, Below, Locate, Fan;
    OkParts(geo, meta, s, 0);
    assert Placed(geo, s.disk, meta, s.roots, s.own, b);
    RewriteKeepsUse(geo, s.disk, meta, b, data);
    var e := s.disk[b := data];
    KeptTree(geo, s.disk, e, meta, s.roots, s.own);
    forall i: nat, j: nat
      ensures Map(geo, s.(disk := e), i, j) == Map(geo, s, i, j)
    {
      if Locate(Fan(geo), j) == [] {
        PlaceOfNothing(s, i);
        PlaceOfNothing(s.(disk := e), i);
      } else {
        LocateIndex(geo, j);
      }
    }
  }

  /** Storing one data block changes the bytes of that one block of that one file. */
  lemma StoreBytes(geo: Geo, meta: set<nat>, s: State, ino: nat, i: nat, data: Block, ino': nat, x: nat)
    requires Ok(geo, meta, s) && Map(geo, s, ino, i) != 0 && |data| == geo.bs
    requires SameMap(geo, s, s.(disk := s.disk[Map(geo, s, ino, i) := data]))
    ensures ByteAt(geo, s.(disk := s.disk[Map(geo, s, ino, i) := data]), ino', x) ==
            if ino' == ino && Ix(geo, x) == i then Byte(data, Off(geo, x)) else ByteAt(geo, s, ino', x)
  {
    hide Ok, Map, Ix, Off, Byte;
    var t := s.(disk := s.disk[Map(geo, s, ino, i) := data]);
    assert Map(geo, t, ino', Ix(geo, x)) == Map(geo, s, ino', Ix(geo, x));
    if Map(geo, s, ino', Ix(geo, x)) == Map(geo, s, ino, i) {
      MapInjective(geo, meta, s, ino, i, ino', Ix(geo, x));
    }
  }

  /** `n` consecutive file blocks sit on `n` consecutive disk blocks. */
  ghost predicate Consecutive(geo: Geo, s: State, ino: nat, i: nat, first: nat, n: nat) {
    first != 0 && forall k: nat :: k < n ==> OnRun(geo, s, ino, i, first, k)
  }

  predicate OnRun(geo: Geo, s: State, ino: nat, i: nat, first: nat, k: nat) {
    Map(geo, s, ino, i + k) == first + k
  }

  ghost predicate RunStored(geo: Geo, s: State, t: State, ino: nat, i: nat, blocks: seq<Block>, n: nat)
    requires n <= |blocks|
  {
    forall ino': nat, x: nat :: ByteAt(geo, t, ino', x) ==
      if ino' == ino && i <= Ix(geo, x) < i + n then Byte(blocks[Ix(geo, x) - i], Off(geo, x))
          else ByteAt(geo, s, ino', x)
  }

  /** A run of blocks written past the cache is those file blocks stored one by one. */
  lemma {:induction false} RunBytes(geo: Geo, meta: set<nat>, s: State, ino: nat, i: nat, first: nat,
      blocks: seq<Block>, n: nat)
    requires Ok(geo, meta, s) && n <= |blocks| && Consecutive(geo, s, ino, i, first, n)
    requires forall k :: 0 <= k < |blocks| ==> |blocks[k]| == geo.bs
    ensures var t := s.(disk := PutRun(s.disk, first, blocks, n));
            && Ok(geo, meta, t) && SameMap(geo, s, t) && RunStored(geo, s, t, ino, i, blocks, n)
            && UseKept(geo, s.disk, t.disk)
            && (Counted(geo, s.disk) ==> Counted(geo, t.disk))
  {
    hide Ok, Map, Ix, Off, Byte, Counted, ByteAt, Used;
    if n != 0 {
      RunBytes(geo, meta, s, ino, i, first, blocks, n - 1);
      var u := s.(disk := PutRun(s.disk, first, blocks, n - 1));
      var t := s.(disk := PutRun(s.disk, first, blocks, n));
      assert OnRun(geo, s, ino, i, first, n - 1);
      assert Map(geo, u, ino, i + n - 1) == first + n - 1;
      MapOk(geo, meta, u, ino, i + n - 1);
      StoreKeepsTree(geo, meta, u, first + n - 1, blocks[n - 1]);
      forall ino': nat, x: nat
        ensures ByteAt(geo, t, ino', x) ==
                if ino' == ino && i <= Ix(geo, x) < i + n then Byte(blocks[Ix(geo, x) - i], Off(geo, x))
                    else ByteAt(geo, s, ino', x)
      {
        StoreBytes(geo, meta, u, ino, i + n - 1, blocks[n - 1], ino', x);
        assert ByteAt(geo, u, ino', x) ==
          if ino' == ino && i <= Ix(geo, x) < i + n - 1 then Byte(blocks[Ix(geo, x) - i], Off(geo, x))
              else ByteAt(geo, s, ino', x);
      }
    }
  }

  // ---------------------------------------------------------------- adding

  /** The new block of file block `i`, if there is one, reads as the hole it filled. */
  ghost predicate FilledWithZeros(geo: Geo, s: State, t: State, ino: nat, i: nat) {
    Map(geo, s, ino, i) == 0 && Map(geo, t, ino, i) != 0 ==> At(t.disk, Map(geo, t, ino, i)) == Zeros(geo.bs)
  }

  /** Adding at file block `i` changes no byte outside it, and none at all if zeros fill it. */
  lemma AddBytes(geo: Geo, meta: set<nat>, s: State, t: State, ino: nat, i: nat, ino': nat, x: nat)
    requires Ok(geo, meta, s) && Fan(geo) > 0 && Extends(geo, s, t, ino, Locate(Fan(geo), i))
    requires ino' != ino || Ix(geo, x) != i || FilledWithZeros(geo, s, t, ino, i)
    ensures ByteAt(geo, t, ino', x) == ByteAt(geo, s, ino', x)
  {
    hide Ok, Ix, Off, Locate, Fan, Place, PathOk, Used, Below;
    var j := Ix(geo, x);
    MapOk(geo, meta, s, ino', j);
    if Locate(Fan(geo), j) == [] {
      PlaceOfNothing(s, ino');
      PlaceOfNothing(t, ino');
    } else {
      LocateIndex(geo, j);
      if ino' != ino || j != i {
        if Locate(Fan(geo), i) == [] {
          PathNonempty(geo, Locate(Fan(geo), j));
          assert !(Locate(Fan(geo), j) <= Locate(Fan(geo), i));
        } else {
          OthersStay(geo, s, t, ino, i, ino', j);
        }
      }
    }
  }

  // ---------------------------------------------------------------- writing a file

  /** From `s` to `t`, the first `done` bytes of `src` reached file `ino` at `off`, on real blocks;
      outside the range being written no byte of any file changed. */
  ghost predicate Wrote(geo: Geo, s: State, t: State, ino: nat, off: nat, src: seq<byte>, done: nat) {
    && done <= |src|
    && (forall ino': nat, x: nat :: ino' != ino || x < off || off + |src| <= x ==>
        ByteAt(geo, t, ino', x) == ByteAt(geo, s, ino', x))
    && (forall x: nat :: off <= x < off + done ==> ByteAt(geo, t, ino, x) == src[x - off])
    && (forall x: nat :: off <= x < off + done ==> Map(geo, t, ino, Ix(geo, x)) != 0)
  }

  lemma WroteNothing(geo: Geo, s: State, ino: nat, off: nat, src: seq<byte>)
    ensures Wrote(geo, s, s, ino, off, src, 0)
  {
  }

  /** All of file block `i` is still to be overwritten. */
  ghost predicate Unwritten(geo: Geo, i: nat, off: nat, src: seq<byte>, done: nat) {
    forall x: nat :: Ix(geo, x) == i ==> off + done <= x < off + |src|
  }

  lemma WroteAdd(geo: Geo, meta: set<nat>, s: State, t: State, u: State, ino: nat, i: nat, off: nat, src: seq<byte>,
      done: nat)
    requires Wrote(geo, s, t, ino, off, src, done) && Ok(geo, meta, t)
    requires Fan(geo) > 0 && Extends(geo, t, u, ino, Locate(Fan(geo), i))
    requires FilledWithZeros(geo, t, u, ino, i) || Unwritten(geo, i, off, src, done)
    ensures Wrote(geo, s, u, ino, off, src, done)
  {
    hide Ok, Ix, Off, ByteAt, Locate, Fan, Extends, Map, FilledWithZeros;
    forall ino': nat, x: nat | ino' != ino || x < off + done || off + |src| <= x
      ensures ByteAt(geo, u, ino', x) == ByteAt(geo, t, ino', x)
    {
      AddBytes(geo, meta, t, u, ino, i, ino', x);
    }
    forall x: nat | off <= x < off + done
      ensures Map(geo, u, ino, Ix(geo, x)) != 0
    {
      StaysMapped(geo, meta, t, u, ino, i, Ix(geo, x));
    }
  }

  lemma StaysMapped(geo: Geo, meta: set<nat>, s: State, t: State, ino: nat, i: nat, j: nat)
    requires Ok(geo, meta, s) && Fan(geo) > 0 && Extends(geo, s, t, ino, Locate(Fan(geo), i)) &&
             Map(geo, s, ino, j) != 0
    ensures Map(geo, t, ino, j) == Map(geo, s, ino, j)
  {
    hide Ok, Locate, Fan, Place, PathOk, Used, Below;
    MapOk(geo, meta, s, ino, j);
    LocateIndex(geo, j);
  }

  /** A block with `piece` laid over it from `at` on. */
  function Splice(b: Block, at: nat, piece: seq<byte>): (r: Block)
    requires at + |piece| <= |b|
    ensures |r| == |b|
  {
    b[..at] + piece + b[at + |piece|..]
  }

  lemma SpliceByte(b: Block, at: nat, piece: seq<byte>, k: nat)
    requires at + |piece| <= |b|
    ensures Byte(Splice(b, at, piece), k) == if at <= k < at + |piece| then piece[k - at] else Byte(b, k)
  {
  }

  /** The cached path: read a block, lay the piece over it, write it. */
  lemma WroteChunk(geo: Geo, meta: set<nat>, s: State, t: State, ino: nat, off: nat, src: seq<byte>, done: nat,
      chunk: nat)
    requires Wrote(geo, s, t, ino, off, src, done) && Ok(geo, meta, t) && done + chunk <= |src|
    requires Off(geo, off + done) + chunk <= geo.bs && Map(geo, t, ino, Ix(geo, off + done)) != 0
    ensures var b := Map(geo, t, ino, Ix(geo, off + done));
            && |At(t.disk, b)| == geo.bs
            && var data := Splice(At(t.disk, b), Off(geo, off + done), src[done..done + chunk]);
               && Ok(geo, meta, t.(disk := t.disk[b := data]))
               && Wrote(geo, s, t.(disk := t.disk[b := data]), ino, off, src, done + chunk)
               && (Counted(geo, t.disk) ==> Counted(geo, t.disk[b := data]))
               && Rewrote(geo, t, t.(disk := t.disk[b := data]), ino, off + done, off + done + chunk)
  {
    hide Used, UseKept, Ok, Ix, Off, Map, Byte, Splice, Tree, GeoOk, Counted;
    var o := off + done;
    var i := Ix(geo, o);
    var b := Map(geo, t, ino, i);
    MapOk(geo, meta, t, ino, i);
    OkParts(geo, meta, t, ino);
    Shape1(geo, t.disk, meta);
    var piece := src[done..done + chunk];
    var data := Splice(At(t.disk, b), Off(geo, o), piece);
    StoreKeepsTree(geo, meta, t, b, data);
    var u := t.(disk := t.disk[b := data]);
    forall ino': nat, x: nat
      ensures ByteAt(geo, u, ino', x) == if ino' == ino && o <= x < o + chunk then src[x - off]
              else ByteAt(geo, t, ino', x)
    {
      ChunkByte(geo, meta, t, u, ino, o, piece, ino', x);
    }
    forall x: nat | off <= x < o + chunk
      ensures Map(geo, u, ino, Ix(geo, x)) != 0
    {
      if o <= x { ChunkByte(geo, meta, t, u, ino, o, piece, ino, x); }
    }
  }

  lemma ChunkByte(geo: Geo, meta: set<nat>, t: State, u: State, ino: nat, o: nat, piece: seq<byte>, ino': nat, x: nat)
    requires Ok(geo, meta, t) && Map(geo, t, ino, Ix(geo, o)) != 0 && SameMap(geo, t, u)
    requires Off(geo, o) + |piece| <= |At(t.disk, Map(geo, t, ino, Ix(geo, o)))| == geo.bs
    requires var b := Map(geo, t, ino, Ix(geo, o));
             u == t.(disk := t.disk[b := Splice(At(t.disk, b), Off(geo, o), piece)])
    ensures ByteAt(geo, u, ino', x) ==
            if ino' == ino && o <= x < o + |piece| then piece[x - o] else ByteAt(geo, t, ino', x)
    ensures o <= x < o + |piece| ==> Ix(geo, x) == Ix(geo, o)
  {
    hide Ok, Ix, Off, Map, Byte, Splice, Tree, SameMap;
    OkParts(geo, meta, t, ino);
    var b := Map(geo, t, ino, Ix(geo, o));
    var data := Splice(At(t.disk, b), Off(geo, o), piece);
    StoreBytes(geo, meta, t, ino, Ix(geo, o), data, ino', x);
    SpliceByte(At(t.disk, b), Off(geo, o), piece, Off(geo, x));
    if o <= x < o + |piece| { InBlock(geo, o, x - o); }
    if Ix(geo, x) == Ix(geo, o) { BlockReach(geo, o, x); }
  }

  /** Whole blocks of the source. */
  function Piece(src: seq<byte>, at: nat, bs: nat): (r: Block)
    ensures |r| == bs
  {
    if at + bs <= |src| then src[at..at + bs] else Zeros(bs)
  }

  function Cut(src: seq<byte>, at: nat, bs: nat, n: nat): (r: seq<Block>)
    ensures |r| == n && forall k :: 0 <= k < n ==> r[k] == Piece(src, at + k * bs, bs)
  {
    seq(n, k requires 0 <= k < n => Piece(src, at + k * bs, bs))
  }

  lemma CutFits(at: nat, bs: nat, n: nat, k: nat, len: nat)
    requires k < n && at + n * bs <= len
    ensures at + k * bs + bs <= len
  {
    MulLe(k + 1, n, bs);
    assert (k + 1) * bs == k * bs + bs;
  }

  lemma RunPos(geo: Geo, o: nat, x: nat)
    requires GeoOk(geo) && Off(geo, o) == 0 && Ix(geo, o) <= Ix(geo, x)
    ensures x == o + (Ix(geo, x) - Ix(geo, o)) * geo.bs + Off(geo, x) && Off(geo, x) < geo.bs
  {
    var bs, q := geo.bs, o / geo.bs;
    Distribute(q, Ix(geo, x) - q, bs);
  }

  lemma Distribute(a: nat, b: nat, n: nat)
    ensures (a + b) * n == a * n + b * n
  {
  }

  lemma CutByte(geo: Geo, src: seq<byte>, off: nat, at: nat, n: nat, x: nat)
    requires GeoOk(geo) && at + n * geo.bs <= |src| && Off(geo, off + at) == 0
    requires off + at <= x < off + at + n * geo.bs
    ensures Ix(geo, off + at) <= Ix(geo, x) < Ix(geo, off + at) + n
    ensures Byte(Cut(src, at, geo.bs, n)[Ix(geo, x) - Ix(geo, off + at)], Off(geo, x)) == src[x - off]
  {
    hide Ix, Off, Cut, GeoOk;
    InRun(geo, off + at, n, x);
    RunPos(geo, off + at, x);
    CutFits(at, geo.bs, n, Ix(geo, x) - Ix(geo, off + at), |src|);
  }

  /** The direct path: whole blocks, written in one run. */
  lemma WroteRun(geo: Geo, meta: set<nat>, s: State, t: State, ino: nat, off: nat, src: seq<byte>, done: nat,
      first: nat, n: nat)
    requires Wrote(geo, s, t, ino, off, src, done) && Ok(geo, meta, t) && done + n * geo.bs <= |src|
    requires Off(geo, off + done) == 0 && Consecutive(geo, t, ino, Ix(geo, off + done), first, n)
    ensures var u := t.(disk := PutRun(t.disk, first, Cut(src, done, geo.bs, n), n));
            && Ok(geo, meta, u) && Wrote(geo, s, u, ino, off, src, done + n * geo.bs)
            && (Counted(geo, t.disk) ==> Counted(geo, u.disk))
            && Rewrote(geo, t, u, ino, off + done, off + done + n * geo.bs)
  {
    hide Used, UseKept, Ok, Ix, Off, Map, Byte, Cut, Tree, ByteAt, Counted, GeoOk;
    OkParts(geo, meta, t, ino);
    var blocks := Cut(src, done, geo.bs, n);
    var o := off + done;
    RunBytes(geo, meta, t, ino, Ix(geo, o), first, blocks, n);
    var u := t.(disk := PutRun(t.disk, first, blocks, n));
    forall ino': nat, x: nat
      ensures ByteAt(geo, u, ino', x) == if ino' == ino && o <= x < o + n * geo.bs then src[x - off]
              else ByteAt(geo, t, ino', x)
    {
      InRun(geo, o, n, x);
      if o <= x < o + n * geo.bs { CutByte(geo, src, off, done, n, x); }
    }
    forall x: nat | o <= x < o + n * geo.bs
      ensures Map(geo, u, ino, Ix(geo, x)) != 0
    {
      InRun(geo, o, n, x);
      assert OnRun(geo, t, ino, Ix(geo, o), first, Ix(geo, x) - Ix(geo, o));
    }
  }

  // ---------------------------------------------------------------- reading a file

  function Contents(geo: Geo, s: State, ino: nat, off: nat, n: nat): (r: seq<byte>)
    ensures |r| == n
  {
    seq<byte>(n, k requires 0 <= k < n => ByteAt(geo, s, ino, off + k))
  }

  lemma ContentsJoin(geo: Geo, s: State, ino: nat, off: nat, m: nat, n: nat)
    ensures Contents(geo, s, ino, off, m) + Contents(geo, s, ino, off + m, n) == Contents(geo, s, ino, off, m + n)
  {
    var l, r := Contents(geo, s, ino, off, m) + Contents(geo, s, ino, off + m, n), Contents(geo, s, ino, off, m + n);
    forall k | 0 <= k < m + n
      ensures l[k] == r[k]
    {
      if k >= m { assert off + m + (k - m) == off + k; }
    }
  }

  /** What the cached path copies out of a block. */
  function Copied(b: nat, block: Block, within: nat, chunk: nat): seq<byte>
    requires b != 0 ==> within + chunk <= |block|
  {
    if b == 0 then Zeros(chunk) else block[within..within + chunk]
  }

  lemma ContentsAt(geo: Geo, s: State, ino: nat, off: nat, n: nat, k: nat)
    requires k < n
    ensures Contents(geo, s, ino, off, n)[k] == ByteAt(geo, s, ino, off + k)
  {
    hide ByteAt;
  }

  lemma ChunkContents(geo: Geo, s: State, ino: nat, o: nat, chunk: nat)
    requires GeoOk(geo) && Off(geo, o) + chunk <= geo.bs
    requires var b := Map(geo, s, ino, Ix(geo, o)); b != 0 ==> |At(s.disk, b)| == geo.bs
    ensures var b := Map(geo, s, ino, Ix(geo, o));
            Contents(geo, s, ino, o, chunk) == Copied(b, At(s.disk, b), Off(geo, o), chunk)
  {
    hide Ix, Off, Map, GeoOk, At, Contents;
    var b := Map(geo, s, ino, Ix(geo, o));
    forall k: nat | k < chunk
      ensures Contents(geo, s, ino, o, chunk)[k] == Copied(b, At(s.disk, b), Off(geo, o), chunk)[k]
    {
      InBlock(geo, o, k);
      ContentsAt(geo, s, ino, o, chunk, k);
    }
  }

  function Join(blocks: seq<Block>): seq<byte> {
    if |blocks| == 0 then [] else Join(blocks[..|blocks| - 1]) + blocks[|blocks| - 1]
  }

  /** What the direct path reads: the blocks of a run, one after the other. */
  lemma {:induction false} RunContents(geo: Geo, meta: set<nat>, s: State, ino: nat, o: nat, first: nat,
      blocks: seq<Block>)
    requires Ok(geo, meta, s) && Off(geo, o) == 0 && Consecutive(geo, s, ino, Ix(geo, o), first, |blocks|)
    requires forall k :: 0 <= k < |blocks| ==> blocks[k] == At(s.disk, first + k)
    ensures Contents(geo, s, ino, o, |blocks| * geo.bs) == Join(blocks)
  {
    hide Ix, Off, Map, GeoOk, Ok, Contents, Tree;
    var n := |blocks|;
    if n == 0 {
      assert |Contents(geo, s, ino, o, 0)| == 0;
    } else {
      RunContents(geo, meta, s, ino, o, first, blocks[..n - 1]);
      LastBlock(geo, meta, s, ino, o, first, n);
      ContentsJoin(geo, s, ino, o, (n - 1) * geo.bs, geo.bs);
      assert (n - 1) * geo.bs + geo.bs == n * geo.bs;
    }
  }

  lemma LastBlock(geo: Geo, meta: set<nat>, s: State, ino: nat, o: nat, first: nat, n: nat)
    requires Ok(geo, meta, s) && Off(geo, o) == 0 && Consecutive(geo, s, ino, Ix(geo, o), first, n) && n > 0
    ensures Contents(geo, s, ino, o + (n - 1) * geo.bs, geo.bs) == At(s.disk, first + (n - 1))
  {
    hide Ix, Off, Map, GeoOk, Ok, Contents, Tree;
    OkParts(geo, meta, s, ino);
    assert OnRun(geo, s, ino, Ix(geo, o), first, n - 1);
    MapOk(geo, meta, s, ino, Ix(geo, o) + (n - 1));
    Shape1(geo, s.disk, meta);
    NextBlock(geo, o, n - 1);
    ChunkContents(geo, s, ino, o + (n - 1) * geo.bs, geo.bs);
  }

  lemma NextBlock(geo: Geo, o: nat, k: nat)
    requires GeoOk(geo) && Off(geo, o) == 0
    ensures Ix(geo, o + k * geo.bs) == Ix(geo, o) + k && Off(geo, o + k * geo.bs) == 0
  {
    assert o + k * geo.bs == (o / geo.bs + k) * geo.bs;
    DivMod(o + k * geo.bs, geo.bs, o / geo.bs + k, 0);
  }

  /** Reading back what was written gives what was written. */
  lemma ReadBack(geo: Geo, s: State, t: State, ino: nat, off: nat, src: seq<byte>)
    requires Wrote(geo, s, t, ino, off, src, |src|)
    ensures Contents(geo, t, ino, off, |src|) == src
  {
    hide ByteAt, Map, Ix;
  }

  /** Reading anywhere else, in this file or another, gives what was there. */
  lemma ReadElsewhere(geo: Geo, s: State, t: State, ino: nat, off: nat, src: seq<byte>, done: nat, ino': nat, at: nat,
      n: nat)
    requires Wrote(geo, s, t, ino, off, src, done)
    requires ino' != ino || at + n <= off || off + |src| <= at
    ensures Contents(geo, t, ino', at, n) == Contents(geo, s, ino', at, n)
  {
    hide ByteAt, Map, Ix;
  }
}
