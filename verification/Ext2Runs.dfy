/** Whole runs of writes and truncations on an ext2 volume, byte by byte, as the inodes that are stored
    show it (kernel/src/vfs.c, kernel/src/ext2.c). */
module Ext2Runs {
  import opened Bytes
  import opened Ext2Disk
  import opened Ext2Volume
  import opened Ext2State
  import opened Ext2Bytes
  import opened Ext2Truncate
  import opened Ext2Stored
  import opened Ext2Files

  // ---------------------------------------------------------------- the calls

  /** `read_inode`: a copy of a stored inode, fit for every operation of the file system. */
  method ReadInode(fs: FileSystem, ino: nat) returns (ok: bool, node: Inode?)
    requires fs.Valid() && fs.Synced()
    modifies fs.vol.cache
    ensures fs.Valid() && fs.vol.cache.view == old(fs.vol.cache.view)
    ensures ok ==> node != null && fresh(node) && node.ino == ino && ino in fs.table && fs.Holds(node)
    ensures ok ==> node.size == fs.table[ino].size
    ensures fs.vol.cache.reliable ==> (ok <==> ino in fs.table)
  {
    hide Ok;
    node := null;
    if ino !in fs.table { return false, null; }
    ok := fs.vol.cache.DeviceCall();
    if ok { node := new Inode(ino, fs.table[ino].blocks, fs.table[ino].size); }
  }

  /** `vfs_write` on an ext2 file: the copy of the inode that the call works on is dropped afterwards, so
      when the call fails the file is what the stored inode still shows. */
  method WriteStored(fs: FileSystem, node: Inode, off: nat, src: seq<byte>) returns (rc: int, ghost done: nat)
    requires fs.Valid() && fs.Synced() && fs.Holds(node)
    modifies fs, fs.vol, fs.vol.cache
    ensures fs.Valid() && fs.Synced() && fs.table.Keys == old(fs.table).Keys && (rc < 0 ==> fs.Holds(node))
    ensures rc < 0 ==> rc in {-ENOSPC, -EIO, -EFBIG} && fs.table == old(fs.table) && fs.roots == old(fs.roots)
    ensures rc >= 0 ==> rc == |src| && Wrote(fs.vol.geo, old(fs.S()), fs.S(), node.ino, off, src, |src|)
    ensures rc < 0 ==> Wrote(fs.vol.geo, old(fs.S()), fs.S(), node.ino, off, src, 0)
    ensures rc < 0 ==>
              FailedWrite(fs.vol.geo, old(fs.S()), fs.S(), node.ino, off, src, done, fs.vol.cache.reliable)
  {
    hide Ok, Wrote, FailedWrite, Grew, Counted, Full, TooFar;
    ghost var stored := fs.roots;
    var ext := new Inode(node.ino, node.blocks, node.size);
    rc, done := fs.WriteFile(ext, off, src);
    GrewOthers(stored, fs.roots, node.ino);
    if rc < 0 {
      ghost var p := Pruned(fs.S(), stored);
      fs.roots, fs.own := p.roots, p.own;
    }
  }

  // ---------------------------------------------------------------- runs

  /** What one call has done: `Failed` after `done` bytes, with the device failing or (`clean`) not. */
  datatype Op =
    | Put(ino: nat, off: nat, src: seq<byte>)
    | Failed(ino: nat, off: nat, src: seq<byte>, done: nat, clean: bool)
    | Empty(ino: nat)
    | Kept

  ghost predicate SameBytes(geo: Geo, s: State, t: State) {
    forall ino: nat, x: nat :: ByteAt(geo, t, ino, x) == ByteAt(geo, s, ino, x)
  }

  ghost predicate Done(geo: Geo, s: State, t: State, op: Op) {
    match op
    case Put(ino, off, src) => Wrote(geo, s, t, ino, off, src, |src|)
    case Failed(ino, off, src, done, clean) =>
      Wrote(geo, s, t, ino, off, src, 0) && FailedWrite(geo, s, t, ino, off, src, done, clean)
    case Empty(ino) => OnlyZeroed(geo, s, t, ino)
    case Kept => SameBytes(geo, s, t)
  }

  ghost predicate StepAt(geo: Geo, trace: seq<State>, ops: seq<Op>, k: nat) {
    k < |ops| && k + 1 < |trace| && Done(geo, trace[k], trace[k + 1], ops[k])
  }

  ghost predicate Ran(geo: Geo, trace: seq<State>, ops: seq<Op>) {
    |trace| == |ops| + 1 && forall k: nat :: k < |ops| ==> StepAt(geo, trace, ops, k)
  }

  /** What is known of a byte: its value, or nothing once a write has been over it that a device failure
      cut short. */
  datatype Known = Is(value: byte) | Unknown

  function After(geo: Geo, b: Known, s: State, op: Op, ino: nat, x: nat): Known {
    match op
    case Put(i, off, src) => if i == ino && off <= x < off + |src| then Is(src[x - off]) else b
    case Failed(i, off, src, done, clean) =>
      if i != ino || x < off || off + |src| <= x || !SlotThere(geo, s.roots, ino, x) then b
      else if x < off + done then Is(src[x - off])
      else if clean then b
      else Unknown
    case Empty(i) => if i == ino then Is(0) else b
    case Kept => b
  }

  function Expected(geo: Geo, b: Known, trace: seq<State>, ops: seq<Op>, ino: nat, x: nat): Known
    requires |ops| <= |trace|
  {
    if ops == [] then b
    else
      var n := |ops| - 1;
      After(geo, Expected(geo, b, trace, ops[..n], ino, x), trace[n], ops[n], ino, x)
  }

  lemma StepByte(geo: Geo, s: State, t: State, op: Op, ino: nat, x: nat, b: Known)
    requires Done(geo, s, t, op) && (b.Is? ==> ByteAt(geo, s, ino, x) == b.value)
    ensures var e := After(geo, b, s, op, ino, x); e.Is? ==> ByteAt(geo, t, ino, x) == e.value
  {
    hide ByteAt, Map, SlotThere;
  }

  /** No call was cut short by the device. */
  predicate Clean(ops: seq<Op>) {
    forall k :: 0 <= k < |ops| && ops[k].Failed? ==> ops[k].clean
  }

  /** Over any run, every byte of every file is what the last write over it put there, or zero since the
      file was last emptied, or what it was at the start; a write that fails counts as far as it got, and
      only under slots the stored inode had. Where the device has never failed this decides every byte;
      otherwise all but those past the point where it cut a write short. */
  lemma {:induction false} RunBytesExpected(geo: Geo, trace: seq<State>, ops: seq<Op>, ino: nat, x: nat)
    requires Ran(geo, trace, ops)
    ensures var e := Expected(geo, Is(ByteAt(geo, trace[0], ino, x)), trace, ops, ino, x);
            && (e.Is? ==> ByteAt(geo, trace[|ops|], ino, x) == e.value)
            && (Clean(ops) ==> e.Is?)
    decreases |ops|
  {
    hide Done, ByteAt, SlotThere;
    if ops == [] {
    } else {
      var n := |ops| - 1;
      var before, first := trace[..n + 1], ops[..n];
      forall k: nat | k < n
        ensures StepAt(geo, before, first, k)
      {
        assert StepAt(geo, trace, ops, k);
      }
      assert StepAt(geo, trace, ops, n);
      RunBytesExpected(geo, before, first, ino, x);
      var b := Is(ByteAt(geo, trace[0], ino, x));
      ExpectedPrefix(geo, b, before, trace, first, ino, x);
      StepByte(geo, trace[n], trace[n + 1], ops[n], ino, x, Expected(geo, b, trace, first, ino, x));
    }
  }

  lemma {:induction false} ExpectedPrefix(geo: Geo, b: Known, before: seq<State>, trace: seq<State>, ops: seq<Op>,
      ino: nat, x: nat)
    requires |ops| <= |before| && before <= trace
    ensures Expected(geo, b, before, ops, ino, x) == Expected(geo, b, trace, ops, ino, x)
    decreases |ops|
  {
    if ops == [] {
    } else {
      ExpectedPrefix(geo, b, before, trace, ops[..|ops| - 1], ino, x);
    }
  }

  // ---------------------------------------------------------------- every run is one of these

  datatype Request = WriteAt(ino: nat, off: nat, src: seq<byte>) | Resize(ino: nat, size: nat)

  /** The outcomes a request can have; `Kept` if the inode cannot be read or no byte is concerned. */
  predicate Serves(req: Request, op: Op, inodes: set<nat>, reliable: bool) {
    && (reliable && req.ino in inodes && op == Kept ==> req.Resize? && req.size != 0)
    && match req
       case WriteAt(ino, off, src) =>
         || op == Put(ino, off, src) || op == Kept
         || (op.Failed? && op.ino == ino && op.off == off && op.src == src && op.clean == reliable)
       case Resize(ino, size) => op == Kept || (size == 0 && op == Empty(ino))
  }

  /** One call, on a copy of the stored inode; not `done` if it is a truncation that returns false. It
      leaves the file system sound, unless it is a truncation that gave blocks back and could not store
      the inode. */
  method Serve(fs: FileSystem, req: Request) returns (done: bool, ghost op: Op, ghost freed: set<nat>)
    requires fs.Valid() && fs.Synced()
    modifies fs, fs.vol, fs.vol.cache
    ensures fs.Synced() && (fs.Valid() <==> freed == {})
    ensures freed == {} ==>
              Serves(req, op, old(fs.table).Keys, fs.vol.cache.reliable) && Done(fs.vol.geo, old(fs.S()), fs.S(), op)
    ensures fs.table.Keys == old(fs.table).Keys
    ensures freed != {} ==> req.Resize? && req.size == 0 && freed <= FileBlocks(old(fs.own), req.ino)
    ensures freed != {} ==>
              && fs.S() == Stale(old(fs.S()), fs.vol.disk)
              && FreedFrom(fs.vol.geo, fs.vol.meta, old(fs.S()), fs.vol.disk, freed)
    ensures (done ==> freed == {}) && (fs.vol.cache.reliable ==> done)
    ensures !done ==> SameBytes(fs.vol.geo, old(fs.S()), fs.S())
  {
    hide Ok, Wrote, FailedWrite, OnlyZeroed, FreedFrom, Counted, Used, ByteAt;
    done, op, freed := true, Kept, {};
    var ok, node := ReadInode(fs, req.ino);
    if !ok { return; }
    match req
    case WriteAt(ino, off, src) =>
      var rc, far := WriteStored(fs, node, off, src);
      op := if rc >= 0 then Put(ino, off, src) else Failed(ino, off, src, far, fs.vol.cache.reliable);
    case Resize(ino, size) =>
      ghost var s := fs.S();
      ghost var gone;
      done, gone := fs.Truncate(node, size);
      if !done {
        freed := gone;
        StaleBytes(fs.vol.geo, fs.vol.meta, s, fs.vol.disk, gone);
      } else if size == 0 {
        op := Empty(ino);
      }
  }

  lemma StaleBytes(geo: Geo, meta: set<nat>, s: State, d: Blocks, freed: set<nat>)
    requires Ok(geo, meta, s) && FreedFrom(geo, meta, s, d, freed)
    ensures SameBytes(geo, s, Stale(s, d))
  {
    hide Ok, FreedFrom, ByteAt;
    forall ino: nat, x: nat
      ensures ByteAt(geo, Stale(s, d), ino, x) == ByteAt(geo, s, ino, x)
    {
      StaleByte(geo, meta, s, d, freed, ino, x);
    }
  }

  /** Any list of calls, one after the other, up to a truncation that returns false: if that one has given
      blocks back, it is where the file system stops being sound; if not, the run can go on from there. */
  method Run(fs: FileSystem, reqs: seq<Request>)
      returns (n: nat, ghost trace: seq<State>, ghost ops: seq<Op>, ghost freed: set<nat>)
    requires fs.Valid() && fs.Synced()
    modifies fs, fs.vol, fs.vol.cache
    ensures n <= |reqs| && |ops| == n && Ran(fs.vol.geo, trace, ops) && trace[0] == old(fs.S())
    ensures forall k :: 0 <= k < n ==> Serves(reqs[k], ops[k], fs.table.Keys, fs.vol.cache.reliable)
    ensures fs.table.Keys == old(fs.table).Keys
    ensures fs.Synced() && (fs.Valid() <==> freed == {})
    ensures SameBytes(fs.vol.geo, trace[n], fs.S())
    ensures n == |reqs| ==> freed == {} && trace[n] == fs.S()
    ensures freed != {} ==>
              && reqs[n] == Resize(reqs[n].ino, 0) && fs.S() == Stale(trace[n], fs.vol.disk)
              && FreedFrom(fs.vol.geo, fs.vol.meta, trace[n], fs.vol.disk, freed)
    ensures fs.vol.cache.reliable ==> n == |reqs| && Clean(ops)
  {
    hide Ok, Done, FreedFrom, ByteAt;
    n, trace, ops, freed := 0, [fs.S()], [], {};
    while n < |reqs|
      invariant n <= |reqs| && |ops| == n && Ran(fs.vol.geo, trace, ops) && trace[0] == old(fs.S())
      invariant forall k :: 0 <= k < n ==> Serves(reqs[k], ops[k], fs.table.Keys, fs.vol.cache.reliable)
      invariant fs.table.Keys == old(fs.table).Keys
      invariant fs.Valid() && fs.Synced() && trace[n] == fs.S() && freed == {}
    {
      var done;
      ghost var op;
      done, op, freed := Serve(fs, reqs[n]);
      if !done { return; }
      RanStep(fs.vol.geo, trace, ops, fs.S(), op);
      trace, ops := trace + [fs.S()], ops + [op];
      n := n + 1;
    }
  }

  lemma RanStep(geo: Geo, trace: seq<State>, ops: seq<Op>, t: State, op: Op)
    requires Ran(geo, trace, ops) && Done(geo, trace[|ops|], t, op)
    ensures Ran(geo, trace + [t], ops + [op])
  {
    hide Done;
    forall k: nat | k < |ops| + 1
      ensures StepAt(geo, trace + [t], ops + [op], k)
    {
      if k < |ops| { assert StepAt(geo, trace, ops, k); }
    }
  }
}
