/** Whole runs of file operations on the RAM file system, against plain byte sequences. */
module RamfsRuns {
  import opened Bytes
  import opened RamfsSlots
  import opened Ramfs

  datatype State = State(slots: seq<Slot>, nodes: seq<Node>)

  datatype Op =
    | Write(i: int, off: nat, src: seq<byte>)
    | Truncate(i: int, size: nat)
    | Retain(i: int)
    | Release(i: int)
    | Unlink(i: int)

  /** Node `j` is a file with pages of its own. */
  predicate Alive(s: State, j: nat) {
    j < |s.nodes| && s.nodes[j].used && s.nodes[j].writable
  }

  /** What the operation leaves behind when it succeeds. */
  ghost predicate Done(s: State, t: State, op: Op) {
    match op
    case Write(i, off, src) => 0 <= i && Alive(s, i) &&
        WriteDone(s.slots, s.nodes, t.slots, t.nodes, i, off, src, |src|, |src|)
    case Truncate(i, size) => 0 <= i && Alive(s, i) && TruncateDone(s.slots, s.nodes, t.slots, t.nodes, i, size)
    case Retain(i) => 0 <= i < |s.nodes| && t == s.(nodes := s.nodes[i := s.nodes[i].(refs := s.nodes[i].refs + 1)])
    case Release(i) => ReleaseDone(s.slots, s.nodes, t.slots, t.nodes, i)
    case Unlink(i) => UnlinkDone(s.slots, s.nodes, t.slots, t.nodes, i)
  }

  /** A run: each operation leads from its state to the next. */
  ghost predicate Ran(trace: seq<State>, ops: seq<Op>) {
    |trace| == |ops| + 1 && forall k: nat :: k < |ops| ==> StepAt(trace, ops, k)
  }

  ghost predicate StepAt(trace: seq<State>, ops: seq<Op>, k: nat) {
    k < |ops| && k + 1 < |trace| && Done(trace[k], trace[k + 1], ops[k])
  }

  /** The operation on the sequence that file `j` is. */
  function PlayedOne(c: seq<byte>, op: Op, j: nat): seq<byte> {
    match op
    case Write(i, off, src) => if i == j then Overwritten(c, off, src) else c
    case Truncate(i, size) => if i == j then Resized(c, size) else c
    case _ => c
  }

  function Played(c: seq<byte>, ops: seq<Op>, j: nat): seq<byte> {
    if ops == [] then c else PlayedOne(Played(c, ops[..|ops| - 1], j), ops[|ops| - 1], j)
  }

  ghost function File(s: State, j: nat): seq<byte> {
    if j < |s.nodes| then Contents(s.slots, s.nodes[j], j) else []
  }

  ghost predicate Tidy(s: State, j: nat) {
    j < |s.nodes| && ZeroTail(s.slots, s.nodes[j], j)
  }

  /** A file's sequence depends on its size and its pages, not on who holds or names it. */
  lemma SameFile(slots: seq<Slot>, n: Node, m: Node, j: nat)
    requires m.size == n.size && m.writable && n.writable
    ensures Contents(slots, m, j) == Contents(slots, n, j) && (ZeroTail(slots, n, j) ==> ZeroTail(slots, m, j))
  {
    hide ByteAt;
  }

  /** One operation does to the file what it does to the sequence. */
  lemma StepPlays(s: State, t: State, op: Op, j: nat)
    requires Done(s, t, op) && Alive(s, j) && Alive(t, j) && Tidy(s, j)
    ensures File(t, j) == PlayedOne(File(s, j), op, j) && Tidy(t, j)
  {
    hide Contents, ZeroTail, Wrote, Cut, Overwritten, Resized;
    var n := s.nodes[j];
    match op
    case Write(i, off, src) =>
      if i == j {
        WriteIsOverwrite(s.slots, t.slots, n, j, off, src);
        SameFile(t.slots, n.(size := if off + |src| > n.size then off + |src| else n.size), t.nodes[j], j);
      } else {
        OtherContents(s.slots, t.slots, i, off, src, |src|, n, j);
      }
    case Truncate(i, size) =>
      if i == j {
        TruncateIsResize(s.slots, t.slots, n, j, size);
        SameFile(t.slots, n.(size := size), t.nodes[j], j);
      } else {
        OtherContents(s.slots, t.slots, i, size, [], 0, n, j);
      }
    case Retain(_) =>
      SameFile(s.slots, n, t.nodes[j], j);
    case Release(i) =>
      Elsewhere(s, t, i, j);
    case Unlink(i) =>
      Elsewhere(s, t, i, j);
  }

  /** Letting go of a node takes no other file's bytes, nor its own while it lives. */
  lemma Elsewhere(s: State, t: State, i: int, j: nat)
    requires Done(s, t, Release(i)) || Done(s, t, Unlink(i))
    requires Alive(s, j) && Alive(t, j) && Tidy(s, j)
    ensures File(t, j) == File(s, j) && Tidy(t, j)
  {
    hide Contents, ZeroTail, Cut;
    if t.slots == s.slots {
      SameFile(s.slots, s.nodes[j], t.nodes[j], j);
    } else {
      OtherContents(s.slots, t.slots, i, 0, [], 0, s.nodes[j], j);
    }
  }

  /** Over any run of successful operations, on this file and others, a file that lives through it
      reads as the byte sequence its own writes and truncations make. */
  lemma {:induction false} RunIsPlayed(trace: seq<State>, ops: seq<Op>, j: nat)
    requires Ran(trace, ops) && Tidy(trace[0], j)
    requires forall k: nat :: k <= |ops| ==> Alive(trace[k], j)
    ensures File(trace[|ops|], j) == Played(File(trace[0], j), ops, j) && Tidy(trace[|ops|], j)
    decreases |ops|
  {
    hide Done, File, Tidy, PlayedOne;
    if ops == [] {
    } else {
      var n := |ops| - 1;
      var before, first := trace[..n + 1], ops[..n];
      forall k: nat | k < n
        ensures StepAt(before, first, k)
      {
        assert StepAt(trace, ops, k);
      }
      assert StepAt(trace, ops, n);
      RunIsPlayed(before, first, j);
      StepPlays(trace[n], trace[n + 1], ops[n], j);
    }
  }

  /** No holder of node `j` lets go of it while it is the last one. */
  ghost predicate Held(trace: seq<State>, ops: seq<Op>, j: nat) {
    && |trace| == |ops| + 1
    && forall k: nat :: k < |ops| && ops[k] == Release(j) ==> j < |trace[k].nodes| && trace[k].nodes[j].refs > 1
  }

  lemma {:induction false} HeldLives(trace: seq<State>, ops: seq<Op>, j: nat, k: nat)
    requires Ran(trace, ops) && Held(trace, ops, j) && k <= |ops|
    requires Alive(trace[0], j) && trace[0].nodes[j].refs > 0
    ensures Alive(trace[k], j) && trace[k].nodes[j].refs > 0
  {
    if k == 0 {
    } else {
      HeldLives(trace, ops, j, k - 1);
      assert StepAt(trace, ops, k - 1);
      HeldStep(trace[k - 1], trace[k], ops[k - 1], j);
    }
  }

  lemma HeldStep(s: State, t: State, op: Op, j: nat)
    requires Done(s, t, op) && Alive(s, j) && s.nodes[j].refs > 0 && (op == Release(j) ==> s.nodes[j].refs > 1)
    ensures Alive(t, j) && t.nodes[j].refs > 0
  {
    hide Wrote, Cut;
  }

  /** A file somebody holds keeps its data, as its own writes and truncations leave it, through every
      unlink and every release but the last. */
  lemma HeldSurvives(trace: seq<State>, ops: seq<Op>, j: nat)
    requires Ran(trace, ops) && Held(trace, ops, j) && Alive(trace[0], j) && trace[0].nodes[j].refs > 0 &&
             Tidy(trace[0], j)
    ensures Alive(trace[|ops|], j) && File(trace[|ops|], j) == Played(File(trace[0], j), ops, j)
  {
    hide Alive, Tidy, File, Played;
    forall k: nat | k <= |ops|
      ensures Alive(trace[k], j)
    {
      HeldLives(trace, ops, j, k);
    }
    RunIsPlayed(trace, ops, j);
  }
}
