/** ramfs files (kernel/src/ramfs.c): pages in chained slots that behave as byte sequences. */
module Ramfs {
  import opened Bytes
  import opened Chains
  import opened Arith
  import opened RamfsSlots

  const MAX_NODES: nat := 512
  const INITIAL_PAGES: nat := 256
  const MAX_PAGES: nat := 0x10_0000
  const MAX_FILE_SIZE: nat := 0xffff_ffff * 4096

  datatype Node = Node(used: bool, isDir: bool, special: bool, writable: bool, parent: int, refs: nat, size: nat,
      first: int, ro: seq<byte>)

  const NO_NODE: Node := Node(false, false, false, false, NONE, 0, 0, NONE, [])

  // ---------------------------------------------------------------- bytes

  function Byte(b: seq<byte>, k: nat): byte {
    if k < |b| then b[k] else 0
  }

  /** Byte `x` of the pages of node `i`. */
  ghost function ByteAt(slots: seq<Slot>, i: int, x: nat): byte {
    Byte(PageOf(slots, i, x / 4096), x % 4096)
  }

  ghost predicate SamePages(slots: seq<Slot>, slots': seq<Slot>) {
    forall i: nat, p: nat :: PageOf(slots', i, p) == PageOf(slots, i, p)
  }

  /** The same slots hold the same pages with the same bytes. */
  ghost predicate Alike(slots: seq<Slot>, slots': seq<Slot>) {
    SamePages(slots, slots') && forall s: nat, i: nat, p: nat :: Holds(slots', s, i, p) <==> Holds(slots, s, i, p)
  }

  /** What a file holds. */
  ghost function Contents(slots: seq<Slot>, node: Node, i: int): (r: seq<byte>)
    ensures |r| == node.size
  {
    seq<byte>(node.size, x requires 0 <= x => if node.writable then ByteAt(slots, i, x) else Byte(node.ro, x))
  }

  /** Beyond its size a file's pages hold nothing but zeros. */
  ghost predicate ZeroTail(slots: seq<Slot>, node: Node, i: int) {
    forall x: nat :: x >= node.size ==> ByteAt(slots, i, x) == 0
  }

  lemma SameBytes(slots: seq<Slot>, slots': seq<Slot>, i: nat, x: nat)
    requires SamePages(slots, slots')
    ensures ByteAt(slots', i, x) == ByteAt(slots, i, x)
  {
  }

  // ---------------------------------------------------------------- what the steps do to pages

  /** Slots other than `s` hold the same pages with the same data. */
  ghost predicate OnlySlot(slots: seq<Slot>, slots': seq<Slot>, s: nat) {
    && |slots| <= |slots'|
    && (forall t: nat :: t < |slots| && t != s ==>
        slots'[t] == slots[t].(next := slots'[t].next, freeNext := slots'[t].freeNext))
    && (forall t: nat :: |slots| <= t < |slots'| && t != s ==> !slots'[t].used)
  }

  /** Only pages that slot `s` holds before or after can differ. */
  lemma OtherPages(slots: seq<Slot>, slots': seq<Slot>, s: nat, i: int, p: nat)
    requires OnlySlot(slots, slots', s) && OnePage(slots, i, p) && !Holds(slots, s, i, p) && !Holds(slots', s, i, p)
    ensures PageOf(slots', i, p) == PageOf(slots, i, p)
  {
    hide PageOf;
    forall t: nat
      ensures Holds(slots', t, i, p) <==> Holds(slots, t, i, p)
    {
    }
    SamePage(slots, slots', i, p);
  }

  /** A fresh page reads as the hole it fills. */
  lemma FreshPage(slots: seq<Slot>, slots': seq<Slot>, s: nat, i: nat, p: nat)
    requires OnlySlot(slots, slots', s) && Holds(slots', s, i, p) && slots'[s].data == ZeroPage()
    requires (forall j: nat, q: nat :: OnePage(slots, j, q)) && (forall t: nat :: !Holds(slots, t, i, p))
    requires s < |slots| ==> !slots[s].used || slots[s].owner < 0
    ensures SamePages(slots, slots')
  {
    hide PageOf;
    forall j: nat, q: nat
      ensures PageOf(slots', j, q) == PageOf(slots, j, q)
    {
      if j == i && q == p {
        NoPage(slots, i, p);
        forall t: nat | Holds(slots', t, i, p)
          ensures t == s
        {
          assert t != s ==> Holds(slots, t, i, p);
        }
        PageIs(slots', s, i, p);
      } else {
        OtherPages(slots, slots', s, j, q);
      }
    }
  }

  /** A slot that held no node's page and holds none after. */
  lemma IdleSlot(slots: seq<Slot>, slots': seq<Slot>, s: nat)
    requires OnlySlot(slots, slots', s) && (forall j: nat, q: nat :: OnePage(slots, j, q))
    requires s < |slots| ==> !slots[s].used || slots[s].owner < 0
    requires s < |slots'| ==> !slots'[s].used || slots'[s].owner < 0
    ensures SamePages(slots, slots')
  {
    hide PageOf;
    forall j: nat, q: nat
      ensures PageOf(slots', j, q) == PageOf(slots, j, q)
    {
      OtherPages(slots, slots', s, j, q);
    }
  }

  /** A page that goes leaves zeros. */
  lemma GonePage(slots: seq<Slot>, slots': seq<Slot>, s: nat, i: nat, p: nat, j: nat, q: nat)
    requires OnlySlot(slots, slots', s) && Holds(slots, s, i, p) && s < |slots'| && !slots'[s].used
    requires OnePage(slots, i, p) && OnePage(slots, j, q)
    ensures PageOf(slots', j, q) == if j == i && q == p then ZeroPage() else PageOf(slots, j, q)
  {
    hide PageOf;
    if j == i && q == p {
      forall t: nat
        ensures !Holds(slots', t, i, p)
      {
        assert Holds(slots', t, i, p) ==> Holds(slots, t, i, p) && t != s;
      }
      NoPage(slots', i, p);
    } else {
      OtherPages(slots, slots', s, j, q);
    }
  }

  /** A page rewritten in place. */
  lemma RewrittenPage(slots: seq<Slot>, s: nat, i: nat, p: nat, data: Page, j: nat, q: nat)
    requires Holds(slots, s, i, p) && OnePage(slots, i, p) && OnePage(slots, j, q)
    ensures PageOf(slots[s := slots[s].(data := data)], j, q) == if j == i && q == p then data else PageOf(slots, j, q)
  {
    hide PageOf;
    var slots' := slots[s := slots[s].(data := data)];
    if j == i && q == p {
      assert forall t: nat :: Holds(slots', t, i, p) <==> Holds(slots, t, i, p);
      PageIs(slots', s, i, p);
    } else {
      OtherPages(slots, slots', s, j, q);
    }
  }

  // ---------------------------------------------------------------- sequences

  /** Overwriting part of a sequence, with zeros in the gap if it starts past the end. */
  function Overwritten(c: seq<byte>, off: nat, src: seq<byte>): (r: seq<byte>) {
    var end := if off + |src| > |c| then off + |src| else |c|;
    seq<byte>(end, x requires 0 <= x => if off <= x < off + |src| then src[x - off] else Byte(c, x))
  }

  /** Cutting a sequence, or padding it with zeros. */
  function Resized(c: seq<byte>, size: nat): seq<byte> {
    seq<byte>(size, x requires 0 <= x => Byte(c, x))
  }

  function Part(c: seq<byte>, off: nat, len: nat): seq<byte> {
    if off >= |c| then [] else if off + len <= |c| then c[off..off + len] else c[off..]
  }

  /** Some slot has page `p` of node `i`. */
  ghost predicate Present(slots: seq<Slot>, i: int, p: nat) {
    exists s: nat :: Holds(slots, s, i, p)
  }

  /** The pages `[lo, hi)` of node `i` that no slot has. */
  ghost function Absent(slots: seq<Slot>, i: int, lo: nat, hi: nat): set<nat> {
    set p: nat | lo <= p < hi && !Present(slots, i, p)
  }

  lemma AbsentNext(slots: seq<Slot>, i: int, lo: nat, hi: nat)
    requires lo <= hi
    ensures |Absent(slots, i, lo, hi + 1)| == |Absent(slots, i, lo, hi)| + (if Present(slots, i, hi) then 0 else 1)
  {
    hide Present;
    var a := Absent(slots, i, lo, hi);
    if Present(slots, i, hi) {
      assert Absent(slots, i, lo, hi + 1) == a;
    } else {
      assert Absent(slots, i, lo, hi + 1) == a + {hi};
    }
  }

  lemma {:induction false} AbsentMore(slots: seq<Slot>, i: int, lo: nat, mid: nat, hi: nat)
    requires lo <= mid <= hi
    ensures |Absent(slots, i, lo, mid)| <= |Absent(slots, i, lo, hi)|
    decreases hi - mid
  {
    if mid == hi {
    } else {
      AbsentNext(slots, i, lo, mid);
      AbsentMore(slots, i, lo, mid + 1, hi);
    }
  }

  /** The pages of node `i` are those of before and `[lo, hi)`. */
  ghost predicate Gained(slots: seq<Slot>, slots': seq<Slot>, i: int, lo: nat, hi: nat) {
    forall q: nat :: Present(slots', i, q) <==> Present(slots, i, q) || lo <= q < hi
  }

  lemma GainedNext(slots0: seq<Slot>, slots: seq<Slot>, slots': seq<Slot>, i: int, lo: nat, hi: nat)
    requires Gained(slots0, slots, i, lo, hi) && Gained(slots, slots', i, hi, hi + 1) && lo <= hi
    ensures Gained(slots0, slots', i, lo, hi + 1)
  {
    hide Present;
  }

  lemma SameGained(slots: seq<Slot>, slots': seq<Slot>, i: int, lo: nat, hi: nat)
    requires (forall s: nat, q: nat :: Holds(slots', s, i, q) <==> Holds(slots, s, i, q)) && lo >= hi
    ensures Gained(slots, slots', i, lo, hi)
  {
  }

  /** The first `done` bytes of `src` reached node `i` at `off`; no other byte of any node changed. */
  ghost predicate Wrote(slots: seq<Slot>, slots': seq<Slot>, i: nat, off: nat, src: seq<byte>, done: nat) {
    && done <= |src|
    && forall j: nat, x: nat :: ByteAt(slots', j, x) == if j == i && off <= x < off + done then src[x - off]
        else ByteAt(slots, j, x)
  }

  /** Node `i` keeps its first `size` bytes and has zeros after; no other byte of any node changed. */
  ghost predicate Cut(slots: seq<Slot>, slots': seq<Slot>, i: nat, size: nat) {
    forall j: nat, x: nat :: ByteAt(slots', j, x) == if j == i && x >= size then 0 else ByteAt(slots, j, x)
  }

  /** Writing a file is overwriting its sequence; the zero tail makes the gap zeros. */
  lemma WriteIsOverwrite(slots: seq<Slot>, slots': seq<Slot>, node: Node, i: nat, off: nat, src: seq<byte>)
    requires node.writable && ZeroTail(slots, node, i) && Wrote(slots, slots', i, off, src, |src|)
    ensures var node' := node.(size := if off + |src| > node.size then off + |src| else node.size);
            Contents(slots', node', i) == Overwritten(Contents(slots, node, i), off, src) && ZeroTail(slots', node', i)
  {
    hide ByteAt;
  }

  /** Truncating a file, shorter or longer, is resizing its sequence. */
  lemma TruncateIsResize(slots: seq<Slot>, slots': seq<Slot>, node: Node, i: nat, size: nat)
    requires node.writable && ZeroTail(slots, node, i) && Cut(slots, slots', i, size)
    ensures Contents(slots', node.(size := size), i) == Resized(Contents(slots, node, i), size)
    ensures ZeroTail(slots', node.(size := size), i)
  {
    hide ByteAt;
  }

  /** Whatever is written to, cut from or freed of one node, every other file keeps its contents. */
  lemma OtherContents(slots: seq<Slot>, slots': seq<Slot>, i: nat, off: nat, src: seq<byte>, done: nat, node: Node,
      j: nat)
    requires j != i && (Wrote(slots, slots', i, off, src, done) || Cut(slots, slots', i, off))
    ensures Contents(slots', node, j) == Contents(slots, node, j)
    ensures ZeroTail(slots, node, j) ==> ZeroTail(slots', node, j)
  {
    hide ByteAt;
  }

  /** Shrinking and growing back reads zeros, whatever was there. */
  lemma ShrinkThenGrow(c: seq<byte>, small: nat, x: nat)
    requires small <= x < |c|
    ensures Resized(Resized(c, small), |c|)[x] == 0
  {
  }

  /** A write that failed half way leaves the zero tail exactly when what it left past the size is zeros. */
  lemma FailedWriteTail(slots: seq<Slot>, slots': seq<Slot>, node: Node, i: nat, off: nat, src: seq<byte>, done: nat)
    requires ZeroTail(slots, node, i) && Wrote(slots, slots', i, off, src, done)
    ensures ZeroTail(slots', node, i) <==> forall k: nat :: k < done && node.size <= off + k ==> src[k] == 0
  {
    hide ByteAt;
    if ZeroTail(slots', node, i) {
      forall k: nat | k < done && node.size <= off + k
        ensures src[k] == 0
      {
        assert ByteAt(slots', i, off + k) == 0;
      }
    }
  }

  /** Growing a file after a write that stopped half way reads what that write left past the size, and
      zeros elsewhere; so it reads zeros throughout exactly if those bytes are zeros. */
  lemma FailedThenGrown(slots0: seq<Slot>, slots1: seq<Slot>, slots2: seq<Slot>, node: Node, i: nat,
                        off: nat, src: seq<byte>, done: nat, size: nat)
    requires node.writable && node.size <= size && ZeroTail(slots0, node, i)
    requires Wrote(slots0, slots1, i, off, src, done) && Cut(slots1, slots2, i, size)
    ensures var c := Contents(slots2, node.(size := size), i);
            && (forall x: nat :: node.size <= x < size ==> c[x] == if off <= x < off + done then src[x - off] else 0)
            && ((forall x: nat :: node.size <= x < size ==> c[x] == 0)
                <==> forall k: nat :: k < done && node.size <= off + k < size ==> src[k] == 0)
  {
    hide ByteAt;
    var c := Contents(slots2, node.(size := size), i);
    if forall x: nat :: node.size <= x < size ==> c[x] == 0 {
      forall k: nat | k < done && node.size <= off + k < size
        ensures src[k] == 0
      {
        assert c[off + k] == src[k];
      }
    }
  }

  function Splice(b: Page, at: nat, piece: seq<byte>): (r: Page)
    requires at + |piece| <= |b|
    ensures |r| == |b|
  {
    b[..at] + piece + b[at + |piece|..]
  }

  lemma SpliceByte(b: Page, at: nat, piece: seq<byte>, k: nat)
    requires at + |piece| <= |b|
    ensures Byte(Splice(b, at, piece), k) == if at <= k < at + |piece| then piece[k - at] else Byte(b, k)
  {
  }

  /** One page's worth of a write. */
  lemma WroteChunk(slots0: seq<Slot>, slots: seq<Slot>, s: nat, i: nat, off: nat, src: seq<byte>, done: nat, chunk: nat)
    requires Wrote(slots0, slots, i, off, src, done) && done + chunk <= |src|
    requires Holds(slots, s, i, (off + done) / 4096) && |slots[s].data| == 4096 &&
             (forall j: nat, q: nat :: OnePage(slots, j, q))
    requires (off + done) % 4096 + chunk <= 4096
    ensures var data := Splice(slots[s].data, (off + done) % 4096, src[done..done + chunk]);
            Wrote(slots0, slots[s := slots[s].(data := data)], i, off, src, done + chunk)
  {
    hide PageOf, Splice, Byte, OnePage;
    var o := off + done;
    var p, within := o / 4096, o % 4096;
    var piece := src[done..done + chunk];
    var data := Splice(slots[s].data, within, piece);
    var slots' := slots[s := slots[s].(data := data)];
    forall j: nat, x: nat
      ensures ByteAt(slots', j, x) == if j == i && off <= x < off + done + chunk then src[x - off]
              else ByteAt(slots0, j, x)
    {
      RewrittenPage(slots, s, i, p, data, j, x / 4096);
      PageIs(slots, s, i, p);
      SpliceByte(slots[s].data, within, piece, x % 4096);
      assert x / 4096 == p && within <= x % 4096 < within + chunk <==> o <= x < o + chunk;
      assert ByteAt(slots, j, x) == if j == i && off <= x < off + done then src[x - off] else ByteAt(slots0, j, x);
    }
  }

  // ---------------------------------------------------------------- the file system

  ghost function Firsts(nodes: seq<Node>): (r: seq<int>)
    ensures |r| == |nodes|
  {
    seq(|nodes|, k requires 0 <= k < |nodes| => nodes[k].first)
  }

  lemma FirstsPut(nodes: seq<Node>, i: nat, node: Node)
    requires i < |nodes|
    ensures Firsts(nodes[i := node]) == Firsts(nodes)[i := node.first]
  {
  }

  /** A node without pages of its own has no chain. */
  predicate NodeOk(n: Node) {
    && (!n.used || !n.writable ==> n.first == NONE)
    && (n.used && !n.writable && !n.isDir && !n.special ==> |n.ro| == n.size)
  }

  ghost predicate NodesOk(nodes: seq<Node>) {
    |nodes| == MAX_NODES && forall i :: 0 <= i < |nodes| ==> NodeOk(nodes[i])
  }

  lemma AllOnePage(slots: seq<Slot>, head: int, free: seq<nat>, firsts: seq<int>, chains: seq<seq<nat>>)
    requires Store(slots, head, free, firsts, chains, NONE)
    ensures forall j: nat, q: nat :: OnePage(slots, j, q)
  {
    hide Store, OnePage;
    forall j: nat, q: nat
      ensures OnePage(slots, j, q)
    {
      StoreOnePage(slots, head, free, firsts, chains, j, q);
    }
  }

  lemma HandOnePage(slots: seq<Slot>, head: int, free: seq<nat>, firsts: seq<int>, chains: seq<seq<nat>>, s: nat)
    requires Store(slots, head, free, firsts, chains, s) && s < |slots| && slots[s].owner < 0
    ensures forall j: nat, q: nat :: OnePage(slots, j, q)
  {
    hide ChainOk, FreeOk;
    forall j: nat, q: nat, t: nat, u: nat | Holds(slots, t, j, q) && Holds(slots, u, j, q)
      ensures t == u
    {
      assert OneSlot(slots, t, u, s);
    }
  }

  class Fs {
    var slots: seq<Slot>
    var freeHead: int
    var usedCount: nat
    var nodes: seq<Node>
    /** No allocation of memory fails. */
    const reliable: bool
    ghost var free: seq<nat>
    ghost var chains: seq<seq<nat>>

    ghost predicate Stored(firsts: seq<int>)
      reads this
    {
      Store(slots, freeHead, free, firsts, chains, NONE) && usedCount + |free| == |slots| <= MAX_PAGES
    }

    ghost predicate InHand(firsts: seq<int>, s: nat)
      reads this
    {
      Store(slots, freeHead, free, firsts, chains, s) && s < |slots| && slots[s].used &&
          usedCount + |free| == |slots| <= MAX_PAGES
    }

    ghost predicate Valid()
      reads this
    {
      NodesOk(nodes) && Stored(Firsts(nodes))
    }

    constructor (reliable: bool)
      ensures Valid() && slots == [] && free == [] && this.reliable == reliable
      ensures |nodes| == MAX_NODES && forall i :: 0 <= i < MAX_NODES ==> nodes[i] == NO_NODE
    {
      slots, freeHead, usedCount, nodes := [], NONE, 0, seq(MAX_NODES, _ => NO_NODE);
      this.reliable := reliable;
      free, chains := [], seq(MAX_NODES, _ => []);
    }

    /** How many more pages the store can give: those on the free list and those it can grow by. */
    ghost function Room(): int
      reads this
    {
      |free| + MAX_PAGES - |slots|
    }

    ghost function Data(i: int): seq<byte>
      requires 0 <= i < |nodes|
      reads this
    {
      Contents(slots, nodes[i], i)
    }

    method Memory() returns (ok: bool)
      ensures reliable ==> ok
    {
      ok := *;
      ok := ok || reliable;
    }

    /** `init_backing_range`: new slots, each pushed on the free list. */
    method InitRange(count: nat, ghost firsts: seq<int>)
      requires Stored(firsts) && |slots| + count <= MAX_PAGES
      modifies `slots, `freeHead, `free
      ensures Stored(firsts) && |slots| == |old(slots)| + count && Alike(old(slots), slots) && Room() == old(Room())
      ensures count > 0 ==> freeHead >= 0
    {
      hide Store, Alike;
      var n := 0;
      AlikeSelf(slots);
      while n < count
        invariant n <= count && Stored(firsts) && |slots| == |old(slots)| + n && Alike(old(slots), slots)
        invariant Room() == old(Room())
        invariant n > 0 ==> freeHead >= 0
      {
        ghost var was := slots;
        var v := Slot(false, NONE, freeHead, NONE, 0, []);
        PastEnd(slots, freeHead, free, firsts, chains);
        ReleaseKeeps(slots, freeHead, free, firsts, chains, |slots|, v);
        GrownPages(slots, freeHead, free, firsts, chains, v);
        free := [|slots|] + free;
        freeHead := |slots|;
        slots := slots + [v];
        AlikeTrans(old(slots), was, slots);
        n := n + 1;
      }
    }

    /** `grow_backing_pages`: the table doubles, up to its limit. */
    method Grow(ghost firsts: seq<int>) returns (ok: bool)
      requires Stored(firsts)
      modifies `slots, `freeHead, `free
      ensures Stored(firsts) && Alike(old(slots), slots) && Room() == old(Room())
      ensures ok ==> freeHead >= 0 && |slots| > |old(slots)|
      ensures !ok ==> slots == old(slots) && freeHead == old(freeHead) && free == old(free)
      ensures reliable ==> (ok <==> |old(slots)| < MAX_PAGES)
    {
      hide Store, Alike;
      AlikeSelf(slots);
      var size := if |slots| == 0 then INITIAL_PAGES else |slots| * 2;
      if size <= |slots| || size > MAX_PAGES { size := MAX_PAGES; }
      if size <= |slots| { return false; }
      ok := Memory();
      if !ok { return; }
      InitRange(size - |slots|, firsts);
    }

    /** `alloc_backing_slot`: the head of the free list, in hand. */
    method AllocSlot(ghost firsts: seq<int>) returns (s: int)
      requires Stored(firsts)
      modifies `slots, `freeHead, `free, `usedCount
      ensures Alike(old(slots), slots)
      ensures s < 0 ==> Stored(firsts) && (reliable ==> |free| == 0 && |slots| == MAX_PAGES)
      ensures Room() == old(Room()) - (if s >= 0 then 1 else 0) && Room() >= 0
      ensures s >= 0 ==> InHand(firsts, s) && slots[s] == Slot(true, NONE, NONE, NONE, 0, [])
    {
      hide Store, Alike;
      AlikeSelf(slots);
      if freeHead < 0 {
        NoFree(slots, freeHead, free, firsts, chains);
        var ok := Grow(firsts);
        if !ok { return NONE; }
      }
      ghost var was := slots;
      s := freeHead;
      var v := Slot(true, NONE, NONE, NONE, 0, []);
      TakeKeeps(slots, freeHead, free, firsts, chains, v);
      TakenPages(slots, freeHead, free, firsts, chains, v);
      freeHead := slots[s].freeNext;
      slots := slots[s := v];
      usedCount := usedCount + 1;
      free := free[1..];
      AlikeTrans(old(slots), was, slots);
    }

    /** `free_backing_slot` on the slot in hand. */
    method FreeSlot(s: nat, ghost firsts: seq<int>)
      requires InHand(firsts, s)
      modifies `slots, `freeHead, `free, `usedCount
      ensures Stored(firsts) && |slots| == |old(slots)|
      ensures slots == old(slots)[s := Slot(false, NONE, old(freeHead), NONE, 0, [])] && Room() == old(Room()) + 1
    {
      hide Store;
      var v := Slot(false, NONE, freeHead, NONE, 0, []);
      ReleaseKeeps(slots, freeHead, free, firsts, chains, s, v);
      HandCount(slots, freeHead, free, firsts, chains, s);
      slots := slots[s := v];
      freeHead := s;
      free := [s] + free;
      if usedCount > 0 { usedCount := usedCount - 1; }
    }

    /** `find_backing_page`: the chain holds the page exactly if any slot does. */
    method FindPage(i: nat, p: nat) returns (s: int)
      requires |nodes| == |chains| && i < |nodes| && Store(slots, freeHead, free, Firsts(nodes), chains, NONE)
      ensures s < 0 ==> forall t: nat :: !Holds(slots, t, i, p)
      ensures s >= 0 ==> s < |slots| && Holds(slots, s, i, p) && |slots[s].data| == 4096
    {
      hide FreeOk, Of;
      ghost var c := chains[i];
      assert ChainOk(slots, i, Firsts(nodes)[i], c, NONE);
      s := nodes[i].first;
      ghost var k := 0;
      while s >= 0
        invariant 0 <= k <= |c| && s == Nth(c, k)
        invariant forall j: nat :: j < k ==> c[j] < |slots| && slots[c[j]].page != p
        decreases |c| - k
      {
        assert ChainLink(slots, c, k) && c[k] in c && SlotOk(slots, c[k], |chains|, NONE);
        OfIs(slots, c[k], i);
        if slots[s].page == p { return; }
        s := slots[s].next;
        k := k + 1;
      }
      forall t: nat
        ensures !Holds(slots, t, i, p)
      {
        OfIs(slots, t, i);
      }
      s := NONE;
    }

    /** `get_backing_page`: the slot of a page, made if need be; a page made reads as the hole it fills. */
    method GetPage(i: nat, p: nat) returns (s: int)
      requires Valid() && i < |nodes| && nodes[i].used && nodes[i].writable
      modifies `slots, `freeHead, `free, `usedCount, `nodes, `chains
      ensures Valid() && SamePages(old(slots), slots)
      ensures nodes == old(nodes)[i := old(nodes)[i].(first := nodes[i].first)]
      ensures s >= 0 ==> s < |slots| && Holds(slots, s, i, p) && |slots[s].data| == 4096
      ensures s < 0 && reliable ==> |free| == 0 && |slots| == MAX_PAGES
      ensures s < 0 ==> !Present(old(slots), i, p)
      ensures Gained(old(slots), slots, i, p, if s >= 0 then p + 1 else p)
      ensures Room() == old(Room()) - (if s >= 0 && !Present(old(slots), i, p) then 1 else 0) && Room() >= 0
    {
      hide Store, PageOf, NodeOk, Holds, Alike, Contents, Gained, Present;
      StoreSizes(slots, freeHead, free, Firsts(nodes), chains);
      AlikeSelf(slots);
      s := FindPage(i, p);
      if s >= 0 {
        AlikePages(slots, slots);
        FoundPresent(slots, s, i, p);
        return;
      }
      NonePresent(slots, i, p);
      ghost var firsts := Firsts(nodes);
      ghost var before := slots;
      s := AllocSlot(firsts);
      AlikePages(before, slots);
      AlikeGained(before, slots, i, p);
      if s < 0 { return; }
      ghost var was := slots;
      AlikeNone(before, was, i, p);
      var v := slots[s].(next := nodes[i].first, owner := i, page := p);
      HandWritten(slots, freeHead, free, firsts, chains, s, v);
      slots := slots[s := v];
      var ok := Memory();
      if !ok {
        FreeSlot(s, firsts);
        HandReturned(was, slots, freeHead, free, firsts, chains, s);
        ReturnedGained(before, was, slots, s, i, p);
        PagesTrans(before, was, slots);
        return NONE;
      }
      HandWritten(slots, freeHead, free, firsts, chains, s, v.(data := ZeroPage()));
      slots := slots[s := slots[s].(data := ZeroPage())];
      HandLinked(was, slots, freeHead, free, firsts, chains, s, i, p);
      LinkedGained(before, was, slots, s, i, p);
      PagesTrans(before, was, slots);
      FirstsPut(nodes, i, nodes[i].(first := s));
      chains := chains[i := [s] + chains[i]];
      NodesPut(nodes, i, nodes[i].(first := s));
      nodes := nodes[i := nodes[i].(first := s)];
    }

    /** A regular file that can be written. */
    predicate Writable(i: int)
      reads this
    {
      0 <= i < |nodes| && nodes[i].used && !nodes[i].isDir && !nodes[i].special && nodes[i].writable
    }

    /** `ramfs_write`: the file's sequence is overwritten. When a page cannot be had, the `done` bytes
        before that page have been written; with memory, this is where the pages that the file
        lacks exceed the room, and the write succeeds exactly if they never do. */
    method Write(i: int, off: nat, src: seq<byte>, sealed: bool) returns (rc: int, ghost done: nat)
      requires Valid()
      modifies this
      ensures Valid() && |nodes| == |old(nodes)|
      ensures var admitted := old(Writable(i)) && off + |src| <= MAX_FILE_SIZE && !sealed;
              && (!admitted ==> rc == -1 && nodes == old(nodes) && slots == old(slots))
              && (admitted ==> WriteDone(old(slots), old(nodes), slots, nodes, i, off, src, rc, done))
              && (admitted && reliable ==> RoomDecides(old(slots), i, off, |src|, rc >= 0, done, old(Room())))
              && (admitted && reliable && rc < 0 ==> |free| == 0 && |slots| == MAX_PAGES)
    {
      hide Store, PageOf, NodeOk, Holds, Wrote, SamePages, ByteAt, OnePage, Splice, ZeroTail, WriteDone, Gained,
           Absent, Present;
      done := 0;
      if !(Writable(i) && off <= MAX_FILE_SIZE && |src| <= MAX_FILE_SIZE - off) { return -1, done; }
      if sealed { return -1, done; }
      ghost var slots0, nodes0, room, lo, hi := slots, nodes, Room(), off / 4096, off / 4096;
      WroteNothing(slots, i, off, src);
      SameGained(slots, slots, i, lo, hi);
      NoneAbsent(slots, i, lo);
      var at := 0;
      while at < |src|
        invariant at <= |src| && Valid() && Writable(i) && Wrote(slots0, slots, i, off, src, at)
        invariant nodes == nodes0[i := nodes0[i].(first := nodes[i].first)]
        invariant at == 0 || (off + at) % 4096 == 0 || at == |src|
        invariant lo <= hi == PagesEnd(off, at) && Gained(slots0, slots, i, lo, hi)
        invariant Room() == room - |Absent(slots0, i, lo, hi)| && Room() >= 0
      {
        var pos := off + at;
        var within := pos % 4096;
        var chunk := if 4096 - within > |src| - at then |src| - at else 4096 - within;
        NextPageIs(off, at, chunk);
        ghost var was := slots;
        StillAbsent(slots0, slots, i, lo, hi);
        AbsentNext(slots0, i, lo, hi);
        var s := GetPage(i, pos / 4096);
        WroteOn(slots0, was, slots, i, off, src, at);
        if s < 0 {
          StoppedThere(slots0, was, slots, i, lo, hi, PagesEnd(off, |src|));
          WriteFailed(slots0, nodes0, slots, nodes, i, off, src, at);
          return -1, at;
        }
        GainedNext(slots0, was, slots, i, lo, hi);
        AllOnePage(slots, freeHead, free, Firsts(nodes), chains);
        WroteChunk(slots0, slots, s, i, off, src, at, chunk);
        var data := Splice(slots[s].data, within, src[at..at + chunk]);
        DataKeeps(slots, freeHead, free, Firsts(nodes), chains, s, data);
        RewrittenGained(slots0, slots, i, lo, hi + 1, s, data);
        slots := slots[s := slots[s].(data := data)];
        hi := hi + 1;
        at := at + chunk;
      }
      Extend(i, off + |src|);
      WriteWorked(slots0, nodes0, slots, nodes, i, off, src);
      return |src|, |src|;
    }

    /** The size reaches at least to `end`. */
    method Extend(i: nat, end: nat)
      requires Valid() && i < |nodes| && nodes[i].used && nodes[i].writable
      modifies `nodes
      ensures Valid()
      ensures nodes == old(nodes)[i := old(nodes)[i].(size := if end > old(nodes)[i].size then end
              else old(nodes)[i].size)]
    {
      hide Store, NodeOk;
      var node := nodes[i];
      if end > node.size { node := node.(size := end); }
      FirstsPut(nodes, i, node);
      NodeGrown(nodes[i], node);
      NodesPut(nodes, i, node);
      assert Firsts(nodes)[i := node.first] == Firsts(nodes);
      nodes := nodes[i := node];
    }

    /** `ramfs_read`: a part of the file's sequence. */
    method Read(i: int, off: nat, len: nat) returns (bytes: seq<byte>)
      requires Valid()
      ensures 0 <= i < |nodes| && nodes[i].used && !nodes[i].isDir && !nodes[i].special ==>
              bytes == Part(Data(i), off, len)
      ensures !(0 <= i < |nodes| && nodes[i].used && !nodes[i].isDir && !nodes[i].special) ==> bytes == []
    {
      hide Store, PageOf, Holds, ByteAt, Span, Contents, OnePage, Piece, NodesOk;
      bytes := [];
      if i < 0 || i >= |nodes| || !nodes[i].used || nodes[i].isDir || nodes[i].special { return; }
      if off >= nodes[i].size { return; }
      var n := nodes[i].size - off;
      if n > len { n := len; }
      PartIs(slots, nodes, i, off, n, len);
      if !nodes[i].writable { return nodes[i].ro[off..off + n]; }
      SpanNone(slots, i, off);
      while |bytes| < n
        invariant |bytes| <= n && bytes == Span(slots, i, off, |bytes|)
      {
        var pos := off + |bytes|;
        var within := pos % 4096;
        var chunk := if 4096 - within > n - |bytes| then n - |bytes| else 4096 - within;
        StoreSizes(slots, freeHead, free, Firsts(nodes), chains);
        var s := FindPage(i, pos / 4096);
        AllOnePage(slots, freeHead, free, Firsts(nodes), chains);
        ChunkIs(slots, s, i, pos, chunk);
        SpanJoin(slots, i, off, |bytes|, chunk);
        bytes := bytes + Piece(slots, s, within, chunk);
      }
    }

    /** `free_node_pages`: the node's chain goes back to the free list, and no other node notices. */
    method FreeNodePages(i: nat)
      requires Valid() && i < |nodes|
      modifies this
      ensures Valid() && nodes == old(nodes)[i := old(nodes)[i].(first := NONE)]
      ensures Cut(old(slots), slots, i, 0)
    {
      hide Store, PageOf, NodeOk, NodesOk, Holds, SamePagesBut;
      var s := nodes[i].first;
      FirstsPut(nodes, i, nodes[i].(first := NONE));
      NodesFirst(nodes, i, NONE);
      ghost var firsts := Firsts(nodes);
      assert firsts == firsts[i := s];
      nodes := nodes[i := nodes[i].(first := NONE)];
      ButSame(slots, i, 0);
      StoreSizes(slots, freeHead, free, firsts, chains);
      while s >= 0
        invariant |firsts| == |nodes| == |chains| && NodesOk(nodes) && Firsts(nodes) == firsts[i := NONE]
        invariant nodes == old(nodes)[i := old(nodes)[i].(first := NONE)]
        invariant Stored(firsts[i := s]) && SamePagesBut(old(slots), slots, i, 0)
        decreases |chains[i]|
      {
        ghost var f := firsts[i := s];
        ghost var was, head, list, lists := slots, freeHead, free, chains;
        FirstOf(slots, freeHead, free, f, chains, i);
        SkipKeeps(slots, freeHead, free, f, chains, i, 0);
        var next := slots[s].next;
        assert f[i := next] == firsts[i := next];
        chains := chains[i := Without(chains[i], 0)];
        FreeSlot(s, firsts[i := next]);
        ButDropped(old(slots), was, slots, i, 0, s, head, list, f, lists);
        s := next;
      }
      NothingLeft(old(slots), slots, freeHead, free, firsts[i := s], chains, i);
    }

    /** `free_node` */
    method FreeNode(i: nat)
      requires Valid() && i < |nodes|
      modifies this
      ensures Valid() && nodes == old(nodes)[i := NO_NODE] && Cut(old(slots), slots, i, 0)
    {
      hide Store, PageOf, Cut;
      FreeNodePages(i);
      FirstsPut(nodes, i, NO_NODE);
      assert Firsts(nodes)[i := NONE] == Firsts(nodes);
      nodes := nodes[i := NO_NODE];
    }

    /** `ramfs_truncate`: pages past the new end go, and the rest of the last one is zeroed. */
    method Truncate(i: int, size: nat, sealed: bool) returns (ok: bool)
      requires Valid()
      modifies this
      ensures Valid() && |nodes| == |old(nodes)|
      ensures ok <==> old(Writable(i)) && size <= MAX_FILE_SIZE && !sealed
      ensures !ok ==> nodes == old(nodes) && slots == old(slots)
      ensures ok ==> TruncateDone(old(slots), old(nodes), slots, nodes, i, size)
    {
      hide Store, PageOf, NodeOk, NodesOk, Cut, SamePagesBut, Holds, OnePage;
      if !(Writable(i) && size <= MAX_FILE_SIZE) { return false; }
      if sealed { return false; }
      var keep := (size + 4096 - 1) / 4096;
      DropPages(i, keep);
      ghost var was := slots;
      if size % 4096 != 0 {
        StoreSizes(slots, freeHead, free, Firsts(nodes), chains);
        var s := FindPage(i, size / 4096);
        AllOnePage(slots, freeHead, free, Firsts(nodes), chains);
        if s >= 0 {
          var data := slots[s].data[..size % 4096] + seq<byte>(4096 - size % 4096, _ => 0);
          DataKeeps(slots, freeHead, free, Firsts(nodes), chains, s, data);
          TailZeroed(slots, s, i, size, data);
          slots := slots[s := slots[s].(data := data)];
        } else {
          TailAbsent(slots, i, size);
        }
      }
      CutNow(old(slots), was, slots, i, size, keep);
      var node := nodes[i].(size := size);
      FirstsPut(nodes, i, node);
      assert Firsts(nodes)[i := node.first] == Firsts(nodes);
      NodeSized(nodes, i, size);
      nodes := nodes[i := node];
      return true;
    }

    /** The link loop of `ramfs_truncate`: `prev` is the slot whose `next` is being looked at. */
    method DropPages(i: nat, keep: nat)
      requires Valid() && i < |nodes| && Writable(i)
      modifies this
      ensures Valid() && nodes == old(nodes)[i := old(nodes)[i].(first := nodes[i].first)]
      ensures SamePagesBut(old(slots), slots, i, keep) && forall q: nat :: q >= keep ==>
              PageOf(slots, i, q) == ZeroPage()
    {
      hide Store, PageOf, NodeOk, NodesOk, SamePagesBut, Holds;
      ghost var k := 0;
      var prev, s := NONE, nodes[i].first;
      StoreSizes(slots, freeHead, free, Firsts(nodes), chains);
      ChainHead(slots, freeHead, free, Firsts(nodes), chains, i);
      ButSame(slots, i, keep);
      while s >= 0
        invariant Valid() && |chains| == |nodes| && Writable(i) && SamePagesBut(old(slots), slots, i, keep)
        invariant nodes == old(nodes)[i := old(nodes)[i].(first := nodes[i].first)]
        invariant k <= |chains[i]| && s == Nth(chains[i], k) && prev == (if k == 0 then NONE else chains[i][k - 1])
        invariant forall j: nat :: j < k ==> Kept(slots, chains[i], j, keep)
        decreases |chains[i]| - k
      {
        ChainAt(slots, freeHead, free, Firsts(nodes), chains, i, k);
        if slots[s].page >= keep {
          ghost var was, head, list, lists, f := slots, freeHead, free, chains, Firsts(nodes);
          SkipKeeps(slots, freeHead, free, f, chains, i, k);
          Trimmed(slots, chains[i], k, keep);
          var next := slots[s].next;
          ghost var g := f[i := if k == 0 then next else f[i]];
          if prev < 0 {
            FirstsPut(nodes, i, nodes[i].(first := next));
            NodesNext(nodes, i, next);
            nodes := nodes[i := nodes[i].(first := next)];
          } else {
            slots := slots[prev := slots[prev].(next := next)];
          }
          assert Firsts(nodes) == g;
          chains := chains[i := Without(chains[i], k)];
          TrimmedUsed(was, lists[i], k);
          FreeSlot(s, g);
          TrimmedKept(was, slots, lists[i], k, keep, s);
          ButDropped(old(slots), was, slots, i, keep, s, head, list, f, lists);
          s := next;
        } else {
          prev, s := s, slots[s].next;
          k := k + 1;
        }
      }
      AllKept(slots, freeHead, free, Firsts(nodes), chains, i, k, keep);
    }

    /** `ramfs_retain_node` */
    method Retain(i: int) returns (ok: bool)
      requires Valid()
      modifies `nodes
      ensures Valid() && |nodes| == |old(nodes)|
      ensures ok <==> 0 <= i < |nodes| && old(nodes)[i].used
      ensures nodes == if ok then old(nodes)[i := old(nodes)[i].(refs := old(nodes)[i].refs + 1)] else old(nodes)
    {
      hide Store;
      if i < 0 || i >= |nodes| || !nodes[i].used { return false; }
      var node := nodes[i].(refs := nodes[i].refs + 1);
      FirstsPut(nodes, i, node);
      assert Firsts(nodes)[i := node.first] == Firsts(nodes);
      nodes := nodes[i := node];
      return true;
    }

    /** `ramfs_release_node`: only the last release of an unlinked node frees it. */
    method Release(i: int)
      requires Valid()
      modifies this
      ensures Valid() && |nodes| == |old(nodes)|
      ensures ReleaseDone(old(slots), old(nodes), slots, nodes, i)
    {
      hide Store, Cut;
      if i < 0 || i >= |nodes| || !nodes[i].used || nodes[i].refs == 0 { return; }
      var node := nodes[i].(refs := nodes[i].refs - 1);
      FirstsPut(nodes, i, node);
      assert Firsts(nodes)[i := node.first] == Firsts(nodes);
      nodes := nodes[i := node];
      if node.refs == 0 && node.parent < 0 && i != 0 { FreeNode(i); }
    }

    /** `ramfs_unlink` on the node its path names: a node that is still held keeps its data. */
    method Unlink(i: int) returns (ok: bool)
      requires Valid() && i < |nodes|
      modifies this
      ensures Valid() && |nodes| == |old(nodes)|
      ensures ok <==> 0 < i && old(nodes)[i].used && !(old(nodes)[i].isDir && HasChild(old(nodes), i))
      ensures !ok ==> nodes == old(nodes) && slots == old(slots)
      ensures ok ==> UnlinkDone(old(slots), old(nodes), slots, nodes, i)
    {
      hide Store, Cut;
      if i <= 0 || !nodes[i].used { return false; }
      if nodes[i].isDir {
        var k := 0;
        while k < |nodes|
          invariant k <= |nodes| && forall j :: 0 <= j < k ==> !IsChild(nodes[j], i)
        {
          if IsChild(nodes[k], i) { return false; }
          k := k + 1;
        }
      }
      if nodes[i].refs != 0 {
        var node := nodes[i].(parent := NONE);
        FirstsPut(nodes, i, node);
        assert Firsts(nodes)[i := node.first] == Firsts(nodes);
        nodes := nodes[i := node];
        return true;
      }
      FreeNode(i);
      return true;
    }
  }

  predicate IsChild(n: Node, i: int) {
    n.used && n.parent == i
  }

  predicate HasChild(nodes: seq<Node>, i: int) {
    exists j :: 0 <= j < |nodes| && IsChild(nodes[j], i)
  }

  /** What a read copies: a piece of a page, or zeros where there is none. */
  function Piece(slots: seq<Slot>, s: int, within: nat, chunk: nat): (r: seq<byte>)
    requires s < |slots| && (s >= 0 ==> within + chunk <= |slots[s].data|)
    ensures |r| == chunk
  {
    if s >= 0 then slots[s].data[within..within + chunk] else seq<byte>(chunk, _ => 0)
  }

  /** `n` bytes of the pages of a node. */
  ghost function Span(slots: seq<Slot>, i: int, off: nat, n: nat): (r: seq<byte>)
    ensures |r| == n
  {
    seq<byte>(n, k requires 0 <= k => ByteAt(slots, i, off + k))
  }

  lemma SpanAt(slots: seq<Slot>, i: int, off: nat, n: nat, k: nat)
    requires k < n
    ensures Span(slots, i, off, n)[k] == ByteAt(slots, i, off + k)
  {
    hide ByteAt;
  }

  lemma SpanNone(slots: seq<Slot>, i: int, off: nat)
    ensures Span(slots, i, off, 0) == []
  {
  }

  lemma SpanJoin(slots: seq<Slot>, i: int, off: nat, m: nat, n: nat)
    ensures Span(slots, i, off, m) + Span(slots, i, off + m, n) == Span(slots, i, off, m + n)
  {
    hide Span, ByteAt;
    var l, r := Span(slots, i, off, m) + Span(slots, i, off + m, n), Span(slots, i, off, m + n);
    forall k: nat | k < m + n
      ensures l[k] == r[k]
    {
      SpanAt(slots, i, off, m + n, k);
      if k < m {
        SpanAt(slots, i, off, m, k);
      } else {
        SpanAt(slots, i, off + m, n, k - m);
        assert off + m + (k - m) == off + k;
      }
    }
  }

  lemma ContentsAt(slots: seq<Slot>, node: Node, i: int, x: nat)
    requires x < node.size
    ensures Contents(slots, node, i)[x] == if node.writable then ByteAt(slots, i, x) else Byte(node.ro, x)
  {
    hide ByteAt;
  }

  lemma PartIs(slots: seq<Slot>, nodes: seq<Node>, i: nat, off: nat, n: nat, len: nat)
    requires i < |nodes| && NodesOk(nodes) && nodes[i].used && !nodes[i].isDir && !nodes[i].special
    requires off < nodes[i].size && n == if nodes[i].size - off > len then len else nodes[i].size - off
    ensures nodes[i].writable ==> Part(Contents(slots, nodes[i], i), off, len) == Span(slots, i, off, n)
    ensures !nodes[i].writable ==>
              off + n <= |nodes[i].ro| && Part(Contents(slots, nodes[i], i), off, len) == nodes[i].ro[off..off + n]
  {
    hide ByteAt, Span, Contents;
    assert NodeOk(nodes[i]);
    var c := Contents(slots, nodes[i], i);
    assert Part(c, off, len) == c[off..off + n];
    if nodes[i].writable {
      forall k: nat | k < n
        ensures c[off + k] == Span(slots, i, off, n)[k]
      {
        ContentsAt(slots, nodes[i], i, off + k);
        SpanAt(slots, i, off, n, k);
      }
    } else {
      forall x: nat | x < nodes[i].size
        ensures c[x] == nodes[i].ro[x]
      {
        ContentsAt(slots, nodes[i], i, x);
      }
      assert c == nodes[i].ro;
    }
  }

  lemma FoundPresent(slots: seq<Slot>, s: nat, i: int, p: nat)
    requires Holds(slots, s, i, p)
    ensures Present(slots, i, p) && Gained(slots, slots, i, p, p + 1)
  {
    hide Holds;
  }

  lemma NonePresent(slots: seq<Slot>, i: int, p: nat)
    requires forall t: nat :: !Holds(slots, t, i, p)
    ensures !Present(slots, i, p)
  {
  }

  lemma AlikeGained(slots: seq<Slot>, slots': seq<Slot>, i: nat, p: nat)
    requires Alike(slots, slots')
    ensures Gained(slots, slots', i, p, p)
  {
    hide Holds, SamePages;
  }

  /** A slot in hand that is given back, or linked as page `p`, is the only difference. */
  lemma ReturnedGained(before: seq<Slot>, was: seq<Slot>, slots: seq<Slot>, s: nat, i: nat, p: nat)
    requires Gained(before, was, i, p, p) && s < |was| == |slots| && was[s].owner < 0 && !slots[s].used
    requires slots == was[s := slots[s]]
    ensures Gained(before, slots, i, p, p)
  {
    forall q: nat
      ensures Present(slots, i, q) <==> Present(was, i, q)
    {
      assert forall t: nat :: Holds(slots, t, i, q) <==> Holds(was, t, i, q);
    }
  }

  lemma LinkedGained(before: seq<Slot>, was: seq<Slot>, slots: seq<Slot>, s: nat, i: nat, p: nat)
    requires Gained(before, was, i, p, p) && s < |was| == |slots| && was[s].owner < 0
    requires slots == was[s := slots[s]] && Holds(slots, s, i, p)
    ensures Gained(before, slots, i, p, p + 1)
  {
    forall q: nat
      ensures Present(slots, i, q) <==> Present(was, i, q) || q == p
    {
      assert forall t: nat :: t != s ==> (Holds(slots, t, i, q) <==> Holds(was, t, i, q));
      assert !Holds(was, s, i, q);
    }
  }

  lemma RewrittenGained(slots0: seq<Slot>, slots: seq<Slot>, i: int, lo: nat, hi: nat, s: nat, data: Page)
    requires Gained(slots0, slots, i, lo, hi) && s < |slots|
    ensures Gained(slots0, slots[s := slots[s].(data := data)], i, lo, hi)
  {
    var slots' := slots[s := slots[s].(data := data)];
    forall q: nat
      ensures Present(slots', i, q) <==> Present(slots, i, q)
    {
      assert forall t: nat :: Holds(slots', t, i, q) <==> Holds(slots, t, i, q);
    }
  }

  /** The page after the last that `len` bytes from `off` on touch. */
  function PagesEnd(off: nat, len: nat): nat {
    if len == 0 then off / 4096 else (off + len - 1) / 4096 + 1
  }

  /** A write that stopped after `done` bytes: at its first byte or at a page boundary, and at a page
      that the file does not have. */
  ghost predicate Stopped(slots: seq<Slot>, slots': seq<Slot>, i: nat, off: nat, src: seq<byte>, done: nat) {
    && done < |src| && (done == 0 || (off + done) % 4096 == 0) && Wrote(slots, slots', i, off, src, done)
    && !Present(slots, i, (off + done) / 4096) && !Present(slots', i, (off + done) / 4096)
  }

  /** With memory, a write succeeds exactly if the pages it lacks do not exceed the room, and else it
      stops where they have used it up. */
  ghost predicate RoomDecides(slots: seq<Slot>, i: int, off: nat, len: nat, ok: bool, done: nat, room: int) {
    && (ok <==> |Absent(slots, i, off / 4096, PagesEnd(off, len))| <= room)
    && (!ok ==> |Absent(slots, i, off / 4096, (off + done) / 4096)| == room)
  }

  lemma NoneAbsent(slots: seq<Slot>, i: int, lo: nat)
    ensures |Absent(slots, i, lo, lo)| == 0
  {
    assert Absent(slots, i, lo, lo) == {};
  }

  lemma NextPageIs(off: nat, at: nat, chunk: nat)
    requires 0 < chunk && (off + at) % 4096 + chunk <= 4096 && (at == 0 || (off + at) % 4096 == 0)
    ensures (off + at) / 4096 == PagesEnd(off, at) && PagesEnd(off, at + chunk) == PagesEnd(off, at) + 1
    ensures chunk == 4096 - (off + at) % 4096 ==> (off + at + chunk) % 4096 == 0
  {
  }

  lemma StillAbsent(slots0: seq<Slot>, slots: seq<Slot>, i: int, lo: nat, hi: nat)
    requires Gained(slots0, slots, i, lo, hi)
    ensures Present(slots, i, hi) <==> Present(slots0, i, hi)
  {
    hide Present;
  }

  lemma StoppedThere(slots0: seq<Slot>, was: seq<Slot>, slots: seq<Slot>, i: int, lo: nat, hi: nat, end: nat)
    requires Gained(slots0, was, i, lo, hi) && Gained(was, slots, i, hi, hi) && !Present(was, i, hi) && lo <= hi < end
    ensures !Present(slots0, i, hi) && !Present(slots, i, hi)
    ensures |Absent(slots0, i, lo, hi)| < |Absent(slots0, i, lo, end)|
  {
    hide Present, Absent;
    AbsentNext(slots0, i, lo, hi);
    AbsentMore(slots0, i, lo, hi + 1, end);
  }

  /** What a write did: all of it, or the pages up to where memory ran out. */
  ghost predicate WriteDone(slots: seq<Slot>, nodes: seq<Node>, slots': seq<Slot>, nodes': seq<Node>, i: int,
      off: nat, src: seq<byte>, rc: int, done: nat) {
    && 0 <= i < |nodes| == |nodes'| && nodes' == nodes[i := nodes[i].(first := nodes'[i].first, size := nodes'[i].size)]
    && (rc == -1 || rc == |src|)
    && (rc >= 0 ==>
      Wrote(slots, slots', i, off, src, |src|) && nodes'[i].size == if off + |src| > nodes[i].size then off + |src|
      else nodes[i].size)
    && (rc < 0 ==> nodes'[i].size == nodes[i].size && Stopped(slots, slots', i, off, src, done))
  }

  ghost predicate TruncateDone(slots: seq<Slot>, nodes: seq<Node>, slots': seq<Slot>, nodes': seq<Node>, i: int,
      size: nat) {
    && 0 <= i < |nodes| == |nodes'| && Cut(slots, slots', i, size)
    && nodes' == nodes[i := nodes[i].(first := nodes'[i].first, size := size)]
  }

  /** A held node has one holder less; the last holder of an unlinked node takes it along. */
  ghost predicate ReleaseDone(slots: seq<Slot>, nodes: seq<Node>, slots': seq<Slot>, nodes': seq<Node>, i: int) {
    if !(0 <= i < |nodes| && nodes[i].used && nodes[i].refs > 0) then nodes' == nodes && slots' == slots
    else if nodes[i].refs == 1 && nodes[i].parent < 0 && i != 0 then nodes' == nodes[i := NO_NODE] &&
        Cut(slots, slots', i, 0)
    else nodes' == nodes[i := nodes[i].(refs := nodes[i].refs - 1)] && slots' == slots
  }

  /** A held node only loses its name; any other goes with its pages. */
  ghost predicate UnlinkDone(slots: seq<Slot>, nodes: seq<Node>, slots': seq<Slot>, nodes': seq<Node>, i: int) {
    && 0 <= i < |nodes|
    && if nodes[i].refs != 0 then nodes' == nodes[i := nodes[i].(parent := NONE)] && slots' == slots
       else nodes' == nodes[i := NO_NODE] && Cut(slots, slots', i, 0)
  }

  lemma WriteFailed(slots: seq<Slot>, nodes: seq<Node>, slots': seq<Slot>, nodes': seq<Node>, i: int, off: nat,
      src: seq<byte>, done: nat)
    requires 0 <= i < |nodes| == |nodes'| && nodes' == nodes[i := nodes[i].(first := nodes'[i].first)]
    requires Stopped(slots, slots', i, off, src, done)
    ensures WriteDone(slots, nodes, slots', nodes', i, off, src, -1, done)
  {
  }

  lemma WriteWorked(slots: seq<Slot>, nodes: seq<Node>, slots': seq<Slot>, nodes': seq<Node>, i: int, off: nat,
      src: seq<byte>)
    requires 0 <= i < |nodes| == |nodes'| &&
             nodes' == nodes[i := nodes[i].(first := nodes'[i].first, size := nodes'[i].size)]
    requires Wrote(slots, slots', i, off, src, |src|) && nodes'[i].size == if off + |src| > nodes[i].size then
             off + |src| else nodes[i].size
    ensures WriteDone(slots, nodes, slots', nodes', i, off, src, |src|, |src|)
  {
  }

  lemma NodeGrown(n: Node, m: Node)
    requires NodeOk(n) && n.used && n.writable && m == n.(size := m.size)
    ensures NodeOk(m)
  {
  }

  lemma WroteNothing(slots: seq<Slot>, i: nat, off: nat, src: seq<byte>)
    ensures Wrote(slots, slots, i, off, src, 0)
  {
  }

  lemma WroteOn(slots0: seq<Slot>, slots: seq<Slot>, slots': seq<Slot>, i: nat, off: nat, src: seq<byte>, done: nat)
    requires Wrote(slots0, slots, i, off, src, done) && SamePages(slots, slots')
    ensures Wrote(slots0, slots', i, off, src, done)
  {
    hide ByteAt, PageOf;
    forall j: nat, x: nat
      ensures ByteAt(slots', j, x) == ByteAt(slots, j, x)
    {
      SameBytes(slots, slots', j, x);
    }
  }

  /** The bytes of one page's worth of a read. */
  lemma ChunkIs(slots: seq<Slot>, s: int, i: nat, pos: nat, chunk: nat)
    requires (forall j: nat, q: nat :: OnePage(slots, j, q)) && pos % 4096 + chunk <= 4096
    requires if s < 0 then forall t: nat :: !Holds(slots, t, i, pos / 4096)
             else Holds(slots, s, i, pos / 4096) && |slots[s].data| == 4096
    ensures s < |slots| && Piece(slots, s, pos % 4096, chunk) == Span(slots, i, pos, chunk)
  {
    hide PageOf, OnePage, Span;
    if s < 0 { NoPage(slots, i, pos / 4096); } else { PageIs(slots, s, i, pos / 4096); }
    forall k: nat | k < chunk
      ensures Piece(slots, s, pos % 4096, chunk)[k] == Span(slots, i, pos, chunk)[k]
    {
      SpanAt(slots, i, pos, chunk, k);
      assert (pos + k) / 4096 == pos / 4096 && (pos + k) % 4096 == pos % 4096 + k;
    }
  }

  /** Rewriting a page in place moves no slot. */
  lemma DataKeeps(slots: seq<Slot>, head: int, free: seq<nat>, firsts: seq<int>, chains: seq<seq<nat>>, s: nat,
      data: Page)
    requires Store(slots, head, free, firsts, chains, NONE) && s < |slots| && |data| == 4096
    ensures Store(slots[s := slots[s].(data := data)], head, free, firsts, chains, NONE)
  {
    hide ChainOk, FreeOk;
    var slots' := slots[s := slots[s].(data := data)];
    FreeMembers(slots, head, free, NONE);
    FreeFrame(slots, slots', head, free, NONE, NONE);
    forall i: nat | i < |chains|
      ensures ChainOk(slots', i, firsts[i], chains[i], NONE)
    {
      ChainMembers(slots, i, firsts[i], chains[i], NONE);
      ChainFrame(slots, slots', i, firsts[i], chains[i], NONE, NONE);
    }
    forall t: nat | t < |slots'|
      ensures SlotOk(slots', t, |chains|, NONE)
    {
      assert SlotOk(slots, t, |chains|, NONE);
    }
    forall t: nat, u: nat
      ensures OneSlot(slots', t, u, NONE)
    {
      assert OneSlot(slots, t, u, NONE);
    }
  }

  lemma StoreSizes(slots: seq<Slot>, head: int, free: seq<nat>, firsts: seq<int>, chains: seq<seq<nat>>)
    requires Store(slots, head, free, firsts, chains, NONE)
    ensures |firsts| == |chains|
  {
  }

  lemma AlikePages(slots: seq<Slot>, slots': seq<Slot>)
    requires Alike(slots, slots')
    ensures SamePages(slots, slots')
  {
  }

  lemma AlikeNone(slots: seq<Slot>, slots': seq<Slot>, i: nat, p: nat)
    requires Alike(slots, slots') && forall t: nat :: !Holds(slots, t, i, p)
    ensures forall t: nat :: !Holds(slots', t, i, p)
  {
  }

  lemma PagesTrans(a: seq<Slot>, b: seq<Slot>, c: seq<Slot>)
    requires SamePages(a, b) && SamePages(b, c)
    ensures SamePages(a, c)
  {
    hide PageOf;
  }

  lemma NodesPut(nodes: seq<Node>, i: nat, node: Node)
    requires NodesOk(nodes) && i < |nodes| && NodeOk(node)
    ensures NodesOk(nodes[i := node])
  {
  }

  /** The slot in hand may be written. */
  lemma HandWritten(slots: seq<Slot>, head: int, free: seq<nat>, firsts: seq<int>, chains: seq<seq<nat>>, s: nat,
      v: Slot)
    requires Store(slots, head, free, firsts, chains, s) && s < |slots|
    ensures Store(slots[s := v], head, free, firsts, chains, s)
  {
    hide ChainOk, FreeOk;
    HandKeeps(slots, head, free, firsts, chains, s, s, v);
  }

  /** A slot taken, filled with zeros and put at the front of a node's chain changed no page. */
  lemma HandLinked(was: seq<Slot>, slots: seq<Slot>, head: int, free: seq<nat>, firsts: seq<int>,
      chains: seq<seq<nat>>, s: nat, i: nat, p: nat)
    requires Store(was, head, free, firsts, chains, s) && Store(slots, head, free, firsts, chains, s) && s < |was| &&
             was[s].owner < 0 && i < |chains|
    requires slots == was[s := Slot(true, firsts[i], NONE, i, p, ZeroPage())]
    requires forall t: nat :: !Holds(was, t, i, p)
    ensures Store(slots, head, free, firsts[i := s], chains[i := [s] + chains[i]], NONE)
    ensures SamePages(was, slots) && Holds(slots, s, i, p)
  {
    hide Store, PageOf;
    HandOnePage(was, head, free, firsts, chains, s);
    FreshPage(was, slots, s, i, p);
    forall t: nat | Of(slots, t, i, s)
      ensures slots[t].page != slots[s].page
    {
      assert !Holds(was, t, i, p);
    }
    LinkKeeps(slots, head, free, firsts, chains, s, i);
  }

  /** A slot taken and given back changed no page. */
  lemma HandReturned(was: seq<Slot>, slots: seq<Slot>, head: int, free: seq<nat>, firsts: seq<int>,
      chains: seq<seq<nat>>, s: nat)
    requires Store(slots, head, free, firsts, chains, NONE) && s < |was| && was[s].owner < 0
    requires |slots| == |was| && !slots[s].used && OnlySlot(was, slots, s)
    ensures SamePages(was, slots)
  {
    hide Store;
    AllOnePage(slots, head, free, firsts, chains);
    assert OnlySlot(slots, was, s);
    IdleSlot(slots, was, s);
  }

  lemma OfIs(slots: seq<Slot>, s: nat, i: nat)
    ensures Of(slots, s, i, NONE) <==> s < |slots| && slots[s].used && slots[s].owner == i
  {
  }

  lemma AlikeSelf(slots: seq<Slot>)
    ensures Alike(slots, slots)
  {
  }

  lemma AlikeTrans(a: seq<Slot>, b: seq<Slot>, c: seq<Slot>)
    requires Alike(a, b) && Alike(b, c)
    ensures Alike(a, c)
  {
    hide PageOf, Holds;
  }

  lemma GrownPages(slots: seq<Slot>, head: int, free: seq<nat>, firsts: seq<int>, chains: seq<seq<nat>>, v: Slot)
    requires Store(slots, head, free, firsts, chains, NONE) && !v.used
    ensures Alike(slots, slots + [v])
  {
    hide Store;
    AllOnePage(slots, head, free, firsts, chains);
    IdleSlot(slots, slots + [v], |slots|);
  }

  lemma TakenPages(slots: seq<Slot>, head: int, free: seq<nat>, firsts: seq<int>, chains: seq<seq<nat>>, v: Slot)
    requires Store(slots, head, free, firsts, chains, NONE) && 0 <= head < |slots| && !slots[head].used && v.owner < 0
    ensures Alike(slots, slots[head := v])
  {
    hide Store;
    AllOnePage(slots, head, free, firsts, chains);
    IdleSlot(slots, slots[head := v], head);
  }

  lemma NoFree(slots: seq<Slot>, head: int, free: seq<nat>, firsts: seq<int>, chains: seq<seq<nat>>)
    requires Store(slots, head, free, firsts, chains, NONE) && head < 0
    ensures |free| == 0
  {
  }

  /** The slot in hand is not on the free list, so some slot is in use. */
  lemma HandCount(slots: seq<Slot>, head: int, free: seq<nat>, firsts: seq<int>, chains: seq<seq<nat>>, s: nat)
    requires Store(slots, head, free, firsts, chains, s) && s < |slots|
    ensures |free| < |slots|
  {
    var have := Elems(free);
    assert s !in have;
    forall x | x in have + {s}
      ensures 0 <= x < |slots|
    {
      assert x in have ==> Unused(slots, x, s);
    }
    IntervalCard(have + {s}, 0, |slots|);
    DistinctCard(free);
  }

  function Elems(c: seq<nat>): set<nat> {
    set x | x in c
  }

  lemma {:induction false} DistinctCard(c: seq<nat>)
    requires Distinct(c)
    ensures |Elems(c)| == |c|
  {
    if |c| == 0 {
    } else {
      var d := c[1..];
      DistinctCard(d);
      assert c == [c[0]] + d;
      assert Elems(c) == Elems(d) + {c[0]};
      assert c[0] !in d;
    }
  }

  // ---------------------------------------------------------------- dropping pages

  /** No page differs but pages of node `i` from `keep` on. */
  ghost predicate SamePagesBut(slots: seq<Slot>, slots': seq<Slot>, i: nat, keep: nat) {
    forall j: nat, q: nat :: j != i || q < keep ==> PageOf(slots', j, q) == PageOf(slots, j, q)
  }

  lemma ButSame(slots: seq<Slot>, i: nat, keep: nat)
    ensures SamePagesBut(slots, slots, i, keep)
  {
  }

  lemma NodesFirst(nodes: seq<Node>, i: nat, first: int)
    requires NodesOk(nodes) && i < |nodes| && (first == NONE || nodes[i].first != NONE)
    ensures NodesOk(nodes[i := nodes[i].(first := first)])
  {
  }

  lemma FirstOf(slots: seq<Slot>, head: int, free: seq<nat>, firsts: seq<int>, chains: seq<seq<nat>>, i: nat)
    requires Store(slots, head, free, firsts, chains, NONE) && i < |firsts| && firsts[i] >= 0
    ensures |firsts| == |chains| && |chains[i]| > 0 && firsts[i] == chains[i][0] < |slots|
    ensures slots[firsts[i]].used && Holds(slots, firsts[i], i, slots[firsts[i]].page)
  {
    hide FreeOk;
    assert ChainOk(slots, i, firsts[i], chains[i], NONE);
    assert ChainLink(slots, chains[i], 0) && chains[i][0] in chains[i];
  }

  lemma ChainHead(slots: seq<Slot>, head: int, free: seq<nat>, firsts: seq<int>, chains: seq<seq<nat>>, i: nat)
    requires Store(slots, head, free, firsts, chains, NONE) && i < |firsts|
    ensures |firsts| == |chains| && firsts[i] == Nth(chains[i], 0)
  {
    hide FreeOk;
    assert ChainOk(slots, i, firsts[i], chains[i], NONE);
  }

  lemma ChainAt(slots: seq<Slot>, head: int, free: seq<nat>, firsts: seq<int>, chains: seq<seq<nat>>, i: nat, k: nat)
    requires Store(slots, head, free, firsts, chains, NONE) && i < |firsts| && i < |chains| && k <= |chains[i]| &&
             Nth(chains[i], k) >= 0
    ensures k < |chains[i]| && chains[i][k] < |slots| && slots[chains[i][k]].used &&
            slots[chains[i][k]].next == Nth(chains[i], k + 1)
    ensures Holds(slots, chains[i][k], i, slots[chains[i][k]].page)
    ensures 0 < k ==> chains[i][k - 1] < |slots|
  {
    hide FreeOk;
    assert ChainOk(slots, i, firsts[i], chains[i], NONE);
    assert ChainLink(slots, chains[i], k) && chains[i][k] in chains[i];
    assert 0 < k ==> ChainLink(slots, chains[i], k - 1);
  }

  /** Dropping a page from `keep` on touches none before. */
  lemma ButDropped(slots0: seq<Slot>, was: seq<Slot>, slots: seq<Slot>, i: nat, keep: nat, s: nat, head: int,
      free: seq<nat>, firsts: seq<int>, chains: seq<seq<nat>>)
    requires SamePagesBut(slots0, was, i, keep) && Store(was, head, free, firsts, chains, NONE)
    requires s < |was| && Holds(was, s, i, was[s].page) && was[s].page >= keep && OnlySlot(was, slots, s) &&
             !slots[s].used
    ensures SamePagesBut(slots0, slots, i, keep)
  {
    hide Store, PageOf, OnePage;
    AllOnePage(was, head, free, firsts, chains);
    forall j: nat, q: nat | j != i || q < keep
      ensures PageOf(slots, j, q) == PageOf(slots0, j, q)
    {
      GonePage(was, slots, s, i, was[s].page, j, q);
    }
  }

  lemma NothingLeft(slots0: seq<Slot>, slots: seq<Slot>, head: int, free: seq<nat>, firsts: seq<int>,
      chains: seq<seq<nat>>, i: nat)
    requires Store(slots, head, free, firsts, chains, NONE) && i < |firsts| && firsts[i] < 0 &&
             SamePagesBut(slots0, slots, i, 0)
    ensures firsts[i] == NONE && Cut(slots0, slots, i, 0)
  {
    hide PageOf, FreeOk;
    assert ChainOk(slots, i, firsts[i], chains[i], NONE);
    assert |chains[i]| == 0;
    forall j: nat, x: nat
      ensures ByteAt(slots, j, x) == if j == i then 0 else ByteAt(slots0, j, x)
    {
      if j == i {
        forall t: nat
          ensures !Holds(slots, t, i, x / 4096)
        {
          assert t in chains[i] <==> Of(slots, t, i, NONE);
        }
        NoPage(slots, i, x / 4096);
      }
    }
  }

  lemma NodesNext(nodes: seq<Node>, i: nat, first: int)
    requires NodesOk(nodes) && i < |nodes| && nodes[i].used && nodes[i].writable
    ensures NodesOk(nodes[i := nodes[i].(first := first)])
  {
  }

  lemma NodeSized(nodes: seq<Node>, i: nat, size: nat)
    requires NodesOk(nodes) && i < |nodes| && nodes[i].used && nodes[i].writable
    ensures NodesOk(nodes[i := nodes[i].(size := size)])
  {
    assert NodeOk(nodes[i]);
  }

  predicate Kept(slots: seq<Slot>, c: seq<nat>, j: nat, keep: nat) {
    j < |c| && c[j] < |slots| && slots[c[j]].page < keep
  }

  lemma Trimmed(slots: seq<Slot>, c: seq<nat>, k: nat, keep: nat)
    requires k < |c| && c[k] < |slots| && (0 < k ==> c[k - 1] < |slots|)
    ensures |Without(c, k)| == |c| - 1 && Nth(Without(c, k), k) == Nth(c, k + 1)
    ensures forall j: nat :: j < k ==> Without(c, k)[j] == c[j]
  {
  }

  lemma TrimmedUsed(slots: seq<Slot>, c: seq<nat>, k: nat)
    requires k < |c| && c[k] < |slots| && (0 < k ==> c[k - 1] < |slots|)
    ensures |Skipped(slots, c, k)| == |slots| && Skipped(slots, c, k)[c[k]].used == slots[c[k]].used
  {
  }

  lemma TrimmedKept(was: seq<Slot>, slots: seq<Slot>, c: seq<nat>, k: nat, keep: nat, s: nat)
    requires k < |c| && c[k] == s < |was| && (0 < k ==> c[k - 1] < |was|) && was[s].page >= keep
    requires forall j: nat :: j < k ==> Kept(was, c, j, keep)
    requires |slots| == |was| && slots == Skipped(was, c, k)[s := slots[s]]
    ensures OnlySlot(was, slots, s) && forall j: nat :: j < k ==> Kept(slots, Without(c, k), j, keep)
  {
    Trimmed(was, c, k, keep);
    forall j: nat | j < k
      ensures Kept(slots, Without(c, k), j, keep)
    {
      assert Kept(was, c, j, keep) && c[j] != s;
    }
  }

  lemma AllKept(slots: seq<Slot>, head: int, free: seq<nat>, firsts: seq<int>, chains: seq<seq<nat>>, i: nat, k: nat,
      keep: nat)
    requires Store(slots, head, free, firsts, chains, NONE) && i < |firsts| && i < |chains| && k <= |chains[i]| &&
             Nth(chains[i], k) < 0
    requires forall j: nat :: j < k ==> Kept(slots, chains[i], j, keep)
    ensures forall q: nat :: q >= keep ==> PageOf(slots, i, q) == ZeroPage()
  {
    hide PageOf, FreeOk;
    assert ChainOk(slots, i, firsts[i], chains[i], NONE);
    forall t: nat | Of(slots, t, i, NONE)
      ensures slots[t].page < keep
    {
      assert t in chains[i];
      var j: nat :| j < |chains[i]| && chains[i][j] == t;
      assert Kept(slots, chains[i], j, keep);
    }
    forall q: nat | q >= keep
      ensures PageOf(slots, i, q) == ZeroPage()
    {
      assert forall t: nat :: Holds(slots, t, i, q) ==> Of(slots, t, i, NONE);
      NoPage(slots, i, q);
    }
  }

  /** The last page kept is zero from the new end on, and nothing else changed. */
  ghost predicate TailCut(was: seq<Slot>, slots: seq<Slot>, i: nat, size: nat) {
    forall j: nat, x: nat :: ByteAt(slots, j, x) == if j == i && x >= size && x / 4096 == size / 4096 then 0
        else ByteAt(was, j, x)
  }

  lemma TailZeroed(slots: seq<Slot>, s: nat, i: nat, size: nat, data: Page)
    requires Holds(slots, s, i, size / 4096) && |slots[s].data| == 4096 &&
             (forall j: nat, q: nat :: OnePage(slots, j, q))
    requires data == slots[s].data[..size % 4096] + seq<byte>(4096 - size % 4096, _ => 0)
    ensures TailCut(slots, slots[s := slots[s].(data := data)], i, size)
  {
    hide PageOf, OnePage;
    var slots' := slots[s := slots[s].(data := data)];
    PageIs(slots, s, i, size / 4096);
    forall j: nat, x: nat
      ensures ByteAt(slots', j, x) == if j == i && x >= size && x / 4096 == size / 4096 then 0 else ByteAt(slots, j, x)
    {
      RewrittenPage(slots, s, i, size / 4096, data, j, x / 4096);
    }
  }

  lemma TailAbsent(slots: seq<Slot>, i: nat, size: nat)
    requires forall t: nat :: !Holds(slots, t, i, size / 4096)
    ensures TailCut(slots, slots, i, size)
  {
    hide PageOf;
    NoPage(slots, i, size / 4096);
  }

  lemma CutNow(slots0: seq<Slot>, was: seq<Slot>, slots: seq<Slot>, i: nat, size: nat, keep: nat)
    requires SamePagesBut(slots0, was, i, keep) && keep == (size + 4096 - 1) / 4096
    requires forall q: nat :: q >= keep ==> PageOf(was, i, q) == ZeroPage()
    requires if size % 4096 != 0 then TailCut(was, slots, i, size) else slots == was
    ensures Cut(slots0, slots, i, size)
  {
    hide PageOf;
    forall j: nat, x: nat
      ensures ByteAt(slots, j, x) == if j == i && x >= size then 0 else ByteAt(slots0, j, x)
    {
      assert x < size ==> x / 4096 < keep;
      assert x >= size && x / 4096 < keep ==> size % 4096 != 0 && x / 4096 == size / 4096;
    }
  }

  // ---------------------------------------------------------------- a write that fails

  lemma {:induction false} AllAbsent(i: int, hi: nat)
    ensures |Absent([], i, 0, hi)| == hi
  {
    if hi == 0 {
      NoneAbsent([], i, 0);
    } else {
      AllAbsent(i, hi - 1);
      AbsentNext([], i, 0, hi - 1);
    }
  }

  /** An empty file, written with one page more than the store can hold and then grown to one byte,
      reads the first byte of the write that failed. */
  method FailThenGrow(src: seq<byte>) returns (bytes: seq<byte>)
    requires |src| == 4096 * (MAX_PAGES + 1)
    ensures bytes == [src[0]]
  {
    hide Store, Absent, Wrote, Cut, Contents, ZeroTail, Part, NodesOk, Stopped;
    var fs := new Fs(true);
    var node := Node(true, false, false, true, 0, 0, 0, NONE, []);
    FirstsPut(fs.nodes, 1, node);
    NodesPut(fs.nodes, 1, node);
    assert Firsts(fs.nodes)[1 := node.first] == Firsts(fs.nodes);
    fs.nodes := fs.nodes[1 := node];
    AllAbsent(1, MAX_PAGES + 1);
    var rc;
    ghost var done;
    rc, done := fs.Write(1, 0, src, false);
    AllAbsent(1, done / 4096);
    ghost var slots1 := fs.slots;
    StoppedWrote([], slots1, 1, 0, src, done);
    var ok := fs.Truncate(1, 1, false);
    EmptyTail(node);
    FailedThenGrown([], slots1, fs.slots, node, 1, 0, src, done, 1);
    bytes := fs.Read(1, 0, 1);
    OneByte(fs.slots, fs.nodes[1], node.(size := 1), src[0]);
  }

  lemma StoppedWrote(slots: seq<Slot>, slots': seq<Slot>, i: nat, off: nat, src: seq<byte>, done: nat)
    requires Stopped(slots, slots', i, off, src, done)
    ensures Wrote(slots, slots', i, off, src, done)
  {
  }

  lemma EmptyTail(node: Node)
    ensures ZeroTail([], node, 1)
  {
    forall x: nat
      ensures ByteAt([], 1, x) == 0
    {
      NoPage([], 1, x / 4096);
    }
  }

  lemma OneByte(slots: seq<Slot>, n: Node, m: Node, b: byte)
    requires n.writable && m.writable && n.size == m.size == 1 && Contents(slots, m, 1)[0] == b
    ensures Part(Contents(slots, n, 1), 0, 1) == [b]
  {
  }
}
