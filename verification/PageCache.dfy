/** The VFS page cache (kernel/src/vfs.c): hash chains threaded through an evicting table of
    pages, which must agree with a plain scan and with the files behind it. */
module PageCache {
  import opened Bytes
  import opened Chains
  import opened Arith
  import R = Residency

  const READAHEAD_PAGES: nat := 2

  datatype Node = Node(backend: bv64, ino: bv64, dev: bv64)
  datatype Key = Key(node: Node, off: nat)
  datatype Entry = Entry(valid: bool, key: Key, data: seq<byte>, hashNext: int)

  /** `page_cache_hash` before its mask, on the page number of the offset. */
  function Mix(n: Node, page: bv64): bv64 {
    var h := (n.backend * 0x9e37_79b1_85eb_ca87) ^ n.ino ^ (n.dev << 17) ^ page;
    var h := h ^ (h >> 33);
    var h := h * 0xff51_afd7_ed55_8ccd;
    h ^ (h >> 33)
  }

  /** The bucket of a key. The bucket count is a power of two, so the mask is a remainder. */
  function Hash(k: Key, buckets: nat): (b: nat)
    requires 0 < buckets
    ensures b < buckets
  {
    (Mix(k.node, ((k.off / 4096) % 0x1_0000_0000_0000_0000) as bv64) as nat) % buckets
  }

  // ---------------------------------------------------------------- chains

  predicate LinkAt(entries: seq<Entry>, c: seq<nat>, k: nat)
    requires k < |c|
  {
    c[k] < |entries| && entries[c[k]].hashNext == Nth(c, k + 1)
  }

  /** Following `hashNext` from `head` visits exactly the slots of `c`, in order. */
  ghost predicate Chained(entries: seq<Entry>, head: int, c: seq<nat>) {
    && head == Nth(c, 0)
    && forall k: nat :: k < |c| ==> LinkAt(entries, c, k)
  }

  /** Slot `i` belongs to the index: it is valid and not the one being worked on. */
  predicate Indexed(entries: seq<Entry>, i: nat, except: int) {
    i < |entries| && entries[i].valid && i != except
  }

  /** Chain `b` holds exactly the indexed slots whose key hashes to `b`, each once. */
  ghost predicate ChainOk(entries: seq<Entry>, buckets: nat, b: nat, head: int, c: seq<nat>, except: int)
    requires 0 < buckets
  {
    && Chained(entries, head, c) && Distinct(c)
    && forall i: nat :: i in c <==> Indexed(entries, i, except) && Hash(entries[i].key, buckets) == b
  }

  /** The whole index, `except` aside: every chain is right and keys are unique. */
  ghost predicate IndexOk(entries: seq<Entry>, heads: seq<int>, chains: seq<seq<nat>>, except: int) {
    && 0 < |heads| == |chains|
    && (forall b :: 0 <= b < |heads| ==> ChainOk(entries, |heads|, b, heads[b], chains[b], except))
    && (forall i: nat, j: nat ::
          Indexed(entries, i, except) && Indexed(entries, j, except) && entries[i].key == entries[j].key ==> i == j)
  }

  /** Taking slot `c[k]` out of its chain, by rewriting the link that led to it. */
  function Unlinked(entries: seq<Entry>, c: seq<nat>, k: nat): seq<Entry>
    requires k < |c| && c[k] < |entries| && (0 < k ==> c[k - 1] < |entries|)
  {
    var e := if 0 < k then entries[c[k - 1] := entries[c[k - 1]].(hashNext := entries[c[k]].hashNext)] else entries;
    e[c[k] := e[c[k]].(hashNext := NONE)]
  }

  lemma UnlinkedSlots(entries: seq<Entry>, c: seq<nat>, k: nat)
    requires k < |c| && c[k] < |entries| && (0 < k ==> c[k - 1] < |entries| && c[k - 1] != c[k])
    ensures var e := Unlinked(entries, c, k);
            && |e| == |entries|
            && (forall i: nat :: i < |e| && i != c[k] && (k == 0 || i != c[k - 1]) ==> e[i] == entries[i])
            && (0 < k ==> e[c[k - 1]] == entries[c[k - 1]].(hashNext := entries[c[k]].hashNext))
            && e[c[k]] == entries[c[k]].(hashNext := NONE)
  {
  }

  lemma UnlinkedLinks(entries: seq<Entry>, head: int, c: seq<nat>, k: nat)
    requires Chained(entries, head, c) && Distinct(c) && k < |c|
    ensures c[k] < |entries| && (0 < k ==> c[k - 1] < |entries|)
    ensures Chained(Unlinked(entries, c, k), if k == 0 then entries[c[0]].hashNext else head, Without(c, k))
    ensures Distinct(Without(c, k))
  {
    assert LinkAt(entries, c, k) && (0 < k ==> LinkAt(entries, c, k - 1));
    UnlinkedSlots(entries, c, k);
    hide Unlinked;
    var e := Unlinked(entries, c, k);
    var d := Without(c, k);
    assert forall j :: 0 <= j < k ==> d[j] == c[j];
    assert forall j :: k <= j < |d| ==> d[j] == c[j + 1];
    forall j: nat | j < |d|
      ensures LinkAt(e, d, j)
    {
      var jj := if j < k then j else j + 1;
      assert LinkAt(entries, c, jj);
    }
  }

  lemma UnlinkChain(entries: seq<Entry>, buckets: nat, b: nat, head: int, c: seq<nat>, k: nat)
    requires 0 < buckets && ChainOk(entries, buckets, b, head, c, NONE) && k < |c|
    ensures c[k] < |entries| && (0 < k ==> c[k - 1] < |entries|)
    ensures var first := if k == 0 then entries[c[0]].hashNext else head;
            ChainOk(Unlinked(entries, c, k), buckets, b, first, Without(c, k), c[k])
  {
    hide Hash, Without;
    UnlinkedLinks(entries, head, c, k);
    forall i: nat { WithoutMembers(c, k, i); }
  }

  /** A chain is untouched by changes to slots it does not visit. */
  lemma OtherChain(entries: seq<Entry>, e: seq<Entry>, buckets: nat, b: nat, head: int, c: seq<nat>, x: nat,
      before: int, after: int)
    requires 0 < buckets && ChainOk(entries, buckets, b, head, c, before) && |e| == |entries|
    requires forall i :: 0 <= i < |e| && i != x ==> e[i].valid == entries[i].valid && e[i].key == entries[i].key
    requires forall i :: i in c ==> e[i].hashNext == entries[i].hashNext
    requires x !in c && x < |e| && before in {NONE, x} && after in {NONE, x}
    requires Indexed(e, x, after) ==> Hash(e[x].key, buckets) != b
    ensures ChainOk(e, buckets, b, head, c, after)
  {
    hide Hash;
    forall k: nat | k < |c|
      ensures LinkAt(e, c, k)
    {
      assert LinkAt(entries, c, k) && c[k] in c;
    }
  }

  lemma UnlinkKeepsIndex(entries: seq<Entry>, heads: seq<int>, chains: seq<seq<nat>>, b: nat, k: nat)
    requires IndexOk(entries, heads, chains, NONE) && b < |heads| && k < |chains[b]|
    ensures var c := chains[b];
            && c[k] < |entries| && (0 < k ==> c[k - 1] < |entries|)
            && IndexOk(Unlinked(entries, c, k), heads[b := if k == 0 then entries[c[0]].hashNext else heads[b]],
                       chains[b := Without(c, k)], c[k])
  {
    hide Hash;
    var c := chains[b];
    assert ChainOk(entries, |heads|, b, heads[b], c, NONE);
    UnlinkChain(entries, |heads|, b, heads[b], c, k);
    var e := Unlinked(entries, c, k);
    forall a | 0 <= a < |heads| && a != b
      ensures ChainOk(e, |heads|, a, heads[a], chains[a], c[k])
    {
      assert ChainOk(entries, |heads|, a, heads[a], chains[a], NONE);
      assert c[k] in c && (0 < k ==> c[k - 1] in c);
      OtherChain(entries, e, |heads|, a, heads[a], chains[a], c[k], NONE, c[k]);
    }
  }

  lemma LinkChain(entries: seq<Entry>, buckets: nat, head: int, c: seq<nat>, x: nat)
    requires 0 < buckets && x < |entries| && entries[x].valid
    requires ChainOk(entries, buckets, Hash(entries[x].key, buckets), head, c, x)
    ensures ChainOk(entries[x := entries[x].(hashNext := head)], buckets, Hash(entries[x].key, buckets), x, [x] + c,
            NONE)
  {
    hide Hash;
    var e := entries[x := entries[x].(hashNext := head)];
    var d := [x] + c;
    assert x !in c;
    assert forall i: nat :: i in d <==> i == x || i in c;
    forall k: nat | k < |d|
      ensures LinkAt(e, d, k)
    {
      assert 0 < k ==> LinkAt(entries, c, k - 1) && d[k] == c[k - 1] && c[k - 1] in c;
    }
  }

  /** `page_cache_link`: a valid slot with a new key goes to the front of its chain. */
  lemma LinkKeepsIndex(entries: seq<Entry>, heads: seq<int>, chains: seq<seq<nat>>, x: nat)
    requires IndexOk(entries, heads, chains, x) && x < |entries| && entries[x].valid
    requires forall i: nat :: Indexed(entries, i, x) ==> entries[i].key != entries[x].key
    ensures var b := Hash(entries[x].key, |heads|);
            IndexOk(entries[x := entries[x].(hashNext := heads[b])], heads[b := x], chains[b := [x] + chains[b]], NONE)
  {
    hide Hash, Chained, Distinct;
    var b := Hash(entries[x].key, |heads|);
    var e := entries[x := entries[x].(hashNext := heads[b])];
    LinkChain(entries, |heads|, heads[b], chains[b], x);
    forall a | 0 <= a < |heads| && a != b
      ensures ChainOk(e, |heads|, a, heads[a], chains[a], NONE)
    {
      assert ChainOk(entries, |heads|, a, heads[a], chains[a], x);
      OtherChain(entries, e, |heads|, a, heads[a], chains[a], x, x, NONE);
    }
  }

  /** A slot that is not indexed can be rewritten, as long as it stays out of the index. */
  lemma RewriteKeepsIndex(entries: seq<Entry>, heads: seq<int>, chains: seq<seq<nat>>, x: nat, v: Entry, before: int,
      after: int)
    requires IndexOk(entries, heads, chains, before) && x < |entries| && !Indexed(entries, x, before)
    requires (before == x || before == NONE) && (after == x || (after == NONE && !v.valid))
    ensures IndexOk(entries[x := v], heads, chains, after)
  {
    hide Hash;
    var e := entries[x := v];
    assert forall i: nat :: Indexed(e, i, after) <==> Indexed(entries, i, before);
    forall a | 0 <= a < |heads|
      ensures ChainOk(e, |heads|, a, heads[a], chains[a], after)
    {
      assert ChainOk(entries, |heads|, a, heads[a], chains[a], before);
      OtherChain(entries, e, |heads|, a, heads[a], chains[a], x, before, after);
    }
  }

  // ---------------------------------------------------------------- coherence

  type Files = map<Node, seq<byte>>

  /** Up to `len` bytes of a file from `off` on: what a read past the cache gives. */
  function Slice(content: seq<byte>, off: nat, len: nat): seq<byte> {
    if off >= |content| then [] else if off + len <= |content| then content[off..off + len] else content[off..]
  }

  /** The page of a file at `off`, zero-filled past the end. */
  function PageOf(content: seq<byte>, off: nat): (r: seq<byte>)
    ensures |r| == 4096
    ensures forall i :: 0 <= i < 4096 ==> r[i] == if off + i < |content| then content[off + i] else 0
  {
    var s := Slice(content, off, 4096);
    s + seq(4096 - |s|, _ => 0)
  }

  lemma NextChunk(content: seq<byte>, off: nat, len: nat, done: seq<byte>, page: nat, chunk: nat)
    requires done <= Slice(content, off, len) && |done| + chunk <= |Slice(content, off, len)|
    requires page <= off + |done| && off + |done| - page + chunk <= 4096
    ensures var from := off + |done| - page;
            done + PageOf(content, page)[from..from + chunk] <= Slice(content, off, len)
  {
    var all := Slice(content, off, len);
    var from := off + |done| - page;
    var l, r := PageOf(content, page)[from..from + chunk], all[|done|..|done| + chunk];
    forall i | 0 <= i < chunk
      ensures l[i] == r[i]
    {
      assert all[|done| + i] == content[off + |done| + i];
    }
    assert l == r;
    assert done + all[|done|..|done| + chunk] == all[..|done| + chunk];
  }

  predicate Coherent(entries: seq<Entry>, files: Files) {
    forall i :: 0 <= i < |entries| && entries[i].valid ==>
      entries[i].key.node in files && entries[i].data == PageOf(files[entries[i].key.node], entries[i].key.off)
  }

  predicate Holds(e: Entry, k: Key) {
    e.valid && e.key == k
  }

  /** Some slot, anywhere in the table, holds a page of this key. */
  predicate Cached(entries: seq<Entry>, k: Key) {
    exists i :: 0 <= i < |entries| && Holds(entries[i], k)
  }

  /** Every valid entry of `after` was a valid entry of `before`, in the same slot. */
  predicate Fewer(before: seq<Entry>, after: seq<Entry>) {
    && |before| == |after|
    && forall i :: 0 <= i < |after| && after[i].valid ==>
         before[i].valid && after[i].key == before[i].key && after[i].data == before[i].data
  }

  /** Nothing but links differs. */
  predicate Relinked(before: seq<Entry>, after: seq<Entry>) {
    && |before| == |after|
    && forall i :: 0 <= i < |after| ==> after[i] == before[i].(hashNext := after[i].hashNext)
  }

  /** Slot `x` was emptied and nothing but links changed elsewhere. */
  predicate Emptied(before: seq<Entry>, after: seq<Entry>, x: nat) {
    && |before| == |after| && x < |after| && after[x] == EMPTY
    && forall i :: 0 <= i < |after| && i != x ==> after[i] == before[i].(hashNext := after[i].hashNext)
  }

  /** Going once round from the hand meets every slot. */
  lemma AllVisited(entries: seq<Entry>, hand: nat)
    requires 0 < |entries|
    requires forall j :: 0 <= j < |entries| ==> entries[Round(hand, j, |entries|)].valid
    ensures forall i :: 0 <= i < |entries| ==> entries[i].valid
  {
    forall i | 0 <= i < |entries|
      ensures entries[i].valid
    {
      var n := |entries|;
      var r := hand % n;
      var j := if i >= r then i - r else i - r + n;
      assert entries[Round(hand, j, n)].valid;
      RoundTo(hand, j, n, i);
    }
  }

  lemma FewerKeeps(before: seq<Entry>, after: seq<Entry>, files: Files)
    requires Coherent(before, files) && Fewer(before, after)
    ensures Coherent(after, files)
    ensures forall k :: Cached(after, k) ==> Cached(before, k)
  {
    forall k | Cached(after, k)
      ensures Cached(before, k)
    {
      var i :| 0 <= i < |after| && Holds(after[i], k);
      assert Holds(before[i], k);
    }
  }

  /** The chain of a key's hash holds every slot with that key, so walking it is a full scan. */
  lemma ChainIsScan(entries: seq<Entry>, heads: seq<int>, chains: seq<seq<nat>>, k: Key)
    requires IndexOk(entries, heads, chains, NONE)
    ensures Cached(entries, k) <==> exists j ::
              0 <= j < |chains[Hash(k, |heads|)]| && chains[Hash(k, |heads|)][j] < |entries| &&
              Holds(entries[chains[Hash(k, |heads|)][j]], k)
  {
    hide Hash, Chained, Distinct;
    var c := chains[Hash(k, |heads|)];
    assert ChainOk(entries, |heads|, Hash(k, |heads|), heads[Hash(k, |heads|)], c, NONE);
    if Cached(entries, k) {
      var i: nat :| i < |entries| && Holds(entries[i], k);
      assert Indexed(entries, i, NONE);
      assert i in c;
    }
  }

  /** An open node as the caller holds it: its size is a snapshot. */
  datatype Handle = Handle(node: Node, size: nat, cacheable: bool)

  predicate Refreshed(files: Files, h: Handle) {
    h.node in files && h.size == |files[h.node]|
  }

  predicate OfNode(e: Entry, node: Node) {
    e.valid && e.key.node == node
  }

  function PageStart(off: nat): (p: nat)
    ensures p % 4096 == 0 && p <= off < p + 4096
  {
    off - off % 4096
  }

  // ---------------------------------------------------------------- what is resident

  ghost function SlotOf(e: Entry): R.Slot<Key> {
    if e.valid then R.Page(e.key) else R.Vacant
  }

  ghost function Slots(entries: seq<Entry>): (r: seq<R.Slot<Key>>)
    ensures |r| == |entries|
  {
    seq<R.Slot<Key>>(|entries|, i requires 0 <= i < |entries| => SlotOf(entries[i]))
  }

  /** The table as loads and evictions see it. */
  ghost function Resident(entries: seq<Entry>, hand: nat): (t: R.Table<Key>)
    ensures |t.slots| == |entries| && (|entries| > 0 ==> t.hand < |t.slots|)
  {
    R.Table(Slots(entries), if |entries| == 0 then 0 else hand % |entries|)
  }

  lemma CachedIsHas(entries: seq<Entry>, hand: nat, k: Key)
    ensures Cached(entries, k) <==> R.Has(Resident(entries, hand), k)
  {
    var slots := Slots(entries);
    if Cached(entries, k) {
      var i: nat :| i < |entries| && Holds(entries[i], k);
      assert slots[i] == R.Page(k);
    }
    if R.Page(k) in slots {
      var i: nat :| i < |slots| && slots[i] == R.Page(k);
      assert Holds(entries[i], k);
    }
  }

  lemma ResidentOk(entries: seq<Entry>, heads: seq<int>, chains: seq<seq<nat>>, hand: nat)
    requires IndexOk(entries, heads, chains, NONE) && |entries| > 0
    ensures R.Ok(Resident(entries, hand))
  {
    hide ChainOk;
    var slots := Slots(entries);
    forall i: nat, j: nat | i < |slots| && j < |slots|
      ensures R.Once(slots, i, j)
    {
      if slots[i] == slots[j] && slots[i].Page? {
        assert Indexed(entries, i, NONE) && Indexed(entries, j, NONE);
      }
    }
  }

  lemma SlotsAt(entries: seq<Entry>, i: nat)
    requires i < |entries|
    ensures Slots(entries)[i] == SlotOf(entries[i])
  {
  }

  lemma SlotsPut(entries: seq<Entry>, i: nat, e: Entry)
    requires i < |entries|
    ensures Slots(entries[i := e]) == Slots(entries)[i := SlotOf(e)]
  {
  }

  lemma SlotsEmptied(before: seq<Entry>, after: seq<Entry>, x: nat)
    requires Emptied(before, after, x)
    ensures Slots(after) == Slots(before)[x := R.Vacant]
  {
  }

  lemma RoundFrom(hand: nat, i: nat, n: nat)
    requires 0 < n
    ensures Round(hand % n, i, n) == Round(hand, i, n)
  {
    var q, r := (hand % n + i) / n, (hand % n + i) % n;
    assert hand + i == (hand / n + q) * n + r;
    DivMod(hand + i, n, hand / n + q, r);
  }

  lemma HandMod(hand: nat, n: nat)
    requires 0 < n
    ensures hand % n % n == hand % n
  {
    DivMod(hand % n, n, 0, hand % n);
  }

  /** Moving the hand past a slot, counted from any number that stands for that slot. */
  lemma NextIs(entries: seq<Entry>, hand: nat, index: nat, from: nat)
    requires index < |entries| && from % |entries| == index
    ensures (from + 1) % |entries| == R.Next(Resident(entries, hand), index)
    ensures (from + 1) % |entries| % |entries| == (from + 1) % |entries|
  {
    HandPast(index, from, |entries|);
    HandMod(from + 1, |entries|);
  }

  lemma HandPast(index: nat, hand: nat, n: nat)
    requires 0 < n && hand % n == index
    ensures (hand + 1) % n == if index + 1 == n then 0 else index + 1
  {
    var q := hand / n;
    if index + 1 == n {
      assert hand + 1 == (q + 1) * n;
      DivMod(hand + 1, n, q + 1, 0);
    } else {
      DivMod(hand + 1, n, q, index + 1);
    }
  }

  /** The pages read ahead of the one at `off`: the next two, below the size. */
  function Aheads(h: Handle, off: nat): (ks: seq<Key>)
    ensures |ks| <= 2 && Key(h.node, off) !in ks && (|ks| == 2 ==> ks[0] != ks[1])
  {
    if h.size <= off + 4096 then []
    else if h.size <= off + 8192 then [Key(h.node, off + 4096)]
    else [Key(h.node, off + 4096), Key(h.node, off + 8192)]
  }

  /** The table after a page and those ahead of it have been loaded. */
  ghost function AfterPage(t: R.Table<Key>, h: Handle, off: nat): (u: R.Table<Key>)
    requires t.hand < |t.slots|
    ensures u.hand < |u.slots| == |t.slots|
  {
    R.Puts(R.Put(t, Key(h.node, off)), Aheads(h, off))
  }

  ghost predicate Loses(t: R.Table<Key>, h: Handle, off: nat)
    requires t.hand < |t.slots|
  {
    R.PushedOut(t, Key(h.node, off), Aheads(h, off))
  }

  function ChunkAt(off: nat, want: nat): (n: nat)
    ensures 0 < want ==> 0 < n <= want
  {
    if 4096 - (off - PageStart(off)) > want then want else 4096 - (off - PageStart(off))
  }

  /** How many of `want` bytes from `off` on a read delivers: page after page, up to the first that
      its own read-ahead pushes out. */
  ghost function Delivered(t: R.Table<Key>, h: Handle, off: nat, want: nat): (n: nat)
    requires t.hand < |t.slots|
    ensures n <= want
    decreases want
  {
    if want == 0 || Loses(t, h, PageStart(off)) then 0
    else
      var chunk := ChunkAt(off, want);
      chunk + Delivered(AfterPage(t, h, PageStart(off)), h, off + chunk, want - chunk)
  }

  /** The table such a read leaves. */
  ghost function Left(t: R.Table<Key>, h: Handle, off: nat, want: nat): (u: R.Table<Key>)
    requires t.hand < |t.slots|
    ensures u.hand < |u.slots| == |t.slots|
    decreases want
  {
    if want == 0 then t
    else
      var u, chunk := AfterPage(t, h, PageStart(off)), ChunkAt(off, want);
      if Loses(t, h, PageStart(off)) then u else Left(u, h, off + chunk, want - chunk)
  }

  /** The pages a read asks for, with those it reads ahead. */
  ghost function Wanted(h: Handle, off: nat, want: nat): set<Key> {
    set q | 0 <= q < h.size && q % 4096 == 0 && PageStart(off) <= q < off + want + 8192 :: Key(h.node, q)
  }

  /** The pages the table holds and those the read wants fit into it together. */
  ghost predicate RoomFor(t: R.Table<Key>, h: Handle, off: nat, want: nat) {
    |R.Held(t.slots) + Wanted(h, off, want)| <= |t.slots|
  }

  lemma AheadsWanted(h: Handle, off: nat, want: nat)
    requires 0 < want && off + want <= h.size
    ensures Key(h.node, PageStart(off)) in Wanted(h, off, want)
    ensures forall k :: k in Aheads(h, PageStart(off)) ==> k in Wanted(h, off, want)
    ensures Wanted(h, off + ChunkAt(off, want), want - ChunkAt(off, want)) <= Wanted(h, off, want)
  {
  }

  /** A read with room for everything it asks for is complete. */
  lemma {:induction false} RoomDelivers(t: R.Table<Key>, h: Handle, off: nat, want: nat)
    requires R.Ok(t) && |t.slots| >= 3 && off + want <= h.size && RoomFor(t, h, off, want)
    ensures Delivered(t, h, off, want) == want
    decreases want
  {
    hide R.Held, R.Ok, R.PushedOut, Wanted, PageStart, ChunkAt, Aheads;
    if want == 0 {
    } else {
      R.OkHand(t);
      var p, chunk := PageStart(off), ChunkAt(off, want);
      AheadsWanted(h, off, want);
      R.RoomHolds(t, Key(h.node, p), Aheads(h, p), Wanted(h, off, want));
      var u := AfterPage(t, h, p);
      var less := Wanted(h, off + chunk, want - chunk);
      assert R.Held(u.slots) + less <= R.Held(u.slots) + Wanted(h, off, want);
      R.Larger(R.Held(u.slots) + less, R.Held(u.slots) + Wanted(h, off, want));
      RoomDelivers(u, h, off + chunk, want - chunk);
    }
  }

  /** Where a read stops short, reading again from there delivers. */
  lemma RetryDelivers(t: R.Table<Key>, h: Handle, off: nat, want: nat)
    requires R.Ok(t) && |t.slots| >= 3 && 0 < want && Loses(t, h, PageStart(off))
    ensures Delivered(AfterPage(t, h, PageStart(off)), h, off, want) > 0
  {
    hide R.PushedOut, R.Ok, PageStart, ChunkAt, Aheads;
    var p := PageStart(off);
    R.RetryHolds(t, Key(h.node, p), Aheads(h, p), Aheads(h, p));
  }

  lemma NoneDelivered(h: Handle, off: nat)
    ensures forall t: R.Table<Key> :: t.hand < |t.slots| ==> Delivered(t, h, off, 0) == 0 && Left(t, h, off, 0) == t
  {
  }

  /** What one page contributes, or where the read then stands. */
  lemma DeliveredStep(t: R.Table<Key>, h: Handle, off: nat, want: nat)
    requires R.Ok(t) && |t.slots| >= 3 && 0 < want
    ensures t.hand < |t.slots| && ChunkAt(off, want) <= want
    ensures ChunkAt(off, want) == if 4096 - (off - PageStart(off)) > want then want else 4096 - (off - PageStart(off))
    ensures var u := AfterPage(t, h, PageStart(off));
            if Loses(t, h, PageStart(off)) then
              Left(t, h, off, want) == u && Delivered(t, h, off, want) == 0 < Delivered(u, h, off, want)
            else
              var n := ChunkAt(off, want);
              && Delivered(t, h, off, want) == n + Delivered(u, h, off + n, want - n)
              && Left(t, h, off, want) == Left(u, h, off + n, want - n)
  {
    hide Loses, AfterPage;
    if Loses(t, h, PageStart(off)) {
      RetryDelivers(t, h, off, want);
    }
  }

  /** One such table: full, with the page asked for under the hand and the next page of the file not
      cached. The first page of a two-page file is not delivered at all, at the smallest capacity. */
  lemma ShortRead(node: Node, other: Node)
    requires node != other
    ensures var t := FullTable(node, other);
            R.Ok(t) && R.Has(t, Key(node, 0)) && Delivered(t, Handle(node, 8192, true), 0, 8192) == 0
  {
    var t, h := FullTable(node, other), Handle(node, 8192, true);
    assert t.slots[0] == R.Page(Key(node, 0));
    assert R.Page(Key(node, 4096)) !in t.slots;
    assert Aheads(h, 0) == [Key(node, 4096)];
    assert Key(node, 4096) in Aheads(h, 0) && R.Overwrites(t, 0, Aheads(h, 0));
    forall i: nat, j: nat | i < |t.slots| && j < |t.slots|
      ensures R.Once(t.slots, i, j)
    {
    }
    assert PageStart(0) == 0;
  }

  function FullKey(node: Node, other: Node, i: nat): Key {
    if i == 0 then Key(node, 0) else Key(other, 4096 * i)
  }

  ghost function FullTable(node: Node, other: Node): (t: R.Table<Key>)
    ensures t.hand < |t.slots| == 2048
  {
    R.Table(seq<R.Slot<Key>>(2048, i requires 0 <= i < 2048 => R.Page(FullKey(node, other, i))), 0)
  }

  const EMPTY: Entry := Entry(false, Key(Node(0, 0, 0), 0), [], NONE)

  class PageTable {
    var entries: seq<Entry>
    var heads: seq<int>
    var hand: nat
    var files: Files
    /** No page allocation and no backend read fails. */
    const reliable: bool
    ghost var chains: seq<seq<nat>>

    ghost predicate Valid()
      reads this
    {
      IndexOk(entries, heads, chains, NONE) && Coherent(entries, files)
    }

    ghost function Now(): (t: R.Table<Key>)
      reads this
      ensures |t.slots| == |entries| && (|entries| > 0 ==> t.hand < |t.slots|)
    {
      Resident(entries, hand)
    }

    constructor (capacity: nat, buckets: nat, files: Files, reliable: bool)
      requires 0 < buckets
      ensures Valid() && this.files == files && this.reliable == reliable && |entries| == capacity
      ensures hand == 0 && forall i :: 0 <= i < |entries| ==> !entries[i].valid
    {
      entries := seq(capacity, _ => EMPTY);
      heads := seq(buckets, _ => NONE);
      hand := 0;
      this.files := files;
      this.reliable := reliable;
      chains := seq(buckets, _ => []);
      new;
      forall b | 0 <= b < buckets
        ensures ChainOk(entries, buckets, b, heads[b], chains[b], NONE)
      {
        hide Hash;
      }
    }

    /** `page_cache_find`: agrees with a scan of the whole table. */
    method Find(k: Key) returns (r: int)
      requires Valid()
      ensures r == NONE <==> !Cached(entries, k)
      ensures r != NONE ==> 0 <= r < |entries| && Holds(entries[r], k)
    {
      hide Hash, Distinct, Coherent;
      var b := Hash(k, |heads|);
      ghost var c := chains[b];
      assert ChainOk(entries, |heads|, b, heads[b], c, NONE);
      ChainIsScan(entries, heads, chains, k);
      hide IndexOk;
      r := heads[b];
      ghost var j := 0;
      while r != NONE
        invariant 0 <= j <= |c| && r == Nth(c, j)
        invariant forall i :: 0 <= i < j ==> c[i] < |entries| && !Holds(entries[c[i]], k)
        decreases |c| - j
      {
        assert LinkAt(entries, c, j);
        if Holds(entries[r], k) { return; }
        r := entries[r].hashNext;
        j := j + 1;
      }
    }

    /** `page_cache_unlink`: walk the chain to the link that leads here, and cut it. */
    method Unlink(index: nat)
      requires IndexOk(entries, heads, chains, NONE) && index < |entries|
      modifies `entries, `heads, `chains
      ensures IndexOk(entries, heads, chains, index) && Relinked(old(entries), entries)
    {
      hide Hash;
      if !entries[index].valid {
        RewriteKeepsIndex(entries, heads, chains, index, entries[index], NONE, index);
        return;
      }
      var b := Hash(entries[index].key, |heads|);
      ghost var c := chains[b];
      assert ChainOk(entries, |heads|, b, heads[b], c, NONE);
      assert Indexed(entries, index, NONE) && index in c;
      ghost var at :| 0 <= at < |c| && c[at] == index;
      UnlinkKeepsIndex(entries, heads, chains, b, at);
      assert Chained(entries, heads[b], c) && Distinct(c);
      hide IndexOk, ChainOk, Distinct;
      ghost var k := 0;
      var prev, cur := NONE, heads[b];
      while cur != NONE && cur != index
        invariant 0 <= k <= at && cur == Nth(c, k) && prev == if k == 0 then NONE else c[k - 1]
        decreases at - k
      {
        assert LinkAt(entries, c, k);
        prev, cur := cur, entries[cur].hashNext;
        k := k + 1;
      }
      assert k == at by { assert Distinct(c); DistinctAt(c, k, at); }
      chains := chains[b := Without(c, k)];
      var next := entries[index].hashNext;
      if prev == NONE {
        heads := heads[b := next];
      } else {
        assert LinkAt(entries, c, k - 1);
        entries := entries[prev := entries[prev].(hashNext := next)];
      }
      entries := entries[index := entries[index].(hashNext := NONE)];
      assert heads == old(heads)[b := if at == 0 then old(entries)[c[0]].hashNext else old(heads)[b]];
    }

    /** `page_cache_clear` */
    method Clear(index: nat)
      requires Valid() && index < |entries|
      modifies `entries, `heads, `chains
      ensures Valid() && Emptied(old(entries), entries, index) && Fewer(old(entries), entries)
    {
      hide IndexOk, Coherent;
      Unlink(index);
      RewriteKeepsIndex(entries, heads, chains, index, EMPTY, index, NONE);
      entries := entries[index := EMPTY];
      FewerKeeps(old(entries), entries, files);
    }

    /** `page_cache_alloc_page`: when memory is short, give pages back to it one by one. */
    method AllocPage() returns (ok: bool)
      requires Valid()
      modifies `entries, `heads, `chains, `hand
      ensures Valid() && Fewer(old(entries), entries)
      ensures reliable ==> ok && entries == old(entries) && hand == old(hand)
    {
      hide IndexOk, Coherent;
      ok := *;
      ok := ok || reliable;
      if ok { return; }
      var i := 0;
      while i < |entries|
        invariant Valid() && Fewer(old(entries), entries)
      {
        var index := Round(hand, i, |entries|);
        if entries[index].valid {
          Clear(index);
          ok := *;
          if ok {
            hand := (index + 1) % |entries|;
            return;
          }
        }
        i := i + 1;
      }
    }

    /** `page_cache_victim`: the first vacant slot from the hand on, or else the one under the hand;
        the hand moves past it. */
    method Victim() returns (index: int)
      requires Valid()
      modifies `entries, `heads, `chains, `hand
      ensures Valid() && Fewer(old(entries), entries)
      ensures index == NONE <==> |entries| == 0
      ensures index != NONE ==> 0 <= index < |entries| && !entries[index].valid
      ensures index != NONE ==> index == R.Choice(old(Now()))
      ensures index != NONE ==> Now() == R.Table(old(Now()).slots[index := R.Vacant], R.Next(old(Now()), index))
      ensures (exists i :: 0 <= i < |entries| && !old(entries)[i].valid) ==> entries == old(entries)
    {
      hide IndexOk, Coherent, Slots, Round, R.Scan, R.Next;
      if |entries| == 0 { return NONE; }
      var found;
      found, index := FindVacant();
      SlotsAt(entries, index);
      if found {
        DivMod(index, |entries|, 0, index);
        NextIs(entries, hand, index, index);
        assert Slots(entries)[index := R.Vacant] == Slots(entries);
        hand := (index + 1) % |entries|;
        return;
      }
      NextIs(entries, hand, index, hand);
      hand := hand + 1;
      Clear(index);
      SlotsEmptied(old(entries), entries, index);
    }

    /** The search of `page_cache_victim`: once round from the hand. */
    method FindVacant() returns (found: bool, index: nat)
      requires 0 < |entries|
      ensures index < |entries| && index == R.Choice(Now())
      ensures found ==> !entries[index].valid
      ensures !found ==> index == hand % |entries| && forall i :: 0 <= i < |entries| ==> entries[i].valid
    {
      hide Slots, Round;
      ghost var slots, start := Slots(entries), hand % |entries|;
      var i := 0;
      while i < |entries|
        invariant i <= |entries|
        invariant forall j :: 0 <= j < i ==> entries[Round(hand, j, |entries|)].valid
        invariant R.Scan(slots, start, 0) == R.Scan(slots, start, i)
      {
        index := Round(hand, i, |entries|);
        RoundFrom(hand, i, |entries|);
        SlotsAt(entries, index);
        if !entries[index].valid { return true, index; }
        i := i + 1;
      }
      AllVisited(entries, hand);
      HandMod(hand, |entries|);
      return false, hand % |entries|;
    }

    /** `page_cache_load`: afterwards the page is cached, unless it could not be brought in; a hit leaves
        the table alone, a miss takes the one slot `Victim` names. */
    method Load(h: Handle, off: nat) returns (ok: bool)
      requires Valid() && Refreshed(files, h) && off % 4096 == 0
      modifies `entries, `heads, `chains, `hand
      ensures Valid() && |entries| == |old(entries)|
      ensures ok <==> h.cacheable && Cached(entries, Key(h.node, off))
      ensures h.cacheable && reliable && |entries| > 0 ==> ok && Now() == R.Put(old(Now()), Key(h.node, off))
    {
      hide IndexOk, Coherent, Slots, R.Choice, R.Has;
      if !h.cacheable { return false; }
      var k := Key(h.node, off);
      CachedIsHas(entries, hand, k);
      var hit := Find(k);
      if hit != NONE { return true; }
      var index := Victim();
      if index == NONE { return false; }
      FewerKeeps(old(entries), entries, files);
      Prepare(index, k);
      ghost var prepared := entries;
      var page := AllocPage();
      FewerKeeps(prepared, entries, files);
      var readable := if off < h.size then (if h.size - off > 4096 then 4096 else h.size - off) else 0;
      var bytes: seq<byte> := [];
      if page && readable != 0 {
        bytes := ReadUncached(h.node, off, readable);
      }
      if !page || |bytes| != readable {
        ghost var before := entries;
        Clear(index);
        FewerKeeps(before, entries, files);
        return false;
      }
      assert bytes + seq(4096 - readable, _ => 0) == PageOf(files[h.node], off);
      Fill(index, Entry(true, k, bytes + seq(4096 - readable, _ => 0), NONE));
      return true;
    }

    /** The slot is claimed for a key before the page behind it exists. */
    method Prepare(index: nat, k: Key)
      requires Valid() && index < |entries| && !entries[index].valid
      modifies `entries
      ensures Valid() && Fewer(old(entries), entries) && |entries| == |old(entries)|
      ensures !entries[index].valid && Slots(entries) == Slots(old(entries))
    {
      hide Hash;
      SlotsAt(entries, index);
      var v := Entry(false, k, [], entries[index].hashNext);
      SlotsPut(entries, index, v);
      RewriteKeepsIndex(entries, heads, chains, index, v, NONE, NONE);
      hide IndexOk;
      FewerKeeps(entries, entries[index := v], files);
      entries := entries[index := v];
    }

    /** Mark the slot valid and `page_cache_link` it at the front of its chain. */
    method Fill(index: nat, v: Entry)
      requires Valid() && index < |entries| && !entries[index].valid
      requires v.valid && !Cached(entries, v.key)
      requires v.key.node in files && v.data == PageOf(files[v.key.node], v.key.off)
      modifies `entries, `heads, `chains
      ensures Valid() && |entries| == |old(entries)| && Cached(entries, v.key)
      ensures Slots(entries) == Slots(old(entries))[index := R.Page(v.key)]
    {
      hide Hash, PageOf, Slots;
      SlotsPut(entries, index, v);
      SlotsPut(entries, index, v.(hashNext := heads[Hash(v.key, |heads|)]));
      RewriteKeepsIndex(entries, heads, chains, index, v, NONE, index);
      entries := entries[index := v];
      assert IndexOk(entries, heads, chains, index);
      forall i: nat | Indexed(entries, i, index)
        ensures entries[i].key != v.key
      {
        assert !Holds(old(entries)[i], v.key);
      }
      LinkKeepsIndex(entries, heads, chains, index);
      var b := Hash(v.key, |heads|);
      hide IndexOk;
      entries := entries[index := v.(hashNext := heads[b])];
      heads := heads[b := index];
      chains := chains[b := [index] + chains[b]];
      assert Holds(entries[index], v.key);
      assert entries == old(entries)[index := v.(hashNext := old(heads)[b])];
    }

    /** A read of the backend: the bytes asked for, or nothing when it fails. */
    method ReadUncached(node: Node, off: nat, len: nat) returns (bytes: seq<byte>)
      requires node in files
      ensures bytes == Slice(files[node], off, len) || bytes == []
      ensures reliable ==> bytes == Slice(files[node], off, len)
    {
      var ok: bool := *;
      bytes := if ok || reliable then Slice(files[node], off, len) else [];
    }

    /** `vfs_read_page_cached`: the page, exactly, or a failure. In a table of three slots or more, and
        with nothing failing, it fails exactly where the read-ahead pushes the page out again. */
    method ReadPageCached(h: Handle, off: nat) returns (ok: bool, page: seq<byte>)
      requires Valid() && Refreshed(files, h) && off % 4096 == 0
      modifies `entries, `heads, `chains, `hand
      ensures Valid() && |entries| == |old(entries)|
      ensures ok <==> h.cacheable && Cached(entries, Key(h.node, off))
      ensures ok ==> page == PageOf(files[h.node], off)
      ensures h.cacheable && reliable && 0 < |entries| ==> Now() == AfterPage(old(Now()), h, off)
      ensures h.cacheable && reliable && 0 < |entries| && h.size <= off + 4096 ==> ok
      ensures h.cacheable && reliable && 3 <= |entries| ==> (ok <==> !Loses(old(Now()), h, off))
    {
      hide IndexOk, PageOf, R.Put, R.Has, R.PushedOut, Resident;
      page := [];
      ghost var t, k := Now(), Key(h.node, off);
      if |entries| > 0 { ResidentOk(entries, heads, chains, hand); }
      ok := Load(h, off);
      if !ok { return; }
      var i := 1;
      while i <= READAHEAD_PAGES && off + i * 4096 < h.size
        invariant 1 <= i <= READAHEAD_PAGES + 1 && Valid() && |entries| == |old(entries)|
        invariant i == 1 ==> Cached(entries, Key(h.node, off))
        invariant h.size <= off + 4096 ==> i == 1
        invariant i - 1 <= |Aheads(h, off)|
        invariant reliable && |entries| > 0 ==> Now() == R.Puts(R.Put(t, k), Aheads(h, off)[..i - 1])
      {
        assert (off + i * 4096) % 4096 == 0;
        var _ := Load(h, off + i * 4096);
        assert Aheads(h, off)[..i] == Aheads(h, off)[..i - 1] + [Key(h.node, off + i * 4096)];
        if |entries| > 0 {
          R.PutsOneMore(R.Put(t, k), Aheads(h, off)[..i - 1], Key(h.node, off + i * 4096));
        }
        i := i + 1;
      }
      assert Aheads(h, off)[..i - 1] == Aheads(h, off);
      CachedIsHas(entries, hand, k);
      if 3 <= |entries| { R.PushedOutExactly(t, k, Aheads(h, off)); }
      var index := Find(Key(h.node, off));
      ok := index != NONE;
      if ok { page := entries[index].data; }
    }

    /** `vfs_page_cache_invalidate`: no page of this node stays. */
    method Invalidate(node: Node)
      requires Valid()
      modifies `entries, `heads, `chains
      ensures Valid() && Fewer(old(entries), entries)
      ensures forall i :: 0 <= i < |entries| ==> !OfNode(entries[i], node)
      ensures forall i :: 0 <= i < |entries| && !OfNode(old(entries)[i], node) ==>
              entries[i].valid == old(entries)[i].valid
    {
      hide IndexOk, Coherent;
      var i := 0;
      while i < |entries|
        invariant i <= |entries| && Valid() && Fewer(old(entries), entries)
        invariant forall j :: 0 <= j < i ==> !OfNode(entries[j], node)
        invariant forall j :: 0 <= j < |entries| && !OfNode(old(entries)[j], node) ==>
                  entries[j].valid == old(entries)[j].valid
      {
        if OfNode(entries[i], node) { Clear(i); }
        i := i + 1;
      }
    }

    /** `vfs_write` and `vfs_truncate`: unless seals forbid it, drop the node's pages and let the
        backend leave whatever content it leaves. */
    method Mutate(node: Node, sealed: bool, content: seq<byte>)
      requires Valid() && node in files
      modifies this
      ensures Valid() && Fewer(old(entries), entries)
      ensures files == if sealed then old(files) else old(files)[node := content]
      ensures sealed ==> entries == old(entries)
    {
      hide IndexOk, PageOf;
      if sealed { return; }
      Invalidate(node);
      files := files[node := content];
      forall i | 0 <= i < |entries| && entries[i].valid
        ensures entries[i].key.node in files &&
                entries[i].data == PageOf(files[entries[i].key.node], entries[i].key.off)
      {
        assert !OfNode(entries[i], node);
      }
    }

    /** `vfs_read`: always a prefix of what the backend itself would give. In a table of three slots or
        more, and with nothing failing, its length is `Delivered`; it is complete when there is room
        for what it asks for, and where it stops short the next read from there delivers. */
    method Read(h: Handle, off: nat, len: nat) returns (bytes: seq<byte>)
      requires Valid() && Refreshed(files, h)
      modifies `entries, `heads, `chains, `hand
      ensures Valid() && |entries| == |old(entries)|
      ensures bytes <= Slice(files[h.node], off, len)
      ensures h.cacheable && |bytes| < |Slice(files[h.node], off, len)| ==>
                !Cached(entries, Key(h.node, PageStart(off + |bytes|)))
      ensures !h.cacheable && reliable ==> bytes == Slice(files[h.node], off, len)
      ensures var want := |Slice(files[h.node], off, len)|;
              h.cacheable && reliable && 3 <= |entries| ==>
                && |bytes| == Delivered(old(Now()), h, off, want) && Now() == Left(old(Now()), h, off, want)
                && (RoomFor(old(Now()), h, off, want) ==> bytes == Slice(files[h.node], off, len))
                && (|bytes| < want ==> 0 < Delivered(Now(), h, off + |bytes|, want - |bytes|))
    {
      hide IndexOk, Coherent, Resident, RoomFor, R.Ok, Delivered, PageOf, PageStart, Left;
      if !h.cacheable || len == 0 || off >= h.size {
        NoneDelivered(h, off);
        bytes := ReadUncached(h.node, off, len);
        return;
      }
      var want := if len > h.size - off then h.size - off else len;
      assert |Slice(files[h.node], off, len)| == want;
      if 3 <= |entries| {
        ResidentOk(entries, heads, chains, hand);
        if RoomFor(Now(), h, off, want) { RoomDelivers(Now(), h, off, want); }
      }
      bytes := CopyPages(h, off, len, want);
    }

    /** The page loop of `vfs_read`. */
    method CopyPages(h: Handle, off: nat, len: nat, want: nat) returns (bytes: seq<byte>)
      requires Valid() && Refreshed(files, h) && h.cacheable && want == |Slice(files[h.node], off, len)|
      modifies `entries, `heads, `chains, `hand
      ensures Valid() && |entries| == |old(entries)| && bytes <= Slice(files[h.node], off, len)
      ensures |bytes| < want ==> !Cached(entries, Key(h.node, PageStart(off + |bytes|)))
      ensures reliable && 3 <= |entries| ==>
                |bytes| == Delivered(old(Now()), h, off, want) && Now() == Left(old(Now()), h, off, want)
      ensures reliable && 3 <= |entries| && |bytes| < want ==> 0 < Delivered(Now(), h, off + |bytes|, want - |bytes|)
    {
      hide IndexOk, Coherent, Resident, Loses, AfterPage, R.Ok, Delivered, Slice, PageOf, PageStart, ChunkAt, Left;
      ghost var t := Now();
      bytes := [];
      while |bytes| < want
        invariant Valid() && |entries| == |old(entries)| && bytes <= Slice(files[h.node], off, len)
        invariant reliable && 3 <= |entries| ==>
                    && |bytes| + Delivered(Now(), h, off + |bytes|, want - |bytes|) == Delivered(t, h, off, want)
                    && Left(Now(), h, off + |bytes|, want - |bytes|) == Left(t, h, off, want)
        decreases want - |bytes|
      {
        var pageOff := PageStart(off + |bytes|);
        var inPage := off + |bytes| - pageOff;
        ghost var u := Now();
        if 3 <= |entries| {
          ResidentOk(entries, heads, chains, hand);
          DeliveredStep(u, h, off + |bytes|, want - |bytes|);
        }
        var ok, page := ReadPageCached(h, pageOff);
        if !ok { return; }
        var chunk := if 4096 - inPage > want - |bytes| then want - |bytes| else 4096 - inPage;
        NextChunk(files[h.node], off, len, bytes, pageOff, chunk);
        bytes := bytes + page[inPage..inPage + chunk];
      }
      NoneDelivered(h, off + want);
    }
  }

  // ---------------------------------------------------------------- how a read comes to stop short

  /** The files of a run: one of two pages, one of 2048 and one of 2047. */
  datatype Cast = Cast(mine: Node, other: Node, third: Node)

  ghost predicate CastIn(c: Cast, files: Files) {
    && c.mine != c.other && c.mine != c.third && c.other != c.third
    && c.mine in files && c.other in files && c.third in files
    && |files[c.mine]| == 8192 && |files[c.other]| == 4096 * 2048 && |files[c.third]| == 4096 * 2047
  }

  /** The page that is the `i`th to be loaded. */
  function InTurn(c: Cast, i: nat): Key {
    if i < 2047 then Key(c.third, 4096 * i)
    else if i == 2047 then Key(c.mine, 4096)
    else if i == 2048 then Key(c.mine, 0)
    else Key(c.other, 4096 * (i - 2048))
  }

  lemma TurnOnce(c: Cast, i: nat, j: nat)
    requires c.mine != c.other && c.mine != c.third && c.other != c.third && InTurn(c, i) == InTurn(c, j)
    ensures i == j
  {
  }

  function TurnSlot(c: Cast, m: nat, j: nat): R.Slot<Key> {
    if j + 2048 < m then R.Page(InTurn(c, j + 2048)) else if j < m then R.Page(InTurn(c, j)) else R.Vacant
  }

  /** The table after `m` loads: the first 2048 fill it, the next go over it again from the start. */
  ghost function Loaded(c: Cast, m: nat): (t: R.Table<Key>)
    requires m <= 4096
    ensures t.hand < |t.slots| == 2048
  {
    R.Table(seq<R.Slot<Key>>(2048, j requires 0 <= j < 2048 => TurnSlot(c, m, j)),
            if m < 2048 then m else if m < 4096 then m - 2048 else 0)
  }

  /** Loading a page that is still there changes nothing; loading the next one goes on. */
  lemma LoadInTurn(c: Cast, m: nat, i: nat)
    requires c.mine != c.other && c.mine != c.third && c.other != c.third
    requires i <= m <= 4096 && m <= i + 2048 && (i == m ==> m < 4096)
    ensures R.Put(Loaded(c, m), InTurn(c, i)) == Loaded(c, if i == m then m + 1 else m)
  {
    var t, k := Loaded(c, m), InTurn(c, i);
    if i < m {
      var j := if i < 2048 then i else i - 2048;
      assert t.slots[j] == R.Page(k);
    } else {
      forall j | 0 <= j < 2048
        ensures t.slots[j] != R.Page(k)
      {
        if t.slots[j] == R.Page(k) { TurnOnce(c, i, if j + 2048 < m then j + 2048 else j); }
      }
      LoadsAtHand(c, m);
      assert R.Put(t, k).slots == Loaded(c, m + 1).slots;
    }
  }

  lemma LoadsAtHand(c: Cast, m: nat)
    requires m < 4096
    ensures R.Choice(Loaded(c, m)) == Loaded(c, m).hand
  {
    hide R.Scan;
    var t := Loaded(c, m);
    R.ChoiceIs(t);
    if m < 2048 { R.ChoiceIsFirst(t, m); }
  }

  /** Reading the page that is the `i`th to be loaded, with the `n` pages after it read ahead. */
  lemma ReadInTurn(c: Cast, m: nat, i: nat, n: nat, h: Handle, off: nat)
    requires c.mine != c.other && c.mine != c.third && c.other != c.third
    requires i <= m <= i + 2048 && n <= 2 && m <= 4096 && i + n < 4096
    requires InTurn(c, i) == Key(h.node, off) && |Aheads(h, off)| == n
    requires forall d :: 0 <= d < n ==> Aheads(h, off)[d] == InTurn(c, i + 1 + d)
    ensures AfterPage(Loaded(c, m), h, off) == Loaded(c, if m < i + 1 + n then i + 1 + n else m)
  {
    hide R.Put, Loaded, InTurn;
    var ks := Aheads(h, off);
    LoadInTurn(c, m, i);
    var m1 := if i == m then m + 1 else m;
    if n >= 1 {
      assert ks == [ks[0]] + ks[1..];
      LoadInTurn(c, m1, i + 1);
      var m2 := if i + 1 == m1 then m1 + 1 else m1;
      if n == 2 {
        assert ks[1..] == [ks[1]];
        LoadInTurn(c, m2, i + 2);
        assert R.Puts(Loaded(c, m2), ks[1..]) == R.Put(Loaded(c, m2), ks[1]);
        assert R.Puts(Loaded(c, m1), ks) == R.Puts(R.Put(Loaded(c, m1), ks[0]), ks[1..]);
      }
    }
  }

  /** A read of one page loads that page and those ahead of it. */
  lemma OnePage(t: R.Table<Key>, h: Handle, p: nat)
    requires t.hand < |t.slots|
    ensures Left(t, h, 4096 * p, 4096) == AfterPage(t, h, 4096 * p)
  {
    hide Loses, AfterPage;
    assert PageStart(4096 * p) == 4096 * p && ChunkAt(4096 * p, 4096) == 4096;
  }

  lemma PageLength(content: seq<byte>, off: nat, n: nat)
    requires off + n <= |content|
    ensures |Slice(content, off, n)| == n
  {
  }

  /** How many loads there have been after the first `i` pages of the third file are read. */
  function AfterThird(i: nat): nat {
    if i == 0 then 0 else if i < 2046 then i + 2 else 2047
  }

  lemma ReadThird(c: Cast, i: nat)
    requires c.mine != c.other && c.mine != c.third && c.other != c.third && i < 2047
    ensures Left(Loaded(c, AfterThird(i)), Handle(c.third, 4096 * 2047, true), 4096 * i, 4096) ==
            Loaded(c, AfterThird(i + 1))
  {
    hide Loaded, Left, AfterPage;
    var h := Handle(c.third, 4096 * 2047, true);
    OnePage(Loaded(c, AfterThird(i)), h, i);
    ReadInTurn(c, AfterThird(i), i, |Aheads(h, 4096 * i)|, h, 4096 * i);
  }

  /** The second page of the two-page file, and then the first. */
  lemma ReadMine(c: Cast)
    requires c.mine != c.other && c.mine != c.third && c.other != c.third
    ensures var h := Handle(c.mine, 8192, true);
            && Left(Loaded(c, 2047), h, 4096, 4096) == Loaded(c, 2048)
            && Left(Loaded(c, 2048), h, 0, 4096) == Loaded(c, 2049)
  {
    hide Loaded, Left, R.Put;
    var h := Handle(c.mine, 8192, true);
    OnePage(Loaded(c, 2047), h, 1);
    LoadInTurn(c, 2047, 2047);
    OnePage(Loaded(c, 2048), h, 0);
    LoadInTurn(c, 2048, 2048);
    LoadInTurn(c, 2049, 2047);
    assert Aheads(h, 0) == [InTurn(c, 2047)];
    assert R.Puts(Loaded(c, 2049), [InTurn(c, 2047)]) == R.Put(Loaded(c, 2049), InTurn(c, 2047));
  }

  /** How many loads there have been after pages 1 to `i - 1` of the other file are read. */
  function AfterOther(i: nat): nat {
    if i <= 1 then 2049 else if i < 2046 then i + 2050 else 4096
  }

  lemma ReadOther(c: Cast, i: nat)
    requires c.mine != c.other && c.mine != c.third && c.other != c.third && 1 <= i < 2048
    ensures Left(Loaded(c, AfterOther(i)), Handle(c.other, 4096 * 2048, true), 4096 * i, 4096) ==
            Loaded(c, AfterOther(i + 1))
  {
    hide Loaded, Left, AfterPage;
    var h := Handle(c.other, 4096 * 2048, true);
    OnePage(Loaded(c, AfterOther(i)), h, i);
    ReadInTurn(c, AfterOther(i), 2048 + i, |Aheads(h, 4096 * i)|, h, 4096 * i);
  }

  lemma LoadedAll(c: Cast)
    ensures Loaded(c, 4096) == FullTable(c.mine, c.other)
  {
  }

  lemma StartsEmpty(cache: PageTable, c: Cast)
    requires |cache.entries| == 2048 && cache.hand == 0 && forall i :: 0 <= i < 2048 ==> !cache.entries[i].valid
    ensures cache.Now() == Loaded(c, 0)
  {
  }

  /** The short read happens, in a cache that starts empty and only ever serves reads: a file of 2047
      pages is read, then both pages of a file of two, the second first, then all but the first page of a
      file of 2048. The first page of the two is cached then, and a read of both gets nothing. */
  method FillThenRead(c: Cast, files: Files) returns (bytes: seq<byte>)
    requires CastIn(c, files)
    ensures bytes == [] && |Slice(files[c.mine], 0, 8192)| == 8192
  {
    hide IndexOk, Coherent, Resident, Delivered, RoomFor, R.Put, Slots, Loaded, FullTable, Left, AfterPage, InTurn,
         Slice;
    var cache := new PageTable(2048, 512, files, true);
    var mine, other, third :=
      Handle(c.mine, 8192, true), Handle(c.other, 4096 * 2048, true), Handle(c.third, 4096 * 2047, true);
    StartsEmpty(cache, c);
    var i := 0;
    while i < 2047
      invariant i <= 2047 && fresh(cache) && cache.Valid() && cache.files == files && cache.reliable &&
                |cache.entries| == 2048
      invariant cache.Now() == Loaded(c, AfterThird(i))
    {
      ReadThird(c, i);
      PageLength(files[c.third], 4096 * i, 4096);
      var _ := cache.Read(third, 4096 * i, 4096);
      i := i + 1;
    }
    ReadMine(c);
    PageLength(files[c.mine], 4096, 4096);
    PageLength(files[c.mine], 0, 4096);
    PageLength(files[c.mine], 0, 8192);
    var _ := cache.Read(mine, 4096, 4096);
    var _ := cache.Read(mine, 0, 4096);
    i := 1;
    while i < 2048
      invariant 1 <= i <= 2048 && fresh(cache) && cache.Valid() && cache.files == files && cache.reliable &&
                |cache.entries| == 2048
      invariant cache.Now() == Loaded(c, AfterOther(i))
    {
      ReadOther(c, i);
      PageLength(files[c.other], 4096 * i, 4096);
      var _ := cache.Read(other, 4096 * i, 4096);
      i := i + 1;
    }
    LoadedAll(c);
    ShortRead(c.mine, c.other);
    bytes := cache.Read(mine, 0, 8192);
  }
}
