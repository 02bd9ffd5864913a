/** The backing store of ramfs (kernel/src/ramfs.c): a table of page slots, threaded into one free list
    and one chain per node. */
module RamfsSlots {
  import opened Bytes
  import opened Chains

  type Page = seq<byte>

  datatype Slot = Slot(used: bool, next: int, freeNext: int, owner: int, page: nat, data: Page)

  function ZeroPage(): Page {
    seq(4096, _ => 0)
  }

  // ---------------------------------------------------------------- lists

  predicate ChainLink(slots: seq<Slot>, c: seq<nat>, k: nat)
    requires k < |c|
  {
    c[k] < |slots| && slots[c[k]].next == Nth(c, k + 1)
  }

  predicate FreeLink(slots: seq<Slot>, c: seq<nat>, k: nat)
    requires k < |c|
  {
    c[k] < |slots| && slots[c[k]].freeNext == Nth(c, k + 1)
  }

  /** Slot `s` is a page of node `i`; the slot in hand belongs to nobody. */
  predicate Of(slots: seq<Slot>, s: nat, i: int, hand: int) {
    s < |slots| && s != hand && slots[s].used && slots[s].owner == i
  }

  predicate Unused(slots: seq<Slot>, s: nat, hand: int) {
    s < |slots| && s != hand && !slots[s].used
  }

  /** Following `next` from `first` meets exactly the pages of node `i`, each once. */
  ghost predicate ChainOk(slots: seq<Slot>, i: int, first: int, c: seq<nat>, hand: int) {
    && first == Nth(c, 0) && Distinct(c)
    && (forall k: nat :: k < |c| ==> ChainLink(slots, c, k))
    && (forall s: nat :: s in c <==> Of(slots, s, i, hand))
  }

  /** Following `freeNext` from `head` meets exactly the unused slots, each once. */
  ghost predicate FreeOk(slots: seq<Slot>, head: int, c: seq<nat>, hand: int) {
    && head == Nth(c, 0) && Distinct(c)
    && (forall k: nat :: k < |c| ==> FreeLink(slots, c, k))
    && (forall s: nat :: s in c <==> Unused(slots, s, hand))
  }

  predicate SlotOk(slots: seq<Slot>, s: nat, nodes: nat, hand: int)
    requires s < |slots|
  {
    slots[s].used && s != hand ==> 0 <= slots[s].owner < nodes && |slots[s].data| == 4096
  }

  predicate Rivals(slots: seq<Slot>, s: nat, t: nat, hand: int) {
    && s < |slots| && t < |slots| && s != hand && t != hand && slots[s].used && slots[t].used
    && slots[s].owner == slots[t].owner && slots[s].page == slots[t].page
  }

  predicate OneSlot(slots: seq<Slot>, s: nat, t: nat, hand: int) {
    Rivals(slots, s, t, hand) ==> s == t
  }

  /** Every slot, the one in hand aside, is on the free list or in exactly one node's chain, and no node
      has two slots for one page. */
  ghost predicate Store(slots: seq<Slot>, head: int, free: seq<nat>, firsts: seq<int>, chains: seq<seq<nat>>,
      hand: int) {
    && |firsts| == |chains| && FreeOk(slots, head, free, hand)
    && (forall i: nat :: i < |chains| ==> ChainOk(slots, i, firsts[i], chains[i], hand))
    && (forall s: nat :: s < |slots| ==> SlotOk(slots, s, |chains|, hand))
    && (forall s: nat, t: nat :: OneSlot(slots, s, t, hand))
  }

  // ---------------------------------------------------------------- frames

  /** A chain does not notice slots it does not visit. */
  lemma ChainFrame(slots: seq<Slot>, slots': seq<Slot>, i: int, first: int, c: seq<nat>, hand: int, hand': int)
    requires ChainOk(slots, i, first, c, hand) && |slots| <= |slots'|
    requires forall s: nat :: s in c ==> s < |slots| && slots'[s].next == slots[s].next
    requires forall s: nat :: Of(slots', s, i, hand') <==> Of(slots, s, i, hand)
    ensures ChainOk(slots', i, first, c, hand')
  {
    hide Of;
    forall k: nat | k < |c|
      ensures ChainLink(slots', c, k)
    {
      assert ChainLink(slots, c, k) && c[k] in c;
    }
  }

  lemma FreeFrame(slots: seq<Slot>, slots': seq<Slot>, head: int, c: seq<nat>, hand: int, hand': int)
    requires FreeOk(slots, head, c, hand) && |slots| <= |slots'|
    requires forall s: nat :: s in c ==> s < |slots| && slots'[s].freeNext == slots[s].freeNext
    requires forall s: nat :: Unused(slots', s, hand') <==> Unused(slots, s, hand)
    ensures FreeOk(slots', head, c, hand')
  {
    hide Unused;
    forall k: nat | k < |c|
      ensures FreeLink(slots', c, k)
    {
      assert FreeLink(slots, c, k) && c[k] in c;
    }
  }

  // ---------------------------------------------------------------- steps

  lemma FreePop(slots: seq<Slot>, head: int, c: seq<nat>)
    requires FreeOk(slots, head, c, NONE) && head >= 0
    ensures |c| > 0 && head == c[0] && head < |slots| && !slots[head].used
    ensures FreeOk(slots, slots[head].freeNext, c[1..], head)
  {
    assert FreeLink(slots, c, 0) && c[0] in c;
    var d := c[1..];
    forall k: nat | k < |d|
      ensures FreeLink(slots, d, k)
    {
      assert FreeLink(slots, c, k + 1);
    }
    forall s: nat
      ensures s in d <==> Unused(slots, s, head)
    {
      assert s in c <==> s == c[0] || s in d;
      if s in d {
        var k :| 0 <= k < |d| && d[k] == s;
        assert c[0] != c[k + 1];
      }
    }
  }

  /** Taking the head of the free list into hand, and writing anything into it. */
  lemma TakeKeeps(slots: seq<Slot>, head: int, free: seq<nat>, firsts: seq<int>, chains: seq<seq<nat>>, v: Slot)
    requires Store(slots, head, free, firsts, chains, NONE) && head >= 0
    ensures |free| > 0 && head == free[0] && head < |slots| && !slots[head].used
    ensures Store(slots[head := v], slots[head].freeNext, free[1..], firsts, chains, head)
  {
    hide ChainOk, FreeOk;
    FreePop(slots, head, free);
    HandKeeps(slots, slots[head].freeNext, free[1..], firsts, chains, NONE, head, v);
  }

  /** What is in hand, or was unused, can be overwritten. */
  lemma HandKeeps(slots: seq<Slot>, head: int, free: seq<nat>, firsts: seq<int>, chains: seq<seq<nat>>, before: int,
      s: nat, v: Slot)
    requires s < |slots| && (before == s || (before == NONE && !slots[s].used)) && |firsts| == |chains|
    requires FreeOk(slots, head, free, s)
    requires forall i: nat :: i < |chains| ==> ChainOk(slots, i, firsts[i], chains[i], before)
    requires forall t: nat :: t < |slots| ==> SlotOk(slots, t, |chains|, before)
    requires forall t: nat, u: nat :: OneSlot(slots, t, u, before)
    ensures Store(slots[s := v], head, free, firsts, chains, s)
  {
    hide ChainOk, FreeOk;
    var slots' := slots[s := v];
    assert FreeOk(slots', head, free, s) by {
      FreeMembers(slots, head, free, s);
      FreeFrame(slots, slots', head, free, s, s);
    }
    forall i: nat | i < |chains|
      ensures ChainOk(slots', i, firsts[i], chains[i], s)
    {
      ChainMembers(slots, i, firsts[i], chains[i], before);
      ChainFrame(slots, slots', i, firsts[i], chains[i], before, s);
    }
    forall t: nat | t < |slots'|
      ensures SlotOk(slots', t, |chains|, s)
    {
      assert SlotOk(slots, t, |chains|, before);
    }
    forall t: nat, u: nat
      ensures OneSlot(slots', t, u, s)
    {
      assert OneSlot(slots, t, u, before);
    }
  }

  lemma FreeMembers(slots: seq<Slot>, head: int, c: seq<nat>, hand: int)
    requires FreeOk(slots, head, c, hand)
    ensures forall s: nat :: s in c <==> Unused(slots, s, hand)
  {
  }

  lemma ChainMembers(slots: seq<Slot>, i: int, first: int, c: seq<nat>, hand: int)
    requires ChainOk(slots, i, first, c, hand)
    ensures forall s: nat :: s in c <==> Of(slots, s, i, hand)
  {
  }

  lemma FreePush(slots: seq<Slot>, head: int, c: seq<nat>, s: nat, v: Slot)
    requires FreeOk(slots, head, c, s) && s <= |slots| && !v.used && v.freeNext == head
    ensures FreeOk(if s < |slots| then slots[s := v] else slots + [v], s, [s] + c, NONE)
  {
    var slots' := if s < |slots| then slots[s := v] else slots + [v];
    var d := [s] + c;
    assert s !in c;
    assert Distinct(d);
    forall k: nat | k < |d|
      ensures FreeLink(slots', d, k)
    {
      if k > 0 { assert FreeLink(slots, c, k - 1) && d[k] == c[k - 1] && c[k - 1] in c; }
    }
    forall t: nat
      ensures t in d <==> Unused(slots', t, NONE)
    {
      assert t in d <==> t == s || t in c;
    }
  }

  /** The slot in hand, or one past the end of the table, goes on the free list. */
  lemma ReleaseKeeps(slots: seq<Slot>, head: int, free: seq<nat>, firsts: seq<int>, chains: seq<seq<nat>>, s: nat,
      v: Slot)
    requires s <= |slots| && Store(slots, head, free, firsts, chains, s) && !v.used && v.freeNext == head
    ensures Store(if s < |slots| then slots[s := v] else slots + [v], s, [s] + free, firsts, chains, NONE)
  {
    hide ChainOk, FreeOk;
    var slots' := if s < |slots| then slots[s := v] else slots + [v];
    FreePush(slots, head, free, s, v);
    forall i: nat | i < |chains|
      ensures ChainOk(slots', i, firsts[i], chains[i], NONE)
    {
      ChainMembers(slots, i, firsts[i], chains[i], s);
      ChainFrame(slots, slots', i, firsts[i], chains[i], s, NONE);
    }
    forall t: nat | t < |slots'|
      ensures SlotOk(slots', t, |chains|, NONE)
    {
      if t != s { assert SlotOk(slots, t, |chains|, s); }
    }
    forall t: nat, u: nat
      ensures OneSlot(slots', t, u, NONE)
    {
      assert OneSlot(slots, t, u, s);
    }
  }

  /** With nothing in hand, one may as well hold the slot just past the end. */
  lemma PastEnd(slots: seq<Slot>, head: int, free: seq<nat>, firsts: seq<int>, chains: seq<seq<nat>>)
    requires Store(slots, head, free, firsts, chains, NONE)
    ensures Store(slots, head, free, firsts, chains, |slots|)
  {
    hide ChainOk, FreeOk;
    FreeMembers(slots, head, free, NONE);
    FreeFrame(slots, slots, head, free, NONE, |slots|);
    forall i: nat | i < |chains|
      ensures ChainOk(slots, i, firsts[i], chains[i], |slots|)
    {
      ChainMembers(slots, i, firsts[i], chains[i], NONE);
      ChainFrame(slots, slots, i, firsts[i], chains[i], NONE, |slots|);
    }
    forall t: nat | t < |slots|
      ensures SlotOk(slots, t, |chains|, |slots|)
    {
      assert SlotOk(slots, t, |chains|, NONE);
    }
    forall t: nat, u: nat
      ensures OneSlot(slots, t, u, |slots|)
    {
      assert OneSlot(slots, t, u, NONE);
    }
  }

  lemma ChainPush(slots: seq<Slot>, i: int, first: int, c: seq<nat>, s: nat)
    requires ChainOk(slots, i, first, c, s) && s < |slots| && slots[s].used && slots[s].owner == i &&
             slots[s].next == first
    ensures ChainOk(slots, i, s, [s] + c, NONE)
  {
    var d := [s] + c;
    assert s !in c;
    assert Distinct(d);
    forall k: nat | k < |d|
      ensures ChainLink(slots, d, k)
    {
      if k > 0 { assert ChainLink(slots, c, k - 1) && d[k] == c[k - 1]; }
    }
    forall t: nat
      ensures t in d <==> Of(slots, t, i, NONE)
    {
      assert t in d <==> t == s || t in c;
    }
  }

  /** The slot in hand becomes the first page of a node that had no such page. */
  lemma LinkKeeps(slots: seq<Slot>, head: int, free: seq<nat>, firsts: seq<int>, chains: seq<seq<nat>>, s: nat, i: nat)
    requires Store(slots, head, free, firsts, chains, s) && s < |slots| && i < |chains|
    requires slots[s].used && slots[s].owner == i && slots[s].next == firsts[i] && |slots[s].data| == 4096
    requires forall t: nat :: Of(slots, t, i, s) ==> slots[t].page != slots[s].page
    ensures Store(slots, head, free, firsts[i := s], chains[i := [s] + chains[i]], NONE)
  {
    hide ChainOk, FreeOk;
    FreeMembers(slots, head, free, s);
    FreeFrame(slots, slots, head, free, s, NONE);
    ChainPush(slots, i, firsts[i], chains[i], s);
    forall j: nat | j < |chains| && j != i
      ensures ChainOk(slots, j, firsts[j], chains[j], NONE)
    {
      ChainMembers(slots, j, firsts[j], chains[j], s);
      ChainFrame(slots, slots, j, firsts[j], chains[j], s, NONE);
    }
    forall t: nat | t < |slots|
      ensures SlotOk(slots, t, |chains|, NONE)
    {
      assert SlotOk(slots, t, |chains|, s);
    }
    forall t: nat, u: nat
      ensures OneSlot(slots, t, u, NONE)
    {
      assert OneSlot(slots, t, u, s);
    }
  }

  /** The link that led to position `k` of a chain leads past it. */
  function Skipped(slots: seq<Slot>, c: seq<nat>, k: nat): seq<Slot>
    requires k < |c| && c[k] < |slots| && (0 < k ==> c[k - 1] < |slots|)
  {
    if k == 0 then slots else slots[c[k - 1] := slots[c[k - 1]].(next := slots[c[k]].next)]
  }

  lemma ChainSkip(slots: seq<Slot>, i: int, first: int, c: seq<nat>, k: nat)
    requires ChainOk(slots, i, first, c, NONE) && k < |c|
    ensures c[k] < |slots| && (0 < k ==> c[k - 1] < |slots|)
    ensures ChainOk(Skipped(slots, c, k), i, if k == 0 then slots[c[k]].next else first, Without(c, k), c[k])
  {
    hide Of;
    assert ChainLink(slots, c, k) && (0 < k ==> ChainLink(slots, c, k - 1));
    var e, d := Skipped(slots, c, k), Without(c, k);
    assert forall j :: 0 <= j < k ==> d[j] == c[j];
    assert forall j :: k <= j < |d| ==> d[j] == c[j + 1];
    forall j: nat | j < |d|
      ensures ChainLink(e, d, j)
    {
      assert ChainLink(slots, c, if j < k then j else j + 1);
    }
    forall s: nat
      ensures s in d <==> Of(e, s, i, c[k])
    {
      WithoutMembers(c, k, s);
      SkippedOf(slots, c, k, s, i);
    }
  }

  lemma SkippedOf(slots: seq<Slot>, c: seq<nat>, k: nat, s: nat, i: int)
    requires k < |c| && c[k] < |slots| && (0 < k ==> c[k - 1] < |slots|)
    ensures Of(Skipped(slots, c, k), s, i, c[k]) <==> Of(slots, s, i, NONE) && s != c[k]
  {
  }

  /** A page leaves its node's chain and is in hand. */
  lemma SkipKeeps(slots: seq<Slot>, head: int, free: seq<nat>, firsts: seq<int>, chains: seq<seq<nat>>, i: nat, k: nat)
    requires Store(slots, head, free, firsts, chains, NONE) && i < |chains| && k < |chains[i]|
    ensures var c := chains[i];
            && c[k] < |slots| && (0 < k ==> c[k - 1] < |slots|) && slots[c[k]].used
            && Store(Skipped(slots, c, k), head, free, firsts[i := if k == 0 then slots[c[k]].next else firsts[i]],
                chains[i := Without(c, k)], c[k])
  {
    hide ChainOk, FreeOk;
    var c := chains[i];
    ChainSkip(slots, i, firsts[i], c, k);
    ChainMembers(slots, i, firsts[i], c, NONE);
    assert c[k] in c && (0 < k ==> c[k - 1] in c);
    var e := Skipped(slots, c, k);
    FreeMembers(slots, head, free, NONE);
    FreeFrame(slots, e, head, free, NONE, c[k]);
    forall j: nat | j < |chains| && j != i
      ensures ChainOk(e, j, firsts[j], chains[j], c[k])
    {
      ChainMembers(slots, j, firsts[j], chains[j], NONE);
      ChainFrame(slots, e, j, firsts[j], chains[j], NONE, c[k]);
    }
    forall t: nat | t < |e|
      ensures SlotOk(e, t, |chains|, c[k])
    {
      assert SlotOk(slots, t, |chains|, NONE);
    }
    forall t: nat, u: nat
      ensures OneSlot(e, t, u, c[k])
    {
      assert OneSlot(slots, t, u, NONE);
    }
  }

  // ---------------------------------------------------------------- pages

  predicate Holds(slots: seq<Slot>, s: nat, i: int, p: nat) {
    s < |slots| && slots[s].used && slots[s].owner == i && slots[s].page == p
  }

  /** Page `p` of node `i`; a page that is not there is zeros. */
  ghost function PageOf(slots: seq<Slot>, i: int, p: nat): Page {
    if exists s: nat :: Holds(slots, s, i, p) then
      var s: nat :| Holds(slots, s, i, p);
      slots[s].data
    else ZeroPage()
  }

  ghost predicate OnePage(slots: seq<Slot>, i: int, p: nat) {
    forall s: nat, t: nat :: Holds(slots, s, i, p) && Holds(slots, t, i, p) ==> s == t
  }

  lemma PageIs(slots: seq<Slot>, s: nat, i: int, p: nat)
    requires Holds(slots, s, i, p) && OnePage(slots, i, p)
    ensures PageOf(slots, i, p) == slots[s].data
  {
  }

  lemma NoPage(slots: seq<Slot>, i: int, p: nat)
    requires forall s: nat :: !Holds(slots, s, i, p)
    ensures PageOf(slots, i, p) == ZeroPage()
  {
  }

  lemma StoreOnePage(slots: seq<Slot>, head: int, free: seq<nat>, firsts: seq<int>, chains: seq<seq<nat>>, i: int,
      p: nat)
    requires Store(slots, head, free, firsts, chains, NONE)
    ensures OnePage(slots, i, p)
  {
    hide ChainOk, FreeOk;
    forall s: nat, t: nat | Holds(slots, s, i, p) && Holds(slots, t, i, p)
      ensures s == t
    {
      assert OneSlot(slots, s, t, NONE);
    }
  }

  /** Where the same slots hold a page with the same data, it is the same page. */
  lemma SamePage(slots: seq<Slot>, slots': seq<Slot>, i: int, p: nat)
    requires OnePage(slots, i, p)
    requires forall s: nat :: Holds(slots', s, i, p) <==> Holds(slots, s, i, p)
    requires forall s: nat :: Holds(slots, s, i, p) && Holds(slots', s, i, p) ==> slots'[s].data == slots[s].data
    ensures PageOf(slots', i, p) == PageOf(slots, i, p)
  {
    hide Holds;
    if s: nat :| Holds(slots, s, i, p) {
      PageIs(slots, s, i, p);
      PageIs(slots', s, i, p);
    }
  }
}
