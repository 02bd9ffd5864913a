/** The physical page allocator: a bitmap scanned a word at a time, 16-bit reference
    counts, a running free count and a next-free hint (kernel/src/mm/pmm.c). */
module Pmm {
  import opened Words

  const PAGE_SIZE: nat := 4096
  const REF_MAX: nat := 0xffff
  /** Pages below 1 MiB are never handed out. */
  const FIRST_PAGE: nat := 256

  /** The bit of page `p` in a bitmap. */
  ghost predicate BitOf(bitmap: seq<bv64>, p: nat)
    requires p / 64 < |bitmap|
  {
    Has(bitmap[p / 64], p % 64)
  }

  /** The free pages: those below `tracked` whose bit is clear. */
  ghost function FreePages(bitmap: seq<bv64>, tracked: nat): set<nat>
    requires tracked <= |bitmap| * 64
  {
    set p | 0 <= p < tracked && !BitOf(bitmap, p)
  }

  /** Setting one bit of one word removes exactly that page from the free set. */
  lemma SetUsedBit(bitmap: seq<bv64>, tracked: nat, p: nat)
    requires tracked <= |bitmap| * 64 && p < tracked
    ensures FreePages(bitmap[p / 64 := WithBit(bitmap[p / 64], p % 64)], tracked)
         == FreePages(bitmap, tracked) - {p}
  {
    hide Has, WithBit;
    forall q | 0 <= q < tracked
      ensures BitOf(bitmap[p / 64 := WithBit(bitmap[p / 64], p % 64)], q) == (q == p || BitOf(bitmap, q))
    {
      HasWith(bitmap[p / 64], q % 64, p % 64);
    }
  }

  /** Clearing one bit of one word adds exactly that page to the free set. */
  lemma ClearUsedBit(bitmap: seq<bv64>, tracked: nat, p: nat)
    requires tracked <= |bitmap| * 64 && p < tracked
    ensures FreePages(bitmap[p / 64 := WithoutBit(bitmap[p / 64], p % 64)], tracked)
         == FreePages(bitmap, tracked) + {p}
  {
    hide Has, WithoutBit;
    forall q | 0 <= q < tracked
      ensures BitOf(bitmap[p / 64 := WithoutBit(bitmap[p / 64], p % 64)], q) == (q != p && BitOf(bitmap, q))
    {
      HasWithout(bitmap[p / 64], q % 64, p % 64);
    }
  }

  /** The free bits of one word of a range scan, after both edge masks. */
  function FreeBits(word: bv64, wordIndex: nat, start: nat, end: nat): bv64
    requires start < end
  {
    var bits := Not(word);
    var bits := if wordIndex == start / 64 && start % 64 != 0 then KeepFrom(bits, start % 64) else bits;
    if wordIndex == (end - 1) / 64 && end % 64 != 0 then KeepBelow(bits, end % 64) else bits
  }

  /** The masked word holds exactly the free pages of the range that fall in that word. */
  lemma FreeBitsMeaning(bitmap: seq<bv64>, start: nat, end: nat, p: nat)
    requires start < end <= |bitmap| * 64
    requires start / 64 <= p / 64 <= (end - 1) / 64
    ensures Has(FreeBits(bitmap[p / 64], p / 64, start, end), p % 64) <==> start <= p < end && !BitOf(bitmap, p)
  {
    hide Has, KeepFrom, KeepBelow, Not;
    var bits := Not(bitmap[p / 64]);
    HasNot(bitmap[p / 64], p % 64);
    HasFrom(bits, p % 64, start % 64);
    var bits1 := if p / 64 == start / 64 && start % 64 != 0 then KeepFrom(bits, start % 64) else bits;
    HasBelow(bits1, p % 64, end % 64);
  }

  /** The pages `[start, start + count)`. */
  ghost function Run(start: nat, count: nat): set<nat> {
    if count == 0 then {} else Run(start, count - 1) + {start + count - 1}
  }

  /** One reference on each page of a run of unreferenced pages. */
  ghost function Marked(refs: seq<nat>, start: nat, count: nat): (r: seq<nat>)
    requires start + count <= |refs|
    ensures |r| == |refs|
  {
    if count == 0 then refs
    else
      var r := Marked(refs, start, count - 1);
      r[start + count - 1 := if r[start + count - 1] == 0 then 1 else r[start + count - 1]]
  }

  lemma {:induction false} MarkedRest(refs: seq<nat>, start: nat, count: nat, p: nat)
    requires start + count <= |refs| && p < |refs|
    ensures Marked(refs, start, count)[p]
         == if start <= p < start + count && refs[p] == 0 then 1 else refs[p]
  {
    if count == 0 {
    } else {
      MarkedRest(refs, start, count - 1, p);
    }
  }

  lemma FreeByTest(bitmap: seq<bv64>, tracked: nat, p: nat)
    requires tracked <= |bitmap| * 64
    ensures p in FreePages(bitmap, tracked) <==> p < tracked && IsClear(bitmap[p / 64], p % 64)
  {
    hide Has, IsClear;
    if p < tracked {
      HasTest(bitmap[p / 64], p % 64);
    }
  }

  /** Every page of the run is free. */
  ghost predicate FreeRun(free: set<nat>, start: nat, count: nat) {
    forall p :: start <= p < start + count ==> p in free
  }

  /** What one word of the scan yields: nothing of the range is free in it, or its lowest
      masked bit is the lowest free page of the range there. */
  lemma WordScan(bitmap: seq<bv64>, tracked: nat, start: nat, end: nat, w: nat)
    requires start < end <= tracked <= |bitmap| * 64
    requires start / 64 <= w <= (end - 1) / 64
    ensures var bits := FreeBits(bitmap[w], w, start, end);
            if bits == 0
            then forall p :: w * 64 <= p < (w + 1) * 64 && start <= p < end ==> p !in FreePages(bitmap, tracked)
            else var page := w * 64 + Ctz(bits);
                 && start <= page < end && page in FreePages(bitmap, tracked)
                 && forall p :: w * 64 <= p < page && start <= p < end ==> p !in FreePages(bitmap, tracked)
  {
    hide Has, Ctz, FreeBits;
    var bits := FreeBits(bitmap[w], w, start, end);
    forall i | 0 <= i < 64
      ensures Has(bits, i) <==> start <= w * 64 + i < end && !BitOf(bitmap, w * 64 + i)
    {
      assert (w * 64 + i) / 64 == w && (w * 64 + i) % 64 == i;
      FreeBitsMeaning(bitmap, start, end, w * 64 + i);
    }
    if bits == 0 {
      forall p | w * 64 <= p < (w + 1) * 64 && start <= p < end
        ensures p !in FreePages(bitmap, tracked)
      {
        HasZero(p - w * 64);
      }
    } else {
      CtzLowest(bits);
      forall p | w * 64 <= p < w * 64 + Ctz(bits) && start <= p < end
        ensures p !in FreePages(bitmap, tracked)
      {
        assert !Has(bits, p - w * 64);
      }
    }
  }

  /** The word scan: the lowest free page of `[start, end)`, or 0 when the range has none. */
  method FindLowest(bitmap: seq<bv64>, tracked: nat, start: nat, end: nat) returns (page: nat)
    requires tracked <= |bitmap| * 64 && 0 < start
    ensures page == 0 ==> forall p :: p in FreePages(bitmap, tracked) ==> !(start <= p < end)
    ensures page != 0 ==> page in FreePages(bitmap, tracked) && start <= page < end
    ensures page != 0 ==> forall p :: p in FreePages(bitmap, tracked) && start <= p < end ==> page <= p
  {
    var stop := if end > tracked then tracked else end;
    if start >= stop {
      return 0;
    }
    hide Has, Ctz, FreeBits;
    var last := (stop - 1) / 64;
    var w := start / 64;
    while w <= last
      invariant start / 64 <= w <= last + 1
      invariant forall p :: p in FreePages(bitmap, tracked) && start <= p < end ==> w * 64 <= p
    {
      var bits := FreeBits(bitmap[w], w, start, stop);
      WordScan(bitmap, tracked, start, stop, w);
      if bits != 0 {
        return w * 64 + Ctz(bits);
      }
      w := w + 1;
    }
    page := 0;
  }

  /** The run scan: the first run of `count` free pages from 1 MiB up, or 0 when there is none. */
  method FindRun(bitmap: seq<bv64>, tracked: nat, count: nat) returns (start: nat)
    requires tracked <= |bitmap| * 64 && 0 < count
    ensures start == 0 ==> forall s :: FIRST_PAGE <= s ==> !FreeRun(FreePages(bitmap, tracked), s, count)
    ensures start != 0 ==> FIRST_PAGE <= start && FreeRun(FreePages(bitmap, tracked), start, count)
    ensures start != 0 ==> forall s :: FIRST_PAGE <= s < start ==> !FreeRun(FreePages(bitmap, tracked), s, count)
  {
    hide Has, IsClear, FreePages;
    ghost var free := FreePages(bitmap, tracked);
    var runStart, runLen := 0, 0;
    var page := FIRST_PAGE;
    while page < tracked
      invariant FIRST_PAGE <= page && (FIRST_PAGE <= tracked ==> page <= tracked)
      invariant runLen < count && (runLen != 0 ==> runStart + runLen == page) && FIRST_PAGE <= page - runLen
      invariant FreeRun(free, page - runLen, runLen)
      invariant forall s :: FIRST_PAGE <= s < page - runLen ==> !FreeRun(free, s, count)
    {
      FreeByTest(bitmap, tracked, page);
      if !IsClear(bitmap[page / 64], page % 64) {
        RunBroken(free, page - runLen, page, count);
        runLen := 0;
      } else {
        if runLen == 0 {
          runStart := page;
        }
        runLen := runLen + 1;
        if runLen == count {
          return runStart;
        }
      }
      page := page + 1;
    }
    FreeByTest(bitmap, tracked, page);
    start := 0;
    forall s | FIRST_PAGE <= s
      ensures !FreeRun(free, s, count)
    {
      FreeByTest(bitmap, tracked, s + count - 1);
    }
  }

  /** A used page inside the next `count` pages rules out every run that would cover it. */
  lemma RunBroken(free: set<nat>, from: nat, page: nat, count: nat)
    requires page !in free && from <= page < from + count
    ensures forall s :: from <= s <= page ==> !FreeRun(free, s, count)
  {
    forall s | from <= s <= page
      ensures !FreeRun(free, s, count)
    {
      assert s <= page < s + count;
    }
  }

  /** The free count is the number of clear bits, and a page with owners has its bit set. */
  ghost predicate Sound(bitmap: seq<bv64>, refs: seq<nat>, count: nat, free: set<nat>) {
    && |refs| <= |bitmap| * 64
    && free == FreePages(bitmap, |refs|)
    && count == |free|
    && (forall p :: 0 <= p < |refs| ==> refs[p] <= REF_MAX)
    && (forall p :: p in free ==> p < |refs| && refs[p] == 0)
  }

  /** A managed page is free exactly when nobody references it; any other page is neither. */
  ghost predicate ExactFor(refs: seq<nat>, free: set<nat>, managed: set<nat>) {
    forall p :: 0 <= p < |refs| ==> if p in managed then p in free <==> refs[p] == 0 else p !in free && refs[p] == 0
  }

  lemma UsedSound(bitmap: seq<bv64>, refs: seq<nat>, count: nat, free: set<nat>, p: nat, n: nat)
    requires Sound(bitmap, refs, count, free) && p < |refs| && 0 < n <= REF_MAX
    ensures p / 64 < |bitmap| && (IsClear(bitmap[p / 64], p % 64) <==> p in free)
    ensures p in free ==>
              0 < count && Sound(bitmap[p / 64 := WithBit(bitmap[p / 64], p % 64)], refs[p := n], count - 1, free - {p})
    ensures p !in free ==> Sound(bitmap, refs[p := n], count, free)
  {
    hide Has, WithBit, IsClear, FreePages;
    FreeByTest(bitmap, |refs|, p);
    SetUsedBit(bitmap, |refs|, p);
  }

  lemma FreeSound(bitmap: seq<bv64>, refs: seq<nat>, count: nat, free: set<nat>, p: nat)
    requires Sound(bitmap, refs, count, free) && p < |refs|
    ensures p / 64 < |bitmap| && (IsClear(bitmap[p / 64], p % 64) <==> p in free)
    ensures p !in free ==> Sound(bitmap[p / 64 := WithoutBit(bitmap[p / 64], p % 64)], refs[p := 0], count + 1,
            free + {p})
    ensures p in free ==> Sound(bitmap, refs[p := 0], count, free)
  {
    hide Has, WithoutBit, IsClear, FreePages;
    FreeByTest(bitmap, |refs|, p);
    ClearUsedBit(bitmap, |refs|, p);
  }

  lemma RefSound(bitmap: seq<bv64>, refs: seq<nat>, count: nat, free: set<nat>, p: nat, n: nat)
    requires Sound(bitmap, refs, count, free) && p < |refs| && 0 < refs[p] && n <= REF_MAX
    ensures Sound(bitmap, refs[p := n], count, free) && p !in free
  {
  }

  lemma ExactUsed(refs: seq<nat>, free: set<nat>, managed: set<nat>, p: nat, n: nat)
    requires ExactFor(refs, free, managed) && p < |refs| && p in managed && 0 < n
    ensures ExactFor(refs[p := n], free - {p}, managed)
  {
  }

  lemma ExactFreed(refs: seq<nat>, free: set<nat>, managed: set<nat>, p: nat)
    requires ExactFor(refs, free, managed) && p < |refs| && p in managed
    ensures ExactFor(refs[p := 0], free + {p}, managed)
  {
  }

  lemma ExactMembers(refs: seq<nat>, free: set<nat>, managed: set<nat>, p: nat)
    requires ExactFor(refs, free, managed) && p < |refs| && (p in free || 0 < refs[p])
    ensures p in managed
  {
  }

  class Allocator {
    var bitmap: seq<bv64>
    var refs: seq<nat>
    var freeCount: nat
    var next: nat
    /** The free set the bitmap encodes. */
    ghost var free: set<nat>
    /** The pages ever handed to the allocator or marked in use. */
    ghost var managed: set<nat>

    ghost predicate Valid()
      reads this
    {
      Sound(bitmap, refs, freeCount, free)
    }

    ghost predicate Exact()
      reads this
    {
      ExactFor(refs, free, managed)
    }

    /** All bits set and no references, as `pmm_init` leaves the tables before freeing usable ranges. */
    constructor (tracked: nat)
      ensures Valid() && Exact() && free == {} && |refs| == tracked && next == FIRST_PAGE
      ensures forall p :: 0 <= p < tracked ==> refs[p] == 0
    {
      var words := (tracked + 64 - 1) / 64;
      bitmap := seq(words, _ => ALL_ONES);
      refs := seq(tracked, _ => 0);
      freeCount := 0;
      next := FIRST_PAGE;
      free := {};
      managed := {};
      new;
      forall p | 0 <= p < tracked
        ensures BitOf(bitmap, p)
      {
        HasOnes(p % 64);
      }
    }

    method SetUsed(p: nat)
      requires Valid()
      modifies this
      ensures Valid() && next == old(next)
      ensures p >= |old(refs)| ==> free == old(free) && refs == old(refs) && managed == old(managed)
      ensures p < |old(refs)| ==> free == old(free) - {p} && managed == old(managed) + {p}
      ensures p < |old(refs)| ==> refs == old(refs)[p := if old(refs[p]) == 0 then 1 else old(refs[p])]
    {
      hide Sound, IsClear, WithBit;
      SoundBounds(bitmap, refs, freeCount, free);
      if p >= |refs| {
        return;
      }
      SoundRefs(bitmap, refs, freeCount, free, p);
      UsedSound(bitmap, refs, freeCount, free, p, if refs[p] == 0 then 1 else refs[p]);
      if IsClear(bitmap[p / 64], p % 64) {
        bitmap := bitmap[p / 64 := WithBit(bitmap[p / 64], p % 64)];
        if freeCount > 0 {
          freeCount := freeCount - 1;
        }
      }
      if refs[p] == 0 {
        refs := refs[p := 1];
      }
      free := free - {p};
      managed := managed + {p};
      assert refs == old(refs)[p := if old(refs[p]) == 0 then 1 else old(refs[p])];
      assert p !in old(free) ==> free == old(free);
    }

    method SetFree(p: nat)
      requires Valid()
      modifies this
      ensures Valid() && next == old(next)
      ensures p >= |old(refs)| ==> free == old(free) && refs == old(refs) && managed == old(managed)
      ensures p < |old(refs)| ==> free == old(free) + {p} && refs == old(refs)[p := 0] && managed == old(managed) + {p}
    {
      hide Sound, IsClear, WithoutBit;
      SoundBounds(bitmap, refs, freeCount, free);
      if p >= |refs| {
        return;
      }
      FreeSound(bitmap, refs, freeCount, free, p);
      if !IsClear(bitmap[p / 64], p % 64) {
        bitmap := bitmap[p / 64 := WithoutBit(bitmap[p / 64], p % 64)];
        freeCount := freeCount + 1;
      }
      refs := refs[p := 0];
      free := free + {p};
      managed := managed + {p};
      assert p in old(free) ==> free == old(free);
    }

    /** Returns the lowest free page of `[start, end)` and takes it, or 0 when there is none. */
    method AllocInRange(start: nat, end: nat) returns (page: nat)
      requires Valid() && 0 < start
      modifies this
      ensures Valid() && (old(Exact()) ==> Exact() && managed == old(managed))
      ensures page == 0 ==> free == old(free) && refs == old(refs) && next == old(next) && managed == old(managed)
      ensures page == 0 ==> forall p :: p in free ==> !(start <= p < end)
      ensures page != 0 ==> page in old(free) && start <= page < end && page < |old(refs)| && old(refs[page]) == 0
      ensures page != 0 ==> forall p :: p in old(free) && start <= p < end ==> page <= p
      ensures page != 0 ==> free == old(free) - {page} && refs == old(refs)[page := 1] && next == page + 1
    {
      hide Sound, ExactFor, FreePages;
      SoundBounds(bitmap, refs, freeCount, free);
      page := FindLowest(bitmap, |refs|, start, end);
      if page != 0 {
        SoundMembers(bitmap, refs, freeCount, free, page);
        SetUsed(page);
        next := page + 1;
        if old(Exact()) {
          ExactMembers(old(refs), old(free), old(managed), page);
          ExactUsed(old(refs), old(free), old(managed), page, 1);
          assert managed == old(managed);
        }
      }
    }

    /** Fails only when no page from 1 MiB up is free, wherever the hint points; otherwise takes
        the lowest free page at or after the hint, wrapping to the lowest one of all. */
    method AllocPage() returns (page: nat)
      requires Valid()
      modifies this
      ensures Valid() && (old(Exact()) ==> Exact() && managed == old(managed))
      ensures page == 0 <==> forall p :: p in old(free) ==> p < FIRST_PAGE
      ensures page == 0 ==> free == old(free) && refs == old(refs)
      ensures page != 0 ==> page in old(free) && FIRST_PAGE <= page < |old(refs)| && old(refs[page]) == 0
      ensures page != 0 ==> free == old(free) - {page} && refs == old(refs)[page := 1]
      ensures var hint := if FIRST_PAGE <= old(next) < |old(refs)| then old(next) else FIRST_PAGE;
              page != 0 ==> forall p :: p in old(free) && FIRST_PAGE <= p ==>
                (hint <= p ==> hint <= page <= p) && (page < hint ==> page <= p < hint)
      ensures page != 0 ==> next == page + 1
    {
      hide Sound, ExactFor, FreePages;
      if next < FIRST_PAGE || next >= |refs| {
        next := FIRST_PAGE;
      }
      var hint := next;
      FreeInRange(bitmap, refs, freeCount, free);
      page := AllocInRange(hint, |refs|);
      if page == 0 {
        page := AllocInRange(FIRST_PAGE, hint);
      }
    }

    /** The marking loop of the contiguous allocator. */
    method TakeRun(runStart: nat, count: nat)
      requires Valid() && FreeRun(free, runStart, count) && runStart + count <= |refs|
      modifies this
      ensures Valid() && next == old(next) && (old(Exact()) ==> Exact() && managed == old(managed))
      ensures free == old(free) - Run(runStart, count)
      ensures refs == Marked(old(refs), runStart, count)
    {
      hide Sound, ExactFor;
      var i := 0;
      while i < count
        invariant 0 <= i <= count && Valid() && next == old(next) && |refs| == |old(refs)|
        invariant free == old(free) - Run(runStart, i)
        invariant refs == Marked(old(refs), runStart, i)
        invariant old(Exact()) ==> Exact() && managed == old(managed)
      {
        MarkedRest(old(refs), runStart, i, runStart + i);
        if old(Exact()) {
          ExactMembers(old(refs), old(free), old(managed), runStart + i);
          ExactUsed(refs, free, managed, runStart + i, if refs[runStart + i] == 0 then 1 else refs[runStart + i]);
        }
        SetUsed(runStart + i);
        assert old(Exact()) ==> managed == old(managed);
        i := i + 1;
      }
    }

    /** First fit, and complete: 0 is returned exactly when no run of `count` free pages exists. */
    method AllocContiguous(count: nat) returns (start: nat)
      requires Valid()
      modifies this
      ensures Valid() && (old(Exact()) ==> Exact() && managed == old(managed))
      ensures start == 0 ==> free == old(free) && refs == old(refs)
      ensures start == 0 <==> count == 0 || forall s :: FIRST_PAGE <= s ==> !FreeRun(old(free), s, count)
      ensures start != 0 ==> FIRST_PAGE <= start && FreeRun(old(free), start, count)
      ensures start != 0 ==> forall s :: FIRST_PAGE <= s < start ==> !FreeRun(old(free), s, count)
      ensures start != 0 ==> free == old(free) - Run(start, count) && start + count <= |old(refs)|
      ensures start != 0 ==> refs == Marked(old(refs), start, count)
      ensures next == if start == 0 then old(next) else start + count
    {
      hide Sound, ExactFor, FreePages;
      start := 0;
      if count == 0 {
        return;
      }
      SoundBounds(bitmap, refs, freeCount, free);
      FreeInRange(bitmap, refs, freeCount, free);
      if count > |refs| {
        forall s | FIRST_PAGE <= s
          ensures !FreeRun(free, s, count)
        {
          assert s + count - 1 !in free;
        }
        return;
      }
      start := FindRun(bitmap, |refs|, count);
      if start != 0 {
        assert start + count - 1 in free;
        TakeRun(start, count);
        next := start + count;
      }
    }

    /** Drops one reference; the page becomes free exactly when that was the last one. */
    method FreePage(pa: nat)
      requires Valid()
      modifies this
      ensures Valid() && (old(Exact()) ==> Exact() && managed == old(managed))
      ensures var p := pa / PAGE_SIZE;
              if pa % PAGE_SIZE == 0 && p < |old(refs)| && old(refs[p]) != 0
              then refs == old(refs)[p := old(refs[p]) - 1]
                && free == (if old(refs[p]) == 1 then old(free) + {p} else old(free))
                && next == (if old(refs[p]) == 1 && p < old(next) then p else old(next))
              else refs == old(refs) && free == old(free) && next == old(next)
    {
      hide Sound, ExactFor;
      if pa % PAGE_SIZE != 0 {
        return;
      }
      var p := pa / PAGE_SIZE;
      if p >= |refs| || refs[p] == 0 {
        return;
      }
      SoundRefs(bitmap, refs, freeCount, free, p);
      RefSound(bitmap, refs, freeCount, free, p, refs[p] - 1);
      if old(Exact()) {
        ExactMembers(refs, free, managed, p);
        if refs[p] == 1 {
          ExactFreed(refs, free, managed, p);
        } else {
          ExactUsed(refs, free, managed, p, refs[p] - 1);
          assert free - {p} == free;
        }
      }
      refs := refs[p := refs[p] - 1];
      if refs[p] == 0 {
        SetFree(p);
        assert refs == old(refs)[p := 0];
        assert old(Exact()) ==> managed == old(managed);
        if p < next {
          next := p;
        }
      }
    }

    /** Adds a reference to a page that has one, unless its count is saturated. */
    method SharePage(pa: nat) returns (ok: bool)
      requires Valid()
      modifies this
      ensures Valid() && free == old(free) && next == old(next) && (old(Exact()) ==> Exact() && managed == old(managed))
      ensures var p := pa / PAGE_SIZE;
              ok == (pa % PAGE_SIZE == 0 && p < |old(refs)| && 0 < old(refs[p]) < REF_MAX)
              && refs == if ok then old(refs)[p := old(refs[p]) + 1] else old(refs)
    {
      hide Sound, ExactFor;
      if pa % PAGE_SIZE != 0 {
        return false;
      }
      var p := pa / PAGE_SIZE;
      if p >= |refs| || refs[p] == 0 || refs[p] == REF_MAX {
        return false;
      }
      SoundRefs(bitmap, refs, freeCount, free, p);
      RefSound(bitmap, refs, freeCount, free, p, refs[p] + 1);
      if old(Exact()) {
        ExactMembers(refs, free, managed, p);
        ExactUsed(refs, free, managed, p, refs[p] + 1);
        assert free - {p} == free;
      }
      refs := refs[p := refs[p] + 1];
      return true;
    }

    function RefCount(pa: nat): nat
      reads this
    {
      if pa % PAGE_SIZE != 0 || pa / PAGE_SIZE >= |refs| then 0 else refs[pa / PAGE_SIZE]
    }
  }

  lemma SoundBounds(bitmap: seq<bv64>, refs: seq<nat>, count: nat, free: set<nat>)
    requires Sound(bitmap, refs, count, free)
    ensures |refs| <= |bitmap| * 64 && free == FreePages(bitmap, |refs|)
  {
  }

  lemma SoundMembers(bitmap: seq<bv64>, refs: seq<nat>, count: nat, free: set<nat>, p: nat)
    requires Sound(bitmap, refs, count, free) && p in free
    ensures p < |refs| && refs[p] == 0
  {
  }

  lemma FreeInRange(bitmap: seq<bv64>, refs: seq<nat>, count: nat, free: set<nat>)
    requires Sound(bitmap, refs, count, free)
    ensures forall p :: p in free ==> p < |refs|
  {
  }

  lemma SoundRefs(bitmap: seq<bv64>, refs: seq<nat>, count: nat, free: set<nat>, p: nat)
    requires Sound(bitmap, refs, count, free) && p < |refs|
    ensures refs[p] <= REF_MAX
  {
  }
}
