/** The user address-space manager: methods that rewrite descriptors in place
    (kernel/src/mm/vmm.c), each specified by what every address space then observes. */
module Vmm {
  import opened Bytes
  import opened PageTables
  import opened Views
  import opened Cloning
  import opened VmmSteps
  import Pmm

  /** No page that the kernel hands out is free. */
  ghost predicate OutOfPages(free: set<nat>) {
    forall p :: p in free ==> p < Pmm.FIRST_PAGE
  }

  /** Some page has as many references as its count can hold. */
  ghost predicate Saturated(refs: seq<nat>) {
    exists p :: 0 <= p < |refs| && refs[p] >= Pmm.REF_MAX
  }

  lemma SaturatedAt(refs: seq<nat>, p: nat)
    requires p < |refs| && refs[p] >= Pmm.REF_MAX
    ensures Saturated(refs)
  {
  }

  predicate NotTable(pages: seq<Page>, t: nat, i: nat) {
    t < |pages| && pages[t].Table? && i < |pages[t].entries| && pages[t].entries[i].valid && !pages[t].entries[i].table
  }

  /** Above the leaf level every valid descriptor is a table. */
  lemma NeverNotTable(m: Mem, t: nat, i: nat)
    requires Inv(m) && t in m.own && m.own[t].level < 3 && m.own[t].from == 0 && i < ENTRIES
    ensures !NotTable(m.pages, t, i)
  {
    hide Inv;
    IsTable(m, t);
    if m.pages[t].entries[i].valid { ExistingTable(m, t, i); }
  }

  class AddressSpaces {
    const pmm: Pmm.Allocator
    var pages: seq<Page>
    var roots: map<nat, nat>
    /** The pages the allocator was given. */
    ghost const managed: set<nat>
    ghost var ext: seq<nat>
    ghost var own: map<nat, Owner>

    ghost function State(): Mem
      reads this, pmm
    {
      Mem(pages, pmm.refs, ext, roots, own)
    }

    ghost predicate Valid()
      reads this, pmm
    {
      pmm.Valid() && pmm.Exact() && pmm.managed == managed && Inv(State())
    }

    /** No address space yet: every reference is held outside the tables. */
    constructor (pmm: Pmm.Allocator)
      requires pmm.Valid() && pmm.Exact()
      ensures Valid() && this.pmm == pmm && managed == pmm.managed && roots == map[] && own == map[] && ext == pmm.refs
    {
      this.pmm := pmm;
      managed := pmm.managed;
      pages := seq(|pmm.refs|, _ => ZeroData());
      roots := map[];
      ext := pmm.refs;
      own := map[];
      new;
      NoTables(State());
    }

    /** Returns the table below entry `index` of `table`, creating an empty one if there is none;
        0 when memory ran out. Either way nothing any address space observes changes. */
    method EnsureTable(table: nat, index: nat) returns (next: nat)
      requires Valid() && table in own && own[table].level < 3 && own[table].from == 0 && index < ENTRIES
      modifies this, pmm
      ensures Valid() && Grown(old(State()), State()) && roots == old(roots)
      ensures next != 0 ==> Child(pages, table, index) == next
      ensures next != 0 ==> next in own && own[next].level == old(own[table].level) + 1 && own[next].from == 0
      ensures next == 0 ==> OutOfPages(pmm.free) || NotTable(old(pages), table, index)
    {
      hide Inv, Grown, Pmm.Sound, Pmm.ExactFor;
      ghost var m := State();
      IsTable(m, table);
      var entry := pages[table].entries[index];
      if !entry.valid {
        var pfn := pmm.AllocPage();
        if pfn == 0 {
          assert State() == m;
          GrownRefl(m);
          return 0;
        }
        AttachGrows(m, table, index, pfn);
        pages := WriteEntry(pages[pfn := ZeroTable()], table, index, TablePte(pfn));
        own := own[pfn := Owner(own[table].level + 1, Slot(table, index), 0)];
        assert State() == Attach(m, table, index, pfn);
        entry := pages[table].entries[index];
        return pfn;
      }
      GrownRefl(m);
      if !entry.table {
        return 0;
      }
      ExistingTable(m, table, index);
      return entry.pfn;
    }

    /** The three `ensure_table` calls that open every mapping operation. */
    method EnsureLeafTable(a: nat, va: nat) returns (t: nat)
      requires Valid() && a in roots
      modifies this, pmm
      ensures Valid() && Grown(old(State()), State()) && roots == old(roots)
      ensures t != 0 ==> LeafTable(State(), a, PathOf(va)) == t
      ensures t == 0 ==> OutOfPages(pmm.free)
    {
      hide Inv, Grown, PathOf, NotTable, OutOfPages;
      ghost var m := State();
      RootIsTable(m, a);
      var path := PathOf(va);
      NeverNotTable(m, roots[a], path[0]);
      var l1 := EnsureTable(roots[a], path[0]);
      ghost var m1 := State();
      if l1 == 0 {
        return 0;
      }
      RootIsTable(m1, a);
      NeverNotTable(m1, l1, path[1]);
      var l2 := EnsureTable(l1, path[1]);
      ghost var m2 := State();
      GrownTransitive(m, m1, m2);
      GrownKeepsChild(m1, m2, roots[a], path[0], l1);
      if l2 == 0 {
        return 0;
      }
      NeverNotTable(m2, l2, path[2]);
      t := EnsureTable(l2, path[2]);
      ghost var m3 := State();
      GrownTransitive(m, m2, m3);
      GrownKeepsChild(m2, m3, roots[a], path[0], l1);
      GrownKeepsChild(m2, m3, l1, path[1], l2);
      LeafForDescends(pages, roots[a], va);
    }

    /** The store that ends `vmm_map_page` and `vmm_map_page_cow`. The caller's reference to the
        page becomes the descriptor's; a page mapped there before is left with a reference
        that no table holds any more. */
    method MapLeaf(a: nat, va: nat, e: Pte) returns (ok: bool)
      requires Valid() && a in roots && Mappable(State(), e)
      modifies this, pmm
      ensures Valid() && roots == old(roots)
      ensures !ok ==> Grown(old(State()), State()) && OutOfPages(pmm.free)
      ensures ok ==> Remapped(old(State()), State(), a, PathOf(va), e)
      ensures ok ==> var o := Translate(old(State()), a, PathOf(va));
                     && (o.valid ==> o.pfn < |old(ext)|)
                     && ext == if o.valid then Inc(Dec(old(ext), e.pfn), o.pfn) else Dec(old(ext), e.pfn)
      ensures ok && Settled(old(State())) ==> Settled(State())
    {
      hide Inv, Grown, PathOf, Remapped, Mappable, LeafTable, Translate;
      ghost var m := State();
      var t := EnsureLeafTable(a, va);
      ghost var m1 := State();
      if t == 0 {
        return false;
      }
      GrownKeepsMappable(m, m1, e);
      InstallRemaps(m1, a, PathOf(va), e);
      GrownThenRemapped(m, m1, Install(m1, t, PathOf(va)[3], e), a, PathOf(va), e);
      GrownFacts(m, m1, a, PathOf(va));
      ghost var o := pages[t].entries[PathOf(va)[3]];
      pages := WriteEntry(pages, t, PathOf(va)[3], e);
      ext := if o.valid then Inc(Dec(ext, e.pfn), o.pfn) else Dec(ext, e.pfn);
      assert State() == Install(m1, t, PathOf(va)[3], e);
      return true;
    }

    method MapPage(a: nat, va: nat, pfn: nat, write: bool, exec: bool) returns (ok: bool)
      requires Valid() && a in roots && Mappable(State(), LeafPte(pfn, write, exec))
      modifies this, pmm
      ensures Valid() && roots == old(roots)
      ensures !ok ==> Grown(old(State()), State()) && OutOfPages(pmm.free)
      ensures ok ==> Remapped(old(State()), State(), a, PathOf(va), LeafPte(pfn, write, exec))
      ensures ok && !Translate(old(State()), a, PathOf(va)).valid ==> ext == Dec(old(ext), pfn)
      ensures ok && Settled(old(State())) ==> Settled(State())
    {
      ok := MapLeaf(a, va, LeafPte(pfn, write, exec));
    }

    method MapPageCow(a: nat, va: nat, pfn: nat, exec: bool) returns (ok: bool)
      requires Valid() && a in roots && Mappable(State(), CowPte(pfn, exec))
      modifies this, pmm
      ensures Valid() && roots == old(roots)
      ensures !ok ==> Grown(old(State()), State()) && OutOfPages(pmm.free)
      ensures ok ==> Remapped(old(State()), State(), a, PathOf(va), CowPte(pfn, exec))
      ensures ok && !Translate(old(State()), a, PathOf(va)).valid ==> ext == Dec(old(ext), pfn)
      ensures ok && Settled(old(State())) ==> Settled(State())
    {
      ok := MapLeaf(a, va, CowPte(pfn, exec));
    }

    /** A fresh zero page: on success exactly this page of this address space reads as zeros;
        on failure nothing observable changed. */
    method AllocPage(a: nat, va: nat, write: bool, exec: bool) returns (ok: bool)
      requires Valid() && a in roots
      modifies this, pmm
      ensures Valid() && roots == old(roots)
      ensures !ok ==> SameViews(old(State()), State()) && OutOfPages(pmm.free)
      ensures ok ==> OnlyView(old(State()), State(), a, PathOf(va), Mapped(ZeroData().bytes, write, exec))
      ensures HoldersKept(old(State()), State()) && (Settled(old(State())) ==> Settled(State()))
      ensures OthersTranslate(old(State()), State(), a, PathOf(va))
    {
      hide OthersTranslate, Inv, PathOf, Remapped, Grown, SameViews, OnlyView, SameTranslations, DataKept, Pmm.Sound,
           Pmm.ExactFor, HoldersKept, Settled;
      ghost var m := State();
      var c := pmm.AllocPage();
      if c == 0 {
        assert State() == m;
        SameViewsRefl(m);
        HoldersRefl(m);
        OthersRefl(m, a, PathOf(va));
        return false;
      }
      OutsideAlloc(m, c, ZeroData());
      FreshExt(m, c);
      pages := pages[c := ZeroData()];
      ext := ext[c := 1];
      ghost var m1 := State();
      assert m1 == Outside(m, c, ZeroData(), 1, 1);
      FreshMappable(m, c, ZeroData(), write, exec);
      ok := MapLeaf(a, va, LeafPte(c, write, exec));
      OthersThen(m, m1, State(), a, PathOf(va));
      if ok {
        ViewsThenRemapped(m, m1, State(), a, PathOf(va), LeafPte(c, write, exec));
        RemappedHolders(m, m1, State(), a, PathOf(va), LeafPte(c, write, exec));
      } else {
        GrownViews(m1, State());
        SameViewsTransitive(m, m1, State());
        GrownHolders(m1, State());
        HoldersTransitive(m, m1, State());
        GrownFacts(m1, State(), a, PathOf(va));
      }
    }

    /** The end of the file fault that copies: a page with these bytes, mapped, or given back. */
    method MapFilled(a: nat, va: nat, bytes: seq<byte>, write: bool, exec: bool) returns (ok: bool)
      requires Valid() && a in roots && |bytes| == PAGE_BYTES
      modifies this, pmm
      ensures Valid() && roots == old(roots)
      ensures !ok ==> SameViews(old(State()), State())
      ensures ok ==> OnlyView(old(State()), State(), a, PathOf(va), Mapped(bytes, write, exec))
      ensures HoldersKept(old(State()), State()) && (Settled(old(State())) ==> Settled(State()))
      ensures OthersTranslate(old(State()), State(), a, PathOf(va))
    {
      hide OthersTranslate, Inv, PathOf, Remapped, Grown, SameViews, OnlyView, SameTranslations, DataKept, Pmm.Sound,
           Pmm.ExactFor, HoldersKept, Settled;
      ghost var m := State();
      var c := pmm.AllocPage();
      if c == 0 {
        assert State() == m;
        SameViewsRefl(m);
        HoldersRefl(m);
        OthersRefl(m, a, PathOf(va));
        return false;
      }
      OutsideAlloc(m, c, Data(bytes));
      FreshExt(m, c);
      pages := pages[c := Data(bytes)];
      ext := ext[c := 1];
      ghost var m1 := State();
      assert m1 == Outside(m, c, Data(bytes), 1, 1);
      FreshMappable(m, c, Data(bytes), write, exec);
      ok := MapLeaf(a, va, LeafPte(c, write, exec));
      OthersThen(m, m1, State(), a, PathOf(va));
      if ok {
        ViewsThenRemapped(m, m1, State(), a, PathOf(va), LeafPte(c, write, exec));
        RemappedHolders(m, m1, State(), a, PathOf(va), LeafPte(c, write, exec));
      } else {
        GrownViews(m1, State());
        SameViewsTransitive(m, m1, State());
        GrownHolders(m1, State());
        GrownFacts(m1, State(), a, PathOf(va));
        ghost var m2 := State();
        HoldersTransitive(m, m1, m2);
        GiveBack(c);
        OthersThen(m, m2, State(), a, PathOf(va));
        SameViewsTransitive(m, m2, State());
        GivenBack(m, m2, State(), c);
      }
    }

    /** `pmm_free_page` of a page held outside the tables. */
    method GiveBack(c: nat)
      requires Valid() && 0 < c < |ext| && 0 < ext[c]
      modifies pmm, `ext
      ensures Valid() && SameViews(old(State()), State()) && SameTranslations(old(State()), State())
      ensures pages == old(pages)
      ensures |pmm.refs| == |old(pmm.refs)| == |old(ext)| && 0 < old(pmm.refs[c])
      ensures pmm.refs == old(pmm.refs)[c := old(pmm.refs[c]) - 1] && ext == old(ext)[c := old(ext)[c] - 1]
      ensures Settled(old(State())) ==> Settled(State())
    {
      hide Inv, SameViews, SameTranslations, Pmm.Sound, Pmm.ExactFor, Settled, HoldersKept;
      ghost var m := State();
      HolderSteps(m, c);
      assert (c * Pmm.PAGE_SIZE) % Pmm.PAGE_SIZE == 0 && (c * Pmm.PAGE_SIZE) / Pmm.PAGE_SIZE == c;
      pmm.FreePage(c * Pmm.PAGE_SIZE);
      ext := ext[c := ext[c] - 1];
      assert pages[c := pages[c]] == pages;
      assert State() == Outside(m, c, m.pages[c], m.refs[c] - 1, m.ext[c] - 1);
    }

    /** The file fault that maps a page of the page cache: another reference to it, read-only in the
        tables, for copying on the first write if `write`; the reference is given back if that fails. */
    method MapHeld(a: nat, va: nat, d: nat, write: bool, exec: bool) returns (ok: bool)
      requires Valid() && a in roots && 0 < d < |ext| && 0 < ext[d] && d < |pages| && pages[d].Data?
      modifies this, pmm
      ensures Valid() && roots == old(roots)
      ensures !ok ==> SameViews(old(State()), State())
      ensures ok ==> OnlyView(old(State()), State(), a, PathOf(va), Mapped(old(pages)[d].bytes, write, exec))
      ensures HoldersKept(old(State()), State()) && (Settled(old(State())) ==> Settled(State()))
      ensures OthersTranslate(old(State()), State(), a, PathOf(va))
    {
      hide OthersTranslate, Inv, PathOf, Remapped, Grown, SameViews, OnlyView, SameTranslations, DataKept, Pmm.Sound,
           Pmm.ExactFor, HoldersKept, Settled, Mappable;
      ghost var m := State();
      HolderSteps(m, d);
      SameViewsRefl(m);
      HoldersRefl(m);
      OthersRefl(m, a, PathOf(va));
      assert (d * Pmm.PAGE_SIZE) % Pmm.PAGE_SIZE == 0 && (d * Pmm.PAGE_SIZE) / Pmm.PAGE_SIZE == d;
      ok := pmm.SharePage(d * Pmm.PAGE_SIZE);
      if !ok {
        assert State() == m;
        return;
      }
      ext := ext[d := ext[d] + 1];
      assert pages[d := pages[d]] == pages;
      ghost var m1 := State();
      assert m1 == Outside(m, d, m.pages[d], m.refs[d] + 1, m.ext[d] + 1);
      HeldMappable(m1, d, write, exec);
      var e := if write then CowPte(d, exec) else LeafPte(d, false, exec);
      ok := MapLeaf(a, va, e);
      OthersThen(m, m1, State(), a, PathOf(va));
      if ok {
        ViewsThenRemapped(m, m1, State(), a, PathOf(va), e);
        RemappedHolders(m, m1, State(), a, PathOf(va), e);
      } else {
        GrownViews(m1, State());
        SameViewsTransitive(m, m1, State());
        GrownHolders(m1, State());
        GrownFacts(m1, State(), a, PathOf(va));
        ghost var m2 := State();
        HoldersTransitive(m, m1, m2);
        GiveBack(d);
        OthersThen(m, m2, State(), a, PathOf(va));
        SameViewsTransitive(m, m2, State());
        GivenBack(m, m2, State(), d);
      }
    }

    /** The break-before-make sequence of the fault handler on the freshly taken page `c`. */
    method CopyAndSwitch(t: nat, i: nat, c: nat)
      requires pmm.Valid() && |pmm.refs| == |pages|
      requires t < |pages| && pages[t].Table? && i < |pages[t].entries| && c < |pages| && c != t
      requires var d := pages[t].entries[i].pfn; d < |pages| && d != c && d != t && 0 < pmm.refs[d]
      modifies this`pages, pmm
      ensures old(pmm.Exact()) ==> pmm.Exact() && pmm.managed == old(pmm.managed)
      ensures pmm.Valid() && pmm.refs == Dec(old(pmm.refs), old(pages[t].entries[i].pfn))
      ensures var e := old(pages[t].entries[i]);
              pages == WriteEntry(old(pages)[c := old(pages)[e.pfn]], t, i, MakeWritable(e.(pfn := c)))
    {
      var e := pages[t].entries[i];
      pages := pages[c := pages[e.pfn]];
      pages := WriteEntry(pages, t, i, EMPTY);
      pages := WriteEntry(pages, t, i, MakeWritable(e.(pfn := c)));
      assert pages[t].entries == old(pages[t].entries)[i := MakeWritable(e.(pfn := c))];
      assert (e.pfn * Pmm.PAGE_SIZE) % Pmm.PAGE_SIZE == 0 && (e.pfn * Pmm.PAGE_SIZE) / Pmm.PAGE_SIZE == e.pfn;
      pmm.FreePage(e.pfn * Pmm.PAGE_SIZE);
    }

    /** Succeeds exactly on a copy-on-write page that either has no other reference or for which
        a page is free; it makes that page writable and changes no view of any address space. */
    method HandleCowFault(a: nat, va: nat) returns (ok: bool)
      requires Valid() && a in roots
      modifies this, pmm
      ensures Valid()
      ensures !ok ==> State() == old(State()) && pmm.free == old(pmm.free)
      ensures ok ==> Faulted(old(State()), State(), a, PathOf(va))
      ensures HoldersKept(old(State()), State())
      ensures var e := Translate(old(State()), a, PathOf(va));
              ok == (e.valid && e.cow && (old(pmm.RefCount(e.pfn * Pmm.PAGE_SIZE)) == 1
                                          || exists p :: p in old(pmm.free) && Pmm.FIRST_PAGE <= p))
    {
      hide Inv, PathOf, Faulted, Translate, LeafTable, LeafFor, Pmm.Sound, Pmm.ExactFor, HoldersKept;
      ghost var m := State();
      HoldersRefl(m);
      ReadLeaf(m, a, va);
      var t := LeafFor(pages, roots[a], va);
      if t == 0 {
        return false;
      }
      var i := PathOf(va)[3];
      var e := pages[t].entries[i];
      if !e.valid || !e.cow {
        return false;
      }
      CowTarget(m, a, PathOf(va));
      assert (e.pfn * Pmm.PAGE_SIZE) % Pmm.PAGE_SIZE == 0 && (e.pfn * Pmm.PAGE_SIZE) / Pmm.PAGE_SIZE == e.pfn;
      if pmm.RefCount(e.pfn * Pmm.PAGE_SIZE) == 1 {
        ReuseFaults(m, a, PathOf(va));
        pages := WriteEntry(pages, t, i, MakeWritable(e));
        assert State() == Reuse(m, t, i);
        FaultedHolders(m, State(), a, PathOf(va));
        return true;
      }
      var c := pmm.AllocPage();
      if c == 0 {
        assert State() == m;
        return false;
      }
      CopyFaults(m, a, PathOf(va), c);
      CopyAndSwitch(t, i, c);
      assert State() == Copy(m, t, i, c);
      FaultedHolders(m, State(), a, PathOf(va));
      return true;
    }

    /** One iteration of `vmm_unmap_range`. */
    method UnmapPage(a: nat, va: nat)
      requires Valid() && a in roots
      modifies this`pages, pmm
      ensures Valid()
      ensures OnlyView(old(State()), State(), a, PathOf(va), Absent)
      ensures OnlyTranslation(old(State()), State(), a, PathOf(va), EMPTY)
    {
      hide Inv, PathOf, Translate, LeafTable, LeafFor, Pmm.Sound, Pmm.ExactFor;
      ghost var m := State();
      ReadLeaf(m, a, va);
      var t := LeafFor(pages, roots[a], va);
      if t == 0 || !pages[t].entries[PathOf(va)[3]].valid {
        return;
      }
      ClearRemaps(m, a, PathOf(va));
      var pfn := pages[t].entries[PathOf(va)[3]].pfn;
      pages := WriteEntry(pages, t, PathOf(va)[3], EMPTY);
      assert (pfn * Pmm.PAGE_SIZE) % Pmm.PAGE_SIZE == 0 && (pfn * Pmm.PAGE_SIZE) / Pmm.PAGE_SIZE == pfn;
      pmm.FreePage(pfn * Pmm.PAGE_SIZE);
      assert State() == Clear(m, t, PathOf(va)[3]);
    }

    /** Removes exactly the pages the loop visits from this address space. The loop ends only if its
        64-bit counter does not wrap before `end`. */
    method UnmapRange(a: nat, start: nat, end: nat)
      requires Valid() && a in roots && (start < end ==> PageAt(start, (end - start + 4095) / 4096) < WORD)
      modifies this`pages, pmm
      ensures Valid()
      ensures RangeGone(old(State()), State(), a, start, if start < end then (end - start + 4095) / 4096 else 0)
    {
      hide Inv, OnlyView, ViewAt, RangeGone, PathOf, Pmm.Sound, Pmm.ExactFor;
      ghost var n := 0;
      var va := start;
      RangeGoneNone(State(), a, start);
      while va < end
        invariant Valid() && a in roots
        invariant va == PageAt(start, n) && (n == 0 || va - 4096 < end)
        invariant RangeGone(old(State()), State(), a, start, n)
        decreases end - va
      {
        ghost var m := State();
        UnmapPage(a, va);
        RangeGoneStep(old(State()), m, State(), a, start, n);
        va := va + 4096;
        n := n + 1;
      }
    }

    /** Moves one mapped page to a free address of the same space; false only when the target is
        mapped or a table cannot be had, and then nothing observable changed. */
    method MovePage(a: nat, oldVa: nat, newVa: nat) returns (ok: bool)
      requires Valid() && a in roots
      modifies this, pmm
      ensures Valid() && roots == old(roots) && ext == old(ext)
      ensures !ok ==>
                Grown(old(State()), State()) &&
                (OutOfPages(pmm.free) || Translate(old(State()), a, PathOf(newVa)).valid)
      ensures ok ==> if Translate(old(State()), a, PathOf(oldVa)).valid
                     then Moved(old(State()), State(), a, PathOf(oldVa), PathOf(newVa))
                     else State() == old(State())
      ensures ok ==>
                !Translate(old(State()), a, PathOf(oldVa)).valid || !Translate(old(State()), a, PathOf(newVa)).valid
    {
      hide Inv, PathOf, Translate, LeafTable, LeafFor, Grown, Moved;
      ghost var m := State();
      ReadLeaf(m, a, oldVa);
      var t := LeafFor(pages, roots[a], oldVa);
      if t == 0 || !pages[t].entries[PathOf(oldVa)[3]].valid {
        return true;
      }
      var t2 := EnsureLeafTable(a, newVa);
      ghost var m1 := State();
      GrownFacts(m, m1, a, PathOf(oldVa));
      GrownFacts(m, m1, a, PathOf(newVa));
      if t2 == 0 {
        return false;
      }
      ReadLeaf(m1, a, newVa);
      LeafTableIs(m1, a, newVa);
      if pages[t2].entries[PathOf(newVa)[3]].valid {
        return false;
      }
      GrownKeepsLeafTable(m, m1, a, oldVa);
      MoveMoves(m1, a, PathOf(oldVa), PathOf(newVa));
      GrownThenMoved(m, m1, Move(m1, t, PathOf(oldVa)[3], t2, PathOf(newVa)[3]), a, PathOf(oldVa), PathOf(newVa));
      pages := WriteEntry(pages, t2, PathOf(newVa)[3], pages[t].entries[PathOf(oldVa)[3]]);
      pages := WriteEntry(pages, t, PathOf(oldVa)[3], EMPTY);
      assert State() == Move(m1, t, PathOf(oldVa)[3], t2, PathOf(newVa)[3]);
      return true;
    }

    /** Duplicates one table into the empty table `dst`, and recursively what is below it. */
    method CloneTable(src: nat, dst: nat, level: nat) returns (ok: bool)
      requires Valid() && Settled(State()) && CloneInv(State(), State(), src, dst, 0)
      requires dst in own && own[dst].level == level
      modifies this, pmm
      ensures Valid() && Settled(State()) && Similar(old(State()), State(), dst)
      ensures ok ==> Cloned(old(State()), State(), src, dst, level, ENTRIES)
      ensures !ok ==> OutOfPages(pmm.free) || Saturated(pmm.refs)
      ensures roots == old(roots) && ext == old(ext)
      decreases 4 - level
    {
      hide Inv, Similar, Cloned, CloneInv, Settled, Pmm.Sound, Pmm.ExactFor;
      ghost var m0 := State();
      var i := 0;
      while i < ENTRIES
        invariant 0 <= i <= ENTRIES && Valid() && Settled(State())
        invariant CloneInv(m0, State(), src, dst, i)
        invariant roots == old(roots) && ext == old(ext)
      {
        ghost var m := State();
        CloneEntry(m0, m, src, dst, i);
        var entry := pages[src].entries[i];
        if !entry.valid {
          SkipStep(m0, m, src, dst, i);
          i := i + 1;
          continue;
        }
        if level == 3 || !entry.table {
          var done := CloneLeafEntry(m0, src, dst, i);
          if !done {
            return false;
          }
          i := i + 1;
          continue;
        }
        var c := pmm.AllocPage();
        if c == 0 {
          assert State() == m;
          return false;
        }
        CloneInto(m0, m, src, dst, i, c);
        pages := WriteEntry(pages[c := ZeroTable()], dst, i, TablePte(c));
        own := own[c := Owner(own[dst].level + 1, Slot(dst, i), 0)];
        assert State() == Attach(m, dst, i, c);
        var below := CloneTable(entry.pfn, c, level + 1);
        if !below {
          CloneStopped(m0, m, src, dst, i, c, State());
          return false;
        }
        TableStep(m0, m, src, dst, i, c, State());
        i := i + 1;
      }
      CloneDone(m0, State(), src, dst);
      return true;
    }

    /** The leaf case of the clone loop; false only when the page's count is saturated. */
    method CloneLeafEntry(ghost m0: Mem, src: nat, dst: nat, i: nat) returns (ok: bool)
      requires Valid() && Settled(State()) && Inv(m0) && CloneInv(m0, State(), src, dst, i) && i < ENTRIES
      requires src in own && own[src].level == 3
      requires src < |pages| && pages[src].Table? && |pages[src].entries| == ENTRIES && pages[src].entries[i].valid
      modifies this`pages, pmm
      ensures Valid() && Settled(State())
      ensures ok ==> CloneInv(m0, State(), src, dst, i + 1)
      ensures !ok ==> State() == old(State()) && Saturated(pmm.refs)
    {
      hide Inv, CloneInv, Settled, Pmm.Sound, Pmm.ExactFor;
      ghost var m := State();
      CloneEntry(m0, m, src, dst, i);
      var entry := pages[src].entries[i];
      assert (entry.pfn * Pmm.PAGE_SIZE) % Pmm.PAGE_SIZE == 0 &&
             (entry.pfn * Pmm.PAGE_SIZE) / Pmm.PAGE_SIZE == entry.pfn;
      ok := pmm.SharePage(entry.pfn * Pmm.PAGE_SIZE);
      if !ok {
        SaturatedAt(pmm.refs, entry.pfn);
        return;
      }
      LeafStep(m0, m, src, dst, i);
      ClonedSettled(m, src, i, dst);
      CloneLeafInv(m0, CloneLeaf(m, src, i, dst), src, dst, i + 1);
      if entry.ap.UserRw? || entry.cow {
        entry := entry.(ap := UserRo, cow := true);
        pages := WriteEntry(pages, src, i, entry);
      }
      assert pages[src].entries == m.pages[src].entries[i := entry];
      assert pages == WriteEntry(m.pages, src, i, entry);
      pages := WriteEntry(pages, dst, i, entry);
      assert State() == CloneLeaf(m, src, i, dst);
    }

    /** Fork. On success the child observes exactly what the parent does; in every case no
        existing address space observes a change. */
    method CloneCow(a: nat, child: nat) returns (ok: bool)
      requires Valid() && Settled(State()) && a in roots && child !in roots
      modifies this, pmm
      ensures Valid() && Settled(State()) && ext == old(ext)
      ensures OthersKept(old(State()), State())
      ensures !ok ==> OutOfPages(pmm.free) || Saturated(pmm.refs)
      ensures forall b :: b in old(roots) ==> b in roots && roots[b] == old(roots)[b]
      ensures ok ==>
                child in roots && roots == old(roots)[child := roots[child]] && Forked(old(State()), State(), a, child)
    {
      hide Inv, Similar, Cloned, CloneInv, Settled, ViewAt, Pmm.Sound, Pmm.ExactFor;
      ghost var m := State();
      var c := pmm.AllocPage();
      if c == 0 {
        assert State() == m;
        return false;
      }
      NewRootReady(m, a, child, c);
      pages := pages[c := ZeroTable()];
      roots := roots[child := c];
      own := own[c := Owner(0, Root(child), 0)];
      assert State() == NewRoot(m, child, c);
      ok := CloneTable(roots[a], c, 0);
      CloneViews(m, a, child, c, State());
    }

    /** Frees a detached table, everything below it, and the references its leaves hold. */
    method DestroyTable(t: nat, level: nat)
      requires Valid() && t in own && own[t] == Owner(level, Detached, 0)
      modifies pmm, this`own
      ensures Valid() && t !in own && Shrunk(old(own), own, level)
      decreases 4 - level
    {
      hide Inv, Shrunk, Pmm.Sound, Pmm.ExactFor;
      ghost var own0 := own;
      ShrunkStart(own0, t, level);
      IsTable(State(), t);
      var i := 0;
      while i < ENTRIES
        invariant 0 <= i <= ENTRIES && Valid()
        invariant t in own && own[t] == Owner(level, Detached, i)
        invariant Shrunk(own0[t := Owner(level, Detached, i)], own, level + 1)
      {
        ghost var m := State();
        PassFacts(m, t);
        var entry := pages[t].entries[i];
        if !entry.valid {
          PassEmptyKeepsInv(m, t);
          own := Advance(own, t);
          assert State() == PassEmpty(m, t);
          ShrunkAdvance(own0, m.own, t, level, i);
        } else if level == 3 || !entry.table {
          PassLeafKeepsInv(m, t);
          assert (entry.pfn * Pmm.PAGE_SIZE) % Pmm.PAGE_SIZE == 0 &&
                 (entry.pfn * Pmm.PAGE_SIZE) / Pmm.PAGE_SIZE == entry.pfn;
          pmm.FreePage(entry.pfn * Pmm.PAGE_SIZE);
          own := Advance(own, t);
          assert State() == PassLeaf(m, t, entry.pfn);
          ShrunkAdvance(own0, m.own, t, level, i);
        } else {
          PassTableKeepsInv(m, t);
          own := Advance(own, t)[entry.pfn := own[entry.pfn].(parent := Detached)];
          assert State() == PassTable(m, t, entry.pfn);
          DestroyTable(entry.pfn, level + 1);
          ShrunkBelow(own0, m.own, own, t, level, i, entry.pfn);
        }
        i := i + 1;
      }
      ghost var m := State();
      DropTableKeepsInv(m, t);
      IsTable(m, t);
      assert (t * Pmm.PAGE_SIZE) % Pmm.PAGE_SIZE == 0 && (t * Pmm.PAGE_SIZE) / Pmm.PAGE_SIZE == t;
      pmm.FreePage(t * Pmm.PAGE_SIZE);
      own := own - {t};
      assert State() == DropTable(m, t);
      ShrunkDrop(own0, m.own, t, level);
    }

    /** Destroys an address space; every other one observes no change. */
    method Destroy(a: nat)
      requires Valid() && Settled(State()) && a in roots
      modifies this, pmm
      ensures Valid() && Settled(State()) && roots == old(roots) - {a} && ext == old(ext) && pages == old(pages)
    {
      hide Inv, Shrunk, Settled, Pmm.Sound, Pmm.ExactFor;
      ghost var m := State();
      RootIsTable(m, a);
      DetachRootKeepsInv(m, a);
      var root := roots[a];
      roots := roots - {a};
      own := own[root := own[root].(parent := Detached)];
      assert State() == DetachRoot(m, a);
      ghost var own1 := own;
      DestroyTable(root, 0);
      ShrunkSettled(m, State(), root, own1);
    }

    /** `vmm_user_range_accessible` for one page after another: true exactly when every page the
        range touches allows the access. */
    method RangeAccessible(a: nat, va: nat, len: nat, access: Access) returns (ok: bool)
      requires Valid() && a in roots && va < WORD && len < WORD
      ensures ok <==> len == 0 || (va + len - 1 < WORD
                       && forall k: nat :: k <= LastPage(va, len) ==>
                           AccessAt(State(), a, PageAt(Aligned(va), k), access))
    {
      hide Inv, PathOf, Translate, AccessAt, UserToPhys;
      if len == 0 {
        return true;
      }
      if va + len - 1 >= WORD {
        return false;
      }
      var page := Aligned(va);
      var last := Aligned(va + len - 1);
      ghost var n := 0;
      while true
        invariant page == PageAt(Aligned(va), n) && n <= LastPage(va, len) && page <= last
        invariant forall k: nat :: k < n ==> AccessAt(State(), a, PageAt(Aligned(va), k), access)
        decreases last - page
      {
        PhysMeans(State(), a, page, access);
        if UserToPhys(pages, roots[a], page, access) == 0 {
          return false;
        }
        if page == last {
          return true;
        }
        page := page + 4096;
        n := n + 1;
      }
    }

    /** The first pass of `vmm_copy_to_user`: makes every page of the range writable, or stops at
        one that cannot be; no view changes either way. */
    method PrepareWrite(a: nat, dst: nat, len: nat) returns (ok: bool)
      requires Valid() && a in roots && 0 < len && dst + len - 1 < WORD
      modifies this, pmm
      ensures Valid() && roots == old(roots) && ext == old(ext) && SameViews(old(State()), State())
      ensures Settled(old(State())) ==> Settled(State())
      ensures ok ==> forall k: nat :: k <= LastPage(dst, len) ==> AccessAt(State(), a, PageAt(Aligned(dst), k), Write)
      ensures !ok ==> (|| (exists k: nat ::
                k <= LastPage(dst, len) && !MayWrite(old(State()), a, PageAt(Aligned(dst), k)))
                       || (forall p :: p in pmm.free ==> p < Pmm.FIRST_PAGE))
    {
      hide Inv, PathOf, Translate, AccessAt, UserToPhys, SameViews, Faulted, MayWrite, Settled, Pmm.Sound,
           Pmm.ExactFor;
      var page := Aligned(dst);
      var last := Aligned(dst + len - 1);
      ghost var n := 0;
      SameViewsRefl(State());
      while true
        invariant Valid() && roots == old(roots) && ext == old(ext) && SameViews(old(State()), State())
        invariant Settled(old(State())) ==> Settled(State())
        invariant page == PageAt(Aligned(dst), n) && n <= LastPage(dst, len) && page <= last
        invariant forall k: nat :: k < n ==> AccessAt(State(), a, PageAt(Aligned(dst), k), Write)
        decreases last - page
      {
        ghost var m := State();
        PhysMeans(m, a, page, Write);
        if UserToPhys(pages, roots[a], page, Write) == 0 {
          MayWriteMeans(m, a, page);
          SameViewsMayWrite(old(State()), m, a, page);
          NotWritable(m, a, page);
          var fixed := HandleCowFault(a, page);
          if !fixed {
            return false;
          }
          FaultedFacts(m, State(), a, page);
          SameViewsTransitive(old(State()), m, State());
          forall k: nat | k <= n
            ensures AccessAt(State(), a, PageAt(Aligned(dst), k), Write)
          {
            FaultKeepsAccess(m, State(), a, page, PageAt(Aligned(dst), k));
          }
        }
        if page == last {
          return true;
        }
        page := page + 4096;
        n := n + 1;
      }
    }

    /** Atomic on private pages: false before any user byte is written, true once exactly the
        bytes `[dst, dst + |src|)` of this address space are the source's. */
    method CopyToUser(a: nat, dst: nat, src: seq<byte>) returns (ok: bool)
      requires Valid() && a in roots && dst < WORD && |src| < WORD
      modifies this, pmm
      ensures Valid() && roots == old(roots) && ext == old(ext)
      ensures Settled(old(State())) ==> Settled(State())
      ensures SameRights(old(State()), State())
      ensures !ok ==> SameViews(old(State()), State())
      ensures ok && dst + |src| <= USER_TOP ==> Written(old(State()), State(), a, dst, src)
      ensures ok && src != [] ==> forall k: nat :: k <= LastPage(dst, |src|) ==>
              AccessAt(State(), a, PageAt(Aligned(dst), k), Write)
      ensures !ok ==> src != []
      ensures !ok ==> (|| dst + |src| - 1 >= WORD
                       || (forall p :: p in pmm.free ==> p < Pmm.FIRST_PAGE)
                       || (exists k: nat ::
                         k <= LastPage(dst, |src|) && !MayWrite(old(State()), a, PageAt(Aligned(dst), k))))
    {
      hide Inv, PathOf, Translate, AccessAt, UserToPhys, SameViews, SameRights, Written, MayWrite, Settled,
           SameTranslations, Pmm.Sound, Pmm.ExactFor;
      ghost var m0 := State();
      if |src| == 0 {
        SameViewsRefl(m0);
        SameViewsBytes(m0, m0, a, dst);
        assert src == [];
        return true;
      }
      if dst + |src| - 1 >= WORD {
        SameViewsRefl(m0);
        SameViewsBytes(m0, m0, a, dst);
        return false;
      }
      ok := PrepareWrite(a, dst, |src|);
      ghost var m1 := State();
      SameViewsBytes(m0, m1, a, dst);
      if !ok {
        return;
      }
      SameTranslationsRefl(m1);
      assert src[..0] == [];
      var done := 0;
      while done < |src|
        invariant 0 <= done <= |src| && Valid() && roots == old(roots) && ext == old(ext)
        invariant SameTranslations(m1, State()) && SameRights(m0, State()) && own == m1.own
        invariant dst + |src| <= USER_TOP ==> Written(m0, State(), a, dst, src[..done])
      {
        ghost var m := State();
        var va := dst + done;
        var off := va % 4096;
        var chunk := if 4096 - off > |src| - done then |src| - done else 4096 - off;
        ChunkAccess(m1, m, a, dst, |src|, va);
        PhysMeans(m, a, va, Write);
        // the first pass left every page writable, so this lookup does not fail
        var pa := UserToPhys(pages, roots[a], va, Write);
        StoreChunk(m, a, va, src[done..done + chunk]);
        var d := pa / 4096;
        pages := pages[d := Data(Splice(pages[d].bytes, off, src[done..done + chunk]))];
        assert State() == Store(m, d, Splice(m.pages[d].bytes, off, src[done..done + chunk]));
        SameTranslationsTransitive(m1, m, State());
        SameRightsTransitive(m0, m, State());
        if dst + |src| <= USER_TOP {
          WrittenJoin(m0, m, State(), a, dst, src[..done], src[done..done + chunk]);
          assert src[..done] + src[done..done + chunk] == src[..done + chunk];
        }
        done := done + chunk;
      }
      assert src[..done] == src;
      AccessKept(m1, State(), a, dst, |src|);
      SettledBy(m1, State());
    }

    /** Reads a user range: succeeds exactly when every page it touches is mapped, and then
        returns exactly the bytes the address space holds there. */
    method CopyFromUser(a: nat, src: nat, len: nat) returns (ok: bool, out: seq<byte>)
      requires Valid() && a in roots && src < WORD && len < WORD
      ensures ok <==> len == 0 || (src + len - 1 < WORD
                       && forall k: nat :: k <= LastPage(src, len) ==>
                           AccessAt(State(), a, PageAt(Aligned(src), k), Read))
      ensures ok ==> |out| == len && forall x: nat :: src <= x < src + len ==>
              ByteAt(State(), a, x) == Byte(out[x - src])
    {
      hide Inv, PathOf, Translate, AccessAt, UserToPhys, ByteAt;
      out := [];
      ok := RangeAccessible(a, src, len, Read);
      if len == 0 || !ok {
        return;
      }
      SameTranslationsRefl(State());
      while |out| < len
        invariant |out| <= len
        invariant forall x: nat :: src <= x < src + |out| ==> ByteAt(State(), a, x) == Byte(out[x - src])
        decreases len - |out|
      {
        var done := |out|;
        var va := src + done;
        var off := va % 4096;
        var chunk := if 4096 - off > len - done then len - done else 4096 - off;
        PageReadable(State(), a, src, len, va);
        PhysMeans(State(), a, va, Read);
        var pa := UserToPhys(pages, roots[a], va, Read);
        ReadBytes(State(), a, va, chunk);
        out := out + pages[pa / 4096].bytes[off..off + chunk];
      }
    }
  }

  /** With every address space destroyed, the free pages are exactly the managed ones that no
      owner outside the tables holds: whatever ran in between, nothing is lost or freed twice. */
  lemma FreeMemoryRestored(v: AddressSpaces)
    requires v.Valid() && Settled(v.State()) && v.roots == map[]
    ensures v.pmm.free == set p | 0 <= p < |v.ext| && p in v.managed && v.ext[p] == 0
  {
    NothingLeft(v.State());
    Pmm.FreeInRange(v.pmm.bitmap, v.pmm.refs, v.pmm.freeCount, v.pmm.free);
  }

  /** No mapped page and no page holding a table is ever free. */
  lemma InUseIsNotFree(v: AddressSpaces, a: nat, path: seq<nat>)
    requires v.Valid() && ValidPath(path) && Translate(v.State(), a, path).valid
    ensures Translate(v.State(), a, path).pfn !in v.pmm.free
    ensures forall t :: t in v.own ==> t !in v.pmm.free
  {
    InUseIsReferenced(v.State(), a, path);
    forall t | t in v.own
      ensures t !in v.pmm.free
    {
      IsTable(v.State(), t);
      assert Counted(v.State(), t);
    }
  }
}
