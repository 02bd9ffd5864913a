/** Addresses, descriptors and the step relations that specify the address-space manager. */
module VmmSteps {
  import opened Bytes
  import opened PageTables
  import opened Views
  import opened Cloning

  // ---------------------------------------------------------------- addresses

  /** `pt_index` at the four levels. */
  function PathOf(va: nat): (path: seq<nat>)
    ensures ValidPath(path)
  {
    [(va / 0x80_0000_0000) % 512, (va / 0x4000_0000) % 512, (va / 0x20_0000) % 512, (va / 0x1000) % 512]
  }

  /** The four base-512 digits of a page number. */
  function DigitsOf(page: nat): seq<nat> {
    [page / 512 / 512 / 512 % 512, page / 512 / 512 % 512, page / 512 % 512, page % 512]
  }

  lemma PathOfPage(va: nat)
    ensures PathOf(va) == DigitsOf(va / 0x1000)
  {
    var p3 := va / 0x1000;
    assert va / 0x20_0000 == p3 / 512;
    assert va / 0x4000_0000 == p3 / 512 / 512;
    assert va / 0x80_0000_0000 == p3 / 512 / 512 / 512;
  }

  /** A page number below 2^36 is spelt by its digits. */
  lemma Digits(page: nat)
    requires page < 0x10_0000_0000
    ensures var d := DigitsOf(page); page == ((d[0] * 512 + d[1]) * 512 + d[2]) * 512 + d[3]
  {
    var p2 := page / 512;
    var p1 := p2 / 512;
    assert p1 / 512 < 512;
  }

  /** Two 48-bit addresses have the same indices exactly when they lie in the same page. */
  lemma SamePage(va: nat, vb: nat)
    requires va < 0x1_0000_0000_0000 && vb < 0x1_0000_0000_0000
    ensures PathOf(va) == PathOf(vb) <==> va / 0x1000 == vb / 0x1000
  {
    hide PathOf, DigitsOf;
    PathOfPage(va);
    PathOfPage(vb);
    Digits(va / 0x1000);
    Digits(vb / 0x1000);
  }

  /** `leaf_for_va`: the leaf table of an address, read level by level; 0 for NULL. */
  function LeafFor(pages: seq<Page>, root: nat, va: nat): nat {
    var l1 := Child(pages, root, PathOf(va)[0]);
    if l1 == 0 then 0 else
    var l2 := Child(pages, l1, PathOf(va)[1]);
    if l2 == 0 then 0 else
    Child(pages, l2, PathOf(va)[2])
  }

  lemma LeafForDescends(pages: seq<Page>, root: nat, va: nat)
    requires root != 0
    ensures LeafFor(pages, root, va) == Descend(pages, root, PathOf(va)[..3])
  {
    var q := PathOf(va)[..3];
    assert q[..2][..1][..0] == [];
    assert q[..2][..1] == q[..1];
    assert Descend(pages, root, q[..1]) == Child(pages, root, q[0]);
    assert Descend(pages, root, q[..2]) == if Child(pages, root, q[0]) == 0 then 0
           else Child(pages, Child(pages, root, q[0]), q[1]);
  }

  datatype Access = Read | Write | Exec

  function Allows(e: Pte, access: Access): bool {
    match access
    case Read => true
    case Write => e.ap.UserRw?
    case Exec => !e.uxn
  }

  function LeafPte(pfn: nat, write: bool, exec: bool): Pte {
    Pte(true, true, pfn, if write then UserRw else UserRo, !exec, false)
  }

  function CowPte(pfn: nat, exec: bool): Pte {
    Pte(true, true, pfn, UserRo, !exec, true)
  }

  /** Only empty tables were added: nothing that existed changed, and no translation did. */
  ghost predicate Grown(m: Mem, m': Mem) {
    && |m.refs| == |m.pages| && |m'.refs| == |m'.pages|
    && |m'.pages| == |m.pages| && m'.roots == m.roots && m'.ext == m.ext
    && (forall u :: u in m.own ==> u in m'.own && m'.own[u] == m.own[u])
    && (forall p :: 0 <= p < |m.pages| && 0 < m.refs[p] && p !in m.own ==>
          p !in m'.own && m'.pages[p] == m.pages[p] && m'.refs[p] == m.refs[p])
    && SameTranslations(m, m')
    && (Settled(m) ==> Settled(m'))
  }

  /** No table is being destroyed. */
  ghost predicate Settled(m: Mem) {
    forall t :: t in m.own ==> !m.own[t].parent.Detached?
  }

  lemma GrownTransitive(m: Mem, m1: Mem, m2: Mem)
    requires Grown(m, m1) && Grown(m1, m2)
    ensures Grown(m, m2)
  {
  }

  lemma GrownRefl(m: Mem)
    requires Inv(m)
    ensures Grown(m, m)
  {
  }

  /** An owned page can be read as a table. */
  lemma IsTable(m: Mem, t: nat)
    requires Inv(m) && t in m.own
    ensures |m.refs| == |m.pages| && 0 < t < |m.pages| && m.pages[t].Table? && |m.pages[t].entries| == ENTRIES
  {
  }

  lemma AttachGrows(m: Mem, t: nat, i: nat, c: nat)
    requires Inv(m) && t in m.own && m.own[t].level < 3 && m.own[t].from == 0 && i < ENTRIES
    requires !m.pages[t].entries[i].valid && 0 < c < |m.refs| && m.refs[c] == 0
    ensures c !in m.own && Inv(Attach(m, t, i, c)) && Grown(m, Attach(m, t, i, c))
    ensures Child(Attach(m, t, i, c).pages, t, i) == c
    ensures c != t
  {
    AttachKeepsInv(m, t, i, c);
    AttachTranslates(m, t, i, c);
  }

  lemma GrownViews(m: Mem, m': Mem)
    requires Inv(m) && Inv(m') && Grown(m, m')
    ensures SameViews(m, m')
  {
    forall t: nat, i: nat | Live(m, t, i) && m.own[t].level == 3
      ensures m'.pages[m.pages[t].entries[i].pfn] == m.pages[m.pages[t].entries[i].pfn]
    {
      var d := m.pages[t].entries[i].pfn;
      assert LeafOk(m, m.pages[t].entries[i]) && Counted(m, d) && LeafAt(m, t, i, d);
      assert (t, i) in LeafRefs(m, d);
    }
    TranslationsGiveViews(m, m');
  }

  /** Pages somebody holds keep their contents. */
  ghost predicate DataKept(m: Mem, m': Mem) {
    && |m.refs| == |m.pages| && |m'.pages| == |m.pages|
    && forall p :: 0 <= p < |m.pages| && 0 < m.refs[p] && p !in m.own ==> m'.pages[p] == m.pages[p]
  }

  /** Every other page of every address space translates as before. */
  ghost predicate OthersTranslate(m: Mem, m': Mem, a: nat, path: seq<nat>) {
    forall b: nat, other :: ValidPath(other) && (b, other) != (a, path) ==>
      Translate(m', b, other) == Translate(m, b, other)
  }

  lemma OthersRefl(m: Mem, a: nat, path: seq<nat>)
    ensures OthersTranslate(m, m, a, path)
  {
  }

  lemma OthersThen(m: Mem, m1: Mem, m2: Mem, a: nat, path: seq<nat>)
    requires SameTranslations(m, m1) && ValidPath(path)
    ensures forall e :: Remapped(m1, m2, a, path, e) ==> OthersTranslate(m, m2, a, path)
    ensures Grown(m1, m2) || SameTranslations(m1, m2) ==> OthersTranslate(m, m2, a, path) && SameTranslations(m, m2)
  {
    hide Translate, Settled, OnlyView, DataKept;
  }

  /** Pages held outside the tables keep their contents, and their holders their references. */
  ghost predicate HoldersKept(m: Mem, m': Mem) {
    && |m.ext| == |m.pages| && |m'.pages| == |m.pages| && |m'.ext| == |m.pages|
    && forall p :: 0 <= p < |m.pages| && 0 < m.ext[p] ==> m.ext[p] <= m'.ext[p] && m'.pages[p] == m.pages[p]
  }

  lemma HoldersTransitive(m: Mem, m1: Mem, m2: Mem)
    requires HoldersKept(m, m1) && HoldersKept(m1, m2)
    ensures HoldersKept(m, m2)
  {
  }

  lemma HoldersRefl(m: Mem)
    requires Inv(m)
    ensures HoldersKept(m, m)
  {
    hide Links, Parents, Leaves, Counts;
  }

  lemma FreshExt(m: Mem, c: nat)
    requires Inv(m) && c < |m.refs| && m.refs[c] == 0
    ensures |m.ext| == |m.refs| && m.ext[c] == 0
  {
    assert Counted(m, c);
  }

  /** Giving back the reference that was taken leaves the holders with theirs. */
  lemma GivenBack(m: Mem, m1: Mem, m2: Mem, d: nat)
    requires HoldersKept(m, m1) && d < |m.ext| && m.ext[d] < m1.ext[d]
    requires m2.pages == m1.pages && m2.ext == m1.ext[d := m1.ext[d] - 1]
    ensures HoldersKept(m, m2)
  {
  }

  lemma HeldIsNoTable(m: Mem, p: nat)
    requires Inv(m) && p < |m.ext| && 0 < m.ext[p]
    ensures |m.ext| == |m.refs| == |m.pages| && p !in m.own && m.ext[p] <= m.refs[p] <= REF_LIMIT
  {
    assert Counted(m, p);
  }

  lemma DataKeptHolders(m: Mem, m': Mem)
    requires Inv(m) && Inv(m') && DataKept(m, m')
    requires forall p :: 0 <= p < |m.ext| && 0 < m.ext[p] && p < |m'.ext| ==> m.ext[p] <= m'.ext[p]
    ensures HoldersKept(m, m')
  {
    hide Links, Parents, Leaves, Counts;
    forall p | 0 <= p < |m.pages| && 0 < m.ext[p]
      ensures m'.pages[p] == m.pages[p]
    {
      HeldIsNoTable(m, p);
    }
  }

  lemma GrownHolders(m: Mem, m': Mem)
    requires Inv(m) && Inv(m') && Grown(m, m')
    ensures HoldersKept(m, m')
  {
    hide Links, Parents, Leaves, Counts, SameTranslations;
    forall p | 0 <= p < |m.pages| && 0 < m.ext[p]
      ensures m'.pages[p] == m.pages[p]
    {
      HeldIsNoTable(m, p);
    }
  }

  /** Mapping a page the caller holds takes at most the caller's reference. */
  lemma RemappedHolders(m: Mem, m1: Mem, m2: Mem, a: nat, path: seq<nat>, e: Pte)
    requires ValidPath(path) && Inv(m1) && Inv(m2) && Remapped(m1, m2, a, path, e) && HoldersKept(m, m1)
    requires e.pfn < |m.ext| && m.ext[e.pfn] < m1.ext[e.pfn]
    requires var o := Translate(m1, a, path);
             && (o.valid ==> o.pfn < |m1.ext|)
             && m2.ext == if o.valid then Inc(Dec(m1.ext, e.pfn), o.pfn) else Dec(m1.ext, e.pfn)
    ensures HoldersKept(m, m2)
  {
    hide Links, Parents, Leaves, Counts, OnlyTranslation, OnlyView, Translate;
    forall p | 0 <= p < |m.pages| && 0 < m.ext[p]
      ensures m.ext[p] <= m2.ext[p] && m2.pages[p] == m.pages[p]
    {
      HeldIsNoTable(m1, p);
    }
  }

  /** Another reference for a holder outside the tables, or one less: nobody sees it. */
  lemma HolderSteps(m: Mem, d: nat)
    requires Inv(m) && d < |m.ext| && 0 < m.ext[d]
    ensures |m.ext| == |m.refs| == |m.pages| && d !in m.own && 0 < m.refs[d] <= REF_LIMIT
    ensures m.refs[d] < REF_LIMIT ==>
              var n := Outside(m, d, m.pages[d], m.refs[d] + 1, m.ext[d] + 1);
              Inv(n) && SameViews(m, n) && SameTranslations(m, n) && HoldersKept(m, n) && (Settled(m) ==> Settled(n))
    ensures var n := Outside(m, d, m.pages[d], m.refs[d] - 1, m.ext[d] - 1);
            Inv(n) && SameViews(m, n) && SameTranslations(m, n) && (Settled(m) ==> Settled(n)) && n.pages == m.pages
  {
    hide Links, Parents, Leaves, Counts;
    HeldIsNoTable(m, d);
    if m.refs[d] < REF_LIMIT { OutsideKeepsInv(m, d, m.pages[d], m.refs[d] + 1, m.ext[d] + 1); }
    OutsideKeepsInv(m, d, m.pages[d], m.refs[d] - 1, m.ext[d] - 1);
    assert m.pages[d := m.pages[d]] == m.pages;
  }

  /** A page some holder outside has a reference to can be mapped read-only, for copying or not. */
  lemma HeldMappable(m: Mem, d: nat, cow: bool, exec: bool)
    requires Inv(m) && 0 < d < |m.ext| && 0 < m.ext[d] && d < |m.pages| && m.pages[d].Data?
    ensures Mappable(m, if cow then CowPte(d, exec) else LeafPte(d, false, exec))
  {
    hide Links, Parents, Leaves, Counts;
    HeldIsNoTable(m, d);
  }

  lemma DataKeptViews(m: Mem, m': Mem)
    requires Inv(m) && DataKept(m, m')
    ensures ContentsKept(m, m')
  {
    forall t: nat, i: nat | Live(m, t, i) && m.own[t].level == 3
      ensures m'.pages[m.pages[t].entries[i].pfn] == m.pages[m.pages[t].entries[i].pfn]
    {
      var d := m.pages[t].entries[i].pfn;
      assert LeafOk(m, m.pages[t].entries[i]) && Counted(m, d) && LeafAt(m, t, i, d);
      assert (t, i) in LeafRefs(m, d);
    }
  }

  /** Exactly one page of one address space changed, both in the tables and as observed. */
  ghost predicate Remapped(m: Mem, m': Mem, a: nat, path: seq<nat>, e: Pte)
    requires ValidPath(path)
  {
    && OnlyTranslation(m, m', a, path, e)
    && OnlyView(m, m', a, path, ViewOf(m.pages, e))
    && DataKept(m, m') && m'.roots == m.roots
  }

  /** Rewriting a reached leaf descriptor, with the contents of held pages kept. */
  lemma RemapLeaf(m: Mem, m': Mem, a: nat, path: seq<nat>, e: Pte)
    requires Inv(m) && Inv(m') && ValidPath(path) && a in m.roots && LeafTable(m, a, path) != 0
    requires OneLeafChanged(m, m', LeafTable(m, a, path), path[3]) && DataKept(m, m')
    requires Norm(m'.pages[LeafTable(m, a, path)].entries[path[3]]) == e
    requires e.valid ==> e.pfn < |m.pages| && m'.pages[e.pfn] == m.pages[e.pfn]
    ensures Remapped(m, m', a, path, e)
  {
    hide Counted, LeafOk, Links, Leaves, ParentOk;
    DataKeptViews(m, m');
    LeafChangeIsLocal(m, m', a, path);
    LeafChangeViews(m, m', a, path);
  }

  lemma GrownThenRemapped(m: Mem, m1: Mem, m2: Mem, a: nat, path: seq<nat>, e: Pte)
    requires Inv(m) && Inv(m1) && Grown(m, m1) && ValidPath(path) && Remapped(m1, m2, a, path, e)
    requires e.valid ==> e.pfn < |m.pages| && m1.pages[e.pfn] == m.pages[e.pfn]
    ensures Remapped(m, m2, a, path, e)
  {
    hide Inv, Translate;
    GrownViews(m, m1);
  }

  ghost predicate Mappable(m: Mem, e: Pte)
    requires Inv(m)
  {
    e.valid && LeafOk(m, e) && 0 < m.ext[e.pfn]
  }

  lemma InstallRemaps(m: Mem, a: nat, path: seq<nat>, e: Pte)
    requires Inv(m) && ValidPath(path) && a in m.roots && LeafTable(m, a, path) != 0 && Mappable(m, e)
    ensures var t := LeafTable(m, a, path);
            && t in m.own && t < |m.pages| && m.pages[t].Table? && |m.pages[t].entries| == ENTRIES
            && (m.pages[t].entries[path[3]].valid ==> m.pages[t].entries[path[3]].pfn < |m.ext|)
            && Translate(m, a, path) == Norm(m.pages[t].entries[path[3]])
            && Inv(Install(m, t, path[3], e)) && Remapped(m, Install(m, t, path[3], e), a, path, e)
  {
    var t := LeafTable(m, a, path);
    LeafTableOwned(m, a, path);
    InstallKeepsInv(m, t, path[3], e);
    var m' := Install(m, t, path[3], e);
    assert OneLeafChanged(m, m', t, path[3]);
    RemapLeaf(m, m', a, path, e);
  }

  /** A page that can be mapped before tables are added can still be mapped after. */
  lemma GrownKeepsMappable(m: Mem, m': Mem, e: Pte)
    requires Inv(m) && Inv(m') && Grown(m, m') && Mappable(m, e)
    ensures Mappable(m', e) && e.pfn < |m.pages| == |m'.pages| && m'.pages[e.pfn] == m.pages[e.pfn]
    ensures |m'.ext| == |m'.pages| && 0 < m'.ext[e.pfn] && m.ext == m'.ext
  {
    assert Counted(m, e.pfn);
  }

  /** A page given to an owner outside the tables is seen by nobody. */
  lemma OutsideAlloc(m: Mem, c: nat, data: Page)
    requires Inv(m) && 0 < c < |m.refs| && m.refs[c] == 0 && data.Data? && |data.bytes| == PAGE_BYTES
    ensures |m.pages| == |m.refs| == |m.ext|
    ensures var m' := Outside(m, c, data, 1, 1);
            && Inv(m') && SameViews(m, m') && SameTranslations(m, m') && DataKept(m, m') && HoldersKept(m, m')
            && (Settled(m) ==> Settled(m')) && c !in m.own
  {
    FreshUnused(m, c);
    OutsideKeepsInv(m, c, data, 1, 1);
    var m' := Outside(m, c, data, 1, 1);
    forall b: nat, path | ValidPath(path)
      ensures Translate(m', b, path) == Translate(m, b, path)
    {
      if b in m.roots {
        UpperTablesDecide(m, m'.pages, b, path[..3]);
        if LeafTable(m, b, path) != 0 {
          LeafTableOwned(m, b, path);
        }
      }
    }
    DataKeptViews(m, m');
    TranslationsGiveViews(m, m');
  }

  /** What a copy-on-write fault leaves behind: the page writable, every view as it was. */
  ghost predicate Faulted(m: Mem, m': Mem, a: nat, path: seq<nat>)
    requires ValidPath(path)
  {
    && SameViews(m, m') && m'.roots == m.roots && m'.ext == m.ext && DataKept(m, m')
    && Translate(m', a, path).valid && Translate(m', a, path).ap.UserRw?
    && (forall b: nat, other :: ValidPath(other) && (b, other) != (a, path) ==>
        Translate(m', b, other) == Translate(m, b, other))
    && (Settled(m) ==> Settled(m'))
  }

  lemma FaultedHolders(m: Mem, m': Mem, a: nat, path: seq<nat>)
    requires Inv(m) && Inv(m') && ValidPath(path) && Faulted(m, m', a, path)
    ensures HoldersKept(m, m')
  {
    hide Inv, HoldersKept, SameViews, Translate, Settled;
    DataKeptHolders(m, m');
  }

  lemma ReuseFaults(m: Mem, a: nat, path: seq<nat>)
    requires Inv(m) && ValidPath(path) && Translate(m, a, path).valid && Translate(m, a, path).cow
    requires Translate(m, a, path).pfn < |m.refs| && m.refs[Translate(m, a, path).pfn] == 1
    ensures a in m.roots
    ensures var t := LeafTable(m, a, path);
            && t in m.own && t < |m.pages| && m.pages[t].Table? && |m.pages[t].entries| == ENTRIES
            && Inv(Reuse(m, t, path[3])) && Faulted(m, Reuse(m, t, path[3]), a, path)
  {
    hide Counted, Links, Leaves, ParentOk;
    TranslationIsLeaf(m, a, path);
    LeafTableOwned(m, a, path);
    var t := LeafTable(m, a, path);
    ReuseKeepsInv(m, t, path[3]);
    ReuseViews(m, a, path);
    LeafChangeIsLocal(m, Reuse(m, t, path[3]), a, path);
  }

  lemma CopyFaults(m: Mem, a: nat, path: seq<nat>, c: nat)
    requires Inv(m) && ValidPath(path) && Translate(m, a, path).valid && Translate(m, a, path).cow
    requires 0 < c < |m.refs| && m.refs[c] == 0
    ensures a in m.roots
    ensures var t := LeafTable(m, a, path);
            && t in m.own && t < |m.pages| && m.pages[t].Table? && |m.pages[t].entries| == ENTRIES && c != t
            && |m.refs| == |m.pages|
            && m.pages[t].entries[path[3]].pfn < |m.pages| && m.pages[t].entries[path[3]].pfn != c
            && 0 < m.refs[m.pages[t].entries[path[3]].pfn] && m.pages[t].entries[path[3]].pfn != t
            && Inv(Copy(m, t, path[3], c)) && Faulted(m, Copy(m, t, path[3], c), a, path)
  {
    hide Counted, Links, Leaves, ParentOk;
    TranslationIsLeaf(m, a, path);
    LeafTableOwned(m, a, path);
    var t := LeafTable(m, a, path);
    CopyKeepsInv(m, t, path[3], c);
    CopyViews(m, a, path, c);
    LeafChangeIsLocal(m, Copy(m, t, path[3], c), a, path);
  }

  /** The tables as the walk reads them. */
  lemma ReadLeaf(m: Mem, a: nat, va: nat)
    requires Inv(m) && a in m.roots
    ensures LeafFor(m.pages, m.roots[a], va) == LeafTable(m, a, PathOf(va))
    ensures var t := LeafFor(m.pages, m.roots[a], va);
            if t == 0 then Translate(m, a, PathOf(va)) == EMPTY
            else && t in m.own && t < |m.pages| && m.pages[t].Table? && |m.pages[t].entries| == ENTRIES
                 && Translate(m, a, PathOf(va)) == Norm(m.pages[t].entries[PathOf(va)[3]])
  {
    RootIsTable(m, a);
    LeafForDescends(m.pages, m.roots[a], va);
    if LeafTable(m, a, PathOf(va)) != 0 {
      LeafTableOwned(m, a, PathOf(va));
    }
  }

  lemma CowTarget(m: Mem, a: nat, path: seq<nat>)
    requires Inv(m) && ValidPath(path) && Translate(m, a, path).valid
    ensures 0 < Translate(m, a, path).pfn < |m.refs| == |m.pages| && m.refs[Translate(m, a, path).pfn] != 0
    ensures m.pages[Translate(m, a, path).pfn].Data? && |m.pages[Translate(m, a, path).pfn].bytes| == PAGE_BYTES
  {
    TranslationIsLeaf(m, a, path);
    var d := Translate(m, a, path).pfn;
    assert Counted(m, d);
    assert (LeafTable(m, a, path), path[3]) in LeafRefs(m, d);
  }

  lemma SameViewsRefl(m: Mem)
    ensures SameViews(m, m)
  {
  }

  lemma SameViewsTransitive(m: Mem, m1: Mem, m2: Mem)
    requires SameViews(m, m1) && SameViews(m1, m2)
    ensures SameViews(m, m2)
  {
  }

  lemma FreshMappable(m: Mem, c: nat, data: Page, write: bool, exec: bool)
    requires Inv(m) && 0 < c < |m.refs| && m.refs[c] == 0 && |m.pages| == |m.refs| == |m.ext|
    requires data.Data? && Inv(Outside(m, c, data, 1, 1))
    ensures Mappable(Outside(m, c, data, 1, 1), LeafPte(c, write, exec))
  {
    FreshUnused(m, c);
  }

  lemma ViewsThenRemapped(m: Mem, m1: Mem, m2: Mem, a: nat, path: seq<nat>, e: Pte)
    requires SameViews(m, m1) && ValidPath(path) && Remapped(m1, m2, a, path, e)
    ensures OnlyView(m, m2, a, path, ViewOf(m1.pages, e))
  {
  }

  lemma GrownFacts(m: Mem, m': Mem, a: nat, path: seq<nat>)
    requires Grown(m, m') && ValidPath(path)
    ensures Translate(m', a, path) == Translate(m, a, path) && m'.ext == m.ext && |m'.pages| == |m.pages|
    ensures Settled(m) ==> Settled(m')
  {
  }

  lemma RootIsTable(m: Mem, a: nat)
    requires Inv(m) && a in m.roots
    ensures m.roots[a] in m.own && m.own[m.roots[a]].level == 0 && m.own[m.roots[a]].from == 0 && m.roots[a] != 0
  {
    assert ParentOk(m, m.roots[a]);
  }

  /** Growth never redirects an existing table descriptor. */
  lemma GrownKeepsChild(m: Mem, m': Mem, t: nat, i: nat, c: nat)
    requires Inv(m) && Inv(m') && Grown(m, m')
    requires t in m.own && m.own[t].level < 3 && m.own[t].from == 0 && i < ENTRIES && c != 0 &&
             Child(m.pages, t, i) == c
    ensures t in m'.own && m'.own[t] == m.own[t] && Child(m'.pages, t, i) == c
    ensures c in m'.own && m'.own[c].level == m.own[t].level + 1 && m'.own[c].from == 0
  {
    assert Live(m, t, i);
    assert m'.own[c] == m.own[c];
    assert ParentOk(m', c);
  }

  lemma NoTables(m: Mem)
    requires m.own == map[] && m.roots == map[] && m.ext == m.refs && |m.pages| == |m.refs|
    requires forall p :: 0 <= p < |m.pages| ==> PageOk(m.pages[p]) && m.refs[p] <= REF_LIMIT
    ensures Inv(m)
  {
    assert Shape(m);
    forall p | 0 <= p < |m.refs|
      ensures Counted(m, p)
    {
      assert LeafRefs(m, p) == {};
    }
  }

  lemma ExistingTable(m: Mem, t: nat, i: nat)
    requires Inv(m) && t in m.own && m.own[t].level < 3 && m.own[t].from == 0 && i < ENTRIES &&
             m.pages[t].entries[i].valid
    ensures var c := m.pages[t].entries[i].pfn;
            Child(m.pages, t, i) == c && c in m.own && m.own[c].level == m.own[t].level + 1 && m.own[c].from == 0 &&
                c != 0
            && m.pages[t].entries[i].table
  {
    assert Live(m, t, i);
  }

  // ---------------------------------------------------------------- unmap and move

  lemma ClearRemaps(m: Mem, a: nat, path: seq<nat>)
    requires Inv(m) && ValidPath(path) && Translate(m, a, path).valid
    ensures a in m.roots
    ensures var t := LeafTable(m, a, path);
            && t in m.own && t < |m.pages| && m.pages[t].Table? && |m.pages[t].entries| == ENTRIES
            && m.pages[t].entries[path[3]].pfn < |m.refs| && 0 < m.refs[m.pages[t].entries[path[3]].pfn]
            && Inv(Clear(m, t, path[3])) && Remapped(m, Clear(m, t, path[3]), a, path, EMPTY)
  {
    TranslationIsLeaf(m, a, path);
    LeafTableOwned(m, a, path);
    var t := LeafTable(m, a, path);
    ClearKeepsInv(m, t, path[3]);
    assert OneLeafChanged(m, Clear(m, t, path[3]), t, path[3]);
    RemapLeaf(m, Clear(m, t, path[3]), a, path, EMPTY);
  }

  /** The `k`-th page address of a loop that starts at `start`. */
  function PageAt(start: nat, k: nat): nat {
    start + k * 4096
  }

  /** `path` is that of one of the first `n` pages of the loop. */
  ghost predicate Covered(path: seq<nat>, start: nat, n: nat) {
    exists k: nat :: k < n && path == PathOf(PageAt(start, k))
  }

  /** The first `n` pages from `start` are gone from space `a`; nothing else changed. */
  ghost predicate RangeGone(m: Mem, m': Mem, a: nat, start: nat, n: nat) {
    forall b: nat, path :: ValidPath(path) ==>
      ViewAt(m', b, path) == if b == a && Covered(path, start, n) then Absent else ViewAt(m, b, path)
  }

  lemma RangeGoneStep(m: Mem, m1: Mem, m2: Mem, a: nat, start: nat, n: nat)
    requires RangeGone(m, m1, a, start, n)
    requires OnlyView(m1, m2, a, PathOf(PageAt(start, n)), Absent)
    ensures RangeGone(m, m2, a, start, n + 1)
  {
    hide PathOf, ViewAt;
    forall b: nat, path | ValidPath(path)
      ensures ViewAt(m2, b, path) == if b == a && Covered(path, start, n + 1) then Absent else ViewAt(m, b, path)
    {
      if path == PathOf(PageAt(start, n)) {
        assert Covered(path, start, n + 1);
      } else {
        assert Covered(path, start, n + 1) <==> Covered(path, start, n);
      }
    }
  }

  /** Exactly one page moved within space `a`. */
  ghost predicate Moved(m: Mem, m': Mem, a: nat, from: seq<nat>, to: seq<nat>)
    requires ValidPath(from) && ValidPath(to)
  {
    && from != to
    && Translate(m', a, to) == Translate(m, a, from) && Translate(m', a, from) == EMPTY
    && ViewAt(m', a, to) == ViewAt(m, a, from) && ViewAt(m', a, from) == Absent
    && (forall b: nat, path :: ValidPath(path) && (b, path) != (a, from) && (b, path) != (a, to) ==>
          Translate(m', b, path) == Translate(m, b, path) && ViewAt(m', b, path) == ViewAt(m, b, path))
    && DataKept(m, m') && m'.roots == m.roots && m'.ext == m.ext
  }

  lemma MoveMoves(m: Mem, a: nat, from: seq<nat>, to: seq<nat>)
    requires Inv(m) && ValidPath(from) && ValidPath(to) && Translate(m, a, from).valid
    requires a in m.roots && LeafTable(m, a, to) != 0 && !Translate(m, a, to).valid
    ensures LeafTable(m, a, from) != 0
    ensures var t, t2 := LeafTable(m, a, from), LeafTable(m, a, to);
            && t in m.own && t < |m.pages| && m.pages[t].Table? && |m.pages[t].entries| == ENTRIES
            && t2 in m.own && t2 < |m.pages| && m.pages[t2].Table? && |m.pages[t2].entries| == ENTRIES
            && Inv(Move(m, t, from[3], t2, to[3])) && Moved(m, Move(m, t, from[3], t2, to[3]), a, from, to)
  {
    hide Links, Parents, Leaves, Counts, Remapped, Moved, OneLeafChanged, DataKept, TakeOut, Move;
    TranslationIsLeaf(m, a, from);
    LeafTableOwned(m, a, from);
    LeafTableOwned(m, a, to);
    var t, t2 := LeafTable(m, a, from), LeafTable(m, a, to);
    MoveKeepsInv(m, t, from[3], t2, to[3]);
    var m1 := TakeOut(m, t, from[3]);
    var m' := Move(m, t, from[3], t2, to[3]);
    TakeOutChange(m, t, from[3]);
    MoveChange(m, t, from[3], t2, to[3]);
    RemapLeaf(m, m1, a, from, EMPTY);
    TakeOutPath(m, m1, a, to, t, from[3]);
    RemapLeaf(m1, m', a, to, m.pages[t].entries[from[3]]);
    RemappedTwice(m, m1, m', a, from, to);
  }

  lemma TakeOutChange(m: Mem, t: nat, i: nat)
    requires Inv(m) && LeafSlot(m, t, i) && m.pages[t].entries[i].valid && m.pages[t].entries[i].pfn < |m.ext|
    requires m.pages[t].entries[i].pfn !in m.own && Shape(TakeOut(m, t, i))
    ensures var m1 := TakeOut(m, t, i);
            && OneLeafChanged(m, m1, t, i) && DataKept(m, m1) && Norm(m1.pages[t].entries[i]) == EMPTY
            && m1.refs == m.refs && m1.own == m.own && m1.roots == m.roots && |m1.pages| == |m.pages|
            && m1.pages[m.pages[t].entries[i].pfn] == m.pages[m.pages[t].entries[i].pfn]
  {
    hide Links, Parents, Leaves, Counts;
  }

  lemma MoveChange(m: Mem, t: nat, i: nat, t2: nat, i2: nat)
    requires Inv(m) && LeafSlot(m, t, i) && LeafSlot(m, t2, i2) && m.pages[t].entries[i].valid &&
             !m.pages[t2].entries[i2].valid
    requires m.pages[t].entries[i].pfn < |m.ext| && m.pages[t].entries[i].pfn !in m.own
    requires Shape(TakeOut(m, t, i)) && Shape(Move(m, t, i, t2, i2))
    ensures var m1, m' := TakeOut(m, t, i), Move(m, t, i, t2, i2);
            && OneLeafChanged(m1, m', t2, i2) && DataKept(m1, m') &&
                Norm(m'.pages[t2].entries[i2]) == m.pages[t].entries[i]
            && m'.pages[m.pages[t].entries[i].pfn] == m1.pages[m.pages[t].entries[i].pfn] && m'.ext == m.ext
  {
    hide Links, Parents, Leaves, Counts;
  }

  lemma TakeOutPath(m: Mem, m1: Mem, a: nat, path: seq<nat>, t: nat, i: nat)
    requires Inv(m) && Shape(m1) && OneLeafChanged(m, m1, t, i) && |m1.pages| == |m.pages| && a in m.roots &&
             ValidPath(path)
    ensures LeafTable(m1, a, path) == LeafTable(m, a, path)
  {
    hide Links, Parents, Leaves, Counts;
    UpperTablesDecide(m, m1.pages, a, path[..3]);
  }

  lemma RemappedTwice(m: Mem, m1: Mem, m': Mem, a: nat, from: seq<nat>, to: seq<nat>)
    requires ValidPath(from) && ValidPath(to) && from != to
    requires Remapped(m, m1, a, from, EMPTY) && Remapped(m1, m', a, to, Translate(m, a, from))
    requires m'.ext == m.ext && m1.refs == m.refs && m1.own == m.own
    requires Translate(m, a, from).pfn < |m.pages| &&
             m1.pages[Translate(m, a, from).pfn] == m.pages[Translate(m, a, from).pfn]
    requires |m1.refs| == |m1.pages|
    ensures Moved(m, m', a, from, to)
  {
    hide Translate;
  }

  lemma GrownThenMoved(m: Mem, m1: Mem, m2: Mem, a: nat, from: seq<nat>, to: seq<nat>)
    requires Inv(m) && Inv(m1) && Grown(m, m1) && ValidPath(from) && ValidPath(to) && Moved(m1, m2, a, from, to)
    ensures Moved(m, m2, a, from, to)
  {
    hide Inv, Translate;
    GrownViews(m, m1);
  }

  // ---------------------------------------------------------------- teardown

  /** What is left of the bookkeeping while and after a detached tree is destroyed. */
  ghost predicate Shrunk(own: map<nat, Owner>, own': map<nat, Owner>, level: nat) {
    && (forall u :: u in own' ==> u in own && own'[u] == own[u])
    && (forall u :: u in own && own[u].level < level ==> u in own')
  }

  /** Climbing parents from any table ends at the root of some address space. */
  lemma {:induction false} ClimbsToRoot(m: Mem, t: nat) returns (a: nat)
    requires Inv(m) && Settled(m) && t in m.own
    ensures a in m.roots
    decreases m.own[t].level
  {
    assert ParentOk(m, t);
    match m.own[t].parent
    case Root(b) => a := b;
    case Slot(p, i) =>
      assert Live(m, p, i);
      a := ClimbsToRoot(m, p);
  }

  /** With every address space destroyed, no table is left and every count is exactly what
      owners outside the tables hold. */
  lemma NothingLeft(m: Mem)
    requires Inv(m) && Settled(m) && m.roots == map[]
    ensures m.own == map[] && m.refs == m.ext
  {
    if t :| t in m.own {
      var a := ClimbsToRoot(m, t);
      assert false;
    }
    forall p | 0 <= p < |m.refs|
      ensures m.refs[p] == m.ext[p]
    {
      assert Counted(m, p);
      assert LeafRefs(m, p) == {};
    }
  }

  lemma RangeGoneNone(m: Mem, a: nat, start: nat)
    ensures RangeGone(m, m, a, start, 0)
  {
  }

  lemma LeafTableIs(m: Mem, a: nat, va: nat)
    requires Inv(m) && a in m.roots && LeafTable(m, a, PathOf(va)) != 0
    ensures var t := LeafTable(m, a, PathOf(va));
            && t in m.own && t < |m.pages| && m.pages[t].Table? && |m.pages[t].entries| == ENTRIES
            && Translate(m, a, PathOf(va)) == Norm(m.pages[t].entries[PathOf(va)[3]])
  {
    LeafTableOwned(m, a, PathOf(va));
  }

  /** The leaf table of a mapped page is still its leaf table after growth. */
  lemma GrownKeepsLeafTable(m: Mem, m': Mem, a: nat, va: nat)
    requires Inv(m) && Inv(m') && Grown(m, m') && a in m.roots && Translate(m, a, PathOf(va)).valid
    ensures LeafTable(m', a, PathOf(va)) == LeafTable(m, a, PathOf(va))
  {
    hide Counted, Links, Leaves, ParentOk;
    var q := PathOf(va)[..3];
    TranslationIsLeaf(m, a, PathOf(va));
    GrownDescends(m, m', a, q);
  }

  lemma {:induction false} GrownDescends(m: Mem, m': Mem, a: nat, q: seq<nat>)
    requires Inv(m) && Inv(m') && Grown(m, m') && a in m.roots && |q| <= 3
    requires forall k :: 0 <= k < |q| ==> q[k] < ENTRIES
    requires Descend(m.pages, m.roots[a], q) != 0
    ensures Descend(m'.pages, m'.roots[a], q) == Descend(m.pages, m.roots[a], q)
  {
    if q == [] {
    } else {
      GrownDescends(m, m', a, q[..|q| - 1]);
      DescendLeads(m, a, q[..|q| - 1]);
      var t := Descend(m.pages, m.roots[a], q[..|q| - 1]);
      GrownKeepsChild(m, m', t, q[|q| - 1], Descend(m.pages, m.roots[a], q));
    }
  }

  // ---------------------------------------------------------------- clone and destroy, per entry

  /** What the loop of `clone_table_cow` needs to know about the entry it is at. */
  lemma CloneEntry(m0: Mem, m: Mem, src: nat, dst: nat, i: nat)
    requires Inv(m0) && CloneInv(m0, m, src, dst, i) && i < ENTRIES
    ensures |m.refs| == |m.pages| && src < |m.pages| && dst < |m.pages| && src in m.own && dst in m.own
    ensures m.pages[src].Table? && |m.pages[src].entries| == ENTRIES
    ensures m.pages[dst].Table? && |m.pages[dst].entries| == ENTRIES
    ensures m.own[src].level == m0.own[src].level == m.own[dst].level == m0.own[dst].level <= 3
    ensures m.pages[src].entries[i].valid ==>
              if m.own[src].level == 3 then 0 < m.pages[src].entries[i].pfn < |m.refs| &&
                  0 < m.refs[m.pages[src].entries[i].pfn]
              else m.pages[src].entries[i].table && m.pages[src].entries[i].pfn in m.own
    ensures Similar(m0, m, dst)
  {
    hide Counted, ParentOk;
    if m.pages[src].entries[i].valid {
      assert Live(m, src, i);
      if m.own[src].level == 3 {
        assert LeafOk(m, m.pages[src].entries[i]);
        LeafIsCounted(m, src, i);
      }
    }
  }

  lemma LeafIsCounted(m: Mem, t: nat, i: nat)
    requires Inv(m) && Live(m, t, i) && m.own[t].level == 3
    ensures m.pages[t].entries[i].pfn < |m.refs| && 0 < m.refs[m.pages[t].entries[i].pfn]
  {
    hide Links, ParentOk;
    var d := m.pages[t].entries[i].pfn;
    assert LeafOk(m, m.pages[t].entries[i]) && Counted(m, d) && LeafAt(m, t, i, d);
    assert (t, i) in LeafRefs(m, d);
  }

  /** A fresh table hung under `dst` is ready to be cloned into. */
  lemma CloneInto(m0: Mem, m: Mem, src: nat, dst: nat, i: nat, c: nat)
    requires Inv(m0) && CloneInv(m0, m, src, dst, i) && i < ENTRIES && m.pages[src].entries[i].valid
    requires m0.own[src].level < 3 && 0 < c < |m.refs| && m.refs[c] == 0
    ensures c != dst && c !in m.own && Inv(Attach(m, dst, i, c))
    ensures CloneInv(Attach(m, dst, i, c), Attach(m, dst, i, c), m.pages[src].entries[i].pfn, c, 0)
    ensures Attach(m, dst, i, c).own[c].level == m0.own[src].level + 1
    ensures Settled(m) ==> Settled(Attach(m, dst, i, c))
  {
    hide Counted, ParentOk, LeafOk, Leaves, Parents, Counts;
    AttachKeepsInv(m, dst, i, c);
    var m1 := Attach(m, dst, i, c);
    assert Live(m, src, i);
    var child := m.pages[src].entries[i].pfn;
    assert child != c;
    SimilarRefl(m1, c);
  }

  /** A partial clone below `dst` still leaves everything that existed as it looked. */
  lemma CloneStopped(m0: Mem, m: Mem, src: nat, dst: nat, i: nat, c: nat, m2: Mem)
    requires Inv(m0) && CloneInv(m0, m, src, dst, i) && i < ENTRIES && m.pages[src].entries[i].valid
    requires m0.own[src].level < 3 && 0 < c < |m.refs| && m.refs[c] == 0 && c != dst
    requires Inv(Attach(m, dst, i, c)) && Inv(m2) && Similar(Attach(m, dst, i, c), m2, c)
    ensures Similar(m0, m2, dst)
  {
    hide Counted, ParentOk, LeafOk, Links, Leaves;
    AttachSimilar(m, dst, i, c, m2);
    SimilarTransitive(m0, m, m2, dst);
  }

  lemma CloneStart(m: Mem, src: nat, dst: nat)
    requires Inv(m) && src in m.own && dst in m.own && src != dst && m.own[src].level == m.own[dst].level
    requires m.own[src].from == 0 && m.own[dst].from == 0
    requires forall j :: 0 <= j < ENTRIES ==> !m.pages[dst].entries[j].valid
    ensures CloneInv(m, m, src, dst, 0)
  {
    hide Counted, ParentOk, LeafOk, Links, Leaves;
    SimilarRefl(m, dst);
  }

  lemma NewRootReady(m: Mem, a: nat, child: nat, c: nat)
    requires Inv(m) && a in m.roots && child !in m.roots && 0 < c < |m.refs| && m.refs[c] == 0
    ensures |m.refs| == |m.pages| && Inv(NewRoot(m, child, c))
    ensures CloneInv(NewRoot(m, child, c), NewRoot(m, child, c), m.roots[a], c, 0)
    ensures NewRoot(m, child, c).own[c].level == 0
    ensures Settled(m) ==> Settled(NewRoot(m, child, c))
  {
    hide Counted, LeafOk, Links, Leaves;
    NewRootKeepsInv(m, child, c);
    assert ParentOk(m, m.roots[a]);
    CloneStart(NewRoot(m, child, c), m.roots[a], c);
  }

  lemma ClonedSettled(m: Mem, src: nat, i: nat, dst: nat)
    requires Settled(m) && src < |m.pages| && m.pages[src].Table? && i < |m.pages[src].entries|
    requires dst < |m.pages| && m.pages[dst].Table? && i < |m.pages[dst].entries|
    requires m.pages[src].entries[i].pfn < |m.refs|
    ensures Settled(CloneLeaf(m, src, i, dst))
  {
  }

  /** A fork seen whole: `child` observes what `a` did, everyone else what they did before. */
  ghost predicate Forked(m: Mem, m': Mem, a: nat, child: nat) {
    && (forall b: nat, path :: b in m.roots && ValidPath(path) ==> ViewAt(m', b, path) == ViewAt(m, b, path))
    && (forall path :: ValidPath(path) ==> ViewAt(m', child, path) == ViewAt(m, a, path))
  }

  ghost predicate OthersKept(m: Mem, m': Mem) {
    forall b: nat, path :: b in m.roots && ValidPath(path) ==> ViewAt(m', b, path) == ViewAt(m, b, path)
  }

  lemma CloneDone(m0: Mem, m: Mem, src: nat, dst: nat)
    requires Inv(m0) && CloneInv(m0, m, src, dst, ENTRIES)
    ensures Similar(m0, m, dst) && Cloned(m0, m, src, dst, m0.own[dst].level, ENTRIES)
  {
  }

  lemma CloneLeafInv(m0: Mem, m: Mem, src: nat, dst: nat, i: nat)
    requires Inv(m0) && CloneInv(m0, m, src, dst, i)
    ensures Inv(m)
  {
  }

  lemma ShrunkStart(own: map<nat, Owner>, t: nat, level: nat)
    requires t in own && own[t] == Owner(level, Detached, 0)
    ensures Shrunk(own[t := Owner(level, Detached, 0)], own, level + 1)
  {
  }

  lemma ShrunkAdvance(own0: map<nat, Owner>, own: map<nat, Owner>, t: nat, level: nat, i: nat)
    requires t in own && own[t] == Owner(level, Detached, i) &&
             Shrunk(own0[t := Owner(level, Detached, i)], own, level + 1)
    ensures Shrunk(own0[t := Owner(level, Detached, i + 1)], Advance(own, t), level + 1)
  {
  }

  /** After the child tree below entry `i` is gone. */
  lemma ShrunkBelow(own0: map<nat, Owner>, own: map<nat, Owner>, own': map<nat, Owner>, t: nat, level: nat, i: nat,
      c: nat)
    requires t in own && own[t] == Owner(level, Detached, i) &&
             Shrunk(own0[t := Owner(level, Detached, i)], own, level + 1)
    requires c in own && c != t && own[c].level == level + 1 && c !in own'
    requires Shrunk(Advance(own, t)[c := own[c].(parent := Detached)], own', level + 1)
    ensures t in own' && own'[t] == Owner(level, Detached, i + 1)
    ensures Shrunk(own0[t := Owner(level, Detached, i + 1)], own', level + 1)
  {
  }

  lemma ShrunkDrop(own0: map<nat, Owner>, own: map<nat, Owner>, t: nat, level: nat)
    requires t in own0 && own0[t] == Owner(level, Detached, 0)
    requires Shrunk(own0[t := Owner(level, Detached, ENTRIES)], own, level + 1)
    ensures Shrunk(own0, own - {t}, level)
  {
  }

  lemma ShrunkSettled(m: Mem, m': Mem, root: nat, own1: map<nat, Owner>)
    requires Settled(m) && root in m.own && own1 == m.own[root := m.own[root].(parent := Detached)]
    requires Shrunk(own1, m'.own, 0) && root !in m'.own
    ensures Settled(m')
  {
  }

  lemma PassFacts(m: Mem, t: nat)
    requires Inv(m) && t in m.own && m.own[t].from < ENTRIES
    ensures |m.refs| == |m.pages| && t < |m.pages| && m.pages[t].Table? && |m.pages[t].entries| == ENTRIES &&
            m.own[t].level <= 3
    ensures var e := m.pages[t].entries[m.own[t].from]; e.valid && m.own[t].level < 3 ==> e.table
  {
    if m.pages[t].entries[m.own[t].from].valid {
      assert Live(m, t, m.own[t].from);
    }
  }

  // ---------------------------------------------------------------- user copies

  /** Addresses and lengths are 64-bit. */
  const WORD: nat := 0x1_0000_0000_0000_0000
  const USER_TOP: nat := 0x1_0000_0000_0000

  function Aligned(va: nat): nat {
    va - va % 4096
  }

  /** Index, counted from the first, of the last page that `[va, va + len)` touches. */
  function LastPage(va: nat, len: nat): nat
    requires 0 < len
  {
    (Aligned(va + len - 1) - Aligned(va)) / 4096
  }

  /** `user_to_phys_checked`: page and offset of an address as one number, 0 when refused. */
  function UserToPhys(pages: seq<Page>, root: nat, va: nat, access: Access): nat {
    var t := LeafFor(pages, root, va);
    if t == 0 || t >= |pages| || !pages[t].Table? || |pages[t].entries| != ENTRIES then 0 else
    var e := pages[t].entries[PathOf(va)[3]];
    if !e.valid || !Allows(e, access) then 0 else e.pfn * 4096 + va % 4096
  }

  ghost predicate AccessAt(m: Mem, a: nat, va: nat, access: Access) {
    var e := Translate(m, a, PathOf(va)); e.valid && Allows(e, access)
  }

  /** The checked walk answers for the translation, and its answer locates the byte. */
  lemma PhysMeans(m: Mem, a: nat, va: nat, access: Access)
    requires Inv(m) && a in m.roots
    ensures var pa := UserToPhys(m.pages, m.roots[a], va, access);
            && (pa != 0 <==> AccessAt(m, a, va, access))
            && (pa != 0 ==> pa / 4096 == Translate(m, a, PathOf(va)).pfn && pa % 4096 == va % 4096)
  {
    hide PathOf, LeafFor;
    ReadLeaf(m, a, va);
    if Translate(m, a, PathOf(va)).valid {
      CowTarget(m, a, PathOf(va));
    }
  }

  datatype Cell = NoByte | Byte(b: byte)

  /** The byte an address space holds at an address. */
  function ByteAt(m: Mem, a: nat, va: nat): Cell {
    var v := ViewAt(m, a, PathOf(va));
    if v.Mapped? && va % 4096 < |v.bytes| then Byte(v.bytes[va % 4096]) else NoByte
  }

  /** What a view permits, apart from its bytes. */
  function Rights(v: View): (bool, bool, bool) {
    match v
    case Absent => (false, false, false)
    case Mapped(_, w, x) => (true, w, x)
  }

  /** Exactly the bytes `[dst, dst + |src|)` of space `a` became `src`. */
  ghost predicate Written(m: Mem, m': Mem, a: nat, dst: nat, src: seq<byte>) {
    forall b: nat, va: nat :: va < USER_TOP ==>
      ByteAt(m', b, va) == if b == a && dst <= va < dst + |src| then Byte(src[va - dst]) else ByteAt(m, b, va)
  }

  ghost predicate SameRights(m: Mem, m': Mem) {
    forall b: nat, path :: ValidPath(path) ==> Rights(ViewAt(m', b, path)) == Rights(ViewAt(m, b, path))
  }

  lemma SameViewsBytes(m: Mem, m': Mem, a: nat, dst: nat)
    requires SameViews(m, m')
    ensures Written(m, m', a, dst, []) && SameRights(m, m')
  {
    hide PathOf, ViewAt;
  }

  lemma WrittenJoin(m: Mem, m1: Mem, m2: Mem, a: nat, dst: nat, s: seq<byte>, u: seq<byte>)
    requires Written(m, m1, a, dst, s) && Written(m1, m2, a, dst + |s|, u)
    ensures Written(m, m2, a, dst, s + u)
  {
    hide ByteAt;
  }

  lemma SameRightsTransitive(m: Mem, m1: Mem, m2: Mem)
    requires SameRights(m, m1) && SameRights(m1, m2)
    ensures SameRights(m, m2)
  {
    hide ViewAt;
  }

  lemma SameTranslationsTransitive(m: Mem, m1: Mem, m2: Mem)
    requires SameTranslations(m, m1) && SameTranslations(m1, m2)
    ensures SameTranslations(m, m2)
  {
    hide Translate;
  }

  lemma SameTranslationsRefl(m: Mem)
    ensures SameTranslations(m, m)
  {
  }

  function Splice(bytes: seq<byte>, off: nat, chunk: seq<byte>): (r: seq<byte>)
    requires off + |chunk| <= |bytes|
    ensures |r| == |bytes|
    ensures forall k :: 0 <= k < |bytes| ==> r[k] == if off <= k < off + |chunk| then chunk[k - off] else bytes[k]
  {
    bytes[..off] + chunk + bytes[off + |chunk|..]
  }

  /** One `kmemcpy` into a writable user page. */
  lemma StoreChunk(m: Mem, a: nat, va: nat, chunk: seq<byte>)
    requires Inv(m) && AccessAt(m, a, va, Write) && va % 4096 + |chunk| <= 4096
    ensures var d := Translate(m, a, PathOf(va)).pfn;
            && d < |m.pages| && m.pages[d].Data? && |m.pages[d].bytes| == PAGE_BYTES
            && var m' := Store(m, d, Splice(m.pages[d].bytes, va % 4096, chunk));
               && Inv(m') && SameTranslations(m, m') && SameRights(m, m')
               && (va + |chunk| <= USER_TOP ==> Written(m, m', a, va, chunk))
  {
    hide Counted, Links, Leaves, ParentOk, PathOf;
    var path := PathOf(va);
    CowTarget(m, a, path);
    var d := Translate(m, a, path).pfn;
    var bytes := Splice(m.pages[d].bytes, va % 4096, chunk);
    StoreViews(m, a, path, bytes);
    StoreKeepsInv(m, d, bytes);
    var m' := Store(m, d, bytes);
    StoreTranslates(m, d, bytes);
    if va + |chunk| <= USER_TOP && chunk != [] {
      forall b: nat, v: nat | v < USER_TOP
        ensures ByteAt(m', b, v) == if b == a && va <= v < va + |chunk| then Byte(chunk[v - va]) else ByteAt(m, b, v)
      {
        SamePage(v, va);
      }
    }
  }

  lemma StoreTranslates(m: Mem, d: nat, bytes: seq<byte>)
    requires Inv(m) && d < |m.pages| && d !in m.own
    ensures SameTranslations(m, Store(m, d, bytes))
  {
    forall b: nat, path | ValidPath(path)
      ensures Translate(Store(m, d, bytes), b, path) == Translate(m, b, path)
    {
      StoreKeepsWalk(m, d, bytes, b, path);
    }
  }

  /** Every address of the range lies in one of the pages the first pass visits. */
  lemma PageOf(va: nat, len: nat, x: nat)
    requires 0 < len && va <= x < va + len
    ensures var k := (Aligned(x) - Aligned(va)) / 4096;
            0 <= k <= LastPage(va, len) && PageAt(Aligned(va), k) == Aligned(x)
  {
  }

  lemma AlignedPath(x: nat)
    ensures PathOf(Aligned(x)) == PathOf(x)
  {
    var y := Aligned(x);
    assert y / 0x1000 == x / 0x1000;
    assert y / 0x20_0000 == (y / 0x1000) / 512 && x / 0x20_0000 == (x / 0x1000) / 512;
    assert y / 0x4000_0000 == (y / 0x1000) / 0x4_0000 && x / 0x4000_0000 == (x / 0x1000) / 0x4_0000;
    assert y / 0x80_0000_0000 == (y / 0x1000) / 0x800_0000 && x / 0x80_0000_0000 == (x / 0x1000) / 0x800_0000;
  }

  /** A page is writable as its process sees it: now, or through a copy-on-write fault. */
  ghost predicate MayWrite(m: Mem, a: nat, va: nat) {
    ViewAt(m, a, PathOf(va)).Mapped? && ViewAt(m, a, PathOf(va)).writable
  }

  lemma MayWriteMeans(m: Mem, a: nat, va: nat)
    requires Inv(m)
    ensures var e := Translate(m, a, PathOf(va)); MayWrite(m, a, va) <==> e.valid && (e.ap.UserRw? || e.cow)
  {
    hide PathOf;
    if Translate(m, a, PathOf(va)).valid {
      CowTarget(m, a, PathOf(va));
    }
  }

  /** A fault on one page leaves the pages already made writable writable. */
  lemma FaultKeepsAccess(m: Mem, m': Mem, a: nat, va: nat, x: nat)
    requires Faulted(m, m', a, PathOf(va)) && (AccessAt(m, a, x, Write) || PathOf(x) == PathOf(va))
    ensures AccessAt(m', a, x, Write)
  {
    hide PathOf, Translate;
  }

  lemma ReadBytes(m: Mem, a: nat, va: nat, n: nat)
    requires Inv(m) && AccessAt(m, a, va, Read) && va % 4096 + n <= 4096
    ensures var d := Translate(m, a, PathOf(va)).pfn;
            && d < |m.pages| && m.pages[d].Data? && |m.pages[d].bytes| == PAGE_BYTES
            && forall x: nat :: va <= x < va + n ==> ByteAt(m, a, x) == Byte(m.pages[d].bytes[x - va + va % 4096])
  {
    hide PathOf;
    CowTarget(m, a, PathOf(va));
    forall x: nat | va <= x < va + n
      ensures ByteAt(m, a, x) == Byte(m.pages[Translate(m, a, PathOf(va)).pfn].bytes[x - va + va % 4096])
    {
      AlignedPath(va);
      AlignedPath(x);
      assert Aligned(x) == Aligned(va);
    }
  }

  lemma SameViewsMayWrite(m: Mem, m': Mem, a: nat, va: nat)
    requires SameViews(m, m')
    ensures MayWrite(m, a, va) == MayWrite(m', a, va)
  {
  }

  lemma NotWritable(m: Mem, a: nat, va: nat)
    requires !AccessAt(m, a, va, Write)
    ensures var e := Translate(m, a, PathOf(va)); e.valid ==> !e.ap.UserRw?
  {
  }

  lemma FaultedFacts(m: Mem, m': Mem, a: nat, va: nat)
    requires Faulted(m, m', a, PathOf(va))
    ensures SameViews(m, m') && m'.roots == m.roots && m'.ext == m.ext && (Settled(m) ==> Settled(m'))
  {
  }

  lemma ChunkAccess(m1: Mem, m: Mem, a: nat, dst: nat, len: nat, va: nat)
    requires 0 < len && dst <= va < dst + len && SameTranslations(m1, m)
    requires forall k: nat :: k <= LastPage(dst, len) ==> AccessAt(m1, a, PageAt(Aligned(dst), k), Write)
    ensures AccessAt(m, a, va, Write)
  {
    hide PathOf, Translate;
    PageOf(dst, len, va);
    AlignedPath(va);
    assert AccessAt(m1, a, Aligned(va), Write);
  }

  lemma PageReadable(m: Mem, a: nat, src: nat, len: nat, va: nat)
    requires 0 < len && src <= va < src + len
    requires forall k: nat :: k <= LastPage(src, len) ==> AccessAt(m, a, PageAt(Aligned(src), k), Read)
    ensures AccessAt(m, a, va, Read)
  {
    hide PathOf, Translate;
    PageOf(src, len, va);
    AlignedPath(va);
    assert AccessAt(m, a, Aligned(va), Read);
  }

  lemma AccessKept(m1: Mem, m: Mem, a: nat, dst: nat, len: nat)
    requires 0 < len && SameTranslations(m1, m)
    requires forall k: nat :: k <= LastPage(dst, len) ==> AccessAt(m1, a, PageAt(Aligned(dst), k), Write)
    ensures forall k: nat :: k <= LastPage(dst, len) ==> AccessAt(m, a, PageAt(Aligned(dst), k), Write)
  {
    hide PathOf, Translate;
  }

  lemma SettledBy(m: Mem, m': Mem)
    requires m'.own == m.own
    ensures Settled(m) ==> Settled(m')
  {
  }

  // ---------------------------------------------------------------- reference accounting

  /** Table descriptors that point at page `p`. */
  ghost function TableRefs(m: Mem, p: nat): set<Loc>
    requires Shape(m)
  {
    set t, i | t in m.own && 0 <= i < ENTRIES && Live(m, t, i) && m.own[t].level < 3 &&
        m.pages[t].entries[i].pfn == p :: (t, i)
  }

  /** Address spaces whose root is page `p`. */
  ghost function RootRefs(m: Mem, p: nat): set<nat> {
    set a | a in m.roots && m.roots[a] == p
  }

  /** Each page's count is exactly the leaf descriptors, table descriptors, roots and outside
      owners that point at it. */
  lemma RefsExact(m: Mem, p: nat)
    requires Inv(m) && Settled(m) && p < |m.refs|
    ensures m.refs[p] == |LeafRefs(m, p)| + |TableRefs(m, p)| + |RootRefs(m, p)| + m.ext[p]
  {
    assert Counted(m, p);
    if p in m.own {
      assert ParentOk(m, p);
      TablesAreNoLeaves(m, p);
      match m.own[p].parent
      case Root(a) =>
        assert RootRefs(m, p) == {a};
        assert TableRefs(m, p) == {};
      case Slot(t, i) =>
        assert RootRefs(m, p) == {};
        assert (t, i) in TableRefs(m, p);
        assert TableRefs(m, p) == {(t, i)};
    } else {
      assert RootRefs(m, p) == {};
      assert TableRefs(m, p) == {};
    }
  }

  /** No page that an address space maps, or that holds a table, is unreferenced. */
  lemma InUseIsReferenced(m: Mem, a: nat, path: seq<nat>)
    requires Inv(m) && ValidPath(path) && Translate(m, a, path).valid
    ensures Translate(m, a, path).pfn < |m.refs| && 0 < m.refs[Translate(m, a, path).pfn]
  {
    CowTarget(m, a, path);
  }
}
