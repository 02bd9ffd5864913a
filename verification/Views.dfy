/** What address spaces observe: how each primitive step on the page tables changes the
    translation and the view of every page of every address space. */
module Views {
  import opened Bytes
  import opened PageTables

  function LeafTable(m: Mem, a: nat, path: seq<nat>): nat
    requires ValidPath(path) && a in m.roots
  {
    Descend(m.pages, m.roots[a], path[..3])
  }

  function Norm(e: Pte): Pte {
    if e.valid then e else EMPTY
  }

  /** The leaf table of a path, when there is one, is owned by that path alone. */
  lemma LeafTableOwned(m: Mem, a: nat, path: seq<nat>)
    requires Inv(m) && ValidPath(path) && a in m.roots && LeafTable(m, a, path) != 0
    ensures LeadsTo(m, a, path[..3], LeafTable(m, a, path))
    ensures LeafSlot(m, LeafTable(m, a, path), path[3])
    ensures Translate(m, a, path) == Norm(m.pages[LeafTable(m, a, path)].entries[path[3]])
  {
    DescendLeads(m, a, path[..3]);
  }

  /** A valid translation is a live leaf. */
  lemma TranslationIsLeaf(m: Mem, a: nat, path: seq<nat>)
    requires Inv(m) && ValidPath(path) && Translate(m, a, path).valid
    ensures a in m.roots && LeafTable(m, a, path) != 0
    ensures LeafAt(m, LeafTable(m, a, path), path[3], Translate(m, a, path).pfn)
    ensures LeafOk(m, Translate(m, a, path))
  {
    LeafTableOwned(m, a, path);
    assert Live(m, LeafTable(m, a, path), path[3]);
  }

  /** Tables above the leaf level decide which leaf table a path reaches. */
  lemma {:induction false} UpperTablesDecide(m: Mem, pages': seq<Page>, a: nat, q: seq<nat>)
    requires Inv(m) && a in m.roots && |q| <= 3 && |pages'| == |m.pages|
    requires forall k :: 0 <= k < |q| ==> q[k] < ENTRIES
    requires forall t :: t in m.own && m.own[t].level < 3 ==> pages'[t] == m.pages[t]
    ensures Descend(pages', m.roots[a], q) == Descend(m.pages, m.roots[a], q)
  {
    if q == [] {
    } else {
      UpperTablesDecide(m, pages', a, q[..|q| - 1]);
      if Descend(m.pages, m.roots[a], q[..|q| - 1]) != 0 {
        DescendLeads(m, a, q[..|q| - 1]);
      }
    }
  }

  /** Writing one leaf descriptor changes the one translation that goes through it. */
  lemma LeafChangeTranslates(m: Mem, m': Mem, t: nat, i: nat, a: nat, path: seq<nat>)
    requires Inv(m) && Shape(m') && OneLeafChanged(m, m', t, i) && |m'.pages| == |m.pages| && ValidPath(path)
    ensures Translate(m', a, path)
         == if a in m.roots && LeafTable(m, a, path) == t && path[3] == i
            then Norm(m'.pages[t].entries[i]) else Translate(m, a, path)
  {
    if a in m.roots {
      UpperTablesDecide(m, m'.pages, a, path[..3]);
      if LeafTable(m, a, path) != 0 {
        LeafTableOwned(m, a, path);
      }
    }
  }

  /** ... and a leaf table on the path of one address space is on no other path at all. */
  lemma OnePathThrough(m: Mem, t: nat, a: nat, path: seq<nat>, b: nat, other: seq<nat>)
    requires Inv(m) && ValidPath(path) && ValidPath(other) && t != 0
    requires a in m.roots && LeafTable(m, a, path) == t
    requires b in m.roots && LeafTable(m, b, other) == t && other[3] == path[3]
    ensures a == b && path == other
  {
    LeafTableOwned(m, a, path);
    LeafTableOwned(m, b, other);
    PathUnique(m, a, path[..3], b, other[..3], t);
    assert path == path[..3] + [path[3]] && other == other[..3] + [other[3]];
  }

  ghost predicate SameTranslations(m: Mem, m': Mem) {
    forall a: nat, path :: ValidPath(path) ==> Translate(m', a, path) == Translate(m, a, path)
  }

  /** Only the translation of `path` in space `a` changed, to `e`. */
  ghost predicate OnlyTranslation(m: Mem, m': Mem, a: nat, path: seq<nat>, e: Pte)
    requires ValidPath(path)
  {
    && Translate(m', a, path) == e
    && forall b: nat, other :: ValidPath(other) && (b, other) != (a, path) ==>
        Translate(m', b, other) == Translate(m, b, other)
  }

  lemma LeafChangeIsLocal(m: Mem, m': Mem, a: nat, path: seq<nat>)
    requires Inv(m) && Shape(m') && |m'.pages| == |m.pages| && ValidPath(path)
    requires a in m.roots && LeafTable(m, a, path) != 0
    requires OneLeafChanged(m, m', LeafTable(m, a, path), path[3])
    ensures OnlyTranslation(m, m', a, path, Norm(m'.pages[LeafTable(m, a, path)].entries[path[3]]))
  {
    var t := LeafTable(m, a, path);
    LeafChangeTranslates(m, m', t, path[3], a, path);
    forall b: nat, other | ValidPath(other) && (b, other) != (a, path)
      ensures Translate(m', b, other) == Translate(m, b, other)
    {
      LeafChangeTranslates(m, m', t, path[3], b, other);
      if b in m.roots && LeafTable(m, b, other) == t && other[3] == path[3] {
        OnePathThrough(m, t, a, path, b, other);
      }
    }
  }

  /** Hanging an empty table into an empty slot changes no translation. */
  lemma {:induction false} AttachDescends(m: Mem, t: nat, i: nat, c: nat, a: nat, q: seq<nat>)
    requires Inv(m) && t in m.own && m.own[t].level < 3 && m.own[t].from == 0 && i < ENTRIES
    requires !m.pages[t].entries[i].valid && 0 < c < |m.refs| && m.refs[c] == 0
    requires a in m.roots && |q| <= 3 && forall k :: 0 <= k < |q| ==> q[k] < ENTRIES
    ensures c !in m.own
    ensures var before, after := Descend(m.pages, m.roots[a], q), Descend(Attach(m, t, i, c).pages, m.roots[a], q);
            after == before || (before == 0 && after == c)
  {
    FreshUnused(m, c);
    if q == [] {
    } else {
      AttachDescends(m, t, i, c, a, q[..|q| - 1]);
      if Descend(m.pages, m.roots[a], q[..|q| - 1]) != 0 {
        DescendLeads(m, a, q[..|q| - 1]);
      }
    }
  }

  lemma AttachTranslates(m: Mem, t: nat, i: nat, c: nat)
    requires Inv(m) && t in m.own && m.own[t].level < 3 && m.own[t].from == 0 && i < ENTRIES
    requires !m.pages[t].entries[i].valid && 0 < c < |m.refs| && m.refs[c] == 0
    ensures c !in m.own && SameTranslations(m, Attach(m, t, i, c))
  {
    FreshUnused(m, c);
    forall a: nat, path | ValidPath(path)
      ensures Translate(Attach(m, t, i, c), a, path) == Translate(m, a, path)
    {
      if a in m.roots {
        AttachDescends(m, t, i, c, a, path[..3]);
        if LeafTable(m, a, path) != 0 {
          LeafTableOwned(m, a, path);
        }
      }
    }
  }

  lemma {:induction false} EmptyTableEnds(pages: seq<Page>, c: nat, q: seq<nat>)
    requires c < |pages| && pages[c] == ZeroTable() && q != []
    ensures Descend(pages, c, q) == 0
  {
    if |q| > 1 {
      EmptyTableEnds(pages, c, q[..|q| - 1]);
    } else {
      assert q[..|q| - 1] == [];
    }
  }

  /** A fresh address space maps nothing, and the others keep their translations. */
  lemma NewRootTranslates(m: Mem, a: nat, c: nat)
    requires Inv(m) && a !in m.roots && 0 < c < |m.refs| && m.refs[c] == 0
    ensures SameTranslations(m, NewRoot(m, a, c))
  {
    FreshUnused(m, c);
    var m' := NewRoot(m, a, c);
    forall b: nat, path | ValidPath(path)
      ensures Translate(m', b, path) == Translate(m, b, path)
    {
      if b == a {
        EmptyTableEnds(m'.pages, c, path[..3]);
      } else if b in m.roots {
        UpperTablesDecide(m, m'.pages, b, path[..3]);
        if LeafTable(m, b, path) != 0 {
          LeafTableOwned(m, b, path);
        }
      }
    }
  }

  // ------------------------------------------------ views

  /** Every page some leaf names keeps its contents. */
  ghost predicate ContentsKept(m: Mem, m': Mem)
    requires Shape(m)
  {
    |m'.pages| == |m.pages| &&
    forall t: nat, i: nat :: Live(m, t, i) && m.own[t].level == 3 && m.pages[t].entries[i].pfn < |m.pages| ==>
      m'.pages[m.pages[t].entries[i].pfn] == m.pages[m.pages[t].entries[i].pfn]
  }

  ghost predicate SameViews(m: Mem, m': Mem) {
    forall a: nat, path :: ValidPath(path) ==> ViewAt(m', a, path) == ViewAt(m, a, path)
  }

  /** Only the view of `path` in space `a` changed, to `v`. */
  ghost predicate OnlyView(m: Mem, m': Mem, a: nat, path: seq<nat>, v: View)
    requires ValidPath(path)
  {
    && ViewAt(m', a, path) == v
    && forall b: nat, other :: ValidPath(other) && (b, other) != (a, path) ==>
        ViewAt(m', b, other) == ViewAt(m, b, other)
  }

  lemma ViewKept(m: Mem, m': Mem, a: nat, path: seq<nat>)
    requires Inv(m) && ContentsKept(m, m') && ValidPath(path)
    requires Translate(m', a, path) == Translate(m, a, path)
    ensures ViewAt(m', a, path) == ViewAt(m, a, path)
  {
    if Translate(m, a, path).valid {
      TranslationIsLeaf(m, a, path);
    }
  }

  lemma TranslationsGiveViews(m: Mem, m': Mem)
    requires Inv(m) && ContentsKept(m, m') && SameTranslations(m, m')
    ensures SameViews(m, m')
  {
    forall a: nat, path | ValidPath(path)
      ensures ViewAt(m', a, path) == ViewAt(m, a, path)
    {
      ViewKept(m, m', a, path);
    }
  }

  /** A leaf rewritten in place changes at most the view of its own page. */
  lemma LeafChangeViews(m: Mem, m': Mem, a: nat, path: seq<nat>)
    requires Inv(m) && Shape(m') && ContentsKept(m, m') && ValidPath(path)
    requires a in m.roots && LeafTable(m, a, path) != 0
    requires OneLeafChanged(m, m', LeafTable(m, a, path), path[3])
    ensures OnlyView(m, m', a, path, ViewOf(m'.pages, Norm(m'.pages[LeafTable(m, a, path)].entries[path[3]])))
  {
    LeafChangeIsLocal(m, m', a, path);
    forall b: nat, other | ValidPath(other) && (b, other) != (a, path)
      ensures ViewAt(m', b, other) == ViewAt(m, b, other)
    {
      ViewKept(m, m', b, other);
    }
  }

  /** A copy-on-write fault is invisible: reusing the last reference ... */
  lemma ReuseViews(m: Mem, a: nat, path: seq<nat>)
    requires Inv(m) && ValidPath(path) && Translate(m, a, path).valid && Translate(m, a, path).cow
    ensures LeafSlot(m, LeafTable(m, a, path), path[3])
    ensures SameViews(m, Reuse(m, LeafTable(m, a, path), path[3]))
  {
    TranslationIsLeaf(m, a, path);
    LeafTableOwned(m, a, path);
    var m' := Reuse(m, LeafTable(m, a, path), path[3]);
    LeafPagesAreNoTables(m);
    assert Shape(m') && ContentsKept(m, m');
    LeafChangeViews(m, m', a, path);
  }

  lemma LeafPagesAreNoTables(m: Mem)
    requires Inv(m)
    ensures forall t: nat, i: nat :: Live(m, t, i) && m.own[t].level == 3 ==>
            m.pages[t].entries[i].pfn !in m.own && m.pages[t].entries[i].pfn < |m.pages|
  {
    forall t: nat, i: nat | Live(m, t, i) && m.own[t].level == 3
      ensures m.pages[t].entries[i].pfn !in m.own && m.pages[t].entries[i].pfn < |m.pages|
    {
      assert LeafOk(m, m.pages[t].entries[i]);
    }
  }

  /** ... and copying a page that others still hold. */
  lemma CopyViews(m: Mem, a: nat, path: seq<nat>, c: nat)
    requires Inv(m) && ValidPath(path) && Translate(m, a, path).valid && Translate(m, a, path).cow
    requires 0 < c < |m.refs| && m.refs[c] == 0
    ensures LeafSlot(m, LeafTable(m, a, path), path[3]) && c != LeafTable(m, a, path)
    ensures var d := m.pages[LeafTable(m, a, path)].entries[path[3]].pfn;
            d < |m.pages| && d != c && |m.refs| == |m.pages| && 0 < m.refs[d]
    ensures SameViews(m, Copy(m, LeafTable(m, a, path), path[3], c))
  {
    hide Links, Parents, Leaves, Counts, SameViews, OnlyView, ContentsKept, OneLeafChanged, ViewAt, Norm, ViewOf;
    TranslationIsLeaf(m, a, path);
    LeafTableOwned(m, a, path);
    FreshUnused(m, c);
    var t := LeafTable(m, a, path);
    CopyKeepsInv(m, t, path[3], c);
    CopyContents(m, t, path[3], c);
    LeafChangeViews(m, Copy(m, t, path[3], c), a, path);
    CopyOwnView(m, a, path, c);
    OnlyViewSame(m, Copy(m, t, path[3], c), a, path);
  }

  /** The copy touches no page that a leaf names. */
  lemma CopyContents(m: Mem, t: nat, i: nat, c: nat)
    requires Inv(m) && LeafSlot(m, t, i) && m.pages[t].entries[i].valid && m.pages[t].entries[i].cow
    requires 0 < c < |m.refs| && m.refs[c] == 0 && c != t
    requires var d := m.pages[t].entries[i].pfn; d < |m.pages| && d != c && 0 < m.refs[d]
    requires Shape(Copy(m, t, i, c))
    ensures ContentsKept(m, Copy(m, t, i, c)) && OneLeafChanged(m, Copy(m, t, i, c), t, i)
  {
    hide Links, Parents, Leaves, Counts;
    FreshUnused(m, c);
    LeafPagesAreNoTables(m);
    assert forall u: nat, j: nat :: Live(m, u, j) && m.own[u].level == 3 ==> LeafAt(m, u, j, m.pages[u].entries[j].pfn);
  }

  lemma CopyOwnView(m: Mem, a: nat, path: seq<nat>, c: nat)
    requires ValidPath(path) && Translate(m, a, path).valid && Translate(m, a, path).cow && a in m.roots
    requires var t := LeafTable(m, a, path);
             && t < |m.pages| && m.pages[t].Table? && path[3] < |m.pages[t].entries| && |m.refs| == |m.pages| &&
                 c < |m.pages| && c != t
             && var d := m.pages[t].entries[path[3]].pfn; d < |m.pages| && d != c && 0 < m.refs[d] && m.pages[d].Data?
    ensures var m' := Copy(m, LeafTable(m, a, path), path[3], c);
            ViewOf(m'.pages, Norm(m'.pages[LeafTable(m, a, path)].entries[path[3]])) == ViewAt(m, a, path)
  {
  }

  lemma OnlyViewSame(m: Mem, m': Mem, a: nat, path: seq<nat>)
    requires ValidPath(path) && OnlyView(m, m', a, path, ViewAt(m, a, path))
    ensures SameViews(m, m')
  {
    hide ViewAt;
  }

  /** A store through a writable leaf is seen by its own address space only. */
  lemma StoreViews(m: Mem, a: nat, path: seq<nat>, bytes: seq<byte>)
    requires Inv(m) && ValidPath(path) && Translate(m, a, path).valid && Translate(m, a, path).ap.UserRw?
    requires |bytes| == PAGE_BYTES
    ensures var d := Translate(m, a, path).pfn;
            d < |m.pages| && d !in m.own && ViewAt(m, a, path).Mapped? &&
            OnlyView(m, Store(m, d, bytes), a, path, ViewAt(m, a, path).(bytes := bytes))
  {
    hide Translate, Counted, ParentOk, Links, Store;
    TranslationIsLeaf(m, a, path);
    var e := Translate(m, a, path);
    var m' := Store(m, e.pfn, bytes);
    StoreIs(m, e.pfn, bytes);
    assert ViewAt(m, a, path).Mapped?;
    forall b: nat, other | ValidPath(other)
      ensures ViewAt(m', b, other) == if (b, other) == (a, path) then ViewAt(m, a, path).(bytes := bytes)
              else ViewAt(m, b, other)
    {
      StoreKeepsWalk(m, e.pfn, bytes, b, other);
      if Translate(m, b, other).valid && Translate(m, b, other).pfn == e.pfn {
        OneWriter(m, a, path, b, other);
      }
    }
  }

  lemma StoreIs(m: Mem, d: nat, bytes: seq<byte>)
    requires d < |m.pages|
    ensures Store(m, d, bytes).pages == m.pages[d := Data(bytes)]
  {
  }

  /** New contents for an ordinary page move no translation. */
  lemma StoreKeepsWalk(m: Mem, d: nat, bytes: seq<byte>, b: nat, other: seq<nat>)
    requires Inv(m) && d < |m.pages| && d !in m.own && ValidPath(other)
    ensures Translate(Store(m, d, bytes), b, other) == Translate(m, b, other)
  {
    hide Counted, ParentOk, Links, LeafOk;
    if b in m.roots {
      UpperTablesDecide(m, Store(m, d, bytes).pages, b, other[..3]);
      if LeafTable(m, b, other) != 0 {
        LeafTableOwned(m, b, other);
      }
    }
  }

  /** A page reached through a writable leaf is reached through no other. */
  lemma OneWriter(m: Mem, a: nat, path: seq<nat>, b: nat, other: seq<nat>)
    requires Inv(m) && ValidPath(path) && ValidPath(other) && Translate(m, a, path).valid &&
             Translate(m, a, path).ap.UserRw?
    requires Translate(m, b, other).valid && Translate(m, b, other).pfn == Translate(m, a, path).pfn
    ensures b == a && other == path
  {
    hide Counted, ParentOk, Links, LeafOk;
    TranslationIsLeaf(m, a, path);
    LeafTableOwned(m, a, path);
    var t := LeafTable(m, a, path);
    WritableIsSole(m, t, path[3]);
    TranslationIsLeaf(m, b, other);
    assert (LeafTable(m, b, other), other[3]) in LeafRefs(m, Translate(m, a, path).pfn);
    OnePathThrough(m, t, a, path, b, other);
  }

}
