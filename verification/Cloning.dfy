/** Fork: duplicating a page-table tree with its leaves shared copy-on-write. */
module Cloning {
  import opened PageTables
  import opened Views

  /** Two descriptors a process cannot tell apart: write protection may have been swapped
      for copy-on-write. */
  predicate Sim(e: Pte, f: Pte) {
    && e.valid == f.valid
    && (e.valid ==>
          && e.table == f.table && e.pfn == f.pfn && e.uxn == f.uxn
          && (e.ap.UserRw? || e.cow) == (f.ap.UserRw? || f.cow))
  }

  ghost predicate TableSim(p: Page, q: Page) {
    p.Table? && q.Table? && |p.entries| == ENTRIES && |q.entries| == ENTRIES
    && forall i :: 0 <= i < ENTRIES ==> Sim(p.entries[i], q.entries[i])
  }

  /** Everything that existed in `m` is still there in `m'` and looks the same, except that
      the table `dst` may have been filled. */
  ghost predicate Similar(m: Mem, m': Mem, dst: nat)
    requires Shape(m) && Shape(m')
  {
    && |m'.pages| == |m.pages| && m'.roots == m.roots && m'.ext == m.ext
    && (forall u :: u in m.own ==> u in m'.own && m'.own[u] == m.own[u])
    && (forall u :: u in m.own && u != dst ==> TableSim(m.pages[u], m'.pages[u]))
    && (forall p :: 0 <= p < |m.pages| && 0 < m.refs[p] && p !in m.own ==>
          p !in m'.own && m'.pages[p] == m.pages[p] && m.refs[p] <= m'.refs[p])
  }

  lemma SimilarTransitive(m: Mem, m1: Mem, m2: Mem, dst: nat)
    requires Shape(m) && Shape(m1) && Shape(m2)
    requires Similar(m, m1, dst) && Similar(m1, m2, dst)
    ensures Similar(m, m2, dst)
  {
    forall u | u in m.own && u != dst
      ensures TableSim(m.pages[u], m2.pages[u])
    {
      assert TableSim(m.pages[u], m1.pages[u]) && TableSim(m1.pages[u], m2.pages[u]);
    }
  }

  lemma SimilarRefl(m: Mem, dst: nat)
    requires Shape(m)
    ensures Similar(m, m, dst)
  {
  }

  predicate SubPath(path: seq<nat>, level: nat) {
    |path| + level == 4 && forall k :: 0 <= k < |path| ==> path[k] < ENTRIES
  }

  /** Descending from any live table stays among owned tables, one level at a time. */
  lemma {:induction false} DescendOwned(m: Mem, t: nat, q: seq<nat>)
    requires Inv(m) && t in m.own && m.own[t].from == 0 && m.own[t].level + |q| <= 3
    requires forall k :: 0 <= k < |q| ==> q[k] < ENTRIES
    requires Descend(m.pages, t, q) != 0
    ensures var u := Descend(m.pages, t, q); u in m.own && m.own[u].from == 0 && m.own[u].level == m.own[t].level + |q|
  {
    if q == [] {
    } else {
      DescendOwned(m, t, q[..|q| - 1]);
      assert Live(m, Descend(m.pages, t, q[..|q| - 1]), q[|q| - 1]);
    }
  }

  /** The first index can be taken before the rest of the path. */
  lemma {:induction false} DescendFirst(pages: seq<Page>, t: nat, j: nat, q: seq<nat>)
    requires t != 0
    ensures Descend(pages, t, [j] + q) == if Child(pages, t, j) == 0 then 0 else Descend(pages, Child(pages, t, j), q)
  {
    if q == [] {
      assert ([j] + q)[..0] == [];
    } else {
      DescendFirst(pages, t, j, q[..|q| - 1]);
      assert ([j] + q)[..|q|] == [j] + q[..|q| - 1];
    }
  }

  lemma WalkFirst(pages: seq<Page>, t: nat, path: seq<nat>)
    requires t != 0 && 1 < |path|
    ensures Walk(pages, t, path)
         == if Child(pages, t, path[0]) == 0 then EMPTY else Walk(pages, Child(pages, t, path[0]), path[1..])
  {
    var q := path[1..|path| - 1];
    DescendFirst(pages, t, path[0], q);
    assert path[..|path| - 1] == [path[0]] + q;
    assert path[1..][..|path| - 2] == q;
  }

  /** Similar tables give similar walks; only the walked entry of the starting table matters. */
  lemma {:induction false} SimDescend(m: Mem, pages': seq<Page>, t: nat, q: seq<nat>)
    requires Inv(m) && t in m.own && m.own[t].from == 0 && m.own[t].level + |q| <= 3 && |pages'| == |m.pages|
    requires forall k :: 0 <= k < |q| ==> q[k] < ENTRIES
    requires pages'[t].Table? && |pages'[t].entries| == ENTRIES
    requires q != [] ==> Sim(m.pages[t].entries[q[0]], pages'[t].entries[q[0]])
    requires forall u :: u in m.own && m.own[u].level > m.own[t].level ==> TableSim(m.pages[u], pages'[u])
    ensures Descend(pages', t, q) == Descend(m.pages, t, q)
  {
    if q != [] {
      SimDescend(m, pages', t, q[..|q| - 1]);
      var u := Descend(m.pages, t, q[..|q| - 1]);
      if u != 0 {
        DescendOwned(m, t, q[..|q| - 1]);
        if |q| == 1 {
          assert u == t;
        } else {
          assert TableSim(m.pages[u], pages'[u]);
        }
      }
    }
  }

  lemma SimWalk(m: Mem, pages': seq<Page>, t: nat, path: seq<nat>)
    requires Inv(m) && t in m.own && m.own[t].from == 0 && SubPath(path, m.own[t].level) && |pages'| == |m.pages|
    requires pages'[t].Table? && |pages'[t].entries| == ENTRIES
    requires |path| != 0 ==> Sim(m.pages[t].entries[path[0]], pages'[t].entries[path[0]])
    requires forall u :: u in m.own && m.own[u].level > m.own[t].level ==> TableSim(m.pages[u], pages'[u])
    requires |path| != 0
    ensures Sim(Walk(m.pages, t, path), Walk(pages', t, path))
  {
    var q := path[..|path| - 1];
    SimDescend(m, pages', t, q);
    var u := Descend(m.pages, t, q);
    if u != 0 {
      DescendOwned(m, t, q);
      if q == [] {
        assert u == t;
      } else {
        assert TableSim(m.pages[u], pages'[u]);
      }
    }
  }

  /** The first `i` entries of `dst` now lead to what those of `src` led to in `m0`. */
  ghost predicate Cloned(m0: Mem, m: Mem, src: nat, dst: nat, level: nat, i: nat)
    requires level <= 3
  {
    forall path :: SubPath(path, level) && path[0] < i ==>
      Sim(Walk(m0.pages, src, path), Walk(m.pages, dst, path))
  }

  /** The state of the clone loop before entry `i`. */
  ghost predicate CloneInv(m0: Mem, m: Mem, src: nat, dst: nat, i: nat)
    requires Inv(m0)
  {
    && Inv(m)
    && src in m0.own && dst in m0.own && src != dst && i <= ENTRIES
    && m0.own[src].level == m0.own[dst].level && m0.own[src].from == 0 && m0.own[dst].from == 0
    && Similar(m0, m, dst)
    && (forall j :: i <= j < ENTRIES ==> !m.pages[dst].entries[j].valid)
    && Cloned(m0, m, src, dst, m0.own[dst].level, i)
  }

  /** Filling entry `i` of `dst` and touching nothing else visible keeps the entries before it. */
  lemma EarlierKept(m0: Mem, m: Mem, m': Mem, src: nat, dst: nat, i: nat)
    requires Inv(m0) && CloneInv(m0, m, src, dst, i) && Inv(m') && Similar(m, m', dst)
    requires forall j :: 0 <= j < i ==> Sim(m.pages[dst].entries[j], m'.pages[dst].entries[j])
    ensures Cloned(m0, m', src, dst, m0.own[dst].level, i)
  {
    forall path | SubPath(path, m0.own[dst].level) && path[0] < i
      ensures Sim(Walk(m0.pages, src, path), Walk(m'.pages, dst, path))
    {
      forall u | u in m.own && m.own[u].level > m.own[dst].level
        ensures TableSim(m.pages[u], m'.pages[u])
      {
      }
      SimWalk(m, m'.pages, dst, path);
    }
  }

  lemma SkipStep(m0: Mem, m: Mem, src: nat, dst: nat, i: nat)
    requires Inv(m0) && CloneInv(m0, m, src, dst, i) && i < ENTRIES && !m.pages[src].entries[i].valid
    ensures CloneInv(m0, m, src, dst, i + 1)
  {
    assert TableSim(m0.pages[src], m.pages[src]);
    assert !m0.pages[src].entries[i].valid;
    forall path | SubPath(path, m0.own[dst].level) && path[0] == i
      ensures Walk(m0.pages, src, path) == EMPTY && Walk(m.pages, dst, path) == EMPTY
    {
      if |path| > 1 {
        WalkFirst(m0.pages, src, path);
        WalkFirst(m.pages, dst, path);
      } else {
        assert path[..0] == [];
      }
    }
  }

  lemma CloneLeafSimilar(m: Mem, src: nat, i: nat, dst: nat)
    requires Inv(m) && LeafSlot(m, src, i) && m.pages[src].entries[i].valid
    requires LeafSlot(m, dst, i) && dst != src && !m.pages[dst].entries[i].valid
    requires m.pages[src].entries[i].pfn < |m.refs| && m.refs[m.pages[src].entries[i].pfn] < REF_LIMIT
    ensures Inv(CloneLeaf(m, src, i, dst)) && Similar(m, CloneLeaf(m, src, i, dst), dst)
  {
    hide Links, Parents, ParentOk, Counts;
    CloneLeafKeepsInv(m, src, i, dst);
    assert Live(m, src, i) && LeafOk(m, m.pages[src].entries[i]);
  }

  lemma LeafStep(m0: Mem, m: Mem, src: nat, dst: nat, i: nat)
    requires Inv(m0) && CloneInv(m0, m, src, dst, i) && i < ENTRIES && m.pages[src].entries[i].valid
    requires m0.own[src].level == 3
    requires m.pages[src].entries[i].pfn < |m.refs| && m.refs[m.pages[src].entries[i].pfn] < REF_LIMIT
    ensures CloneInv(m0, CloneLeaf(m, src, i, dst), src, dst, i + 1)
  {
    hide Counted, LeafOk, ParentOk, Links, Leaves, Parents, Counts;
    CloneLeafSimilar(m, src, i, dst);
    var m' := CloneLeaf(m, src, i, dst);
    SimilarTransitive(m0, m, m', dst);
    EarlierKept(m0, m, m', src, dst, i);
    assert TableSim(m0.pages[src], m.pages[src]);
    forall path | SubPath(path, 3) && path[0] == i
      ensures Sim(Walk(m0.pages, src, path), Walk(m'.pages, dst, path))
    {
      assert path[..0] == [];
    }
  }

  /** A fresh table under `dst`, then cloned into: seen from above, only `dst` was filled. */
  lemma AttachSimilar(m: Mem, dst: nat, i: nat, c: nat, m2: Mem)
    requires Inv(m) && dst in m.own && m.own[dst].level < 3 && m.own[dst].from == 0 && i < ENTRIES
    requires !m.pages[dst].entries[i].valid && 0 < c < |m.refs| && m.refs[c] == 0 && c != dst
    requires Inv(Attach(m, dst, i, c)) && Inv(m2) && Similar(Attach(m, dst, i, c), m2, c)
    ensures Similar(m, m2, dst)
    ensures forall j :: 0 <= j < ENTRIES && j != i ==> Sim(m.pages[dst].entries[j], m2.pages[dst].entries[j])
    ensures Child(m2.pages, dst, i) == c
  {
    hide Counted, LeafOk, ParentOk, Links, Leaves, Parents, Counts, LeafRefs;
    FreshUnused(m, c);
    var m1 := Attach(m, dst, i, c);
    assert TableSim(m1.pages[dst], m2.pages[dst]);
    forall u | u in m.own && u != dst
      ensures TableSim(m.pages[u], m2.pages[u])
    {
      assert TableSim(m1.pages[u], m2.pages[u]);
    }
  }

  /** The new subtree under entry `i` of `dst` leads where the one under `src` led in `m0`. */
  lemma NewSubtree(m0: Mem, m: Mem, src: nat, dst: nat, i: nat, c: nat, m2: Mem, path: seq<nat>)
    requires Inv(m0) && CloneInv(m0, m, src, dst, i) && i < ENTRIES && m.pages[src].entries[i].valid
    requires m0.own[src].level < 3 && 0 < c < |m.refs| && m.refs[c] == 0 && c != dst
    requires Child(m2.pages, dst, i) == c
    requires Cloned(Attach(m, dst, i, c), m2, m.pages[src].entries[i].pfn, c, m0.own[src].level + 1, ENTRIES)
    requires SubPath(path, m0.own[src].level) && path[0] == i
    ensures Sim(Walk(m0.pages, src, path), Walk(m2.pages, dst, path))
  {
    hide Counted, LeafOk, ParentOk;
    var m1 := Attach(m, dst, i, c);
    var level := m0.own[src].level;
    assert c !in m.own by {
      FreshUnused(m, c);
    }
    assert TableSim(m0.pages[src], m.pages[src]);
    assert Live(m, src, i) && Live(m0, src, i);
    var child := m.pages[src].entries[i].pfn;
    WalkFirst(m0.pages, src, path);
    WalkFirst(m2.pages, dst, path);
    var q := path[1..];
    assert SubPath(q, level + 1) && q[0] < ENTRIES;
    assert Sim(Walk(m1.pages, child, q), Walk(m2.pages, c, q));
    forall u | u in m0.own && m0.own[u].level > level
      ensures TableSim(m0.pages[u], m1.pages[u])
    {
      assert TableSim(m0.pages[u], m.pages[u]);
    }
    SimWalk(m0, m1.pages, child, q);
  }

  lemma TableStep(m0: Mem, m: Mem, src: nat, dst: nat, i: nat, c: nat, m2: Mem)
    requires Inv(m0) && CloneInv(m0, m, src, dst, i) && i < ENTRIES && m.pages[src].entries[i].valid
    requires m0.own[src].level < 3 && 0 < c < |m.refs| && m.refs[c] == 0 && c != dst
    requires var m1 := Attach(m, dst, i, c);
             Inv(m1) && Inv(m2) && Similar(m1, m2, c) &&
                 Cloned(m1, m2, m.pages[src].entries[i].pfn, c, m0.own[src].level + 1, ENTRIES)
    ensures CloneInv(m0, m2, src, dst, i + 1)
  {
    hide Counted, LeafOk, ParentOk, Links, Leaves, Parents, Walk, Attach, TableSim, Child, Live;
    AttachSimilar(m, dst, i, c, m2);
    SimilarTransitive(m0, m, m2, dst);
    EarlierKept(m0, m, m2, src, dst, i);
    forall path | SubPath(path, m0.own[src].level) && path[0] == i
      ensures Sim(Walk(m0.pages, src, path), Walk(m2.pages, dst, path))
    {
      NewSubtree(m0, m, src, dst, i, c, m2, path);
    }
  }

  /** Similar descriptors of pages whose contents stayed are the same view. */
  lemma SimView(m: Mem, m': Mem, dst: nat, e: Pte, f: Pte)
    requires Inv(m) && Shape(m') && Similar(m, m', dst) && Sim(e, f)
    requires e.valid ==> exists t: nat, i: nat :: LeafAt(m, t, i, e.pfn)
    ensures ViewOf(m.pages, e) == ViewOf(m'.pages, f)
  {
    if e.valid {
      var t: nat, i: nat :| LeafAt(m, t, i, e.pfn);
      assert LeafOk(m, m.pages[t].entries[i]) && Counted(m, e.pfn);
      assert (t, i) in LeafRefs(m, e.pfn);
    }
  }

  /** Fork, seen whole: no existing address space changes, and a completed clone gives the
      child exactly the parent's view. */
  lemma CloneViews(m: Mem, a: nat, child: nat, c: nat, m': Mem)
    requires Inv(m) && a in m.roots && child !in m.roots && 0 < c < |m.refs| && m.refs[c] == 0
    requires Inv(NewRoot(m, child, c)) && Inv(m') && Similar(NewRoot(m, child, c), m', c)
    ensures forall b: nat, path :: b in m.roots && ValidPath(path) ==> ViewAt(m', b, path) == ViewAt(m, b, path)
    ensures Cloned(NewRoot(m, child, c), m', m.roots[a], c, 0, ENTRIES) ==>
              forall path :: ValidPath(path) ==> ViewAt(m', child, path) == ViewAt(m, a, path)
  {
    hide Counted, LeafOk, Links, Leaves;
    var m0 := NewRoot(m, child, c);
    NewRootTranslates(m, child, c);
    FreshRootViews(m, child, c);
    forall b: nat, path | b in m.roots && ValidPath(path)
      ensures ViewAt(m', b, path) == ViewAt(m, b, path)
    {
      SpaceKept(m0, m', c, b, path);
    }
    if Cloned(m0, m', m.roots[a], c, 0, ENTRIES) {
      forall path | ValidPath(path)
        ensures ViewAt(m', child, path) == ViewAt(m, a, path)
      {
        assert SubPath(path, 0);
        RootViews(m0, m', c, a, path, Walk(m'.pages, c, path));
      }
    }
  }

  lemma FreshRootViews(m: Mem, child: nat, c: nat)
    requires Inv(m) && child !in m.roots && 0 < c < |m.refs| && m.refs[c] == 0
    ensures SameViews(m, NewRoot(m, child, c))
  {
    FreshUnused(m, c);
    NewRootTranslates(m, child, c);
    var m' := NewRoot(m, child, c);
    assert forall t: nat, i: nat :: Live(m, t, i) && m.own[t].level == 3 ==> LeafAt(m, t, i, m.pages[t].entries[i].pfn);
    assert ContentsKept(m, m');
    TranslationsGiveViews(m, m');
  }

  /** A descriptor similar to a translation shows that translation's view. */
  lemma RootViews(m: Mem, m': Mem, dst: nat, a: nat, path: seq<nat>, f: Pte)
    requires Inv(m) && Inv(m') && Similar(m, m', dst) && a in m.roots && ValidPath(path)
    requires Sim(Translate(m, a, path), f)
    ensures ViewOf(m'.pages, f) == ViewAt(m, a, path)
  {
    if Translate(m, a, path).valid {
      TranslationIsLeaf(m, a, path);
    }
    SimView(m, m', dst, Translate(m, a, path), f);
  }

  lemma SpaceKept(m: Mem, m': Mem, dst: nat, b: nat, path: seq<nat>)
    requires Inv(m) && Inv(m') && Similar(m, m', dst) && dst in m.own && m.own[dst].level == 0
    requires b in m.roots && m.roots[b] != dst && ValidPath(path)
    ensures ViewAt(m', b, path) == ViewAt(m, b, path)
  {
    var t := m.roots[b];
    assert ParentOk(m, t);
    assert TableSim(m.pages[t], m'.pages[t]);
    assert SubPath(path, 0);
    SimWalk(m, m'.pages, t, path);
    RootViews(m, m', dst, b, path, Translate(m', b, path));
  }
}
