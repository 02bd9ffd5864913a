/** Four-level page tables living in the physical pages they map, the reference counts
    of those pages, and the invariant that ties the two together (kernel/src/mm/vmm.c).
    Everything here is about values: a `Mem` is one state of the machine. */
module PageTables {
  import opened Bytes

  const ENTRIES: nat := 512
  const PAGE_BYTES: nat := 4096
  const REF_LIMIT: nat := 0xffff

  /** AP[2:1]: `00` in table descriptors and empty slots, `01` and `11` in user leaves. */
  datatype Ap = NoUser | UserRw | UserRo

  /** One descriptor; `pfn` is the address field divided by the page size. */
  datatype Pte = Pte(valid: bool, table: bool, pfn: nat, ap: Ap, uxn: bool, cow: bool)

  const EMPTY: Pte := Pte(false, false, 0, NoUser, false, false)

  datatype Page = Table(entries: seq<Pte>) | Data(bytes: seq<byte>)

  function ZeroTable(): (p: Page)
    ensures p.Table? && |p.entries| == ENTRIES && forall i :: 0 <= i < ENTRIES ==> p.entries[i] == EMPTY
  {
    Table(seq(ENTRIES, _ => EMPTY))
  }

  function ZeroData(): (p: Page)
    ensures p.Data? && |p.bytes| == PAGE_BYTES && forall i :: 0 <= i < PAGE_BYTES ==> p.bytes[i] == 0
  {
    Data(seq(PAGE_BYTES, _ => 0))
  }

  function TablePte(pfn: nat): Pte {
    Pte(true, true, pfn, NoUser, false, false)
  }

  /** Who points at a table page. A detached table is one being destroyed. */
  datatype Parent = Root(space: nat) | Slot(page: nat, index: nat) | Detached

  /** A table page's level (0 is the root level), its parent, and the first of its entries
      that still holds a reference; `from` is 0 except while the table is destroyed. */
  datatype Owner = Owner(level: nat, parent: Parent, from: nat)

  /** `ext` counts the references that no table holds: page cache, pipe buffers, callers. */
  datatype Mem = Mem(pages: seq<Page>, refs: seq<nat>, ext: seq<nat>,
                     roots: map<nat, nat>, own: map<nat, Owner>)

  type Loc = (nat, nat)

  predicate PageOk(p: Page) {
    match p
    case Table(es) => |es| == ENTRIES
    case Data(bs) => |bs| == PAGE_BYTES
  }

  ghost predicate Shape(m: Mem) {
    && |m.refs| == |m.pages| && |m.ext| == |m.pages|
    && (forall p :: 0 <= p < |m.pages| ==> PageOk(m.pages[p]))
    && (forall t :: t in m.own ==>
          0 < t < |m.pages| && m.pages[t].Table? && m.own[t].level <= 3 && m.own[t].from <= ENTRIES)
    && (forall t :: t in m.own && m.own[t].from != 0 ==> m.own[t].parent.Detached?)
  }

  /** Entry `i` of table `t` is valid and still counts as a reference. */
  ghost predicate Live(m: Mem, t: nat, i: nat)
    requires Shape(m)
  {
    t in m.own && m.own[t].from <= i < ENTRIES && m.pages[t].entries[i].valid
  }

  ghost predicate Links(m: Mem)
    requires Shape(m)
  {
    forall t: nat, i: nat :: Live(m, t, i) && m.own[t].level < 3 ==>
      var e := m.pages[t].entries[i];
      && e.table && e.ap.NoUser? && !e.cow
      && e.pfn in m.own
      && m.own[e.pfn].parent == Slot(t, i)
      && m.own[e.pfn].level == m.own[t].level + 1
  }

  ghost predicate ParentOk(m: Mem, t: nat)
    requires Shape(m) && t in m.own
  {
    match m.own[t].parent
    case Root(a) => a in m.roots && m.roots[a] == t && m.own[t].level == 0
    case Slot(p, i) => Live(m, p, i) && m.own[p].level < 3 && m.pages[p].entries[i].pfn == t
    case Detached => true
  }

  ghost predicate Parents(m: Mem)
    requires Shape(m)
  {
    && (forall t :: t in m.own ==> ParentOk(m, t))
    && (forall a :: a in m.roots ==> m.roots[a] in m.own && m.own[m.roots[a]].parent == Root(a))
  }

  /** A leaf: it names an ordinary page, and a writable leaf is that page's only reference. */
  ghost predicate LeafOk(m: Mem, e: Pte)
    requires Shape(m)
  {
    && 0 < e.pfn < |m.pages| && e.pfn !in m.own && m.pages[e.pfn].Data?
    && !e.ap.NoUser?
    && (e.cow ==> e.ap.UserRo?)
    && (e.ap.UserRw? ==> m.refs[e.pfn] == 1)
  }

  ghost predicate Leaves(m: Mem)
    requires Shape(m)
  {
    forall t: nat, i: nat :: Live(m, t, i) && m.own[t].level == 3 ==> LeafOk(m, m.pages[t].entries[i])
  }

  ghost predicate LeafAt(m: Mem, t: nat, i: nat, d: nat)
    requires Shape(m)
  {
    Live(m, t, i) && m.own[t].level == 3 && m.pages[t].entries[i].pfn == d
  }

  /** The leaf descriptors that point at page `d`. */
  ghost function LeafRefs(m: Mem, d: nat): set<Loc>
    requires Shape(m)
  {
    set t, i | t in m.own && 0 <= i < ENTRIES && LeafAt(m, t, i, d) :: (t, i)
  }

  /** Every count is the number of references: one for a table, else its leaves, plus outside owners. */
  ghost predicate Counted(m: Mem, p: nat)
    requires Shape(m) && p < |m.refs|
  {
    && m.refs[p] == m.ext[p] + (if p in m.own then 1 else |LeafRefs(m, p)|)
    && (p in m.own ==> m.ext[p] == 0)
    && m.refs[p] <= REF_LIMIT
  }

  ghost predicate Counts(m: Mem)
    requires Shape(m)
  {
    forall p :: 0 <= p < |m.refs| ==> Counted(m, p)
  }

  ghost predicate Inv(m: Mem) {
    Shape(m) && Links(m) && Parents(m) && Leaves(m) && Counts(m)
  }

  // ---------------------------------------------------------------- walking

  /** The table an entry of a table leads to, 0 when it leads nowhere. */
  function Child(pages: seq<Page>, t: nat, i: nat): nat {
    if t < |pages| && pages[t].Table? && i < |pages[t].entries| && pages[t].entries[i].valid &&
        pages[t].entries[i].table
    then pages[t].entries[i].pfn
    else 0
  }

  /** The table reached from `t` along the indices `q`, 0 when the path breaks. */
  function Descend(pages: seq<Page>, t: nat, q: seq<nat>): nat {
    if q == [] then t
    else
      var p := Descend(pages, t, q[..|q| - 1]);
      if p == 0 then 0 else Child(pages, p, q[|q| - 1])
  }

  /** The leaf descriptor at the end of a path, EMPTY when there is none. */
  function Walk(pages: seq<Page>, t: nat, path: seq<nat>): Pte
    requires 0 < |path|
  {
    var p := Descend(pages, t, path[..|path| - 1]);
    var i := path[|path| - 1];
    if p != 0 && p < |pages| && pages[p].Table? && i < |pages[p].entries| && pages[p].entries[i].valid
    then pages[p].entries[i] else EMPTY
  }

  predicate ValidPath(path: seq<nat>) {
    |path| == 4 && forall k :: 0 <= k < 4 ==> path[k] < ENTRIES
  }

  /** The translation of one page of one address space. */
  function Translate(m: Mem, a: nat, path: seq<nat>): Pte
    requires ValidPath(path)
  {
    if a in m.roots then Walk(m.pages, m.roots[a], path) else EMPTY
  }

  /** What a process can observe of one page: its bytes, and whether it may write or execute
      them. A copy-on-write page counts as writable: the fault handler makes it so. */
  datatype View = Absent | Mapped(bytes: seq<byte>, writable: bool, exec: bool)

  function ViewOf(pages: seq<Page>, e: Pte): View {
    if e.valid && e.pfn < |pages| && pages[e.pfn].Data?
    then Mapped(pages[e.pfn].bytes, e.ap.UserRw? || e.cow, !e.uxn)
    else Absent
  }

  function ViewAt(m: Mem, a: nat, path: seq<nat>): View
    requires ValidPath(path)
  {
    ViewOf(m.pages, Translate(m, a, path))
  }

  // ------------------------------------------------ paths and uniqueness

  /** Following parents upward: the address space and path that lead to a table. */
  ghost predicate LeadsTo(m: Mem, a: nat, q: seq<nat>, t: nat)
    requires Shape(m)
    decreases |q|
  {
    && t in m.own && m.own[t].level == |q|
    && if q == [] then m.own[t].parent == Root(a)
       else
         && m.own[t].parent.Slot? && m.own[t].parent.index == q[|q| - 1]
         && LeadsTo(m, a, q[..|q| - 1], m.own[t].parent.page)
  }

  /** Every table reached from a root is owned, at the level of the path, by that root alone. */
  lemma {:induction false} DescendLeads(m: Mem, a: nat, q: seq<nat>)
    requires Inv(m) && a in m.roots && |q| <= 3
    requires forall k :: 0 <= k < |q| ==> q[k] < ENTRIES
    requires Descend(m.pages, m.roots[a], q) != 0
    ensures LeadsTo(m, a, q, Descend(m.pages, m.roots[a], q))
    ensures m.own[Descend(m.pages, m.roots[a], q)].from == 0
  {
    var t := Descend(m.pages, m.roots[a], q);
    if q == [] {
      assert ParentOk(m, t);
    } else {
      DescendLeads(m, a, q[..|q| - 1]);
      var p := Descend(m.pages, m.roots[a], q[..|q| - 1]);
      assert Live(m, p, q[|q| - 1]);
    }
  }

  /** No sharing: one table page lies on one path of one address space. */
  lemma {:induction false} PathUnique(m: Mem, a: nat, q: seq<nat>, a': nat, q': seq<nat>, t: nat)
    requires Inv(m) && LeadsTo(m, a, q, t) && LeadsTo(m, a', q', t)
    ensures a == a' && q == q'
    decreases |q|
  {
    assert |q| == |q'|;
    if q != [] {
      PathUnique(m, a, q[..|q| - 1], a', q'[..|q'| - 1], m.own[t].parent.page);
      assert q == q[..|q| - 1] + [q[|q| - 1]];
      assert q' == q'[..|q'| - 1] + [q'[|q'| - 1]];
    } else {
      assert q' == [];
    }
  }

  // ------------------------------------------------ writing one descriptor

  /** `table[i] = e` in the page `t`. */
  function WriteEntry(pages: seq<Page>, t: nat, i: nat, e: Pte): (r: seq<Page>)
    requires t < |pages| && pages[t].Table? && i < |pages[t].entries|
    ensures |r| == |pages|
  {
    pages[t := Table(pages[t].entries[i := e])]
  }

  /** An unreferenced page is no table and no leaf's target. */
  lemma FreshUnused(m: Mem, c: nat)
    requires Inv(m) && c < |m.refs| && m.refs[c] == 0
    ensures c !in m.own && LeafRefs(m, c) == {} && m.ext[c] == 0
    ensures forall t: nat, i: nat :: !LeafAt(m, t, i, c)
  {
    assert Counted(m, c);
    assert forall t: nat, i: nat :: LeafAt(m, t, i, c) ==> (t, i) in LeafRefs(m, c);
  }

  /** A writable leaf is the only descriptor of its page, and nobody outside holds the page. */
  lemma WritableIsSole(m: Mem, t: nat, i: nat)
    requires Inv(m) && Live(m, t, i) && m.own[t].level == 3 && m.pages[t].entries[i].ap.UserRw?
    ensures LeafRefs(m, m.pages[t].entries[i].pfn) == {(t, i)} && m.ext[m.pages[t].entries[i].pfn] == 0
  {
    var d := m.pages[t].entries[i].pfn;
    assert LeafOk(m, m.pages[t].entries[i]) && Counted(m, d);
    assert LeafAt(m, t, i, d) && (t, i) in LeafRefs(m, d);
    SubsetCardinality({(t, i)}, LeafRefs(m, d));
  }

  lemma SubsetCardinality<T>(a: set<T>, b: set<T>)
    requires a <= b
    ensures |a| <= |b| && (|a| == |b| ==> a == b)
  {
    assert b == a + (b - a);
  }

  /** The tables of `m'` are those of `m` except for one leaf descriptor. */
  ghost predicate OneLeafChanged(m: Mem, m': Mem, t: nat, i: nat)
    requires Shape(m) && Shape(m')
  {
    && m'.own == m.own && m'.roots == m.roots
    && t in m.own && m.own[t].level == 3 && m.own[t].from == 0 && i < ENTRIES
    && (forall u :: u in m.own && u != t ==> m'.pages[u] == m.pages[u])
    && (forall j :: 0 <= j < ENTRIES && j != i ==> m'.pages[t].entries[j] == m.pages[t].entries[j])
  }

  lemma LeafRefsChange(m: Mem, m': Mem, t: nat, i: nat, d: nat)
    requires Shape(m) && Shape(m') && OneLeafChanged(m, m', t, i)
    ensures var e := m'.pages[t].entries[i];
            LeafRefs(m', d) == LeafRefs(m, d) - {(t, i)} + (if e.valid && e.pfn == d then {(t, i)} else {})
    ensures (t, i) in LeafRefs(m, d) <==> m.pages[t].entries[i].valid && m.pages[t].entries[i].pfn == d
  {
    forall u: nat, j: nat | (u, j) != (t, i)
      ensures LeafAt(m', u, j, d) == LeafAt(m, u, j, d)
    {
    }
    assert LeafAt(m', t, i, d) == (m'.pages[t].entries[i].valid && m'.pages[t].entries[i].pfn == d);
    assert LeafAt(m, t, i, d) == (m.pages[t].entries[i].valid && m.pages[t].entries[i].pfn == d);
  }

  lemma TablesKept(m: Mem, m': Mem, t: nat, i: nat)
    requires Inv(m) && Shape(m') && OneLeafChanged(m, m', t, i)
    ensures Links(m') && Parents(m')
  {
    forall u: nat, j: nat | Live(m', u, j) && m'.own[u].level < 3
      ensures Live(m, u, j) && m'.pages[u].entries[j] == m.pages[u].entries[j]
    {
    }
    forall u | u in m'.own
      ensures ParentOk(m', u)
    {
      assert ParentOk(m, u);
    }
  }

  function Holds(e: Pte, d: nat): nat {
    if e.valid && e.pfn == d then 1 else 0
  }

  lemma CountChange(m: Mem, m': Mem, t: nat, i: nat, d: nat)
    requires Shape(m) && Shape(m') && OneLeafChanged(m, m', t, i)
    ensures |LeafRefs(m', d)| + Holds(m.pages[t].entries[i], d)
         == |LeafRefs(m, d)| + Holds(m'.pages[t].entries[i], d)
  {
    LeafRefsChange(m, m', t, i, d);
  }

  /** The count of page `p` moves with the one changed descriptor. */
  ghost predicate CountsMove(m: Mem, m': Mem, t: nat, i: nat, p: nat)
    requires Shape(m) && Shape(m') && OneLeafChanged(m, m', t, i) && |m'.pages| == |m.pages| && p < |m.pages|
  {
    && m'.refs[p] + m.ext[p] + Holds(m.pages[t].entries[i], p)
    == m.refs[p] + m'.ext[p] + Holds(m'.pages[t].entries[i], p)
    && m'.refs[p] <= REF_LIMIT
    && (p in m.own ==> m'.ext[p] == 0)
  }

  ghost predicate WritableAt(m: Mem, t: nat, i: nat)
    requires Shape(m)
  {
    Live(m, t, i) && m.own[t].level == 3 && m.pages[t].entries[i].ap.UserRw?
  }

  /** A change of one leaf keeps the invariant when the counts move with it and no other
      writable leaf loses its sole ownership. */
  lemma LeafChangeKeepsInv(m: Mem, m': Mem, t: nat, i: nat)
    requires Inv(m) && Shape(m') && OneLeafChanged(m, m', t, i) && |m'.pages| == |m.pages|
    requires forall p :: 0 <= p < |m.pages| && p !in m.own && m.pages[p].Data? ==> m'.pages[p].Data?
    requires m'.pages[t].entries[i].valid ==> LeafOk(m', m'.pages[t].entries[i])
    requires forall p :: 0 <= p < |m.pages| ==> CountsMove(m, m', t, i, p)
    requires forall u: nat, j: nat :: (u, j) != (t, i) && WritableAt(m, u, j) ==>
               m'.refs[m.pages[u].entries[j].pfn] == 1
    ensures Inv(m')
  {
    hide LeafRefs;
    TablesKept(m, m', t, i);
    forall u: nat, j: nat | Live(m', u, j) && m'.own[u].level == 3
      ensures LeafOk(m', m'.pages[u].entries[j])
    {
      if (u, j) != (t, i) {
        assert Live(m, u, j) && m'.pages[u].entries[j] == m.pages[u].entries[j];
      }
    }
    forall p | 0 <= p < |m'.refs|
      ensures Counted(m', p)
    {
      assert Counted(m, p) && CountsMove(m, m', t, i, p);
      assert m.pages[t].entries[i].valid ==> Live(m, t, i) && LeafOk(m, m.pages[t].entries[i]);
      CountChange(m, m', t, i, p);
    }
  }

  /** Other leaves of a page exclude a writable one. */
  lemma WritableElsewhere(m: Mem, t: nat, i: nat, u: nat, j: nat)
    requires Inv(m) && Live(m, t, i) && m.own[t].level == 3
    requires WritableAt(m, u, j) && (u, j) != (t, i)
    ensures m.pages[u].entries[j].pfn != m.pages[t].entries[i].pfn
  {
    WritableIsSole(m, u, j);
    assert LeafAt(m, t, i, m.pages[t].entries[i].pfn);
    assert (t, i) in LeafRefs(m, m.pages[t].entries[i].pfn);
  }

  /** Adding a page to the owned tables keeps the rest of the invariant. */
  lemma NewTableKeepsInv(m: Mem, m': Mem, c: nat)
    requires Inv(m) && Shape(m') && |m'.pages| == |m.pages|
    requires 0 < c < |m.refs| && m.refs[c] == 0
    requires m'.refs == m.refs[c := 1] && m'.ext == m.ext
    requires c in m'.own && m'.own == m.own[c := m'.own[c]] && m'.own[c].from == 0
    requires m'.pages[c] == ZeroTable()
    requires forall p :: 0 <= p < |m.pages| && p != c && (p !in m.own || m.own[p].level == 3) ==>
             m'.pages[p] == m.pages[p]
    requires Links(m') && Parents(m')
    ensures Inv(m')
  {
    hide Links, Parents, ParentOk;
    FreshUnused(m, c);
    hide LeafRefs;
    assert forall u: nat, j: nat :: Live(m', u, j) && m'.own[u].level == 3 <==> Live(m, u, j) && m.own[u].level == 3;
    forall u: nat, j: nat | Live(m', u, j) && m'.own[u].level == 3
      ensures LeafOk(m', m'.pages[u].entries[j])
    {
      assert LeafAt(m, u, j, m.pages[u].entries[j].pfn) && LeafOk(m, m.pages[u].entries[j]);
    }
    forall p | 0 <= p < |m'.refs|
      ensures Counted(m', p)
    {
      assert Counted(m, p);
      SameLeafRefs(m, m', p);
    }
  }

  lemma SameLeafRefs(m: Mem, m': Mem, p: nat)
    requires Shape(m) && Shape(m') && forall u: nat, j: nat :: LeafAt(m', u, j, p) == LeafAt(m, u, j, p)
    ensures LeafRefs(m', p) == LeafRefs(m, p)
  {
  }

  // ------------------------------------------------ the primitive steps

  /** Give up one outside reference of `d`, or take one. */
  function Dec(s: seq<nat>, d: nat): (r: seq<nat>)
    requires d < |s| && 0 < s[d]
    ensures |r| == |s|
  {
    s[d := s[d] - 1]
  }

  function Inc(s: seq<nat>, d: nat): (r: seq<nat>)
    requires d < |s|
    ensures |r| == |s|
  {
    s[d := s[d] + 1]
  }

  ghost predicate LeafSlot(m: Mem, t: nat, i: nat)
    requires Shape(m)
  {
    t in m.own && m.own[t].level == 3 && m.own[t].from == 0 && i < ENTRIES
  }

  /** A new empty table hung into an empty slot of a table above the leaf level. */
  function Attach(m: Mem, t: nat, i: nat, c: nat): Mem
    requires |m.refs| == |m.pages| && c < |m.pages| && t < |m.pages| && t in m.own
    requires t != c && m.pages[t].Table? && i < |m.pages[t].entries|
  {
    m.(pages := WriteEntry(m.pages[c := ZeroTable()], t, i, TablePte(c)),
       refs := m.refs[c := 1],
       own := m.own[c := Owner(m.own[t].level + 1, Slot(t, i), 0)])
  }

  lemma AttachKeepsInv(m: Mem, t: nat, i: nat, c: nat)
    requires Inv(m) && t in m.own && m.own[t].level < 3 && m.own[t].from == 0 && i < ENTRIES
    requires !m.pages[t].entries[i].valid
    requires 0 < c < |m.refs| && m.refs[c] == 0
    ensures c !in m.own && Inv(Attach(m, t, i, c))
  {
    hide Links, Parents, Leaves, Counts;
    FreshUnused(m, c);
    var m' := Attach(m, t, i, c);
    AttachShape(m, t, i, c);
    AttachLinks(m, t, i, c);
    NewTableKeepsInv(m, m', c);
  }

  ghost predicate Attachable(m: Mem, t: nat, i: nat, c: nat)
    requires Shape(m)
  {
    && t in m.own && m.own[t].level < 3 && m.own[t].from == 0 && i < ENTRIES && !m.pages[t].entries[i].valid
    && 0 < c < |m.refs| && c !in m.own
  }

  lemma AttachShape(m: Mem, t: nat, i: nat, c: nat)
    requires Shape(m) && Attachable(m, t, i, c)
    ensures var m' := Attach(m, t, i, c);
            Shape(m') && forall u: nat, j: nat :: Live(m', u, j) <==> Live(m, u, j) || (u == t && j == i)
  {
    var m' := Attach(m, t, i, c);
    assert Shape(m');
  }

  lemma AttachLinks(m: Mem, t: nat, i: nat, c: nat)
    requires Shape(m) && Links(m) && Parents(m) && Attachable(m, t, i, c) && Shape(Attach(m, t, i, c))
    ensures Links(Attach(m, t, i, c)) && Parents(Attach(m, t, i, c))
  {
    hide Shape;
    AttachShape(m, t, i, c);
    ShapeParts(m);
    var m' := Attach(m, t, i, c);
    forall u | u in m'.own
      ensures ParentOk(m', u)
    {
      if u != c {
        assert ParentOk(m, u);
      }
    }
  }

  lemma ShapeParts(m: Mem)
    requires Shape(m)
    ensures |m.refs| == |m.pages| == |m.ext| && forall t :: t in m.own ==>
            0 < t < |m.pages| && m.pages[t].Table? && |m.pages[t].entries| == ENTRIES
  {
    assert forall t :: t in m.own ==> PageOk(m.pages[t]);
  }

  /** A new address space with an empty root table. */
  function NewRoot(m: Mem, a: nat, c: nat): Mem
    requires |m.refs| == |m.pages| && c < |m.pages|
  {
    m.(pages := m.pages[c := ZeroTable()], refs := m.refs[c := 1],
       roots := m.roots[a := c], own := m.own[c := Owner(0, Root(a), 0)])
  }

  lemma NewRootKeepsInv(m: Mem, a: nat, c: nat)
    requires Inv(m) && a !in m.roots && 0 < c < |m.refs| && m.refs[c] == 0
    ensures c !in m.own && Inv(NewRoot(m, a, c))
  {
    hide Links, Parents, Leaves, Counts;
    FreshUnused(m, c);
    NewRootShape(m, a, c);
    NewRootLinks(m, a, c);
    NewTableKeepsInv(m, NewRoot(m, a, c), c);
  }

  lemma NewRootShape(m: Mem, a: nat, c: nat)
    requires Shape(m) && a !in m.roots && 0 < c < |m.refs| && c !in m.own
    ensures Shape(NewRoot(m, a, c)) && forall u: nat, j: nat :: Live(NewRoot(m, a, c), u, j) <==> Live(m, u, j)
  {
    assert Shape(NewRoot(m, a, c));
  }

  lemma NewRootLinks(m: Mem, a: nat, c: nat)
    requires Shape(m) && Links(m) && Parents(m) && a !in m.roots && 0 < c < |m.refs| && c !in m.own &&
             Shape(NewRoot(m, a, c))
    ensures Links(NewRoot(m, a, c)) && Parents(NewRoot(m, a, c))
  {
    hide Shape;
    NewRootShape(m, a, c);
    ShapeParts(m);
    var m' := NewRoot(m, a, c);
    forall u | u in m'.own
      ensures ParentOk(m', u)
    {
      if u != c {
        assert ParentOk(m, u);
      }
    }
  }

  /** A leaf written into a slot: the outside reference of its page becomes the slot's, and
      a page the slot held before is left with a reference that no table holds. */
  function Install(m: Mem, t: nat, i: nat, e: Pte): Mem
    requires t < |m.pages| && m.pages[t].Table? && i < |m.pages[t].entries|
    requires e.pfn < |m.ext| && 0 < m.ext[e.pfn]
    requires m.pages[t].entries[i].valid ==> m.pages[t].entries[i].pfn < |m.ext|
  {
    var o := m.pages[t].entries[i];
    var ext := Dec(m.ext, e.pfn);
    m.(pages := WriteEntry(m.pages, t, i, e), ext := if o.valid then Inc(ext, o.pfn) else ext)
  }

  lemma InstallKeepsInv(m: Mem, t: nat, i: nat, e: Pte)
    requires Inv(m) && LeafSlot(m, t, i)
    requires e.valid && LeafOk(m, e) && 0 < m.ext[e.pfn]
    ensures m.pages[t].entries[i].valid ==> m.pages[t].entries[i].pfn < |m.ext|
    ensures Inv(Install(m, t, i, e))
  {
    var o := m.pages[t].entries[i];
    assert o.valid ==> Live(m, t, i) && LeafOk(m, o);
    var m' := Install(m, t, i, e);
    assert Shape(m') && OneLeafChanged(m, m', t, i);
    forall p | 0 <= p < |m.pages|
      ensures CountsMove(m, m', t, i, p)
    {
      assert Counted(m, p);
    }
    assert forall u: nat, j: nat :: Live(m, u, j) && m.own[u].level == 3 ==> LeafOk(m, m.pages[u].entries[j]);
    LeafChangeKeepsInv(m, m', t, i);
  }

  /** A leaf removed: its page loses one reference. */
  function Clear(m: Mem, t: nat, i: nat): Mem
    requires t < |m.pages| && m.pages[t].Table? && i < |m.pages[t].entries|
    requires m.pages[t].entries[i].pfn < |m.refs| && 0 < m.refs[m.pages[t].entries[i].pfn]
  {
    m.(pages := WriteEntry(m.pages, t, i, EMPTY), refs := Dec(m.refs, m.pages[t].entries[i].pfn))
  }

  lemma ClearKeepsInv(m: Mem, t: nat, i: nat)
    requires Inv(m) && LeafSlot(m, t, i) && m.pages[t].entries[i].valid
    ensures m.pages[t].entries[i].pfn < |m.refs| && 0 < m.refs[m.pages[t].entries[i].pfn]
    ensures Inv(Clear(m, t, i))
  {
    var o := m.pages[t].entries[i];
    assert Live(m, t, i) && LeafOk(m, o) && Counted(m, o.pfn) && (t, i) in LeafRefs(m, o.pfn);
    var m' := Clear(m, t, i);
    assert Shape(m') && OneLeafChanged(m, m', t, i);
    forall p | 0 <= p < |m.pages|
      ensures CountsMove(m, m', t, i, p)
    {
      assert Counted(m, p);
    }
    forall u: nat, j: nat | (u, j) != (t, i) && WritableAt(m, u, j)
      ensures m'.refs[m.pages[u].entries[j].pfn] == 1
    {
      WritableElsewhere(m, t, i, u, j);
    }
    LeafChangeKeepsInv(m, m', t, i);
  }

  function MakeWritable(e: Pte): Pte {
    e.(ap := UserRw, cow := false)
  }

  /** A copy-on-write leaf that is its page's last reference becomes writable in place. */
  function Reuse(m: Mem, t: nat, i: nat): Mem
    requires t < |m.pages| && m.pages[t].Table? && i < |m.pages[t].entries|
  {
    m.(pages := WriteEntry(m.pages, t, i, MakeWritable(m.pages[t].entries[i])))
  }

  lemma ReuseKeepsInv(m: Mem, t: nat, i: nat)
    requires Inv(m) && LeafSlot(m, t, i) && m.pages[t].entries[i].valid
    requires m.pages[t].entries[i].pfn < |m.refs| && m.refs[m.pages[t].entries[i].pfn] == 1
    ensures Inv(Reuse(m, t, i))
  {
    assert Live(m, t, i) && LeafOk(m, m.pages[t].entries[i]);
    var m' := Reuse(m, t, i);
    assert Shape(m') && OneLeafChanged(m, m', t, i);
    forall p | 0 <= p < |m.pages|
      ensures CountsMove(m, m', t, i, p)
    {
      assert Counted(m, p);
    }
    LeafChangeKeepsInv(m, m', t, i);
  }

  /** A shared copy-on-write leaf gets a private writable copy `c` of its page. */
  function Copy(m: Mem, t: nat, i: nat, c: nat): Mem
    requires t < |m.pages| && m.pages[t].Table? && i < |m.pages[t].entries|
    requires |m.refs| == |m.pages| && c < |m.pages| && c != t
    requires var d := m.pages[t].entries[i].pfn; d < |m.pages| && d != c && 0 < m.refs[d]
  {
    var e := m.pages[t].entries[i];
    m.(pages := WriteEntry(m.pages[c := m.pages[e.pfn]], t, i, MakeWritable(e.(pfn := c))),
       refs := Dec(m.refs[c := 1], e.pfn))
  }

  lemma CopyKeepsInv(m: Mem, t: nat, i: nat, c: nat)
    requires Inv(m) && LeafSlot(m, t, i) && m.pages[t].entries[i].valid && m.pages[t].entries[i].cow
    requires 0 < c < |m.refs| && m.refs[c] == 0
    ensures var d := m.pages[t].entries[i].pfn; d < |m.pages| && d != c && 0 < m.refs[d] && c != t
    ensures Inv(Copy(m, t, i, c))
  {
    FreshUnused(m, c);
    var o := m.pages[t].entries[i];
    assert Live(m, t, i) && LeafOk(m, o) && Counted(m, o.pfn) && (t, i) in LeafRefs(m, o.pfn);
    var m' := Copy(m, t, i, c);
    assert Shape(m') && OneLeafChanged(m, m', t, i);
    forall p | 0 <= p < |m.pages|
      ensures CountsMove(m, m', t, i, p)
    {
      assert Counted(m, p);
    }
    forall u: nat, j: nat | (u, j) != (t, i) && WritableAt(m, u, j)
      ensures m'.refs[m.pages[u].entries[j].pfn] == 1
    {
      WritableElsewhere(m, t, i, u, j);
      assert LeafAt(m, u, j, m.pages[u].entries[j].pfn);
    }
    LeafChangeKeepsInv(m, m', t, i);
  }

  /** What `clone_table_cow` leaves in both tables for a leaf that was writable or copy-on-write. */
  function Shared(e: Pte): Pte {
    if e.ap.UserRw? || e.cow then e.(ap := UserRo, cow := true) else e
  }

  /** One leaf duplicated by fork: counted once more, write-protected on both sides. */
  function CloneLeaf(m: Mem, t: nat, i: nat, dt: nat): Mem
    requires t < |m.pages| && m.pages[t].Table? && i < |m.pages[t].entries|
    requires dt < |m.pages| && m.pages[dt].Table? && i < |m.pages[dt].entries|
    requires m.pages[t].entries[i].pfn < |m.refs|
  {
    var e := Shared(m.pages[t].entries[i]);
    m.(pages := WriteEntry(WriteEntry(m.pages, t, i, e), dt, i, e),
       refs := Inc(m.refs, e.pfn))
  }

  /** The source half: the leaf write-protected, the new reference still in hand. */
  lemma ShareInHand(m: Mem, t: nat, i: nat)
    requires Inv(m) && LeafSlot(m, t, i) && m.pages[t].entries[i].valid
    requires m.pages[t].entries[i].pfn < |m.refs| && m.refs[m.pages[t].entries[i].pfn] < REF_LIMIT
    ensures var e := Shared(m.pages[t].entries[i]);
            && e.pfn < |m.ext|
            && var m1 := m.(pages := WriteEntry(m.pages, t, i, e), refs := Inc(m.refs, e.pfn),
                ext := Inc(m.ext, e.pfn));
               Inv(m1) && LeafOk(m1, e) && 0 < m1.ext[e.pfn]
  {
    var o := m.pages[t].entries[i];
    assert Live(m, t, i) && LeafOk(m, o) && Counted(m, o.pfn);
    var e := Shared(o);
    var m1 := m.(pages := WriteEntry(m.pages, t, i, e), refs := Inc(m.refs, e.pfn), ext := Inc(m.ext, e.pfn));
    assert Shape(m1) && OneLeafChanged(m, m1, t, i);
    forall p | 0 <= p < |m.pages|
      ensures CountsMove(m, m1, t, i, p)
    {
      assert Counted(m, p);
    }
    forall u: nat, j: nat | (u, j) != (t, i) && WritableAt(m, u, j)
      ensures m1.refs[m.pages[u].entries[j].pfn] == 1
    {
      WritableElsewhere(m, t, i, u, j);
    }
    LeafChangeKeepsInv(m, m1, t, i);
  }

  lemma CloneLeafKeepsInv(m: Mem, t: nat, i: nat, dt: nat)
    requires Inv(m) && LeafSlot(m, t, i) && m.pages[t].entries[i].valid
    requires LeafSlot(m, dt, i) && dt != t && !m.pages[dt].entries[i].valid
    requires m.pages[t].entries[i].pfn < |m.refs| && m.refs[m.pages[t].entries[i].pfn] < REF_LIMIT
    ensures Inv(CloneLeaf(m, t, i, dt))
  {
    hide Counted, ParentOk, Links, LeafOk;
    var e := Shared(m.pages[t].entries[i]);
    ShareInHand(m, t, i);
    var m1 := m.(pages := WriteEntry(m.pages, t, i, e), refs := Inc(m.refs, e.pfn), ext := Inc(m.ext, e.pfn));
    InstallKeepsInv(m1, dt, i, e);
    assert Install(m1, dt, i, e).ext == m.ext;
    assert Install(m1, dt, i, e) == CloneLeaf(m, t, i, dt);
  }

  /** A leaf carried from one slot to an empty one. */
  function Move(m: Mem, t: nat, i: nat, t2: nat, i2: nat): Mem
    requires t < |m.pages| && m.pages[t].Table? && i < |m.pages[t].entries|
    requires t2 < |m.pages| && m.pages[t2].Table? && i2 < |m.pages[t2].entries|
  {
    m.(pages := WriteEntry(WriteEntry(m.pages, t2, i2, m.pages[t].entries[i]), t, i, EMPTY))
  }

  /** A leaf taken out of its slot, its reference held in hand. */
  function TakeOut(m: Mem, t: nat, i: nat): Mem
    requires t < |m.pages| && m.pages[t].Table? && i < |m.pages[t].entries| && m.pages[t].entries[i].pfn < |m.ext|
  {
    m.(pages := WriteEntry(m.pages, t, i, EMPTY), ext := Inc(m.ext, m.pages[t].entries[i].pfn))
  }

  lemma TakeOutKeepsInv(m: Mem, t: nat, i: nat)
    requires Inv(m) && LeafSlot(m, t, i) && m.pages[t].entries[i].valid
    ensures m.pages[t].entries[i].pfn < |m.ext| && Inv(TakeOut(m, t, i))
    ensures var m1 := TakeOut(m, t, i); LeafOk(m1, m.pages[t].entries[i]) && 0 < m1.ext[m.pages[t].entries[i].pfn]
  {
    var e := m.pages[t].entries[i];
    assert Live(m, t, i) && LeafOk(m, e);
    var m1 := TakeOut(m, t, i);
    assert Shape(m1) && OneLeafChanged(m, m1, t, i);
    forall p | 0 <= p < |m.pages|
      ensures CountsMove(m, m1, t, i, p)
    {
      assert Counted(m, p);
    }
    forall u: nat, j: nat | (u, j) != (t, i) && WritableAt(m, u, j)
      ensures m1.refs[m.pages[u].entries[j].pfn] == 1
    {
      assert LeafOk(m, m.pages[u].entries[j]);
    }
    LeafChangeKeepsInv(m, m1, t, i);
  }

  /** Moving is taking out of one slot and installing in the other. */
  lemma MoveKeepsInv(m: Mem, t: nat, i: nat, t2: nat, i2: nat)
    requires Inv(m) && LeafSlot(m, t, i) && m.pages[t].entries[i].valid
    requires LeafSlot(m, t2, i2) && !m.pages[t2].entries[i2].valid
    ensures m.pages[t].entries[i].pfn < |m.ext| && Inv(Move(m, t, i, t2, i2))
    ensures var m1 := TakeOut(m, t, i);
            && Inv(m1) && t2 in m1.own && m1.pages[t2].Table? && |m1.pages[t2].entries| == ENTRIES
            && !m1.pages[t2].entries[i2].valid && 0 < m1.ext[m.pages[t].entries[i].pfn]
            && Move(m, t, i, t2, i2) == Install(m1, t2, i2, m.pages[t].entries[i])
  {
    hide Counted, ParentOk, Links;
    var e := m.pages[t].entries[i];
    TakeOutKeepsInv(m, t, i);
    var m1 := TakeOut(m, t, i);
    InstallKeepsInv(m1, t2, i2, e);
    var m' := Move(m, t, i, t2, i2);
    assert Install(m1, t2, i2, e).pages[t].entries == m'.pages[t].entries;
    assert Install(m1, t2, i2, e).pages[t2].entries == m'.pages[t2].entries;
    assert Install(m1, t2, i2, e).pages == m'.pages;
    assert Install(m1, t2, i2, e).ext == m'.ext;
  }

  /** New contents for a page that is not a table. */
  function Store(m: Mem, d: nat, bytes: seq<byte>): Mem
    requires d < |m.pages|
  {
    m.(pages := m.pages[d := Data(bytes)])
  }

  lemma StoreKeepsInv(m: Mem, d: nat, bytes: seq<byte>)
    requires Inv(m) && d < |m.pages| && d !in m.own && |bytes| == PAGE_BYTES
    ensures Inv(Store(m, d, bytes))
  {
    hide Counted;
    var m' := Store(m, d, bytes);
    assert Shape(m');
    assert forall u: nat, j: nat :: Live(m', u, j) == Live(m, u, j);
    assert Links(m') && Leaves(m');
    assert forall u :: u in m.own ==> ParentOk(m, u) && ParentOk(m', u);
    SameLeavesKeepCounts(m, m');
  }

  lemma SameLeavesKeepCounts(m: Mem, m': Mem)
    requires Shape(m) && Shape(m') && Counts(m) && m'.refs == m.refs && m'.ext == m.ext && m'.own.Keys == m.own.Keys
    requires forall u: nat, j: nat :: Live(m', u, j) == Live(m, u, j)
    requires forall u :: u in m.own ==> m'.pages[u] == m.pages[u] && m'.own[u].level == m.own[u].level
    ensures Counts(m')
  {
    forall p | 0 <= p < |m'.refs|
      ensures Counted(m', p)
    {
      assert Counted(m, p);
      assert forall u: nat, j: nat :: LeafAt(m', u, j, p) == LeafAt(m, u, j, p);
      assert LeafRefs(m', p) == LeafRefs(m, p);
    }
  }

  /** A reference taken or dropped by an owner outside the tables, or a page allocated for one. */
  function Outside(m: Mem, d: nat, page: Page, refs: nat, ext: nat): Mem
    requires d < |m.pages| && |m.refs| == |m.pages| && |m.ext| == |m.pages|
  {
    m.(pages := m.pages[d := page], refs := m.refs[d := refs], ext := m.ext[d := ext])
  }

  lemma OutsideKeepsInv(m: Mem, d: nat, page: Page, refs: nat, ext: nat)
    requires Inv(m) && d < |m.pages| && d !in m.own && PageOk(page) && refs <= REF_LIMIT
    requires page == m.pages[d] || (m.refs[d] == m.ext[d] && page.Data?)
    requires refs + m.ext[d] == m.refs[d] + ext && (m.refs[d] == 0 || 0 < m.ext[d])
    ensures Inv(Outside(m, d, page, refs, ext))
  {
    hide Links, Parents, Leaves, Counts;
    OutsideShape(m, d, page, refs, ext);
    OutsideLinks(m, d, page, refs, ext);
    OutsideLeaves(m, d, page, refs, ext);
    OutsideCounts(m, d, page, refs, ext);
  }

  lemma OutsideShape(m: Mem, d: nat, page: Page, refs: nat, ext: nat)
    requires Shape(m) && d < |m.pages| && d !in m.own && PageOk(page)
    ensures Shape(Outside(m, d, page, refs, ext))
    ensures forall u: nat, j: nat :: Live(Outside(m, d, page, refs, ext), u, j) == Live(m, u, j)
  {
    assert Shape(Outside(m, d, page, refs, ext));
  }

  lemma OutsideLinks(m: Mem, d: nat, page: Page, refs: nat, ext: nat)
    requires Shape(m) && Links(m) && Parents(m) && d < |m.pages| && d !in m.own && PageOk(page) &&
             Shape(Outside(m, d, page, refs, ext))
    ensures Links(Outside(m, d, page, refs, ext)) && Parents(Outside(m, d, page, refs, ext))
  {
    hide Shape;
    ShapeParts(m);
    OutsideShape(m, d, page, refs, ext);
    var m' := Outside(m, d, page, refs, ext);
    assert forall u :: u in m.own ==> ParentOk(m, u) && ParentOk(m', u);
  }

  lemma OutsideLeaves(m: Mem, d: nat, page: Page, refs: nat, ext: nat)
    requires Inv(m) && d < |m.pages| && d !in m.own && PageOk(page) && Shape(Outside(m, d, page, refs, ext))
    requires page == m.pages[d] || (m.refs[d] == m.ext[d] && page.Data?)
    requires refs + m.ext[d] == m.refs[d] + ext && (m.refs[d] == 0 || 0 < m.ext[d])
    ensures Leaves(Outside(m, d, page, refs, ext))
  {
    hide Links, Parents, ParentOk;
    var m' := Outside(m, d, page, refs, ext);
    assert Counted(m, d);
    forall u: nat, j: nat | Live(m', u, j) && m'.own[u].level == 3
      ensures LeafOk(m', m'.pages[u].entries[j])
    {
      var e := m.pages[u].entries[j];
      assert LeafOk(m, e) && LeafAt(m, u, j, e.pfn);
      if e.pfn == d {
        assert (u, j) in LeafRefs(m, d);
        if e.ap.UserRw? {
          WritableIsSole(m, u, j);
        }
      }
    }
  }

  lemma OutsideCounts(m: Mem, d: nat, page: Page, refs: nat, ext: nat)
    requires Shape(m) && Counts(m) && d < |m.pages| && d !in m.own && PageOk(page) && refs <= REF_LIMIT &&
             Shape(Outside(m, d, page, refs, ext))
    requires refs + m.ext[d] == m.refs[d] + ext
    ensures Counts(Outside(m, d, page, refs, ext))
  {
    hide LeafRefs;
    var m' := Outside(m, d, page, refs, ext);
    forall p | 0 <= p < |m'.refs|
      ensures Counted(m', p)
    {
      assert Counted(m, p);
      assert forall u: nat, j: nat :: LeafAt(m', u, j, p) == LeafAt(m, u, j, p);
      SameLeafRefs(m, m', p);
    }
  }

  // ------------------------------------------------ tearing a tree down

  /** The root of an address space let go. */
  function DetachRoot(m: Mem, a: nat): Mem
    requires a in m.roots && m.roots[a] in m.own
  {
    m.(roots := m.roots - {a}, own := m.own[m.roots[a] := m.own[m.roots[a]].(parent := Detached)])
  }

  lemma DetachRootKeepsInv(m: Mem, a: nat)
    requires Inv(m) && a in m.roots
    ensures m.roots[a] in m.own && Inv(DetachRoot(m, a))
  {
    hide Counted, LeafOk;
    var m' := DetachRoot(m, a);
    assert Shape(m');
    assert forall u: nat, j: nat :: Live(m', u, j) == Live(m, u, j);
    assert ParentOk(m, m.roots[a]);
    forall u: nat, j: nat | Live(m, u, j) && m.own[u].level < 3
      ensures m.own[m.pages[u].entries[j].pfn].parent == Slot(u, j)
    {
    }
    OwnersKeepTables(m, m');
    SameLeavesKeepCounts(m, m');
  }

  /** Only the bookkeeping of tables changed, and no descriptor counts that did not before. */
  ghost predicate OwnersOnly(m: Mem, m': Mem)
    requires Shape(m) && Shape(m')
  {
    && m'.pages == m.pages && m'.refs == m.refs && m'.own.Keys == m.own.Keys
    && (forall u :: u in m.own ==> m'.own[u].level == m.own[u].level)
    && (forall u :: u in m.own ==> m'.own[u].parent == m.own[u].parent || m'.own[u].parent.Detached?)
    && (forall u: nat, j: nat :: Live(m', u, j) ==> Live(m, u, j))
  }

  /** Roots are kept or let go with their tables, and a descriptor counts as long as its child is not let go. */
  ghost predicate Consistent(m: Mem, m': Mem)
    requires Shape(m) && Shape(m') && Links(m) && Parents(m) && OwnersOnly(m, m')
  {
    && (forall a :: a in m'.roots ==> a in m.roots && m'.roots[a] == m.roots[a] && m'.own[m.roots[a]].parent == Root(a))
    && (forall a :: a in m.roots && a !in m'.roots ==> m'.own[m.roots[a]].parent.Detached?)
    && (forall u: nat, j: nat :: Live(m, u, j) && m.own[u].level < 3 ==>
          (Live(m', u, j) <==> !m'.own[m.pages[u].entries[j].pfn].parent.Detached?))
  }

  lemma OwnersKeepLinks(m: Mem, m': Mem)
    requires Shape(m) && Shape(m') && Links(m) && Parents(m) && OwnersOnly(m, m') && Consistent(m, m')
    ensures Links(m')
  {
    hide ParentOk, Parents;
  }

  lemma OwnersKeepParents(m: Mem, m': Mem)
    requires Shape(m) && Shape(m') && Links(m) && Parents(m) && OwnersOnly(m, m') && Consistent(m, m')
    ensures Parents(m')
  {
    forall u | u in m'.own
      ensures ParentOk(m', u)
    {
      assert ParentOk(m, u);
    }
  }

  lemma OwnersKeepLeaves(m: Mem, m': Mem)
    requires Shape(m) && Shape(m') && Leaves(m) && OwnersOnly(m, m')
    ensures Leaves(m')
  {
    forall u: nat, j: nat | Live(m', u, j) && m'.own[u].level == 3
      ensures LeafOk(m', m'.pages[u].entries[j])
    {
      assert Live(m, u, j) && LeafOk(m, m.pages[u].entries[j]);
    }
  }

  lemma OwnersKeepTables(m: Mem, m': Mem)
    requires Inv(m) && Shape(m') && OwnersOnly(m, m') && Consistent(m, m')
    ensures Links(m') && Parents(m') && Leaves(m')
  {
    hide Shape, Links, Parents, Leaves, Counts, OwnersOnly, Consistent;
    OwnersKeepLinks(m, m');
    OwnersKeepParents(m, m');
    OwnersKeepLeaves(m, m');
  }

  ghost predicate Passable(m: Mem, t: nat)
    requires Shape(m)
  {
    t in m.own && m.own[t].parent.Detached? && m.own[t].from < ENTRIES
  }

  /** The entry at `from` of a table being destroyed no longer counts. */
  function Advance(own: map<nat, Owner>, t: nat): map<nat, Owner>
    requires t in own
  {
    own[t := own[t].(from := own[t].from + 1)]
  }

  /** An empty entry passed over. */
  function PassEmpty(m: Mem, t: nat): Mem
    requires t in m.own
  {
    m.(own := Advance(m.own, t))
  }

  lemma PassEmptyKeepsInv(m: Mem, t: nat)
    requires Inv(m) && Passable(m, t) && !m.pages[t].entries[m.own[t].from].valid
    ensures Inv(PassEmpty(m, t))
  {
    hide Counted, LeafOk, ParentOk;
    var m' := PassEmpty(m, t);
    assert Shape(m');
    assert forall u: nat, j: nat :: Live(m', u, j) == Live(m, u, j);
    OwnersKeepTables(m, m');
    SameLeavesKeepCounts(m, m');
  }

  /** A table descriptor passed over: its child is let go, to be destroyed next. */
  function PassTable(m: Mem, t: nat, c: nat): Mem
    requires t in m.own && c in m.own
  {
    m.(own := Advance(m.own, t)[c := m.own[c].(parent := Detached)])
  }

  lemma PassTableKeepsInv(m: Mem, t: nat)
    requires Inv(m) && Passable(m, t) && m.pages[t].entries[m.own[t].from].valid && m.own[t].level < 3
    ensures var c := m.pages[t].entries[m.own[t].from].pfn;
            c in m.own && c != t && m.own[c].level == m.own[t].level + 1 && m.own[c].from == 0 &&
                Inv(PassTable(m, t, c))
  {
    hide Links, Parents, Leaves, Counts, OwnersOnly, Consistent;
    var i := m.own[t].from;
    PassedChild(m, t);
    var c := m.pages[t].entries[i].pfn;
    var m' := PassTable(m, t, c);
    PassTableOwners(m, t);
    OwnersKeepTables(m, m');
    FewerLeavesKeepCounts(m, m', t, i);
  }

  lemma PassedChild(m: Mem, t: nat)
    requires Shape(m) && Links(m) && Passable(m, t) && m.pages[t].entries[m.own[t].from].valid && m.own[t].level < 3
    ensures var c := m.pages[t].entries[m.own[t].from].pfn;
            c in m.own && c != t && m.own[c].level == m.own[t].level + 1 && m.own[c].from == 0 &&
                m.own[c].parent == Slot(t, m.own[t].from)
    ensures Live(m, t, m.own[t].from)
  {
    assert Live(m, t, m.own[t].from);
  }

  lemma PassTableOwners(m: Mem, t: nat)
    requires Shape(m) && Links(m) && Parents(m) && Passable(m, t) && m.pages[t].entries[m.own[t].from].valid &&
             m.own[t].level < 3
    ensures var i := m.own[t].from;
            var c := m.pages[t].entries[i].pfn;
            && c in m.own
            && var m' := PassTable(m, t, c);
               && Shape(m') && OwnersOnly(m, m') && Consistent(m, m')
               && (forall u :: u in m.own ==> m'.own[u].level == m.own[u].level)
               && (forall u: nat, j: nat :: Live(m', u, j) <==> Live(m, u, j) && (u, j) != (t, i))
  {
    hide Links, Parents, OwnersOnly, Consistent;
    PassedChild(m, t);
    PassTableShape(m, t, m.pages[t].entries[m.own[t].from].pfn);
    PassTableConsistent(m, t);
  }

  lemma PassTableShape(m: Mem, t: nat, c: nat)
    requires Shape(m) && Passable(m, t) && c in m.own && c != t && m.own[c].from == 0
    ensures var m' := PassTable(m, t, c);
            && Shape(m') && (forall u: nat, j: nat :: Live(m', u, j) <==> Live(m, u, j) && (u, j) != (t, m.own[t].from))
            && (forall u :: u in m.own ==> m'.own[u].level == m.own[u].level)
  {
    assert Shape(PassTable(m, t, c));
  }

  lemma PassTableConsistent(m: Mem, t: nat)
    requires Shape(m) && Links(m) && Parents(m) && Passable(m, t) && m.pages[t].entries[m.own[t].from].valid &&
             m.own[t].level < 3
    requires m.pages[t].entries[m.own[t].from].pfn in m.own &&
             Shape(PassTable(m, t, m.pages[t].entries[m.own[t].from].pfn))
    ensures var m' := PassTable(m, t, m.pages[t].entries[m.own[t].from].pfn);
            OwnersOnly(m, m') && Consistent(m, m')
  {
    hide Shape, ParentOk;
    ShapeParts(m);
    PassedChild(m, t);
    PassTableShape(m, t, m.pages[t].entries[m.own[t].from].pfn);
  }

  /** Not counting one descriptor any more hands its page's reference, if it had one, to `ext`. */
  lemma FewerLeavesKeepCounts(m: Mem, m': Mem, t: nat, i: nat)
    requires Inv(m) && Shape(m') && m'.refs == m.refs && m'.pages == m.pages && m'.own.Keys == m.own.Keys
    requires forall u :: u in m.own ==> m'.own[u].level == m.own[u].level
    requires Live(m, t, i)
    requires forall u: nat, j: nat :: Live(m', u, j) <==> Live(m, u, j) && (u, j) != (t, i)
    requires m'.ext == if m.own[t].level == 3 && m.pages[t].entries[i].pfn < |m.ext|
                       then Inc(m.ext, m.pages[t].entries[i].pfn) else m.ext
    ensures Counts(m')
  {
    assert m.own[t].level == 3 ==> LeafOk(m, m.pages[t].entries[i]);
    forall p | 0 <= p < |m'.refs|
      ensures Counted(m', p)
    {
      assert Counted(m, p);
      assert forall u: nat, j: nat :: LeafAt(m', u, j, p) <==> LeafAt(m, u, j, p) && (u, j) != (t, i);
      assert LeafRefs(m', p) == LeafRefs(m, p) - {(t, i)};
      assert (t, i) in LeafRefs(m, p) <==> LeafAt(m, t, i, p);
    }
  }

  /** A leaf passed over: its page loses a reference. */
  function PassLeaf(m: Mem, t: nat, d: nat): Mem
    requires t in m.own && d < |m.refs| && 0 < m.refs[d]
  {
    m.(own := Advance(m.own, t), refs := Dec(m.refs, d))
  }

  /** The reference of a leaf passed over is first held outside the tables. */
  lemma HandOver(m: Mem, t: nat)
    requires Inv(m) && Passable(m, t) && m.pages[t].entries[m.own[t].from].valid && m.own[t].level == 3
    requires m.pages[t].entries[m.own[t].from].pfn < |m.ext|
    ensures Inv(m.(own := Advance(m.own, t), ext := Inc(m.ext, m.pages[t].entries[m.own[t].from].pfn)))
  {
    hide Links, Parents, Leaves, Counts, OwnersOnly, Consistent;
    var i := m.own[t].from;
    assert Live(m, t, i);
    var m1 := m.(own := Advance(m.own, t), ext := Inc(m.ext, m.pages[t].entries[i].pfn));
    HandOverOwners(m, t);
    OwnersKeepTables(m, m1);
    FewerLeavesKeepCounts(m, m1, t, i);
  }

  lemma HandOverOwners(m: Mem, t: nat)
    requires Shape(m) && Links(m) && Parents(m) && Passable(m, t) && m.pages[t].entries[m.own[t].from].valid &&
             m.own[t].level == 3
    requires m.pages[t].entries[m.own[t].from].pfn < |m.ext|
    ensures var i := m.own[t].from;
            var m1 := m.(own := Advance(m.own, t), ext := Inc(m.ext, m.pages[t].entries[i].pfn));
            && Shape(m1) && OwnersOnly(m, m1) && Consistent(m, m1)
            && forall u: nat, j: nat :: Live(m1, u, j) <==> Live(m, u, j) && (u, j) != (t, i)
  {
    hide ParentOk;
    var i := m.own[t].from;
    var m1 := m.(own := Advance(m.own, t), ext := Inc(m.ext, m.pages[t].entries[i].pfn));
    assert Shape(m1);
    assert forall u: nat, j: nat :: Live(m1, u, j) <==> Live(m, u, j) && (u, j) != (t, i);
  }

  lemma PassLeafKeepsInv(m: Mem, t: nat)
    requires Inv(m) && Passable(m, t) && m.pages[t].entries[m.own[t].from].valid && m.own[t].level == 3
    ensures var d := m.pages[t].entries[m.own[t].from].pfn;
            d < |m.refs| && 0 < m.refs[d] && Inv(PassLeaf(m, t, d))
  {
    hide Counted, ParentOk, Links;
    var i := m.own[t].from;
    var d := m.pages[t].entries[i].pfn;
    assert Live(m, t, i) && LeafOk(m, m.pages[t].entries[i]);
    HandOver(m, t);
    var m1 := m.(own := Advance(m.own, t), ext := Inc(m.ext, d));
    PassedCounted(m1, d);
    OutsideKeepsInv(m1, d, m.pages[d], m.refs[d] - 1, m.ext[d]);
    var m' := PassLeaf(m, t, d);
    assert m'.pages == Outside(m1, d, m.pages[d], m.refs[d] - 1, m.ext[d]).pages;
    assert m'.ext == Outside(m1, d, m.pages[d], m.refs[d] - 1, m.ext[d]).ext;
  }

  lemma PassedCounted(m: Mem, d: nat)
    requires Inv(m) && d < |m.refs| && 0 < m.ext[d]
    ensures 0 < m.refs[d] <= REF_LIMIT
  {
    assert Counted(m, d);
  }

  lemma TablesAreNoLeaves(m: Mem, t: nat)
    requires Inv(m) && t in m.own
    ensures LeafRefs(m, t) == {}
  {
    forall u: nat, j: nat | Live(m, u, j) && m.own[u].level == 3
      ensures m.pages[u].entries[j].pfn != t
    {
      assert LeafOk(m, m.pages[u].entries[j]);
    }
  }

  /** A table all of whose entries have been passed over is freed. */
  function DropTable(m: Mem, t: nat): Mem
    requires t in m.own && t < |m.refs|
  {
    m.(own := m.own - {t}, refs := m.refs[t := 0])
  }

  lemma DropTableKeepsInv(m: Mem, t: nat)
    requires Inv(m) && t in m.own && m.own[t].parent.Detached? && m.own[t].from == ENTRIES
    ensures m.refs[t] == 1 && Inv(DropTable(m, t))
  {
    assert Counted(m, t);
    var m' := DropTable(m, t);
    assert Shape(m');
    assert forall u: nat, j: nat :: Live(m', u, j) == Live(m, u, j);
    forall u | u in m'.own
      ensures ParentOk(m', u)
    {
      assert ParentOk(m, u);
    }
    assert forall a :: a in m.roots ==> m.roots[a] != t;
    forall u: nat, j: nat | Live(m', u, j) && m'.own[u].level < 3
      ensures m.pages[u].entries[j].pfn != t
    {
      assert Live(m, u, j);
    }
    assert Links(m');
    forall u: nat, j: nat | Live(m', u, j) && m'.own[u].level == 3
      ensures LeafOk(m', m'.pages[u].entries[j])
    {
      assert LeafOk(m, m.pages[u].entries[j]);
    }
    forall p | 0 <= p < |m'.refs|
      ensures Counted(m', p)
    {
      assert Counted(m, p);
      assert forall u: nat, j: nat :: LeafAt(m', u, j, p) == LeafAt(m, u, j, p);
      assert LeafRefs(m', p) == LeafRefs(m, p);
      if p == t {
        TablesAreNoLeaves(m, t);
      }
    }
  }
}
