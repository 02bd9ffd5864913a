/** Every run of the machine, at the grain of single descriptor writes: the invariant holds
    throughout, and what processes observe is what a machine of private memories would show. */
module CowRuns {
  import opened Bytes
  import opened PageTables
  import opened Views
  import opened Cloning
  import opened VmmSteps

  /** What is done for an address space. */
  datatype SpaceStep =
    | NewSpace(a: nat, c: nat)
    | Map(a: nat, path: seq<nat>, e: Pte, v: View)
    | Unmap(a: nat, path: seq<nat>)
    | MoveLeaf(a: nat, path: seq<nat>, to: seq<nat>)
    | Share(a: nat, path: seq<nat>, child: nat)
    | Write(a: nat, path: seq<nat>, bytes: seq<byte>)

  /** What no process should notice: tables added, faults resolved, and the doings of the
      owners of pages outside the tables. */
  datatype QuietStep =
    | Grow(t: nat, i: nat, c: nat)
    | Reclaim(a: nat, path: seq<nat>)
    | Break(a: nat, path: seq<nat>, c: nat)
    | Take(c: nat)
    | Retain(d: nat)
    | Release(d: nat)
    | Fill(d: nat, bytes: seq<byte>)

  /** The stages of destroying an address space. */
  datatype TeardownStep =
    | LetGo(a: nat)
    | SkipEntry(t: nat)
    | LetGoBelow(t: nat)
    | DropLeaf(t: nat)
    | FreeTable(t: nat)

  datatype Step = Do(s: SpaceStep) | Quietly(q: QuietStep) | Destroy(d: TeardownStep)

  ghost predicate Fresh(m: Mem, c: nat) {
    0 < c < |m.refs| && m.refs[c] == 0
  }

  ghost predicate Mapped(m: Mem, a: nat, path: seq<nat>) {
    ValidPath(path) && Translate(m, a, path).valid
  }

  /** When the kernel takes the step. Granting write access asks for the only reference. */
  ghost predicate SpaceEnabled(m: Mem, s: SpaceStep)
    requires Inv(m)
  {
    match s
    case NewSpace(a, c) => a !in m.roots && Fresh(m, c)
    case Map(a, path, e, v) =>
      ValidPath(path) && a in m.roots && LeafTable(m, a, path) != 0 && Mappable(m, e) && v == ViewOf(m.pages, e)
    case Unmap(a, path) => Mapped(m, a, path)
    case MoveLeaf(a, path, to) =>
      Mapped(m, a, path) && ValidPath(to) && a in m.roots && LeafTable(m, a, to) != 0 && !Translate(m, a, to).valid
    case Share(a, path, child) =>
      && Mapped(m, a, path) && child in m.roots && child != a && LeafTable(m, child, path) != 0
      && !Translate(m, child, path).valid
      && Translate(m, a, path).pfn < |m.refs| && m.refs[Translate(m, a, path).pfn] < REF_LIMIT
    case Write(a, path, bytes) => Mapped(m, a, path) && Translate(m, a, path).ap.UserRw? && |bytes| == PAGE_BYTES
  }

  ghost function SpaceNext(m: Mem, s: SpaceStep): (m': Mem)
    requires Inv(m) && SpaceEnabled(m, s)
    ensures Inv(m')
  {
    match s
    case NewSpace(a, c) => NewRootKeepsInv(m, a, c); NewRoot(m, a, c)
    case Map(a, path, e, _) => InstallRemaps(m, a, path, e); Install(m, LeafTable(m, a, path), path[3], e)
    case Unmap(a, path) => ClearRemaps(m, a, path); Clear(m, LeafTable(m, a, path), path[3])
    case MoveLeaf(a, path, to) =>
      MoveMoves(m, a, path, to); Move(m, LeafTable(m, a, path), path[3], LeafTable(m, a, to), to[3])
    case Share(a, path, child) =>
      ShareDefined(m, a, path, child); CloneLeaf(m, LeafTable(m, a, path), path[3], LeafTable(m, child, path))
    case Write(a, path, bytes) => StoreDefined(m, a, path, bytes); Store(m, Translate(m, a, path).pfn, bytes)
  }

  ghost predicate QuietEnabled(m: Mem, q: QuietStep)
    requires Inv(m)
  {
    match q
    case Grow(t, i, c) =>
      && t in m.own && m.own[t].level < 3 && m.own[t].from == 0 && i < ENTRIES
      && !m.pages[t].entries[i].valid && Fresh(m, c)
    case Reclaim(a, path) =>
      && Mapped(m, a, path) && Translate(m, a, path).cow
      && Translate(m, a, path).pfn < |m.refs| && m.refs[Translate(m, a, path).pfn] == 1
    case Break(a, path, c) => Mapped(m, a, path) && Translate(m, a, path).cow && Fresh(m, c)
    case Take(c) => Fresh(m, c)
    case Retain(d) => d < |m.pages| && d !in m.own && 0 < m.ext[d] && m.refs[d] < REF_LIMIT
    case Release(d) => d < |m.pages| && d !in m.own && 0 < m.ext[d]
    case Fill(d, bytes) => d < |m.pages| && d !in m.own && m.refs[d] == m.ext[d] && |bytes| == PAGE_BYTES
  }

  ghost function QuietNext(m: Mem, q: QuietStep): (m': Mem)
    requires Inv(m) && QuietEnabled(m, q)
    ensures Inv(m')
  {
    match q
    case Grow(t, i, c) => AttachKeepsInv(m, t, i, c); Attach(m, t, i, c)
    case Reclaim(a, path) => ReuseFaults(m, a, path); Reuse(m, LeafTable(m, a, path), path[3])
    case Break(a, path, c) => CopyFaults(m, a, path, c); Copy(m, LeafTable(m, a, path), path[3], c)
    case Take(c) => OutsideAlloc(m, c, ZeroData()); Outside(m, c, ZeroData(), 1, 1)
    case Retain(d) => RetainDefined(m, d); Outside(m, d, m.pages[d], m.refs[d] + 1, m.ext[d] + 1)
    case Release(d) => ReleaseDefined(m, d); Outside(m, d, m.pages[d], m.refs[d] - 1, m.ext[d] - 1)
    case Fill(d, bytes) => FillDefined(m, d, bytes); Store(m, d, bytes)
  }

  ghost predicate TeardownEnabled(m: Mem, d: TeardownStep)
    requires Inv(m)
  {
    match d
    case LetGo(a) => a in m.roots
    case SkipEntry(t) => Passable(m, t) && !m.pages[t].entries[m.own[t].from].valid
    case LetGoBelow(t) => Passable(m, t) && m.pages[t].entries[m.own[t].from].valid && m.own[t].level < 3
    case DropLeaf(t) => Passable(m, t) && m.pages[t].entries[m.own[t].from].valid && m.own[t].level == 3
    case FreeTable(t) => t in m.own && m.own[t].parent.Detached? && m.own[t].from == ENTRIES
  }

  ghost function TeardownNext(m: Mem, d: TeardownStep): (m': Mem)
    requires Inv(m) && TeardownEnabled(m, d)
    ensures Inv(m')
  {
    match d
    case LetGo(a) => DetachRootKeepsInv(m, a); DetachRoot(m, a)
    case SkipEntry(t) => PassEmptyKeepsInv(m, t); PassEmpty(m, t)
    case LetGoBelow(t) => PassTableKeepsInv(m, t); PassTable(m, t, m.pages[t].entries[m.own[t].from].pfn)
    case DropLeaf(t) => PassLeafKeepsInv(m, t); PassLeaf(m, t, m.pages[t].entries[m.own[t].from].pfn)
    case FreeTable(t) => DropTableKeepsInv(m, t); DropTable(m, t)
  }

  ghost predicate Enabled(m: Mem, s: Step)
    requires Inv(m)
  {
    match s
    case Do(x) => SpaceEnabled(m, x)
    case Quietly(q) => QuietEnabled(m, q)
    case Destroy(d) => TeardownEnabled(m, d)
  }

  ghost function Next(m: Mem, s: Step): (m': Mem)
    requires Inv(m) && Enabled(m, s)
    ensures Inv(m')
  {
    match s
    case Do(x) => SpaceNext(m, x)
    case Quietly(q) => QuietNext(m, q)
    case Destroy(d) => TeardownNext(m, d)
  }

  lemma ShareDefined(m: Mem, a: nat, path: seq<nat>, child: nat)
    requires Inv(m) && Mapped(m, a, path) && child in m.roots && child != a && LeafTable(m, child, path) != 0
    requires !Translate(m, child, path).valid
    requires Translate(m, a, path).pfn < |m.refs| && m.refs[Translate(m, a, path).pfn] < REF_LIMIT
    ensures a in m.roots
    ensures var t, dt := LeafTable(m, a, path), LeafTable(m, child, path);
            && t < |m.pages| && m.pages[t].Table? && |m.pages[t].entries| == ENTRIES
            && dt < |m.pages| && m.pages[dt].Table? && |m.pages[dt].entries| == ENTRIES && t != dt
            && t in m.own && dt in m.own
            && m.pages[t].entries[path[3]] == Translate(m, a, path)
            && Inv(CloneLeaf(m, t, path[3], dt))
  {
    TranslationIsLeaf(m, a, path);
    LeafTableOwned(m, a, path);
    LeafTableOwned(m, child, path);
    var t, dt := LeafTable(m, a, path), LeafTable(m, child, path);
    if t == dt {
      OnePathThrough(m, t, a, path, child, path);
    }
    CloneLeafKeepsInv(m, t, path[3], dt);
  }

  lemma StoreDefined(m: Mem, a: nat, path: seq<nat>, bytes: seq<byte>)
    requires Inv(m) && Mapped(m, a, path) && Translate(m, a, path).ap.UserRw? && |bytes| == PAGE_BYTES
    ensures Translate(m, a, path).pfn < |m.pages| && Inv(Store(m, Translate(m, a, path).pfn, bytes))
  {
    TranslationIsLeaf(m, a, path);
    StoreKeepsInv(m, Translate(m, a, path).pfn, bytes);
  }

  lemma RetainDefined(m: Mem, d: nat)
    requires Inv(m) && d < |m.pages| && d !in m.own && 0 < m.ext[d] && m.refs[d] < REF_LIMIT
    ensures Inv(Outside(m, d, m.pages[d], m.refs[d] + 1, m.ext[d] + 1))
  {
    OutsideKeepsInv(m, d, m.pages[d], m.refs[d] + 1, m.ext[d] + 1);
  }

  lemma ReleaseDefined(m: Mem, d: nat)
    requires Inv(m) && d < |m.pages| && d !in m.own && 0 < m.ext[d]
    ensures 0 < m.refs[d] && Inv(Outside(m, d, m.pages[d], m.refs[d] - 1, m.ext[d] - 1))
  {
    assert Counted(m, d);
    OutsideKeepsInv(m, d, m.pages[d], m.refs[d] - 1, m.ext[d] - 1);
  }

  lemma FillDefined(m: Mem, d: nat, bytes: seq<byte>)
    requires Inv(m) && d < |m.pages| && d !in m.own && |bytes| == PAGE_BYTES
    ensures Inv(Store(m, d, bytes))
  {
    StoreKeepsInv(m, d, bytes);
  }

  // ---------------------------------------------------------------- runs

  /** Every step of the run is one the kernel takes in the state it is taken in. */
  ghost predicate Runs(m: Mem, steps: seq<Step>)
    requires Inv(m)
    decreases |steps|
  {
    steps == [] ||
    var before := steps[..|steps| - 1];
    Runs(m, before) && Enabled(Exec(m, before), steps[|steps| - 1])
  }

  ghost function Exec(m: Mem, steps: seq<Step>): (m': Mem)
    requires Inv(m)
    ensures Inv(m')
    decreases |steps|
  {
    if steps == [] then m
    else
      var before := Exec(m, steps[..|steps| - 1]);
      if Enabled(before, steps[|steps| - 1]) then Next(before, steps[|steps| - 1]) else before
  }

  // ---------------------------------------------------------------- private memories

  /** What page `p` of space `b` shows after the run if every address space had memory of its
      own: only steps for `b` count, and a fork reads the parent's memory once. */
  ghost function Private(m: Mem, steps: seq<Step>, b: nat, p: seq<nat>): View
    requires ValidPath(p)
    decreases |steps|
  {
    if steps == [] then ViewAt(m, b, p)
    else
      var before := steps[..|steps| - 1];
      match steps[|steps| - 1]
      case Do(Map(a, path, _, v)) => if (b, p) == (a, path) then v else Private(m, before, b, p)
      case Do(Unmap(a, path)) => if (b, p) == (a, path) then Absent else Private(m, before, b, p)
      case Do(MoveLeaf(a, path, to)) =>
        if (b, p) == (a, to) && ValidPath(path) then Private(m, before, a, path)
        else if (b, p) == (a, path) then Absent else Private(m, before, b, p)
      case Do(Share(a, path, child)) =>
        if (b, p) == (child, path) then Private(m, before, a, path) else Private(m, before, b, p)
      case Do(Write(a, path, bytes)) =>
        var v := Private(m, before, b, p);
        if (b, p) == (a, path) && v.Mapped? then v.(bytes := bytes) else v
      case Do(NewSpace(_, _)) => Private(m, before, b, p)
      case Quietly(_) => Private(m, before, b, p)
      case Destroy(LetGo(a)) => if b == a then Absent else Private(m, before, b, p)
      case Destroy(_) => Private(m, before, b, p)
  }

  /** A quiet step changes no view. */
  lemma QuietIsInvisible(m: Mem, q: QuietStep, b: nat, p: seq<nat>)
    requires Inv(m) && QuietEnabled(m, q) && ValidPath(p)
    ensures ViewAt(QuietNext(m, q), b, p) == ViewAt(m, b, p)
  {
    hide Counted, LeafOk, Links, Leaves, ParentOk, ViewAt;
    match q
    case Grow(t, i, c) =>
      AttachGrows(m, t, i, c);
      GrownViews(m, Attach(m, t, i, c));
    case Reclaim(a, path) => ReuseFaults(m, a, path);
    case Break(a, path, c) => CopyFaults(m, a, path, c);
    case Take(c) => OutsideAlloc(m, c, ZeroData());
    case Retain(d) => OutsideInvisible(m, d, m.refs[d] + 1, m.ext[d] + 1, b, p);
    case Release(d) =>
      ReleaseDefined(m, d);
      OutsideInvisible(m, d, m.refs[d] - 1, m.ext[d] - 1, b, p);
    case Fill(d, bytes) => FillInvisible(m, d, bytes, b, p);
  }

  lemma OutsideInvisible(m: Mem, d: nat, refs: nat, ext: nat, b: nat, p: seq<nat>)
    requires Inv(m) && d < |m.pages| && ValidPath(p)
    ensures |m.refs| == |m.ext| == |m.pages|
    ensures ViewAt(Outside(m, d, m.pages[d], refs, ext), b, p) == ViewAt(m, b, p)
  {
    assert Outside(m, d, m.pages[d], refs, ext).pages == m.pages;
  }

  lemma FillInvisible(m: Mem, d: nat, bytes: seq<byte>, b: nat, p: seq<nat>)
    requires Inv(m) && d < |m.pages| && d !in m.own && m.refs[d] == m.ext[d] && ValidPath(p)
    ensures ViewAt(Store(m, d, bytes), b, p) == ViewAt(m, b, p)
  {
    StoreTranslates(m, d, bytes);
    if Translate(m, b, p).valid {
      TranslationIsLeaf(m, b, p);
      assert Counted(m, d);
      assert (LeafTable(m, b, p), p[3]) in LeafRefs(m, Translate(m, b, p).pfn);
    }
  }

  function SourceShared(m: Mem, t: nat, i: nat): Mem
    requires t < |m.pages| && m.pages[t].Table? && i < |m.pages[t].entries|
    requires m.pages[t].entries[i].pfn < |m.refs| && m.pages[t].entries[i].pfn < |m.ext|
  {
    var e := Shared(m.pages[t].entries[i]);
    m.(pages := WriteEntry(m.pages, t, i, e), refs := Inc(m.refs, e.pfn), ext := Inc(m.ext, e.pfn))
  }

  /** Write-protecting the source of a share is invisible. */
  lemma SourceViews(m: Mem, a: nat, path: seq<nat>)
    requires Inv(m) && Mapped(m, a, path)
    requires Translate(m, a, path).pfn < |m.refs| && m.refs[Translate(m, a, path).pfn] < REF_LIMIT
    ensures a in m.roots
    ensures var t := LeafTable(m, a, path);
            && t in m.own && t < |m.pages| && m.pages[t].Table? && |m.pages[t].entries| == ENTRIES
            && m.pages[t].entries[path[3]] == Translate(m, a, path) && Translate(m, a, path).pfn < |m.ext|
            && var m1 := SourceShared(m, t, path[3]);
               Inv(m1) && SameViews(m, m1) && Mappable(m1, Shared(m.pages[t].entries[path[3]]))
  {
    TranslationIsLeaf(m, a, path);
    LeafTableOwned(m, a, path);
    var t := LeafTable(m, a, path);
    ShareInHand(m, t, path[3]);
    hide Counted, Links, Leaves, ParentOk;
    var m1 := SourceShared(m, t, path[3]);
    LeafPagesAreNoTables(m);
    assert ContentsKept(m, m1) && OneLeafChanged(m, m1, t, path[3]);
    LeafChangeViews(m, m1, a, path);
  }

  /** Sharing a leaf shows the child what the parent sees, and nobody else anything. */
  lemma ShareViews(m: Mem, a: nat, path: seq<nat>, child: nat, b: nat, p: seq<nat>)
    requires Inv(m) && SpaceEnabled(m, Share(a, path, child)) && ValidPath(p)
    ensures ViewAt(SpaceNext(m, Share(a, path, child)), b, p) == ViewAt(m, if (b, p) == (child, path) then a else b, p)
  {
    ShareDefined(m, a, path, child);
    SourceViews(m, a, path);
    hide Inv, ViewAt, Translate, Mappable, SameViews, Remapped, Install, Attach, NewRoot, Move, Clear;
    var t, dt := LeafTable(m, a, path), LeafTable(m, child, path);
    var m1 := SourceShared(m, t, path[3]);
    var e := Shared(m.pages[t].entries[path[3]]);
    SharedShows(m, a, path, m1.pages);
    ShareSecondHalf(m, m1, t, path, child, e);
    InstallRemaps(m1, child, path, e);
    CloneIsInstall(m, t, path[3], dt);
    RemappedAt(m1, CloneLeaf(m, t, path[3], dt), child, path, e, b, p);
    SameViewsAt(m, m1, b, p);
  }

  lemma CloneIsInstall(m: Mem, t: nat, i: nat, dt: nat)
    requires t < |m.pages| && m.pages[t].Table? && i < |m.pages[t].entries|
    requires dt < |m.pages| && m.pages[dt].Table? && i < |m.pages[dt].entries| && dt != t &&
             !m.pages[dt].entries[i].valid
    requires m.pages[t].entries[i].pfn < |m.refs| && m.pages[t].entries[i].pfn < |m.ext|
    ensures Install(SourceShared(m, t, i), dt, i, Shared(m.pages[t].entries[i])) == CloneLeaf(m, t, i, dt)
  {
    assert Install(SourceShared(m, t, i), dt, i, Shared(m.pages[t].entries[i])).ext == m.ext;
  }

  lemma RemappedAt(m: Mem, m': Mem, a: nat, path: seq<nat>, e: Pte, b: nat, p: seq<nat>)
    requires ValidPath(path) && ValidPath(p) && Remapped(m, m', a, path, e)
    ensures ViewAt(m', b, p) == if (b, p) == (a, path) then ViewOf(m.pages, e) else ViewAt(m, b, p)
  {
  }

  lemma SameViewsAt(m: Mem, m': Mem, b: nat, p: seq<nat>)
    requires SameViews(m, m') && ValidPath(p)
    ensures ViewAt(m', b, p) == ViewAt(m, b, p)
  {
  }

  lemma ShareSecondHalf(m: Mem, m1: Mem, t: nat, path: seq<nat>, child: nat, e: Pte)
    requires Inv(m) && ValidPath(path) && child in m.roots && t in m.own && m.own[t].level == 3
    requires t < |m.pages| && m.pages[t].Table? && path[3] < |m.pages[t].entries|
    requires LeafTable(m, child, path) != 0 && LeafTable(m, child, path) != t && !Translate(m, child, path).valid
    requires m1.pages == WriteEntry(m.pages, t, path[3], e) && m1.roots == m.roots
    ensures child in m1.roots && LeafTable(m1, child, path) == LeafTable(m, child, path)
    ensures var dt := LeafTable(m, child, path);
            dt < |m.pages| && m.pages[dt].Table? && |m.pages[dt].entries| == ENTRIES &&
                !m.pages[dt].entries[path[3]].valid
  {
    LeafTableOwned(m, child, path);
    UpperTablesDecide(m, m1.pages, child, path[..3]);
  }

  lemma SharedShows(m: Mem, a: nat, path: seq<nat>, pages: seq<Page>)
    requires Inv(m) && Mapped(m, a, path) && |pages| == |m.pages|
    requires forall d :: 0 <= d < |pages| && d !in m.own ==> pages[d] == m.pages[d]
    ensures a in m.roots && LeafTable(m, a, path) in m.own && LeafTable(m, a, path) < |m.pages|
    ensures var t := LeafTable(m, a, path);
            && m.pages[t].Table? && |m.pages[t].entries| == ENTRIES && m.own[t].level == 3
            && ViewOf(pages, Shared(m.pages[t].entries[path[3]])) == ViewAt(m, a, path)
  {
    TranslationIsLeaf(m, a, path);
    LeafTableOwned(m, a, path);
  }

  /** The views after one step for an address space. */
  lemma SpaceStepViews(m: Mem, s: SpaceStep, b: nat, p: seq<nat>)
    requires Inv(m) && SpaceEnabled(m, s) && ValidPath(p)
    ensures ViewAt(SpaceNext(m, s), b, p) ==
      match s
      case NewSpace(_, _) => ViewAt(m, b, p)
      case Map(a, path, _, v) => if (b, p) == (a, path) then v else ViewAt(m, b, p)
      case Unmap(a, path) => if (b, p) == (a, path) then Absent else ViewAt(m, b, p)
      case MoveLeaf(a, path, to) =>
        if (b, p) == (a, to) then ViewAt(m, a, path) else if (b, p) == (a, path) then Absent else ViewAt(m, b, p)
      case Share(a, path, child) => ViewAt(m, if (b, p) == (child, path) then a else b, p)
      case Write(a, path, bytes) =>
        var v := ViewAt(m, b, p); if (b, p) == (a, path) && v.Mapped? then v.(bytes := bytes) else v
  {
    hide Counted, LeafOk, Links, Leaves, ParentOk, ViewAt;
    match s
    case NewSpace(a, c) => FreshRootViews(m, a, c);
    case Map(a, path, e, _) => InstallRemaps(m, a, path, e);
    case Unmap(a, path) => ClearRemaps(m, a, path);
    case MoveLeaf(a, path, to) => MoveMoves(m, a, path, to);
    case Share(a, path, child) => ShareViews(m, a, path, child, b, p);
    case Write(a, path, bytes) => StoreViews(m, a, path, bytes);
  }

  lemma TeardownViews(m: Mem, d: TeardownStep, b: nat, p: seq<nat>)
    requires Inv(m) && TeardownEnabled(m, d) && ValidPath(p)
    ensures ViewAt(TeardownNext(m, d), b, p) == if d.LetGo? && b == d.a then Absent else ViewAt(m, b, p)
  {
  }

  /** Copy-on-write is faithful over every run: what any page of any address space shows is
      what it would show if memories were never shared. */
  lemma {:induction false} RunRefinesPrivate(m: Mem, steps: seq<Step>, b: nat, p: seq<nat>)
    requires Inv(m) && Runs(m, steps) && ValidPath(p)
    ensures ViewAt(Exec(m, steps), b, p) == Private(m, steps, b, p)
    decreases |steps|
  {
    hide Inv, SpaceEnabled, QuietEnabled, TeardownEnabled, SpaceNext, QuietNext, TeardownNext, ViewAt;
    if steps == [] {
    } else {
      var before := steps[..|steps| - 1];
      var last := steps[|steps| - 1];
      var m1 := Exec(m, before);
      RunRefinesPrivate(m, before, b, p);
      match last
      case Do(s) =>
        SpaceStepViews(m1, s, b, p);
        EnabledPaths(m1, s);
        if (s.Share? || s.MoveLeaf?) {
          RunRefinesPrivate(m, before, s.a, s.path);
        }
      case Quietly(q) => QuietIsInvisible(m1, q, b, p);
      case Destroy(d) => TeardownViews(m1, d, b, p);
    }
  }

  lemma EnabledPaths(m: Mem, s: SpaceStep)
    requires Inv(m) && SpaceEnabled(m, s)
    ensures s.Share? || s.MoveLeaf? ==> ValidPath(s.path)
  {
  }

  /** The space whose memory a step may change. */
  function Target(s: Step): set<nat> {
    match s
    case Do(NewSpace(_, _)) => {}
    case Do(Share(_, _, child)) => {child}
    case Do(x) => {x.a}
    case Quietly(_) => {}
    case Destroy(LetGo(a)) => {a}
    case Destroy(_) => {}
  }

  /** Isolation over every run: an address space no step was addressed to observes no change,
      whatever the others mapped, wrote, forked, faulted on, released or destroyed. */
  lemma {:induction false} Isolation(m: Mem, steps: seq<Step>, b: nat, p: seq<nat>)
    requires Inv(m) && Runs(m, steps) && ValidPath(p)
    requires forall k :: 0 <= k < |steps| ==> b !in Target(steps[k])
    ensures ViewAt(Exec(m, steps), b, p) == ViewAt(m, b, p)
  {
    RunRefinesPrivate(m, steps, b, p);
    Untouched(m, steps, b, p);
  }

  lemma {:induction false} Untouched(m: Mem, steps: seq<Step>, b: nat, p: seq<nat>)
    requires ValidPath(p) && forall k :: 0 <= k < |steps| ==> b !in Target(steps[k])
    ensures Private(m, steps, b, p) == ViewAt(m, b, p)
    decreases |steps|
  {
    if steps == [] {
    } else {
      assert b !in Target(steps[|steps| - 1]);
      Untouched(m, steps[..|steps| - 1], b, p);
    }
  }
}
