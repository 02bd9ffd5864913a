/** A process's memory (kernel/src/proc/memory.c): its areas, its page tables and the pages of the page
    cache, on a fault and at fork. */
module Process {
  import opened Bytes
  import opened PageTables
  import opened Views
  import opened VmmSteps
  import opened Vmm
  import Pmm
  import V = Vma

  const USER_READ: bv32 := 0x01
  const USER_EXEC: bv32 := 0x04
  const MAP_GROWSDOWN: bv32 := 0x0100

  function CanWrite(prot: bv32): bool {
    prot & V.USER_WRITE != 0
  }

  function CanExec(prot: bv32): bool {
    prot & USER_EXEC != 0
  }

  /** `access_allowed` */
  function Allowed(prot: bv32, access: Access): bool {
    match access
    case Read => prot & USER_READ != 0
    case Write => CanWrite(prot)
    case Exec => CanExec(prot)
  }

  // ---------------------------------------------------------------- the invariant

  /** A mapped page lies in an area and can be used for no more than the area allows. */
  predicate Fits(v: View, at: V.Option<V.Attr>) {
    v.Mapped? ==>
      at.Some? && (v.writable ==> CanWrite(at.value.prot)) && (v.exec ==> CanExec(at.value.prot))
  }

  predicate IsPage(va: nat) {
    va < USER_TOP && va % 4096 == 0
  }

  ghost predicate FitsAt(m: Mem, a: nat, areas: seq<V.Area>, va: nat) {
    Fits(ViewAt(m, a, PathOf(va)), V.At(areas, va))
  }

  ghost predicate Confined(m: Mem, a: nat, areas: seq<V.Area>) {
    forall va: nat :: IsPage(va) ==> FitsAt(m, a, areas, va)
  }

  /** No area is shared, and none reaches past what four levels of tables translate. */
  ghost predicate Private(areas: seq<V.Area>) {
    forall x: nat :: V.At(areas, x).Some? ==> PrivateAt(V.At(areas, x).value, x)
  }

  predicate PrivateAt(at: V.Attr, x: nat) {
    x < USER_TOP && at.flags & V.MAP_SHARED == 0
  }

  /** No other address space sees a difference. */
  ghost predicate OnlySpace(m: Mem, m': Mem, a: nat) {
    forall b: nat, path :: ValidPath(path) && b != a ==> ViewAt(m', b, path) == ViewAt(m, b, path)
  }

  /** Pages are only added, to one address space. */
  ghost predicate OnlyAdds(m: Mem, m': Mem, a: nat) {
    && OnlySpace(m, m', a)
    && forall path :: ValidPath(path) && ViewAt(m, a, path).Mapped? ==> ViewAt(m', a, path) == ViewAt(m, a, path)
  }

  /** Addresses that had an area still have it. */
  ghost predicate AreasKept(s: seq<V.Area>, s': seq<V.Area>) {
    forall x: nat :: V.At(s, x).Some? ==> V.At(s', x) == V.At(s, x)
  }

  /** What no operation of one process can do to another. */
  lemma ConfinedElsewhere(m: Mem, m': Mem, a: nat, b: nat, areas: seq<V.Area>)
    requires OnlySpace(m, m', a) && b != a && Confined(m, b, areas)
    ensures Confined(m', b, areas)
  {
    hide PathOf, ViewAt, Fits;
    forall va: nat | IsPage(va)
      ensures FitsAt(m', b, areas, va)
    {
      assert FitsAt(m, b, areas, va);
    }
  }

  lemma ConfinedSame(m: Mem, m': Mem, a: nat, s: seq<V.Area>, s': seq<V.Area>)
    requires Confined(m, a, s) && SameViews(m, m') && AreasKept(s, s')
    ensures Confined(m', a, s') && OnlyAdds(m, m', a)
  {
    hide PathOf, ViewAt, V.At;
    forall va: nat | IsPage(va)
      ensures FitsAt(m', a, s', va)
    {
      assert FitsAt(m, a, s, va);
    }
  }

  /** Two pages that four levels of tables can tell apart have different paths. */
  lemma PathsDiffer(va: nat, other: nat)
    requires IsPage(va) && IsPage(other) && PathOf(va) == PathOf(other)
    ensures va == other
  {
    hide PathOf;
    SamePage(va, other);
  }

  /** Mapping a page of an area, with no more than its rights. */
  lemma ConfinedMap(m: Mem, m': Mem, a: nat, va: nat, v: View, s: seq<V.Area>)
    requires IsPage(va) && Confined(m, a, s) && OnlyView(m, m', a, PathOf(va), v) && Fits(v, V.At(s, va))
    ensures Confined(m', a, s) && OnlySpace(m, m', a)
    ensures ViewAt(m, a, PathOf(va)).Absent? ==> OnlyAdds(m, m', a)
  {
    hide PathOf, ViewAt, V.At;
    forall other: nat | IsPage(other)
      ensures FitsAt(m', a, s, other)
    {
      assert FitsAt(m, a, s, other);
      if PathOf(other) == PathOf(va) { PathsDiffer(va, other); }
    }
  }

  /** Why areas must end below 2^48: the tables do not tell an address from the one 2^48 above it. */
  lemma HighAliases(va: nat)
    ensures PathOf(va + USER_TOP) == PathOf(va)
  {
    hide PathOf;
    PathOfPage(va);
    PathOfPage(va + USER_TOP);
    var p := va / 4096;
    assert (va + USER_TOP) / 4096 == p + 0x10_0000_0000;
    HighDigits(p);
  }

  lemma HighDigits(p: nat)
    ensures DigitsOf(p + 0x10_0000_0000) == DigitsOf(p)
  {
    var p2, p1, p0 := p / 512, p / 512 / 512, p / 512 / 512 / 512;
    assert (p + 0x10_0000_0000) / 512 == p2 + 0x800_0000;
    assert (p2 + 0x800_0000) / 512 == p1 + 0x4_0000;
    assert (p1 + 0x4_0000) / 512 == p0 + 512;
  }

  // ---------------------------------------------------------------- pages of files

  /** The pages the page cache can hand out, by node and offset. */
  type Cached = map<(nat, nat), nat>

  /** The cache has a reference to each of them. */
  ghost predicate CacheHolds(m: Mem, cached: Cached) {
    forall k :: k in cached ==> HeldData(m, cached[k])
  }

  ghost predicate HeldData(m: Mem, d: nat) {
    0 < d < |m.ext| && 0 < m.ext[d] && d < |m.pages| && PageOk(m.pages[d]) && m.pages[d].Data?
  }

  lemma StillHolds(m: Mem, m': Mem, cached: Cached)
    requires CacheHolds(m, cached) && HoldersKept(m, m')
    ensures CacheHolds(m', cached)
  {
    forall k | k in cached
      ensures HeldData(m', cached[k])
    {
      assert HeldData(m, cached[k]);
    }
  }

  function CacheByte(pages: seq<Page>, cached: Cached, node: nat, off: nat): byte {
    var k := (node, off - off % 4096);
    if k in cached && cached[k] < |pages| && pages[cached[k]].Data? && off % 4096 < |pages[cached[k]].bytes|
    then pages[cached[k]].bytes[off % 4096] else 0
  }

  /** The byte an address of a file area shows: the file's, or zero outside the part it covers. */
  function FileByte(pages: seq<Page>, cached: Cached, v: V.Area, x: nat): byte {
    if v.fileStart <= x < v.fileStart + v.fileSize
    then CacheByte(pages, cached, v.node, v.fileOffset + (x - v.fileStart)) else 0
  }

  function FilePage(pages: seq<Page>, cached: Cached, v: V.Area, page: nat): (bytes: seq<byte>)
    ensures |bytes| == PAGE_BYTES
    ensures forall k :: 0 <= k < PAGE_BYTES ==> bytes[k] == FileByte(pages, cached, v, page + k)
  {
    seq<byte>(PAGE_BYTES, k requires 0 <= k < PAGE_BYTES => FileByte(pages, cached, v, page + k))
  }

  /** The page lies wholly in the part the file covers, and is a page of the file. */
  predicate WholePage(v: V.Area, page: nat) {
    && v.fileStart <= page && page + 4096 <= v.fileStart + v.fileSize
    && (v.fileOffset + (page - v.fileStart)) % 4096 == 0
  }

  /** Mapping the cache's page itself shows the same bytes as a copy would. */
  lemma WholePageBytes(m: Mem, cached: Cached, v: V.Area, page: nat)
    requires WholePage(v, page) && CacheHolds(m, cached)
    requires (v.node, v.fileOffset + (page - v.fileStart)) in cached
    ensures var d := cached[(v.node, v.fileOffset + (page - v.fileStart))];
            d < |m.pages| && m.pages[d].Data? && m.pages[d].bytes == FilePage(m.pages, cached, v, page)
  {
    var off := v.fileOffset + (page - v.fileStart);
    var d := cached[(v.node, off)];
    assert HeldData(m, d);
    forall k | 0 <= k < PAGE_BYTES
      ensures m.pages[d].bytes[k] == FileByte(m.pages, cached, v, page + k)
    {
      assert (off + k) % 4096 == k && off + k - k == off;
    }
  }

  /** The copy loop of `fault_file_page`. */
  method CopyFile(pages: seq<Page>, v: V.Area, page: nat, cached: Cached) returns (ok: bool, bytes: seq<byte>)
    requires forall k :: k in cached ==> cached[k] < |pages| && PageOk(pages[cached[k]]) && pages[cached[k]].Data?
    ensures ok ==> bytes == FilePage(pages, cached, v, page)
  {
    var from := if page > v.fileStart then page else v.fileStart;
    var to := if page + 4096 < v.fileStart + v.fileSize then page + 4096 else v.fileStart + v.fileSize;
    bytes := [];
    if from >= to {
      bytes := ZeroData().bytes;
      assert bytes == FilePage(pages, cached, v, page);
      return true, bytes;
    }
    bytes := Zeros(from - page);
    var copied := 0;
    while copied < to - from
      invariant copied <= to - from && |bytes| == from - page + copied
      invariant forall k :: 0 <= k < |bytes| ==> bytes[k] == FileByte(pages, cached, v, page + k)
    {
      var off := v.fileOffset + (from - v.fileStart) + copied;
      var within := off % 4096;
      var chunk := if 4096 - within > to - from - copied then to - from - copied else 4096 - within;
      if (v.node, off - within) !in cached { return false, bytes; }
      var data := pages[cached[(v.node, off - within)]].bytes;
      ChunkIsFile(pages, cached, v, from + copied, data[within..within + chunk]);
      bytes := bytes + data[within..within + chunk];
      copied := copied + chunk;
    }
    bytes := bytes + Zeros(page + 4096 - to);
    ok := true;
    assert bytes == FilePage(pages, cached, v, page);
  }

  function Zeros(n: nat): (r: seq<byte>)
    ensures |r| == n && forall k :: 0 <= k < n ==> r[k] == 0
  {
    seq(n, _ => 0)
  }

  lemma ChunkIsFile(pages: seq<Page>, cached: Cached, v: V.Area, x: nat, piece: seq<byte>)
    requires v.fileStart <= x && x + |piece| <= v.fileStart + v.fileSize
    requires var off := v.fileOffset + (x - v.fileStart);
             && off % 4096 + |piece| <= 4096 && (v.node, off - off % 4096) in cached
             && var d := cached[(v.node, off - off % 4096)];
                && d < |pages| && PageOk(pages[d]) && pages[d].Data?
                && piece == pages[d].bytes[off % 4096..off % 4096 + |piece|]
    ensures forall k :: 0 <= k < |piece| ==> piece[k] == FileByte(pages, cached, v, x + k)
  {
    var off := v.fileOffset + (x - v.fileStart);
    forall k | 0 <= k < |piece|
      ensures piece[k] == FileByte(pages, cached, v, x + k)
    {
      assert (off + k) % 4096 == off % 4096 + k;
      assert off + k - (off + k) % 4096 == off - off % 4096;
    }
  }

  // ---------------------------------------------------------------- the process

  /** `struct process_mm` with the tables it is mapped by. */
  class Process {
    const mem: AddressSpaces
    const space: nat
    const vmas: V.VmaList

    ghost predicate Valid()
      reads this, mem, mem.pmm, vmas
    {
      && mem.Valid() && Settled(mem.State()) && space in mem.roots && vmas.Valid() && Private(vmas.slots)
      && Confined(mem.State(), space, vmas.slots)
    }

    constructor (mem: AddressSpaces, space: nat, vmas: V.VmaList)
      requires mem.Valid() && Settled(mem.State()) && space in mem.roots && vmas.Valid() && Private(vmas.slots)
      requires Confined(mem.State(), space, vmas.slots)
      ensures Valid() && this.mem == mem && this.space == space && this.vmas == vmas
    {
      this.mem := mem;
      this.space := space;
      this.vmas := vmas;
    }

    /** `vma_lookup`, and failing that a stack that may grow down to the page. */
    method AreaFor(page: nat) returns (r: V.Option<V.Area>)
      requires Valid() && page % 4096 == 0
      modifies vmas`slots
      ensures Valid() && AreasKept(old(vmas.slots), vmas.slots)
      ensures match r
              case Some(v) => V.At(vmas.slots, page) == V.Some(V.AttrOf(v)) && IsPage(page)
              case None => V.At(vmas.slots, page) == V.None && vmas.slots == old(vmas.slots)
    {
      hide Inv, Settled, Confined, V.At, V.Disjoint, V.CanGrow, Pmm.Sound, Pmm.ExactFor;
      ghost var m, s := mem.State(), vmas.slots;
      r := vmas.Lookup(page);
      if r.Some? { return; }
      var ok, grown := vmas.GrowDown(page, MAP_GROWSDOWN);
      if ok {
        ghost var i: nat :| i < |vmas.slots| && V.GrewDown(s, vmas.slots, i, page, MAP_GROWSDOWN, grown);
        GrownAreas(s, vmas.slots, i, page, MAP_GROWSDOWN, grown);
        SameViewsRefl(m);
        ConfinedSame(m, m, space, s, vmas.slots);
        r := V.Some(grown);
      }
    }

    /** Whether the tables let the page be used like this. */
    method Accessible(page: nat, access: Access) returns (ok: bool)
      requires mem.Valid() && space in mem.roots && page < WORD && page % 4096 == 0
      ensures ok <==> AccessAt(mem.State(), space, page, access)
    {
      hide Inv, PathOf, AccessAt, Pmm.Sound, Pmm.ExactFor;
      ok := mem.RangeAccessible(space, page, 1, access);
      assert PageAt(Aligned(page), 0) == page && LastPage(page, 1) == 0;
    }

    /** `fault_file_page`, for an area that is not shared: the page then shows the bytes of the file. */
    method FaultFile(v: V.Area, page: nat, cached: Cached) returns (ok: bool)
      requires Valid() && IsPage(page) && V.At(vmas.slots, page) == V.Some(V.AttrOf(v))
      requires CacheHolds(mem.State(), cached)
      modifies mem, mem.pmm
      ensures Valid() && CacheHolds(mem.State(), cached) && OnlySpace(old(mem.State()), mem.State(), space)
      ensures OthersTranslate(old(mem.State()), mem.State(), space, PathOf(page))
      ensures !AccessAt(old(mem.State()), space, page, Read) ==> OnlyAdds(old(mem.State()), mem.State(), space)
      ensures !AccessAt(old(mem.State()), space, page, Read) && ok ==>
                ViewAt(mem.State(), space, PathOf(page)) ==
                Mapped(FilePage(old(mem.pages), cached, v, page), CanWrite(v.prot), CanExec(v.prot))
    {
      hide Inv, PathOf, Settled, Confined, V.At, SameViews, OnlyView, OthersTranslate, HoldersKept, CacheHolds,
           AccessAt, FilePage, OnlyAdds, OnlySpace, Private, Pmm.Sound, Pmm.ExactFor;
      ghost var m, s := mem.State(), vmas.slots;
      SameViewsRefl(m);
      OthersRefl(m, space, PathOf(page));
      KeptRefl(s);
      ConfinedSame(m, m, space, s, s);
      AddsOnly(m, m, space);
      var readable := Accessible(page, Read);
      if readable {
        ok := true;
        if CanExec(v.prot) { ok := Accessible(page, Exec); }
        if ok { return; }
      }
      if WholePage(v, page) {
        var k := (v.node, v.fileOffset + (page - v.fileStart));
        if k !in cached { return false; }
        WholePageBytes(m, cached, v, page);
        CachedPage(m, cached, k);
        ok := mem.MapHeld(space, page, cached[k], CanWrite(v.prot), CanExec(v.prot));
      } else {
        var got, bytes := false, [];
        CachedPages(m, cached);
        got, bytes := CopyFile(mem.pages, v, page, cached);
        if !got { return false; }
        ok := mem.MapFilled(space, page, bytes, CanWrite(v.prot), CanExec(v.prot));
      }
      StillHolds(m, mem.State(), cached);
      AfterMap(m, mem.State(), space, page, Mapped(FilePage(m.pages, cached, v, page), CanWrite(v.prot),
          CanExec(v.prot)),
          s, ok);
    }

    /** `vmm_alloc_page` in an area that is no file's. */
    method FaultZero(v: V.Area, page: nat, ghost cached: Cached) returns (ok: bool)
      requires Valid() && IsPage(page) && V.At(vmas.slots, page) == V.Some(V.AttrOf(v))
      requires CacheHolds(mem.State(), cached)
      modifies mem, mem.pmm
      ensures Valid() && CacheHolds(mem.State(), cached) && OnlySpace(old(mem.State()), mem.State(), space)
      ensures OthersTranslate(old(mem.State()), mem.State(), space, PathOf(page))
      ensures !AccessAt(old(mem.State()), space, page, Read) ==> OnlyAdds(old(mem.State()), mem.State(), space)
      ensures ok ==> ViewAt(mem.State(), space, PathOf(page)) ==
                     Mapped(ZeroData().bytes, CanWrite(v.prot), CanExec(v.prot))
    {
      hide Inv, PathOf, Settled, Confined, V.At, SameViews, OnlyView, OthersTranslate, HoldersKept, CacheHolds,
           AccessAt, OnlyAdds, OnlySpace, Private, Pmm.Sound, Pmm.ExactFor;
      ghost var m, s := mem.State(), vmas.slots;
      ok := mem.AllocPage(space, page, CanWrite(v.prot), CanExec(v.prot));
      StillHolds(m, mem.State(), cached);
      AfterMap(m, mem.State(), space, page, Mapped(ZeroData().bytes, CanWrite(v.prot), CanExec(v.prot)), s, ok);
    }

    /** What a fault puts at a page: the bytes of the file, or zeros, with the rights of the area. */
    ghost function Shown(v: V.Area, pages: seq<Page>, cached: Cached, page: nat): View {
      Mapped(if v.kind.File? then FilePage(pages, cached, v, page) else ZeroData().bytes, CanWrite(v.prot),
          CanExec(v.prot))
    }

    /** `cell_handle_translation_fault`: a page is mapped only where an area allows the access, and then
        with the area's rights and what the area stands for. */
    method TranslationFault(far: nat, access: Access, cached: Cached) returns (ok: bool, ghost v: V.Area)
      requires Valid() && far < WORD && CacheHolds(mem.State(), cached)
      modifies mem, mem.pmm, vmas`slots
      ensures Valid() && AreasKept(old(vmas.slots), vmas.slots) && CacheHolds(mem.State(), cached)
      ensures OnlySpace(old(mem.State()), mem.State(), space)
      ensures !AccessAt(old(mem.State()), space, Aligned(far), Read) ==>
                OnlyAdds(old(mem.State()), mem.State(), space)
      ensures ok ==> V.At(vmas.slots, Aligned(far)) == V.Some(V.AttrOf(v)) && Allowed(v.prot, access)
      ensures ok && !AccessAt(old(mem.State()), space, Aligned(far), Read) ==>
                ViewAt(mem.State(), space, PathOf(Aligned(far))) == Shown(v, old(mem.pages), cached, Aligned(far))
    {
      hide Inv, PathOf, Settled, Confined, V.At, SameViews, OnlyView, OthersTranslate, CacheHolds, FilePage, OnlyAdds,
           OnlySpace, Private, Pmm.Sound, Pmm.ExactFor;
      ghost var m, s := mem.State(), vmas.slots;
      var page := far - far % 4096;
      SameViewsRefl(m);
      KeptRefl(s);
      ConfinedSame(m, m, space, s, s);
      AddsOnly(m, m, space);
      v := V.Area(false, 0, 0, 0, 0, V.Anon, 0, 0, 0, 0);
      var r := AreaFor(page);
      if r.None? || !Allowed(r.value.prot, access) { return false, v; }
      v := r.value;
      ok := Accessible(page, access);
      if ok { return; }
      if r.value.kind.File? {
        ok := FaultFile(r.value, page, cached);
      } else {
        ok := FaultZero(r.value, page, cached);
      }
    }

    /** One round of `cell_domain_ensure_user_range`. */
    method EnsurePage(page: nat, access: Access, cached: Cached) returns (ok: bool)
      requires Valid() && page < WORD && page % 4096 == 0 && CacheHolds(mem.State(), cached)
      modifies mem, mem.pmm, vmas`slots
      ensures Valid() && AreasKept(old(vmas.slots), vmas.slots) && CacheHolds(mem.State(), cached)
      ensures OnlyAdds(old(mem.State()), mem.State(), space)
      ensures OthersTranslate(old(mem.State()), mem.State(), space, PathOf(page))
      ensures ok ==> AccessAt(mem.State(), space, page, access)
      ensures AccessAt(old(mem.State()), space, page, access) ==> ok && mem.State() == old(mem.State())
    {
      hide Inv, PathOf, Settled, Confined, V.At, SameViews, OnlyView, OthersTranslate, CacheHolds, AccessAt, FilePage,
           OnlyAdds, OnlySpace, Private, HoldersKept, Pmm.Sound, Pmm.ExactFor, Faulted;
      ghost var m, s := mem.State(), vmas.slots;
      SameViewsRefl(m);
      KeptRefl(s);
      OthersRefl(m, space, PathOf(page));
      ConfinedSame(m, m, space, s, s);
      ReadIsLeast(m, space, page, access);
      var mapped := Accessible(page, Read);
      if !mapped {
        var r := AreaFor(page);
        if r.None? || !Allowed(r.value.prot, access) { return false; }
        if r.value.kind.File? {
          ok := FaultFile(r.value, page, cached);
        } else {
          ok := FaultZero(r.value, page, cached);
        }
        if !ok { return; }
      }
      ghost var m1 := mem.State();
      if access == Write {
        ok := Accessible(page, Write);
        if !ok {
          ok := mem.HandleCowFault(space, page);
          ghost var m2, s1 := mem.State(), vmas.slots;
          if ok { FaultedParts(m1, m2, space, PathOf(page)); }
              else { SameViewsRefl(m1); OthersRefl(m1, space, PathOf(page)); }
          KeptRefl(s1);
          ConfinedSame(m1, m2, space, s1, s1);
          StillHolds(m1, m2, cached);
          AddsTrans(m, m1, m2, space);
          OthersTrans(m, m1, m2, space, PathOf(page));
          if !ok { return; }
        }
      }
      ok := Accessible(page, access);
    }

    /** `cell_domain_ensure_user_range`: true only if afterwards every page of the range allows the access;
        whatever it returns, it has only added pages, each within an area and its rights. */
    method EnsureRange(va: nat, len: nat, access: Access, cached: Cached) returns (ok: bool)
      requires Valid() && va < WORD && len < WORD && CacheHolds(mem.State(), cached)
      modifies mem, mem.pmm, vmas`slots
      ensures Valid() && AreasKept(old(vmas.slots), vmas.slots) && CacheHolds(mem.State(), cached)
      ensures OnlyAdds(old(mem.State()), mem.State(), space)
      ensures ok && len > 0 ==> va + len - 1 < WORD && forall k: nat :: k <= LastPage(va, len) ==>
                AccessAt(mem.State(), space, PageAt(Aligned(va), k), access)
    {
      hide Inv, PathOf, Settled, Confined, V.At, SameViews, OnlyView, OthersTranslate, CacheHolds, AccessAt, OnlyAdds,
           OnlySpace, Private, Pmm.Sound, Pmm.ExactFor;
      ghost var m, s := mem.State(), vmas.slots;
      SameViewsRefl(m);
      KeptRefl(s);
      ConfinedSame(m, m, space, s, s);
      if len == 0 { return true; }
      if va + len - 1 >= WORD { return false; }
      var k, last := 0, LastPage(va, len);
      while true
        invariant k <= last && Valid() && AreasKept(s, vmas.slots) && CacheHolds(mem.State(), cached)
        invariant OnlyAdds(m, mem.State(), space)
        invariant forall j: nat :: j < k ==> AccessAt(mem.State(), space, PageAt(Aligned(va), j), access)
        decreases last - k
      {
        ghost var m1, s1 := mem.State(), vmas.slots;
        var page := PageAt(Aligned(va), k);
        PageInWord(va, len, k);
        ok := EnsurePage(page, access, cached);
        AddsTrans(m, m1, mem.State(), space);
        KeptTrans(s, s1, vmas.slots);
        if !ok { return; }
        forall j: nat | j < k
          ensures AccessAt(mem.State(), space, PageAt(Aligned(va), j), access)
        {
          AccessStays(m1, mem.State(), space, page, PageAt(Aligned(va), j), access);
        }
        if k == last { return; }
        k := k + 1;
      }
    }

    /** `cell_handle_cow_fault`: nothing any process sees changes. */
    method CowFault(far: nat) returns (ok: bool)
      requires Valid()
      modifies mem, mem.pmm
      ensures Valid() && SameViews(old(mem.State()), mem.State())
    {
      hide Inv, PathOf, Settled, Confined, V.At, SameViews, Private, Pmm.Sound, Pmm.ExactFor, Faulted, HoldersKept;
      ghost var m, s := mem.State(), vmas.slots;
      SameViewsRefl(m);
      ok := mem.HandleCowFault(space, far);
      if ok { FaultedParts(m, mem.State(), space, PathOf(far)); }
      KeptRefl(s);
      ConfinedSame(m, mem.State(), space, s, s);
    }

    /** `cell_mm_clone_cow` for a process without shared areas: the child has the same areas and sees the
        same pages; no existing process notices. */
    method Fork(child: nat, list: V.VmaList, ghost base: multiset<V.Token>) returns (ok: bool, p: Process?)
      requires Valid() && child !in mem.roots
      requires list != vmas && list.Valid() && list.slots == [] && list.vfs == vmas.vfs && list.Balanced(base)
      requires list.perChunk == vmas.perChunk
      modifies mem, mem.pmm, list`slots, list`chunks, vmas.vfs
      ensures Valid() && OthersKept(old(mem.State()), mem.State())
      ensures ok ==> p != null && p.Valid() && p.mem == mem && p.space == child && p.vmas == list
      ensures ok ==> V.SameMap(vmas.slots, list.slots) && Forked(old(mem.State()), mem.State(), space, child)
    {
      hide Inv, PathOf, Confined, V.At, Private, Pmm.Sound, Pmm.ExactFor, Forked, OthersKept, Settled, V.SameMap,
           V.Disjoint;
      p := null;
      ghost var m, s := mem.State(), vmas.slots;
      ok := mem.CloneCow(space, child);
      ConfinedKept(m, mem.State(), space, s);
      if !ok { return; }
      ghost var m1 := mem.State();
      ok := vmas.CloneInto(list, base);
      if !ok {
        mem.Destroy(child);
        DestroyedKept(m, m1, mem.State(), child);
        ConfinedKept(m, mem.State(), space, s);
        return;
      }
      ForkedConfined(m, m1, space, child, s, list.slots);
      p := new Process(mem, child, list);
    }

    /** `cell_remove_vma`, its range in whole pages: the pages go first, so even if the areas cannot be
        cut no page is left without one. */
    method RemoveArea(start: nat, end: nat, ghost base: multiset<V.Token>) returns (ok: bool)
      requires Valid() && vmas.Balanced(base) && start % 4096 == 0
      requires start < end ==> PageAt(start, (end - start + 4095) / 4096) < WORD
      modifies mem, mem.pmm, vmas`slots, vmas`chunks, vmas.vfs
      ensures Valid() && vmas.Balanced(base) && (!ok ==> vmas.slots == old(vmas.slots))
      ensures ok ==> forall x: nat :: V.At(vmas.slots, x) == V.Outside(V.At(old(vmas.slots), x), x, start, end)
      ensures RangeGone(old(mem.State()), mem.State(), space, start,
                  if start < end then (end - start + 4095) / 4096 else 0)
    {
      hide Inv, PathOf, Confined, V.At, Private, Pmm.Sound, Pmm.ExactFor, V.Disjoint, RangeGone, V.Canonical;
      ghost var m, s := mem.State(), vmas.slots;
      mem.UnmapRange(space, start, end);
      ok := vmas.Remove(start, end, base);
      CutConfined(m, mem.State(), space, s, vmas.slots, start, end, ok);
    }

    /** `cell_add_vma_typed` and `cell_add_file_vma`, for private areas that four levels of tables reach. */
    method AddArea(start: nat, end: nat, prot: bv32, flags: bv32, kind: V.Kind, ghost base: multiset<V.Token>)
        returns (ok: bool)
      requires Valid() && vmas.Balanced(base) && !kind.File? && end <= USER_TOP && flags & V.MAP_SHARED == 0
      modifies vmas`slots, vmas`chunks, vmas.vfs
      ensures Valid() && vmas.Balanced(base) && AreasKept(old(vmas.slots), vmas.slots)
      ensures ok ==> forall x: nat :: start <= x < end ==>
              V.At(vmas.slots, x) == V.Some(V.Attr(prot, flags, kind, V.NoFile))
    {
      hide Inv, PathOf, Confined, V.At, Private, Pmm.Sound, Pmm.ExactFor, V.Disjoint, V.Added, V.Canonical, AreasKept;
      ghost var m, s := mem.State(), vmas.slots;
      ok := vmas.Insert(start, end, prot, flags, kind, base);
      KeptRefl(s);
      if ok { AreaAdded(m, space, s, vmas.slots, V.Area(true, start, end, prot, flags, kind, 0, 0, 0, 0)); }
    }

    method AddFileArea(start: nat, end: nat, prot: bv32, flags: bv32, node: nat, regular: bool, fileStart: nat,
        fileOffset: nat, fileSize: nat, ghost base: multiset<V.Token>) returns (ok: bool)
      requires Valid() && vmas.Balanced(base) && end <= USER_TOP && flags & V.MAP_SHARED == 0
      modifies vmas`slots, vmas`chunks, vmas.vfs
      ensures Valid() && vmas.Balanced(base) && AreasKept(old(vmas.slots), vmas.slots)
      ensures ok ==> forall x: nat :: start <= x < end ==>
                V.At(vmas.slots, x) ==
                V.Some(V.Attr(prot, flags, V.File, V.FileAt(node, fileStart, fileOffset, fileSize)))
    {
      hide Inv, PathOf, Confined, V.At, Private, Pmm.Sound, Pmm.ExactFor, V.Disjoint, V.Added, V.Canonical, AreasKept;
      ghost var m, s := mem.State(), vmas.slots;
      ok := vmas.InsertFile(start, end, prot, flags, node, regular, fileStart, fileOffset, fileSize, base);
      KeptRefl(s);
      if ok {
        AreaAdded(m, space, s, vmas.slots,
            V.Area(true, start, end, prot, flags, V.File, node, fileStart, fileOffset, fileSize));
      }
    }
  }

  lemma GrownAreas(s: seq<V.Area>, s': seq<V.Area>, i: nat, page: nat, required: bv32, grown: V.Area)
    requires i < |s| && V.GrewDown(s, s', i, page, required, grown) && V.Disjoint(s) && Private(s) && page % 4096 == 0
    ensures AreasKept(s, s') && Private(s') && V.At(s', page) == V.Some(V.AttrOf(grown)) && IsPage(page)
  {
    hide V.At;
    V.AtSlot(s, i, s[i].start);
    assert PrivateAt(V.AttrOf(s[i]), s[i].start);
  }

  lemma KeptRefl(s: seq<V.Area>)
    ensures AreasKept(s, s)
  {
  }

  lemma AddsOnly(m: Mem, m': Mem, a: nat)
    requires OnlyAdds(m, m', a)
    ensures OnlySpace(m, m', a)
  {
  }

  lemma CachedPage(m: Mem, cached: Cached, k: (nat, nat))
    requires CacheHolds(m, cached) && k in cached
    ensures HeldData(m, cached[k])
  {
  }

  lemma CachedPages(m: Mem, cached: Cached)
    requires CacheHolds(m, cached)
    ensures forall k :: k in cached ==> HeldData(m, cached[k])
  {
  }

  /** A page that the tables do not translate shows nothing. */
  lemma NothingThere(m: Mem, a: nat, va: nat)
    requires !AccessAt(m, a, va, Read)
    ensures ViewAt(m, a, PathOf(va)).Absent?
  {
  }

  /** After an attempt to map a page of an area with the area's rights. */
  lemma AfterMap(m: Mem, m': Mem, a: nat, va: nat, v: View, s: seq<V.Area>, ok: bool)
    requires IsPage(va) && Confined(m, a, s) && Fits(v, V.At(s, va))
    requires if ok then OnlyView(m, m', a, PathOf(va), v) else SameViews(m, m')
    ensures Confined(m', a, s) && OnlySpace(m, m', a)
    ensures !AccessAt(m, a, va, Read) ==> OnlyAdds(m, m', a)
    ensures ok ==> ViewAt(m', a, PathOf(va)) == v
  {
    hide Confined, SameViews, PathOf, ViewAt, V.At, AccessAt, OnlyAdds, OnlySpace;
    if ok {
      ConfinedMap(m, m', a, va, v, s);
      if !AccessAt(m, a, va, Read) { NothingThere(m, a, va); }
      MappedThere(m, m', a, va, v);
    } else {
      KeptRefl(s);
      ConfinedSame(m, m', a, s, s);
      AddsOnly(m, m', a);
    }
  }

  lemma MappedThere(m: Mem, m': Mem, a: nat, va: nat, v: View)
    requires OnlyView(m, m', a, PathOf(va), v)
    ensures ViewAt(m', a, PathOf(va)) == v
  {
  }

  lemma ReadIsLeast(m: Mem, a: nat, va: nat, access: Access)
    ensures AccessAt(m, a, va, access) ==> AccessAt(m, a, va, Read)
  {
  }

  lemma FaultedParts(m: Mem, m': Mem, a: nat, path: seq<nat>)
    requires ValidPath(path) && Faulted(m, m', a, path)
    ensures SameViews(m, m') && OthersTranslate(m, m', a, path) && m'.roots == m.roots && (Settled(m) ==> Settled(m'))
  {
  }

  lemma AddsTrans(m: Mem, m1: Mem, m2: Mem, a: nat)
    requires OnlyAdds(m, m1, a) && OnlyAdds(m1, m2, a)
    ensures OnlyAdds(m, m2, a)
  {
    hide ViewAt;
  }

  lemma KeptTrans(s: seq<V.Area>, s1: seq<V.Area>, s2: seq<V.Area>)
    requires AreasKept(s, s1) && AreasKept(s1, s2)
    ensures AreasKept(s, s2)
  {
    hide V.At;
  }

  lemma OthersTrans(m: Mem, m1: Mem, m2: Mem, a: nat, path: seq<nat>)
    requires OthersTranslate(m, m1, a, path) && OthersTranslate(m1, m2, a, path)
    ensures OthersTranslate(m, m2, a, path)
  {
    hide Translate;
  }

  lemma PageInWord(va: nat, len: nat, k: nat)
    requires 0 < len && va + len - 1 < WORD && k <= LastPage(va, len)
    ensures PageAt(Aligned(va), k) < WORD && PageAt(Aligned(va), k) % 4096 == 0
  {
  }

  /** An access that was possible stays possible while another page is made accessible. */
  lemma AccessStays(m: Mem, m': Mem, a: nat, page: nat, other: nat, access: Access)
    requires OthersTranslate(m, m', a, PathOf(page)) && AccessAt(m, a, other, access)
    requires AccessAt(m, a, page, access) ==> m' == m
    ensures AccessAt(m', a, other, access)
  {
    hide PathOf, Translate;
    if PathOf(other) == PathOf(page) { assert AccessAt(m, a, page, access); }
  }

  lemma ConfinedKept(m: Mem, m': Mem, a: nat, s: seq<V.Area>)
    requires Confined(m, a, s) && OthersKept(m, m') && a in m.roots
    ensures Confined(m', a, s)
  {
    hide PathOf, ViewAt, V.At;
    forall va: nat | IsPage(va)
      ensures FitsAt(m', a, s, va)
    {
      assert FitsAt(m, a, s, va);
    }
  }

  lemma DestroyedKept(m: Mem, m1: Mem, m2: Mem, child: nat)
    requires OthersKept(m, m1) && child !in m.roots && m2.pages == m1.pages && m2.roots == m1.roots - {child}
    requires child in m1.roots && m1.roots == m.roots[child := m1.roots[child]]
    ensures OthersKept(m, m2)
  {
    forall b: nat, path | b in m.roots && ValidPath(path)
      ensures ViewAt(m2, b, path) == ViewAt(m, b, path)
    {
      assert ViewAt(m2, b, path) == ViewAt(m1, b, path);
    }
  }

  lemma ForkedConfined(m: Mem, m': Mem, a: nat, child: nat, s: seq<V.Area>, s': seq<V.Area>)
    requires Confined(m, a, s) && Private(s) && Forked(m, m', a, child) && V.SameMap(s, s')
    ensures Confined(m', child, s') && Private(s')
  {
    hide PathOf, ViewAt, V.At;
    forall va: nat | IsPage(va)
      ensures FitsAt(m', child, s', va)
    {
      assert FitsAt(m, a, s, va);
    }
  }

  lemma CutConfined(m: Mem, m': Mem, a: nat, s: seq<V.Area>, s': seq<V.Area>, start: nat, end: nat, ok: bool)
    requires Confined(m, a, s) && Private(s) && start % 4096 == 0
    requires RangeGone(m, m', a, start, if start < end then (end - start + 4095) / 4096 else 0)
    requires if ok then forall x: nat :: V.At(s', x) == V.Outside(V.At(s, x), x, start, end) else s' == s
    ensures Confined(m', a, s') && Private(s')
  {
    hide PathOf, ViewAt, V.At;
    var n := if start < end then (end - start + 4095) / 4096 else 0;
    forall va: nat | IsPage(va)
      ensures FitsAt(m', a, s', va)
    {
      assert FitsAt(m, a, s, va);
      if start <= va < end {
        var k := (va - start) / 4096;
        assert PageAt(start, k) == va && k < n;
        assert Covered(PathOf(va), start, n);
      }
    }
  }

  lemma AreaAdded(m: Mem, a: nat, s: seq<V.Area>, s': seq<V.Area>, v: V.Area)
    requires Confined(m, a, s) && Private(s) && V.Added(s, s', v) && v.used && v.end <= USER_TOP
    requires v.flags & V.MAP_SHARED == 0 && forall x: nat :: v.start <= x < v.end ==> V.At(s, x) == V.None
    ensures Confined(m, a, s') && Private(s') && AreasKept(s, s')
    ensures forall x: nat :: v.start <= x < v.end ==> V.At(s', x) == V.Some(V.AttrOf(v))
  {
    hide PathOf, ViewAt, V.At;
    forall va: nat | IsPage(va)
      ensures FitsAt(m, a, s', va)
    {
      assert FitsAt(m, a, s, va);
    }
  }
}
