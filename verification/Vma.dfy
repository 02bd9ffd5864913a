/** Virtual memory areas in an unordered slot table (kernel/src/mm/vma.c), refining a partial
    map from addresses to attributes. */
module Vma {

  datatype Option<+T> = None | Some(value: T)
  datatype Kind = Anon | Stack | File

  /** Slot contents. The file fields matter for file areas only. */
  datatype Area = Area(used: bool, start: nat, end: nat, prot: bv32, flags: bv32, kind: Kind,
                       node: nat, fileStart: nat, fileOffset: nat, fileSize: nat)

  datatype FilePart = NoFile | FileAt(node: nat, start: nat, offset: nat, size: nat)

  /** What an address inside an area is: everything but the area's extent. */
  datatype Attr = Attr(prot: bv32, flags: bv32, kind: Kind, file: FilePart)

  const MAP_SHARED: bv32 := 0x01
  const USER_WRITE: bv32 := 0x02
  const MAX_CHUNKS: nat := 64
  const MAX_GROWDOWN_PAGES: nat := 2048

  function AttrOf(v: Area): Attr {
    Attr(v.prot, v.flags, v.kind, if v.kind.File? then FileAt(v.node, v.fileStart, v.fileOffset, v.fileSize)
        else NoFile)
  }

  predicate Overlaps(aStart: nat, aEnd: nat, bStart: nat, bEnd: nat) {
    aStart < bEnd && bStart < aEnd
  }

  /** `compatible`, field by field. */
  predicate Compatible(a: Area, b: Area) {
    if a.prot != b.prot || a.flags != b.flags || a.kind != b.kind then false
    else if !a.kind.File? then true
    else a.node == b.node && a.fileStart == b.fileStart && a.fileOffset == b.fileOffset && a.fileSize == b.fileSize
  }

  lemma CompatibleIsSameAttr(a: Area, b: Area)
    ensures Compatible(a, b) <==> AttrOf(a) == AttrOf(b)
  {
  }

  predicate Covers(v: Area, x: nat) {
    v.used && v.start <= x < v.end
  }

  predicate Apart(a: Area, b: Area) {
    a.used && b.used ==> !Overlaps(a.start, a.end, b.start, b.end)
  }

  /** Used areas are non-empty and pairwise disjoint. */
  ghost predicate Disjoint(s: seq<Area>) {
    && (forall i :: 0 <= i < |s| && s[i].used ==> s[i].start < s[i].end)
    && (forall i, j :: 0 <= i < |s| && 0 <= j < |s| && i != j ==> Apart(s[i], s[j]))
  }

  /** The partial map the slots stand for. */
  ghost function At(s: seq<Area>, x: nat): Option<Attr> {
    if exists i :: 0 <= i < |s| && Covers(s[i], x)
    then var i :| 0 <= i < |s| && Covers(s[i], x); Some(AttrOf(s[i]))
    else None
  }

  lemma AtSlot(s: seq<Area>, i: nat, x: nat)
    requires Disjoint(s) && i < |s| && Covers(s[i], x)
    ensures At(s, x) == Some(AttrOf(s[i]))
  {
    var k :| 0 <= k < |s| && Covers(s[k], x) && At(s, x) == Some(AttrOf(s[k]));
    if k != i {
      assert Apart(s[k], s[i]);
    }
  }

  lemma AtNone(s: seq<Area>, x: nat)
    ensures At(s, x) == None <==> forall i :: 0 <= i < |s| ==> !Covers(s[i], x)
  {
  }

  // ---------------------------------------------------------------- merging

  /** Two used slots that touch and carry the same attributes. */
  predicate Joinable(a: Area, b: Area) {
    a.used && b.used && (a.end == b.start || b.end == a.start) && Compatible(a, b)
  }

  /** Slot `k` can be joined with no other slot. */
  ghost predicate Saturated(s: seq<Area>, k: nat)
    requires k < |s|
  {
    forall j :: 0 <= j < |s| && j != k ==> !Joinable(s[k], s[j])
  }

  function UsedCount(s: seq<Area>): nat {
    if s == [] then 0 else UsedCount(s[..|s| - 1]) + if s[|s| - 1].used then 1 else 0
  }

  lemma {:induction false} UsedCountUpdate(s: seq<Area>, i: nat, v: Area)
    requires i < |s|
    ensures UsedCount(s[i := v]) + (if s[i].used then 1 else 0) == UsedCount(s) + (if v.used then 1 else 0)
  {
    if i < |s| - 1 {
      UsedCountUpdate(s[..|s| - 1], i, v);
      assert s[i := v][..|s| - 1] == s[..|s| - 1][i := v];
    } else {
      assert s[i := v][..|s| - 1] == s[..|s| - 1];
    }
  }

  function Union(a: Area, b: Area): Area {
    if a.end == b.start then a.(end := b.end) else a.(start := b.start)
  }

  /** Slot `j` merged into slot `i`. */
  function Merged(s: seq<Area>, i: nat, j: nat): seq<Area>
    requires i < |s| && j < |s| && i != j
  {
    s[i := Union(s[i], s[j])][j := s[j].(used := false)]
  }

  /** Merging keeps the map and the disjointness, and consumes one used slot. */
  lemma MergeKeepsMap(s: seq<Area>, i: nat, j: nat)
    requires Disjoint(s) && i < |s| && j < |s| && i != j && Joinable(s[i], s[j])
    ensures Disjoint(Merged(s, i, j))
    ensures forall x: nat :: At(Merged(s, i, j), x) == At(s, x)
    ensures UsedCount(Merged(s, i, j)) == UsedCount(s) - 1
  {
    UsedCountUpdate(s, i, Union(s[i], s[j]));
    UsedCountUpdate(s[i := Union(s[i], s[j])], j, s[j].(used := false));
    MergeKeepsDisjoint(s, i, j);
    forall x: nat
      ensures At(Merged(s, i, j), x) == At(s, x)
    {
      MergeKeepsAt(s, i, j, x);
    }
  }

  lemma MergeKeepsDisjoint(s: seq<Area>, i: nat, j: nat)
    requires Disjoint(s) && i < |s| && j < |s| && i != j && Joinable(s[i], s[j])
    ensures Disjoint(Merged(s, i, j))
  {
    var s' := Merged(s, i, j);
    forall k, l | 0 <= k < |s| && 0 <= l < |s| && k != l
      ensures Apart(s'[k], s'[l])
    {
      assert Apart(s[k], s[l]) && Apart(s[i], s[j]);
      assert k != j && l != j ==> Apart(s[j], s[k]) && Apart(s[j], s[l]);
      assert k != i && l != i ==> Apart(s[i], s[k]) && Apart(s[i], s[l]);
    }
  }

  lemma MergeKeepsAt(s: seq<Area>, i: nat, j: nat, x: nat)
    requires Disjoint(s) && i < |s| && j < |s| && i != j && Joinable(s[i], s[j]) && Disjoint(Merged(s, i, j))
    ensures At(Merged(s, i, j), x) == At(s, x)
  {
    assert s[i].start < s[i].end && s[j].start < s[j].end;
    hide Disjoint;
    var s' := Merged(s, i, j);
    CompatibleIsSameAttr(s[i], s[j]);
    assert Covers(s'[i], x) <==> Covers(s[i], x) || Covers(s[j], x);
    if k :| 0 <= k < |s| && Covers(s[k], x) {
      AtSlot(s, k, x);
      AtSlot(s', if k == j then i else k, x);
    } else {
      AtNone(s, x);
      AtNone(s', x);
    }
  }

  /** A slot that could be joined with nothing still can be joined with nothing after others merge. */
  lemma MergeKeepsSaturated(s: seq<Area>, i: nat, j: nat, k: nat)
    requires Disjoint(s) && i < |s| && j < |s| && i != j && Joinable(s[i], s[j])
    requires k < |s| && k != i && Saturated(s, k)
    ensures Saturated(Merged(s, i, j), k)
  {
    CompatibleIsSameAttr(s[i], s[j]);
    var s' := Merged(s, i, j);
    forall l | 0 <= l < |s| && l != k
      ensures !Joinable(s'[k], s'[l])
    {
      CompatibleIsSameAttr(s[k], s[l]);
      CompatibleIsSameAttr(s'[k], s'[l]);
      CompatibleIsSameAttr(s[k], s[j]);
      assert !Joinable(s[k], s[l]);
      assert k != j ==> !Joinable(s[k], s[j]);
    }
  }

  // ---------------------------------------------------------------- the list

  ghost predicate SameMap(s: seq<Area>, s': seq<Area>) {
    forall x: nat :: At(s', x) == At(s, x)
  }

  /** No two used areas touch with the same attributes. */
  ghost predicate Canonical(s: seq<Area>) {
    forall k :: 0 <= k < |s| ==> Saturated(s, k)
  }

  /** `v` is added to the map and nothing else changes. */
  ghost predicate Added(s: seq<Area>, s': seq<Area>, v: Area) {
    forall x: nat :: At(s', x) == if Covers(v, x) then Some(AttrOf(v)) else At(s, x)
  }

  lemma FillSlot(s: seq<Area>, k: nat, v: Area)
    requires Disjoint(s) && k < |s| && !s[k].used && v.used && v.start < v.end
    requires forall x: nat :: Covers(v, x) ==> At(s, x) == None
    ensures Disjoint(s[k := v]) && Added(s, s[k := v], v)
  {
    var s' := s[k := v];
    forall i, j | 0 <= i < |s| && 0 <= j < |s| && i != j
      ensures Apart(s'[i], s'[j])
    {
      assert Apart(s[i], s[j]);
      FreeMeansApart(s, v, i);
      FreeMeansApart(s, v, j);
    }
    forall x: nat
      ensures At(s', x) == if Covers(v, x) then Some(AttrOf(v)) else At(s, x)
    {
      if Covers(v, x) {
        AtSlot(s', k, x);
      } else if i :| 0 <= i < |s| && Covers(s[i], x) {
        AtSlot(s, i, x);
        AtSlot(s', i, x);
      } else {
        AtNone(s, x);
        AtNone(s', x);
      }
    }
  }

  /** An area no address of which is mapped overlaps no used slot. */
  lemma FreeMeansApart(s: seq<Area>, v: Area, i: nat)
    requires Disjoint(s) && i < |s| && v.used && v.start < v.end
    requires forall x: nat :: Covers(v, x) ==> At(s, x) == None
    ensures Apart(s[i], v) && Apart(v, s[i])
  {
    if s[i].used && Overlaps(s[i].start, s[i].end, v.start, v.end) {
      var x := if s[i].start < v.start then v.start else s[i].start;
      AtNone(s, x);
      assert Covers(v, x) && Covers(s[i], x);
      assert false;
    }
  }

  // ---------------------------------------------------------------- what areas hold of files

  /** A file area keeps its node alive; a shared writable one is also noted on the node. */
  datatype Token = Hold(node: nat) | Writer(node: nat)

  function TokensOf(v: Area): multiset<Token> {
    if !v.used || !v.kind.File? then multiset{}
    else if v.flags & MAP_SHARED != 0 && v.prot & USER_WRITE != 0 then multiset{Hold(v.node), Writer(v.node)}
    else multiset{Hold(v.node)}
  }

  function Tokens(s: seq<Area>): multiset<Token> {
    if s == [] then multiset{} else TokensOf(s[0]) + Tokens(s[1..])
  }

  /** Taking slot `i` out of the sum. */
  lemma {:induction false} TokensWithout(s: seq<Area>, i: nat, v: Area)
    requires i < |s| && TokensOf(v) == multiset{}
    ensures Tokens(s) == Tokens(s[i := v]) + TokensOf(s[i])
  {
    hide TokensOf;
    if i == 0 {
      assert s[i := v][1..] == s[1..];
    } else {
      TokensWithout(s[1..], i - 1, v);
      assert s[i := v][1..] == s[1..][i - 1 := v];
    }
  }

  lemma {:induction false} TokensSame(s: seq<Area>, i: nat, v: Area)
    requires i < |s| && TokensOf(v) == TokensOf(s[i])
    ensures Tokens(s[i := v]) == Tokens(s)
  {
    hide TokensOf;
    if i == 0 {
      assert s[i := v][1..] == s[1..];
    } else {
      TokensSame(s[1..], i - 1, v);
      assert s[i := v][1..] == s[1..][i - 1 := v];
    }
  }

  lemma {:induction false} TokensAppend(s: seq<Area>, t: seq<Area>)
    ensures Tokens(s + t) == Tokens(s) + Tokens(t)
  {
    hide TokensOf;
    if s == [] {
      assert s + t == t;
    } else {
      TokensAppend(s[1..], t);
      assert (s + t)[1..] == s[1..] + t;
    }
  }

  lemma {:induction false} TokensUnused(s: seq<Area>)
    requires forall i :: 0 <= i < |s| ==> !s[i].used
    ensures Tokens(s) == multiset{}
  {
    if s == [] {
    } else {
      TokensUnused(s[1..]);
    }
  }

  lemma TakeAway(base: multiset<Token>, rest: multiset<Token>, gone: multiset<Token>)
    ensures (base + (rest + gone)) - gone == base + rest
  {
  }

  lemma PutBack(base: multiset<Token>, held: multiset<Token>, more: multiset<Token>)
    ensures (base + held) + more == base + (held + more)
  {
  }

  /** A freshly zeroed chunk. */
  function Empty(n: nat): (r: seq<Area>)
    ensures |r| == n && forall i :: 0 <= i < n ==> !r[i].used
  {
    seq(n, _ => Area(false, 0, 0, 0, 0, Anon, 0, 0, 0, 0))
  }

  lemma GrowKeepsMap(s: seq<Area>, n: nat)
    requires Disjoint(s)
    ensures Disjoint(s + Empty(n)) && SameMap(s, s + Empty(n))
  {
    var s' := s + Empty(n);
    forall i, j | 0 <= i < |s'| && 0 <= j < |s'| && i != j
      ensures Apart(s'[i], s'[j])
    {
      assert i < |s| && j < |s| ==> Apart(s[i], s[j]);
    }
    forall x: nat
      ensures At(s', x) == At(s, x)
    {
      if i :| 0 <= i < |s| && Covers(s[i], x) {
        AtSlot(s, i, x);
        AtSlot(s', i, x);
      } else {
        AtNone(s, x);
        AtNone(s', x);
      }
    }
  }

  /** The file-system side: reference and writer notes on nodes. */
  class Vfs {
    var tokens: multiset<Token>

    constructor ()
      ensures tokens == multiset{}
    {
      tokens := multiset{};
    }

    method Retain(v: Area)
      requires v.used
      modifies this
      ensures tokens == old(tokens) + TokensOf(v)
    {
      if v.kind.File? {
        tokens := tokens + multiset{Hold(v.node)};
        if v.flags & MAP_SHARED != 0 && v.prot & USER_WRITE != 0 {
          tokens := tokens + multiset{Writer(v.node)};
        }
      }
    }

    method Release(v: Area)
      modifies this
      ensures tokens == old(tokens) - TokensOf(v)
    {
      if v.used && v.kind.File? {
        if v.flags & MAP_SHARED != 0 && v.prot & USER_WRITE != 0 {
          tokens := tokens - multiset{Writer(v.node)};
        }
        tokens := tokens - multiset{Hold(v.node)};
      }
    }
  }

  /** Every slot there can be is taken. */
  ghost predicate Packed(s: seq<Area>, perChunk: nat) {
    UsedCount(s) >= MAX_CHUNKS * perChunk
  }

  lemma {:induction false} AllUsed(s: seq<Area>)
    requires forall k :: 0 <= k < |s| ==> s[k].used
    ensures UsedCount(s) == |s|
  {
    if s == [] {
    } else {
      AllUsed(s[..|s| - 1]);
    }
  }

  lemma {:induction false} UsedCountEmpty(s: seq<Area>, n: nat)
    ensures UsedCount(s + Empty(n)) == UsedCount(s)
    decreases n
  {
    if n == 0 {
      assert s + Empty(0) == s;
    } else {
      UsedCountEmpty(s, n - 1);
      assert (s + Empty(n))[..|s| + n - 1] == s + Empty(n - 1);
    }
  }

  lemma UsedNone(s: seq<Area>)
    ensures UsedCount([]) == 0 && s[..0] == []
  {
  }

  lemma {:induction false} UsedPrefix(s: seq<Area>, i: nat)
    requires i < |s|
    ensures UsedCount(s[..i + 1]) == UsedCount(s[..i]) + (if s[i].used then 1 else 0)
    ensures UsedCount(s[..i + 1]) <= UsedCount(s)
    decreases |s| - i
  {
    assert s[..i + 1][..i] == s[..i];
    if i + 1 == |s| {
      assert s[..i + 1] == s;
    } else {
      UsedPrefix(s, i + 1);
    }
  }

  lemma {:induction false} UsedWithin(s: seq<Area>)
    ensures UsedCount(s) <= |s|
  {
    if s == [] {
    } else {
      UsedWithin(s[..|s| - 1]);
    }
  }

  lemma CapacityWithin(chunks: nat, perChunk: nat)
    requires chunks <= MAX_CHUNKS
    ensures chunks * perChunk <= MAX_CHUNKS * perChunk
  {
  }

  function Extra(b: bool): nat {
    if b then 1 else 0
  }

  /** The area reaches to both sides of an address. */
  predicate Across(v: Area, x: nat) {
    v.used && v.start < x < v.end
  }

  /** Disjoint areas do not reach across the same address. */
  lemma AcrossOnce(s: seq<Area>, i: nat, x: nat)
    requires Disjoint(s) && i < |s| && Across(s[i], x)
    ensures forall j: nat :: j < |s| && j != i ==> !Across(s[j], x)
  {
    forall j: nat | j < |s| && j != i
      ensures !Across(s[j], x)
    {
      assert Apart(s[i], s[j]);
    }
  }

  lemma NoSlotLeft(s: seq<Area>, perChunk: nat, reliable: bool)
    requires reliable ==> Packed(s, perChunk)
    ensures reliable ==> UsedCount(s) >= MAX_CHUNKS * perChunk
  {
  }

  class VmaList {
    var slots: seq<Area>
    var chunks: nat
    const perChunk: nat
    const vfs: Vfs
    /** Memory for another chunk can always be had. */
    const reliable: bool

    ghost predicate Valid()
      reads this
    {
      Disjoint(slots) && |slots| == chunks * perChunk && chunks <= MAX_CHUNKS && 0 < perChunk
    }

    /** The notes on file nodes are `base`, held by everybody else, plus those of this list's areas. */
    ghost predicate Balanced(base: multiset<Token>)
      reads this, vfs
    {
      vfs.tokens == base + Tokens(slots)
    }

    constructor (perChunk: nat, vfs: Vfs, reliable: bool)
      requires 0 < perChunk
      ensures Valid() && slots == [] && this.perChunk == perChunk && this.vfs == vfs && this.reliable == reliable
    {
      this.reliable := reliable;
      slots := [];
      chunks := 0;
      this.perChunk := perChunk;
      this.vfs := vfs;
    }

    /** `merge_adjacent`: terminates, keeps the address map, and leaves no two used areas adjacent
        and compatible, although a restart resumes at slot 1. */
    method MergeAdjacent(ghost base: multiset<Token>)
      requires Valid() && Balanced(base)
      modifies this`slots, vfs
      ensures Valid() && SameMap(old(slots), slots) && Canonical(slots)
      ensures Balanced(base)
    {
      hide Disjoint, Joinable, Compatible, At, Merged, UsedCount, Tokens, Saturated;
      var i := 0;
      while i < |slots|
        invariant 0 <= i <= |slots| && Valid() && SameMap(old(slots), slots)
        invariant forall k :: 0 <= k < i ==> Saturated(slots, k)
        invariant Balanced(base)
      {
        if slots[i].used {
          MergeInto(i, base);
        } else {
          UnusedIsSaturated(slots, i);
        }
        i := i + 1;
      }
    }

    /** The inner loop: everything that can be joined with slot `i` is. */
    method MergeInto(i: nat, ghost base: multiset<Token>)
      requires Valid() && Balanced(base) && i < |slots| && slots[i].used
      requires forall k :: 0 <= k < i ==> Saturated(slots, k)
      modifies this`slots, vfs
      ensures Valid() && |slots| == |old(slots)| && SameMap(old(slots), slots)
      ensures forall k :: 0 <= k <= i ==> Saturated(slots, k)
      ensures Balanced(base)
    {
      hide Disjoint, Joinable, At, Merged, UsedCount, Tokens, TokensOf;
      var j := 0;
      while j < |slots|
        invariant 0 <= j <= |slots| && Valid() && |slots| == |old(slots)| && SameMap(old(slots), slots)
        invariant slots[i].used
        invariant forall k :: 0 <= k < i ==> Saturated(slots, k)
        invariant forall l :: 0 <= l < j && l != i ==> !Joinable(slots[i], slots[l])
        invariant Balanced(base)
        decreases UsedCount(slots), |slots| - j
      {
        var a, b := slots[i], slots[j];
        if i == j || !b.used {
          NotJoinable(a, b);
          j := j + 1;
          continue;
        }
        JoinableMeans(a, b);
        if (a.end == b.start || b.end == a.start) && Compatible(a, b) {
          ghost var s := slots;
          MergeKeepsMap(s, i, j);
          MergedSlots(s, i, j);
          MergedTokens(s, i, j);
          forall k | 0 <= k < i
            ensures Saturated(Merged(s, i, j), k)
          {
            MergeKeepsSaturated(s, i, j, k);
          }
          TakeAway(base, Tokens(Merged(s, i, j)), TokensOf(b));
          slots := slots[i := Union(a, b)][j := b.(used := false)];
          vfs.Release(b);
          assert slots == Merged(s, i, j);
          // `j = 0` and the loop's own increment: slot 0 is not looked at again
          if 0 < i {
            JoinableSymmetric(slots[i], slots[0]);
            assert Saturated(slots, 0);
          }
          j := 1;
        } else {
          j := j + 1;
        }
      }
    }

    /** First unused slot, growing the table by a chunk when there is none; -1 when it cannot grow. */
    method AllocSlot() returns (k: int)
      requires Valid()
      modifies this`slots, this`chunks
      ensures Valid() && SameMap(old(slots), slots) && Tokens(slots) == Tokens(old(slots))
      ensures UsedCount(slots) == UsedCount(old(slots))
      ensures k < 0 ==> slots == old(slots) && (reliable ==> Packed(slots, perChunk))
      ensures k >= 0 ==> k < |slots| && !slots[k].used
    {
      hide Disjoint, At, Tokens, UsedCount;
      while true
        invariant Valid() && SameMap(old(slots), slots) && Tokens(slots) == Tokens(old(slots)) &&
                  UsedCount(slots) == UsedCount(old(slots))
        invariant chunks == old(chunks) ==> slots == old(slots)
        invariant chunks == old(chunks) || (|old(slots)| < |slots| && !slots[|old(slots)|].used)
        decreases MAX_CHUNKS - chunks
      {
        var i := 0;
        while i < |slots|
          invariant 0 <= i <= |slots|
          invariant forall l :: 0 <= l < i ==> slots[l].used
        {
          if !slots[i].used {
            return i;
          }
          i := i + 1;
        }
        var haveMemory: bool := *;
        if chunks >= MAX_CHUNKS || !(haveMemory || reliable) {
          AllUsed(slots);
          return -1;
        }
        GrowKeepsMap(slots, perChunk);
        TokensAppend(slots, Empty(perChunk));
        TokensUnused(Empty(perChunk));
        UsedCountEmpty(slots, perChunk);
        SameMapTransitive(old(slots), slots, slots + Empty(perChunk));
        slots := slots + Empty(perChunk);
        chunks := chunks + 1;
      }
    }

    /** `add_raw_vma`: one more area, with the references it holds. */
    method AddRaw(v: Area, ghost base: multiset<Token>) returns (ok: bool)
      requires Valid() && Balanced(base) && v.used
      requires forall x: nat :: Covers(v, x) ==> At(slots, x) == None
      modifies this`slots, this`chunks, vfs
      ensures Valid()
      ensures Balanced(base)
      ensures !ok ==> slots == old(slots) && vfs.tokens == old(vfs.tokens)
      ensures ok ==> v.start < v.end && Added(old(slots), slots, v) && UsedCount(slots) == UsedCount(old(slots)) + 1
      ensures !ok && reliable ==> v.start >= v.end || Packed(slots, perChunk)
    {
      hide Disjoint, At, Tokens, TokensOf, Covers, UsedCount;
      if v.start >= v.end {
        return false;
      }
      var k := AllocSlot();
      if k < 0 {
        return false;
      }
      assert forall x: nat :: Covers(v, x) ==> At(slots, x) == None;
      FillSlot(slots, k, v);
      TokensFilled(slots, k, v);
      UsedCountUpdate(slots, k, v);
      PutBack(base, Tokens(slots), TokensOf(v));
      slots := slots[k := v];
      vfs.Retain(v);
      return true;
    }

    /** `vma_list_destroy`: every reference the areas held is given back. */
    method Clear(ghost base: multiset<Token>)
      requires Valid() && Balanced(base)
      modifies this`slots, this`chunks, vfs
      ensures Valid() && slots == [] && vfs.tokens == base
    {
      hide Disjoint, Tokens, TokensOf;
      var i := 0;
      TokensEnds(slots);
      while i < |slots|
        invariant 0 <= i <= |slots| && slots == old(slots) && Valid()
        invariant vfs.tokens == base + Tokens(slots[i..])
      {
        TokensSuffix(slots, i);
        TakeAway(base, Tokens(slots[i + 1..]), TokensOf(slots[i]));
        vfs.Release(slots[i]);
        i := i + 1;
      }
      slots := [];
      chunks := 0;
      NoAreas();
    }

    method OverlapsAny(start: nat, end: nat) returns (r: bool)
      requires Valid()
      ensures r <==> start >= end || exists x: nat :: start <= x < end && At(slots, x) != None
    {
      if start >= end {
        return true;
      }
      hide Disjoint, At;
      var i := 0;
      while i < |slots|
        invariant 0 <= i <= |slots|
        invariant forall k :: 0 <= k < i ==> !(slots[k].used && Overlaps(start, end, slots[k].start, slots[k].end))
      {
        if slots[i].used && Overlaps(start, end, slots[i].start, slots[i].end) {
          OverlapMeansMapped(slots, i, start, end);
          return true;
        }
        i := i + 1;
      }
      NoOverlapMeansFree(slots, start, end);
      return false;
    }

    /** The attributes of an address, or nothing. */
    method Lookup(x: nat) returns (r: Option<Area>)
      requires Valid()
      ensures match r
              case None => At(slots, x) == None
              case Some(v) => Covers(v, x) && v in slots && At(slots, x) == Some(AttrOf(v))
    {
      hide Disjoint, At;
      var i := 0;
      while i < |slots|
        invariant 0 <= i <= |slots|
        invariant forall k :: 0 <= k < i ==> !Covers(slots[k], x)
      {
        if slots[i].used && x >= slots[i].start && x < slots[i].end {
          AtSlot(slots, i, x);
          return Some(slots[i]);
        }
        i := i + 1;
      }
      AtNone(slots, x);
      return None;
    }

    /** One area that contains the whole range, or nothing when none does. */
    method LookupRange(start: nat, end: nat) returns (r: Option<Area>)
      requires Valid()
      ensures match r
              case None => start >= end || forall v :: v in slots && v.used ==> !(v.start <= start && end <= v.end)
              case Some(v) => start < end && v in slots && forall x: nat :: start <= x < end ==>
                  At(slots, x) == Some(AttrOf(v))
    {
      if start >= end {
        return None;
      }
      hide Disjoint, At;
      var i := 0;
      while i < |slots|
        invariant 0 <= i <= |slots|
        invariant forall k :: 0 <= k < i ==> !(slots[k].used && slots[k].start <= start && end <= slots[k].end)
      {
        var v := slots[i];
        if v.used && start >= v.start && end <= v.end {
          forall x: nat | start <= x < end
            ensures At(slots, x) == Some(AttrOf(v))
          {
            AtSlot(slots, i, x);
          }
          return Some(v);
        }
        i := i + 1;
      }
      return None;
    }

    /** Adds exactly `[start, end)`, or changes nothing. */
    method Insert(start: nat, end: nat, prot: bv32, flags: bv32, kind: Kind, ghost base: multiset<Token>)
        returns (ok: bool)
      requires Valid() && Balanced(base) && !kind.File?
      modifies this`slots, this`chunks, vfs
      ensures Valid()
      ensures Balanced(base)
      ensures !ok ==> slots == old(slots) && vfs.tokens == old(vfs.tokens)
      ensures ok ==> start < end && (forall x: nat :: start <= x < end ==> At(old(slots), x) == None)
      ensures ok ==> Canonical(slots) && Added(old(slots), slots, Area(true, start, end, prot, flags, kind, 0, 0, 0, 0))
      ensures !ok && reliable ==> start >= end || Packed(slots, perChunk) || exists x: nat ::
                start <= x < end && At(slots, x) != None
    {
      ok := InsertArea(Area(true, start, end, prot, flags, kind, 0, 0, 0, 0), base);
    }

    /** The same for a file area; a directory or device node is refused. */
    method InsertFile(start: nat, end: nat, prot: bv32, flags: bv32, node: nat, regular: bool,
                      fileStart: nat, fileOffset: nat, fileSize: nat, ghost base: multiset<Token>) returns (ok: bool)
      requires Valid() && Balanced(base)
      modifies this`slots, this`chunks, vfs
      ensures Valid()
      ensures Balanced(base)
      ensures !ok ==> slots == old(slots) && vfs.tokens == old(vfs.tokens)
      ensures ok ==> regular && start < end && (forall x: nat :: start <= x < end ==> At(old(slots), x) == None)
      ensures ok ==>
                Canonical(slots) && Added(old(slots), slots,
                Area(true, start, end, prot, flags, File, node, fileStart, fileOffset, fileSize))
      ensures !ok && reliable ==>
                !regular || start >= end || Packed(slots, perChunk) ||
                exists x: nat :: start <= x < end && At(slots, x) != None
    {
      if !regular {
        return false;
      }
      ok := InsertArea(Area(true, start, end, prot, flags, File, node, fileStart, fileOffset, fileSize), base);
    }

    /** The part the two insertions share: reject an overlap, take a slot, merge. */
    method InsertArea(v: Area, ghost base: multiset<Token>) returns (ok: bool)
      requires Valid() && Balanced(base) && v.used
      modifies this`slots, this`chunks, vfs
      ensures Valid()
      ensures Balanced(base)
      ensures !ok ==> slots == old(slots) && vfs.tokens == old(vfs.tokens)
      ensures ok ==> v.start < v.end && (forall x: nat :: v.start <= x < v.end ==> At(old(slots), x) == None)
      ensures ok ==> Canonical(slots) && Added(old(slots), slots, v)
      ensures !ok && reliable ==>
                v.start >= v.end || Packed(slots, perChunk) ||
                exists x: nat :: v.start <= x < v.end && At(slots, x) != None
    {
      hide Disjoint, At, Tokens, TokensOf, Canonical, UsedCount;
      if v.start >= v.end {
        return false;
      }
      var taken := OverlapsAny(v.start, v.end);
      if taken {
        return false;
      }
      ok := AddRaw(v, base);
      if ok {
        MergeAdjacent(base);
      }
    }

    /** Adds a piece to a list under construction; when that fails, gives everything it held back. */
    method Append(next: VmaList, v: Area, ghost base: multiset<Token>) returns (ok: bool)
      requires Valid() && next != this && next.Valid() && next.vfs == vfs && next.Balanced(base) && v.used
      requires forall x: nat :: Covers(v, x) ==> At(next.slots, x) == None
      modifies next`slots, next`chunks, vfs
      ensures next.Valid()
      ensures ok ==>
                next.Balanced(base) && Added(old(next.slots), next.slots, v) &&
                UsedCount(next.slots) == UsedCount(old(next.slots)) + 1
      ensures !ok ==> vfs.tokens == base && next.slots == []
      ensures !ok && next.reliable && v.start < v.end ==> Packed(old(next.slots), next.perChunk)
    {
      hide Disjoint, At, Tokens, UsedCount;
      ok := next.AddRaw(v, base);
      if !ok {
        next.Clear(base);
      }
    }

    /** Restricts the map to the addresses outside `[start, end)`, or changes nothing. */
    method Remove(start: nat, end: nat, ghost base: multiset<Token>) returns (ok: bool)
      requires Valid() && Balanced(base)
      modifies this`slots, this`chunks, vfs
      ensures Valid() && Balanced(base)
      ensures !ok ==> slots == old(slots) && vfs.tokens == old(vfs.tokens)
      ensures ok ==> start < end && Canonical(slots)
      ensures ok ==> forall x: nat :: At(slots, x) == Outside(At(old(slots), x), x, start, end)
      ensures !ok && reliable ==> start >= end || UsedCount(slots) >= MAX_CHUNKS * perChunk
    {
      hide Disjoint, At, Tokens, TokensOf, Canonical, Added, UsedCount, Packed;
      if start >= end {
        return false;
      }
      ghost var kept := base + Tokens(slots);
      var next := new VmaList(perChunk, vfs, reliable);
      NoAreas();
      NothingYet(slots);
      ghost var split := false;
      UsedNone(slots);
      var i := 0;
      while i < |slots|
        invariant 0 <= i <= |slots| && slots == old(slots) && chunks == old(chunks) && Valid()
        invariant fresh(next) && next.Valid() && next.vfs == vfs && next.perChunk == perChunk &&
                  next.reliable == reliable && next.Balanced(kept)
        invariant forall x: nat :: At(next.slots, x) == Outside(At(slots[..i], x), x, start, end)
        invariant UsedCount(next.slots) <= UsedCount(slots[..i]) + Extra(split)
        invariant split ==> exists j: nat :: j < i && Across(slots[j], start) && Across(slots[j], end)
      {
        var v := slots[i];
        ghost var s0 := next.slots;
        PrefixStep(slots, i);
        UsedPrefix(slots, i);
        if Across(v, start) { AcrossOnce(slots, i, start); }
        if v.used {
          if !Overlaps(start, end, v.start, v.end) {
            ok := Append(next, v, kept);
            if !ok {
              NoSlotLeft(s0, perChunk, reliable);
              return false;
            }
            AddedAt(s0, next.slots, v);
          } else {
            if v.start < start {
              ok := Append(next, v.(end := start), kept);
              if !ok {
                NoSlotLeft(s0, perChunk, reliable);
                return false;
              }
              AddedAt(s0, next.slots, v.(end := start));
            }
            ghost var s1 := next.slots;
            if end < v.end {
              ok := Append(next, v.(start := end), kept);
              if !ok {
                NoSlotLeft(s1, perChunk, reliable);
                return false;
              }
              AddedAt(s1, next.slots, v.(start := end));
              if v.start < start { split := true; }
            }
          }
        }
        i := i + 1;
      }
      assert slots[..i] == slots;
      Adopt(next, base);
      return true;
    }

    /** Merges the rebuilt list, releases this one and takes the rebuilt one's slots. */
    method Adopt(next: VmaList, ghost base: multiset<Token>)
      requires Valid() && next != this && next.Valid() && next.vfs == vfs && next.perChunk == perChunk
      requires next.Balanced(base + Tokens(slots))
      modifies this`slots, this`chunks, next`slots, vfs
      ensures Valid() && Balanced(base) && SameMap(old(next.slots), slots) && Canonical(slots)
    {
      hide Disjoint, At, Tokens, TokensOf, Canonical;
      next.MergeAdjacent(base + Tokens(slots));
      Swapped(base, Tokens(slots), Tokens(next.slots));
      Clear(base + Tokens(next.slots));
      slots := next.slots;
      chunks := next.chunks;
    }

    /** The up to three pieces of an area that overlaps the protected range. */
    method AppendProtected(next: VmaList, v: Area, start: nat, end: nat, prot: bv32, ghost base: multiset<Token>)
      returns (ok: bool)
      requires Valid() && next != this && next.Valid() && next.vfs == vfs && next.Balanced(base) && v.used
      requires v.start < v.end && start < end && Overlaps(start, end, v.start, v.end)
      requires forall x: nat :: Covers(v, x) ==> At(next.slots, x) == None
      modifies next`slots, next`chunks, vfs
      ensures next.Valid()
      ensures ok ==> next.Balanced(base)
      ensures ok ==> forall x: nat :: At(next.slots, x) == if Covers(v, x) then
              Reprotected(Some(AttrOf(v)), x, start, end, prot)
                                                           else At(old(next.slots), x)
      ensures !ok ==> vfs.tokens == base
      ensures ok ==>
                UsedCount(next.slots) == UsedCount(old(next.slots)) + 1 + Extra(v.start < start) + Extra(end < v.end)
      ensures !ok && next.reliable ==>
              UsedCount(old(next.slots)) + Extra(v.start < start) + Extra(end < v.end) >= MAX_CHUNKS * next.perChunk
    {
      hide Disjoint, At, Tokens, TokensOf, Added, UsedCount;
      ghost var s0 := next.slots;
      if v.start < start {
        ok := Append(next, v.(end := start), base);
        if !ok {
          return false;
        }
        AddedAt(s0, next.slots, v.(end := start));
      }
      ghost var s1 := next.slots;
      var mid := v.(start := if v.start > start then v.start else start,
                    end := if v.end < end then v.end else end, prot := prot);
      ok := Append(next, mid, base);
      if !ok {
        return false;
      }
      AddedAt(s1, next.slots, mid);
      ghost var s2 := next.slots;
      if end < v.end {
        ok := Append(next, v.(start := end), base);
        if !ok {
          return false;
        }
        AddedAt(s2, next.slots, v.(start := end));
      }
    }

    /** Changes the protection inside `[start, end)` and nothing else, or changes nothing. */
    method Protect(start: nat, end: nat, prot: bv32, ghost base: multiset<Token>) returns (ok: bool)
      requires Valid() && Balanced(base)
      modifies this`slots, this`chunks, vfs
      ensures Valid() && Balanced(base)
      ensures !ok ==> slots == old(slots) && vfs.tokens == old(vfs.tokens)
      ensures ok ==> start < end && Canonical(slots)
      ensures ok ==> forall x: nat :: At(slots, x) == Reprotected(At(old(slots), x), x, start, end, prot)
      ensures !ok && reliable ==> start >= end || UsedCount(slots) + 1 >= MAX_CHUNKS * perChunk
    {
      hide Disjoint, At, Tokens, TokensOf, Canonical, Added, UsedCount, Packed;
      if start >= end {
        return false;
      }
      ghost var kept := base + Tokens(slots);
      var next := new VmaList(perChunk, vfs, reliable);
      NoAreas();
      NothingYet(slots);
      UsedNone(slots);
      ghost var left, right := false, false;
      var i := 0;
      while i < |slots|
        invariant 0 <= i <= |slots| && slots == old(slots) && chunks == old(chunks) && Valid()
        invariant fresh(next) && next.Valid() && next.vfs == vfs && next.perChunk == perChunk &&
                  next.reliable == reliable && next.Balanced(kept)
        invariant forall x: nat :: At(next.slots, x) == Reprotected(At(slots[..i], x), x, start, end, prot)
        invariant UsedCount(next.slots) <= UsedCount(slots[..i]) + Extra(left) + Extra(right)
        invariant left ==> exists j: nat :: j < i && Across(slots[j], start)
        invariant right ==> exists j: nat :: j < i && Across(slots[j], end)
      {
        var v := slots[i];
        ghost var s0 := next.slots;
        PrefixStep(slots, i);
        UsedPrefix(slots, i);
        if Across(v, start) { AcrossOnce(slots, i, start); }
        if Across(v, end) { AcrossOnce(slots, i, end); }
        if v.used {
          if !Overlaps(start, end, v.start, v.end) {
            ok := Append(next, v, kept);
            if !ok {
              NoSlotLeft(s0, perChunk, reliable);
              return false;
            }
            AddedAt(s0, next.slots, v);
          } else {
            ok := AppendProtected(next, v, start, end, prot, kept);
            if !ok {
              return false;
            }
            left, right := left || v.start < start, right || end < v.end;
          }
        }
        i := i + 1;
      }
      assert slots[..i] == slots;
      Adopt(next, base);
      return true;
    }

    /** Extends the first area above `page` with the required flags down to `page`, when the gap is
        free and small enough; nothing else of the map changes. */
    method GrowDown(page: nat, required: bv32) returns (ok: bool, grown: Area)
      requires Valid()
      modifies this`slots
      ensures Valid() && |slots| == |old(slots)|
      ensures !ok ==> slots == old(slots)
      ensures ok ==> exists i: nat :: i < |slots| && GrewDown(old(slots), slots, i, page, required, grown)
      ensures ok <==> page % 4096 == 0 && exists i: nat :: CanGrow(old(slots), i, page, required)
    {
      hide Disjoint, At, GrewDown, Growable, CanGrow;
      grown := Area(false, 0, 0, 0, 0, Anon, 0, 0, 0, 0);
      ok := false;
      if page % 4096 != 0 {
        return;
      }
      var i := 0;
      while i < |slots|
        invariant 0 <= i <= |slots| && slots == old(slots)
        invariant forall j :: 0 <= j < i ==> !Growable(slots[j], page, required)
      {
        var v := slots[i];
        if !Growable(v, page, required) {
          i := i + 1;
          continue;
        }
        GrowsAbove(v, page, required);
        var pages := (v.start - page) / 4096;
        FirstDecides(slots, i, page, required);
        if pages == 0 || pages > MAX_GROWDOWN_PAGES {
          return;
        }
        var taken := OverlapsAny(page, v.start);
        if taken {
          return;
        }
        ExtendDown(slots, i, page, required);
        slots := slots[i := v.(start := page)];
        return true, v.(start := page);
      }
      NoneDecides(slots, page, required);
    }

    /** Copies every used area into the empty list `dst`, or leaves `dst` empty. */
    method CloneInto(dst: VmaList, ghost base: multiset<Token>) returns (ok: bool)
      requires Valid() && dst != this && dst.Valid() && dst.slots == [] && dst.vfs == vfs && dst.Balanced(base)
      requires dst.perChunk == perChunk
      modifies dst`slots, dst`chunks, vfs
      ensures dst.Valid()
      ensures ok ==> SameMap(slots, dst.slots) && dst.Balanced(base)
      ensures !ok ==> vfs.tokens == base && dst.slots == []
      ensures dst.reliable ==> ok
    {
      hide Disjoint, At, Tokens, TokensOf, Added, UsedCount, Packed;
      NothingYet(slots);
      UsedNone(slots);
      UsedWithin(slots);
      CapacityWithin(chunks, perChunk);
      var i := 0;
      while i < |slots|
        invariant 0 <= i <= |slots| && dst.Valid() && dst.Balanced(base) &&
                  UsedCount(dst.slots) == UsedCount(slots[..i])
        invariant forall x: nat :: At(dst.slots, x) == At(slots[..i], x)
      {
        ghost var s0 := dst.slots;
        PrefixStep(slots, i);
        UsedPrefix(slots, i);
        if slots[i].used {
          ok := Append(dst, slots[i], base);
          if !ok {
            NoSlotLeft(s0, perChunk, dst.reliable);
            return false;
          }
          AddedAt(s0, dst.slots, slots[i]);
        }
        i := i + 1;
      }
      assert slots[..i] == slots;
      return true;
    }
  }

  /** Slot `i`, and only it, now also covers the free gap from `page` up to its old start. */
  ghost predicate GrewDown(s: seq<Area>, s': seq<Area>, i: nat, page: nat, required: bv32, grown: Area)
    requires i < |s|
  {
    && s[i].used && s[i].flags & required == required && page < s[i].start
    && 0 < (s[i].start - page) / 4096 <= MAX_GROWDOWN_PAGES
    && grown == s[i].(start := page) && s' == s[i := grown]
    && (forall x: nat :: page <= x < s[i].start ==> At(s, x) == None)
    && (forall x: nat :: At(s', x) == if page <= x < s[i].start then Some(AttrOf(s[i])) else At(s, x))
  }

  /** An area above `page` with the required flags. */
  predicate Growable(v: Area, page: nat, required: bv32) {
    v.used && page < v.start && v.flags & required == required
  }

  /** Slot `i` is the first such area, the gap below it is small enough, and nothing lies in it. */
  ghost predicate CanGrow(s: seq<Area>, i: nat, page: nat, required: bv32) {
    && i < |s| && Growable(s[i], page, required) && (forall j: nat :: j < i ==> !Growable(s[j], page, required))
    && 0 < (s[i].start - page) / 4096 <= MAX_GROWDOWN_PAGES
    && forall x: nat :: page <= x < s[i].start ==> At(s, x) == None
  }

  /** The map entry at `x` once `[start, end)` is removed. */
  function Outside(a: Option<Attr>, x: nat, start: nat, end: nat): Option<Attr> {
    if start <= x < end then None else a
  }

  /** The map entry at `x` once `[start, end)` has protection `prot`. */
  function Reprotected(a: Option<Attr>, x: nat, start: nat, end: nat, prot: bv32): Option<Attr> {
    if start <= x < end && a.Some? then Some(a.value.(prot := prot)) else a
  }

  lemma NothingYet(s: seq<Area>)
    ensures forall x: nat :: At([], x) == None
    ensures s[..0] == []
  {
  }

  lemma AddedAt(s: seq<Area>, s': seq<Area>, v: Area)
    requires Added(s, s', v)
    ensures forall x: nat :: At(s', x) == if Covers(v, x) then Some(AttrOf(v)) else At(s, x)
  {
  }

  /** The map of one more slot of a disjoint list. */
  lemma PrefixStep(s: seq<Area>, i: nat)
    requires Disjoint(s) && i < |s|
    ensures forall x: nat :: Covers(s[i], x) ==> At(s[..i], x) == None
    ensures forall x: nat :: At(s[..i + 1], x) == if Covers(s[i], x) then Some(AttrOf(s[i])) else At(s[..i], x)
    ensures s[i].used ==> s[i].start < s[i].end
  {
    assert Disjoint(s[..i]) && Disjoint(s[..i + 1]);
    forall x: nat
      ensures Covers(s[i], x) ==> At(s[..i], x) == None
      ensures At(s[..i + 1], x) == if Covers(s[i], x) then Some(AttrOf(s[i])) else At(s[..i], x)
    {
      if Covers(s[i], x) {
        AtSlot(s[..i + 1], i, x);
        forall k | 0 <= k < i
          ensures !Covers(s[..i][k], x)
        {
          assert Apart(s[k], s[i]);
        }
        AtNone(s[..i], x);
      } else if k :| 0 <= k < i && Covers(s[k], x) {
        AtSlot(s[..i], k, x);
        AtSlot(s[..i + 1], k, x);
      } else {
        AtNone(s[..i], x);
        AtNone(s[..i + 1], x);
      }
    }
  }

  lemma ExtendDown(s: seq<Area>, i: nat, page: nat, required: bv32)
    requires Disjoint(s) && i < |s| && s[i].used && page < s[i].start && s[i].flags & required == required
    requires 0 < (s[i].start - page) / 4096 <= MAX_GROWDOWN_PAGES
    requires forall x: nat :: page <= x < s[i].start ==> At(s, x) == None
    ensures Disjoint(s[i := s[i].(start := page)])
    ensures GrewDown(s, s[i := s[i].(start := page)], i, page, required, s[i].(start := page))
  {
    var s' := s[i := s[i].(start := page)];
    var gap := s[i].(start := page, end := s[i].start);
    forall k, l | 0 <= k < |s| && 0 <= l < |s| && k != l
      ensures Apart(s'[k], s'[l])
    {
      assert Apart(s[k], s[l]) && Apart(s[l], s[k]);
      FreeMeansApart(s, gap, k);
      FreeMeansApart(s, gap, l);
    }
    forall x: nat
      ensures At(s', x) == if page <= x < s[i].start then Some(AttrOf(s[i])) else At(s, x)
    {
      if page <= x < s[i].start {
        AtSlot(s', i, x);
      } else if k :| 0 <= k < |s| && Covers(s[k], x) {
        AtSlot(s, k, x);
        AtSlot(s', k, x);
      } else {
        AtNone(s, x);
        AtNone(s', x);
      }
    }
  }

  lemma GrowsAbove(v: Area, page: nat, required: bv32)
    requires Growable(v, page, required)
    ensures v.used && page < v.start && v.flags & required == required
  {
  }

  /** Only the first growable area is ever extended, so it alone decides. */
  lemma FirstDecides(s: seq<Area>, i: nat, page: nat, required: bv32)
    requires i < |s| && Growable(s[i], page, required) && forall j :: 0 <= j < i ==> !Growable(s[j], page, required)
    ensures (exists k: nat :: CanGrow(s, k, page, required))
       <==> (0 < (s[i].start - page) / 4096 <= MAX_GROWDOWN_PAGES && forall x: nat :: page <= x < s[i].start ==>
           At(s, x) == None)
  {
    hide At;
    if k: nat :| CanGrow(s, k, page, required) {
      assert k == i;
    }
    assert (0 < (s[i].start - page) / 4096 <= MAX_GROWDOWN_PAGES
      && forall x: nat :: page <= x < s[i].start ==> At(s, x) == None) ==> CanGrow(s, i, page, required);
  }

  lemma NoneDecides(s: seq<Area>, page: nat, required: bv32)
    requires forall j :: 0 <= j < |s| ==> !Growable(s[j], page, required)
    ensures !exists k: nat :: CanGrow(s, k, page, required)
  {
  }

  lemma Swapped(base: multiset<Token>, mine: multiset<Token>, next: multiset<Token>)
    ensures (base + mine) + next == (base + next) + mine
  {
  }

  lemma SameMapTransitive(s: seq<Area>, t: seq<Area>, u: seq<Area>)
    requires SameMap(s, t) && SameMap(t, u)
    ensures SameMap(s, u)
  {
    hide At;
  }

  lemma MergedTokens(s: seq<Area>, i: nat, j: nat)
    requires i < |s| && j < |s| && i != j && s[i].used && Compatible(s[i], s[j])
    ensures Tokens(s) == Tokens(Merged(s, i, j)) + TokensOf(s[j])
  {
    hide Tokens;
    var s1 := s[i := Union(s[i], s[j])];
    TokensSame(s, i, Union(s[i], s[j]));
    TokensWithout(s1, j, s[j].(used := false));
  }

  lemma TokensEnds(s: seq<Area>)
    ensures s[0..] == s && Tokens(s[|s|..]) == multiset{}
  {
  }

  lemma TokensSuffix(s: seq<Area>, i: nat)
    requires i < |s|
    ensures Tokens(s[i..]) == Tokens(s[i + 1..]) + TokensOf(s[i])
  {
    assert s[i..][1..] == s[i + 1..];
  }

  lemma TokensFilled(s: seq<Area>, k: nat, v: Area)
    requires k < |s| && !s[k].used
    ensures Tokens(s[k := v]) == Tokens(s) + TokensOf(v)
  {
    hide Tokens;
    TokensWithout(s[k := v], k, s[k]);
    assert s[k := v][k := s[k]] == s;
  }

  lemma NoAreas()
    ensures Disjoint([]) && Tokens([]) == multiset{}
  {
  }

  lemma OverlapMeansMapped(s: seq<Area>, i: nat, start: nat, end: nat)
    requires Disjoint(s) && i < |s| && s[i].used && start < end && Overlaps(start, end, s[i].start, s[i].end)
    ensures exists x: nat :: start <= x < end && At(s, x) != None
  {
    var x := if s[i].start < start then start else s[i].start;
    AtSlot(s, i, x);
  }

  lemma NoOverlapMeansFree(s: seq<Area>, start: nat, end: nat)
    requires forall k :: 0 <= k < |s| ==> !(s[k].used && Overlaps(start, end, s[k].start, s[k].end))
    ensures forall x: nat :: start <= x < end ==> At(s, x) == None
  {
    forall x: nat | start <= x < end
      ensures At(s, x) == None
    {
      AtNone(s, x);
    }
  }

  lemma UnusedIsSaturated(s: seq<Area>, k: nat)
    requires k < |s| && !s[k].used
    ensures Saturated(s, k)
  {
  }

  lemma NotJoinable(a: Area, b: Area)
    ensures !b.used ==> !Joinable(a, b)
  {
  }

  lemma JoinableMeans(a: Area, b: Area)
    requires a.used && b.used
    ensures Joinable(a, b) <==> (a.end == b.start || b.end == a.start) && Compatible(a, b)
  {
  }

  lemma JoinableSymmetric(a: Area, b: Area)
    ensures Joinable(a, b) <==> Joinable(b, a)
  {
    CompatibleIsSameAttr(a, b);
    CompatibleIsSameAttr(b, a);
  }

  lemma MergedSlots(s: seq<Area>, i: nat, j: nat)
    requires i < |s| && j < |s| && i != j && s[i].used
    ensures Merged(s, i, j) == s[i := Union(s[i], s[j])][j := s[j].(used := false)]
    ensures |Merged(s, i, j)| == |s| && Merged(s, i, j)[i].used
  {
  }
}
