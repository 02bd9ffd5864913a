/** Directory blocks of ext2 (kernel/src/ext2.c): variable-length records that tile a block exactly. */
module Dirents {
  import opened Bytes
  import opened BlockCache
  import opened Ext2Disk

  type Name = seq<byte>

  datatype Dirent = Dirent(name: Name, ino: nat, kind: byte)

  /** A record as it lies in a block: an inode number (0 when unused), its length and its name. */
  datatype Rec = Rec(ino: nat, len: nat, name: Name, kind: byte)

  function ByteOf(b: Block, at: nat): byte {
    if at < |b| then b[at] else 0
  }

  /** `rec_len_for`: header and name, rounded up to four bytes. */
  function RecLen(nameLen: nat): (n: nat)
    ensures n % 4 == 0 && 8 + nameLen <= n < 8 + nameLen + 4
  {
    (8 + nameLen + 3) / 4 * 4
  }

  function RecAt(b: Block, at: nat): Rec {
    var len, n := U16(b, at + 4), ByteOf(b, at + 6) as nat;
    Rec(U32(b, at), len, if 8 + n <= len && at + 8 + n <= |b| then b[at + 8..at + 8 + n] else [], ByteOf(b, at + 7))
  }

  function NameLenAt(b: Block, at: nat): nat {
    ByteOf(b, at + 6) as nat
  }

  /** The record at `at` has a header and stays inside the block. */
  predicate Fits(b: Block, at: nat) {
    at + 8 <= |b| && U16(b, at + 4) >= 8 && at + U16(b, at + 4) <= |b|
  }

  /** The records met from `at` on, until the block ends or a record does not fit. */
  function Parse(b: Block, at: nat): seq<Rec>
    decreases |b| - at
  {
    if Fits(b, at) then [RecAt(b, at)] + Parse(b, at + U16(b, at + 4)) else []
  }

  /** A used record has room for its name. */
  predicate Roomy(b: Block, at: nat) {
    U32(b, at) != 0 ==> RecLen(NameLenAt(b, at)) <= U16(b, at + 4)
  }

  /** From `at` on, roomy records cover the block exactly. */
  predicate Tiled(b: Block, at: nat)
    decreases |b| - at
  {
    at == |b| || (Fits(b, at) && Roomy(b, at) && Tiled(b, at + U16(b, at + 4)))
  }

  /** What a record contributes to the directory. */
  function Entry(r: Rec): seq<Dirent> {
    if r.ino != 0 && r.name != [] then [Dirent(r.name, r.ino, r.kind)] else []
  }

  function Listed(recs: seq<Rec>): seq<Dirent> {
    if |recs| == 0 then [] else Entry(recs[0]) + Listed(recs[1..])
  }

  /** What a directory block lists. */
  function Listing(b: Block, at: nat): seq<Dirent> {
    Listed(Parse(b, at))
  }

  lemma ListingStep(b: Block, at: nat)
    ensures Listing(b, at) == if Fits(b, at) then Entry(RecAt(b, at)) + Listing(b, at + U16(b, at + 4)) else []
  {
    if Fits(b, at) { assert Parse(b, at)[1..] == Parse(b, at + U16(b, at + 4)); }
  }

  // ---------------------------------------------------------------- locality

  predicate Same(b: Block, c: Block, from: nat, to: nat) {
    |b| == |c| && forall i :: from <= i < to && i < |b| ==> b[i] == c[i]
  }

  lemma SameRec(b: Block, c: Block, at: nat)
    requires Fits(b, at) && Same(b, c, at, at + U16(b, at + 4))
    ensures Fits(c, at) && RecAt(c, at) == RecAt(b, at) && U16(c, at + 4) == U16(b, at + 4)
    ensures NameLenAt(c, at) == NameLenAt(b, at) && U32(c, at) == U32(b, at)
  {
  }

  lemma {:induction false} SameTail(b: Block, c: Block, at: nat)
    requires Tiled(b, at) && Same(b, c, at, |b|)
    ensures Tiled(c, at) && Listing(c, at) == Listing(b, at)
    decreases |b| - at
  {
    hide Listing, RecAt, U16, U32;
    ListingStep(b, at);
    ListingStep(c, at);
    if at == |b| {
    } else {
      SameRec(b, c, at);
      SameTail(b, c, at + U16(b, at + 4));
    }
  }

  /** Walking over roomy records from `from` arrives at `to`. */
  predicate Walks(b: Block, from: nat, to: nat)
    decreases |b| - from
  {
    from == to || (Fits(b, from) && Roomy(b, from) && from + U16(b, from + 4) <= to &&
        Walks(b, from + U16(b, from + 4), to))
  }

  /** What is listed between `from` and `to`. */
  function Seen(b: Block, from: nat, to: nat): seq<Dirent>
    decreases |b| - from
  {
    if from >= to || !Fits(b, from) then [] else Entry(RecAt(b, from)) + Seen(b, from + U16(b, from + 4), to)
  }

  lemma {:induction false} WalkSplits(b: Block, from: nat, to: nat)
    requires Walks(b, from, to)
    ensures Listing(b, from) == Seen(b, from, to) + Listing(b, to)
    ensures Tiled(b, to) ==> Tiled(b, from)
    ensures from <= to
    decreases |b| - from
  {
    hide Listing, RecAt, U16, U32;
    if from == to {
    } else {
      ListingStep(b, from);
      WalkSplits(b, from + U16(b, from + 4), to);
    }
  }

  lemma {:induction false} WalkOn(b: Block, from: nat, at: nat)
    requires Walks(b, from, at) && Fits(b, at) && Roomy(b, at)
    ensures Walks(b, from, at + U16(b, at + 4))
    ensures Seen(b, from, at + U16(b, at + 4)) == Seen(b, from, at) + Entry(RecAt(b, at))
    decreases |b| - from
  {
    hide RecAt, U16, U32;
    if from == at {
      assert Seen(b, at + U16(b, at + 4), at + U16(b, at + 4)) == [];
    } else {
      WalkSplits(b, from + U16(b, from + 4), at);
      WalkOn(b, from + U16(b, from + 4), at);
    }
  }

  lemma {:induction false} SameWalk(b: Block, c: Block, from: nat, to: nat)
    requires Walks(b, from, to) && Same(b, c, from, to)
    ensures Walks(c, from, to) && Seen(c, from, to) == Seen(b, from, to)
    decreases |b| - from
  {
    hide RecAt, U16, U32;
    if from == to {
    } else {
      WalkSplits(b, from + U16(b, from + 4), to);
      SameRec(b, c, from);
      SameWalk(b, c, from + U16(b, from + 4), to);
    }
  }

  /** Rewriting one stretch of a tiled block, from `at` to `end`, with records that tile it again
      changes what is listed there and nothing else. */
  lemma Replaced(b: Block, c: Block, at: nat, end: nat)
    requires Walks(b, 0, at) && Tiled(b, end) && at <= end
    requires Same(b, c, 0, at) && Same(b, c, end, |b|) && Walks(c, at, end)
    ensures Tiled(c, 0) && Listing(c, 0) == Seen(b, 0, at) + Seen(c, at, end) + Listing(b, end)
  {
    hide Listing, Fits, Roomy, RecAt;
    SameWalk(b, c, 0, at);
    SameTail(b, c, end);
    WalkSplits(c, at, end);
    WalkSplits(c, 0, at);
  }

  // ---------------------------------------------------------------- editing records

  /** `write_dir_record` */
  function PutRec(b: Block, at: nat, ino: nat, len: nat, kind: byte, name: Name): (r: Block)
    requires ino < 0x1_0000_0000 && len < 0x1_0000 && |name| < 0x100 && at + 8 + |name| <= |b|
    ensures |r| == |b|
  {
    var h := PutU16(PutU32(b, at, ino), at + 4, len);
    h[..at + 6] + [|name| as byte, kind] + name + h[at + 8 + |name|..]
  }

  lemma PutRecIs(b: Block, at: nat, ino: nat, len: nat, kind: byte, name: Name)
    requires ino < 0x1_0000_0000 && len < 0x1_0000 && |name| < 0x100 && 8 + |name| <= len && at + len <= |b|
    ensures var c := PutRec(b, at, ino, len, kind, name);
            && RecAt(c, at) == Rec(ino, len, name, kind) && U16(c, at + 4) == len && NameLenAt(c, at) == |name| &&
                U32(c, at) == ino
            && Fits(c, at) && Same(b, c, 0, at) && Same(b, c, at + 8 + |name|, |b|)
  {
    var h := PutU16(PutU32(b, at, ino), at + 4, len);
    var c := PutRec(b, at, ino, len, kind, name);
    assert forall i :: 0 <= i < at + 6 ==> c[i] == h[i];
    assert U32(c, at) == U32(h, at) == ino;
    assert c[at + 8..at + 8 + |name|] == name;
    hide PutU16, PutU32;
  }

  /** A change of the length field alone. */
  lemma PutLenIs(b: Block, at: nat, len: nat)
    requires Fits(b, at) && len < 0x1_0000 && len >= 8 && at + len <= |b| && 8 + NameLenAt(b, at) <= len &&
             8 + NameLenAt(b, at) <= U16(b, at + 4)
    ensures var c := PutU16(b, at + 4, len);
            && RecAt(c, at) == RecAt(b, at).(len := len) && U16(c, at + 4) == len &&
                NameLenAt(c, at) == NameLenAt(b, at) && U32(c, at) == U32(b, at)
            && Fits(c, at) && Same(b, c, 0, at) && Same(b, c, at + 6, |b|)
  {
    var c := PutU16(b, at + 4, len);
    var n := NameLenAt(b, at);
    assert c[at + 8..at + 8 + n] == b[at + 8..at + 8 + n];
    hide PutU16;
  }

  /** Lengthening a record keeps what it contributes. */
  lemma PutLenKeeps(b: Block, at: nat, len: nat)
    requires Fits(b, at) && Roomy(b, at) && U16(b, at + 4) <= len < 0x1_0000 && at + len <= |b|
    ensures var c := PutU16(b, at + 4, len);
            && Entry(RecAt(c, at)) == Entry(RecAt(b, at)) && U16(c, at + 4) == len
            && Fits(c, at) && Roomy(c, at) && Same(b, c, 0, at) && Same(b, c, at + 6, |b|)
  {
    hide RecLen, PutU16;
    if U32(b, at) != 0 { PutLenIs(b, at, len); }
  }

  // ---------------------------------------------------------------- what the edits mean

  predicate InsertedAt(before: seq<Dirent>, after: seq<Dirent>, e: Dirent, k: nat) {
    k <= |before| && after == before[..k] + [e] + before[k..]
  }

  /** `after` is `before` with `e` put in somewhere. */
  ghost predicate Inserted(before: seq<Dirent>, after: seq<Dirent>, e: Dirent) {
    exists k :: InsertedAt(before, after, e, k)
  }

  lemma InsertedBetween(l: seq<Dirent>, r: seq<Dirent>, e: Dirent)
    ensures Inserted(l + r, l + [e] + r, e)
  {
    assert (l + r)[..|l|] == l && (l + r)[|l|..] == r;
    assert InsertedAt(l + r, l + [e] + r, e, |l|);
  }

  ghost predicate UniqueNames(l: seq<Dirent>) {
    forall i, j :: 0 <= i < j < |l| ==> l[i].name != l[j].name
  }

  /** Where position `i` of the shorter list is in the longer one. */
  function Past(k: nat, i: nat): nat {
    if i < k then i else i + 1
  }

  function Back(k: nat, j: nat): nat
    requires j != k
  {
    if j < k then j else j - 1
  }

  lemma Positions(before: seq<Dirent>, after: seq<Dirent>, e: Dirent, k: nat)
    requires InsertedAt(before, after, e, k)
    ensures |after| == |before| + 1 && k < |after| && after[k] == e
  {
  }

  lemma Forward(before: seq<Dirent>, after: seq<Dirent>, e: Dirent, k: nat, i: nat)
    requires InsertedAt(before, after, e, k) && i < |before|
    ensures Past(k, i) < |after| && after[Past(k, i)] == before[i]
  {
  }

  lemma Backward(before: seq<Dirent>, after: seq<Dirent>, e: Dirent, k: nat, j: nat)
    requires InsertedAt(before, after, e, k) && j < |after| && j != k
    ensures Back(k, j) < |before| && after[j] == before[Back(k, j)]
  {
  }

  /** Putting an entry in adds it to what is listed. */
  lemma InsertedMembers(before: seq<Dirent>, after: seq<Dirent>, e: Dirent)
    requires Inserted(before, after, e)
    ensures forall d :: d in after <==> d in before || d == e
  {
    hide InsertedAt, Past, Back;
    var k: nat :| InsertedAt(before, after, e, k);
    Positions(before, after, e, k);
    forall d
      ensures d in after <==> d in before || d == e
    {
      if d in before {
        var i: nat :| i < |before| && before[i] == d;
        Forward(before, after, e, k, i);
      }
      if d in after && d != e {
        var j: nat :| j < |after| && after[j] == d;
        Backward(before, after, e, k, j);
      }
    }
  }

  /** Names were unique before, if they are now; then taking the entry out again takes out that entry
      and no other. */
  lemma InsertedNames(before: seq<Dirent>, after: seq<Dirent>, e: Dirent)
    requires Inserted(before, after, e) && UniqueNames(after)
    ensures UniqueNames(before) && (forall d :: d in before ==> d.name != e.name)
    ensures forall d :: d in before <==> d in after && d != e
  {
    hide InsertedAt, UniqueNames;
    var k: nat :| InsertedAt(before, after, e, k);
    Positions(before, after, e, k);
    InsertedMembers(before, after, e);
    forall d | d in before
      ensures d.name != e.name
    {
      var i: nat :| i < |before| && before[i] == d;
      Forward(before, after, e, k, i);
      NamesDiffer(after, Past(k, i), k);
    }
    forall i: nat, j: nat | i < j < |before|
      ensures before[i].name != before[j].name
    {
      Forward(before, after, e, k, i);
      Forward(before, after, e, k, j);
      NamesDiffer(after, Past(k, i), Past(k, j));
    }
    AllDiffer(before);
  }

  /** Adding a fresh name keeps names unique. */
  lemma FreshNames(before: seq<Dirent>, after: seq<Dirent>, e: Dirent)
    requires Inserted(before, after, e) && UniqueNames(before) && forall d :: d in before ==> d.name != e.name
    ensures UniqueNames(after)
  {
    hide InsertedAt, UniqueNames;
    var k: nat :| InsertedAt(before, after, e, k);
    Positions(before, after, e, k);
    forall i: nat, j: nat | i < j < |after|
      ensures after[i].name != after[j].name
    {
      if i != k { Backward(before, after, e, k, i); }
      if j != k { Backward(before, after, e, k, j); }
      if i != k && j != k { NamesDiffer(before, Back(k, i), Back(k, j)); }
    }
    AllDiffer(after);
  }

  lemma NamesDiffer(l: seq<Dirent>, i: nat, j: nat)
    requires UniqueNames(l) && i < |l| && j < |l| && i != j
    ensures l[i].name != l[j].name
  {
  }

  lemma AllDiffer(l: seq<Dirent>)
    requires forall i: nat, j: nat :: i < j < |l| ==> l[i].name != l[j].name
    ensures UniqueNames(l)
  {
  }

  /** An unused record is taken over whole. */
  lemma Reused(b: Block, at: nat, ino: nat, kind: byte, name: Name)
    requires Walks(b, 0, at) && Tiled(b, at) && Fits(b, at) && U32(b, at) == 0
    requires 0 < ino < 0x1_0000_0000 && 0 < |name| < 0x100 && RecLen(|name|) <= U16(b, at + 4)
    ensures var c := PutRec(b, at, ino, U16(b, at + 4), kind, name);
            Tiled(c, 0) && Inserted(Listing(b, 0), Listing(c, 0), Dirent(name, ino, kind))
  {
    hide Listing, PutRec, RecAt, U16, U32, Seen;
    var len := U16(b, at + 4);
    var e := Dirent(name, ino, kind);
    var c := PutRec(b, at, ino, len, kind, name);
    PutRecIs(b, at, ino, len, kind, name);
    OneWalk(c, at);
    Replaced(b, c, at, at + len);
    WalkSplits(b, 0, at);
    ListingStep(b, at);
    DeadListsNothing(b, at);
    InsertedBetween(Seen(b, 0, at), Listing(b, at + len), e);
    assert Seen(b, 0, at) + ([] + Listing(b, at + len)) == Seen(b, 0, at) + Listing(b, at + len);
  }

  lemma OneWalk(b: Block, at: nat)
    requires Fits(b, at) && Roomy(b, at)
    ensures Walks(b, at, at + U16(b, at + 4)) && Seen(b, at, at + U16(b, at + 4)) == Entry(RecAt(b, at))
  {
    assert Seen(b, at + U16(b, at + 4), at + U16(b, at + 4)) == [];
  }

  lemma DeadListsNothing(b: Block, at: nat)
    requires U32(b, at) == 0
    ensures Entry(RecAt(b, at)) == []
  {
  }

  /** A used record with slack is cut, and the new one takes the slack. */
  function Halved(b: Block, at: nat, used: nat, ino: nat, kind: byte, name: Name): Block
    requires ino < 0x1_0000_0000 && |name| < 0x100 && used < 0x1_0000 && at + used + 8 + |name| <= |b|
    requires used <= U16(b, at + 4)
  {
    PutRec(PutU16(b, at + 4, used), at + used, ino, U16(b, at + 4) - used, kind, name)
  }

  lemma HalvedRecs(b: Block, at: nat, ino: nat, kind: byte, name: Name)
    requires Fits(b, at) && Roomy(b, at) && U32(b, at) != 0
    requires 0 < ino < 0x1_0000_0000 && 0 < |name| < 0x100 &&
             RecLen(NameLenAt(b, at)) + RecLen(|name|) <= U16(b, at + 4)
    ensures var used, len := RecLen(NameLenAt(b, at)), U16(b, at + 4);
            var c := Halved(b, at, used, ino, kind, name);
            && Walks(c, at, at + len) && Seen(c, at, at + len) == Entry(RecAt(b, at)) + [Dirent(name, ino, kind)]
            && Same(b, c, 0, at) && Same(b, c, at + len, |b|)
  {
    hide PutRec, PutU16, RecLen, U16, U32, Seen, Walks, RecAt;
    var used, len := RecLen(NameLenAt(b, at)), U16(b, at + 4);
    var m := PutU16(b, at + 4, used);
    PutLenIs(b, at, used);
    var c := PutRec(m, at + used, ino, len - used, kind, name);
    PutRecIs(m, at + used, ino, len - used, kind, name);
    SameRec(m, c, at);
    OneWalk(c, at);
    WalkOn(c, at, at + used);
    assert Entry(RecAt(c, at)) == Entry(RecAt(b, at));
  }

  lemma Split(b: Block, at: nat, ino: nat, kind: byte, name: Name)
    requires Walks(b, 0, at) && Tiled(b, at) && Fits(b, at) && Roomy(b, at) && U32(b, at) != 0
    requires 0 < ino < 0x1_0000_0000 && 0 < |name| < 0x100 &&
             RecLen(NameLenAt(b, at)) + RecLen(|name|) <= U16(b, at + 4)
    ensures var c := Halved(b, at, RecLen(NameLenAt(b, at)), ino, kind, name);
            Tiled(c, 0) && Inserted(Listing(b, 0), Listing(c, 0), Dirent(name, ino, kind))
  {
    hide Listing, RecAt, U16, U32, Seen, RecLen, Halved, Walks, Roomy;
    var len := U16(b, at + 4);
    var e := Dirent(name, ino, kind);
    var c := Halved(b, at, RecLen(NameLenAt(b, at)), ino, kind, name);
    HalvedRecs(b, at, ino, kind, name);
    TiledNext(b, at);
    Replaced(b, c, at, at + len);
    WalkSplits(b, 0, at);
    ListingStep(b, at);
    var l := Seen(b, 0, at) + Entry(RecAt(b, at));
    InsertedBetween(l, Listing(b, at + len), e);
    assert Seen(b, 0, at) + (Entry(RecAt(b, at)) + [e]) == l + [e];
    assert Seen(b, 0, at) + (Entry(RecAt(b, at)) + Listing(b, at + len)) == l + Listing(b, at + len);
  }

  lemma TiledNext(b: Block, at: nat)
    requires Tiled(b, at) && Fits(b, at)
    ensures Tiled(b, at + U16(b, at + 4)) && Roomy(b, at)
  {
  }

  /** A record is dropped by lengthening the one before it. */
  lemma Merged(b: Block, prev: nat, at: nat, e: Dirent)
    requires Walks(b, 0, prev) && Tiled(b, prev) && Fits(b, prev) && at == prev + U16(b, prev + 4)
    requires Fits(b, at) && Entry(RecAt(b, at)) == [e] && |b| < 0x1_0000
    ensures var c := PutU16(b, prev + 4, U16(b, prev + 4) + U16(b, at + 4));
            Tiled(c, 0) && Inserted(Listing(c, 0), Listing(b, 0), e)
  {
    hide Listing, RecAt, U16, U32, Seen, RecLen, PutU16;
    var plen, len := U16(b, prev + 4), U16(b, at + 4);
    var c := PutU16(b, prev + 4, plen + len);
    TiledNext(b, prev);
    TiledNext(b, at);
    PutLenKeeps(b, prev, plen + len);
    OneWalk(c, prev);
    Replaced(b, c, prev, at + len);
    WalkSplits(b, 0, prev);
    ListingStep(b, prev);
    ListingStep(b, at);
    var l := Seen(b, 0, prev) + Entry(RecAt(b, prev));
    InsertedBetween(l, Listing(b, at + len), e);
    assert Seen(b, 0, prev) + (Entry(RecAt(b, prev)) + ([e] + Listing(b, at + len))) == l + [e] + Listing(b, at + len);
  }

  /** The first record of a block is dropped by clearing its inode number. */
  lemma Cleared(b: Block, e: Dirent)
    requires Tiled(b, 0) && Fits(b, 0) && Entry(RecAt(b, 0)) == [e]
    ensures var c := PutU32(b, 0, 0);
            Tiled(c, 0) && Inserted(Listing(c, 0), Listing(b, 0), e)
  {
    hide Listing, RecAt, U32, U16, Seen, RecLen, PutU32, Fits, Same;
    var len := U16(b, 4);
    var c := PutU32(b, 0, 0);
    TiledNext(b, 0);
    ClearedHead(b);
    DeadListsNothing(c, 0);
    ListingStep(b, 0);
    ListingStep(c, 0);
    SameTail(b, c, len);
    InsertedBetween([], Listing(b, len), e);
    assert [] + [e] + Listing(b, len) == [e] + Listing(b, len);
    assert [] + Listing(b, len) == Listing(b, len);
  }

  lemma ClearedHead(b: Block)
    requires Fits(b, 0)
    ensures var c := PutU32(b, 0, 0);
            U16(c, 4) == U16(b, 4) && U32(c, 0) == 0 && Fits(c, 0) && Roomy(c, 0) && Same(b, c, U16(b, 4), |b|)
  {
    hide PutU32, RecLen;
  }

  // ---------------------------------------------------------------- loops over a block

  /** The bytes a record really needs. */
  function Needs(b: Block, at: nat): nat {
    if U32(b, at) == 0 then 0 else RecLen(NameLenAt(b, at))
  }

  /** No record from `at` on has `need` bytes to spare. */
  predicate NoRoom(b: Block, at: nat, need: nat)
    decreases |b| - at
  {
    Fits(b, at) ==> U16(b, at + 4) < Needs(b, at) + need && NoRoom(b, at + U16(b, at + 4), need)
  }

  lemma NoRoomStep(b: Block, at: nat, need: nat)
    requires Fits(b, at) && U16(b, at + 4) < Needs(b, at) + need
    ensures NoRoom(b, at, need) <==> NoRoom(b, at + U16(b, at + 4), need)
  {
  }

  /** The record at `at` has `need` bytes to spare. */
  predicate HasRoom(b: Block, at: nat, need: nat) {
    Fits(b, at) && U16(b, at + 4) >= Needs(b, at) + need
  }

  /** The first record from `at` on with `need` bytes to spare, or the end of the block. */
  function FirstRoom(b: Block, at: nat, need: nat): nat
    decreases |b| - at
  {
    if !Fits(b, at) then |b| else if HasRoom(b, at, need) then at else FirstRoom(b, at + U16(b, at + 4), need)
  }

  /** There is no room exactly if there is no such record. */
  lemma {:induction false} FirstRoomIs(b: Block, at: nat, need: nat)
    ensures NoRoom(b, at, need) <==> !HasRoom(b, FirstRoom(b, at, need), need)
    decreases |b| - at
  {
    hide U16, U32, RecLen, NameLenAt;
    if !Fits(b, at) || HasRoom(b, at, need) {
    } else {
      FirstRoomIs(b, at + U16(b, at + 4), need);
    }
  }

  /** The block with the entry in the record at `at`: all of it if it was unused, else its slack. */
  function Taken(b: Block, at: nat, ino: nat, kind: byte, name: Name): (c: Block)
    requires ino < 0x1_0000_0000 && |name| < 0x100 && HasRoom(b, at, RecLen(|name|))
  {
    if U32(b, at) == 0 then PutRec(b, at, ino, U16(b, at + 4), kind, name)
    else Halved(b, at, RecLen(NameLenAt(b, at)), ino, kind, name)
  }

  /** The entry went into the first record with room. */
  ghost predicate TookFirst(b: Block, c: Block, ino: nat, kind: byte, name: Name)
    requires ino < 0x1_0000_0000 && |name| < 0x100
  {
    var at := FirstRoom(b, 0, RecLen(|name|));
    HasRoom(b, at, RecLen(|name|)) && c == Taken(b, at, ino, kind, name)
  }

  /** The record loop of `add_dirent` in one block: the first record with room takes the entry. */
  method AddInBlock(b: Block, name: Name, ino: nat, kind: byte) returns (ok: bool, c: Block)
    requires Tiled(b, 0) && 0 < |name| < 0x100 && 0 < ino < 0x1_0000_0000 && |b| < 0x1_0000
    ensures |c| == |b|
    ensures ok ==> Tiled(c, 0) && Inserted(Listing(b, 0), Listing(c, 0), Dirent(name, ino, kind))
    ensures ok <==> !NoRoom(b, 0, RecLen(|name|))
    ensures if ok then TookFirst(b, c, ino, kind, name) else c == b
  {
    hide Listing, RecAt, U16, U32, PutRec, RecLen, Inserted, Walks, Tiled, Roomy, NoRoom, PutU16;
    FirstRoomIs(b, 0, RecLen(|name|));
    var need := RecLen(|name|);
    var off := 0;
    TiledEnds(b, 0);
    while off + 8 <= |b|
      invariant Walks(b, 0, off) && Tiled(b, off) && off <= |b|
      invariant off + 8 <= |b| ==> Fits(b, off)
      invariant FirstRoom(b, 0, need) == FirstRoom(b, off, need) && (NoRoom(b, off, need) ==> NoRoom(b, 0, need))
      decreases |b| - off
    {
      var len := U16(b, off + 4);
      TiledNext(b, off);
      if len >= Needs(b, off) + need {
        if U32(b, off) == 0 {
          Reused(b, off, ino, kind, name);
          return true, PutRec(b, off, ino, len, kind, name);
        }
        Split(b, off, ino, kind, name);
        return true, Halved(b, off, RecLen(NameLenAt(b, off)), ino, kind, name);
      }
      WalkOn(b, 0, off);
      NoRoomStep(b, off, need);
      TiledEnds(b, off + len);
      off := off + len;
    }
    EndHasNoRoom(b, off, need);
    return false, b;
  }

  lemma TiledEnds(b: Block, at: nat)
    requires Tiled(b, at)
    ensures at <= |b| && (at == |b| || Fits(b, at)) && (at == 0 ==> Walks(b, 0, 0))
  {
  }

  lemma EndHasNoRoom(b: Block, at: nat, need: nat)
    requires at + 8 > |b|
    ensures NoRoom(b, at, need)
  {
  }

  /** The record loop of `remove_dirent` in one block. */
  method RemoveInBlock(b: Block, name: Name) returns (found: bool, c: Block, ino: nat, ghost kind: byte)
    requires Tiled(b, 0) && 0 < |name| < 0x100 && |b| < 0x1_0000
    ensures |c| == |b|
    ensures found ==> ino != 0 && Tiled(c, 0) && Inserted(Listing(c, 0), Listing(b, 0), Dirent(name, ino, kind))
    ensures !found ==> c == b && forall e :: e in Listing(b, 0) ==> e.name != name
  {
    hide Listing, RecAt, U16, U32, RecLen, Inserted, Walks, Tiled, Roomy, PutU16, PutU32, Seen, Entry;
    var off, prev := 0, -1;
    kind := 0;
    TiledEnds(b, 0);
    NothingSeen(b);
    while off + 8 <= |b|
      invariant Walks(b, 0, off) && Tiled(b, off) && off <= |b|
      invariant off + 8 <= |b| ==> Fits(b, off)
      invariant if prev < 0 then off == 0
                else Walks(b, 0, prev) && Tiled(b, prev) && Fits(b, prev) && off == prev + U16(b, prev + 4)
      invariant forall e :: e in Seen(b, 0, off) ==> e.name != name
      decreases |b| - off
    {
      var len := U16(b, off + 4);
      TiledNext(b, off);
      RecName(b, off);
      EntryOf(b, off);
      ino := U32(b, off);
      if ino != 0 && NameLenAt(b, off) == |name| && b[off + 8..off + 8 + |name|] == name {
        kind := ByteOf(b, off + 7);
        if prev >= 0 {
          Merged(b, prev, off, Dirent(name, ino, kind));
          return true, PutU16(b, prev + 4, U16(b, prev + 4) + len), ino, kind;
        }
        Cleared(b, Dirent(name, ino, kind));
        return true, PutU32(b, 0, 0), ino, kind;
      }
      WalkOn(b, 0, off);
      TiledEnds(b, off + len);
      prev := off;
      off := off + len;
    }
    ListedSeen(b, off);
    return false, b, 0, kind;
  }

  lemma NothingSeen(b: Block)
    ensures Seen(b, 0, 0) == []
  {
  }

  /** In a roomy record the name is where its length says. */
  lemma RecName(b: Block, at: nat)
    requires Fits(b, at) && Roomy(b, at)
    ensures U32(b, at) != 0 ==>
              at + 8 + NameLenAt(b, at) <= |b| && RecAt(b, at).name == b[at + 8..at + 8 + NameLenAt(b, at)]
  {
  }

  lemma EntryOf(b: Block, at: nat)
    ensures var r := RecAt(b, at);
            Entry(r) == if U32(b, at) != 0 && r.name != [] then [Dirent(r.name, U32(b, at), ByteOf(b, at + 7))] else []
  {
  }

  lemma ListedSeen(b: Block, at: nat)
    requires Walks(b, 0, at) && Tiled(b, at) && at + 8 > |b|
    ensures Listing(b, 0) == Seen(b, 0, at)
  {
    WalkSplits(b, 0, at);
    ListingStep(b, at);
  }
}
