/** The write-back block cache of ext2 (kernel/src/ext2.c) with the path that bypasses it: together
    they behave as a plain disk. */
module BlockCache {
  import opened Bytes

  const ENTRIES: nat := 32

  type Block = seq<byte>

  datatype Key = Key(fs: nat, block: nat)
  datatype Entry = Entry(valid: bool, dirty: bool, key: Key, age: nat, data: Block)
  type Disk = map<Key, Block>

  predicate Holds(e: Entry, k: Key) {
    e.valid && e.key == k
  }

  predicate Uncached(entries: seq<Entry>, k: Key) {
    forall i :: 0 <= i < |entries| ==> !Holds(entries[i], k)
  }

  /** Block `k` of the device is out of date, and slot `i` has what belongs there. */
  predicate Pending(entries: seq<Entry>, k: Key, i: nat) {
    i < |entries| && Holds(entries[i], k) && entries[i].dirty
  }

  /** The cache over the device stands for the disk `view`: at most one entry per block, clean
      entries equal the device, every entry equals the view, and wherever view and device differ
      a dirty entry remembers it. */
  ghost predicate Represents(entries: seq<Entry>, device: Disk, view: Disk) {
    && view.Keys == device.Keys
    && (forall i :: 0 <= i < |entries| && entries[i].valid ==>
          && entries[i].key in view && entries[i].data == view[entries[i].key]
          && (!entries[i].dirty ==> entries[i].data == device[entries[i].key]))
    && (forall i, j :: 0 <= i < j < |entries| && entries[i].valid && entries[j].valid ==>
        entries[i].key != entries[j].key)
    && (forall k :: k in view && view[k] != device[k] ==> exists i: nat :: Pending(entries, k, i))
  }

  /** A slot whose loss loses nothing. */
  predicate Evictable(e: Entry) {
    !e.valid || !e.dirty
  }

  // ---------------------------------------------------------------- steps

  /** Writing a dirty block back does not change the disk that is represented. */
  lemma WriteBackKeepsView(entries: seq<Entry>, device: Disk, view: Disk, i: nat)
    requires Represents(entries, device, view) && i < |entries| && entries[i].valid
    ensures Represents(entries[i := entries[i].(dirty := false)], device[entries[i].key := entries[i].data], view)
  {
    var e := entries[i := entries[i].(dirty := false)];
    var d := device[entries[i].key := entries[i].data];
    forall k | k in view && view[k] != d[k]
      ensures exists j: nat :: Pending(e, k, j)
    {
      var j: nat :| Pending(entries, k, j);
      assert Pending(e, k, j);
    }
  }

  /** Bringing a block in, over a slot whose loss loses nothing, changes nothing. */
  lemma FillKeepsView(entries: seq<Entry>, device: Disk, view: Disk, i: nat, k: Key, age: nat)
    requires Represents(entries, device, view) && i < |entries| && Evictable(entries[i])
    requires Uncached(entries, k) && k in device
    ensures device[k] == view[k]
    ensures Represents(entries[i := Entry(true, false, k, age, device[k])], device, view)
  {
    var e := entries[i := Entry(true, false, k, age, device[k])];
    assert forall j: nat :: !Pending(entries, k, j);
    forall l | l in view && view[l] != device[l]
      ensures exists j: nat :: Pending(e, l, j)
    {
      var j: nat :| Pending(entries, l, j);
      assert Pending(e, l, j);
    }
  }

  /** A cached write is a write to the disk that is represented. */
  lemma StoreWritesView(entries: seq<Entry>, device: Disk, view: Disk, i: nat, k: Key, age: nat, data: Block)
    requires Represents(entries, device, view) && i < |entries| && k in device
    requires Holds(entries[i], k) || (Evictable(entries[i]) && Uncached(entries, k))
    ensures Represents(entries[i := Entry(true, true, k, age, data)], device, view[k := data])
  {
    var e := entries[i := Entry(true, true, k, age, data)];
    var w := view[k := data];
    forall l | l in w && w[l] != device[l]
      ensures exists j: nat :: Pending(e, l, j)
    {
      if l == k {
        assert Pending(e, l, i);
      } else {
        var j: nat :| Pending(entries, l, j);
        assert Pending(e, l, j);
      }
    }
  }

  /** A write past the cache that also refreshes the cached copy, if there is one. */
  lemma DirectWritesView(entries: seq<Entry>, device: Disk, view: Disk, i: int, k: Key, age: nat, data: Block)
    requires Represents(entries, device, view) && k in device
    requires if i < 0 then Uncached(entries, k) else i < |entries| && Holds(entries[i], k)
    ensures var after := if i < 0 then entries else entries[i := Entry(true, false, k, age, data)];
            Represents(after, device[k := data], view[k := data])
  {
    var e := if i < 0 then entries else entries[i := Entry(true, false, k, age, data)];
    var d, w := device[k := data], view[k := data];
    forall l | l in w && w[l] != d[l]
      ensures exists j: nat :: Pending(e, l, j)
    {
      var j: nat :| Pending(entries, l, j);
      assert Pending(e, l, j);
    }
  }

  lemma TouchKeepsView(entries: seq<Entry>, device: Disk, view: Disk, i: nat, age: nat)
    requires Represents(entries, device, view) && i < |entries|
    ensures Represents(entries[i := entries[i].(age := age)], device, view)
  {
    var e := entries[i := entries[i].(age := age)];
    forall l | l in view && view[l] != device[l]
      ensures exists j: nat :: Pending(e, l, j)
    {
      var j: nat :| Pending(entries, l, j);
      assert Pending(e, l, j);
    }
  }

  /** Losing a clean slot changes nothing. */
  lemma DropKeepsView(entries: seq<Entry>, device: Disk, view: Disk, i: nat)
    requires Represents(entries, device, view) && i < |entries| && Evictable(entries[i])
    ensures Represents(entries[i := entries[i].(valid := false, dirty := false)], device, view)
  {
    var e := entries[i := entries[i].(valid := false, dirty := false)];
    forall l | l in view && view[l] != device[l]
      ensures exists j: nat :: Pending(e, l, j)
    {
      var j: nat :| Pending(entries, l, j);
      assert Pending(e, l, j);
    }
  }

  /** With no dirty block of it left, a file system's device is the disk represented. */
  lemma CleanIsDevice(entries: seq<Entry>, device: Disk, view: Disk, k: Key)
    requires Represents(entries, device, view) && k in view
    requires forall i :: 0 <= i < |entries| ==> !(Holds(entries[i], k) && entries[i].dirty)
    ensures device[k] == view[k]
  {
    assert forall i: nat :: !Pending(entries, k, i);
  }

  // ---------------------------------------------------------------- runs of blocks

  predicate InDevice(device: Disk, fs: nat, first: nat, n: nat) {
    forall b: nat :: first <= b < first + n ==> Key(fs, b) in device
  }

  /** The disk after the first `n` blocks of a run have been written. */
  function Put(m: Disk, fs: nat, first: nat, blocks: seq<Block>, n: nat): Disk
    requires n <= |blocks|
  {
    if n == 0 then m else Put(m, fs, first, blocks, n - 1)[Key(fs, first + n - 1) := blocks[n - 1]]
  }

  /** `n` consecutive blocks of a disk. */
  function Take(m: Disk, fs: nat, first: nat, n: nat): (r: seq<Block>)
    requires InDevice(m, fs, first, n)
    ensures |r| == n && forall i :: 0 <= i < n ==> r[i] == m[Key(fs, first + i)]
  {
    seq(n, i requires 0 <= i < n => m[Key(fs, first + i)])
  }

  lemma PutNone(m: Disk, fs: nat, first: nat, blocks: seq<Block>)
    ensures Put(m, fs, first, blocks, 0) == m
  {
  }

  lemma PutNext(m: Disk, fs: nat, first: nat, blocks: seq<Block>, n: nat)
    requires n < |blocks|
    ensures Put(m, fs, first, blocks, n + 1) == Put(m, fs, first, blocks, n)[Key(fs, first + n) := blocks[n]]
  {
  }

  lemma {:induction false} PutAt(m: Disk, fs: nat, first: nat, blocks: seq<Block>, n: nat, k: Key)
    requires n <= |blocks| && InDevice(m, fs, first, |blocks|)
    ensures Put(m, fs, first, blocks, n).Keys == m.Keys
    ensures k in m ==> Put(m, fs, first, blocks, n)[k] ==
                         if k.fs == fs && first <= k.block < first + n then blocks[k.block - first] else m[k]
  {
    if n == 0 {
    } else {
      PutAt(m, fs, first, blocks, n - 1, k);
      assert Key(fs, first + n - 1) in m;
    }
  }

  lemma RunWritesView(entries: seq<Entry>, device: Disk, view: Disk, fs: nat, first: nat, blocks: seq<Block>, n: nat,
      at: int, age: nat)
    requires n < |blocks| && InDevice(device, fs, first, |blocks|)
    requires Represents(entries, Put(device, fs, first, blocks, n), Put(view, fs, first, blocks, n))
    requires if at < 0 then Uncached(entries, Key(fs, first + n))
             else at < |entries| && Holds(entries[at], Key(fs, first + n))
    ensures var k := Key(fs, first + n);
            var after := if at < 0 then entries else entries[at := Entry(true, false, k, age, blocks[n])];
            Represents(after, Put(device, fs, first, blocks, n + 1), Put(view, fs, first, blocks, n + 1))
  {
    hide Represents, Uncached, Holds;
    PutAt(device, fs, first, blocks, n, Key(fs, first + n));
    PutNext(device, fs, first, blocks, n);
    PutNext(view, fs, first, blocks, n);
    hide Put;
    DirectWritesView(entries, Put(device, fs, first, blocks, n), Put(view, fs, first, blocks, n), at,
        Key(fs, first + n), age, blocks[n]);
  }

  // ---------------------------------------------------------------- the cache

  class Cache {
    var entries: seq<Entry>
    var clock: nat
    var device: Disk
    /** No device call fails. */
    const reliable: bool
    ghost var view: Disk

    ghost predicate Valid()
      reads this
    {
      |entries| == ENTRIES && Represents(entries, device, view)
    }

    constructor (device: Disk, reliable: bool)
      ensures Valid() && this.device == device && view == device && this.reliable == reliable
    {
      entries := seq(ENTRIES, _ => Entry(false, false, Key(0, 0), 0, []));
      clock := 0;
      this.device := device;
      this.reliable := reliable;
      view := device;
    }

    /** A device call that succeeds or fails; a failing one changes nothing. */
    method DeviceCall() returns (ok: bool)
      ensures reliable ==> ok
    {
      ok := *;
      ok := ok || reliable;
    }

    /** `cache_find` */
    method Find(k: Key) returns (i: int)
      ensures i < 0 ==> Uncached(entries, k)
      ensures 0 <= i ==> i < |entries| && Holds(entries[i], k)
    {
      i := 0;
      while i < |entries|
        invariant 0 <= i <= |entries|
        invariant forall j :: 0 <= j < i ==> !Holds(entries[j], k)
      {
        if Holds(entries[i], k) { return; }
        i := i + 1;
      }
      i := -1;
    }

    /** `cache_flush_entry` */
    method FlushEntry(i: nat) returns (ok: bool)
      requires Valid() && i < |entries|
      modifies `entries, `device
      ensures Valid() && (ok ==> Evictable(entries[i])) && (reliable ==> ok)
      ensures |entries| == |old(entries)|
      ensures forall j :: 0 <= j < |entries| ==> entries[j] == old(entries)[j].(dirty := entries[j].dirty)
      ensures forall j :: 0 <= j < |entries| && j != i ==> entries[j] == old(entries)[j]
      ensures !ok ==> device == old(device)
      ensures forall k :: k in old(device) && k.fs != entries[i].key.fs ==> k in device && device[k] == old(device)[k]
    {
      hide Represents;
      if !entries[i].valid || !entries[i].dirty { return true; }
      ok := DeviceCall();
      if !ok { return; }
      WriteBackKeepsView(entries, device, view, i);
      device := device[entries[i].key := entries[i].data];
      entries := entries[i := entries[i].(dirty := false)];
    }

    /** `cache_victim`: a free slot, or the oldest one, written back first. */
    method Victim() returns (ok: bool, i: nat)
      requires Valid()
      modifies `entries, `device
      ensures Valid() && (reliable ==> ok)
      ensures ok ==> i < |entries| && Evictable(entries[i])
      ensures forall k :: Uncached(old(entries), k) ==> Uncached(entries, k)
      ensures ok && old(entries)[i].valid ==> forall j :: 0 <= j < |entries| ==>
              old(entries)[j].valid && old(entries)[i].age <= old(entries)[j].age
    {
      hide Represents;
      i := 0;
      var j := 0;
      while j < |entries|
        invariant j <= |entries| && i < |entries|
        invariant forall l :: 0 <= l < j ==> entries[l].valid && entries[i].age <= entries[l].age
      {
        if !entries[j].valid { return true, j; }
        if entries[j].age < entries[i].age { i := j; }
        j := j + 1;
      }
      ok := FlushEntry(i);
    }

    /** `read_block`: what the disk holds there, or a failure. */
    method ReadBlock(k: Key) returns (ok: bool, data: Block)
      requires Valid()
      modifies `entries, `device, `clock
      ensures Valid()
      ensures ok ==> k in view && data == view[k]
      ensures reliable && k in view ==> ok
    {
      ok, data := false, [];
      assert k in device <==> k in view;
      if k !in device { return; }
      var i := Find(k);
      if i < 0 {
        hide Represents;
        ok, i := Victim();
        assert device.Keys == view.Keys by { KeysAgree(entries, device, view); }
        if !ok { return; }
        ok := DeviceCall();
        if !ok { return; }
        FillKeepsView(entries, device, view, i, k, clock + 1);
        clock := clock + 1;
        entries := entries[i := Entry(true, false, k, clock, device[k])];
        data := device[k];
      } else {
        clock := clock + 1;
        data := entries[i].data;
        TouchKeepsView(entries, device, view, i, clock);
        hide Represents;
        entries := entries[i := entries[i].(age := clock)];
        ok := true;
      }
    }

    /** `write_block`: the disk afterwards holds the data there, or is as before. */
    method WriteBlock(k: Key, data: Block) returns (ok: bool)
      requires Valid()
      modifies `entries, `device, `clock, `view
      ensures Valid()
      ensures view == if ok then old(view)[k := data] else old(view)
      ensures ok ==> k in old(view)
      ensures reliable && k in old(view) ==> ok
    {
      KeysAgree(entries, device, view);
      hide Represents;
      if k !in device { return false; }
      var i := Find(k);
      if i < 0 {
        ok, i := Victim();
        KeysAgree(entries, device, view);
        if !ok { return; }
      }
      clock := clock + 1;
      StoreWritesView(entries, device, view, i, k, clock, data);
      entries := entries[i := Entry(true, true, k, clock, data)];
      view := view[k := data];
      ok := true;
    }

    /** `write_blocks_direct`: one device write for the run, then the cached copies are refreshed. */
    method WriteDirect(fs: nat, first: nat, blocks: seq<Block>) returns (ok: bool)
      requires Valid() && InDevice(view, fs, first, |blocks|)
      modifies `entries, `device, `clock, `view
      ensures Valid()
      ensures view == if ok then Put(old(view), fs, first, blocks, |blocks|) else old(view)
      ensures reliable ==> ok
    {
      KeysAgree(entries, device, view);
      PutNone(device, fs, first, blocks);
      PutNone(view, fs, first, blocks);
      assert InDevice(device, fs, first, |blocks|);
      hide Represents, Put, InDevice, Uncached, Holds;
      if |blocks| == 0 { return true; }
      ok := DeviceCall();
      if !ok { return; }
      ghost var was := device;
      device := Put(device, fs, first, blocks, |blocks|);
      var i := 0;
      while i < |blocks|
        invariant i <= |blocks|
        invariant |entries| == ENTRIES && view == old(view) && device == Put(was, fs, first, blocks, |blocks|)
        invariant Represents(entries, Put(was, fs, first, blocks, i), Put(view, fs, first, blocks, i))
      {
        ghost var before := entries;
        ghost var at := UpdateClean(Key(fs, first + i), blocks[i]);
        RunWritesView(before, was, view, fs, first, blocks, i, at, clock);
        i := i + 1;
      }
      view := Put(view, fs, first, blocks, |blocks|);
    }

    /** `cache_update_clean` */
    method UpdateClean(k: Key, data: Block) returns (ghost at: int)
      modifies `entries, `clock
      ensures if at < 0 then Uncached(old(entries), k) else at < |old(entries)| && Holds(old(entries)[at], k)
      ensures entries == if at < 0 then old(entries) else old(entries)[at := Entry(true, false, k, clock, data)]
    {
      var i := Find(k);
      at := i;
      if i < 0 { return; }
      clock := clock + 1;
      entries := entries[i := entries[i].(data := data, dirty := false, age := clock)];
    }

    /** `cache_range_has_dirty` */
    method RangeHasDirty(fs: nat, first: nat, n: nat) returns (dirty: bool)
      ensures dirty <==> DirtyIn(entries, fs, first, n)
    {
      var i := 0;
      while i < |entries|
        invariant i <= |entries|
        invariant forall j :: 0 <= j < i ==> !(InRange(entries[j], fs, first, n) && entries[j].dirty)
      {
        if InRange(entries[i], fs, first, n) && entries[i].dirty { return true; }
        i := i + 1;
      }
      return false;
    }

    /** The multi-block read of `ext2_read_file`: taken only when no block of the run is dirty,
        and then the device gives what the disk holds. */
    method ReadDirect(fs: nat, first: nat, n: nat) returns (ok: bool, blocks: seq<Block>)
      requires Valid() && InDevice(view, fs, first, n)
      ensures ok ==> blocks == Take(view, fs, first, n)
      ensures ok ==> !DirtyIn(entries, fs, first, n)
      ensures reliable && !DirtyIn(entries, fs, first, n) ==> ok
    {
      KeysAgree(entries, device, view);
      ok, blocks := false, [];
      var dirty := RangeHasDirty(fs, first, n);
      if dirty { return; }
      ok := DeviceCall();
      if !ok { return; }
      forall b: nat | first <= b < first + n
        ensures device[Key(fs, b)] == view[Key(fs, b)]
      {
        CleanIsDevice(entries, device, view, Key(fs, b));
      }
      blocks := Take(device, fs, first, n);
    }

    /** `ext2_flush`: on success this file system's device holds what the disk stands for. */
    method Flush(fs: nat) returns (ok: bool)
      requires Valid()
      modifies `entries, `device
      ensures Valid()
      ensures ok ==> forall k :: k in view && k.fs == fs ==> k in device && device[k] == view[k]
      ensures reliable ==> ok
    {
      ok := true;
      var i := 0;
      while i < |entries|
        invariant i <= |entries| && Valid() && (reliable ==> ok)
        invariant ok ==> forall j :: 0 <= j < i && entries[j].key.fs == fs ==> Evictable(entries[j])
      {
        hide Represents;
        if entries[i].key.fs == fs {
          var done := FlushEntry(i);
          if !done { ok := false; }
        }
        i := i + 1;
      }
      if ok {
        forall k | k in view && k.fs == fs
          ensures k in device && device[k] == view[k]
        {
          CleanIsDevice(entries, device, view, k);
        }
      }
    }

    /** `ext2_drop_cache`: on success nothing of this file system stays cached and nothing is lost. */
    method Drop(fs: nat) returns (ok: bool)
      requires Valid()
      modifies `entries, `device, `view
      ensures Valid()
      ensures ok ==> view == old(view)
      ensures reliable ==> ok
      ensures forall k :: k in old(view) && k.fs != fs ==> k in view && view[k] == old(view)[k]
      ensures forall k :: k in view && k.fs == fs ==> Uncached(entries, k) && k in device && view[k] == device[k]
    {
      ok := true;
      var i := 0;
      while i < |entries|
        invariant i <= |entries| && Valid() && (reliable ==> ok) && (ok ==> view == old(view))
        invariant view.Keys == old(view).Keys
        invariant forall k :: k in view && k.fs != fs ==> view[k] == old(view)[k]
        invariant forall j :: 0 <= j < i ==> !(entries[j].valid && entries[j].key.fs == fs)
      {
        hide Represents;
        if entries[i].key.fs == fs {
          var done := FlushEntry(i);
          if done {
            DropKeepsView(entries, device, view, i);
          } else {
            ok := false;
            LoseKeepsOthers(entries, device, view, i);
            if entries[i].valid {
              view := view[entries[i].key := device[entries[i].key]];
            }
          }
          entries := entries[i := entries[i].(valid := false, dirty := false)];
        }
        i := i + 1;
      }
      forall k | k in view && k.fs == fs
        ensures Uncached(entries, k) && k in device && view[k] == device[k]
      {
        CleanIsDevice(entries, device, view, k);
      }
    }
  }

  /** Some block of the range is cached dirty. */
  predicate DirtyIn(entries: seq<Entry>, fs: nat, first: nat, n: nat) {
    exists i :: 0 <= i < |entries| && InRange(entries[i], fs, first, n) && entries[i].dirty
  }

  predicate InRange(e: Entry, fs: nat, first: nat, n: nat) {
    e.valid && e.key.fs == fs && first <= e.key.block < first + n
  }

  /** Throwing away a dirty slot falls back to the device for that one block. */
  lemma LoseKeepsOthers(entries: seq<Entry>, device: Disk, view: Disk, i: nat)
    requires Represents(entries, device, view) && i < |entries|
    ensures entries[i].valid ==> entries[i].key in device && entries[i].key in view
    ensures Represents(entries[i := entries[i].(valid := false, dirty := false)], device,
                       if entries[i].valid then view[entries[i].key := device[entries[i].key]] else view)
  {
    var e := entries[i := entries[i].(valid := false, dirty := false)];
    var w := if entries[i].valid then view[entries[i].key := device[entries[i].key]] else view;
    forall l | l in w && w[l] != device[l]
      ensures exists j: nat :: Pending(e, l, j)
    {
      var j: nat :| Pending(entries, l, j);
      assert Pending(e, l, j);
    }
  }

  lemma KeysAgree(entries: seq<Entry>, device: Disk, view: Disk)
    requires Represents(entries, device, view)
    ensures device.Keys == view.Keys
  {
  }
}
