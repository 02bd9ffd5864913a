/** Which pages an evicting table holds: a load takes the first vacant slot from a hand on, or else
    overwrites the slot under the hand. */
module Residency {
  import opened Arith

  datatype Slot<K> = Vacant | Page(key: K)

  /** The slots and the hand, which is always a slot. */
  datatype Table<K> = Table(slots: seq<Slot<K>>, hand: nat)

  predicate Has<K(==)>(t: Table<K>, k: K) {
    Page(k) in t.slots
  }

  predicate Once<K(==)>(slots: seq<Slot<K>>, i: nat, j: nat)
    requires i < |slots| && j < |slots|
  {
    slots[i] == slots[j] && slots[i].Page? ==> i == j
  }

  /** No page is held twice, and the hand is on a slot. */
  ghost predicate Ok<K>(t: Table<K>) {
    && t.hand < |t.slots|
    && forall i: nat, j: nat :: i < |t.slots| && j < |t.slots| ==> Once(t.slots, i, j)
  }

  predicate Full<K>(t: Table<K>) {
    forall i :: 0 <= i < |t.slots| ==> t.slots[i].Page?
  }

  /** Slot `v` is the only vacant one. */
  predicate OnlyVacant<K>(t: Table<K>, v: nat) {
    v < |t.slots| && t.slots[v].Vacant? && forall i :: 0 <= i < |t.slots| && i != v ==> t.slots[i].Page?
  }

  function Next<K>(t: Table<K>, i: nat): nat
    requires i < |t.slots|
  {
    if i + 1 == |t.slots| then 0 else i + 1
  }

  /** The first vacant slot from step `i` of the round on, or the one under the hand. */
  function Scan<K>(slots: seq<Slot<K>>, hand: nat, i: nat): (v: nat)
    requires 0 < |slots|
    ensures v < |slots|
    decreases |slots| - i
  {
    if i >= |slots| then hand % |slots|
    else if slots[Round(hand, i, |slots|)].Vacant? then Round(hand, i, |slots|)
    else Scan(slots, hand, i + 1)
  }

  /** The slot the next load takes. */
  function Choice<K>(t: Table<K>): (v: nat)
    requires 0 < |t.slots|
    ensures v < |t.slots|
  {
    Scan(t.slots, t.hand, 0)
  }

  /** A load: nothing for a page that is there, else the chosen slot, and the hand past it. */
  function Put<K(==)>(t: Table<K>, k: K): (u: Table<K>)
    requires 0 < |t.slots|
    ensures |u.slots| == |t.slots| && (t.hand < |t.slots| ==> u.hand < |u.slots|)
  {
    if Has(t, k) then t else Table(t.slots[Choice(t) := Page(k)], Next(t, Choice(t)))
  }

  function Puts<K(==)>(t: Table<K>, ks: seq<K>): (u: Table<K>)
    requires 0 < |t.slots|
    ensures |u.slots| == |t.slots| && (t.hand < |t.slots| ==> u.hand < |u.slots|)
    decreases |ks|
  {
    if ks == [] then t else Puts(Put(t, ks[0]), ks[1..])
  }

  lemma {:induction false} ScanVacant<K>(slots: seq<Slot<K>>, hand: nat, i: nat)
    requires 0 < |slots| && i <= |slots|
    ensures var v := Scan(slots, hand, i);
            || slots[v].Vacant?
            || (v == hand % |slots| && forall j :: i <= j < |slots| ==> slots[Round(hand, j, |slots|)].Page?)
    decreases |slots| - i
  {
    if i == |slots| {
    } else {
      ScanVacant(slots, hand, i + 1);
    }
  }

  lemma {:induction false} PutsOneMore<K>(t: Table<K>, ks: seq<K>, k: K)
    requires 0 < |t.slots|
    ensures Puts(t, ks + [k]) == Put(Puts(t, ks), k)
    decreases |ks|
  {
    if ks == [] {
      assert ks + [k] == [k];
      assert Puts(t, [k]) == Puts(Put(t, k), [k][1..]);
    } else {
      assert (ks + [k])[1..] == ks[1..] + [k];
      PutsOneMore(Put(t, ks[0]), ks[1..], k);
    }
  }

  /** How far slot `i` is from the hand, going round. */
  function Steps<K>(t: Table<K>, i: nat): int {
    if i >= t.hand then i - t.hand else i - t.hand + |t.slots|
  }

  lemma {:induction false} ScanFirst<K>(t: Table<K>, i: nat, j: nat)
    requires t.hand < |t.slots| && i <= j < |t.slots| && t.slots[Round(t.hand, j, |t.slots|)].Vacant?
    ensures var v := Scan(t.slots, t.hand, i); t.slots[v].Vacant? && Steps(t, v) <= j
    decreases |t.slots| - i
  {
    var n := |t.slots|;
    if t.slots[Round(t.hand, i, n)].Vacant? {
      if t.hand + i < n {
        DivMod(t.hand + i, n, 0, t.hand + i);
      } else {
        DivMod(t.hand + i, n, 1, t.hand + i - n);
      }
    } else {
      ScanFirst(t, i + 1, j);
    }
  }

  /** No vacant slot is nearer to the hand than the one taken. */
  lemma ChoiceIsFirst<K>(t: Table<K>, i: nat)
    requires t.hand < |t.slots| && i < |t.slots| && t.slots[i].Vacant?
    ensures t.slots[Choice(t)].Vacant? && Steps(t, Choice(t)) <= Steps(t, i)
  {
    Meets(t.hand, Steps(t, i), |t.slots|, i);
    ScanFirst(t, 0, Steps(t, i));
  }

  lemma RoundMeetsAll<K>(t: Table<K>)
    requires t.hand < |t.slots|
    requires forall j :: 0 <= j < |t.slots| ==> t.slots[Round(t.hand, j, |t.slots|)].Page?
    ensures Full(t)
  {
    hide Round;
    var n := |t.slots|;
    forall i | 0 <= i < n
      ensures t.slots[i].Page?
    {
      var j := if i >= t.hand then i - t.hand else i - t.hand + n;
      assert Round(t.hand, j, n) == i by { Meets(t.hand, j, n, i); }
    }
  }

  lemma Meets(hand: nat, j: nat, n: nat, i: nat)
    requires hand < n && i < n && j == if i >= hand then i - hand else i - hand + n
    ensures Round(hand, j, n) == i
  {
    if i >= hand {
      DivMod(hand + j, n, 0, i);
    } else {
      DivMod(hand + j, n, 1, i);
    }
  }

  /** A vacant slot is taken if there is one, else the slot under the hand. */
  lemma ChoiceIs<K>(t: Table<K>)
    requires t.hand < |t.slots|
    ensures t.slots[Choice(t)].Vacant? || (Full(t) && Choice(t) == t.hand)
  {
    hide Round, Scan;
    ScanVacant(t.slots, t.hand, 0);
    if t.slots[Choice(t)].Page? {
      RoundMeetsAll(t);
      DivMod(t.hand, |t.slots|, 0, t.hand);
    }
  }

  lemma OneSlot<K>(t: Table<K>, i: nat, j: nat)
    requires Ok(t) && i < |t.slots| && j < |t.slots| && t.slots[i] == t.slots[j] && t.slots[i].Page?
    ensures i == j
  {
    assert Once(t.slots, i, j);
  }

  /** A load keeps the table sound, holds the page, and vacates nothing. */
  lemma PutOk<K>(t: Table<K>, k: K)
    requires Ok(t)
    ensures Ok(Put(t, k)) && Has(Put(t, k), k)
    ensures forall i :: 0 <= i < |t.slots| && t.slots[i].Page? ==> Put(t, k).slots[i].Page?
  {
    if !Has(t, k) {
      var v, u := Choice(t), Put(t, k);
      assert u.slots[v] == Page(k);
      forall i: nat, j: nat | i < |t.slots| && j < |t.slots|
        ensures Once(u.slots, i, j)
      {
        assert Once(t.slots, i, j);
      }
    }
  }

  /** The load of another page pushes page `p` out exactly if it misses, the table is full and the
      hand is on `p`. */
  lemma PutKeeps<K>(t: Table<K>, s: nat, p: K, k: K)
    requires Ok(t) && s < |t.slots| && t.slots[s] == Page(p) && k != p
    ensures var u := Put(t, k);
            if !Has(t, k) && Full(t) && t.hand == s then !Has(u, p) else u.slots[s] == Page(p)
  {
    ChoiceIs(t);
    var u := Put(t, k);
    if !Has(t, k) && Full(t) && t.hand == s {
      forall i: nat | i < |u.slots|
        ensures u.slots[i] != Page(p)
      {
        if t.slots[i] == Page(p) {
          OneSlot(t, i, s);
        }
      }
    }
  }

  lemma PutAbsent<K>(t: Table<K>, p: K, k: K)
    requires Ok(t) && !Has(t, p) && k != p
    ensures !Has(Put(t, k), p)
  {
  }

  /** Loading the pages `ks` overwrites slot `s`: with at most two of them, this is every way the hand
      can reach it. */
  ghost predicate Overwrites<K>(t: Table<K>, s: nat, ks: seq<K>)
    requires t.hand < |t.slots| && |ks| <= 2
  {
    || (Full(t) && t.hand == s && exists k :: k in ks && !Has(t, k))
    || (Full(t) && t.hand != s && Next(t, t.hand) == s && |ks| == 2 && !Has(t, ks[0])
        && (!Has(t, ks[1]) || t.slots[t.hand] == Page(ks[1])))
    || (OnlyVacant(t, Choice(t)) && Next(t, Choice(t)) == s && |ks| == 2 && !Has(t, ks[0]) && !Has(t, ks[1]))
  }

  /** Page `p`, loaded and followed by the pages `ks`, does not survive them. Either it was there and
      the hand comes to it in a table without room, or it takes one of the last two vacant slots
      and the other is the one just behind. */
  ghost predicate PushedOut<K>(t: Table<K>, p: K, ks: seq<K>)
    requires t.hand < |t.slots| && |ks| <= 2
  {
    if Has(t, p) then exists s: nat :: s < |t.slots| && t.slots[s] == Page(p) && Overwrites(t, s, ks)
    else
      |ks| == 2 && !Has(t, ks[0]) && !Has(t, ks[1]) && t.slots[Choice(t)].Vacant? && exists v: nat :: LastBehind(t, v)
  }

  /** Slot `v` is the only other vacant slot, just behind the one the next load takes. */
  predicate LastBehind<K>(t: Table<K>, v: nat)
    requires 0 < |t.slots|
  {
    && v < |t.slots| && v != Choice(t) && t.slots[v].Vacant? && Next(t, v) == Choice(t)
    && forall i :: 0 <= i < |t.slots| && i != v && i != Choice(t) ==> t.slots[i].Page?
  }

  lemma {:induction false} PutsAbsent<K>(t: Table<K>, p: K, ks: seq<K>)
    requires Ok(t) && !Has(t, p) && p !in ks
    ensures !Has(Puts(t, ks), p)
    decreases |ks|
  {
    if ks == [] {
    } else {
      PutOk(t, ks[0]);
      PutAbsent(t, p, ks[0]);
      PutsAbsent(Put(t, ks[0]), p, ks[1..]);
    }
  }

  lemma OneMore<K>(t: Table<K>, s: nat, p: K, k: K)
    requires Ok(t) && s < |t.slots| && t.slots[s] == Page(p) && k != p
    ensures Has(Puts(t, [k]), p) <==> !Overwrites(t, s, [k])
  {
    PutKeeps(t, s, p, k);
    assert Puts(t, [k]) == Put(t, k);
  }

  lemma TwoMore<K>(t: Table<K>, s: nat, p: K, ks: seq<K>)
    requires Ok(t) && s < |t.slots| && t.slots[s] == Page(p) && |ks| == 2 && p !in ks && ks[0] != ks[1]
    ensures Has(Puts(t, ks), p) <==> !Overwrites(t, s, ks)
  {
    var u := Put(t, ks[0]);
    PutOk(t, ks[0]);
    PutKeeps(t, s, p, ks[0]);
    ChoiceIs(t);
    assert Puts(t, ks) == Puts(u, [ks[1]]) by { assert ks[1..] == [ks[1]]; }
    if Has(u, p) {
      assert u.slots[s] == Page(p);
      OneMore(u, s, p, ks[1]);
      if !Has(t, ks[0]) {
        SecondLoad(t, s, p, ks);
      }
    } else {
      PutsAbsent(u, p, [ks[1]]);
    }
  }

  /** After a first miss that spared slot `s`, what decides the second load. */
  lemma SecondLoad<K>(t: Table<K>, s: nat, p: K, ks: seq<K>)
    requires Ok(t) && s < |t.slots| && t.slots[s] == Page(p) && |ks| == 2 && p !in ks && ks[0] != ks[1]
    requires !Has(t, ks[0]) && !(Full(t) && t.hand == s)
    ensures Overwrites(Put(t, ks[0]), s, [ks[1]]) <==> Overwrites(t, s, ks)
  {
    var v, u := Choice(t), Put(t, ks[0]);
    ChoiceIs(t);
    assert u.slots == t.slots[v := Page(ks[0])] && u.hand == Next(t, v);
    assert Full(u) <==> Full(t) || OnlyVacant(t, v) by {
      if Full(u) && t.slots[v].Vacant? {
        forall i | 0 <= i < |t.slots| && i != v
          ensures t.slots[i].Page?
        {
          assert u.slots[i].Page?;
        }
      }
    }
    SecondMisses(t, ks[0], ks[1]);
  }

  lemma SecondMisses<K>(t: Table<K>, a: K, b: K)
    requires Ok(t) && !Has(t, a) && a != b
    ensures Has(Put(t, a), b) <==> Has(t, b) && t.slots[Choice(t)] != Page(b)
  {
    var v, u := Choice(t), Put(t, a);
    if Has(u, b) {
      var i: nat :| i < |u.slots| && u.slots[i] == Page(b);
      assert i != v && t.slots[i] == Page(b);
      if t.slots[v] == Page(b) {
        OneSlot(t, i, v);
      }
    }
    if Has(t, b) && t.slots[v] != Page(b) {
      var i: nat :| i < |t.slots| && t.slots[i] == Page(b);
      assert u.slots[i] == Page(b);
    }
  }

  lemma Spared<K>(t: Table<K>, s: nat, p: K, ks: seq<K>)
    requires Ok(t) && s < |t.slots| && t.slots[s] == Page(p) && |ks| <= 2 && p !in ks
    requires |ks| == 2 ==> ks[0] != ks[1]
    ensures Has(Puts(t, ks), p) <==> !Overwrites(t, s, ks)
  {
    if ks == [] {
      assert t.slots[s] == Page(p);
    } else if |ks| == 1 {
      assert ks == [ks[0]];
      OneMore(t, s, p, ks[0]);
    } else {
      TwoMore(t, s, p, ks);
    }
  }

  /** A table of three slots or more loses a page it has just been asked for, to the pages read ahead,
      exactly in the cases that `PushedOut` names. */
  lemma PushedOutExactly<K>(t: Table<K>, p: K, ks: seq<K>)
    requires Ok(t) && |t.slots| >= 3 && |ks| <= 2 && p !in ks && (|ks| == 2 ==> ks[0] != ks[1])
    ensures Has(Puts(Put(t, p), ks), p) <==> !PushedOut(t, p, ks)
  {
    PutOk(t, p);
    if Has(t, p) {
      var s: nat :| s < |t.slots| && t.slots[s] == Page(p);
      Spared(t, s, p, ks);
      forall i: nat | i < |t.slots| && t.slots[i] == Page(p)
        ensures i == s
      {
        OneSlot(t, i, s);
      }
    } else {
      Spared(Put(t, p), Choice(t), p, ks);
      FreshPage(t, p, ks);
    }
  }

  /** A page just brought in is only reached by the hand through the slot right behind it. */
  lemma FreshPage<K>(t: Table<K>, p: K, ks: seq<K>)
    requires Ok(t) && |t.slots| >= 3 && |ks| <= 2 && p !in ks && !Has(t, p) && (|ks| == 2 ==> ks[0] != ks[1])
    ensures Overwrites(Put(t, p), Choice(t), ks) <==> PushedOut(t, p, ks)
  {
    if Overwrites(Put(t, p), Choice(t), ks) {
      FreshFalls(t, p, ks);
    }
    if PushedOut(t, p, ks) {
      FreshReached(t, p, ks);
    }
  }

  lemma FreshFalls<K>(t: Table<K>, p: K, ks: seq<K>)
    requires Ok(t) && |t.slots| >= 3 && |ks| <= 2 && p !in ks && !Has(t, p)
    requires Overwrites(Put(t, p), Choice(t), ks)
    ensures PushedOut(t, p, ks)
  {
    hide Has, Choice, Ok;
    OkHand(t);
    var s, u := Choice(t), Put(t, p);
    ChoiceIs(t);
    assert u.slots == t.slots[s := Page(p)] && u.hand == Next(t, s) != s && Next(u, u.hand) != s;
    var v := Choice(u);
    assert OnlyVacant(u, v) && v != s && t.slots[v] == u.slots[v];
    assert LastBehind(t, v) by {
      forall i | 0 <= i < |t.slots| && i != v && i != s
        ensures t.slots[i].Page?
      {
        assert u.slots[i].Page?;
      }
    }
    VacantPut(t, p, ks[0]);
    VacantPut(t, p, ks[1]);
  }

  lemma FreshReached<K>(t: Table<K>, p: K, ks: seq<K>)
    requires Ok(t) && |ks| <= 2 && p !in ks && !Has(t, p) && PushedOut(t, p, ks)
    ensures Overwrites(Put(t, p), Choice(t), ks)
  {
    hide Has, Choice, Ok;
    var s, u := Choice(t), Put(t, p);
    var v: nat :| LastBehind(t, v);
    assert u.slots == t.slots[s := Page(p)];
    assert OnlyVacant(u, v);
    PutOk(t, p);
    OkHand(u);
    ChoiceIs(u);
    assert Choice(u) == v;
    VacantPut(t, p, ks[0]);
    VacantPut(t, p, ks[1]);
  }

  lemma OkHand<K>(t: Table<K>)
    requires Ok(t)
    ensures t.hand < |t.slots|
  {
  }

  /** A load into a vacant slot changes the presence of no other page. */
  lemma VacantPut<K>(t: Table<K>, p: K, k: K)
    requires Ok(t) && !Has(t, p) && t.slots[Choice(t)].Vacant? && k != p
    ensures Has(Put(t, p), k) <==> Has(t, k)
  {
    SecondMisses(t, p, k);
  }

  /** A page that was pushed out leaves a full table, where the same request succeeds. */
  lemma RetryHolds<K>(t: Table<K>, p: K, ks: seq<K>, again: seq<K>)
    requires Ok(t) && |t.slots| >= 3 && |ks| <= 2 && p !in ks && (|ks| == 2 ==> ks[0] != ks[1])
    requires PushedOut(t, p, ks) && |again| <= 2
    ensures var u := Puts(Put(t, p), ks); Ok(u) && !Has(u, p) && !PushedOut(u, p, again)
  {
    PushedOutExactly(t, p, ks);
    PutOk(t, p);
    PutsOk(Put(t, p), ks);
    var u := Puts(Put(t, p), ks);
    PushedFull(t, p, ks);
    assert u.slots[Choice(u)].Page?;
  }

  lemma {:induction false} PutsOk<K>(t: Table<K>, ks: seq<K>)
    requires Ok(t)
    ensures Ok(Puts(t, ks))
    ensures forall i :: 0 <= i < |t.slots| && t.slots[i].Page? ==> Puts(t, ks).slots[i].Page?
    decreases |ks|
  {
    if ks == [] {
    } else {
      PutOk(t, ks[0]);
      PutsOk(Put(t, ks[0]), ks[1..]);
    }
  }

  lemma PushedFull<K>(t: Table<K>, p: K, ks: seq<K>)
    requires Ok(t) && |t.slots| >= 3 && |ks| <= 2 && p !in ks && (|ks| == 2 ==> ks[0] != ks[1])
    requires PushedOut(t, p, ks)
    ensures Full(Puts(Put(t, p), ks))
  {
    var u := Put(t, p);
    PutOk(t, p);
    PutsOk(u, ks);
    ChoiceIs(u);
    if !Has(t, p) {
      FreshPage(t, p, ks);
    }
    if !Full(u) {
      assert |ks| == 2 && OnlyVacant(u, Choice(u)) && !Has(u, ks[0]);
      var w := Put(u, ks[0]);
      PutOk(u, ks[0]);
      assert Full(w);
      PutsOk(w, ks[1..]);
    }
  }

  // ---------------------------------------------------------------- room for everything

  /** The pages held. */
  ghost function Held<K>(slots: seq<Slot<K>>): set<K> {
    set s | s in slots && s.Page? :: s.key
  }

  lemma {:induction false} FullHolds<K>(slots: seq<Slot<K>>)
    requires forall i: nat, j: nat :: i < |slots| && j < |slots| ==> Once(slots, i, j)
    requires forall i :: 0 <= i < |slots| ==> slots[i].Page?
    ensures |Held(slots)| == |slots|
  {
    if slots == [] {
      assert Held(slots) == {};
    } else {
      var n := |slots| - 1;
      var front, last := slots[..n], slots[n];
      forall i: nat, j: nat | i < n && j < n
        ensures Once(front, i, j)
      {
        assert Once(slots, i, j);
      }
      FullHolds(front);
      HeldSplit(slots);
      forall i: nat | i < n
        ensures front[i] != last
      {
        assert Once(slots, i, n);
      }
      assert last !in front;
    }
  }

  lemma HeldSplit<K>(slots: seq<Slot<K>>)
    requires slots != [] && slots[|slots| - 1].Page?
    ensures Held(slots) == Held(slots[..|slots| - 1]) + {slots[|slots| - 1].key}
  {
    var n := |slots| - 1;
    var front, last := slots[..n], slots[n];
    assert slots == front + [last];
    forall k
      ensures k in Held(slots) <==> k in Held(front) || k == last.key
    {
      assert Page(k) in slots <==> Page(k) in front || Page(k) == last;
    }
  }

  /** While what is held and what is wanted fit into the table together, a load pushes nothing out. */
  lemma PutFits<K>(t: Table<K>, k: K, want: set<K>)
    requires Ok(t) && k in want && |Held(t.slots) + want| <= |t.slots|
    ensures Ok(Put(t, k)) && Held(Put(t, k).slots) == Held(t.slots) + {k}
    ensures Held(Put(t, k).slots) + want == Held(t.slots) + want
  {
    PutOk(t, k);
    HeldIs(t);
    HeldIs(Put(t, k));
    if !Has(t, k) {
      ChoiceIs(t);
      if Full(t) {
        FullHolds(t.slots);
        assert Held(t.slots) + {k} <= Held(t.slots) + want;
        Larger(Held(t.slots) + {k}, Held(t.slots) + want);
        assert false;
      }
      forall x
        ensures Has(Put(t, k), x) <==> Has(t, x) || x == k
      {
        if x != k {
          VacantPut(t, k, x);
        }
      }
    }
  }

  lemma HeldIs<K>(t: Table<K>)
    ensures forall k :: k in Held(t.slots) <==> Has(t, k)
  {
    forall k
      ensures k in Held(t.slots) <==> Has(t, k)
    {
      if Has(t, k) {
        assert Page(k).key == k;
      }
    }
  }

  lemma Larger<T>(a: set<T>, b: set<T>)
    requires a <= b
    ensures |a| <= |b|
  {
    assert b == a + (b - a);
  }

  lemma {:induction false} PutsFit<K>(t: Table<K>, ks: seq<K>, want: set<K>)
    requires Ok(t) && (forall k :: k in ks ==> k in want) && |Held(t.slots) + want| <= |t.slots|
    ensures Ok(Puts(t, ks)) && Held(t.slots) <= Held(Puts(t, ks).slots)
    ensures Held(Puts(t, ks).slots) + want == Held(t.slots) + want
    decreases |ks|
  {
    hide Held, Has, Ok, Put;
    if ks == [] {
    } else {
      PutFits(t, ks[0], want);
      PutsFit(Put(t, ks[0]), ks[1..], want);
    }
  }

  /** With room for the page and those read ahead, the page stays. */
  lemma RoomHolds<K>(t: Table<K>, p: K, ks: seq<K>, want: set<K>)
    requires Ok(t) && |t.slots| >= 3 && |ks| <= 2 && p !in ks && (|ks| == 2 ==> ks[0] != ks[1])
    requires p in want && (forall k :: k in ks ==> k in want) && |Held(t.slots) + want| <= |t.slots|
    ensures !PushedOut(t, p, ks)
    ensures var u := Puts(Put(t, p), ks); Ok(u) && |Held(u.slots) + want| <= |u.slots|
  {
    PutFits(t, p, want);
    var u := Put(t, p);
    PutsFit(u, ks, want);
    HeldIs(Puts(u, ks));
    PushedOutExactly(t, p, ks);
  }
}
