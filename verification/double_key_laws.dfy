/** What `DoubleKeyTable` keeps true between calls, and what its reads and
    writes mean in terms of the slots. */
module DoubleKeyLaws {
  import opened Outcomes
  import opened Ring
  import opened PolyHashing
  import SubTables
  import opened DoubleKeyTable

  // ---------------------------------------------------------------------------
  // Counting occupied slots

  lemma {:induction false} OccupiedUpdate<V>(a: Slots<V>, q: nat, x: Option<Entry<V>>)
    requires q < |a|
    ensures Occupied(a[q := x]) + (if a[q].Some? then 1 else 0) == Occupied(a) + (if x.Some? then 1 else 0)
    decreases |a|
  {
    var b := a[q := x];
    if q == |a| - 1 {
      assert b[..|b| - 1] == a[..|a| - 1];
    } else {
      assert b[..|b| - 1] == a[..|a| - 1][q := x];
      OccupiedUpdate(a[..|a| - 1], q, x);
    }
  }

  /** An empty slot keeps the count below the size, and a count below the
      size leaves an empty slot. */
  lemma {:induction false} OccupiedBelowSize<V>(a: Slots<V>)
    ensures Occupied(a) < |a| <==> exists q :: 0 <= q < |a| && a[q].None?
    decreases |a|
  {
    if |a| > 0 {
      var init := a[..|a| - 1];
      OccupiedBelowSize(init);
      if exists q :: 0 <= q < |init| && init[q].None? {
        var q :| 0 <= q < |init| && init[q].None?;
        assert a[q].None?;
      }
      if exists q :: 0 <= q < |a| && a[q].None? {
        var q :| 0 <= q < |a| && a[q].None?;
        if q < |a| - 1 {
          assert init[q].None?;
        }
      }
    }
  }

  lemma {:induction false} OccupiedNone<V>(a: Slots<V>)
    requires forall q :: 0 <= q < |a| ==> a[q].None?
    ensures Occupied(a) == 0
    decreases |a|
  {
    if |a| > 0 {
      OccupiedNone(a[..|a| - 1]);
    }
  }

  // ---------------------------------------------------------------------------
  // The invariant

  /** No two slots hold the same key1. */
  ghost predicate Unique<V>(a: Slots<V>)
  {
    forall q1, q2 ::
      (0 <= q1 < |a| && 0 <= q2 < |a| && a[q1].Some? && a[q2].Some? && a[q1].value.key1 == a[q2].value.key1)
      ==> q1 == q2
  }

  /** The entry in slot `q` sits after an unbroken run of occupied slots
      starting at its key's home, so a probe for it gets there. */
  ghost predicate Reachable<V>(a: Slots<V>, q: nat)
    requires |a| >= 2 && q < |a| && a[q].Some?
  {
    var h := PolyHash(a[q].value.key1, |a|);
    forall i :: 0 <= i < Dist(h, q, |a|) ==> a[At(h, i, |a|)].Some?
  }

  ghost predicate AllReachable<V>(a: Slots<V>)
    requires |a| >= 2
  {
    forall q :: 0 <= q < |a| && a[q].Some? ==> Reachable(a, q)
  }

  /** Every slot holds a valid, non-empty sub-table. */
  ghost predicate GroupsNonEmpty<V>(a: Slots<V>)
  {
    forall q :: 0 <= q < |a| && a[q].Some? ==>
      SubTables.Valid(a[q].value.sub) && !SubTables.IsEmpty(a[q].value.sub)
  }

  /** `count` is the number of occupied slots, no key1 occurs twice, every
      key1 is findable by probing, and no slot keeps an empty sub-table. */
  ghost predicate Inv<V>(t: Table<V>)
  {
    && Shaped(t)
    && t.count == Occupied(t.slots)
    && Unique(t.slots)
    && AllReachable(t.slots)
    && GroupsNonEmpty(t.slots)
  }

  // ---------------------------------------------------------------------------
  // Finding stored keys

  lemma {:induction false} ProbeReaches<V>(a: Slots<V>, h: nat, q: nat, j: nat)
    requires |a| >= 2 && q < |a| && a[q].Some? && Unique(a) && Reachable(a, q)
    requires h == PolyHash(a[q].value.key1, |a|)
    requires j <= Dist(h, q, |a|) && Skips(a, a[q].value.key1, h, j)
    ensures ProbeFrom(a, a[q].value.key1, h, j) == Found(q)
    decreases Dist(h, q, |a|) - j
  {
    var k := a[q].value.key1;
    if j == Dist(h, q, |a|) {
      AtDist(h, q, |a|);
    } else {
      var x := At(h, j, |a|);
      if x == q {
        DistAt(h, j, |a|);
      }
      assert a[x].Some? && a[x].value.key1 != k;
      assert Skips(a, k, h, j + 1);
      ProbeReaches(a, h, q, j + 1);
    }
  }

  /** A probe for a stored key1 stops at its slot. */
  lemma FindsStored<V>(a: Slots<V>, q: nat)
    requires |a| >= 2 && Unique(a) && AllReachable(a)
    requires q < |a| && a[q].Some?
    ensures Probe(a, a[q].value.key1) == Found(q)
  {
    ProbeReaches(a, PolyHash(a[q].value.key1, |a|), q, 0);
  }

  /** A lookup of a stored key1 reaches the sub-table in its slot. */
  lemma GroupAt<V>(t: Table<V>, q: nat)
    requires |t.slots| >= 2 && Unique(t.slots) && AllReachable(t.slots)
    requires q < |t.slots| && t.slots[q].Some?
    ensures GroupOf(t, t.slots[q].value.key1) == Some(t.slots[q].value.sub)
  {
    FindsStored(t.slots, q);
  }

  /** A lookup of a key1 no slot holds reaches nothing. */
  lemma GroupAbsent<V>(t: Table<V>, key1: string)
    requires |t.slots| >= 2
    requires forall q :: 0 <= q < |t.slots| && t.slots[q].Some? ==> t.slots[q].value.key1 != key1
    ensures GroupOf(t, key1).None?
  {
  }

  /** `t[key1, key2]` returns exactly the values stored under the pair. */
  lemma GetMatchesSlots<V>(t: Table<V>, key1: string, key2: string, v: V)
    requires Inv(t)
    ensures Get(t, key1, key2) == Ok(v) <==>
      exists q :: 0 <= q < |t.slots| && t.slots[q].Some? && t.slots[q].value.key1 == key1
                  && (key2, v) in t.slots[q].value.sub.pairs
  {
    if exists q :: 0 <= q < |t.slots| && t.slots[q].Some? && t.slots[q].value.key1 == key1
                   && (key2, v) in t.slots[q].value.sub.pairs {
      var q :| 0 <= q < |t.slots| && t.slots[q].Some? && t.slots[q].value.key1 == key1
               && (key2, v) in t.slots[q].value.sub.pairs;
      GroupAt(t, q);
      SubTables.LookupFindsPair(t.slots[q].value.sub, key2, v);
    }
  }

  /** `(key1, key2) in t` exactly when some slot holds `key1` with `key2`
      among its sub-table's keys. */
  lemma ContainsMatchesSlots<V>(t: Table<V>, key1: string, key2: string)
    requires Inv(t)
    ensures Contains(t, key1, key2) <==>
      exists q :: 0 <= q < |t.slots| && t.slots[q].Some? && t.slots[q].value.key1 == key1
                  && key2 in SubTables.Keys(t.slots[q].value.sub)
  {
    if Contains(t, key1, key2) {
      GetMatchesSlots(t, key1, key2, Get(t, key1, key2).value);
      var q :| 0 <= q < |t.slots| && t.slots[q].Some? && t.slots[q].value.key1 == key1
               && (key2, Get(t, key1, key2).value) in t.slots[q].value.sub.pairs;
      var i :| 0 <= i < |t.slots[q].value.sub.pairs| && t.slots[q].value.sub.pairs[i] == (key2, Get(t, key1, key2).value);
      assert SubTables.Keys(t.slots[q].value.sub)[i] == key2;
    }
    if exists q :: 0 <= q < |t.slots| && t.slots[q].Some? && t.slots[q].value.key1 == key1
                   && key2 in SubTables.Keys(t.slots[q].value.sub) {
      var q :| 0 <= q < |t.slots| && t.slots[q].Some? && t.slots[q].value.key1 == key1
               && key2 in SubTables.Keys(t.slots[q].value.sub);
      var sub := t.slots[q].value.sub;
      var i :| 0 <= i < |SubTables.Keys(sub)| && SubTables.Keys(sub)[i] == key2;
      GetMatchesSlots(t, key1, key2, sub.pairs[i].1);
      assert sub.pairs[i] == (key2, sub.pairs[i].1);
    }
  }

  /** `keys(key1)` raises exactly when no slot holds `key1`; otherwise it
      lists exactly the `key2`s with `(key1, key2) in t`. */
  lemma KeysOfMatchesContains<V>(t: Table<V>, key1: string, key2: string)
    requires Inv(t)
    ensures Keys(t, Some(key1)).Err? <==>
      forall q :: 0 <= q < |t.slots| && t.slots[q].Some? ==> t.slots[q].value.key1 != key1
    ensures Keys(t, Some(key1)).Ok? ==> (key2 in Keys(t, Some(key1)).value <==> Contains(t, key1, key2))
  {
    if exists q :: 0 <= q < |t.slots| && t.slots[q].Some? && t.slots[q].value.key1 == key1 {
      var q :| 0 <= q < |t.slots| && t.slots[q].Some? && t.slots[q].value.key1 == key1;
      GroupAt(t, q);
      ContainsMatchesSlots(t, key1, key2);
      if Contains(t, key1, key2) {
        var q' :| 0 <= q' < |t.slots| && t.slots[q'].Some? && t.slots[q'].value.key1 == key1
                  && key2 in SubTables.Keys(t.slots[q'].value.sub);
        assert q' == q;
      }
    }
  }

  /** `values(key1)` raises exactly when `keys(key1)` does; otherwise it
      lists `v` exactly when `t[key1, key2] == v` for some `key2`. */
  lemma ValuesOfMatchesGet<V>(t: Table<V>, key1: string, v: V)
    requires Inv(t)
    ensures Values(t, Some(key1)).Err? <==> Keys(t, Some(key1)).Err?
    ensures Values(t, Some(key1)).Ok? ==>
      (v in Values(t, Some(key1)).value <==> exists key2 :: Get(t, key1, key2) == Ok(v))
  {
    if exists q :: 0 <= q < |t.slots| && t.slots[q].Some? && t.slots[q].value.key1 == key1 {
      var q :| 0 <= q < |t.slots| && t.slots[q].Some? && t.slots[q].value.key1 == key1;
      GroupAt(t, q);
      var sub := t.slots[q].value.sub;
      if v in Values(t, Some(key1)).value {
        var i :| 0 <= i < |SubTables.Values(sub)| && SubTables.Values(sub)[i] == v;
        assert sub.pairs[i] == (sub.pairs[i].0, v);
        GetMatchesSlots(t, key1, sub.pairs[i].0, v);
      }
      if exists key2 :: Get(t, key1, key2) == Ok(v) {
        var key2 :| Get(t, key1, key2) == Ok(v);
        GetMatchesSlots(t, key1, key2, v);
        var q' :| 0 <= q' < |t.slots| && t.slots[q'].Some? && t.slots[q'].value.key1 == key1
                  && (key2, v) in t.slots[q'].value.sub.pairs;
        assert q' == q;
        var i :| 0 <= i < |sub.pairs| && sub.pairs[i] == (key2, v);
        assert SubTables.Values(sub)[i] == v;
      }
    }
  }

  /** `len(t)` is the number of key1s `keys()` lists. */
  lemma LenMatchesKeys<V>(t: Table<V>)
    requires Inv(t)
    ensures Keys(t, None).Ok? && Len(t) == |Keys(t, None).value|
  {
  }

  /** `keys()` walks the slots in order: a slot contributes its key1, or
      nothing when it is empty, and the listing of two runs of slots is the
      listing of the first followed by that of the second. */
  lemma TopKeysSlot<V>(x: Option<Entry<V>>)
    ensures TopKeys([x]) == if x.Some? then [x.value.key1] else []
  {
    assert [x][..0] == [];
  }

  lemma {:induction false} TopKeysAppend<V>(a: Slots<V>, b: Slots<V>)
    ensures TopKeys(a + b) == TopKeys(a) + TopKeys(b)
    decreases |b|
  {
    if |b| == 0 {
      assert a + b == a;
    } else {
      var ab := a + b;
      var b' := b[..|b| - 1];
      assert ab[..|ab| - 1] == a + b';
      assert ab[|ab| - 1] == b[|b| - 1];
      TopKeysAppend(a, b');
    }
  }

  /** `values()` walks the slots in order: a slot contributes every value of
      its sub-table (in insertion order, see `SubTables`), and the listing of
      two runs of slots is the listing of the first followed by that of the
      second. */
  lemma AllValuesSlot<V>(x: Option<Entry<V>>)
    ensures AllValues([x]) == if x.Some? then SubTables.Values(x.value.sub) else []
  {
    assert [x][..0] == [];
  }

  lemma {:induction false} AllValuesAppend<V>(a: Slots<V>, b: Slots<V>)
    ensures AllValues(a + b) == AllValues(a) + AllValues(b)
    decreases |b|
  {
    if |b| == 0 {
      assert a + b == a;
    } else {
      var ab := a + b;
      var b' := b[..|b| - 1];
      assert ab[..|ab| - 1] == a + b';
      assert ab[|ab| - 1] == b[|b| - 1];
      AllValuesAppend(a, b');
    }
  }

  // ---------------------------------------------------------------------------
  // A new table

  /** A new table satisfies the invariant and holds nothing. */
  lemma NewIsEmpty<V>(sizes: Option<seq<nat>>, internalSizes: Option<seq<nat>>, key1: string, key2: string)
    requires Schedule(if sizes.Some? then sizes.value else TableSizes)
    requires Schedule(if internalSizes.Some? then internalSizes.value
                      else if sizes.Some? then sizes.value else TableSizes)
    ensures Inv(New<V>(sizes, internalSizes))
    ensures Get(New<V>(sizes, internalSizes), key1, key2) == Err(KeyError)
    ensures Keys(New<V>(sizes, internalSizes), None) == Ok([])
  {
    var t := New<V>(sizes, internalSizes);
    OccupiedNone(t.slots);
    GroupAbsent(t, key1);
  }

  // ---------------------------------------------------------------------------
  // Storing without a resize

  /** After a store that triggers no rehash the invariant still holds. */
  lemma StoreKeepsInv<V(!new)>(t: Table<V>, key1: string, key2: string, data: V)
    requires Inv(t) && !Probe(t.slots, key1).Exhausted?
    ensures Inv(Store(t, key1, key2, data))
  {
    var a := t.slots;
    var r := Store(t, key1, key2, data);
    var b := r.slots;
    var p := Probe(a, key1).pos;
    var n := |a|;
    var h := PolyHash(key1, n);
    SubTables.PutThenLookup(if Probe(a, key1).Found? then a[p].value.sub else SubTables.New(t.internalSizes), key2, data, key2);
    assert b == a[p := b[p]];
    OccupiedUpdate(a, p, b[p]);
    if Probe(a, key1).Free? {
      forall q | 0 <= q < n && a[q].Some? ensures a[q].value.key1 != key1 {
        if a[q].value.key1 == key1 {
          FindsStored(a, q);
        }
      }
    } else {
      assert !SubTables.IsEmpty(a[p].value.sub);
      GroupAt(t, p);
    }
    assert GroupsNonEmpty(b) by {
      forall q | 0 <= q < n && b[q].Some?
        ensures SubTables.Valid(b[q].value.sub) && !SubTables.IsEmpty(b[q].value.sub)
      {
        if q == p {
          assert (key2, data) in b[p].value.sub.pairs;
        }
      }
    }
    StoreKeepsReachable(t, key1, key2, data);
  }

  /** Filling the slot a probe stopped at keeps every entry reachable. */
  lemma StoreKeepsReachable<V(!new)>(t: Table<V>, key1: string, key2: string, data: V)
    requires Inv(t) && !Probe(t.slots, key1).Exhausted?
    ensures AllReachable(Store(t, key1, key2, data).slots)
  {
    var a := t.slots;
    var b := Store(t, key1, key2, data).slots;
    var p := Probe(a, key1).pos;
    var n := |a|;
    var h := PolyHash(key1, n);
    forall q | 0 <= q < n && b[q].Some? ensures Reachable(b, q) {
      var hq := PolyHash(b[q].value.key1, n);
      forall i | 0 <= i < Dist(hq, q, n) ensures b[At(hq, i, n)].Some? {
        var x := At(hq, i, n);
        if x != p {
          if q == p {
            assert Skips(a, key1, h, Dist(h, p, n));
          } else {
            assert Reachable(a, q);
          }
        }
      }
    }
  }

  /** After a store, a lookup of `key1` reaches the stored sub-table: the
      new pair reads back and the group's other pairs read as before. */
  lemma StoreThenGetSameKey1<V(!new)>(t: Table<V>, key1: string, key2: string, data: V, k2: string)
    requires Inv(t) && !Probe(t.slots, key1).Exhausted?
    ensures Get(Store(t, key1, key2, data), key1, key2) == Ok(data)
    ensures k2 != key2 ==> Get(Store(t, key1, key2, data), key1, k2) == Get(t, key1, k2)
  {
    var r := Store(t, key1, key2, data);
    var a := t.slots;
    var p := Probe(a, key1).pos;
    StoreKeepsInv(t, key1, key2, data);
    GroupAt(r, p);
    var old_sub := if Probe(a, key1).Found? then a[p].value.sub else SubTables.New(t.internalSizes);
    assert r.slots[p] == Some(Entry(key1, SubTables.Put(old_sub, key2, data)));
    SubTables.PutThenLookup(old_sub, key2, data, k2);
    if Probe(a, key1).Found? {
      GroupAt(t, p);
    } else {
      forall q | 0 <= q < |a| && a[q].Some? ensures a[q].value.key1 != key1 {
        if a[q].value.key1 == key1 {
          FindsStored(a, q);
        }
      }
      GroupAbsent(t, key1);
    }
  }

  /** After a store under `key1`, lookups of any other key1 are unchanged. */
  lemma StoreThenGetOtherKey1<V(!new)>(t: Table<V>, key1: string, key2: string, data: V, k1: string, k2: string)
    requires Inv(t) && !Probe(t.slots, key1).Exhausted? && k1 != key1
    ensures Get(Store(t, key1, key2, data), k1, k2) == Get(t, k1, k2)
  {
    var r := Store(t, key1, key2, data);
    var a, b := t.slots, r.slots;
    var p := Probe(a, key1).pos;
    StoreKeepsInv(t, key1, key2, data);
    if exists q :: 0 <= q < |a| && a[q].Some? && a[q].value.key1 == k1 {
      var q :| 0 <= q < |a| && a[q].Some? && a[q].value.key1 == k1;
      assert b[q] == a[q];
      GroupAt(t, q);
      GroupAt(r, q);
    } else {
      GroupAbsent(t, k1);
      forall q | 0 <= q < |b| && b[q].Some? ensures b[q].value.key1 != k1 {
        if q != p {
          assert b[q] == a[q];
        }
      }
      GroupAbsent(r, k1);
    }
  }

  /** After `t[key1, key2] = data` without a rehash, the invariant holds,
      the pair reads back as `data`, and every other pair reads as before. */
  lemma SetThenGet<V(!new)>(t: Table<V>, key1: string, key2: string, data: V, k1: string, k2: string)
    requires Inv(t) && Set(t, key1, key2, data).Ok?
    requires Set(t, key1, key2, data).value.sizeIndex == t.sizeIndex
    ensures Inv(Set(t, key1, key2, data).value)
    ensures Get(Set(t, key1, key2, data).value, key1, key2) == Ok(data)
    ensures (k1, k2) != (key1, key2) ==> Get(Set(t, key1, key2, data).value, k1, k2) == Get(t, k1, k2)
  {
    assert Set(t, key1, key2, data).value == Store(t, key1, key2, data);
    StoreKeepsInv(t, key1, key2, data);
    if k1 == key1 {
      StoreThenGetSameKey1(t, key1, key2, data, k2);
    } else {
      StoreThenGetSameKey1(t, key1, key2, data, key2);
      StoreThenGetOtherKey1(t, key1, key2, data, k1, k2);
    }
  }

  // ---------------------------------------------------------------------------
  // Rehashing

  /** Where `_rehash` leaves the entries: a slot of the new array holds the
      last entry (in old slot order) whose key1 hashes there, and is empty
      when none does. An earlier entry with the same home is lost. */
  lemma SpreadKeepsLast<V>(before: Slots<V>, m: nat, q: nat)
    requires m >= 2 && q < m
    ensures Spread(before, m)[q].None? <==>
      forall i :: 0 <= i < |before| && before[i].Some? ==> PolyHash(before[i].value.key1, m) != q
    ensures Spread(before, m)[q].Some? ==>
      exists i :: 0 <= i < |before| && before[i] == Spread(before, m)[q]
        && forall j :: i < j < |before| && before[j].Some? ==> PolyHash(before[j].value.key1, m) != q
  {
    SpreadSlotEmpty(before, m, q);
    SpreadSlotLast(before, m, q);
  }

  /** No entry of the old array lies after `from` with new home `q`. */
  ghost predicate Unclaimed<V>(before: Slots<V>, m: nat, q: nat, from: int)
    requires m >= 2
  {
    forall j :: 0 <= j && from <= j < |before| && before[j].Some? ==> PolyHash(before[j].value.key1, m) != q
  }

  lemma {:induction false} SpreadSlotEmpty<V>(before: Slots<V>, m: nat, q: nat)
    requires m >= 2 && q < m
    ensures Spread(before, m)[q].None? <==> Unclaimed(before, m, q, 0)
    decreases |before|
  {
    if |before| > 0 {
      var init := before[..|before| - 1];
      SpreadSlotEmpty(init, m, q);
      assert forall i :: 0 <= i < |init| ==> init[i] == before[i];
    }
  }

  lemma {:induction false} SpreadSlotLast<V>(before: Slots<V>, m: nat, q: nat)
    requires m >= 2 && q < m
    ensures Spread(before, m)[q].Some? ==>
      exists i :: 0 <= i < |before| && before[i] == Spread(before, m)[q] && Unclaimed(before, m, q, i + 1)
    decreases |before|
  {
    if |before| > 0 {
      var init := before[..|before| - 1];
      var last := |before| - 1;
      if before[last].Some? && PolyHash(before[last].value.key1, m) == q {
        assert Spread(before, m)[q] == before[last];
        assert Unclaimed(before, m, q, last + 1);
      } else if Spread(before, m)[q].Some? {
        SpreadSlotLast(init, m, q);
        assert Spread(before, m)[q] == Spread(init, m)[q];
        var i :| 0 <= i < |init| && init[i] == Spread(init, m)[q] && Unclaimed(init, m, q, i + 1);
        assert before[i] == init[i];
        assert Unclaimed(before, m, q, i + 1) by {
          forall j | i + 1 <= j < |before| && before[j].Some?
            ensures PolyHash(before[j].value.key1, m) != q
          {
            if j < last {
              assert before[j] == init[j];
            }
          }
        }
      }
    }
  }

  /** An entry survives `_rehash` exactly when no later slot of the old
      array holds an entry with the same new home. */
  lemma EntrySurvives<V>(before: Slots<V>, m: nat, i: nat)
    requires m >= 2 && i < |before| && before[i].Some? && Unique(before)
    ensures var q := PolyHash(before[i].value.key1, m);
      Spread(before, m)[q] == before[i] <==>
        forall j :: i < j < |before| && before[j].Some? ==> PolyHash(before[j].value.key1, m) != q
  {
    var q := PolyHash(before[i].value.key1, m);
    SpreadKeepsLast(before, m, q);
    if Spread(before, m)[q] == before[i] {
      var i' :| 0 <= i' < |before| && before[i'] == Spread(before, m)[q]
                && forall j :: i' < j < |before| && before[j].Some? ==> PolyHash(before[j].value.key1, m) != q;
      assert i' == i;
    }
  }

  /** The new array never holds more entries than `_rehash` counts. */
  lemma {:induction false} SpreadNeverGains<V>(before: Slots<V>, m: nat)
    requires m >= 2
    ensures Occupied(Spread(before, m)) <= Occupied(before)
    decreases |before|
  {
    if |before| == 0 {
      OccupiedNone(Spread(before, m));
    } else {
      var init := before[..|before| - 1];
      SpreadNeverGains(init, m);
      var rest := Spread(init, m);
      if before[|before| - 1].Some? {
        var e := before[|before| - 1].value;
        OccupiedUpdate(rest, PolyHash(e.key1, m), Some(e));
      }
    }
  }

  /** After a rehash within the schedule, `count` is at least the number of
      occupied slots; it can be more, when an entry was overwritten. */
  lemma RehashCountsAll<V>(t: Table<V>)
    requires Shaped(t) && t.sizeIndex + 1 < |t.sizes|
    ensures Occupied(Rehash(t).slots) <= Rehash(t).count
  {
    SpreadNeverGains(t.slots, t.sizes[t.sizeIndex + 1]);
  }

}
