/** A worked instance of `_rehash` losing an entry. With the schedule
    `[5, 13]`, the one-letter keys `n`, `a`, `b` land in slots 0, 2 and 3 of
    five. The third insert makes `count` 3 > 5 / 2, so the table is rehashed
    to 13 slots; there `n` and `a` both hash to slot 6 and `b` to slot 7.
    `a`, written after `n`, overwrites it: `count` is 3, two slots are
    occupied, and `n`'s pair can no longer be read. */
module RehashExample {
  import opened Outcomes
  import Ring
  import opened PolyHashing
  import SubTables
  import opened DoubleKeyTable
  import opened DoubleKeyLaws

  function Group(key1: string, v: int): Option<Entry<int>>
  {
    Some(Entry(key1, SubTables.SubTable([("x", v)], 5)))
  }

  const Start: Table<int> := New(Some([5, 13]), None)
  const AfterN: Table<int> := Start.(slots := Start.slots[0 := Group("n", 1)], count := 1)
  const AfterA: Table<int> := AfterN.(slots := AfterN.slots[2 := Group("a", 2)], count := 2)
  const StoredB: Table<int> := AfterA.(slots := AfterA.slots[3 := Group("b", 3)], count := 3)
  const Grown: Table<int> := Table(seq(13, _ => None)[6 := Group("a", 2)][7 := Group("b", 3)], 3, 1, [5, 13], [5, 13])

  lemma Homes()
    ensures PolyHash("n", 5) == 0 && PolyHash("a", 5) == 2 && PolyHash("b", 5) == 3
    ensures PolyHash("n", 13) == 6 && PolyHash("a", 13) == 6 && PolyHash("b", 13) == 7
  {
    SingleCharHash('n', 5);
    SingleCharHash('a', 5);
    SingleCharHash('b', 5);
    SingleCharHash('n', 13);
    SingleCharHash('a', 13);
    SingleCharHash('b', 13);
  }

  lemma InsertN()
    ensures Set(Start, "n", "x", 1) == Ok(AfterN)
  {
    Homes();
    assert Probe(Start.slots, "n") == Free(0);
  }

  lemma InsertA()
    ensures Shaped(AfterN) && Set(AfterN, "a", "x", 2) == Ok(AfterA)
  {
    Homes();
    assert Probe(AfterN.slots, "a") == Free(2);
  }

  lemma InsertB()
    ensures Shaped(AfterA) && Set(AfterA, "b", "x", 3) == Ok(Rehash(StoredB))
  {
    Homes();
    assert Probe(AfterA.slots, "b") == Free(3);
    assert Store(AfterA, "b", "x", 3) == StoredB;
  }

  lemma StoredCount()
    ensures Occupied(StoredB.slots) == 3
  {
    OccupiedNone(Start.slots);
    OccupiedUpdate(Start.slots, 0, Group("n", 1));
    OccupiedUpdate(AfterN.slots, 2, Group("a", 2));
    OccupiedUpdate(AfterA.slots, 3, Group("b", 3));
  }

  lemma Spreads()
    ensures Shaped(StoredB) && Rehash(StoredB) == Grown
  {
    StoredCount();
    SpreadSlots();
  }

  lemma SpreadSlots()
    ensures Spread(StoredB.slots, 13) == Grown.slots
  {
    Homes();
    var s := StoredB.slots;
    assert s[0] == Group("n", 1) && s[1].None? && s[2] == Group("a", 2) && s[3] == Group("b", 3) && s[4].None?;
    forall q | 0 <= q < 13 ensures Spread(s, 13)[q] == Grown.slots[q] {
      SpreadKeepsLast(s, 13, q);
    }
    assert Spread(s, 13) == Grown.slots;
  }

  lemma GrownContents()
    ensures Occupied(Grown.slots) == 2
    ensures Get(Grown, "n", "x") == Err(KeyError)
    ensures Get(Grown, "a", "x") == Ok(2)
  {
    Homes();
    var none: Slots<int> := seq(13, _ => None);
    OccupiedNone(none);
    OccupiedUpdate(none, 6, Group("a", 2));
    OccupiedUpdate(none[6 := Group("a", 2)], 7, Group("b", 3));
    var a := Grown.slots;
    assert Skips(a, "n", 6, 2) by {
      assert Ring.At(6, 0, 13) == 6 && Ring.At(6, 1, 13) == 7;
    }
    assert ProbeFrom(a, "n", 6, 2) == Free(8);
    assert ProbeFrom(a, "n", 6, 1) == Free(8);
    assert ProbeFrom(a, "n", 6, 0) == Free(8);
    assert Probe(a, "n") == Free(8);
    assert Probe(Grown.slots, "a") == Found(6);
  }

  /** Three inserts, and the first pair is gone while `count` still says 3. */
  lemma RehashLosesEntry()
    ensures Set(Start, "n", "x", 1) == Ok(AfterN)
    ensures Set(AfterN, "a", "x", 2) == Ok(AfterA)
    ensures Set(AfterA, "b", "x", 3) == Ok(Grown)
    ensures Grown.count == 3 && Occupied(Grown.slots) == 2
    ensures Get(AfterA, "n", "x") == Ok(1) && Get(Grown, "n", "x") == Err(KeyError)
  {
    InsertN();
    InsertA();
    InsertB();
    Spreads();
    GrownContents();
    Homes();
    assert Probe(AfterA.slots, "n") == Found(0);
  }
}
