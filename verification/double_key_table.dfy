/** `DoubleKeyTable`: an open-addressing table whose slots hold
    `(key1, sub_table)`; each sub-table maps `key2` to a value. The outer
    array is a sequence of optional entries, probed linearly with
    wrap-around from `hash1(key1)`. `count` is the number of key1 groups,
    not the number of pairs. */
module DoubleKeyTable {
  import opened Outcomes
  import opened Ring
  import opened PolyHashing
  import SubTables

  /** `TABLE_SIZES`, the default growth schedule. */
  const TableSizes: seq<nat> := [5, 13, 29, 53, 97, 193, 389, 769, 1543, 3079, 6151, 12289, 24593,
                                 49157, 98317, 196613, 393241, 786433, 1572869]

  datatype Entry<V> = Entry(key1: string, sub: SubTables.SubTable<V>)

  type Slots<V> = seq<Option<Entry<V>>>

  datatype Table<V> = Table(slots: Slots<V>, count: int, sizeIndex: nat,
                            sizes: seq<nat>, internalSizes: seq<nat>)

  /** A size schedule the hash can work with: non-empty, every size at least 2. */
  predicate Schedule(s: seq<nat>)
  {
    |s| >= 1 && forall i :: 0 <= i < |s| ==> s[i] >= 2
  }

  /** What every reachable table looks like, whatever its history. */
  ghost predicate Shaped<V>(t: Table<V>)
  {
    |t.slots| >= 2
    && Schedule(t.sizes)
    && Schedule(t.internalSizes)
    && forall q :: 0 <= q < |t.slots| && t.slots[q].Some? ==> SubTables.Valid(t.slots[q].value.sub)
  }

  lemma DefaultSchedule()
    ensures Schedule(TableSizes)
  {
  }

  /** `DoubleKeyTable(sizes, internal_sizes)`: an empty array of the first
      scheduled size; the inner schedule defaults to the outer one. */
  function New<V>(sizes: Option<seq<nat>>, internalSizes: Option<seq<nat>>): (r: Table<V>)
    requires Schedule(if sizes.Some? then sizes.value else TableSizes)
    requires Schedule(if internalSizes.Some? then internalSizes.value
                      else if sizes.Some? then sizes.value else TableSizes)
    ensures Shaped(r) && r.count == 0 && r.sizeIndex == 0
    ensures |r.slots| == r.sizes[0] && forall q :: 0 <= q < |r.slots| ==> r.slots[q].None?
    ensures r.sizes == (if sizes.Some? then sizes.value else TableSizes)
    ensures r.internalSizes == (if internalSizes.Some? then internalSizes.value else r.sizes)
  {
    var outer := if sizes.Some? then sizes.value else TableSizes;
    var inner := if internalSizes.Some? then internalSizes.value else outer;
    Table(seq(outer[0], _ => None), 0, 0, outer, inner)
  }

  /** `hash1`: the hash of `key1` over the outer array's size. */
  function Hash1<V>(t: Table<V>, key1: string): (r: nat)
    requires |t.slots| >= 2
    ensures r < |t.slots|
  {
    PolyHash(key1, |t.slots|)
  }

  /** `hash2`: the same hash over the sub-table's size. */
  function Hash2<V>(key2: string, sub: SubTables.SubTable<V>): (r: nat)
    requires sub.capacity >= 2
    ensures r < sub.capacity
  {
    PolyHash(key2, sub.capacity)
  }

  /** The number of occupied slots. */
  function Occupied<V>(a: Slots<V>): (r: nat)
    ensures r <= |a|
  {
    if |a| == 0 then 0 else Occupied(a[..|a| - 1]) + (if a[|a| - 1].Some? then 1 else 0)
  }

  // ---------------------------------------------------------------------------
  // Probing

  /** Where the walk of `get_position` stops: at the slot holding `key1`, at
      the first empty slot, or nowhere after `table_size` steps. */
  datatype Stop = Found(pos: nat) | Free(pos: nat) | Exhausted

  /** Each of the first `j` slots the walk from `h` visits holds another key1. */
  ghost predicate Skips<V>(a: Slots<V>, key1: string, h: nat, j: nat)
    requires h < |a| && j <= |a|
  {
    forall i :: 0 <= i < j ==> a[At(h, i, |a|)].Some? && a[At(h, i, |a|)].value.key1 != key1
  }

  /** Every slot is occupied by some other key1. */
  ghost predicate Full<V>(a: Slots<V>, key1: string)
  {
    forall q :: 0 <= q < |a| ==> a[q].Some? && a[q].value.key1 != key1
  }

  /** The walk from `h`, resumed after `j` steps. */
  function ProbeFrom<V>(a: Slots<V>, key1: string, h: nat, j: nat): (r: Stop)
    requires h < |a| && j <= |a| && Skips(a, key1, h, j)
    ensures r.Found? ==> r.pos < |a| && a[r.pos].Some? && a[r.pos].value.key1 == key1
                         && Skips(a, key1, h, Dist(h, r.pos, |a|))
    ensures r.Free? ==> r.pos < |a| && a[r.pos].None? && Skips(a, key1, h, Dist(h, r.pos, |a|))
    ensures r.Exhausted? ==> Skips(a, key1, h, |a|)
    decreases |a| - j
  {
    if j == |a| then Exhausted
    else
      var q := At(h, j, |a|);
      DistAt(h, j, |a|);
      match a[q]
      case None => Free(q)
      case Some(e) => if e.key1 == key1 then Found(q) else ProbeFrom(a, key1, h, j + 1)
  }

  /** A walk that skipped every step has seen every slot. */
  lemma SkipsAll<V>(a: Slots<V>, key1: string, h: nat)
    requires h < |a| && Skips(a, key1, h, |a|)
    ensures Full(a, key1)
  {
    forall q | 0 <= q < |a| ensures a[q].Some? && a[q].value.key1 != key1 {
      AtDist(h, q, |a|);
    }
  }

  /** `get_position` from `hash1(key1)`: the probe finds `key1`'s slot or the
      first empty slot, preceded only by slots of other keys, and gives up
      exactly when every slot holds another key. */
  function Probe<V>(a: Slots<V>, key1: string): (r: Stop)
    requires |a| >= 2
    ensures r.Found? ==> r.pos < |a| && a[r.pos].Some? && a[r.pos].value.key1 == key1
                         && Skips(a, key1, PolyHash(key1, |a|), Dist(PolyHash(key1, |a|), r.pos, |a|))
    ensures r.Free? ==> r.pos < |a| && a[r.pos].None?
                        && Skips(a, key1, PolyHash(key1, |a|), Dist(PolyHash(key1, |a|), r.pos, |a|))
    ensures r.Exhausted? <==> Full(a, key1)
  {
    var h := PolyHash(key1, |a|);
    var r := ProbeFrom(a, key1, h, 0);
    if r.Exhausted? then SkipsAll(a, key1, h); r else r
  }

  /** `get_position` as the source runs it: at most `table_size` steps of
      `position = (position + 1) % table_size` from `hash1(key1)`. */
  method LinearProbe<V>(a: Slots<V>, key1: string) returns (r: Stop)
    requires |a| >= 2
    ensures r == Probe(a, key1)
  {
    var h := HashLoop(key1, |a|);
    var position := h;
    for j := 0 to |a|
      invariant j < |a| ==> position == At(h, j, |a|)
      invariant Skips(a, key1, h, j)
      invariant ProbeFrom(a, key1, h, j) == Probe(a, key1)
    {
      match a[position]
      case None =>
        return Free(position);
      case Some(e) =>
        if e.key1 == key1 {
          return Found(position);
        }
      if j + 1 < |a| {
        NextAt(h, j, |a|);
      }
      position := (position + 1) % |a|;
    }
    return Exhausted;
  }

  /** `_linear_probe(key1, None, is_insert)`: the slot for `key1`. A lookup
      fails unless the key is found; an insert also accepts the first empty
      slot and fails only when every slot holds another key. */
  function Position<V>(a: Slots<V>, key1: string, isInsert: bool): (r: Result<nat>)
    requires |a| >= 2
    ensures r.Err? ==> r == Err(KeyError)
    ensures r.Ok? ==> r.value < |a| && !Probe(a, key1).Exhausted? && r.value == Probe(a, key1).pos
    ensures r.Ok? && !isInsert ==> a[r.value].Some? && a[r.value].value.key1 == key1
    ensures isInsert ==> (r.Err? <==> Full(a, key1))
  {
    match Probe(a, key1)
    case Found(p) => Ok(p)
    case Free(p) => if isInsert then Ok(p) else Err(KeyError)
    case Exhausted => Err(KeyError)
  }

  /** The sub-table a lookup of `key1` reaches, if any. */
  function GroupOf<V>(t: Table<V>, key1: string): (r: Option<SubTables.SubTable<V>>)
    requires |t.slots| >= 2
    ensures r.Some? ==> exists q :: 0 <= q < |t.slots| && t.slots[q] == Some(Entry(key1, r.value))
  {
    match Position(t.slots, key1, false)
    case Ok(p) => assert t.slots[p] == Some(Entry(key1, t.slots[p].value.sub)); Some(t.slots[p].value.sub)
    case Err(_) => None
  }

  // ---------------------------------------------------------------------------
  // Reading

  /** `t[key1, key2]`: `KeyError` unless `key1` is found and its sub-table holds `key2`. */
  function Get<V>(t: Table<V>, key1: string, key2: string): (r: Result<V>)
    requires |t.slots| >= 2
    ensures r.Err? ==> r == Err(KeyError)
    ensures r.Ok? ==> exists q :: 0 <= q < |t.slots| && t.slots[q].Some? && t.slots[q].value.key1 == key1
                                  && (key2, r.value) in t.slots[q].value.sub.pairs
  {
    match GroupOf(t, key1)
    case None => Err(KeyError)
    case Some(sub) => SubTables.Lookup(sub, key2)
  }

  /** `(key1, key2) in t`: `t[key1, key2]` does not raise. */
  predicate Contains<V>(t: Table<V>, key1: string, key2: string)
    requires |t.slots| >= 2
  {
    Get(t, key1, key2).Ok?
  }

  /** `len(t)`: the number of key1 groups. */
  function Len<V>(t: Table<V>): int
  {
    t.count
  }

  /** The key1 of every occupied slot, in slot order. */
  function TopKeys<V>(a: Slots<V>): (r: seq<string>)
    ensures |r| == Occupied(a)
    ensures forall k :: k in r <==> exists q :: 0 <= q < |a| && a[q].Some? && a[q].value.key1 == k
  {
    if |a| == 0 then []
    else
      var init := a[..|a| - 1];
      var rest := TopKeys(init);
      assert forall q :: 0 <= q < |init| ==> init[q] == a[q];
      rest + (if a[|a| - 1].Some? then [a[|a| - 1].value.key1] else [])
  }

  /** The values of every sub-table, slot by slot. */
  function AllValues<V>(a: Slots<V>): (r: seq<V>)
    ensures forall i :: 0 <= i < |r| ==>
      exists q :: 0 <= q < |a| && a[q].Some? && r[i] in SubTables.Values(a[q].value.sub)
    ensures forall q, v :: 0 <= q < |a| && a[q].Some? && v in SubTables.Values(a[q].value.sub) ==> v in r
  {
    if |a| == 0 then []
    else
      var init := a[..|a| - 1];
      var rest := AllValues(init);
      assert forall q :: 0 <= q < |init| ==> init[q] == a[q];
      var last := if a[|a| - 1].Some? then SubTables.Values(a[|a| - 1].value.sub) else [];
      assert forall i :: |rest| <= i < |rest| + |last| ==> (rest + last)[i] == last[i - |rest|];
      rest + last
  }

  /** `keys(key)`: without a key, every key1; with one, the keys of its
      sub-table, or `KeyError` when it is not in the table. */
  function Keys<V>(t: Table<V>, key: Option<string>): (r: Result<seq<string>>)
    requires |t.slots| >= 2
    ensures key.None? ==> r == Ok(TopKeys(t.slots))
    ensures key.Some? ==> (r.Ok? <==> GroupOf(t, key.value).Some?)
    ensures r.Err? ==> r == Err(KeyError)
  {
    match key
    case None => Ok(TopKeys(t.slots))
    case Some(k) =>
      (match GroupOf(t, k)
       case None => Err(KeyError)
       case Some(sub) => Ok(SubTables.Keys(sub)))
  }

  /** `values(key)`: without a key, every value of every sub-table; with one,
      the values of its sub-table, or `KeyError` when it is not in the table. */
  function Values<V>(t: Table<V>, key: Option<string>): (r: Result<seq<V>>)
    requires |t.slots| >= 2
    ensures key.None? ==> r == Ok(AllValues(t.slots))
    ensures key.Some? ==> (r.Ok? <==> GroupOf(t, key.value).Some?)
    ensures r.Err? ==> r == Err(KeyError)
  {
    match key
    case None => Ok(AllValues(t.slots))
    case Some(k) =>
      (match GroupOf(t, k)
       case None => Err(KeyError)
       case Some(sub) => Ok(SubTables.Values(sub)))
  }

  // ---------------------------------------------------------------------------
  // Writing

  /** The table after `sub_table[key2] = data` and before the resize check:
      the probe's slot holds `key1` with a sub-table (a fresh one,
      `create_internal_table`, on an empty slot) that now maps `key2` to
      `data`; `count` rises when that sub-table was empty. */
  function Store<V(!new)>(t: Table<V>, key1: string, key2: string, data: V): (r: Table<V>)
    requires Shaped(t) && !Probe(t.slots, key1).Exhausted?
    ensures Shaped(r) && |r.slots| == |t.slots|
    ensures r.sizeIndex == t.sizeIndex && r.sizes == t.sizes && r.internalSizes == t.internalSizes
    ensures r.count == t.count + (if GroupOf(t, key1).None? || SubTables.IsEmpty(GroupOf(t, key1).value) then 1 else 0)
    ensures var p := Probe(t.slots, key1).pos;
      && r.slots[p].Some? && r.slots[p].value.key1 == key1
      && SubTables.Lookup(r.slots[p].value.sub, key2) == Ok(data)
      && forall q :: 0 <= q < |t.slots| && q != p ==> r.slots[q] == t.slots[q]
  {
    var p := Probe(t.slots, key1).pos;
    var sub := if Probe(t.slots, key1).Found? then t.slots[p].value.sub else SubTables.New(t.internalSizes);
    var count := if SubTables.IsEmpty(sub) then t.count + 1 else t.count;
    SubTables.PutThenLookup(sub, key2, data, key2);
    t.(slots := t.slots[p := Some(Entry(key1, SubTables.Put(sub, key2, data)))], count := count)
  }

  /** `t[key1, key2] = data`. `KeyError` when every slot holds another key1;
      otherwise the pair is stored, and the table is rehashed exactly when
      `count` then exceeds half the array. */
  function Set<V(!new)>(t: Table<V>, key1: string, key2: string, data: V): (r: Result<Table<V>>)
    requires Shaped(t)
    ensures r.Err? <==> Full(t.slots, key1)
    ensures r.Err? ==> r == Err(KeyError)
    ensures r.Ok? ==> Shaped(r.value) && r.value.sizes == t.sizes && r.value.internalSizes == t.internalSizes
    ensures r.Ok? ==> var s := Store(t, key1, key2, data);
      && (r.value.sizeIndex == t.sizeIndex <==> 2 * s.count <= |s.slots|)
      && (r.value.sizeIndex == t.sizeIndex ==> r.value == s)
      && (r.value.sizeIndex != t.sizeIndex ==> r.value == Rehash(s))
  {
    if Probe(t.slots, key1).Exhausted? then Err(KeyError)
    else
      var s := Store(t, key1, key2, data);
      if 2 * s.count > |s.slots| then Ok(Rehash(s)) else Ok(s)
  }

  /** The new array `_rehash` fills: each old entry, in slot order, is written
      straight to its `hash1` slot in an array of size `m`, without probing,
      so a later entry with the same home overwrites an earlier one. Growing
      an entry's sub-table leaves its contents as they are. */
  function Spread<V>(before: Slots<V>, m: nat): (r: Slots<V>)
    requires m >= 2
    ensures |r| == m
    ensures forall q :: 0 <= q < m && r[q].Some? ==> r[q] in before && PolyHash(r[q].value.key1, m) == q
    decreases |before|
  {
    if |before| == 0 then seq(m, _ => None)
    else
      var rest := Spread(before[..|before| - 1], m);
      assert forall x :: x in before[..|before| - 1] ==> x in before;
      match before[|before| - 1]
      case None => rest
      case Some(e) => rest[PolyHash(e.key1, m) := Some(e)]
  }

  /** `_rehash`. The size index moves on first; past the end of the schedule
      nothing else happens. Otherwise the array takes the next scheduled size,
      the entries are spread over it, and `count` becomes the number of
      previously occupied slots. */
  function Rehash<V>(t: Table<V>): (r: Table<V>)
    requires Shaped(t)
    ensures Shaped(r) && r.sizeIndex == t.sizeIndex + 1 && r.sizes == t.sizes && r.internalSizes == t.internalSizes
    ensures r.sizeIndex >= |t.sizes| ==> r.slots == t.slots && r.count == t.count
    ensures r.sizeIndex < |t.sizes| ==> |r.slots| == t.sizes[r.sizeIndex] && r.count == Occupied(t.slots)
    ensures r.sizeIndex < |t.sizes| ==> r.slots == Spread(t.slots, t.sizes[r.sizeIndex])
  {
    var index := t.sizeIndex + 1;
    if index >= |t.sizes| then t.(sizeIndex := index)
    else Table(Spread(t.slots, t.sizes[index]), Occupied(t.slots), index, t.sizes, t.internalSizes)
  }

  /** The loop of `__delitem__` after a slot is emptied: from `pos` on, each
      occupied slot is emptied and its entry re-inserted where
      `_linear_probe(key1, None, True)` puts it, until an empty slot is
      reached. The re-insertion cannot fail, since the slot just emptied is
      free. The walk is cut off after `fuel` slots; the result pairs the
      array with the slot the walk stopped at. */
  function Walk<V>(a: Slots<V>, pos: nat, fuel: nat): (r: (Slots<V>, nat))
    requires |a| >= 2 && pos < |a|
    ensures |r.0| == |a| && r.1 < |a|
    ensures forall q :: 0 <= q < |a| && r.0[q].Some? ==> r.0[q] in a
    decreases fuel
  {
    if fuel == 0 || a[pos].None? then (a, pos)
    else
      var e := a[pos].value;
      var cleared := a[pos := None];
      assert cleared[pos].None?;
      assert !Full(cleared, e.key1);
      var q := Position(cleared, e.key1, true).value;
      var next := cleared[q := Some(e)];
      var r := Walk(next, (pos + 1) % |a|, fuel - 1);
      assert forall x :: x in next && x.Some? ==> x in a;
      r
  }

  /** `del t[key1, key2]`. `KeyError` when the pair is absent. Otherwise the
      pair leaves its sub-table; when that empties it, the slot is emptied,
      `count` drops by one and the rest of the cluster is re-inserted. */
  function Delete<V(!new)>(t: Table<V>, key1: string, key2: string): (r: Result<Table<V>>)
    requires Shaped(t)
    ensures r.Ok? <==> Get(t, key1, key2).Ok?
    ensures r.Err? ==> r == Err(KeyError)
    ensures r.Ok? ==> Shaped(r.value) && |r.value.slots| == |t.slots| && r.value.sizeIndex == t.sizeIndex
                      && r.value.sizes == t.sizes && r.value.internalSizes == t.internalSizes
    ensures r.Ok? ==> r.value.count == t.count - (if SubTables.Len(GroupOf(t, key1).value) == 1 then 1 else 0)
  {
    match Position(t.slots, key1, false)
    case Err(_) => Err(KeyError)
    case Ok(p) =>
      var e := t.slots[p].value;
      (match SubTables.Remove(e.sub, key2)
       case Err(_) => Err(KeyError)
       case Ok(sub) =>
         if SubTables.IsEmpty(sub) then
           var cleared := t.slots[p := None];
           var walked := Walk(cleared, (p + 1) % |t.slots|, |t.slots|).0;
           assert forall x :: x in cleared && x.Some? ==> x in t.slots;
           Ok(t.(slots := walked, count := t.count - 1))
         else
           Ok(t.(slots := t.slots[p := Some(Entry(key1, sub))])))
  }
}
