/** The inner tables of a `DoubleKeyTable`. They are `LinearProbeTable`s,
    whose source is not part of this model; a sub-table is modelled by what
    the double-key table relies on: its `(key2, value)` pairs, kept in
    insertion order (the order of the slots of its array is not modelled),
    and its `table_size` (read by `hash2`). */
module SubTables {
  import opened Outcomes

  datatype SubTable<V> = SubTable(pairs: seq<(string, V)>, capacity: nat)

  /** No key occurs twice. */
  ghost predicate Valid<V>(s: SubTable<V>)
  {
    Distinct(s.pairs)
  }

  /** `LinearProbeTable(sizes)`: empty, sized by the first entry of its schedule. */
  function New<V>(sizes: seq<nat>): (r: SubTable<V>)
    requires |sizes| >= 1
    ensures Valid(r) && IsEmpty(r) && r.capacity == sizes[0]
  {
    SubTable([], sizes[0])
  }

  predicate IsEmpty<V>(s: SubTable<V>)
  {
    |s.pairs| == 0
  }

  function Len<V>(s: SubTable<V>): nat
  {
    |s.pairs|
  }

  /** `sub[k]`: the value stored under `k`, or `KeyError`. */
  function Lookup<V>(s: SubTable<V>, k: string): (r: Result<V>)
    ensures r.Ok? ==> (k, r.value) in s.pairs
    ensures r.Err? ==> r == Err(KeyError) && forall p :: p in s.pairs ==> p.0 != k
    decreases |s.pairs|
  {
    if |s.pairs| == 0 then Err(KeyError)
    else if s.pairs[0].0 == k then Ok(s.pairs[0].1)
    else Lookup(SubTable(s.pairs[1..], s.capacity), k)
  }

  /** In a valid sub-table a stored pair is exactly what a lookup returns. */
  lemma {:induction false} LookupFindsPair<V>(s: SubTable<V>, k: string, v: V)
    requires Valid(s)
    ensures Lookup(s, k) == Ok(v) <==> (k, v) in s.pairs
    decreases |s.pairs|
  {
    if |s.pairs| > 0 && s.pairs[0].0 != k {
      var t := SubTable(s.pairs[1..], s.capacity);
      LookupFindsPair(t, k, v);
      assert (k, v) in s.pairs <==> (k, v) in t.pairs by {
        assert s.pairs == [s.pairs[0]] + t.pairs;
      }
    } else if |s.pairs| > 0 {
      if (k, v) in s.pairs {
        var i :| 0 <= i < |s.pairs| && s.pairs[i] == (k, v);
        assert i == 0;
      }
    }
  }

  /** No key occurs twice among `ps`. */
  ghost predicate Distinct<V>(ps: seq<(string, V)>)
  {
    forall i, j :: 0 <= i < j < |ps| ==> ps[i].0 != ps[j].0
  }

  /** In a distinct sequence the head's key does not recur in the tail. */
  lemma HeadKeyUnique<V>(ps: seq<(string, V)>)
    requires |ps| > 0 && Distinct(ps)
    ensures Distinct(ps[1..])
    ensures forall p :: p in ps[1..] ==> p.0 != ps[0].0
  {
    forall p | p in ps[1..] ensures p.0 != ps[0].0 {
      var j :| 0 <= j < |ps[1..]| && ps[1..][j] == p;
      assert ps[j + 1] == p;
    }
  }

  /** Putting back a head whose key the tail does not hold keeps the pairs distinct. */
  lemma ConsDistinct<V>(x: (string, V), rest: seq<(string, V)>)
    requires Distinct(rest) && forall p :: p in rest ==> p.0 != x.0
    ensures Distinct([x] + rest)
  {
    forall i, j | 0 <= i < j < |[x] + rest| ensures ([x] + rest)[i].0 != ([x] + rest)[j].0 {
      assert ([x] + rest)[j] == rest[j - 1];
      if i > 0 {
        assert ([x] + rest)[i] == rest[i - 1];
      } else {
        assert rest[j - 1] in rest;
      }
    }
  }

  /** The pairs with `k` overwritten in place, or `(k, v)` appended. */
  function PutPairs<V(!new)>(ps: seq<(string, V)>, k: string, v: V): (r: seq<(string, V)>)
    requires Distinct(ps)
    ensures Distinct(r)
    ensures forall p :: p in r <==> (p in ps && p.0 != k) || p == (k, v)
    ensures |r| == |ps| + (if exists p :: p in ps && p.0 == k then 0 else 1)
  {
    if |ps| == 0 then [(k, v)]
    else
      HeadKeyUnique(ps);
      assert ps == [ps[0]] + ps[1..];
      if ps[0].0 == k then
        ConsDistinct((k, v), ps[1..]);
        [(k, v)] + ps[1..]
      else
        var rest := PutPairs(ps[1..], k, v);
        assert (exists p :: p in ps && p.0 == k) <==> (exists p :: p in ps[1..] && p.0 == k);
        ConsDistinct(ps[0], rest);
        [ps[0]] + rest
  }

  /** `sub[k] = v`. The sub-table's own growth is not modelled: it leaves the
      pairs as they are, so the capacity is kept. */
  function Put<V(!new)>(s: SubTable<V>, k: string, v: V): (r: SubTable<V>)
    requires Valid(s)
    ensures Valid(r) && r.capacity == s.capacity
    ensures forall p :: p in r.pairs <==> (p in s.pairs && p.0 != k) || p == (k, v)
    ensures Len(r) == Len(s) + (if Lookup(s, k).Ok? then 0 else 1)
  {
    assert Lookup(s, k).Ok? <==> exists p :: p in s.pairs && p.0 == k by {
      if Lookup(s, k).Ok? {
        assert (k, Lookup(s, k).value) in s.pairs;
      }
    }
    SubTable(PutPairs(s.pairs, k, v), s.capacity)
  }

  /** After `sub[k] = v`, `sub[k]` is `v` and every other key reads as before. */
  lemma PutThenLookup<V(!new)>(s: SubTable<V>, k: string, v: V, k': string)
    requires Valid(s)
    ensures Lookup(Put(s, k, v), k) == Ok(v)
    ensures k' != k ==> Lookup(Put(s, k, v), k') == Lookup(s, k')
  {
    var r := Put(s, k, v);
    LookupFindsPair(r, k, v);
    if k' != k {
      var a := Lookup(r, k');
      var b := Lookup(s, k');
      if a.Ok? {
        LookupFindsPair(s, k', a.value);
      } else if b.Ok? {
        LookupFindsPair(r, k', b.value);
      }
    }
  }

  /** The pairs without the one whose key is `k`. */
  function RemovePairs<V(!new)>(ps: seq<(string, V)>, k: string): (r: seq<(string, V)>)
    requires Distinct(ps) && exists p :: p in ps && p.0 == k
    ensures Distinct(r) && |r| == |ps| - 1
    ensures forall p :: p in r <==> p in ps && p.0 != k
  {
    HeadKeyUnique(ps);
    assert ps == [ps[0]] + ps[1..];
    if ps[0].0 == k then ps[1..]
    else
      var rest := RemovePairs(ps[1..], k);
      ConsDistinct(ps[0], rest);
      [ps[0]] + rest
  }

  /** `del sub[k]`: `KeyError` when `k` is absent, otherwise its pair is dropped. */
  function Remove<V(!new)>(s: SubTable<V>, k: string): (r: Result<SubTable<V>>)
    requires Valid(s)
    ensures r.Ok? <==> Lookup(s, k).Ok?
    ensures r.Err? ==> r == Err(KeyError)
    ensures r.Ok? ==> Valid(r.value) && r.value.capacity == s.capacity && Len(r.value) == Len(s) - 1
    ensures r.Ok? ==> forall p :: p in r.value.pairs <==> p in s.pairs && p.0 != k
  {
    match Lookup(s, k)
    case Err(_) => Err(KeyError)
    case Ok(v) =>
      assert (k, v) in s.pairs;
      Ok(SubTable(RemovePairs(s.pairs, k), s.capacity))
  }

  /** After `del sub[k]`, `sub[k]` raises and every other key reads as before. */
  lemma RemoveThenLookup<V(!new)>(s: SubTable<V>, k: string, k': string)
    requires Valid(s) && Remove(s, k).Ok?
    ensures Lookup(Remove(s, k).value, k).Err?
    ensures k' != k ==> Lookup(Remove(s, k).value, k') == Lookup(s, k')
  {
    var r := Remove(s, k).value;
    if k' != k {
      var a := Lookup(r, k');
      var b := Lookup(s, k');
      if a.Ok? {
        LookupFindsPair(s, k', a.value);
      } else if b.Ok? {
        LookupFindsPair(r, k', b.value);
      }
    }
  }

  /** The keys, in insertion order. */
  function Keys<V>(s: SubTable<V>): (r: seq<string>)
    ensures |r| == Len(s)
    ensures forall i :: 0 <= i < |r| ==> r[i] == s.pairs[i].0
  {
    seq(|s.pairs|, i requires 0 <= i < |s.pairs| => s.pairs[i].0)
  }

  /** The values, in insertion order. */
  function Values<V>(s: SubTable<V>): (r: seq<V>)
    ensures |r| == Len(s)
    ensures forall i :: 0 <= i < |r| ==> r[i] == s.pairs[i].1
  {
    seq(|s.pairs|, i requires 0 <= i < |s.pairs| => s.pairs[i].1)
  }
}
