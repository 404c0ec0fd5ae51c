/** The recursive ("infinite") hash table: a node of 27 slots at some `level`
    routes a key by its character at position `level`, or to the overflow slot
    26 once the key is exhausted. Two different keys meeting in one slot are
    pushed into a nested node one level down; a nested node left with a single
    pair after a delete is collapsed back into that pair.

    The source's `InfiniteHashTable` objects are mutable; here a table is an
    immutable value and every update returns the new table. */
module InfiniteHashTable {
  import opened Outcomes
  import Lexicographic

  const TableSize: nat := 27
  /** The slot for keys shorter than `level + 1` characters. */
  const Overflow: nat := 26

  /** Keys are drawn from 'a'..'z', whose 26 codes are distinct modulo 26, so that
      two different characters never share a slot (see `HashSeparates`). */
  predicate ValidKey(k: string)
  {
    forall i :: 0 <= i < |k| ==> 'a' <= k[i] <= 'z'
  }

  datatype Slot<V> = Empty | Leaf(key: string, value: V) | Nested(node: Node<V>)

  datatype Node<V> = Node(level: nat, slots: seq<Slot<V>>, count: int)

  /** `hash`: the slot a key occupies in a node at `level`. */
  function Hash(level: nat, k: string): (r: nat)
    ensures r <= Overflow
    ensures r == Overflow <==> |k| <= level
    ensures level < |k| ==> r == (k[level] as int) % 26
  {
    if level < |k| then (k[level] as int) % 26 else Overflow
  }

  /** On the key alphabet, equal slots below the overflow mean equal characters. */
  lemma HashSeparates(level: nat, k1: string, k2: string)
    requires ValidKey(k1) && ValidKey(k2)
    requires level < |k1| && level < |k2|
    requires Hash(level, k1) == Hash(level, k2)
    ensures k1[level] == k2[level]
  {
  }

  /** A fresh table at `level`. */
  function EmptyNode<V>(level: nat): Node<V>
  {
    Node(level, seq(TableSize, _ => Empty), 0)
  }

  // ---------------------------------------------------------------------------
  // Items and the representation invariant

  /** The pairs a slot holds, in the order `items()` yields them. */
  function SlotItems<V>(s: Slot<V>): seq<(string, V)>
    decreases s
  {
    match s
    case Empty => []
    case Leaf(k, v) => [(k, v)]
    case Nested(c) => ItemsOf(c.slots)
  }

  function ItemsOf<V>(ss: seq<Slot<V>>): seq<(string, V)>
    decreases ss
  {
    if |ss| == 0 then [] else SlotItems(ss[0]) + ItemsOf(ss[1..])
  }

  /** `items()`: every stored pair, slot by slot, nested tables flattened in place. */
  function Items<V>(n: Node<V>): seq<(string, V)>
  {
    ItemsOf(n.slots)
  }

  /** What the table maps `k` to, read off its items. */
  ghost predicate Stores<V>(n: Node<V>, k: string, v: V)
  {
    (k, v) in Items(n)
  }

  /** The invariant every table built by `Set` and `Delete` keeps: 27 slots,
      `count` is the number of reachable pairs, every pair sits in the slot its
      key hashes to, and nested tables sit one level down, hold at least two
      pairs and never occupy the overflow slot. */
  ghost predicate WF<V>(n: Node<V>)
    decreases n
  {
    && |n.slots| == TableSize
    && n.count == |Items(n)|
    && forall i :: 0 <= i < |n.slots| ==> SlotWF(n.level, i, n.slots[i])
  }

  ghost predicate SlotWF<V>(level: nat, i: nat, s: Slot<V>)
    decreases s
  {
    match s
    case Empty => true
    case Leaf(k, _) => ValidKey(k) && level <= |k| && Hash(level, k) == i
    case Nested(c) =>
      && i < Overflow
      && c.level == level + 1
      && c.count >= 2
      && (forall p :: p in SlotItems(s) ==> Hash(level, p.0) == i)
      && WF(c)
  }

  /** `k` may be added to `n`: it is at least `n.level` long and agrees with
      every stored key on the first `n.level` characters, as every key routed
      down to a node at that level does. At level 0 this always holds. */
  ghost predicate Fits<V>(n: Node<V>, k: string)
  {
    && n.level <= |k|
    && forall p :: p in Items(n) ==> n.level <= |p.0| && p.0[..n.level] == k[..n.level]
  }

  lemma {:induction false} ItemsOfMember<V>(ss: seq<Slot<V>>, p: (string, V))
    ensures p in ItemsOf(ss) <==> exists j :: 0 <= j < |ss| && p in SlotItems(ss[j])
    decreases ss
  {
    if |ss| > 0 {
      ItemsOfMember(ss[1..], p);
      if p in ItemsOf(ss[1..]) {
        var j :| 0 <= j < |ss[1..]| && p in SlotItems(ss[1..][j]);
        assert p in SlotItems(ss[j + 1]);
      }
      if exists j :: 0 <= j < |ss| && p in SlotItems(ss[j]) {
        var j :| 0 <= j < |ss| && p in SlotItems(ss[j]);
        if j > 0 {
          assert ss[j] == ss[1..][j - 1];
        }
      }
    }
  }

  lemma {:induction false} ItemsOfConcat<V>(a: seq<Slot<V>>, b: seq<Slot<V>>)
    ensures ItemsOf(a + b) == ItemsOf(a) + ItemsOf(b)
    decreases a
  {
    if |a| > 0 {
      assert (a + b)[1..] == a[1..] + b;
      ItemsOfConcat(a[1..], b);
    } else {
      assert a + b == b;
    }
  }

  /** The items of a slot list, split around slot `i`. */
  lemma {:induction false} ItemsOfAt<V>(ss: seq<Slot<V>>, i: nat)
    requires i < |ss|
    ensures ItemsOf(ss) == ItemsOf(ss[..i]) + SlotItems(ss[i]) + ItemsOf(ss[i + 1..])
  {
    assert ss == ss[..i] + ([ss[i]] + ss[i + 1..]);
    ItemsOfConcat(ss[..i], [ss[i]] + ss[i + 1..]);
    ItemsOfConcat([ss[i]], ss[i + 1..]);
    assert ItemsOf([ss[i]]) == SlotItems(ss[i]) by {
      assert [ss[i]][1..] == [];
    }
  }

  /** Replacing one slot changes the items by that slot's contribution only. */
  lemma {:induction false} ItemsOfUpdate<V>(ss: seq<Slot<V>>, i: nat, s: Slot<V>)
    requires i < |ss|
    ensures ItemsOf(ss) == ItemsOf(ss[..i]) + SlotItems(ss[i]) + ItemsOf(ss[i + 1..])
    ensures ItemsOf(ss[i := s]) == ItemsOf(ss[..i]) + SlotItems(s) + ItemsOf(ss[i + 1..])
  {
    ItemsOfAt(ss, i);
    ItemsOfAt(ss[i := s], i);
    assert ss[i := s][..i] == ss[..i];
    assert ss[i := s][i + 1..] == ss[i + 1..];
  }

  /** Every pair of a well-formed table sits in the slot its key hashes to,
      and its key is a valid key at least `level` long. */
  lemma {:induction false} ItemsRouted<V>(n: Node<V>, p: (string, V))
    requires WF(n) && p in Items(n)
    ensures p in SlotItems(n.slots[Hash(n.level, p.0)])
    ensures ValidKey(p.0) && n.level <= |p.0|
    decreases n
  {
    ItemsOfMember(n.slots, p);
    var j :| 0 <= j < |n.slots| && p in SlotItems(n.slots[j]);
    assert SlotWF(n.level, j, n.slots[j]);
    match n.slots[j]
    case Leaf(k, v) =>
    case Nested(c) =>
      ItemsRouted(c, p);
  }

  /** The pairs outside slot `i` are exactly the pairs whose keys hash elsewhere. */
  lemma OutsideSlot<V>(n: Node<V>, i: nat, p: (string, V))
    requires WF(n) && i < TableSize
    ensures p in ItemsOf(n.slots[..i]) || p in ItemsOf(n.slots[i + 1..]) <==>
            p in Items(n) && Hash(n.level, p.0) != i
  {
    ItemsOfUpdate(n.slots, i, n.slots[i]);
    ItemsOfMember(n.slots[..i], p);
    ItemsOfMember(n.slots[i + 1..], p);
    if p in ItemsOf(n.slots[..i]) {
      var j :| 0 <= j < |n.slots[..i]| && p in SlotItems(n.slots[..i][j]);
      assert n.slots[..i][j] == n.slots[j];
      assert SlotWF(n.level, j, n.slots[j]);
      SlotRouted(n.level, j, n.slots[j], p);
    }
    if p in ItemsOf(n.slots[i + 1..]) {
      var j :| 0 <= j < |n.slots[i + 1..]| && p in SlotItems(n.slots[i + 1..][j]);
      assert n.slots[i + 1..][j] == n.slots[i + 1 + j];
      assert SlotWF(n.level, i + 1 + j, n.slots[i + 1 + j]);
      SlotRouted(n.level, i + 1 + j, n.slots[i + 1 + j], p);
    }
    if p in Items(n) && Hash(n.level, p.0) != i {
      ItemsRouted(n, p);
      var j := Hash(n.level, p.0);
      if j < i {
        assert n.slots[..i][j] == n.slots[j];
      } else {
        assert n.slots[i + 1..][j - i - 1] == n.slots[j];
      }
    }
  }

  /** A pair held by a well-formed slot `j` has a key hashing to `j`. */
  lemma SlotRouted<V>(level: nat, j: nat, s: Slot<V>, p: (string, V))
    requires SlotWF(level, j, s) && p in SlotItems(s)
    ensures Hash(level, p.0) == j
  {
    match s
    case Leaf(_, _) =>
    case Nested(_) =>
  }

  /** Replacing slot `i` of a well-formed node by a well-formed slot, with the
      count adjusted by the slot's change in size, gives a well-formed node. */
  lemma ReplaceSlotWF<V>(n: Node<V>, i: nat, s: Slot<V>, count: int)
    requires WF(n) && i < TableSize && SlotWF(n.level, i, s)
    requires count == n.count - |SlotItems(n.slots[i])| + |SlotItems(s)|
    ensures WF(Node(n.level, n.slots[i := s], count))
  {
    var r := Node(n.level, n.slots[i := s], count);
    ItemsOfUpdate(n.slots, i, s);
    assert |Items(r)| == count;
    forall j | 0 <= j < |r.slots|
      ensures SlotWF(r.level, j, r.slots[j])
    {
      if j != i {
        assert r.slots[j] == n.slots[j];
      }
    }
  }

  /** ... and its pairs are the new slot's plus the old pairs routed elsewhere. */
  lemma ReplaceSlot<V>(n: Node<V>, i: nat, s: Slot<V>, count: int)
    requires WF(n) && i < TableSize && SlotWF(n.level, i, s)
    requires count == n.count - |SlotItems(n.slots[i])| + |SlotItems(s)|
    ensures WF(Node(n.level, n.slots[i := s], count))
    ensures forall p :: p in Items(Node(n.level, n.slots[i := s], count)) <==>
                        p in SlotItems(s) || (p in Items(n) && Hash(n.level, p.0) != i)
  {
    ReplaceSlotWF(n, i, s, count);
    ItemsOfUpdate(n.slots, i, s);
    forall p
      ensures p in Items(Node(n.level, n.slots[i := s], count)) <==>
              p in SlotItems(s) || (p in Items(n) && Hash(n.level, p.0) != i)
    {
      OutsideSlot(n, i, p);
    }
  }

  // ---------------------------------------------------------------------------
  // Lookup

  /** `__getitem__`: descend through nested tables to the slot the key hashes to. */
  function Get<V>(n: Node<V>, k: string): (r: Result<V>)
    requires WF(n)
    ensures r.Err? ==> r == Err(KeyError)
    decreases n
  {
    assert SlotWF(n.level, Hash(n.level, k), n.slots[Hash(n.level, k)]);
    match n.slots[Hash(n.level, k)]
    case Nested(c) => Get(c, k)
    case Leaf(k', v) => if k' == k then Ok(v) else Err(KeyError)
    case Empty => Err(KeyError)
  }

  /** `__contains__`: the lookup does not raise. */
  function Contains<V>(n: Node<V>, k: string): bool
    requires WF(n)
  {
    Get(n, k).Ok?
  }

  /** A lookup succeeds with `v` exactly when `(k, v)` is among the items. */
  lemma {:induction false} GetMatchesItems<V>(n: Node<V>, k: string, v: V)
    requires WF(n)
    ensures Get(n, k) == Ok(v) <==> (k, v) in Items(n)
    decreases n
  {
    var i := Hash(n.level, k);
    assert SlotWF(n.level, i, n.slots[i]);
    if (k, v) in Items(n) {
      ItemsRouted(n, (k, v));
    }
    ItemsOfUpdate(n.slots, i, n.slots[i]);
    match n.slots[i]
    case Nested(c) =>
      GetMatchesItems(c, k, v);
    case Leaf(k', v') =>
    case Empty =>
  }

  /** A missing key is not among the items under any value. */
  lemma AbsentHasNoItem<V>(n: Node<V>, k: string)
    requires WF(n) && !Contains(n, k)
    ensures forall p :: p in Items(n) ==> p.0 != k
  {
    forall p | p in Items(n)
      ensures p.0 != k
    {
      if p.0 == k {
        GetMatchesItems(n, k, p.1);
      }
    }
  }

  // ---------------------------------------------------------------------------
  // Insertion

  /** What `__setitem__` builds when the key lands in an empty slot of an empty table. */
  function Singleton<V>(level: nat, k: string, v: V): Node<V>
  {
    var e := EmptyNode<V>(level);
    Node(level, e.slots[Hash(level, k) := Leaf(k, v)], 1)
  }

  lemma SingletonWF<V>(level: nat, k: string, v: V)
    requires ValidKey(k) && level <= |k|
    ensures WF(Singleton(level, k, v))
    ensures Items(Singleton(level, k, v)) == [(k, v)]
  {
    var e := EmptyNode<V>(level);
    var i := Hash(level, k);
    assert forall j :: 0 <= j < |e.slots| ==> e.slots[j] == Empty;
    EmptyItems(e.slots);
    EmptyItems(e.slots[..i]);
    EmptyItems(e.slots[i + 1..]);
    ReplaceSlotWF(e, i, Leaf(k, v), 1);
    ItemsOfUpdate(e.slots, i, Leaf(k, v));
  }

  lemma {:induction false} EmptyItems<V>(ss: seq<Slot<V>>)
    requires forall j :: 0 <= j < |ss| ==> ss[j] == Empty
    ensures ItemsOf(ss) == []
    decreases ss
  {
    if |ss| > 0 {
      EmptyItems(ss[1..]);
    }
  }

  /** `__setitem__`. An empty slot takes the pair; a nested table takes it
      recursively, counting it only if the key was new there; an equal key is
      overwritten in place; a different key is pushed, together with the pair
      it collides with, into a fresh table one level down, and this node's
      count rises by exactly one. */
  function Set<V(!new)>(n: Node<V>, k: string, v: V): (r: Node<V>)
    requires WF(n) && ValidKey(k) && Fits(n, k)
    ensures WF(r) && r.level == n.level
    ensures r.count == n.count + (if Contains(n, k) then 0 else 1)
    ensures forall p :: p in Items(r) <==> p == (k, v) || (p in Items(n) && p.0 != k)
    decreases |k| - n.level, 1
  {
    var i := Hash(n.level, k);
    assert SlotWF(n.level, i, n.slots[i]);
    match n.slots[i]
    case Empty =>
      var s := Leaf(k, v);
      SetSlot(n, k, v, s);
      Node(n.level, n.slots[i := s], n.count + 1)
    case Nested(c) =>
      NestedSlot(n, k, v, c);
      Node(n.level, n.slots[i := Nested(Set(c, k, v))], if Contains(c, k) then n.count else n.count + 1)
    case Leaf(k', v') =>
      if k' == k then
        var s := Leaf(k, v);
        SetSlot(n, k, v, s);
        Node(n.level, n.slots[i := s], n.count)
      else
        CollisionSlot(n, k, v, k', v');
        Node(n.level, n.slots[i := Nested(Set(Singleton(n.level + 1, k', v'), k, v))], n.count + 1)
  }

  /** `Set`'s descent into a nested table, seen from the parent: the child
      with the pair set replaces the old child. */
  lemma NestedSlot<V(!new)>(n: Node<V>, k: string, v: V, c: Node<V>)
    requires WF(n) && ValidKey(k) && Fits(n, k)
    requires n.slots[Hash(n.level, k)] == Nested(c)
    ensures WF(c) && Fits(c, k) && |k| - c.level < |k| - n.level && Contains(n, k) == Contains(c, k)
    ensures var r := Node(n.level, n.slots[Hash(n.level, k) := Nested(Set(c, k, v))],
                          if Contains(c, k) then n.count else n.count + 1);
      && WF(r)
      && forall p :: p in Items(r) <==> p == (k, v) || (p in Items(n) && p.0 != k)
    decreases |k| - n.level, 0
  {
    var i := Hash(n.level, k);
    FitsChild(n, k, c);
    assert SlotWF(n.level, i, n.slots[i]);
    var c' := Set(c, k, v);
    var s := Nested(c');
    assert SlotWF(n.level, i, s) by {
      forall p | p in SlotItems(s)
        ensures Hash(n.level, p.0) == i
      {
        if p != (k, v) {
          assert p in SlotItems(Nested(c));
        }
      }
    }
    SetSlot(n, k, v, s);
  }

  /** `Set`'s collision branch, seen from the parent: the leaf gives way to a
      table one level down holding both pairs. */
  lemma CollisionSlot<V(!new)>(n: Node<V>, k: string, v: V, k': string, v': V)
    requires WF(n) && ValidKey(k) && Fits(n, k)
    requires n.slots[Hash(n.level, k)] == Leaf(k', v') && k' != k
    ensures ValidKey(k') && n.level + 1 <= |k'| && WF(Singleton(n.level + 1, k', v'))
    ensures Fits(Singleton(n.level + 1, k', v'), k) && !Contains(n, k)
    ensures var r := Node(n.level, n.slots[Hash(n.level, k) := Nested(Set(Singleton(n.level + 1, k', v'), k, v))], n.count + 1);
      && WF(r)
      && forall p :: p in Items(r) <==> p == (k, v) || (p in Items(n) && p.0 != k)
    decreases |k| - n.level, 0
  {
    var i := Hash(n.level, k);
    CollisionFits(n, k, k', v');
    SingletonWF(n.level + 1, k', v');
    var child := Set(Singleton(n.level + 1, k', v'), k, v);
    var s := Nested(child);
    assert !Contains(Singleton(n.level + 1, k', v'), k);
    assert SlotWF(n.level, i, s) by {
      forall p | p in SlotItems(s)
        ensures Hash(n.level, p.0) == i
      {
      }
    }
    SetSlot(n, k, v, s);
  }

  /** The bookkeeping shared by every branch of `Set`: once the new slot holds
      exactly `(k, v)` and the old slot's other pairs, the node is well formed
      and holds `(k, v)` and the old pairs under other keys. */
  lemma SetSlot<V>(n: Node<V>, k: string, v: V, s: Slot<V>)
    requires WF(n) && ValidKey(k) && n.level <= |k|
    requires SlotWF(n.level, Hash(n.level, k), s)
    requires forall p :: p in SlotItems(s) <==> p == (k, v) || (p in SlotItems(n.slots[Hash(n.level, k)]) && p.0 != k)
    requires |SlotItems(s)| == |SlotItems(n.slots[Hash(n.level, k)])| + (if Contains(n, k) then 0 else 1)
    ensures var r := Node(n.level, n.slots[Hash(n.level, k) := s], n.count + (if Contains(n, k) then 0 else 1));
      && WF(r)
      && forall p :: p in Items(r) <==> p == (k, v) || (p in Items(n) && p.0 != k)
  {
    var i := Hash(n.level, k);
    var r := Node(n.level, n.slots[i := s], n.count + (if Contains(n, k) then 0 else 1));
    ReplaceSlot(n, i, s, r.count);
    ItemsOfUpdate(n.slots, i, s);
    forall p
      ensures p in Items(r) <==> p == (k, v) || (p in Items(n) && p.0 != k)
    {
      if p in Items(n) && p.0 != k && Hash(n.level, p.0) == i {
        ItemsRouted(n, p);
      }
      if p in SlotItems(n.slots[i]) {
        assert p in Items(n);
      }
    }
  }

  /** Keys that agree on the first `L` characters and share a slot below the
      overflow at level `L` agree on the first `L + 1`. */
  lemma PrefixStep(a: string, b: string, L: nat)
    requires ValidKey(a) && ValidKey(b) && L <= |a| && L <= |b|
    requires a[..L] == b[..L] && Hash(L, a) == Hash(L, b) < Overflow
    ensures L + 1 <= |a| && L + 1 <= |b| && a[..L + 1] == b[..L + 1]
  {
    HashSeparates(L, a, b);
    assert a[..L + 1] == a[..L] + [a[L]];
    assert b[..L + 1] == b[..L] + [b[L]];
  }

  /** The key fits the nested table its slot holds. */
  lemma FitsChild<V>(n: Node<V>, k: string, c: Node<V>)
    requires WF(n) && ValidKey(k) && Fits(n, k)
    requires n.slots[Hash(n.level, k)] == Nested(c)
    ensures WF(c) && Fits(c, k) && |k| - c.level < |k| - n.level
    ensures forall p :: p in Items(c) ==> p in Items(n)
    ensures Contains(n, k) == Contains(c, k)
  {
    var i := Hash(n.level, k);
    assert SlotWF(n.level, i, n.slots[i]);
    ItemsOfUpdate(n.slots, i, n.slots[i]);
    assert SlotItems(n.slots[i]) == Items(c);
    forall p | p in Items(c)
      ensures c.level <= |p.0| && p.0[..c.level] == k[..c.level]
    {
      ItemsRouted(c, p);
      assert p in Items(n);
      PrefixStep(p.0, k, n.level);
    }
  }

  /** A key colliding with a different stored key differs from it no earlier
      than the next level, so both fit a fresh table one level down. */
  lemma CollisionFits<V>(n: Node<V>, k: string, k': string, v': V)
    requires WF(n) && ValidKey(k) && Fits(n, k)
    requires n.slots[Hash(n.level, k)] == Leaf(k', v') && k' != k
    ensures ValidKey(k') && Hash(n.level, k) < Overflow
    ensures n.level + 1 <= |k| && n.level + 1 <= |k'|
    ensures Fits(Singleton(n.level + 1, k', v'), k)
    ensures Hash(n.level, k') == Hash(n.level, k)
    ensures !Contains(n, k)
  {
    var i := Hash(n.level, k);
    var L := n.level;
    assert SlotWF(L, i, n.slots[i]);
    ItemsOfUpdate(n.slots, i, n.slots[i]);
    assert (k', v') in Items(n);
    assert k'[..L] == k[..L];
    assert i < Overflow;
    PrefixStep(k', k, L);
    SingletonWF(L + 1, k', v');
    var one := Singleton(L + 1, k', v');
    assert Fits(one, k) by {
      forall p | p in Items(one)
        ensures L + 1 <= |p.0| && p.0[..L + 1] == k[..L + 1]
      {
        assert p == (k', v');
      }
    }
  }

  /** Inserting into an empty table is the singleton the collision branch builds. */
  lemma SetIntoEmpty<V(!new)>(level: nat, k: string, v: V)
    requires ValidKey(k) && level <= |k|
    ensures WF(EmptyNode<V>(level))
    ensures Set(EmptyNode<V>(level), k, v) == Singleton(level, k, v)
  {
    var e := EmptyNode<V>(level);
    EmptyItems(e.slots);
    assert WF(e) by {
      assert forall j :: 0 <= j < |e.slots| ==> e.slots[j] == Empty;
    }
    assert !Contains(e, k);
  }

  // ---------------------------------------------------------------------------
  // Deletion

  /** The pair the collapse loop of `__delitem__` leaves in the slot: the last
      (for a well-formed table, the only) pair the nested table yields. */
  function Collapse<V>(c: Node<V>): Slot<V>
    requires |Items(c)| > 0
  {
    var ps := Items(c);
    Leaf(ps[|ps| - 1].0, ps[|ps| - 1].1)
  }

  /** `__delitem__`. A missing key raises `KeyError` and leaves the table as
      it was; otherwise the pair is removed, the count drops by one, and a
      nested table left empty is cleared and one left with one pair is
      replaced by that pair. */
  function Delete<V(!new)>(n: Node<V>, k: string): (r: Result<Node<V>>)
    requires WF(n)
    ensures r.Ok? <==> Contains(n, k)
    ensures r.Ok? ==> WF(r.value) && r.value.level == n.level && r.value.count == n.count - 1
    ensures r.Ok? ==> forall p :: p in Items(r.value) <==> p in Items(n) && p.0 != k
    decreases n
  {
    var i := Hash(n.level, k);
    assert SlotWF(n.level, i, n.slots[i]);
    match n.slots[i]
    case Empty => Err(KeyError)
    case Nested(c) =>
      (match Delete(c, k)
       case Err(e) => Err(e)
       case Ok(c') =>
         var count := n.count - (c.count - c'.count);
         var s := if c'.count == 0 then Empty else if c'.count == 1 then Collapse(c') else Nested(c');
         var m := Node(n.level, n.slots[i := s], count);
         DeleteSlot(n, k, c, c', s, m);
         assert forall p :: p in Items(m) <==> p in Items(n) && p.0 != k;
         Ok(m))
    case Leaf(k', _) =>
      if k' == k then
        var m := Node(n.level, n.slots[i := Empty], n.count - 1);
        DeleteLeaf(n, k, m);
        assert forall p :: p in Items(m) <==> p in Items(n) && p.0 != k;
        Ok(m)
      else Err(KeyError)
  }

  /** The bookkeeping of the leaf branch of `Delete`. */
  lemma DeleteLeaf<V>(n: Node<V>, k: string, r: Node<V>)
    requires WF(n) && n.slots[Hash(n.level, k)].Leaf? && n.slots[Hash(n.level, k)].key == k
    requires r == Node(n.level, n.slots[Hash(n.level, k) := Empty], n.count - 1)
    ensures WF(r)
    ensures forall p :: p in Items(r) <==> p in Items(n) && p.0 != k
  {
    var i := Hash(n.level, k);
    ReplaceSlot(n, i, Empty, n.count - 1);
    forall p
      ensures p in Items(r) <==> p in Items(n) && p.0 != k
    {
      if p in Items(n) && p.0 != k && Hash(n.level, p.0) == i {
        ItemsRouted(n, p);
      }
    }
  }

  lemma KeptWasPresent<V>(c: Node<V>, c': Node<V>, k: string, p: (string, V))
    requires forall p :: p in Items(c') <==> p in Items(c) && p.0 != k
    requires p in Items(c')
    ensures p in Items(c)
  {
  }

  /** The bookkeeping of the nested branch of `Delete`. */
  lemma DeleteSlot<V>(n: Node<V>, k: string, c: Node<V>, c': Node<V>, s: Slot<V>, r: Node<V>)
    requires WF(n) && n.slots[Hash(n.level, k)] == Nested(c)
    requires WF(c') && c'.level == c.level && c'.count == c.count - 1
    requires forall p :: p in Items(c') <==> p in Items(c) && p.0 != k
    requires s == if c'.count == 0 then Empty else if c'.count == 1 then Collapse(c') else Nested(c')
    requires r == Node(n.level, n.slots[Hash(n.level, k) := s], n.count - (c.count - c'.count))
    ensures WF(r)
    ensures forall p :: p in Items(r) <==> p in Items(n) && p.0 != k
  {
    var i := Hash(n.level, k);
    assert SlotWF(n.level, i, n.slots[i]);
    assert SlotItems(n.slots[i]) == Items(c);
    assert forall p :: p in Items(c) ==> Hash(n.level, p.0) == i;
    ItemsOfUpdate(n.slots, i, n.slots[i]);
    assert |SlotItems(s)| == c'.count && forall p :: p in SlotItems(s) <==> p in Items(c') by {
      if c'.count == 1 {
        assert |Items(c')| == 1;
        assert Items(c') == [(Items(c')[0].0, Items(c')[0].1)];
      }
    }
    if c'.count == 0 {
    } else if c'.count == 1 {
      var p := Items(c')[0];
      assert p in Items(c);
      ItemsRouted(c, p);
      assert SlotWF(n.level, i, s);
    } else {
      assert s == Nested(c');
      forall p | p in SlotItems(s)
        ensures Hash(n.level, p.0) == i
      {
        assert p in Items(c');
        assert p in Items(c');
        KeptWasPresent(c, c', k, p);
      }
      assert SlotWF(n.level, i, s);
    }
    ReplaceSlot(n, i, s, r.count);
    forall p
      ensures p in Items(r) <==> p in Items(n) && p.0 != k
    {
      if p in Items(n) && p.0 != k && Hash(n.level, p.0) == i {
        ItemsRouted(n, p);
      }
    }
  }

  /** After a successful delete the key is gone and every other key reads as before. */
  lemma DeleteThenGet<V(!new)>(n: Node<V>, k: string, k': string)
    requires WF(n) && Delete(n, k).Ok?
    ensures !Contains(Delete(n, k).value, k)
    ensures k' != k ==> Get(Delete(n, k).value, k') == Get(n, k')
  {
    var r := Delete(n, k).value;
    if Contains(r, k) {
      GetMatchesItems(r, k, Get(r, k).value);
      assert false;
    }
    if k' != k {
      SameItemsSameGet(n, r, k');
    }
  }

  /** Two well-formed tables holding the same pairs under `k` read `k` alike. */
  lemma SameItemsSameGet<V>(a: Node<V>, b: Node<V>, k: string)
    requires WF(a) && WF(b)
    requires forall v :: (k, v) in Items(a) <==> (k, v) in Items(b)
    ensures Get(a, k) == Get(b, k)
  {
    if Get(a, k).Ok? {
      GetMatchesItems(a, k, Get(a, k).value);
      GetMatchesItems(b, k, Get(a, k).value);
    } else if Get(b, k).Ok? {
      GetMatchesItems(b, k, Get(b, k).value);
      GetMatchesItems(a, k, Get(b, k).value);
    }
  }

  /** Round trip: after `t[k] = v`, `t[k]` is `v`, and every other key reads as before. */
  lemma SetThenGet<V(!new)>(n: Node<V>, k: string, v: V, k': string)
    requires WF(n) && ValidKey(k) && Fits(n, k)
    ensures Get(Set(n, k, v), k) == Ok(v)
    ensures k' != k ==> Get(Set(n, k, v), k') == Get(n, k')
  {
    var r := Set(n, k, v);
    GetMatchesItems(r, k, v);
    if k' != k {
      SameItemsSameGet(n, r, k');
    }
  }

  // ---------------------------------------------------------------------------
  // Locations and key listings

  /** The slot reached by following `path` down from `n`, if there is one. */
  function SlotAt<V>(n: Node<V>, path: seq<nat>): Option<Slot<V>>
    decreases n
  {
    if |path| == 0 || path[0] >= |n.slots| then None
    else if |path| == 1 then Some(n.slots[path[0]])
    else match n.slots[path[0]]
      case Nested(c) => SlotAt(c, path[1..])
      case _ => None
  }

  /** `get_location`: the slot index chosen at every level walked down, ending at
      the slot that holds the key; `KeyError` on reaching an empty slot or a
      pair with another key. */
  function GetLocation<V>(n: Node<V>, k: string): (r: Result<seq<nat>>)
    requires WF(n)
    ensures r.Ok? <==> Contains(n, k)
    ensures r.Ok? ==> |r.value| >= 1 && forall j :: 0 <= j < |r.value| ==> r.value[j] == Hash(n.level + j, k)
    ensures r.Ok? ==> SlotAt(n, r.value) == Some(Leaf(k, Get(n, k).value))
    decreases n
  {
    var pos := Hash(n.level, k);
    assert SlotWF(n.level, pos, n.slots[pos]);
    match n.slots[pos]
    case Nested(c) =>
      (match GetLocation(c, k)
       case Err(e) => Err(e)
       case Ok(rest) =>
         assert ([pos] + rest)[1..] == rest;
         Ok([pos] + rest))
    case Leaf(k', _) => if k' != k then Err(KeyError) else Ok([pos])
    case Empty => Err(KeyError)
  }

  /** `__len__`. */
  function Len<V>(n: Node<V>): int
  {
    n.count
  }

  /** `_gather_keys`: the keys, slot by slot, nested tables expanded in place. */
  function SlotKeys<V>(s: Slot<V>): seq<string>
    decreases s
  {
    match s
    case Empty => []
    case Leaf(k, _) => [k]
    case Nested(c) => KeysOf(c.slots)
  }

  function KeysOf<V>(ss: seq<Slot<V>>): seq<string>
    decreases ss
  {
    if |ss| == 0 then [] else SlotKeys(ss[0]) + KeysOf(ss[1..])
  }

  function GatherKeys<V>(n: Node<V>): seq<string>
  {
    KeysOf(n.slots)
  }

  function Firsts<V>(ps: seq<(string, V)>): seq<string>
  {
    seq(|ps|, j requires 0 <= j < |ps| => ps[j].0)
  }

  lemma FirstsConcat<V>(a: seq<(string, V)>, b: seq<(string, V)>)
    ensures Firsts(a + b) == Firsts(a) + Firsts(b)
  {
  }

  /** `_gather_keys` lists the keys of `items()`, in the same order. */
  lemma {:induction false} GatherKeysAreItemKeys<V>(ss: seq<Slot<V>>)
    ensures KeysOf(ss) == Firsts(ItemsOf(ss))
    decreases ss
  {
    if |ss| > 0 {
      SlotKeysAreItemKeys(ss[0]);
      GatherKeysAreItemKeys(ss[1..]);
      FirstsConcat(SlotItems(ss[0]), ItemsOf(ss[1..]));
    }
  }

  lemma {:induction false} SlotKeysAreItemKeys<V>(s: Slot<V>)
    ensures SlotKeys(s) == Firsts(SlotItems(s))
    decreases s
  {
    match s
    case Nested(c) =>
      GatherKeysAreItemKeys(c.slots);
    case _ =>
  }

  /** `sort_keys`: every stored key, in Python's string order. */
  function SortKeys<V>(n: Node<V>): (r: seq<string>)
    ensures Lexicographic.Sorted(r)
    ensures multiset(r) == multiset(Firsts(Items(n)))
  {
    GatherKeysAreItemKeys(n.slots);
    Lexicographic.Sort(GatherKeys(n))
  }

  /** A well-formed table stores each key at most once, so its count is the
      number of distinct keys. */
  lemma {:induction false} KeysDistinct<V>(n: Node<V>)
    requires WF(n)
    ensures forall a, b :: 0 <= a < b < |Items(n)| ==> Items(n)[a].0 != Items(n)[b].0
    decreases n
  {
    forall a, b | 0 <= a < b < |Items(n)|
      ensures Items(n)[a].0 != Items(n)[b].0
    {
      DistinctFrom(n, 0, a, b);
    }
  }

  lemma {:induction false} DistinctFrom<V>(n: Node<V>, from: nat, a: nat, b: nat)
    requires WF(n) && from <= |n.slots|
    requires 0 <= a < b < |ItemsOf(n.slots[from..])|
    ensures ItemsOf(n.slots[from..])[a].0 != ItemsOf(n.slots[from..])[b].0
    decreases n, |n.slots| - from
  {
    var ss := n.slots[from..];
    assert |ss| > 0;
    assert ss[1..] == n.slots[from + 1..];
    var head := SlotItems(ss[0]);
    assert ItemsOf(ss) == head + ItemsOf(ss[1..]);
    assert SlotWF(n.level, from, n.slots[from]);
    if b < |head| {
      match ss[0]
      case Nested(c) =>
        assert c.slots[0..] == c.slots;
        DistinctFrom(c, 0, a, b);
    } else if a >= |head| {
      DistinctFrom(n, from + 1, a - |head|, b - |head|);
    } else {
      var p, q := ItemsOf(ss)[a], ItemsOf(ss)[b];
      assert p in head;
      assert q in ItemsOf(n.slots[from + 1..]);
      LaterSlotDistinct(n, from, p, q);
    }
  }

  /** A pair of slot `from` and a pair of a later slot have different keys. */
  lemma LaterSlotDistinct<V>(n: Node<V>, from: nat, p: (string, V), q: (string, V))
    requires WF(n) && from < |n.slots|
    requires p in SlotItems(n.slots[from]) && q in ItemsOf(n.slots[from + 1..])
    ensures p.0 != q.0
  {
    SlotRouted(n.level, from, n.slots[from], p);
    ItemsOfMember(n.slots[from + 1..], q);
    var j :| 0 <= j < |n.slots[from + 1..]| && q in SlotItems(n.slots[from + 1..][j]);
    assert n.slots[from + 1..][j] == n.slots[from + 1 + j];
    SlotRouted(n.level, from + 1 + j, n.slots[from + 1 + j], q);
  }
}
