/** Why `DoubleKeyTable.__delitem__` keeps every key1 findable. Emptying
    slot `p` can break the probe path of entries further along its cluster;
    the loop that follows empties each slot of that cluster in turn and
    re-inserts its entry. Let `t` be the first slot after `p` that was empty
    before the delete. Each re-inserted entry lands between its home and its
    old slot, never in the part of the cluster still to be visited, so `t`
    stays empty and the loop stops there, within one lap of the array. */
module DoubleKeyDelete {
  import opened Outcomes
  import opened Ring
  import opened PolyHashing
  import SubTables
  import opened DoubleKeyTable
  import opened DoubleKeyLaws

  /** The entries the slots hold. */
  ghost function Entries<V>(a: Slots<V>): set<Entry<V>>
  {
    set q | 0 <= q < |a| && a[q].Some? :: a[q].value
  }

  /** The offset from `p` of the first empty slot at offset `j` or later. */
  ghost function FirstFree<V>(a: Slots<V>, p: nat, j: nat): (d: nat)
    requires |a| >= 2 && p < |a| && j < |a|
    requires exists k :: j <= k < |a| && a[At(p, k, |a|)].None?
    ensures j <= d < |a| && a[At(p, d, |a|)].None?
    ensures forall k :: j <= k < d ==> a[At(p, k, |a|)].Some?
    decreases |a| - j
  {
    if a[At(p, j, |a|)].None? then j else FirstFree(a, p, j + 1)
  }

  /** The array before the delete: `p` holds the entry being removed, the
      first empty slot after it is `d` steps on, and the invariant holds. */
  ghost predicate Before<V>(o: Slots<V>, p: nat, d: nat)
  {
    && |o| >= 2 && p < |o| && o[p].Some?
    && Unique(o) && AllReachable(o)
    && 1 <= d < |o| && o[At(p, d, |o|)].None?
    && forall k :: 1 <= k < d ==> o[At(p, k, |o|)].Some?
  }

  /** The state of the loop about to visit the slot `i` steps after `p`:
      the entries are those of `o` without `p`'s, no key1 repeats, the
      slots still to be visited (and the empty slot ending the cluster) are
      as they were, and every entry outside the part still to be visited is
      findable. */
  ghost predicate WalkInv<V>(o: Slots<V>, p: nat, d: nat, a: Slots<V>, i: nat)
  {
    && |o| >= 2 && |a| == |o| && p < |o| && 1 <= i <= d < |o|
    && Unique(a)
    && Entries(a) == Entries(o[p := None])
    && Occupied(a) + 1 == Occupied(o)
    && (forall k :: i <= k <= d ==> a[At(p, k, |a|)] == o[At(p, k, |a|)])
    && forall q :: 0 <= q < |a| && a[q].Some? && !(i <= Dist(p, q, |a|) < d) ==> Reachable(a, q)
  }

  /** If `x` lies on the probe path of the entry at `z`, the slots from `x`
      to `z` are all occupied, so `z` comes after `x` and before any empty
      slot `t` that follows `x`. */
  lemma PathThrough<V>(a: Slots<V>, z: nat, x: nat, p: nat, t: nat)
    requires |a| >= 2 && z < |a| && x < |a| && p < |a| && t < |a|
    requires a[z].Some? && Reachable(a, z) && a[t].None?
    requires Dist(p, x, |a|) < Dist(p, t, |a|)
    requires Dist(PolyHash(a[z].value.key1, |a|), x, |a|) < Dist(PolyHash(a[z].value.key1, |a|), z, |a|)
    ensures Dist(p, x, |a|) <= Dist(p, z, |a|) < Dist(p, t, |a|)
  {
    var n := |a|;
    var h := PolyHash(a[z].value.key1, n);
    DistSplit(h, x, z, n);
    var run := Dist(x, z, n);
    forall m | 0 <= m <= run ensures a[At(x, m, n)].Some? {
      AtSplit(h, x, m, n);
      if m == run {
        AtDist(h, z, n);
      }
    }
    if Dist(x, t, n) <= run {
      AtDist(x, t, n);
      assert false;
    }
    DistSplit(p, x, t, n);
    AtSplit(p, x, run, n);
    AtDist(x, z, n);
    DistAt(p, Dist(p, x, n) + run, n);
  }

  /** Emptying `p` leaves the loop's starting state. */
  lemma WalkStart<V>(o: Slots<V>, p: nat, d: nat)
    requires Before(o, p, d)
    ensures WalkInv(o, p, d, o[p := None], 1)
  {
    var n := |o|;
    var a := o[p := None];
    var t := At(p, d, n);
    OccupiedUpdate(o, p, None);
    DistAt(p, d, n);
    forall k | 1 <= k <= d ensures a[At(p, k, n)] == o[At(p, k, n)] {
      DistAt(p, k, n);
      assert Dist(p, p, n) == 0;
    }
    forall z | 0 <= z < n && a[z].Some? && !(1 <= Dist(p, z, n) < d) ensures Reachable(a, z) {
      assert z != p && Reachable(o, z);
      var h := PolyHash(o[z].value.key1, n);
      forall m | 0 <= m < Dist(h, z, n) ensures a[At(h, m, n)].Some? {
        if At(h, m, n) == p {
          DistAt(h, m, n);
          PathThrough(o, z, p, p, t);
        }
      }
    }
  }

  /** The loop's move: empty `pos` and write its entry at `q`. */
  function Move<V>(a: Slots<V>, pos: nat, q: nat): (r: Slots<V>)
    requires pos < |a| && q < |a|
    ensures |r| == |a| && r[q] == a[pos]
    ensures forall z :: 0 <= z < |a| && z != pos && z != q ==> r[z] == a[z]
  {
    a[pos := None][q := a[pos]]
  }

  lemma MoveUnique<V>(a: Slots<V>, pos: nat, q: nat)
    requires pos < |a| && q < |a| && a[pos].Some? && (q == pos || a[q].None?)
    requires Unique(a)
    ensures Unique(Move(a, pos, q))
  {
    var b := Move(a, pos, q);
    forall q1, q2 | 0 <= q1 < |b| && 0 <= q2 < |b| && b[q1].Some? && b[q2].Some?
      && b[q1].value.key1 == b[q2].value.key1
      ensures q1 == q2
    {
      var r1 := if q1 == q then pos else q1;
      var r2 := if q2 == q then pos else q2;
      assert a[r1] == b[q1] && a[r2] == b[q2];
    }
  }

  /** A move keeps the same entries and the same number of them. */
  lemma MoveEntries<V>(a: Slots<V>, pos: nat, q: nat)
    requires pos < |a| && q < |a| && a[pos].Some? && (q == pos || a[q].None?)
    ensures Entries(Move(a, pos, q)) == Entries(a)
    ensures Occupied(Move(a, pos, q)) == Occupied(a)
  {
    var b := Move(a, pos, q);
    forall x | x in Entries(b) ensures x in Entries(a) {
      var z :| 0 <= z < |b| && b[z].Some? && b[z].value == x;
      var w := if z == q then pos else z;
      assert a[w] == b[z];
    }
    forall x | x in Entries(a) ensures x in Entries(b) {
      var z :| 0 <= z < |a| && a[z].Some? && a[z].value == x;
      var w := if z == pos then q else z;
      assert b[w] == a[z];
    }
    OccupiedUpdate(a, pos, None);
    OccupiedUpdate(a[pos := None], q, a[pos]);
  }

  /** Re-inserting the entry at `pos` stops at an empty slot (or `pos`
      itself) no further from the key's home than `pos`, after a run of
      occupied slots. */
  lemma Landing<V>(a: Slots<V>, pos: nat, q: nat)
    requires |a| >= 2 && pos < |a| && a[pos].Some? && Unique(a)
    requires Position(a[pos := None], a[pos].value.key1, true) == Ok(q)
    ensures q == pos || a[q].None?
    ensures var h := PolyHash(a[pos].value.key1, |a|);
      && Dist(h, q, |a|) <= Dist(h, pos, |a|)
      && forall m :: 0 <= m < Dist(h, q, |a|) ==> a[At(h, m, |a|)].Some?
  {
    var n := |a|;
    var k := a[pos].value.key1;
    var h := PolyHash(k, n);
    var cleared := a[pos := None];
    var found := Probe(cleared, k);
    if found.Found? {
      assert false;
    }
    assert found == Free(q);
    if Dist(h, pos, n) < Dist(h, q, n) {
      AtDist(h, pos, n);
      assert false;
    }
    forall m | 0 <= m < Dist(h, q, n) ensures a[At(h, m, n)].Some? {
      assert cleared[At(h, m, n)].Some?;
    }
  }

  /** The entry moved to `q` is findable there. */
  lemma ReachMoved<V>(a: Slots<V>, pos: nat, q: nat)
    requires |a| >= 2 && pos < |a| && q < |a| && a[pos].Some? && (q == pos || a[q].None?)
    requires var h := PolyHash(a[pos].value.key1, |a|);
      forall m :: 0 <= m < Dist(h, q, |a|) ==> a[At(h, m, |a|)].Some?
    requires var h := PolyHash(a[pos].value.key1, |a|);
      Dist(h, q, |a|) <= Dist(h, pos, |a|)
    ensures Reachable(Move(a, pos, q), q)
  {
    var n := |a|;
    var b := Move(a, pos, q);
    var h := PolyHash(a[pos].value.key1, n);
    forall m | 0 <= m < Dist(h, q, n) ensures b[At(h, m, n)].Some? {
      DistAt(h, m, n);
      if At(h, m, n) == pos {
        assert false;
      }
    }
  }

  /** An entry findable before the move, whose path does not run through
      `pos`, stays findable. */
  lemma ReachOther<V>(a: Slots<V>, pos: nat, q: nat, p: nat, t: nat, z: nat)
    requires |a| >= 2 && pos < |a| && q < |a| && p < |a| && t < |a| && z < |a|
    requires a[pos].Some? && (q == pos || a[q].None?) && a[t].None?
    requires z != pos && z != q && a[z].Some? && Reachable(a, z)
    requires Dist(p, pos, |a|) < Dist(p, t, |a|)
    requires !(Dist(p, pos, |a|) <= Dist(p, z, |a|) < Dist(p, t, |a|))
    ensures Reachable(Move(a, pos, q), z)
  {
    var n := |a|;
    var b := Move(a, pos, q);
    assert b[z] == a[z];
    var hz := PolyHash(a[z].value.key1, n);
    forall m | 0 <= m < Dist(hz, z, n) ensures b[At(hz, m, n)].Some? {
      if At(hz, m, n) == pos {
        DistAt(hz, m, n);
        PathThrough(a, z, pos, p, t);
        assert false;
      }
    }
  }

  /** One turn of the loop keeps its invariant: the entry at offset `i` is
      re-inserted at a slot that is not among those still to be visited. */
  lemma WalkStep<V>(o: Slots<V>, p: nat, d: nat, a: Slots<V>, i: nat, q: nat)
    requires Before(o, p, d) && WalkInv(o, p, d, a, i) && i < d
    requires a[At(p, i, |a|)].Some?
    requires Position(a[At(p, i, |a|) := None], a[At(p, i, |a|)].value.key1, true) == Ok(q)
    ensures WalkInv(o, p, d, Move(a, At(p, i, |a|), q), i + 1)
  {
    var n := |a|;
    var pos := At(p, i, n);
    var b := Move(a, pos, q);
    LandsOutside(o, p, d, a, i, q);
    Landing(a, pos, q);
    MoveUnique(a, pos, q);
    MoveEntries(a, pos, q);
    forall k | i + 1 <= k <= d ensures b[At(p, k, n)] == o[At(p, k, n)] {
      DistAt(p, k, n);
    }
    StepKeepsReachable(o, p, d, a, i, q);
  }

  /** The slot an entry is re-inserted at lies outside the offsets still to
      be visited: the old probe path to it avoided the empty slot at `d`. */
  lemma LandsOutside<V>(o: Slots<V>, p: nat, d: nat, a: Slots<V>, i: nat, q: nat)
    requires Before(o, p, d) && WalkInv(o, p, d, a, i) && i < d
    requires a[At(p, i, |a|)].Some?
    requires Position(a[At(p, i, |a|) := None], a[At(p, i, |a|)].value.key1, true) == Ok(q)
    ensures q < |a| && (Dist(p, q, |a|) <= i || d < Dist(p, q, |a|))
  {
    var n := |a|;
    var pos := At(p, i, n);
    var h := PolyHash(a[pos].value.key1, n);
    var t := At(p, d, n);
    DistAt(p, i, n);
    DistAt(p, d, n);
    Landing(a, pos, q);
    assert o[pos] == a[pos] && Reachable(o, pos);
    assert o[t].None?;
    forall m | 0 <= m < Dist(h, pos, n) ensures At(h, m, n) != t {
      assert o[At(h, m, n)].Some?;
    }
    AvoidingWalk(p, h, pos, t, Dist(h, q, n), n);
    AtDist(h, q, n);
  }

  /** After one turn every entry outside the offsets still to be visited is
      findable. */
  lemma StepKeepsReachable<V>(o: Slots<V>, p: nat, d: nat, a: Slots<V>, i: nat, q: nat)
    requires Before(o, p, d) && WalkInv(o, p, d, a, i) && i < d
    requires a[At(p, i, |a|)].Some?
    requires Position(a[At(p, i, |a|) := None], a[At(p, i, |a|)].value.key1, true) == Ok(q)
    requires q < |a| && (Dist(p, q, |a|) <= i || d < Dist(p, q, |a|))
    ensures var b := Move(a, At(p, i, |a|), q);
      forall z :: 0 <= z < |b| && b[z].Some? && !(i + 1 <= Dist(p, z, |b|) < d) ==> Reachable(b, z)
  {
    var n := |a|;
    var pos := At(p, i, n);
    var t := At(p, d, n);
    var b := Move(a, pos, q);
    DistAt(p, i, n);
    DistAt(p, d, n);
    Landing(a, pos, q);
    assert a[t].None?;
    forall z | 0 <= z < n && b[z].Some? && !(i + 1 <= Dist(p, z, n) < d) ensures Reachable(b, z) {
      if z == q {
        ReachMoved(a, pos, q);
      } else {
        assert b[z] == a[z] && z != pos;
        if Dist(p, z, n) == i {
          AtDist(p, z, n);
        }
        ReachOther(a, pos, q, p, t, z);
      }
    }
  }

  /** The entries of `o` other than the one at `p`, each findable, no key1
      repeated. */
  ghost predicate After<V>(o: Slots<V>, p: nat, b: Slots<V>)
  {
    && |o| >= 2 && p < |o| && |b| == |o|
    && Unique(b) && AllReachable(b) && Occupied(b) + 1 == Occupied(o)
    && Entries(b) == Entries(o[p := None])
  }

  /** One turn of the loop: the entry at `pos` is re-inserted at `q`. */
  ghost predicate Turn<V>(a: Slots<V>, pos: nat, q: nat, b: Slots<V>)
  {
    && |a| >= 2 && pos < |a| && q < |a| && a[pos].Some?
    && Position(a[pos := None], a[pos].value.key1, true) == Ok(q)
    && b == Move(a, pos, q)
  }

  /** The states the loop passes through: `run[k]` at position `ps[k]`,
      each turn moving the entry there to `qs[k]`. */
  ghost predicate Chain<V>(run: seq<Slots<V>>, ps: seq<nat>, qs: seq<nat>)
    decreases |qs|
  {
    && |run| == |ps| == |qs| + 1
    && (|qs| > 0 ==>
          && Turn(run[0], ps[0], qs[0], run[1])
          && ps[1] == (ps[0] + 1) % |run[0]|
          && Chain(run[1..], ps[1..], qs[1..]))
  }

  /** A turn followed by a chain is a chain. */
  lemma ChainCons<V>(a: Slots<V>, pos: nat, q: nat, run': seq<Slots<V>>, ps': seq<nat>, qs': seq<nat>)
    returns (run: seq<Slots<V>>, ps: seq<nat>, qs: seq<nat>)
    requires Chain(run', ps', qs') && Turn(a, pos, q, run'[0]) && ps'[0] == (pos + 1) % |a|
    ensures run == [a] + run' && ps == [pos] + ps' && qs == [q] + qs'
    ensures Chain(run, ps, qs) && |qs| == |qs'| + 1
    ensures run[|run| - 1] == run'[|run'| - 1] && ps[|ps| - 1] == ps'[|ps'| - 1]
  {
    run, ps, qs := [a] + run', [pos] + ps', [q] + qs';
    assert run[1..] == run' && ps[1..] == ps' && qs[1..] == qs';
  }

  /** One turn of the loop, unfolded. */
  lemma WalkTurn<V>(a: Slots<V>, pos: nat, fuel: nat, q: nat)
    requires |a| >= 2 && pos < |a| && fuel > 0 && a[pos].Some?
    requires Position(a[pos := None], a[pos].value.key1, true) == Ok(q)
    ensures Walk(a, pos, fuel) == Walk(Move(a, pos, q), (pos + 1) % |a|, fuel - 1)
  {
    var cleared := a[pos := None];
    assert cleared[pos].None?;
    assert !Full(cleared, a[pos].value.key1);
  }

  /** `Walk` follows a chain that ends at an empty slot, given fuel for
      every turn. */
  lemma {:induction false} ChainWalk<V>(run: seq<Slots<V>>, ps: seq<nat>, qs: seq<nat>, fuel: nat)
    requires Chain(run, ps, qs) && fuel >= |qs|
    requires |run[0]| >= 2 && ps[0] < |run[0]|
    requires ps[|ps| - 1] < |run[|run| - 1]| && run[|run| - 1][ps[|ps| - 1]].None?
    ensures Walk(run[0], ps[0], fuel) == (run[|run| - 1], ps[|ps| - 1])
    decreases |qs|
  {
    if |qs| == 0 {
      WalkStops(run[0], ps[0], fuel);
    } else {
      var run', ps', qs' := run[1..], ps[1..], qs[1..];
      WalkTurn(run[0], ps[0], fuel, qs[0]);
      assert Move(run[0], ps[0], qs[0]) == run'[0];
      assert (ps[0] + 1) % |run[0]| == ps'[0];
      assert Walk(run[0], ps[0], fuel) == Walk(run'[0], ps'[0], fuel - 1);
      assert run'[|run'| - 1] == run[|run| - 1] && ps'[|ps'| - 1] == ps[|ps| - 1];
      ChainWalk(run', ps', qs', fuel - 1);
    }
  }

  /** One turn of the loop, from offset `i`, in terms of the invariant. */
  lemma WalkOnce<V>(o: Slots<V>, p: nat, d: nat, a: Slots<V>, i: nat, pos: nat)
    returns (q: nat, b: Slots<V>)
    requires Before(o, p, d) && WalkInv(o, p, d, a, i) && i < d && pos == At(p, i, |o|)
    ensures Turn(a, pos, q, b) && WalkInv(o, p, d, b, i + 1)
    ensures (pos + 1) % |a| == At(p, i + 1, |o|)
  {
    var n := |a|;
    assert a[pos] == o[pos];
    var cleared := a[pos := None];
    assert cleared[pos].None?;
    assert !Full(cleared, a[pos].value.key1);
    q := Position(cleared, a[pos].value.key1, true).value;
    WalkStep(o, p, d, a, i, q);
    NextAt(p, i, n);
    b := Move(a, pos, q);
  }

  /** The loop, started one slot after `p`, passes through states that end
      at the first slot that was empty before the delete, `d - i` turns on,
      leaving the entries of `o` other than `p`'s, each findable, no key1
      repeated. */
  lemma {:induction false} WalkRestores<V>(o: Slots<V>, p: nat, d: nat, a: Slots<V>, i: nat, pos: nat)
    returns (run: seq<Slots<V>>, ps: seq<nat>, qs: seq<nat>)
    requires Before(o, p, d) && WalkInv(o, p, d, a, i) && pos == At(p, i, |o|)
    ensures Chain(run, ps, qs) && |qs| == d - i && run[0] == a && ps[0] == pos
    ensures ps[|ps| - 1] == At(p, d, |o|) && |run[|run| - 1]| == |o|
    ensures run[|run| - 1][ps[|ps| - 1]].None? && After(o, p, run[|run| - 1])
    decreases d - i
  {
    if i < d {
      var q, next := WalkOnce(o, p, d, a, i, pos);
      var run', ps', qs' := WalkRestores(o, p, d, next, i + 1, (pos + 1) % |a|);
      run, ps, qs := ChainCons(a, pos, q, run', ps', qs');
    } else {
      assert a[pos] == o[pos];
      WalkDone(o, p, d, a);
      run, ps, qs := [a], [pos], [];
    }
  }

  /** The loop ends at an empty slot. */
  lemma WalkStops<V>(a: Slots<V>, pos: nat, fuel: nat)
    requires |a| >= 2 && pos < |a| && a[pos].None?
    ensures Walk(a, pos, fuel) == (a, pos)
  {
  }

  /** Once the loop reaches the empty slot, nothing is left to visit. */
  lemma WalkDone<V>(o: Slots<V>, p: nat, d: nat, a: Slots<V>)
    requires WalkInv(o, p, d, a, d)
    ensures After(o, p, a)
  {
  }

  /** The offset from `p` of the first slot after it that is empty, in a
      table with a free slot. */
  ghost function Gap<V>(t: Table<V>, p: nat): (d: nat)
    requires Inv(t) && t.count < |t.slots| && p < |t.slots| && t.slots[p].Some?
    ensures Before(t.slots, p, d)
  {
    var o := t.slots;
    var n := |o|;
    OccupiedBelowSize(o);
    var z :| 0 <= z < n && o[z].None?;
    AtDist(p, z, n);
    FirstFree(o, p, 1)
  }

  /** Emptying slot `p` and running the loop from the next slot, with the
      whole array as fuel, leaves every other entry findable. */
  lemma EmptySlot<V>(t: Table<V>, p: nat)
    requires Inv(t) && t.count < |t.slots| && p < |t.slots| && t.slots[p].Some?
    ensures After(t.slots, p, Walk(t.slots[p := None], (p + 1) % |t.slots|, |t.slots|).0)
  {
    var o := t.slots;
    var n := |o|;
    var d := Gap(t, p);
    WalkStart(o, p, d);
    NextAt(p, 0, n);
    var run, ps, qs := WalkRestores(o, p, d, o[p := None], 1, (p + 1) % n);
    ChainWalk(run, ps, qs, n);
  }

  /** The two shapes a successful delete takes. */
  lemma DeleteCases<V(!new)>(t: Table<V>, key1: string, key2: string)
    requires Shaped(t) && Delete(t, key1, key2).Ok?
    ensures Position(t.slots, key1, false).Ok?
    ensures var p := Position(t.slots, key1, false).value;
      && p < |t.slots| && t.slots[p].Some? && t.slots[p].value.key1 == key1
      && SubTables.Remove(t.slots[p].value.sub, key2).Ok?
      && var sub := SubTables.Remove(t.slots[p].value.sub, key2).value;
      && (SubTables.IsEmpty(sub) ==>
           Delete(t, key1, key2).value.slots == Walk(t.slots[p := None], (p + 1) % |t.slots|, |t.slots|).0)
      && (!SubTables.IsEmpty(sub) ==>
           Delete(t, key1, key2).value.slots == t.slots[p := Some(Entry(key1, sub))])
  {
  }

  /** Entries drawn from `o` keep `o`'s valid, non-empty sub-tables. */
  lemma EntriesKeepGroups<V>(b: Slots<V>, o: Slots<V>, p: nat)
    requires p < |o| && GroupsNonEmpty(o) && Entries(b) == Entries(o[p := None])
    ensures GroupsNonEmpty(b)
  {
    forall z | 0 <= z < |b| && b[z].Some?
      ensures SubTables.Valid(b[z].value.sub) && !SubTables.IsEmpty(b[z].value.sub)
    {
      var w := EntryFrom(b, o[p := None], z);
      assert o[w] == b[z];
    }
  }

  /** Where an entry of `b` sits in `c`, when both hold the same entries. */
  lemma EntryFrom<V>(b: Slots<V>, c: Slots<V>, z: nat) returns (w: nat)
    requires Entries(b) == Entries(c) && z < |b| && b[z].Some?
    ensures w < |c| && c[w] == b[z]
  {
    assert b[z].value in Entries(b);
    w :| 0 <= w < |c| && c[w].Some? && c[w].value == b[z].value;
  }

  /** After a delete (in a table with a free slot) the invariant holds
      again. */
  lemma DeleteKeepsInv<V(!new)>(t: Table<V>, key1: string, key2: string)
    requires Inv(t) && t.count < |t.slots| && Delete(t, key1, key2).Ok?
    ensures Inv(Delete(t, key1, key2).value)
  {
    var o := t.slots;
    var n := |o|;
    var r := Delete(t, key1, key2).value;
    DeleteCases(t, key1, key2);
    var p := Position(o, key1, false).value;
    var sub := SubTables.Remove(o[p].value.sub, key2).value;
    GroupAt(t, p);
    if SubTables.IsEmpty(sub) {
      EmptySlot(t, p);
      EntriesKeepGroups(r.slots, o, p);
    } else {
      ShrinkKeepsInv(t, key1, key2);
    }
  }

  /** A delete that leaves its sub-table non-empty keeps the invariant, full
      table or not: only that slot's sub-table changes. */
  lemma ShrinkKeepsInv<V(!new)>(t: Table<V>, key1: string, key2: string)
    requires Inv(t) && Delete(t, key1, key2).Ok? && GroupOf(t, key1).Some?
    requires !SubTables.IsEmpty(SubTables.Remove(GroupOf(t, key1).value, key2).value)
    ensures Inv(Delete(t, key1, key2).value)
  {
    var o := t.slots;
    var n := |o|;
    var r := Delete(t, key1, key2).value;
    DeleteCases(t, key1, key2);
    var p := Position(o, key1, false).value;
    var sub := SubTables.Remove(o[p].value.sub, key2).value;
    GroupAt(t, p);
    OccupiedUpdate(o, p, Some(Entry(key1, sub)));
    assert Unique(r.slots) by {
      forall q1, q2 | 0 <= q1 < n && 0 <= q2 < n && r.slots[q1].Some? && r.slots[q2].Some?
        && r.slots[q1].value.key1 == r.slots[q2].value.key1
        ensures q1 == q2
      {
        assert o[q1].value.key1 == r.slots[q1].value.key1;
        assert o[q2].value.key1 == r.slots[q2].value.key1;
      }
    }
    assert AllReachable(r.slots) by {
      forall z | 0 <= z < n && r.slots[z].Some? ensures Reachable(r.slots, z) {
        assert Reachable(o, z);
        assert o[z].value.key1 == r.slots[z].value.key1;
      }
    }
  }

  /** No entry drawn from `o` without slot `p` has `p`'s key1. */
  lemma KeyGone<V>(b: Slots<V>, o: Slots<V>, p: nat)
    requires p < |o| && o[p].Some? && Unique(o) && Entries(b) == Entries(o[p := None])
    ensures forall z :: 0 <= z < |b| && b[z].Some? ==> b[z].value.key1 != o[p].value.key1
  {
    forall z | 0 <= z < |b| && b[z].Some? ensures b[z].value.key1 != o[p].value.key1 {
      var w := EntryFrom(b, o[p := None], z);
      assert w != p && o[w] == b[z];
    }
  }

  /** Reading `k1` (not the deleted slot's key) from the entries left by
      emptying slot `p` finds what it found before. */
  lemma OtherGroupKept<V>(t: Table<V>, r: Table<V>, p: nat, k1: string)
    requires Inv(t) && Inv(r) && p < |t.slots| && t.slots[p].Some? && t.slots[p].value.key1 != k1
    requires Entries(r.slots) == Entries(t.slots[p := None])
    ensures GroupOf(r, k1) == GroupOf(t, k1)
  {
    var o := t.slots;
    var n := |o|;
    if exists z :: 0 <= z < n && o[z].Some? && o[z].value.key1 == k1 {
      var z :| 0 <= z < n && o[z].Some? && o[z].value.key1 == k1;
      assert o[p := None][z] == o[z];
      var w := EntryFrom(o[p := None], r.slots, z);
      GroupAt(t, z);
      GroupAt(r, w);
    } else {
      GroupAbsent(t, k1);
      forall z | 0 <= z < |r.slots| && r.slots[z].Some? ensures r.slots[z].value.key1 != k1 {
        var w := EntryFrom(r.slots, o[p := None], z);
        assert o[w] == r.slots[z];
      }
      GroupAbsent(r, k1);
    }
  }

  /** After a delete that empties its sub-table, `key1` is gone and every
      other key1 finds the sub-table it found before. */
  lemma EmptiedGroups<V(!new)>(t: Table<V>, key1: string, key2: string, k1: string)
    requires Inv(t) && t.count < |t.slots| && Delete(t, key1, key2).Ok?
    requires GroupOf(t, key1).Some?
    requires SubTables.IsEmpty(SubTables.Remove(GroupOf(t, key1).value, key2).value)
    ensures GroupOf(Delete(t, key1, key2).value, k1) == if k1 == key1 then None else GroupOf(t, k1)
  {
    var o := t.slots;
    var r := Delete(t, key1, key2).value;
    DeleteKeepsInv(t, key1, key2);
    DeleteCases(t, key1, key2);
    var p := Position(o, key1, false).value;
    GroupAt(t, p);
    EmptySlot(t, p);
    if k1 == key1 {
      KeyGone(r.slots, o, p);
      GroupAbsent(r, key1);
    } else {
      OtherGroupKept(t, r, p, k1);
    }
  }

  /** After a delete that leaves its sub-table non-empty, `key1` finds the
      smaller sub-table and every other key1 what it found before. */
  lemma ShrunkGroups<V(!new)>(t: Table<V>, key1: string, key2: string, k1: string)
    requires Inv(t) && Delete(t, key1, key2).Ok?
    requires GroupOf(t, key1).Some?
    requires !SubTables.IsEmpty(SubTables.Remove(GroupOf(t, key1).value, key2).value)
    ensures GroupOf(Delete(t, key1, key2).value, k1) ==
      if k1 == key1 then Some(SubTables.Remove(GroupOf(t, key1).value, key2).value) else GroupOf(t, k1)
  {
    var o := t.slots;
    var n := |o|;
    var r := Delete(t, key1, key2).value;
    ShrinkKeepsInv(t, key1, key2);
    DeleteCases(t, key1, key2);
    var p := Position(o, key1, false).value;
    GroupAt(t, p);
    GroupAt(r, p);
    if k1 != key1 {
      if exists z :: 0 <= z < n && o[z].Some? && o[z].value.key1 == k1 {
        var z :| 0 <= z < n && o[z].Some? && o[z].value.key1 == k1;
        GroupAt(t, z);
        GroupAt(r, z);
      } else {
        GroupAbsent(t, k1);
        GroupAbsent(r, k1);
      }
    }
  }

  /** After `del t[key1, key2]` (in a table with a free slot) the pair is
      gone and every other pair reads as before. */
  lemma DeleteThenGet<V(!new)>(t: Table<V>, key1: string, key2: string, k1: string, k2: string)
    requires Inv(t) && t.count < |t.slots| && Delete(t, key1, key2).Ok?
    ensures Get(Delete(t, key1, key2).value, key1, key2) == Err(KeyError)
    ensures (k1, k2) != (key1, key2) ==> Get(Delete(t, key1, key2).value, k1, k2) == Get(t, k1, k2)
  {
    var r := Delete(t, key1, key2).value;
    DeleteCases(t, key1, key2);
    var p := Position(t.slots, key1, false).value;
    GroupAt(t, p);
    var old_sub := GroupOf(t, key1).value;
    var sub := SubTables.Remove(old_sub, key2).value;
    SubTables.RemoveThenLookup(old_sub, key2, k2);
    if SubTables.IsEmpty(sub) {
      EmptiedGroups(t, key1, key2, key1);
      EmptiedGroups(t, key1, key2, k1);
    } else {
      ShrunkGroups(t, key1, key2, key1);
      ShrunkGroups(t, key1, key2, k1);
    }
  }
}
