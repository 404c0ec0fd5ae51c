/** `ComputerManager`: a list of computers, kept in insertion order, with
    lookups by hacking difficulty. Removal follows `list.remove`: the first
    equal computer goes, and a missing one is a `ValueError`. */
module ComputerManagers {
  import opened Outcomes
  import opened Computers

  datatype Manager = Manager(computers: seq<Computer>)

  function New(): (m: Manager)
    ensures |m.computers| == 0
  {
    Manager([])
  }

  /** `add_computer`: appended at the end, everything else where it was. */
  function Add(m: Manager, c: Computer): (r: Manager)
    ensures |r.computers| == |m.computers| + 1
    ensures r.computers[..|m.computers|] == m.computers && r.computers[|m.computers|] == c
    ensures multiset(r.computers) == multiset(m.computers) + multiset{c}
  {
    Manager(m.computers + [c])
  }

  /** Position of the first computer equal to `c`. */
  function FirstIndex(s: seq<Computer>, c: Computer): (i: nat)
    requires c in s
    ensures i < |s| && s[i] == c && c !in s[..i]
  {
    if s[0] == c then 0
    else
      var j := FirstIndex(s[1..], c);
      assert s[..j + 1] == [s[0]] + s[1..][..j];
      j + 1
  }

  /** `remove_computer`: the first equal computer is dropped and the others
      keep their order; `ValueError` when there is none. */
  function Remove(m: Manager, c: Computer): (r: Result<Manager>)
    ensures r.Err? <==> c !in m.computers
    ensures r.Err? ==> r.error == ValueError
    ensures r.Ok? ==> exists i | 0 <= i < |m.computers| ::
      m.computers[i] == c && c !in m.computers[..i]
      && r.value.computers == m.computers[..i] + m.computers[i + 1..]
    ensures r.Ok? ==> multiset(r.value.computers) == multiset(m.computers) - multiset{c}
  {
    if c !in m.computers then Err(ValueError)
    else
      var s := m.computers;
      var i := FirstIndex(s, c);
      assert s == s[..i] + [c] + s[i + 1..];
      Ok(Manager(s[..i] + s[i + 1..]))
  }

  /** `edit_computer`: remove the old computer, then append the new one. The
      other computers keep their order, the length is kept, and the new
      computer is last. */
  function Edit(m: Manager, before: Computer, after: Computer): (r: Result<Manager>)
    ensures r.Err? <==> before !in m.computers
    ensures r.Err? ==> r.error == ValueError
    ensures r.Ok? ==> Remove(m, before).Ok? && r.value.computers == Remove(m, before).value.computers + [after]
    ensures r.Ok? ==> |r.value.computers| == |m.computers| && r.value.computers[|m.computers| - 1] == after
    ensures r.Ok? ==> multiset(r.value.computers) == multiset(m.computers) - multiset{before} + multiset{after}
  {
    var m' :- Remove(m, before);
    Ok(Add(m', after))
  }

  /** Adding a computer and removing it again gives back the same multiset;
      when it was not there before, the very same list. */
  lemma AddThenRemove(m: Manager, c: Computer)
    ensures Remove(Add(m, c), c).Ok?
    ensures multiset(Remove(Add(m, c), c).value.computers) == multiset(m.computers)
    ensures c !in m.computers ==> Remove(Add(m, c), c) == Ok(m)
  {
    var s := Add(m, c).computers;
    if c !in m.computers {
      var i := FirstIndex(s, c);
      assert i == |m.computers| by {
        if i < |m.computers| {
          assert false;
        }
      }
      assert s[..i] + s[i + 1..] == m.computers;
    }
  }

  /** Editing a computer into itself moves its first copy to the end. */
  lemma EditSelf(m: Manager, c: Computer)
    requires c in m.computers
    ensures Edit(m, c, c).Ok?
    ensures multiset(Edit(m, c, c).value.computers) == multiset(m.computers)
    ensures Edit(m, c, c).value.computers[|m.computers| - 1] == c
  {
  }

  // ---------------------------------------------------------------------------
  // Lookups by difficulty

  /** `computers_with_difficulty`: the stored computers of that difficulty,
      in stored order. */
  function WithDifficulty(s: seq<Computer>, diff: int): (r: seq<Computer>)
    ensures |r| <= |s|
  {
    if |s| == 0 then []
    else (if s[0].hackingDifficulty == diff then [s[0]] else []) + WithDifficulty(s[1..], diff)
  }

  /** The filter keeps exactly the computers of that difficulty. */
  lemma {:induction false} WithDifficultyMembers(s: seq<Computer>, diff: int)
    ensures forall c :: c in WithDifficulty(s, diff) <==> c in s && c.hackingDifficulty == diff
  {
    if |s| > 0 {
      WithDifficultyMembers(s[1..], diff);
      assert forall c :: c in s <==> c == s[0] || c in s[1..];
    }
  }

  function ComputersWithDifficulty(m: Manager, diff: int): (r: seq<Computer>)
    ensures forall c :: c in r <==> c in m.computers && c.hackingDifficulty == diff
  {
    WithDifficultyMembers(m.computers, diff);
    WithDifficulty(m.computers, diff)
  }

  /** Filtering commutes with concatenation, so it keeps the stored order. */
  lemma {:induction false} WithDifficultyAppend(s: seq<Computer>, t: seq<Computer>, diff: int)
    ensures WithDifficulty(s + t, diff) == WithDifficulty(s, diff) + WithDifficulty(t, diff)
  {
    if |s| > 0 {
      var head := if s[0].hackingDifficulty == diff then [s[0]] else [];
      assert (s + t)[1..] == s[1..] + t;
      assert WithDifficulty(s + t, diff) == head + WithDifficulty(s[1..] + t, diff);
      WithDifficultyAppend(s[1..], t, diff);
      assert WithDifficulty(s, diff) == head + WithDifficulty(s[1..], diff);
    } else {
      assert s + t == t;
    }
  }

  /** A computer added to the manager shows up at the end of its
      difficulty's list and nowhere else. */
  lemma AddThenWithDifficulty(m: Manager, c: Computer, diff: int)
    ensures ComputersWithDifficulty(Add(m, c), diff) ==
      ComputersWithDifficulty(m, diff) + (if c.hackingDifficulty == diff then [c] else [])
  {
    WithDifficultyAppend(m.computers, [c], diff);
  }

  /** The filter keeps every copy of a computer of that difficulty and no
      copy of any other. */
  lemma {:induction false} WithDifficultyCounts(s: seq<Computer>, diff: int, c: Computer)
    ensures multiset(WithDifficulty(s, diff))[c] ==
      if c.hackingDifficulty == diff then multiset(s)[c] else 0
  {
    if |s| > 0 {
      WithDifficultyCounts(s[1..], diff, c);
      assert s == [s[0]] + s[1..];
    }
  }

  // ---------------------------------------------------------------------------
  // Grouping

  /** The difficulties present in `s`. */
  function Difficulties(s: seq<Computer>): set<int>
  {
    set c | c in s :: c.hackingDifficulty
  }

  predicate StrictlyAscending(ds: seq<int>)
  {
    forall i, j :: 0 <= i < j < |ds| ==> ds[i] < ds[j]
  }

  /** `d` placed in an ascending list of distinct values, unless present. */
  function InsertDifficulty(ds: seq<int>, d: int): (r: seq<int>)
    requires StrictlyAscending(ds)
    ensures StrictlyAscending(r)
    ensures forall x :: x in r <==> x in ds || x == d
  {
    if |ds| == 0 then [d]
    else if d < ds[0] then [d] + ds
    else if d == ds[0] then ds
    else
      var rest := InsertDifficulty(ds[1..], d);
      assert forall k :: 0 <= k < |rest| ==> ds[0] < rest[k] by {
        forall k | 0 <= k < |rest| ensures ds[0] < rest[k] {
          assert rest[k] in rest;
          if rest[k] != d {
            var j :| 0 <= j < |ds[1..]| && ds[1..][j] == rest[k];
            assert ds[j + 1] == rest[k];
          }
        }
      }
      [ds[0]] + rest
  }

  /** `sorted(set(difficulties))`: each difficulty present, once, ascending. */
  function SortedDifficulties(s: seq<Computer>): (ds: seq<int>)
    ensures StrictlyAscending(ds)
    ensures forall d :: d in ds <==> d in Difficulties(s)
  {
    if |s| == 0 then []
    else
      assert Difficulties(s) == Difficulties(s[1..]) + {s[0].hackingDifficulty} by {
        assert forall c :: c in s <==> c == s[0] || c in s[1..];
      }
      InsertDifficulty(SortedDifficulties(s[1..]), s[0].hackingDifficulty)
  }

  /** One group per listed difficulty, in the listed order. */
  function Groups(s: seq<Computer>, ds: seq<int>): (gs: seq<seq<Computer>>)
    ensures |gs| == |ds|
    ensures forall i :: 0 <= i < |ds| ==> gs[i] == WithDifficulty(s, ds[i])
  {
    if |ds| == 0 then [] else [WithDifficulty(s, ds[0])] + Groups(s, ds[1..])
  }

  function Flatten(gs: seq<seq<Computer>>): seq<Computer>
  {
    if |gs| == 0 then [] else gs[0] + Flatten(gs[1..])
  }

  /** `group_by_difficulty`: `[]` for an empty manager; otherwise one
      non-empty group per difficulty present, ascending, each holding
      exactly the computers of its difficulty in stored order. */
  function GroupByDifficulty(m: Manager): (gs: seq<seq<Computer>>)
    ensures |m.computers| == 0 ==> gs == []
    ensures forall i :: 0 <= i < |gs| ==> |gs[i]| > 0
    ensures forall i :: 0 <= i < |gs| ==> gs[i] == WithDifficulty(m.computers, gs[i][0].hackingDifficulty)
    ensures forall i, j :: 0 <= i < j < |gs| ==> gs[i][0].hackingDifficulty < gs[j][0].hackingDifficulty
    ensures forall d :: d in Difficulties(m.computers) <==> exists i :: 0 <= i < |gs| && gs[i][0].hackingDifficulty == d
  {
    if |m.computers| == 0 then []
    else
      var ds := SortedDifficulties(m.computers);
      GroupsShape(m.computers, ds);
      Groups(m.computers, ds)
  }

  /** The groups of an ascending list of the difficulties present: each
      non-empty, headed by a computer of its own difficulty. */
  lemma GroupsShape(s: seq<Computer>, ds: seq<int>)
    requires StrictlyAscending(ds)
    requires forall d :: d in ds <==> d in Difficulties(s)
    ensures forall i :: 0 <= i < |ds| ==> |Groups(s, ds)[i]| > 0 && Groups(s, ds)[i][0].hackingDifficulty == ds[i]
    ensures forall d :: d in Difficulties(s) <==> exists i :: 0 <= i < |ds| && Groups(s, ds)[i][0].hackingDifficulty == d
  {
    var gs: seq<seq<Computer>> := Groups(s, ds);
    forall i | 0 <= i < |ds|
      ensures |gs[i]| > 0 && gs[i][0].hackingDifficulty == ds[i]
    {
      assert ds[i] in Difficulties(s);
      var c :| c in s && c.hackingDifficulty == ds[i];
      WithDifficultyMembers(s, ds[i]);
      assert c in gs[i];
      assert gs[i][0] in gs[i];
    }
    forall d | d in Difficulties(s)
      ensures exists i :: 0 <= i < |ds| && gs[i][0].hackingDifficulty == d
    {
      var i :| 0 <= i < |ds| && ds[i] == d;
      WithDifficultyMembers(s, d);
      assert gs[i][0].hackingDifficulty == d;
    }
  }

  /** Counting through the groups of distinct difficulties: a computer
      appears as often as it is stored when its difficulty is listed, and
      not at all otherwise. */
  lemma {:induction false} GroupsCount(s: seq<Computer>, ds: seq<int>, c: Computer)
    requires StrictlyAscending(ds)
    ensures multiset(Flatten(Groups(s, ds)))[c] ==
      if c.hackingDifficulty in ds then multiset(s)[c] else 0
  {
    if |ds| > 0 {
      var gs := Groups(s, ds);
      assert gs[1..] == Groups(s, ds[1..]);
      GroupsCount(s, ds[1..], c);
      WithDifficultyCounts(s, ds[0], c);
      assert c.hackingDifficulty in ds <==> c.hackingDifficulty == ds[0] || c.hackingDifficulty in ds[1..];
      if c.hackingDifficulty == ds[0] {
        assert c.hackingDifficulty !in ds[1..];
      }
    }
  }

  /** Concatenating the groups gives back the stored computers, reordered
      by difficulty: every copy once, nothing else. */
  lemma GroupsArePermutation(m: Manager)
    ensures multiset(Flatten(GroupByDifficulty(m))) == multiset(m.computers)
  {
    var s := m.computers;
    if |s| > 0 {
      var ds := SortedDifficulties(s);
      assert GroupByDifficulty(m) == Groups(s, ds);
      forall c ensures multiset(Flatten(Groups(s, ds)))[c] == multiset(s)[c] {
        GroupsCount(s, ds, c);
        if c in s {
          assert c.hackingDifficulty in Difficulties(s);
        }
      }
    }
  }
}
