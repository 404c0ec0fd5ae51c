/** `Route.follow_path`: a virus walks a route with an explicit stack of the
    routes still to be walked after the current branch. At a split it asks
    the virus for a branch and stacks what follows the split; at a series it
    records the computer and moves on, popping the stack at the end of a
    branch; at an empty route it pops. Popping an empty stack fails. */
module Traversal {
  import opened Outcomes
  import opened Computers
  import opened Routes
  import opened Viruses

  /** How a walk ends: the virus as it then is, and the exception that ended
      the walk, if any. `follow_path` records computers into the caller's
      virus as it goes, so a walk that raises keeps what it recorded before. */
  datatype Walked = Walked(virus: Virus, failure: Option<Error>)

  /** Sum of the sizes of the stacked routes. */
  function StackSize(stack: seq<Route>): nat
  {
    if |stack| == 0 then 0 else StackSize(stack[..|stack| - 1]) + Size(stack[|stack| - 1])
  }

  /** Every computer of the stacked routes, from the bottom of the stack up. */
  function StackComputers(stack: seq<Route>): seq<Option<Computer>>
  {
    if |stack| == 0 then [] else StackComputers(stack[..|stack| - 1]) + AllComputers(stack[|stack| - 1])
  }

  /** The walk from `cur` with `stack` (top at the end), `v` having recorded
      what came before. Whether or not it fails, the virus keeps its kind and
      what it had recorded, and only appends. */
  function FollowPath(v: Virus, cur: Route, stack: seq<Route>): (r: Walked)
    ensures r.virus.kind == v.kind && v.computers <= r.virus.computers
    ensures r.failure.Some? ==> r.failure.value in {StackEmpty, AttributeError}
    decreases Size(cur) + StackSize(stack)
  {
    match cur
    case Split(top, bottom, following) =>
      (match SelectBranch(v.kind, top, bottom)
       case Err(e) => Walked(v, Some(e))
       case Ok(d) =>
         var stack' := stack + [RemoveBranch(cur)];
         assert stack'[..|stack|] == stack;
         (match d
          case Top => FollowPath(v, top, stack')
          case Bottom => FollowPath(v, bottom, stack')
          case Stop => Walked(v, None)))
    case Series(c, following) =>
      var v' := AddComputer(v, c);
      if following != Empty then FollowPath(v', following, stack)
      else if |stack| > 0 then FollowPath(v', stack[|stack| - 1], stack[..|stack| - 1])
      else Walked(v', None)
    case Empty =>
      if |stack| == 0 then Walked(v, Some(StackEmpty))
      else FollowPath(v, stack[|stack| - 1], stack[..|stack| - 1])
  }

  /** What a walk appended. */
  function Added(v: Virus, r: Virus): seq<Option<Computer>>
    requires v.computers <= r.computers
  {
    r.computers[|v.computers|..]
  }

  /** Whatever the virus, and whether or not it fails, a walk records each
      series of the route and of the stacked routes at most once, and
      nothing else. */
  lemma {:induction false} FollowPathVisitsOnce(v: Virus, cur: Route, stack: seq<Route>)
    ensures multiset(Added(v, FollowPath(v, cur, stack).virus)) <= multiset(AllComputers(cur) + StackComputers(stack))
    decreases Size(cur) + StackSize(stack), 1
  {
    match cur
    case Split(_, _, _) => SplitVisitsOnce(v, cur, stack);
    case Series(_, _) => SeriesVisitsOnce(v, cur, stack);
    case Empty => if |stack| > 0 { PopVisitsOnce(v, stack); }
  }

  lemma {:induction false} SplitVisitsOnce(v: Virus, cur: Route, stack: seq<Route>)
    requires cur.Split?
    ensures multiset(Added(v, FollowPath(v, cur, stack).virus)) <= multiset(AllComputers(cur) + StackComputers(stack))
    decreases Size(cur) + StackSize(stack), 0
  {
    var r := FollowPath(v, cur, stack);
    var sel := SelectBranch(v.kind, cur.top, cur.bottom);
    if sel.Err? || sel.value == Stop {
      assert Added(v, r.virus) == [];
    } else {
      var stack' := stack + [cur.following];
      assert stack'[..|stack|] == stack;
      assert StackComputers(stack') == StackComputers(stack) + AllComputers(cur.following);
      if sel.value == Top {
        FollowPathVisitsOnce(v, cur.top, stack');
      } else {
        FollowPathVisitsOnce(v, cur.bottom, stack');
      }
    }
  }

  lemma {:induction false} SeriesVisitsOnce(v: Virus, cur: Route, stack: seq<Route>)
    requires cur.Series?
    ensures multiset(Added(v, FollowPath(v, cur, stack).virus)) <= multiset(AllComputers(cur) + StackComputers(stack))
    decreases Size(cur) + StackSize(stack), 0
  {
    var r := FollowPath(v, cur, stack);
    var v' := AddComputer(v, cur.computer);
    var rest := AllComputers(cur.following) + StackComputers(stack);
    assert AllComputers(cur) + StackComputers(stack) == [cur.computer] + rest;
    if cur.following != Empty {
      assert r == FollowPath(v', cur.following, stack);
      FollowPathVisitsOnce(v', cur.following, stack);
    } else if |stack| > 0 {
      assert r == FollowPath(v', stack[|stack| - 1], stack[..|stack| - 1]);
      assert rest == StackComputers(stack);
      PopVisitsOnce(v', stack);
    } else {
      assert Added(v', r.virus) == [];
    }
    assert multiset(Added(v', r.virus)) <= multiset(rest);
    assert Added(v, r.virus) == [cur.computer] + Added(v', r.virus);
  }

  lemma {:induction false} PopVisitsOnce(v: Virus, stack: seq<Route>)
    requires |stack| > 0
    ensures multiset(Added(v, FollowPath(v, stack[|stack| - 1], stack[..|stack| - 1]).virus)) <= multiset(StackComputers(stack))
    decreases Size(stack[|stack| - 1]) + StackSize(stack[..|stack| - 1]), 2
  {
    var n := |stack| - 1;
    FollowPathVisitsOnce(v, stack[n], stack[..n]);
  }

  /** `route.follow_path(virus)`: start at the route with an empty stack.
      Each series of the route is recorded at most once, and nothing else is,
      also when the walk raises. */
  function Follow(route: Route, v: Virus): (r: Walked)
    ensures r.virus.kind == v.kind && v.computers <= r.virus.computers
    ensures multiset(r.virus.computers) <= multiset(v.computers + AllComputers(route))
  {
    FollowPathVisitsOnce(v, route, []);
    var r := FollowPath(v, route, []);
    assert r.virus.computers == v.computers + Added(v, r.virus);
    assert AllComputers(route) + StackComputers([]) == AllComputers(route);
    r
  }

  // ---------------------------------------------------------------------------
  // A structural description of the walk of `TopVirus` and `BottomVirus`

  /** The branch a constant virus takes. */
  function Chosen(k: Kind, s: Route): Route
    requires k != LazyVirus && s.Split?
  {
    if k == TopVirus then s.top else s.bottom
  }

  /** The computers a constant virus records in `r`: at a split, those of
      the chosen branch, then those of what follows. */
  function Visit(k: Kind, r: Route): seq<Option<Computer>>
    requires k != LazyVirus
  {
    match r
    case Empty => []
    case Series(c, f) => [c] + Visit(k, f)
    case Split(t, b, f) => Visit(k, Chosen(k, r)) + Visit(k, f)
  }

  function VisitStack(k: Kind, stack: seq<Route>): seq<Option<Computer>>
    requires k != LazyVirus
  {
    if |stack| == 0 then [] else Visit(k, stack[|stack| - 1]) + VisitStack(k, stack[..|stack| - 1])
  }

  /** The route's last node (down the chain of what follows) is a series. */
  predicate EndsInSeries(r: Route)
  {
    match r
    case Empty => false
    case Series(_, f) => f == Empty || EndsInSeries(f)
    case Split(_, _, f) => EndsInSeries(f)
  }

  /** The last route the walk handles is the bottom of the stack, or the
      current route when the stack is empty. */
  predicate EndsWell(cur: Route, stack: seq<Route>)
  {
    if |stack| == 0 then EndsInSeries(cur) else EndsInSeries(stack[0])
  }

  /** A constant virus records the structural walk of the current route and
      then of the stacked routes from the top down. It succeeds exactly when
      the last route it handles ends in a series; otherwise, having recorded
      all of that, it pops an empty stack. */
  lemma {:induction false} FollowPathVisits(v: Virus, cur: Route, stack: seq<Route>)
    requires v.kind != LazyVirus
    ensures FollowPath(v, cur, stack) ==
      Walked(v.(computers := v.computers + Visit(v.kind, cur) + VisitStack(v.kind, stack)),
             if EndsWell(cur, stack) then None else Some(StackEmpty))
    decreases Size(cur) + StackSize(stack), 1
  {
    match cur
    case Split(_, _, _) => SplitVisits(v, cur, stack);
    case Series(_, _) => SeriesVisits(v, cur, stack);
    case Empty =>
      assert v.computers + Visit(v.kind, cur) == v.computers;
      if |stack| > 0 {
        PopVisits(v, stack);
      } else {
        assert v.computers + Visit(v.kind, cur) + VisitStack(v.kind, stack) == v.computers;
      }
  }

  lemma {:induction false} SplitVisits(v: Virus, cur: Route, stack: seq<Route>)
    requires v.kind != LazyVirus && cur.Split?
    ensures FollowPath(v, cur, stack) ==
      Walked(v.(computers := v.computers + Visit(v.kind, cur) + VisitStack(v.kind, stack)),
             if EndsWell(cur, stack) then None else Some(StackEmpty))
    decreases Size(cur) + StackSize(stack), 0
  {
    var k := v.kind;
    var stack' := stack + [cur.following];
    assert stack'[..|stack|] == stack;
    FollowPathVisits(v, Chosen(k, cur), stack');
    assert VisitStack(k, stack') == Visit(k, cur.following) + VisitStack(k, stack);
    if |stack| > 0 {
      assert stack'[0] == stack[0];
    }
    assert v.computers + Visit(k, Chosen(k, cur)) + VisitStack(k, stack')
        == v.computers + Visit(k, cur) + VisitStack(k, stack);
  }

  lemma {:induction false} SeriesVisits(v: Virus, cur: Route, stack: seq<Route>)
    requires v.kind != LazyVirus && cur.Series?
    ensures FollowPath(v, cur, stack) ==
      Walked(v.(computers := v.computers + Visit(v.kind, cur) + VisitStack(v.kind, stack)),
             if EndsWell(cur, stack) then None else Some(StackEmpty))
    decreases Size(cur) + StackSize(stack), 0
  {
    var k := v.kind;
    var v' := AddComputer(v, cur.computer);
    if cur.following != Empty {
      FollowPathVisits(v', cur.following, stack);
      assert v'.computers + Visit(k, cur.following) + VisitStack(k, stack)
          == v.computers + Visit(k, cur) + VisitStack(k, stack);
    } else if |stack| > 0 {
      var n := |stack| - 1;
      assert FollowPath(v, cur, stack) == FollowPath(v', stack[n], stack[..n]);
      PopVisits(v', stack);
      assert Visit(k, cur) == [cur.computer];
      assert v'.computers + VisitStack(k, stack)
          == v.computers + Visit(k, cur) + VisitStack(k, stack);
    } else {
      assert Visit(k, cur) == [cur.computer];
      assert v.computers + Visit(k, cur) + VisitStack(k, stack) == v'.computers;
    }
  }

  /** Popping the stack: the walk goes on from its top. */
  lemma {:induction false} PopVisits(v: Virus, stack: seq<Route>)
    requires v.kind != LazyVirus && |stack| > 0
    ensures FollowPath(v, stack[|stack| - 1], stack[..|stack| - 1]) ==
      Walked(v.(computers := v.computers + VisitStack(v.kind, stack)),
             if EndsInSeries(stack[0]) then None else Some(StackEmpty))
    decreases Size(stack[|stack| - 1]) + StackSize(stack[..|stack| - 1]), 2
  {
    var n := |stack| - 1;
    FollowPathVisits(v, stack[n], stack[..n]);
    if n > 0 {
      assert stack[..n][0] == stack[0];
    }
    assert v.computers + Visit(v.kind, stack[n]) + VisitStack(v.kind, stack[..n])
        == v.computers + VisitStack(v.kind, stack);
  }

  /** `route.follow_path(virus)` for a constant virus records the route's
      structural walk, and then succeeds exactly when the route ends in a
      series; otherwise it pops an empty stack. */
  lemma FollowVisits(route: Route, v: Virus)
    requires v.kind != LazyVirus
    ensures Follow(route, v).failure.None? <==> EndsInSeries(route)
    ensures Follow(route, v).failure.Some? ==> Follow(route, v).failure.value == StackEmpty
    ensures Follow(route, v).virus.computers == v.computers + Visit(v.kind, route)
  {
    FollowPathVisits(v, route, []);
    assert v.computers + Visit(v.kind, route) + VisitStack(v.kind, []) == v.computers + Visit(v.kind, route);
  }

  /** A route without splits is walked in full, whichever constant virus
      walks it. */
  lemma {:induction false} SeriesOnlyVisitsAll(k: Kind, r: Route)
    requires k != LazyVirus && NoSplits(r)
    ensures Visit(k, r) == AllComputers(r)
  {
    if r.Series? {
      SeriesOnlyVisitsAll(k, r.following);
    }
  }

  predicate NoSplits(r: Route)
  {
    match r
    case Empty => true
    case Series(_, f) => NoSplits(f)
    case Split(_, _, _) => false
  }

  // ---------------------------------------------------------------------------
  // The two-branch scenario

  /** `a`, then a split into `b` (top) and `c` (bottom), then `d`. */
  function Diamond(a: Computer, b: Computer, c: Computer, d: Computer): Route
  {
    Series(Some(a), Split(Series(Some(b), Empty), Series(Some(c), Empty), Series(Some(d), Empty)))
  }

  /** A constant virus walks `a`, its own branch, then `d`. */
  lemma DiamondConstant(k: Kind, a: Computer, b: Computer, c: Computer, d: Computer)
    requires k != LazyVirus
    ensures Follow(Diamond(a, b, c, d), Virus(k, [])) ==
      Walked(Virus(k, [Some(a), if k == TopVirus then Some(b) else Some(c), Some(d)]), None)
  {
    var split := Diamond(a, b, c, d).following;
    assert EndsInSeries(split.following);
    assert EndsInSeries(Diamond(a, b, c, d));
    assert Visit(k, Chosen(k, split)) == [if k == TopVirus then Some(b) else Some(c)];
    assert Visit(k, split.following) == [Some(d)];
    assert Visit(k, Diamond(a, b, c, d)) == [Some(a), if k == TopVirus then Some(b) else Some(c), Some(d)];
    FollowVisits(Diamond(a, b, c, d), Virus(k, []));
    assert [] + Visit(k, Diamond(a, b, c, d)) == Visit(k, Diamond(a, b, c, d));
  }

  /** `LazyVirus` takes the easier of `b` and `c`, and stops at the split
      when they are equally hard. */
  lemma DiamondLazy(a: Computer, b: Computer, c: Computer, d: Computer)
    ensures Follow(Diamond(a, b, c, d), Virus(LazyVirus, [])) ==
      if b.hackingDifficulty < c.hackingDifficulty then Walked(Virus(LazyVirus, [Some(a), Some(b), Some(d)]), None)
      else if b.hackingDifficulty > c.hackingDifficulty then Walked(Virus(LazyVirus, [Some(a), Some(c), Some(d)]), None)
      else Walked(Virus(LazyVirus, [Some(a)]), None)
  {
    var split := Diamond(a, b, c, d).following;
    var stack := [split.following];
    assert stack[..0] == [];
    var v1 := Virus(LazyVirus, [Some(a)]);
    assert FollowPath(Virus(LazyVirus, []), Diamond(a, b, c, d), []) == FollowPath(v1, split, []);
    if b.hackingDifficulty < c.hackingDifficulty {
      var v2 := AddComputer(v1, Some(b));
      assert FollowPath(v1, split, []) == FollowPath(v1, split.top, stack);
      assert FollowPath(v1, split.top, stack) == FollowPath(v2, stack[0], stack[..0]);
      assert FollowPath(v2, split.following, []) == Walked(AddComputer(v2, Some(d)), None);
      assert AddComputer(v2, Some(d)).computers == [Some(a), Some(b), Some(d)];
    } else if b.hackingDifficulty > c.hackingDifficulty {
      var v2 := AddComputer(v1, Some(c));
      assert FollowPath(v1, split, []) == FollowPath(v1, split.bottom, stack);
      assert FollowPath(v1, split.bottom, stack) == FollowPath(v2, stack[0], stack[..0]);
      assert FollowPath(v2, split.following, []) == Walked(AddComputer(v2, Some(d)), None);
      assert AddComputer(v2, Some(d)).computers == [Some(a), Some(c), Some(d)];
    }
  }

  /** An empty route, or one whose last node is an empty split, makes every
      virus pop an empty stack, keeping what it recorded before. */
  lemma EmptyEndFails(v: Virus, a: Computer)
    ensures Follow(Empty, v) == Walked(v, Some(StackEmpty))
    ensures Follow(Series(Some(a), Split(Empty, Empty, Empty)), v) ==
      Walked(AddComputer(v, Some(a)), Some(StackEmpty))
  {
    var split := Split(Empty, Empty, Empty);
    var v1 := AddComputer(v, Some(a));
    assert FollowPath(v, Series(Some(a), split), []) == FollowPath(v1, split, []);
    var d := SelectBranch(v.kind, Empty, Empty);
    assert d.Ok? && d.value != Stop;
    assert FollowPath(v1, Empty, [Empty]) == FollowPath(v1, Empty, []);
  }

  /** A `LazyVirus` that meets a split whose top branch starts with a
      removed computer raises `AttributeError`, keeping what it recorded
      before the split. */
  lemma LazyFailedReadKeeps(a: Computer, b: Computer, after: Route)
    ensures Follow(Series(Some(a), Split(Series(None, Empty), Series(Some(b), Empty), after)), Virus(LazyVirus, [])) ==
      Walked(Virus(LazyVirus, [Some(a)]), Some(AttributeError))
  {
    var split := Split(Series(None, Empty), Series(Some(b), Empty), after);
    var v1 := AddComputer(Virus(LazyVirus, []), Some(a));
    assert FollowPath(Virus(LazyVirus, []), Series(Some(a), split), []) == FollowPath(v1, split, []);
  }

  // ---------------------------------------------------------------------------
  // Route edits seen by a walk

  /** An empty branch in front of a route changes no walk: every virus,
      Lazy included, takes one of the two empty branches and pops the old
      route. */
  lemma EmptyBranchBeforeWalk(r: Route, v: Virus)
    ensures Follow(AddEmptyBranchBefore(r), v) == Follow(r, v)
  {
    var d := SelectBranch(v.kind, Empty, Empty);
    assert d.Ok? && d.value != Stop;
    assert [r][..0] == [];
    assert FollowPath(v, AddEmptyBranchBefore(r), []) == FollowPath(v, Empty, [r]);
  }

  /** A computer added in front of a route is recorded first, and the walk
      then goes on as the old route's walk would; in front of an empty route
      it turns the failing walk into one that records just that computer. */
  lemma AddBeforeWalk(r: Route, c: Computer, v: Virus)
    ensures r != Empty ==> Follow(AddComputerBefore(r, c), v) == Follow(r, AddComputer(v, Some(c)))
    ensures r == Empty ==> Follow(AddComputerBefore(r, c), v) == Walked(AddComputer(v, Some(c)), None)
    ensures Follow(r, v).failure.None? ==> Follow(AddComputerBefore(r, c), v).failure.None?
  {
    if r == Empty {
      assert FollowPath(v, AddComputerBefore(r, c), []) == Walked(AddComputer(v, Some(c)), None);
    } else {
      assert FollowPath(v, AddComputerBefore(r, c), []) == FollowPath(AddComputer(v, Some(c)), r, []);
      WalkIgnoresRecord(v, AddComputer(v, Some(c)), r, []);
    }
  }

  /** What a walk appends, and whether it fails, does not depend on what
      the virus had recorded before: a virus's choices read only the
      branches and its kind. */
  lemma {:induction false} WalkIgnoresRecord(v: Virus, w: Virus, cur: Route, stack: seq<Route>)
    requires v.kind == w.kind
    ensures FollowPath(v, cur, stack).failure == FollowPath(w, cur, stack).failure
    ensures Added(v, FollowPath(v, cur, stack).virus) == Added(w, FollowPath(w, cur, stack).virus)
    decreases Size(cur) + StackSize(stack)
  {
    var rv, rw := FollowPath(v, cur, stack), FollowPath(w, cur, stack);
    match cur
    case Split(t, b, f) =>
      var sel := SelectBranch(v.kind, t, b);
      if sel.Err? || sel.value == Stop {
        assert Added(v, rv.virus) == [] == Added(w, rw.virus);
      } else {
        var stack' := stack + [f];
        assert stack'[..|stack|] == stack;
        WalkIgnoresRecord(v, w, if sel.value == Top then t else b, stack');
      }
    case Series(c, f) =>
      var v', w' := AddComputer(v, c), AddComputer(w, c);
      if f != Empty {
        WalkIgnoresRecord(v', w', f, stack);
      } else if |stack| > 0 {
        WalkIgnoresRecord(v', w', stack[|stack| - 1], stack[..|stack| - 1]);
      } else {
        assert Added(v', rv.virus) == [] == Added(w', rw.virus);
      }
      assert Added(v, rv.virus) == [c] + Added(v', rv.virus);
      assert Added(w, rw.virus) == [c] + Added(w', rw.virus);
    case Empty =>
      if |stack| > 0 {
        WalkIgnoresRecord(v, w, stack[|stack| - 1], stack[..|stack| - 1]);
      } else {
        assert Added(v, rv.virus) == [] == Added(w, rw.virus);
      }
  }

  /** Removing the computer at the front of a route leaves every virus's
      walk alone except that it records `None` in that computer's place. */
  lemma RemoveComputerWalk(s: Route, v: Virus)
    requires s.Series? && RemoveComputer(s).Ok?
    ensures Follow(RemoveComputer(s).value, v).failure == Follow(s, v).failure
    ensures Follow(RemoveComputer(s).value, v).virus.computers
         == Follow(s, v).virus.computers[|v.computers| := None]
  {
    var s' := RemoveComputer(s).value;
    var v1, w1 := AddComputer(v, s.computer), AddComputer(v, None);
    var f := s.following;
    var r, r' := FollowPath(v, s, []), FollowPath(v, s', []);
    if f != Empty {
      assert r == FollowPath(v1, f, []) && r' == FollowPath(w1, f, []);
      WalkIgnoresRecord(v1, w1, f, []);
    } else {
      assert r == Walked(v1, None) && r' == Walked(w1, None);
    }
    assert r.virus.computers == v.computers + [s.computer] + Added(v1, r.virus);
    assert r'.virus.computers == v.computers + [None] + Added(w1, r'.virus);
  }
}
