/** A route through a network of computers. Python's `Route` wrapper and its
    `store` (a `RouteSeries`, a `RouteSplit` or `None`) are one datatype
    here: `Empty` is `Route(None)`. A series slot holds `None` once its
    computer has been removed. Every edit returns a new route; nothing is
    changed in place. */
module Routes {
  import opened Outcomes
  import opened Computers

  datatype Route =
    | Empty
    | Series(computer: Option<Computer>, following: Route)
    | Split(top: Route, bottom: Route, following: Route)

  /** Number of nodes, counting each `Empty` as one; the traversal's measure. */
  function Size(r: Route): (n: nat)
    ensures n >= 1
  {
    match r
    case Empty => 1
    case Series(_, f) => 1 + Size(f)
    case Split(t, b, f) => 1 + Size(t) + Size(b) + Size(f)
  }

  /** `add_all_computers`: a split lists its top branch, then its bottom
      branch, then what follows; a series lists its slot first. */
  function AllComputers(r: Route): (cs: seq<Option<Computer>>)
    ensures |cs| < Size(r)
  {
    match r
    case Empty => []
    case Series(c, f) => [c] + AllComputers(f)
    case Split(t, b, f) => AllComputers(t) + AllComputers(b) + AllComputers(f)
  }

  // ---------------------------------------------------------------------------
  // Edits of a whole route

  /** `Route.add_computer_before`: the computer comes first, then everything
      the route held. */
  function AddComputerBefore(r: Route, c: Computer): (r': Route)
    ensures r'.Series? && r'.computer == Some(c) && r'.following == r
    ensures AllComputers(r') == [Some(c)] + AllComputers(r)
  {
    Series(Some(c), r)
  }

  /** `Route.add_empty_branch_before`: a split with two empty branches, the
      old route following it; the computers are the same, in the same order. */
  function AddEmptyBranchBefore(r: Route): (r': Route)
    ensures r'.Split? && r'.top == Empty && r'.bottom == Empty && r'.following == r
    ensures AllComputers(r') == AllComputers(r)
  {
    Split(Empty, Empty, r)
  }

  // ---------------------------------------------------------------------------
  // Edits of a series (`RouteSeries` methods; `s` is the series itself)

  /** `RouteSeries.remove_computer`: `ValueError` when the slot is already
      empty; otherwise the slot is emptied and the rest kept. */
  function RemoveComputer(s: Route): (r: Result<Route>)
    requires s.Series?
    ensures r.Err? <==> s.computer.None?
    ensures r.Err? ==> r.error == ValueError
    ensures r.Ok? ==> r.value.Series? && r.value.computer.None? && r.value.following == s.following
    ensures r.Ok? ==> AllComputers(r.value) == [None] + AllComputers(s)[1..]
  {
    if s.computer.None? then Err(ValueError) else Ok(Series(None, s.following))
  }

  /** `RouteSeries.add_computer_before`: the new computer, then the series. */
  function SeriesAddComputerBefore(s: Route, c: Computer): (r: Route)
    requires s.Series?
    ensures r.Series? && r.computer == Some(c) && r.following == s
    ensures AllComputers(r) == [Some(c)] + AllComputers(s)
  {
    Series(Some(c), s)
  }

  /** `RouteSeries.add_computer_after`: the series' computer, the new one,
      then what followed. */
  function SeriesAddComputerAfter(s: Route, c: Computer): (r: Route)
    requires s.Series?
    ensures r.Series? && r.computer == s.computer
    ensures AllComputers(r) == [s.computer, Some(c)] + AllComputers(s.following)
  {
    Series(s.computer, Series(Some(c), s.following))
  }

  /** `RouteSeries.add_empty_branch_before`: an empty split with the series
      following it. */
  function SeriesAddEmptyBranchBefore(s: Route): (r: Route)
    requires s.Series?
    ensures r.Split? && r.top == Empty && r.bottom == Empty && r.following == s
    ensures AllComputers(r) == AllComputers(s)
  {
    Split(Empty, Empty, s)
  }

  /** `RouteSeries.add_empty_branch_after`: the series' computer, an empty
      split, then what followed. */
  function SeriesAddEmptyBranchAfter(s: Route): (r: Route)
    requires s.Series?
    ensures r.Series? && r.computer == s.computer
    ensures r.following == Split(Empty, Empty, s.following)
    ensures AllComputers(r) == AllComputers(s)
  {
    Series(s.computer, Split(Empty, Empty, s.following))
  }

  // ---------------------------------------------------------------------------
  // Edits of a split

  /** `RouteSplit.remove_branch`: only the route after the split remains, so
      the computers of both branches drop out of the front of the list. */
  function RemoveBranch(s: Route): (r: Route)
    requires s.Split?
    ensures r == s.following
    ensures AllComputers(s) == AllComputers(s.top) + AllComputers(s.bottom) + AllComputers(r)
    ensures Size(r) < Size(s)
  {
    s.following
  }
}
