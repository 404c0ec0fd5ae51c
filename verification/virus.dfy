/** The viruses that walk a route. A virus records every computer it passes
    (`add_computer`) and, at each split, picks a branch (`select_branch`)
    from the two branches' first nodes. `TopVirus` and `BottomVirus` are
    constant; `LazyVirus` prefers the branch whose first computer is easier
    to hack and stops on a tie. */
module Viruses {
  import opened Outcomes
  import opened Computers
  import opened Routes

  /** `BranchDecision`. */
  datatype Decision = Top | Bottom | Stop

  datatype Kind = TopVirus | BottomVirus | LazyVirus

  /** A virus and the computers it has recorded so far, in order (a series
      whose computer was removed contributes `None`). */
  datatype Virus = Virus(kind: Kind, computers: seq<Option<Computer>>)

  /** `VirusType.add_computer`: appends, leaving earlier entries alone. */
  function AddComputer(v: Virus, c: Option<Computer>): (r: Virus)
    ensures r.kind == v.kind && |r.computers| == |v.computers| + 1
    ensures r.computers[..|v.computers|] == v.computers && r.computers[|v.computers|] == c
  {
    v.(computers := v.computers + [c])
  }

  /** `select_branch` of each virus. `LazyVirus` reads the difficulty of the
      first computer of both branches when both start with a series; a
      series whose computer was removed makes that read fail. */
  function SelectBranch(k: Kind, top: Route, bottom: Route): (d: Result<Decision>)
    ensures k == TopVirus ==> d == Ok(Top)
    ensures k == BottomVirus ==> d == Ok(Bottom)
    ensures d.Err? <==> k == LazyVirus && top.Series? && bottom.Series?
                        && (top.computer.None? || bottom.computer.None?)
    ensures d.Err? ==> d.error == AttributeError
  {
    match k
    case TopVirus => Ok(Top)
    case BottomVirus => Ok(Bottom)
    case LazyVirus => LazySelect(top, bottom)
  }

  function LazySelect(top: Route, bottom: Route): (d: Result<Decision>)
    ensures top.Series? && bottom.Series? && top.computer.Some? && bottom.computer.Some? ==>
      var a, b := top.computer.value.hackingDifficulty, bottom.computer.value.hackingDifficulty;
      && (d == Ok(Top) <==> a < b)
      && (d == Ok(Bottom) <==> a > b)
      && (d == Ok(Stop) <==> a == b)
    ensures top.Series? && !bottom.Series? ==> d == Ok(Bottom)
    ensures !top.Series? ==> d == Ok(Top)
    ensures d.Err? <==> top.Series? && bottom.Series? && (top.computer.None? || bottom.computer.None?)
    ensures d.Err? ==> d.error == AttributeError
  {
    if top.Series? && bottom.Series? then
      if top.computer.None? || bottom.computer.None? then Err(AttributeError)
      else
        var a, b := top.computer.value.hackingDifficulty, bottom.computer.value.hackingDifficulty;
        if a < b then Ok(Top)
        else if a > b then Ok(Bottom)
        else Ok(Stop)
    else if top.Series? then Ok(Bottom)
    else Ok(Top)
  }

  /** The decision for the branches swapped. */
  function Mirror(d: Decision): Decision
  {
    match d
    case Top => Bottom
    case Bottom => Top
    case Stop => Stop
  }

  /** `LazyVirus` never walks into a branch whose first computer is harder
      than the other branch's, and never into a branch that starts with a
      computer when the other does not. */
  lemma LazyAvoidsHarder(top: Route, bottom: Route, d: Decision)
    requires SelectBranch(LazyVirus, top, bottom) == Ok(d)
    ensures d == Top && top.Series? && bottom.Series? ==>
      top.computer.value.hackingDifficulty < bottom.computer.value.hackingDifficulty
    ensures d == Bottom && top.Series? && bottom.Series? ==>
      bottom.computer.value.hackingDifficulty < top.computer.value.hackingDifficulty
    ensures d == Top ==> !top.Series? || bottom.Series?
    ensures d == Bottom ==> top.Series?
    ensures d == Stop ==> top.Series? && bottom.Series?
  {
  }

  /** Swapping the branches swaps `LazyVirus`'s choice, unless neither
      branch starts with a series (then it takes the top either way). */
  lemma LazyMirror(top: Route, bottom: Route)
    requires top.Series? || bottom.Series?
    ensures SelectBranch(LazyVirus, bottom, top).Err? <==> SelectBranch(LazyVirus, top, bottom).Err?
    ensures SelectBranch(LazyVirus, top, bottom).Ok? ==>
      SelectBranch(LazyVirus, bottom, top) == Ok(Mirror(SelectBranch(LazyVirus, top, bottom).value))
  {
  }
}
