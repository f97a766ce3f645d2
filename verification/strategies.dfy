/** The five bad-crop strategies, the list `random.choice` picks a name from,
    the `if`/`elif` chain that turns the picked name into a branch, and the
    `random.uniform` ratio ranges each branch draws its crop size from. */
module Strategies {

  datatype Strategy =
    | SlightlyOffCenter
    | CutBottom
    | CutTop
    | CutSide
    | AwkwardButNotExtreme
  {
    /** The name the source uses for the strategy. */
    function Name(): string {
      match this
      case SlightlyOffCenter => "slightly_off_center"
      case CutBottom => "cut_bottom"
      case CutTop => "cut_top"
      case CutSide => "cut_side"
      case AwkwardButNotExtreme => "awkward_but_not_extreme"
    }
  }

  /** The list `random.choice` draws from, in the source's order. */
  const StrategyNames: seq<string> :=
    ["slightly_off_center", "cut_bottom", "cut_top", "cut_side", "awkward_but_not_extreme"]

  /** The `if`/`elif`/`else` chain on the drawn name. Each listed name selects
      the strategy of that name; the final `else` catches everything else. */
  function Branch(name: string): (s: Strategy)
    ensures name in StrategyNames ==> s.Name() == name
    ensures name !in StrategyNames ==> s == AwkwardButNotExtreme
  {
    if name == "slightly_off_center" then SlightlyOffCenter
    else if name == "cut_bottom" then CutBottom
    else if name == "cut_top" then CutTop
    else if name == "cut_side" then CutSide
    else AwkwardButNotExtreme
  }

  /** The branch taken when `random.choice` returns the entry at `choice`:
      it is always the strategy whose name was drawn. */
  function Select(choice: int): (s: Strategy)
    requires 0 <= choice < |StrategyNames|
    ensures s.Name() == StrategyNames[choice]
  {
    Branch(StrategyNames[choice])
  }

  /** The list entry naming a strategy. */
  function IndexOf(s: Strategy): (i: nat)
    ensures i < |StrategyNames| && StrategyNames[i] == s.Name()
  {
    match s
    case SlightlyOffCenter => 0
    case CutBottom => 1
    case CutTop => 2
    case CutSide => 3
    case AwkwardButNotExtreme => 4
  }

  /** Every strategy is reachable, and from exactly one entry of the list:
      the five names are distinct, so each draw runs exactly one branch and
      distinct draws run distinct branches. */
  lemma SelectIsBijective(s: Strategy, i: int, j: int)
    ensures Select(IndexOf(s)) == s
    ensures 0 <= i < |StrategyNames| && 0 <= j < |StrategyNames| && Select(i) == Select(j) ==> i == j
    ensures 0 <= i < |StrategyNames| && Select(i) == s ==> i == IndexOf(s)
  {
  }

  /** A `random.uniform(lo / 100, hi / 100)` ratio, in hundredths. */
  datatype Share = Share(lo: nat, hi: nat)

  /** The ratio range of the crop width, per branch. */
  function WidthShare(s: Strategy): (sh: Share)
    ensures 60 <= sh.lo < sh.hi <= 90
  {
    match s
    case SlightlyOffCenter => Share(65, 80)
    case CutBottom => Share(75, 90)
    case CutTop => Share(75, 90)
    case CutSide => Share(60, 75)
    case AwkwardButNotExtreme => Share(60, 80)
  }

  /** The ratio range of the crop height, per branch. */
  function HeightShare(s: Strategy): (sh: Share)
    ensures 60 <= sh.lo < sh.hi <= 90
  {
    match s
    case SlightlyOffCenter => Share(65, 80)
    case CutBottom => Share(60, 75)
    case CutTop => Share(60, 75)
    case CutSide => Share(75, 90)
    case AwkwardButNotExtreme => Share(60, 80)
  }
}
