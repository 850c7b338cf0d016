/** The one piece of logic in the condition panel: whether a race checkbox
    is drawn checked. */
module Conditions {
  import JsArray

  /** calcIsChecked: the checkbox for value is checked exactly when value is
      in the checked-race list. */
  function CalcIsChecked(condCheckedRaces: seq<string>, value: string): (b: bool)
    ensures b <==> value in condCheckedRaces
  {
    if JsArray.IndexOf(condCheckedRaces, value) == -1 then false else true
  }
}
