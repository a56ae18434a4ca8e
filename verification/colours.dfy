/** Colours as the map and the legend use them: CSS colour strings. */
module Colours {

  type Colour = string

  /** The fill of a constituency without data, and of the legend's last row. */
  const NoDataColour: Colour := "#c0c0c0"

  /** No colour occurs twice in `s`. */
  predicate Distinct(s: seq<Colour>) {
    forall i, j :: 0 <= i < j < |s| ==> s[i] != s[j]
  }
}
