/** The grid shape shared by the scanner and the text parser. */
module Grids {

  /** A grid cell holds a token (a Python `str`), normally a single letter. */
  type Token = string

  /** A word-search grid: a list of rows, each a list of tokens. */
  type Grid = seq<seq<Token>>

  /** Every row has as many tokens as the first row. */
  predicate Rectangular(g: Grid) {
    forall i :: 0 <= i < |g| ==> |g[i]| == |g[0]|
  }
}
