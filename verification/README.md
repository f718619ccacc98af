# Word-search checker, modelled in Dafny

This project models the word-search checker of `langchain_playground`. It has two parts.

- **The scanner `find_word`.** For every start cell in row-major order, and for each of eight fixed
  direction vectors (right, right-down, down, left-down, left, left-up, up, right-up), it walks
  one step per letter of the word. It gives up as soon as a step leaves the grid or lands on a
  cell that is not that letter. Otherwise it records the path of coordinates it walked.
- **The grid text parser `string_to_grid`.** It strips the text, splits it into lines, drops
  the blank ones and splits each remaining line on whitespace into tokens. When some row has a
  different number of tokens than the first row, it raises `ValueError("All rows must have the
  same number of letters")`.

Layout:

- `grids.dfy` (module `Grids`): the grid as a sequence of rows of string tokens. Python grid
  cells are strings, so a cell matches a letter exactly when its token is that one-character
  string.
- `scanner.dfy` (module `Scanner`): `find_word` and its nested `search_direction` as methods
  with loop invariants.
  - The methods are proved against the ghost function `Occurrences`. It is defined through
    `ScanBefore`, which lists the candidates recorded before the loop nest reaches a given
    (row, col, direction) position.
  - The lemmas say what that list means: soundness, completeness, ordering, a size bound, and
    the multiplicities that come from not deduplicating.
- `grid_text.dfy` (module `GridText`): `string_to_grid` as pure functions returning a `Result`.
  - It includes models of `str.strip()`, `str.split('\n')`, `str.split()` and `str.join`. Their
    whitespace is exactly the set of characters Python's `str.isspace` accepts.
  - The lemmas cover blank input and the round trip with the one-space text format. They also
    prove that parsing keeps every non-whitespace character in order.
- `demo.dfy` (module `Demo`): the 5 x 5 grid of the module's command-line entry point. On it,
  searching for "HELLO" and for "WORLD" each returns exactly one path.

Behaviour of the source that the model keeps:

- Whitespace-only text parses to the empty grid without error, because the grid validation runs
  `all(...)` over an empty list, which is true.
- A ragged grid raises `ValueError` with the message above.
- A grid cell is any whitespace-free token, not necessarily a single character. A token of
  several characters never matches a letter of the word.
- The column count comes from the first row only. Longer rows have cells the scan never visits.
  For a non-empty word and a non-empty first row, a shorter row makes the source fail with an
  index error. So `find_word` requires every row to be at least as long as the first
  (`Scanner.Indexable`), except for the empty word, which it answers with `[]` on any grid
  (`Scanner.Searchable`).

## Model

| member | source | states |
|---|---|---|
| Scanner.ValidPositionIsCell | langchain_playground/word_search/word_search_checker.py:34-36 | a position is valid when it lies inside rows x cols, with cols taken from the first row; every valid position names an existing cell, and on a rectangular grid the valid positions are exactly the cells |
| Scanner.SearchDirection | langchain_playground/word_search/word_search_checker.py:38-54 | returns the path of the word's cells from the start along the direction when every step is inside the grid and holds the next letter, and the empty path otherwise |
| Scanner.FindWord | langchain_playground/word_search/word_search_checker.py:3-65 | returns exactly the paths of the matching (start cell, direction) candidates in loop order, and `[]` when the grid has no rows, the first row is empty or the word is empty; the empty word is accepted on any grid, ragged or not |
| Scanner.ScanBefore | langchain_playground/word_search/word_search_checker.py:57-63 | every candidate the loop nest has recorded so far has a start cell inside the grid and a direction among the eight |
| Scanner.ScanBeforeMembers | langchain_playground/word_search/word_search_checker.py:57-63 | before a loop position, a candidate has been recorded if and only if it is valid, precedes that position and spells the word |
| Scanner.ScanBeforeOrdered | langchain_playground/word_search/word_search_checker.py:57-63 | the candidates recorded before any loop position are strictly increasing in (row, col, direction) order |
| Scanner.HitsExact | langchain_playground/word_search/word_search_checker.py:57-63 | a candidate is reported if and only if the word is non-empty, the start is in the grid and the word is spelled from it along the direction |
| Scanner.HitsSorted | langchain_playground/word_search/word_search_checker.py:23-32 | matches come in row-major order of start cell, then in the fixed direction order, with no candidate repeated |
| Scanner.CellAtStep | langchain_playground/word_search/word_search_checker.py:50-52 | the cell after the i-th one is the i-th one moved by the direction vector, which is what `row += dr; col += dc` does |
| Scanner.OccurrencesSound | langchain_playground/word_search/word_search_checker.py:34-54 | every returned path has one cell per letter, each inside the grid and holding that letter, and consecutive cells differ by one and the same of the eight direction vectors |
| Scanner.OccurrencesComplete | langchain_playground/word_search/word_search_checker.py:57-63 | for every valid start and direction along which a non-empty word is spelled, that path is among the matches |
| Scanner.AbsentWordNoMatches | langchain_playground/word_search/word_search_checker.py:57-65 | a word spelled from no candidate gives the empty list, not an error |
| Scanner.UniqueOccurrence | langchain_playground/word_search/word_search_checker.py:57-65 | a word spelled from exactly one candidate is returned exactly once, as that candidate's path |
| Scanner.ScanBeforeBound | langchain_playground/word_search/word_search_checker.py:57-63 | before a loop position at most one candidate per (cell, direction) pair passed has been recorded |
| Scanner.OccurrencesBound | langchain_playground/word_search/word_search_checker.py:57-63 | at most rows x cols x 8 matches are returned |
| Scanner.OneLetterStart | langchain_playground/word_search/word_search_checker.py:47-50 | a one-letter candidate's path is its start cell alone, and it matches exactly when that cell holds the letter, whatever its direction |
| Scanner.SingleLetterStep | langchain_playground/word_search/word_search_checker.py:60-63 | trying one more direction at a cell adds that cell's one-cell path exactly when the cell holds the letter |
| Scanner.ScanBeforeSingleLetter | langchain_playground/word_search/word_search_checker.py:57-63 | for a one-letter word, each cell's one-cell path has been recorded once per direction tried at that cell so far when it holds the letter, and never otherwise |
| Scanner.SingleLetterEightfold | langchain_playground/word_search/word_search_checker.py:57-63 | a one-letter word yields each matching cell's one-cell path exactly 8 times and no other cell's path at all |
| Scanner.CellAtBackwards | langchain_playground/word_search/word_search_checker.py:23-32 | walking from the last cell of a path along the opposite direction visits the same cells in reverse |
| Scanner.MovesAway | langchain_playground/word_search/word_search_checker.py:23-32 | no direction vector is zero, so one or more steps always leave the start cell |
| Scanner.BackwardsSpelled | langchain_playground/word_search/word_search_checker.py:43-52 | when a palindrome is spelled from a start, it is also spelled from its last cell in the opposite direction |
| Scanner.BackwardsPath | langchain_playground/word_search/word_search_checker.py:43-52 | the backwards candidate's path is the reverse of the original path |
| Scanner.PathDeterminesStart | langchain_playground/word_search/word_search_checker.py:43-52 | a path of two or more cells fixes its start cell and its direction, so two different candidates never walk the same path |
| Scanner.PathCount | langchain_playground/word_search/word_search_checker.py:57-63 | candidates in scan order yield a path of two or more cells exactly once when its candidate is among them, and otherwise not at all |
| Scanner.ReportedOnce | langchain_playground/word_search/word_search_checker.py:3-65 | for a word of two or more letters, every returned path is returned exactly once |
| Scanner.PalindromeReportedTwice | langchain_playground/word_search/word_search_checker.py:57-63 | for a palindrome of two or more letters, every match's reverse is also a match and differs from it, and each of the two is returned exactly once, so each line of cells is reported once per traversal direction |
| GridText.TrimStartCuts | langchain_playground/word_search/word_search_checker.py:122 | dropping leading whitespace keeps a suffix of the text and removes whitespace only |
| GridText.TrimEndCuts | langchain_playground/word_search/word_search_checker.py:122 | dropping trailing whitespace keeps a prefix of the text and removes whitespace only |
| GridText.Strip | langchain_playground/word_search/word_search_checker.py:122 | `strip()` leaves text that neither begins nor ends with whitespace |
| GridText.StripKeepsMiddle | langchain_playground/word_search/word_search_checker.py:122 | what `strip()` keeps is a contiguous middle part of the text, and only whitespace is cut on either side |
| GridText.StripOfBlank | langchain_playground/word_search/word_search_checker.py:122 | `strip()` gives the empty string if and only if the text is whitespace only |
| GridText.StripLetters | langchain_playground/word_search/word_search_checker.py:122 | `strip()` removes no non-whitespace character |
| GridText.SplitOn | langchain_playground/word_search/word_search_checker.py:122 | `split('\n')` always yields at least one piece |
| GridText.SplitOnJoinsBack | langchain_playground/word_search/word_search_checker.py:122 | no piece of `split('\n')` contains a line break, and joining the pieces with line breaks gives back the text |
| GridText.SplitWhitespace | langchain_playground/word_search/word_search_checker.py:125 | `split()` yields only non-empty tokens without whitespace, and a text starting with a non-space character yields a first token starting with it |
| GridText.SplitWhitespaceWholeToken | langchain_playground/word_search/word_search_checker.py:125 | a non-empty run of non-whitespace characters stays one whole token |
| GridText.SplitWhitespaceSkipsSpace | langchain_playground/word_search/word_search_checker.py:125 | leading whitespace yields no token |
| GridText.SplitWhitespaceAppend | langchain_playground/word_search/word_search_checker.py:125 | text that starts with whitespace starts a new token: the tokens of the concatenation are those of the first part followed by those of the second |
| GridText.SplitWhitespaceSeparates | langchain_playground/word_search/word_search_checker.py:125 | any non-empty run of whitespace, of any length and mix of whitespace characters, is one separator: no token spans it and it yields no empty token |
| GridText.SplitWhitespaceLetters | langchain_playground/word_search/word_search_checker.py:125 | the tokens of `split()`, concatenated, are exactly the non-whitespace characters of the row, in order |
| GridText.StripEach | langchain_playground/word_search/word_search_checker.py:122 | one entry per line, and entry i is line i stripped |
| GridText.DropEmpty | langchain_playground/word_search/word_search_checker.py:122 | the `if row.strip()` filter keeps only non-empty, stripped lines, and no more than it is given |
| GridText.DropEmptyAppend | langchain_playground/word_search/word_search_checker.py:122 | the filter distributes over concatenation: it keeps the non-empty lines of the first list, then those of the second, in order |
| GridText.DropEmptySingle | langchain_playground/word_search/word_search_checker.py:122 | a single line is kept exactly when it is non-empty |
| GridText.NonBlankLines | langchain_playground/word_search/word_search_checker.py:122 | the rows kept are non-empty and neither begin nor end with whitespace |
| GridText.KeptLines | langchain_playground/word_search/word_search_checker.py:122 | the lines of a text, stripped and without the blank ones, are non-empty and stripped |
| GridText.StripSpaceFront | langchain_playground/word_search/word_search_checker.py:122 | one more whitespace character in front does not change `strip()` |
| GridText.StripSpaceBack | langchain_playground/word_search/word_search_checker.py:122 | one more whitespace character at the end does not change `strip()` |
| GridText.SplitOnAppend | langchain_playground/word_search/word_search_checker.py:122 | `split('\n')` of two texts joined by a line break is the pieces of the first followed by the pieces of the second |
| GridText.SplitOnSnoc | langchain_playground/word_search/word_search_checker.py:122 | a character other than the separator at the end of the text lengthens the last piece of `split('\n')` and changes nothing else |
| GridText.KeptLinesAppend | langchain_playground/word_search/word_search_checker.py:122 | a line break splits the kept lines into those before it and those after it |
| GridText.KeptLinesSpaceFront | langchain_playground/word_search/word_search_checker.py:122 | a whitespace character in front (a line break included) adds no kept line and changes none |
| GridText.KeptLinesSpaceBack | langchain_playground/word_search/word_search_checker.py:122 | a whitespace character at the end (a line break included) adds no kept line and changes none |
| GridText.KeptLinesPadFront | langchain_playground/word_search/word_search_checker.py:122 | leading whitespace of any length, line breaks included, leaves the kept lines unchanged |
| GridText.KeptLinesPadBack | langchain_playground/word_search/word_search_checker.py:122 | trailing whitespace of any length, line breaks included, leaves the kept lines unchanged |
| GridText.StripKeepsLines | langchain_playground/word_search/word_search_checker.py:122 | the outer `grid_string.strip()` changes no row: the rows are the stripped non-blank lines of the text itself |
| GridText.NonBlankLinesJoin | langchain_playground/word_search/word_search_checker.py:122 | the rows of two texts joined by a line break are the rows of the first, then those of the second |
| GridText.NonBlankLinesOfLine | langchain_playground/word_search/word_search_checker.py:122 | a text of one line gives no row when it is whitespace only, and otherwise exactly that line stripped |
| GridText.SplitEach | langchain_playground/word_search/word_search_checker.py:125 | one token row per text row, and token row i is text row i split on whitespace; no token row is empty, and no token is empty or contains whitespace |
| GridText.StringToGrid | langchain_playground/word_search/word_search_checker.py:103-131 | fails if and only if some token row has a different length than the first, and then with `ValueError` and its message; on success the grid is exactly the token rows of the text, is rectangular, has no empty row, and its tokens are non-empty and whitespace-free |
| GridText.BlankInputGivesEmptyGrid | langchain_playground/word_search/word_search_checker.py:122-131 | the result is the empty grid, without error, if and only if the text is whitespace only |
| GridText.BlankTextHasNoLines | langchain_playground/word_search/word_search_checker.py:122 | whitespace-only text has no non-blank line |
| GridText.NoLinesMeansBlank | langchain_playground/word_search/word_search_checker.py:122 | text without non-blank lines is whitespace only |
| GridText.ParseSerialized | langchain_playground/word_search/word_search_checker.py:105-108 | writing a well-formed grid as tokens joined by one space, rows joined by line breaks, and parsing it back gives the same grid |
| GridText.NonBlankLinesOfSerialized | langchain_playground/word_search/word_search_checker.py:122 | the non-blank lines of a written grid are exactly its row texts |
| GridText.SplitEachOfRowTexts | langchain_playground/word_search/word_search_checker.py:125 | splitting each written row on whitespace gives back the grid's rows |
| GridText.DocumentedText | langchain_playground/word_search/word_search_checker.py:113-117 | the documented example grid is written as the three lines of the docstring |
| GridText.DocumentedExample | langchain_playground/word_search/word_search_checker.py:113-119 | the docstring's three-line input parses to the three rows of five letters shown as its output |
| GridText.ParsingKeepsEveryLetter | langchain_playground/word_search/word_search_checker.py:122-125 | the tokens, read row by row, are exactly the non-whitespace characters of the text in order, both before the shape check and in a successful result |
| Demo.DemoLetterCells | langchain_playground/word_search/word_search_checker.py:136-142 | the cells of the demo grid that hold H, E, L, W and O |
| Demo.OnlyOneHello | langchain_playground/word_search/word_search_checker.py:136-142 | only rightwards from the top-left corner is "HELLO" spelled in the demo grid |
| Demo.OnlyOneWorld | langchain_playground/word_search/word_search_checker.py:136-142 | only rightwards from the start of the second row is "WORLD" spelled in the demo grid |
| Demo.HelloExample | langchain_playground/word_search/word_search_checker.py:134-154 | searching the demo grid for "HELLO" returns exactly the path along the top row |
| Demo.WorldExample | langchain_playground/word_search/word_search_checker.py:134-154 | searching the demo grid for "WORLD" returns exactly the path along the second row |

## Left out

- `print_grid` and `print_found_matches` (word_search_checker.py:67-101): console output only.
- The entry point's printing and its search for "HI" (word_search_checker.py:134-154): only the
  "HELLO" and "WORLD" results are stated.
- Scanner.FindWord: for a non-empty word, requires every row to be at least as long as the first
  row. With a shorter row and a non-empty first row, the source fails with an index error, and
  that failure is not modelled.
- Scanner.SearchDirection: the nested function reads `grid`, `word`, `rows` and `cols` from the
  enclosing call. Here it takes the grid and the word as parameters and derives the bounds from
  the grid.
- `GridText.Serialize`, the one-space text format, is a reference definition taken from the
  docstring (word_search_checker.py:105-119). The source has no serializer.
- The grid builders, the prompt template, `quickstart.py` and `runner.py`: they call an external
  chat model or a numeric harness, and none of their logic is local.
- `find_words` and `get_puzzle_accuracy`, which `runner.py` imports: their definitions are not
  part of this model.
- A grid placer: the repository has no code for one, because puzzles are generated by prompting
  a language model.
- Strings are sequences of Unicode scalar values. Python strings that contain lone surrogates have
  no counterpart here.
