/**
 * The example grid of the checker's command-line entry point, and what `find_word` returns on
 * it for "HELLO" and "WORLD".
 */
module Demo {
  import opened Grids
  import opened Scanner

  /** The 5 x 5 grid the entry point searches. */
  const DemoGrid: Grid := [
    ["H", "E", "L", "L", "O"],
    ["W", "O", "R", "L", "D"],
    ["H", "E", "Y", "H", "I"],
    ["B", "Y", "E", "H", "I"],
    ["H", "I", "H", "I", "!"]
  ]

  /** Where some of the letters sit in the demo grid. */
  lemma DemoLetterCells(r: int, c: int, ch: char)
    requires HoldsLetter(DemoGrid, (r, c), ch)
    ensures ch == 'H' ==> (r, c) in [(0, 0), (2, 0), (2, 3), (3, 3), (4, 0), (4, 2)]
    ensures ch == 'E' ==> (r, c) in [(0, 1), (2, 1), (3, 2)]
    ensures ch == 'L' ==> (r, c) in [(0, 2), (0, 3), (1, 3)]
    ensures ch == 'W' ==> (r, c) == (1, 0)
    ensures ch == 'O' ==> (r, c) in [(0, 4), (1, 1)]
  {
  }

  /** The candidates whose first two cells read "HE". */
  lemma HeStarts(h: Start)
    requires ValidStart(DemoGrid, h)
    requires HoldsLetter(DemoGrid, CellAt(h, 0), 'H') && HoldsLetter(DemoGrid, CellAt(h, 1), 'E')
    ensures h in [Start(0, 0, 0), Start(2, 0, 0), Start(2, 3, 3), Start(3, 3, 4), Start(4, 2, 6)]
  {
    var (dr, dc) := Directions[h.dir];
    DemoLetterCells(h.row, h.col, 'H');
    DemoLetterCells(h.row + dr, h.col + dc, 'E');
  }

  /** Only one candidate spells "HELLO": rightwards from the top-left corner. */
  lemma OnlyOneHello(h: Start)
    requires ValidStart(DemoGrid, h) && Spelled(DemoGrid, "HELLO", h)
    ensures h == Start(0, 0, 0)
  {
    assert HoldsLetter(DemoGrid, CellAt(h, 0), 'H');
    assert HoldsLetter(DemoGrid, CellAt(h, 1), 'E');
    assert HoldsLetter(DemoGrid, CellAt(h, 2), 'L');
    HeStarts(h);
  }

  /** Only one candidate spells "WORLD": rightwards from the start of the second row. */
  lemma OnlyOneWorld(h: Start)
    requires ValidStart(DemoGrid, h) && Spelled(DemoGrid, "WORLD", h)
    ensures h == Start(1, 0, 0)
  {
    var (dr, dc) := Directions[h.dir];
    assert HoldsLetter(DemoGrid, CellAt(h, 0), 'W');
    assert HoldsLetter(DemoGrid, CellAt(h, 1), 'O');
    DemoLetterCells(h.row, h.col, 'W');
    DemoLetterCells(h.row + dr, h.col + dc, 'O');
  }

  /** Searching the demo grid for "HELLO" returns exactly the top row, once. */
  lemma HelloExample()
    ensures Occurrences(DemoGrid, "HELLO") == [[(0, 0), (0, 1), (0, 2), (0, 3), (0, 4)]]
  {
    var s := Start(0, 0, 0);
    forall i | 0 <= i < 5 ensures HoldsLetter(DemoGrid, CellAt(s, i), "HELLO"[i]) {
      assert CellAt(s, i) == (0, i);
    }
    forall h | ValidStart(DemoGrid, h) && Spelled(DemoGrid, "HELLO", h) ensures h == s {
      OnlyOneHello(h);
    }
    UniqueOccurrence(DemoGrid, "HELLO", s);
    assert PathAt(s, 5) == [(0, 0), (0, 1), (0, 2), (0, 3), (0, 4)];
  }

  /** Searching the demo grid for "WORLD" returns exactly the second row, once. */
  lemma WorldExample()
    ensures Occurrences(DemoGrid, "WORLD") == [[(1, 0), (1, 1), (1, 2), (1, 3), (1, 4)]]
  {
    var s := Start(1, 0, 0);
    forall i | 0 <= i < 5 ensures HoldsLetter(DemoGrid, CellAt(s, i), "WORLD"[i]) {
      assert CellAt(s, i) == (1, i);
    }
    forall h | ValidStart(DemoGrid, h) && Spelled(DemoGrid, "WORLD", h) ensures h == s {
      OnlyOneWorld(h);
    }
    UniqueOccurrence(DemoGrid, "WORLD", s);
    assert PathAt(s, 5) == [(1, 0), (1, 1), (1, 2), (1, 3), (1, 4)];
  }
}
