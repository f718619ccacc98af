/**
 * The word-search scanner `find_word`: for every start cell, in row-major order, and every one of
 * eight fixed directions, walk `len(word)` steps and record the coordinate path when every step
 * stays inside the grid and lands on the matching letter.
 */
module Scanner {
  import opened Grids

  type Coord = (int, int)
  type Path = seq<Coord>

  /** The eight direction vectors in the order they are tried:
      right, right-down, down, left-down, left, left-up, up, right-up. */
  const Directions: seq<(int, int)> :=
    [(0, 1), (1, 1), (1, 0), (1, -1), (0, -1), (-1, -1), (-1, 0), (-1, 1)]

  /** A candidate occurrence: a start cell and an index into Directions.
      The scan also uses the triple as a position in its loop nest, where `dir` may be 8
      (all directions of the cell done) and `col` may equal the column count. */
  datatype Start = Start(row: int, col: int, dir: nat)

  /** Every row is at least as long as the first row, which fixes the column count;
      so every cell the scan looks at exists. */
  predicate Indexable(grid: Grid) {
    forall i :: 0 <= i < |grid| ==> |grid[i]| >= |grid[0]|
  }

  /** `is_valid_position`: inside `rows` x `cols`, with `cols` taken from the first row. */
  predicate IsValidPosition(grid: Grid, row: int, col: int) {
    grid != [] && 0 <= row < |grid| && 0 <= col < |grid[0]|
  }

  /** Every valid position names an existing cell; on a rectangular grid the valid positions are
      exactly the cells. */
  lemma ValidPositionIsCell(grid: Grid, r: int, c: int)
    requires Indexable(grid)
    ensures IsValidPosition(grid, r, c) ==> 0 <= r < |grid| && 0 <= c < |grid[r]|
    ensures Rectangular(grid) ==>
      (IsValidPosition(grid, r, c) <==> 0 <= r < |grid| && 0 <= c < |grid[r]|)
  {
  }

  predicate ValidStart(grid: Grid, s: Start) {
    IsValidPosition(grid, s.row, s.col) && s.dir < |Directions|
  }

  /** The cell `i` steps away from the start of `s`, along its direction. */
  function CellAt(s: Start, i: int): Coord
    requires s.dir < |Directions|
  {
    (s.row + i * Directions[s.dir].0, s.col + i * Directions[s.dir].1)
  }

  /** One step from `p` along direction `d`. */
  function Step(p: Coord, d: nat): Coord
    requires d < |Directions|
  {
    (p.0 + Directions[d].0, p.1 + Directions[d].1)
  }

  /** Cell `p` lies in the grid and holds exactly the one-letter token `ch`. */
  predicate HoldsLetter(grid: Grid, p: Coord, ch: char)
    requires Indexable(grid)
  {
    IsValidPosition(grid, p.0, p.1) && grid[p.0][p.1] == [ch]
  }

  /** `word` is spelled from the start of `s` along its direction, every step inside the grid. */
  predicate Spelled(grid: Grid, word: string, s: Start)
    requires Indexable(grid) && s.dir < |Directions|
  {
    forall i :: 0 <= i < |word| ==> HoldsLetter(grid, CellAt(s, i), word[i])
  }

  /** The path of the first `n` cells from the start of `s`. */
  function PathAt(s: Start, n: nat): (p: Path)
    requires s.dir < |Directions|
    ensures |p| == n && forall i :: 0 <= i < n ==> p[i] == CellAt(s, i)
  {
    seq(n, i => CellAt(s, i))
  }

  /** The paths of a list of candidates, one per candidate, in the same order. */
  function Paths(hits: seq<Start>, n: nat): (ps: seq<Path>)
    requires forall h :: h in hits ==> h.dir < |Directions|
    ensures |ps| == |hits| && forall i :: 0 <= i < |hits| ==> ps[i] == PathAt(hits[i], n)
  {
    seq(|hits|, i requires 0 <= i < |hits| => PathAt(hits[i], n))
  }

  /** Strict lexicographic order on (row, col, dir): the order in which the loops visit candidates. */
  predicate LexLess(a: Start, b: Start) {
    a.row < b.row || (a.row == b.row && (a.col < b.col || (a.col == b.col && a.dir < b.dir)))
  }

  /** A position the loop nest passes through: row in 0..rows, col in 0..cols, dir in 0..8. */
  predicate ScanPos(grid: Grid, p: Start) {
    grid != [] && 0 <= p.row <= |grid| && 0 <= p.col <= |grid[0]| && p.dir <= |Directions| &&
    (p.row == |grid| ==> p.col == 0 && p.dir == 0) &&
    (p.col == |grid[0]| ==> p.dir == 0)
  }

  /** The candidates recorded before the loop nest reaches position `p`. */
  ghost function ScanBefore(grid: Grid, word: string, p: Start): (hits: seq<Start>)
    requires Indexable(grid) && ScanPos(grid, p)
    ensures forall h :: h in hits ==> ValidStart(grid, h)
    decreases p.row, p.col, p.dir
  {
    if p.dir > 0 then
      var s := Start(p.row, p.col, p.dir - 1);
      ScanBefore(grid, word, s) + (if Spelled(grid, word, s) then [s] else [])
    else if p.col > 0 then
      ScanBefore(grid, word, Start(p.row, p.col - 1, |Directions|))
    else if p.row > 0 then
      ScanBefore(grid, word, Start(p.row - 1, |grid[0]|, 0))
    else
      []
  }

  /** The grids `find_word` can search without indexing past the end of a row: any grid for the
      empty word, which is answered before any cell is read, and otherwise an indexable one. */
  predicate Searchable(grid: Grid, word: string) {
    word == [] || Indexable(grid)
  }

  /** The candidates `find_word` records, in the order it records them. */
  ghost function Hits(grid: Grid, word: string): (hits: seq<Start>)
    requires Searchable(grid, word)
    ensures forall h :: h in hits ==> ValidStart(grid, h)
  {
    if grid == [] || grid[0] == [] || word == [] then []
    else ScanBefore(grid, word, Start(|grid|, 0, 0))
  }

  /** The list of paths `find_word` returns. */
  ghost function Occurrences(grid: Grid, word: string): seq<Path>
    requires Searchable(grid, word)
  {
    Paths(Hits(grid, word), |word|)
  }

  /** `search_direction`: the path of `word` from (startRow, startCol) along direction `d`,
      or the empty path as soon as a step leaves the grid or lands on another letter. */
  method SearchDirection(grid: Grid, word: string, startRow: int, startCol: int, d: nat)
    returns (path: Path)
    requires Indexable(grid) && d < |Directions|
    ensures path == if Spelled(grid, word, Start(startRow, startCol, d))
                    then PathAt(Start(startRow, startCol, d), |word|) else []
  {
    ghost var s := Start(startRow, startCol, d);
    var (dr, dc) := Directions[d];
    path := [];
    var row, col := startRow, startCol;
    for i := 0 to |word|
      invariant row == startRow + i * dr && col == startCol + i * dc
      invariant path == PathAt(s, i)
      invariant forall j :: 0 <= j < i ==> HoldsLetter(grid, CellAt(s, j), word[j])
    {
      if !IsValidPosition(grid, row, col) || grid[row][col] != [word[i]] {
        assert !HoldsLetter(grid, CellAt(s, i), word[i]);
        return [];
      }
      path := path + [(row, col)];
      row, col := row + dr, col + dc;
    }
  }

  /** `find_word`: every straight-line occurrence of `word`, in scan order. */
  method FindWord(grid: Grid, word: string) returns (matches: seq<Path>)
    requires Searchable(grid, word)
    ensures matches == Occurrences(grid, word)
    ensures grid == [] || grid[0] == [] || word == [] ==> matches == []
  {
    if grid == [] || grid[0] == [] || word == [] {
      return [];
    }
    var rows, cols := |grid|, |grid[0]|;
    matches := [];
    for row := 0 to rows
      invariant matches == Paths(ScanBefore(grid, word, Start(row, 0, 0)), |word|)
    {
      for col := 0 to cols
        invariant matches == Paths(ScanBefore(grid, word, Start(row, col, 0)), |word|)
      {
        for d := 0 to |Directions|
          invariant matches == Paths(ScanBefore(grid, word, Start(row, col, d)), |word|)
        {
          var path := SearchDirection(grid, word, row, col, d);
          ghost var s := Start(row, col, d);
          PathsAppend(ScanBefore(grid, word, s), s, |word|);
          if path != [] {
            matches := matches + [path];
          }
        }
      }
      assert ScanBefore(grid, word, Start(row + 1, 0, 0)) == ScanBefore(grid, word, Start(row, cols, 0));
    }
  }

  lemma PathsAppend(hits: seq<Start>, s: Start, n: nat)
    requires forall h :: h in hits ==> h.dir < |Directions|
    requires s.dir < |Directions|
    ensures Paths(hits + [s], n) == Paths(hits, n) + [PathAt(s, n)]
  {
    assert forall h :: h in hits + [s] ==> h.dir < |Directions|;
  }

  /* ---------------------------------------------------------------------------------------- */
  /* What the scan order means                                                                 */
  /* ---------------------------------------------------------------------------------------- */

  /** Strictly increasing in scan order; in particular without repetitions. */
  predicate InScanOrder(hits: seq<Start>) {
    forall i, j :: 0 <= i < j < |hits| ==> LexLess(hits[i], hits[j])
  }

  /** Before position `p` the scan has recorded exactly the spelled candidates that precede `p`. */
  lemma {:induction false} ScanBeforeMembers(grid: Grid, word: string, p: Start)
    requires Indexable(grid) && ScanPos(grid, p)
    ensures forall s :: s in ScanBefore(grid, word, p) <==>
      ValidStart(grid, s) && LexLess(s, p) && Spelled(grid, word, s)
    decreases p.row, p.col, p.dir
  {
    var hits := ScanBefore(grid, word, p);
    if p.dir > 0 {
      var q := Start(p.row, p.col, p.dir - 1);
      ScanBeforeMembers(grid, word, q);
      assert hits == ScanBefore(grid, word, q) + (if Spelled(grid, word, q) then [q] else []);
      forall s ensures LexLess(s, p) <==> LexLess(s, q) || s == q {
      }
    } else if p.col > 0 {
      var q := Start(p.row, p.col - 1, |Directions|);
      ScanBeforeMembers(grid, word, q);
      assert hits == ScanBefore(grid, word, q);
      forall s | ValidStart(grid, s) ensures LexLess(s, p) <==> LexLess(s, q) {
      }
    } else if p.row > 0 {
      var q := Start(p.row - 1, |grid[0]|, 0);
      ScanBeforeMembers(grid, word, q);
      assert hits == ScanBefore(grid, word, q);
      forall s | ValidStart(grid, s) ensures LexLess(s, p) <==> LexLess(s, q) {
      }
    } else {
      forall s | ValidStart(grid, s) ensures !LexLess(s, p) {
      }
    }
  }

  /** ... and records them in scan order. */
  lemma {:induction false} ScanBeforeOrdered(grid: Grid, word: string, p: Start)
    requires Indexable(grid) && ScanPos(grid, p)
    ensures InScanOrder(ScanBefore(grid, word, p))
    decreases p.row, p.col, p.dir
  {
    if p.dir > 0 {
      var q := Start(p.row, p.col, p.dir - 1);
      ScanBeforeOrdered(grid, word, q);
      ScanBeforeMembers(grid, word, q);
    } else if p.col > 0 {
      var q := Start(p.row, p.col - 1, |Directions|);
      ScanBeforeOrdered(grid, word, q);
      assert ScanBefore(grid, word, p) == ScanBefore(grid, word, q);
    } else if p.row > 0 {
      var q := Start(p.row - 1, |grid[0]|, 0);
      ScanBeforeOrdered(grid, word, q);
      assert ScanBefore(grid, word, p) == ScanBefore(grid, word, q);
    }
  }

  /** Completeness and soundness over candidates: a (start cell, direction) pair is recorded
      exactly when the word is non-empty and spelled from it inside the grid. */
  lemma HitsExact(grid: Grid, word: string)
    requires Indexable(grid)
    ensures forall s :: s in Hits(grid, word) <==>
      word != [] && ValidStart(grid, s) && Spelled(grid, word, s)
  {
    if grid != [] && grid[0] != [] && word != [] {
      ScanBeforeMembers(grid, word, Start(|grid|, 0, 0));
    }
  }

  /** Ordering: matches appear in row-major order of their start cell, then in the order of
      Directions; in particular no candidate is recorded twice. */
  lemma HitsSorted(grid: Grid, word: string)
    requires Indexable(grid)
    ensures InScanOrder(Hits(grid, word))
  {
    if grid != [] && grid[0] != [] && word != [] {
      ScanBeforeOrdered(grid, word, Start(|grid|, 0, 0));
    }
  }

  /** Consecutive cells of a path differ by the vector of direction `d`. */
  predicate StepsAlong(p: Path, d: nat)
    requires d < |Directions|
  {
    forall i :: 0 < i < |p| ==> p[i] == Step(p[i - 1], d)
  }

  /** A path is an occurrence of `word`: one cell per letter, each inside the grid and holding
      that letter, and the whole path a straight line along one of the eight directions. */
  predicate IsOccurrence(grid: Grid, word: string, p: Path)
    requires Indexable(grid)
  {
    |p| == |word| &&
    (forall i :: 0 <= i < |p| ==> HoldsLetter(grid, p[i], word[i])) &&
    exists d :: 0 <= d < |Directions| && StepsAlong(p, d)
  }

  lemma CellAtStep(s: Start, i: int)
    requires s.dir < |Directions|
    ensures CellAt(s, i + 1) == Step(CellAt(s, i), s.dir)
  {
    var (dr, dc) := Directions[s.dir];
    assert (i + 1) * dr == i * dr + dr;
    assert (i + 1) * dc == i * dc + dc;
  }

  /** Soundness and straightness: every returned path is an occurrence of the word. */
  lemma OccurrencesSound(grid: Grid, word: string)
    requires Indexable(grid)
    ensures forall m :: m in Occurrences(grid, word) ==> IsOccurrence(grid, word, m)
  {
    var hits := Hits(grid, word);
    HitsExact(grid, word);
    forall m | m in Occurrences(grid, word) ensures IsOccurrence(grid, word, m) {
      var j :| 0 <= j < |hits| && m == Occurrences(grid, word)[j];
      var h := hits[j];
      assert h in hits;
      assert m == PathAt(h, |word|);
      forall i | 0 < i < |m| ensures m[i] == Step(m[i - 1], h.dir) {
        CellAtStep(h, i - 1);
      }
      assert StepsAlong(m, h.dir);
    }
  }

  /** Completeness: from every cell and along every direction in which the word is spelled
      inside the grid, its path is among the matches. */
  lemma OccurrencesComplete(grid: Grid, word: string, s: Start)
    requires Indexable(grid) && word != []
    requires ValidStart(grid, s) && Spelled(grid, word, s)
    ensures PathAt(s, |word|) in Occurrences(grid, word)
  {
    HitsExact(grid, word);
    var hits := Hits(grid, word);
    var j :| 0 <= j < |hits| && hits[j] == s;
    assert Occurrences(grid, word)[j] == PathAt(s, |word|);
  }

  lemma HeadIsMember<X>(xs: seq<X>)
    ensures xs != [] ==> xs[0] in xs
  {
  }

  /** An absent word is not an error: when no candidate spells it, the result is empty. */
  lemma AbsentWordNoMatches(grid: Grid, word: string)
    requires Indexable(grid)
    requires forall s :: ValidStart(grid, s) ==> !Spelled(grid, word, s)
    ensures Occurrences(grid, word) == []
  {
    HitsExact(grid, word);
    var hits := Hits(grid, word);
    HeadIsMember(hits);
  }

  /** A word spelled from exactly one candidate is returned exactly once, as that candidate's
      path. */
  lemma UniqueOccurrence(grid: Grid, word: string, s: Start)
    requires Indexable(grid) && word != []
    requires ValidStart(grid, s) && Spelled(grid, word, s)
    requires forall h :: ValidStart(grid, h) && Spelled(grid, word, h) ==> h == s
    ensures Occurrences(grid, word) == [PathAt(s, |word|)]
  {
    HitsExact(grid, word);
    HitsSorted(grid, word);
    var hits := Hits(grid, word);
    assert s in hits;
    assert |hits| > 1 ==> hits[0] in hits && hits[1] in hits && LexLess(hits[0], hits[1]);
    assert hits == [s];
  }

  /** The number of candidates that precede scan position `p`. */
  function ScanIndex(cols: nat, p: Start): int {
    (p.row * cols + p.col) * |Directions| + p.dir
  }

  lemma {:induction false} ScanBeforeBound(grid: Grid, word: string, p: Start)
    requires Indexable(grid) && ScanPos(grid, p)
    ensures |ScanBefore(grid, word, p)| <= ScanIndex(|grid[0]|, p)
    decreases p.row, p.col, p.dir
  {
    var cols := |grid[0]|;
    if p.dir > 0 {
      ScanBeforeBound(grid, word, Start(p.row, p.col, p.dir - 1));
    } else if p.col > 0 {
      ScanBeforeBound(grid, word, Start(p.row, p.col - 1, |Directions|));
    } else if p.row > 0 {
      ScanBeforeBound(grid, word, Start(p.row - 1, cols, 0));
      RowShift(p.row, cols);
    }
  }

  lemma RowShift(r: int, cols: int)
    ensures (r - 1) * cols + cols == r * cols
  {
  }

  /** Bound: at most one match per (start cell, direction) pair. */
  lemma OccurrencesBound(grid: Grid, word: string)
    requires Indexable(grid) && grid != []
    ensures |Occurrences(grid, word)| <= |grid| * |grid[0]| * |Directions|
  {
    if grid[0] != [] && word != [] {
      ScanBeforeBound(grid, word, Start(|grid|, 0, 0));
    }
  }

  /* ---------------------------------------------------------------------------------------- */
  /* No deduplication                                                                         */
  /* ---------------------------------------------------------------------------------------- */

  /** How many of the directions of cell (r, c) the scan has tried before position `p`. */
  function DirsTried(p: Start, r: int, c: int): nat {
    if p.row > r || (p.row == r && p.col > c) then |Directions|
    else if p.row == r && p.col == c then p.dir
    else 0
  }

  /** A one-letter candidate is its start cell, and it matches exactly when that cell holds
      the letter. */
  lemma OneLetterStart(grid: Grid, ch: char, s: Start)
    requires Indexable(grid) && s.dir < |Directions|
    ensures PathAt(s, 1) == [(s.row, s.col)]
    ensures Spelled(grid, [ch], s) <==> HoldsLetter(grid, (s.row, s.col), ch)
  {
    assert CellAt(s, 0) == (s.row, s.col);
  }

  /** Trying one more direction at a cell adds that cell's one-cell path exactly when the cell
      holds the letter. */
  lemma SingleLetterStep(grid: Grid, ch: char, p: Start, x: Coord)
    requires Indexable(grid) && ScanPos(grid, p) && p.dir > 0
    ensures var q := Start(p.row, p.col, p.dir - 1);
      multiset(Paths(ScanBefore(grid, [ch], p), 1))[[x]] ==
      multiset(Paths(ScanBefore(grid, [ch], q), 1))[[x]] +
      (if x == (p.row, p.col) && HoldsLetter(grid, x, ch) then 1 else 0)
  {
    var q := Start(p.row, p.col, p.dir - 1);
    var hs := ScanBefore(grid, [ch], q);
    OneLetterStart(grid, ch, q);
    if Spelled(grid, [ch], q) {
      PathsAppend(hs, q, 1);
      assert ScanBefore(grid, [ch], p) == hs + [q];
      assert Paths(ScanBefore(grid, [ch], p), 1) == Paths(hs, 1) + [[(p.row, p.col)]];
    } else {
      assert ScanBefore(grid, [ch], p) == hs;
    }
  }

  lemma {:induction false} ScanBeforeSingleLetter(grid: Grid, ch: char, p: Start, r: int, c: int)
    requires Indexable(grid) && ScanPos(grid, p) && IsValidPosition(grid, r, c)
    ensures multiset(Paths(ScanBefore(grid, [ch], p), 1))[[(r, c)]] ==
      if HoldsLetter(grid, (r, c), ch) then DirsTried(p, r, c) else 0
    decreases p.row, p.col, p.dir
  {
    if p.dir > 0 {
      ScanBeforeSingleLetter(grid, ch, Start(p.row, p.col, p.dir - 1), r, c);
      SingleLetterStep(grid, ch, p, (r, c));
    } else if p.col > 0 {
      var q := Start(p.row, p.col - 1, |Directions|);
      ScanBeforeSingleLetter(grid, ch, q, r, c);
      assert ScanBefore(grid, [ch], p) == ScanBefore(grid, [ch], q);
    } else if p.row > 0 {
      var q := Start(p.row - 1, |grid[0]|, 0);
      ScanBeforeSingleLetter(grid, ch, q, r, c);
      assert ScanBefore(grid, [ch], p) == ScanBefore(grid, [ch], q);
    }
  }

  /** A one-letter word is not special-cased: each cell holding it yields the same one-cell
      path once per direction, eight times in all, and no other cell yields that path. */
  lemma SingleLetterEightfold(grid: Grid, ch: char, r: int, c: int)
    requires Indexable(grid) && IsValidPosition(grid, r, c)
    ensures multiset(Occurrences(grid, [ch]))[[(r, c)]] ==
      if HoldsLetter(grid, (r, c), ch) then |Directions| else 0
  {
    if grid[0] != [] {
      ScanBeforeSingleLetter(grid, ch, Start(|grid|, 0, 0), r, c);
    }
  }

  function Reverse<T>(s: seq<T>): seq<T> {
    seq(|s|, i requires 0 <= i < |s| => s[|s| - 1 - i])
  }

  /** The candidate that walks the first `n` cells of `s` backwards: it starts at the last of
      them and goes in the opposite direction. */
  function Backwards(s: Start, n: nat): Start
    requires s.dir < |Directions|
  {
    var last := CellAt(s, n - 1);
    Start(last.0, last.1, (s.dir + 4) % |Directions|)
  }

  lemma CellAtBackwards(s: Start, n: nat, i: int)
    requires s.dir < |Directions|
    ensures CellAt(Backwards(s, n), i) == CellAt(s, n - 1 - i)
  {
    var (dr, dc) := Directions[s.dir];
    assert Directions[Backwards(s, n).dir] == (-dr, -dc);
    assert (n - 1) * dr + i * -dr == (n - 1 - i) * dr;
    assert (n - 1) * dc + i * -dc == (n - 1 - i) * dc;
  }

  lemma MovesAway(s: Start, k: int)
    requires s.dir < |Directions| && k >= 1
    ensures CellAt(s, k) != CellAt(s, 0)
  {
    var (dr, dc) := Directions[s.dir];
    if dr == 1 {
      assert k * dr == k;
    } else if dr == -1 {
      assert k * dr == -k;
    } else if dc == 1 {
      assert k * dc == k;
    } else {
      assert k * dc == -k;
    }
  }

  /** Walking a spelled palindrome backwards spells it too, from a valid start. */
  lemma BackwardsSpelled(grid: Grid, word: string, h: Start)
    requires Indexable(grid) && |word| >= 1 && Reverse(word) == word
    requires ValidStart(grid, h) && Spelled(grid, word, h)
    ensures ValidStart(grid, Backwards(h, |word|)) && Spelled(grid, word, Backwards(h, |word|))
  {
    var n := |word|;
    var e := Backwards(h, n);
    forall i | 0 <= i < n ensures HoldsLetter(grid, CellAt(e, i), word[i]) {
      CellAtBackwards(h, n, i);
      assert word[i] == Reverse(word)[i] == word[n - 1 - i];
    }
    CellAtBackwards(h, n, 0);
    assert HoldsLetter(grid, CellAt(e, 0), word[0]);
  }

  lemma BackwardsPath(h: Start, n: nat)
    requires h.dir < |Directions|
    ensures PathAt(Backwards(h, n), n) == Reverse(PathAt(h, n))
  {
    forall i | 0 <= i < n ensures PathAt(Backwards(h, n), n)[i] == Reverse(PathAt(h, n))[i] {
      CellAtBackwards(h, n, i);
    }
  }

  /** A path of two or more cells fixes its start cell and its direction. */
  lemma PathDeterminesStart(s: Start, t: Start, n: nat)
    requires s.dir < |Directions| && t.dir < |Directions| && n >= 2
    ensures PathAt(s, n) == PathAt(t, n) ==> s == t
  {
    if PathAt(s, n) == PathAt(t, n) {
      assert CellAt(s, 0) == CellAt(t, 0) && CellAt(s, 1) == CellAt(t, 1);
      assert Directions[s.dir] == Directions[t.dir];
    }
  }

  /** Candidates in scan order give each path of two or more cells at most once: exactly once
      when its candidate is among them. */
  lemma {:induction false} PathCount(hits: seq<Start>, s: Start, n: nat)
    requires forall h :: h in hits ==> h.dir < |Directions|
    requires InScanOrder(hits) && s.dir < |Directions| && n >= 2
    ensures multiset(Paths(hits, n))[PathAt(s, n)] == if s in hits then 1 else 0
    decreases |hits|
  {
    if hits != [] {
      var k := |hits| - 1;
      var init, last := hits[..k], hits[k];
      assert hits == init + [last];
      assert forall h :: h in init ==> h in hits;
      PathCount(init, s, n);
      PathsAppend(init, last, n);
      PathDeterminesStart(last, s, n);
      if s == last {
        assert s !in init by {
          forall i | 0 <= i < k ensures init[i] != s {
            assert LexLess(hits[i], hits[k]);
          }
        }
      }
    }
  }

  /** No path of two or more cells is reported twice. */
  lemma ReportedOnce(grid: Grid, word: string, m: Path)
    requires Indexable(grid) && |word| >= 2
    requires m in Occurrences(grid, word)
    ensures multiset(Occurrences(grid, word))[m] == 1
  {
    var hits := Hits(grid, word);
    HitsSorted(grid, word);
    var j :| 0 <= j < |hits| && m == Occurrences(grid, word)[j];
    assert hits[j] in hits;
    PathCount(hits, hits[j], |word|);
  }

  /** A palindrome of two or more letters is reported once per traversal direction: with every
      match, the same cells walked backwards are a further, different match, and each of the two
      is reported exactly once. */
  lemma PalindromeReportedTwice(grid: Grid, word: string, m: Path)
    requires Indexable(grid) && |word| >= 2 && Reverse(word) == word
    requires m in Occurrences(grid, word)
    ensures Reverse(m) in Occurrences(grid, word) && Reverse(m) != m
    ensures multiset(Occurrences(grid, word))[m] == 1
    ensures multiset(Occurrences(grid, word))[Reverse(m)] == 1
  {
    var n := |word|;
    var hits := Hits(grid, word);
    HitsExact(grid, word);
    var j :| 0 <= j < |hits| && m == Occurrences(grid, word)[j];
    var h := hits[j];
    assert h in hits;
    assert m == PathAt(h, n);
    BackwardsSpelled(grid, word, h);
    OccurrencesComplete(grid, word, Backwards(h, n));
    BackwardsPath(h, n);
    MovesAway(h, n - 1);
    assert Reverse(m)[0] == m[n - 1];
    ReportedOnce(grid, word, m);
    ReportedOnce(grid, word, Reverse(m));
  }
}
