/** Match detection: the row-major scan that finds runs of three or more
    equal letters, reporting the last vertical and the last horizontal run. */
module Detection {
  import opened Grid

  /** A board position (row, column); (-1, -1) stands for "no run". */
  datatype Coord = Coord(row: int, col: int)

  const Nowhere: Coord := Coord(-1, -1)

  /** The ends of the reported runs: `high` is the top and `low` the bottom
      cell of a vertical run, `left` and `right` the ends of a horizontal one. */
  datatype MatchInfo = MatchInfo(high: Coord, low: Coord, left: Coord, right: Coord)

  const NoMatchInfo: MatchInfo := MatchInfo(Nowhere, Nowhere, Nowhere, Nowhere)

  /** What one scan returns: whether a match is present, and where. */
  datatype Report = Report(present: bool, info: MatchInfo)

  const Nothing: Report := Report(false, NoMatchInfo)

  /** Three equal letters starting at (r, c) and going down. */
  predicate VerticalTriple(g: Board, r: int, c: int)
    requires IsGrid(g)
  {
    0 <= r && r + 2 < Size && 0 <= c < Size &&
    g[r][c] != Empty && g[r + 1][c] == g[r][c] && g[r + 2][c] == g[r][c]
  }

  /** Three equal letters starting at (r, c) and going right. */
  predicate HorizontalTriple(g: Board, r: int, c: int)
    requires IsGrid(g)
  {
    0 <= r < Size && 0 <= c && c + 2 < Size &&
    g[r][c] != Empty && g[r][c + 1] == g[r][c] && g[r][c + 2] == g[r][c]
  }

  /** Some row or column holds three consecutive equal letters. */
  ghost predicate HasMatch(g: Board)
    requires IsGrid(g)
  {
    exists r, c :: VerticalTriple(g, r, c) || HorizontalTriple(g, r, c)
  }

  /** The first index at or after `i` whose cell is not `x`
      (the downward and rightward `while` loops of `match_presence_and_info`). */
  function ExtendForward(line: seq<Cell>, x: Cell, i: int): (j: int)
    requires 0 <= i <= |line|
    ensures i <= j <= |line|
    ensures forall k :: i <= k < j ==> line[k] == x
    ensures j == |line| || line[j] != x
    decreases |line| - i
  {
    if i < |line| && line[i] == x then ExtendForward(line, x, i + 1) else i
  }

  /** The last index at or before `i` whose cell is not `x`, or -1
      (the upward and leftward `while` loops of `match_presence_and_info`). */
  function ExtendBackward(line: seq<Cell>, x: Cell, i: int): (j: int)
    requires -1 <= i < |line|
    ensures -1 <= j <= i
    ensures forall k :: j < k <= i ==> line[k] == x
    ensures j == -1 || line[j] != x
    decreases i + 1
  {
    if i > -1 && line[i] == x then ExtendBackward(line, x, i - 1) else i
  }

  /** The first and last index of the run of equal cells through index `i`. */
  function RunThrough(line: seq<Cell>, i: int): (int, int)
    requires 0 <= i < |line|
  {
    (ExtendBackward(line, line[i], i - 1) + 1, ExtendForward(line, line[i], i + 1) - 1)
  }

  /** `line[lo..hi]` is a maximal run of one letter, at least three long. */
  ghost predicate IsMatchRun(line: seq<Cell>, lo: int, hi: int) {
    0 <= lo && hi < |line| && hi - lo + 1 >= 3 && line[lo] != Empty &&
    (forall k :: lo <= k <= hi ==> line[k] == line[lo]) &&
    (lo == 0 || line[lo - 1] != line[lo]) &&
    (hi == |line| - 1 || line[hi + 1] != line[lo])
  }

  /** A run through an occupied cell that is at least three long is a
      maximal match run. */
  lemma RunThroughIsMatchRun(line: seq<Cell>, i: int)
    requires 0 <= i < |line| && line[i] != Empty
    requires RunThrough(line, i).1 - RunThrough(line, i).0 + 1 >= 3
    ensures IsMatchRun(line, RunThrough(line, i).0, RunThrough(line, i).1)
  {
  }

  /** Three equal letters starting at `i` make the run through `i` a match. */
  lemma TripleMakesLongRun(line: seq<Cell>, i: int)
    requires 0 <= i && i + 2 < |line| && line[i] != Empty
    requires line[i + 1] == line[i] && line[i + 2] == line[i]
    ensures RunThrough(line, i).1 - RunThrough(line, i).0 + 1 >= 3
  {
  }

  /** The vertical run through (r, c): first and last row. */
  function VerticalRun(g: Board, r: int, c: int): (int, int)
    requires IsGrid(g) && OnGrid(r, c)
  {
    RunThrough(Column(g, c), r)
  }

  /** The horizontal run through (r, c): first and last column. */
  function HorizontalRun(g: Board, r: int, c: int): (int, int)
    requires IsGrid(g) && OnGrid(r, c)
  {
    RunThrough(g[r], c)
  }

  predicate LongRun(run: (int, int)) {
    run.1 - run.0 + 1 >= 3
  }

  /** The scan records something at (r, c). */
  ghost predicate Hit(g: Board, r: int, c: int)
    requires IsGrid(g) && OnGrid(r, c)
  {
    g[r][c] != Empty && (LongRun(VerticalRun(g, r, c)) || LongRun(HorizontalRun(g, r, c)))
  }

  /** What the scan does at one cell: an empty cell is skipped; a long
      vertical run overwrites `high`/`low`, then a long horizontal run
      overwrites `left`/`right`. */
  function Step(g: Board, r: int, c: int, s: Report): Report
    requires IsGrid(g) && OnGrid(r, c)
  {
    if g[r][c] == Empty then s
    else
      var v := VerticalRun(g, r, c);
      var s1 := if LongRun(v) then Report(true, s.info.(high := Coord(v.0, c), low := Coord(v.1, c))) else s;
      var h := HorizontalRun(g, r, c);
      if LongRun(h) then Report(true, s1.info.(left := Coord(r, h.0), right := Coord(r, h.1))) else s1
  }

  /** The scan of cells c .. Size-1 of row r, starting from report `s`. */
  function ScanRow(g: Board, r: int, c: int, s: Report): Report
    requires IsGrid(g) && 0 <= r < Size && 0 <= c <= Size
    decreases Size - c
  {
    if c == Size then s else ScanRow(g, r, c + 1, Step(g, r, c, s))
  }

  /** The scan of rows r .. Size-1, starting from report `s`. */
  function ScanRows(g: Board, r: int, s: Report): Report
    requires IsGrid(g) && 0 <= r <= Size
    decreases Size - r
  {
    if r == Size then s else ScanRows(g, r + 1, ScanRow(g, r, 0, s))
  }

  /** The report of a full row-major scan of the board. */
  function Detect(g: Board): Report
    requires IsGrid(g)
  {
    ScanRows(g, 0, Nothing)
  }

  /** The reported vertical run is absent, or a maximal match run in one column. */
  ghost predicate VerticalOk(g: Board, info: MatchInfo)
    requires IsGrid(g)
  {
    (info.high == Nowhere && info.low == Nowhere) ||
    (0 <= info.high.col < Size && info.low.col == info.high.col &&
     IsMatchRun(Column(g, info.high.col), info.high.row, info.low.row))
  }

  /** The reported horizontal run is absent, or a maximal match run in one row. */
  ghost predicate HorizontalOk(g: Board, info: MatchInfo)
    requires IsGrid(g)
  {
    (info.left == Nowhere && info.right == Nowhere) ||
    (0 <= info.left.row < Size && info.right.row == info.left.row &&
     IsMatchRun(g[info.left.row], info.left.col, info.right.col))
  }

  /** Both reported runs are well formed and a match is flagged exactly
      when one of them is reported. */
  ghost predicate WellFormed(g: Board, s: Report)
    requires IsGrid(g)
  {
    VerticalOk(g, s.info) && HorizontalOk(g, s.info) &&
    (s.present <==> (s.info.high != Nowhere || s.info.left != Nowhere))
  }

  lemma StepWellFormed(g: Board, r: int, c: int, s: Report)
    requires IsGrid(g) && OnGrid(r, c) && WellFormed(g, s)
    ensures WellFormed(g, Step(g, r, c, s))
  {
  }

  lemma {:induction false} ScanRowWellFormed(g: Board, r: int, c: int, s: Report)
    requires IsGrid(g) && 0 <= r < Size && 0 <= c <= Size && WellFormed(g, s)
    ensures WellFormed(g, ScanRow(g, r, c, s))
    decreases Size - c
  {
    if c < Size {
      StepWellFormed(g, r, c, s);
      ScanRowWellFormed(g, r, c + 1, Step(g, r, c, s));
    }
  }

  lemma {:induction false} ScanRowsWellFormed(g: Board, r: int, s: Report)
    requires IsGrid(g) && 0 <= r <= Size && WellFormed(g, s)
    ensures WellFormed(g, ScanRows(g, r, s))
    decreases Size - r
  {
    if r < Size {
      ScanRowWellFormed(g, r, 0, s);
      ScanRowsWellFormed(g, r + 1, ScanRow(g, r, 0, s));
    }
  }

  /** A reported run is well formed: a vertical report names one column,
      spans at least three rows of one letter and cannot be extended up or
      down; likewise a horizontal report in one row. A match is flagged
      exactly when some run is reported. */
  lemma DetectWellFormed(g: Board)
    requires IsGrid(g)
    ensures WellFormed(g, Detect(g))
  {
    ScanRowsWellFormed(g, 0, Nothing);
  }

  lemma StepPresence(g: Board, r: int, c: int, s: Report)
    requires IsGrid(g) && OnGrid(r, c)
    ensures Step(g, r, c, s).present == (s.present || Hit(g, r, c))
    ensures !Hit(g, r, c) ==> Step(g, r, c, s) == s
  {
  }

  lemma {:induction false} ScanRowPresence(g: Board, r: int, c: int, s: Report)
    requires IsGrid(g) && 0 <= r < Size && 0 <= c <= Size
    ensures ScanRow(g, r, c, s).present <==> s.present || exists k :: c <= k < Size && Hit(g, r, k)
    ensures (forall k :: c <= k < Size ==> !Hit(g, r, k)) ==> ScanRow(g, r, c, s) == s
    decreases Size - c
  {
    if c < Size {
      StepPresence(g, r, c, s);
      ScanRowPresence(g, r, c + 1, Step(g, r, c, s));
    }
  }

  lemma {:induction false} ScanRowsPresence(g: Board, r: int, s: Report)
    requires IsGrid(g) && 0 <= r <= Size
    ensures ScanRows(g, r, s).present <==>
            s.present || exists i, k :: r <= i < Size && 0 <= k < Size && Hit(g, i, k)
    ensures (forall i, k :: r <= i < Size && 0 <= k < Size ==> !Hit(g, i, k)) ==> ScanRows(g, r, s) == s
    decreases Size - r
  {
    if r < Size {
      ScanRowPresence(g, r, 0, s);
      ScanRowsPresence(g, r + 1, ScanRow(g, r, 0, s));
    }
  }

  /** The scan records something somewhere exactly when some row or column
      holds three equal letters in a row. */
  lemma HitIffMatch(g: Board)
    requires IsGrid(g)
    ensures (exists i, k :: 0 <= i < Size && 0 <= k < Size && Hit(g, i, k)) <==> HasMatch(g)
  {
    if exists i, k :: 0 <= i < Size && 0 <= k < Size && Hit(g, i, k) {
      var i, k :| 0 <= i < Size && 0 <= k < Size && Hit(g, i, k);
      if LongRun(VerticalRun(g, i, k)) {
        RunThroughIsMatchRun(Column(g, k), i);
        var lo := VerticalRun(g, i, k).0;
        assert VerticalTriple(g, lo, k) by {
          assert Column(g, k)[lo + 1] == Column(g, k)[lo];
          assert Column(g, k)[lo + 2] == Column(g, k)[lo];
        }
      } else {
        RunThroughIsMatchRun(g[i], k);
        var lo := HorizontalRun(g, i, k).0;
        assert HorizontalTriple(g, i, lo);
      }
    }
    if HasMatch(g) {
      var r, c :| VerticalTriple(g, r, c) || HorizontalTriple(g, r, c);
      if VerticalTriple(g, r, c) {
        TripleMakesLongRun(Column(g, c), r);
      } else {
        TripleMakesLongRun(g[r], c);
      }
      assert Hit(g, r, c);
    }
  }

  /** Detection is complete: it flags a match exactly when some row or
      column holds three consecutive equal letters, and when it flags none
      all four positions are the sentinel (-1, -1). */
  lemma DetectComplete(g: Board)
    requires IsGrid(g)
    ensures Detect(g).present <==> HasMatch(g)
    ensures !Detect(g).present ==> Detect(g).info == NoMatchInfo
  {
    ScanRowsPresence(g, 0, Nothing);
    HitIffMatch(g);
  }

  /** The scan of `match_presence_and_info`: for every occupied cell, row-major, extend the run
      up and down and left and right, and keep the last vertical and the
      last horizontal run of length three or more. */
  method MatchPresenceAndInfo(state: Board) returns (present: bool, info: MatchInfo)
    requires IsGrid(state)
    ensures Report(present, info) == Detect(state)
    ensures present <==> HasMatch(state)
    ensures WellFormed(state, Report(present, info))
  {
    present, info := false, NoMatchInfo;
    var row := 0;
    while row < Size
      invariant 0 <= row <= Size
      invariant ScanRows(state, row, Report(present, info)) == Detect(state)
    {
      var col := 0;
      while col < Size
        invariant 0 <= col <= Size
        invariant ScanRows(state, row + 1, ScanRow(state, row, col, Report(present, info))) == Detect(state)
      {
        present, info := ScanCell(state, row, col, present, info);
        col := col + 1;
      }
      row := row + 1;
    }
    DetectComplete(state);
    DetectWellFormed(state);
  }

  /** The body of the scan at cell (row, col): extend the run through the
      cell in both directions of its column, then of its row, and update
      the report when a run is three or more long. */
  method ScanCell(state: Board, row: int, col: int, present0: bool, info0: MatchInfo)
    returns (present: bool, info: MatchInfo)
    requires IsGrid(state) && OnGrid(row, col)
    ensures Report(present, info) == Step(state, row, col, Report(present0, info0))
  {
    present, info := present0, info0;
    var current := state[row][col];
    if current == Empty {
      return;
    }

    var lowest := SearchDown(state, row, col);
    var highest := SearchUp(state, row, col);
    if lowest - highest + 1 >= 3 {
      present := true;
      info := info.(high := Coord(highest, col), low := Coord(lowest, col));
    }

    var rightmost := SearchRight(state, row, col);
    var leftmost := SearchLeft(state, row, col);
    if rightmost - leftmost + 1 >= 3 {
      present := true;
      info := info.(left := Coord(row, leftmost), right := Coord(row, rightmost));
    }
  }

  /** The bottom row of the run of the letter at (row, col) in its column. */
  method SearchDown(state: Board, row: int, col: int) returns (lowest: int)
    requires IsGrid(state) && OnGrid(row, col)
    ensures lowest == VerticalRun(state, row, col).1
    ensures row <= lowest < Size
    ensures forall k :: row <= k <= lowest ==> state[k][col] == state[row][col]
    ensures lowest == Size - 1 || state[lowest + 1][col] != state[row][col]
  {
    var current := state[row][col];
    ghost var column := Column(state, col);
    var down := row + 1;
    while down < Size && state[down][col] == current
      invariant row + 1 <= down <= Size
      invariant ExtendForward(column, current, down) == ExtendForward(column, current, row + 1)
    {
      down := down + 1;
    }
    lowest := down - 1;
    assert forall k :: 0 <= k < Size ==> column[k] == state[k][col];
  }

  /** The top row of the run of the letter at (row, col) in its column. */
  method SearchUp(state: Board, row: int, col: int) returns (highest: int)
    requires IsGrid(state) && OnGrid(row, col)
    ensures highest == VerticalRun(state, row, col).0
    ensures 0 <= highest <= row
    ensures forall k :: highest <= k <= row ==> state[k][col] == state[row][col]
    ensures highest == 0 || state[highest - 1][col] != state[row][col]
  {
    var current := state[row][col];
    ghost var column := Column(state, col);
    var up := row - 1;
    while up > -1 && state[up][col] == current
      invariant -1 <= up <= row - 1
      invariant ExtendBackward(column, current, up) == ExtendBackward(column, current, row - 1)
    {
      up := up - 1;
    }
    highest := up + 1;
    assert forall k :: 0 <= k < Size ==> column[k] == state[k][col];
  }

  /** The rightmost column of the run of the letter at (row, col) in its row. */
  method SearchRight(state: Board, row: int, col: int) returns (rightmost: int)
    requires IsGrid(state) && OnGrid(row, col)
    ensures rightmost == HorizontalRun(state, row, col).1
    ensures col <= rightmost < Size
    ensures forall k :: col <= k <= rightmost ==> state[row][k] == state[row][col]
    ensures rightmost == Size - 1 || state[row][rightmost + 1] != state[row][col]
  {
    var current := state[row][col];
    var right := col + 1;
    while right < Size && state[row][right] == current
      invariant col + 1 <= right <= Size
      invariant ExtendForward(state[row], current, right) == ExtendForward(state[row], current, col + 1)
    {
      right := right + 1;
    }
    rightmost := right - 1;
  }

  /** The leftmost column of the run of the letter at (row, col) in its row. */
  method SearchLeft(state: Board, row: int, col: int) returns (leftmost: int)
    requires IsGrid(state) && OnGrid(row, col)
    ensures leftmost == HorizontalRun(state, row, col).0
    ensures 0 <= leftmost <= col
    ensures forall k :: leftmost <= k <= col ==> state[row][k] == state[row][col]
    ensures leftmost == 0 || state[row][leftmost - 1] != state[row][col]
  {
    var current := state[row][col];
    var left := col - 1;
    while left > -1 && state[row][left] == current
      invariant -1 <= left <= col - 1
      invariant ExtendBackward(state[row], current, left) == ExtendBackward(state[row], current, col - 1)
    {
      left := left - 1;
    }
    leftmost := left + 1;
  }

  /** Presence only: whether the board holds a match. */
  method CheckCurrentMatch(state: Board) returns (present: bool)
    requires IsGrid(state)
    ensures present <==> HasMatch(state)
    ensures present == Detect(state).present
  {
    var info;
    present, info := MatchPresenceAndInfo(state);
  }
}
