/** Clearing matched runs: one reported match at a time, and repeatedly
    until no match is left. */
module Clearing {
  import opened Grid
  import opened Detection

  /** (r, c) lies on the reported vertical run; a sentinel row -1 means none. */
  predicate InVertical(info: MatchInfo, r: int, c: int) {
    info.high.row != -1 && c == info.high.col && info.high.row <= r <= info.low.row
  }

  /** (r, c) lies on the reported horizontal run; a sentinel row -1 means none. */
  predicate InHorizontal(info: MatchInfo, r: int, c: int) {
    info.left.row != -1 && r == info.left.row && info.left.col <= c <= info.right.col
  }

  /** The cells a clear may write lie on the board. */
  predicate InfoOnBoard(info: MatchInfo) {
    (info.high.row == -1 || (0 <= info.high.row && info.low.row < Size && 0 <= info.high.col < Size)) &&
    (info.left.row == -1 || (0 <= info.left.row < Size && 0 <= info.left.col && info.right.col < Size))
  }

  /** The board with both reported runs set to empty. */
  function Clear(g: Board, info: MatchInfo): (h: Board)
    requires IsGrid(g)
    ensures IsGrid(h)
  {
    seq(Size, r requires 0 <= r < Size =>
      seq(Size, c requires 0 <= c < Size =>
        if InVertical(info, r, c) || InHorizontal(info, r, c) then Empty else g[r][c]))
  }

  /** A report that detection produces names cells on the board only. */
  lemma WellFormedOnBoard(g: Board, s: Report)
    requires IsGrid(g) && WellFormed(g, s)
    ensures InfoOnBoard(s.info)
  {
  }

  /** Clearing a detected match empties at least three occupied cells and
      touches nothing else, so the count of occupied cells drops by three
      or more. */
  lemma ClearShrinks(g: Board, s: Report)
    requires IsGrid(g) && WellFormed(g, s) && s.present
    ensures ClearedFrom(Clear(g, s.info), g)
    ensures Count(Clear(g, s.info)) <= Count(g) - 3
  {
    var info := s.info;
    var h := Clear(g, info);
    var r1, c1, r2, c2, r3, c3;
    if info.high != Nowhere {
      var col := Column(g, info.high.col);
      assert col[info.high.row + 1] == col[info.high.row] && col[info.high.row + 2] == col[info.high.row];
      r1, r2, r3 := info.high.row, info.high.row + 1, info.high.row + 2;
      c1, c2, c3 := info.high.col, info.high.col, info.high.col;
    } else {
      var line := g[info.left.row];
      assert line[info.left.col + 1] == line[info.left.col] && line[info.left.col + 2] == line[info.left.col];
      r1, r2, r3 := info.left.row, info.left.row, info.left.row;
      c1, c2, c3 := info.left.col, info.left.col + 1, info.left.col + 2;
    }
    assert g[r1][c1] != Empty && g[r2][c2] != Empty && g[r3][c3] != Empty;
    var h1 := SetCell(g, r1, c1, Empty);
    CountClearOne(g, r1, c1);
    var h2 := SetCell(h1, r2, c2, Empty);
    CountClearOne(h1, r2, c2);
    var h3 := SetCell(h2, r3, c3, Empty);
    CountClearOne(h2, r3, c3);
    assert ClearedFrom(h, h3);
    CountCleared(h, h3);
  }

  /** The board after clearing one reported match after another until
      detection finds none. */
  function ClearAll(g: Board): (h: Board)
    requires IsGrid(g)
    ensures IsGrid(h) && ClearedFrom(h, g)
    ensures !HasMatch(h)
    ensures Count(h) <= Count(g)
    ensures HasMatch(g) ==> Count(h) <= Count(g) - 3
    ensures !HasMatch(g) ==> h == g
    decreases Count(g)
  {
    DetectComplete(g);
    var s := Detect(g);
    if s.present then
      DetectWellFormed(g);
      ClearShrinks(g, s);
      ClearAll(Clear(g, s.info))
    else
      g
  }
}
