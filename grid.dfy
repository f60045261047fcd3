/** The 4x4 board of the Match-3 game, as values: cells, coordinates,
    swaps and the count of occupied cells. */
module Grid {

  /** A cell holds a letter tile or the empty marker "[*]". */
  datatype Cell = Empty | Letter(ch: char)

  /** The board is square; the game uses 4 rows and 4 columns. */
  const Size: int := 4

  /** The letters that random fills draw from. */
  const Alphabet: seq<char> := ['A', 'D', 'F', 'G', 'X']

  type Board = seq<seq<Cell>>

  /** The board keeps its dimensions for the whole game. */
  ghost predicate IsGrid(g: Board) {
    |g| == Size && forall r :: 0 <= r < Size ==> |g[r]| == Size
  }

  predicate OnGrid(r: int, c: int) {
    0 <= r < Size && 0 <= c < Size
  }

  /** Column `c` read top to bottom. */
  function Column(g: Board, c: int): (col: seq<Cell>)
    requires IsGrid(g) && 0 <= c < Size
    ensures |col| == Size
  {
    seq(Size, r requires 0 <= r < Size => g[r][c])
  }

  function SetCell(g: Board, r: int, c: int, x: Cell): (h: Board)
    requires IsGrid(g) && OnGrid(r, c)
    ensures IsGrid(h)
    ensures h[r][c] == x
    ensures forall i, j :: OnGrid(i, j) && (i, j) != (r, c) ==> h[i][j] == g[i][j]
  {
    g[r := g[r][c := x]]
  }

  /** The board with the contents of two cells exchanged. */
  function SwapCells(g: Board, r1: int, c1: int, r2: int, c2: int): (h: Board)
    requires IsGrid(g) && OnGrid(r1, c1) && OnGrid(r2, c2)
    ensures IsGrid(h)
    ensures h[r1][c1] == g[r2][c2] && h[r2][c2] == g[r1][c1]
    ensures forall i, j :: OnGrid(i, j) && (i, j) != (r1, c1) && (i, j) != (r2, c2) ==> h[i][j] == g[i][j]
  {
    SetCell(SetCell(g, r1, c1, g[r2][c2]), r2, c2, g[r1][c1])
  }

  /** A cell filled by a random draw: a letter of the alphabet. */
  predicate Drawn(x: Cell) {
    x.Letter? && x.ch in Alphabet
  }

  /** Exchanging two cells of column `c` exchanges them in that column
      and leaves every other column as it was. */
  lemma ColumnsAfterSwap(g: Board, r1: int, r2: int, c: int)
    requires IsGrid(g) && OnGrid(r1, c) && OnGrid(r2, c)
    ensures Column(SwapCells(g, r1, c, r2, c), c) == Column(g, c)[r1 := g[r2][c]][r2 := g[r1][c]]
    ensures forall k :: 0 <= k < Size && k != c ==> Column(SwapCells(g, r1, c, r2, c), k) == Column(g, k)
  {
  }

  /** The four swipe directions: 'w', 's', 'a' and 'd'. */
  datatype Direction = Up | Down | Left | Right

  /** The cell next to (r, c) in direction `d`; it may lie off the board. */
  function Neighbour(r: int, c: int, d: Direction): (int, int) {
    match d
    case Up => (r - 1, c)
    case Down => (r + 1, c)
    case Left => (r, c - 1)
    case Right => (r, c + 1)
  }

  /** Every cell of `h` is the cell of `g` at the same place, or empty:
      `h` arises from `g` by clearing cells only. */
  ghost predicate ClearedFrom(h: Board, g: Board)
    requires IsGrid(h) && IsGrid(g)
  {
    forall r, c :: OnGrid(r, c) ==> h[r][c] == g[r][c] || h[r][c] == Empty
  }

  /** The letters of a line in their order, the empty cells dropped. */
  function LettersOf(l: seq<Cell>): (f: seq<Cell>)
    ensures |f| <= |l|
    ensures forall i :: 0 <= i < |f| ==> f[i] != Empty
  {
    if l == [] then []
    else if l[0] == Empty then LettersOf(l[1..])
    else [l[0]] + LettersOf(l[1..])
  }

  lemma {:induction false} LettersOfAppend(a: seq<Cell>, b: seq<Cell>)
    ensures LettersOf(a + b) == LettersOf(a) + LettersOf(b)
  {
    if a == [] {
      assert a + b == b;
    } else {
      assert (a + b)[1..] == a[1..] + b;
      LettersOfAppend(a[1..], b);
    }
  }

  /** Clearing one occupied cell of a line loses exactly one letter. */
  lemma {:induction false} LettersOfClearOne(l: seq<Cell>, i: int)
    requires 0 <= i < |l| && l[i] != Empty
    ensures |LettersOf(l[i := Empty])| == |LettersOf(l)| - 1
  {
    if i > 0 {
      assert l[i := Empty][1..] == l[1..][i - 1 := Empty];
      LettersOfClearOne(l[1..], i - 1);
    } else {
      assert l[i := Empty][1..] == l[1..];
    }
  }

  /** A line that only loses letters has no more letters than before. */
  lemma {:induction false} LettersOfClearedLine(m: seq<Cell>, l: seq<Cell>)
    requires |m| == |l|
    requires forall i :: 0 <= i < |l| ==> m[i] == l[i] || m[i] == Empty
    ensures |LettersOf(m)| <= |LettersOf(l)|
  {
    if l != [] {
      LettersOfClearedLine(m[1..], l[1..]);
    }
  }

  /** The number of occupied cells in columns 0 .. n-1. */
  function CountColumns(g: Board, n: int): nat
    requires IsGrid(g) && 0 <= n <= Size
  {
    if n == 0 then 0 else CountColumns(g, n - 1) + |LettersOf(Column(g, n - 1))|
  }

  /** The number of occupied cells on the board. */
  function Count(g: Board): nat
    requires IsGrid(g)
  {
    CountColumns(g, Size)
  }

  lemma {:induction false} CountColumnsCleared(h: Board, g: Board, n: int)
    requires IsGrid(h) && IsGrid(g) && 0 <= n <= Size && ClearedFrom(h, g)
    ensures CountColumns(h, n) <= CountColumns(g, n)
  {
    if n > 0 {
      CountColumnsCleared(h, g, n - 1);
      LettersOfClearedLine(Column(h, n - 1), Column(g, n - 1));
    }
  }

  /** Clearing cells never adds to the count. */
  lemma CountCleared(h: Board, g: Board)
    requires IsGrid(h) && IsGrid(g) && ClearedFrom(h, g)
    ensures Count(h) <= Count(g)
  {
    CountColumnsCleared(h, g, Size);
  }

  lemma {:induction false} CountColumnsClearOne(g: Board, r: int, c: int, n: int)
    requires IsGrid(g) && OnGrid(r, c) && g[r][c] != Empty && 0 <= n <= Size
    ensures CountColumns(SetCell(g, r, c, Empty), n)
         == if n <= c then CountColumns(g, n) else CountColumns(g, n) - 1
  {
    if n > 0 {
      var h := SetCell(g, r, c, Empty);
      CountColumnsClearOne(g, r, c, n - 1);
      if n - 1 == c {
        assert Column(h, c) == Column(g, c)[r := Empty];
        LettersOfClearOne(Column(g, c), r);
      } else {
        assert Column(h, n - 1) == Column(g, n - 1);
      }
    }
  }

  /** Clearing one occupied cell lowers the count by exactly one. */
  lemma CountClearOne(g: Board, r: int, c: int)
    requires IsGrid(g) && OnGrid(r, c) && g[r][c] != Empty
    ensures Count(SetCell(g, r, c, Empty)) == Count(g) - 1
  {
    CountColumnsClearOne(g, r, c, Size);
  }
}
