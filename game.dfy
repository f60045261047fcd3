/** The game engine: the board the player swipes on, and the operations
    that change it in place. */
module Match3 {
  import opened Grid
  import opened Detection
  import opened Clearing
  import opened Gravity
  import opened Moves

  /** What a swipe did: committed and resolved, rejected because the swap
      makes no match, or rejected because it leaves the board. */
  datatype SwipeOutcome = Applied | NoMatch | CannotSwipe

  /** No cell of the board is empty. */
  ghost predicate Full(g: Board)
    requires IsGrid(g)
  {
    forall r, c :: OnGrid(r, c) ==> g[r][c] != Empty
  }

  /** A board with no empty cell has every column compacted. */
  lemma FullIsCompacted(g: Board)
    requires IsGrid(g) && Full(g)
    ensures Compacted(g)
  {
  }

  /** The board the drop-and-clear cascade comes to rest on: compact every
      column; while the compacted board holds a match, clear all matches and
      cascade again. */
  function Cascade(g: Board): (h: Board)
    requires IsGrid(g)
    ensures IsGrid(h) && !HasMatch(h) && Compacted(h)
    ensures Count(h) <= Count(g)
    ensures Compacted(g) && !HasMatch(g) ==> h == g
    decreases Count(g)
  {
    CollapseCorrect(g);
    var c := Collapse(g);
    DetectComplete(c);
    if Detect(c).present then
      Cascade(ClearAll(c))
    else
      c
  }

  /** `f` is a refill of `g`: every letter of `g` stays and every empty
      cell of `g` receives a letter of the alphabet. */
  ghost predicate RefillOf(g: Board, f: Board)
    requires IsGrid(g) && IsGrid(f)
  {
    forall r, c :: OnGrid(r, c) ==>
      if g[r][c] == Empty then Drawn(f[r][c]) else f[r][c] == g[r][c]
  }

  /** Every board of the sequence is a 4x4 grid. */
  ghost predicate Grids(fs: seq<Board>) {
    forall i :: 0 <= i < |fs| ==> IsGrid(fs[i])
  }

  /** The last board of a non-empty sequence. */
  function Last(fs: seq<Board>): Board
    requires |fs| >= 1
  {
    fs[|fs| - 1]
  }

  lemma LastCons(f: Board, rest: seq<Board>)
    requires |rest| >= 1
    ensures Last([f] + rest) == Last(rest)
  {
  }

  /** The chain reaction of refills starting from `g`: the first refills
      `g`; unless it is the last, it holds a match and offers a feasible
      move (the only refills accepted), and the rest of the
      chain starts from the board that clearing its matches and cascading
      leaves. */
  ghost predicate Refills(g: Board, fs: seq<Board>)
    requires IsGrid(g) && Grids(fs)
    decreases |fs|
  {
    |fs| >= 1 && RefillOf(g, fs[0]) &&
    (|fs| > 1 ==> HasMatch(fs[0]) && HasFeasibleMove(fs[0]) && Refills(Cascade(ClearAll(fs[0])), fs[1..]))
  }

  lemma GridsCons(f: Board, rest: seq<Board>)
    requires IsGrid(f) && Grids(rest)
    ensures Grids([f] + rest)
  {
  }

  /** A single refill is a chain on its own. */
  lemma RefillsOne(g: Board, f: Board)
    requires IsGrid(g) && IsGrid(f) && RefillOf(g, f)
    ensures Grids([f]) && Refills(g, [f]) && Last([f]) == f
  {
  }

  /** A refill that holds a match, followed by a chain from the board its
      clearing and cascade leave, is a chain from the original board. */
  lemma RefillsCons(g: Board, f: Board, rest: seq<Board>)
    requires IsGrid(g) && IsGrid(f) && RefillOf(g, f) && HasMatch(f) && HasFeasibleMove(f)
    requires Grids(rest) && Refills(Cascade(ClearAll(f)), rest)
    ensures Grids([f] + rest) && Refills(g, [f] + rest)
  {
    GridsCons(f, rest);
    assert ([f] + rest)[1..] == rest;
  }

  /** A full board without a match is its own and only refill chain. */
  lemma RefillsAtRest(g: Board, fs: seq<Board>)
    requires IsGrid(g) && Full(g) && !HasMatch(g)
    requires Grids(fs) && Refills(g, fs)
    ensures fs == [g] && Last(fs) == g
  {
    SameBoard(fs[0], g);
  }

  class Game {
    /** The board, row by row. */
    var board: Board

    ghost predicate Valid()
      reads this
    {
      IsGrid(board)
    }

    /** The game starts with every cell empty. */
    constructor ()
      ensures Valid()
      ensures forall r, c :: OnGrid(r, c) ==> board[r][c] == Empty
    {
      board := seq(Size, _ => seq(Size, _ => Empty));
    }

    /** Try every in-bounds swipe of every occupied cell (up, down, left,
        right) on a copy of the board and report whether one makes a match.
        The board itself is only read. */
    method CheckPotentialMatch() returns (possible: bool)
      requires Valid()
      ensures possible <==> HasFeasibleMove(board)
    {
      var row := 0;
      while row < Size
        invariant 0 <= row <= Size
        invariant forall r, c :: 0 <= r < row && 0 <= c < Size ==> !Movable(board, r, c)
      {
        var col := 0;
        while col < Size
          invariant 0 <= col <= Size
          invariant forall r, c :: 0 <= r < row && 0 <= c < Size ==> !Movable(board, r, c)
          invariant forall c :: 0 <= c < col ==> !Movable(board, row, c)
        {
          var movable := CheckCellMoves(row, col);
          if movable {
            return true;
          }
          col := col + 1;
        }
        row := row + 1;
      }
      return false;
    }

    /** The body of the search at one cell: an empty cell is skipped; an
        occupied one is swiped up, down, left and right in turn, where the
        neighbour exists, until a swipe makes a match. */
    method CheckCellMoves(row: int, col: int) returns (movable: bool)
      requires Valid() && OnGrid(row, col)
      ensures movable <==> Movable(board, row, col)
    {
      if board[row][col] == Empty {
        return false;
      }
      // upward swipe
      if row > 0 {
        movable := TrySwipe(row, col, Up);
        if movable {
          return;
        }
      }
      // downward swipe
      if row < Size - 1 {
        movable := TrySwipe(row, col, Down);
        if movable {
          return;
        }
      }
      // leftward swipe
      if col > 0 {
        movable := TrySwipe(row, col, Left);
        if movable {
          return;
        }
      }
      // rightward swipe
      if col < Size - 1 {
        movable := TrySwipe(row, col, Right);
        if movable {
          return;
        }
      }
      movable := false;
    }

    /** Swap (row, col) with its neighbour in direction `d` on a copy of the
        board and check the copy for a match. */
    method TrySwipe(row: int, col: int, d: Direction) returns (present: bool)
      requires Valid() && OnGrid(row, col)
      requires OnGrid(Neighbour(row, col, d).0, Neighbour(row, col, d).1)
      ensures present <==> SwapMakesMatch(board, row, col, d)
    {
      var (nr, nc) := Neighbour(row, col, d);
      var temp := SwapCells(board, row, col, nr, nc);
      present := CheckCurrentMatch(temp);
    }

    /** Set the reported vertical run (rows high .. low of its column) and
        the reported horizontal run (columns left .. right of its row) to
        empty; a run whose row is the sentinel -1 is skipped. */
    method HandleMatch(info: MatchInfo)
      requires Valid() && InfoOnBoard(info)
      modifies this
      ensures Valid()
      ensures forall r, c :: OnGrid(r, c) ==>
                board[r][c] == if InVertical(info, r, c) || InHorizontal(info, r, c) then Empty
                               else old(board)[r][c]
      ensures board == Clear(old(board), info)
    {
      if info.high.row != -1 {
        var col := info.high.col;
        var rowVal := info.high.row;
        while rowVal < info.low.row + 1
          invariant Valid()
          invariant info.high.row <= rowVal
          invariant rowVal <= info.high.row || rowVal <= info.low.row + 1
          invariant forall r, c :: OnGrid(r, c) ==>
                      board[r][c] == if c == col && info.high.row <= r < rowVal then Empty else old(board)[r][c]
        {
          board := SetCell(board, rowVal, col, Empty);
          rowVal := rowVal + 1;
        }
      }
      ghost var mid := board;
      assert forall r, c :: OnGrid(r, c) ==>
               mid[r][c] == if InVertical(info, r, c) then Empty else old(board)[r][c];
      if info.left.row != -1 {
        var row := info.left.row;
        var colVal := info.left.col;
        while colVal < info.right.col + 1
          invariant Valid()
          invariant info.left.col <= colVal
          invariant colVal <= info.left.col || colVal <= info.right.col + 1
          invariant forall r, c :: OnGrid(r, c) ==>
                      board[r][c] == if r == row && info.left.col <= c < colVal then Empty else mid[r][c]
        {
          board := SetCell(board, row, colVal, Empty);
          colVal := colVal + 1;
        }
      }
      assert forall r, c :: OnGrid(r, c) ==>
               board[r][c] == if InVertical(info, r, c) || InHorizontal(info, r, c) then Empty
                              else old(board)[r][c];
      SameBoard(board, Clear(old(board), info));
    }

    /** Detect and clear, again and again, until detection finds no match. */
    method HandleAllMatches()
      requires Valid()
      modifies this
      ensures Valid()
      ensures board == ClearAll(old(board))
      ensures !HasMatch(board) && ClearedFrom(board, old(board))
      ensures HasMatch(old(board)) ==> Count(board) <= old(Count(board)) - 3
    {
      var present, info := MatchPresenceAndInfo(board);
      while present
        invariant Valid()
        invariant ClearAll(board) == ClearAll(old(board))
        invariant Report(present, info) == Detect(board)
        invariant WellFormed(board, Report(present, info))
        decreases Count(board)
      {
        WellFormedOnBoard(board, Report(present, info));
        ClearShrinks(board, Report(present, info));
        HandleMatch(info);
        present, info := MatchPresenceAndInfo(board);
      }
      DetectComplete(board);
    }

    /** The bottom-up pass: for rows from the second lowest up to the top,
        move each letter down past the empty cells under it. */
    method CompactColumns()
      requires Valid()
      modifies this
      ensures Valid()
      ensures board == Collapse(old(board))
    {
      ghost var orig := board;
      forall c | 0 <= c < Size
        ensures Column(board, c) == PartSettle(Column(orig, c), Size - 1)
      {
        PartSettleLast(Column(orig, c));
      }
      var row := Size - 2;
      while row >= 0
        invariant -1 <= row <= Size - 2
        invariant Valid()
        invariant forall c :: 0 <= c < Size ==> Column(board, c) == PartSettle(Column(orig, c), row + 1)
      {
        var col := 0;
        while col < Size
          invariant 0 <= col <= Size
          invariant Valid()
          invariant forall c :: 0 <= c < Size ==>
                      Column(board, c) == PartSettle(Column(orig, c), if c < col then row else row + 1)
        {
          DropCell(row, col, orig);
          col := col + 1;
        }
        row := row - 1;
      }
      forall c | 0 <= c < Size
        ensures Column(board, c) == Settle(Column(orig, c))
      {
        PartSettleFirst(Column(orig, c));
      }
      SameColumns(board, Collapse(orig));
    }

    /** One cell of the pass: a letter at (row, col) is swapped with the
        last empty cell below it, found by walking a pointer down. */
    method DropCell(row: int, col: int, ghost orig: Board)
      requires Valid() && IsGrid(orig) && OnGrid(row, col) && row < Size - 1
      requires Column(board, col) == PartSettle(Column(orig, col), row + 1)
      modifies this
      ensures Valid()
      ensures Column(board, col) == PartSettle(Column(orig, col), row)
      ensures forall c :: 0 <= c < Size && c != col ==> Column(board, c) == old(Column(board, c))
    {
      ghost var before := board;
      var pointer := row + 1;
      while pointer < Size && board[pointer][col] == Empty
        invariant row + 1 <= pointer <= Size
        invariant forall k :: row + 1 <= k < pointer ==> Column(board, col)[k] == Empty
      {
        pointer := pointer + 1;
      }
      SettleStep(Column(orig, col), Column(before, col), row, pointer);
      if board[row][col] == Empty {
        return;
      }
      var switch := pointer - 1;
      board := SwapCells(board, row, col, switch, col);
      ColumnsAfterSwap(before, row, switch, col);
    }

    /** Compact every column, then, while a match is present, clear all
        matches and drop again. */
    method DropFloatingLetters()
      requires Valid()
      modifies this
      ensures Valid()
      ensures board == Cascade(old(board))
      ensures !HasMatch(board) && Compacted(board)
      ensures Count(board) <= old(Count(board))
      ensures !HasMatch(Collapse(old(board))) ==> board == Collapse(old(board))
      decreases Count(board)
    {
      ghost var entry := board;
      CompactColumns();
      CollapseCorrect(entry);
      var present, info := MatchPresenceAndInfo(board);
      DetectComplete(board);
      while present
        invariant Valid()
        invariant Compacted(board) && Count(board) <= Count(entry)
        invariant present <==> HasMatch(board)
        invariant present ==> board == Collapse(entry)
        invariant !present ==> board == Cascade(entry)
        decreases Count(board)
      {
        DetectComplete(board);
        HandleAllMatches();
        DropFloatingLetters();
        present, info := MatchPresenceAndInfo(board);
      }
    }

    /** Swipe the cell numbered `cellspace` (1 .. 16, row by row) in
        `direction`. A swipe off the board or one whose swap makes no match
        leaves the board unchanged; otherwise the swapped board is
        committed and all its matches are cleared. */
    method Swipe(cellspace: int, direction: Direction) returns (outcome: SwipeOutcome)
      requires Valid() && 1 <= cellspace <= 16
      modifies this
      ensures Valid()
      ensures var (row, col) := CellOf(cellspace);
              var (nr, nc) := Neighbour(row, col, direction);
              (outcome == CannotSwipe <==> !OnGrid(nr, nc)) &&
              (outcome == NoMatch <==> OnGrid(nr, nc) && !HasMatch(SwapCells(old(board), row, col, nr, nc))) &&
              (outcome == Applied ==> board == ClearAll(SwapCells(old(board), row, col, nr, nc)))
      ensures outcome != Applied ==> board == old(board)
      ensures outcome == Applied ==> !HasMatch(board)
    {
      var (row, col) := CellOf(cellspace);
      var temp := board;
      match direction {
      case Up =>
        if row == 0 {
          return CannotSwipe;
        }
        temp := SwapCells(temp, row, col, row - 1, col);
      case Down =>
        if row == Size - 1 {
          return CannotSwipe;
        }
        temp := SwapCells(temp, row, col, row + 1, col);
      case Left =>
        if col == 0 {
          return CannotSwipe;
        }
        temp := SwapCells(temp, row, col, row, col - 1);
      case Right =>
        if col == Size - 1 {
          return CannotSwipe;
        }
        temp := SwapCells(temp, row, col, row, col + 1);
      }

      var present, info := MatchPresenceAndInfo(temp);
      if present {
        board := temp;
        HandleAllMatches();
        outcome := Applied;
      } else {
        outcome := NoMatch;
      }
    }

    /** Give every cell a letter drawn from the alphabet. */
    method FillAllCells()
      requires Valid()
      modifies this
      ensures Valid()
      ensures forall r, c :: OnGrid(r, c) ==> Drawn(board[r][c])
    {
      var row := 0;
      while row < Size
        invariant 0 <= row <= Size
        invariant Valid()
        invariant forall r, c :: 0 <= r < row && 0 <= c < Size ==> Drawn(board[r][c])
      {
        var col := 0;
        while col < Size
          invariant 0 <= col <= Size
          invariant Valid()
          invariant forall r, c :: 0 <= r < row && 0 <= c < Size ==> Drawn(board[r][c])
          invariant forall c :: 0 <= c < col ==> Drawn(board[row][c])
        {
          assert Alphabet[0] in Alphabet;
          var letter :| letter in Alphabet;
          board := SetCell(board, row, col, Letter(letter));
          col := col + 1;
        }
        row := row + 1;
      }
    }

    /** Give every empty cell a letter drawn from the alphabet; occupied
        cells keep their letters. */
    method FillEmptyCells()
      requires Valid()
      modifies this
      ensures Valid()
      ensures forall r, c :: OnGrid(r, c) ==>
                if old(board)[r][c] == Empty then Drawn(board[r][c]) else board[r][c] == old(board)[r][c]
    {
      var row := 0;
      while row < Size
        invariant 0 <= row <= Size
        invariant Valid()
        invariant forall r, c :: OnGrid(r, c) ==>
                    if r < row && old(board)[r][c] == Empty then Drawn(board[r][c])
                    else board[r][c] == old(board)[r][c]
      {
        var col := 0;
        while col < Size
          invariant 0 <= col <= Size
          invariant Valid()
          invariant forall r, c :: OnGrid(r, c) ==>
                      if (r < row || (r == row && c < col)) && old(board)[r][c] == Empty then Drawn(board[r][c])
                      else board[r][c] == old(board)[r][c]
        {
          var current := board[row][col];
          if current == Empty {
            assert Alphabet[0] in Alphabet;
            var letter :| letter in Alphabet;
            board := SetCell(board, row, col, Letter(letter));
          }
          col := col + 1;
        }
        row := row + 1;
      }
    }

    /** Fill the whole board at random and redraw it from scratch while it
        holds a match or offers no feasible move, at most `redraws` times.
        `settled` says whether the board met both conditions. */
    method InitializeBoard(redraws: nat) returns (settled: bool)
      requires Valid()
      modifies this
      ensures Valid()
      ensures forall r, c :: OnGrid(r, c) ==> Drawn(board[r][c])
      ensures settled <==> !HasMatch(board) && HasFeasibleMove(board)
    {
      FillAllCells();
      var present := CheckCurrentMatch(board);
      var potential := CheckPotentialMatch();
      var attempts := 0;
      while (present || !potential) && attempts < redraws
        invariant Valid()
        invariant forall r, c :: OnGrid(r, c) ==> Drawn(board[r][c])
        invariant present <==> HasMatch(board)
        invariant potential <==> HasFeasibleMove(board)
        decreases redraws - attempts
      {
        FillAllCells();
        present := CheckCurrentMatch(board);
        potential := CheckPotentialMatch();
        attempts := attempts + 1;
      }
      settled := !present && potential;
    }

    /** Fill the empty cells at random; while the board offers no feasible
        move, restore the snapshot taken before the fill and draw again, at
        most `redraws` times. Occupied cells keep their letters throughout. */
    method RefillEmptyCells(redraws: nat) returns (possible: bool)
      requires Valid()
      modifies this
      ensures Valid()
      ensures forall r, c :: OnGrid(r, c) ==>
                if old(board)[r][c] == Empty then Drawn(board[r][c]) else board[r][c] == old(board)[r][c]
      ensures possible <==> HasFeasibleMove(board)
    {
      var boardCopy := board;
      FillEmptyCells();
      possible := CheckPotentialMatch();
      var attempts := 0;
      while !possible && attempts < redraws
        invariant Valid()
        invariant forall r, c :: OnGrid(r, c) ==>
                    if boardCopy[r][c] == Empty then Drawn(board[r][c]) else board[r][c] == boardCopy[r][c]
        invariant possible <==> HasFeasibleMove(board)
        decreases redraws - attempts
      {
        board := boardCopy;
        FillEmptyCells();
        possible := CheckPotentialMatch();
        attempts := attempts + 1;
      }
    }

    /** Refill the empty cells so that a feasible move exists; while the
        refilled board holds a match, clear all matches, drop, and refill
        again. `fuel` bounds the redraws and the depth of the cascade;
        `settled` says whether the board was brought to rest. */
    method ReplaceMatchedLetters(fuel: nat) returns (settled: bool, ghost refills: seq<Board>)
      requires Valid()
      modifies this
      ensures Valid() && Grids(refills) && |refills| >= 1 && Refills(old(board), refills)
      ensures settled ==> board == Last(refills)
      ensures !HasMatch(Last(refills)) ==> board == Last(refills)
      ensures settled ==> !HasMatch(board) && HasFeasibleMove(board) && Full(board)
      decreases fuel
    {
      ghost var entry := board;
      var possible := RefillEmptyCells(fuel);
      ghost var refill := board;
      RefillsOne(entry, refill);
      refills := [refill];
      if !possible {
        return false, refills;
      }
      var present, info := MatchPresenceAndInfo(board);
      while present
        invariant Valid() && Grids(refills) && |refills| >= 1 && Refills(entry, refills)
        invariant board == Last(refills)
        invariant present ==> board == refill && refills == [refill]
        invariant present <==> HasMatch(board)
        invariant HasFeasibleMove(board) && Full(board)
        decreases present
      {
        if fuel == 0 {
          return false, refills;
        }
        HandleAllMatches();
        DropFloatingLetters();
        ghost var next;
        settled, next := ReplaceMatchedLetters(fuel - 1);
        RefillsCons(entry, refill, next);
        refills := [refill] + next;
        LastCons(refill, next);
        if !settled {
          return false, refills;
        }
        present, info := MatchPresenceAndInfo(board);
      }
      settled := true;
    }

    /** One turn after the input is read: swipe, drop the letters, refill. */
    method PlayTurn(cellspace: int, direction: Direction, fuel: nat)
      returns (outcome: SwipeOutcome, settled: bool, ghost dropped: Board, ghost refills: seq<Board>)
      requires Valid() && 1 <= cellspace <= 16
      modifies this
      ensures Valid() && IsGrid(dropped)
      ensures var (row, col) := CellOf(cellspace);
              var (nr, nc) := Neighbour(row, col, direction);
              (outcome == CannotSwipe <==> !OnGrid(nr, nc)) &&
              (outcome == NoMatch <==> OnGrid(nr, nc) && !HasMatch(SwapCells(old(board), row, col, nr, nc))) &&
              dropped == Cascade(if outcome == Applied then ClearAll(SwapCells(old(board), row, col, nr, nc))
                                 else old(board))
      ensures Grids(refills) && |refills| >= 1 && Refills(dropped, refills)
      ensures settled ==> board == Last(refills)
      ensures !HasMatch(Last(refills)) ==> board == Last(refills)
      ensures outcome != Applied && Full(old(board)) && !HasMatch(old(board)) ==> board == old(board)
      ensures settled ==> !HasMatch(board) && HasFeasibleMove(board) && Full(board)
    {
      ghost var entry := board;
      outcome := Swipe(cellspace, direction);
      DropFloatingLetters();
      dropped := board;
      if outcome != Applied && Full(entry) && !HasMatch(entry) {
        FullIsCompacted(entry);
        assert board == entry;
      }
      settled, refills := ReplaceMatchedLetters(fuel);
      if outcome != Applied && Full(entry) && !HasMatch(entry) {
        RefillsAtRest(dropped, refills);
      }
    }
  }

  /** Two boards that agree on every cell are equal. */
  lemma SameBoard(a: Board, b: Board)
    requires IsGrid(a) && IsGrid(b)
    requires forall r, c :: OnGrid(r, c) ==> a[r][c] == b[r][c]
    ensures a == b
  {
    forall r | 0 <= r < Size
      ensures a[r] == b[r]
    {
      assert forall c :: 0 <= c < Size ==> a[r][c] == b[r][c];
    }
  }
}
