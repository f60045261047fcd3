/** Gravity: every column is compacted so that its letters rest at the
    bottom in their original top-to-bottom order, empty cells above. */
module Gravity {
  import opened Grid

  function Blanks(n: nat): (b: seq<Cell>)
    ensures |b| == n && forall i :: 0 <= i < n ==> b[i] == Empty
  {
    seq(n, _ => Empty)
  }

  /** The compacted column: its letters, in order, under as many empty
      cells as it had. */
  function Settle(l: seq<Cell>): (m: seq<Cell>)
    ensures |m| == |l|
  {
    Blanks(|l| - |LettersOf(l)|) + LettersOf(l)
  }

  /** No empty cell lies below a letter. */
  ghost predicate IsSettled(l: seq<Cell>) {
    forall i, j :: 0 <= i < j < |l| && l[i] != Empty ==> l[j] != Empty
  }

  lemma {:induction false} LettersOfBlanks(n: nat)
    ensures LettersOf(Blanks(n)) == []
  {
    if n > 0 {
      assert Blanks(n)[1..] == Blanks(n - 1);
      LettersOfBlanks(n - 1);
    }
  }

  lemma {:induction false} LettersOfLetters(f: seq<Cell>)
    requires forall i :: 0 <= i < |f| ==> f[i] != Empty
    ensures LettersOf(f) == f
  {
    if f != [] {
      LettersOfLetters(f[1..]);
    }
  }

  lemma {:induction false} LettersOfMultiset(l: seq<Cell>)
    ensures multiset(l) == multiset(LettersOf(l)) + multiset(Blanks(|l| - |LettersOf(l)|))
  {
    if l != [] {
      LettersOfMultiset(l[1..]);
      assert l == [l[0]] + l[1..];
      var k := |l[1..]| - |LettersOf(l[1..])|;
      if l[0] == Empty {
        assert Blanks(k + 1) == [Empty] + Blanks(k);
      }
    }
  }

  /** Compaction is correct: the column keeps its length, has its empty
      cells exactly on top, keeps its letters in their original order and
      is a permutation of the column it came from. */
  lemma SettleCorrect(l: seq<Cell>)
    ensures IsSettled(Settle(l))
    ensures forall i :: 0 <= i < |l| ==> (Settle(l)[i] == Empty <==> i < |l| - |LettersOf(l)|)
    ensures LettersOf(Settle(l)) == LettersOf(l)
    ensures multiset(Settle(l)) == multiset(l)
  {
    var k := |l| - |LettersOf(l)|;
    LettersOfAppend(Blanks(k), LettersOf(l));
    LettersOfBlanks(k);
    LettersOfLetters(LettersOf(l));
    LettersOfMultiset(l);
  }

  lemma {:induction false} SettledHasBlanksOnTop(l: seq<Cell>)
    requires IsSettled(l)
    ensures l == Blanks(|l| - |LettersOf(l)|) + LettersOf(l)
  {
    if l != [] {
      SettledHasBlanksOnTop(l[1..]);
      if l[0] != Empty {
        assert forall i :: 0 <= i < |l| ==> l[i] != Empty;
        LettersOfLetters(l);
      } else {
        var k := |l[1..]| - |LettersOf(l[1..])|;
        assert Blanks(k + 1) == [Empty] + Blanks(k);
        assert l == [l[0]] + l[1..];
      }
    }
  }

  /** A compacted column is left as it is: compaction is idempotent. */
  lemma SettleKeepsSettled(l: seq<Cell>)
    ensures IsSettled(l) <==> Settle(l) == l
  {
    if IsSettled(l) {
      SettledHasBlanksOnTop(l);
    }
    SettleCorrect(l);
  }

  /** The worked example: a column [A, empty, empty, B] falls to
      [empty, empty, A, B]. */
  lemma SettleExample()
    ensures Settle([Letter('A'), Empty, Empty, Letter('B')]) == [Empty, Empty, Letter('A'), Letter('B')]
  {
  }

  /** A column whose rows s .. end are compacted and whose rows above s are
      as they were. */
  function PartSettle(l: seq<Cell>, s: int): (m: seq<Cell>)
    requires 0 <= s <= |l|
    ensures |m| == |l|
  {
    l[..s] + Settle(l[s..])
  }

  lemma PartSettleLast(l: seq<Cell>)
    requires |l| >= 1
    ensures PartSettle(l, |l| - 1) == l
  {
  }

  lemma PartSettleFirst(l: seq<Cell>)
    ensures PartSettle(l, 0) == Settle(l)
  {
  }

  /** One step of the bottom-up pass on a column: rows row+1 .. end are
      compacted; the cell at `row` is left alone when empty, and otherwise
      swapped with the last empty cell below it (index p - 1, where p is
      the first occupied row below, or the height). Afterwards rows
      row .. end are compacted. */
  lemma SettleStep(orig: seq<Cell>, cur: seq<Cell>, row: int, p: int)
    requires 0 <= row < |orig| && cur == PartSettle(orig, row + 1)
    requires row + 1 <= p <= |cur|
    requires forall k :: row + 1 <= k < p ==> cur[k] == Empty
    requires p == |cur| || cur[p] != Empty
    ensures cur[row] == Empty ==> cur == PartSettle(orig, row)
    ensures cur[row] != Empty ==> cur[row := cur[p - 1]][p - 1 := cur[row]] == PartSettle(orig, row)
  {
  }

  /** The board after the compaction pass: each column compacted. */
  function Collapse(g: Board): (h: Board)
    requires IsGrid(g)
    ensures IsGrid(h)
    ensures forall c :: 0 <= c < Size ==> Column(h, c) == Settle(Column(g, c))
  {
    var h := seq(Size, r requires 0 <= r < Size =>
               seq(Size, c requires 0 <= c < Size => Settle(Column(g, c))[r]));
    assert forall c :: 0 <= c < Size ==> Column(h, c) == Settle(Column(g, c));
    h
  }

  /** Every column of the board is compacted. */
  ghost predicate Compacted(g: Board)
    requires IsGrid(g)
  {
    forall c :: 0 <= c < Size ==> IsSettled(Column(g, c))
  }

  /** Two boards with the same columns are the same board. */
  lemma SameColumns(a: Board, b: Board)
    requires IsGrid(a) && IsGrid(b)
    requires forall c :: 0 <= c < Size ==> Column(a, c) == Column(b, c)
    ensures a == b
  {
    forall r | 0 <= r < Size
      ensures a[r] == b[r]
    {
      forall c | 0 <= c < Size
        ensures a[r][c] == b[r][c]
      {
        assert Column(a, c)[r] == Column(b, c)[r];
      }
    }
  }

  lemma {:induction false} CountColumnsCollapse(g: Board, n: int)
    requires IsGrid(g) && 0 <= n <= Size
    ensures CountColumns(Collapse(g), n) == CountColumns(g, n)
  {
    if n > 0 {
      CountColumnsCollapse(g, n - 1);
      SettleCorrect(Column(g, n - 1));
    }
  }

  /** The compaction pass leaves a compacted board with as many occupied
      cells as before, each column a permutation of the old one; a board
      that is already compacted is left unchanged. */
  lemma CollapseCorrect(g: Board)
    requires IsGrid(g)
    ensures Compacted(Collapse(g))
    ensures Count(Collapse(g)) == Count(g)
    ensures forall c :: 0 <= c < Size ==> multiset(Column(Collapse(g), c)) == multiset(Column(g, c))
    ensures Compacted(g) ==> Collapse(g) == g
  {
    forall c | 0 <= c < Size
      ensures IsSettled(Column(Collapse(g), c))
      ensures multiset(Column(Collapse(g), c)) == multiset(Column(g, c))
      ensures IsSettled(Column(g, c)) ==> Column(Collapse(g), c) == Column(g, c)
    {
      SettleCorrect(Column(g, c));
      SettleKeepsSettled(Column(g, c));
    }
    CountColumnsCollapse(g, Size);
    if Compacted(g) {
      SameColumns(Collapse(g), g);
    }
  }
}
