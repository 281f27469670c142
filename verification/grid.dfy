/**
 The board of the snake game: cells, the one-cell step of the head, the
 border and interior of a board of `sh` rows and `sw` columns, and the
 resampling loop that places new food.
 */
module Grid {
  import opened Keys

  /** A board cell: row (counted from the top) and column. */
  datatype Cell = Cell(row: int, col: int)

  /** Number of unit steps between two cells along rows and columns. */
  function Distance(a: Cell, b: Cell): nat
  {
    (if a.row <= b.row then b.row - a.row else a.row - b.row) +
    (if a.col <= b.col then b.col - a.col else a.col - b.col)
  }

  /**
   The new head: the old head moved one cell in the direction of the steering
   key. A steering key that is not an arrow key leaves the head where it is.
   */
  function Advance(head: Cell, key: int): (r: Cell)
    ensures key == KeyDown ==> r == Cell(head.row + 1, head.col)
    ensures key == KeyUp ==> r == Cell(head.row - 1, head.col)
    ensures key == KeyLeft ==> r == Cell(head.row, head.col - 1)
    ensures key == KeyRight ==> r == Cell(head.row, head.col + 1)
    ensures IsDirection(key) <==> Distance(head, r) == 1
    ensures !IsDirection(key) <==> r == head
  {
    if key == KeyDown then Cell(head.row + 1, head.col)
    else if key == KeyUp then Cell(head.row - 1, head.col)
    else if key == KeyLeft then Cell(head.row, head.col - 1)
    else if key == KeyRight then Cell(head.row, head.col + 1)
    else head
  }

  /** A step in one direction is undone by a step in the reverse direction. */
  lemma AdvanceReverse(head: Cell, d: Direction)
    ensures Advance(Advance(head, Code(d)), Code(Reverse(d))) == head
  {
  }

  /** The cell lies on the outermost row or column of the board. */
  predicate OnBorder(sh: int, sw: int, c: Cell)
    ensures OnBorder(sh, sw, c) ==> !InInterior(sh, sw, c)
  {
    c.row == 0 || c.row == sh - 1 || c.col == 0 || c.col == sw - 1
  }

  /** The cell lies in rows 1..sh-2 and columns 1..sw-2. */
  predicate InInterior(sh: int, sw: int, c: Cell)
  {
    1 <= c.row <= sh - 2 && 1 <= c.col <= sw - 2
  }

  /** Every cell of the sequence is drawn from the interior of the board. */
  predicate AllInInterior(sh: int, sw: int, samples: seq<Cell>)
  {
    forall i :: 0 <= i < |samples| ==> InInterior(sh, sw, samples[i])
  }

  /** Some cell of the sequence is not occupied. */
  predicate HasFree(samples: seq<Cell>, occupied: seq<Cell>)
  {
    exists i :: 0 <= i < |samples| && samples[i] !in occupied
  }

  /**
   The position, in a stream of random draws, of the draw the resampling loop
   stops at: the first one that is not an occupied cell.
   */
  function FirstFreeIndex(samples: seq<Cell>, occupied: seq<Cell>): (k: nat)
    requires HasFree(samples, occupied)
    ensures k < |samples| && samples[k] !in occupied
    ensures forall j :: 0 <= j < k ==> samples[j] in occupied
    decreases |samples|
  {
    if samples[0] !in occupied then 0
    else
      assert HasFree(samples[1..], occupied) by {
        var i :| 0 <= i < |samples| && samples[i] !in occupied;
        assert samples[1..][i - 1] == samples[i];
      }
      1 + FirstFreeIndex(samples[1..], occupied)
  }

  /**
   Places new food: draws cells from the stream of random interior cells until
   one is not occupied by the snake, and returns that cell.
   */
  method ChooseFood(sh: int, sw: int, samples: seq<Cell>, occupied: seq<Cell>) returns (food: Cell)
    requires AllInInterior(sh, sw, samples)
    requires HasFree(samples, occupied)
    ensures InInterior(sh, sw, food)
    ensures food !in occupied
    ensures food == samples[FirstFreeIndex(samples, occupied)]
  {
    ghost var free := FirstFreeIndex(samples, occupied);
    var i := 0;
    food := samples[0];
    while food in occupied
      invariant 0 <= i <= free
      invariant food == samples[i]
      invariant forall j :: 0 <= j < i ==> samples[j] in occupied
      decreases free - i
    {
      i := i + 1;
      food := samples[i];
    }
    assert i == free;
  }
}
