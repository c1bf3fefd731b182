/**
 * The column layout of one subtraction (SubtractionProblemView and
 * DigitOrBlankView): three rows of cells, minuend, subtrahend (after a minus
 * sign) and difference, each cell showing an input blank, a fixed digit or
 * nothing.
 */
module ProblemView {
  import opened Wrappers
  import opened Models

  function Abs(n: int): nat
  {
    if n < 0 then -n else n
  }

  /**
   * `digitArray(from:)`: the decimal digits of the number, most significant
   * first; a minus sign is not a digit and is dropped.
   */
  function DigitArray(n: int): (r: seq<int>)
    ensures IsDecimal(r) && Value(r) == Abs(n)
  {
    DigitsRoundTrip(Abs(n));
    Digits(Abs(n))
  }

  /** The digits a row shows: minuend, subtrahend, difference. */
  function RowDigitsOf(p: MathProblem, row: int): seq<int>
  {
    if row == 0 then DigitArray(p.number1)
    else if row == 1 then DigitArray(p.number2)
    else DigitArray(p.correctAnswer)
  }

  /** For a well-formed problem the rows show exactly the digits the blanks were drawn from. */
  lemma RowDigitsAgree(p: MathProblem, row: int)
    requires WellFormedProblem(p)
    ensures RowDigitsOf(p, row) == RowDigits(p.number1, p.number2, row)
  {
  }

  /** `maxLength`: the widest of the three rows. */
  function MaxLength(p: MathProblem): (m: nat)
    ensures m >= |DigitArray(p.number1)| && m >= |DigitArray(p.number2)| && m >= |DigitArray(p.correctAnswer)|
    ensures m == |DigitArray(p.number1)| || m == |DigitArray(p.number2)| || m == |DigitArray(p.correctAnswer)|
    ensures m >= 1
  {
    Max(Max(|DigitArray(p.number1)|, |DigitArray(p.number2)|), |DigitArray(p.correctAnswer)|)
  }

  /** `blankAt(row:index:)`: the first blank of the problem at that place, if any. */
  function BlankAt(blanks: seq<BlankPosition>, row: int, index: int): (r: Option<BlankPosition>)
    ensures r.None? <==> forall b :: b in blanks ==> !(b.row == row && b.digitIndex == index)
    ensures r.Some? ==> r.value in blanks && r.value.row == row && r.value.digitIndex == index
    ensures r.Some? && |blanks| > 0 && blanks[0].row == row && blanks[0].digitIndex == index ==> r.value == blanks[0]
  {
    if blanks == [] then None
    else if blanks[0].row == row && blanks[0].digitIndex == index then Some(blanks[0])
    else BlankAt(blanks[1..], row, index)
  }

  /** `first { }` returns the earliest match: no blank before it sits at that place. */
  lemma {:induction false} BlankAtIsFirst(blanks: seq<BlankPosition>, row: int, index: int)
    ensures BlankAt(blanks, row, index).Some? ==>
              exists i :: 0 <= i < |blanks| && blanks[i] == BlankAt(blanks, row, index).value
                          && forall j :: 0 <= j < i ==> !(blanks[j].row == row && blanks[j].digitIndex == index)
  {
    if blanks != [] && !(blanks[0].row == row && blanks[0].digitIndex == index) {
      var rest := blanks[1..];
      BlankAtIsFirst(rest, row, index);
      if BlankAt(rest, row, index).Some? {
        var i :| 0 <= i < |rest| && rest[i] == BlankAt(rest, row, index).value
                 && forall j :: 0 <= j < i ==> !(rest[j].row == row && rest[j].digitIndex == index);
        assert blanks[i + 1] == rest[i];
        forall j | 0 <= j < i + 1
          ensures !(blanks[j].row == row && blanks[j].digitIndex == index)
        {
          if j > 0 {
            assert blanks[j] == rest[j - 1];
          }
        }
      }
    }
  }

  /** In a strictly ordered list no two blanks share a place, so `blankAt` finds each blank at its own place. */
  lemma BlankAtFindsEach(blanks: seq<BlankPosition>, b: BlankPosition)
    requires StrictlySorted(blanks) && b in blanks
    ensures BlankAt(blanks, b.row, b.digitIndex) == Some(b)
  {
    var r := BlankAt(blanks, b.row, b.digitIndex);
    var i :| 0 <= i < |blanks| && blanks[i] == b;
    var j :| 0 <= j < |blanks| && blanks[j] == r.value;
  }

  /** What one slot of the layout shows. */
  datatype Cell = BlankCell(blank: BlankPosition) | DigitCell(digit: int) | EmptyCell

  /** `DigitOrBlankView`: a blank wins over a digit, a digit over an empty slot. */
  function CellFor(digit: Option<int>, blank: Option<BlankPosition>): (c: Cell)
    ensures c.BlankCell? <==> blank.Some?
    ensures c.BlankCell? ==> c.blank == blank.value
    ensures c.DigitCell? <==> blank.None? && digit.Some?
    ensures c.DigitCell? ==> c.digit == digit.value
  {
    match blank
    case Some(b) => BlankCell(b)
    case None =>
      match digit
      case Some(d) => DigitCell(d)
      case None => EmptyCell
  }

  /** `index < digits.count ? digits[index] : nil`: rows are filled from the left. */
  function DigitAt(digits: seq<int>, index: nat): (r: Option<int>)
    ensures r.Some? <==> index < |digits|
    ensures r.Some? ==> r.value == digits[index]
  {
    if index < |digits| then Some(digits[index]) else None
  }

  /** The `width` cells of one row. */
  function RowCells(p: MathProblem, row: int, width: nat): (r: seq<Cell>)
    ensures |r| == width
    ensures forall i :: 0 <= i < width ==>
              r[i] == CellFor(DigitAt(RowDigitsOf(p, row), i), BlankAt(p.blanks, row, i))
  {
    seq(width, i requires 0 <= i < width => CellFor(DigitAt(RowDigitsOf(p, row), i), BlankAt(p.blanks, row, i)))
  }

  /**
   * The layout as the view draws it: the minuend and the difference over
   * `maxLength` slots, the subtrahend over `maxLength - 1` slots next to the
   * minus sign.
   */
  function GridAsWritten(p: MathProblem): (g: seq<seq<Cell>>)
    ensures |g| == 3
    ensures |g[0]| == |g[2]| == MaxLength(p) && |g[1]| == MaxLength(p) - 1
  {
    [RowCells(p, 0, MaxLength(p)), RowCells(p, 1, MaxLength(p) - 1), RowCells(p, 2, MaxLength(p))]
  }

  /**
   * The subtrahend row drawn with `maxLength - 1` slots is too short exactly
   * when the subtrahend has as many digits as the minuend; then its units
   * digit, and any blank placed on it, are not drawn.
   */
  lemma SubtrahendRowTooShort(p: MathProblem)
    requires WellFormedProblem(p)
    ensures |GridAsWritten(p)[1]| < |DigitArray(p.number2)|
            <==> |DigitArray(p.number2)| == |DigitArray(p.number1)|
    ensures |GridAsWritten(p)[1]| < |DigitArray(p.number2)| ==>
              forall b :: b in p.blanks && b.row == 1 && b.digitIndex == |DigitArray(p.number2)| - 1 ==>
                BlankCell(b) !in GridAsWritten(p)[1]
  {
    DigitsMonotone(p.number2, p.number1);
    DigitsMonotone(p.correctAnswer, p.number1);
    if |GridAsWritten(p)[1]| < |DigitArray(p.number2)| {
      forall b | b in p.blanks && b.row == 1 && b.digitIndex == |DigitArray(p.number2)| - 1
        ensures BlankCell(b) !in GridAsWritten(p)[1]
      {
        var row := GridAsWritten(p)[1];
        forall i | 0 <= i < |row|
          ensures row[i] != BlankCell(b)
        {
          if row[i].BlankCell? {
            assert row[i].blank.digitIndex == i;
          }
        }
      }
    }
  }

  /** A smaller number never has more digits. */
  lemma {:induction false} DigitsMonotone(a: nat, b: nat)
    requires a <= b
    ensures |Digits(a)| <= |Digits(b)|
  {
    if a >= 10 {
      DigitsMonotone(a / 10, b / 10);
    }
  }

  /** Four-digit operands have four digits each. */
  lemma FourDigits(n: nat)
    requires 1000 <= n <= 9999
    ensures |Digits(n)| == 4
  {
    var a, b, c := n / 10, n / 100, n / 1000;
    assert 100 <= a <= 999 && a / 10 == b;
    assert 10 <= b <= 99 && b / 10 == c;
    assert 1 <= c <= 9;
    assert |Digits(b)| == 2;
    assert |Digits(a)| == 3;
  }

  /**
   * Under the default settings (operands from 1000 to 9999) both operands
   * have four digits, so the subtrahend row of every problem is too short.
   */
  lemma DefaultRangeAlwaysTooShort(p: MathProblem)
    requires WellFormedProblem(p)
    requires DefaultSettings.minNumber <= p.number2 <= p.number1 <= DefaultSettings.maxNumber
    ensures |GridAsWritten(p)[1]| < |DigitArray(p.number2)|
  {
    FourDigits(p.number1);
    FourDigits(p.number2);
    SubtrahendRowTooShort(p);
  }

  /** The digits of the worked example 5432 - 1234 = 4198. */
  lemma ExampleDigits()
    ensures Digits(5432) == [5, 4, 3, 2] && Digits(1234) == [1, 2, 3, 4] && Digits(4198) == [4, 1, 9, 8]
  {
    assert Digits(5432) == Digits(543) + [2];
    assert Digits(543) == Digits(54) + [3];
    assert Digits(54) == Digits(5) + [4];
    assert Digits(1234) == Digits(123) + [4];
    assert Digits(123) == Digits(12) + [3];
    assert Digits(12) == Digits(1) + [2];
    assert Digits(4198) == Digits(419) + [8];
    assert Digits(419) == Digits(41) + [9];
    assert Digits(41) == Digits(4) + [1];
  }

  /** The example's shuffle: the subtrahend's units digit (pool index 7) first, the rest in pool order. */
  const ExampleOrder: seq<nat> := [7, 0, 1, 2, 3, 4, 5, 6, 8, 9, 10, 11]

  lemma ExampleOrderIsShuffle()
    ensures BlankArgs(5432, 1234, ExampleOrder)
  {
    ExampleDigits();
    var order := ExampleOrder;
    forall i, j | 0 <= i < j < 12
      ensures order[i] != order[j]
    {
    }
  }

  /** With that shuffle the first blank chosen is the subtrahend's units digit, 4, with id 1. */
  lemma ExampleFirstChoice()
    ensures BlankArgs(5432, 1234, ExampleOrder)
    ensures BlankPosition(1, 1, 3, 4) in Blanks(5432, 1234, 2, ExampleOrder, 1)
  {
    ExampleOrderIsShuffle();
    ExampleDigits();
    var pool := Pool(5432, 1234);
    assert pool[7] == Position(1, 3);
    var sel := Selected(5432, 1234, 2, ExampleOrder);
    assert sel[0] == Position(1, 3);
    var c := Chosen(5432, 1234, 2, ExampleOrder, 1);
    assert c[0] == BlankPosition(1, 1, 3, 4);
    assert c[0] in multiset(c);
  }

  /**
   * 5432 - 1234 with the shuffle that draws the subtrahend's units digit first:
   * that blank is part of a well-formed problem but not part of the drawn layout.
   */
  lemma SubtrahendUnitsHidden()
    ensures BlankArgs(5432, 1234, ExampleOrder)
    ensures var p := MathProblem(0, 5432, 1234, 4198, Blanks(5432, 1234, 2, ExampleOrder, 1));
            && WellFormedProblem(p)
            && BlankPosition(1, 1, 3, 4) in p.blanks
            && BlankCell(BlankPosition(1, 1, 3, 4)) !in GridAsWritten(p)[1]
  {
    ExampleFirstChoice();
    ExampleDigits();
    var p := MathProblem(0, 5432, 1234, 4198, Blanks(5432, 1234, 2, ExampleOrder, 1));
    BlanksCount(5432, 1234, 2, ExampleOrder, 1);
    BlanksValid(5432, 1234, 2, ExampleOrder, 1);
    BlanksOrdered(5432, 1234, 2, ExampleOrder, 1);
    assert WellFormedProblem(p);
    SubtrahendRowTooShort(p);
  }

  /**
   * The corrected subtrahend width: `maxLength - 1` slots when that holds all
   * of its digits, otherwise one slot per digit.
   */
  function SubtrahendWidth(p: MathProblem): (w: nat)
    ensures w >= |DigitArray(p.number2)| && w >= MaxLength(p) - 1
    ensures w <= MaxLength(p)
  {
    Max(MaxLength(p) - 1, |DigitArray(p.number2)|)
  }

  /** The layout with the corrected subtrahend width. */
  function Grid(p: MathProblem): (g: seq<seq<Cell>>)
    ensures |g| == 3
    ensures |g[0]| == |g[2]| == MaxLength(p) && |g[1]| == SubtrahendWidth(p)
  {
    [RowCells(p, 0, MaxLength(p)), RowCells(p, 1, SubtrahendWidth(p)), RowCells(p, 2, MaxLength(p))]
  }

  /** The corrected layout agrees with the drawn one whenever the drawn subtrahend row is wide enough. */
  lemma GridAgreesWhenWideEnough(p: MathProblem)
    requires |DigitArray(p.number2)| < MaxLength(p)
    ensures Grid(p) == GridAsWritten(p)
  {
  }

  /** Every slot of a row lies within its width, and each row is at least as wide as its digits. */
  lemma RowsHoldTheirDigits(p: MathProblem, row: int)
    requires 0 <= row <= 2
    ensures |Grid(p)[row]| >= |RowDigitsOf(p, row)|
  {
  }

  /** Every blank of a well-formed problem appears in the corrected layout, at its own place. */
  lemma GridShowsEveryBlank(p: MathProblem)
    requires WellFormedProblem(p)
    ensures forall b :: b in p.blanks ==>
              b.digitIndex < |Grid(p)[b.row]| && Grid(p)[b.row][b.digitIndex] == BlankCell(b)
  {
    forall b | b in p.blanks
      ensures b.digitIndex < |Grid(p)[b.row]| && Grid(p)[b.row][b.digitIndex] == BlankCell(b)
    {
      RowDigitsAgree(p, b.row);
      RowsHoldTheirDigits(p, b.row);
      BlankAtFindsEach(p.blanks, b);
    }
  }

  /**
   * Every digit of the three numbers is in the corrected layout: shown as
   * itself, or as a blank whose expected answer is that digit.
   */
  lemma GridShowsEveryDigit(p: MathProblem, row: int, i: int)
    requires WellFormedProblem(p)
    requires 0 <= row <= 2 && 0 <= i < |RowDigitsOf(p, row)|
    ensures i < |Grid(p)[row]|
    ensures Grid(p)[row][i] == DigitCell(RowDigitsOf(p, row)[i])
            || (Grid(p)[row][i].BlankCell? && Grid(p)[row][i].blank.correctDigit == RowDigitsOf(p, row)[i])
  {
    RowsHoldTheirDigits(p, row);
    RowDigitsAgree(p, row);
    var c := Grid(p)[row][i];
    if c.BlankCell? {
      assert c.blank in p.blanks;
      assert ValidBlank(p.number1, p.number2, c.blank);
    }
  }

  /** Past the digits of its row, a slot holds no blank and no digit. */
  lemma GridPadding(p: MathProblem, row: int, i: int)
    requires WellFormedProblem(p)
    requires 0 <= row <= 2 && |RowDigitsOf(p, row)| <= i < |Grid(p)[row]|
    ensures Grid(p)[row][i] == EmptyCell
  {
    RowDigitsAgree(p, row);
  }
}
