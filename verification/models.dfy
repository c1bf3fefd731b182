/**
 * The value types of the subtraction quiz and the construction of one problem:
 * decimal digits of each row, the pool of blankable positions, the random choice
 * of blanks (supplied by the caller) and the order in which blanks are returned.
 */
module Models {
  import opened Wrappers

  function Min(a: int, b: int): int { if a <= b then a else b }

  function Max(a: int, b: int): int { if a >= b then a else b }

  // ---------------------------------------------------------------------------
  // Decimal digits
  // ---------------------------------------------------------------------------

  /** A canonical decimal expansion: non-empty, digits 0..9, no leading zero. */
  predicate IsDecimal(ds: seq<int>)
  {
    && 1 <= |ds|
    && (forall i :: 0 <= i < |ds| ==> 0 <= ds[i] <= 9)
    && (ds[0] == 0 ==> |ds| == 1)
  }

  /** The decimal digits of n, most significant first. */
  function Digits(n: nat): (r: seq<int>)
    ensures IsDecimal(r)
    decreases n
  {
    if n < 10 then [n] else Digits(n / 10) + [n % 10]
  }

  /** Reads a most-significant-first digit list back as a number. */
  function Value(ds: seq<int>): int
  {
    if ds == [] then 0 else Value(ds[..|ds| - 1]) * 10 + ds[|ds| - 1]
  }

  /** Folding the digits of n back gives n. */
  lemma {:induction false} DigitsRoundTrip(n: nat)
    ensures Value(Digits(n)) == n
  {
    if n >= 10 {
      var ds := Digits(n);
      assert ds[..|ds| - 1] == Digits(n / 10);
      DigitsRoundTrip(n / 10);
    }
  }

  /** Every canonical expansion is the expansion of its value: Digits is onto them. */
  lemma {:induction false} DecimalIsDigits(ds: seq<int>)
    requires IsDecimal(ds)
    ensures Value(ds) >= 0 && Digits(Value(ds)) == ds
    decreases |ds|
  {
    if |ds| > 1 {
      var init := ds[..|ds| - 1];
      assert IsDecimal(init);
      DecimalIsDigits(init);
      var v := Value(init);
      assert v != 0;
      var n := v * 10 + ds[|ds| - 1];
      assert n / 10 == v && n % 10 == ds[|ds| - 1];
      assert Digits(n) == Digits(v) + [ds[|ds| - 1]];
    }
  }

  // ---------------------------------------------------------------------------
  // Value types
  // ---------------------------------------------------------------------------

  /** A blankable digit position: row 0 is the minuend, 1 the subtrahend, 2 the difference. */
  datatype Position = Position(row: int, index: int)

  /** One hidden digit; `id` stands for the UUID the source stamps on each blank. */
  datatype BlankPosition = BlankPosition(id: nat, row: int, digitIndex: int, correctDigit: int)

  datatype MathProblem = MathProblem(
    id: nat,
    number1: int,
    number2: int,
    correctAnswer: int,
    blanks: seq<BlankPosition>)

  /** The learner's digits for one problem, keyed by blank id. */
  datatype UserAnswer = UserAnswer(problemId: nat, answers: map<nat, int>)

  datatype QuizResult = QuizResult(
    id: nat,
    problemId: nat,
    userAnswer: UserAnswer,
    problem: MathProblem,
    correctCount: int,
    totalBlanks: int,
    isAllCorrect: bool)

  datatype Difficulty = Easy | Medium | Hard
  {
    /** The blank count each difficulty names. */
    function BlankCount(): (r: int)
      ensures 2 <= r <= 4
      ensures r == 2 <==> this == Easy
      ensures r == 4 <==> this == Hard
    {
      match this
      case Easy => 2
      case Medium => 3
      case Hard => 4
    }
  }

  datatype QuizSettings = QuizSettings(
    numberOfProblems: int,
    minNumber: int,
    maxNumber: int,
    difficulty: Difficulty)

  const DefaultSettings := QuizSettings(5, 1000, 9999, Medium)

  /** The three difficulties name three different counts, and none of them is read by blank generation. */
  lemma BlankCountInjective(d1: Difficulty, d2: Difficulty)
    ensures d1.BlankCount() == d2.BlankCount() <==> d1 == d2
  {
  }

  /**
   * The source's `isCorrect`: some digit is entered and every entered value is
   * within 0..9. It does not look at the problem's correct digits.
   */
  predicate IsCorrect(a: UserAnswer)
  {
    |a.answers| > 0 && forall k :: k in a.answers ==> 0 <= a.answers[k] <= 9
  }

  /** For any blank, entering a wrong digit for it still makes `isCorrect` hold. */
  lemma IsCorrectIgnoresCorrectDigits(b: BlankPosition)
    requires 0 <= b.correctDigit <= 9
    ensures var wrong := (b.correctDigit + 1) % 10;
            wrong != b.correctDigit && IsCorrect(UserAnswer(0, map[b.id := wrong]))
  {
    var m := map[b.id := (b.correctDigit + 1) % 10];
    assert m.Keys == {b.id};
    assert |m| == 1;
  }

  /** What `isCorrect` does reject: an answer with no entries, and one entry outside 0..9 among any others. */
  lemma IsCorrectRejects(a: UserAnswer, k: nat)
    ensures a.answers == map[] ==> !IsCorrect(a)
    ensures k in a.answers && !(0 <= a.answers[k] <= 9) ==> !IsCorrect(a)
  {
  }

  // ---------------------------------------------------------------------------
  // The pool of positions and the choice of blanks
  // ---------------------------------------------------------------------------

  /** The digits of each row as `generateBlanks` switches over them (any row other than 0 and 1 is the difference). */
  function RowDigits(number1: nat, number2: nat, row: int): seq<int>
    requires number2 <= number1
  {
    if row == 0 then Digits(number1)
    else if row == 1 then Digits(number2)
    else Digits(number1 - number2)
  }

  function PoolSize(number1: nat, number2: nat): nat
    requires number2 <= number1
  {
    |Digits(number1)| + |Digits(number2)| + |Digits(number1 - number2)|
  }

  predicate ValidPosition(number1: nat, number2: nat, p: Position)
    requires number2 <= number1
  {
    0 <= p.row <= 2 && 0 <= p.index < |RowDigits(number1, number2, p.row)|
  }

  function RowPositions(row: int, count: nat): seq<Position>
  {
    seq(count, i => Position(row, i))
  }

  lemma RowPositionsSnoc(row: int, count: nat)
    ensures RowPositions(row, count + 1) == RowPositions(row, count) + [Position(row, count)]
  {
  }

  /** `availablePositions`: every digit of row 0, then of row 1, then of row 2. */
  function Pool(number1: nat, number2: nat): seq<Position>
    requires number2 <= number1
  {
    RowPositions(0, |Digits(number1)|)
      + RowPositions(1, |Digits(number2)|)
      + RowPositions(2, |Digits(number1 - number2)|)
  }

  /** The pool holds each valid position exactly once and nothing else. */
  lemma PoolIsEveryPosition(number1: nat, number2: nat)
    requires number2 <= number1
    ensures |Pool(number1, number2)| == PoolSize(number1, number2) >= 3
    ensures forall p :: p in Pool(number1, number2) <==> ValidPosition(number1, number2, p)
    ensures forall i, j :: 0 <= i < j < |Pool(number1, number2)| ==> Pool(number1, number2)[i] != Pool(number1, number2)[j]
  {
    var pool := Pool(number1, number2);
    var l1, l2 := |Digits(number1)|, |Digits(number2)|;
    forall k | 0 <= k < |pool|
      ensures pool[k] == if k < l1 then Position(0, k)
                         else if k < l1 + l2 then Position(1, k - l1)
                         else Position(2, k - l1 - l2)
    {
    }
    forall p | ValidPosition(number1, number2, p)
      ensures p in pool
    {
      var k := if p.row == 0 then p.index else if p.row == 1 then l1 + p.index else l1 + l2 + p.index;
      assert pool[k] == p;
    }
  }

  /** `order` is a shuffle of n things: a permutation of 0..n-1. */
  predicate IsPermutation(order: seq<nat>, n: nat)
  {
    && |order| == n
    && (forall i :: 0 <= i < n ==> order[i] < n)
    && (forall i, j :: 0 <= i < j < n ==> order[i] != order[j])
  }

  /** What the blank generator needs of its inputs: a non-negative difference and a shuffle of the pool. */
  predicate BlankArgs(number1: nat, number2: nat, order: seq<nat>)
  {
    number2 <= number1 && IsPermutation(order, PoolSize(number1, number2))
  }

  /** `availablePositions.shuffled().prefix(blankCount)`, the shuffle being `order`. */
  function Selected(number1: nat, number2: nat, blankCount: nat, order: seq<nat>): seq<Position>
    requires BlankArgs(number1, number2, order)
  {
    var pool := Pool(number1, number2);
    var shuffled := seq(|order|, i requires 0 <= i < |order| => pool[order[i]]);
    shuffled[..Min(blankCount, |shuffled|)]
  }

  /** Every selected position is a real digit position. */
  lemma SelectedValid(number1: nat, number2: nat, blankCount: nat, order: seq<nat>)
    requires BlankArgs(number1, number2, order)
    ensures forall i :: 0 <= i < |Selected(number1, number2, blankCount, order)| ==>
              ValidPosition(number1, number2, Selected(number1, number2, blankCount, order)[i])
  {
    PoolIsEveryPosition(number1, number2);
    var pool := Pool(number1, number2);
    var sel := Selected(number1, number2, blankCount, order);
    forall i | 0 <= i < |sel|
      ensures ValidPosition(number1, number2, sel[i])
    {
      assert sel[i] == pool[order[i]];
      assert pool[order[i]] in pool;
    }
  }

  function MakeBlank(number1: nat, number2: nat, id: nat, p: Position): BlankPosition
    requires number2 <= number1 && ValidPosition(number1, number2, p)
  {
    BlankPosition(id, p.row, p.index, RowDigits(number1, number2, p.row)[p.index])
  }

  /** The blanks in the order they are chosen, before sorting; the k-th gets id firstId + k. */
  function Chosen(number1: nat, number2: nat, blankCount: nat, order: seq<nat>, firstId: nat): seq<BlankPosition>
    requires BlankArgs(number1, number2, order)
  {
    var sel := Selected(number1, number2, blankCount, order);
    SelectedValid(number1, number2, blankCount, order);
    seq(|sel|, i requires 0 <= i < |sel| => MakeBlank(number1, number2, firstId + i, sel[i]))
  }

  /** What `generateBlanks` returns for the given random choices. */
  function Blanks(number1: nat, number2: nat, blankCount: nat, order: seq<nat>, firstId: nat): seq<BlankPosition>
    requires BlankArgs(number1, number2, order)
  {
    SortBlanks(Chosen(number1, number2, blankCount, order, firstId))
  }

  // ---------------------------------------------------------------------------
  // Ordering by (row, digitIndex)
  // ---------------------------------------------------------------------------

  /** The tuple comparison `(a.row, a.digitIndex) < (b.row, b.digitIndex)`. */
  predicate Before(a: BlankPosition, b: BlankPosition)
  {
    a.row < b.row || (a.row == b.row && a.digitIndex < b.digitIndex)
  }

  predicate SamePlace(a: BlankPosition, b: BlankPosition)
  {
    a.row == b.row && a.digitIndex == b.digitIndex
  }

  predicate Sorted(s: seq<BlankPosition>)
  {
    forall i, j :: 0 <= i < j < |s| ==> !Before(s[j], s[i])
  }

  predicate StrictlySorted(s: seq<BlankPosition>)
  {
    forall i, j :: 0 <= i < j < |s| ==> Before(s[i], s[j])
  }

  predicate DistinctPlaces(s: seq<BlankPosition>)
  {
    forall i, j :: 0 <= i < j < |s| ==> !SamePlace(s[i], s[j])
  }

  predicate DistinctIds(s: seq<BlankPosition>)
  {
    forall i, j :: 0 <= i < j < |s| ==> s[i].id != s[j].id
  }

  function Insert(x: BlankPosition, s: seq<BlankPosition>): seq<BlankPosition>
  {
    if s == [] then [x]
    else if Before(s[0], x) then [s[0]] + Insert(x, s[1..])
    else [x] + s
  }

  /** Inserting adds `x` and loses nothing. */
  lemma {:induction false} InsertPermutes(x: BlankPosition, s: seq<BlankPosition>)
    ensures multiset(Insert(x, s)) == multiset(s) + multiset{x}
  {
    if s != [] && Before(s[0], x) {
      InsertPermutes(x, s[1..]);
      assert s == [s[0]] + s[1..];
    }
  }

  /** `sorted { ($0.row, $0.digitIndex) < ($1.row, $1.digitIndex) }`, as an insertion sort. */
  function SortBlanks(s: seq<BlankPosition>): seq<BlankPosition>
  {
    if s == [] then [] else Insert(s[0], SortBlanks(s[1..]))
  }

  /** Sorting is a permutation: the same blanks, each as often as before. */
  lemma {:induction false} SortBlanksPermutes(s: seq<BlankPosition>)
    ensures multiset(SortBlanks(s)) == multiset(s)
  {
    if s != [] {
      SortBlanksPermutes(s[1..]);
      InsertPermutes(s[0], SortBlanks(s[1..]));
      assert s == [s[0]] + s[1..];
    }
  }

  /** Every element of Insert(x, s) is x or an element of s at some index. */
  lemma InsertFrom(x: BlankPosition, s: seq<BlankPosition>, j: int)
    requires 0 <= j < |Insert(x, s)|
    ensures Insert(x, s)[j] == x || exists m :: 0 <= m < |s| && s[m] == Insert(x, s)[j]
  {
    var t := Insert(x, s);
    InsertPermutes(x, s);
    assert t[j] in multiset(t);
    if t[j] != x {
      assert t[j] in multiset(s);
    }
  }

  lemma {:induction false} InsertSorted(x: BlankPosition, s: seq<BlankPosition>)
    requires Sorted(s)
    ensures Sorted(Insert(x, s))
  {
    if s != [] && Before(s[0], x) {
      var t := Insert(x, s[1..]);
      InsertSorted(x, s[1..]);
      forall j | 0 <= j < |t|
        ensures !Before(t[j], s[0])
      {
        InsertFrom(x, s[1..], j);
      }
      assert Insert(x, s) == [s[0]] + t;
    }
  }

  lemma {:induction false} InsertStrict(x: BlankPosition, s: seq<BlankPosition>)
    requires StrictlySorted(s)
    requires forall y :: y in s ==> !SamePlace(x, y)
    ensures StrictlySorted(Insert(x, s))
  {
    if s != [] {
      if Before(s[0], x) {
        var t := Insert(x, s[1..]);
        InsertStrict(x, s[1..]);
        forall j | 0 <= j < |t|
          ensures Before(s[0], t[j])
        {
          InsertFrom(x, s[1..], j);
        }
        assert Insert(x, s) == [s[0]] + t;
      } else {
        assert s[0] in s;
        assert Before(x, s[0]);
      }
    }
  }

  /** The sorted blanks are in (row, digitIndex) order, strictly when no two share a place. */
  lemma {:induction false} SortBlanksOrdered(s: seq<BlankPosition>)
    ensures Sorted(SortBlanks(s))
    ensures DistinctPlaces(s) ==> StrictlySorted(SortBlanks(s))
  {
    if s != [] {
      var t := SortBlanks(s[1..]);
      SortBlanksOrdered(s[1..]);
      if DistinctPlaces(s) {
        assert DistinctPlaces(s[1..]);
        SortBlanksPermutes(s[1..]);
        forall y | y in t
          ensures !SamePlace(s[0], y)
        {
          assert y in multiset(s[1..]);
          var m :| 0 <= m < |s[1..]| && s[1..][m] == y;
          assert s[m + 1] == y;
        }
      }
      InsertSorted(s[0], t);
      if DistinctPlaces(s) {
        assert StrictlySorted(t);
        InsertStrict(s[0], t);
      }
    }
  }

  // ---------------------------------------------------------------------------
  // What the generated blanks satisfy
  // ---------------------------------------------------------------------------

  /** A blank names a digit that exists in its row and records that very digit. */
  predicate ValidBlank(number1: nat, number2: nat, b: BlankPosition)
    requires number2 <= number1
  {
    && 0 <= b.row <= 2
    && 0 <= b.digitIndex < |RowDigits(number1, number2, b.row)|
    && b.correctDigit == RowDigits(number1, number2, b.row)[b.digitIndex]
  }

  lemma ChosenFacts(number1: nat, number2: nat, blankCount: nat, order: seq<nat>, firstId: nat)
    requires BlankArgs(number1, number2, order)
    ensures var c := Chosen(number1, number2, blankCount, order, firstId);
            && |c| == Min(blankCount, PoolSize(number1, number2))
            && DistinctPlaces(c)
            && (forall i :: 0 <= i < |c| ==> ValidBlank(number1, number2, c[i]) && c[i].id == firstId + i)
  {
    PoolIsEveryPosition(number1, number2);
    var pool := Pool(number1, number2);
    var sel := Selected(number1, number2, blankCount, order);
    var c := Chosen(number1, number2, blankCount, order, firstId);
    forall i | 0 <= i < |c|
      ensures c[i] == MakeBlank(number1, number2, firstId + i, pool[order[i]])
    {
      assert sel[i] == pool[order[i]];
    }
    forall i, j | 0 <= i < j < |c|
      ensures !SamePlace(c[i], c[j])
    {
      assert pool[order[i]] != pool[order[j]];
    }
  }

  /** There are min(blankCount, pool size) blanks; with blankCount in 2..3 that is exactly blankCount. */
  lemma BlanksCount(number1: nat, number2: nat, blankCount: nat, order: seq<nat>, firstId: nat)
    requires BlankArgs(number1, number2, order)
    ensures |Blanks(number1, number2, blankCount, order, firstId)| == Min(blankCount, PoolSize(number1, number2))
    ensures blankCount <= 3 ==> |Blanks(number1, number2, blankCount, order, firstId)| == blankCount
  {
    ChosenFacts(number1, number2, blankCount, order, firstId);
    var c := Chosen(number1, number2, blankCount, order, firstId);
    SortBlanksPermutes(c);
    assert |multiset(SortBlanks(c))| == |multiset(c)|;
  }

  /** Each blank is a real digit of its row with that digit recorded, and carries one of the fresh ids. */
  lemma BlanksValid(number1: nat, number2: nat, blankCount: nat, order: seq<nat>, firstId: nat)
    requires BlankArgs(number1, number2, order)
    ensures var r := Blanks(number1, number2, blankCount, order, firstId);
            forall b :: b in r ==>
              && ValidBlank(number1, number2, b)
              && 0 <= b.correctDigit <= 9
              && firstId <= b.id < firstId + |r|
  {
    ChosenFacts(number1, number2, blankCount, order, firstId);
    BlanksCount(number1, number2, blankCount, order, firstId);
    var c := Chosen(number1, number2, blankCount, order, firstId);
    var r := Blanks(number1, number2, blankCount, order, firstId);
    SortBlanksPermutes(c);
    forall b | b in r
      ensures ValidBlank(number1, number2, b) && 0 <= b.correctDigit <= 9 && firstId <= b.id < firstId + |r|
    {
      assert b in multiset(c);
      var i :| 0 <= i < |c| && c[i] == b;
      assert IsDecimal(RowDigits(number1, number2, b.row));
    }
  }

  /**
   * Sorting blanks at distinct places whose ids count up from `firstId` gives
   * a strictly increasing list with distinct places and distinct ids.
   */
  lemma SortedChoiceOrdered(c: seq<BlankPosition>, firstId: nat)
    requires DistinctPlaces(c)
    requires forall i :: 0 <= i < |c| ==> c[i].id == firstId + i
    ensures StrictlySorted(SortBlanks(c)) && DistinctPlaces(SortBlanks(c)) && DistinctIds(SortBlanks(c))
  {
    var r := SortBlanks(c);
    SortBlanksOrdered(c);
    SortBlanksPermutes(c);
    forall i, j | 0 <= i < j < |r|
      ensures r[i].id != r[j].id
    {
      assert r[i] in multiset(c) && r[j] in multiset(c);
      var a :| 0 <= a < |c| && c[a] == r[i];
      var b :| 0 <= b < |c| && c[b] == r[j];
      assert Before(r[i], r[j]);
    }
  }

  /** The blanks are strictly increasing in (row, digitIndex), so no two share a place, and their ids differ. */
  lemma BlanksOrdered(number1: nat, number2: nat, blankCount: nat, order: seq<nat>, firstId: nat)
    requires BlankArgs(number1, number2, order)
    ensures StrictlySorted(Blanks(number1, number2, blankCount, order, firstId))
    ensures DistinctPlaces(Blanks(number1, number2, blankCount, order, firstId))
    ensures DistinctIds(Blanks(number1, number2, blankCount, order, firstId))
  {
    ChosenFacts(number1, number2, blankCount, order, firstId);
    SortedChoiceOrdered(Chosen(number1, number2, blankCount, order, firstId), firstId);
  }

  /** Everything a generated problem satisfies. */
  predicate WellFormedProblem(p: MathProblem)
  {
    && 0 <= p.number2 <= p.number1
    && p.correctAnswer == p.number1 - p.number2
    && 2 <= |p.blanks| <= 3
    && (forall b :: b in p.blanks ==> ValidBlank(p.number1, p.number2, b))
    && StrictlySorted(p.blanks)
    && DistinctIds(p.blanks)
  }

  // ---------------------------------------------------------------------------
  // The imperative generator and the problem initialiser
  // ---------------------------------------------------------------------------

  /** The three loops of `generateBlanks` that list every position of row 0, then row 1, then row 2. */
  method CollectPositions(count1: nat, count2: nat, count3: nat) returns (availablePositions: seq<Position>)
    ensures availablePositions == RowPositions(0, count1) + RowPositions(1, count2) + RowPositions(2, count3)
  {
    availablePositions := [];
    for i := 0 to count1
      invariant availablePositions == RowPositions(0, i)
    {
      RowPositionsSnoc(0, i);
      availablePositions := availablePositions + [Position(0, i)];
    }
    for i := 0 to count2
      invariant availablePositions == RowPositions(0, count1) + RowPositions(1, i)
    {
      RowPositionsSnoc(1, i);
      availablePositions := availablePositions + [Position(1, i)];
    }
    for i := 0 to count3
      invariant availablePositions == RowPositions(0, count1) + RowPositions(1, count2) + RowPositions(2, i)
    {
      RowPositionsSnoc(2, i);
      availablePositions := availablePositions + [Position(2, i)];
    }
  }

  /**
   * `generateBlanks`: collects the pool row by row, takes the first blankCount
   * positions of the shuffle, records each position's digit and sorts.
   */
  method GenerateBlanks(num1: nat, number2: nat, blankCount: nat, order: seq<nat>, firstId: nat)
    returns (blanks: seq<BlankPosition>)
    requires BlankArgs(num1, number2, order)
    ensures blanks == Blanks(num1, number2, blankCount, order, firstId)
  {
    var positions: seq<BlankPosition> := [];
    var answer := num1 - number2;
    var digits1 := Digits(num1);
    var digits2 := Digits(number2);
    var answerDigits := Digits(answer);

    var availablePositions := CollectPositions(|digits1|, |digits2|, |answerDigits|);
    assert availablePositions == Pool(num1, number2);

    PoolIsEveryPosition(num1, number2);
    var shuffled := seq(|order|, i requires 0 <= i < |order| => availablePositions[order[i]]);
    var selectedPositions := shuffled[..Min(blankCount, |shuffled|)];
    assert selectedPositions == Selected(num1, number2, blankCount, order);
    ghost var chosen := Chosen(num1, number2, blankCount, order, firstId);

    for k := 0 to |selectedPositions|
      invariant positions == chosen[..k]
    {
      var p := selectedPositions[k];
      assert p in availablePositions;
      assert chosen[k] == MakeBlank(num1, number2, firstId + k, p);
      var correctDigit: int;
      if p.row == 0 {
        correctDigit := digits1[p.index];
      } else if p.row == 1 {
        correctDigit := digits2[p.index];
      } else {
        correctDigit := answerDigits[p.index];
      }
      positions := positions + [BlankPosition(firstId + k, p.row, p.index, correctDigit)];
      assert chosen[..k + 1] == chosen[..k] + [chosen[k]];
    }
    assert positions == chosen;
    blanks := SortBlanks(positions);
  }

  /**
   * `MathProblem.init`: the problem takes `id`, its blanks the ids after it.
   * The digit conversion traps on a minus sign, so both operands and the
   * difference must be non-negative.
   */
  method NewProblem(id: nat, number1: nat, number2: nat, blankCount: nat, order: seq<nat>)
    returns (p: MathProblem)
    requires BlankArgs(number1, number2, order)
    requires 2 <= blankCount <= 3
    ensures p.id == id && p.number1 == number1 && p.number2 == number2
    ensures p.correctAnswer == number1 - number2
    ensures p.blanks == Blanks(number1, number2, blankCount, order, id + 1)
    ensures |p.blanks| == blankCount
    ensures forall b :: b in p.blanks ==> id < b.id <= id + blankCount
    ensures WellFormedProblem(p)
  {
    var blanks := GenerateBlanks(number1, number2, blankCount, order, id + 1);
    BlanksCount(number1, number2, blankCount, order, id + 1);
    BlanksValid(number1, number2, blankCount, order, id + 1);
    BlanksOrdered(number1, number2, blankCount, order, id + 1);
    p := MathProblem(id, number1, number2, number1 - number2, blanks);
  }
}
