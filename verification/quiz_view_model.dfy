/**
 * The quiz session (MathQuizViewModel): the problem list, the learner's answers
 * per problem, the cursor, the validation and completion flags and the scores.
 */
module QuizViewModel {
  import opened Wrappers
  import opened Models

  // ---------------------------------------------------------------------------
  // Random choices for one problem
  // ---------------------------------------------------------------------------

  /**
   * What the random source yields for one problem: both operands, the blank
   * count and the shuffle of the position pool (a permutation of its indices).
   */
  datatype Draw = Draw(number1: int, number2: int, blankCount: int, order: seq<nat>)

  /** A draw the source can produce for `settings`: the ranges passed to `Int.random`. */
  predicate ValidDraw(settings: QuizSettings, d: Draw)
  {
    && settings.minNumber <= d.number1 <= settings.maxNumber
    && settings.minNumber <= d.number2 <= Min(d.number1, settings.maxNumber)
    && 0 <= d.number2
    && 2 <= d.blankCount <= 3
    && BlankArgs(d.number1, d.number2, d.order)
  }

  /** The problem built from a draw: its operands and the blanks chosen by the draw's shuffle. */
  predicate ProblemFrom(p: MathProblem, d: Draw)
  {
    && 0 <= d.number2 <= d.number1
    && 0 <= d.blankCount
    && BlankArgs(d.number1, d.number2, d.order)
    && p.number1 == d.number1
    && p.number2 == d.number2
    && p.blanks == Blanks(d.number1, d.number2, d.blankCount, d.order, p.id + 1)
  }

  /**
   * `added` are the problems generated from `draws`, one per draw in order,
   * each with an empty answer record under its id in `answers`.
   */
  predicate Generated(added: seq<MathProblem>, draws: seq<Draw>, answers: map<nat, UserAnswer>)
  {
    && |added| == |draws|
    && forall i :: 0 <= i < |added| ==>
         && ProblemFrom(added[i], draws[i])
         && added[i].id in answers
         && answers[added[i].id] == UserAnswer(added[i].id, map[])
  }

  /** Generating one more problem, under an id not yet answered, extends `Generated`. */
  lemma GeneratedStep(added: seq<MathProblem>, draws: seq<Draw>, answers: map<nat, UserAnswer>,
                      p: MathProblem, d: Draw)
    requires Generated(added, draws, answers)
    requires ProblemFrom(p, d) && p.id !in answers
    ensures Generated(added + [p], draws + [d], answers[p.id := UserAnswer(p.id, map[])])
  {
    var answers' := answers[p.id := UserAnswer(p.id, map[])];
    forall i | 0 <= i < |added|
      ensures added[i].id != p.id && answers'[added[i].id] == answers[added[i].id]
    {
      assert added[i].id in answers;
    }
  }

  /** `GeneratedStep` stated over the whole problem list, with `n` problems already there before. */
  lemma GeneratedAppend(before: seq<MathProblem>, after: seq<MathProblem>, n: nat,
                        draws: seq<Draw>, k: nat, answers: map<nat, UserAnswer>, answers': map<nat, UserAnswer>)
    requires n <= |before| && k < |draws|
    requires Generated(before[n..], draws[..k], answers)
    requires |after| == |before| + 1 && after[..|before|] == before
    requires ProblemFrom(after[|before|], draws[k]) && after[|before|].id !in answers
    requires answers' == answers[after[|before|].id := UserAnswer(after[|before|].id, map[])]
    ensures after[..n] == before[..n]
    ensures Generated(after[n..], draws[..k + 1], answers')
  {
    var p := after[|before|];
    assert after == before + [p];
    assert after[n..] == before[n..] + [p];
    assert draws[..k + 1] == draws[..k] + [draws[k]];
    GeneratedStep(before[n..], draws[..k], answers, p, draws[k]);
  }

  // ---------------------------------------------------------------------------
  // Identifiers
  // ---------------------------------------------------------------------------

  predicate Distinct(s: seq<nat>)
  {
    forall i, j :: 0 <= i < j < |s| ==> s[i] != s[j]
  }

  function ProblemIds(ps: seq<MathProblem>): seq<nat>
  {
    seq(|ps|, i requires 0 <= i < |ps| => ps[i].id)
  }

  function ResultIds(rs: seq<QuizResult>): seq<nat>
  {
    seq(|rs|, i requires 0 <= i < |rs| => rs[i].problemId)
  }

  function BlankIds(blanks: seq<BlankPosition>): seq<nat>
  {
    seq(|blanks|, i requires 0 <= i < |blanks| => blanks[i].id)
  }

  /** A duplicate-free list whose elements all occur in b is no longer than b. */
  lemma {:induction false} DistinctWithin(a: seq<nat>, b: seq<nat>)
    requires Distinct(a)
    requires forall x :: x in a ==> x in b
    ensures |a| <= |b|
  {
    if a != [] {
      assert a[0] in a;
      var j :| 0 <= j < |b| && b[j] == a[0];
      var rest := b[..j] + b[j + 1..];
      forall y | y in a[1..]
        ensures y in rest
      {
        assert y in a;
        var k :| 0 <= k < |b| && b[k] == y;
        if k < j {
          assert rest[k] == y;
        } else {
          assert rest[k - 1] == y;
        }
      }
      DistinctWithin(a[1..], rest);
    }
  }

  function ToSet(s: seq<nat>): (r: set<nat>)
    ensures forall x :: x in r <==> x in s
  {
    if s == [] then {} else (assert s == [s[0]] + s[1..]; {s[0]} + ToSet(s[1..]))
  }

  /** A duplicate-free list has as many distinct elements as entries. */
  lemma {:induction false} DistinctSetSize(s: seq<nat>)
    requires Distinct(s)
    ensures |ToSet(s)| == |s|
  {
    if s != [] {
      var rest := s[1..];
      assert Distinct(rest) by {
        forall i, j | 0 <= i < j < |rest|
          ensures rest[i] != rest[j]
        {
          assert rest[i] == s[i + 1] && rest[j] == s[j + 1];
        }
      }
      DistinctSetSize(rest);
      assert s[0] !in ToSet(rest) by {
        forall i | 0 <= i < |rest|
          ensures rest[i] != s[0]
        {
          assert rest[i] == s[i + 1];
        }
      }
      assert ToSet(s) == {s[0]} + ToSet(rest);
    }
  }

  lemma SubsetSize(a: set<nat>, b: set<nat>)
    requires a <= b
    ensures |a| <= |b|
  {
    assert b == a + (b - a);
    assert a * (b - a) == {};
  }

  // ---------------------------------------------------------------------------
  // Scoring
  // ---------------------------------------------------------------------------

  /** A blank is answered correctly when an entry exists and equals its digit; a missing entry is wrong. */
  predicate AnsweredCorrectly(b: BlankPosition, answers: map<nat, int>)
  {
    b.id in answers && answers[b.id] == b.correctDigit
  }

  /** How many blanks are answered correctly (the counting loop of `saveCurrentResult`). */
  function CorrectCount(blanks: seq<BlankPosition>, answers: map<nat, int>): (n: nat)
    ensures n <= |blanks|
  {
    if blanks == [] then 0
    else CorrectCount(blanks[..|blanks| - 1], answers)
         + (if AnsweredCorrectly(blanks[|blanks| - 1], answers) then 1 else 0)
  }

  /** The count reaches the number of blanks exactly when every blank is answered correctly. */
  lemma {:induction false} CorrectCountAll(blanks: seq<BlankPosition>, answers: map<nat, int>)
    ensures CorrectCount(blanks, answers) == |blanks|
            <==> forall i :: 0 <= i < |blanks| ==> AnsweredCorrectly(blanks[i], answers)
  {
    if blanks != [] {
      var init := blanks[..|blanks| - 1];
      CorrectCountAll(init, answers);
      assert forall i :: 0 <= i < |init| ==> init[i] == blanks[i];
    }
  }

  /** The per-blank verdicts of `validateCurrentAnswer`, written entry by entry as its loop does. */
  function ValidationOf(blanks: seq<BlankPosition>, answers: map<nat, int>): (v: map<nat, bool>)
    ensures forall i :: 0 <= i < |blanks| ==> blanks[i].id in v
    ensures forall k :: k in v ==> k in BlankIds(blanks)
  {
    if blanks == [] then map[]
    else
      var init := blanks[..|blanks| - 1];
      var last := blanks[|blanks| - 1];
      assert forall i :: 0 <= i < |init| ==> init[i] == blanks[i];
      assert BlankIds(blanks) == BlankIds(init) + [last.id];
      ValidationOf(init, answers)[last.id := AnsweredCorrectly(last, answers)]
  }

  /** With distinct blank ids, the verdict for each blank says whether it is answered correctly. */
  lemma {:induction false} ValidationMeaning(blanks: seq<BlankPosition>, answers: map<nat, int>)
    requires DistinctIds(blanks)
    ensures forall i :: 0 <= i < |blanks| ==>
              ValidationOf(blanks, answers)[blanks[i].id] == AnsweredCorrectly(blanks[i], answers)
  {
    if blanks != [] {
      var init := blanks[..|blanks| - 1];
      var last := blanks[|blanks| - 1];
      assert DistinctIds(init) by {
        forall i, j | 0 <= i < j < |init|
          ensures init[i].id != init[j].id
        {
          assert init[i] == blanks[i] && init[j] == blanks[j];
        }
      }
      ValidationMeaning(init, answers);
      var v := ValidationOf(blanks, answers);
      var w := ValidationOf(init, answers);
      assert v == w[last.id := AnsweredCorrectly(last, answers)];
      forall i | 0 <= i < |blanks|
        ensures v[blanks[i].id] == AnsweredCorrectly(blanks[i], answers)
      {
        if i < |init| {
          assert blanks[i] == init[i];
          assert blanks[i].id != last.id;
          assert v[blanks[i].id] == w[init[i].id];
        } else {
          assert blanks[i] == last;
        }
      }
    }
  }

  predicate AllTrue(v: map<nat, bool>)
  {
    forall k :: k in v ==> v[k]
  }

  /** All verdicts are true exactly when the saved score will be "all correct". */
  lemma ValidationAgreesWithScore(blanks: seq<BlankPosition>, answers: map<nat, int>)
    requires DistinctIds(blanks)
    ensures AllTrue(ValidationOf(blanks, answers)) <==> CorrectCount(blanks, answers) == |blanks|
  {
    var v := ValidationOf(blanks, answers);
    ValidationMeaning(blanks, answers);
    CorrectCountAll(blanks, answers);
    if CorrectCount(blanks, answers) == |blanks| {
      forall k | k in v
        ensures v[k]
      {
        var i :| 0 <= i < |blanks| && BlankIds(blanks)[i] == k;
        assert blanks[i].id == k;
      }
    } else {
      var i :| 0 <= i < |blanks| && !AnsweredCorrectly(blanks[i], answers);
      assert !v[blanks[i].id];
    }
  }

  /** The result `saveCurrentResult` records for problem p with answers ua, stamped with id. */
  function ScoreOf(p: MathProblem, ua: UserAnswer, id: nat): (r: QuizResult)
    ensures r.id == id && r.problemId == p.id && r.problem == p && r.userAnswer == ua
    ensures 0 <= r.correctCount <= r.totalBlanks == |p.blanks|
    ensures r.isAllCorrect <==> forall i :: 0 <= i < |p.blanks| ==> AnsweredCorrectly(p.blanks[i], ua.answers)
  {
    CorrectCountAll(p.blanks, ua.answers);
    var correctCount := CorrectCount(p.blanks, ua.answers);
    QuizResult(id, p.id, ua, p, correctCount, |p.blanks|, correctCount == |p.blanks|)
  }

  /**
   * What `isCorrect` is documented to check: every blank of the problem is
   * filled in, and with its correct digit.
   */
  predicate IsCorrectFor(a: UserAnswer, p: MathProblem)
  {
    |p.blanks| > 0 && forall i :: 0 <= i < |p.blanks| ==> AnsweredCorrectly(p.blanks[i], a.answers)
  }

  /**
   * The intended check agrees with the score `saveCurrentResult` records, and
   * implies that some digit is entered and each blank's entry is a digit.
   */
  lemma IsCorrectForAgreesWithScore(p: MathProblem, ua: UserAnswer, id: nat)
    requires WellFormedProblem(p)
    ensures IsCorrectFor(ua, p) <==> ScoreOf(p, ua, id).isAllCorrect
    ensures IsCorrectFor(ua, p) ==>
              && |ua.answers| > 0
              && forall i :: 0 <= i < |p.blanks| ==> 0 <= ua.answers[p.blanks[i].id] <= 9
  {
    if IsCorrectFor(ua, p) {
      assert p.blanks[0].id in ua.answers;
      assert |ua.answers.Keys| > 0;
      forall i | 0 <= i < |p.blanks|
        ensures 0 <= ua.answers[p.blanks[i].id] <= 9
      {
        assert p.blanks[i] in p.blanks;
      }
    }
  }

  /**
   * The check as written accepts a wrong answer: one blank of a problem given
   * any digit other than its own passes `isCorrect` and fails the intended check.
   */
  lemma IsCorrectAcceptsWrongAnswer(p: MathProblem)
    requires WellFormedProblem(p)
    ensures var b := p.blanks[0];
            var ua := UserAnswer(p.id, map[b.id := (b.correctDigit + 1) % 10]);
            IsCorrect(ua) && !IsCorrectFor(ua, p)
  {
    var b := p.blanks[0];
    assert b in p.blanks;
    IsCorrectIgnoresCorrectDigits(b);
    var m := map[b.id := (b.correctDigit + 1) % 10];
    assert m.Keys == {b.id};
    assert !AnsweredCorrectly(p.blanks[0], m);
  }

  /** `firstIndex(where: { $0.problemId == problemId })`. */
  function IndexOfProblem(rs: seq<QuizResult>, problemId: nat): (r: Option<nat>)
    ensures r.Some? ==> r.value < |rs| && rs[r.value].problemId == problemId
    ensures r.Some? ==> forall j :: 0 <= j < r.value ==> rs[j].problemId != problemId
    ensures r.None? <==> forall j :: 0 <= j < |rs| ==> rs[j].problemId != problemId
  {
    if rs == [] then None
    else if rs[0].problemId == problemId then Some(0)
    else match IndexOfProblem(rs[1..], problemId)
      case Some(i) => Some(i + 1)
      case None => None
  }

  /** Replace the result for the same problem, or append when there is none. */
  function Upsert(rs: seq<QuizResult>, r: QuizResult): seq<QuizResult>
  {
    match IndexOfProblem(rs, r.problemId)
    case Some(i) => rs[i := r]
    case None => rs + [r]
  }

  /**
   * Replace-or-append keeps one result per problem: the new result is the only
   * one for its problem, every other result stays, and the list grows only when
   * the problem had no result before.
   */
  lemma UpsertKeepsOnePerProblem(rs: seq<QuizResult>, r: QuizResult)
    requires Distinct(ResultIds(rs))
    ensures var u := Upsert(rs, r);
            && Distinct(ResultIds(u))
            && r in u
            && (forall j :: 0 <= j < |u| && u[j].problemId == r.problemId ==> u[j] == r)
            && (forall q :: q in rs && q.problemId != r.problemId ==> q in u)
            && (forall q :: q in u ==> q == r || q in rs)
            && |u| == if r.problemId in ResultIds(rs) then |rs| else |rs| + 1
  {
    var u := Upsert(rs, r);
    match IndexOfProblem(rs, r.problemId)
    case Some(i) =>
      assert ResultIds(u) == ResultIds(rs);
      assert u[i] == r;
      assert ResultIds(rs)[i] == r.problemId;
      forall j | 0 <= j < |u| && u[j].problemId == r.problemId
        ensures u[j] == r
      {
        assert ResultIds(rs)[j] == r.problemId;
      }
      forall q | q in u
        ensures q == r || q in rs
      {
        var k :| 0 <= k < |u| && u[k] == q;
        if k != i {
          assert rs[k] == q;
        }
      }
      forall q | q in rs && q.problemId != r.problemId
        ensures q in u
      {
        var k :| 0 <= k < |rs| && rs[k] == q;
        assert u[k] == q;
      }
    case None =>
      assert r.problemId !in ResultIds(rs);
      assert u[|rs|] == r;
      assert ResultIds(u) == ResultIds(rs) + [r.problemId];
  }

  /** How many results are fully correct. */
  function CountAllCorrect(rs: seq<QuizResult>): (n: nat)
    ensures n <= |rs|
  {
    if rs == [] then 0
    else CountAllCorrect(rs[..|rs| - 1]) + (if rs[|rs| - 1].isAllCorrect then 1 else 0)
  }

  /**
   * With answers keyed only by the problem's blank ids, "as many answers as
   * blanks" (`checkAllBlanksAnswered`) means every blank has an entry.
   */
  lemma AllAnsweredMeansEveryBlank(blanks: seq<BlankPosition>, answers: map<nat, int>)
    requires DistinctIds(blanks)
    requires forall k :: k in answers ==> k in BlankIds(blanks)
    ensures |answers| == |blanks| <==> forall i :: 0 <= i < |blanks| ==> blanks[i].id in answers
  {
    var ids := BlankIds(blanks);
    var all := ToSet(ids);
    DistinctSetSize(ids);
    assert answers.Keys <= all;
    assert |answers| == |answers.Keys|;
    if forall i :: 0 <= i < |blanks| ==> blanks[i].id in answers {
      forall x | x in all
        ensures x in answers.Keys
      {
        var i :| 0 <= i < |ids| && ids[i] == x;
      }
      assert answers.Keys == all;
    } else {
      var i :| 0 <= i < |blanks| && blanks[i].id !in answers;
      assert ids[i] in all;
      assert answers.Keys <= all - {ids[i]};
      SubsetSize(answers.Keys, all - {ids[i]});
    }
  }

  // ---------------------------------------------------------------------------
  // The session
  // ---------------------------------------------------------------------------

  /**
   * The session invariant over the view model's lists: every problem is well
   * formed with a fresh id and an answer record, and each result belongs to a
   * listed problem, at most one per problem.
   */
  ghost predicate SessionInvariant(
    problems: seq<MathProblem>, userAnswers: map<nat, UserAnswer>, quizResults: seq<QuizResult>, nextId: nat)
  {
    && (forall i :: 0 <= i < |problems| ==> WellFormedProblem(problems[i]) && problems[i].id < nextId)
    && Distinct(ProblemIds(problems))
    && (forall i :: 0 <= i < |problems| ==>
          problems[i].id in userAnswers && userAnswers[problems[i].id].problemId == problems[i].id)
    && (forall k :: k in userAnswers ==> k in ProblemIds(problems))
    && (forall i :: 0 <= i < |quizResults| ==> quizResults[i].problemId in ProblemIds(problems))
    && Distinct(ResultIds(quizResults))
  }

  /** Adding a well-formed problem with a fresh id and an empty answer record keeps the invariant. */
  lemma AppendProblemKeepsInvariant(
    problems: seq<MathProblem>, userAnswers: map<nat, UserAnswer>, quizResults: seq<QuizResult>,
    nextId: nat, p: MathProblem, nextId': nat)
    requires SessionInvariant(problems, userAnswers, quizResults, nextId)
    requires WellFormedProblem(p) && p.id == nextId < nextId'
    ensures p.id !in userAnswers
    ensures SessionInvariant(problems + [p], userAnswers[p.id := UserAnswer(p.id, map[])], quizResults, nextId')
  {
    var ps := problems + [p];
    assert ProblemIds(ps) == ProblemIds(problems) + [p.id];
    forall i | 0 <= i < |problems|
      ensures ProblemIds(problems)[i] != p.id
    {
    }
  }

  /** Recording a result for a listed problem, by replace-or-append, keeps the invariant. */
  lemma UpsertKeepsInvariant(
    problems: seq<MathProblem>, userAnswers: map<nat, UserAnswer>, quizResults: seq<QuizResult>,
    nextId: nat, r: QuizResult)
    requires SessionInvariant(problems, userAnswers, quizResults, nextId)
    requires r.problemId in ProblemIds(problems)
    ensures SessionInvariant(problems, userAnswers, Upsert(quizResults, r), nextId + 1)
  {
    UpsertKeepsOnePerProblem(quizResults, r);
    var u := Upsert(quizResults, r);
    forall i | 0 <= i < |u|
      ensures u[i].problemId in ProblemIds(problems)
    {
      assert u[i] in u;
      if u[i] != r {
        var j :| 0 <= j < |quizResults| && quizResults[j] == u[i];
      }
    }
  }

  class MathQuizViewModel {
    var settings: QuizSettings
    var problems: seq<MathProblem>
    var currentProblemIndex: int
    var userAnswers: map<nat, UserAnswer>
    var showValidation: bool
    var quizResults: seq<QuizResult>
    var isQuizCompleted: bool
    /** The identifier source standing in for `UUID()`: every problem id handed out so far is below it. */
    var nextId: nat

    /**
     * The session invariant: the cursor is in range whenever there are problems,
     * every problem is well formed with a fresh id and an answer record, and
     * each result belongs to a listed problem, at most one per problem.
     */
    ghost predicate Valid()
      reads this
    {
      && 0 <= currentProblemIndex
      && (currentProblemIndex < |problems| || currentProblemIndex == 0)
      && SessionInvariant(problems, userAnswers, quizResults, nextId)
    }

    constructor ()
      ensures Valid()
      ensures settings == DefaultSettings
      ensures problems == [] && userAnswers == map[] && quizResults == []
      ensures currentProblemIndex == 0 && !showValidation && !isQuizCompleted
    {
      settings := DefaultSettings;
      problems := [];
      currentProblemIndex := 0;
      userAnswers := map[];
      showValidation := false;
      quizResults := [];
      isQuizCompleted := false;
      nextId := 0;
    }

    /** `currentProblem`: the problem under the cursor, if the cursor is inside the list. */
    function CurrentProblem(): (r: Option<MathProblem>)
      reads this
      requires Valid()
      ensures r.Some? <==> |problems| > 0
      ensures r.Some? ==> r.value in problems && r.value.id in userAnswers
    {
      if currentProblemIndex < |problems| then Some(problems[currentProblemIndex]) else None
    }

    /** `currentUserAnswer`: the answer record of the current problem, if there is a current problem. */
    function CurrentUserAnswer(): (r: Option<UserAnswer>)
      reads this
      requires Valid()
      ensures r.Some? <==> currentProblemIndex < |problems|
      ensures r.Some? ==> r.value.problemId == problems[currentProblemIndex].id
    {
      if currentProblemIndex < |problems| && problems[currentProblemIndex].id in userAnswers then
        Some(userAnswers[problems[currentProblemIndex].id])
      else
        None
    }

    /** `totalCorrect`: the fully correct results. */
    function TotalCorrect(): (n: nat)
      reads this
      ensures n <= |quizResults|
    {
      CountAllCorrect(quizResults)
    }

    /** `totalIncorrect`: the remaining results; the two always add up to the number of results. */
    function TotalIncorrect(): (n: nat)
      reads this
      ensures TotalCorrect() + n == |quizResults|
    {
      |quizResults| - TotalCorrect()
    }

    /** `progress` as a fraction (numerator, denominator): (0, 1) without problems. */
    function Progress(): (r: (nat, nat))
      reads this
      requires Valid()
      ensures |problems| == 0 ==> r.0 == 0
      ensures |problems| > 0 ==> 1 <= r.0 <= r.1 == |problems|
    {
      if |problems| == 0 then (0, 1) else (currentProblemIndex + 1, |problems|)
    }

    /** `checkAllBlanksAnswered`: the current problem has as many entries as blanks. */
    function CheckAllBlanksAnswered(): (r: bool)
      reads this
      requires Valid()
      ensures r <==> (currentProblemIndex < |problems|
                      && |userAnswers[problems[currentProblemIndex].id].answers| == |problems[currentProblemIndex].blanks|)
    {
      && currentProblemIndex < |problems|
      && problems[currentProblemIndex].id in userAnswers
      && |userAnswers[problems[currentProblemIndex].id].answers| == |problems[currentProblemIndex].blanks|
    }

    /** `startQuiz`: clear everything, then generate the problems from the draws. */
    method StartQuiz(draws: seq<Draw>)
      requires 0 <= settings.minNumber <= settings.maxNumber
      requires 0 <= settings.numberOfProblems == |draws|
      requires forall i :: 0 <= i < |draws| ==> ValidDraw(settings, draws[i])
      modifies this
      ensures Valid()
      ensures settings == old(settings)
      ensures |problems| == settings.numberOfProblems
      ensures currentProblemIndex == 0 && !isQuizCompleted && !showValidation && quizResults == []
      ensures Generated(problems, draws, userAnswers)
      ensures forall i :: 0 <= i < |problems| ==>
                settings.minNumber <= problems[i].number2 <= problems[i].number1 <= settings.maxNumber
      ensures forall k :: k in userAnswers ==> k in ProblemIds(problems)
    {
      problems := [];
      userAnswers := map[];
      quizResults := [];
      currentProblemIndex := 0;
      isQuizCompleted := false;
      showValidation := false;
      GenerateProblems(draws);
      assert problems[0..] == problems;
    }

    /** `generateProblems`: one problem per draw, each with an empty answer record. */
    method GenerateProblems(draws: seq<Draw>)
      requires Valid()
      requires 0 <= settings.numberOfProblems == |draws|
      requires forall i :: 0 <= i < |draws| ==> ValidDraw(settings, draws[i])
      modifies this`problems, this`userAnswers, this`nextId
      ensures Valid()
      ensures |problems| == |old(problems)| + |draws|
      ensures problems[..|old(problems)|] == old(problems)
      ensures Generated(problems[|old(problems)|..], draws, userAnswers)
      ensures forall k :: k in old(userAnswers) ==> k in userAnswers && userAnswers[k] == old(userAnswers)[k]
    {
      var n := |problems|;
      for k := 0 to settings.numberOfProblems
        invariant Valid()
        invariant |problems| == n + k
        invariant problems[..n] == old(problems)
        invariant Generated(problems[n..], draws[..k], userAnswers)
        invariant forall key :: key in old(userAnswers) ==> key in userAnswers && userAnswers[key] == old(userAnswers)[key]
      {
        ghost var before := problems;
        ghost var answersBefore := userAnswers;
        AppendProblem(draws[k]);
        GeneratedAppend(before, problems, n, draws, k, answersBefore, userAnswers);
      }
      assert draws[..|draws|] == draws;
    }

    /**
     * One step of `generateProblems`: append the problem built from the draw,
     * with the next id, and give it an empty answer record under that id. The
     * problem and its blanks take ids from the counter's old value up to, not
     * including, its new one.
     */
    method AppendProblem(d: Draw)
      requires Valid() && ValidDraw(settings, d)
      modifies this`problems, this`userAnswers, this`nextId
      ensures Valid()
      ensures |problems| == |old(problems)| + 1
      ensures problems[..|old(problems)|] == old(problems)
      ensures ProblemFrom(problems[|old(problems)|], d)
      ensures problems[|old(problems)|].id == old(nextId)
      ensures forall b :: b in problems[|old(problems)|].blanks ==> old(nextId) < b.id < nextId
      ensures problems[|old(problems)|].id !in old(userAnswers)
      ensures userAnswers == old(userAnswers)[problems[|old(problems)|].id := UserAnswer(problems[|old(problems)|].id, map[])]
    {
      var problem := NewProblem(nextId, d.number1, d.number2, d.blankCount, d.order);
      assert ProblemFrom(problem, d);
      AppendProblemKeepsInvariant(problems, userAnswers, quizResults, nextId, problem, nextId + 1 + d.blankCount);
      problems := problems + [problem];
      userAnswers := userAnswers[problem.id := UserAnswer(problem.id, map[])];
      nextId := nextId + 1 + d.blankCount;
    }

    /**
     * `updateAnswer`: with a current problem, set (digit) or remove (none) the
     * blank's entry in that problem's answers only and clear the validation
     * flag; without one, change nothing.
     */
    method UpdateAnswer(blankId: nat, digit: Option<int>)
      requires Valid()
      modifies this`userAnswers, this`showValidation
      ensures Valid()
      ensures old(currentProblemIndex) >= |problems| ==>
                userAnswers == old(userAnswers) && showValidation == old(showValidation)
      ensures old(currentProblemIndex) < |problems| ==>
                var pid := problems[currentProblemIndex].id;
                var before := old(userAnswers)[pid];
                && !showValidation
                && userAnswers.Keys == old(userAnswers).Keys
                && (forall k :: k in userAnswers && k != pid ==> userAnswers[k] == old(userAnswers)[k])
                && userAnswers[pid].problemId == pid
                && (digit.Some? ==> userAnswers[pid].answers == before.answers[blankId := digit.value])
                && (digit.None? ==> userAnswers[pid].answers == before.answers - {blankId})
    {
      var current := CurrentProblem();
      if current.None? {
        return;
      }
      var problem := current.value;
      if problem.id in userAnswers {
        var answer := userAnswers[problem.id];
        if digit.Some? {
          answer := answer.(answers := answer.answers[blankId := digit.value]);
        } else {
          answer := answer.(answers := answer.answers - {blankId});
        }
        userAnswers := userAnswers[problem.id := answer];
      }
      showValidation := false;
    }

    /**
     * `validateCurrentAnswer`: the verdict for each blank of the current problem,
     * raising the validation flag; answers are untouched, so two calls in a row
     * return the same map. Without a current problem: an empty map, no change.
     */
    method ValidateCurrentAnswer() returns (validationResults: map<nat, bool>)
      requires Valid()
      modifies this`showValidation
      ensures Valid()
      ensures old(currentProblemIndex) >= |problems| ==>
                validationResults == map[] && showValidation == old(showValidation)
      ensures old(currentProblemIndex) < |problems| ==>
                var problem := problems[currentProblemIndex];
                && showValidation
                && validationResults == ValidationOf(problem.blanks, userAnswers[problem.id].answers)
                && (forall i :: 0 <= i < |problem.blanks| ==>
                      validationResults[problem.blanks[i].id]
                      == AnsweredCorrectly(problem.blanks[i], userAnswers[problem.id].answers))
    {
      var current := CurrentProblem();
      if current.None? || current.value.id !in userAnswers {
        return map[];
      }
      var problem := current.value;
      var userAnswer := userAnswers[problem.id];
      validationResults := map[];
      for k := 0 to |problem.blanks|
        invariant validationResults == ValidationOf(problem.blanks[..k], userAnswer.answers)
      {
        var blank := problem.blanks[k];
        if blank.id in userAnswer.answers {
          validationResults := validationResults[blank.id := (userAnswer.answers[blank.id] == blank.correctDigit)];
        } else {
          validationResults := validationResults[blank.id := false];
        }
        assert problem.blanks[..k + 1][..k] == problem.blanks[..k];
      }
      assert problem.blanks[..|problem.blanks|] == problem.blanks;
      ValidationMeaning(problem.blanks, userAnswer.answers);
      showValidation := true;
    }

    /** `saveCurrentResult`: score the current problem and replace or append its result, under the counter's next id. */
    method SaveCurrentResult()
      requires Valid()
      modifies this`quizResults, this`nextId
      ensures Valid()
      ensures old(currentProblemIndex) >= |problems| ==> quizResults == old(quizResults) && nextId == old(nextId)
      ensures old(currentProblemIndex) < |problems| ==>
                var problem := problems[currentProblemIndex];
                quizResults == Upsert(old(quizResults), ScoreOf(problem, userAnswers[problem.id], old(nextId)))
      ensures old(currentProblemIndex) < |problems| ==> nextId == old(nextId) + 1
    {
      var current := CurrentProblem();
      if current.None? || current.value.id !in userAnswers {
        return;
      }
      var problem := current.value;
      var userAnswer := userAnswers[problem.id];
      var correctCount := 0;
      for k := 0 to |problem.blanks|
        invariant correctCount == CorrectCount(problem.blanks[..k], userAnswer.answers)
      {
        var blank := problem.blanks[k];
        if blank.id in userAnswer.answers && userAnswer.answers[blank.id] == blank.correctDigit {
          correctCount := correctCount + 1;
        }
        assert problem.blanks[..k + 1][..k] == problem.blanks[..k];
      }
      assert problem.blanks[..|problem.blanks|] == problem.blanks;
      var result := QuizResult(nextId, problem.id, userAnswer, problem, correctCount,
                               |problem.blanks|, correctCount == |problem.blanks|);
      assert result == ScoreOf(problem, userAnswer, nextId);
      assert ProblemIds(problems)[currentProblemIndex] == problem.id;
      UpsertKeepsInvariant(problems, userAnswers, quizResults, nextId, result);
      nextId := nextId + 1;
      var index := IndexOfProblem(quizResults, problem.id);
      if index.Some? {
        quizResults := quizResults[index.value := result];
      } else {
        quizResults := quizResults + [result];
      }
    }

    /**
     * `moveToNextProblem`: save the current result, then step forward (clearing
     * the validation flag) or, on the last problem, complete the quiz.
     */
    method MoveToNextProblem()
      requires Valid()
      modifies this`quizResults, this`nextId, this`currentProblemIndex, this`showValidation, this`isQuizCompleted
      ensures Valid()
      ensures old(currentProblemIndex) >= |problems| ==> quizResults == old(quizResults) && nextId == old(nextId)
      ensures old(currentProblemIndex) < |problems| ==>
                var problem := problems[old(currentProblemIndex)];
                quizResults == Upsert(old(quizResults), ScoreOf(problem, userAnswers[problem.id], old(nextId)))
      ensures old(currentProblemIndex) < |problems| ==> nextId == old(nextId) + 1
      ensures old(currentProblemIndex) < |problems| - 1 ==>
                && currentProblemIndex == old(currentProblemIndex) + 1
                && !showValidation
                && isQuizCompleted == old(isQuizCompleted)
      ensures old(currentProblemIndex) >= |problems| - 1 ==>
                && currentProblemIndex == old(currentProblemIndex)
                && showValidation == old(showValidation)
                && isQuizCompleted
    {
      SaveCurrentResult();
      ghost var saved := SessionInvariant(problems, userAnswers, quizResults, nextId);
      assert saved;
      if currentProblemIndex < |problems| - 1 {
        currentProblemIndex := currentProblemIndex + 1;
        showValidation := false;
      } else {
        isQuizCompleted := true;
      }
    }

    /** `moveToProblem(at:)`: jump to an index inside the list; ignore any other index. */
    method MoveToProblem(index: int)
      requires Valid()
      modifies this`currentProblemIndex, this`showValidation
      ensures Valid()
      ensures 0 <= index < |problems| ==> currentProblemIndex == index && !showValidation
      ensures !(0 <= index < |problems|) ==>
                currentProblemIndex == old(currentProblemIndex) && showValidation == old(showValidation)
    {
      if !(index >= 0 && index < |problems|) {
        return;
      }
      currentProblemIndex := index;
      showValidation := false;
    }

    /** `resetQuiz`: back to an empty session (the settings stay). */
    method ResetQuiz()
      modifies this`problems, this`userAnswers, this`quizResults, this`currentProblemIndex,
               this`isQuizCompleted, this`showValidation
      ensures Valid()
      ensures problems == [] && userAnswers == map[] && quizResults == []
      ensures currentProblemIndex == 0 && !isQuizCompleted && !showValidation
    {
      problems := [];
      userAnswers := map[];
      quizResults := [];
      currentProblemIndex := 0;
      isQuizCompleted := false;
      showValidation := false;
    }
  }

  // ---------------------------------------------------------------------------
  // Properties of the session
  // ---------------------------------------------------------------------------

  /** There is never more than one result per problem, so never more results than problems. */
  lemma ResultsWithinProblems(vm: MathQuizViewModel)
    requires vm.Valid()
    ensures |vm.quizResults| <= |vm.problems|
  {
    DistinctWithin(ResultIds(vm.quizResults), ProblemIds(vm.problems));
  }

  /** The digits of the worked example 532 - 214 = 318. */
  lemma ScenarioDigits()
    ensures Digits(532) == [5, 3, 2] && Digits(214) == [2, 1, 4] && Digits(318) == [3, 1, 8]
  {
    assert Digits(532) == Digits(53) + [2];
    assert Digits(53) == Digits(5) + [3];
    assert Digits(214) == Digits(21) + [4];
    assert Digits(21) == Digits(2) + [1];
    assert Digits(318) == Digits(31) + [8];
    assert Digits(31) == Digits(3) + [1];
  }

  /** A shuffle that puts the difference's hundreds and tens digits (pool indices 6 and 7) first. */
  const ScenarioOrder: seq<nat> := [6, 7, 0, 1, 2, 3, 4, 5, 8]

  /** With that shuffle and two blanks, the blanks are the difference's 3 and 1, ids 1 and 2, in place order. */
  lemma ScenarioBlanks()
    ensures BlankArgs(532, 214, ScenarioOrder)
    ensures Blanks(532, 214, 2, ScenarioOrder, 1) == [BlankPosition(1, 2, 0, 3), BlankPosition(2, 2, 1, 1)]
  {
    ScenarioDigits();
    var order := ScenarioOrder;
    forall i, j | 0 <= i < j < 9
      ensures order[i] != order[j]
    {
    }
    var pool := Pool(532, 214);
    assert pool[6] == Position(2, 0) && pool[7] == Position(2, 1);
    var sel := Selected(532, 214, 2, order);
    assert sel == [Position(2, 0), Position(2, 1)];
    var c := Chosen(532, 214, 2, order, 1);
    assert c == [BlankPosition(1, 2, 0, 3), BlankPosition(2, 2, 1, 1)];
    assert SortBlanks(c[1..]) == [c[1]];
  }

  /**
   * Answering 3 and 2 for those blanks: the first verdict is true and the
   * second false, and the saved result counts one of two correct.
   */
  lemma ScoringScenario()
    ensures BlankArgs(532, 214, ScenarioOrder)
    ensures var p := MathProblem(0, 532, 214, 318, Blanks(532, 214, 2, ScenarioOrder, 1));
            var ua := UserAnswer(0, map[1 := 3, 2 := 2]);
            && ValidationOf(p.blanks, ua.answers) == map[1 := true, 2 := false]
            && ScoreOf(p, ua, 3) == QuizResult(3, 0, ua, p, 1, 2, false)
  {
    ScenarioBlanks();
    var b0, b1 := BlankPosition(1, 2, 0, 3), BlankPosition(2, 2, 1, 1);
    var blanks := [b0, b1];
    var answers := map[1 := 3, 2 := 2];
    assert blanks[..1] == [b0] && [b0][..0] == [];
    assert ValidationOf([b0], answers) == map[1 := true];
    assert CorrectCount([b0], answers) == 1;
    assert ValidationOf(blanks, answers) == map[1 := true][2 := false];
    assert CorrectCount(blanks, answers) == 1;
  }

  /** Validating twice without touching the answers gives the same verdicts. */
  method ValidateTwice(vm: MathQuizViewModel) returns (first: map<nat, bool>, second: map<nat, bool>)
    requires vm.Valid()
    modifies vm`showValidation
    ensures first == second
  {
    first := vm.ValidateCurrentAnswer();
    second := vm.ValidateCurrentAnswer();
  }

  /** A one-problem session is completed by a single advance, with one result counted. */
  method OneProblemSession(d: Draw) returns (vm: MathQuizViewModel)
    requires ValidDraw(QuizSettings(1, 1000, 9999, Medium), d)
    ensures vm.isQuizCompleted
    ensures vm.TotalCorrect() + vm.TotalIncorrect() == |vm.quizResults| == 1
  {
    vm := new MathQuizViewModel();
    vm.settings := QuizSettings(1, 1000, 9999, Medium);
    vm.StartQuiz([d]);
    vm.MoveToNextProblem();
  }

  /**
   * Re-answering a problem already advanced past and advancing again replaces its
   * result instead of adding one.
   */
  method RevisitReplaces(vm: MathQuizViewModel, index: int, blankId: nat, digit: int)
    requires vm.Valid()
    requires 0 <= index < |vm.problems|
    requires vm.problems[index].id in ResultIds(vm.quizResults)
    modifies vm
    ensures |vm.quizResults| == old(|vm.quizResults|)
  {
    vm.MoveToProblem(index);
    vm.UpdateAnswer(blankId, Some(digit));
    vm.MoveToNextProblem();
    UpsertKeepsOnePerProblem(old(vm.quizResults), ScoreOf(vm.problems[index], vm.userAnswers[vm.problems[index].id], old(vm.nextId)));
  }
}
