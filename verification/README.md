# Subtraction quiz: a Dafny model

The app (MathTeachingApp) drills column subtraction. Each problem is
`number1 - number2`. The problem hides two or three digits ("blanks"),
drawn from the minuend, the subtrahend or the difference, and the learner
types one digit into each blank. A session holds these pieces:

- a list of problems;
- the learner's answers per problem, keyed by blank id;
- a cursor on the current problem;
- a validation flag;
- a list of results, one per problem answered.

Validating shows a verdict per blank. Moving on scores the current problem,
replacing any earlier result for it. The quiz completes after the last
problem.

The model covers four parts of the source:

| Dafny file | module | models |
|---|---|---|
| `models.dfy` | `Models` | `Models/Models.swift`: the value types, `MathProblem.init` and `generateBlanks` (an imperative method proved equal to a specification function), the sorting of blanks, `UserAnswer.isCorrect` and `Difficulty.blankCount` |
| `quiz_view_model.dfy` | `QuizViewModel` | `ViewModels/MathQuizViewModel.swift`: the session as a class with the source's fields and methods, its invariant, scoring, validation and replace-or-append of results |
| `problem_view.dfy` | `ProblemView` | `Views/SubtractionProblemView.swift`: the three-row layout as a grid of cells (blank, digit or empty) |
| `blank_input.dfy` | `BlankInput` | `Views/BlankInputView.swift`: the text filter and parse of one blank, the answer callback, `onAppear`, colours, icon and hint |

`wrappers.dfy` holds the `Option` type used for Swift optionals.

Random choices become inputs. A `Draw` gives a problem's two operands, its
blank count, and the shuffle of the position pool as a permutation `order`,
so that `shuffled()[k] == pool[order[k]]`. `UUID()` becomes a counter
`nextId` in the session:

- a problem takes `nextId`;
- its blanks take the ids after it;
- a result takes the next free id.

## Model

| member | source | states |
|---|---|---|
| Models.Digits | MathTeachingApp/Models/Models.swift:32-34 | the digit list of a non-negative number is a decimal numeral: non-empty, digits 0..9, no leading zero |
| Models.DigitsRoundTrip | MathTeachingApp/Models/Models.swift:32-34 | reading the digits back gives the number |
| Models.DecimalIsDigits | MathTeachingApp/Models/Models.swift:32-34 | every decimal numeral is the digit list of its value, so digit lists and numbers correspond one to one |
| Models.Difficulty.BlankCount | MathTeachingApp/Models/Models.swift:127-133 | easy, medium and hard name 2, 3 and 4 blanks |
| Models.BlankCountInjective | MathTeachingApp/Models/Models.swift:127-133 | different difficulties name different counts |
| Models.IsCorrectIgnoresCorrectDigits | MathTeachingApp/Models/Models.swift:93-96 | `isCorrect` holds for an answer whose only digit is wrong |
| Models.IsCorrectRejects | MathTeachingApp/Models/Models.swift:93-96 | `isCorrect` fails for an answer with no entries and for one with an entry outside 0..9 |
| Models.CollectPositions | MathTeachingApp/Models/Models.swift:38-49 | the three collecting loops build exactly `Pool`: the minuend's positions, then the subtrahend's, then the difference's, in index order |
| Models.PoolIsEveryPosition | MathTeachingApp/Models/Models.swift:38-49 | `Pool` lists every digit position of the three rows exactly once, nothing else, and has at least three entries |
| Models.InsertPermutes | MathTeachingApp/Models/Models.swift:69 | `Insert`, one insertion step of `sorted`, keeps every element: the multiset grows by exactly the inserted blank |
| Models.SortBlanksPermutes | MathTeachingApp/Models/Models.swift:69 | `SortBlanks` (`sorted` by row, then digit index) returns a permutation of its input |
| Models.InsertFrom | MathTeachingApp/Models/Models.swift:69 | each element after an insertion is the inserted blank or one of the originals |
| Models.InsertSorted | MathTeachingApp/Models/Models.swift:69 | insertion into a (row, digitIndex)-sorted list keeps it sorted |
| Models.InsertStrict | MathTeachingApp/Models/Models.swift:69 | insertion of a blank at a new place into a strictly sorted list keeps it strictly sorted |
| Models.SortBlanksOrdered | MathTeachingApp/Models/Models.swift:69 | the result is sorted by (row, digitIndex), and strictly so when no two blanks share a place |
| Models.SelectedValid | MathTeachingApp/Models/Models.swift:52 | every position in `Selected`, the prefix of the shuffled pool, is a real digit position of its row |
| Models.SortedChoiceOrdered | MathTeachingApp/Models/Models.swift:69 | sorting blanks at distinct places with consecutive ids gives a strictly (row, digitIndex)-ordered list with distinct places and distinct ids |
| Models.ChosenFacts | MathTeachingApp/Models/Models.swift:52-67 | `Chosen`, the blanks made from the selected positions, are min(count, pool size) many, at distinct valid places, with the digit of their place and consecutive ids |
| Models.BlanksCount | MathTeachingApp/Models/Models.swift:37-52 | `Blanks`, the specification of `generateBlanks`, returns min(blankCount, pool size) blanks, i.e. exactly blankCount for 2 or 3 |
| Models.BlanksValid | MathTeachingApp/Models/Models.swift:54-67 | every blank marks a real digit of its row, records that digit (0..9) and carries one of the fresh ids |
| Models.BlanksOrdered | MathTeachingApp/Models/Models.swift:52-69 | the blanks are strictly ordered by (row, digitIndex), at distinct places, with distinct ids |
| Models.GenerateBlanks | MathTeachingApp/Models/Models.swift:27-70 | the loops build the pool, take the shuffle's prefix, record each digit and sort: the result equals the specification `Blanks` |
| Models.NewProblem | MathTeachingApp/Models/Models.swift:18-24 | the problem keeps its operands, its answer is their difference, it has exactly blankCount blanks with ids after its own, and it is well formed |
| QuizViewModel.GeneratedStep | MathTeachingApp/ViewModels/MathQuizViewModel.swift:69-75 | appending a problem from the next draw, with an empty answer record under a fresh id, extends the generated prefix |
| QuizViewModel.GeneratedAppend | MathTeachingApp/ViewModels/MathQuizViewModel.swift:59-76 | the same over the whole problem list, leaving the earlier problems unchanged |
| QuizViewModel.DistinctWithin | MathTeachingApp/ViewModels/MathQuizViewModel.swift:170-175 | helper: distinct ids drawn from a list are no more than that list's length |
| QuizViewModel.DistinctSetSize | MathTeachingApp/ViewModels/MathQuizViewModel.swift:116-123 | helper: a list of distinct ids has as many elements as its set |
| QuizViewModel.SubsetSize | MathTeachingApp/ViewModels/MathQuizViewModel.swift:116-123 | helper: a subset is no larger than its superset |
| QuizViewModel.CorrectCount | MathTeachingApp/ViewModels/MathQuizViewModel.swift:151-157 | the number of blanks answered with their correct digit never exceeds the number of blanks |
| QuizViewModel.CorrectCountAll | MathTeachingApp/ViewModels/MathQuizViewModel.swift:151-166 | the count equals the number of blanks exactly when every blank is answered correctly |
| QuizViewModel.ValidationOf | MathTeachingApp/ViewModels/MathQuizViewModel.swift:102-110 | the verdict map has an entry for every blank id and for nothing else |
| QuizViewModel.ValidationMeaning | MathTeachingApp/ViewModels/MathQuizViewModel.swift:104-110 | each blank's verdict is true exactly when its answer is present and equals its correct digit (missing answer means false) |
| QuizViewModel.ValidationAgreesWithScore | MathTeachingApp/ViewModels/MathQuizViewModel.swift:104-166 | all verdicts are true exactly when the saved score counts every blank correct |
| QuizViewModel.ScoreOf | MathTeachingApp/ViewModels/MathQuizViewModel.swift:151-168 | the result carries the given id, belongs to the problem and answer, 0 <= correctCount <= totalBlanks = number of blanks, and isAllCorrect holds exactly when every blank is answered correctly |
| QuizViewModel.IsCorrectForAgreesWithScore | MathTeachingApp/Models/Models.swift:93-96 | the intended "all filled and correct" check agrees with the saved score's isAllCorrect and implies every entry is a digit |
| QuizViewModel.IsCorrectAcceptsWrongAnswer | MathTeachingApp/Models/Models.swift:93-96 | for every well-formed problem, one wrong digit passes `isCorrect` as written and fails the intended check |
| QuizViewModel.IndexOfProblem | MathTeachingApp/ViewModels/MathQuizViewModel.swift:171 | finds the first result for the problem, or reports that there is none |
| QuizViewModel.UpsertKeepsOnePerProblem | MathTeachingApp/ViewModels/MathQuizViewModel.swift:170-175 | `Upsert`, the replace-or-append, keeps one result per problem: the new result is the only one for its problem, other results stay, nothing else appears, and the list grows only for a new problem |
| QuizViewModel.CountAllCorrect | MathTeachingApp/ViewModels/MathQuizViewModel.swift:37-39 | the number of fully correct results is at most the number of results |
| QuizViewModel.AllAnsweredMeansEveryBlank | MathTeachingApp/ViewModels/MathQuizViewModel.swift:116-123 | with answers keyed only by the problem's blank ids, "as many answers as blanks" means every blank has an answer, and conversely |
| QuizViewModel.AppendProblemKeepsInvariant | MathTeachingApp/ViewModels/MathQuizViewModel.swift:69-75 | appending a well-formed problem with a fresh id and an empty answer record keeps the session invariant |
| QuizViewModel.UpsertKeepsInvariant | MathTeachingApp/ViewModels/MathQuizViewModel.swift:170-175 | recording a result for a listed problem by replace-or-append keeps the session invariant |
| QuizViewModel.MathQuizViewModel.constructor | MathTeachingApp/ViewModels/MathQuizViewModel.swift:13-19 | default settings, no problems, answers or results, cursor 0, flags off, invariant holds |
| QuizViewModel.MathQuizViewModel.CurrentProblem | MathTeachingApp/ViewModels/MathQuizViewModel.swift:22-25 | a current problem exists exactly when there are problems, and it has an answer record |
| QuizViewModel.MathQuizViewModel.CurrentUserAnswer | MathTeachingApp/ViewModels/MathQuizViewModel.swift:27-30 | an answer record exists exactly when the cursor is on a problem, and it belongs to that problem |
| QuizViewModel.MathQuizViewModel.TotalCorrect | MathTeachingApp/ViewModels/MathQuizViewModel.swift:37-39 | never more than the number of results |
| QuizViewModel.MathQuizViewModel.TotalIncorrect | MathTeachingApp/ViewModels/MathQuizViewModel.swift:41-43 | correct plus incorrect is the number of results |
| QuizViewModel.MathQuizViewModel.Progress | MathTeachingApp/ViewModels/MathQuizViewModel.swift:32-35 | zero without problems; otherwise (cursor + 1) of the problem count, between 1/n and n/n |
| QuizViewModel.MathQuizViewModel.CheckAllBlanksAnswered | MathTeachingApp/ViewModels/MathQuizViewModel.swift:116-123 | true exactly when there is a current problem with as many answers as blanks |
| QuizViewModel.MathQuizViewModel.StartQuiz | MathTeachingApp/ViewModels/MathQuizViewModel.swift:46-56 | a fresh session: numberOfProblems problems, one per draw with operands in the configured range and empty answer records, no results, cursor 0, flags off, invariant holds |
| QuizViewModel.MathQuizViewModel.GenerateProblems | MathTeachingApp/ViewModels/MathQuizViewModel.swift:58-77 | appends one problem per draw, in order, each with an empty answer record; earlier problems and answers unchanged; invariant kept |
| QuizViewModel.MathQuizViewModel.AppendProblem | MathTeachingApp/ViewModels/MathQuizViewModel.swift:60-75 | one iteration: the new problem comes from the draw, under an id not used before, with an empty answer record; the problem takes the counter's old value and its blanks ids strictly between the old and the new value |
| QuizViewModel.MathQuizViewModel.UpdateAnswer | MathTeachingApp/ViewModels/MathQuizViewModel.swift:80-94 | with a current problem, sets or removes exactly that blank's entry in the current problem's answers, leaves other problems' answers alone and clears the validation flag; without one, changes nothing |
| QuizViewModel.MathQuizViewModel.ValidateCurrentAnswer | MathTeachingApp/ViewModels/MathQuizViewModel.swift:96-114 | returns each blank's verdict (answer present and equal to the correct digit) and raises the flag; empty map and no change without a current problem |
| QuizViewModel.MathQuizViewModel.SaveCurrentResult | MathTeachingApp/ViewModels/MathQuizViewModel.swift:145-176 | the loop's count is the score; the results become the replace-or-append of the current problem's score, under the counter's id, and the counter moves on by one; without a current problem nothing changes; invariant kept |
| QuizViewModel.MathQuizViewModel.MoveToNextProblem | MathTeachingApp/ViewModels/MathQuizViewModel.swift:126-137 | saves the current result, then advances the cursor and clears the flag, or on the last problem marks the quiz completed |
| QuizViewModel.MathQuizViewModel.MoveToProblem | MathTeachingApp/ViewModels/MathQuizViewModel.swift:139-143 | an index inside the list becomes the cursor and clears the flag; any other index changes nothing |
| QuizViewModel.MathQuizViewModel.ResetQuiz | MathTeachingApp/ViewModels/MathQuizViewModel.swift:179-186 | empty session, cursor 0, flags off, invariant holds |
| QuizViewModel.ResultsWithinProblems | MathTeachingApp/ViewModels/MathQuizViewModel.swift:170-175 | a session never holds more results than problems |
| QuizViewModel.ValidateTwice | MathTeachingApp/ViewModels/MathQuizViewModel.swift:96-114 | validating twice in a row returns the same verdicts |
| QuizViewModel.OneProblemSession | MathTeachingApp/ViewModels/MathQuizViewModel.swift:126-137 | in a one-problem session a single advance completes the quiz with exactly one result |
| QuizViewModel.RevisitReplaces | MathTeachingApp/ViewModels/MathQuizViewModel.swift:170-175 | going back to an already-scored problem, changing an answer and advancing replaces its result rather than adding one |
| QuizViewModel.ScenarioDigits | MathTeachingApp/Models/Models.swift:32-34 | the digits of 532, 214 and 318 |
| QuizViewModel.ScenarioBlanks | MathTeachingApp/Models/Models.swift:52-69 | a shuffle that draws the difference's first two digits yields the blanks (difference, 0, 3) and (difference, 1, 1) in that order |
| QuizViewModel.ScoringScenario | MathTeachingApp/ViewModels/MathQuizViewModel.swift:96-168 | answering 3 and 2 gives verdicts true and false and a result with 1 of 2 correct, not all correct |
| ProblemView.DigitArray | MathTeachingApp/Views/SubtractionProblemView.swift:89-91 | the digits of the number's absolute value (a minus sign is skipped), as a numeral that reads back to it |
| ProblemView.RowDigitsAgree | MathTeachingApp/Views/SubtractionProblemView.swift:21-23 | for a well-formed problem the view's rows are exactly the digit rows blanks are drawn from |
| ProblemView.MaxLength | MathTeachingApp/Views/SubtractionProblemView.swift:26 | the widest of the three rows: at least each row's length and equal to one of them |
| ProblemView.BlankAt | MathTeachingApp/Views/SubtractionProblemView.swift:94-96 | none exactly when no blank is at that place; otherwise a blank of the problem at that place, the first one when the first matches |
| ProblemView.BlankAtIsFirst | MathTeachingApp/Views/SubtractionProblemView.swift:94-96 | a found blank is the first one in the list at that place: every blank before it sits elsewhere |
| ProblemView.BlankAtFindsEach | MathTeachingApp/Views/SubtractionProblemView.swift:94-96 | in a strictly ordered blank list each blank is found at its own place |
| ProblemView.CellFor | MathTeachingApp/Views/SubtractionProblemView.swift:110-136 | a blank is shown whenever there is one; otherwise the digit if any; otherwise an empty slot |
| ProblemView.DigitAt | MathTeachingApp/Views/SubtractionProblemView.swift:32 | a digit exactly for indices inside the row, and it is the row's digit there |
| ProblemView.RowCells | MathTeachingApp/Views/SubtractionProblemView.swift:30-40 | a row of the given width whose every slot shows the blank or digit of its place |
| ProblemView.GridAsWritten | MathTeachingApp/Views/SubtractionProblemView.swift:29-81 | three rows: minuend and difference maxLength wide, subtrahend maxLength - 1 wide |
| ProblemView.SubtrahendRowTooShort | MathTeachingApp/Views/SubtractionProblemView.swift:49-51 | the drawn subtrahend row is shorter than the subtrahend exactly when both operands have the same number of digits, and then a blank on the subtrahend's units digit is not drawn |
| ProblemView.DigitsMonotone | MathTeachingApp/Views/SubtractionProblemView.swift:26 | helper: a smaller number never has more digits |
| ProblemView.FourDigits | MathTeachingApp/Models/Models.swift:118-119 | numbers from 1000 to 9999 have four digits |
| ProblemView.DefaultRangeAlwaysTooShort | MathTeachingApp/Views/SubtractionProblemView.swift:49-51 | with the default range 1000..9999 every problem's drawn subtrahend row is too short |
| ProblemView.ExampleDigits | MathTeachingApp/Models/Models.swift:32-34 | the digits of 5432, 1234 and 4198 |
| ProblemView.ExampleOrderIsShuffle | MathTeachingApp/Models/Models.swift:52 | the example order is a shuffle of the twelve pool positions |
| ProblemView.ExampleFirstChoice | MathTeachingApp/Models/Models.swift:52-69 | with that shuffle the subtrahend's units digit 4 becomes a blank |
| ProblemView.SubtrahendUnitsHidden | MathTeachingApp/Views/SubtractionProblemView.swift:49-51 | 5432 - 1234 with that shuffle is a well-formed problem whose blank on the subtrahend's 4 is absent from the drawn layout |
| ProblemView.SubtrahendWidth | MathTeachingApp/Views/SubtractionProblemView.swift:49 | the corrected subtrahend width holds all its digits, is at least maxLength - 1 and at most maxLength |
| ProblemView.Grid | MathTeachingApp/Views/SubtractionProblemView.swift:29-81 | three rows: minuend and difference maxLength wide, subtrahend of the corrected width |
| ProblemView.GridAgreesWhenWideEnough | MathTeachingApp/Views/SubtractionProblemView.swift:49-51 | whenever the subtrahend is shorter than maxLength, the corrected layout is the drawn one |
| ProblemView.RowsHoldTheirDigits | MathTeachingApp/Views/SubtractionProblemView.swift:30-72 | each corrected row is at least as wide as its digits |
| ProblemView.GridShowsEveryBlank | MathTeachingApp/Views/SubtractionProblemView.swift:29-81 | every blank of a well-formed problem is shown in the corrected layout, at its own row and index |
| ProblemView.GridShowsEveryDigit | MathTeachingApp/Views/SubtractionProblemView.swift:29-81 | every digit of the three numbers is shown as itself, or as a blank whose correct digit it is |
| ProblemView.GridPadding | MathTeachingApp/Views/SubtractionProblemView.swift:131-136 | slots past a row's digits are empty: no digit and no blank |
| BlankInput.ParseUnsigned | MathTeachingApp/Views/BlankInputView.swift:49 | a value exactly for non-empty runs of ASCII digits |
| BlankInput.ValueOfDigits | MathTeachingApp/Views/BlankInputView.swift:49 | helper: digits read as a number give a non-negative value |
| BlankInput.ParseInt | MathTeachingApp/Views/BlankInputView.swift:49 | a parsed value fits in 64 bits and comes from non-empty text; on all-numeric text it needs ASCII digits only |
| BlankInput.ParseSingle | MathTeachingApp/Views/BlankInputView.swift:49 | one character parses exactly when it is an ASCII digit, and then to that digit |
| BlankInput.Numeral | MathTeachingApp/Views/BlankInputView.swift:89 | one ASCII digit character per digit |
| BlankInput.ParseNumeral | MathTeachingApp/Views/BlankInputView.swift:49 | a decimal numeral parses to its value |
| BlankInput.DecimalText | MathTeachingApp/Views/BlankInputView.swift:89 | a number's text is never empty |
| BlankInput.ParseNegative | MathTeachingApp/Views/BlankInputView.swift:49 | a minus sign before an unsigned numeral parses to the negated value when it fits in 64 bits |
| BlankInput.ParsePlain | MathTeachingApp/Views/BlankInputView.swift:49 | an unsigned numeral that fits in 64 bits parses to its value |
| BlankInput.DecimalTextRoundTrip | MathTeachingApp/Views/BlankInputView.swift:86-91 | parsing the text of any 64-bit number gives the number back |
| BlankInput.NumericOnly | MathTeachingApp/Views/BlankInputView.swift:39 | the filter keeps only characters that satisfy `IsNumber` (`isNumber`) and never lengthens the text |
| BlankInput.NumericOnlyCounts | MathTeachingApp/Views/BlankInputView.swift:39 | each numeric character is kept as often as it occurs |
| BlankInput.NumericOnlyKeepsNumeric | MathTeachingApp/Views/BlankInputView.swift:39 | all-numeric text passes unchanged |
| BlankInput.NumericOnlyLast | MathTeachingApp/Views/BlankInputView.swift:39-46 | the last kept character is the input's last numeric character |
| BlankInput.NumericOnlyEmpty | MathTeachingApp/Views/BlankInputView.swift:39 | nothing is kept exactly when nothing is numeric |
| BlankInput.FilteredText | MathTeachingApp/Views/BlankInputView.swift:39-46 | the field keeps at most one character, and it is numeric |
| BlankInput.FilteredTextIsLastNumeral | MathTeachingApp/Views/BlankInputView.swift:39-46 | the field is empty exactly when nothing numeric was typed, and otherwise holds the last numeric character typed |
| BlankInput.NonAsciiNumberKeptButUnanswered | MathTeachingApp/Views/BlankInputView.swift:39-54 | a numeric character that is not an ASCII digit stays in the field but does not parse, so the callback gets no answer |
| BlankInput.FieldParsesToDigit | MathTeachingApp/Views/BlankInputView.swift:39-50 | whatever is typed, a value parsed from the filtered field is one digit 0..9, shown as its own character |
| BlankInput.FilteredTextSettles | MathTeachingApp/Views/BlankInputView.swift:37-46 | filtering the filtered text changes nothing, so writing it back settles |
| BlankInput.BlankInputView.constructor | MathTeachingApp/Views/BlankInputView.swift:10-18 | the field starts empty with the given blank and focus |
| BlankInput.BlankInputView.OnChange | MathTeachingApp/Views/BlankInputView.swift:37-56 | the field becomes the filtered text; the callback gets the blank's id and a digit 0..9 exactly when the field holds one ASCII digit; the keyboard is dismissed only then |
| BlankInput.BlankInputView.OnAppear | MathTeachingApp/Views/BlankInputView.swift:86-91 | shows the recorded answer's text when one exists for this blank, otherwise leaves the field |
| BlankInput.ReappearShowsTypedDigit | MathTeachingApp/Views/BlankInputView.swift:86-91 | a recorded digit shows as its single character, which the filter keeps |
| BlankInput.HintIffRedBackground | MathTeachingApp/Views/BlankInputView.swift:59-99 | `ShowsHint`, a red `BackgroundColor` and the cross from `ValidationIcon` appear together |
| BlankInput.GreenIffJudgedRight | MathTeachingApp/Views/BlankInputView.swift:72-109 | the green fill, the green border and the checkmark each appear exactly when a verdict is shown and it is correct |
| BlankInput.BorderAgreesWhenValidated | MathTeachingApp/Views/BlankInputView.swift:94-109 | with a verdict shown `BorderColor` matches `BackgroundColor`; otherwise the fill is yellow, no icon, and the border is blue exactly when focused |
| BlankInput.HintMarksWrongBlanks | MathTeachingApp/Views/BlankInputView.swift:59 | after validation a blank shows its correct digit exactly when its answer is missing or wrong |

## Left out

- Randomness: `Int.random` and `shuffled()` are replaced by caller-supplied `Draw`s. The model does not speak about distributions.
- `UUID()` is a counter. The session invariant proves that problem ids are distinct and below the counter, and `WellFormedProblem` proves that blank ids within one problem are distinct.
- QuizViewModel.MathQuizViewModel.Valid: does not state that blank ids of different problems differ, that no blank shares a problem's id, or that result ids are distinct. Each call's contract shows where the ids come from: `AppendProblem` takes the counter's old value up to its new one, and `SaveCurrentResult` takes the old value and moves on by one. The session-wide statement is not proved, because carrying it in the invariant made the class's methods too costly to verify.
- The result's `answeredAt` date and `scorePercentage` (floating point) are left out. So are `Codable`, Combine publishing and all SwiftUI layout: fonts, spacing, frames, the minus-sign label, the divider and the corner radii.
- `BlankPosition.rowName` (Models.swift:80-86) is a display label only and is not modelled.
- `Difficulty.blankCount` is modelled, but the source never reads it. `generateBlanks` draws its own count from 2...3, and the model follows that draw.
- `MathQuizViewModel.swift:67` passes an `allowMultipleBlanksPerColumn` setting that the `MathProblem` initialiser in `Models.swift` does not take. The model uses the two-operand initialiser that exists. The other screens (QuizView, ResultsView, SettingsView) are not part of this model.
- `Views/SettingsView.swift:18-32` and `:71`, and `ViewModels/MathQuizViewModel.swift:67`, use `ProblemType`, `selectedTypes`, `isMixedOrder` and `allowMultipleBlanksPerColumn`. None of the files modelled here defines them, and `QuizSettings` in `Models.swift` has none of them. The modelled code handles subtraction only, with one blank policy: any position of the pool, so two blanks may share a column. Problem types, mixed ordering and a per-column policy are not modelled.
- Models.NewProblem: requires non-negative operands with number2 <= number1, because the source's digit conversion (`Int(String($0))!`) stops the program on a minus sign.
- QuizViewModel.MathQuizViewModel.StartQuiz: requires 0 <= minNumber <= maxNumber. `Int.random` stops the program on an empty range, and a negative operand would trap in the digit conversion.
- QuizViewModel.MathQuizViewModel.Progress: returns the fraction as a (numerator, denominator) pair instead of a `Double`.
- BlankInput.IsNumber: `Character.isNumber` is approximated by these characters:
  - the ASCII digits;
  - the Arabic-Indic and full-width digits;
  - the superscripts ², ³, ¹;
  - the fractions ¼, ½, ¾.

  Other Unicode numerics are not included.
- BlankInput.ParseInt: models `Int(String)` as an optional sign and ASCII digits within 64 bits. Other radices and whitespace handling do not arise for the filtered text.
- BlankInput.BlankInputView.OnChange: the focus binding shared between blanks (`@FocusState`) is a field of each blank. The re-triggering of `onChange` by its own write to `text` is covered by `FilteredTextSettles`, not by a loop.
- The `isCorrect` verdict each blank receives comes from the quiz screen, which is not part of this model. `HintMarksWrongBlanks` assumes it is the map `validateCurrentAnswer` returns.

## Findings

| source | as written | input that shows it | evidently intended | confidence | as-written member | corrected member |
|---|---|---|---|---|---|---|
| MathTeachingApp/Views/SubtractionProblemView.swift:49 | the subtrahend row draws `maxLength - 1` slots, so when the subtrahend has as many digits as the minuend its units digit, and any blank placed on it, is never drawn. Under the default range 1000..9999 this is every problem | 5432 - 1234 with the shuffle that draws pool index 7 first: the blank (row 1, index 3, digit 4) exists but has no input field. The quiz screen enables Validate only when `checkAllBlanksAnswered()` holds (`Views/QuizView.swift:56`, `:75`), and it shows Next only after validation (`Views/QuizView.swift:78`). A blank without a field can never be answered, so such a problem can never be validated or left | the minus sign takes one slot only when the subtrahend is shorter: draw max(maxLength - 1, subtrahend length) slots so every blank has a field | not executed; high | ProblemView.SubtrahendUnitsHidden | ProblemView.GridShowsEveryBlank |
| MathTeachingApp/Models/Models.swift:93-96 | `isCorrect` is true when some digit is entered and every entered value is within 0..9; it never compares with the correct digits. Its comment says it checks that every blank is filled in correctly | a problem whose first blank expects 4, with the answer 5 for that blank only: `isCorrect` is true | every blank of the problem answered with its correct digit (what the saved score calls isAllCorrect) | not executed; medium (nothing in the app reads `isCorrect`) | QuizViewModel.IsCorrectAcceptsWrongAnswer | QuizViewModel.IsCorrectForAgreesWithScore |
