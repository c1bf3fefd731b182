/**
 * One input blank (BlankInputView): the text typed into it is reduced to a
 * single numeral, which is parsed and reported to the session; the fill and
 * border colours and the correct-digit hint follow the validation verdict.
 */
module BlankInput {
  import opened Wrappers
  import opened Models
  import opened QuizViewModel

  // ---------------------------------------------------------------------------
  // Characters and numbers
  // ---------------------------------------------------------------------------

  predicate IsAsciiDigit(c: char)
  {
    '0' <= c <= '9'
  }

  /**
   * `Character.isNumber`: the ASCII digits and other numeric characters, here
   * the Arabic-Indic digits, the full-width digits, the superscripts two, three
   * and one, and the vulgar fractions a quarter, a half and three quarters.
   */
  predicate IsNumber(c: char)
  {
    || IsAsciiDigit(c)
    || '\U{0660}' <= c <= '\U{0669}'
    || '\U{FF10}' <= c <= '\U{FF19}'
    || c == '\U{00B2}' || c == '\U{00B3}' || c == '\U{00B9}'
    || c == '\U{00BC}' || c == '\U{00BD}' || c == '\U{00BE}'
  }

  function DigitChar(d: int): (c: char)
    requires 0 <= d <= 9
    ensures IsAsciiDigit(c) && c as int - '0' as int == d
  {
    ('0' as int + d) as char
  }

  function DigitOf(c: char): (d: int)
    requires IsAsciiDigit(c)
    ensures 0 <= d <= 9 && DigitChar(d) == c
  {
    c as int - '0' as int
  }

  /** The smallest and largest values of Swift's 64-bit `Int`. */
  const IntMin: int := -0x8000_0000_0000_0000
  const IntMax: int := 0x7FFF_FFFF_FFFF_FFFF

  /** The value of a non-empty run of ASCII digits, if that is what `text` is. */
  function ParseUnsigned(text: string): (r: Option<nat>)
    ensures r.Some? <==> |text| > 0 && forall c :: c in text ==> IsAsciiDigit(c)
  {
    if |text| > 0 && forall c :: c in text ==> IsAsciiDigit(c) then
      var ds := seq(|text|, i requires 0 <= i < |text| => DigitOf(text[i]));
      ValueOfDigits(ds);
      Some(Value(ds))
    else
      None
  }

  lemma {:induction false} ValueOfDigits(ds: seq<int>)
    requires forall i :: 0 <= i < |ds| ==> 0 <= ds[i] <= 9
    ensures Value(ds) >= 0
  {
    if ds != [] {
      ValueOfDigits(ds[..|ds| - 1]);
    }
  }

  /**
   * `Int(String)`: an optional sign followed by ASCII digits, with a value
   * that fits in 64 bits; anything else is no number.
   */
  function ParseInt(text: string): (r: Option<int>)
    ensures r.Some? ==> IntMin <= r.value <= IntMax
    ensures r.Some? ==> |text| > 0
    ensures (forall c :: c in text ==> IsNumber(c)) && r.Some? ==> forall c :: c in text ==> IsAsciiDigit(c)
  {
    if |text| > 0 && (text[0] == '+' || text[0] == '-') then
      match ParseUnsigned(text[1..])
      case None => None
      case Some(m) =>
        var v: int := if text[0] == '-' then -(m as int) else m;
        if IntMin <= v <= IntMax then Some(v) else None
    else
      match ParseUnsigned(text)
      case None => None
      case Some(m) => if m <= IntMax then Some(m) else None
  }

  /** A single ASCII digit parses as itself, and nothing else of length one parses. */
  lemma ParseSingle(c: char)
    ensures ParseInt([c]).Some? <==> IsAsciiDigit(c)
    ensures IsAsciiDigit(c) ==> ParseInt([c]) == Some(DigitOf(c))
  {
    if IsAsciiDigit(c) {
      var ds := [DigitOf(c)];
      assert Numeral(ds) == [c];
      assert ds[..0] == [];
      ParseNumeral(ds);
    } else if c == '+' || c == '-' {
      assert [c][1..] == [];
    } else {
      assert c in [c];
    }
  }

  /** The characters of a digit list. */
  function Numeral(ds: seq<int>): (t: string)
    requires forall i :: 0 <= i < |ds| ==> 0 <= ds[i] <= 9
    ensures |t| == |ds| && forall c :: c in t ==> IsAsciiDigit(c)
  {
    seq(|ds|, i requires 0 <= i < |ds| => DigitChar(ds[i]))
  }

  /** A non-empty numeral parses to the value of its digits. */
  lemma ParseNumeral(ds: seq<int>)
    requires IsDecimal(ds)
    ensures ParseUnsigned(Numeral(ds)) == Some(Value(ds))
  {
    var t := Numeral(ds);
    assert seq(|t|, i requires 0 <= i < |t| => DigitOf(t[i])) == ds;
  }

  /** `"\(n)"`: the decimal numeral of n, with a minus sign when negative. */
  function DecimalText(n: int): (t: string)
    ensures |t| > 0
  {
    (if n < 0 then "-" else "") + Numeral(Digits(if n < 0 then -n else n))
  }

  /** A minus sign in front of an unsigned numeral negates it. */
  lemma ParseNegative(body: string, m: nat)
    requires ParseUnsigned(body) == Some(m) && IntMin <= -(m as int)
    ensures ParseInt("-" + body) == Some(-(m as int))
  {
    var text := "-" + body;
    assert text[0] == '-' && text[1..] == body;
  }

  /** A numeral without a sign parses as itself. */
  lemma ParsePlain(body: string, m: nat)
    requires ParseUnsigned(body) == Some(m) && m <= IntMax
    ensures ParseInt(body) == Some(m)
  {
    assert body[0] in body;
  }

  /** Parsing a number's numeral gives the number back. */
  lemma DecimalTextRoundTrip(n: int)
    requires IntMin <= n <= IntMax
    ensures ParseInt(DecimalText(n)) == Some(n)
  {
    var m: nat := if n < 0 then -n else n;
    var body := Numeral(Digits(m));
    DigitsRoundTrip(m);
    ParseNumeral(Digits(m));
    if n < 0 {
      assert DecimalText(n) == "-" + body;
      ParseNegative(body, m);
    } else {
      assert DecimalText(n) == body;
      ParsePlain(body, m);
    }
  }

  // ---------------------------------------------------------------------------
  // The text filter of `onChange`
  // ---------------------------------------------------------------------------

  /** `filter { $0.isNumber }`: the numeric characters, in order. */
  function NumericOnly(s: string): (r: string)
    ensures |r| <= |s|
    ensures forall c :: c in r ==> IsNumber(c)
  {
    if s == [] then []
    else NumericOnly(s[..|s| - 1]) + (if IsNumber(s[|s| - 1]) then [s[|s| - 1]] else [])
  }

  /** The filter drops no numeric character: each occurs as often as in the input. */
  lemma {:induction false} NumericOnlyCounts(s: string, c: char)
    requires IsNumber(c)
    ensures multiset(NumericOnly(s))[c] == multiset(s)[c]
  {
    if s != [] {
      var init := s[..|s| - 1];
      assert s == init + [s[|s| - 1]];
      NumericOnlyCounts(init, c);
    }
  }

  /** Filtering keeps text that is already all numeric, so it is idempotent. */
  lemma {:induction false} NumericOnlyKeepsNumeric(s: string)
    requires forall c :: c in s ==> IsNumber(c)
    ensures NumericOnly(s) == s
  {
    if s != [] {
      NumericOnlyKeepsNumeric(s[..|s| - 1]);
    }
  }

  /** The last character kept by the filter is the last numeric character of the input. */
  lemma {:induction false} NumericOnlyLast(s: string)
    requires NumericOnly(s) != []
    ensures exists i :: 0 <= i < |s| && s[i] == NumericOnly(s)[|NumericOnly(s)| - 1]
                        && forall j :: i < j < |s| ==> !IsNumber(s[j])
  {
    var init := s[..|s| - 1];
    var last := s[|s| - 1];
    if IsNumber(last) {
      assert s[|s| - 1] == NumericOnly(s)[|NumericOnly(s)| - 1];
    } else {
      assert NumericOnly(s) == NumericOnly(init);
      NumericOnlyLast(init);
      var i :| 0 <= i < |init| && init[i] == NumericOnly(init)[|NumericOnly(init)| - 1]
               && forall j :: i < j < |init| ==> !IsNumber(init[j]);
      assert s[i] == init[i];
      forall j | i < j < |s|
        ensures !IsNumber(s[j])
      {
        if j < |s| - 1 {
          assert s[j] == init[j];
        }
      }
    }
  }

  /** The filter finds nothing exactly when the input has no numeric character. */
  lemma NumericOnlyEmpty(s: string)
    ensures NumericOnly(s) == [] <==> forall c :: c in s ==> !IsNumber(c)
  {
    if NumericOnly(s) == [] {
      forall c | c in s && IsNumber(c)
        ensures false
      {
        NumericOnlyCounts(s, c);
      }
    } else {
      var c := NumericOnly(s)[0];
      NumericOnlyCounts(s, c);
      assert multiset(NumericOnly(s))[c] > 0;
      assert c in multiset(s);
    }
  }

  /**
   * The text `onChange` leaves in the field: the numeric characters of the
   * new value, cut down to the last one when there are several.
   */
  function FilteredText(newValue: string): (t: string)
    ensures |t| <= 1
    ensures forall c :: c in t ==> IsNumber(c)
  {
    var filtered := NumericOnly(newValue);
    if |filtered| > 1 then filtered[|filtered| - 1..] else filtered
  }

  /**
   * A numeric character that is not an ASCII digit (a full-width digit, a
   * vulgar fraction) passes the filter and stays in the field, but it does not
   * parse, so no answer is reported for it.
   */
  lemma NonAsciiNumberKeptButUnanswered(c: char)
    requires IsNumber(c) && !IsAsciiDigit(c)
    ensures FilteredText([c]) == [c]
    ensures ParseInt(FilteredText([c])).None?
  {
    assert forall x :: x in [c] ==> IsNumber(x);
    NumericOnlyKeepsNumeric([c]);
    ParseSingle(c);
  }

  /** Whatever is typed, a value parsed from the filtered field is a single digit 0..9 shown as itself. */
  lemma FieldParsesToDigit(newValue: string)
    ensures ParseInt(FilteredText(newValue)).Some? ==>
              var d := ParseInt(FilteredText(newValue)).value;
              0 <= d <= 9 && FilteredText(newValue) == [DigitChar(d)]
  {
    var t := FilteredText(newValue);
    if ParseInt(t).Some? {
      assert |t| == 1;
      assert t == [t[0]];
      ParseSingle(t[0]);
    }
  }

  /**
   * The field ends up empty when nothing numeric was typed, and otherwise holds
   * exactly the last numeric character typed.
   */
  lemma FilteredTextIsLastNumeral(newValue: string)
    ensures FilteredText(newValue) == [] <==> forall c :: c in newValue ==> !IsNumber(c)
    ensures FilteredText(newValue) != [] ==>
              exists i :: 0 <= i < |newValue| && [newValue[i]] == FilteredText(newValue)
                          && IsNumber(newValue[i])
                          && forall j :: i < j < |newValue| ==> !IsNumber(newValue[j])
  {
    NumericOnlyEmpty(newValue);
    var f := NumericOnly(newValue);
    if f != [] {
      NumericOnlyLast(newValue);
      assert FilteredText(newValue) == [f[|f| - 1]];
      assert f[|f| - 1] in f;
    }
  }

  /**
   * Writing the filtered text back re-triggers `onChange` with that text; the
   * filter leaves it as it is, so the field settles after one round.
   */
  lemma FilteredTextSettles(newValue: string)
    ensures FilteredText(FilteredText(newValue)) == FilteredText(newValue)
  {
    NumericOnlyKeepsNumeric(FilteredText(newValue));
  }

  // ---------------------------------------------------------------------------
  // The blank's own state
  // ---------------------------------------------------------------------------

  class BlankInputView {
    const blank: BlankPosition
    /** The field's text (`@State text`). */
    var text: string
    /** The shared focus (`@FocusState focusedBlankId`); `None` when the keyboard is dismissed. */
    var focusedBlankId: Option<nat>

    constructor (blank: BlankPosition, focusedBlankId: Option<nat>)
      ensures this.blank == blank && this.focusedBlankId == focusedBlankId
      ensures text == ""
    {
      this.blank := blank;
      this.focusedBlankId := focusedBlankId;
      text := "";
    }

    /**
     * `onChange(of: text)`: keep the last numeral typed, report the blank's
     * digit (or no digit) to the session and, on a digit, dismiss the keyboard.
     */
    method OnChange(newValue: string) returns (callbackId: nat, callbackDigit: Option<int>)
      modifies this`text, this`focusedBlankId
      ensures text == FilteredText(newValue)
      ensures callbackId == blank.id
      ensures callbackDigit.Some? <==> |text| == 1 && IsAsciiDigit(text[0])
      ensures callbackDigit.Some? ==> 0 <= callbackDigit.value <= 9 && DigitChar(callbackDigit.value) == text[0]
      ensures callbackDigit.Some? ==> focusedBlankId == None
      ensures callbackDigit.None? ==> focusedBlankId == old(focusedBlankId)
    {
      var filtered := NumericOnly(newValue);
      if |filtered| > 1 {
        text := filtered[|filtered| - 1..];
      } else {
        text := filtered;
      }
      if |text| == 1 {
        ParseSingle(text[0]);
        assert text == [text[0]];
      }
      callbackId := blank.id;
      callbackDigit := ParseInt(text);
      if callbackDigit.Some? {
        focusedBlankId := None;
      }
    }

    /** `onAppear`: show the answer already recorded for this blank, if there is one. */
    method OnAppear(userAnswer: Option<UserAnswer>)
      modifies this`text
      ensures userAnswer.Some? && blank.id in userAnswer.value.answers ==>
                text == DecimalText(userAnswer.value.answers[blank.id])
      ensures !(userAnswer.Some? && blank.id in userAnswer.value.answers) ==> text == old(text)
    {
      if userAnswer.Some? && blank.id in userAnswer.value.answers {
        text := DecimalText(userAnswer.value.answers[blank.id]);
      }
    }
  }

  /** An answer typed into a blank and shown again on reappearing reads back as the same digit. */
  lemma ReappearShowsTypedDigit(d: int)
    requires 0 <= d <= 9
    ensures DecimalText(d) == [DigitChar(d)]
    ensures FilteredText(DecimalText(d)) == DecimalText(d)
  {
    var t := [DigitChar(d)];
    assert Digits(d) == [d];
    assert Numeral([d]) == t;
    assert DecimalText(d) == t;
    assert t[0] in t ==> IsNumber(t[0]);
    NumericOnlyKeepsNumeric(t);
    assert FilteredText(t) == NumericOnly(t);
  }

  // ---------------------------------------------------------------------------
  // Appearance
  // ---------------------------------------------------------------------------

  datatype Color = Green | Red | Yellow | Blue | Orange

  datatype Icon = Checkmark | Cross

  /** `backgroundColor`: green or red once validated, yellow otherwise. */
  function BackgroundColor(showValidation: bool, isCorrect: Option<bool>): Color
  {
    if showValidation && isCorrect.Some? then (if isCorrect.value then Green else Red) else Yellow
  }

  /** `borderColor`: green or red once validated, else blue while focused, else orange. */
  function BorderColor(showValidation: bool, isCorrect: Option<bool>, focusedBlankId: Option<nat>, blankId: nat): Color
  {
    if showValidation && isCorrect.Some? then (if isCorrect.value then Green else Red)
    else if focusedBlankId == Some(blankId) then Blue
    else Orange
  }

  /** Whether the correct digit is shown under the field. */
  predicate ShowsHint(showValidation: bool, isCorrect: Option<bool>)
  {
    showValidation && isCorrect == Some(false)
  }

  /** The validation icon in the corner, if any. */
  function ValidationIcon(showValidation: bool, isCorrect: Option<bool>): Option<Icon>
  {
    if showValidation && isCorrect.Some? then Some(if isCorrect.value then Checkmark else Cross) else None
  }

  /** The hint, the red fill and the cross appear together, exactly for a blank judged wrong. */
  lemma HintIffRedBackground(showValidation: bool, isCorrect: Option<bool>)
    ensures ShowsHint(showValidation, isCorrect) <==> BackgroundColor(showValidation, isCorrect) == Red
    ensures ShowsHint(showValidation, isCorrect) <==> ValidationIcon(showValidation, isCorrect) == Some(Cross)
  {
  }

  /** The green fill, the green border and the checkmark appear together, exactly for a blank judged right. */
  lemma GreenIffJudgedRight(showValidation: bool, isCorrect: Option<bool>, focusedBlankId: Option<nat>, blankId: nat)
    ensures BackgroundColor(showValidation, isCorrect) == Green <==> showValidation && isCorrect == Some(true)
    ensures BorderColor(showValidation, isCorrect, focusedBlankId, blankId) == Green <==> showValidation && isCorrect == Some(true)
    ensures ValidationIcon(showValidation, isCorrect) == Some(Checkmark) <==> showValidation && isCorrect == Some(true)
  {
  }

  /**
   * Once a verdict is shown the border matches the fill and focus no longer
   * matters; before that the fill is yellow and the border marks the focus.
   */
  lemma BorderAgreesWhenValidated(showValidation: bool, isCorrect: Option<bool>, focusedBlankId: Option<nat>, blankId: nat)
    ensures showValidation && isCorrect.Some? ==>
              BorderColor(showValidation, isCorrect, focusedBlankId, blankId) == BackgroundColor(showValidation, isCorrect)
    ensures !(showValidation && isCorrect.Some?) ==>
              && BackgroundColor(showValidation, isCorrect) == Yellow
              && (BorderColor(showValidation, isCorrect, focusedBlankId, blankId) == Blue <==> focusedBlankId == Some(blankId))
              && ValidationIcon(showValidation, isCorrect) == None
  {
  }

  /**
   * With the verdicts of `validateCurrentAnswer` shown, a blank of the problem
   * shows the correct-digit hint exactly when its answer is missing or wrong.
   */
  lemma HintMarksWrongBlanks(p: MathProblem, answers: map<nat, int>, b: BlankPosition)
    requires WellFormedProblem(p) && b in p.blanks
    ensures var verdicts := ValidationOf(p.blanks, answers);
            var isCorrect := if b.id in verdicts then Some(verdicts[b.id]) else None;
            ShowsHint(true, isCorrect) <==> !AnsweredCorrectly(b, answers)
  {
    ValidationMeaning(p.blanks, answers);
    var i :| 0 <= i < |p.blanks| && p.blanks[i] == b;
    assert b.id in BlankIds(p.blanks) by {
      assert BlankIds(p.blanks)[i] == b.id;
    }
  }
}
