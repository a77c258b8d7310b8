/**
 * Years of experience: the step function that scores them and the extractor that
 * reads them from a free-text answer (src/lib/rating.ts, scoreExperience and
 * extractYearsExperience).
 */
module Experience {
  import opened Wrappers
  import opened Text
  import opened Patterns

  /** scoreExperience: a step function from years to a score out of 10. */
  function ScoreExperience(years: int): (r: int)
    ensures 1 <= r <= 10
    ensures years < 1 ==> r == 1
    ensures years >= 15 <==> r == 10
  {
    if years >= 15 then 10
    else if years >= 10 then 9
    else if years >= 7 then 8
    else if years >= 5 then 7
    else if years >= 3 then 5
    else if years >= 2 then 4
    else if years >= 1 then 3
    else 1
  }

  /** More years never score less. */
  lemma ScoreExperienceMonotone(x: int, y: int)
    requires x <= y
    ensures ScoreExperience(x) <= ScoreExperience(y)
  {
  }

  /** The `wordToNum` record. */
  const WordToNum: map<string, int> := map[
    "one" := 1, "two" := 2, "three" := 3, "four" := 4, "five" := 5,
    "six" := 6, "seven" := 7, "eight" := 8, "nine" := 9, "ten" := 10,
    "eleven" := 11, "twelve" := 12, "fifteen" := 15, "twenty" := 20]

  /** Every word the number-word expression can capture has a non-zero (truthy) entry. */
  lemma NumberWordsHaveValues()
    ensures forall w :: w in NumberWords ==> w in WordToNum && WordToNum[w] > 0
  {
  }

  /** Group 1 of `text.match(p)`, taken from the original text: present exactly when the
      expression matches somewhere (the `i` flag is the search in the lower-cased text),
      and never empty. */
  function Capture(p: Pattern, text: string): (r: Option<string>)
    ensures r.Some? <==> exists k :: 0 <= k < |text| && PatternAt(p, Lower(text), k).Some?
    ensures r.Some? ==> |r.value| > 0
  {
    match Search(p, Lower(text))
    case None => None
    case Some(sp) => Some(text[sp.start..sp.end])
  }

  /** The body of the pattern loop for a captured `val`: the `wordToNum` entry of its
      lower-cased form when that is truthy, else `parseInt(val, 10)` unless it is `NaN`.
      Digits read as their decimal value and a number word, in any case, as its entry. */
  function CaptureValue(val: string): (r: Option<int>)
    ensures IsDigits(val) ==> r == Some(DecimalValue(val))
    ensures Lower(val) in NumberWords ==> r == Some(WordToNum[Lower(val)])
  {
    var key := Lower(val);
    NumberWordsHaveValues();
    if key in WordToNum && WordToNum[key] != 0 then
      DigitsAreNoWord(val);
      Some(WordToNum[key])
    else
      ParseInt(val)
  }

  /** A run of digits, lower-cased, is not a key of `wordToNum`. */
  lemma DigitsAreNoWord(val: string)
    ensures IsDigits(val) ==> Lower(val) !in WordToNum
  {
    if IsDigits(val) {
      LowerKeepsClasses(val[0]);
      assert IsDigit(Lower(val)[0]);
    }
  }

  /** `capture` is present and `convert` gives it a value. */
  predicate Converts(convert: string -> Option<int>, capture: Option<string>) {
    capture.Some? && convert(capture.value).Some?
  }

  /** Capture `k` is the first, in pattern order, that converts. */
  predicate IsFirstConverting(convert: string -> Option<int>, captures: seq<Option<string>>, k: int) {
    && 0 <= k < |captures| && Converts(convert, captures[k])
    && forall j :: 0 <= j < k ==> !Converts(convert, captures[j])
  }

  /** The `for (const pattern of patterns)` loop: the value of the first capture, in
      pattern order, that converts; a capture that does not convert falls through to the
      next pattern, and the loop gives nothing when none converts. */
  function FirstValue(convert: string -> Option<int>, captures: seq<Option<string>>): (r: Option<int>)
    ensures r.None? <==> forall k :: 0 <= k < |captures| ==> !Converts(convert, captures[k])
    ensures r.Some? ==> exists k :: (IsFirstConverting(convert, captures, k)
      && r == convert(captures[k].value))
    ensures forall k :: IsFirstConverting(convert, captures, k) ==> r == convert(captures[k].value)
  {
    var converts := (k: nat) => k < |captures| && Converts(convert, captures[k]);
    assert forall k: nat :: k < |captures| ==> (converts(k) <==> Converts(convert, captures[k]));
    match Leftmost(converts, |captures|, 0)
    case None => None
    case Some(m) =>
      assert IsFirstConverting(convert, captures, m);
      FirstConvertingIsUnique(convert, captures, m);
      convert(captures[m].value)
  }

  /** There is at most one first converting capture. */
  lemma FirstConvertingIsUnique(convert: string -> Option<int>, captures: seq<Option<string>>, m: int)
    requires IsFirstConverting(convert, captures, m)
    ensures forall k :: IsFirstConverting(convert, captures, k) ==> k == m
  {
  }

  /** The four patterns in the order the loop tries them. */
  function PatternCaptures(text: string): seq<Option<string>>
  {
    [Capture(YearsWithUnit, text), Capture(YearsRange, text),
     Capture(NumberWord, text), Capture(BareNumber, text)]
  }

  /** A slice of the lower-cased text is the lower-cased slice. */
  lemma LowerSlice(text: string, a: nat, b: nat)
    requires a <= b <= |text|
    ensures Lower(text)[a..b] == Lower(text[a..b])
  {
  }

  /** What a capture holds: digits for the numeric patterns, a number word (in any case)
      for the word pattern; and either kind converts to a value of at least zero. */
  lemma CaptureFacts(p: Pattern, text: string)
    requires Capture(p, text).Some?
    ensures p.YearsWithUnit? || p.YearsRange? || p.BareNumber? ==> IsDigits(Capture(p, text).value)
    ensures p.NumberWord? ==> Lower(Capture(p, text).value) in NumberWords
    ensures p.NumberWord? ==>
      CaptureValue(Capture(p, text).value) == Some(WordToNum[Lower(Capture(p, text).value)])
    ensures p.YearsWithUnit? || p.YearsRange? || p.NumberWord? || p.BareNumber? ==>
      CaptureValue(Capture(p, text).value).Some? && CaptureValue(Capture(p, text).value).value >= 0
  {
    var sp := Search(p, Lower(text)).value;
    var v := text[sp.start..sp.end];
    LowerSlice(text, sp.start, sp.end);
    NumberWordsHaveValues();
    if p.YearsWithUnit? || p.YearsRange? || p.BareNumber? {
      assert IsDigits(Lower(text)[sp.start..sp.end]);
      forall i | 0 <= i < |v| ensures IsDigit(v[i]) {
        LowerKeepsClasses(v[i]);
      }
    }
  }

  /** A capture of a numeric pattern is a digit of the text. */
  lemma NumberCaptureIsDigit(p: Pattern, text: string)
    requires p.YearsWithUnit? || p.YearsRange? || p.BareNumber?
    requires Capture(p, text).Some?
    ensures HasDigit(text)
  {
    var sp := Search(p, Lower(text)).value;
    LowerKeepsClasses(text[sp.start]);
    assert IsDigit(Lower(text)[sp.start..sp.end][0]);
  }

  /** A number word anywhere in the lower-cased text gives the word pattern a capture. */
  lemma NumberWordIsCaptured(text: string, n: nat)
    requires n < |NumberWords| && Contains(Lower(text), NumberWords[n])
    ensures Capture(NumberWord, text).Some?
  {
    ContainsIff(Lower(text), NumberWords[n]);
    var k :| MatchAt(Lower(text), NumberWords[n], k);
    assert FirstAt(Lower(text), NumberWords, k).Some?;
    assert PatternAt(NumberWord, Lower(text), k).Some?;
    assert Search(NumberWord, Lower(text)).Some?;
  }

  /** Some number word occurs in the lower-cased text. */
  predicate HasNumberWord(text: string) {
    exists n :: 0 <= n < |NumberWords| && Contains(Lower(text), NumberWords[n])
  }

  /** extractYearsExperience: a trimmed answer that is all digits is read whole;
      otherwise the first of the four patterns whose capture converts gives the value. */
  function ExtractYearsExperience(text: string): (r: Option<int>)
    ensures IsDigits(Trim(text)) ==> r == Some(DecimalValue(Trim(text)))
    ensures HasDigit(text) ==> r.Some?
    ensures r.Some? ==> r.value >= 0
    ensures r.Some? ==> HasDigit(text) || HasNumberWord(text)
    ensures !HasDigit(text) ==> (r.Some? <==> HasNumberWord(text))
    ensures !HasDigit(text) && r.Some? ==> exists n :: (0 <= n < |NumberWords|
      && Contains(Lower(text), NumberWords[n]) && r.value == WordToNum[NumberWords[n]])
  {
    var trimmedText := Trim(text);
    if IsDigits(trimmedText) then
      ghost var a :| TrimmedAt(text, trimmedText, a);
      assert IsDigit(text[a]);
      ParseInt(trimmedText)
    else
      var captures := PatternCaptures(text);
      var r := FirstValue(CaptureValue, captures);
      CapturesConvert(text);
      if HasDigit(text) then
        DigitIsCaptured(text);
        r
      else
        WordsWithoutDigits(text);
        r
  }

  /** Whatever a pattern captures converts to a value of at least zero. */
  lemma CapturesConvert(text: string)
    ensures forall k :: 0 <= k < 4 && PatternCaptures(text)[k].Some? ==>
      CaptureValue(PatternCaptures(text)[k].value).Some?
      && CaptureValue(PatternCaptures(text)[k].value).value >= 0
  {
    forall k | 0 <= k < 4 && PatternCaptures(text)[k].Some?
      ensures CaptureValue(PatternCaptures(text)[k].value).Some?
      ensures CaptureValue(PatternCaptures(text)[k].value).value >= 0
    {
      var p := if k == 0 then YearsWithUnit else if k == 1 then YearsRange
        else if k == 2 then NumberWord else BareNumber;
      assert PatternCaptures(text)[k] == Capture(p, text);
      CaptureFacts(p, text);
    }
  }

  /** A digit anywhere is captured by the bare-number pattern, last in the loop. */
  lemma DigitIsCaptured(text: string)
    requires HasDigit(text)
    ensures PatternCaptures(text)[3].Some?
  {
    var i :| 0 <= i < |text| && IsDigit(text[i]);
    LowerKeepsClasses(text[i]);
    DigitGivesBareNumber(Lower(text), i);
  }

  /** Without digits only the number-word pattern can capture, and it captures exactly
      when a number word occurs; its value is that word's `wordToNum` entry. */
  lemma WordsWithoutDigits(text: string)
    requires !HasDigit(text)
    ensures FirstValue(CaptureValue, PatternCaptures(text)) == (
      match PatternCaptures(text)[2]
      case None => None
      case Some(v) => CaptureValue(v))
    ensures PatternCaptures(text)[2].Some? <==> HasNumberWord(text)
    ensures PatternCaptures(text)[2].Some? ==> exists n :: (0 <= n < |NumberWords|
      && Contains(Lower(text), NumberWords[n])
      && CaptureValue(PatternCaptures(text)[2].value) == Some(WordToNum[NumberWords[n]]))
  {
    var captures := PatternCaptures(text);
    NoNumericCaptures(text);
    CapturesConvert(text);
    FirstValueOfWordCapture(CaptureValue, captures);
    if captures[2].Some? {
      assert captures[2] == Capture(NumberWord, text);
      WordCaptureIsNumberWord(text);
      var n :| 0 <= n < |NumberWords| && Contains(Lower(text), NumberWords[n])
        && Lower(captures[2].value) == NumberWords[n];
    }
    if HasNumberWord(text) {
      var n :| 0 <= n < |NumberWords| && Contains(Lower(text), NumberWords[n]);
      NumberWordIsCaptured(text, n);
    }
  }

  /** Without digits the three numeric patterns capture nothing. */
  lemma NoNumericCaptures(text: string)
    requires !HasDigit(text)
    ensures PatternCaptures(text)[0].None? && PatternCaptures(text)[1].None?
    ensures PatternCaptures(text)[3].None?
  {
    var captures := PatternCaptures(text);
    if captures[0].Some? { NumberCaptureIsDigit(YearsWithUnit, text); }
    if captures[1].Some? { NumberCaptureIsDigit(YearsRange, text); }
    if captures[3].Some? { NumberCaptureIsDigit(BareNumber, text); }
  }

  /** When only the third of four captures can be present, and it converts, the loop
      reads that capture. */
  lemma FirstValueOfWordCapture(convert: string -> Option<int>, captures: seq<Option<string>>)
    requires |captures| == 4 && captures[0].None? && captures[1].None? && captures[3].None?
    requires captures[2].Some? ==> convert(captures[2].value).Some?
    ensures FirstValue(convert, captures) == (
      match captures[2]
      case None => None
      case Some(v) => convert(v))
  {
    if captures[2].Some? {
      assert IsFirstConverting(convert, captures, 2);
    }
  }

  /** The word pattern's capture, lower-cased, is a number word that occurs in the
      lower-cased text. */
  lemma WordCaptureIsNumberWord(text: string)
    requires Capture(NumberWord, text).Some?
    ensures exists n :: (0 <= n < |NumberWords| && Contains(Lower(text), NumberWords[n])
      && Lower(Capture(NumberWord, text).value) == NumberWords[n])
  {
    var sp := Search(NumberWord, Lower(text)).value;
    CaptureOfSearch(NumberWord, text, sp);
    assert PatternAt(NumberWord, Lower(text), sp.start) == Some(sp);
    ListedWordIsContained(Lower(text), sp.start, sp.end, NumberWords);
    LowerSlice(text, sp.start, sp.end);
  }

  /** "5-7 years" reads as 7: the first pattern finds "7 years" before the range pattern
      is tried, so the range's lower bound is never what is returned. */
  lemma RangeAnswerReadsItsUpperBound()
    ensures ExtractYearsExperience("5-7 years") == Some(7)
  {
    RangeAnswerIsSevenYears("5-7 years");
  }

  /** The characters of "5-7 years", one by one. */
  predicate IsRangeAnswer(t: string) {
    && |t| == 9 && t[0] == '5' && t[1] == '-' && t[2] == '7' && t[3] == ' '
    && t[4] == 'y' && t[5] == 'e' && t[6] == 'a' && t[7] == 'r' && t[8] == 's'
  }

  lemma RangeAnswerIsSevenYears(t: string)
    requires IsRangeAnswer(t)
    ensures ExtractYearsExperience(t) == Some(7)
  {
    RangeAnswerIsNotDigits(t);
    RangeAnswerCapturesSeven(t);
    SevenConverts();
    assert PatternCaptures(t)[0] == Some("7");
    EarliestCaptureDecides(t, 0);
  }

  lemma RangeAnswerIsNotDigits(t: string)
    requires IsRangeAnswer(t)
    ensures !IsDigits(Trim(t))
  {
    assert TrimStart(t) == t && TrimEnd(t) == t;
    assert !IsDigit(t[1]);
  }

  lemma RangeAnswerCapturesSeven(t: string)
    requires IsRangeAnswer(t)
    ensures Capture(YearsWithUnit, t) == Some("7")
  {
    RangeAnswerFirstMatch(t);
    CaptureOfSearch(YearsWithUnit, t, Span(2, 3));
    assert t[2..3] == "7";
  }

  /** When the trimmed answer is not all digits, the first pattern, in loop order, that
      captures anything decides the answer: its capture's value is returned and no later
      pattern is tried. */
  lemma EarliestCaptureDecides(text: string, k: nat)
    requires !IsDigits(Trim(text)) && k < 4 && PatternCaptures(text)[k].Some?
    requires forall j :: 0 <= j < k ==> PatternCaptures(text)[j].None?
    ensures ExtractYearsExperience(text) == CaptureValue(PatternCaptures(text)[k].value)
  {
    CapturesConvert(text);
    assert IsFirstConverting(CaptureValue, PatternCaptures(text), k);
  }

  /** A capture is the original-case slice at the span the search finds in the
      lower-cased text. */
  lemma CaptureOfSearch(p: Pattern, text: string, sp: Span)
    requires Search(p, Lower(text)) == Some(sp)
    ensures sp.end <= |text| && Capture(p, text) == Some(text[sp.start..sp.end])
  {
  }

  /** In "5-7 years" the first expression fails at "5" (a dash follows, not the unit) and
      at the dash, and matches "7 years". */
  lemma RangeAnswerFirstMatch(t: string)
    requires IsRangeAnswer(t)
    ensures Search(YearsWithUnit, Lower(t)) == Some(Span(2, 3))
  {
    var u := Lower(t);
    assert u[0] == '5' && u[1] == '-' && u[2] == '7' && u[3] == ' ';
    assert u[4] == 'y' && u[5] == 'e' && u[6] == 'a' && u[7] == 'r';
    assert RunEnd(u, 0, Digits) == 1 && RunEnd(u, 1, Spaces) == 1;
    assert !UnitAt(u, 1) by { assert u[1..5][0] == '-' && u[1..3][0] == '-'; }
    assert PatternAt(YearsWithUnit, u, 0).None?;
    assert PatternAt(YearsWithUnit, u, 1).None?;
    assert RunEnd(u, 2, Digits) == 3 && RunEnd(u, 3, Spaces) == 4;
    assert u[4..8] == "year";
    assert PatternAt(YearsWithUnit, u, 2) == Some(Span(2, 3));
  }

  lemma SevenConverts()
    ensures CaptureValue("7") == Some(7)
  {
    assert Lower("7") == "7" && "7" !in WordToNum;
    assert DecimalValue("7") == 7 by { assert "7"[..0] == ""; }
  }

  /** Without digits, an answer that spells out exactly one of the number words reads
      as that word's `wordToNum` entry (so "I have ten years of experience" reads 10). */
  lemma SingleNumberWordIsRead(text: string, n: nat)
    requires !HasDigit(text) && n < |NumberWords| && Contains(Lower(text), NumberWords[n])
    requires forall m :: 0 <= m < |NumberWords| && m != n ==> !Contains(Lower(text), NumberWords[m])
    ensures ExtractYearsExperience(text) == Some(WordToNum[NumberWords[n]])
  {
  }
}
