/**
 * The regular expressions of the rating engine, written out as the matchers a
 * backtracking JavaScript engine runs for them. Each one is searched leftmost
 * first: the result of `text.match(re)` is the match that starts at the
 * smallest position where the expression can match. The text is searched after
 * ASCII lower-casing, which is what the `i` flag does for these expressions; the
 * keywords below are therefore written in lower case.
 *
 * In the four expressions about years, and in the first alternative of the
 * institution expression, the greedy repetitions admit no useful backtracking: when
 * a run is shortened, the character after it belongs to the run's own class and so
 * never matches the next part of the expression, and each matcher takes each run
 * whole. The second alternative of the institution expression does backtrack: its
 * run of word-or-space characters gives back characters until a final noun follows.
 */
module Patterns {
  import opened Wrappers
  import opened Text

  /** The character classes the expressions repeat. */
  datatype CharClass = Digits | Spaces | WordOrSpace

  predicate InClass(c: CharClass, ch: char) {
    match c
    case Digits => IsDigit(ch)
    case Spaces => IsSpace(ch)
    case WordOrSpace => IsWordChar(ch) || IsSpace(ch)
  }

  /** The end of the longest run of class `c` that starts at `i`. */
  function RunEnd(s: string, i: nat, c: CharClass): (e: nat)
    requires i <= |s|
    ensures i <= e <= |s|
    ensures forall k :: i <= k < e ==> InClass(c, s[k])
    ensures e < |s| ==> !InClass(c, s[e])
    decreases |s| - i
  {
    if i < |s| && InClass(c, s[i]) then RunEnd(s, i + 1, c) else i
  }

  /** A capture group (or a whole match) as a slice `s[start..end]` of the searched text. */
  datatype Span = Span(start: nat, end: nat)

  /** The five expressions of the rating engine. */
  datatype Pattern =
    | YearsWithUnit    // digits, an optional plus, optional spaces, then "year" or "yr"
    | YearsRange       // digits, a dash between optional spaces, digits, then the unit
    | NumberWord       // one of the number words, the unit optional
    | BareNumber       // digits, everything after them optional
    | InstitutionName  // "<noun> of <words>", or "<words><noun>"

  /** The alternatives of the number-word group, in the order the expression lists them. */
  const NumberWords: seq<string> := ["one", "two", "three", "four", "five", "six", "seven",
    "eight", "nine", "ten", "eleven", "twelve", "fifteen", "twenty"]

  /** The nouns that may precede `of` in the institution expression. */
  const NounsBeforeOf: seq<string> := ["university", "college", "institute", "school"]

  /** The nouns that may end the institution expression's second alternative. */
  const NounsAtEnd: seq<string> := ["university", "college", "institute", "technikon"]

  /** Every noun of either list is non-empty and starts with a letter. */
  lemma NounsStartWithLetters()
    ensures forall n :: 0 <= n < |NounsBeforeOf| ==> |NounsBeforeOf[n]| > 0 && !IsSpace(NounsBeforeOf[n][0])
    ensures forall n :: 0 <= n < |NounsAtEnd| ==> |NounsAtEnd[n]| > 0 && !IsSpace(NounsAtEnd[n][0])
  {
  }

  /** The first alternative of `ks`, in order, that matches at `i`. */
  function FirstAt(s: string, ks: seq<string>, i: nat): (r: Option<nat>)
    ensures r.Some? ==> r.value < |ks| && MatchAt(s, ks[r.value], i)
    ensures r.None? <==> forall n :: 0 <= n < |ks| ==> !MatchAt(s, ks[n], i)
  {
    if |ks| == 0 then None
    else if MatchAt(s, ks[0], i) then Some(0)
    else
      match FirstAt(s, ks[1..], i)
      case None => None
      case Some(n) => Some(n + 1)
  }

  /** The unit ("year", "years", "yr" or "yrs") starts at `i`. */
  predicate UnitAt(s: string, i: nat) {
    MatchAt(s, "year", i) || MatchAt(s, "yr", i)
  }

  /** The first expression at `i`: digits, an optional `+`, spaces, the unit; the
      capture is the digits. */
  function YearsWithUnitAt(s: string, i: nat): (r: Option<Span>)
    requires i < |s|
    ensures r.Some? ==> r.value.start == i < r.value.end <= |s| && IsDigits(s[i..r.value.end])
  {
    if !IsDigit(s[i]) then None
    else
      var d := RunEnd(s, i, Digits);
      var p := if d < |s| && s[d] == '+' then d + 1 else d;
      var q := RunEnd(s, p, Spaces);
      if UnitAt(s, q) then Some(Span(i, d)) else None
  }

  /** The range expression at `i`: a number, a dash, a second number, the unit; the
      capture is the first number. */
  function YearsRangeAt(s: string, i: nat): (r: Option<Span>)
    requires i < |s|
    ensures r.Some? ==> r.value.start == i < r.value.end <= |s| && IsDigits(s[i..r.value.end])
  {
    if !IsDigit(s[i]) then None
    else
      var d := RunEnd(s, i, Digits);
      var a := RunEnd(s, d, Spaces);
      if !(a < |s| && s[a] == '-') then None
      else
        var b := RunEnd(s, a + 1, Spaces);
        if !(b < |s| && IsDigit(s[b])) then None
        else
          var c := RunEnd(s, RunEnd(s, b, Digits), Spaces);
          if UnitAt(s, c) then Some(Span(i, d)) else None
  }

  /** The number-word expression at `i` (what follows the word is optional); the
      capture is the word. */
  function NumberWordAt(s: string, i: nat): (r: Option<Span>)
    requires i < |s|
    ensures r.Some? ==> r.value.start == i < r.value.end <= |s| && s[i..r.value.end] in NumberWords
  {
    match FirstAt(s, NumberWords, i)
    case None => None
    case Some(n) =>
      assert s[i..i + |NumberWords[n]|] == NumberWords[n];
      Some(Span(i, i + |NumberWords[n]|))
  }

  /** The bare-number expression at `i` (all that follows the digits is optional); the
      capture is the digits. */
  function BareNumberAt(s: string, i: nat): (r: Option<Span>)
    requires i < |s|
    ensures r.Some? <==> IsDigit(s[i])
    ensures r.Some? ==> r.value.start == i < r.value.end <= |s| && IsDigits(s[i..r.value.end])
  {
    if IsDigit(s[i]) then Some(Span(i, RunEnd(s, i, Digits))) else None
  }

  /** The end of the institution expression's first alternative at `i`: a noun of
      `NounsBeforeOf`, spaces, `of`, then at least one space followed by at least one
      more word-or-space character; the match ends where that run of word-or-space
      characters ends. */
  function OfFormEnd(s: string, i: nat): (r: Option<nat>)
    requires i < |s|
    ensures r.Some? ==> i < r.value <= |s| && !IsSpace(s[i])
    ensures r.Some? ==> exists n :: 0 <= n < |NounsBeforeOf| && Contains(s, NounsBeforeOf[n])
  {
    match FirstAt(s, NounsBeforeOf, i)
    case None => None
    case Some(n) =>
      assert !IsSpace(s[i]) by {
        NounsStartWithLetters();
        assert s[i] == s[i..i + |NounsBeforeOf[n]|][0];
      }
      ContainsAt(s, NounsBeforeOf[n], i);
      var p := i + |NounsBeforeOf[n]|;
      var q := RunEnd(s, p, Spaces);
      if q == p || !MatchAt(s, "of", q) then None
      else
        var r := q + 2;
        if !(r < |s| && IsSpace(s[r])) then None
        else
          var e := RunEnd(s, r, WordOrSpace);
          if e - r >= 2 then Some(e) else None
  }

  /** Where the final noun of the institution expression's second alternative starts
      when its greedy run of word-or-space characters has been cut back to `s[i..j]`:
      the run gives back one character at a time until a noun follows. */
  function NounStartFrom(s: string, i: nat, j: nat): (r: Option<nat>)
    requires i < j <= |s|
    ensures r.Some? ==> i < r.value <= j && FirstAt(s, NounsAtEnd, r.value).Some?
    ensures r.None? <==> forall k :: i < k <= j ==> FirstAt(s, NounsAtEnd, k).None?
    decreases j
  {
    if FirstAt(s, NounsAtEnd, j).Some? then Some(j)
    else if j == i + 1 then None
    else NounStartFrom(s, i, j - 1)
  }

  /** The end of the institution expression's second alternative at `i`: a run of
      word-or-space characters, then a noun of `NounsAtEnd`. */
  function NounSuffixEnd(s: string, i: nat): (r: Option<nat>)
    requires i < |s|
    ensures r.Some? ==> i < r.value <= |s|
    ensures r.Some? ==> exists k :: i < k < r.value && !IsSpace(s[k])
    ensures r.Some? ==> exists n :: 0 <= n < |NounsAtEnd| && Contains(s, NounsAtEnd[n])
  {
    if !InClass(WordOrSpace, s[i]) then None
    else
      match NounStartFrom(s, i, RunEnd(s, i, WordOrSpace))
      case None => None
      case Some(k) =>
        var n := FirstAt(s, NounsAtEnd, k).value;
        assert !IsSpace(s[k]) by {
          NounsStartWithLetters();
          assert s[k] == s[k..k + |NounsAtEnd[n]|][0];
        }
        ContainsAt(s, NounsAtEnd[n], k);
        Some(k + |NounsAtEnd[n]|)
  }

  /** The institution expression at `i`: its first alternative, else its second; the
      span is the whole match. */
  function InstitutionNameAt(s: string, i: nat): (r: Option<Span>)
    requires i < |s|
    ensures r.Some? ==> r.value.start == i < r.value.end <= |s|
    ensures r.Some? ==> exists k :: i <= k < r.value.end && !IsSpace(s[k])
    ensures r.Some? ==>
              || (exists n :: 0 <= n < |NounsBeforeOf| && Contains(s, NounsBeforeOf[n]))
              || (exists n :: 0 <= n < |NounsAtEnd| && Contains(s, NounsAtEnd[n]))
  {
    match OfFormEnd(s, i)
    case Some(e) => Some(Span(i, e))
    case None =>
      match NounSuffixEnd(s, i)
      case Some(e) => Some(Span(i, e))
      case None => None
  }

  /** What pattern `p` captures when its match starts at `i`, if it matches there. */
  function PatternAt(p: Pattern, s: string, i: nat): (r: Option<Span>)
    requires i < |s|
    ensures r.Some? ==> r.value.start == i < r.value.end <= |s|
    ensures r.Some? && (p.YearsWithUnit? || p.YearsRange? || p.BareNumber?) ==>
      IsDigits(s[r.value.start..r.value.end])
    ensures r.Some? && p.NumberWord? ==> s[r.value.start..r.value.end] in NumberWords
  {
    match p
    case YearsWithUnit => YearsWithUnitAt(s, i)
    case YearsRange => YearsRangeAt(s, i)
    case NumberWord => NumberWordAt(s, i)
    case BareNumber => BareNumberAt(s, i)
    case InstitutionName => InstitutionNameAt(s, i)
  }

  /** `s.match(p)`: the capture of the leftmost match, if there is one. */
  function Search(p: Pattern, s: string): (r: Option<Span>)
    ensures r.Some? <==> exists k :: 0 <= k < |s| && PatternAt(p, s, k).Some?
    ensures r.Some? ==> r.value.start < r.value.end <= |s|
    ensures r.Some? ==> PatternAt(p, s, r.value.start) == r
    ensures r.Some? ==> forall k :: 0 <= k < r.value.start ==> PatternAt(p, s, k).None?
  {
    var matches := (k: nat) => k < |s| && PatternAt(p, s, k).Some?;
    assert forall k: nat :: k < |s| ==> (matches(k) <==> PatternAt(p, s, k).Some?);
    match Leftmost(matches, |s|, 0)
    case None => None
    case Some(i) => PatternAt(p, s, i)
  }

  /** Any match of the range expression contains a match of the first expression: its
      second number followed by the unit. So `text.match` of the first expression
      never fails where the range expression would succeed. */
  lemma RangeImpliesYearsWithUnit(s: string)
    requires Search(YearsRange, s).Some?
    ensures Search(YearsWithUnit, s).Some?
  {
    var i := Search(YearsRange, s).value.start;
    var b := RangeHasUnitMatch(s, i);
    assert PatternAt(YearsWithUnit, s, b).Some?;
  }

  /** The second number of a range match, followed by the unit, matches the first expression. */
  lemma RangeHasUnitMatch(s: string, i: nat) returns (b: nat)
    requires i < |s| && YearsRangeAt(s, i).Some?
    ensures b < |s| && YearsWithUnitAt(s, b).Some?
  {
    var d := RunEnd(s, i, Digits);
    var a := RunEnd(s, d, Spaces);
    assert a < |s| && s[a] == '-';
    b := RunEnd(s, a + 1, Spaces);
    assert b < |s| && IsDigit(s[b]);
    var d2 := RunEnd(s, b, Digits);
    var c := RunEnd(s, d2, Spaces);
    assert UnitAt(s, c);
    // The unit starts with `y`, so no `+` follows the second number.
    assert c < |s| && s[c] == 'y' by {
      if MatchAt(s, "year", c) { assert s[c..c + 4][0] == 'y'; }
      else { assert s[c..c + 2][0] == 'y'; }
    }
    assert d2 < c ==> IsSpace(s[d2]);
    assert YearsWithUnitAt(s, b) == Some(Span(b, d2));
  }

  /** A digit anywhere gives the bare-number expression a match. */
  lemma DigitGivesBareNumber(s: string, k: nat)
    requires k < |s| && IsDigit(s[k])
    ensures Search(BareNumber, s).Some?
  {
    assert PatternAt(BareNumber, s, k).Some?;
  }

  /** The institution expression matches wherever one of its final nouns follows a
      character of `[\w\s]`, so its second alternative is complete in this sense. */
  lemma NounAfterWordMatches(s: string, n: nat, j: nat)
    requires n < |NounsAtEnd| && 1 <= j && MatchAt(s, NounsAtEnd[n], j)
    requires InClass(WordOrSpace, s[j - 1])
    ensures Search(InstitutionName, s).Some?
  {
    NounAfterWordEnds(s, n, j);
    assert PatternAt(InstitutionName, s, j - 1).Some?;
  }

  /** The second alternative matches from the character before such a noun. */
  lemma NounAfterWordEnds(s: string, n: nat, j: nat)
    requires n < |NounsAtEnd| && 1 <= j && MatchAt(s, NounsAtEnd[n], j)
    requires InClass(WordOrSpace, s[j - 1])
    ensures NounSuffixEnd(s, j - 1).Some?
  {
    var e := RunEnd(s, j - 1, WordOrSpace);
    assert j <= e;
    assert FirstAt(s, NounsAtEnd, j).Some?;
    assert NounStartFrom(s, j - 1, e).Some?;
  }
}
