/**
 * The string primitives the rating engine relies on, for ASCII text:
 * `toLowerCase`, `trim`, `includes`, the regular-expression classes `\d`,
 * `\s` and `\w`, and `parseInt(s, 10)`.
 */
module Text {
  import opened Wrappers

  /** JavaScript white space restricted to ASCII (what `trim` removes and `\s` matches). */
  predicate IsSpace(c: char) {
    c == ' ' || c == '\t' || c == '\n' || c == '\r' || c == '\U{000B}' || c == '\U{000C}'
  }

  /** The class `\d`. */
  predicate IsDigit(c: char) {
    '0' <= c <= '9'
  }

  /** The class `\w`: ASCII letters, digits and underscore. */
  predicate IsWordChar(c: char) {
    ('a' <= c <= 'z') || ('A' <= c <= 'Z') || IsDigit(c) || c == '_'
  }

  /** ASCII `toLowerCase` of one character. */
  function LowerChar(c: char): (r: char)
    ensures 'A' <= c <= 'Z' ==> 'a' <= r <= 'z' && r as int == c as int + 32
    ensures !('A' <= c <= 'Z') ==> r == c
  {
    if 'A' <= c <= 'Z' then (c as int + 32) as char else c
  }

  /** ASCII `toLowerCase`. */
  function Lower(s: string): (r: string)
    ensures |r| == |s|
    ensures forall i :: 0 <= i < |s| ==> r[i] == LowerChar(s[i])
  {
    seq(|s|, i requires 0 <= i < |s| => LowerChar(s[i]))
  }

  /** Lower-casing twice is lower-casing once. */
  lemma LowerIdempotent(s: string)
    ensures Lower(Lower(s)) == Lower(s)
  {
  }

  lemma LowerKeepsClasses(c: char)
    ensures IsSpace(LowerChar(c)) == IsSpace(c)
    ensures IsDigit(LowerChar(c)) == IsDigit(c)
    ensures IsWordChar(LowerChar(c)) == IsWordChar(c)
  {
  }

  /** The end of the run of white space that starts at `i`. */
  function SpacesEnd(s: string, i: nat): (e: nat)
    requires i <= |s|
    ensures i <= e <= |s|
    ensures forall k :: i <= k < e ==> IsSpace(s[k])
    ensures e < |s| ==> !IsSpace(s[e])
    decreases |s| - i
  {
    if i < |s| && IsSpace(s[i]) then SpacesEnd(s, i + 1) else i
  }

  /** The start of the run of white space that ends at `j`. */
  function SpacesStart(s: string, j: nat): (b: nat)
    requires j <= |s|
    ensures b <= j
    ensures forall k :: b <= k < j ==> IsSpace(s[k])
    ensures 0 < b ==> !IsSpace(s[b - 1])
    decreases j
  {
    if 0 < j && IsSpace(s[j - 1]) then SpacesStart(s, j - 1) else j
  }

  /** `trimStart`: drops the leading white space. */
  function TrimStart(s: string): (r: string)
    ensures |r| <= |s| && r == s[|s| - |r|..]
    ensures r == [] || !IsSpace(r[0])
    ensures forall i :: 0 <= i < |s| - |r| ==> IsSpace(s[i])
  {
    s[SpacesEnd(s, 0)..]
  }

  /** `trimEnd`: drops the trailing white space. */
  function TrimEnd(s: string): (r: string)
    ensures |r| <= |s| && r == s[..|r|]
    ensures r == [] || !IsSpace(r[|r| - 1])
    ensures forall i :: |r| <= i < |s| ==> IsSpace(s[i])
  {
    s[..SpacesStart(s, |s|)]
  }

  /** `r` is `s` with the white space at both ends removed, starting at `a`. */
  predicate TrimmedAt(s: string, r: string, a: int) {
    && 0 <= a && a + |r| <= |s| && r == s[a..a + |r|]
    && (forall i :: 0 <= i < a ==> IsSpace(s[i]))
    && (forall i :: a + |r| <= i < |s| ==> IsSpace(s[i]))
  }

  /** `trim`: the infix of `s` that neither starts nor ends with white space,
      obtained by dropping only white space at both ends. */
  function Trim(s: string): (r: string)
    ensures r == [] || (!IsSpace(r[0]) && !IsSpace(r[|r| - 1]))
    ensures exists a :: TrimmedAt(s, r, a)
  {
    var t := TrimStart(s);
    var r := TrimEnd(t);
    TrimmedOfParts(s, t, r);
    r
  }

  /** Dropping white space from the front, then from the back, trims at both ends. */
  lemma TrimmedOfParts(s: string, t: string, r: string)
    requires |t| <= |s| && t == s[|s| - |t|..]
    requires t == [] || !IsSpace(t[0])
    requires forall i :: 0 <= i < |s| - |t| ==> IsSpace(s[i])
    requires |r| <= |t| && r == t[..|r|]
    requires r == [] || !IsSpace(r[|r| - 1])
    requires forall i :: |r| <= i < |t| ==> IsSpace(t[i])
    ensures r == [] || (!IsSpace(r[0]) && !IsSpace(r[|r| - 1]))
    ensures TrimmedAt(s, r, |s| - |t|)
  {
    var a := |s| - |t|;
    forall i | a + |r| <= i < |s|
      ensures IsSpace(s[i])
    {
      assert s[i] == t[i - a];
    }
    assert r == s[a..a + |r|];
  }

  /** Lower-casing moves neither end of a run of white space. */
  lemma {:induction false} SpacesEndLower(s: string, i: nat)
    requires i <= |s|
    ensures SpacesEnd(Lower(s), i) == SpacesEnd(s, i)
    decreases |s| - i
  {
    if i < |s| {
      LowerKeepsClasses(s[i]);
      if IsSpace(s[i]) {
        SpacesEndLower(s, i + 1);
      }
    }
  }

  lemma {:induction false} SpacesStartLower(s: string, j: nat)
    requires j <= |s|
    ensures SpacesStart(Lower(s), j) == SpacesStart(s, j)
    decreases j
  {
    if 0 < j {
      LowerKeepsClasses(s[j - 1]);
      if IsSpace(s[j - 1]) {
        SpacesStartLower(s, j - 1);
      }
    }
  }

  lemma LowerTrimStart(s: string)
    ensures TrimStart(Lower(s)) == Lower(TrimStart(s))
  {
    SpacesEndLower(s, 0);
    assert Lower(s)[SpacesEnd(s, 0)..] == Lower(s[SpacesEnd(s, 0)..]);
  }

  lemma LowerTrimEnd(s: string)
    ensures TrimEnd(Lower(s)) == Lower(TrimEnd(s))
  {
    SpacesStartLower(s, |s|);
    assert Lower(s)[..SpacesStart(s, |s|)] == Lower(s[..SpacesStart(s, |s|)]);
  }

  /** Lower-casing and trimming commute, since lower-casing turns no character into
      white space and no white space into anything else. */
  lemma LowerTrim(s: string)
    ensures Trim(Lower(s)) == Lower(Trim(s))
    ensures |Trim(Lower(s))| == |Trim(s)|
  {
    LowerTrimStart(s);
    LowerTrimEnd(TrimStart(s));
  }

  /** Trimming keeps any text that is not all white space. */
  lemma TrimKeepsNonSpace(s: string, k: int)
    requires 0 <= k < |s| && !IsSpace(s[k])
    ensures Trim(s) != []
  {
    var a :| TrimmedAt(s, Trim(s), a);
  }

  /** The trimmed text is the only infix, framed by white space, that neither starts nor
      ends with white space. */
  lemma TrimUnique(s: string, core: string, a: int)
    requires TrimmedAt(s, core, a) && core != []
    requires !IsSpace(core[0]) && !IsSpace(core[|core| - 1])
    ensures Trim(s) == core
  {
    var r := Trim(s);
    var b :| TrimmedAt(s, r, b);
    TrimKeepsNonSpace(s, a);
    assert s[a] == core[0] && s[b] == r[0];
    assert a == b;
    assert s[a + |core| - 1] == core[|core| - 1] && s[b + |r| - 1] == r[|r| - 1];
    assert |r| == |core|;
  }

  /** `s` holds `k` at position `i`. */
  predicate MatchAt(s: string, k: string, i: int) {
    0 <= i && i + |k| <= |s| && s[i..i + |k|] == k
  }

  /** `s.includes(k)`. */
  predicate Contains(s: string, k: string)
    decreases |s|
  {
    |k| <= |s| && (s[..|k|] == k || Contains(s[1..], k))
  }

  lemma {:induction false} ContainsIff(s: string, k: string)
    ensures Contains(s, k) <==> exists i :: MatchAt(s, k, i)
    decreases |s|
  {
    if |k| <= |s| {
      if s[..|k|] == k {
        assert MatchAt(s, k, 0);
      } else {
        ContainsIff(s[1..], k);
        forall i | MatchAt(s[1..], k, i) ensures MatchAt(s, k, i + 1) {
          assert s[1..][i..i + |k|] == s[i + 1..i + 1 + |k|];
        }
        forall i | MatchAt(s, k, i) ensures MatchAt(s[1..], k, i - 1) {
          assert i != 0 by { assert s[0..|k|] == s[..|k|]; }
          assert s[1..][i - 1..i - 1 + |k|] == s[i..i + |k|];
        }
      }
    }
  }

  /** A match of `k` found at a known position. */
  lemma ContainsAt(s: string, k: string, i: int)
    requires MatchAt(s, k, i)
    ensures Contains(s, k)
  {
    ContainsIff(s, k);
  }

  /** A slice of `s` that is one of `words` is a word of the list that `s` includes. */
  lemma ListedWordIsContained(s: string, a: nat, b: nat, words: seq<string>)
    requires a <= b <= |s| && s[a..b] in words
    ensures exists n :: (0 <= n < |words| && Contains(s, words[n]) && s[a..b] == words[n])
  {
    var n :| 0 <= n < |words| && words[n] == s[a..b];
    ContainsAt(s, words[n], a);
  }

  /** `includes` is transitive: whatever the infix `k` holds, `s` holds too. */
  lemma ContainsTransitive(s: string, k: string, j: string)
    requires Contains(s, k) && Contains(k, j)
    ensures Contains(s, j)
  {
    ContainsIff(s, k);
    ContainsIff(k, j);
    var i :| MatchAt(s, k, i);
    var m :| MatchAt(k, j, m);
    forall p | 0 <= p < |j| ensures s[i + m + p] == j[p] {
      assert k[m + p] == j[p];
      assert s[i..i + |k|][m + p] == s[i + (m + p)];
    }
    assert s[i + m..i + m + |j|] == j;
    ContainsAt(s, j, i + m);
  }

  /** The leftmost position `k` with `from <= k < n` where `matches` holds. */
  function Leftmost(matches: nat -> bool, n: nat, from: nat): (r: Option<nat>)
    requires from <= n
    ensures r.Some? ==> from <= r.value < n && matches(r.value)
    ensures r.Some? ==> forall k :: from <= k < r.value ==> !matches(k)
    ensures r.None? <==> forall k :: from <= k < n ==> !matches(k)
    decreases n - from
  {
    if from == n then None
    else if matches(from) then Some(from)
    else Leftmost(matches, n, from + 1)
  }

  /** Some keyword of `ks` is an infix of `s` (an inner `for` over a keyword list). */
  predicate ContainsAny(s: string, ks: seq<string>) {
    exists n :: 0 <= n < |ks| && Contains(s, ks[n])
  }

  /** The first keyword group, in list order, with a keyword that `s` includes (an outer
      `for` over an ordered table whose inner `for` is `ContainsAny`). */
  function FirstGroupContained(s: string, groups: seq<seq<string>>): (r: Option<nat>)
    ensures r.Some? ==> r.value < |groups| && ContainsAny(s, groups[r.value])
    ensures r.Some? ==> forall g :: 0 <= g < r.value ==> !ContainsAny(s, groups[g])
    ensures r.None? <==> forall g :: 0 <= g < |groups| ==> !ContainsAny(s, groups[g])
  {
    var contained := (g: nat) => g < |groups| && ContainsAny(s, groups[g]);
    assert forall g: nat :: g < |groups| ==> (contained(g) <==> ContainsAny(s, groups[g]));
    Leftmost(contained, |groups|, 0)
  }

  /** `TrimAll(ks)[n] == Trim(ks[n])`: the keywords as `keyword.trim()` sees them. */
  function TrimAll(ks: seq<string>): (r: seq<string>)
    ensures |r| == |ks| && forall n :: 0 <= n < |ks| ==> r[n] == Trim(ks[n])
  {
    seq(|ks|, n requires 0 <= n < |ks| => Trim(ks[n]))
  }

  /** Every character of `s` is a decimal digit, and there is one (`/^\d+$/`). */
  predicate IsDigits(s: string) {
    |s| > 0 && forall i :: 0 <= i < |s| ==> IsDigit(s[i])
  }

  predicate HasDigit(s: string) {
    exists i :: 0 <= i < |s| && IsDigit(s[i])
  }

  function DigitValue(c: char): (r: nat)
    requires IsDigit(c)
    ensures r <= 9
  {
    c as int - '0' as int
  }

  /** The decimal value of a digit string (exact: the model has no 2^53 limit). */
  function DecimalValue(s: string): (r: nat)
    requires forall i :: 0 <= i < |s| ==> IsDigit(s[i])
    ensures |s| > 0 ==> r == 10 * DecimalValue(s[..|s| - 1]) + DigitValue(s[|s| - 1])
    decreases |s|
  {
    if |s| == 0 then 0 else 10 * DecimalValue(s[..|s| - 1]) + DigitValue(s[|s| - 1])
  }

  /** The length of the run of digits that starts `s`. */
  function LeadingDigits(s: string): (n: nat)
    ensures n <= |s|
    ensures forall i :: 0 <= i < n ==> IsDigit(s[i])
    ensures n < |s| ==> !IsDigit(s[n])
  {
    if |s| > 0 && IsDigit(s[0]) then 1 + LeadingDigits(s[1..]) else 0
  }

  lemma {:induction false} AllDigitsAreLeading(s: string)
    requires IsDigits(s)
    ensures LeadingDigits(s) == |s|
    decreases |s|
  {
    if |s| > 1 {
      AllDigitsAreLeading(s[1..]);
    }
  }

  /** Text that starts with a digit has no white space or sign to skip. */
  lemma DigitFirstParses(s: string)
    requires |s| > 0 && IsDigit(s[0])
    ensures TrimStart(s) == s && LeadingDigits(s) > 0
  {
    assert !IsSpace(s[0]);
  }

  /** The value of the unsigned digits that start `u`, if any. */
  function UnsignedValue(u: string): (r: Option<nat>)
    ensures IsDigits(u) ==> r == Some(DecimalValue(u))
    ensures r.Some? <==> |u| > 0 && IsDigit(u[0])
  {
    var n := LeadingDigits(u);
    if n == 0 then None
    else if IsDigits(u) then AllDigitsAreLeading(u); assert u[..n] == u; Some(DecimalValue(u))
    else Some(DecimalValue(u[..n]))
  }

  /** `parseInt(s, 10)`: skips leading white space, takes an optional sign and the longest
      run of digits after it; `None` is `NaN` (no digit there). */
  function ParseInt(s: string): (r: Option<int>)
    ensures IsDigits(s) ==> r == Some(DecimalValue(s))
    ensures |s| > 0 && IsDigit(s[0]) ==> r.Some? && r.value >= 0
  {
    if |s| > 0 && IsDigit(s[0]) then
      DigitFirstParses(s);
      UnsignedValue(s)
    else
      var t := TrimStart(s);
      if |t| > 0 && (t[0] == '-' || t[0] == '+') then
        match UnsignedValue(t[1..])
        case None => None
        case Some(v) => var w: int := v; Some(if t[0] == '-' then -w else w)
      else
        UnsignedValue(t)
  }
}
