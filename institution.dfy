/**
 * Institution extraction: the top five South African universities for accounting,
 * each with its aliases, then the answer itself for a direct question, then the
 * institution expression (src/lib/rating.ts, TOP_SA_ACCOUNTING_UNIVERSITIES and
 * extractInstitution).
 */
module Institution {
  import opened Wrappers
  import opened Text
  import opened Patterns

  /** One row of the list: any of `keywords` names the university `name`. */
  datatype University = University(keywords: seq<string>, name: string)

  /** The `{ name, isTopSAAccounting }` the extractor returns. */
  datatype InstitutionMatch = InstitutionMatch(name: string, isTopSAAccounting: bool)

  /** The list as written: three aliases carry padding spaces. */
  const TopSAAccountingUniversities: seq<University> := [
    University(["university of cape town", "uct"], "University of Cape Town"),
    University(["stellenbosch", "maties", "us "], "Stellenbosch University"),
    University(["university of pretoria", "tuks", " up "], "University of Pretoria"),
    University(["witwatersrand", "wits"], "University of the Witwatersrand"),
    University(["university of johannesburg", " uj "], "University of Johannesburg")
  ]

  /** `uni` has an alias that, trimmed (`keyword.trim()`), lies inside `lowerText`: the
      inner loop over its aliases finds a match. */
  predicate Names(lowerText: string, uni: University) {
    ContainsAny(lowerText, TrimAll(uni.keywords))
  }

  /** University `u` of the list has a trimmed alias inside `lowerText`. */
  predicate UniversityMatches(lowerText: string, u: int)
    requires 0 <= u < |TopSAAccountingUniversities|
  {
    Names(lowerText, TopSAAccountingUniversities[u])
  }

  /** Some top university has a trimmed alias inside `lowerText`. */
  predicate AnyUniversityMatches(lowerText: string) {
    exists u :: 0 <= u < |TopSAAccountingUniversities| && UniversityMatches(lowerText, u)
  }

  /** The lower-cased text holds one of the nouns of the institution expression. */
  predicate HasInstitutionNoun(lowerText: string) {
    || (exists n :: 0 <= n < |NounsBeforeOf| && Contains(lowerText, NounsBeforeOf[n]))
    || (exists n :: 0 <= n < |NounsAtEnd| && Contains(lowerText, NounsAtEnd[n]))
  }

  /** University `u` is the first of the list with an alias inside `lowerText`. */
  predicate IsFirstUniversity(lowerText: string, u: int) {
    && 0 <= u < |TopSAAccountingUniversities| && UniversityMatches(lowerText, u)
    && forall v :: 0 <= v < u ==> !UniversityMatches(lowerText, v)
  }

  /** The first university of the list with an alias inside `lowerText`. */
  function FirstUniversity(lowerText: string): (r: Option<nat>)
    ensures r.Some? ==> IsFirstUniversity(lowerText, r.value)
    ensures r.None? <==> !AnyUniversityMatches(lowerText)
  {
    var named := (u: nat) => u < |TopSAAccountingUniversities| && UniversityMatches(lowerText, u);
    assert forall u: nat :: u < |TopSAAccountingUniversities| ==> (named(u) <==> UniversityMatches(lowerText, u));
    Leftmost(named, |TopSAAccountingUniversities|, 0)
  }

  /** The fallback for an answer that is not to a direct question: the trimmed match of
      the institution expression in the lower-cased text, cut from the original text. */
  function NamedInstitution(text: string): (r: Option<InstitutionMatch>)
    ensures r.Some? ==> !r.value.isTopSAAccounting && r.value.name != ""
    ensures r.Some? ==> HasInstitutionNoun(Lower(text))
    ensures r.Some? <==> exists k :: 0 <= k < |text| && PatternAt(InstitutionName, Lower(text), k).Some?
  {
    match Search(InstitutionName, Lower(text))
    case None => None
    case Some(sp) =>
      NamedMatchIsNotBlank(text, sp);
      Some(InstitutionMatch(Trim(text[sp.start..sp.end]), false))
  }

  /** extractInstitution. With `lowerText` the lower-cased, trimmed text: nothing when it
      is shorter than two characters; else the first top university with an alias in it,
      under its canonical name; else, for a direct question, the trimmed answer itself;
      else the trimmed match of the institution expression, if any. */
  function ExtractInstitution(text: string, isDirectQuestion: bool): (r: Option<InstitutionMatch>)
    ensures |Trim(Lower(text))| < 2 ==> r.None?
    ensures (r.Some? && r.value.isTopSAAccounting)
      <==> |Trim(Lower(text))| >= 2 && AnyUniversityMatches(Trim(Lower(text)))
    ensures r.Some? && r.value.isTopSAAccounting ==>
      exists u :: IsFirstUniversity(Trim(Lower(text)), u) && r.value.name == TopSAAccountingUniversities[u].name
    ensures isDirectQuestion && |Trim(Lower(text))| >= 2 && !AnyUniversityMatches(Trim(Lower(text)))
      ==> r == Some(InstitutionMatch(Trim(text), false))
    ensures !isDirectQuestion && r.Some? && !r.value.isTopSAAccounting ==> HasInstitutionNoun(Lower(text))
    ensures !isDirectQuestion && |Trim(Lower(text))| >= 2 && !AnyUniversityMatches(Trim(Lower(text)))
      ==> r == NamedInstitution(text)
    ensures r.Some? ==> r.value.name != ""
  {
    var lowerText := Trim(Lower(text));
    if |lowerText| < 2 then None
    else
      match FirstUniversity(lowerText)
      case Some(u) =>
        CanonicalNamesAreNotBlank(u);
        Some(InstitutionMatch(TopSAAccountingUniversities[u].name, true))
      case None =>
        if isDirectQuestion then
          LowerTrim(text);
          Some(InstitutionMatch(Trim(text), false))
        else
          NamedInstitution(text)
  }

  lemma CanonicalNamesAreNotBlank(u: int)
    requires 0 <= u < |TopSAAccountingUniversities|
    ensures TopSAAccountingUniversities[u].name != ""
  {
    var names := ["University of Cape Town", "Stellenbosch University", "University of Pretoria",
                  "University of the Witwatersrand", "University of Johannesburg"];
    assert TopSAAccountingUniversities[u].name == names[u];
    assert names[u][0] in "SU";
  }

  /** The trimmed match of the institution expression is never empty: the match holds a
      character that is not white space, and that character survives trimming. */
  lemma NamedMatchIsNotBlank(text: string, sp: Span)
    requires Search(InstitutionName, Lower(text)) == Some(sp)
    ensures sp.start <= sp.end <= |text|
    ensures Trim(text[sp.start..sp.end]) != []
    ensures HasInstitutionNoun(Lower(text))
  {
    var lowerText := Lower(text);
    assert InstitutionNameAt(lowerText, sp.start) == Some(sp);
    var k :| sp.start <= k < sp.end && !IsSpace(lowerText[k]);
    SliceKeepsNonSpace(text, sp.start, sp.end, k);
  }

  lemma SliceKeepsNonSpace(text: string, a: nat, b: nat, k: nat)
    requires a <= k < b <= |text| && !IsSpace(Lower(text)[k])
    ensures Trim(text[a..b]) != []
  {
    LowerKeepsClasses(text[k]);
    var slice := text[a..b];
    assert slice[k - a] == text[k];
    TrimKeepsNonSpace(slice, k - a);
  }

  /** When no top university matches, an answer to an education question names an
      institution wherever one of the final nouns ("university", "college", "institute",
      "technikon") follows a letter, digit, underscore or space. */
  lemma NounAfterWordIsNamed(text: string, n: nat, j: nat)
    requires |Trim(Lower(text))| >= 2 && !AnyUniversityMatches(Trim(Lower(text)))
    requires n < |NounsAtEnd| && 1 <= j && MatchAt(Lower(text), NounsAtEnd[n], j)
    requires InClass(WordOrSpace, Lower(text)[j - 1])
    ensures ExtractInstitution(text, false).Some?
    ensures !ExtractInstitution(text, false).value.isTopSAAccounting
  {
    NounAfterWordMatches(Lower(text), n, j);
  }

  /** The padded aliases are compared without their padding: "us ", " up " and " uj "
      are looked for as "us", "up" and "uj", anywhere in the text. */
  lemma PaddedAliasesAreTrimmed()
    ensures TrimAll(TopSAAccountingUniversities[1].keywords)[2] == "us"
    ensures TrimAll(TopSAAccountingUniversities[2].keywords)[2] == "up"
    ensures TrimAll(TopSAAccountingUniversities[4].keywords)[1] == "uj"
  {
    UsIsTrimmed();
    UpIsTrimmed();
    UjIsTrimmed();
  }

  lemma UsIsTrimmed()
    ensures Trim("us ") == "us"
  {
    TrimUnique("us ", "us", 0);
  }

  lemma UpIsTrimmed()
    ensures Trim(" up ") == "up"
  {
    TrimUnique(" up ", "up", 1);
  }

  lemma UjIsTrimmed()
    ensures Trim(" uj ") == "uj"
  {
    TrimUnique(" uj ", "uj", 1);
  }

  /** Any text of two or more characters that holds "us" and no alias of the University
      of Cape Town names Stellenbosch University, whether or not the "us" is a word of its
      own ("business", "campus"). */
  lemma BareUsNamesStellenbosch(text: string, isDirectQuestion: bool)
    requires |Trim(Lower(text))| >= 2 && Contains(Trim(Lower(text)), "us")
    requires !UniversityMatches(Trim(Lower(text)), 0)
    ensures ExtractInstitution(text, isDirectQuestion) == Some(InstitutionMatch("Stellenbosch University", true))
  {
    StellenboschComesFirst(Trim(Lower(text)));
    FirstUniversityDecides(text, isDirectQuestion, 1);
  }

  /** With "us" in the text and no Cape Town alias, Stellenbosch University is the first
      university of the list that the text names. */
  lemma StellenboschComesFirst(lowerText: string)
    requires Contains(lowerText, "us") && !UniversityMatches(lowerText, 0)
    ensures IsFirstUniversity(lowerText, 1)
    ensures TopSAAccountingUniversities[1].name == "Stellenbosch University"
  {
    var stellenbosch := TopSAAccountingUniversities[1];
    assert stellenbosch.keywords[2] == "us ";
    UsIsTrimmed();
    assert Contains(lowerText, TrimAll(stellenbosch.keywords)[2]);
  }

  /** Whatever kind of question was asked, the first university the trimmed, lower-cased
      text names decides the result, under its canonical name. */
  lemma FirstUniversityDecides(text: string, isDirectQuestion: bool, u: nat)
    requires |Trim(Lower(text))| >= 2 && IsFirstUniversity(Trim(Lower(text)), u)
    ensures ExtractInstitution(text, isDirectQuestion)
      == Some(InstitutionMatch(TopSAAccountingUniversities[u].name, true))
  {
    var first := FirstUniversity(Trim(Lower(text)));
    assert first.Some? && first.value == u by {
      assert AnyUniversityMatches(Trim(Lower(text)));
    }
  }
}
