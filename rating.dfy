/**
 * calculateRating (src/lib/rating.ts): turns the results of the question-and-answer
 * pass into the education score (with the top-university bonus), the experience score,
 * a weighted overall score, a confidence level and the list of data sources.
 *
 * JavaScript numbers are modelled as `int` for the scores and as `real` for `overall`;
 * every value that occurs is a small integer or a half-integer, which doubles represent
 * exactly, so no rounding error is left out.
 */
module Rating {
  import opened Wrappers
  import opened Experience
  import opened Institution
  import opened Analysis

  datatype Confidence = High | Medium | Low

  /** The `RatingResult` interface; `null` is `None`. */
  datatype RatingResult = RatingResult(
    overall: real,
    educationScore: int,
    experienceScore: int,
    educationLevel: Option<string>,
    institution: Option<string>,
    yearsExperience: Option<int>,
    confidence: Confidence,
    dataSource: seq<string>)

  /** `Math.min`. */
  function Min(a: int, b: int): (r: int)
    ensures r <= a && r <= b && (r == a || r == b)
  {
    if a <= b then a else b
  }

  /** `Math.round(v * 10) / 10`: `Math.round` rounds halves up, towards +infinity, so the
      result is the nearest tenth, the upper one on a tie. */
  function RoundToTenth(v: real): (r: real)
    ensures (r * 10.0).Floor as real == r * 10.0
    ensures r - 0.05 <= v < r + 0.05
  {
    ((v * 10.0 + 0.5).Floor as real) / 10.0
  }

  /** The average of two integers is a multiple of one half, which rounding to a tenth
      leaves alone: the weighted average is exact. */
  lemma RoundingKeepsHalves(a: int, b: int)
    ensures RoundToTenth(a as real * 0.5 + b as real * 0.5) == (a + b) as real / 2.0
  {
    var v := a as real * 0.5 + b as real * 0.5;
    assert v * 10.0 + 0.5 == ((a + b) * 5) as real + 0.5;
    assert (v * 10.0 + 0.5).Floor == (a + b) * 5;
  }

  /** Position of the first occurrence of `x` in `s`. */
  function FirstIndex(s: seq<string>, x: string): (i: nat)
    requires x in s
    ensures i < |s| && s[i] == x && forall j :: 0 <= j < i ==> s[j] != x
  {
    if s[0] == x then 0 else 1 + FirstIndex(s[1..], x)
  }

  /** `[...new Set(s)]`: each element once, in the order of its first occurrence. */
  function Dedup(s: seq<string>): (r: seq<string>)
    ensures forall x :: x in r <==> x in s
    ensures forall i, j :: 0 <= i < j < |r| ==> r[i] != r[j]
    ensures forall i, j :: 0 <= i < j < |r| ==> FirstIndex(s, r[i]) < FirstIndex(s, r[j])
    decreases |s|
  {
    if s == [] then []
    else
      var prefix := s[..|s| - 1];
      var d := Dedup(prefix);
      FirstIndexInPrefix(s, prefix);
      if s[|s| - 1] in d then d else d + [s[|s| - 1]]
  }

  /** An element of a prefix occurs first where it occurs first in the prefix. */
  lemma FirstIndexInPrefix(s: seq<string>, prefix: seq<string>)
    requires prefix <= s
    ensures forall x :: x in prefix ==> FirstIndex(s, x) == FirstIndex(prefix, x)
  {
    forall x | x in prefix
      ensures FirstIndex(s, x) == FirstIndex(prefix, x)
    {
      var i := FirstIndex(prefix, x);
      assert s[i] == x;
      var k := FirstIndex(s, x);
      assert k <= i;
      assert prefix[k] == x;
    }
  }

  /** The strings of the entries of `fieldsUsed`. */
  function Tags(fields: seq<Field>): (r: seq<string>)
    ensures |r| == |fields| && forall i :: 0 <= i < |fields| ==> r[i] == Tag(fields[i])
  {
    seq(|fields|, i requires 0 <= i < |fields| => Tag(fields[i]))
  }

  /** A tag is among the strings of `fields` exactly when its entry is among them, and
      no other string is. */
  lemma TagsOfFields(fields: seq<Field>)
    ensures forall f :: Tag(f) in Tags(fields) <==> f in fields
    ensures forall x :: x in Tags(fields) ==> exists f :: x == Tag(f)
  {
    forall f | Tag(f) in Tags(fields)
      ensures f in fields
    {
      var i :| 0 <= i < |fields| && Tags(fields)[i] == Tag(f);
      TagInjective(fields[i], f);
    }
    forall f | f in fields
      ensures Tag(f) in Tags(fields)
    {
      var i :| 0 <= i < |fields| && fields[i] == f;
      assert Tags(fields)[i] == Tag(f);
    }
  }

  /** The data sources name exactly the fields the pass filled, and only tags. */
  lemma DataSourceMatchesFields(a: QaAnalysis)
    requires TagsAgree(a)
    ensures Tag(EducationField) in Dedup(Tags(a.fieldsUsed)) <==> a.education.Some?
    ensures Tag(InstitutionField) in Dedup(Tags(a.fieldsUsed)) <==> a.institution.Some?
    ensures Tag(ExperienceField) in Dedup(Tags(a.fieldsUsed)) <==> a.experience.Some?
    ensures forall x :: x in Dedup(Tags(a.fieldsUsed)) ==> exists f :: x == Tag(f)
  {
    TagsOfFields(a.fieldsUsed);
  }

  /** The education level's score, or 0 when there is none (or it is falsy). */
  function BaseEducationScore(results: QaAnalysis): int {
    if results.education.Some? && results.education.value.score != 0 then results.education.value.score else 0
  }

  /** The institution found is one of the top South African accounting universities. */
  predicate HasTopInstitution(results: QaAnalysis) {
    results.institution.Some? && results.institution.value.isTopSAAccounting
  }

  /** The education score is the level's score plus the top-university bonus, capped
      at 10. */
  predicate IsEducationScoreOf(a: QaAnalysis, score: int) {
    && score == (if HasTopInstitution(a) then Min(10, BaseEducationScore(a) + 1) else BaseEducationScore(a))
    && 0 <= score <= 10
    && (a.education.Some? ==> score >= a.education.value.score)
    && (a.education.None? ==> score == if HasTopInstitution(a) then 1 else 0)
  }

  /** The experience score is the stepped score of the years, and 0 exactly when no years
      were found. */
  predicate IsExperienceScoreOf(a: QaAnalysis, score: int) {
    && (score == 0 <==> a.experience.None?)
    && (a.experience.Some? ==> score == ScoreExperience(a.experience.value))
    && 0 <= score <= 10
  }

  /** The confidence says which of education and experience were found, and `overall` is
      their average, the one found, or 0 accordingly. */
  predicate IsOverallOf(a: QaAnalysis, educationScore: int, experienceScore: int, overall: real, confidence: Confidence) {
    && (confidence == High <==> a.education.Some? && a.experience.Some?)
    && (confidence == Low <==> a.education.None? && a.experience.None?)
    && (confidence == High ==> overall == (educationScore + experienceScore) as real / 2.0)
    && (confidence == Medium && a.education.Some? ==> overall == educationScore as real)
    && (confidence == Medium && a.experience.Some? ==> overall == experienceScore as real)
    && (confidence == Low ==> overall == 0.0)
    && 0.0 <= overall <= 10.0
  }

  /** The data sources are the used fields' tags, each once: every tag whose field was
      filled, and nothing else. */
  predicate IsDataSourceOf(a: QaAnalysis, dataSource: seq<string>) {
    && dataSource == Dedup(Tags(a.fieldsUsed))
    && (Tag(EducationField) in dataSource <==> a.education.Some?)
    && (Tag(InstitutionField) in dataSource <==> a.institution.Some?)
    && (Tag(ExperienceField) in dataSource <==> a.experience.Some?)
    && (forall x :: x in dataSource ==> exists f :: x == Tag(f))
  }

  /** What a rating says about the results `a` of the question-and-answer pass: its
      scores, overall score and confidence as above; the labels are null exactly when
      their field is; the data sources are the used fields' tags, each once. */
  predicate IsRatingOf(a: QaAnalysis, r: RatingResult) {
    && IsEducationScoreOf(a, r.educationScore)
    && IsExperienceScoreOf(a, r.experienceScore)
    && IsOverallOf(a, r.educationScore, r.experienceScore, r.overall, r.confidence)
    && r.educationLevel == (if a.education.Some? then Some(a.education.value.level) else None)
    && r.institution == (if a.institution.Some? then Some(a.institution.value.name) else None)
    && r.yearsExperience == a.experience
    && IsDataSourceOf(a, r.dataSource)
  }

  /** calculateRating: the pass over the pairs, then the rating of its results. */
  method CalculateRating(questionsAndAnswers: seq<QuestionAnswer>) returns (r: RatingResult)
    ensures IsRatingOf(Analyze(questionsAndAnswers), r)
  {
    var qaAnalysis := AnalyzeQuestionsAndAnswers(questionsAndAnswers);
    AnalyzeIsSound(questionsAndAnswers);
    r := RateAnalysis(qaAnalysis);
  }

  /** The scoring part of calculateRating, on the results of the pass. */
  method RateAnalysis(qaAnalysis: QaAnalysis) returns (r: RatingResult)
    requires TagsAgree(qaAnalysis) && SoundResults(qaAnalysis)
    ensures IsRatingOf(qaAnalysis, r)
  {
    var educationScore := BaseEducationScore(qaAnalysis);
    if HasTopInstitution(qaAnalysis) {
      educationScore := Min(10, educationScore + 1);
    }
    assert IsEducationScoreOf(qaAnalysis, educationScore);

    var experienceScore := if qaAnalysis.experience.Some? then ScoreExperience(qaAnalysis.experience.value) else 0;
    assert IsExperienceScoreOf(qaAnalysis, experienceScore);

    var hasEducation := qaAnalysis.education.Some?;
    var hasExperience := qaAnalysis.experience.Some?;

    var overall := 0.0;
    var confidence := Low;
    if hasEducation && hasExperience {
      overall := RoundToTenth(educationScore as real * 0.5 + experienceScore as real * 0.5);
      assert overall == (educationScore + experienceScore) as real / 2.0 by {
        RoundingKeepsHalves(educationScore, experienceScore);
      }
      confidence := High;
    } else if hasEducation || hasExperience {
      overall := if hasEducation then educationScore as real else experienceScore as real;
      confidence := Medium;
    } else {
      overall := 0.0;
      confidence := Low;
    }
    assert IsOverallOf(qaAnalysis, educationScore, experienceScore, overall, confidence);

    var educationLevel := if qaAnalysis.education.Some? && qaAnalysis.education.value.level != ""
      then Some(qaAnalysis.education.value.level) else None;
    var institution := if qaAnalysis.institution.Some? && qaAnalysis.institution.value.name != ""
      then Some(qaAnalysis.institution.value.name) else None;

    var dataSource := Dedup(Tags(qaAnalysis.fieldsUsed));
    assert IsDataSourceOf(qaAnalysis, dataSource) by {
      DataSourceMatchesFields(qaAnalysis);
    }
    r := RatingResult(overall, educationScore, experienceScore, educationLevel, institution,
      qaAnalysis.experience, confidence, dataSource);
  }

  /** `IsRatingOf` leaves no freedom: it pins down every field of the rating. */
  lemma RatingIsDetermined(a: QaAnalysis, r1: RatingResult, r2: RatingResult)
    requires IsRatingOf(a, r1) && IsRatingOf(a, r2)
    ensures r1 == r2
  {
    assert r1.confidence == r2.confidence;
    assert r1.overall == r2.overall;
  }

  /** An application without pairs rates 0 with low confidence and no data sources. */
  lemma NoAnswersRateZero(r: RatingResult)
    requires IsRatingOf(Analyze([]), r)
    ensures r == RatingResult(0.0, 0, 0, None, None, None, Low, [])
  {
    assert Offers([]) == [];
    assert Analyze([]) == NoResults;
    assert Tags([]) == [];
  }

  /** A top university without any education level earns the bonus point as education
      score, yet `overall` ignores it: without experience the rating stays 0 and low. */
  lemma BonusAloneDoesNotCount(a: QaAnalysis, r: RatingResult)
    requires IsRatingOf(a, r) && HasTopInstitution(a)
    requires a.education.None? && a.experience.None?
    ensures r.educationScore == 1 && r.overall == 0.0 && r.confidence == Low
  {
  }
}
