/**
 * Education-level extraction: an ordered table of keyword tiers, searched tier by
 * tier, keyword by keyword, for a substring of the lower-cased answer
 * (src/lib/rating.ts, EDUCATION_LEVELS and extractEducationLevel).
 */
module Education {
  import opened Wrappers
  import opened Text

  /** One row of the table: any of `keywords` earns `score` under the name `level`. */
  datatype EducationTier = EducationTier(keywords: seq<string>, score: int, level: string)

  /** The `{ level, score }` the extractor returns. */
  datatype EducationLevel = EducationLevel(level: string, score: int)

  /** The table, most specific credential first. */
  const EducationLevels: seq<EducationTier> := [
    EducationTier(["phd", "ph.d", "doctorate", "doctoral", "doctor of"], 10, "PhD/Doctorate"),
    EducationTier(["ca(sa)", "ca (sa)", "chartered accountant", "cpa", "c.p.a", "acca"], 9,
      "Professional (CA/CPA)"),
    EducationTier(["master", "masters", "mba", "m.b.a", "msc", "m.sc", "mcom", "m.com", "ma", "m.a"], 8,
      "Masters"),
    EducationTier(["honour", "honors", "hons", "b.com hons", "bcom hons", "postgraduate diploma", "pgdip"], 7,
      "Honours/Postgrad Diploma"),
    EducationTier(["bachelor", "bachelors", "bcom", "b.com", "bsc", "b.sc", "ba", "b.a", "bba", "b.b.a",
      "llb", "l.l.b", "btech", "b.tech", "degree", "undergraduate"], 6, "Bachelors Degree"),
    EducationTier(["associate", "associates"], 5, "Associates"),
    EducationTier(["national diploma", "n.dip", "ndip", "diploma"], 4, "Diploma"),
    EducationTier(["certificate", "cert", "certification"], 3, "Certificate"),
    EducationTier(["matric", "matriculation", "high school", "secondary", "ged", "grade 12", "nsc",
      "national senior certificate"], 2, "Matric/High School")
  ]

  /** The keyword lists of the table, in table order. */
  function TierKeywords(tiers: seq<EducationTier>): (r: seq<seq<string>>)
    ensures |r| == |tiers| && forall t :: 0 <= t < |tiers| ==> r[t] == tiers[t].keywords
  {
    seq(|tiers|, t requires 0 <= t < |tiers| => tiers[t].keywords)
  }

  /** Tier `t` has a keyword that the lower-cased text includes. */
  predicate TierMatches(lowerText: string, t: int)
    requires 0 <= t < |EducationLevels|
  {
    ContainsAny(lowerText, EducationLevels[t].keywords)
  }

  /** Scores fall by one from row to row, from 10 down to 2, and every row is named. */
  lemma TableScores()
    ensures |EducationLevels| == 9
    ensures forall t :: 0 <= t < |EducationLevels| ==> EducationLevels[t].score == 10 - t
    ensures forall t :: 0 <= t < |EducationLevels| ==> |EducationLevels[t].level| > 0
  {
  }

  /** extractEducationLevel: the label and score of the first tier, in table order, with
      a keyword inside the lower-cased text. */
  function ExtractEducationLevel(text: string): (r: Option<EducationLevel>)
    ensures r.None? <==> forall t :: 0 <= t < |EducationLevels| ==> !TierMatches(Lower(text), t)
    ensures r.Some? ==> exists t :: (0 <= t < |EducationLevels| && TierMatches(Lower(text), t)
      && (forall u :: 0 <= u < t ==> !TierMatches(Lower(text), u))
      && r.value == EducationLevel(EducationLevels[t].level, EducationLevels[t].score))
    ensures r.Some? ==> 2 <= r.value.score <= 10 && r.value.level != ""
  {
    var lowerText := Lower(text);
    match FirstGroupContained(lowerText, TierKeywords(EducationLevels))
    case None => None
    case Some(t) =>
      TableScores();
      assert TierMatches(lowerText, t);
      Some(EducationLevel(EducationLevels[t].level, EducationLevels[t].score))
  }

  /** Table order is score order, so the extractor returns the highest score among all
      tiers that match, whatever their keywords' positions in the text. */
  lemma {:induction false} HighestMatchingTierWins(text: string, t: int)
    requires 0 <= t < |EducationLevels| && TierMatches(Lower(text), t)
    ensures ExtractEducationLevel(text).Some?
    ensures ExtractEducationLevel(text).value.score >= EducationLevels[t].score
  {
    TableScores();
    var r := ExtractEducationLevel(text);
    var t0 :| 0 <= t0 < |EducationLevels| && TierMatches(Lower(text), t0)
      && (forall u :: 0 <= u < t0 ==> !TierMatches(Lower(text), u))
      && r.value == EducationLevel(EducationLevels[t0].level, EducationLevels[t0].score);
    assert t0 <= t;
  }

  /** Any text that includes "phd", in any case, is a doctorate. */
  lemma PhdScoresTen(text: string)
    requires Contains(Lower(text), "phd")
    ensures ExtractEducationLevel(text) == Some(EducationLevel("PhD/Doctorate", 10))
  {
    assert EducationLevels[0].keywords[0] == "phd";
    assert TierMatches(Lower(text), 0);
  }

  /** Substring matching lets "ma" (a Masters keyword) fire inside "diploma" and "matric":
      unless a doctorate or professional keyword is present, such text reads as Masters. */
  lemma DiplomaOrMatricReadsAsMasters(text: string)
    requires Contains(Lower(text), "diploma") || Contains(Lower(text), "matric")
    requires !TierMatches(Lower(text), 0) && !TierMatches(Lower(text), 1)
    ensures ExtractEducationLevel(text) == Some(EducationLevel("Masters", 8))
  {
    var lowerText := Lower(text);
    if Contains(lowerText, "diploma") {
      ContainsAt("diploma", "ma", 5);
      ContainsTransitive(lowerText, "diploma", "ma");
    } else {
      ContainsAt("matric", "ma", 0);
      ContainsTransitive(lowerText, "matric", "ma");
    }
    assert EducationLevels[2].keywords[8] == "ma";
    assert TierMatches(lowerText, 2);
    TableScores();
  }
}
