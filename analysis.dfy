/**
 * analyzeQuestionsAndAnswers (src/lib/rating.ts): one pass over the application's
 * question-and-answer pairs that routes each answer, by the words of its question, to
 * the education, institution and experience extractors and records which of them
 * contributed.
 *
 * `Analyze` is the pass as a left fold of `Apply` over the pairs' offers; the method
 * `AnalyzeQuestionsAndAnswers` is the loop itself, proved to compute the fold; the
 * lemmas below say what the fold amounts to, field by field, without the fold.
 */
module Analysis {
  import opened Wrappers
  import opened Text
  import opened Education
  import opened Institution
  import opened Experience

  /** One pair; a missing question or answer label is `None`. */
  datatype QuestionAnswer = QuestionAnswer(question: Option<string>, answer: Option<string>)

  /** The `results` record the pass builds. */
  datatype QaAnalysis = QaAnalysis(
    education: Option<EducationLevel>,
    institution: Option<InstitutionMatch>,
    experience: Option<int>,
    fieldsUsed: seq<Field>)

  /** The three entries `fieldsUsed` can receive; `Tag` gives the string pushed. */
  datatype Field = EducationField | InstitutionField | ExperienceField

  function Tag(f: Field): (r: string)
    ensures |r| > 20 && r[..20] == "questionsAndAnswers:"
  {
    match f
    case EducationField => "questionsAndAnswers:education"
    case InstitutionField => "questionsAndAnswers:institution"
    case ExperienceField => "questionsAndAnswers:experience"
  }

  /** Different entries push different strings. */
  lemma TagInjective(f: Field, g: Field)
    ensures Tag(f) == Tag(g) <==> f == g
  {
    if f != g {
      assert Tag(f)[20] != Tag(g)[20] || Tag(f)[21] != Tag(g)[21];
    }
  }

  const EducationWords: seq<string> := ["education", "qualification", "degree", "study", "level"]
  const InstitutionWords: seq<string> := ["university", "college", "institution", "school", "where", "which"]
  const ExperienceWords: seq<string> := ["experience", "years", "work history", "background"]

  /** The results before the first pair: nothing found, nothing used. */
  const NoResults := QaAnalysis(None, None, None, [])

  /** The question's label in lower case, or the empty string when it is missing. */
  function QuestionText(qa: QuestionAnswer): string {
    match qa.question
    case Some(text) => Lower(text)
    case None => ""
  }

  /** The answer's label, or the empty string when it is missing. */
  function AnswerText(qa: QuestionAnswer): string {
    match qa.answer
    case Some(text) => text
    case None => ""
  }

  predicate IsEducationQuestion(question: string) {
    ContainsAny(question, EducationWords)
  }

  predicate IsInstitutionQuestion(question: string) {
    ContainsAny(question, InstitutionWords)
  }

  predicate IsExperienceQuestion(question: string) {
    ContainsAny(question, ExperienceWords)
  }

  /** What one pair contributes to each branch of the loop body: the education level and
      the institution named in passing when the question is about education, the
      institution when it asks for one, the years when it is about experience. */
  datatype Offer = Offer(
    education: Option<EducationLevel>,
    incidental: Option<InstitutionMatch>,
    direct: Option<InstitutionMatch>,
    years: Option<int>)

  /** What a non-empty `answer` offers under `question`: each extractor's result for the
      answer when the question's words route it there. */
  function OfferFor(question: string, answer: string): Offer {
    var isEducation := IsEducationQuestion(question);
    Offer(
      if isEducation then ExtractEducationLevel(answer) else None,
      if isEducation then ExtractInstitution(answer, false) else None,
      if IsInstitutionQuestion(question) then ExtractInstitution(answer, true) else None,
      if IsExperienceQuestion(question) then ExtractYearsExperience(answer) else None)
  }

  /** The offer that changes nothing. */
  const NoOffer := Offer(None, None, None, None)

  /** The offer of pair `qa`: nothing for an empty answer. */
  function OfferOf(qa: QuestionAnswer): Offer {
    var answer := AnswerText(qa);
    if answer == [] then NoOffer else OfferFor(QuestionText(qa), answer)
  }

  /** How a pair is routed: a missing or empty answer offers nothing, and so does a
      missing question, since the empty string holds none of the words; the case of the
      question does not matter; and each extractor's result is offered only when the
      lower-cased question holds one of that branch's words, and then it is offered as the
      extractor returns it. */
  lemma OfferRouting(qa: QuestionAnswer)
    ensures qa.answer.None? || qa.answer == Some("") ==> OfferOf(qa) == NoOffer
    ensures qa.question.None? ==> OfferOf(qa) == NoOffer
    ensures qa.question.Some? ==>
      OfferOf(qa) == OfferOf(qa.(question := Some(Lower(qa.question.value))))
    ensures OfferOf(qa).education.Some? ==> (qa.answer.Some? && qa.question.Some?
      && ContainsAny(Lower(qa.question.value), EducationWords)
      && OfferOf(qa).education == ExtractEducationLevel(qa.answer.value))
    ensures OfferOf(qa).incidental.Some? ==> (qa.answer.Some? && qa.question.Some?
      && ContainsAny(Lower(qa.question.value), EducationWords)
      && OfferOf(qa).incidental == ExtractInstitution(qa.answer.value, false))
    ensures OfferOf(qa).direct.Some? ==> (qa.answer.Some? && qa.question.Some?
      && ContainsAny(Lower(qa.question.value), InstitutionWords)
      && OfferOf(qa).direct == ExtractInstitution(qa.answer.value, true))
    ensures OfferOf(qa).years.Some? ==> (qa.answer.Some? && qa.question.Some?
      && ContainsAny(Lower(qa.question.value), ExperienceWords)
      && OfferOf(qa).years == ExtractYearsExperience(qa.answer.value))
    ensures qa.answer.Some? && qa.answer.value != "" && qa.question.Some? ==>
      && (ContainsAny(Lower(qa.question.value), EducationWords) ==>
        && OfferOf(qa).education == ExtractEducationLevel(qa.answer.value)
        && OfferOf(qa).incidental == ExtractInstitution(qa.answer.value, false))
      && (ContainsAny(Lower(qa.question.value), InstitutionWords) ==>
        OfferOf(qa).direct == ExtractInstitution(qa.answer.value, true))
      && (ContainsAny(Lower(qa.question.value), ExperienceWords) ==>
        OfferOf(qa).years == ExtractYearsExperience(qa.answer.value))
  {
    EmptyHoldsNoWord(EducationWords);
    EmptyHoldsNoWord(InstitutionWords);
    EmptyHoldsNoWord(ExperienceWords);
    if qa.question.Some? {
      LowerIdempotent(qa.question.value);
    }
  }

  /** The empty string holds no non-empty word. */
  lemma EmptyHoldsNoWord(words: seq<string>)
    requires forall n :: 0 <= n < |words| ==> |words[n]| > 0
    ensures !ContainsAny("", words)
  {
  }

  /** The offers of the pairs, in order. */
  function Offers(qas: seq<QuestionAnswer>): (os: seq<Offer>)
    ensures |os| == |qas|
    decreases |qas|
  {
    if qas == [] then [] else Offers(qas[..|qas| - 1]) + [OfferOf(qas[|qas| - 1])]
  }

  /** Each entry is in `fieldsUsed` exactly when its field holds a value. */
  predicate TagsAgree(results: QaAnalysis) {
    && (EducationField in results.fieldsUsed <==> results.education.Some?)
    && (InstitutionField in results.fieldsUsed <==> results.institution.Some?)
    && (ExperienceField in results.fieldsUsed <==> results.experience.Some?)
  }

  /** The education branch keeps the `offered` level only when none is kept yet or it
      scores strictly higher than the `current` one. */
  predicate Improves(current: Option<EducationLevel>, offered: Option<EducationLevel>) {
    offered.Some? && (current.None? || offered.value.score > current.value.score)
  }

  /** `fieldsUsed.push(f)` when `b` holds: `f` is then used, and nothing else changes. */
  function PushIf(fields: seq<Field>, b: bool, f: Field): (r: seq<Field>)
    ensures fields <= r && |r| == |fields| + (if b then 1 else 0)
    ensures forall g :: g in r <==> g in fields || (b && g == f)
  {
    if b then fields + [f] else fields
  }

  /** The body of the loop for one pair with offer `o`: the three branches in turn, each
      on the result of the one before, so one pair can feed several fields. A direct
      institution overwrites; one named in passing fills only an empty slot; years
      overwrite. */
  function Apply(results: QaAnalysis, o: Offer): QaAnalysis {
    QaAnalysis(
      if Improves(results.education, o.education) then o.education else results.education,
      if o.direct.Some? then o.direct else if results.institution.None? then o.incidental else results.institution,
      if o.years.Some? then o.years else results.experience,
      PushIf(
        PushIf(
          PushIf(
            PushIf(results.fieldsUsed, Improves(results.education, o.education), EducationField),
            results.institution.None? && o.incidental.Some?, InstitutionField),
          o.direct.Some?, InstitutionField),
        o.years.Some?, ExperienceField))
  }

  /** The body never drops a tag, and keeps the tags in agreement with the fields. */
  lemma ApplyKeepsTags(results: QaAnalysis, o: Offer)
    requires TagsAgree(results)
    ensures TagsAgree(Apply(results, o))
  {
  }

  /** The results after the offers `os`, one after the other. */
  function Fold(os: seq<Offer>): QaAnalysis
    decreases |os|
  {
    if os == [] then NoResults else Apply(Fold(os[..|os| - 1]), os[|os| - 1])
  }

  /** `analyzeQuestionsAndAnswers`: the results after every pair's offer. */
  function Analyze(qas: seq<QuestionAnswer>): QaAnalysis {
    Fold(Offers(qas))
  }

  /** The loop of analyzeQuestionsAndAnswers: `results` is updated pair by pair, and an
      empty answer skips the rest of the body. */
  method AnalyzeQuestionsAndAnswers(qas: seq<QuestionAnswer>) returns (results: QaAnalysis)
    ensures results == Analyze(qas)
    ensures TagsAgree(results)
  {
    results := NoResults;
    for i := 0 to |qas|
      invariant results == Fold(Offers(qas[..i]))
    {
      assert qas[..i + 1][..i] == qas[..i];
      FoldAppend(Offers(qas[..i]), OfferOf(qas[i]));
      var question := QuestionText(qas[i]);
      var answer := AnswerText(qas[i]);
      if answer == [] {
        continue;
      }
      results := AnalyzeAnswer(results, question, answer);
    }
    assert qas[..|qas|] == qas;
    FoldTagsAgree(Offers(qas));
  }

  /** The body of the loop for a non-empty answer: the education, institution and
      experience branches in turn, each updating `results` in place. */
  method AnalyzeAnswer(results: QaAnalysis, question: string, answer: string) returns (r: QaAnalysis)
    ensures r == Apply(results, OfferFor(question, answer))
  {
    ghost var o := OfferFor(question, answer);
    r := results;
    if IsEducationQuestion(question) {
      var edu := ExtractEducationLevel(answer);
      if edu.Some? && (r.education.None? || edu.value.score > r.education.value.score) {
        r := r.(education := edu, fieldsUsed := r.fieldsUsed + [EducationField]);
      }
      if r.institution.None? {
        var inst := ExtractInstitution(answer, false);
        if inst.Some? {
          r := r.(institution := inst, fieldsUsed := r.fieldsUsed + [InstitutionField]);
        }
      }
    }
    assert r == results.(
      education := if Improves(results.education, o.education) then o.education else results.education,
      institution := if results.institution.None? then o.incidental else results.institution,
      fieldsUsed := PushIf(
        PushIf(results.fieldsUsed, Improves(results.education, o.education), EducationField),
        results.institution.None? && o.incidental.Some?, InstitutionField));
    ghost var afterEducation := r;
    if IsInstitutionQuestion(question) {
      var inst := ExtractInstitution(answer, true);
      if inst.Some? {
        r := r.(institution := inst, fieldsUsed := r.fieldsUsed + [InstitutionField]);
      }
    }
    assert r == afterEducation.(
      institution := if o.direct.Some? then o.direct else afterEducation.institution,
      fieldsUsed := PushIf(afterEducation.fieldsUsed, o.direct.Some?, InstitutionField));
    ghost var afterInstitution := r;
    if IsExperienceQuestion(question) {
      var years := ExtractYearsExperience(answer);
      if years.Some? {
        r := r.(experience := years, fieldsUsed := r.fieldsUsed + [ExperienceField]);
      }
    }
    assert r == afterInstitution.(
      experience := if o.years.Some? then o.years else afterInstitution.experience,
      fieldsUsed := PushIf(afterInstitution.fieldsUsed, o.years.Some?, ExperienceField));
  }

  /** Folding one more offer applies it to the results so far. */
  lemma FoldAppend(os: seq<Offer>, o: Offer)
    ensures Fold(os + [o]) == Apply(Fold(os), o)
  {
    assert (os + [o])[..|os|] == os;
  }

  /** The offer at position `i` is the offer of pair `i`. */
  lemma {:induction false} OffersAt(qas: seq<QuestionAnswer>, i: int)
    requires 0 <= i < |qas|
    ensures Offers(qas)[i] == OfferOf(qas[i])
    decreases |qas|
  {
    if i < |qas| - 1 {
      OffersAt(qas[..|qas| - 1], i);
    }
  }

  /** `fieldsUsed` only ever holds the three tags, and holds each exactly when its field
      was filled. */
  lemma {:induction false} FoldTagsAgree(os: seq<Offer>)
    ensures TagsAgree(Fold(os))
    decreases |os|
  {
    if os != [] {
      FoldTagsAgree(os[..|os| - 1]);
      ApplyKeepsTags(Fold(os[..|os| - 1]), os[|os| - 1]);
    }
  }

  /** Offer `i` holds the best education level of `os`: no offer scores higher and every
      earlier one scores strictly lower. */
  predicate IsBestEducation(os: seq<Offer>, i: int) {
    && 0 <= i < |os| && os[i].education.Some?
    && (forall j :: 0 <= j < |os| && os[j].education.Some? ==> os[j].education.value.score <= os[i].education.value.score)
    && (forall j :: 0 <= j < i && os[j].education.Some? ==> os[j].education.value.score < os[i].education.value.score)
  }

  /** The fields of the results after one more offer, field by field. */
  lemma FoldStep(os: seq<Offer>)
    requires os != []
    ensures var before := Fold(os[..|os| - 1]); var o := os[|os| - 1];
      && Fold(os).education == (if Improves(before.education, o.education) then o.education else before.education)
      && Fold(os).institution == (if o.direct.Some? then o.direct
           else if before.institution.None? then o.incidental else before.institution)
      && Fold(os).experience == (if o.years.Some? then o.years else before.experience)
  {
  }

  /** The education kept is the highest-scoring level offered, the earliest of them on a
      tie, and there is none only when no level was offered. */
  lemma {:induction false} EducationIsBestOffered(os: seq<Offer>)
    ensures Fold(os).education.None? <==> forall i :: 0 <= i < |os| ==> os[i].education.None?
    ensures Fold(os).education.Some? ==> exists i :: IsBestEducation(os, i) && Fold(os).education == os[i].education
    decreases |os|
  {
    if os != [] {
      var prefix := os[..|os| - 1];
      EducationIsBestOffered(prefix);
      FoldStep(os);
      assert os == prefix + [os[|os| - 1]];
      BestEducationStep(prefix, os[|os| - 1], Fold(prefix).education, Fold(os).education);
    }
  }

  /** One step of `EducationIsBestOffered`: if `before` is the best level of `prefix`,
      the education branch on offer `o` leaves `after` the best level of `prefix + [o]`. */
  lemma BestEducationStep(prefix: seq<Offer>, o: Offer, before: Option<EducationLevel>, after: Option<EducationLevel>)
    requires before.None? <==> forall i :: 0 <= i < |prefix| ==> prefix[i].education.None?
    requires before.Some? ==> exists i :: IsBestEducation(prefix, i) && before == prefix[i].education
    requires after == if Improves(before, o.education) then o.education else before
    ensures after.None? <==> forall i :: 0 <= i < |prefix + [o]| ==> (prefix + [o])[i].education.None?
    ensures after.Some? ==> exists i :: IsBestEducation(prefix + [o], i) && after == (prefix + [o])[i].education
  {
    var os := prefix + [o];
    var n := |os|;
    assert forall j :: 0 <= j < n - 1 ==> os[j] == prefix[j];
    if Improves(before, o.education) {
      if before.Some? {
        var i :| IsBestEducation(prefix, i) && before == prefix[i].education;
        forall j | 0 <= j < n - 1 && os[j].education.Some?
          ensures os[j].education.value.score < o.education.value.score
        {
          assert prefix[j] == os[j];
        }
      }
      assert IsBestEducation(os, n - 1);
    } else if before.Some? {
      var i :| IsBestEducation(prefix, i) && before == prefix[i].education;
      forall j | 0 <= j < n && os[j].education.Some?
        ensures os[j].education.value.score <= before.value.score
      {
        if j < n - 1 {
          assert prefix[j] == os[j];
        }
      }
      assert IsBestEducation(os, i);
    }
  }

  /** The experience kept is the last one offered, and there is none only when none was
      offered. */
  lemma {:induction false} ExperienceIsLastOffered(os: seq<Offer>)
    ensures Fold(os).experience.None? <==> forall i :: 0 <= i < |os| ==> os[i].years.None?
    ensures Fold(os).experience.Some? ==>
      exists i :: 0 <= i < |os| && os[i].years == Fold(os).experience && forall j :: i < j < |os| ==> os[j].years.None?
    decreases |os|
  {
    if os != [] {
      var prefix := os[..|os| - 1];
      ExperienceIsLastOffered(prefix);
      FoldStep(os);
      assert os == prefix + [os[|os| - 1]];
      LastYearsStep(prefix, os[|os| - 1], Fold(prefix).experience, Fold(os).experience);
    }
  }

  /** One step of `ExperienceIsLastOffered`: the experience branch on offer `o` keeps the
      last years offered in `prefix + [o]`. */
  lemma LastYearsStep(prefix: seq<Offer>, o: Offer, before: Option<int>, after: Option<int>)
    requires before.None? <==> forall i :: 0 <= i < |prefix| ==> prefix[i].years.None?
    requires before.Some? ==> exists i :: (0 <= i < |prefix| && prefix[i].years == before
      && forall j :: i < j < |prefix| ==> prefix[j].years.None?)
    requires after == if o.years.Some? then o.years else before
    ensures after.None? <==> forall i :: 0 <= i < |prefix + [o]| ==> (prefix + [o])[i].years.None?
    ensures after.Some? ==> exists i :: (0 <= i < |prefix + [o]| && (prefix + [o])[i].years == after
      && forall j :: i < j < |prefix + [o]| ==> (prefix + [o])[j].years.None?)
  {
    var os := prefix + [o];
    assert forall j :: 0 <= j < |prefix| ==> os[j] == prefix[j];
    if o.years.None? && before.Some? {
      var i :| 0 <= i < |prefix| && prefix[i].years == before
        && forall j :: i < j < |prefix| ==> prefix[j].years.None?;
      assert os[i].years == after;
    } else if o.years.Some? {
      assert os[|prefix|].years == after;
    }
  }

  /** Once an institution question has been answered with an institution (offer `k`),
      the one kept is the last such answer's: later education answers never replace it. */
  lemma {:induction false} DirectInstitutionWins(os: seq<Offer>, k: int)
    requires 0 <= k < |os| && os[k].direct.Some?
    ensures exists i :: (k <= i < |os| && os[i].direct.Some? && Fold(os).institution == os[i].direct
      && forall j :: i < j < |os| ==> os[j].direct.None?)
    decreases |os|
  {
    var n := |os|;
    var prefix := os[..n - 1];
    FoldStep(os);
    if os[n - 1].direct.None? {
      assert k < n - 1 && prefix[k] == os[k];
      DirectInstitutionWins(prefix, k);
      var i :| k <= i < n - 1 && prefix[i].direct.Some? && Fold(prefix).institution == prefix[i].direct
        && forall j :: i < j < n - 1 ==> prefix[j].direct.None?;
      assert os == prefix + [os[n - 1]];
      LastDirectStep(prefix, os[n - 1], i, Fold(os).institution);
    }
  }

  /** One step of `DirectInstitutionWins`: an offer `o` without a direct answer keeps
      the last direct answer of `prefix`. */
  lemma LastDirectStep(prefix: seq<Offer>, o: Offer, i: int, after: Option<InstitutionMatch>)
    requires 0 <= i < |prefix| && o.direct.None?
    requires prefix[i].direct.Some? && after == prefix[i].direct
    requires forall j :: i < j < |prefix| ==> prefix[j].direct.None?
    ensures (prefix + [o])[i].direct.Some? && after == (prefix + [o])[i].direct
    ensures forall j :: i < j < |prefix + [o]| ==> (prefix + [o])[j].direct.None?
  {
    assert forall j :: 0 <= j < |prefix| ==> (prefix + [o])[j] == prefix[j];
  }

  /** Without any institution question answered with an institution, the institution
      kept is the first one an education answer named in passing, if any. */
  lemma {:induction false} IncidentalInstitutionIsFirst(os: seq<Offer>)
    requires forall i :: 0 <= i < |os| ==> os[i].direct.None?
    ensures Fold(os).institution.None? <==> forall i :: 0 <= i < |os| ==> os[i].incidental.None?
    ensures Fold(os).institution.Some? ==>
      exists i :: 0 <= i < |os| && Fold(os).institution == os[i].incidental && forall j :: 0 <= j < i ==> os[j].incidental.None?
    decreases |os|
  {
    if os != [] {
      var n := |os|;
      var prefix := os[..n - 1];
      assert forall j :: 0 <= j < n - 1 ==> prefix[j] == os[j];
      IncidentalInstitutionIsFirst(prefix);
      FoldStep(os);
      if Fold(prefix).institution.Some? {
        var i :| 0 <= i < n - 1 && Fold(prefix).institution == prefix[i].incidental
          && forall j :: 0 <= j < i ==> prefix[j].incidental.None?;
        assert Fold(os).institution == os[i].incidental;
      }
    }
  }

  /** Every value an offer carries is one the extractors can return: a scored, named
      level, a named institution, a non-negative number of years. */
  predicate SoundOffer(o: Offer) {
    && (o.education.Some? ==> 2 <= o.education.value.score <= 10 && o.education.value.level != "")
    && (o.incidental.Some? ==> o.incidental.value.name != "")
    && (o.direct.Some? ==> o.direct.value.name != "")
    && (o.years.Some? ==> o.years.value >= 0)
  }

  /** The same for the results of the pass. */
  predicate SoundResults(results: QaAnalysis) {
    && (results.education.Some? ==> 2 <= results.education.value.score <= 10 && results.education.value.level != "")
    && (results.institution.Some? ==> results.institution.value.name != "")
    && (results.experience.Some? ==> results.experience.value >= 0)
  }

  lemma {:induction false} OffersAreSound(qas: seq<QuestionAnswer>)
    ensures forall i :: 0 <= i < |qas| ==> SoundOffer(Offers(qas)[i])
    decreases |qas|
  {
    if qas != [] {
      OffersAreSound(qas[..|qas| - 1]);
    }
  }

  /** The pass only ever records values the extractors returned. */
  lemma {:induction false} FoldIsSound(os: seq<Offer>)
    requires forall i :: 0 <= i < |os| ==> SoundOffer(os[i])
    ensures SoundResults(Fold(os))
    decreases |os|
  {
    if os != [] {
      FoldIsSound(os[..|os| - 1]);
      assert SoundOffer(os[|os| - 1]);
    }
  }

  lemma AnalyzeIsSound(qas: seq<QuestionAnswer>)
    ensures SoundResults(Analyze(qas))
  {
    OffersAreSound(qas);
    FoldIsSound(Offers(qas));
  }
}
