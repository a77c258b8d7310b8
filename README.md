# Candidate rating engine, in Dafny

This project models the candidate-rating engine of an HR dashboard that sits on top of
BambooHR (`src/lib/rating.ts`). The engine reads an applicant's question-and-answer
pairs and builds a rating from them:

- It routes each answer, by the words of its question, to three extractors:
  - the education level, from an ordered keyword table;
  - the institution, from a list of the top five South African accounting
    universities, the answer itself, or a regular expression;
  - the years of experience, from a run of digits or four regular expressions.
- It keeps one value per category, records which categories contributed, and combines
  them into a rating:
  - an education score with a one-point bonus for a top university;
  - a stepped experience score;
  - an overall score, a confidence level, and the list of data sources.

Modules, in dependency order:

| module | file | what it holds |
|---|---|---|
| `Wrappers` | `wrappers.dfy` | `Option`, for JavaScript's `null` |
| `Text` | `text.dfy` | the string primitives: lower-casing, `trim`, `includes`, `parseInt`, digit runs |
| `Patterns` | `patterns.dfy` | the five regular expressions, as leftmost-first matchers |
| `Education` | `education.dfy` | `EDUCATION_LEVELS` and `extractEducationLevel` |
| `Experience` | `experience.dfy` | `scoreExperience`, `wordToNum` and `extractYearsExperience` |
| `Institution` | `institution.dfy` | `TOP_SA_ACCOUNTING_UNIVERSITIES` and `extractInstitution` |
| `Analysis` | `analysis.dfy` | `analyzeQuestionsAndAnswers`: the loop, and the fold that specifies it |
| `Rating` | `rating.dfy` | `RatingResult` and `calculateRating` |

How the model is built:

- **Extractors.** The three extractors, `scoreExperience` and the string primitives are
  pure functions.
- **Regular expressions.** Each one is a function that tries the expression at one
  position. `Patterns.Search` takes the leftmost position where it matches, which is
  what `String.prototype.match` returns for a non-global expression. The `i` flag is
  modelled by matching against the lower-cased text. A capture is then cut from the
  original text at the same positions.
- **The pass over the pairs.**
  - `analyzeQuestionsAndAnswers` updates a `results` record pair by pair. It is the
    method `Analysis.AnalyzeQuestionsAndAnswers`, a loop over the pairs.
  - The method is proved equal to `Analysis.Analyze`, a left fold.
  - The fold first turns each pair into an `Offer`: what each of the three branches of
    the loop body would extract from the pair's answer. Each offer is then applied to
    the results so far.
  - Lemmas describe the fold's result field by field, without the fold.
- **The rating.** `calculateRating` reassigns its locals. It is the method
  `Rating.CalculateRating`, and its postcondition is the predicate `Rating.IsRatingOf`.
  That predicate states every field of the result in terms of the pass's results, and
  `Rating.RatingIsDetermined` shows it leaves no freedom.
- **`fieldsUsed`.** Its entries are a three-valued datatype, `Analysis.Field`. The
  strings the source pushes (`questionsAndAnswers:education` and so on) are
  `Analysis.Tag` of them. `dataSource` holds those strings, each once, in the order of
  first occurrence.
- **Numbers.** Numbers are `int`, except `overall`, which is a `real`. The rounding to
  one decimal is modelled as `floor(10 v + 0.5) / 10`. `Rating.RoundingKeepsHalves`
  shows the rounding never changes the average of two integer scores.

Behaviour of the code worth knowing:

- A range answer such as "5-7 years" reads as 7, not as its lower bound 5. The first
  expression finds "7 years" before the range expression is tried, and
  `Patterns.RangeImpliesYearsWithUnit` shows that the range expression never gets a
  turn.
- The institution bonus is one point, and only for the five listed universities. Other
  institutions earn nothing, and there is no wider "prestigious" list.
- There is no fallback to resume text, so `dataSource` only ever holds the three
  `questionsAndAnswers:` tags.
- Education scores are 2 to 10 and are not clamped further. The education score is
  capped at 10 only when the bonus is added.

## Model

| member | source | states |
|---|---|---|
| Text.Lower | src/lib/rating.ts:40 | lower-casing keeps the length and maps every character by ASCII `toLowerCase` |
| Text.Trim | src/lib/rating.ts:54 | the result has no white space at either end and is what is left of the text after dropping only white space at both ends |
| Text.LowerTrim | src/lib/rating.ts:54 | trimming and lower-casing commute and keep the same length, so the lower-cased trimmed text and the trimmed original (line 69) line up |
| Text.ContainsIff | src/lib/rating.ts:44 | `includes` holds exactly when the keyword occurs at some position of the text |
| Text.Leftmost | src/lib/rating.ts:60-66 | a loop that returns at its first hit gives the first position, in order, where its test holds; none exactly when the test holds nowhere |
| Text.FirstGroupContained | src/lib/rating.ts:42-48 | the nested loops over a keyword table return the first group, in table order, with a keyword inside the text; none exactly when no group has one |
| Text.ParseInt | src/lib/rating.ts:108-110 | `parseInt(s, 10)` of an all-digit string is its decimal value; a string that starts with a digit always parses to a value of at least zero |
| Patterns.Search | src/lib/rating.ts:102 | `match` finds a match exactly when the expression matches at some position, and returns the one at the leftmost such position |
| Patterns.PatternAt | src/lib/rating.ts:88-93 | a match of a numeric expression captures digits only, and one of the word expression captures one of the fourteen number words |
| Patterns.InstitutionNameAt | src/lib/rating.ts:72 | a match of the institution expression holds a character that is not white space and one of its nouns |
| Patterns.RangeImpliesYearsWithUnit | src/lib/rating.ts:89-90 | wherever the range expression matches, the first expression matches too, so the range expression is never the one that answers |
| Patterns.DigitGivesBareNumber | src/lib/rating.ts:92 | any digit in the text gives the last expression a match |
| Patterns.NounAfterWordMatches | src/lib/rating.ts:72 | the institution expression matches wherever a final noun follows a word or space character |
| Education.TableScores | src/lib/rating.ts:5-15 | the table has nine tiers, scores fall by one from 10 down to 2 in table order, and every tier is named |
| Education.ExtractEducationLevel | src/lib/rating.ts:39-50 | the result is the label and score of the first tier with a keyword inside the lower-cased text; none exactly when no tier matches; a result scores 2 to 10 and is named |
| Education.HighestMatchingTierWins | src/lib/rating.ts:4-15 | because table order is score order, the result scores at least as much as every tier that matches |
| Education.PhdScoresTen | src/lib/rating.ts:6 | any text that holds "phd", in any case, is a doctorate scoring 10 |
| Education.DiplomaOrMatricReadsAsMasters | src/lib/rating.ts:8 | the keyword "ma" fires inside "diploma" and "matric", so without a doctorate or professional keyword such text reads as Masters (8) |
| Experience.ScoreExperience | src/lib/rating.ts:27-36 | the score is between 1 and 10, is 1 below one year, and is 10 exactly from fifteen years on |
| Experience.ScoreExperienceMonotone | src/lib/rating.ts:27-36 | more years never score less |
| Experience.NumberWordsHaveValues | src/lib/rating.ts:95-99 | every word the word expression can capture has a non-zero entry in `wordToNum` |
| Experience.Capture | src/lib/rating.ts:102-104 | group 1 of `match` is present exactly when the expression matches somewhere in the text, ignoring case, and is never empty |
| Experience.CaptureValue | src/lib/rating.ts:104-111 | a captured run of digits reads as its decimal value, and a captured number word, in any case, as its `wordToNum` entry |
| Experience.FirstValue | src/lib/rating.ts:101-113 | the pattern loop gives nothing exactly when no capture converts, and otherwise the value of the first capture, in pattern order, that converts |
| Experience.ExtractYearsExperience | src/lib/rating.ts:81-116 | an answer that is all digits after trimming reads as its decimal value; any digit gives a value; values are never negative; without digits there is a value exactly when a number word occurs, and it is that word's entry |
| Experience.WordsWithoutDigits | src/lib/rating.ts:88-113 | without digits the three numeric expressions capture nothing, so the loop reads the word expression's capture; it captures exactly when a number word occurs, and reads as that word's entry |
| Experience.EarliestCaptureDecides | src/lib/rating.ts:84-113 | when the trimmed answer is not all digits, the first expression in loop order that captures anything decides the answer: it reads as that capture's value, and no later expression is tried |
| Experience.RangeAnswerReadsItsUpperBound | src/lib/rating.ts:88-93 | "5-7 years" reads as 7 |
| Experience.SingleNumberWordIsRead | src/lib/rating.ts:91 | without digits, an answer that spells out exactly one number word reads as that word's value |
| Institution.FirstUniversity | src/lib/rating.ts:60-66 | the result is the first university in list order with a trimmed alias inside the text; none exactly when no university has one |
| Institution.NamedInstitution | src/lib/rating.ts:72-77 | the institution expression gives a result exactly when it matches somewhere; the result is not a top university, its name is not blank, and the text holds one of the expression's nouns |
| Institution.ExtractInstitution | src/lib/rating.ts:53-78 | text shorter than two characters after trimming gives nothing; the result is a top university exactly when an alias matches, under that university's name; otherwise a direct question gives the trimmed answer, and other answers give the expression's match; names are never blank |
| Institution.NounAfterWordIsNamed | src/lib/rating.ts:72-75 | with no top university in it, an answer to an education question names an institution wherever a final noun follows a word or space character |
| Institution.CanonicalNamesAreNotBlank | src/lib/rating.ts:18-24 | every university's canonical name is non-empty |
| Institution.PaddedAliasesAreTrimmed | src/lib/rating.ts:20-23 | the padded aliases "us ", " up " and " uj " are looked for without their padding |
| Institution.FirstUniversityDecides | src/lib/rating.ts:54-64 | for either kind of question, the first university that the trimmed, lower-cased answer names is the result, under its canonical name |
| Institution.BareUsNamesStellenbosch | src/lib/rating.ts:60-63 | any text holding "us" (as in "business" or "campus") and no Cape Town alias names Stellenbosch University as a top university |
| Analysis.Tag | src/lib/rating.ts:139 | every tag starts with "questionsAndAnswers:" |
| Analysis.TagInjective | src/lib/rating.ts:139-168 | the three fields push three different strings |
| Analysis.OfferRouting | src/lib/rating.ts:127-164 | a missing or empty answer offers nothing, and so does a missing question; the case of the question does not matter; each extractor's result is offered exactly when the answer is non-empty and the lower-cased question holds one of that branch's words, and then as the extractor returns it |
| Analysis.PushIf | src/lib/rating.ts:139 | a conditional push extends the list by one entry exactly when its condition holds, and adds nothing else |
| Analysis.OffersAt | src/lib/rating.ts:127-131 | the offer at each position is the offer of the pair at that position |
| Analysis.AnalyzeQuestionsAndAnswers | src/lib/rating.ts:119-174 | the loop computes the fold of the pairs' offers, and its `fieldsUsed` holds each tag exactly when that field was filled |
| Analysis.AnalyzeAnswer | src/lib/rating.ts:133-170 | one pass of the loop body applies the pair's offer: the education, institution and experience branches in turn |
| Analysis.ApplyKeepsTags | src/lib/rating.ts:137-169 | one pass of the loop body keeps each tag present exactly when its field is filled |
| Analysis.FoldAppend | src/lib/rating.ts:127 | one more pair applies its offer to the results so far |
| Analysis.FoldTagsAgree | src/lib/rating.ts:119-174 | after any number of pairs, each tag is present exactly when its field is filled |
| Analysis.EducationIsBestOffered | src/lib/rating.ts:136-140 | the education kept is the highest-scoring level offered, the earliest one on a tie; there is none exactly when no level was offered |
| Analysis.ExperienceIsLastOffered | src/lib/rating.ts:163-170 | the experience kept is the last one offered; there is none exactly when none was offered |
| Analysis.DirectInstitutionWins | src/lib/rating.ts:142-160 | once an institution question has been answered with an institution, the one kept is from the last such answer, and education answers never replace it |
| Analysis.IncidentalInstitutionIsFirst | src/lib/rating.ts:142-148 | without such answers, the institution kept is the first one an education answer named in passing; there is none exactly when none was named |
| Analysis.OffersAreSound | src/lib/rating.ts:127-170 | every offer holds only what the extractors can return: levels scoring 2 to 10 with a name, non-blank institution names, years of at least zero |
| Analysis.FoldIsSound | src/lib/rating.ts:127-170 | the results only ever hold such values |
| Analysis.AnalyzeIsSound | src/lib/rating.ts:119-174 | the results of the pass only ever hold such values |
| Rating.Min | src/lib/rating.ts:196 | the minimum is one of the two numbers and no greater than either |
| Rating.RoundToTenth | src/lib/rating.ts:211 | the result is a whole number of tenths and the nearest one to its argument, the upper one on a tie |
| Rating.RoundingKeepsHalves | src/lib/rating.ts:211 | rounding to one decimal leaves the average of two integer scores unchanged |
| Rating.FirstIndex | src/lib/rating.ts:229 | the first position of an element is where it occurs, with no earlier occurrence |
| Rating.FirstIndexInPrefix | src/lib/rating.ts:229 | an element of a prefix first occurs where it first occurs in the prefix |
| Rating.Dedup | src/lib/rating.ts:229 | the set-spread holds the same elements, each once, in the order of their first occurrence |
| Rating.Tags | src/lib/rating.ts:229 | the strings of `fieldsUsed` are the tags of its entries, position by position |
| Rating.TagsOfFields | src/lib/rating.ts:229 | a tag is among the strings exactly when its field is among the entries, and nothing else is |
| Rating.DataSourceMatchesFields | src/lib/rating.ts:229 | the data sources hold each tag exactly when its field was filled, and nothing but tags |
| Rating.CalculateRating | src/lib/rating.ts:188-231 | the rating of the pass's results, as `IsRatingOf` states it field by field: the education score is the level's score plus a one-point bonus for a top university, capped at 10, and 1 from the bonus alone; the experience score is the stepped score and 0 exactly when no years were found; confidence is high with both, low with neither and medium with one; `overall` is their average, the one found, or 0; labels are null exactly when their field is; the data sources are the tags used, each once |
| Rating.RateAnalysis | src/lib/rating.ts:192-230 | the scoring part, on any sound results whose tags agree with their fields, meets `IsRatingOf` |
| Rating.RatingIsDetermined | src/lib/rating.ts:188-231 | two ratings of the same results are equal |
| Rating.NoAnswersRateZero | src/lib/rating.ts:188-231 | an empty list of pairs rates 0 with low confidence, no labels and no data sources |
| Rating.BonusAloneDoesNotCount | src/lib/rating.ts:195-219 | a top university with no level and no experience gives an education score of 1, yet an overall score of 0 with low confidence |

## Left out

- Strings are ASCII. Unicode lower-casing, Unicode white space for `trim` and `\s`, and
  the surrogate-pair view of JavaScript strings are not modelled.
- Rating.CalculateRating: does not model the `questionsAndAnswers || []` guard on line
  189. The input is always a list here, so a `null` argument has no counterpart.
- A pair's `{ label }` wrappers collapse into an optional label. A wrapper without a
  label and a missing wrapper are both `None`.
- Experience.CaptureValue: looks a captured word up only among the fourteen number
  words. A capture can never be anything else, so inherited object keys such as
  `constructor` cannot arise.
- Text.ParseInt: values are unbounded integers. Above 2^53 JavaScript's `parseInt` loses
  precision and the model does not.
- Rating.RoundToTenth: works on exact reals, not binary doubles. Every value it receives
  is a half-integer, where both agree.
- The other files of the repository are not part of this model: the API routes, the
  BambooHR client, the React pages, the shared types and an older copy of the rating
  logic inside a route handler. They are HTTP pass-through and presentation code.
- The mutation of the `results` object in place is modelled by reassigning a record
  value. Nothing else holds a reference to it while the loop runs, so no aliasing is
  lost.
