# Member-to-job recommendation: a verified model of the scoring pipeline

This project is a Dafny model of the scoring core of a small TypeScript service. The service matches community members to job postings by comparing the words of each member's bio with each job's title and location. The model covers the file `src/data-processing.ts`:

- **bio normalisation**: remove punctuation and digits, lowercase, split on single spaces, drop stop words;
- **job normalisation**: a lowercase copy of each job;
- **neighbour-context classifier**: a location mention is worth a positive, negative or neutral score, depending on the nearest context word among the up to `K` tokens before it;
- **per-member scorer**: a nested token × job loop. It keeps one running total per job and the best total seen so far;
- **driver**: scores every member against the normalised catalogue and attaches the original job.

Modules, one per component:

| file | module | models |
|---|---|---|
| `domain.dfy` | `Domain` | `Job`, `Member`, the constant tables (`Config`), the three location scores, the scored member |
| `text.dfy` | `Text` | `removePuctuation`, `toLowerCase` |
| `words.dfy` | `Words` | `wordsFromText`, `removeStopWords` |
| `normalize.dfy` | `Normalize` | `normalizeMembersBio`, `normalizeJobs` |
| `neighbours.dfy` | `Neighbours` | `checkKNeighbours` |
| `scorer.dfy` | `Scorer` | `getJobRecomendation` |
| `engine.dfy` | `Engine` | `getAllJobRecommendations` |

Modelling decisions:

- The constants module is not part of this model. `K`, `JOB_SCORE_MULTIPLIER`, `STOP_WORDS`, `POSITVE_NEIGHBOUR` and `NEGATIVE_NEIGHBOUR` are fields of a `Config` value that every operation receives.
- The three location scores are fixed at 1.5 (positive), -1 (negative) and 1 (neutral), the values the test suite pins (`src/test/data-processing.spec.ts:26-28`).
- Scores are exact `real`s.
- `length` is JavaScript's count of UTF-16 code units (`Text.Utf16Length`), so a character outside the Basic Multilingual Plane counts twice in the title share. `includes` is decided on code points. Dafny strings hold Unicode scalar values, and UTF-16 is self-synchronising, so that gives the same answer as a search over code units.
- The regular-expression class `\s` is modelled exactly, as the ECMAScript WhiteSpace and LineTerminator code points (`Text.IsWhitespace`).
- `toLowerCase` is modelled on ASCII letters only. On bios this is exact: after punctuation removal only `A-Za-z` and whitespace remain, and whitespace has no case mapping.
- `checkKNeighbours` takes `pos` and `k` as arbitrary integers. An index before the start or past the end of the token sequence reads JavaScript's `undefined`. No set of strings contains `undefined`, so `Neighbours.TokenAt` returns `None` there.
- Mutation of the member objects is modelled as returning new values. `getJobRecomendation` returns the fresh `jobsScore` it builds together with the chosen index. `getAllJobRecommendations` returns one `ScoredMember` per member.
- The scorer's answer has a loop-free characterisation, `Scorer.IsRecommendation`:
  - A **comparison** is the pass of token `i ≥ 1` over job `j`. Its value is job `j`'s running total over tokens `0..i`.
  - The answer is `None` when no comparison exceeds 0.
  - Otherwise it is the job of the first comparison, in loop order, that reaches the highest compared value.
  - The first token's pass only creates the slots (`push`, line 64) and never competes. So a bio with fewer than two normalised tokens never gets a recommendation. The model keeps this behaviour exactly as written.

## Model

| member | source | states |
|---|---|---|
| Text.RemovePunctuation | src/data-processing.ts:105-107 | the result holds only ASCII letters and whitespace and is no longer than the input; text that is already clean comes back unchanged, and text with nothing to keep becomes empty |
| Text.RemovePunctuationConcat | src/data-processing.ts:105-107 | removal distributes over concatenation: each character is kept or dropped on its own, and survivors keep their relative order |
| Text.RemovePunctuationCount | src/data-processing.ts:105-107 | a pure deletion: each kept character occurs exactly as often as in the input, every other character not at all |
| Text.RemovePunctuationIdempotent | src/data-processing.ts:105-107 | removing punctuation twice equals removing it once |
| Text.ToLowerCase | src/data-processing.ts:92 | same length; every uppercase ASCII letter becomes its lowercase letter (32 code points further on), no uppercase ASCII letter is left, and every other character is unchanged |
| Text.ToLowerCaseIdempotent | src/data-processing.ts:92 | lowercasing is idempotent |
| Text.LowerCommutesWithRemovePunctuation | src/data-processing.ts:92 | lowercasing and punctuation removal commute |
| Text.Utf16Length | src/data-processing.ts:55 | `length` counts UTF-16 code units: at least one and at most two per character |
| Text.Utf16LengthBmp | src/data-processing.ts:55 | for a string in the Basic Multilingual Plane, `length` is the number of characters |
| Text.Utf16LengthConcat | src/data-processing.ts:55 | the code-unit length of a concatenation is the sum of the parts' lengths |
| Text.Utf16LengthSlice | src/data-processing.ts:54-55 | a slice of a title, so any token the title `includes`, is no longer in code units than the title |
| Text.Utf16LengthAstralExample | src/data-processing.ts:55 | a title ending in two emoji has 7 code points but a `length` of 9 |
| Words.WordsFromText | src/data-processing.ts:98-100 | splitting on `' '` yields the number of spaces plus one tokens, so the result is never empty and adjacent spaces give empty tokens; no token holds a space; every character of a token comes from the text |
| Words.JoinWordsFromText | src/data-processing.ts:98-100 | joining the tokens with `" "` gives the text back |
| Words.WordsFromTextJoin | src/data-processing.ts:98-100 | splitting a join of space-free tokens gives the tokens back |
| Words.WithoutStopWords | src/data-processing.ts:112-120 | no stop word survives, every surviving token is an input token, every non-stop input token survives, the result is no longer than the input |
| Words.WithoutStopWordsConcat | src/data-processing.ts:112-120 | the filter distributes over concatenation, so the original order is kept |
| Words.WithoutStopWordsCount | src/data-processing.ts:112-120 | each non-stop word survives exactly as often as it occurs, a stop word never |
| Words.RemoveStopWords | src/data-processing.ts:112-120 | `removeStopWords`' append loop computes exactly the order-preserving stop-word filter |
| Words.RemoveStopWordsExample | src/test/data-processing.spec.ts:31-34 | `["the","London","is","are","you","us"]` becomes `["London"]` for any table holding the five function words and not `London` |
| Normalize.NormalizeBio | src/data-processing.ts:91-96 | the result is the stop-word filter of a split of the cleaned, lowercased bio: space-free tokens that, joined with single spaces, give that text back; its tokens are never stop words and consist only of lowercase ASCII letters and non-space whitespace; there are at most as many as the cleaned text has spaces plus one |
| Normalize.NormalizeBioKeepsTokens | src/data-processing.ts:91-96 | for any split of the cleaned text into space-free tokens, the normalised bio is exactly its stop-word filter: every non-stop token survives as often as it occurs and in order, no stop word survives |
| Normalize.NormalizeMembersBio | src/data-processing.ts:91-96 | with `removeStopWords`' loop, the routine returns the stop-word filter of a space split whose join is the cleaned, lowercased bio |
| Normalize.NormalizeJob | src/data-processing.ts:82-85 | the copy's title and location are the lowercase forms of the original's, are their own lowercase form, and have the original lengths |
| Normalize.NormalizeJobs | src/data-processing.ts:81-85 | one normalised copy per job at the same index, each fully lowercase with the title length kept |
| Neighbours.ScanFrom | src/data-processing.ts:131-140 | the loop yields one of the three location scores, and neutral once the offset has passed `pos` or `k` |
| Neighbours.CheckKNeighbours | src/data-processing.ts:126-141 | the result is one of the three location scores, and neutral when `pos <= 0` or `k <= 0` |
| Neighbours.ScanFromNearest | src/data-processing.ts:131-140 | from any offset, the loop returns the score of the nearest context word left in its window, negative before positive at the same index, or neutral when none is left |
| Neighbours.CheckKNeighboursNearest | src/data-processing.ts:126-141 | negative iff the nearest context word in `max(0,pos-k)..pos-1` is a negative word; positive iff it is only a positive word; neutral iff the window holds no context word |
| Neighbours.ScanFromFrame | src/data-processing.ts:131-140 | the loop reads no token outside the part of the window it has left |
| Neighbours.CheckKNeighboursFrame | src/data-processing.ts:126-141 | two token sequences that agree on the window are classified alike |
| Neighbours.CheckKNeighboursExamples | src/test/data-processing.spec.ts:22-29 | `relocate london` is positive, `outside london` negative, `living in london` neutral, with `pos = 1` and `k = 2` |
| Scorer.TitleCredit | src/data-processing.ts:54-56 | the credit lies between 0 and the multiplier when the multiplier is non-negative; it is 0 unless the token occurs in the title; a token equal to the whole title earns exactly the multiplier |
| Scorer.TitleCreditIsScaled | src/data-processing.ts:54-55 | a token the title includes is no longer than the title in UTF-16 code units, and earns the scaled share of its length over the title's length |
| Scorer.ScaledShare | src/data-processing.ts:55 | the share of a part of length `part` in a whole of length `whole`, scaled by `M`, lies between 0 and `M` for non-negative `M` and is `M` for the whole |
| Scorer.ScaledShareProduct | src/data-processing.ts:55 | the scaled share is proportional to the part: `share · whole == part · M`, so a token covering a third of the title earns a third of the multiplier |
| Scorer.LocationCredit | src/data-processing.ts:57-62 | the credit is non-zero exactly when the token equals the job location, and then it is `checkKNeighbours`' verdict for that token's position with the configured `K`, one of the three location scores |
| Scorer.LocationCreditNearest | src/data-processing.ts:57-62 | a location mention is credited negative, positive or neutral exactly when the nearest context word among the `K` tokens before it is a negative word, only a positive word, or absent |
| Scorer.ScoreStep | src/data-processing.ts:63-71 | a job without a slot gets one appended holding this token's credit, and nothing is compared; otherwise the credit is added to the job's slot, a new total strictly above the best score makes this job the best with that total, and any other total leaves the best score and index as they were; no other slot changes, and the best score never decreases |
| Scorer.RecommendationUnique | src/data-processing.ts:63-75 | the characterisation admits at most one answer, so the scorer is deterministic |
| Scorer.CreditsNonNegative | src/data-processing.ts:54-62 | with a non-negative title weight and no avoidance words, no token earns a job a negative credit |
| Scorer.SlotSumMonotone | src/data-processing.ts:63-71 | with non-negative credits a job's running total never shrinks from one token to the next |
| Scorer.NonNegativeCreditsBestTotal | src/data-processing.ts:63-75 | with non-negative credits and at least two tokens, the recommended job has the highest final total in the catalogue, and that total is positive; there is no recommendation exactly when no final total is positive |
| Scorer.NoComparisonNoRecommendation | src/data-processing.ts:49-75 | fewer than two tokens or an empty catalogue means no recommendation |
| Scorer.ScoreToken | src/data-processing.ts:51-72 | after one token's pass every job has a slot holding its total over the tokens so far, and the best-so-far fields describe every comparison made up to then |
| Scorer.ScoreTokens | src/data-processing.ts:44-75 | slot count is the number of jobs, or 0 for an empty bio; each slot is the sum of that job's credits over all tokens; the index returned is the characterised answer |
| Scorer.GetJobRecommendation | src/data-processing.ts:39-76 | on a freshly reset `jobsScore`, the totals and the returned index are those of the normalised bio; the index is `None` or lies in the catalogue, and is `None` for fewer than two normalised tokens |
| Engine.ScoreMember | src/data-processing.ts:27-32 | one member keeps its name and bio, carries the totals of its normalised bio, and is given the original job at the scorer's index, or `None` when the scorer finds none |
| Engine.GetAllJobRecommendations | src/data-processing.ts:22-34 | one result per member, in order, with name and bio kept; a recommended job is always one of the original, non-normalised jobs; each member carries its own totals and the job that its bio's characterised answer designates, or `None` |
| Engine.RecommendsJobUnique | src/data-processing.ts:26-33 | a member's recommendation is determined by its bio and the catalogue alone |
| Engine.RecommendationsRepeatable | src/data-processing.ts:22-34 | running the driver twice on the same input gives the same recommendations |
| Engine.RecommendationPerMember | src/data-processing.ts:26-33 | members with equal bios get equal recommendations, whatever else the list holds |

## Left out

- `src/data.ts` (HTTP fetch and JSON decoding) and `src/index.ts` (async orchestration, console output): I/O with no scoring logic.
- The constants module is not part of this model. Its tables are parameters, so the end-to-end expectations of `src/test/data-processing.spec.ts:41-454` cannot be re-checked: they depend on mock data and on the real `K` and `JOB_SCORE_MULTIPLIER`.
- Text.RemovePunctuation: the concrete test string `"Hello!!!!!! This. Is. A, test5 ?"` is not proved as an instance. The general lemmas state the behaviour it checks: kept characters keep their order and count, and all others are removed.
- Text.ToLowerCase: lowercases only `A`-`Z`. JavaScript lowercases every Unicode letter, so a job title or location with non-ASCII capitals (for example `Zürich` written in capitals) is left as is here. Bios are unaffected.
- Scorer.GetJobRecommendation, Scorer.ScoreTokens, Engine.ScoreMember, Engine.GetAllJobRecommendations: require every job title to be non-empty (`Scorer.ValidJobs`). For an empty title and an empty token, `getJobRecomendation` computes `0/0`, which is `NaN`. NaN is not modelled.
- Scores are exact reals, not IEEE doubles. The rounding of `word.length / title.length * JOB_SCORE_MULTIPLIER` and of the running sums could, in principle, change the outcome of a strict `>` comparison.
- `checkKNeighbours`' `pos` and `k` are integers. A fractional JavaScript number is not modelled.
- Identity and aliasing of the member objects, including the `as CustomMember` casts: results are returned as new values.
