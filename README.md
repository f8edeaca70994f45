# Collab ranking and reliability scoring, modelled in Dafny

This project models the two scoring routines of the collaboration app:

- **The collab ranker** (`mobile/lib/ranking.ts`). `rankCollabs` scores every collaboration posting for a viewing user. The score has four components:
  - tag overlap, at most 40;
  - follower-tier compatibility, at most 30;
  - recent activity, at most 20;
  - creator reliability, at most 10.

  It then sorts the postings stably by the sum, highest first. `getRankingExplanation` renders a breakdown as display text.
- **The reliability scorer** (`mobile/lib/reliability.ts`), without its backend queries. It makes one pass over the user's chronologically ordered messages, measuring how quickly the user replies. It then counts completed and cancelled collaborations and derives a 0–100 score from a base of 50.

Files:

- `wrappers.dfy`: `Option` (null/undefined fields), `Min`, `Max`.
- `text.dfy`: the string built-ins the ranker relies on:
  - ASCII `toLowerCase`;
  - `includes` as a scan, proved equal to "occurs somewhere";
  - decimal rendering, with a read-back round trip;
  - `join`.
- `schema.dfy`: the profile and posting fields the ranker reads, plus their ids (`mobile/lib/supabase-types.ts`).
- `ranking.dfy`: the ranker, as pure functions and lemmas. The sort is an insertion sort written as a function, proved sorted, a permutation and stable.
- `reliability.dfy`: the reliability scorer, as imperative methods:
  - `SumResponseTimes` is the message loop, with its invariants;
  - `CalculateReliabilityScore` is the step-by-step score.

  Each method is proved equal to specification functions stated on whole milliseconds and cross-multiplied thresholds.

Modelling choices:

- **Clock and timestamps.** The ranker reads the clock (`new Date()`) once per posting. All those reads are the one parameter `now`. Timestamps are integer milliseconds.
- **`Math.round`.** `Math.round(n / d)` becomes `RoundDiv(n, d)`, the integer nearest to n/d with halves rounded up.
- **The open-ended bucket.** `100k+` has an upper limit of `Infinity`.
- **Card data.** It is reduced to its optional `tags` list.
- **Failed queries.** A query that throws yields the fallback metrics. A query whose `data` is null counts as no rows.

Where the code and its documented behaviour differ, the model follows the code:

- **Empty history.** A user with no messages and no collaborations scores 55, not the base 50. An average of 0 hours earns +20, and a completion rate of 0 costs −15.
- **Follower proximity.** The code does not clamp the proximity at 0. `BucketProximity` shows that clamping would make no difference over the five recognised buckets.
- **Exact matches.** Every exact tag match counts for the bonus, and each is also a substring overlap (`ExactAtMostOverlap`).

## Model

| member | source | states |
|---|---|---|
| Text.LowerChar | mobile/lib/ranking.ts:61-62 | the lowered character is never an upper-case letter; upper-case ASCII letters move by 32, everything else is unchanged |
| Text.Lower | mobile/lib/ranking.ts:61-62 | lowering maps each character through `LowerChar`, keeps the length, leaves no upper-case letter and changes no other character |
| Text.Includes | mobile/lib/ranking.ts:66 | definition, no contract: `String.prototype.includes` as a scan over start positions (characterised by `IncludesIffOccurs`) |
| Text.LowerIdempotent | mobile/lib/ranking.ts:61-62 | lowering twice is lowering once |
| Text.LowerAll | mobile/lib/ranking.ts:61-62 | each list entry is lowered in place, same length |
| Text.NeedleLongerThanHay | mobile/lib/ranking.ts:66 | a tag longer than another is never found inside it |
| Text.IncludesHasOccurrence | mobile/lib/ranking.ts:66 | when `includes` answers yes, there is a position where the needle occurs |
| Text.OccurrenceIsIncluded | mobile/lib/ranking.ts:66 | every occurrence of the needle makes `includes` answer yes |
| Text.IncludesIffOccurs | mobile/lib/ranking.ts:66 | `includes` holds exactly when the needle occurs at some position |
| Text.IncludesSelf | mobile/lib/ranking.ts:76 | every tag contains itself (and the empty string), so exact matches are substring matches |
| Text.NatToString | mobile/lib/ranking.ts:260-269 | the rendered number is a non-empty string of digits without a leading zero |
| Text.NatToStringRoundTrip | mobile/lib/ranking.ts:260-269 | reading the rendered digits back gives the number |
| Text.Join | mobile/lib/ranking.ts:271 | joining no parts gives "", one part gives that part, and the first part always begins the result |
| Ranking.RoundDiv | mobile/lib/ranking.ts:72 | the result r is the nearest integer to n/d, halves up: 2dr − d ≤ 2n < 2dr + d |
| Ranking.RoundDivMonotone | mobile/lib/ranking.ts:72 | rounding never decreases as the dividend grows |
| Ranking.RoundDivWithin | mobile/lib/ranking.ts:71-72 | rounding a ratio that lies in [lo, hi] stays in [lo, hi] |
| Ranking.Overlaps | mobile/lib/ranking.ts:64-68 | definition, no contract: a lowered viewer tag overlaps when it contains, or is contained in, some candidate tag |
| Ranking.CandidateTags | mobile/lib/ranking.ts:53-54 | definition, no contract: the creator's tags followed by the card data's tags, none when absent |
| Ranking.OverlapCount | mobile/lib/ranking.ts:64-68 | the overlap count never exceeds the number of viewer entries |
| Ranking.ExactCount | mobile/lib/ranking.ts:75-77 | the exact-match count never exceeds the number of viewer entries |
| Ranking.ExactAtMostOverlap | mobile/lib/ranking.ts:64-77 | every exact match is also an overlap, so exact ≤ overlapping |
| Ranking.TagOverlap | mobile/lib/ranking.ts:44-81 | the tag score lies in [0, 40] and is 0 when the viewer list or the creator-plus-card list is empty |
| Ranking.OverlapCountReplace | mobile/lib/ranking.ts:64-68 | replacing a viewer entry by an overlapping one never lowers the overlap count |
| Ranking.ExactCountReplace | mobile/lib/ranking.ts:75-77 | replacing a viewer entry by a candidate tag never lowers the exact-match count |
| Ranking.TagOverlapMonotone | mobile/lib/ranking.ts:44-81 | turning a viewer tag into one of the candidate tags, all else fixed, never lowers the tag score |
| Ranking.TagOverlapNone | mobile/lib/ranking.ts:64-80 | with no overlapping entry the tag score is 0, bonus included |
| Ranking.TagOverlapFull | mobile/lib/ranking.ts:64-80 | all viewer entries overlapping, with no more candidate tags than viewer tags, scores the full 40 |
| Ranking.ParseBucket | mobile/lib/ranking.ts:103-110 | a bucket parses exactly when it is one of the five titles; the range is well formed and open-ended exactly for `100k+` |
| Ranking.RangesOverlap | mobile/lib/ranking.ts:119-122 | definition, no contract: the ranges intersect, or their minimums differ by less than half the larger maximum |
| Ranking.Proximity | mobile/lib/ranking.ts:128-136 | definition, no contract: round((1 − distance / maxDistance) × 30 × 0.6) for two bounded ranges, unclamped |
| Ranking.Falsy | mobile/lib/ranking.ts:93 | definition, no contract: a bucket that is null or empty |
| Ranking.BucketProximity | mobile/lib/ranking.ts:119-136 | over the five buckets the overlap-or-adjacent test fails only for `0-1k` against `50k-100k`, whose proximity score is 9 |
| Ranking.FollowerTier | mobile/lib/ranking.ts:87-137 | the tier score lies in [9, 30]; it is 9 when a bucket is null or empty, 30 for equal buckets, and 15 for distinct buckets when either is unrecognised |
| Ranking.FollowerTierDistinctBuckets | mobile/lib/ranking.ts:112-136 | two distinct recognised buckets score 24, except `0-1k` with `50k-100k`, which scores 9 |
| Ranking.FollowerTierSymmetric | mobile/lib/ranking.ts:87-137 | swapping the viewer's and the creator's bucket does not change the score |
| Ranking.RecencyPoints | mobile/lib/ranking.ts:150-163 | recency earns between 2 and 12 points |
| Ranking.ActivityPoints | mobile/lib/ranking.ts:165-175 | creator activity earns between 2 and 8 points |
| Ranking.RecencyNonIncreasing | mobile/lib/ranking.ts:155-163 | an older posting never earns more recency points than a newer one |
| Ranking.ActivityNonDecreasing | mobile/lib/ranking.ts:167-175 | more completed collaborations never earn fewer activity points |
| Ranking.RecentActivity | mobile/lib/ranking.ts:143-178 | the activity score is the sum of recency and creator-activity points and lies in [4, 20]; the cap never bites |
| Ranking.ReliabilityPoints | mobile/lib/ranking.ts:184-190 | the points p are the nearest integer to score/10 (10p − 5 ≤ score < 10p + 5) and lie in [0, 10] for a score in [0, 100] |
| Ranking.ScoreCollab | mobile/lib/ranking.ts:200-250 | it keeps the posting; the match score is exactly the sum of the four components. A missing creator gives 0 with an all-zero breakdown. A known creator with reliability in [0, 100] gives every component within its weight and a match score in [13, 100] |
| Ranking.InsertByScore | mobile/lib/ranking.ts:251 | inserting keeps a sorted list sorted, adds exactly the one entry, and keeps the order among entries of each score |
| Ranking.InsertKeepsSorted | mobile/lib/ranking.ts:251 | inserting below a higher head keeps a sorted list sorted |
| Ranking.InsertKeepsTies | mobile/lib/ranking.ts:251 | inserting below a higher head keeps the order within each score |
| Ranking.SortByScore | mobile/lib/ranking.ts:251 | the result is ordered by non-increasing score, is a permutation of the input, and lists the entries of each score in input order (stability) |
| Ranking.SortKeepsTies | mobile/lib/ranking.ts:251 | inserting the head into a stably sorted tail keeps the order within each score |
| Ranking.ScoreAll | mobile/lib/ranking.ts:200-250 | one scored entry per posting, in input order, each scored for its own posting |
| Ranking.RankCollabs | mobile/lib/ranking.ts:195-252 | same length; the postings are a permutation of the input, so none is filtered by status; sorted by non-increasing score; the scored entries permuted; ties kept in input order |
| Ranking.RankedEntryIsScored | mobile/lib/ranking.ts:200-251 | every ranked entry carries the score of its own posting |
| Ranking.ScoredEntry | mobile/lib/ranking.ts:200-250 | an entry of the scored list is its posting's score |
| Ranking.ScoreAllMember | mobile/lib/ranking.ts:200-250 | an entry of the scored list comes from one of the input postings |
| Ranking.ScoredSomeCollab | mobile/lib/ranking.ts:200-250 | the score of an input posting is the score of the posting it carries |
| Ranking.RankedScoresBounded | mobile/lib/ranking.ts:195-252 | with every creator's reliability in [0, 100], every ranked match score lies in [0, 100] |
| Ranking.ScoreWithinRange | mobile/lib/ranking.ts:200-250 | with reliabilities in [0, 100], one posting's match score lies in [0, 100] |
| Ranking.MissingCreatorsRankLast | mobile/lib/ranking.ts:200-251 | a posting whose creator is missing comes after every posting whose creator is known (reliability ≥ 0) |
| Ranking.RankedScoreOfMissingCreator | mobile/lib/ranking.ts:203-213 | a ranked posting with a missing creator has match score 0 |
| Ranking.RankedScoreOfKnownCreator | mobile/lib/ranking.ts:215-238 | a ranked posting with a known creator has match score at least 13 |
| Ranking.HigherScoreFirst | mobile/lib/ranking.ts:251 | in the sorted list, a higher score comes first |
| Ranking.ScoreOfMissingCreator | mobile/lib/ranking.ts:203-213 | a missing creator scores 0 |
| Ranking.ScoreOfKnownCreator | mobile/lib/ranking.ts:215-238 | a known creator with non-negative reliability scores at least 13 (9 + 4 + 0 + 0) |
| Ranking.FitnessApartFromTravel | mobile/lib/ranking.ts:66 | neither of "fitness" and "travel" contains the other |
| Ranking.FoodApartFromTravel | mobile/lib/ranking.ts:66 | neither of "food" and "travel" contains the other |
| Ranking.TravelOverlapsNothing | mobile/lib/ranking.ts:64-68 | "travel" overlaps neither "fitness" nor "food" |
| Ranking.FitnessTagMatches | mobile/lib/ranking.ts:64-77 | one of the viewer's two tags overlaps and one matches exactly |
| Ranking.FitnessTagsLowered | mobile/lib/ranking.ts:61-62 | the worked case's tag lists lower to ["fitness", "travel"] and ["fitness", "food"] |
| Ranking.FitnessTagOverlap | mobile/lib/ranking.ts:44-81 | the worked case's tag score is 20 + 2 = 22 |
| Ranking.FitnessScenario | mobile/lib/ranking.ts:200-250 | the worked case scores breakdown (22, 30, 20, 8) and match score 80 |
| Ranking.Part | mobile/lib/ranking.ts:259-270 | a line item starts with its title followed by ": " |
| Ranking.PositiveFrom | mobile/lib/ranking.ts:259-270 | every listed position holds a positive component |
| Ranking.PositiveFromComplete | mobile/lib/ranking.ts:259-270 | every positive position is listed |
| Ranking.PositiveFromIncreasing | mobile/lib/ranking.ts:259-270 | the listed positions are strictly increasing, so items keep the order Tags, Follower tier, Activity, Reliability |
| Ranking.ShownComponents | mobile/lib/ranking.ts:259-270 | the positive positions of a breakdown are exactly the indices of its positive components, in order |
| Ranking.Parts | mobile/lib/ranking.ts:257-270 | the i-th item is the item, with its own points, of the i-th positive component in the order Tags, Follower tier, Activity, Reliability; there is one item per positive component and none for the others |
| Ranking.RankingExplanation | mobile/lib/ranking.ts:257-272 | the text is "No match" exactly when all four components are at most 0, and otherwise the items joined by the separator; a positive tag score's item comes first |
| Ranking.ExplanationAllComponents | mobile/lib/ranking.ts:257-272 | with all four components positive, the text is the four items in the order Tags, Follower tier, Activity, Reliability, joined by the separator |
| Ranking.ExplanationSkipsNonPositive | mobile/lib/ranking.ts:257-272 | with only the follower and reliability components positive, the text is those two items, in that order, joined by the separator |
| Ranking.PartShowsPoints | mobile/lib/ranking.ts:260-269 | the digits shown in a line item read back as the component's points |
| Reliability.RowsOrEmpty | mobile/lib/reliability.ts:22 | definition, no contract: a null `data` field counts as no rows |
| Reliability.ResponseMillis | mobile/lib/reliability.ts:23-33 | definition, no contract: the summed millisecond gaps of the adjacent pairs where the user replies to a message addressed to them |
| Reliability.AverageHours | mobile/lib/reliability.ts:37 | definition, no contract: total hours over the response count, 0 with no response |
| Reliability.ResponseCount | mobile/lib/reliability.ts:22-33 | at most one response per message after the first, none with fewer than two messages |
| Reliability.ResponseMillisNonNegative | mobile/lib/reliability.ts:17-33 | in a chronological history the summed response time is not negative |
| Reliability.AverageHoursNonNegative | mobile/lib/reliability.ts:17-37 | in a chronological history the average response time is not negative |
| Reliability.CountStatus | mobile/lib/reliability.ts:46-47 | a status count never exceeds the number of collaborations |
| Reliability.CountsWithinTotal | mobile/lib/reliability.ts:45-47 | completed plus cancelled never exceed the total |
| Reliability.CompletionRate | mobile/lib/reliability.ts:49-51 | the completion rate lies in [0, 100] |
| Reliability.ResponseAdjustment | mobile/lib/reliability.ts:56-59 | definition, no contract: +20, +10, −10 or 0 from the average, compared in whole milliseconds against count × 24, 48 and 72 hours |
| Reliability.CompletionAdjustment | mobile/lib/reliability.ts:61-64 | definition, no contract: +20, +10, −15 or 0 from the completion rate, cross-multiplied, with no collaborations counting as rate 0 |
| Reliability.AbandonmentPenalty | mobile/lib/reliability.ts:66-68 | definition, no contract: 5 per cancelled collaboration, plus 20 when strictly more than 30% were cancelled |
| Reliability.ExpectedMetrics | mobile/lib/reliability.ts:19-86 | definition, no contract: the fallback when a query throws, otherwise the average hours, completion rate, cancelled count and score |
| Reliability.Clamp | mobile/lib/reliability.ts:71 | the clamped score lies in [0, 100] and a score already in range is unchanged |
| Reliability.ReliabilityScore | mobile/lib/reliability.ts:53-77 | the score lies in [0, 90]: the bonuses add up to at most 40 |
| Reliability.SumResponseTimes | mobile/lib/reliability.ts:19-35 | the loop's total is the summed millisecond gaps of the response pairs in hours, and its count is the number of such pairs |
| Reliability.CalculateReliabilityScore | mobile/lib/reliability.ts:19-86 | the metrics equal `ExpectedMetrics` (average hours, completion rate, cancelled count, clamped score). A query that throws gives the fallback (0, 0, 0, 50). The step-by-step score lies in [0, 90] |
| Reliability.QuotientNonNegative | mobile/lib/reliability.ts:37 | the average of a non-negative total is not negative |
| Reliability.QuotientCompare | mobile/lib/reliability.ts:57-64 | a threshold on a quotient is the same threshold on the dividend scaled by the divisor |
| Reliability.ResponseRulesAgree | mobile/lib/reliability.ts:37-59 | comparing the average in hours with 24, 48 and 72 decides as comparing whole milliseconds against count × 24, 48 and 72 hours |
| Reliability.CompletionRulesAgree | mobile/lib/reliability.ts:49-64 | comparing the percentage with 80, 60 and 40 decides as comparing 100 × completed with 80, 60 and 40 × total |
| Reliability.EmptyHistoryScores55 | mobile/lib/reliability.ts:19-77 | with no messages and no collaborations (empty or null data) the metrics are (0, 0, 0, 55) |
| Reliability.AbandonmentThresholdStrict | mobile/lib/reliability.ts:66-68 | the extra 20-point penalty applies exactly when cancelled > 30% of the total, strictly; exactly 30% gets none |
| Reliability.ThreeOfTenCancelledLoses15 | mobile/lib/reliability.ts:66-68 | 3 cancelled out of 10 lose exactly 15 points |
| Reliability.AbandonedWithinTotal | mobile/lib/reliability.ts:45-76 | the reported abandoned count lies between 0 and the number of collaborations |
| Reliability.BestHistoryScores90 | mobile/lib/reliability.ts:53-77 | replying within a day and completing every collaboration scores 90, the maximum |

## Left out

- The backend queries and the profile write are not modelled (`mobile/lib/reliability.ts:13-17`, `40-43` and `90-106`). This is network I/O. The message rows and collaboration statuses are inputs, and a failed query is an input value (`Threw`, `NoData`).
- `console.error` in the fallback path is not modelled. It is logging only.
- Ranking.RankCollabs: one `now` stands for all the per-posting clock reads (`mobile/lib/ranking.ts:151`, called for each posting at line 230). Postings scored across a day boundary while the ranking runs are not modelled, so `RankedEntryIsScored` holds of the model's single instant only.
- Unparseable dates are not modelled. `new Date(...)` of such a date gives NaN, which fails every comparison.
- `Math.round` and the comparisons are not evaluated in floating point. Rounding is exact integer round-half-up, and thresholds are compared on exact values. A double that lands just off a .5 tie, or just off a threshold, is outside the model. The reliability method keeps `real` hours and percentages, as the source keeps doubles.
- Text.Lower: lowers ASCII letters only. Unicode case mapping is not modelled.
- Ranking.Separator: the separator literal is kept exactly as it is stored in the source: five characters (a space, U+00E2, U+20AC, U+00A2, a space). It is treated as an opaque constant.
- `mobile/lib/supabase-helpers.ts` is not part of this model. It holds backend wrappers, and its `parseCardData` is an identity cast, so card data is reduced to its optional `tags` list.
- `mobile/lib/supabase-types.ts` is mirrored only in the fields the ranker reads, plus the ids of a profile and a posting (`Schema.User`, `Schema.Collab`). The ranker never reads the ids; they identify the rows. Other columns, such as a posting's second creator, are not modelled.
- The screens, components and build script (`mobile/app/*`, `mobile/components/*`, `mobile/fix-metro-exports.js`) are not part of this model. They are UI state and file rewriting.
- `Ranking.SortByScore` returns a new sequence. Sorting the mapped array in place is not modelled; the array is fresh, so nothing else observes it.
