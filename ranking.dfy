/**
 * Rule-based ranking of collaboration postings for a viewing user
 * (mobile/lib/ranking.ts). Every posting gets four sub-scores capped at
 * 40 (tag overlap), 30 (follower tier), 20 (recent activity) and
 * 10 (creator reliability); the postings are then stably sorted by the
 * sum, highest first. The clock reads `new Date()`, one per posting, are
 * all the single parameter `now`.
 */
module Ranking {
  import opened Wrappers
  import opened Text
  import opened Schema

  const TagWeight: int := 40
  const FollowerWeight: int := 30
  const ActivityWeight: int := 20
  const ReliabilityWeight: int := 10

  /** Milliseconds in a day: `1000 * 60 * 60 * 24`. */
  const DayMs: int := 1000 * 60 * 60 * 24

  function Abs(x: int): nat { if x < 0 then -x else x }

  /**
   * `Math.round(n / d)` for a positive divisor: the nearest integer to n/d,
   * with halves rounded up (towards +infinity, also for negative values).
   */
  function RoundDiv(n: int, d: int): (r: int)
    requires d > 0
    ensures 2 * d * r - d <= 2 * n < 2 * d * r + d
  {
    var q := (2 * n + d) / (2 * d);
    assert 2 * n + d == 2 * d * q + (2 * n + d) % (2 * d);
    q
  }

  /** Multiplying by a positive number keeps the sign. */
  lemma MulPositive(d: int, t: int)
    requires d > 0
    ensures t > 0 ==> d * t > 0
    ensures t >= 0 ==> d * t >= 0
  {
  }

  /** Rounding a quotient that lies in [lo, hi] stays in [lo, hi]. */
  lemma RoundDivWithin(n: int, d: int, lo: int, hi: int)
    requires d > 0
    requires lo * d <= n <= hi * d
    ensures lo <= RoundDiv(n, d) <= hi
  {
    var r := RoundDiv(n, d);
    MulPositive(d, 2 * r - 1 - 2 * hi);
    assert d * (2 * r - 1 - 2 * hi) == 2 * d * r - d - 2 * (hi * d);
    MulPositive(d, 2 * lo - 2 * r - 1);
    assert d * (2 * lo - 2 * r - 1) == 2 * (lo * d) - 2 * d * r - d;
  }

  // ---------------------------------------------------------------------
  // Tag overlap (at most 40)
  // ---------------------------------------------------------------------

  /**
   * A (lower-cased) viewer tag overlaps the candidate tags when it contains,
   * or is contained in, one of them.
   */
  predicate Overlaps(tag: string, candidates: seq<string>)
  {
    exists c :: c in candidates && (Includes(c, tag) || Includes(tag, c))
  }

  /** Number of viewer entries (duplicates included) that overlap some candidate tag. */
  function OverlapCount(tags: seq<string>, candidates: seq<string>): (k: nat)
    ensures k <= |tags|
  {
    if tags == [] then 0
    else (if Overlaps(tags[0], candidates) then 1 else 0) + OverlapCount(tags[1..], candidates)
  }

  /** Number of viewer entries (duplicates included) equal to some candidate tag. */
  function ExactCount(tags: seq<string>, candidates: seq<string>): (e: nat)
    ensures e <= |tags|
  {
    if tags == [] then 0
    else (if tags[0] in candidates then 1 else 0) + ExactCount(tags[1..], candidates)
  }

  /** Every exact match is also a substring overlap. */
  lemma {:induction false} ExactAtMostOverlap(tags: seq<string>, candidates: seq<string>)
    ensures ExactCount(tags, candidates) <= OverlapCount(tags, candidates)
  {
    if tags != [] {
      ExactAtMostOverlap(tags[1..], candidates);
      if tags[0] in candidates {
        IncludesSelf(tags[0]);
        assert Overlaps(tags[0], candidates);
      }
    }
  }

  /** The creator's tags followed by the card data's `tags` (absent counts as empty). */
  function CandidateTags(creatorTags: seq<string>, cardTags: Option<seq<string>>): seq<string>
  {
    creatorTags + cardTags.GetOr([])
  }

  /**
   * `calculateTagOverlap`: round(k * 40 / max(|viewer|, |candidates|)) for the k
   * overlapping viewer entries, plus 2 per exact match up to 8, capped at 40;
   * 0 when either list is empty.
   */
  function TagOverlap(userTags: seq<string>, creatorTags: seq<string>, cardTags: Option<seq<string>>): (r: int)
    ensures 0 <= r <= TagWeight
    ensures |userTags| == 0 || |CandidateTags(creatorTags, cardTags)| == 0 ==> r == 0
  {
    var all := CandidateTags(creatorTags, cardTags);
    if |all| == 0 || |userTags| == 0 then 0
    else
      var users := LowerAll(userTags);
      var cands := LowerAll(all);
      var k := OverlapCount(users, cands);
      var m := Max(|userTags|, |all|);
      RoundDivWithin(k * TagWeight, m, 0, TagWeight);
      var base := RoundDiv(k * TagWeight, m);
      var bonus := Min(ExactCount(users, cands) * 2, TagWeight / 5);
      Min(base + bonus, TagWeight)
  }

  /** No viewer tag overlapping any candidate tag scores 0, bonus included. */
  lemma TagOverlapNone(userTags: seq<string>, creatorTags: seq<string>, cardTags: Option<seq<string>>)
    requires OverlapCount(LowerAll(userTags), LowerAll(CandidateTags(creatorTags, cardTags))) == 0
    ensures TagOverlap(userTags, creatorTags, cardTags) == 0
  {
    var all := CandidateTags(creatorTags, cardTags);
    ExactAtMostOverlap(LowerAll(userTags), LowerAll(all));
    if |all| > 0 && |userTags| > 0 {
      assert RoundDiv(0, Max(|userTags|, |all|)) == 0;
    }
  }

  /** Every viewer entry overlapping, with no more candidate than viewer tags, scores the full 40. */
  lemma TagOverlapFull(userTags: seq<string>, creatorTags: seq<string>, cardTags: Option<seq<string>>)
    requires |userTags| > 0 && |CandidateTags(creatorTags, cardTags)| <= |userTags|
    requires OverlapCount(LowerAll(userTags), LowerAll(CandidateTags(creatorTags, cardTags))) == |userTags|
    requires |CandidateTags(creatorTags, cardTags)| > 0
    ensures TagOverlap(userTags, creatorTags, cardTags) == TagWeight
  {
    var m := |userTags|;
    RoundDivWithin(m * TagWeight, m, TagWeight, TagWeight);
  }

  /** Rounding is monotone in the dividend. */
  lemma RoundDivMonotone(n1: int, n2: int, d: int)
    requires d > 0 && n1 <= n2
    ensures RoundDiv(n1, d) <= RoundDiv(n2, d)
  {
    var r1, r2 := RoundDiv(n1, d), RoundDiv(n2, d);
    MulPositive(d, r1 - r2 - 1);
    assert d * (r1 - r2 - 1) == d * r1 - d * r2 - d;
    assert 2 * d * r1 == 2 * (d * r1) && 2 * d * r2 == 2 * (d * r2);
  }

  /** Replacing a viewer entry by one that overlaps never lowers the overlap count. */
  lemma {:induction false} OverlapCountReplace(tags: seq<string>, candidates: seq<string>, i: int, t: string)
    requires 0 <= i < |tags| && Overlaps(t, candidates)
    ensures OverlapCount(tags[i := t], candidates) >= OverlapCount(tags, candidates)
  {
    if i == 0 {
      assert tags[i := t][1..] == tags[1..];
    } else {
      assert tags[i := t][1..] == tags[1..][i - 1 := t];
      OverlapCountReplace(tags[1..], candidates, i - 1, t);
    }
  }

  /** Replacing a viewer entry by a candidate tag never lowers the exact-match count. */
  lemma {:induction false} ExactCountReplace(tags: seq<string>, candidates: seq<string>, i: int, t: string)
    requires 0 <= i < |tags| && t in candidates
    ensures ExactCount(tags[i := t], candidates) >= ExactCount(tags, candidates)
  {
    if i == 0 {
      assert tags[i := t][1..] == tags[1..];
    } else {
      assert tags[i := t][1..] == tags[1..][i - 1 := t];
      ExactCountReplace(tags[1..], candidates, i - 1, t);
    }
  }

  /**
   * Turning one viewer tag into one of the candidate tags (an exact match
   * once lowered), all else fixed, never lowers the tag score: more exact
   * matches never hurt.
   */
  lemma TagOverlapMonotone(userTags: seq<string>, creatorTags: seq<string>, cardTags: Option<seq<string>>,
                           i: int, c: string)
    requires 0 <= i < |userTags|
    requires c in CandidateTags(creatorTags, cardTags)
    ensures TagOverlap(userTags[i := c], creatorTags, cardTags) >= TagOverlap(userTags, creatorTags, cardTags)
  {
    var all := CandidateTags(creatorTags, cardTags);
    var users, cands := LowerAll(userTags), LowerAll(all);
    var users' := LowerAll(userTags[i := c]);
    assert users' == users[i := Lower(c)];
    var j :| 0 <= j < |all| && all[j] == c;
    assert cands[j] == Lower(c);
    IncludesSelf(Lower(c));
    assert Overlaps(Lower(c), cands);
    OverlapCountReplace(users, cands, i, Lower(c));
    ExactCountReplace(users, cands, i, Lower(c));
    var m := Max(|userTags|, |all|);
    RoundDivMonotone(OverlapCount(users, cands) * TagWeight, OverlapCount(users', cands) * TagWeight, m);
  }

  // ---------------------------------------------------------------------
  // Follower-tier compatibility (at most 30)
  // ---------------------------------------------------------------------

  /** An upper bound of a follower range; the top bucket is open-ended. */
  datatype Limit = Finite(n: int) | Infinity

  /** A follower range [lo, hi]. */
  datatype Range = Range(lo: int, hi: Limit)

  /** The recognised follower buckets, in increasing order. */
  const Buckets: seq<string> := ["0-1k", "1k-10k", "10k-50k", "50k-100k", "100k+"]

  predicate ValidRange(r: Range)
  {
    0 <= r.lo && (r.hi.Infinity? || r.lo < r.hi.n)
  }

  /** `parseBucket`: the numeric range of a bucket title, None for an unknown title. */
  function ParseBucket(bucket: string): (r: Option<Range>)
    ensures r.Some? <==> bucket in Buckets
    ensures r.Some? ==> ValidRange(r.value)
    ensures r.Some? ==> (r.value.hi.Infinity? <==> bucket == "100k+")
  {
    if bucket == "0-1k" then Some(Range(0, Finite(1000)))
    else if bucket == "1k-10k" then Some(Range(1000, Finite(10000)))
    else if bucket == "10k-50k" then Some(Range(10000, Finite(50000)))
    else if bucket == "50k-100k" then Some(Range(50000, Finite(100000)))
    else if bucket == "100k+" then Some(Range(100000, Infinity))
    else None
  }

  /** x <= l */
  predicate AtMost(x: int, l: Limit) { l.Infinity? || x <= l.n }

  function MaxLimit(a: Limit, b: Limit): Limit
  {
    if a.Infinity? || b.Infinity? then Infinity else Finite(Max(a.n, b.n))
  }

  /** x < l * 0.5 */
  predicate BelowHalf(x: int, l: Limit) { l.Infinity? || 2 * x < l.n }

  /**
   * The "ranges overlap or are adjacent" test: the ranges intersect, or the
   * minimums differ by less than half of the larger maximum.
   */
  predicate RangesOverlap(u: Range, c: Range)
  {
    (AtMost(u.lo, c.hi) && AtMost(c.lo, u.hi))
    || BelowHalf(Abs(u.lo - c.lo), MaxLimit(u.hi, c.hi))
  }

  /**
   * round((1 - distance / maxDistance) * 30 * 0.6) for two ranges that do not
   * overlap (so both are bounded). No clamping at 0, as in the source.
   */
  function Proximity(u: Range, c: Range): int
    requires ValidRange(u) && ValidRange(c) && !RangesOverlap(u, c)
  {
    var distance := Min(Abs(u.lo - c.hi.n), Abs(c.lo - u.hi.n));
    var maxDistance := Max(u.hi.n, c.hi.n);
    RoundDiv((maxDistance - distance) * FollowerWeight * 6 / 10, maxDistance)
  }

  /**
   * Over the five buckets only `0-1k` against `50k-100k` fails the overlap
   * test, and its proximity is round(0.51 * 18) = 9, so the distance branch
   * never yields a negative score.
   */
  lemma BucketProximity(ub: string, cb: string)
    requires ub in Buckets && cb in Buckets
    ensures !RangesOverlap(ParseBucket(ub).value, ParseBucket(cb).value) <==>
              (ub == "0-1k" && cb == "50k-100k") || (ub == "50k-100k" && cb == "0-1k")
    ensures !RangesOverlap(ParseBucket(ub).value, ParseBucket(cb).value) ==>
              Proximity(ParseBucket(ub).value, ParseBucket(cb).value) == 9
  {
    var u, c := ParseBucket(ub).value, ParseBucket(cb).value;
    if (ub == "0-1k" && cb == "50k-100k") || (ub == "50k-100k" && cb == "0-1k") {
      assert !RangesOverlap(u, c);
      assert Proximity(u, c) == RoundDiv(918000, 100000);
    } else if ub == "100k+" || cb == "100k+" {
      assert BelowHalf(Abs(u.lo - c.lo), MaxLimit(u.hi, c.hi));
    } else {
      assert u.hi.Finite? && c.hi.Finite?;
      assert RangesOverlap(u, c);
    }
  }

  /** JavaScript truthiness of a nullable string: null and "" are falsy. */
  predicate Falsy(bucket: Option<string>)
  {
    bucket.None? || bucket.value == ""
  }

  /** `calculateFollowerTierCompatibility`. */
  function FollowerTier(userBucket: Option<string>, creatorBucket: Option<string>): (r: int)
    ensures 9 <= r <= FollowerWeight
    ensures Falsy(userBucket) || Falsy(creatorBucket) ==> r == 9
    ensures !Falsy(userBucket) && !Falsy(creatorBucket) && userBucket == creatorBucket ==> r == 30
    ensures (!Falsy(userBucket) && !Falsy(creatorBucket) && userBucket != creatorBucket
             && (userBucket.value !in Buckets || creatorBucket.value !in Buckets)) ==> r == 15
  {
    if Falsy(userBucket) || Falsy(creatorBucket) then FollowerWeight * 3 / 10
    else if userBucket.value == creatorBucket.value then FollowerWeight
    else match (ParseBucket(userBucket.value), ParseBucket(creatorBucket.value))
      case (Some(u), Some(c)) =>
        BucketProximity(userBucket.value, creatorBucket.value);
        if RangesOverlap(u, c) then FollowerWeight * 8 / 10
        else Proximity(u, c)
      case _ => FollowerWeight / 2
  }

  /**
   * Two distinct recognised buckets score 24, except `0-1k` against
   * `50k-100k`, the one pair that reaches the distance branch: round(0.51 * 18) = 9.
   */
  lemma FollowerTierDistinctBuckets(u: string, c: string)
    requires u in Buckets && c in Buckets && u != c
    ensures FollowerTier(Some(u), Some(c))
            == if (u == "0-1k" && c == "50k-100k") || (u == "50k-100k" && c == "0-1k") then 9 else 24
  {
    BucketProximity(u, c);
  }

  /** The compatibility of two buckets does not depend on whose bucket is whose. */
  lemma FollowerTierSymmetric(u: Option<string>, c: Option<string>)
    ensures FollowerTier(u, c) == FollowerTier(c, u)
  {
    if !Falsy(u) && !Falsy(c) && u != c && u.value in Buckets && c.value in Buckets {
      FollowerTierDistinctBuckets(u.value, c.value);
      FollowerTierDistinctBuckets(c.value, u.value);
    }
  }

  // ---------------------------------------------------------------------
  // Recent activity (at most 20)
  // ---------------------------------------------------------------------

  /** Points for the posting's age: under 1, 7 or 30 days, or older; a future date counts as new. */
  function RecencyPoints(ageMs: int): (p: int)
    ensures 2 <= p <= ActivityWeight * 6 / 10
  {
    if ageMs < DayMs then ActivityWeight * 6 / 10
    else if ageMs < 7 * DayMs then ActivityWeight * 4 / 10
    else if ageMs < 30 * DayMs then ActivityWeight * 2 / 10
    else ActivityWeight / 10
  }

  /** Points for the creator's completed collaborations: above 10, above 5, above 0, or none. */
  function ActivityPoints(completed: int): (p: int)
    ensures 2 <= p <= ActivityWeight * 4 / 10
  {
    if completed > 10 then ActivityWeight * 4 / 10
    else if completed > 5 then ActivityWeight * 3 / 10
    else if completed > 0 then ActivityWeight * 2 / 10
    else ActivityWeight / 10
  }

  /** Older postings never score more recency points than newer ones. */
  lemma RecencyNonIncreasing(newer: int, older: int)
    requires newer <= older
    ensures RecencyPoints(older) <= RecencyPoints(newer)
  {
  }

  /** More completed collaborations never score fewer activity points. */
  lemma ActivityNonDecreasing(fewer: int, more: int)
    requires fewer <= more
    ensures ActivityPoints(fewer) <= ActivityPoints(more)
  {
  }

  /**
   * `calculateRecentActivity`: recency plus creator activity, capped at 20.
   * Both parts are whole numbers, so `Math.round` leaves the sum unchanged,
   * and the cap never applies.
   */
  function RecentActivity(createdAt: int, completed: int, now: int): (r: int)
    ensures 4 <= r <= ActivityWeight
    ensures r == RecencyPoints(now - createdAt) + ActivityPoints(completed)
  {
    Min(RecencyPoints(now - createdAt) + ActivityPoints(completed), ActivityWeight)
  }

  // ---------------------------------------------------------------------
  // Reliability (at most 10)
  // ---------------------------------------------------------------------

  /** `calculateReliabilityScore` of the ranker: round(score / 100 * 10). */
  function ReliabilityPoints(score: int): (p: int)
    ensures 10 * p - 5 <= score < 10 * p + 5
    ensures 0 <= score <= 100 ==> 0 <= p <= ReliabilityWeight
  {
    RoundDiv(score * ReliabilityWeight, 100)
  }

  // ---------------------------------------------------------------------
  // Ranking
  // ---------------------------------------------------------------------

  datatype Breakdown = Breakdown(tagOverlap: int, followerTier: int, recentActivity: int, reliability: int)

  const NoBreakdown: Breakdown := Breakdown(0, 0, 0, 0)

  /** Every component lies between 0 and its weight. */
  predicate WithinWeights(b: Breakdown)
  {
    && 0 <= b.tagOverlap <= TagWeight
    && 0 <= b.followerTier <= FollowerWeight
    && 0 <= b.recentActivity <= ActivityWeight
    && 0 <= b.reliability <= ReliabilityWeight
  }

  /** A posting together with its match score and the score's four components. */
  datatype RankedCollab = RankedCollab(collab: Collab, matchScore: int, breakdown: Breakdown)

  /** The `map` step of `rankCollabs`: one posting scored for the viewer. */
  function ScoreCollab(user: User, collab: Collab, creators: map<string, User>, now: int): (r: RankedCollab)
    ensures r.collab == collab
    ensures r.matchScore
            == r.breakdown.tagOverlap + r.breakdown.followerTier + r.breakdown.recentActivity + r.breakdown.reliability
    ensures collab.creator1 !in creators ==> r.matchScore == 0 && r.breakdown == NoBreakdown
    ensures collab.creator1 in creators ==>
              r.breakdown.followerTier >= 9 && r.breakdown.recentActivity >= 4 && r.breakdown.tagOverlap >= 0
              && 10 * r.breakdown.reliability - 5 <= creators[collab.creator1].reliabilityScore
    ensures collab.creator1 in creators && 0 <= creators[collab.creator1].reliabilityScore <= 100 ==>
              WithinWeights(r.breakdown) && 13 <= r.matchScore <= 100
  {
    if collab.creator1 !in creators then RankedCollab(collab, 0, NoBreakdown)
    else
      var creator := creators[collab.creator1];
      var tagOverlap := TagOverlap(user.AllTags(), creator.AllTags(), collab.cardTags);
      var followerTier := FollowerTier(user.followerBucket, creator.followerBucket);
      var recentActivity := RecentActivity(collab.createdAt, creator.completedCollabs, now);
      var reliability := ReliabilityPoints(creator.reliabilityScore);
      RankedCollab(collab, tagOverlap + followerTier + recentActivity + reliability,
        Breakdown(tagOverlap, followerTier, recentActivity, reliability))
  }

  /** Non-increasing match scores. */
  predicate SortedByScore(s: seq<RankedCollab>)
  {
    forall i, j :: 0 <= i < j < |s| ==> s[i].matchScore >= s[j].matchScore
  }

  /** The entries with match score v, in their order in s. */
  function WithScore(s: seq<RankedCollab>, v: int): seq<RankedCollab>
  {
    if s == [] then []
    else (if s[0].matchScore == v then [s[0]] else []) + WithScore(s[1..], v)
  }

  /** The postings of a ranked list, in its order. */
  function CollabsOf(s: seq<RankedCollab>): seq<Collab>
  {
    seq(|s|, i requires 0 <= i < |s| => s[i].collab)
  }

  lemma CollabsOfCons(x: RankedCollab, s: seq<RankedCollab>)
    ensures CollabsOf([x] + s) == [x.collab] + CollabsOf(s)
  {
    assert ([x] + s)[1..] == s;
  }

  /**
   * Inserts x in front of the first entry whose score is not above x's, so
   * that x stays ahead of entries it ties with.
   */
  function InsertByScore(x: RankedCollab, s: seq<RankedCollab>): (r: seq<RankedCollab>)
    ensures multiset(r) == multiset(s) + multiset{x}
    ensures multiset(CollabsOf(r)) == multiset(CollabsOf(s)) + multiset{x.collab}
    ensures SortedByScore(s) ==> SortedByScore(r)
    ensures forall v :: WithScore(r, v) == WithScore([x] + s, v)
  {
    if s == [] || s[0].matchScore <= x.matchScore then
      CollabsOfCons(x, s);
      [x] + s
    else
      var rest := InsertByScore(x, s[1..]);
      assert s == [s[0]] + s[1..];
      CollabsOfCons(s[0], rest);
      CollabsOfCons(s[0], s[1..]);
      InsertKeepsSorted(x, s, rest);
      InsertKeepsTies(x, s, rest);
      [s[0]] + rest
  }

  lemma InsertKeepsSorted(x: RankedCollab, s: seq<RankedCollab>, rest: seq<RankedCollab>)
    requires s != [] && s[0].matchScore > x.matchScore
    requires multiset(rest) == multiset(s[1..]) + multiset{x}
    requires SortedByScore(s[1..]) ==> SortedByScore(rest)
    ensures SortedByScore(s) ==> SortedByScore([s[0]] + rest)
  {
    if SortedByScore(s) {
      assert SortedByScore(s[1..]);
      forall j | 0 <= j < |rest|
        ensures rest[j].matchScore <= s[0].matchScore
      {
        assert rest[j] in multiset(rest);
        if rest[j] != x {
          assert rest[j] in multiset(s[1..]);
          var k :| 0 <= k < |s[1..]| && s[1..][k] == rest[j];
          assert s[k + 1] == rest[j];
        }
      }
    }
  }

  lemma InsertKeepsTies(x: RankedCollab, s: seq<RankedCollab>, rest: seq<RankedCollab>)
    requires s != [] && s[0].matchScore > x.matchScore
    requires forall v :: WithScore(rest, v) == WithScore([x] + s[1..], v)
    ensures forall v :: WithScore([s[0]] + rest, v) == WithScore([x] + s, v)
  {
    forall v
      ensures WithScore([s[0]] + rest, v) == WithScore([x] + s, v)
    {
      assert ([s[0]] + rest)[1..] == rest;
      assert ([x] + s)[1..] == s;
      assert ([x] + s[1..])[1..] == s[1..];
      assert WithScore(rest, v) == WithScore([x] + s[1..], v);
    }
  }

  /**
   * The `sort((a, b) => b.matchScore - a.matchScore)` step: a stable sort
   * (Array.prototype.sort is stable by ECMA-262, 2023 edition, section 23.1.3.30),
   * written as an insertion sort.
   */
  function SortByScore(s: seq<RankedCollab>): (r: seq<RankedCollab>)
    ensures SortedByScore(r)
    ensures multiset(r) == multiset(s)
    ensures multiset(CollabsOf(r)) == multiset(CollabsOf(s))
    ensures forall v :: WithScore(r, v) == WithScore(s, v)
  {
    if s == [] then []
    else
      var rest := SortByScore(s[1..]);
      assert s == [s[0]] + s[1..];
      CollabsOfCons(s[0], s[1..]);
      SortKeepsTies(s, rest);
      InsertByScore(s[0], rest)
  }

  lemma SortKeepsTies(s: seq<RankedCollab>, rest: seq<RankedCollab>)
    requires s != []
    requires forall v :: WithScore(rest, v) == WithScore(s[1..], v)
    ensures forall v :: WithScore([s[0]] + rest, v) == WithScore(s, v)
  {
    forall v
      ensures WithScore([s[0]] + rest, v) == WithScore(s, v)
    {
      assert ([s[0]] + rest)[1..] == rest;
      assert WithScore(rest, v) == WithScore(s[1..], v);
    }
  }

  /** Every posting scored, in input order. */
  function ScoreAll(user: User, collabs: seq<Collab>, creators: map<string, User>, now: int): (r: seq<RankedCollab>)
    ensures |r| == |collabs|
    ensures forall i :: 0 <= i < |r| ==> r[i] == ScoreCollab(user, collabs[i], creators, now)
  {
    if collabs == [] then []
    else [ScoreCollab(user, collabs[0], creators, now)] + ScoreAll(user, collabs[1..], creators, now)
  }

  /**
   * `rankCollabs`: every posting (none is dropped, whatever its status), each
   * with its own score, ordered by non-increasing score, postings with equal
   * scores in their input order.
   */
  function RankCollabs(user: User, collabs: seq<Collab>, creators: map<string, User>, now: int): (r: seq<RankedCollab>)
    ensures |r| == |collabs|
    ensures multiset(CollabsOf(r)) == multiset(collabs)
    ensures SortedByScore(r)
    ensures multiset(r) == multiset(ScoreAll(user, collabs, creators, now))
    ensures forall v :: WithScore(r, v) == WithScore(ScoreAll(user, collabs, creators, now), v)
  {
    var scored := ScoreAll(user, collabs, creators, now);
    var r := SortByScore(scored);
    assert multiset(CollabsOf(r)) == multiset(collabs) by {
      assert CollabsOf(scored) == collabs;
    }
    assert |r| == |collabs| by {
      assert |r| == |multiset(r)| == |multiset(scored)|;
    }
    r
  }

  /** Each entry of the ranking carries the score of its own posting. */
  lemma RankedEntryIsScored(user: User, collabs: seq<Collab>, creators: map<string, User>, now: int, i: int)
    requires 0 <= i < |RankCollabs(user, collabs, creators, now)|
    ensures var e := RankCollabs(user, collabs, creators, now)[i];
            e == ScoreCollab(user, e.collab, creators, now)
  {
    var r := RankCollabs(user, collabs, creators, now);
    assert r[i] in ScoreAll(user, collabs, creators, now) by {
      assert r[i] in multiset(r);
    }
    ScoredEntry(user, collabs, creators, now, r[i]);
  }

  lemma ScoredEntry(user: User, collabs: seq<Collab>, creators: map<string, User>, now: int, x: RankedCollab)
    requires x in ScoreAll(user, collabs, creators, now)
    ensures x == ScoreCollab(user, x.collab, creators, now)
  {
    ScoreAllMember(user, collabs, creators, now, x);
    ScoredSomeCollab(user, collabs, creators, now, x);
  }

  lemma ScoreAllMember(user: User, collabs: seq<Collab>, creators: map<string, User>, now: int, x: RankedCollab)
    requires x in ScoreAll(user, collabs, creators, now)
    ensures exists j :: 0 <= j < |collabs| && x == ScoreCollab(user, collabs[j], creators, now)
  {
  }

  lemma ScoredSomeCollab(user: User, collabs: seq<Collab>, creators: map<string, User>, now: int, x: RankedCollab)
    requires exists j :: 0 <= j < |collabs| && x == ScoreCollab(user, collabs[j], creators, now)
    ensures x == ScoreCollab(user, x.collab, creators, now)
  {
    var j :| 0 <= j < |collabs| && x == ScoreCollab(user, collabs[j], creators, now);
  }

  /** With every creator's reliability in [0, 100], every match score lies in [0, 100]. */
  lemma RankedScoresBounded(user: User, collabs: seq<Collab>, creators: map<string, User>, now: int)
    requires forall id :: id in creators ==> 0 <= creators[id].reliabilityScore <= 100
    ensures forall i :: 0 <= i < |RankCollabs(user, collabs, creators, now)| ==>
              var e := RankCollabs(user, collabs, creators, now)[i];
              0 <= e.matchScore <= 100
  {
    var r := RankCollabs(user, collabs, creators, now);
    forall i | 0 <= i < |r|
      ensures 0 <= r[i].matchScore <= 100
    {
      RankedEntryIsScored(user, collabs, creators, now, i);
      ScoreWithinRange(user, r[i].collab, creators, now);
    }
  }

  lemma ScoreWithinRange(user: User, collab: Collab, creators: map<string, User>, now: int)
    requires forall id :: id in creators ==> 0 <= creators[id].reliabilityScore <= 100
    ensures 0 <= ScoreCollab(user, collab, creators, now).matchScore <= 100
  {
  }

  /**
   * A posting whose creator is missing scores 0 and therefore comes after
   * every posting whose creator is known (with a non-negative reliability).
   */
  lemma MissingCreatorsRankLast(user: User, collabs: seq<Collab>, creators: map<string, User>, now: int, i: int, j: int)
    requires forall id :: id in creators ==> creators[id].reliabilityScore >= 0
    requires 0 <= i < |RankCollabs(user, collabs, creators, now)|
    requires 0 <= j < |RankCollabs(user, collabs, creators, now)|
    requires RankCollabs(user, collabs, creators, now)[i].collab.creator1 !in creators
    requires RankCollabs(user, collabs, creators, now)[j].collab.creator1 in creators
    ensures j < i
  {
    var r := RankCollabs(user, collabs, creators, now);
    RankedScoreOfMissingCreator(user, collabs, creators, now, i);
    RankedScoreOfKnownCreator(user, collabs, creators, now, j);
    HigherScoreFirst(r, i, j);
  }

  lemma RankedScoreOfMissingCreator(user: User, collabs: seq<Collab>, creators: map<string, User>, now: int, i: int)
    requires 0 <= i < |RankCollabs(user, collabs, creators, now)|
    requires RankCollabs(user, collabs, creators, now)[i].collab.creator1 !in creators
    ensures RankCollabs(user, collabs, creators, now)[i].matchScore == 0
  {
    var r := RankCollabs(user, collabs, creators, now);
    RankedEntryIsScored(user, collabs, creators, now, i);
    ScoreOfMissingCreator(user, r[i].collab, creators, now);
  }

  lemma RankedScoreOfKnownCreator(user: User, collabs: seq<Collab>, creators: map<string, User>, now: int, j: int)
    requires forall id :: id in creators ==> creators[id].reliabilityScore >= 0
    requires 0 <= j < |RankCollabs(user, collabs, creators, now)|
    requires RankCollabs(user, collabs, creators, now)[j].collab.creator1 in creators
    ensures RankCollabs(user, collabs, creators, now)[j].matchScore >= 13
  {
    var r := RankCollabs(user, collabs, creators, now);
    RankedEntryIsScored(user, collabs, creators, now, j);
    ScoreOfKnownCreator(user, r[j].collab, creators, now);
  }

  lemma HigherScoreFirst(r: seq<RankedCollab>, i: int, j: int)
    requires SortedByScore(r)
    requires 0 <= i < |r| && 0 <= j < |r|
    requires r[i].matchScore < r[j].matchScore
    ensures j < i
  {
  }

  lemma ScoreOfMissingCreator(user: User, collab: Collab, creators: map<string, User>, now: int)
    requires collab.creator1 !in creators
    ensures ScoreCollab(user, collab, creators, now).matchScore == 0
  {
  }

  lemma ScoreOfKnownCreator(user: User, collab: Collab, creators: map<string, User>, now: int)
    requires collab.creator1 in creators && creators[collab.creator1].reliabilityScore >= 0
    ensures ScoreCollab(user, collab, creators, now).matchScore >= 13
  {
  }

  // ---------------------------------------------------------------------
  // A worked case
  // ---------------------------------------------------------------------

  /** Neither of "fitness" and "travel" contains the other. */
  lemma FitnessApartFromTravel()
    ensures !Includes("fitness", "travel") && !Includes("travel", "fitness")
  {
    NeedleLongerThanHay("travel", "fitness");
    assert "fitness"[1..] == "itness" && "itness"[1..] == "tness";
    NeedleLongerThanHay("tness", "travel");
    assert "travel"[0] != "itness"[0] && "travel"[0] != "fitness"[0];
    assert !IsPrefix("travel", "itness") && !IsPrefix("travel", "fitness");
    assert !Includes("itness", "travel");
  }

  /** Neither of "food" and "travel" contains the other. */
  lemma FoodApartFromTravel()
    ensures !Includes("travel", "food") && !Includes("food", "travel")
  {
    NeedleLongerThanHay("food", "travel");
    assert "travel"[1..] == "ravel" && "ravel"[1..] == "avel" && "avel"[1..] == "vel";
    NeedleLongerThanHay("vel", "food");
    assert "food"[0] != "avel"[0] && "food"[0] != "ravel"[0] && "food"[0] != "travel"[0];
    assert !IsPrefix("food", "avel") && !IsPrefix("food", "ravel") && !IsPrefix("food", "travel");
    assert !Includes("avel", "food");
    assert !Includes("ravel", "food");
  }

  /** "travel" overlaps neither "fitness" nor "food". */
  lemma TravelOverlapsNothing()
    ensures !Overlaps("travel", ["fitness", "food"])
  {
    FitnessApartFromTravel();
    FoodApartFromTravel();
    forall c | c in ["fitness", "food"]
      ensures !Includes(c, "travel") && !Includes("travel", c)
    {
      assert c == "fitness" || c == "food";
    }
  }

  /** Lowercased, "fitness" matches the creator's tags exactly and "travel" not at all. */
  lemma FitnessTagMatches()
    ensures OverlapCount(["fitness", "travel"], ["fitness", "food"]) == 1
    ensures ExactCount(["fitness", "travel"], ["fitness", "food"]) == 1
  {
    var cands := ["fitness", "food"];
    IncludesSelf("fitness");
    assert "fitness" in cands;
    assert Overlaps("fitness", cands);
    TravelOverlapsNothing();
    assert "travel" !in cands;
    assert ["fitness", "travel"][1..] == ["travel"];
    assert ["travel"][1..] == [];
    assert OverlapCount(["travel"], cands) == 0;
    assert ExactCount(["travel"], cands) == 0;
  }

  /** Lower-casing the two tag lists of the worked case below. */
  lemma FitnessTagsLowered()
    ensures LowerAll(["fitness", "travel"]) == ["fitness", "travel"]
    ensures LowerAll(["Fitness", "Food"]) == ["fitness", "food"]
  {
    assert Lower("Fitness") == "fitness" && Lower("Food") == "food";
    assert Lower("fitness") == "fitness" && Lower("travel") == "travel";
  }

  /** The worked case's tag score: round(1 * 40 / 2) = 20 plus 2 for the one exact match. */
  lemma FitnessTagOverlap()
    ensures TagOverlap(["fitness", "travel"], ["Fitness", "Food"], None) == 22
  {
    assert CandidateTags(["Fitness", "Food"], None) == ["Fitness", "Food"];
    FitnessTagsLowered();
    FitnessTagMatches();
    assert RoundDiv(1 * TagWeight, 2) == 20;
  }

  /**
   * A worked case: a viewer tagged fitness and travel in the 10k-50k bucket
   * and a posting, created two hours ago, by a creator tagged Fitness and
   * Food in the same bucket, with 12 completed collaborations and
   * reliability 80. One of the two viewer tags overlaps (and matches
   * exactly, case aside), giving 20 + 2 tag points; the buckets are equal
   * (30); the posting is fresh and the creator busy (12 + 8); reliability
   * rounds to 8. The match score is 80.
   */
  lemma FitnessScenario(now: int)
    ensures var viewer := User("v", ["fitness", "travel"], [], Some("10k-50k"), 50, 0);
            var creator := User("c", ["Fitness", "Food"], [], Some("10k-50k"), 80, 12);
            var collab := Collab("p", "c", Pending, None, now - 2 * 60 * 60 * 1000);
            var r := ScoreCollab(viewer, collab, map["c" := creator], now);
            r.breakdown == Breakdown(22, 30, 20, 8) && r.matchScore == 80
  {
    var viewer := User("v", ["fitness", "travel"], [], Some("10k-50k"), 50, 0);
    var creator := User("c", ["Fitness", "Food"], [], Some("10k-50k"), 80, 12);
    assert viewer.AllTags() == ["fitness", "travel"];
    assert creator.AllTags() == ["Fitness", "Food"];
    FitnessTagOverlap();
    assert RecentActivity(now - 2 * 60 * 60 * 1000, 12, now) == 20;
    assert ReliabilityPoints(80) == 8;
  }

  // ---------------------------------------------------------------------
  // Explanation
  // ---------------------------------------------------------------------

  /** The separator literal of the source, kept as it is stored there. */
  const Separator: string := " \U{E2}\U{20AC}\U{A2} "

  const NoMatch: string := "No match"

  /** One line item such as "Tags: 22pts". */
  function Part(title: string, points: int): (s: string)
    requires |title| > 0 && points > 0
    ensures IsPrefix(title + ": ", s)
    ensures |s| > 0 && s[0] == title[0]
  {
    title + ": " + NatToString(points) + "pts"
  }

  /** The item titles, in the order the explanation lists them. */
  const Titles: seq<string> := ["Tags", "Follower tier", "Activity", "Reliability"]

  /** The breakdown's components, in the order of `Titles`. */
  function Points(b: Breakdown): seq<int>
  {
    [b.tagOverlap, b.followerTier, b.recentActivity, b.reliability]
  }

  /** The positions k >= from with pts[k] > 0, in increasing order. */
  function PositiveFrom(pts: seq<int>, from: nat): (r: seq<nat>)
    requires from <= |pts|
    ensures forall i :: 0 <= i < |r| ==> from <= r[i] < |pts| && pts[r[i]] > 0
    decreases |pts| - from
  {
    if from == |pts| then []
    else (if pts[from] > 0 then [from] else []) + PositiveFrom(pts, from + 1)
  }

  /** Every positive position from `from` on is listed. */
  lemma {:induction false} PositiveFromComplete(pts: seq<int>, from: nat)
    requires from <= |pts|
    ensures forall k :: from <= k < |pts| && pts[k] > 0 ==> k in PositiveFrom(pts, from)
    decreases |pts| - from
  {
    if from < |pts| {
      PositiveFromComplete(pts, from + 1);
      var rest := PositiveFrom(pts, from + 1);
      assert PositiveFrom(pts, from) == (if pts[from] > 0 then [from] else []) + rest;
    }
  }

  /** The listed positions are strictly increasing. */
  lemma {:induction false} PositiveFromIncreasing(pts: seq<int>, from: nat)
    requires from <= |pts|
    ensures forall i, j :: 0 <= i < j < |PositiveFrom(pts, from)| ==>
              PositiveFrom(pts, from)[i] < PositiveFrom(pts, from)[j]
    decreases |pts| - from
  {
    if from < |pts| {
      PositiveFromIncreasing(pts, from + 1);
      var rest := PositiveFrom(pts, from + 1);
      var r := PositiveFrom(pts, from);
      assert r == (if pts[from] > 0 then [from] else []) + rest;
      assert forall i :: 0 <= i < |rest| ==> from < rest[i];
    }
  }

  /** For a breakdown, the positive positions are the positive components' indices, written out. */
  lemma ShownComponents(b: Breakdown)
    ensures PositiveFrom(Points(b), 0)
            == (if b.tagOverlap > 0 then [0] else [])
               + ((if b.followerTier > 0 then [1] else [])
                  + ((if b.recentActivity > 0 then [2] else []) + (if b.reliability > 0 then [3] else [])))
  {
    var pts := Points(b);
    assert PositiveFrom(pts, 4) == [];
    assert PositiveFrom(pts, 3) == (if b.reliability > 0 then [3] else []);
    assert PositiveFrom(pts, 2) == (if b.recentActivity > 0 then [2] else []) + PositiveFrom(pts, 3);
    assert PositiveFrom(pts, 1) == (if b.followerTier > 0 then [1] else []) + PositiveFrom(pts, 2);
  }

  /**
   * The line items of the positive components: item i is the one of the
   * i-th positive component, so exactly the positive components get an
   * item, each with its own points, in the order of `Titles`.
   */
  function Parts(b: Breakdown): (ps: seq<string>)
    ensures var shown := PositiveFrom(Points(b), 0);
            |ps| == |shown|
            && forall i :: 0 <= i < |ps| ==> ps[i] == Part(Titles[shown[i]], Points(b)[shown[i]])
  {
    ShownComponents(b);
    (if b.tagOverlap > 0 then [Part("Tags", b.tagOverlap)] else [])
    + ((if b.followerTier > 0 then [Part("Follower tier", b.followerTier)] else [])
       + ((if b.recentActivity > 0 then [Part("Activity", b.recentActivity)] else [])
          + (if b.reliability > 0 then [Part("Reliability", b.reliability)] else [])))
  }

  /** `getRankingExplanation`. */
  function RankingExplanation(b: Breakdown): (r: string)
    ensures r == NoMatch <==> b.tagOverlap <= 0 && b.followerTier <= 0 && b.recentActivity <= 0 && b.reliability <= 0
    ensures r != NoMatch ==> r == Join(Parts(b), Separator)
    ensures b.tagOverlap > 0 ==> IsPrefix(Part("Tags", b.tagOverlap), r)
  {
    var ps := Parts(b);
    var joined := Join(ps, Separator);
    assert |ps| > 0 ==> |joined| > 0 && joined[0] == ps[0][0];
    if joined == "" then NoMatch else joined
  }

  /** With all four components positive, all four items appear, in order. */
  lemma ExplanationAllComponents(b: Breakdown)
    requires b.tagOverlap > 0 && b.followerTier > 0 && b.recentActivity > 0 && b.reliability > 0
    ensures RankingExplanation(b)
            == Part("Tags", b.tagOverlap) + Separator + Part("Follower tier", b.followerTier) + Separator
               + Part("Activity", b.recentActivity) + Separator + Part("Reliability", b.reliability)
  {
    var ps := Parts(b);
    assert ps == [Part("Tags", b.tagOverlap), Part("Follower tier", b.followerTier),
                  Part("Activity", b.recentActivity), Part("Reliability", b.reliability)];
    assert ps[1..][1..][1..] == [ps[3]];
    assert Join(ps[1..][1..], Separator) == ps[2] + Separator + ps[3];
    assert Join(ps[1..], Separator) == ps[1] + Separator + ps[2] + Separator + ps[3];
  }

  /** A mixed breakdown: the components at most 0 get no item, and the others keep their order. */
  lemma ExplanationSkipsNonPositive(b: Breakdown)
    requires b.tagOverlap <= 0 && b.followerTier > 0 && b.recentActivity <= 0 && b.reliability > 0
    ensures RankingExplanation(b)
            == Part("Follower tier", b.followerTier) + Separator + Part("Reliability", b.reliability)
  {
    var ps := Parts(b);
    assert ps == [Part("Follower tier", b.followerTier), Part("Reliability", b.reliability)];
    assert ps[1..] == [ps[1]];
  }

  /** The number shown in a line item reads back as the component's points. */
  lemma PartShowsPoints(title: string, points: int)
    requires |title| > 0 && points > 0
    ensures exists digits: string ::
              && (forall i :: 0 <= i < |digits| ==> '0' <= digits[i] <= '9')
              && Part(title, points) == title + ": " + digits + "pts"
              && DecimalValue(digits) == points
  {
    NatToStringRoundTrip(points);
    var digits := NatToString(points);
    assert Part(title, points) == title + ": " + digits + "pts";
  }
}
