/**
 * The pure part of the reliability scorer (mobile/lib/reliability.ts):
 * average response latency over the message history, completion rate and
 * abandonment over the user's collaborations, and the 0-100 score built
 * from them. The two backend queries are inputs; timestamps are integer
 * milliseconds.
 */
module Reliability {
  import opened Wrappers
  import opened Schema

  /** Milliseconds in an hour: `1000 * 60 * 60`. */
  const HourMs: int := 1000 * 60 * 60

  /** A row of the message query: `created_at, sender_id, receiver_id`. */
  datatype MessageRow = MessageRow(createdAt: int, senderId: string, receiverId: string)

  /**
   * What a backend query hands back: its rows, a null `data` field (the
   * backend reports errors in-band, so nothing is thrown), or an exception.
   */
  datatype Query<T> = Rows(rows: seq<T>) | NoData | Threw

  /** `ReliabilityMetrics`: hours, percent, a count and the 0-100 score. */
  datatype Metrics = Metrics(responseTime: real, completionRate: real, abandonedCount: int, totalScore: int)

  /** The value returned from the `catch` block. */
  const Fallback: Metrics := Metrics(0.0, 0.0, 0, 50)

  /** A null `data` is treated as no rows. */
  function RowsOrEmpty<T>(q: Query<T>): seq<T>
  {
    if q.Rows? then q.rows else []
  }

  // ---------------------------------------------------------------------
  // Response time
  // ---------------------------------------------------------------------

  /** The earlier message was sent to the user and the next one is the user's reply. */
  predicate IsResponse(prev: MessageRow, curr: MessageRow, user: string)
  {
    prev.receiverId == user && curr.senderId == user
  }

  /** Sum, in milliseconds, of the gaps of all adjacent response pairs of ms. */
  function ResponseMillis(ms: seq<MessageRow>, user: string): int
  {
    if |ms| < 2 then 0
    else
      ResponseMillis(ms[..|ms| - 1], user)
      + (if IsResponse(ms[|ms| - 2], ms[|ms| - 1], user) then ms[|ms| - 1].createdAt - ms[|ms| - 2].createdAt else 0)
  }

  /** Number of adjacent response pairs of ms: at most one per message after the first. */
  function ResponseCount(ms: seq<MessageRow>, user: string): (n: nat)
    ensures n <= if |ms| < 2 then 0 else |ms| - 1
  {
    if |ms| < 2 then 0
    else ResponseCount(ms[..|ms| - 1], user) + (if IsResponse(ms[|ms| - 2], ms[|ms| - 1], user) then 1 else 0)
  }

  /** Average response time in hours; 0 when there is no response pair. */
  function AverageHours(ms: seq<MessageRow>, user: string): real
  {
    var count := ResponseCount(ms, user);
    if count > 0 then ((ResponseMillis(ms, user) as real) / (HourMs as real)) / (count as real) else 0.0
  }

  /** Timestamps never decrease along the history (the query orders by `created_at` ascending). */
  predicate Chronological(ms: seq<MessageRow>)
  {
    forall i, j :: 0 <= i < j < |ms| ==> ms[i].createdAt <= ms[j].createdAt
  }

  /** In a chronological history every response gap, and so the total, is non-negative. */
  lemma {:induction false} ResponseMillisNonNegative(ms: seq<MessageRow>, user: string)
    requires Chronological(ms)
    ensures ResponseMillis(ms, user) >= 0
  {
    if |ms| >= 2 {
      assert Chronological(ms[..|ms| - 1]);
      ResponseMillisNonNegative(ms[..|ms| - 1], user);
    }
  }

  /** In a chronological history the average response time is never negative. */
  lemma AverageHoursNonNegative(ms: seq<MessageRow>, user: string)
    requires Chronological(ms)
    ensures AverageHours(ms, user) >= 0.0
  {
    ResponseMillisNonNegative(ms, user);
    var count := ResponseCount(ms, user);
    if count > 0 {
      var hours := (ResponseMillis(ms, user) as real) / (HourMs as real);
      assert hours >= 0.0;
      QuotientNonNegative(hours, count as real);
    }
  }

  // ---------------------------------------------------------------------
  // Collaboration counts
  // ---------------------------------------------------------------------

  /** `collabs.filter(c => c.status === s).length` */
  function CountStatus(statuses: seq<Status>, s: Status): (n: nat)
    ensures n <= |statuses|
  {
    if statuses == [] then 0
    else (if statuses[0] == s then 1 else 0) + CountStatus(statuses[1..], s)
  }

  /** Completed and cancelled collaborations together never outnumber all collaborations. */
  lemma {:induction false} CountsWithinTotal(statuses: seq<Status>)
    ensures CountStatus(statuses, Completed) + CountStatus(statuses, Cancelled) <= |statuses|
  {
    if statuses != [] {
      CountsWithinTotal(statuses[1..]);
    }
  }

  /** Completed collaborations as a percentage of all of them; 0 when there are none. */
  function CompletionRate(statuses: seq<Status>): (rate: real)
    ensures 0.0 <= rate <= 100.0
  {
    if |statuses| > 0 then
      var completed := CountStatus(statuses, Completed);
      QuotientCompare(completed as real, |statuses| as real, 0.0);
      QuotientCompare(completed as real, |statuses| as real, 1.0);
      ((completed as real) / (|statuses| as real)) * 100.0
    else 0.0
  }

  // ---------------------------------------------------------------------
  // Score rules, stated on whole numbers by cross-multiplication
  // ---------------------------------------------------------------------

  /**
   * +20 when the average is under 24 hours (also when there is no response
   * pair, whose average is 0), +10 under 48, -10 above 72, else 0.
   */
  function ResponseAdjustment(totalMs: int, count: nat): int
  {
    if count == 0 || totalMs < 24 * HourMs * count then 20
    else if totalMs < 48 * HourMs * count then 10
    else if totalMs > 72 * HourMs * count then -10
    else 0
  }

  /** +20 at a rate of 80% or more, +10 at 60% or more, -15 under 40% (and with no collaborations), else 0. */
  function CompletionAdjustment(completed: nat, total: nat): int
  {
    if total > 0 && 100 * completed >= 80 * total then 20
    else if total > 0 && 100 * completed >= 60 * total then 10
    else if total == 0 || 100 * completed < 40 * total then -15
    else 0
  }

  /** 5 points per cancelled collaboration, and 20 more when more than 30% were cancelled. */
  function AbandonmentPenalty(abandoned: nat, total: nat): int
  {
    5 * abandoned + (if 10 * abandoned > 3 * total then 20 else 0)
  }

  function Clamp(x: int): (r: int)
    ensures 0 <= r <= 100
    ensures 0 <= x <= 100 ==> r == x
  {
    if x < 0 then 0 else if x > 100 then 100 else x
  }

  /**
   * The score: base 50 plus the three adjustments, clamped to [0, 100].
   * The bonuses add up to at most 40, so it never exceeds 90.
   */
  function ReliabilityScore(ms: seq<MessageRow>, statuses: seq<Status>, user: string): (score: int)
    ensures 0 <= score <= 90
  {
    Clamp(50
          + ResponseAdjustment(ResponseMillis(ms, user), ResponseCount(ms, user))
          + CompletionAdjustment(CountStatus(statuses, Completed), |statuses|)
          - AbandonmentPenalty(CountStatus(statuses, Cancelled), |statuses|))
  }

  /** What `calculateReliabilityScore` returns for the two query outcomes. */
  function ExpectedMetrics(user: string, messages: Query<MessageRow>, collabs: Query<Status>): Metrics
  {
    if messages.Threw? || collabs.Threw? then Fallback
    else
      var ms := RowsOrEmpty(messages);
      var statuses := RowsOrEmpty(collabs);
      Metrics(AverageHours(ms, user), CompletionRate(statuses), CountStatus(statuses, Cancelled),
              ReliabilityScore(ms, statuses, user))
  }

  // ---------------------------------------------------------------------
  // Real-number facts linking the source's comparisons to the rules above
  // ---------------------------------------------------------------------

  lemma QuotientNonNegative(x: real, c: real)
    requires x >= 0.0 && c > 0.0
    ensures x / c >= 0.0
  {
  }

  /** For a positive divisor, comparing a quotient with k is comparing the dividend with k times the divisor. */
  lemma QuotientCompare(x: real, c: real, k: real)
    requires c > 0.0
    ensures (x / c < k) == (x < k * c)
    ensures (x / c > k) == (x > k * c)
    ensures (x / c >= k) == (x >= k * c)
  {
    assert x == (x / c) * c;
  }

  // ---------------------------------------------------------------------
  // The scorer
  // ---------------------------------------------------------------------

  /**
   * The pass over the message history: for each adjacent pair where the
   * user replies to a message addressed to them, adds the gap in hours and
   * counts one response.
   */
  method SumResponseTimes(ms: seq<MessageRow>, userId: string) returns (totalResponseTime: real, responseCount: nat)
    ensures totalResponseTime == (ResponseMillis(ms, userId) as real) / (HourMs as real)
    ensures responseCount == ResponseCount(ms, userId)
  {
    totalResponseTime := 0.0;
    responseCount := 0;
    if |ms| > 1 {
      var i := 1;
      while i < |ms|
        invariant 1 <= i <= |ms|
        invariant totalResponseTime == (ResponseMillis(ms[..i], userId) as real) / (HourMs as real)
        invariant responseCount == ResponseCount(ms[..i], userId)
      {
        var prev := ms[i - 1];
        var curr := ms[i];
        assert ms[..i + 1][..i] == ms[..i];
        if prev.receiverId == userId && curr.senderId == userId {
          var timeDiff := curr.createdAt - prev.createdAt;
          var hours := (timeDiff as real) / (HourMs as real);
          totalResponseTime := totalResponseTime + hours;
          responseCount := responseCount + 1;
        }
        i := i + 1;
      }
      assert ms[..i] == ms;
    }
  }

  /**
   * `calculateReliabilityScore` without its queries: one pass over the
   * message history accumulating response hours, the status counts, and
   * the score adjusted step by step and clamped. A thrown query yields
   * the fallback metrics.
   */
  method CalculateReliabilityScore(userId: string, messages: Query<MessageRow>, collabs: Query<Status>)
    returns (m: Metrics)
    ensures m == ExpectedMetrics(userId, messages, collabs)
    ensures 0 <= m.totalScore <= 90
  {
    if messages.Threw? {
      return Fallback;
    }
    var ms := RowsOrEmpty(messages);
    var totalResponseTime, responseCount := SumResponseTimes(ms, userId);
    var avgResponseTime: real := if responseCount > 0 then totalResponseTime / (responseCount as real) else 0.0;

    if collabs.Threw? {
      return Fallback;
    }
    var statuses := RowsOrEmpty(collabs);
    var totalCollabs := |statuses|;
    var completedCollabs := CountStatus(statuses, Completed);
    var abandonedCollabs := CountStatus(statuses, Cancelled);
    var completionRate: real :=
      if totalCollabs > 0 then ((completedCollabs as real) / (totalCollabs as real)) * 100.0 else 0.0;

    var score := 50;
    if avgResponseTime < 24.0 {
      score := score + 20;
    } else if avgResponseTime < 48.0 {
      score := score + 10;
    } else if avgResponseTime > 72.0 {
      score := score - 10;
    }
    if completionRate >= 80.0 {
      score := score + 20;
    } else if completionRate >= 60.0 {
      score := score + 10;
    } else if completionRate < 40.0 {
      score := score - 15;
    }
    score := score - abandonedCollabs * 5;
    if (abandonedCollabs as real) > (totalCollabs as real) * 0.3 {
      score := score - 20;
    }
    score := Max(0, Min(100, score));

    ResponseRulesAgree(totalResponseTime, responseCount, ResponseMillis(ms, userId));
    CompletionRulesAgree(completedCollabs, totalCollabs);
    m := Metrics(avgResponseTime, completionRate, abandonedCollabs, score);
  }

  /** The source's comparisons of the average in hours decide as the whole-millisecond rule does. */
  lemma ResponseRulesAgree(totalHours: real, count: nat, totalMs: int)
    requires totalHours == (totalMs as real) / (HourMs as real)
    ensures var avg := if count > 0 then totalHours / (count as real) else 0.0;
            ResponseAdjustment(totalMs, count)
            == if avg < 24.0 then 20 else if avg < 48.0 then 10 else if avg > 72.0 then -10 else 0
  {
    if count > 0 {
      QuotientCompare(totalHours, count as real, 24.0);
      QuotientCompare(totalHours, count as real, 48.0);
      QuotientCompare(totalHours, count as real, 72.0);
    }
  }

  /** The source's comparisons of the completion percentage decide as the cross-multiplied rule does. */
  lemma CompletionRulesAgree(completed: nat, total: nat)
    ensures var rate := if total > 0 then ((completed as real) / (total as real)) * 100.0 else 0.0;
            CompletionAdjustment(completed, total)
            == if rate >= 80.0 then 20 else if rate >= 60.0 then 10 else if rate < 40.0 then -15 else 0
  {
    if total > 0 {
      QuotientCompare(completed as real, total as real, 0.8);
      QuotientCompare(completed as real, total as real, 0.6);
      QuotientCompare(completed as real, total as real, 0.4);
    }
  }

  // ---------------------------------------------------------------------
  // Consequences of the rules
  // ---------------------------------------------------------------------

  /**
   * With no messages and no collaborations the score is 55, not the base
   * 50: an average of 0 hours earns +20 and a completion rate of 0 costs -15.
   */
  lemma EmptyHistoryScores55(user: string, messages: Query<MessageRow>, collabs: Query<Status>)
    requires messages == NoData || messages == Rows([])
    requires collabs == NoData || collabs == Rows([])
    ensures ExpectedMetrics(user, messages, collabs) == Metrics(0.0, 0.0, 0, 55)
  {
    assert RowsOrEmpty(messages) == [] && RowsOrEmpty(collabs) == [];
  }

  /**
   * The extra 20-point abandonment penalty applies exactly when strictly more
   * than 30% of the collaborations were cancelled, as the source's real
   * comparison `abandoned > total * 0.3` decides.
   */
  lemma AbandonmentThresholdStrict(abandoned: nat, total: nat)
    ensures AbandonmentPenalty(abandoned, total) == 5 * abandoned + 20
            <==> (abandoned as real) > (total as real) * 0.3
    ensures 10 * abandoned == 3 * total ==> AbandonmentPenalty(abandoned, total) == 5 * abandoned
  {
  }

  /** Cancelling 3 of 10 collaborations sits on the threshold and loses exactly 15 points. */
  lemma ThreeOfTenCancelledLoses15(statuses: seq<Status>)
    requires |statuses| == 10 && CountStatus(statuses, Cancelled) == 3
    ensures AbandonmentPenalty(CountStatus(statuses, Cancelled), |statuses|) == 15
  {
  }

  /** The abandoned count reported is never more than the number of collaborations. */
  lemma AbandonedWithinTotal(user: string, messages: Query<MessageRow>, collabs: Query<Status>)
    ensures 0 <= ExpectedMetrics(user, messages, collabs).abandonedCount <= |RowsOrEmpty(collabs)|
  {
  }

  /**
   * The best possible history: every reply within a day and every
   * collaboration completed with none cancelled scores 90, the maximum.
   */
  lemma BestHistoryScores90(ms: seq<MessageRow>, statuses: seq<Status>, user: string)
    requires ResponseAdjustment(ResponseMillis(ms, user), ResponseCount(ms, user)) == 20
    requires |statuses| > 0 && CountStatus(statuses, Completed) == |statuses|
    ensures ReliabilityScore(ms, statuses, user) == 90
  {
    CountsWithinTotal(statuses);
  }
}
