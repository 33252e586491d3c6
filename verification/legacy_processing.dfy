/**
 * The older revision of the helpers, app/processing.ts, which the
 * leaderboard and the big screen still import.  Its percentile is the
 * rounded share `place / total * 100`, not the newer floored share of
 * teams placed below.
 */
module LegacyProcessing {
  import opened Base
  import opened Types
  import Processing

  /** `getTotalScore`, written as in the newer file. */
  function TotalScore(data: Option<TeamData>): (r: Option<int>)
    ensures r.None? <==> data.None?
    ensures data.Some? && |data.value.images| == 0 ==> r == Some(0)
  {
    match data
    case None => None
    case Some(d) => Some(Processing.SumScores(d.images))
  }

  /** Both revisions total a team the same way. */
  lemma TotalScoreAgrees(data: Option<TeamData>)
    ensures TotalScore(data) == Processing.TotalScore(data)
  {
  }

  /**
   * `Math.round((place / total) * 100)`, taken as exact rational
   * arithmetic: the nearest integer to 100 * place / total, halves rounded up.
   */
  function GetPercentile(rk: Ranking): (p: int)
    requires rk.total > 0
    ensures 2 * p * rk.total - rk.total <= 200 * rk.place < 2 * p * rk.total + rk.total
    ensures ValidRanking(rk) ==> 0 <= p <= 100
    ensures rk.place == rk.total ==> p == 100
  {
    var n := 200 * rk.place + rk.total;
    RoundBounds(n, rk.place, rk.total);
    n / (2 * rk.total)
  }

  lemma RoundBounds(n: int, place: int, t: int)
    requires t > 0 && n == 200 * place + t
    ensures var p := n / (2 * t);
      2 * p * t <= n < 2 * p * t + 2 * t
    ensures 1 <= place <= t ==> 0 <= n / (2 * t) <= 100
    ensures place == t ==> n / (2 * t) == 100
  {
    var d := 2 * t;
    var p := n / d;
    assert n == p * d + n % d;
    assert 2 * p * t == p * d;
    if 1 <= place <= t {
      assert (p + 1) * d > 0;
      Processing.PositiveFactor(p + 1, d);
      assert (101 - p) * d > 0;
      Processing.PositiveFactor(101 - p, d);
    }
    if place == t {
      assert (2 * p - 199) * t > 0;
      Processing.PositiveFactor(2 * p - 199, t);
    }
  }

  /** `getOrdinal`, written as in the newer file. */
  function GetOrdinal(n: int): (s: string)
    ensures s in Processing.OrdinalSuffixes
  {
    var v := TruncRem(n, 100);
    match Processing.SuffixAt(TruncRem(v - 20, 10))
    case Some(s) => s
    case None => Processing.SuffixAt(v).GetOr(Processing.OrdinalSuffixes[0])
  }

  /** Both revisions pick the same suffix for every integer. */
  lemma GetOrdinalAgrees(n: int)
    ensures GetOrdinal(n) == Processing.GetOrdinal(n)
  {
  }

  /** `formatPercentile` over the rounded percentile. */
  function FormatPercentile(rk: Ranking): (s: string)
    requires ValidRanking(rk)
    ensures |s| == |NatToString(GetPercentile(rk))| + 2 + |Processing.PercentileWord|
    ensures s[|s| - |Processing.PercentileWord|..] == Processing.PercentileWord
  {
    var p := GetPercentile(rk);
    NatToString(p) + GetOrdinal(p) + Processing.PercentileWord
  }

  /** The label reads back as the rounded percentile, followed by its English suffix. */
  lemma FormatPercentileReadsBack(rk: Ranking)
    requires ValidRanking(rk)
    ensures Processing.ParsePercentile(FormatPercentile(rk)) == Some(GetPercentile(rk))
    ensures var s := FormatPercentile(rk);
      var w := |Processing.PercentileWord|;
      s[|s| - 2 - w..|s| - w] == Processing.EnglishOrdinal(GetPercentile(rk))
  {
    var p := GetPercentile(rk);
    var s := FormatPercentile(rk);
    var w := |Processing.PercentileWord|;
    assert s[..|s| - 2 - w] == NatToString(p);
    assert s[|s| - 2 - w..|s| - w] == GetOrdinal(p);
    NatToStringRoundTrip(p);
    Processing.GetOrdinalIsEnglish(p);
  }

  /** The top team of 100 is in the first rounded percentile. */
  lemma FirstOfHundredRounded()
    ensures GetPercentile(Ranking(1, 100)) == 1
    ensures FormatPercentile(Ranking(1, 100)) == "1st Percentile"
  {
    assert GetPercentile(Ranking(1, 100)) == 300 / 200 == 1;
    assert GetOrdinal(1) == "st";
    assert NatToString(1) == "1";
  }

  /**
   * The top team of 100 reads "1st Percentile" here but "99th Percentile"
   * with the newer helper.
   */
  lemma RevisionsDiverge()
    ensures FormatPercentile(Ranking(1, 100)) == "1st Percentile"
    ensures Processing.FormatPercentile(Ranking(1, 100)) == "99th Percentile"
  {
    FirstOfHundredRounded();
    Processing.FirstOfHundred();
  }

  /** The last-placed team reads "100th Percentile". */
  lemma LastPlaceIsHundredth(t: int)
    requires t > 0
    ensures FormatPercentile(Ranking(t, t)) == "100th Percentile"
  {
    assert GetPercentile(Ranking(t, t)) == 100;
    assert GetOrdinal(100) == "th";
    assert NatToString(100) == NatToString(10) + "0" == "100";
  }
}
