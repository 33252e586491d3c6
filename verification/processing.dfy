/**
 * The derivation helpers of app/utils/processing.ts: total score,
 * percentile and its English ordinal, the chart series, and the "stopped"
 * test over a runtime-log entry.
 */
module Processing {
  import opened Base
  import opened Types

  // ---------------------------------------------------------------------
  // Total score
  // ---------------------------------------------------------------------

  /** `images.reduce((a, b) => a + b.score, 0)`, folded from the left. */
  function SumScores(images: seq<Image>): int
  {
    if |images| == 0 then 0 else SumScores(images[..|images| - 1]) + images[|images| - 1].score
  }

  /** The sum splits over a concatenation, so it is the plain sum of all scores. */
  lemma {:induction false} SumScoresAppend(a: seq<Image>, b: seq<Image>)
    ensures SumScores(a + b) == SumScores(a) + SumScores(b)
    decreases |b|
  {
    if |b| == 0 {
      assert a + b == a;
    } else {
      assert (a + b)[..|a + b| - 1] == a + b[..|b| - 1];
      assert (a + b)[|a + b| - 1] == b[|b| - 1];
      SumScoresAppend(a, b[..|b| - 1]);
    }
  }

  /** The sum is the first score plus the sum of the rest. */
  lemma SumScoresCons(images: seq<Image>)
    requires |images| > 0
    ensures SumScores(images) == images[0].score + SumScores(images[1..])
  {
    assert images == [images[0]] + images[1..];
    SumScoresAppend([images[0]], images[1..]);
  }

  /**
   * `getTotalScore`: absent when the team has no data, which is distinct
   * from a legitimate total of zero.
   */
  function TotalScore(data: Option<TeamData>): (r: Option<int>)
    ensures r.None? <==> data.None?
    ensures data.Some? && |data.value.images| == 0 ==> r == Some(0)
    ensures data.Some? && |data.value.images| > 0 ==>
      r == Some(data.value.images[0].score + SumScores(data.value.images[1..]))
  {
    match data
    case None => None
    case Some(d) =>
      if |d.images| > 0 then
        SumScoresCons(d.images);
        Some(SumScores(d.images))
      else Some(SumScores(d.images))
  }

  /** Scores 50, 30 and 20 add up to 100. */
  lemma TotalScoreExample(d: TeamData)
    requires |d.images| == 3
    requires d.images[0].score == 50 && d.images[1].score == 30 && d.images[2].score == 20
    ensures TotalScore(Some(d)) == Some(100)
  {
    SumScoresCons(d.images);
    SumScoresCons(d.images[1..]);
    SumScoresCons(d.images[2..]);
  }

  // ---------------------------------------------------------------------
  // Percentile and ordinal
  // ---------------------------------------------------------------------

  /**
   * `Math.floor(100 * (total - place) / total)`: the share of teams placed
   * strictly below, rounded down.  Only a zero total is out of reach.
   */
  function GetPercentile(rk: Ranking): (p: int)
    requires rk.total > 0
    ensures p * rk.total <= 100 * (rk.total - rk.place) < (p + 1) * rk.total
    ensures ValidRanking(rk) ==> 0 <= p <= 99
  {
    var n := 100 * (rk.total - rk.place);
    FloorBounds(n, rk.total, ValidRanking(rk));
    n / rk.total
  }

  /**
   * Euclidean division by a positive divisor rounds down; a dividend in
   * 0 .. 100 * t - 1 gives a quotient in 0..99.
   */
  lemma FloorBounds(n: int, t: int, inRange: bool)
    requires t > 0
    requires inRange ==> 0 <= n <= 100 * t - 100
    ensures (n / t) * t <= n < (n / t + 1) * t
    ensures inRange ==> 0 <= n / t <= 99
  {
    var p := n / t;
    assert n == p * t + n % t;
    if !inRange {
      return;
    }
    assert (p + 1) * t > 0;
    PositiveFactor(p + 1, t);
    assert (100 - p) * t > 0;
    PositiveFactor(100 - p, t);
  }

  /** A positive product with a positive factor has a positive co-factor. */
  lemma PositiveFactor(x: int, t: int)
    requires t > 0 && x * t > 0
    ensures x > 0
  {
  }

  const OrdinalSuffixes: seq<string> := ["th", "st", "nd", "rd"]

  /** `s[i]` on the suffix array: undefined outside 0..3 (an index of -0 reads s[0]). */
  function SuffixAt(i: int): (r: Option<string>)
    ensures r.Some? <==> 0 <= i < 4
  {
    if 0 <= i < |OrdinalSuffixes| then Some(OrdinalSuffixes[i]) else None
  }

  /**
   * `getOrdinal`: `s[(v - 20) % 10] || s[v] || s[0]` with `v = n % 100`,
   * both remainders truncated as in JavaScript.  Every suffix is a non-empty
   * string, so `||` falls through exactly on undefined.
   */
  function GetOrdinal(n: int): (s: string)
    ensures s in OrdinalSuffixes
  {
    var v := TruncRem(n, 100);
    match SuffixAt(TruncRem(v - 20, 10))
    case Some(s) => s
    case None => SuffixAt(v).GetOr(OrdinalSuffixes[0])
  }

  /** The English ordinal suffix: 11th, 12th, 13th, otherwise by the last digit. */
  function EnglishOrdinal(n: nat): string
  {
    var v := n % 100;
    if v == 11 || v == 12 || v == 13 then "th"
    else if n % 10 == 1 then "st"
    else if n % 10 == 2 then "nd"
    else if n % 10 == 3 then "rd"
    else "th"
  }

  /**
   * The array trick computes the English suffix for every non-negative
   * number; a negative number always gets "th".
   */
  lemma GetOrdinalIsEnglish(n: int)
    ensures n >= 0 ==> GetOrdinal(n) == EnglishOrdinal(n)
    ensures n < 0 ==> GetOrdinal(n) == "th"
  {
    var v := TruncRem(n, 100);
    if n >= 0 {
      assert v == n % 100;
      assert n % 10 == v % 10 by { LastDigit(n); }
      if v >= 20 {
        assert TruncRem(v - 20, 10) == v % 10;
      } else {
        assert TruncRem(v - 20, 10) == -((20 - v) % 10);
      }
    } else {
      assert -99 <= v <= 0;
      assert TruncRem(v - 20, 10) <= 0;
    }
  }

  /** The last digit of n is the last digit of n % 100. */
  lemma LastDigit(n: nat)
    ensures n % 10 == (n % 100) % 10
  {
    var q := n / 100;
    var r := n % 100;
    assert n == 100 * q + r;
    assert n == 10 * (10 * q + r / 10) + r % 10;
  }

  /** 1st, 2nd, 3rd, 11th, 12th, 13th, 21st, 22nd, 99th, 0th, 100th, 111th. */
  lemma OrdinalExamples()
    ensures GetOrdinal(1) == "st" && GetOrdinal(2) == "nd" && GetOrdinal(3) == "rd"
    ensures GetOrdinal(11) == "th" && GetOrdinal(12) == "th" && GetOrdinal(13) == "th"
    ensures GetOrdinal(21) == "st" && GetOrdinal(22) == "nd" && GetOrdinal(99) == "th"
    ensures GetOrdinal(0) == "th" && GetOrdinal(100) == "th" && GetOrdinal(111) == "th"
  {
  }

  const PercentileWord: string := " Percentile"

  /** `formatPercentile`: the decimal percentile, its ordinal suffix, then " Percentile". */
  function FormatPercentile(rk: Ranking): (s: string)
    requires ValidRanking(rk)
    ensures |s| == |NatToString(GetPercentile(rk))| + 2 + |PercentileWord|
    ensures s[|s| - |PercentileWord|..] == PercentileWord
  {
    var p := GetPercentile(rk);
    NatToString(p) + GetOrdinal(p) + PercentileWord
  }

  /** Reads a rendered percentile label back: the number in front of a two-letter suffix. */
  function ParsePercentile(s: string): Option<int>
  {
    if |s| >= 3 + |PercentileWord| && s[|s| - |PercentileWord|..] == PercentileWord
       && AllDigits(s[..|s| - 2 - |PercentileWord|])
    then Some(DigitsValue(s[..|s| - 2 - |PercentileWord|]))
    else None
  }

  /**
   * The label carries the percentile and its English ordinal: reading it
   * back gives the percentile, and the two letters before " Percentile" are
   * the English suffix of that number.
   */
  lemma FormatPercentileReadsBack(rk: Ranking)
    requires ValidRanking(rk)
    ensures ParsePercentile(FormatPercentile(rk)) == Some(GetPercentile(rk))
    ensures var s := FormatPercentile(rk);
      s[|s| - 2 - |PercentileWord|..|s| - |PercentileWord|] == EnglishOrdinal(GetPercentile(rk))
  {
    var p := GetPercentile(rk);
    var s := FormatPercentile(rk);
    var digits := NatToString(p);
    assert s[..|s| - 2 - |PercentileWord|] == digits;
    assert s[|s| - 2 - |PercentileWord|..|s| - |PercentileWord|] == GetOrdinal(p);
    NatToStringRoundTrip(p);
    GetOrdinalIsEnglish(p);
  }

  /** The top team of 100 is in the 99th percentile. */
  lemma FirstOfHundred()
    ensures GetPercentile(Ranking(1, 100)) == 99
    ensures FormatPercentile(Ranking(1, 100)) == "99th Percentile"
  {
    assert NatToString(99) == "99";
  }

  // ---------------------------------------------------------------------
  // History series
  // ---------------------------------------------------------------------

  /** One chart point: `{ time: h.time.getTime(), ...h.images }`. */
  datatype HistoryPoint = HistoryPoint(time: int, windows: Option<int>, server: Option<int>, linux: Option<int>)

  function Flatten(h: HistoryElement): HistoryPoint {
    HistoryPoint(h.time, h.images.windows, h.images.server, h.images.linux)
  }

  /**
   * `prepareHistory`: one point per sample, in the same order, with every
   * category value (null included) copied; an empty history gives an empty
   * series and no padding is ever added.
   */
  function PrepareHistory(history: seq<HistoryElement>): (r: seq<HistoryPoint>)
    ensures |r| == |history|
    ensures forall i :: 0 <= i < |r| ==>
      && r[i].time == history[i].time
      && r[i].windows == history[i].images.windows
      && r[i].server == history[i].images.server
      && r[i].linux == history[i].images.linux
  {
    if |history| == 0 then [] else [Flatten(history[0])] + PrepareHistory(history[1..])
  }

  /** Regroups a chart point into a history sample. */
  function Unflatten(p: HistoryPoint): HistoryElement {
    HistoryElement(p.time, OsValues(p.windows, p.server, p.linux))
  }

  /** Flattening loses nothing: the samples can be rebuilt from the series. */
  lemma PrepareHistoryLossless(history: seq<HistoryElement>)
    ensures seq(|history|, i requires 0 <= i < |history| => Unflatten(PrepareHistory(history)[i])) == history
  {
  }

  // ---------------------------------------------------------------------
  // Stopped images
  // ---------------------------------------------------------------------

  /**
   * date-fns `differenceInMinutes(later, earlier)`, assumed to be the
   * millisecond difference divided by 60000 and truncated toward zero.
   */
  function DifferenceInMinutes(later: int, earlier: int): int {
    TruncDiv(later - earlier, 60000)
  }

  /** More than one whole minute: two or more. */
  const StoppedAfterMinutes: int := 1

  /**
   * `isStopped`: the log entry for the image's category records the same
   * runtime, and more than one whole minute separates the snapshot's
   * `updated` from the entry's `since`.  Missing data, image, category,
   * team log or entry all answer false.
   */
  function IsStopped(data: Option<TeamData>, teamLog: Option<TeamLog>, image: Option<Image>): (b: bool)
    ensures b ==> (data.Some? && image.Some? && image.value.os.Some? && teamLog.Some?
                   && image.value.os.value in teamLog.value)
    ensures (data.Some? && image.Some? && image.value.os.Some? && teamLog.Some?
             && image.value.os.value in teamLog.value) ==>
      (b <==> var e := teamLog.value[image.value.os.value];
              e.runtime == image.value.runtime && data.value.updated - e.since >= 120000)
  {
    match (data, teamLog, image)
    case (Some(d), Some(log), Some(im)) =>
      if im.os.Some? && im.os.value in log then
        var e := log[im.os.value];
        StaleThreshold(d.updated, e.since);
        e.runtime == im.runtime && DifferenceInMinutes(d.updated, e.since) > StoppedAfterMinutes
      else false
    case _ => false
  }

  /** Whole minutes exceed one exactly from 120 000 ms on. */
  lemma StaleThreshold(later: int, earlier: int)
    ensures DifferenceInMinutes(later, earlier) > 1 <==> later - earlier >= 120000
  {
    TruncDivision(later - earlier, 60000);
  }

  /** A two-minute-old entry with the same runtime is stopped; 30 seconds or a changed runtime is not. */
  lemma IsStoppedExamples(d: TeamData, since: int)
    requires d.updated == since + 120000
    ensures IsStopped(Some(d), Some(map[Windows := LogEntry(120, since)]), Some(Image(Some(Windows), 120, 0)))
    ensures !IsStopped(Some(d.(updated := since + 30000)), Some(map[Windows := LogEntry(120, since)]),
                       Some(Image(Some(Windows), 120, 0)))
    ensures !IsStopped(Some(d), Some(map[Windows := LogEntry(120, since)]), Some(Image(Some(Windows), 125, 0)))
  {
  }

  /** `imageDisplayOrder`. */
  const ImageDisplayOrder: seq<OS> := [Windows, Server, Linux]

  /** The display order lists every category exactly once. */
  lemma ImageDisplayOrderIsPermutation(os: OS)
    ensures multiset(ImageDisplayOrder)[os] == 1
  {
  }
}
