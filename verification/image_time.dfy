/**
 * The runtime badge of app/components/image-time.tsx: its `m:ss` text, the
 * colour shown while it blinks, whether it blinks, and the gray look of a
 * stopped image.  The blinking itself is a timer (app/components/alternate.tsx);
 * only its `active` flag and `on` colour are modelled.
 */
module ImageTime {
  import opened Base

  // ---------------------------------------------------------------------
  // The clock text
  // ---------------------------------------------------------------------

  /** `~~(runtime / 60)`: truncated, then wrapped to 32 bits. */
  function Minutes(runtime: int): int {
    ToInt32(TruncDiv(runtime, 60))
  }

  /** `runtime % 60`, a truncated remainder. */
  function Seconds(runtime: int): int {
    TruncRem(runtime, 60)
  }

  /**
   * `minutes + ":" + seconds.toString().padStart(2, "0")`: while the minutes
   * fit the 32 bits of `~~`, the text is the whole minutes, a colon, and the
   * seconds left over (below 60) padded to two digits.
   */
  function ClockText(runtime: int): (s: string)
    requires runtime >= 0
    ensures |s| >= 4 && s[|s| - 3] == ':'
    ensures runtime < 60 * TwoTo31 ==>
      s == NatToString(runtime / 60) + ":" + PadStart2(NatToString(runtime % 60))
  {
    TruncDivision(runtime, 60);
    TwoDigits(Seconds(runtime));
    assert TruncDiv(runtime, 60) == runtime / 60 && Seconds(runtime) == runtime % 60;
    IntToString(Minutes(runtime)) + ":" + PadStart2(IntToString(Seconds(runtime)))
  }

  /** Seconds render as at most two digits, so the padded text has exactly two. */
  lemma TwoDigits(n: nat)
    requires n < 60
    ensures |NatToString(n)| <= 2
    ensures |PadStart2(NatToString(n))| == 2
    ensures AllDigits(PadStart2(NatToString(n)))
    ensures DigitsValue(PadStart2(NatToString(n))) == n
  {
    NatToStringRoundTrip(n);
    if n < 10 {
      LeadingZero(NatToString(n));
      assert PadStart2(NatToString(n)) == "0" + NatToString(n);
    }
  }

  /** Digits, a colon and two digits read back as minutes and seconds. */
  lemma ParseClockParts(ms: string, ss: string)
    requires |ms| >= 1 && AllDigits(ms) && |ss| == 2 && AllDigits(ss)
    ensures ParseClock(ms + ":" + ss) == Some(DigitsValue(ms) * 60 + DigitsValue(ss))
  {
    var s := ms + ":" + ss;
    assert s[..|s| - 3] == ms;
    assert s[|s| - 2..] == ss;
  }

  /** Reads `m:ss` back into seconds; anything else (such as "--:--") reads as nothing. */
  function ParseClock(s: string): Option<int> {
    if |s| >= 4 && s[|s| - 3] == ':' && AllDigits(s[..|s| - 3]) && AllDigits(s[|s| - 2..])
    then Some(DigitsValue(s[..|s| - 3]) * 60 + DigitsValue(s[|s| - 2..]))
    else None
  }

  /** Whole minutes and leftover seconds, rendered and padded, read back as `m·60 + sec`. */
  lemma ReadsBackParts(m: nat, sec: nat)
    requires sec < 60
    ensures ParseClock(NatToString(m) + ":" + PadStart2(NatToString(sec))) == Some(m * 60 + sec)
  {
    TwoDigits(sec);
    NatToStringRoundTrip(m);
    ParseClockParts(NatToString(m), PadStart2(NatToString(sec)));
  }

  /** The placeholder is not a clock reading. */
  lemma PlaceholderIsNoClock()
    ensures ParseClock(NoTime) == None
  {
    assert !IsDigit(NoTime[0]);
  }

  /**
   * Minutes times 60 plus the padded seconds give the runtime back, as long
   * as the minutes fit the 32-bit truncation of `~~`.
   */
  lemma ClockTextReadsBack(runtime: int)
    requires runtime >= 0
    ensures runtime < 60 * TwoTo31 ==> ParseClock(ClockText(runtime)) == Some(runtime)
  {
    if runtime < 60 * TwoTo31 {
      var m, sec := runtime / 60, runtime % 60;
      assert ClockText(runtime) == NatToString(m) + ":" + PadStart2(NatToString(sec));
      ReadsBackParts(m, sec);
      assert m * 60 + sec == runtime;
    }
  }

  // ---------------------------------------------------------------------
  // The badge
  // ---------------------------------------------------------------------

  /** The colour the badge shows in its "on" phase. */
  datatype Colour = NoColour | Yellow | Orange | Red

  const WarnAt: int := 345
  const OrangeAt: int := 350
  const RedAt: int := 355
  const NoTime: string := "--:--"

  /** What `ImageTime` renders: text, blinking flag, "on" colour, gray look. */
  datatype Badge = Badge(text: string, active: bool, on: Colour, gray: bool)

  /**
   * `ImageTime`: an unset runtime shows "--:--" and never blinks; a set one
   * blinks from 345 seconds on unless the image is stopped, in yellow
   * below 350, orange below 355 and red from 355; a stopped image is gray.
   */
  function ImageTime(runtime: Option<int>, stopped: bool): (b: Badge)
    requires runtime.Some? ==> runtime.value >= 0
    ensures runtime.None? ==> b.text == NoTime && b.on == NoColour
    ensures runtime.Some? ==> b.text == ClockText(runtime.value)
    ensures runtime.Some? && runtime.value < 60 * TwoTo31 ==> ParseClock(b.text) == runtime
    ensures b.active <==> runtime.Some? && runtime.value >= WarnAt && !stopped
    ensures b.gray <==> stopped
    ensures runtime.Some? ==>
      && (b.on == Yellow <==> runtime.value < OrangeAt)
      && (b.on == Orange <==> OrangeAt <= runtime.value < RedAt)
      && (b.on == Red <==> RedAt <= runtime.value)
  {
    match runtime
    case None => Badge(NoTime, false, NoColour, stopped)
    case Some(r) =>
      ClockTextReadsBack(r);
      var on := if r < OrangeAt then Yellow else if r < RedAt then Orange else Red;
      Badge(ClockText(r), r >= WarnAt && !stopped, on, stopped)
  }

  /** A stopped image never blinks, and neither does one below 345 seconds. */
  lemma NeverActive(runtime: Option<int>, stopped: bool)
    requires runtime.Some? ==> runtime.value >= 0
    ensures stopped ==> !ImageTime(runtime, stopped).active
    ensures runtime.None? || runtime.value < WarnAt ==> !ImageTime(runtime, stopped).active
  {
  }

  /** The exact boundaries: 344, 345, 349, 350, 354, 355. */
  lemma Thresholds()
    ensures !ImageTime(Some(344), false).active && ImageTime(Some(344), false).on == Yellow
    ensures ImageTime(Some(345), false).active && ImageTime(Some(345), false).on == Yellow
    ensures ImageTime(Some(349), false).on == Yellow && ImageTime(Some(350), false).on == Orange
    ensures ImageTime(Some(354), false).on == Orange && ImageTime(Some(355), false).on == Red
    ensures ImageTime(Some(355), false).active && !ImageTime(Some(355), true).active
  {
  }
}
