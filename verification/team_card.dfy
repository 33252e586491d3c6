/**
 * The leaderboard card of app/components/team-card.tsx, an older revision
 * whose images are looked up by `name` and whose badge blinks between 345
 * and 360 seconds and turns red from 360.  The three image keys come from a
 * module that is not part of this model and are passed in.
 */
module TeamCard {
  import opened Base
  import opened Types
  import ImageTime

  /** An image of the older response shape, identified by `name`. */
  datatype NamedImage = NamedImage(name: string, runtime: int, score: int, overtime: bool, multiple: bool)

  /** The part of the older team data the card reads. */
  datatype CardData = CardData(images: seq<NamedImage>)

  function SumNamed(images: seq<NamedImage>): int {
    if |images| == 0 then 0 else SumNamed(images[..|images| - 1]) + images[|images| - 1].score
  }

  const NoValue: string := "--"

  /**
   * The total line: "--" unless the team has at least one image, and then
   * the sum of the image scores.
   */
  function TotalText(data: Option<CardData>): (s: string)
    ensures (data.None? || |data.value.images| == 0) <==> s == NoValue
    ensures data.Some? && |data.value.images| > 0 ==> s == IntToString(SumNamed(data.value.images))
    ensures data.Some? && |data.value.images| > 0 ==> ParseTotal(s) == Some(SumNamed(data.value.images))
  {
    match data
    case None => NoValue
    case Some(d) =>
      if |d.images| > 0 then
        IntToStringReadsBack(SumNamed(d.images));
        IntToString(SumNamed(d.images))
      else NoValue
  }

  /**
   * Reads a rendered integer back: an optional minus sign, then at least one
   * digit and nothing else.  Any other text, "--" included, reads as nothing.
   */
  function ParseTotal(s: string): Option<int> {
    if |s| > 1 && s[0] == '-' && AllDigits(s[1..]) then Some(-DigitsValue(s[1..]))
    else if |s| > 0 && AllDigits(s) then Some(DigitsValue(s))
    else None
  }

  /** Number::toString of an integer reads back as that integer. */
  lemma IntToStringReadsBack(i: int)
    ensures ParseTotal(IntToString(i)) == Some(i)
    ensures IntToString(i) != NoValue
  {
    var s := IntToString(i);
    if i < 0 {
      var digits := NatToString(-i);
      NatToStringRoundTrip(-i);
      assert s == "-" + digits;
      assert s[1..] == digits && AllDigits(s[1..]);
      assert |s| > 1 && s[0] == '-';
      assert IsDigit(s[1]);
    } else {
      NatToStringRoundTrip(i);
      assert s == NatToString(i) && AllDigits(s);
      assert IsDigit(s[0]);
    }
  }

  /** The placeholder "--" is not a number. */
  lemma PlaceholderIsNoTotal()
    ensures ParseTotal(NoValue) == None
  {
    assert !IsDigit(NoValue[0]);
  }

  /** `getImage`: the first image whose name is the key, or null. */
  function GetImage(data: Option<CardData>, key: string): (r: Option<NamedImage>)
    ensures r.Some? ==> data.Some? && r.value in data.value.images && r.value.name == key
    ensures r.None? <==> data.None? || forall i :: 0 <= i < |data.value.images| ==> data.value.images[i].name != key
    ensures r.Some? ==> exists i :: (0 <= i < |data.value.images| && data.value.images[i] == r.value
                                     && forall j :: 0 <= j < i ==> data.value.images[j].name != key)
  {
    match data
    case None => None
    case Some(d) => FindNamed(d.images, key)
  }

  function FindNamed(images: seq<NamedImage>, key: string): (r: Option<NamedImage>)
    ensures r.Some? ==> r.value in images && r.value.name == key
    ensures r.None? <==> forall i :: 0 <= i < |images| ==> images[i].name != key
    ensures r.Some? ==> exists i :: (0 <= i < |images| && images[i] == r.value
                                     && forall j :: 0 <= j < i ==> images[j].name != key)
  {
    if |images| == 0 then None
    else if images[0].name == key then Some(images[0])
    else
      var r := FindNamed(images[1..], key);
      assert forall j :: 1 <= j < |images| ==> images[j] == images[1..][j - 1];
      r
  }

  const BlinkFrom: int := 345
  const RedFrom: int := 360

  /** One image column: clock, blinking flag, red background, score, flags. */
  datatype Slot = Slot(text: string, active: bool, red: bool, scoreText: string, overtime: bool, multiple: bool)

  /**
   * A column: a missing image counts as runtime 0 for the thresholds and
   * shows "--:--"; the badge blinks (in yellow) iff 345 <= runtime < 360
   * and is red iff runtime >= 360.
   */
  function ImageSlot(image: Option<NamedImage>): (s: Slot)
    requires image.Some? ==> image.value.runtime >= 0
    ensures image.None? ==> s.text == ImageTime.NoTime && !s.active && !s.red && s.scoreText == NoValue
    ensures image.Some? ==> s.text == ImageTime.ClockText(image.value.runtime)
    ensures image.Some? && image.value.runtime < 60 * TwoTo31 ==>
      ImageTime.ParseClock(s.text) == Some(image.value.runtime)
    ensures s.active <==> image.Some? && BlinkFrom <= image.value.runtime < RedFrom
    ensures s.red <==> image.Some? && image.value.runtime >= RedFrom
    ensures !(s.active && s.red)
    ensures image.Some? ==> s.scoreText == IntToString(image.value.score)
    ensures image.Some? ==> ParseTotal(s.scoreText) == Some(image.value.score)
    ensures s.overtime <==> image.Some? && image.value.overtime
    ensures s.multiple <==> image.Some? && image.value.multiple
  {
    var runtime := if image.Some? then image.value.runtime else 0;
    match image
    case None => Slot(ImageTime.NoTime, runtime >= BlinkFrom && runtime < RedFrom, runtime >= RedFrom, NoValue, false, false)
    case Some(im) =>
      ImageTime.ClockTextReadsBack(im.runtime);
      IntToStringReadsBack(im.score);
      Slot(ImageTime.ClockText(im.runtime), runtime >= BlinkFrom && runtime < RedFrom, runtime >= RedFrom,
           IntToString(im.score), im.overtime, im.multiple)
  }

  /** The whole card: id badge, heading, total and one column per key. */
  datatype Card = Card(idBadge: string, heading: string, total: string, slots: seq<Slot>)

  predicate RuntimesNonNegative(data: Option<CardData>) {
    data.Some? ==> forall i :: 0 <= i < |data.value.images| ==> data.value.images[i].runtime >= 0
  }

  /** The heading is the alias when there is one (an empty alias included), else the id. */
  function RenderCard(team: Team, data: Option<CardData>, keys: seq<string>): (c: Card)
    requires RuntimesNonNegative(data)
    ensures c.idBadge == team.id
    ensures c.heading == team.alias.GetOr(team.id)
    ensures c.total == TotalText(data)
    ensures |c.slots| == |keys|
    ensures forall i :: 0 <= i < |keys| ==> c.slots[i] == ImageSlot(GetImage(data, keys[i]))
  {
    Card(team.id, team.alias.GetOr(team.id), TotalText(data),
         seq(|keys|, i requires 0 <= i < |keys| => ImageSlot(GetImage(data, keys[i]))))
  }
}
