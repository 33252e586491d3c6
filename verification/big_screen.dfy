/**
 * The rotating detail view of app/components/big-screen.tsx: the slide
 * list (an overview, then one slide per team ordered by the number in its
 * id), the slide index that advances after every animation, the team whose
 * details are shown, and the heading and ranking texts.  The slide classes
 * of the source become a tagged union; the animations are left out.
 */
module BigScreen {
  import opened Base
  import opened Types
  import Roster
  import StableSort
  import LegacyProcessing
  import Processing

  datatype Slide = Overview | TeamSlide(team: Team, data: Option<TeamData>)

  // ---------------------------------------------------------------------
  // Slide list
  // ---------------------------------------------------------------------

  /** `id.replace("-", "")`: only the first hyphen goes. */
  function RemoveFirstHyphen(s: string): (r: string)
    ensures |r| == |s| || |r| == |s| - 1
    ensures '-' !in s ==> r == s
  {
    if |s| == 0 then s
    else if s[0] == '-' then s[1..]
    else [s[0]] + RemoveFirstHyphen(s[1..])
  }

  /** The character removed is the first hyphen; everything around it stays in order. */
  lemma RemoveFirstHyphenAt(s: string)
    ensures forall k :: 0 <= k < |s| && s[k] == '-' && '-' !in s[..k] ==>
      RemoveFirstHyphen(s) == s[..k] + s[k + 1..]
  {
    forall k | 0 <= k < |s| && s[k] == '-' && '-' !in s[..k]
      ensures RemoveFirstHyphen(s) == s[..k] + s[k + 1..]
    {
      FirstHyphenRemoved(s, k);
    }
  }

  lemma {:induction false} FirstHyphenRemoved(s: string, k: int)
    requires 0 <= k < |s| && s[k] == '-' && '-' !in s[..k]
    ensures RemoveFirstHyphen(s) == s[..k] + s[k + 1..]
  {
    if k > 0 {
      assert s[0] == s[..k][0];
      var t := s[1..];
      assert t[k - 1] == '-';
      assert t[..k - 1] == s[..k][1..];
      FirstHyphenRemoved(t, k - 1);
      assert s[..k] == [s[0]] + t[..k - 1];
      assert s[k + 1..] == t[k..];
    }
  }

  /** `parseInt(team.id.replace("-", ""))`, read as decimal digits. */
  function SlideKey(t: Team): int {
    DigitsValue(RemoveFirstHyphen(t.id))
  }

  /** On a roster id, the key is the six digits around the hyphen as one number. */
  lemma SlideKeyOfValidId(t: Team)
    requires Roster.ValidId(t.id)
    ensures RemoveFirstHyphen(t.id) == t.id[..2] + t.id[3..]
    ensures AllDigits(RemoveFirstHyphen(t.id)) && |RemoveFirstHyphen(t.id)| == 6
  {
    var s := t.id;
    assert RemoveFirstHyphen(s) == [s[0]] + RemoveFirstHyphen(s[1..]);
    assert RemoveFirstHyphen(s[1..]) == [s[1]] + RemoveFirstHyphen(s[2..]);
    assert RemoveFirstHyphen(s[2..]) == s[3..];
  }

  /**
   * Equal-length digit strings with the same value are the same string, so
   * two roster ids never share a slide key.
   */
  lemma {:induction false} DigitsInjective(x: string, y: string)
    requires |x| == |y| && AllDigits(x) && AllDigits(y)
    requires DigitsValue(x) == DigitsValue(y)
    ensures x == y
    decreases |x|
  {
    if |x| > 0 {
      var n := |x| - 1;
      var a, b := DigitValue(x[n]), DigitValue(y[n]);
      var px, py := DigitsValue(x[..n]), DigitsValue(y[..n]);
      assert 0 <= a < 10 && 0 <= b < 10;
      assert px * 10 + a == py * 10 + b;
      assert a == b && px == py by { DecimalSplit(px, a, py, b); }
      DigitsInjective(x[..n], y[..n]);
      assert x == x[..n] + [x[n]] && y == y[..n] + [y[n]];
    }
  }

  lemma DecimalSplit(p: int, a: int, q: int, b: int)
    requires 0 <= a < 10 && 0 <= b < 10 && p * 10 + a == q * 10 + b
    ensures a == b && p == q
  {
    assert (p * 10 + a) / 10 == p && (p * 10 + a) % 10 == a;
    assert (q * 10 + b) / 10 == q && (q * 10 + b) % 10 == b;
  }

  /** A roster id is determined by its slide key, so distinct ids give distinct keys. */
  lemma SlideKeysDistinct(t: Team, u: Team)
    requires Roster.ValidId(t.id) && Roster.ValidId(u.id)
    ensures SlideKey(t) == SlideKey(u) ==> t.id == u.id
  {
    SlideKeyOfValidId(t);
    SlideKeyOfValidId(u);
    var x, y := RemoveFirstHyphen(t.id), RemoveFirstHyphen(u.id);
    if DigitsValue(x) == DigitsValue(y) {
      DigitsInjective(x, y);
      assert t.id == x[..2] + [t.id[2]] + x[2..];
      assert u.id == y[..2] + [u.id[2]] + y[2..];
    }
  }

  predicate ValidIds(teams: seq<Team>) {
    forall i :: 0 <= i < |teams| ==> Roster.ValidId(teams[i].id)
  }

  /** The roster ordered by slide key, ties in roster order. */
  function OrderedTeams(teams: seq<Team>): (r: seq<Team>)
    ensures |r| == |teams| && multiset(r) == multiset(teams)
    ensures forall i, j :: 0 <= i < j < |r| ==> SlideKey(r[i]) <= SlideKey(r[j])
  {
    StableSort.SortBy(teams, SlideKey)
  }

  /**
   * The slide list: the overview, then a slide per roster team in
   * ascending key order, each carrying `teamsData[team.id]`.  The key is
   * `parseInt` of the id without its hyphen, modelled for roster ids.
   */
  function BuildSlides(teams: seq<Team>, resp: Response): (s: seq<Slide>)
    requires ValidIds(teams)
    ensures |s| == |teams| + 1
    ensures s[0] == Overview
    ensures forall i :: 1 <= i < |s| ==> s[i].TeamSlide? && s[i].data == DataFor(resp, s[i].team.id)
    ensures forall i, j :: 1 <= i < j < |s| ==> SlideKey(s[i].team) <= SlideKey(s[j].team)
    ensures forall i :: 1 <= i < |s| ==> s[i].team == OrderedTeams(teams)[i - 1]
  {
    var ordered := OrderedTeams(teams);
    [Overview] + seq(|ordered|, i requires 0 <= i < |ordered| => TeamSlide(ordered[i], DataFor(resp, ordered[i].id)))
  }

  /** Teams whose keys tie keep their roster order. */
  lemma BuildSlidesStable(teams: seq<Team>, k: int)
    ensures StableSort.WithKey(OrderedTeams(teams), SlideKey, k) == StableSort.WithKey(teams, SlideKey, k)
  {
    StableSort.SortByStable(teams, SlideKey, k);
  }

  /** On a well-formed roster no two team slides tie: the order is strictly ascending. */
  lemma BuildSlidesStrict(teams: seq<Team>, resp: Response)
    requires Roster.WellFormed(teams)
    ensures var s := BuildSlides(teams, resp);
      forall i, j :: 1 <= i < j < |s| ==> SlideKey(s[i].team) < SlideKey(s[j].team)
  {
    var s := BuildSlides(teams, resp);
    var ordered := OrderedTeams(teams);
    forall i, j | 1 <= i < j < |s| ensures SlideKey(s[i].team) < SlideKey(s[j].team) {
      assert s[i].team == ordered[i - 1] && s[j].team == ordered[j - 1];
      OrderedStrict(teams, i - 1, j - 1);
    }
  }

  lemma OrderedStrict(teams: seq<Team>, i: int, j: int)
    requires Roster.WellFormed(teams)
    requires 0 <= i < j < |teams|
    ensures SlideKey(OrderedTeams(teams)[i]) < SlideKey(OrderedTeams(teams)[j])
  {
    var ordered := OrderedTeams(teams);
    var a, b := ordered[i], ordered[j];
    assert a in multiset(teams) && b in multiset(teams);
    assert Roster.ValidId(a.id) && Roster.ValidId(b.id);
    SlideKeysDistinct(a, b);
    SameIdSameTeam(teams, a, b);
    CountOnce(teams, a);
    CountRepeat(ordered, i, j);
  }

  /** In a roster with distinct ids, a team is identified by its id. */
  lemma SameIdSameTeam(teams: seq<Team>, a: Team, b: Team)
    requires Roster.DistinctIds(teams) && a in teams && b in teams
    ensures a.id == b.id ==> a == b
  {
    var x :| 0 <= x < |teams| && teams[x] == a;
    var y :| 0 <= y < |teams| && teams[y] == b;
    if x < y {
      assert teams[x].id != teams[y].id;
    } else if y < x {
      assert teams[y].id != teams[x].id;
    }
  }

  /** A team of a roster with distinct ids occurs in it once. */
  lemma CountOnce(teams: seq<Team>, t: Team)
    requires Roster.DistinctIds(teams) && t in teams
    ensures multiset(teams)[t] == 1
  {
    var x :| 0 <= x < |teams| && teams[x] == t;
    assert teams == teams[..x] + [t] + teams[x + 1..];
    forall k | 0 <= k < x ensures teams[..x][k] != t {
      assert teams[k].id != teams[x].id;
    }
    var rest := teams[x + 1..];
    forall k | 0 <= k < |rest| ensures rest[k] != t {
      assert rest[k] == teams[x + 1 + k];
      assert teams[x + 1 + k].id != teams[x].id;
    }
  }

  /** An element at two positions occurs at least twice. */
  lemma CountRepeat<T>(s: seq<T>, i: int, j: int)
    requires 0 <= i < j < |s|
    ensures s[i] == s[j] ==> multiset(s)[s[i]] >= 2
  {
    assert s == s[..i] + [s[i]] + s[i + 1..j] + [s[j]] + s[j + 1..];
  }

  // ---------------------------------------------------------------------
  // Slide index
  // ---------------------------------------------------------------------

  /** `nextSlide`: `(i + 1) % slides.length`. */
  function Next(i: nat, len: nat): (r: nat)
    requires len > 0
    ensures r < len
    ensures i < len ==> r == (if i == len - 1 then 0 else i + 1)
  {
    (i + 1) % len
  }

  /** The previous slide's index, `(i - 1 + slides.length) % slides.length`. */
  function Previous(i: nat, len: nat): (r: nat)
    requires len > 0
    ensures r < len
    ensures i < len ==> r == (if i == 0 then len - 1 else i - 1)
  {
    (i - 1 + len) % len
  }

  /** Within range, stepping forward undoes stepping back and the other way round. */
  lemma NextPreviousInverse(i: nat, len: nat)
    requires 0 <= i < len
    ensures Next(Previous(i, len), len) == i
    ensures Previous(Next(i, len), len) == i
  {
  }

  /**
   * The index kept when the slide list changes, as written:
   * `i % slides.length === 0 ? 0 : i`.
   */
  function ResetIndexAsWritten(i: nat, len: nat): (r: nat)
    requires len > 0
    ensures r == i || r == 0
    ensures i < len ==> r == i
    ensures i % len == 0 ==> r == 0
    ensures i % len != 0 ==> r == i
  {
    if i % len == 0 then 0 else i
  }

  /** After the roster shrinks from five teams to two, index 5 survives past the three slides. */
  lemma ResetIndexLeavesRange()
    ensures ResetIndexAsWritten(5, 3) == 5 && 5 >= 3
  {
  }

  /**
   * The reset the code evidently intends, `i % slides.length`: it agrees
   * with the code wherever the code stays in range and always lands in range.
   */
  function ResetIndex(i: nat, len: nat): (r: nat)
    requires len > 0
    ensures r < len
    ensures i < len ==> r == i
    ensures ResetIndexAsWritten(i, len) < len ==> r == ResetIndexAsWritten(i, len)
  {
    i % len
  }

  /** The carousel: the slide list and the current index. */
  datatype Carousel = Carousel(slides: seq<Slide>, index: nat)

  predicate InRange(c: Carousel) {
    c.index < |c.slides|
  }

  /**
   * The slide list was rebuilt (roster or data changed), as the code does
   * it: the index is kept unless it is a multiple of the new length, so an
   * index past the end of a shorter list can survive.
   */
  function SlidesChangedAsWritten(c: Carousel, slides: seq<Slide>): (r: Carousel)
    requires |slides| > 0
    ensures r.slides == slides
    ensures r.index == c.index || r.index == 0
    ensures c.index < |slides| ==> r.index == c.index
    ensures c.index % |slides| == 0 ==> r.index == 0
    ensures c.index % |slides| != 0 ==> r.index == c.index
  {
    Carousel(slides, ResetIndexAsWritten(c.index, |slides|))
  }

  /**
   * Shrinking six slides to three while on index 5 leaves the index past
   * the end: no slide is current, the heading reads "Overview", and the
   * details fall back to the previous slide (index 1).  The corrected
   * transition moves to index 2 instead.
   */
  lemma ShrinkLeavesNoSlide(before: seq<Slide>, after: seq<Slide>)
    requires |before| == 6 && |after| == 3 && after[1].TeamSlide?
    ensures var r := SlidesChangedAsWritten(Carousel(before, 5), after);
      && r.index == 5 && !InRange(r)
      && SlideAt(r.slides, r.index).None?
      && Heading(SlideAt(r.slides, r.index)) == OverviewTitle
      && UsableTeamSlide(r) == Some(after[1])
    ensures SlidesChanged(Carousel(before, 5), after).index == 2
  {
    var r := SlidesChangedAsWritten(Carousel(before, 5), after);
    assert Previous(5, 3) == 1;
  }

  /**
   * The corrected transition: the index is reduced modulo the new length,
   * so it always lands on a slide.
   */
  function SlidesChanged(c: Carousel, slides: seq<Slide>): (r: Carousel)
    requires |slides| > 0
    ensures InRange(r) && r.slides == slides
    ensures c.index < |slides| ==> r.index == c.index
    ensures SlidesChangedAsWritten(c, slides).index < |slides| ==> r == SlidesChangedAsWritten(c, slides)
  {
    Carousel(slides, ResetIndex(c.index, |slides|))
  }

  /** The progress bar finished: show the next slide. */
  function Advance(c: Carousel): (r: Carousel)
    requires |c.slides| > 0
    ensures InRange(r) && r.slides == c.slides
    ensures InRange(c) ==> r.index == (if c.index == |c.slides| - 1 then 0 else c.index + 1)
    ensures !InRange(c) ==> r.index == (c.index + 1) % |c.slides|
  {
    c.(index := Next(c.index, |c.slides|))
  }

  /** `slides[i]`, undefined past the end. */
  function SlideAt(slides: seq<Slide>, i: nat): Option<Slide> {
    if i < |slides| then Some(slides[i]) else None
  }

  /**
   * `getUsuableTeamSlide`: the current slide if it shows a team, else the
   * previous one if that does, else none.
   */
  function UsableTeamSlide(c: Carousel): (r: Option<Slide>)
    requires |c.slides| > 0
    ensures r.Some? ==> r.value.TeamSlide? && r.value in c.slides
    ensures InRange(c) && c.slides[c.index].TeamSlide? ==> r == Some(c.slides[c.index])
    ensures InRange(c) && !c.slides[c.index].TeamSlide? ==>
      r == (var p := c.slides[Previous(c.index, |c.slides|)]; if p.TeamSlide? then Some(p) else None)
    ensures !InRange(c) ==>
      r == (var p := c.slides[Previous(c.index, |c.slides|)]; if p.TeamSlide? then Some(p) else None)
  {
    var current := SlideAt(c.slides, c.index);
    var previous := SlideAt(c.slides, Previous(c.index, |c.slides|));
    if current.Some? && current.value.TeamSlide? then current
    else if previous.Some? && previous.value.TeamSlide? then previous
    else None
  }

  /** On the overview right after the last team, the details stay on that team. */
  lemma OverviewKeepsLastTeam(c: Carousel)
    requires |c.slides| > 1 && c.index == 0 && c.slides[0] == Overview
    requires c.slides[|c.slides| - 1].TeamSlide?
    ensures UsableTeamSlide(c) == Some(c.slides[|c.slides| - 1])
  {
  }

  // ---------------------------------------------------------------------
  // Texts
  // ---------------------------------------------------------------------

  const OverviewTitle: string := "Overview"
  const TeamPrefix: string := "Team "
  const NoTeamBadge: string := "\U{1F62D}"
  const RankUnavailable: string := "Rank Unavailable"
  const UnknownLocation: string := "Unknown"

  /** The big heading: the alias if defined, else "Team <id>"; "Overview" otherwise. */
  function Heading(slide: Option<Slide>): (s: string)
    ensures slide.Some? && slide.value.TeamSlide? && slide.value.team.alias.Some? ==>
      s == slide.value.team.alias.value
    ensures slide.Some? && slide.value.TeamSlide? && slide.value.team.alias.None? ==>
      s == TeamPrefix + slide.value.team.id
    ensures !(slide.Some? && slide.value.TeamSlide?) ==> s == OverviewTitle
  {
    match slide
    case Some(TeamSlide(team, _)) => team.alias.GetOr(TeamPrefix + team.id)
    case _ => OverviewTitle
  }

  /** The id badge: the shown team's id, or a crying face with no team. */
  function IdBadge(usable: Option<Slide>): (s: string)
    requires usable.Some? ==> usable.value.TeamSlide?
    ensures usable.Some? ==> s == usable.value.team.id
    ensures usable.None? ==> s == NoTeamBadge
  {
    match usable
    case Some(TeamSlide(team, _)) => team.id
    case _ => NoTeamBadge
  }

  /**
   * One ranking line: the percentile label when the ranking is present,
   * else "Rank Unavailable".  The label comes from the older helper file.
   */
  function RankText(r: Option<Ranking>): (s: string)
    requires r.Some? ==> ValidRanking(r.value)
    ensures r.None? <==> s == RankUnavailable
    ensures r.Some? ==> s == LegacyProcessing.FormatPercentile(r.value)
    ensures r.Some? ==> Processing.ParsePercentile(s) == Some(LegacyProcessing.GetPercentile(r.value))
  {
    match r
    case None => RankUnavailable
    case Some(rk) =>
      LegacyProcessing.FormatPercentileReadsBack(rk);
      var s := LegacyProcessing.FormatPercentile(rk);
      assert s[|s| - 11..] != RankUnavailable[|RankUnavailable| - 11..];
      s
  }

  /** A ranking block: its title, place and total (0 when unknown), label and, for State, the location. */
  datatype RankLine = RankLine(name: string, place: int, total: int, text: string, location: Option<string>)

  predicate RankingsValid(d: TeamData) {
    && (d.ranking.national.Some? ==> ValidRanking(d.ranking.national.value))
    && (d.ranking.state.Some? ==> ValidRanking(d.ranking.state.value))
  }

  function Line(name: string, r: Option<Ranking>, location: Option<string>): RankLine
    requires r.Some? ==> ValidRanking(r.value)
  {
    RankLine(name, if r.Some? then r.value.place else 0, if r.Some? then r.value.total else 0, RankText(r), location)
  }

  /**
   * The National and State blocks of the shown team; without a team or
   * data, both read "Rank Unavailable" with 0/0 and the location "Unknown".
   */
  function RankPanel(usable: Option<Slide>): (lines: seq<RankLine>)
    requires usable.Some? ==> usable.value.TeamSlide?
    requires usable.Some? && usable.value.data.Some? ==> RankingsValid(usable.value.data.value)
    ensures |lines| == 2 && lines[0].name == "National" && lines[1].name == "State"
    ensures lines[0].location.None? && lines[1].location.Some?
    ensures (usable.None? || usable.value.data.None?) ==>
      lines[0].text == RankUnavailable && lines[1].text == RankUnavailable
      && lines[1].location == Some(UnknownLocation)
      && lines[0].place == 0 && lines[0].total == 0
      && lines[1].place == 0 && lines[1].total == 0
    ensures usable.Some? && usable.value.data.Some? ==>
      (lines[0].text == RankUnavailable <==> usable.value.data.value.ranking.national.None?)
      && (lines[1].text == RankUnavailable <==> usable.value.data.value.ranking.state.None?)
      && lines[1].location == Some(usable.value.data.value.location)
    ensures usable.Some? && usable.value.data.Some? && usable.value.data.value.ranking.national.Some? ==>
      var rk := usable.value.data.value.ranking.national.value;
      lines[0].place == rk.place && lines[0].total == rk.total
    ensures usable.Some? && usable.value.data.Some? && usable.value.data.value.ranking.state.Some? ==>
      var rk := usable.value.data.value.ranking.state.value;
      lines[1].place == rk.place && lines[1].total == rk.total
    ensures usable.Some? && usable.value.data.Some? ==>
      lines[0].text == RankText(usable.value.data.value.ranking.national)
      && lines[1].text == RankText(usable.value.data.value.ranking.state)
    ensures forall k :: 0 <= k < 2 && lines[k].text == RankUnavailable ==>
      lines[k].place == 0 && lines[k].total == 0
  {
    var data := if usable.Some? then usable.value.data else None;
    var national := if data.Some? then data.value.ranking.national else None;
    var state := if data.Some? then data.value.ranking.state else None;
    var location := if data.Some? then data.value.location else UnknownLocation;
    [Line("National", national, None), Line("State", state, Some(location))]
  }
}
