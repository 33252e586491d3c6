/**
 * The leaderboard of app/components/leaderboard.tsx: response entries
 * paired with their roster team, ordered by total score descending (no
 * data counts as -1), ties kept in response order; skeleton cards while
 * there is nothing to show, and the flip key that drives the reorder
 * animation.  Totals come from the older helper file, which computes them
 * exactly as the newer one does.
 */
module Leaderboard {
  import opened Base
  import opened Types
  import LegacyProcessing
  import StableSort

  /** One card: the roster team and its data (null data kept as `None`). */
  datatype Row = Row(team: Team, data: Option<TeamData>)

  /** `teams.find((t) => t.id === id)`: the first roster team with that id. */
  function FindTeam(roster: seq<Team>, id: string): (r: Option<Team>)
    ensures r.Some? ==> r.value in roster && r.value.id == id
    ensures r.None? <==> forall i :: 0 <= i < |roster| ==> roster[i].id != id
    ensures r.Some? ==> exists i :: (0 <= i < |roster| && roster[i] == r.value
                                     && forall j :: 0 <= j < i ==> roster[j].id != id)
  {
    if |roster| == 0 then None
    else if roster[0].id == id then Some(roster[0])
    else
      var r := FindTeam(roster[1..], id);
      assert forall j :: 1 <= j < |roster| ==> roster[j] == roster[1..][j - 1];
      r
  }

  /** The `!` after `find`: every response id names a roster team. */
  predicate Resolves(roster: seq<Team>, resp: Response) {
    forall i :: 0 <= i < |resp| ==> FindTeam(roster, resp[i].id).Some?
  }

  /** `getTotalScore(data) ?? -1`. */
  function SortKey(data: Option<TeamData>): int {
    LegacyProcessing.TotalScore(data).GetOr(-1)
  }

  /** The comparator `score2 - score1` sorts ascending by the negated key. */
  function Descending(row: Row): int {
    -SortKey(row.data)
  }

  /** The entries paired with their teams, in response order. */
  function Rows(roster: seq<Team>, resp: Response): (r: seq<Row>)
    requires Resolves(roster, resp)
    ensures |r| == |resp|
    ensures forall i :: 0 <= i < |r| ==>
      (r[i].team.id == resp[i].id && r[i].data == resp[i].data && r[i].team == FindTeam(roster, resp[i].id).value)
  {
    seq(|resp|, i requires 0 <= i < |resp| => Row(FindTeam(roster, resp[i].id).value, resp[i].data))
  }

  /**
   * `sorted()`: a permutation of the entries, non-increasing in total,
   * with every team lacking data after every team with a total of 0 or more.
   */
  function Sorted(roster: seq<Team>, resp: Response): (r: seq<Row>)
    requires Resolves(roster, resp)
    ensures |r| == |resp|
    ensures multiset(r) == multiset(Rows(roster, resp))
    ensures forall i, j :: 0 <= i < j < |r| ==> SortKey(r[i].data) >= SortKey(r[j].data)
    ensures forall i, j :: (0 <= i < |r| && 0 <= j < |r| && r[i].data.None?
                            && LegacyProcessing.TotalScore(r[j].data).GetOr(-1) >= 0) ==> j < i
  {
    var r := SortRows(Rows(roster, resp));
    assert forall i, j :: 0 <= i < j < |r| ==> Descending(r[i]) <= Descending(r[j]);
    r
  }

  /** The comparator sort itself: descending total, ties in input order. */
  function SortRows(rows: seq<Row>): (r: seq<Row>)
    ensures |r| == |rows| && multiset(r) == multiset(rows)
    ensures forall i, j :: 0 <= i < j < |r| ==> Descending(r[i]) <= Descending(r[j])
  {
    StableSort.SortBy(rows, Descending)
  }

  /** The rows of one total, in order. */
  function WithTotal(rows: seq<Row>, key: int): seq<Row> {
    StableSort.WithKey(rows, Descending, -key)
  }

  /** Sorting keeps the rows of each total in their input order. */
  lemma SortRowsStable(rows: seq<Row>, key: int)
    ensures WithTotal(SortRows(rows), key) == WithTotal(rows, key)
  {
    StableSort.SortByStable(rows, Descending, -key);
  }

  /** Rows that tie keep the order of the response entries. */
  lemma SortedIsStable(roster: seq<Team>, resp: Response, key: int)
    requires Resolves(roster, resp)
    ensures WithTotal(Sorted(roster, resp), key) == WithTotal(Rows(roster, resp), key)
  {
    SortRowsStable(Rows(roster, resp), key);
  }

  /** `flipKey`: the team ids of the sorted rows, joined with no separator. */
  function FlipKey(rows: seq<Row>): string
  {
    if |rows| == 0 then "" else rows[0].team.id + FlipKey(rows[1..])
  }

  /**
   * With seven-character ids (the roster's format) the flip key splits back
   * into the ids, in row order.
   */
  lemma {:induction false} FlipKeySplits(rows: seq<Row>)
    requires forall i :: 0 <= i < |rows| ==> |rows[i].team.id| == 7
    ensures |FlipKey(rows)| == 7 * |rows|
    ensures forall i :: 0 <= i < |rows| ==> FlipKey(rows)[7 * i..7 * i + 7] == rows[i].team.id
  {
    if |rows| > 0 {
      FlipKeySplits(rows[1..]);
      var rest := FlipKey(rows[1..]);
      assert FlipKey(rows) == rows[0].team.id + rest;
      forall i | 0 <= i < |rows|
        ensures FlipKey(rows)[7 * i..7 * i + 7] == rows[i].team.id
      {
        if i > 0 {
          assert rows[1..][i - 1] == rows[i];
          assert FlipKey(rows)[7 * i..7 * i + 7] == rest[7 * (i - 1)..7 * (i - 1) + 7];
        }
      }
    }
  }

  /** What the leaderboard renders. */
  datatype View =
    | Skeletons(count: nat)
    | Board(flipKey: string, rows: seq<Row>)

  /**
   * An empty list renders one skeleton per roster team; otherwise the
   * sorted cards under the flip key of their order.
   */
  function Render(roster: seq<Team>, resp: Response): (v: View)
    requires Resolves(roster, resp)
    ensures v.Skeletons? <==> |resp| == 0
    ensures v.Skeletons? ==> v.count == |roster|
    ensures v.Board? ==> v.rows == Sorted(roster, resp) && v.flipKey == FlipKey(v.rows)
    ensures v.Board? ==>
      (|v.rows| == |resp| && multiset(v.rows) == multiset(Rows(roster, resp))
       && forall i, j :: 0 <= i < j < |v.rows| ==> SortKey(v.rows[i].data) >= SortKey(v.rows[j].data))
  {
    var sorted := Sorted(roster, resp);
    if |sorted| <= 0 then Skeletons(|roster|) else Board(FlipKey(sorted), sorted)
  }
}
