/**
 * The records of one poll response (`TeamInfoResponse`), the runtime log
 * kept between polls, and the roster's `Team`.  Scores and runtimes are
 * integers, dates are integer milliseconds since the epoch.
 */
module Types {
  import opened Base

  /** The three image categories; an image may also carry no category. */
  datatype OS = Windows | Server | Linux

  /** One scored image of a team. `runtime` counts seconds. */
  datatype Image = Image(os: Option<OS>, runtime: int, score: int)

  /** A team's standing among `total` teams; the data source sends 1 <= place <= total. */
  datatype Ranking = Ranking(place: int, total: int)

  predicate ValidRanking(r: Ranking) {
    1 <= r.place <= r.total
  }

  datatype Rankings = Rankings(national: Option<Ranking>, state: Option<Ranking>)

  /** The per-category values of one history sample; null is kept as `None`. */
  datatype OsValues = OsValues(windows: Option<int>, server: Option<int>, linux: Option<int>)

  datatype HistoryElement = HistoryElement(time: int, images: OsValues)

  /** The non-null value `TeamInfoResponse[teamId]` holds for one team. */
  datatype TeamData = TeamData(
    images: seq<Image>,
    ranking: Rankings,
    history: seq<HistoryElement>,
    updated: int,
    location: string)

  /** A roster entry as the setup page stores it. */
  datatype Team = Team(id: string, alias: Option<string>)

  /** One property of the response object: a team id and its data or null. */
  datatype Entry = Entry(id: string, data: Option<TeamData>)

  /**
   * The response object as `Object.entries` lists it.  Team ids are not
   * array indices, so the order is the order in which the keys were created.
   */
  type Response = seq<Entry>

  /** Object keys are distinct. */
  predicate UniqueIds(resp: Response) {
    forall i, j :: 0 <= i < j < |resp| ==> resp[i].id != resp[j].id
  }

  /** `teamsData[id]`: an absent key and a null value both read as no data. */
  function DataFor(resp: Response, id: string): (r: Option<TeamData>)
    ensures r.Some? ==> Entry(id, r) in resp
    ensures (forall i :: 0 <= i < |resp| ==> resp[i].id != id) ==> r.None?
    ensures forall i :: (0 <= i < |resp| && resp[i].id == id
                         && forall j :: 0 <= j < i ==> resp[j].id != id) ==> r == resp[i].data
  {
    if |resp| == 0 then None
    else if resp[0].id == id then resp[0].data
    else
      var r := DataFor(resp[1..], id);
      assert forall j :: 1 <= j < |resp| ==> resp[j] == resp[1..][j - 1];
      r
  }

  /** What the runtime log remembers for one (team, category): a runtime and since when. */
  datatype LogEntry = LogEntry(runtime: int, since: int)

  type TeamLog = map<OS, LogEntry>

  /** `RuntimeLog`: team id to category to entry. */
  type RuntimeLog = map<string, TeamLog>
}
