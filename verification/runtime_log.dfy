/**
 * The runtime-log merge of app/routes/dashboard.tsx: after every poll, each
 * team with data gets an inner map, and each of its images with a category
 * either keeps the stored entry (same runtime) or replaces it with the new
 * runtime and the snapshot's `updated` time.  The merge is a pure function
 * from (log, response) to log; the poll loop around it is a transition on
 * (response, log).
 */
module LogMerge {
  import opened Base
  import opened Types
  import Processing

  // ---------------------------------------------------------------------
  // The merge as written
  // ---------------------------------------------------------------------

  /** The stored entry survives only when it records the observed runtime. */
  function Observe(e: Option<LogEntry>, runtime: int, updated: int): (r: LogEntry)
    ensures r.runtime == runtime
    ensures e.Some? && e.value.runtime == runtime ==> r == e.value
    ensures !(e.Some? && e.value.runtime == runtime) ==> r.since == updated
  {
    if e.Some? && e.value.runtime == runtime then e.value else LogEntry(runtime, updated)
  }

  /** The `forEach` body for one image. */
  function MergeImage(inner: TeamLog, image: Image, updated: int): (r: TeamLog)
    ensures image.os.None? ==> r == inner
    ensures image.os.Some? ==> r.Keys == inner.Keys + {image.os.value}
    ensures forall o :: o in inner && Some(o) != image.os ==> o in r && r[o] == inner[o]
  {
    match image.os
    case None => inner
    case Some(o) => inner[o := Observe(Get(inner, o), image.runtime, updated)]
  }

  /** `teamData.images.forEach(...)`, in list order. */
  function MergeImages(inner: TeamLog, images: seq<Image>, updated: int): TeamLog
    decreases |images|
  {
    if |images| == 0 then inner
    else MergeImages(MergeImage(inner, images[0], updated), images[1..], updated)
  }

  /** The team's inner map, or the `{}` created for a team seen for the first time. */
  function TeamLogOf(log: RuntimeLog, id: string): TeamLog {
    if id in log then log[id] else map[]
  }

  /** One `Object.entries` step: null data is skipped. */
  function MergeEntry(log: RuntimeLog, entry: Entry): (r: RuntimeLog)
    ensures entry.data.None? ==> r == log
    ensures entry.data.Some? ==> r.Keys == log.Keys + {entry.id}
  {
    match entry.data
    case None => log
    case Some(d) => log[entry.id := MergeImages(TeamLogOf(log, entry.id), d.images, d.updated)]
  }

  /** The whole `setRuntimeLog` updater. */
  function Merge(log: RuntimeLog, resp: Response): RuntimeLog
    decreases |resp|
  {
    if |resp| == 0 then log else Merge(MergeEntry(log, resp[0]), resp[1..])
  }

  // ---------------------------------------------------------------------
  // One category at a time
  // ---------------------------------------------------------------------

  /** The runtimes the images report for category `o`, in list order. */
  function RuntimesOf(images: seq<Image>, o: OS): seq<int>
  {
    if |images| == 0 then []
    else if images[0].os == Some(o) then [images[0].runtime] + RuntimesOf(images[1..], o)
    else RuntimesOf(images[1..], o)
  }

  /** The entry of one category after observing a series of runtimes. */
  function ObserveAll(e: Option<LogEntry>, runtimes: seq<int>, updated: int): Option<LogEntry>
    decreases |runtimes|
  {
    if |runtimes| == 0 then e else ObserveAll(Some(Observe(e, runtimes[0], updated)), runtimes[1..], updated)
  }

  /** Each category of the inner map evolves on its own. */
  lemma {:induction false} MergeImagesAt(inner: TeamLog, images: seq<Image>, updated: int, o: OS)
    ensures Get(MergeImages(inner, images, updated), o) == ObserveAll(Get(inner, o), RuntimesOf(images, o), updated)
    decreases |images|
  {
    if |images| > 0 {
      MergeImagesAt(MergeImage(inner, images[0], updated), images[1..], updated, o);
    }
  }

  predicate AllEqual(runtimes: seq<int>, v: int) {
    forall i :: 0 <= i < |runtimes| ==> runtimes[i] == v
  }

  /**
   * After a non-empty series the entry is the old one when every runtime
   * equals the stored runtime, and otherwise records the last runtime
   * since `updated`.
   */
  lemma {:induction false} ObserveAllResult(e: Option<LogEntry>, runtimes: seq<int>, updated: int)
    requires |runtimes| > 0
    ensures ObserveAll(e, runtimes, updated)
         == if e.Some? && AllEqual(runtimes, e.value.runtime) then e
            else Some(LogEntry(runtimes[|runtimes| - 1], updated))
    decreases |runtimes|
  {
    var e1 := Some(Observe(e, runtimes[0], updated));
    if |runtimes| > 1 {
      ObserveAllResult(e1, runtimes[1..], updated);
      if e.Some? && e.value.runtime == runtimes[0] {
        assert e1 == e;
        assert AllEqual(runtimes, e.value.runtime) <==> AllEqual(runtimes[1..], e.value.runtime) by {
          forall i | 0 < i < |runtimes| ensures runtimes[i] == runtimes[1..][i - 1] {}
        }
      } else {
        assert e1 == Some(LogEntry(runtimes[0], updated));
        assert !(e.Some? && AllEqual(runtimes, e.value.runtime)) by {
          if e.Some? { assert runtimes[0] != e.value.runtime; }
        }
      }
    }
  }

  /** Observing the same series again changes nothing. */
  lemma ObserveAllIdempotent(e: Option<LogEntry>, runtimes: seq<int>, updated: int)
    ensures ObserveAll(ObserveAll(e, runtimes, updated), runtimes, updated) == ObserveAll(e, runtimes, updated)
  {
    if |runtimes| > 0 {
      var once := ObserveAll(e, runtimes, updated);
      ObserveAllResult(e, runtimes, updated);
      ObserveAllResult(once, runtimes, updated);
    }
  }

  /** Two maps that agree on every lookup are equal. */
  lemma MapsEqual<K, V>(m1: map<K, V>, m2: map<K, V>)
    requires forall k :: Get(m1, k) == Get(m2, k)
    ensures m1 == m2
  {
    assert m1.Keys == m2.Keys by {
      forall k | k in m1 ensures k in m2 { assert Get(m1, k).Some?; }
      forall k | k in m2 ensures k in m1 { assert Get(m2, k).Some?; }
    }
    forall k | k in m1 ensures m1[k] == m2[k] { assert Get(m1, k) == Get(m2, k); }
  }

  /** Replaying a team's images on the merged inner map changes nothing. */
  lemma MergeImagesIdempotent(inner: TeamLog, images: seq<Image>, updated: int)
    ensures MergeImages(MergeImages(inner, images, updated), images, updated) == MergeImages(inner, images, updated)
  {
    var once := MergeImages(inner, images, updated);
    forall o: OS
      ensures Get(MergeImages(once, images, updated), o) == Get(once, o)
    {
      MergeImagesAt(inner, images, updated, o);
      MergeImagesAt(once, images, updated, o);
      ObserveAllIdempotent(Get(inner, o), RuntimesOf(images, o), updated);
    }
    MapsEqual(MergeImages(once, images, updated), once);
  }

  // ---------------------------------------------------------------------
  // One team at a time
  // ---------------------------------------------------------------------

  /**
   * With distinct team ids the merge touches exactly the teams that have
   * data: such a team's inner map is its old one (or `{}`) with its images
   * merged in; every other team keeps what it had, or stays absent.
   */
  lemma {:induction false} MergeAt(log: RuntimeLog, resp: Response, id: string)
    requires UniqueIds(resp)
    ensures Get(Merge(log, resp), id)
         == match DataFor(resp, id)
            case Some(d) => Some(MergeImages(TeamLogOf(log, id), d.images, d.updated))
            case None => Get(log, id)
    decreases |resp|
  {
    if |resp| > 0 {
      var log1 := MergeEntry(log, resp[0]);
      assert UniqueIds(resp[1..]);
      MergeAt(log1, resp[1..], id);
      if resp[0].id == id {
        assert forall i :: 0 <= i < |resp[1..]| ==> resp[1..][i].id != id by {
          forall i | 0 <= i < |resp[1..]| ensures resp[1..][i].id != id {
            assert resp[1..][i] == resp[i + 1];
          }
        }
      }
    }
  }

  /** Teams whose value is null, and teams missing from the response, keep their entries. */
  lemma MergeLeavesOtherTeams(log: RuntimeLog, resp: Response, id: string)
    requires UniqueIds(resp)
    requires DataFor(resp, id).None?
    ensures Get(Merge(log, resp), id) == Get(log, id)
  {
    MergeAt(log, resp, id);
  }

  /** A team with data always has an inner map afterwards, possibly empty. */
  lemma MergeCreatesTeamLog(log: RuntimeLog, resp: Response, id: string)
    requires UniqueIds(resp)
    requires DataFor(resp, id).Some?
    ensures id in Merge(log, resp)
    ensures id in log ==> log[id].Keys <= Merge(log, resp)[id].Keys
  {
    MergeAt(log, resp, id);
    var d := DataFor(resp, id).value;
    forall o | id in log && o in log[id] ensures o in Merge(log, resp)[id] {
      MergeImagesAt(TeamLogOf(log, id), d.images, d.updated, o);
      if |RuntimesOf(d.images, o)| > 0 {
        ObserveAllResult(Get(log[id], o), RuntimesOf(d.images, o), d.updated);
      }
    }
  }

  /**
   * The entry of a (team, category) after the merge: untouched when no image
   * of that category was reported; otherwise the stored entry when every
   * reported runtime equals the stored one, else the last reported runtime
   * since the snapshot's `updated`.
   */
  lemma MergeEntryRule(log: RuntimeLog, resp: Response, id: string, d: TeamData, o: OS)
    requires UniqueIds(resp)
    requires DataFor(resp, id) == Some(d)
    ensures id in Merge(log, resp)
    ensures var prior := Get(TeamLogOf(log, id), o);
            var rs := RuntimesOf(d.images, o);
            var now := Get(Merge(log, resp)[id], o);
            && (|rs| == 0 ==> now == prior)
            && (|rs| > 0 && prior.Some? && AllEqual(rs, prior.value.runtime) ==> now == prior)
            && (|rs| > 0 && !(prior.Some? && AllEqual(rs, prior.value.runtime)) ==>
                  now == Some(LogEntry(rs[|rs| - 1], d.updated)))
  {
    MergeAt(log, resp, id);
    MergeImagesAt(TeamLogOf(log, id), d.images, d.updated, o);
    if |RuntimesOf(d.images, o)| > 0 {
      ObserveAllResult(Get(TeamLogOf(log, id), o), RuntimesOf(d.images, o), d.updated);
    }
  }

  /** Merging the same response twice gives the log of merging it once. */
  lemma MergeIdempotent(log: RuntimeLog, resp: Response)
    requires UniqueIds(resp)
    ensures Merge(Merge(log, resp), resp) == Merge(log, resp)
  {
    var once := Merge(log, resp);
    forall id: string
      ensures Get(Merge(once, resp), id) == Get(once, id)
    {
      MergeAt(log, resp, id);
      MergeAt(once, resp, id);
      match DataFor(resp, id)
      case Some(d) =>
        MergeImagesIdempotent(TeamLogOf(log, id), d.images, d.updated);
      case None =>
    }
    MapsEqual(Merge(once, resp), once);
  }

  /** Every runtime an image of a category reports is among that category's runtimes. */
  lemma RuntimeReported(images: seq<Image>, k: int, o: OS)
    requires 0 <= k < |images| && images[k].os == Some(o)
    ensures images[k].runtime in RuntimesOf(images, o)
  {
    if k > 0 {
      RuntimeReported(images[1..], k - 1, o);
    }
  }

  /**
   * Right after a merge, an image of the merged snapshot can only be stopped
   * when its entry already recorded that runtime before the merge and was
   * kept: a replaced entry has `since == updated`, zero minutes old.
   */
  lemma StoppedOnlyIfUnchanged(log: RuntimeLog, resp: Response, id: string, d: TeamData, k: int)
    requires UniqueIds(resp)
    requires DataFor(resp, id) == Some(d)
    requires 0 <= k < |d.images|
    requires Processing.IsStopped(Some(d), Get(Merge(log, resp), id), Some(d.images[k]))
    ensures var o := d.images[k].os.value;
            && id in log && o in log[id]
            && log[id][o].runtime == d.images[k].runtime
            && Merge(log, resp)[id][o] == log[id][o]
  {
    var o := d.images[k].os.value;
    MergeEntryRule(log, resp, id, d, o);
    RuntimeReported(d.images, k, o);
    var rs := RuntimesOf(d.images, o);
    var i :| 0 <= i < |rs| && rs[i] == d.images[k].runtime;
  }

  // ---------------------------------------------------------------------
  // The poll loop
  // ---------------------------------------------------------------------

  /** What one tick of the poll produced. */
  datatype PollOutcome =
    | NoTeams          // empty roster: nothing is fetched
    | HttpError        // `!res.ok`
    | Unparsed         // the parse gave no data
    | Parsed(resp: Response)

  /** The dashboard's two pieces of state that outlive a render. */
  datatype Dashboard = Dashboard(teamsData: Response, log: RuntimeLog)

  /**
   * A successful parse replaces the response and, through the update
   * effect, merges it into the log; any other outcome changes nothing.
   */
  function Tick(s: Dashboard, p: PollOutcome): (r: Dashboard)
    ensures !p.Parsed? ==> r == s
    ensures p.Parsed? ==> r.teamsData == p.resp && r.log == Merge(s.log, p.resp)
  {
    match p
    case Parsed(resp) => Dashboard(resp, Merge(s.log, resp))
    case _ => s
  }

  /** Receiving the same response twice in a row leaves the state of receiving it once. */
  lemma TickTwice(s: Dashboard, p: PollOutcome)
    requires p.Parsed? ==> UniqueIds(p.resp)
    ensures Tick(Tick(s, p), p) == Tick(s, p)
  {
    if p.Parsed? {
      MergeIdempotent(s.log, p.resp);
    }
  }
}
