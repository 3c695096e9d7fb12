/** One run of the sync job (`main`): the credential check, the three
    resource syncs in order, and the run metadata. The data directory is a
    value of `Store`; a file that does not exist is `None`. */
module SyncRun {
  import opened Wrappers
  import opened Records
  import opened Vendor
  import ActivitySync
  import AnalyseSync
  import Sorting

  /** A JSON value the sync stores without reading it (the dashboard
      document); `null` is a value of its own. */
  datatype Json = Null | Value(text: string)

  /** The run metadata document. `latestHappenDay` is part of the format but
      no run ever sets it. */
  datatype Meta = Meta(lastFetch: Option<string>, knownLabelIds: seq<string>, latestHappenDay: Option<int>)

  /** The four documents of the data directory. */
  datatype Store = Store(
    activities: Option<seq<Activity>>,
    analyse: Option<Bundle>,
    dashboard: Option<Json>,
    meta: Option<Meta>)

  const SampleSize := 50

  /** `_load_meta`: the stored metadata, or the empty default when there is
      no file. */
  function LoadMeta(stored: Option<Meta>): (m: Meta)
    ensures stored.Some? ==> m == stored.value
    ensures stored.None? ==> m.lastFetch.None? && m.knownLabelIds == [] && m.latestHappenDay.None?
  {
    match stored
    case Some(meta) => meta
    case None => Meta(None, [], None)
  }

  /** `_load_json(ACTIVITIES_FILE) or []`. */
  function LoadActivities(stored: Option<seq<Activity>>): (r: seq<Activity>)
    ensures stored.Some? ==> r == stored.value
    ensures stored.None? ==> r == []
  {
    stored.GetOr([])
  }

  /** The label ids of `acts`, in list order. */
  function LabelSeq(acts: seq<Activity>): (r: seq<string>)
    ensures |r| == |acts|
    ensures forall id :: id in r <==> id in LabelIds(acts)
  {
    var r := seq(|acts|, i requires 0 <= i < |acts| => acts[i].labelId);
    assert forall id :: id in r ==> id in LabelIds(acts);
    assert forall a :: a in acts ==> a.labelId in r by {
      forall a | a in acts
        ensures a.labelId in r
      {
        var i :| 0 <= i < |acts| && acts[i] == a;
        assert r[i] == a.labelId;
      }
    }
    r
  }

  /** The label ids of `acts` listed once each, in order of first
      appearance: one enumeration of the set `sync_activities` returns. */
  function DistinctLabels(acts: seq<Activity>): (r: seq<string>)
    ensures Sorting.NoDuplicates(r)
    ensures forall id :: id in r <==> id in LabelIds(acts)
  {
    Sorting.Dedup(LabelSeq(acts))
  }

  /** `list(all_ids)[:50]`: at most fifty distinct ids, all from the set,
      and all of them when the set is that small. */
  function SampleIds(listing: seq<string>): (r: seq<string>)
    requires Sorting.NoDuplicates(listing)
    ensures Sorting.NoDuplicates(r)
    ensures forall id :: id in r ==> id in listing
    ensures |r| == if |listing| < SampleSize then |listing| else SampleSize
    ensures |listing| <= SampleSize ==> r == listing
  {
    if |listing| <= SampleSize then listing else listing[..SampleSize]
  }

  /** `sync_dashboard`: the document is replaced by the vendor's `data`
      whatever it holds (`null` included); a rejected envelope leaves it
      alone and a missing `data` field raises. */
  function SyncDashboard(stored: Option<Json>, resp: Response<Json>): (r: Result<Option<Json>, AnalyseSync.AnalyseError>)
    ensures r.Failure? <==> Raises(resp)
    ensures Rejected(resp) ==> r == Success(stored)
    ensures Delivers(resp) ==> r == Success(resp.data)
  {
    if Raises(resp) then Failure(AnalyseSync.Raised)
    else if resp.result != SuccessCode then Success(stored)
    else Success(resp.data)
  }

  /** How a run ends: the missing-credential exit, an exception that stops
      the run after the writes already done, or completion. */
  datatype Outcome =
    | Exited(code: int, store: Store)
    | Aborted(store: Store)
    | Completed(store: Store)

  function FinalStore(o: Outcome): Store {
    o.store
  }

  /** `main`. The clock reading `_save_meta` stamps is the parameter `now`;
      the three vendor resources are given by their responses. */
  function RunSync(token: string, store: Store, activityPages: ActivitySync.Remote,
                   analyseResp: Response<Bundle>, dashboardResp: Response<Json>, now: string): (o: Outcome)
    ensures token == "" <==> o.Exited?
    ensures token == "" ==> o == Exited(1, store)
  {
    if token == "" then Exited(1, store)
    else
      var meta := LoadMeta(store.meta);
      var existing := LoadActivities(store.activities);
      match ActivitySync.SyncActivities(existing, activityPages)
      case Failure(_) => Aborted(store)
      case Success(synced) =>
        var activities := if synced.rewritten then Some(synced.document) else store.activities;
        var found := ActivitySync.FetchActivities(LabelIds(existing), activityPages).value.items;
        var sample := SampleIds(DistinctLabels(found + existing));
        var afterActivities := store.(activities := activities);
        match AnalyseSync.SyncAnalyse(store.analyse, analyseResp)
        case Failure(_) => Aborted(afterActivities)
        case Success(analyse) =>
          var afterAnalyse := afterActivities.(analyse := analyse);
          match SyncDashboard(store.dashboard, dashboardResp)
          case Failure(_) => Aborted(afterAnalyse)
          case Success(dashboard) =>
            var meta' := meta.(knownLabelIds := sample, lastFetch := Some(now));
            Completed(afterAnalyse.(dashboard := dashboard, meta := Some(meta')))
  }

  /** The listing the sample is drawn from has one entry per known id. */
  lemma DistinctLabelsCount(acts: seq<Activity>)
    ensures |DistinctLabels(acts)| == |LabelIds(acts)|
  {
    var l := DistinctLabels(acts);
    Sorting.DistinctCount(l);
    assert (set x | x in l) == LabelIds(acts);
  }

  /** A run whose three reads all succeed: the activity list is the one
      `sync_activities` produced, the metadata carries the clock reading and
      a sample of min(50, n) distinct ids out of the n ids seen, and the
      field no run sets keeps its stored value. */
  lemma CompletedRun(token: string, store: Store, activityPages: ActivitySync.Remote,
                     analyseResp: Response<Bundle>, dashboardResp: Response<Json>, now: string)
    requires token != ""
    requires ActivitySync.FetchActivities(LabelIds(LoadActivities(store.activities)), activityPages).Success?
    requires !Raises(analyseResp) && !Raises(dashboardResp)
    ensures var o := RunSync(token, store, activityPages, analyseResp, dashboardResp, now);
      var existing := LoadActivities(store.activities);
      var synced := ActivitySync.SyncActivities(existing, activityPages).value;
      var ids := LabelIds(ActivitySync.FetchActivities(LabelIds(existing), activityPages).value.items + existing);
      && o.Completed?
      && o.store.activities == (if synced.rewritten then Some(synced.document) else store.activities)
      && o.store.analyse == AnalyseSync.SyncAnalyse(store.analyse, analyseResp).value
      && o.store.dashboard == SyncDashboard(store.dashboard, dashboardResp).value
      && o.store.meta.Some?
      && o.store.meta.value.lastFetch == Some(now)
      && o.store.meta.value.latestHappenDay == LoadMeta(store.meta).latestHappenDay
      && Sorting.NoDuplicates(o.store.meta.value.knownLabelIds)
      && (forall id :: id in o.store.meta.value.knownLabelIds ==> id in ids)
      && |o.store.meta.value.knownLabelIds| == (if |ids| < SampleSize then |ids| else SampleSize)
  {
    var existing := LoadActivities(store.activities);
    var found := ActivitySync.FetchActivities(LabelIds(existing), activityPages).value.items;
    DistinctLabelsCount(found + existing);
  }

  /** A raise while reading the daily metrics ends the run after the
      activity write: the other documents, the metadata included, are left
      as they were. */
  lemma AnalyseRaiseKeepsActivityWrite(token: string, store: Store, activityPages: ActivitySync.Remote,
                                       analyseResp: Response<Bundle>, dashboardResp: Response<Json>, now: string)
    requires token != ""
    requires ActivitySync.FetchActivities(LabelIds(LoadActivities(store.activities)), activityPages).Success?
    requires Raises(analyseResp)
    ensures var o := RunSync(token, store, activityPages, analyseResp, dashboardResp, now);
      var synced := ActivitySync.SyncActivities(LoadActivities(store.activities), activityPages).value;
      o == Aborted(store.(activities := if synced.rewritten then Some(synced.document) else store.activities))
  {
  }

  /** A raise in the activity paging loop ends the run before any write. */
  lemma ActivityRaiseWritesNothing(token: string, store: Store, activityPages: ActivitySync.Remote,
                                   analyseResp: Response<Bundle>, dashboardResp: Response<Json>, now: string)
    requires token != ""
    requires ActivitySync.FetchActivities(LabelIds(LoadActivities(store.activities)), activityPages).Failure?
    ensures RunSync(token, store, activityPages, analyseResp, dashboardResp, now) == Aborted(store)
  {
  }

  /** A rejected envelope only skips its own resource: the run goes on and
      completes with that document unchanged. */
  lemma RejectionsDoNotStopTheRun(token: string, store: Store, activityPages: ActivitySync.Remote,
                                  analyseResp: Response<Bundle>, dashboardResp: Response<Json>, now: string)
    requires token != ""
    requires ActivitySync.FetchActivities(LabelIds(LoadActivities(store.activities)), activityPages).Success?
    requires Rejected(analyseResp) && Rejected(dashboardResp)
    ensures var o := RunSync(token, store, activityPages, analyseResp, dashboardResp, now);
      o.Completed? && o.store.analyse == store.analyse && o.store.dashboard == store.dashboard
  {
  }
}
