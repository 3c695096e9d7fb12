/** The incremental activity sync: the paging loop of `fetch_activities`,
    which asks the vendor for pages of activities until it reaches records it
    already holds, and the merge of `sync_activities`, which prepends what it
    found to the stored list and re-sorts it by start time. */
module ActivitySync {
  import opened Wrappers
  import opened Records
  import opened Vendor
  import Sorting

  /** The `data` of one page of the activity query. A missing `totalPage`
      counts as 1. */
  datatype PageData = PageData(dataList: seq<Activity>, totalPage: Option<int>)

  /** The vendor's answers page by page: page `p` (counting from 1) is
      answered by `remote[p - 1]`, and every page past the end by an empty
      successful page. */
  type Remote = seq<Response<PageData>>

  function PageResponse(remote: Remote, page: nat): Response<PageData>
    requires 1 <= page
  {
    if page <= |remote| then remote[page - 1]
    else Envelope(SuccessCode, "", Some(PageData([], None)))
  }

  /** The records of `page` whose `labelId` is not yet known, in page order. */
  function NewOnPage(known: set<string>, page: seq<Activity>): (r: seq<Activity>)
    ensures |r| <= |page|
  {
    if page == [] then []
    else (if page[0].labelId !in known then [page[0]] else []) + NewOnPage(known, page[1..])
  }

  /** A record is kept from a page exactly when it is listed there and its
      `labelId` is unknown. */
  lemma {:induction false} NewOnPageMembers(known: set<string>, page: seq<Activity>, a: Activity)
    ensures a in NewOnPage(known, page) <==> a in page && a.labelId !in known
    decreases |page|
  {
    if page != [] {
      NewOnPageMembers(known, page[1..], a);
      assert page == [page[0]] + page[1..];
    }
  }

  /** What a page contributes to the result: its unknown records when it is
      a successful envelope, nothing otherwise. */
  function Harvest(known: set<string>, resp: Response<PageData>): seq<Activity> {
    if Delivers(resp) then NewOnPage(known, resp.data.value.dataList)
    else []
  }

  /** The loop requests the page after `page`: this page was a successful,
      non-empty envelope whose records were all new, and the vendor reports
      more pages than `page`. */
  predicate Continues(known: set<string>, resp: Response<PageData>, page: nat) {
    && Delivers(resp)
    && resp.data.value.dataList != []
    && |NewOnPage(known, resp.data.value.dataList)| == |resp.data.value.dataList|
    && page < resp.data.value.totalPage.GetOr(1)
  }

  /** The harvest of pages `lo` up to but excluding `hi`, in page order. */
  function HarvestRange(known: set<string>, remote: Remote, lo: nat, hi: nat): seq<Activity>
    requires 1 <= lo
    decreases hi - lo
  {
    if hi <= lo then []
    else Harvest(known, PageResponse(remote, lo)) + HarvestRange(known, remote, lo + 1, hi)
  }

  lemma HarvestRangeFirst(known: set<string>, remote: Remote, lo: nat, hi: nat)
    requires 1 <= lo < hi
    ensures HarvestRange(known, remote, lo, hi) ==
      Harvest(known, PageResponse(remote, lo)) + HarvestRange(known, remote, lo + 1, hi)
  {
  }

  /** Every page from `lo` up to but excluding `hi` lets the loop move on. */
  predicate ContinuesThrough(known: set<string>, remote: Remote, lo: nat, hi: nat)
    requires 1 <= lo
  {
    forall p :: lo <= p < hi ==> Continues(known, PageResponse(remote, p), p)
  }

  /** A page the loop moves past is one of the vendor's own answers. */
  lemma ContinuesWithin(known: set<string>, remote: Remote, page: nat)
    requires 1 <= page
    requires Continues(known, PageResponse(remote, page), page)
    ensures page <= |remote|
  {
  }

  lemma ContinuesThroughFirst(known: set<string>, remote: Remote, lo: nat, hi: nat)
    requires 1 <= lo
    requires Continues(known, PageResponse(remote, lo), lo)
    requires ContinuesThrough(known, remote, lo + 1, hi)
    ensures ContinuesThrough(known, remote, lo, hi)
  {
  }

  /** A raise on page `page` loses everything gathered so far. */
  datatype FetchError = RaisedOnPage(page: nat)

  /** The records found and the last page requested. */
  datatype Fetched = Fetched(items: seq<Activity>, lastPage: nat)

  /** What one iteration of the loop does with the answer to page `page`. */
  datatype Step = Raise | Stop(items: seq<Activity>) | Next(items: seq<Activity>)

  /** One iteration: raise, or take the page's new records and either stop
      (error envelope, empty page, no new record, a partially new page, or
      the last reported page) or move on. */
  function PageStep(known: set<string>, resp: Response<PageData>, page: nat): (s: Step)
    ensures s.Raise? <==> Raises(resp)
    ensures s.Next? <==> Continues(known, resp, page)
    ensures !s.Raise? ==> s.items == Harvest(known, resp)
  {
    if resp.HttpError? then Raise
    else if resp.result != SuccessCode then Stop([])
    else if resp.data.None? then Raise
    else
      var dataList := resp.data.value.dataList;
      if dataList == [] then Stop([])
      else
        var newOnes := NewOnPage(known, dataList);
        if |newOnes| == 0 || |newOnes| < |dataList| || page >= resp.data.value.totalPage.GetOr(1) then
          Stop(newOnes)
        else Next(newOnes)
  }

  /** The paging loop from page `page` on. It requests pages in order, moves
      past a page exactly when `Continues` holds of it, and returns the
      unknown records of every page it requested, in page order. */
  function FetchFrom(known: set<string>, remote: Remote, page: nat): (r: Result<Fetched, FetchError>)
    requires 1 <= page
    ensures r.Success? ==> page <= r.value.lastPage
    ensures r.Success? ==> ContinuesThrough(known, remote, page, r.value.lastPage)
    ensures r.Success? ==>
      && !Continues(known, PageResponse(remote, r.value.lastPage), r.value.lastPage)
      && !Raises(PageResponse(remote, r.value.lastPage))
    ensures r.Success? ==> r.value.items == HarvestRange(known, remote, page, r.value.lastPage + 1)
    ensures r.Failure? ==>
      && page <= r.error.page
      && Raises(PageResponse(remote, r.error.page))
      && ContinuesThrough(known, remote, page, r.error.page)
    decreases |remote| + 1 - page
  {
    var resp := PageResponse(remote, page);
    match PageStep(known, resp, page)
    case Raise => Failure(RaisedOnPage(page))
    case Stop(items) =>
      HarvestRangeFirst(known, remote, page, page + 1);
      assert HarvestRange(known, remote, page, page + 1) == items by {
        assert HarvestRange(known, remote, page + 1, page + 1) == [];
        assert items + [] == items;
      }
      Success(Fetched(items, page))
    case Next(items) =>
      ContinuesWithin(known, remote, page);
      match FetchFrom(known, remote, page + 1)
      case Failure(e) =>
        ContinuesThroughFirst(known, remote, page, e.page);
        Failure(e)
      case Success(f) =>
        ContinuesThroughFirst(known, remote, page, f.lastPage);
        HarvestRangeFirst(known, remote, page, f.lastPage + 1);
        assert HarvestRange(known, remote, page, f.lastPage + 1) == items + f.items;
        Success(Fetched(items + f.items, f.lastPage))
  }

  /** `fetch_activities(known_ids)`: the paging loop from page 1. */
  function FetchActivities(known: set<string>, remote: Remote): Result<Fetched, FetchError> {
    FetchFrom(known, remote, 1)
  }

  /** The record `a` is listed on a page the loop could read. */
  predicate OnPage(resp: Response<PageData>, a: Activity) {
    Delivers(resp) && a in resp.data.value.dataList
  }

  lemma {:induction false} HarvestRangeMembers(known: set<string>, remote: Remote, lo: nat, hi: nat, a: Activity)
    requires 1 <= lo
    ensures a in HarvestRange(known, remote, lo, hi) <==>
      a.labelId !in known && exists p :: lo <= p < hi && OnPage(PageResponse(remote, p), a)
    decreases hi - lo
  {
    if lo < hi {
      var here := Harvest(known, PageResponse(remote, lo));
      var rest := HarvestRange(known, remote, lo + 1, hi);
      assert HarvestRange(known, remote, lo, hi) == here + rest;
      HarvestRangeMembers(known, remote, lo + 1, hi, a);
      assert a in here <==> a.labelId !in known && OnPage(PageResponse(remote, lo), a) by {
        if Delivers(PageResponse(remote, lo)) {
          NewOnPageMembers(known, PageResponse(remote, lo).data.value.dataList, a);
        }
      }
      if a.labelId !in known && (exists p :: lo <= p < hi && OnPage(PageResponse(remote, p), a)) {
        var p :| lo <= p < hi && OnPage(PageResponse(remote, p), a);
        if p == lo {
          assert a in here;
        } else {
          assert a in rest;
        }
      }
    }
  }

  /** The loop returns exactly the records with an unknown `labelId` listed
      on the pages it requested. */
  lemma FetchResultMembers(known: set<string>, remote: Remote)
    ensures FetchActivities(known, remote).Success? ==>
      var f := FetchActivities(known, remote).value;
      forall a :: a in f.items <==>
        a.labelId !in known && exists p :: 1 <= p <= f.lastPage && OnPage(PageResponse(remote, p), a)
  {
    var r := FetchActivities(known, remote);
    if r.Success? {
      var f := r.value;
      var found := HarvestRange(known, remote, 1, f.lastPage + 1);
      assert f.items == found;
      forall a
        ensures a in found <==>
          a.labelId !in known && exists p :: 1 <= p <= f.lastPage && OnPage(PageResponse(remote, p), a)
      {
        HarvestRangeMembers(known, remote, 1, f.lastPage + 1, a);
      }
    }
  }

  /** The stop rule decides the whole outcome: if page `p` is the first page
      the loop does not move past, the loop raises there when that page
      raises, and otherwise returns the harvest of pages 1 to `p`. */
  lemma StopsAtFirstNonContinuingPage(known: set<string>, remote: Remote, p: nat)
    requires 1 <= p
    requires forall q :: 1 <= q < p ==> Continues(known, PageResponse(remote, q), q)
    requires !Continues(known, PageResponse(remote, p), p)
    ensures Raises(PageResponse(remote, p)) ==> FetchActivities(known, remote) == Failure(RaisedOnPage(p))
    ensures !Raises(PageResponse(remote, p)) ==>
      FetchActivities(known, remote) == Success(Fetched(HarvestRange(known, remote, 1, p + 1), p))
  {
    var r := FetchActivities(known, remote);
    if r.Success? {
      var last := r.value.lastPage;
      if last < p {
        assert false;
      } else if last > p {
        assert false;
      }
    } else {
      var e := r.error.page;
      if e < p {
        assert false;
      } else if e > p {
        assert false;
      }
    }
  }

  /** A first page with some new and some known records is the last page
      requested, and its new records are the whole result. */
  lemma PartialPageStops(known: set<string>, remote: Remote, data: PageData)
    requires |remote| >= 1 && remote[0] == Envelope(SuccessCode, "", Some(data))
    requires 0 < |NewOnPage(known, data.dataList)| < |data.dataList|
    ensures FetchActivities(known, remote) == Success(Fetched(NewOnPage(known, data.dataList), 1))
  {
    StopsAtFirstNonContinuingPage(known, remote, 1);
    assert HarvestRange(known, remote, 2, 2) == [];
  }

  /** A first page whose records are all known ends the loop with nothing
      found. */
  lemma KnownPageStops(known: set<string>, remote: Remote, data: PageData)
    requires |remote| >= 1 && remote[0] == Envelope(SuccessCode, "", Some(data))
    requires data.dataList != [] && NewOnPage(known, data.dataList) == []
    ensures FetchActivities(known, remote) == Success(Fetched([], 1))
  {
    StopsAtFirstNonContinuingPage(known, remote, 1);
    assert HarvestRange(known, remote, 2, 2) == [];
  }

  /** A first page of new records, with more pages reported, is followed by a
      request for page 2. */
  lemma FullNewPageContinues(known: set<string>, remote: Remote, data: PageData)
    requires |remote| >= 1 && remote[0] == Envelope(SuccessCode, "", Some(data))
    requires data.dataList != [] && |NewOnPage(known, data.dataList)| == |data.dataList|
    requires 1 < data.totalPage.GetOr(1)
    ensures FetchActivities(known, remote).Success? ==> FetchActivities(known, remote).value.lastPage >= 2
    ensures FetchActivities(known, remote).Failure? ==> FetchActivities(known, remote).error.page >= 2
  {
  }

  /** An error envelope on page `p` ends the loop without raising: what the
      earlier pages found is still returned. */
  lemma ErrorEnvelopeKeepsEarlierPages(known: set<string>, remote: Remote, p: nat)
    requires 1 <= p
    requires forall q :: 1 <= q < p ==> Continues(known, PageResponse(remote, q), q)
    requires PageResponse(remote, p).Envelope? && PageResponse(remote, p).result != SuccessCode
    ensures FetchActivities(known, remote) == Success(Fetched(HarvestRange(known, remote, 1, p), p))
  {
    StopsAtFirstNonContinuingPage(known, remote, p);
    HarvestRangeSplit(known, remote, 1, p);
    assert Harvest(known, PageResponse(remote, p)) == [];
    assert HarvestRange(known, remote, 1, p) + [] == HarvestRange(known, remote, 1, p);
  }

  lemma {:induction false} HarvestRangeSplit(known: set<string>, remote: Remote, lo: nat, p: nat)
    requires 1 <= lo <= p
    ensures HarvestRange(known, remote, lo, p + 1)
      == HarvestRange(known, remote, lo, p) + Harvest(known, PageResponse(remote, p))
    decreases p - lo
  {
    if lo < p {
      HarvestRangeSplit(known, remote, lo + 1, p);
    }
  }

  /** The known set is not updated between pages, so a record listed on two
      pages that are both entirely new is returned twice: the loop promises
      no uniqueness of its own. */
  lemma RepeatedRecordIsReturnedTwice(x: Activity)
    ensures var page := Envelope(SuccessCode, "", Some(PageData([x], Some(2))));
      FetchActivities({}, [page, page]) == Success(Fetched([x, x], 2))
  {
    var page := Envelope(SuccessCode, "", Some(PageData([x], Some(2))));
    var remote: Remote := [page, page];
    assert Continues({}, PageResponse(remote, 1), 1);
    assert !Continues({}, PageResponse(remote, 2), 2);
    StopsAtFirstNonContinuingPage({}, remote, 2);
    assert NewOnPage({}, [x]) == [x];
    assert HarvestRange({}, remote, 1, 3) == [x] + HarvestRange({}, remote, 2, 3);
    assert HarvestRange({}, remote, 2, 3) == [x] + HarvestRange({}, remote, 3, 3);
    assert HarvestRange({}, remote, 3, 3) == [];
    assert HarvestRange({}, remote, 1, 3) == [x, x];
  }

  // ---------------------------------------------------------------------
  // sync_activities
  // ---------------------------------------------------------------------

  /** `a.get("startTime", 0)`, the sort key of the stored list. */
  function StartTime(a: Activity): int {
    a.startTime
  }

  /** `merged.sort(key=start time, reverse=True)`: a stable sort, latest
      first. */
  function SortByStartTime(acts: seq<Activity>): (r: seq<Activity>)
    ensures multiset(r) == multiset(acts)
    ensures Sorting.SortedBy(r, StartTime, Sorting.IntDesc)
  {
    Sorting.IntOrdersTotal();
    Sorting.StableSortSorted(acts, StartTime, Sorting.IntDesc);
    Sorting.StableSort(acts, StartTime, Sorting.IntDesc)
  }

  /** The sort is stable: activities that started at the same second keep
      the order they had. */
  lemma SortByStartTimeStable(acts: seq<Activity>, k: int)
    ensures Sorting.KeepClass(SortByStartTime(acts), StartTime, Sorting.IntDesc, k)
         == Sorting.KeepClass(acts, StartTime, Sorting.IntDesc, k)
  {
    Sorting.IntOrdersTotal();
    Sorting.StableSortStable(acts, StartTime, Sorting.IntDesc, k);
  }

  /** The stored activity list after a sync, whether it was written, and the
      ids `sync_activities` reports. */
  datatype Synced = Synced(document: seq<Activity>, rewritten: bool, ids: set<string>)

  lemma LabelIdsOfPermutation(a: seq<Activity>, b: seq<Activity>)
    requires multiset(a) == multiset(b)
    ensures LabelIds(a) == LabelIds(b)
    ensures forall x :: x in a <==> x in b
  {
    forall x | x in a
      ensures x in b
    {
      assert x in multiset(a);
    }
    forall x | x in b
      ensures x in a
    {
      assert x in multiset(b);
    }
  }

  /** `sync_activities`: the known ids are those of the stored list; the
      records found are put in front of it and the whole is re-sorted latest
      first, and nothing is written when nothing was found. A raise in the
      paging loop propagates, leaving the stored list as it was. */
  function SyncActivities(existing: seq<Activity>, remote: Remote): (r: Result<Synced, FetchError>)
    ensures r.Success? <==> FetchActivities(LabelIds(existing), remote).Success?
    ensures r.Success? ==>
      var found := FetchActivities(LabelIds(existing), remote).value.items;
      && (r.value.rewritten <==> found != [])
      && (r.value.rewritten ==> multiset(r.value.document) == multiset(found + existing))
      && (!r.value.rewritten ==> r.value.document == existing)
      && Sorting.SortedBy(r.value.document, StartTime, Sorting.IntDesc) == (r.value.rewritten || Sorting.SortedBy(existing, StartTime, Sorting.IntDesc))
      && (forall a :: a in existing ==> a in r.value.document)
      && r.value.ids == LabelIds(found + existing) == LabelIds(r.value.document)
  {
    match FetchActivities(LabelIds(existing), remote)
    case Failure(e) => Failure(e)
    case Success(f) =>
      var merged := f.items + existing;
      if f.items != [] then
        var document := SortByStartTime(merged);
        LabelIdsOfPermutation(document, merged);
        Success(Synced(document, true, LabelIds(merged)))
      else
        assert merged == existing;
        Success(Synced(existing, false, LabelIds(merged)))
  }

  /** A rewritten list keeps the records that started at the same second
      in their merged order: the newly found ones first, in the order they
      were found, then the stored ones in their stored order. */
  lemma SyncActivitiesStable(existing: seq<Activity>, remote: Remote, k: int)
    requires SyncActivities(existing, remote).Success? && SyncActivities(existing, remote).value.rewritten
    ensures var found := FetchActivities(LabelIds(existing), remote).value.items;
      Sorting.KeepClass(SyncActivities(existing, remote).value.document, StartTime, Sorting.IntDesc, k)
        == Sorting.KeepClass(found + existing, StartTime, Sorting.IntDesc, k)
  {
    var found := FetchActivities(LabelIds(existing), remote).value.items;
    SortByStartTimeStable(found + existing, k);
  }

  lemma {:induction false} NoNewWhenAllKnown(known: set<string>, page: seq<Activity>)
    requires forall a :: a in page ==> a.labelId in known
    ensures NewOnPage(known, page) == []
  {
    if page != [] {
      NoNewWhenAllKnown(known, page[1..]);
    }
  }

  /** A successful loop read page 1 without a raise and returns its new
      records first. */
  lemma FetchedBeginsWithFirstPage(known: set<string>, remote: Remote)
    requires FetchActivities(known, remote).Success?
    ensures !Raises(PageResponse(remote, 1))
    ensures FetchActivities(known, remote).value.items[..|Harvest(known, PageResponse(remote, 1))|]
      == Harvest(known, PageResponse(remote, 1))
  {
    var f := FetchActivities(known, remote).value;
    HarvestRangeFirst(known, remote, 1, f.lastPage + 1);
    assert f.items == Harvest(known, PageResponse(remote, 1)) + HarvestRange(known, remote, 2, f.lastPage + 1);
  }

  /** After a successful sync every record of page 1 is known: the first
      page neither raises nor yields anything new. */
  lemma FirstPageKnownAfterSync(existing: seq<Activity>, remote: Remote)
    requires SyncActivities(existing, remote).Success?
    ensures var known2 := LabelIds(SyncActivities(existing, remote).value.document);
      && !Raises(PageResponse(remote, 1))
      && Harvest(known2, PageResponse(remote, 1)) == []
  {
    var s1 := SyncActivities(existing, remote).value;
    var known1 := LabelIds(existing);
    var f := FetchActivities(known1, remote).value;
    var known2 := LabelIds(s1.document);
    var resp := PageResponse(remote, 1);
    FetchedBeginsWithFirstPage(known1, remote);
    if Delivers(resp) {
      var dl := resp.data.value.dataList;
      var here := Harvest(known1, resp);
      assert f.items[..|here|] == here;
      forall a | a in dl
        ensures a.labelId in known2
      {
        if a.labelId !in known1 {
          NewOnPageMembers(known1, dl, a);
          assert a in f.items by {
            var i :| 0 <= i < |here| && here[i] == a;
            assert f.items[i] == a;
          }
        }
      }
      NoNewWhenAllKnown(known2, dl);
    }
  }

  /** Idempotence: a second sync against the same vendor answers finds
      nothing new (every record of page 1 is now known) and leaves the stored
      list exactly as the first sync left it. */
  lemma SecondSyncChangesNothing(existing: seq<Activity>, remote: Remote)
    requires SyncActivities(existing, remote).Success?
    ensures var s1 := SyncActivities(existing, remote).value;
      SyncActivities(s1.document, remote) == Success(Synced(s1.document, false, s1.ids))
  {
    var s1 := SyncActivities(existing, remote).value;
    var known2 := LabelIds(s1.document);
    FirstPageKnownAfterSync(existing, remote);
    StopsAtFirstNonContinuingPage(known2, remote, 1);
    assert HarvestRange(known2, remote, 1, 2) == [] + HarvestRange(known2, remote, 2, 2);
  }
}
