/** The daily-metrics sync of `sync_analyse`: the first bundle is stored as
    it arrives; afterwards the day list is merged by `happenDay`, a day
    already stored is never overwritten, and every other top-level field is
    replaced by the vendor's value. */
module AnalyseSync {
  import opened Wrappers
  import opened Records
  import opened Vendor
  import Sorting

  function HappenDay(d: Day): int {
    d.happenDay
  }

  function HappenDays(days: seq<Day>): set<int> {
    set d | d in days :: d.happenDay
  }

  /** No two records of the list share a `happenDay`. */
  ghost predicate DistinctDays(days: seq<Day>) {
    forall i, j :: 0 <= i < j < |days| ==> days[i].happenDay != days[j].happenDay
  }

  /** The last record of `days` for the day `hd`: the one a dict built by
      `{d["happenDay"]: d for d in days}` keeps. */
  function LastWith(days: seq<Day>, hd: int): (d: Day)
    requires hd in HappenDays(days)
    ensures d in days && d.happenDay == hd
  {
    var n := |days| - 1;
    if days[n].happenDay == hd then days[n]
    else
      assert days == days[..n] + [days[n]];
      LastWith(days[..n], hd)
  }

  /** The first record of `days` for the day `hd`: the one a loop adding
      only unseen days keeps. */
  function FirstWith(days: seq<Day>, hd: int): (d: Day)
    requires hd in HappenDays(days)
    ensures d in days && d.happenDay == hd
  {
    if days[0].happenDay == hd then days[0]
    else
      assert days == [days[0]] + days[1..];
      FirstWith(days[1..], hd)
  }

  /** `LastWith` is the record at some position for `hd` after which no
      record for `hd` follows. */
  lemma {:induction false} LastWithIsLast(days: seq<Day>, hd: int)
    requires hd in HappenDays(days)
    ensures exists i ::
      && 0 <= i < |days| && days[i] == LastWith(days, hd)
      && forall k :: i < k < |days| ==> days[k].happenDay != hd
  {
    var n := |days| - 1;
    if days[n].happenDay != hd {
      var init := days[..n];
      assert days == init + [days[n]];
      assert hd in HappenDays(init) by {
        var d :| d in days && d.happenDay == hd;
        assert d in init;
      }
      LastWithIsLast(init, hd);
      var i :| 0 <= i < |init| && init[i] == LastWith(init, hd) &&
        forall k :: i < k < |init| ==> init[k].happenDay != hd;
      assert days[i] == LastWith(days, hd);
      assert forall k :: i < k < |days| ==> days[k].happenDay != hd by {
        forall k | i < k < |days|
          ensures days[k].happenDay != hd
        {
          if k < n {
            assert days[k] == init[k];
          }
        }
      }
    }
  }

  /** `FirstWith` is the record at some position for `hd` before which no
      record for `hd` stands. */
  lemma {:induction false} FirstWithIsFirst(days: seq<Day>, hd: int)
    requires hd in HappenDays(days)
    ensures exists i ::
      && 0 <= i < |days| && days[i] == FirstWith(days, hd)
      && forall k :: 0 <= k < i ==> days[k].happenDay != hd
  {
    if days[0].happenDay == hd {
      assert days[0] == FirstWith(days, hd);
    } else {
      var tail := days[1..];
      assert days == [days[0]] + tail;
      assert hd in HappenDays(tail) by {
        var d :| d in days && d.happenDay == hd;
        assert d in tail;
      }
      FirstWithIsFirst(tail, hd);
      var i :| 0 <= i < |tail| && tail[i] == FirstWith(tail, hd) &&
        forall k :: 0 <= k < i ==> tail[k].happenDay != hd;
      assert days[i + 1] == FirstWith(days, hd);
      assert forall k :: 0 <= k < i + 1 ==> days[k].happenDay != hd by {
        forall k | 0 <= k < i + 1
          ensures days[k].happenDay != hd
        {
          if k > 0 {
            assert days[k] == tail[k - 1];
          }
        }
      }
    }
  }

  /** `index[d["happenDay"]] = d` on a dict kept as a list in insertion
      order: a known day is replaced where it stands, a new day goes last. */
  function Put(index: seq<Day>, d: Day): (r: seq<Day>)
    requires DistinctDays(index)
    ensures DistinctDays(r)
    ensures HappenDays(r) == HappenDays(index) + {d.happenDay}
    ensures d in r
    ensures forall e :: e in r ==> e == d || (e in index && e.happenDay != d.happenDay)
  {
    if index == [] then [d]
    else if index[0].happenDay == d.happenDay then
      assert index == [index[0]] + index[1..];
      [d] + index[1..]
    else
      assert index == [index[0]] + index[1..];
      [index[0]] + Put(index[1..], d)
  }

  /** `{d["happenDay"]: d for d in days}`: one record per day, the last one
      listed for it. */
  function DayIndex(days: seq<Day>): (r: seq<Day>)
    ensures DistinctDays(r)
    ensures HappenDays(r) == HappenDays(days)
    ensures forall e :: e in r ==> e == LastWith(days, e.happenDay)
  {
    if days == [] then []
    else
      var n := |days| - 1;
      assert days == days[..n] + [days[n]];
      Put(DayIndex(days[..n]), days[n])
  }

  /** The loop over the vendor's days: a day not yet in the index is added
      at the end, a day already there is skipped. */
  function AddUnseen(index: seq<Day>, incoming: seq<Day>): (r: seq<Day>)
    requires DistinctDays(index)
    ensures DistinctDays(r)
    ensures HappenDays(r) == HappenDays(index) + HappenDays(incoming)
    ensures forall e :: e in r && e.happenDay in HappenDays(index) ==> e in index
    ensures forall e :: e in r && e.happenDay !in HappenDays(index) ==>
      e.happenDay in HappenDays(incoming) && e == FirstWith(incoming, e.happenDay)
    decreases |incoming|
  {
    if incoming == [] then index
    else
      var d := incoming[0];
      assert incoming == [d] + incoming[1..];
      if d.happenDay in HappenDays(index) then AddUnseen(index, incoming[1..])
      else
        var next := index + [d];
        assert DistinctDays(next);
        AddUnseen(next, incoming[1..])
  }

  lemma DistinctDaysCard(days: seq<Day>)
    ensures |HappenDays(days)| <= |days|
    ensures DistinctDays(days) <==> |HappenDays(days)| == |days|
  {
    var hs := seq(|days|, i requires 0 <= i < |days| => days[i].happenDay);
    Sorting.DistinctCount(hs);
    forall x
      ensures x in hs <==> x in HappenDays(days)
    {
      if x in hs {
        var i :| 0 <= i < |hs| && hs[i] == x;
        assert days[i] in days;
      }
      if x in HappenDays(days) {
        var d :| d in days && d.happenDay == x;
        var i :| 0 <= i < |days| && days[i] == d;
        assert hs[i] == x;
      }
    }
    assert (set x | x in hs) == HappenDays(days);
    assert Sorting.NoDuplicates(hs) <==> DistinctDays(days) by {
      assert forall i :: 0 <= i < |days| ==> hs[i] == days[i].happenDay;
    }
  }

  /** Sorting a list of distinct days by `happenDay` keeps its records and
      makes the days strictly ascending. */
  lemma SortDistinctDays(days: seq<Day>)
    requires DistinctDays(days)
    ensures var r := Sorting.StableSort(days, HappenDay, Sorting.IntAsc);
      (forall d :: d in r <==> d in days) &&
      forall i, j :: 0 <= i < j < |r| ==> r[i].happenDay < r[j].happenDay
  {
    var r := Sorting.StableSort(days, HappenDay, Sorting.IntAsc);
    Sorting.IntOrdersTotal();
    Sorting.StableSortSorted(days, HappenDay, Sorting.IntAsc);
    forall d
      ensures d in r <==> d in days
    {
      assert d in r <==> d in multiset(r);
      assert d in days <==> d in multiset(days);
    }
    assert HappenDays(r) == HappenDays(days);
    DistinctDaysCard(days);
    DistinctDaysCard(r);
    forall i, j | 0 <= i < j < |r|
      ensures r[i].happenDay < r[j].happenDay
    {
      assert Sorting.IntAsc(HappenDay(r[i]), HappenDay(r[j]));
    }
  }

  /** The merged day list: the index of the stored days, the unseen vendor
      days added, sorted by `happenDay` ascending. */
  function MergeDays(stored: seq<Day>, incoming: seq<Day>): (r: seq<Day>)
    ensures Ascending(r)
    ensures HappenDays(r) == HappenDays(stored) + HappenDays(incoming)
    ensures forall d :: d in r && d.happenDay in HappenDays(stored) ==> d == LastWith(stored, d.happenDay)
    ensures forall d :: d in r && d.happenDay !in HappenDays(stored) ==>
      d.happenDay in HappenDays(incoming) && d == FirstWith(incoming, d.happenDay)
  {
    var merged := AddUnseen(DayIndex(stored), incoming);
    SortDistinctDays(merged);
    var r := Sorting.StableSort(merged, HappenDay, Sorting.IntAsc);
    assert HappenDays(r) == HappenDays(merged);
    r
  }

  /** The non-bootstrap merge: day list as in `MergeDays` (a missing list
      reads as empty), every other field of the vendor bundle overwriting
      the stored one, stored fields the vendor omits kept. */
  function MergeBundles(stored: Bundle, api: Bundle): (r: Bundle)
    ensures r.dayList.Some?
    ensures forall i, j :: 0 <= i < j < |r.dayList.value| ==>
      r.dayList.value[i].happenDay < r.dayList.value[j].happenDay
    ensures HappenDays(r.dayList.value) == HappenDays(stored.dayList.GetOr([])) + HappenDays(api.dayList.GetOr([]))
    ensures forall d :: d in r.dayList.value && d.happenDay in HappenDays(stored.dayList.GetOr([])) ==>
      d == LastWith(stored.dayList.GetOr([]), d.happenDay)
    ensures forall k :: k in r.rollups <==> k in stored.rollups || k in api.rollups
    ensures forall k :: k in api.rollups ==> r.rollups[k] == api.rollups[k]
    ensures forall k :: k in stored.rollups && k !in api.rollups ==> r.rollups[k] == stored.rollups[k]
  {
    Bundle(Some(MergeDays(stored.dayList.GetOr([]), api.dayList.GetOr([]))), stored.rollups + api.rollups)
  }

  /** The only way the analyse sync fails: reading the response raised. */
  datatype AnalyseError = Raised

  /** `sync_analyse` as a transition of the stored document (`None` when no
      file exists): a raising response fails, a rejected envelope leaves the
      store as it was, the first delivery is stored verbatim and later ones
      are merged. */
  function SyncAnalyse(stored: Option<Bundle>, resp: Response<Bundle>): (r: Result<Option<Bundle>, AnalyseError>)
    ensures r.Failure? <==> Raises(resp)
    ensures Rejected(resp) ==> r == Success(stored)
    ensures Delivers(resp) && stored.None? ==> r == Success(resp.data)
    ensures Delivers(resp) && stored.Some? ==> r == Success(Some(MergeBundles(stored.value, resp.data.value)))
  {
    if Raises(resp) then Failure(Raised)
    else if resp.result != SuccessCode then Success(stored)
    else if stored.None? then Success(resp.data)
    else Success(Some(MergeBundles(stored.value, resp.data.value)))
  }

  /** A stored day is never overwritten: whatever the vendor sends for a day
      already on file, the merged document holds the stored record. */
  lemma StoredDayWins(stored: Bundle, resp: Response<Bundle>, d: Day)
    requires Delivers(resp)
    requires stored.dayList.Some? && DistinctDays(stored.dayList.value) && d in stored.dayList.value
    ensures var r := SyncAnalyse(Some(stored), resp).value.value;
      d in r.dayList.value
  {
    var days := stored.dayList.value;
    var r := SyncAnalyse(Some(stored), resp).value.value;
    assert d.happenDay in HappenDays(r.dayList.value);
    var e :| e in r.dayList.value && e.happenDay == d.happenDay;
    LastOfDistinct(days, d);
  }

  /** In a list with distinct days, the last record for a day is the only one. */
  lemma {:induction false} LastOfDistinct(days: seq<Day>, d: Day)
    requires DistinctDays(days) && d in days
    ensures LastWith(days, d.happenDay) == d
  {
    var n := |days| - 1;
    if days[n] != d {
      assert days == days[..n] + [days[n]];
      var k :| 0 <= k < |days| && days[k] == d;
      assert k < n;
      assert days[n].happenDay != d.happenDay;
      assert d in days[..n];
      LastOfDistinct(days[..n], d);
    }
  }

  /** A day the store lacks is taken from the first vendor record for it. */
  lemma NewDayFromVendor(stored: Bundle, resp: Response<Bundle>, hd: int)
    requires Delivers(resp) && stored.dayList.Some?
    requires hd !in HappenDays(stored.dayList.value)
    requires hd in HappenDays(resp.data.value.dayList.GetOr([]))
    ensures var r := SyncAnalyse(Some(stored), resp).value.value;
      FirstWith(resp.data.value.dayList.GetOr([]), hd) in r.dayList.value
  {
    var r := SyncAnalyse(Some(stored), resp).value.value;
    assert hd in HappenDays(r.dayList.value);
    var e :| e in r.dayList.value && e.happenDay == hd;
  }

  /** Merging the same vendor bundle a second time changes nothing. */
  lemma MergeIdempotent(stored: Bundle, api: Bundle)
    ensures MergeBundles(MergeBundles(stored, api), api) == MergeBundles(stored, api)
  {
    var days := MergeDays(stored.dayList.GetOr([]), api.dayList.GetOr([]));
    MergeDaysIdempotent(stored.dayList.GetOr([]), api.dayList.GetOr([]));
    OverrideTwice(stored.rollups, api.rollups);
    assert MergeBundles(stored, api) == Bundle(Some(days), stored.rollups + api.rollups);
  }

  lemma OverrideTwice<K, V>(a: map<K, V>, b: map<K, V>)
    ensures (a + b) + b == a + b
  {
  }

  lemma MergeDaysIdempotent(stored: seq<Day>, incoming: seq<Day>)
    ensures MergeDays(MergeDays(stored, incoming), incoming) == MergeDays(stored, incoming)
  {
    var d1 := MergeDays(stored, incoming);
    var d2 := MergeDays(d1, incoming);
    assert HappenDays(d2) == HappenDays(d1);
    forall e | e in d2
      ensures e in d1
    {
      assert e.happenDay in HappenDays(d1);
    }
    StrictlyAscendingUnique(d2, d1);
  }

  lemma EmptyDays(days: seq<Day>)
    ensures HappenDays(days) == {} <==> days == []
  {
    if days != [] {
      assert days[0].happenDay in HappenDays(days);
    }
  }

  ghost predicate Ascending(days: seq<Day>) {
    forall i, j :: 0 <= i < j < |days| ==> days[i].happenDay < days[j].happenDay
  }

  /** In a strictly ascending list the head carries the smallest day, and
      the tail holds exactly the other days. */
  lemma AscendingHead(days: seq<Day>)
    requires Ascending(days) && days != []
    ensures forall hd :: hd in HappenDays(days) ==> days[0].happenDay <= hd
    ensures HappenDays(days[1..]) == HappenDays(days) - {days[0].happenDay}
    ensures Ascending(days[1..])
  {
    assert days == [days[0]] + days[1..];
    forall hd | hd in HappenDays(days)
      ensures days[0].happenDay <= hd
    {
      var i :| 0 <= i < |days| && days[i].happenDay == hd;
    }
    forall hd | hd in HappenDays(days[1..])
      ensures hd != days[0].happenDay
    {
      var i :| 0 <= i < |days[1..]| && days[1..][i].happenDay == hd;
      assert days[i + 1].happenDay == hd;
    }
  }

  /** Two strictly ascending day lists, the first drawn from the second, over
      the same set of days, are equal. */
  lemma {:induction false} StrictlyAscendingUnique(a: seq<Day>, b: seq<Day>)
    requires Ascending(a) && Ascending(b)
    requires forall e :: e in a ==> e in b
    requires HappenDays(a) == HappenDays(b)
    ensures a == b
  {
    EmptyDays(a);
    EmptyDays(b);
    if a != [] {
      assert a == [a[0]] + a[1..] && b == [b[0]] + b[1..];
      assert a[0] == b[0] by {
        AscendingHead(a);
        AscendingHead(b);
        // Both heads carry the smallest day, and b holds one record for it.
        assert a[0].happenDay in HappenDays(a) && b[0].happenDay in HappenDays(b);
        assert a[0].happenDay == b[0].happenDay;
        var k :| 0 <= k < |b| && b[k] == a[0];
        assert k == 0;
      }
      assert Ascending(a[1..]) && Ascending(b[1..]) && HappenDays(a[1..]) == HappenDays(b[1..]) by {
        AscendingHead(a);
        AscendingHead(b);
      }
      assert forall e :: e in a[1..] ==> e in b[1..] by {
        forall e | e in a[1..]
          ensures e in b[1..]
        {
          AscendingHead(a);
          assert e.happenDay in HappenDays(a[1..]);
          assert e in a;
          var m :| 0 <= m < |b| && b[m] == e;
          assert m != 0 && b[1..][m - 1] == e;
        }
      }
      StrictlyAscendingUnique(a[1..], b[1..]);
    }
  }
}
