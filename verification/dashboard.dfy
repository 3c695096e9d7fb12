/** The dashboard's pure helpers: the clock-style duration, the sport and
    state lookups, and the activity list's type filter, sort and paging. */
module Dashboard {
  import opened Wrappers
  import opened Text
  import opened Records
  import opened Format
  import Sorting

  // ---------------------------------------------------------------------
  // fmt_duration
  // ---------------------------------------------------------------------

  /** `fmt_duration`: `h:mm:ss` from one hour up, `mm:ss` below, `--` for a
      non-positive duration. */
  function FmtDuration(seconds: int): (r: string)
    ensures r == "--" <==> seconds <= 0
    ensures 0 < seconds < 3600 ==> |r| == 5
  {
    if seconds <= 0 then "--"
    else
      var hms := Hms(seconds);
      ClockText(hms.0, hms.1, hms.2)
  }

  /** The clock form of `h` hours, `m` minutes and `s` seconds: the hours
      are left out when there are none. */
  function ClockText(h: nat, m: nat, s: nat): (r: string)
    requires m < 60 && s < 60
    ensures h == 0 ==> |r| == 5
    ensures r != "--"
  {
    var tail := Pad2(m) + ":" + Pad2(s);
    assert |Pad2(m)| == 2 && |Pad2(s)| == 2;
    if h > 0 then NatToString(h) + ":" + tail else tail
  }

  /** Reads `h:mm:ss` or `mm:ss` back into seconds: the hours positive and
      without a leading zero, minutes and seconds as two digits below 60. */
  function ParseClock(t: string): Option<int> {
    var f := Split(t, ':');
    if |f| == 2 then
      match (ReadSixty(f[0]), ReadSixty(f[1]))
      case (Some(m), Some(s)) => Some(m * 60 + s)
      case _ => None
    else if |f| == 3 then
      match (ReadPlain(f[0]), ReadSixty(f[1]), ReadSixty(f[2]))
      case (Some(h), Some(m), Some(s)) => if h > 0 then Some(h * 3600 + m * 60 + s) else None
      case _ => None
    else None
  }

  /** A positive duration reads back from its clock form. */
  lemma DurationRoundTrip(seconds: int)
    requires seconds > 0
    ensures ParseClock(FmtDuration(seconds)) == Some(seconds)
  {
    var hms := Hms(seconds);
    assert FmtDuration(seconds) == ClockText(hms.0, hms.1, hms.2);
    ClockTextRoundTrip(hms.0, hms.1, hms.2, seconds);
  }

  /** The `--` shown for a non-positive duration reads as no duration. */
  lemma PlaceholderIsNoClock(seconds: int)
    requires seconds <= 0
    ensures ParseClock(FmtDuration(seconds)) == None
  {
    SplitNoSep("--", ':');
  }

  /** Only the text `fmt_duration` writes reads as a positive duration:
      whatever reads as `n > 0` seconds is exactly the clock form of `n`. */
  lemma ClockReadsOnlyFormatted(t: string, n: int)
    requires ParseClock(t) == Some(n) && n > 0
    ensures FmtDuration(n) == t
  {
    var f := Split(t, ':');
    SplitJoinRoundTrip(t, ':');
    if |f| == 2 {
      var m, s := ReadSixty(f[0]).value, ReadSixty(f[1]).value;
      assert t == f[0] + ":" + f[1] by {
        assert Join(f, ":") == f[0] + ":" + Join(f[1..], ":");
      }
      HmsOf(n, 0, m, s);
    } else {
      var h, m, s := ReadPlain(f[0]).value, ReadSixty(f[1]).value, ReadSixty(f[2]).value;
      assert t == f[0] + ":" + (f[1] + ":" + f[2]) by {
        assert Join(f, ":") == f[0] + ":" + Join(f[1..], ":");
        assert Join(f[1..], ":") == f[1] + ":" + Join(f[2..], ":");
      }
      HmsOf(n, h, m, s);
    }
  }

  lemma ClockTextRoundTrip(h: nat, m: nat, s: nat, total: int)
    requires m < 60 && s < 60
    requires total == h * 3600 + m * 60 + s
    ensures ParseClock(ClockText(h, m, s)) == Some(total)
  {
    var hs, mm, ss := NatToString(h), Pad2(m), Pad2(s);
    Pad2Facts(m);
    Pad2Facts(s);
    DigitsExclude(hs, ':');
    DigitsExclude(mm, ':');
    DigitsExclude(ss, ':');
    ReadSixtyOf(m);
    ReadSixtyOf(s);
    if h > 0 {
      var parts := [hs, mm, ss];
      assert ClockText(h, m, s) == Join(parts, ":") by {
        assert Join(parts[1..], ":") == mm + ":" + Join(parts[2..], ":");
      }
      JoinSplitRoundTrip(parts, ':');
      ReadPlainOf(h);
    } else {
      var parts := [mm, ss];
      assert ClockText(h, m, s) == Join(parts, ":");
      JoinSplitRoundTrip(parts, ':');
    }
  }

  // ---------------------------------------------------------------------
  // Lookups with defaults
  // ---------------------------------------------------------------------

  const UnknownSport := ("🏅", "其他")

  /** `SPORT_TYPE_MAP.get(t, ("🏅", "其他"))`. */
  function SportEntry(sportType: int): (r: (string, string))
    ensures sportType in SportCatalog ==> r == SportCatalog[sportType]
    ensures sportType !in SportCatalog ==> r == UnknownSport
  {
    if sportType in SportCatalog then SportCatalog[sportType] else UnknownSport
  }

  function SportIcon(sportType: int): string {
    SportEntry(sportType).0
  }

  function SportName(sportType: int): string {
    SportEntry(sportType).1
  }

  /** The text a sport type is offered under in the type filter. */
  function SportLabel(sportType: int): string {
    SportIcon(sportType) + " " + SportName(sportType)
  }

  /** The fallback is recognisable: a sport is named 其他, and shown with 🏅,
      exactly when its type is not in the catalog. */
  lemma SportFallback(sportType: int)
    ensures SportName(sportType) == "其他" <==> sportType !in SportCatalog
    ensures SportIcon(sportType) == "🏅" <==> sportType !in SportCatalog
  {
  }

  const UnknownState := ("未知", "⚪")

  const TlRatioStates: map<int, (string, string)> := map[
      1 := ("严重不足", "🔴"),
      2 := ("不足", "🟠"),
      3 := ("维持", "🟡"),
      4 := ("高效", "🟢"),
      5 := ("过度", "🔴")
    ]

  const FatigueStates: map<int, (string, string)> := map[
      1 := ("非常轻松", "🟢"),
      2 := ("轻松", "🟢"),
      3 := ("适中", "🟡"),
      4 := ("疲劳", "🟠"),
      5 := ("非常疲劳", "🔴")
    ]

  /** `tl_ratio_state_text`: the training-load-ratio state's text and
      colour, `("未知", "⚪")` outside states 1 to 5. */
  function TlRatioStateText(state: int): (r: (string, string))
    ensures r == UnknownState <==> !(1 <= state <= 5)
    ensures 1 <= state <= 5 ==> r == TlRatioStates[state]
  {
    if state in TlRatioStates then TlRatioStates[state] else UnknownState
  }

  /** `fatigue_state_text`: the fatigue state's text and colour,
      `("未知", "⚪")` outside states 1 to 5. */
  function FatigueStateText(state: int): (r: (string, string))
    ensures r == UnknownState <==> !(1 <= state <= 5)
    ensures 1 <= state <= 5 ==> r == FatigueStates[state]
  {
    if state in FatigueStates then FatigueStates[state] else UnknownState
  }

  // ---------------------------------------------------------------------
  // The activity list: type filter
  // ---------------------------------------------------------------------

  const AllTypes := "全部"

  function Identity(x: int): int { x }

  /** The sport types of `acts` (`a.get("sportType", 0)`), in list order. */
  function SportTypeSeq(acts: seq<Activity>): (r: seq<int>)
    ensures |r| == |acts|
    ensures forall i :: 0 <= i < |acts| ==> r[i] == SportTypeOrZero(acts[i])
  {
    seq(|acts|, i requires 0 <= i < |acts| => SportTypeOrZero(acts[i]))
  }

  lemma SportTypeSeqMembers(acts: seq<Activity>)
    ensures forall t :: t in SportTypeSeq(acts) <==> exists a :: a in acts && SportTypeOrZero(a) == t
  {
    var types := SportTypeSeq(acts);
    forall t | t in types
      ensures exists a :: a in acts && SportTypeOrZero(a) == t
    {
      var i :| 0 <= i < |types| && types[i] == t;
      assert acts[i] in acts;
    }
    forall a | a in acts
      ensures SportTypeOrZero(a) in types
    {
      var i :| 0 <= i < |acts| && acts[i] == a;
      assert types[i] == SportTypeOrZero(a);
    }
  }

  lemma SortedDistinctIsStrict(r: seq<int>)
    requires Sorting.SortedBy(r, Identity, Sorting.IntAsc) && Sorting.NoDuplicates(r)
    ensures forall i, j :: 0 <= i < j < |r| ==> r[i] < r[j]
  {
    forall i, j | 0 <= i < j < |r|
      ensures r[i] < r[j]
    {
      assert Sorting.IntAsc(Identity(r[i]), Identity(r[j]));
    }
  }

  /** Sorting distinct integers ascending makes them strictly ascending. */
  lemma SortDistinctInts(distinct: seq<int>)
    requires Sorting.NoDuplicates(distinct)
    ensures var r := Sorting.StableSort(distinct, Identity, Sorting.IntAsc);
      (forall i, j :: 0 <= i < j < |r| ==> r[i] < r[j]) && forall t :: t in r <==> t in distinct
  {
    var r := Sorting.StableSort(distinct, Identity, Sorting.IntAsc);
    Sorting.IntOrdersTotal();
    Sorting.StableSortSorted(distinct, Identity, Sorting.IntAsc);
    Sorting.PermutationNoDuplicates(distinct, r);
    SortedDistinctIsStrict(r);
    forall t
      ensures t in r <==> t in distinct
    {
      assert t in r <==> t in multiset(r);
      assert t in distinct <==> t in multiset(distinct);
    }
  }

  /** `sorted({a.get("sportType", 0) for a in acts})`: each type present,
      once, ascending. */
  function SportTypesPresent(acts: seq<Activity>): (r: seq<int>)
    ensures forall i, j :: 0 <= i < j < |r| ==> r[i] < r[j]
    ensures forall t :: t in r <==> exists a :: a in acts && SportTypeOrZero(a) == t
  {
    var distinct := Sorting.Dedup(SportTypeSeq(acts));
    SportTypeSeqMembers(acts);
    SortDistinctInts(distinct);
    Sorting.StableSort(distinct, Identity, Sorting.IntAsc)
  }

  /** The type filter's options: 全部, then one label per type present. */
  function TypeOptions(acts: seq<Activity>): (r: seq<string>)
    ensures |r| == |SportTypesPresent(acts)| + 1 && r[0] == AllTypes
    ensures forall i :: 0 <= i < |SportTypesPresent(acts)| ==> r[i + 1] == SportLabel(SportTypesPresent(acts)[i])
  {
    var types := SportTypesPresent(acts);
    [AllTypes] + seq(|types|, i requires 0 <= i < |types| => SportLabel(types[i]))
  }

  /** `type_map.get(label)` for the dict `{label(t): t for t in types}`:
      when several types share a label the dict keeps the last one. */
  function TypeMapGet(types: seq<int>, shown: string): (r: Option<int>)
    ensures r.Some? <==> exists t :: t in types && SportLabel(t) == shown
    ensures r.Some? ==> SportLabel(r.value) == shown
    ensures r.Some? ==>
      (exists k :: 0 <= k < |types| && types[k] == r.value && forall j :: k < j < |types| ==> SportLabel(types[j]) != shown)
  {
    if types == [] then None
    else
      var n := |types| - 1;
      assert types == types[..n] + [types[n]];
      if SportLabel(types[n]) == shown then Some(types[n])
      else TypeMapGet(types[..n], shown)
  }

  function HasType(t: int): Activity -> bool {
    (a: Activity) => a.sportType == Some(t)
  }

  /** The type filter as written: the selected label is resolved to ONE type
      through `type_map`, and activities whose raw `sportType` equals it are
      kept. */
  function FilterAsWritten(acts: seq<Activity>, selected: string): (r: seq<Activity>)
    ensures selected == AllTypes ==> r == acts
    ensures selected != AllTypes && TypeMapGet(SportTypesPresent(acts), selected).Some? ==>
      var t := TypeMapGet(SportTypesPresent(acts), selected).value;
      forall a :: a in r <==> a in acts && a.sportType == Some(t)
    ensures TypeMapGet(SportTypesPresent(acts), selected).None? ==> r == acts
    ensures selected != AllTypes && TypeMapGet(SportTypesPresent(acts), selected).Some? ==>
      var t := TypeMapGet(SportTypesPresent(acts), selected).value;
      forall a :: multiset(r)[a] == if a.sportType == Some(t) then multiset(acts)[a] else 0
    ensures Sorting.IsSubsequence(r, acts)
  {
    if selected == AllTypes then Sorting.SubsequenceOfItself(acts); acts
    else
      match TypeMapGet(SportTypesPresent(acts), selected)
      case None => Sorting.SubsequenceOfItself(acts); acts
      case Some(t) =>
        Sorting.FilterCounts(acts, HasType(t));
        Sorting.FilterIsSubsequence(acts, HasType(t));
        Sorting.Filter(acts, HasType(t))
  }

  /** A strictly ascending list of exactly the values 401 and 402. */
  lemma TwoTypes(types: seq<int>)
    requires forall i, j :: 0 <= i < j < |types| ==> types[i] < types[j]
    requires forall t :: t in types <==> t == 401 || t == 402
    ensures types == [401, 402]
  {
    assert Sorting.NoDuplicates(types);
    Sorting.DistinctCount(types);
    assert (set t | t in types) == {401, 402};
    assert |types| == 2;
    assert types[0] in types && types[1] in types;
  }

  /** Strength training is catalogued under two codes with one label: with
      a 401 and a 402 session on record, choosing 🏋️ 力量训练 shows only the
      402 one. */
  lemma StrengthFilterDropsType401(x: Activity, y: Activity)
    requires x.sportType == Some(401) && y.sportType == Some(402)
    ensures FilterAsWritten([x, y], "🏋️ 力量训练") == [y]
  {
    var acts := [x, y];
    var types := SportTypesPresent(acts);
    assert SportTypeOrZero(x) == 401 && SportTypeOrZero(y) == 402;
    assert forall a :: a in acts <==> a == x || a == y;
    TwoTypes(types);
    assert SportLabel(402) == "🏋️ 力量训练";
    assert TypeMapGet(types, "🏋️ 力量训练") == Some(402);
    assert Sorting.Filter(acts, HasType(402)) == [] + Sorting.Filter([y], HasType(402)) by {
      assert acts[1..] == [y];
    }
  }

  /** The label an activity is listed under. */
  function LabelOf(a: Activity): string {
    SportLabel(SportTypeOrZero(a))
  }

  function HasLabel(shown: string): Activity -> bool {
    (a: Activity) => LabelOf(a) == shown
  }

  /** The type filter as intended: an activity is kept exactly when its own
      label is the selected one; 全部 (or a label no activity carries) keeps
      the whole list. */
  function FilterByLabel(acts: seq<Activity>, selected: string): (r: seq<Activity>)
    ensures selected == AllTypes ==> r == acts
    ensures selected != AllTypes && (exists a :: a in acts && LabelOf(a) == selected) ==>
      forall a :: a in r <==> a in acts && LabelOf(a) == selected
    ensures (forall a :: a in acts ==> LabelOf(a) != selected) ==> r == acts
    ensures selected != AllTypes && (exists a :: a in acts && LabelOf(a) == selected) ==>
      forall a :: multiset(r)[a] == if LabelOf(a) == selected then multiset(acts)[a] else 0
    ensures Sorting.IsSubsequence(r, acts)
  {
    if selected == AllTypes || forall a :: a in acts ==> LabelOf(a) != selected then
      Sorting.SubsequenceOfItself(acts);
      acts
    else
      Sorting.FilterCounts(acts, HasLabel(selected));
      Sorting.FilterIsSubsequence(acts, HasLabel(selected));
      Sorting.Filter(acts, HasLabel(selected))
  }

  /** The intended filter keeps every session of a shared label. */
  lemma StrengthFilterKeepsBoth(x: Activity, y: Activity)
    requires x.sportType == Some(401) && y.sportType == Some(402)
    ensures FilterByLabel([x, y], "🏋️ 力量训练") == [x, y]
  {
    assert LabelOf(x) == "🏋️ 力量训练" && LabelOf(y) == "🏋️ 力量训练";
    Sorting.FilterAll([x, y], HasLabel("🏋️ 力量训练"));
  }

  /** Every option the filter offers selects exactly the activities listed
      under it. */
  lemma OfferedOptionsSelectTheirActivities(acts: seq<Activity>, i: nat)
    requires 1 <= i < |TypeOptions(acts)|
    ensures var shown := TypeOptions(acts)[i];
      forall a :: a in FilterByLabel(acts, shown) <==> a in acts && LabelOf(a) == shown
  {
    var types := SportTypesPresent(acts);
    var t := types[i - 1];
    var shown := TypeOptions(acts)[i];
    assert t in types;
    var a :| a in acts && SportTypeOrZero(a) == t;
    assert LabelOf(a) == shown;
  }

  // ---------------------------------------------------------------------
  // The activity list: sort and pages
  // ---------------------------------------------------------------------

  /** The sort key of a column of the list; an unknown column sorts by date. */
  function SortKey(column: string): Activity -> real {
    if column == "距离" then (a: Activity) => a.distance
    else if column == "时间" then (a: Activity) => a.totalTime as real
    else if column == "心率" then (a: Activity) => a.avgHr as real
    else if column == "训练负荷" then (a: Activity) => a.trainingLoad as real
    else (a: Activity) => a.startTime as real
  }

  /** `filtered.sort(key=..., reverse=True)`: largest first, ties in list
      order. */
  function SortActivityList(acts: seq<Activity>, column: string): (r: seq<Activity>)
    ensures multiset(r) == multiset(acts)
    ensures Sorting.SortedBy(r, SortKey(column), Sorting.RealDesc)
  {
    Sorting.IntOrdersTotal();
    Sorting.StableSortSorted(acts, SortKey(column), Sorting.RealDesc);
    Sorting.StableSort(acts, SortKey(column), Sorting.RealDesc)
  }

  /** The list sort is stable: activities with equal values in the sort
      column stay in the order they had. */
  lemma SortActivityListStable(acts: seq<Activity>, column: string, k: real)
    ensures Sorting.KeepClass(SortActivityList(acts, column), SortKey(column), Sorting.RealDesc, k)
         == Sorting.KeepClass(acts, SortKey(column), Sorting.RealDesc, k)
  {
    Sorting.IntOrdersTotal();
    Sorting.StableSortStable(acts, SortKey(column), Sorting.RealDesc, k);
  }

  const PageSize := 30

  /** `max(1, ceil(n / 30))`: enough pages for every item, at least one, and
      no empty page after the first. */
  function TotalPages(n: nat): (p: nat)
    ensures p >= 1
    ensures n <= p * PageSize
    ensures n == 0 || (p - 1) * PageSize < n
  {
    if n == 0 then 1 else (n + PageSize - 1) / PageSize
  }

  /** `filtered[start : start + 30]` with `start = (page_num - 1) * 30`. */
  function PageItems<T>(items: seq<T>, pageNum: nat): (r: seq<T>)
    requires 1 <= pageNum
    ensures |r| <= PageSize
    ensures var start := (pageNum - 1) * PageSize;
      start <= |items| ==> r == items[start..if start + PageSize <= |items| then start + PageSize else |items|]
    ensures (pageNum - 1) * PageSize >= |items| ==> r == []
  {
    var start := (pageNum - 1) * PageSize;
    Slice(items, start, start + PageSize)
  }

  /** Pages 1 to k, one after the other. */
  function PagesUpTo<T>(items: seq<T>, k: nat): seq<T> {
    if k == 0 then [] else PagesUpTo(items, k - 1) + PageItems(items, k)
  }

  lemma {:induction false} PagesUpToPrefix<T>(items: seq<T>, k: nat)
    ensures PagesUpTo(items, k) == items[..if k * PageSize <= |items| then k * PageSize else |items|]
  {
    if k > 0 {
      PagesUpToPrefix(items, k - 1);
      var lo := if (k - 1) * PageSize <= |items| then (k - 1) * PageSize else |items|;
      var hi := if k * PageSize <= |items| then k * PageSize else |items|;
      assert items[..hi] == items[..lo] + items[lo..hi];
    }
  }

  /** Reading every page in turn gives the filtered list back, each item
      once and in order. */
  lemma PagesCoverList<T>(items: seq<T>)
    ensures PagesUpTo(items, TotalPages(|items|)) == items
  {
    PagesUpToPrefix(items, TotalPages(|items|));
  }

  /** The activity list a selection shows: filtered by the type the label
      resolves to, sorted by the chosen column, one page of it. */
  function ActivityListPage(acts: seq<Activity>, selected: string, column: string, pageNum: nat): (r: seq<Activity>)
    requires 1 <= pageNum
    ensures |r| <= PageSize
    ensures forall a :: a in r ==> a in acts
    ensures selected != AllTypes && TypeMapGet(SportTypesPresent(acts), selected).Some? ==>
      forall a :: a in r ==> a.sportType == Some(TypeMapGet(SportTypesPresent(acts), selected).value)
    ensures selected != AllTypes && (exists a :: a in acts && LabelOf(a) == selected) ==>
      forall a :: a in r ==> LabelOf(a) == selected
  {
    var filtered := FilterAsWritten(acts, selected);
    var listed := SortActivityList(filtered, column);
    var r := PageItems(listed, pageNum);
    assert forall a :: a in r ==> a in filtered by {
      forall a | a in r
        ensures a in filtered
      {
        assert a in multiset(listed);
      }
    }
    AsWrittenKeepsLabel(acts, selected);
    r
  }

  /** What the filter as written keeps comes from the list, carries the
      type the label resolved to, and so is listed under that label. */
  lemma AsWrittenKeepsLabel(acts: seq<Activity>, selected: string)
    ensures forall a :: a in FilterAsWritten(acts, selected) ==> a in acts
    ensures selected != AllTypes && (exists a :: a in acts && LabelOf(a) == selected) ==>
      forall a :: a in FilterAsWritten(acts, selected) ==> LabelOf(a) == selected
  {
    if selected != AllTypes && exists a :: a in acts && LabelOf(a) == selected {
      var b :| b in acts && LabelOf(b) == selected;
      assert SportTypeOrZero(b) in SportTypesPresent(acts);
    }
  }

  /** The same page under the intended label filter: every activity listed
      under the selected label, whichever of its codes it carries. */
  function LabelledActivityListPage(acts: seq<Activity>, selected: string, column: string, pageNum: nat): (r: seq<Activity>)
    requires 1 <= pageNum
    ensures |r| <= PageSize
    ensures forall a :: a in r ==> a in acts
    ensures selected != AllTypes && (exists a :: a in acts && LabelOf(a) == selected) ==>
      forall a :: a in r ==> LabelOf(a) == selected
  {
    var filtered := FilterByLabel(acts, selected);
    var listed := SortActivityList(filtered, column);
    var r := PageItems(listed, pageNum);
    assert forall a :: a in r ==> a in filtered by {
      forall a | a in r
        ensures a in filtered
      {
        assert a in multiset(listed);
      }
    }
    r
  }
}
