/** The knowledge export's structure: its own duration format, the grouping
    of activities by month and by sport name, and the order the activity,
    daily-metric and weekly sections are written in. The Markdown text
    around the rows is not modelled. */
module Knowledge {
  import opened Wrappers
  import opened Text
  import opened Records
  import opened Format
  import Sorting

  // ---------------------------------------------------------------------
  // fmt_duration
  // ---------------------------------------------------------------------

  /** The export's `fmt_duration`: `{h}h{mm}m{ss}s` from one hour up,
      `{m}m{ss}s` below (minutes unpadded), `--` when not positive. */
  function FmtDuration(seconds: int): (r: string)
    ensures r == "--" <==> seconds <= 0
  {
    if seconds <= 0 then "--"
    else
      var hms := Hms(seconds);
      DurationText(hms.0, hms.1, hms.2)
  }

  /** The export form of `h` hours, `m` minutes and `s` seconds. */
  function DurationText(h: nat, m: nat, s: nat): (r: string)
    requires s < 60
    ensures r != "--"
  {
    var tail := Pad2(s) + "s";
    assert |Pad2(s)| == 2;
    if h > 0 then NatToString(h) + "h" + Pad2(m) + "m" + tail
    else NatToString(m) + "m" + tail
  }

  /** Reads `{h}h{mm}m{ss}s` or `{m}m{ss}s` back into seconds: a final
      `s`, and two second digits below 60 after the only `m`. */
  function ParseDuration(t: string): Option<int> {
    if t == [] || t[|t| - 1] != 's' then None
    else
      var f := Split(t[..|t| - 1], 'm');
      if |f| != 2 then None
      else
        match (ReadMinutes(f[0]), ReadSixty(f[1]))
        case (Some(minutes), Some(s)) => Some(minutes * 60 + s)
        case _ => None
  }

  /** What stands before the `m`, as whole minutes: either the minutes
      below 60, or the positive hours, an `h` and two minute digits below
      60; neither leading field starts with a zero. */
  function ReadMinutes(p: string): Option<nat> {
    var g := Split(p, 'h');
    if |g| == 1 then
      match ReadPlain(g[0])
      case Some(m) => if m < 60 then Some(m) else None
      case None => None
    else if |g| == 2 then
      match (ReadPlain(g[0]), ReadSixty(g[1]))
      case (Some(h), Some(m)) => if h > 0 then Some(h * 60 + m) else None
      case _ => None
    else None
  }

  /** Splitting `a + [sep] + b` on `sep` gives `a` and `b` when neither
      holds the separator. */
  lemma SplitTwo(a: string, b: string, sep: char)
    requires sep !in a && sep !in b
    ensures Split(a + [sep] + b, sep) == [a, b]
  {
    assert Join([a, b], [sep]) == a + [sep] + b;
    JoinSplitRoundTrip([a, b], sep);
  }

  /** Two pieces split on a separator join back around it. */
  lemma SplitTwoBack(t: string, sep: char)
    requires |Split(t, sep)| == 2
    ensures t == Split(t, sep)[0] + [sep] + Split(t, sep)[1]
  {
    var f := Split(t, sep);
    SplitJoinRoundTrip(t, sep);
    assert Join(f, [sep]) == f[0] + [sep] + Join(f[1..], [sep]);
  }

  /** A positive duration reads back from its export form. */
  lemma DurationRoundTrip(seconds: int)
    requires seconds > 0
    ensures ParseDuration(FmtDuration(seconds)) == Some(seconds)
  {
    var hms := Hms(seconds);
    assert FmtDuration(seconds) == DurationText(hms.0, hms.1, hms.2);
    DurationTextRoundTrip(hms.0, hms.1, hms.2, seconds);
  }

  /** The `--` shown for a non-positive duration reads as no duration. */
  lemma PlaceholderIsNoDuration(seconds: int)
    requires seconds <= 0
    ensures ParseDuration(FmtDuration(seconds)) == None
  {
  }

  /** Only the text `fmt_duration` writes reads as a positive duration:
      whatever reads as `n > 0` seconds is exactly the export form of `n`. */
  lemma DurationReadsOnlyFormatted(t: string, n: int)
    requires ParseDuration(t) == Some(n) && n > 0
    ensures FmtDuration(n) == t
  {
    var u := t[..|t| - 1];
    var f := Split(u, 'm');
    var minutes, s := ReadMinutes(f[0]).value, ReadSixty(f[1]).value;
    assert n == minutes * 60 + s;
    assert t == f[0] + "m" + (Pad2(s) + "s") by {
      assert t == u + "s";
      SplitTwoBack(u, 'm');
    }
    MinutesReadOnlyFormatted(f[0], minutes, s, n);
  }

  /** Whatever reads as whole minutes, followed by the seconds, is the
      export form of the duration they add up to. */
  lemma MinutesReadOnlyFormatted(p: string, minutes: nat, s: nat, n: int)
    requires ReadMinutes(p) == Some(minutes) && s < 60
    requires n == minutes * 60 + s && n > 0
    ensures FmtDuration(n) == p + "m" + (Pad2(s) + "s")
  {
    var g := Split(p, 'h');
    if |g| == 1 {
      var m := ReadPlain(g[0]).value;
      assert p == NatToString(m) by {
        SplitJoinRoundTrip(p, 'h');
      }
      HmsOf(n, 0, m, s);
    } else {
      var h, m := ReadPlain(g[0]).value, ReadSixty(g[1]).value;
      assert p == NatToString(h) + "h" + Pad2(m) by {
        SplitTwoBack(p, 'h');
      }
      assert minutes == h * 60 + m;
      HoursAsMinutes(h, m, s);
      HmsOf(n, h, m, s);
      assert DurationText(h, m, s) == p + "m" + (Pad2(s) + "s");
    }
  }

  lemma DurationTextRoundTrip(h: nat, m: nat, s: nat, total: int)
    requires m < 60 && s < 60
    requires total == h * 3600 + m * 60 + s
    ensures ParseDuration(DurationText(h, m, s)) == Some(total)
  {
    if h > 0 {
      var head, ss := LongDurationParts(h, m, s);
      HoursAsMinutes(h, m, s);
      DurationOfParts(DurationText(h, m, s), head, ss, h * 60 + m, s, total);
    } else {
      var head, ss := ShortDurationParts(m, s);
      DurationOfParts(DurationText(h, m, s), head, ss, m, s, total);
    }
  }

  /** From one hour up, the text is the hours, an `h` and two minute digits,
      then an `m`, two second digits and an `s`. */
  lemma LongDurationParts(h: nat, m: nat, s: nat) returns (head: string, ss: string)
    requires h > 0 && m < 60 && s < 60
    ensures DurationText(h, m, s) == head + "m" + ss + "s"
    ensures 'm' !in head && ReadMinutes(head) == Some(h * 60 + m) && ReadSixty(ss) == Some(s)
  {
    head, ss := NatToString(h) + "h" + Pad2(m), Pad2(s);
    assert DurationText(h, m, s) == head + "m" + (ss + "s");
    LongMinutesOf(h, m);
    ReadSixtyOf(s);
  }

  /** Below one hour, the text is the minutes, an `m`, two second digits and
      an `s`. */
  lemma ShortDurationParts(m: nat, s: nat) returns (head: string, ss: string)
    requires m < 60 && s < 60
    ensures DurationText(0, m, s) == head + "m" + ss + "s"
    ensures 'm' !in head && ReadMinutes(head) == Some(m) && ReadSixty(ss) == Some(s)
  {
    head, ss := NatToString(m), Pad2(s);
    assert DurationText(0, m, s) == head + "m" + (ss + "s");
    ShortMinutesOf(m);
    ReadSixtyOf(s);
  }

  /** A text made of whole minutes, an `m`, two second digits and an `s`
      reads as the seconds they add up to. */
  lemma DurationOfParts(t: string, head: string, ss: string, minutes: nat, s: nat, total: int)
    requires t == head + "m" + ss + "s"
    requires 'm' !in head && ReadMinutes(head) == Some(minutes)
    requires ReadSixty(ss) == Some(s)
    requires total == minutes * 60 + s
    ensures ParseDuration(t) == Some(total)
  {
    Pad2Facts(s);
    DigitsExclude(ss, 'm');
    assert t[..|t| - 1] == head + "m" + ss;
    SplitTwo(head, ss, 'm');
  }

  lemma HoursAsMinutes(h: nat, m: nat, s: nat)
    ensures (h * 60 + m) * 60 + s == h * 3600 + m * 60 + s
  {
  }

  /** The text before the `m` reads back as the whole minutes it spells:
      the hours, an `h` and two minute digits. */
  lemma LongMinutesOf(h: nat, m: nat)
    requires h > 0 && m < 60
    ensures 'm' !in NatToString(h) + "h" + Pad2(m)
    ensures ReadMinutes(NatToString(h) + "h" + Pad2(m)) == Some(h * 60 + m)
  {
    var hs, mm := NatToString(h), Pad2(m);
    Pad2Facts(m);
    DigitsExclude(hs, 'h');
    DigitsExclude(mm, 'h');
    DigitsExclude(hs, 'm');
    DigitsExclude(mm, 'm');
    SplitTwo(hs, mm, 'h');
    ReadPlainOf(h);
    ReadSixtyOf(m);
  }

  /** Below one hour the text before the `m` is the minutes alone. */
  lemma ShortMinutesOf(m: nat)
    requires m < 60
    ensures 'm' !in NatToString(m)
    ensures ReadMinutes(NatToString(m)) == Some(m)
  {
    var ms := NatToString(m);
    DigitsExclude(ms, 'h');
    DigitsExclude(ms, 'm');
    SplitNoSep(ms, 'h');
    ReadPlainOf(m);
  }

  // ---------------------------------------------------------------------
  // Grouping
  // ---------------------------------------------------------------------

  /** A `defaultdict(list)` from string keys, as its items in insertion
      order. */
  type Groups<T> = seq<(string, seq<T>)>

  function Keys<T>(g: Groups<T>): (r: seq<string>)
    ensures |r| == |g|
    ensures forall i :: 0 <= i < |g| ==> r[i] == g[i].0
  {
    seq(|g|, i requires 0 <= i < |g| => g[i].0)
  }

  function HasKey<T>(key: T -> string, k: string): T -> bool {
    x => key(x) == k
  }

  /** Where `k` first occurs in `keys`. */
  function IndexOf(keys: seq<string>, k: string): (i: nat)
    requires k in keys
    ensures i < |keys| && keys[i] == k
    ensures forall j :: 0 <= j < i ==> keys[j] != k
  {
    if keys[0] == k then 0 else 1 + IndexOf(keys[1..], k)
  }

  /** `groups[k].append(x)`: an existing key's list grows where it stands,
      a new key is added last. */
  function Append<T>(g: Groups<T>, k: string, x: T): (r: Groups<T>)
    requires Sorting.NoDuplicates(Keys(g))
    ensures |r| == if k in Keys(g) then |g| else |g| + 1
    ensures forall i :: 0 <= i < |g| ==> r[i].0 == g[i].0 && r[i].1 == if g[i].0 == k then g[i].1 + [x] else g[i].1
    ensures k !in Keys(g) ==> r[|g|] == (k, [x])
    ensures Keys(r) == if k in Keys(g) then Keys(g) else Keys(g) + [k]
    ensures Sorting.NoDuplicates(Keys(r))
  {
    if k in Keys(g) then
      var i := IndexOf(Keys(g), k);
      var r := g[i := (k, g[i].1 + [x])];
      assert forall j :: 0 <= j < |g| && j != i ==> g[j].0 != k by {
        forall j | 0 <= j < |g| && j != i
          ensures g[j].0 != k
        {
          assert Keys(g)[j] != Keys(g)[i];
        }
      }
      assert Keys(r) == Keys(g);
      r
    else
      var r := g + [(k, [x])];
      assert Keys(r) == Keys(g) + [k];
      r
  }

  /** `for x in s: groups[key(x)].append(x)`: one entry per key present. */
  function GroupBy<T(!new)>(s: seq<T>, key: T -> string): (g: Groups<T>)
    ensures Sorting.NoDuplicates(Keys(g))
    ensures forall k :: k in Keys(g) <==> exists x :: x in s && key(x) == k
  {
    if s == [] then []
    else
      var n := |s| - 1;
      assert s == s[..n] + [s[n]];
      Append(GroupBy(s[..n], key), key(s[n]), s[n])
  }

  /** Where an element with key `k` first occurs in `s`; `|s|` when none
      does. */
  function FirstIndex<T>(s: seq<T>, key: T -> string, k: string): (r: nat)
    ensures r <= |s|
    ensures r < |s| ==> key(s[r]) == k
    ensures forall i :: 0 <= i < r ==> key(s[i]) != k
  {
    if s == [] then 0
    else if key(s[0]) == k then 0
    else
      var r := 1 + FirstIndex(s[1..], key, k);
      assert forall i :: 1 <= i < r ==> s[i] == s[1..][i - 1];
      r
  }

  /** The entries of `g` are in the order their keys first occur in `s`,
      which is the iteration order of a `defaultdict` filled from `s`. */
  predicate InFirstSeenOrder<T>(g: Groups<T>, s: seq<T>, key: T -> string) {
    Sorting.PairwiseIn(g, SeenEarlier(s, key))
  }

  /** The key of `e1` occurs in `s` before the key of `e2` does. */
  function SeenEarlier<T>(s: seq<T>, key: T -> string): ((string, seq<T>), (string, seq<T>)) -> bool {
    (e1: (string, seq<T>), e2: (string, seq<T>)) => FirstIndex(s, key, e1.0) < FirstIndex(s, key, e2.0)
  }

  /** Appending an element moves no earlier first occurrence; a key first
      met in the new element occurs first at its position. */
  lemma FirstIndexSnoc<T>(s: seq<T>, x: T, key: T -> string, k: string)
    ensures FirstIndex(s, key, k) < |s| ==> FirstIndex(s + [x], key, k) == FirstIndex(s, key, k)
    ensures FirstIndex(s, key, k) == |s| && key(x) == k ==> FirstIndex(s + [x], key, k) == |s|
  {
    var t := s + [x];
    var a, b := FirstIndex(s, key, k), FirstIndex(t, key, k);
    assert forall i :: 0 <= i < |s| ==> t[i] == s[i];
    if a < |s| {
      assert key(t[a]) == k;
      assert !(a < b) && !(b < a);
    } else if key(x) == k {
      assert key(t[|s|]) == k;
    }
  }

  /** `GroupBy` lists its keys in the order they first occur. */
  lemma {:induction false} GroupByFirstSeen<T(!new)>(s: seq<T>, key: T -> string)
    ensures InFirstSeenOrder(GroupBy(s, key), s, key)
  {
    if s != [] {
      var n := |s| - 1;
      var init, x := s[..n], s[n];
      assert s == init + [x];
      GroupByFirstSeen(init, key);
      AppendFirstSeen(GroupBy(init, key), init, x, key);
    }
  }

  /** One `append` keeps the keys in first-seen order. */
  lemma AppendFirstSeen<T>(g0: Groups<T>, init: seq<T>, x: T, key: T -> string)
    requires Sorting.NoDuplicates(Keys(g0))
    requires forall k :: k in Keys(g0) <==> exists y :: y in init && key(y) == k
    requires InFirstSeenOrder(g0, init, key)
    ensures InFirstSeenOrder(Append(g0, key(x), x), init + [x], key)
  {
    var t := init + [x];
    var g := Append(g0, key(x), x);
    forall i | 0 <= i < |g0|
      ensures FirstIndex(t, key, g0[i].0) == FirstIndex(init, key, g0[i].0) < |init|
    {
      assert Keys(g0)[i] in Keys(g0);
      var y :| y in init && key(y) == g0[i].0;
      var m :| 0 <= m < |init| && init[m] == y;
      FirstIndexSnoc(init, x, key, g0[i].0);
    }
    if key(x) !in Keys(g0) {
      assert forall y :: y in init ==> key(y) != key(x);
      assert FirstIndex(init, key, key(x)) == |init|;
      FirstIndexSnoc(init, x, key, key(x));
    }
    forall i, j | 0 <= i < j < |g|
      ensures SeenEarlier(t, key)(g[i], g[j])
    {
      if j < |g0| {
        assert g[i].0 == g0[i].0 && g[j].0 == g0[j].0;
        assert SeenEarlier(init, key)(g0[i], g0[j]);
      } else {
        assert g[j].0 == key(x) && g[i].0 == g0[i].0;
      }
    }
  }

  /** Each entry of `g` holds the elements of `s` with its key, in their
      order in `s`. */
  ghost predicate Bucketed<T(!new)>(g: Groups<T>, s: seq<T>, key: T -> string) {
    forall i :: 0 <= i < |g| ==> g[i].1 == Sorting.Filter(s, HasKey(key, g[i].0))
  }

  /** `g` groups `s` by `key`: one entry per key present, each holding the
      elements with that key in their order in `s`. */
  ghost predicate IsGrouping<T(!new)>(g: Groups<T>, s: seq<T>, key: T -> string) {
    && Sorting.NoDuplicates(Keys(g))
    && (forall k :: k in Keys(g) <==> exists x :: x in s && key(x) == k)
    && Bucketed(g, s, key)
  }

  /** One entry after `Append`: the old bucket of its key, plus `x` when the
      key is `x`'s. */
  lemma AppendBucket<T(!new)>(g: Groups<T>, s: seq<T>, x: T, key: T -> string, i: nat)
    requires Sorting.NoDuplicates(Keys(g))
    requires forall y :: y in s ==> key(y) in Keys(g)
    requires Bucketed(g, s, key)
    requires i < |Append(g, key(x), x)|
    ensures Append(g, key(x), x)[i].1 == Sorting.Filter(s + [x], HasKey(key, Append(g, key(x), x)[i].0))
  {
    var k := key(x);
    var r := Append(g, k, x);
    var p := HasKey(key, r[i].0);
    Sorting.FilterConcat(s, [x], p);
    assert Sorting.Filter([x], p) == (if r[i].0 == k then [x] else []) + Sorting.Filter([], p);
    if i == |g| {
      assert k !in Keys(g);
      Sorting.FilterNone(s, p);
    }
  }

  lemma AppendKeepsBuckets<T(!new)>(g: Groups<T>, s: seq<T>, x: T, key: T -> string, t: seq<T>)
    requires Sorting.NoDuplicates(Keys(g))
    requires forall y :: y in s ==> key(y) in Keys(g)
    requires Bucketed(g, s, key)
    requires t == s + [x]
    ensures Bucketed(Append(g, key(x), x), t, key)
  {
    forall i | 0 <= i < |Append(g, key(x), x)|
      ensures Append(g, key(x), x)[i].1 == Sorting.Filter(s + [x], HasKey(key, Append(g, key(x), x)[i].0))
    {
      AppendBucket(g, s, x, key, i);
    }
  }

  lemma {:induction false} GroupByBuckets<T(!new)>(s: seq<T>, key: T -> string)
    ensures Bucketed(GroupBy(s, key), s, key)
  {
    if s != [] {
      var n := |s| - 1;
      var init := s[..n];
      assert s == init + [s[n]];
      var g0 := GroupBy(init, key);
      assert Bucketed(g0, init, key) by {
        GroupByBuckets(init, key);
      }
      assert forall y :: y in init ==> key(y) in Keys(g0) by {
        forall y | y in init
          ensures key(y) in Keys(g0)
        {
          assert exists z :: z in init && key(z) == key(y);
        }
      }
      assert GroupBy(s, key) == Append(g0, key(s[n]), s[n]);
      AppendKeepsBuckets(g0, init, s[n], key, s);
    }
  }

  /** `GroupBy` groups: each entry holds exactly the elements of its key,
      in their order. */
  lemma GroupByIsGrouping<T(!new)>(s: seq<T>, key: T -> string)
    ensures IsGrouping(GroupBy(s, key), s, key)
  {
    GroupByBuckets(s, key);
  }

  function BucketSize<T>(e: (string, seq<T>)): int {
    |e.1|
  }

  lemma AppendGrowsByOne<T>(g: Groups<T>, k: string, x: T)
    requires Sorting.NoDuplicates(Keys(g))
    ensures Sorting.SumOf(Append(g, k, x), BucketSize) == Sorting.SumOf(g, BucketSize) + 1
  {
    if k in Keys(g) {
      var i := IndexOf(Keys(g), k);
      assert Append(g, k, x) == g[i := (k, g[i].1 + [x])];
      Sorting.SumOfUpdate(g, i, (k, g[i].1 + [x]), BucketSize);
    } else {
      var e := (k, [x]);
      assert Append(g, k, x) == g + [e];
      Sorting.SumOfConcat(g, [e], BucketSize);
      assert Sorting.SumOf([e], BucketSize) == BucketSize(e) + Sorting.SumOf([e][1..], BucketSize);
    }
  }

  /** The buckets together hold as many elements as were grouped. */
  lemma {:induction false} BucketSizesSum<T(!new)>(s: seq<T>, key: T -> string)
    ensures Sorting.SumOf(GroupBy(s, key), BucketSize) == |s|
  {
    if s != [] {
      var n := |s| - 1;
      BucketSizesSum(s[..n], key);
      AppendGrowsByOne(GroupBy(s[..n], key), key(s[n]), s[n]);
    }
  }

  /** Every element lands in exactly one bucket: the one of its own key. */
  lemma ExactlyOneBucket<T(!new)>(g: Groups<T>, s: seq<T>, key: T -> string, x: T)
    requires IsGrouping(g, s, key) && x in s
    ensures exists i :: 0 <= i < |g| && x in g[i].1
    ensures forall i, j :: 0 <= i < |g| && 0 <= j < |g| && x in g[i].1 && x in g[j].1 ==> i == j
  {
    assert key(x) in Keys(g);
    var i :| 0 <= i < |g| && Keys(g)[i] == key(x);
    assert x in g[i].1;
  }

  // ---------------------------------------------------------------------
  // The activity summary
  // ---------------------------------------------------------------------

  /** `str(d)[:6]`: the YYYYMM bucket of an activity. */
  function MonthKey(a: Activity): string {
    Slice(IntToString(a.date), 0, 6)
  }

  /** The export's sport name: the catalog name, or `其他({st})` for a type
      it does not know. */
  function ExportSportName(a: Activity): (r: string)
    ensures SportTypeOrZero(a) in SportCatalog ==> r == SportCatalog[SportTypeOrZero(a)].1
    ensures SportTypeOrZero(a) !in SportCatalog ==> r == "其他(" + IntToString(SportTypeOrZero(a)) + ")"
  {
    var st := SportTypeOrZero(a);
    if st in SportCatalog then SportCatalog[st].1 else "其他(" + IntToString(st) + ")"
  }

  /** Distinct unknown types get distinct names. */
  lemma UnknownSportNamesDistinct(a: Activity, b: Activity)
    requires SportTypeOrZero(a) !in SportCatalog && SportTypeOrZero(b) !in SportCatalog
    requires SportTypeOrZero(a) != SportTypeOrZero(b)
    ensures ExportSportName(a) != ExportSportName(b)
  {
    var sa, sb := IntToString(SportTypeOrZero(a)), IntToString(SportTypeOrZero(b));
    ParseIntOfString(SportTypeOrZero(a));
    ParseIntOfString(SportTypeOrZero(b));
    var na, nb := ExportSportName(a), ExportSportName(b);
    assert na[3..|na| - 1] == sa;
    assert nb[3..|nb| - 1] == sb;
  }

  /** The sport table: one row per sport name with its number of sessions,
      most frequent first (ties in order of first appearance). */
  function SportCounts(acts: seq<Activity>): (rows: seq<(string, seq<Activity>)>)
    ensures IsGrouping(rows, acts, ExportSportName)
    ensures Sorting.SumOf(rows, BucketSize) == |acts|
    ensures Sorting.SortedBy(rows, BucketSize, Sorting.IntDesc)
  {
    var g := GroupBy(acts, ExportSportName);
    GroupByIsGrouping(acts, ExportSportName);
    BucketSizesSum(acts, ExportSportName);
    Sorting.IntOrdersTotal();
    SortGroups(g, acts, ExportSportName, BucketSize, Sorting.IntDesc);
    Sorting.StableSort(g, BucketSize, Sorting.IntDesc)
  }

  /** Sports with the same number of activities stay in the order their
      names were first met. */
  lemma SportCountsStable(acts: seq<Activity>, k: int)
    ensures Sorting.KeepClass(SportCounts(acts), BucketSize, Sorting.IntDesc, k)
         == Sorting.KeepClass(GroupBy(acts, ExportSportName), BucketSize, Sorting.IntDesc, k)
    ensures InFirstSeenOrder(Sorting.KeepClass(SportCounts(acts), BucketSize, Sorting.IntDesc, k), acts, ExportSportName)
  {
    var g := GroupBy(acts, ExportSportName);
    Sorting.IntOrdersTotal();
    Sorting.StableSortStable(g, BucketSize, Sorting.IntDesc, k);
    GroupByFirstSeen(acts, ExportSportName);
    Sorting.KeepClassKeepsOrder(g, BucketSize, Sorting.IntDesc, k, SeenEarlier(acts, ExportSportName));
  }

  /** Ordering the entries of a grouping keeps it a grouping of the same
      elements, and orders it. */
  lemma SortGroups<T(!new), K(!new)>(g: Groups<T>, s: seq<T>, key: T -> string, rank: ((string, seq<T>)) -> K, le: (K, K) -> bool)
    requires IsGrouping(g, s, key) && Sorting.SumOf(g, BucketSize) == |s| && Sorting.TotalPreorder(le)
    ensures var r := Sorting.StableSort(g, rank, le);
      IsGrouping(r, s, key) && Sorting.SumOf(r, BucketSize) == |s| && Sorting.SortedBy(r, rank, le)
  {
    var r := Sorting.StableSort(g, rank, le);
    Sorting.StableSortSorted(g, rank, le);
    Sorting.SumOfPermutation(g, r, BucketSize);
    PermutedGrouping(g, r, s, key);
  }

  /** Reordering the entries of a grouping leaves a grouping. */
  lemma PermutedGrouping<T(!new)>(g: Groups<T>, r: Groups<T>, s: seq<T>, key: T -> string)
    requires IsGrouping(g, s, key) && multiset(g) == multiset(r)
    ensures IsGrouping(r, s, key)
  {
    forall e
      ensures e in r <==> e in g
    {
      assert e in r <==> e in multiset(r);
      assert e in g <==> e in multiset(g);
    }
    forall k
      ensures k in Keys(r) <==> k in Keys(g)
    {
      if k in Keys(r) {
        var i :| 0 <= i < |r| && Keys(r)[i] == k;
        assert r[i] in g;
      }
      if k in Keys(g) {
        var i :| 0 <= i < |g| && Keys(g)[i] == k;
        assert g[i] in r;
      }
    }
    forall i | 0 <= i < |r|
      ensures r[i].1 == Sorting.Filter(s, HasKey(key, r[i].0))
    {
      assert r[i] in g;
    }
    KeysPermuted(g, r);
  }

  lemma KeysPermuted<T>(g: Groups<T>, r: Groups<T>)
    requires multiset(g) == multiset(r) && Sorting.NoDuplicates(Keys(g))
    ensures Sorting.NoDuplicates(Keys(r))
  {
    forall i, j | 0 <= i < j < |r|
      ensures r[i].0 != r[j].0
    {
      assert r[i] in multiset(g) && r[j] in multiset(g);
      var p :| 0 <= p < |g| && g[p] == r[i];
      var q :| 0 <= q < |g| && g[q] == r[j];
      if r[i].0 == r[j].0 {
        assert Keys(g)[p] == Keys(g)[q];
        assert p == q;
        DuplicateEntry(r, i, j);
        assert multiset(r)[r[i]] >= 2;
        DistinctEntryOnce(g, p);
      }
    }
  }

  lemma DuplicateEntry<T>(r: seq<T>, i: nat, j: nat)
    requires i < j < |r| && r[i] == r[j]
    ensures multiset(r)[r[i]] >= 2
  {
    assert r == r[..i] + [r[i]] + r[i + 1..j] + [r[j]] + r[j + 1..];
  }

  lemma DistinctEntryOnce<T>(g: Groups<T>, p: nat)
    requires p < |g| && Sorting.NoDuplicates(Keys(g))
    ensures multiset(g)[g[p]] == 1
  {
    var e := g[p];
    assert g == g[..p] + [e] + g[p + 1..];
    forall i | 0 <= i < |g| && i != p
      ensures g[i] != e
    {
      assert Keys(g)[i] != Keys(g)[p];
    }
    assert e !in g[..p] && e !in g[p + 1..];
  }

  function Date(a: Activity): int {
    a.date
  }

  function MonthOf(e: (string, seq<Activity>)): string {
    e.0
  }

  /** One month section: its key and its activities, latest date first. */
  function SortMonth(e: (string, seq<Activity>)): (r: (string, seq<Activity>))
    ensures r.0 == e.0 && multiset(r.1) == multiset(e.1)
    ensures Sorting.SortedBy(r.1, Date, Sorting.IntDesc)
  {
    Sorting.IntOrdersTotal();
    Sorting.StableSortSorted(e.1, Date, Sorting.IntDesc);
    (e.0, Sorting.StableSort(e.1, Date, Sorting.IntDesc))
  }

  /** Activities of the same day keep their order within the month. */
  lemma SortMonthStable(e: (string, seq<Activity>), k: int)
    ensures Sorting.KeepClass(SortMonth(e).1, Date, Sorting.IntDesc, k)
         == Sorting.KeepClass(e.1, Date, Sorting.IntDesc, k)
  {
    Sorting.IntOrdersTotal();
    Sorting.StableSortStable(e.1, Date, Sorting.IntDesc, k);
  }

  /** The monthly sections: months latest first, each month's activities
      latest date first, every activity in the section of its own month. */
  function MonthSections(acts: seq<Activity>): (sections: seq<(string, seq<Activity>)>)
    ensures Sorting.NoDuplicates(Keys(sections))
    ensures forall i, j :: 0 <= i < j < |sections| ==> Sorting.StrLe(sections[j].0, sections[i].0) && sections[i].0 != sections[j].0
    ensures forall k :: k in Keys(sections) <==> exists a :: a in acts && MonthKey(a) == k
    ensures forall i :: 0 <= i < |sections| ==>
      multiset(sections[i].1) == multiset(Sorting.Filter(acts, HasKey(MonthKey, sections[i].0)))
      && Sorting.SortedBy(sections[i].1, Date, Sorting.IntDesc)
    ensures forall i :: 0 <= i < |sections| ==>
      sections[i] == SortMonth((sections[i].0, Sorting.Filter(acts, HasKey(MonthKey, sections[i].0))))
    ensures Sorting.SumOf(sections, BucketSize) == |acts|
  {
    var g := GroupBy(acts, MonthKey);
    GroupByIsGrouping(acts, MonthKey);
    BucketSizesSum(acts, MonthKey);
    Sorting.StrOrdersTotal();
    SortGroups(g, acts, MonthKey, MonthOf, Sorting.StrDesc);
    var ordered := Sorting.StableSort(g, MonthOf, Sorting.StrDesc);
    var sections := seq(|ordered|, i requires 0 <= i < |ordered| => SortMonth(ordered[i]));
    SectionKeys(ordered, sections);
    SectionOrder(ordered, sections);
    SectionContents(ordered, sections, acts);
    SectionsSortBuckets(ordered, sections, acts);
    SectionSizes(ordered, sections);
    sections
  }

  lemma SectionKeys(ordered: Groups<Activity>, sections: Groups<Activity>)
    requires sections == seq(|ordered|, i requires 0 <= i < |ordered| => SortMonth(ordered[i]))
    ensures Keys(sections) == Keys(ordered)
  {
  }

  lemma SectionOrder(ordered: Groups<Activity>, sections: Groups<Activity>)
    requires Sorting.NoDuplicates(Keys(ordered))
    requires Sorting.SortedBy(ordered, MonthOf, Sorting.StrDesc)
    requires sections == seq(|ordered|, i requires 0 <= i < |ordered| => SortMonth(ordered[i]))
    ensures forall i, j :: 0 <= i < j < |sections| ==> Sorting.StrLe(sections[j].0, sections[i].0) && sections[i].0 != sections[j].0
  {
    forall i, j | 0 <= i < j < |sections|
      ensures Sorting.StrLe(sections[j].0, sections[i].0) && sections[i].0 != sections[j].0
    {
      assert Sorting.StrDesc(MonthOf(ordered[i]), MonthOf(ordered[j]));
      assert Keys(ordered)[i] != Keys(ordered)[j];
    }
  }

  lemma SectionContents(ordered: Groups<Activity>, sections: Groups<Activity>, acts: seq<Activity>)
    requires Bucketed(ordered, acts, MonthKey)
    requires sections == seq(|ordered|, i requires 0 <= i < |ordered| => SortMonth(ordered[i]))
    ensures forall i :: 0 <= i < |sections| ==>
      multiset(sections[i].1) == multiset(Sorting.Filter(acts, HasKey(MonthKey, sections[i].0)))
      && Sorting.SortedBy(sections[i].1, Date, Sorting.IntDesc)
  {
    forall i | 0 <= i < |sections|
      ensures multiset(sections[i].1) == multiset(Sorting.Filter(acts, HasKey(MonthKey, sections[i].0)))
      ensures Sorting.SortedBy(sections[i].1, Date, Sorting.IntDesc)
    {
      assert sections[i] == SortMonth(ordered[i]);
    }
  }

  /** Within a month's section, activities of the same day keep the order
      they have in the activity list. */
  lemma MonthSectionsStable(acts: seq<Activity>, i: nat, k: int)
    requires i < |MonthSections(acts)|
    ensures var e := MonthSections(acts)[i];
      Sorting.KeepClass(e.1, Date, Sorting.IntDesc, k)
      == Sorting.KeepClass(Sorting.Filter(acts, HasKey(MonthKey, e.0)), Date, Sorting.IntDesc, k)
  {
    var e := MonthSections(acts)[i];
    SortMonthStable((e.0, Sorting.Filter(acts, HasKey(MonthKey, e.0))), k);
  }

  lemma SectionsSortBuckets(ordered: Groups<Activity>, sections: Groups<Activity>, acts: seq<Activity>)
    requires Bucketed(ordered, acts, MonthKey)
    requires sections == seq(|ordered|, i requires 0 <= i < |ordered| => SortMonth(ordered[i]))
    ensures forall i :: 0 <= i < |sections| ==>
      sections[i] == SortMonth((sections[i].0, Sorting.Filter(acts, HasKey(MonthKey, sections[i].0))))
  {
    forall i | 0 <= i < |sections|
      ensures sections[i] == SortMonth((sections[i].0, Sorting.Filter(acts, HasKey(MonthKey, sections[i].0))))
    {
      assert sections[i] == SortMonth(ordered[i]);
      assert ordered[i] == (sections[i].0, Sorting.Filter(acts, HasKey(MonthKey, sections[i].0)));
    }
  }

  lemma {:induction false} SectionSizes(a: seq<(string, seq<Activity>)>, b: seq<(string, seq<Activity>)>)
    requires |a| == |b| && forall i :: 0 <= i < |a| ==> |a[i].1| == |b[i].1|
    ensures Sorting.SumOf(a, BucketSize) == Sorting.SumOf(b, BucketSize)
  {
    if a != [] {
      SectionSizes(a[1..], b[1..]);
    }
  }

  /** What the activity summary is written from. */
  datatype ActivitySummary = ActivitySummary(total: nat, sports: seq<(string, seq<Activity>)>, months: seq<(string, seq<Activity>)>)

  /** `export_activities_summary`: nothing is written for a missing or empty
      activity document; otherwise the total, the sport table and the
      monthly sections, each accounting for every activity once. */
  function ExportActivitiesSummary(doc: Option<seq<Activity>>): (r: Option<ActivitySummary>)
    ensures r.None? <==> doc.None? || doc.value == []
    ensures r.Some? ==>
      && r.value.total == |doc.value|
      && Sorting.SumOf(r.value.sports, BucketSize) == r.value.total
      && Sorting.SumOf(r.value.months, BucketSize) == r.value.total
    ensures r.Some? ==>
      && IsGrouping(r.value.sports, doc.value, ExportSportName)
      && Sorting.SortedBy(r.value.sports, BucketSize, Sorting.IntDesc)
      && r.value.months == MonthSections(doc.value)
  {
    match doc
    case None => None
    case Some(acts) =>
      if acts == [] then None
      else Some(ActivitySummary(|acts|, SportCounts(acts), MonthSections(acts)))
  }

  // ---------------------------------------------------------------------
  // Daily metrics and weekly summary
  // ---------------------------------------------------------------------

  function HappenDay(d: Day): int {
    d.happenDay
  }

  /** `export_daily_metrics`: no file for a missing or empty bundle;
      otherwise one row per day-list entry, latest day first. */
  function DailyRows(doc: Option<Bundle>): (r: Option<seq<Day>>)
    ensures r.None? <==> doc.None? || BundleIsEmpty(doc.value)
    ensures r.Some? ==> multiset(r.value) == multiset(doc.value.dayList.GetOr([]))
    ensures r.Some? ==> Sorting.SortedBy(r.value, HappenDay, Sorting.IntDesc)
  {
    match doc
    case None => None
    case Some(b) =>
      if BundleIsEmpty(b) then None
      else
        var days := b.dayList.GetOr([]);
        Sorting.IntOrdersTotal();
        Sorting.StableSortSorted(days, HappenDay, Sorting.IntDesc);
        Some(Sorting.StableSort(days, HappenDay, Sorting.IntDesc))
  }

  /** `analyse.get("weekList", [])`. */
  function WeekList(b: Bundle): seq<Week> {
    if WeekListKey in b.rollups && b.rollups[WeekListKey].WeekSummaries? then b.rollups[WeekListKey].weeks else []
  }

  function FirstDay(w: Week): int {
    w.firstDayOfWeek
  }

  /** `export_weekly_summary`: no file without a non-empty week list;
      otherwise one row per week, latest week first. */
  function WeeklyRows(doc: Option<Bundle>): (r: Option<seq<Week>>)
    ensures r.None? <==> doc.None? || WeekList(doc.value) == []
    ensures r.Some? ==> multiset(r.value) == multiset(WeekList(doc.value))
    ensures r.Some? ==> Sorting.SortedBy(r.value, FirstDay, Sorting.IntDesc)
  {
    match doc
    case None => None
    case Some(b) =>
      var weeks := WeekList(b);
      if weeks == [] then None
      else
        Sorting.IntOrdersTotal();
        Sorting.StableSortSorted(weeks, FirstDay, Sorting.IntDesc);
        Some(Sorting.StableSort(weeks, FirstDay, Sorting.IntDesc))
  }
}
