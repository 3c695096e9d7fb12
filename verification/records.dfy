/** The records the synchronised documents hold, as the rest of the model
    reads them. Fields the Python code reads with `a.get(k, 0)` carry that
    default already; `sportType` stays optional because one reader compares
    the raw field (`a.get("sportType")`) and sees `None` where others see 0. */
module Records {
  import opened Wrappers

  /** One exercise session; identified by its vendor-assigned `labelId`. */
  datatype Activity = Activity(
    labelId: string,
    date: int,
    startTime: int,
    sportType: Option<int>,
    distance: real,
    totalTime: int,
    avgHr: int,
    trainingLoad: int)

  /** `a.get("sportType", 0)`. */
  function SportTypeOrZero(a: Activity): int {
    a.sportType.GetOr(0)
  }

  function LabelIds(acts: seq<Activity>): (ids: set<string>)
    ensures forall a :: a in acts ==> a.labelId in ids
    ensures forall id :: id in ids ==> exists a :: a in acts && a.labelId == id
  {
    set a | a in acts :: a.labelId
  }

  /** One day's physiological summary, keyed by `happenDay` (YYYYMMDD); the
      individual metrics are carried without interpretation. */
  datatype Day = Day(happenDay: int, metrics: map<string, int>)

  /** One weekly summary of the metrics bundle (`weekList`). */
  datatype Week = Week(firstDayOfWeek: int, lastDayInWeek: int, duration: int, trainingLoad: int, count: int)

  /** The value of a non-day-keyed top-level field of the metrics bundle. */
  datatype Rollup = WeekSummaries(weeks: seq<Week>) | OtherValue(json: string)

  const DayListKey := "dayList"
  const WeekListKey := "weekList"

  type Rollups = m: map<string, Rollup> | DayListKey !in m witness map[]

  /** The daily-metrics document: the day-keyed `dayList` (absent until the
      vendor sends one) and every other top-level field. */
  datatype Bundle = Bundle(dayList: Option<seq<Day>>, rollups: Rollups)

  /** Python's truthiness of the bundle dict: an empty dict is false. */
  predicate BundleIsEmpty(b: Bundle) {
    b.dayList.None? && b.rollups == map[]
  }

  /** Sport type code to (icon, name); the dashboard and the knowledge export
      both use these names. */
  const SportCatalog: map<int, (string, string)> := map[
      100 := ("🏃", "跑步"),
      102 := ("🏔️", "越野跑"),
      200 := ("🚴", "骑行"),
      402 := ("🏋️", "力量训练"),
      401 := ("🏋️", "力量训练"),
      300 := ("🏊", "游泳"),
      10100 := ("🚶", "健步"),
      10300 := ("🧘", "瑜伽")
    ]
}
