# COROS training-data sync, dashboard helpers, knowledge export and coach filter

This project models the logic of a personal training-data pipeline built
around a COROS sports watch. It has four parts.

- **The sync job** (`fetch_coros_data.py`) keeps three JSON documents up to date.
  - The activity list is synced incrementally: pages of activities are requested until a page holds a record whose `labelId` is already known. New records go in front of the stored list, which is then re-sorted latest first.
  - The daily-metrics bundle is merged by `happenDay`. A stored day is never overwritten. Every other top-level field is replaced by the vendor's.
  - The dashboard document is replaced on every run.
  - The run metadata records the time of the run and a sample of at most fifty activity ids.
- **The dashboard's pure helpers** (`streamlit_app.py`):
  - the duration, pace and date formats, and the reading of YYYYMMDD dates;
  - the sport and state lookups, with their fallbacks;
  - the week and day skeleton of a generated training plan;
  - the type filter, sort and 30-item paging of the activity list.
- **The knowledge export** (`export_knowledge.py`):
  - its own duration format;
  - the grouping of activities by month and by sport, and the counting;
  - the descending order of months, activity rows, day rows and week rows.
- **The Open WebUI filter** (`openwebui_function_coros_coach.py`):
  - puts a coaching system prompt first when a chat has none;
  - on the first user turn, inserts the exported documents before the user's message. The documents are fetched from GitHub through a per-file time-to-live cache.

## Modules

Each module is one `.dfy` file of the same name in lower case.

| module | role |
|---|---|
| `Wrappers` | `Option` and `Result` |
| `Text` | decimal spelling and parsing, zero padding, `strip`, `split` and `join` |
| `Sorting` | stable insertion sort with a key and an order, filter, sums, duplicate-free lists |
| `Records` | activities, days, weeks, the metrics bundle, the sport catalog |
| `Vendor` | the vendor's response envelope: raise, deliver, or reject |
| `Format` | `fmt_pace` and `fmt_date`, identical in the dashboard and the export, and the dashboard's `parse_date` |
| `ActivitySync` | `fetch_activities` and `sync_activities` |
| `AnalyseSync` | `sync_analyse` |
| `SyncRun` | `_load_meta`, `sync_dashboard` and one run of `main` |
| `Dashboard` | the dashboard's `fmt_duration`, lookups, list filter, sort and paging |
| `Plan` | `generate_plan` |
| `Knowledge` | the export's `fmt_duration` and its three exports |
| `Coach` | `_fetch_github_file`, `_build_context` and `inlet` |

### How the program's inputs are modelled

- HTTP responses, the clock and the network are parameters.
  - A vendor response is a `Vendor.Response`. The activity vendor is a finite sequence of page responses; every page past its end is an empty successful page.
  - The GitHub fetch is a function from request to `Got(content)` or `Failed(reason)`, and the clock reading is a `real`.
- The data directory is a value `SyncRun.Store`, in which a missing file is `None`.
- A `labelId` is a string. `sync_activities` turns the stored ids into strings, while the page filter compares the vendor's raw `labelId`; the model assumes the vendor sends strings, so the two agree.
- Plan dates are day ordinals, as `date.toordinal()` gives them.

### Two formats read back

The duration formats have no reader in the program. `Dashboard.ParseClock` and `Knowledge.ParseDuration` are reference inverses written for this model, and so are `Format.ParsePace` for `m'ss"` and `Format.ParseDate`'s field reading. They exist so that each format can be proved lossless. Each reader accepts only the spellings its formatter writes: no minutes or seconds field of 60 or more, and no leading zero in a field written without padding. So a positive reading of a text comes back as that text when formatted again.

## Model

| member | source | states |
|---|---|---|
| Records.LabelIds | fetch_coros_data.py:144 | the id set of a list: the `labelId` of every record in it, and nothing else |
| ActivitySync.NewOnPageMembers | fetch_coros_data.py:118 | a record is kept from a page exactly when it is listed there and its `labelId` is not among the known ids |
| ActivitySync.PageStep | fetch_coros_data.py:107-136 | one loop iteration raises exactly on a raising response, moves on exactly when the page continues, and otherwise keeps the page's new records |
| ActivitySync.FetchFrom | fetch_coros_data.py:96-139 | the loop moves past every page before the last one requested and stops at the first that does not continue; it returns the new records of the requested pages in page order, or raises on the first raising page |
| ActivitySync.FetchResultMembers | fetch_coros_data.py:118-119 | what the loop returns is exactly the records with an unknown `labelId` listed on the pages it requested |
| ActivitySync.StopsAtFirstNonContinuingPage | fetch_coros_data.py:102-136 | the stop rule decides the outcome: the first page that does not continue ends the loop there, by a raise or with the harvest of pages 1 to that page |
| ActivitySync.PartialPageStops | fetch_coros_data.py:129-130 | a page with some new and some known records is the last one requested, and its new records are kept |
| ActivitySync.KnownPageStops | fetch_coros_data.py:121-123 | a non-empty page whose records are all known ends the loop and adds nothing |
| ActivitySync.FullNewPageContinues | fetch_coros_data.py:129-136 | an entirely new page with `totalPage` (default 1) greater than the page number is followed by a request for the next page |
| ActivitySync.ErrorEnvelopeKeepsEarlierPages | fetch_coros_data.py:110-112 | a non-`0000` envelope ends the loop without raising, and the records of earlier pages are still returned |
| ActivitySync.HarvestRangeSplit | fetch_coros_data.py:119 | the records gathered up to page p are those gathered before page p followed by page p's own |
| ActivitySync.RepeatedRecordIsReturnedTwice | fetch_coros_data.py:118-119 | the known ids are not updated between pages, so a record on two entirely new pages is returned twice |
| ActivitySync.SortByStartTime | fetch_coros_data.py:150 | the stored list after a sync: a permutation of its input, latest `startTime` first |
| ActivitySync.SortByStartTimeStable | fetch_coros_data.py:150 | the sort is stable: records with the same `startTime` keep their order |
| ActivitySync.LabelIdsOfPermutation | fetch_coros_data.py:156 | reordering a list changes neither its members nor its id set |
| ActivitySync.SyncActivities | fetch_coros_data.py:142-156 | it fails exactly when the loop raises; the list is rewritten exactly when something new was found, as a sorted permutation of new records then existing ones that keeps every stored record; otherwise it is left as it was; the ids returned are those of new and existing records together |
| ActivitySync.SyncActivitiesStable | fetch_coros_data.py:147-150 | in a rewritten list, records with the same `startTime` keep their merged order: new records in the order found, then stored ones in stored order |
| ActivitySync.NoNewWhenAllKnown | fetch_coros_data.py:118 | a page whose ids are all known yields no new records |
| ActivitySync.FetchedBeginsWithFirstPage | fetch_coros_data.py:101-119 | a loop that returns normally did not raise on page 1, and its result begins with page 1's unknown records |
| ActivitySync.FirstPageKnownAfterSync | fetch_coros_data.py:118-156 | after a successful sync, page 1 raises nothing and every record listed on it has a stored `labelId` |
| ActivitySync.SecondSyncChangesNothing | fetch_coros_data.py:147-156 | a second sync against the same vendor answers finds nothing, rewrites nothing and returns the same ids |
| AnalyseSync.LastWith | fetch_coros_data.py:181 | the record a dict built from the list keeps for a day is a record of the list for that day |
| AnalyseSync.LastWithIsLast | fetch_coros_data.py:181 | it is the last record listed for that day: none for the day follows it |
| AnalyseSync.FirstWith | fetch_coros_data.py:183-187 | the record the merge loop takes for an unseen day is a vendor record for that day |
| AnalyseSync.FirstWithIsFirst | fetch_coros_data.py:183-187 | it is the first the vendor sends for that day: none for the day precedes it |
| AnalyseSync.Put | fetch_coros_data.py:186 | assigning a day in the index keeps one record per day and adds or replaces only that day |
| AnalyseSync.DayIndex | fetch_coros_data.py:181 | the index of the stored days: one record per day present, the last one for it |
| AnalyseSync.AddUnseen | fetch_coros_data.py:183-187 | the merge loop adds exactly the unseen days, each from its first vendor record, and keeps every indexed day as it was |
| AnalyseSync.DistinctDaysCard | fetch_coros_data.py:181 | a day list has one record per day exactly when it has as many records as distinct days |
| AnalyseSync.SortDistinctDays | fetch_coros_data.py:189 | sorting a one-record-per-day list by `happenDay` keeps its records and makes the days strictly ascending |
| AnalyseSync.MergeDays | fetch_coros_data.py:181-189 | the merged day list is ascending with unique days, holds every stored and vendor day, the stored record for a stored day and the vendor's first record for a new one |
| AnalyseSync.MergeBundles | fetch_coros_data.py:181-193 | the merged bundle has that day list (an absent list reads as empty); every other vendor field overwrites the stored one, and stored fields the vendor omits are kept |
| AnalyseSync.SyncAnalyse | fetch_coros_data.py:162-200 | it fails exactly on a raising response; a rejected envelope leaves the store alone; the first bundle is stored verbatim; a later one is merged into the stored document by `MergeBundles`, with all of that member's guarantees |
| AnalyseSync.StoredDayWins | fetch_coros_data.py:185 | a stored day is never overwritten by what the vendor sends for it |
| AnalyseSync.LastOfDistinct | fetch_coros_data.py:181 | in a stored list with one record per day, the dict keeps that record |
| AnalyseSync.NewDayFromVendor | fetch_coros_data.py:185-186 | a day the store lacks is added from the vendor's first record for it |
| AnalyseSync.MergeIdempotent | fetch_coros_data.py:181-193 | merging the same vendor bundle twice gives the same document as merging it once |
| AnalyseSync.MergeDaysIdempotent | fetch_coros_data.py:181-189 | merging the same day list into an already merged list changes nothing |
| AnalyseSync.OverrideTwice | fetch_coros_data.py:191-193 | overwriting fields twice with the same vendor fields is overwriting once |
| AnalyseSync.StrictlyAscendingUnique | fetch_coros_data.py:189 | two strictly ascending lists with the same days and the same records are equal |
| SyncRun.LoadMeta | fetch_coros_data.py:81-85 | the stored metadata, or without a file the default with no last fetch, no known ids and no latest day |
| SyncRun.LoadActivities | fetch_coros_data.py:143 | the stored activity list, or the empty list without a file |
| SyncRun.DistinctLabels | fetch_coros_data.py:156 | a listing of the id set without duplicates and with exactly its members |
| SyncRun.DistinctLabelsCount | fetch_coros_data.py:237 | the listing has as many entries as the set has ids |
| SyncRun.SampleIds | fetch_coros_data.py:237 | the stored sample: distinct ids from the listing, min(50, n) of them, the whole listing when it has at most 50 |
| SyncRun.SyncDashboard | fetch_coros_data.py:206-217 | it fails exactly on a raising response; a rejected envelope leaves the document alone; otherwise the vendor's `data` replaces it |
| SyncRun.RunSync | fetch_coros_data.py:223-245 | a run exits with code 1 and writes nothing exactly when the access token is empty |
| SyncRun.CompletedRun | fetch_coros_data.py:233-245 | when no read raises, the run completes: each document is what its sync produced, and the metadata carries the run's time, a duplicate-free sample of min(50, n) of the n ids seen, and the stored `latest_happen_day` |
| SyncRun.AnalyseRaiseKeepsActivityWrite | fetch_coros_data.py:236-240 | a raise in the metrics sync ends the run after the activity write, with the metadata not saved |
| SyncRun.ActivityRaiseWritesNothing | fetch_coros_data.py:236 | a raise in the paging loop ends the run before any write |
| SyncRun.RejectionsDoNotStopTheRun | fetch_coros_data.py:168-170 | a rejected envelope skips only its own document: the run completes with that document unchanged |
| Format.Hms | streamlit_app.py:67-69 | hours, minutes and seconds add back to the duration, with minutes and seconds below 60 |
| Format.FmtPace | streamlit_app.py:56-58 | the placeholder `--` is shown exactly for a non-positive pace |
| Format.PaceRoundTrip | streamlit_app.py:59-61 | a positive pace is written as minutes and two-digit seconds that add back to its whole seconds |
| Format.PaceReadsOnlyFormatted | streamlit_app.py:56-61 | any text read as a positive pace of n seconds is exactly the text `fmt_pace` writes for n |
| Format.HmsOf | streamlit_app.py:67-69 | the split gives back the hours, minutes and seconds a duration was made of, when the minutes and seconds are below 60 |
| Format.FmtDateFields | streamlit_app.py:84-86 | an eight-digit YYYYMMDD is written as its year, two-digit month and two-digit day, joined by `-` |
| Format.YearSlice | streamlit_app.py:85-86 | the first four characters of an eight-digit number spell its year |
| Format.MonthSlice | streamlit_app.py:85-86 | characters five and six spell its month with two digits |
| Format.DaySlice | streamlit_app.py:85-86 | the last two characters spell its day with two digits |
| Format.ParseDateFields | streamlit_app.py:89-91 | `parse_date` of an eight-digit number reads the same year, month and day, and fails exactly when they are no calendar date |
| Format.ParseDateRoundTrip | streamlit_app.py:89-91 | every date from year 1000 on is read back from its YYYYMMDD number |
| Format.DateNumber | streamlit_app.py:84-91 | the YYYYMMDD number of a date has eight digits and gives back its year, month and day |
| Dashboard.FmtDuration | streamlit_app.py:64-72 | the placeholder `--` is shown exactly for a non-positive duration; below one hour the text is `mm:ss`, five characters |
| Dashboard.DurationRoundTrip | streamlit_app.py:67-72 | a positive duration is read back exactly from its clock text |
| Dashboard.PlaceholderIsNoClock | streamlit_app.py:65-66 | the `--` of a non-positive duration reads as no duration |
| Dashboard.ClockReadsOnlyFormatted | streamlit_app.py:64-72 | any text read as a positive clock duration of n seconds is exactly the text `fmt_duration` writes for n |
| Dashboard.ClockTextRoundTrip | streamlit_app.py:70-72 | `h:mm:ss` from one hour and `mm:ss` below both read back as `h*3600 + m*60 + s` |
| Dashboard.SportEntry | streamlit_app.py:94-99 | a catalogued sport type gives its icon and name; any other gives 🏅 and 其他 |
| Dashboard.SportFallback | streamlit_app.py:94-99 | the name 其他 and the icon 🏅 are shown exactly for uncatalogued types |
| Dashboard.TlRatioStateText | streamlit_app.py:102-110 | states 1 to 5 give their text and colour; any other state, and only those, gives 未知 ⚪ |
| Dashboard.FatigueStateText | streamlit_app.py:113-121 | the same for the fatigue states |
| Dashboard.SportTypesPresent | streamlit_app.py:498 | the sport types of the list, each present type once, strictly ascending |
| Dashboard.TypeOptions | streamlit_app.py:499 | the filter offers 全部 and then one label per type present, in type order |
| Dashboard.TypeMapGet | streamlit_app.py:500-509 | the label lookup finds a type exactly when a present type has that label; with two types on one label, the later one in type order |
| Dashboard.FilterAsWritten | streamlit_app.py:507-511 | 全部 or an unknown label keeps the list; a known label keeps every copy of each activity of the one type it maps to and nothing else, in list order |
| Dashboard.StrengthFilterDropsType401 | streamlit_app.py:500-511 | with sessions of types 401 and 402, selecting 力量训练 drops the 401 session |
| Dashboard.AsWrittenKeepsLabel | streamlit_app.py:500-511 | the filter as written keeps only activities of the list, and once some activity carries the selected label, only activities listed under it |
| Sorting.FilterCounts | streamlit_app.py:511 | a list comprehension with a condition keeps every copy of an element that passes and no copy of one that fails |
| Sorting.FilterIsSubsequence | streamlit_app.py:511 | a list comprehension with a condition keeps the order of what it keeps |
| Dashboard.FilterByLabel | streamlit_app.py:507-511 | the intended filter keeps every copy of each activity listed under the selected label and nothing else, in list order |
| Dashboard.StrengthFilterKeepsBoth | streamlit_app.py:507-511 | the intended filter keeps the 401 and the 402 session |
| Dashboard.OfferedOptionsSelectTheirActivities | streamlit_app.py:499-511 | under the intended filter (`FilterByLabel`), every offered option selects exactly the activities listed under it; the filter as written does not, see `StrengthFilterDropsType401` |
| Dashboard.SortActivityList | streamlit_app.py:513-520 | the list is a permutation of the filtered one, largest key of the chosen column first, with an unknown column sorting by date |
| Dashboard.SortActivityListStable | streamlit_app.py:513-520 | the sort is stable: activities with equal values in the chosen column keep their filtered order |
| Dashboard.TotalPages | streamlit_app.py:523-524 | at least one page, enough pages for every item, and no empty last page |
| Dashboard.PageItems | streamlit_app.py:527-528 | a page holds at most 30 items, those from index `(page_num - 1) * 30` on, and none past the end of the list |
| Dashboard.PagesUpToPrefix | streamlit_app.py:527-528 | the first k pages read one after another are the list's first `30k` items |
| Dashboard.PagesCoverList | streamlit_app.py:523-528 | reading all pages in turn gives the list back, each item once |
| Dashboard.ActivityListPage | streamlit_app.py:500-528 | a shown page holds at most 30 activities of the list; for a known label, all of the one type the label resolves to, and so all listed under that label |
| Dashboard.LabelledActivityListPage | streamlit_app.py:507-528 | the page under the intended label filter: at most 30 activities of the list, all listed under the selected label |
| Plan.Weekday | streamlit_app.py:604 | the weekday of a day ordinal, 0 to 6 with Monday as 0; day 1 is a Monday |
| Plan.WeekdayNext | streamlit_app.py:604 | the weekdays follow one another: Monday after Sunday, otherwise the next one |
| Plan.WeekdayPeriodic | streamlit_app.py:604 | the weekday repeats every seven days |
| Plan.Trunc | streamlit_app.py:595-596 | `int(x)` lies within one of x, toward zero |
| Plan.Factor | streamlit_app.py:584-593 | the volume factor of a week lies between 0.5 and 1.4 |
| Plan.MakeWeek | streamlit_app.py:576-621 | week w is numbered w + 1, starts 7w days after the plan and ends six days later, and has seven consecutive days; its label is DELOAD, TAPER or empty exactly as the deload and last-week rules say; its minimum target is at least 60; it has no HIIT target in the taper week |
| Plan.GeneratePlan | streamlit_app.py:574-622 | exactly `plan_weeks` weeks, each as above, day d of week w falling on the start date plus 7w + d |
| Plan.DayNamesRepeatWeekly | streamlit_app.py:600-604 | each day is named after its weekday, so every week has the first week's day names |
| Plan.WeeksAreConsecutive | streamlit_app.py:577-578 | each week begins the day after the previous one ends |
| Plan.DeloadWeekCount | streamlit_app.py:580-581 | a plan of n weeks holds `(n - 1) / deload_every` deload weeks |
| Plan.DeloadPrefixCount | streamlit_app.py:581 | among the first n weeks before the last, `n / deload_every` are deload weeks |
| Knowledge.FmtDuration | export_knowledge.py:41-43 | the placeholder `--` is shown exactly for a non-positive duration |
| Knowledge.DurationRoundTrip | export_knowledge.py:44-49 | a positive duration is read back exactly from its `{h}h{mm}m{ss}s` or `{m}m{ss}s` text |
| Knowledge.PlaceholderIsNoDuration | export_knowledge.py:42-43 | the `--` of a non-positive duration reads as no duration |
| Knowledge.DurationReadsOnlyFormatted | export_knowledge.py:41-49 | any text read as a positive duration of n seconds is exactly the text the export's `fmt_duration` writes for n |
| Knowledge.DurationTextRoundTrip | export_knowledge.py:47-49 | both export forms of h, m and s read back as `h*3600 + m*60 + s` |
| Knowledge.Append | export_knowledge.py:75 | appending to a key's list grows only that list; a new key is added last, and keys stay distinct |
| Knowledge.GroupBy | export_knowledge.py:71-75 | the grouping has distinct keys, exactly the keys present in the list |
| Knowledge.GroupByFirstSeen | export_knowledge.py:86-92 | the keys of a `defaultdict` filled from a list come in the order each key first occurs in the list |
| Knowledge.GroupByIsGrouping | export_knowledge.py:71-75 | each bucket holds exactly the activities of its key, in list order |
| Knowledge.BucketSizesSum | export_knowledge.py:71-75 | the bucket sizes add up to the number of activities |
| Knowledge.ExactlyOneBucket | export_knowledge.py:71-75 | every activity lands in exactly one bucket |
| Knowledge.ExportSportName | export_knowledge.py:90-91 | a catalogued type's name, otherwise `其他({st})` |
| Knowledge.UnknownSportNamesDistinct | export_knowledge.py:91 | two different uncatalogued types get different names |
| Knowledge.SportCounts | export_knowledge.py:86-100 | one row per sport name holding exactly its sessions; the counts add up to the number of activities; the most frequent sport comes first |
| Knowledge.SportCountsStable | export_knowledge.py:86-100 | sports with equally many activities keep the grouping's order, which is the order in which their names first occur in the activity list |
| Knowledge.SortGroups | export_knowledge.py:100-108 | sorting the buckets by any total order keeps the grouping and the total, and leaves them in that order |
| Knowledge.PermutedGrouping | export_knowledge.py:108 | any reordering of the buckets is still a grouping of the same list |
| Knowledge.SortMonth | export_knowledge.py:116 | a month's rows are its activities, latest date first |
| Knowledge.SortMonthStable | export_knowledge.py:116 | activities of the same date keep their order within the month |
| Knowledge.MonthSections | export_knowledge.py:71-116 | one section per month present, latest month first; each section is its month's activities, in list order, put through the per-month sort; together they hold every activity |
| Knowledge.MonthSectionsStable | export_knowledge.py:107-116 | within a month's section, activities of the same date keep their order in the activity list |
| Knowledge.ExportActivitiesSummary | export_knowledge.py:64-116 | nothing is written for a missing or empty list; otherwise the total is the number of activities, the sport table is a grouping of the list by sport name, most frequent first, and the months are the month sections of the list |
| Knowledge.DailyRows | export_knowledge.py:136-172 | nothing is written for a missing or empty bundle; otherwise one row per day record, latest `happenDay` first |
| Knowledge.WeeklyRows | export_knowledge.py:198-222 | nothing is written without a non-empty week list; otherwise one row per week, latest `firstDayOfWeek` first |
| Coach.Headers | openwebui_function_coros_coach.py:74-76 | always the user agent, and an `Authorization: token …` header exactly when a token is set |
| Coach.FetchGithubFile | openwebui_function_coros_coach.py:55-85 | a fresh entry is returned as it is; otherwise a fetched body is returned and stored with the current time, and a failure returns an error text and stores nothing; only the entry of the requested file can change |
| Coach.FreshEntryIgnoresNetwork | openwebui_function_coros_coach.py:61-64 | an entry younger than the time-to-live is served whatever the network does |
| Coach.FetchThenHit | openwebui_function_coros_coach.py:61-82 | after a successful fetch, a request within the time-to-live is served from the cache with the fetched text |
| Coach.StaleEntryNotAFallback | openwebui_function_coros_coach.py:84-85 | when a refetch fails, the stale entry is not served; the error text is returned and the cache is unchanged |
| Coach.FetchKeepsFresh | openwebui_function_coros_coach.py:82 | fetching one file never changes another file's fresh entry |
| Coach.Entries | openwebui_function_coros_coach.py:89 | the kept entries are non-blank and trimmed at both ends |
| Coach.KnowledgeFiles | openwebui_function_coros_coach.py:89 | the configured files are non-blank and contain no comma |
| Coach.KnowledgeFilesRoundTrip | openwebui_function_coros_coach.py:89 | trimmed comma-free paths joined by commas are read back as the same list |
| Coach.DefaultKnowledgeFilesAre | openwebui_function_coros_coach.py:24-25 | the default setting names the three exported documents |
| Coach.FetchAll | openwebui_function_coros_coach.py:90-93 | one part per file, and no entry is dropped from the cache |
| Coach.BuildContext | openwebui_function_coros_coach.py:87-94 | building the context drops no cache entry |
| Coach.FetchAllKeepsFresh | openwebui_function_coros_coach.py:91-93 | a fresh entry stays fresh and unchanged through the fetches |
| Coach.WarmFetchAll | openwebui_function_coros_coach.py:91-93 | with every file fresh, the parts are the cached contents, the cache is unchanged and the network is irrelevant |
| Coach.WarmCacheIgnoresNetwork | openwebui_function_coros_coach.py:87-94 | with every configured file fresh, the context does not depend on the network |
| Coach.FetchAllWarms | openwebui_function_coros_coach.py:91-93 | with a positive time-to-live and every stale file readable, the fetches leave every file fresh with the returned part |
| Coach.RebuildServedFromCache | openwebui_function_coros_coach.py:87-94 | then building the context again at once gives the same text without the network |
| Coach.CountRoleHasRole | openwebui_function_coros_coach.py:101-109 | the number of messages with a role is positive exactly when some message has it |
| Coach.CountRoleInsert | openwebui_function_coros_coach.py:103-122 | inserting a message changes only the count of its own role |
| Coach.FirstWithRole | openwebui_function_coros_coach.py:120-121 | the index of the first message with a role |
| Coach.InsertKeepsSubsequence | openwebui_function_coros_coach.py:103-122 | inserting a message keeps every earlier message in its order |
| Coach.WithPrompt | openwebui_function_coros_coach.py:101-106 | the prompt is put first exactly when no message is a system message; the original messages keep their order and the user messages are unchanged |
| Coach.InletFilter | openwebui_function_coros_coach.py:96-126 | a missing list counts as empty; the original messages keep their order; a system message is present afterwards; the list grows by one for a missing prompt and by one on the first user turn; the context is built and the cache touched only on that turn |
| Coach.ContextBeforeFirstUser | openwebui_function_coros_coach.py:109-123 | on the first user turn the context message sits immediately before the first user message, and removing it gives back the list with the prompt |
| Coach.InsertBeforeFirstUser | openwebui_function_coros_coach.py:120-123 | a system message inserted at the first user message lands right before it |
| Coach.FirstUserAfterInsert | openwebui_function_coros_coach.py:120-123 | after the insertion the first user message is one place further on |
| Coach.LaterTurnsUntouched | openwebui_function_coros_coach.py:101-110 | with a system message present and not exactly one user message, the inlet changes nothing and fetches nothing |
| Coach.InletSettles | openwebui_function_coros_coach.py:96-126 | outside the first user turn, passing the output through the inlet again changes nothing |

## Left out

- HTTP requests, headers and cookies of the sync job, `time.sleep`, logging, JSON file reading and writing, and `mkdir`. Responses are parameters and the data directory is a value.
- A `labelId` the vendor sends as a number: the model types `labelId` as a string, so the raw comparison in the page filter and the `str(...)` of the stored ids always agree. With numeric ids from the vendor no record would ever count as known and every page would look new; that case is not modelled.
- The clock. `_save_meta`'s `datetime.now().isoformat()` is a string parameter, and the filter's `time.time()` is `Env.now`.
- `urllib.request.pathname2url`. It is a parameter of `Env` (`encode`).
- The coaching prompt's text and the context message's fixed preface. Both are kept as parameters or constants without their wording mattering.
- Streamlit, plotly and pandas rendering, `fmt_distance`, `fill_actual_data`, the HTML of the plan calendar, the Markdown text of the exports, the averages in the daily-metrics summary, and `export_current_plan`.
- SyncRun.SampleIds: the Python sample takes `list(set)[:50]`, whose order is the set's iteration order. The model enumerates the set in order of first appearance and states only what does not depend on that order: distinct ids from the set, min(50, n) of them.
- Floating point. `fmt_pace`'s input and `generate_plan`'s factors are exact reals, so rounding of the progression factor is not modelled; `int()` is modelled as truncation toward zero.
- Plan.GeneratePlan: requires `deload_every >= 1`. The form only offers 3 to 6, and Python would fail dividing by zero.
- Plan.MakeWeek: states the lower bound of 60 on `target_min` and not the value of `target_max`, which depends on float rounding.
- Plan dates are day ordinals. The ISO text of `isoformat()` is not modelled.
- Message keys other than `role` and `content`, and a `messages` value that is not a list, are not modelled. A message without a role is a `Message` whose `role` is `None`.
- JSON `null`. A record field that may be absent is an `Option`, and the dashboard document is an opaque value with `Null` as one case.
- A `weekList` that is not a list of week records is not modelled.
- `fetch_activities` on an HTTP error: the code raises out of the loop and loses the pages already gathered, and the run stops before any write.
- ActivitySync.SyncActivities: promises no uniqueness of the stored list. The known ids are not updated between pages, so a record on two entirely new pages is stored twice (`ActivitySync.RepeatedRecordIsReturnedTwice`).
- Coach.FetchAll: one context build is modelled at a single clock reading, `Env.now`. The code reads `time.time()` again for each file, and each fetch may wait up to 15 seconds, so later files of a real build are judged at a later time.
- Coach.WarmFetchAll: holds for a build at one instant. With the clock moving during the build, an entry fresh at the start may expire before its turn.
- Coach.WarmCacheIgnoresNetwork: holds for a build at one instant, for the same reason.
- Coach.FetchAllWarms: holds for a build at one instant. With the clock moving, an entry fetched early in the build may already be older when the build ends.
- Coach.BuildContext: its own contract states only that no cache entry is dropped. That its text is the parts joined with the separator is its definition; the cache behaviour is stated by `Coach.WarmCacheIgnoresNetwork` and `Coach.RebuildServedFromCache`.
- Coach.InletFilter: idempotence holds only outside the first user turn. On that turn a second pass would insert the context again, so `Coach.InletSettles` requires it.

## Findings

| source | as written | input that shows it | evidently intended | confidence | as-written member | corrected member |
|---|---|---|---|---|---|---|
| streamlit_app.py:500-511 | `type_map` is keyed by the displayed label, and types 401 and 402 share the label `🏋️ 力量训练`, so the label maps only to 402 and the filter keeps only type-402 sessions | one session of type 401 and one of type 402; select `🏋️ 力量训练` | the filter keeps every session shown under the selected label, both strength types included | high, not executed | Dashboard.StrengthFilterDropsType401 | Dashboard.StrengthFilterKeepsBoth |
