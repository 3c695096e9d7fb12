/** The Open WebUI chat filter: before a chat request reaches the model it
    makes sure a coaching system prompt is present and, on the first user
    turn, inserts the latest training documents fetched from GitHub (with a
    per-file time-to-live cache). */
module Coach {
  import opened Wrappers
  import opened Text
  import Sorting

  // ---------------------------------------------------------------------
  // Settings ("valves") and the environment
  // ---------------------------------------------------------------------

  datatype Valves = Valves(
    githubOwner: string,
    githubRepo: string,
    githubBranch: string,
    knowledgeFiles: string,
    githubToken: string,
    cacheTtlSeconds: int,
    systemPrompt: string)

  const DefaultOwner := "nametoa"
  const DefaultRepo := "ai-sport-training"
  const DefaultBranch := "main"
  const DefaultTtlSeconds := 3600
  const DailyMetricsFile := "knowledge/02_每日身体指标.md"
  const WeeklySummaryFile := "knowledge/03_周训练统计.md"
  const CurrentPlanFile := "knowledge/04_当前训练计划.md"
  const DefaultKnowledgeFiles := DailyMetricsFile + "," + WeeklySummaryFile + "," + CurrentPlanFile

  /** The settings a fresh filter starts with; the prompt text is a
      parameter. */
  function DefaultValves(prompt: string): Valves {
    Valves(DefaultOwner, DefaultRepo, DefaultBranch, DefaultKnowledgeFiles, "", DefaultTtlSeconds, prompt)
  }

  /** An HTTP GET: the URL and the request headers. */
  datatype Request = Request(url: string, headers: seq<(string, string)>)

  /** What reading the response gives: the decoded body, or the text of the
      exception raised on the way. */
  datatype Fetch = Got(content: string) | Failed(reason: string)

  /** The outside world of one call: the clock reading, the network, and
      the URL path encoding of the standard library. */
  datatype Env = Env(now: real, network: Request -> Fetch, encode: string -> string)

  const UserAgent := "Open-WebUI-COROS-Coach"

  function RawUrl(v: Valves, encodedPath: string): string {
    "https://raw.githubusercontent.com/" + v.githubOwner + "/" + v.githubRepo + "/" + v.githubBranch + "/" + encodedPath
  }

  /** The request headers: always the user agent, and a token header exactly
      when a token is configured. */
  function Headers(v: Valves): (h: seq<(string, string)>)
    ensures 1 <= |h| <= 2 && h[0] == ("User-Agent", UserAgent)
    ensures (exists i :: 0 <= i < |h| && h[i].0 == "Authorization") <==> v.githubToken != ""
    ensures forall i :: 0 <= i < |h| && h[i].0 == "Authorization" ==> h[i].1 == "token " + v.githubToken
  {
    if v.githubToken != "" then
      var h := [("User-Agent", UserAgent), ("Authorization", "token " + v.githubToken)];
      assert h[1].0 == "Authorization";
      h
    else
      [("User-Agent", UserAgent)]
  }

  function RequestFor(v: Valves, env: Env, path: string): Request {
    Request(RawUrl(v, env.encode(path)), Headers(v))
  }

  // ---------------------------------------------------------------------
  // The per-file cache
  // ---------------------------------------------------------------------

  /** File path to (time stored, content). */
  type Cache = map<string, (real, string)>

  /** The cache may answer for `path` at time `now`. */
  predicate Fresh(v: Valves, cache: Cache, now: real, path: string) {
    path in cache && now - cache[path].0 < v.cacheTtlSeconds as real
  }

  /** The text returned in place of a file that could not be read. */
  function ErrorText(path: string, reason: string): string {
    "[读取 " + path + " 失败: " + reason + "]"
  }

  /** A text handed back together with the cache after the call. */
  datatype Served = Served(content: string, cache: Cache)

  /** `_fetch_github_file`: a fresh cache entry is returned as it is; otherwise
      the file is requested, a body is stored with the current time, and a
      failure yields an error text and stores nothing. Only the entry of
      `path` can change, and only to the returned content at `now`. */
  function FetchGithubFile(v: Valves, cache: Cache, env: Env, path: string): (r: Served)
    ensures r.cache == cache || r.cache == cache[path := (env.now, r.content)]
    ensures cache.Keys <= r.cache.Keys
    ensures r.cache.Keys <= cache.Keys + {path}
    ensures Fresh(v, cache, env.now, path) ==> r == Served(cache[path].1, cache)
    ensures !Fresh(v, cache, env.now, path) ==>
      match env.network(RequestFor(v, env, path))
      case Got(c) => r.content == c && path in r.cache && r.cache[path] == (env.now, c)
      case Failed(e) => r.content == ErrorText(path, e) && r.cache == cache
  {
    if Fresh(v, cache, env.now, path) then Served(cache[path].1, cache)
    else
      match env.network(RequestFor(v, env, path))
      case Got(c) => Served(c, cache[path := (env.now, c)])
      case Failed(e) => Served(ErrorText(path, e), cache)
  }

  /** A fresh entry is served the same whatever the network does. */
  lemma FreshEntryIgnoresNetwork(v: Valves, cache: Cache, env1: Env, env2: Env, path: string)
    requires env1.now == env2.now && Fresh(v, cache, env1.now, path)
    ensures FetchGithubFile(v, cache, env1, path) == FetchGithubFile(v, cache, env2, path)
    ensures FetchGithubFile(v, cache, env1, path) == Served(cache[path].1, cache)
  {
  }

  /** With a positive time-to-live, a successful fetch is served from the
      cache by any later call within the time-to-live, network or not. */
  lemma FetchThenHit(v: Valves, cache: Cache, env1: Env, env2: Env, path: string)
    requires v.cacheTtlSeconds > 0
    requires !Fresh(v, cache, env1.now, path) && env1.network(RequestFor(v, env1, path)).Got?
    requires env1.now <= env2.now < env1.now + v.cacheTtlSeconds as real
    ensures var first := FetchGithubFile(v, cache, env1, path);
      Fresh(v, first.cache, env2.now, path)
      && FetchGithubFile(v, first.cache, env2, path) == Served(first.content, first.cache)
  {
    var first := FetchGithubFile(v, cache, env1, path);
    assert first.cache[path] == (env1.now, first.content);
  }

  /** A stale entry is never used as a fallback: when the refetch fails the
      caller gets the error text, not the old content. */
  lemma StaleEntryNotAFallback(v: Valves, cache: Cache, env: Env, path: string)
    requires path in cache && !Fresh(v, cache, env.now, path)
    requires env.network(RequestFor(v, env, path)).Failed?
    ensures FetchGithubFile(v, cache, env, path).content == ErrorText(path, env.network(RequestFor(v, env, path)).reason)
    ensures FetchGithubFile(v, cache, env, path).cache == cache
  {
  }

  /** Fetching one file never disturbs another file's fresh entry. */
  lemma FetchKeepsFresh(v: Valves, cache: Cache, env: Env, path: string, other: string)
    requires Fresh(v, cache, env.now, other)
    ensures var r := FetchGithubFile(v, cache, env, path);
      Fresh(v, r.cache, env.now, other) && r.cache[other] == cache[other]
  {
  }

  // ---------------------------------------------------------------------
  // The context
  // ---------------------------------------------------------------------

  const ContextSeparator := "\n\n---\n\n"

  /** The trimmed, non-blank entries of a list of comma-separated pieces. */
  function Entries(pieces: seq<string>): (files: seq<string>)
    ensures |files| <= |pieces|
    ensures forall i :: 0 <= i < |files| ==> files[i] != "" && !IsSpace(files[i][0]) && !IsSpace(files[i][|files[i]| - 1])
  {
    if pieces == [] then []
    else
      var t := Strip(pieces[0]);
      (if t == "" then [] else [t]) + Entries(pieces[1..])
  }

  /** `[f.strip() for f in knowledge_files.split(",") if f.strip()]`. */
  function KnowledgeFiles(v: Valves): (files: seq<string>)
    ensures forall i :: 0 <= i < |files| ==> files[i] != "" && ',' !in files[i]
  {
    var pieces := Split(v.knowledgeFiles, ',');
    EntriesFromPieces(pieces);
    Entries(pieces)
  }

  lemma {:induction false} EntriesFromPieces(pieces: seq<string>)
    requires forall k :: 0 <= k < |pieces| ==> ',' !in pieces[k]
    ensures forall i :: 0 <= i < |Entries(pieces)| ==> ',' !in Entries(pieces)[i]
  {
    if pieces != [] {
      EntriesFromPieces(pieces[1..]);
      StripKeepsOut(pieces[0], ',');
    }
  }

  /** Entries that are already trimmed and non-blank are kept as they are. */
  lemma {:induction false} EntriesOfTrimmed(files: seq<string>)
    requires forall i :: 0 <= i < |files| ==> files[i] != "" && !IsSpace(files[i][0]) && !IsSpace(files[i][|files[i]| - 1])
    ensures Entries(files) == files
  {
    if files != [] {
      StripStripped(files[0]);
      EntriesOfTrimmed(files[1..]);
      assert [files[0]] + files[1..] == files;
    }
  }

  /** Writing trimmed, comma-free paths joined by commas into the setting
      gives exactly those paths back, in order. */
  lemma KnowledgeFilesRoundTrip(v: Valves, files: seq<string>)
    requires |files| >= 1
    requires forall i :: 0 <= i < |files| ==> files[i] != "" && ',' !in files[i] && !IsSpace(files[i][0]) && !IsSpace(files[i][|files[i]| - 1])
    requires v.knowledgeFiles == Join(files, ",")
    ensures KnowledgeFiles(v) == files
  {
    JoinSplitRoundTrip(files, ',');
    EntriesOfTrimmed(files);
  }

  /** The default setting names the three exported documents. */
  lemma DefaultKnowledgeFilesAre(prompt: string)
    ensures KnowledgeFiles(DefaultValves(prompt)) == [DailyMetricsFile, WeeklySummaryFile, CurrentPlanFile]
  {
    var files := [DailyMetricsFile, WeeklySummaryFile, CurrentPlanFile];
    assert files[1..] == [WeeklySummaryFile, CurrentPlanFile];
    assert files[1..][1..] == [CurrentPlanFile];
    assert Join(files[1..][1..], ",") == CurrentPlanFile;
    assert Join(files[1..], ",") == WeeklySummaryFile + "," + CurrentPlanFile;
    assert Join(files, ",") == DailyMetricsFile + "," + (WeeklySummaryFile + "," + CurrentPlanFile);
    assert Join(files, ",") == DefaultKnowledgeFiles;
    KnowledgeFilesRoundTrip(DefaultValves(prompt), files);
  }

  /** Fetches each file in turn, threading the cache through. */
  function FetchAll(v: Valves, cache: Cache, env: Env, files: seq<string>): (r: (seq<string>, Cache))
    ensures |r.0| == |files|
    ensures cache.Keys <= r.1.Keys
    decreases |files|
  {
    if files == [] then ([], cache)
    else
      var first := FetchGithubFile(v, cache, env, files[0]);
      var rest := FetchAll(v, first.cache, env, files[1..]);
      ([first.content] + rest.0, rest.1)
  }

  /** `_build_context`: one part per configured file, in order, joined with
      the separator. */
  function BuildContext(v: Valves, cache: Cache, env: Env): (r: Served)
    ensures cache.Keys <= r.cache.Keys
  {
    var fetched := FetchAll(v, cache, env, KnowledgeFiles(v));
    Served(Join(fetched.0, ContextSeparator), fetched.1)
  }

  /** A fresh entry stays fresh and unchanged through a run of fetches. */
  lemma {:induction false} FetchAllKeepsFresh(v: Valves, cache: Cache, env: Env, files: seq<string>, other: string)
    requires Fresh(v, cache, env.now, other)
    ensures var r := FetchAll(v, cache, env, files);
      Fresh(v, r.1, env.now, other) && r.1[other] == cache[other]
    decreases |files|
  {
    if files != [] {
      FetchKeepsFresh(v, cache, env, files[0], other);
      FetchAllKeepsFresh(v, FetchGithubFile(v, cache, env, files[0]).cache, env, files[1..], other);
    }
  }

  /** When every file is fresh, the parts are the cached contents, the cache
      is untouched and the network is never consulted. */
  lemma {:induction false} WarmFetchAll(v: Valves, cache: Cache, env1: Env, env2: Env, files: seq<string>)
    requires env1.now == env2.now
    requires forall i :: 0 <= i < |files| ==> Fresh(v, cache, env1.now, files[i])
    ensures FetchAll(v, cache, env1, files) == FetchAll(v, cache, env2, files)
    ensures FetchAll(v, cache, env1, files).1 == cache
    ensures forall i :: 0 <= i < |files| ==> files[i] in cache && FetchAll(v, cache, env1, files).0[i] == cache[files[i]].1
    decreases |files|
  {
    forall i | 0 <= i < |files|
      ensures files[i] in cache
    {
      assert Fresh(v, cache, env1.now, files[i]);
    }
    if files != [] {
      WarmFetchAll(v, cache, env1, env2, files[1..]);
    }
  }

  /** A warm cache makes the context independent of the network. */
  lemma WarmCacheIgnoresNetwork(v: Valves, cache: Cache, env1: Env, env2: Env)
    requires env1.now == env2.now
    requires forall f :: f in KnowledgeFiles(v) ==> Fresh(v, cache, env1.now, f)
    ensures BuildContext(v, cache, env1) == BuildContext(v, cache, env2)
    ensures BuildContext(v, cache, env1).cache == cache
  {
    WarmFetchAll(v, cache, env1, env2, KnowledgeFiles(v));
  }

  /** With a positive time-to-live and every stale file readable, a run of
      fetches leaves every file fresh, holding the part it returned. */
  lemma {:induction false} FetchAllWarms(v: Valves, cache: Cache, env: Env, files: seq<string>)
    requires v.cacheTtlSeconds > 0
    requires forall f :: f in files ==> Fresh(v, cache, env.now, f) || env.network(RequestFor(v, env, f)).Got?
    ensures var r := FetchAll(v, cache, env, files);
      forall i :: 0 <= i < |files| ==> Fresh(v, r.1, env.now, files[i]) && r.0[i] == r.1[files[i]].1
    decreases |files|
  {
    if files != [] {
      var first := FetchGithubFile(v, cache, env, files[0]);
      var r := FetchAll(v, cache, env, files);
      assert files[0] in files;
      assert Fresh(v, first.cache, env.now, files[0]) && first.content == first.cache[files[0]].1;
      forall f | f in files[1..]
        ensures Fresh(v, first.cache, env.now, f) || env.network(RequestFor(v, env, f)).Got?
      {
        assert f in files;
        if Fresh(v, cache, env.now, f) {
          FetchKeepsFresh(v, cache, env, files[0], f);
        }
      }
      FetchAllWarms(v, first.cache, env, files[1..]);
      FetchAllKeepsFresh(v, first.cache, env, files[1..], files[0]);
      forall i | 0 <= i < |files|
        ensures Fresh(v, r.1, env.now, files[i]) && r.0[i] == r.1[files[i]].1
      {
        if i > 0 {
          assert files[i] == files[1..][i - 1];
        }
      }
    }
  }

  /** With a positive time-to-live and every stale file readable, building
      the context again at the same moment is served entirely from the
      cache and gives the same text, whatever the network does then. */
  lemma RebuildServedFromCache(v: Valves, cache: Cache, env1: Env, env2: Env)
    requires v.cacheTtlSeconds > 0 && env1.now == env2.now
    requires forall f :: f in KnowledgeFiles(v) ==> Fresh(v, cache, env1.now, f) || env1.network(RequestFor(v, env1, f)).Got?
    ensures var first := BuildContext(v, cache, env1);
      BuildContext(v, first.cache, env2) == first
  {
    var files := KnowledgeFiles(v);
    var r := FetchAll(v, cache, env1, files);
    FetchAllWarms(v, cache, env1, files);
    forall f | f in files
      ensures Fresh(v, r.1, env2.now, f)
    {
      var i :| 0 <= i < |files| && files[i] == f;
    }
    WarmFetchAll(v, r.1, env2, env2, files);
    var again := FetchAll(v, r.1, env2, files);
    assert again.0 == r.0;
  }

  // ---------------------------------------------------------------------
  // The inlet
  // ---------------------------------------------------------------------

  /** A chat message; `role` is absent when the message carries none. */
  datatype Message = Message(role: Option<string>, content: string)

  const ContextPreamble := "以下是学员最新的 COROS 训练数据，请基于这些数据回答问题：\n\n"

  function PromptMessage(v: Valves): Message {
    Message(Some("system"), v.systemPrompt)
  }

  function ContextMessage(context: string): Message {
    Message(Some("system"), ContextPreamble + context)
  }

  predicate HasRole(ms: seq<Message>, role: string) {
    exists i :: 0 <= i < |ms| && ms[i].role == Some(role)
  }

  /** How many messages carry `role`. */
  function CountRole(ms: seq<Message>, role: string): (n: nat)
    ensures n <= |ms|
  {
    if ms == [] then 0
    else (if ms[0].role == Some(role) then 1 else 0) + CountRole(ms[1..], role)
  }

  /** The count is positive exactly when some message carries the role. */
  lemma {:induction false} CountRoleHasRole(ms: seq<Message>, role: string)
    ensures CountRole(ms, role) > 0 <==> HasRole(ms, role)
    decreases |ms|
  {
    if ms != [] {
      CountRoleHasRole(ms[1..], role);
      if HasRole(ms, role) && ms[0].role != Some(role) {
        var k :| 0 <= k < |ms| && ms[k].role == Some(role);
        assert ms[1..][k - 1] == ms[k];
      }
      if HasRole(ms[1..], role) {
        var k :| 0 <= k < |ms[1..]| && ms[1..][k].role == Some(role);
        assert ms[k + 1] == ms[1..][k];
      }
    }
  }

  lemma {:induction false} CountRoleConcat(a: seq<Message>, b: seq<Message>, role: string)
    ensures CountRole(a + b, role) == CountRole(a, role) + CountRole(b, role)
  {
    if a == [] {
      assert a + b == b;
    } else {
      assert (a + b)[0] == a[0];
      assert (a + b)[1..] == a[1..] + b;
      CountRoleConcat(a[1..], b, role);
    }
  }

  /** Inserting one message changes only the count of its own role. */
  lemma CountRoleInsert(ms: seq<Message>, i: nat, m: Message, role: string)
    requires i <= |ms|
    ensures CountRole(ms[..i] + [m] + ms[i..], role) == CountRole(ms, role) + (if m.role == Some(role) then 1 else 0)
  {
    var a, b := ms[..i], ms[i..];
    assert a + b == ms;
    assert CountRole(a + [m] + b, role) == CountRole(a + [m], role) + CountRole(b, role) by {
      CountRoleConcat(a + [m], b, role);
    }
    assert CountRole(a + [m], role) == CountRole(a, role) + CountRole([m], role) by {
      CountRoleConcat(a, [m], role);
    }
    assert CountRole([m], role) == (if m.role == Some(role) then 1 else 0) by {
      assert [m][1..] == [];
    }
    CountRoleConcat(a, b, role);
  }

  /** Where the first message with `role` stands. */
  function FirstWithRole(ms: seq<Message>, role: string): (i: nat)
    requires HasRole(ms, role)
    ensures i < |ms| && ms[i].role == Some(role)
    ensures forall j :: 0 <= j < i ==> ms[j].role != Some(role)
  {
    if ms[0].role == Some(role) then 0
    else
      assert HasRole(ms[1..], role) by {
        var k :| 0 <= k < |ms| && ms[k].role == Some(role);
        assert ms[1..][k - 1] == ms[k];
      }
      1 + FirstWithRole(ms[1..], role)
  }

  /** Inserting a message anywhere keeps every subsequence. */
  lemma {:induction false} InsertKeepsSubsequence(a: seq<Message>, b: seq<Message>, i: nat, m: Message)
    requires i <= |b| && Sorting.IsSubsequence(a, b)
    ensures Sorting.IsSubsequence(a, b[..i] + [m] + b[i..])
    decreases |b|
  {
    var c := b[..i] + [m] + b[i..];
    if a == [] {
    } else if i == 0 {
      assert c[1..] == b;
    } else {
      assert c[0] == b[0];
      assert c[1..] == b[1..][..i - 1] + [m] + b[1..][i - 1..];
      if a[0] == b[0] && Sorting.IsSubsequence(a[1..], b[1..]) {
        InsertKeepsSubsequence(a[1..], b[1..], i - 1, m);
      } else {
        InsertKeepsSubsequence(a, b[1..], i - 1, m);
      }
    }
  }

  /** The messages after the inlet, and the cache after it. */
  datatype Inlet = Inlet(messages: seq<Message>, cache: Cache)

  /** `inlet`: a missing message list counts as empty; the coaching prompt is
      put first when no message is a system message; when exactly one
      message is from the user, the context is inserted before it. Every
      original message keeps its place in the order, the user messages stay
      as many as they were, and the list grows by at most two. */
  function InletFilter(v: Valves, cache: Cache, env: Env, body: Option<seq<Message>>): (r: Inlet)
    ensures var ms := body.GetOr([]);
      && Sorting.IsSubsequence(ms, r.messages)
      && |r.messages| == |ms| + (if HasRole(ms, "system") then 0 else 1) + (if CountRole(ms, "user") == 1 then 1 else 0)
      && HasRole(r.messages, "system")
      && CountRole(r.messages, "user") == CountRole(ms, "user")
      && (!HasRole(ms, "system") ==> r.messages[0] == PromptMessage(v))
    ensures CountRole(body.GetOr([]), "user") != 1 ==> r == Inlet(WithPrompt(v, body.GetOr([])), cache)
    ensures CountRole(body.GetOr([]), "user") == 1 ==>
      var built := BuildContext(v, cache, env);
      r == Inlet(InsertContext(WithPrompt(v, body.GetOr([])), ContextMessage(built.content)), built.cache)
  {
    var ms := body.GetOr([]);
    var wp := WithPrompt(v, ms);
    if CountRole(wp, "user") == 1 then
      var built := BuildContext(v, cache, env);
      ContextFacts(ms, wp, ContextMessage(built.content));
      Inlet(InsertContext(wp, ContextMessage(built.content)), built.cache)
    else
      Inlet(wp, cache)
  }

  /** The list with the coaching prompt put first when it has no system
      message: the original messages in order, a system message present,
      the user messages untouched. */
  function WithPrompt(v: Valves, ms: seq<Message>): (wp: seq<Message>)
    ensures Sorting.IsSubsequence(ms, wp)
    ensures |wp| == |ms| + (if HasRole(ms, "system") then 0 else 1)
    ensures HasRole(wp, "system")
    ensures CountRole(wp, "user") == CountRole(ms, "user")
    ensures !HasRole(ms, "system") ==> wp[0] == PromptMessage(v)
  {
    Sorting.SubsequenceOfItself(ms);
    if HasRole(ms, "system") then ms
    else
      var wp := [PromptMessage(v)] + ms;
      InsertKeepsSubsequence(ms, ms, 0, PromptMessage(v));
      CountRoleInsert(ms, 0, PromptMessage(v), "user");
      assert ms[..0] + [PromptMessage(v)] + ms[0..] == wp;
      assert wp[0].role == Some("system");
      wp
  }

  /** `m` inserted where the first user message stands; a list without a
      user message is left as it is. */
  function InsertContext(ms: seq<Message>, m: Message): seq<Message>
  {
    if HasRole(ms, "user") then
      var i := FirstWithRole(ms, "user");
      ms[..i] + [m] + ms[i..]
    else ms
  }

  lemma ContextFacts(ms: seq<Message>, wp: seq<Message>, m: Message)
    requires Sorting.IsSubsequence(ms, wp) && HasRole(wp, "system") && CountRole(wp, "user") == 1
    requires m.role == Some("system")
    ensures var out := InsertContext(wp, m);
      && Sorting.IsSubsequence(ms, out)
      && |out| == |wp| + 1
      && HasRole(out, "system")
      && CountRole(out, "user") == 1
  {
    CountRoleHasRole(wp, "user");
    var i := FirstWithRole(wp, "user");
    var out := wp[..i] + [m] + wp[i..];
    InsertKeepsSubsequence(ms, wp, i, m);
    CountRoleInsert(wp, i, m, "user");
    assert out[i].role == Some("system");
  }

  /** On the first user turn the context message sits immediately before
      the first user message, and taking it out gives back the list with
      the prompt. */
  lemma ContextBeforeFirstUser(v: Valves, cache: Cache, env: Env, body: Option<seq<Message>>)
    requires CountRole(body.GetOr([]), "user") == 1
    ensures var r := InletFilter(v, cache, env, body);
      && HasRole(r.messages, "user")
      && (var u := FirstWithRole(r.messages, "user");
          && u >= 1
          && r.messages[u - 1] == ContextMessage(BuildContext(v, cache, env).content)
          && r.messages[..u - 1] + r.messages[u..] == WithPrompt(v, body.GetOr([])))
      && r.cache == BuildContext(v, cache, env).cache
  {
    var wp := WithPrompt(v, body.GetOr([]));
    var built := BuildContext(v, cache, env);
    var m := ContextMessage(built.content);
    assert InletFilter(v, cache, env, body) == Inlet(InsertContext(wp, m), built.cache);
    CountRoleHasRole(wp, "user");
    InsertBeforeFirstUser(wp, m);
  }

  /** Where the inserted message lands: right before the first user
      message, which it pushes one place on. */
  lemma InsertBeforeFirstUser(wp: seq<Message>, m: Message)
    requires HasRole(wp, "user") && m.role == Some("system")
    ensures var out := InsertContext(wp, m);
      && HasRole(out, "user")
      && (var u := FirstWithRole(out, "user");
          && u >= 1
          && out[u - 1] == m
          && out[..u - 1] + out[u..] == wp)
  {
    var i := FirstWithRole(wp, "user");
    var out := wp[..i] + [m] + wp[i..];
    assert InsertContext(wp, m) == out;
    FirstUserAfterInsert(wp, i, m);
    SpliceOut(wp, i, m);
  }

  /** Taking an inserted message back out restores the list. */
  lemma SpliceOut(ms: seq<Message>, i: nat, m: Message)
    requires i <= |ms|
    ensures var out := ms[..i] + [m] + ms[i..];
      out[i] == m && out[..i] + out[i + 1..] == ms
  {
    var out := ms[..i] + [m] + ms[i..];
    assert out[..i] == ms[..i];
    assert out[i + 1..] == ms[i..];
  }

  /** Inserting a system message right before the first user message moves
      that first user message one place on. */
  lemma FirstUserAfterInsert(ms: seq<Message>, i: nat, m: Message)
    requires HasRole(ms, "user") && i == FirstWithRole(ms, "user") && m.role == Some("system")
    ensures HasRole(ms[..i] + [m] + ms[i..], "user")
    ensures FirstWithRole(ms[..i] + [m] + ms[i..], "user") == i + 1
  {
    var out := ms[..i] + [m] + ms[i..];
    assert out[i + 1] == ms[i];
    forall k | 0 <= k < i + 1
      ensures out[k].role != Some("user")
    {
      if k < i {
        assert out[k] == ms[k];
      }
    }
  }

  /** On later turns (a system message present and more than one user
      message, or none) the inlet changes nothing and fetches nothing. */
  lemma LaterTurnsUntouched(v: Valves, cache: Cache, env: Env, ms: seq<Message>)
    requires HasRole(ms, "system") && CountRole(ms, "user") != 1
    ensures InletFilter(v, cache, env, Some(ms)) == Inlet(ms, cache)
  {
  }

  /** Outside the first user turn the inlet is idempotent: its output passes
      through it unchanged. */
  lemma InletSettles(v: Valves, cache: Cache, env: Env, body: Option<seq<Message>>)
    requires CountRole(body.GetOr([]), "user") != 1
    ensures var r := InletFilter(v, cache, env, body);
      InletFilter(v, r.cache, env, Some(r.messages)) == r
  {
    var r := InletFilter(v, cache, env, body);
    LaterTurnsUntouched(v, r.cache, env, r.messages);
  }
}
