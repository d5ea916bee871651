/**
 * Composer task commands: the web app builds an upstream path (`core-request.ts`), the URL parser
 * normalises it, and Core recovers the ids from the pathname
 * (`composer-plan-route-registrar.ts`).
 */
module TaskRoute {
  import opened Options
  import opened PercentEncoding

  datatype Command = Answer | Cancel | Revise | Start

  function CommandName(c: Command): string {
    match c
    case Answer => "answer"
    case Cancel => "cancel"
    case Revise => "revise"
    case Start => "start"
  }

  // ----- the builders of the web app

  /** `workspaceComposerTask{Start,Revise,Answer,Cancel}Resource` */
  function TaskResource(task: string, c: Command): string {
    "p1/composer/tasks/" + Encode(task) + "/" + CommandName(c)
  }

  /** `workspaceCoreUpstreamPath`; `search` is the query of the request's own URL. */
  function UpstreamPath(workspace: string, resource: string, search: string): string {
    "/v1/workspaces/" + Encode(workspace) + "/" + resource + search
  }

  /** `URL.search` is empty or starts with a question mark. */
  predicate IsSearch(s: string) { s == "" || s[0] == '?' }

  // ----- path segments

  function Split(s: string): (r: seq<string>)
    ensures r != []
  {
    if s == "" then [""]
    else if s[0] == '/' then [""] + Split(s[1..])
    else var r := Split(s[1..]); [[s[0]] + r[0]] + r[1..]
  }

  function Join(segments: seq<string>): string
    requires segments != []
  {
    if |segments| == 1 then segments[0] else segments[0] + "/" + Join(segments[1..])
  }

  predicate IsSegment(s: string) { '/' !in s }

  predicate AreSegments(segments: seq<string>) {
    forall i :: 0 <= i < |segments| ==> IsSegment(segments[i])
  }

  lemma {:induction false} SplitHead(s: string, rest: string)
    requires IsSegment(s)
    ensures Split(s) == [s]
    ensures Split(s + "/" + rest) == [s] + Split(rest)
  {
    var all := s + "/" + rest;
    if s == "" {
      assert all[1..] == rest;
    } else {
      SplitHead(s[1..], rest);
      assert all[1..] == s[1..] + "/" + rest;
      assert [s[0]] + s[1..] == s;
    }
  }

  lemma {:induction false} SplitUndoesJoin(segments: seq<string>)
    requires segments != [] && AreSegments(segments)
    ensures Split(Join(segments)) == segments
  {
    if |segments| == 1 {
      SplitHead(segments[0], "");
    } else {
      SplitUndoesJoin(segments[1..]);
      SplitHead(segments[0], Join(segments[1..]));
    }
  }

  lemma {:induction false} JoinUndoesSplit(s: string)
    ensures Join(Split(s)) == s && AreSegments(Split(s))
  {
    if s != "" {
      var r := Split(s[1..]);
      JoinUndoesSplit(s[1..]);
      if s[0] == '/' {
        assert Split(s)[1..] == r;
      } else {
        assert Split(s)[1..] == r[1..];
        assert IsSegment(r[0]);
      }
      assert [s[0]] + s[1..] == s;
    }
  }

  // ----- the pathname of a parsed URL

  predicate IsSingleDot(s: string) { s == "." || s == "%2e" || s == "%2E" }

  predicate IsDoubleDot(s: string) {
    || s == ".."
    || s == ".%2e" || s == ".%2E" || s == "%2e." || s == "%2E."
    || s == "%2e%2e" || s == "%2e%2E" || s == "%2E%2e" || s == "%2E%2E"
  }

  predicate IsDot(s: string) { IsSingleDot(s) || IsDoubleDot(s) }

  /** The path state of the WHATWG URL parser: dot segments are resolved as they are met. */
  function Resolve(path: seq<string>, rest: seq<string>): seq<string>
    decreases |rest|
  {
    if rest == [] then path
    else
      var kept := if IsDoubleDot(rest[0]) && path != [] then path[..|path| - 1] else path;
      var added := if !IsDot(rest[0]) then [rest[0]] else if |rest| == 1 then [""] else [];
      Resolve(kept + added, rest[1..])
  }

  /** The text up to the query or the fragment. */
  function BeforeQuery(s: string): string {
    if s == "" || s[0] in "?#" then "" else [s[0]] + BeforeQuery(s[1..])
  }

  /** `new URL(target, base).pathname` for an origin-form request target */
  function Pathname(target: string): string {
    var path := BeforeQuery(target);
    if path == "" then "/" else
      var segments := Resolve([], Split(path[1..]));
      if segments == [] then "/" else "/" + Join(segments)
  }

  // ----- Core's parser

  datatype TaskAddress = TaskAddress(workspace: string, task: string)

  /** The shape `^/v1/workspaces/([^/]+)/p1/composer/tasks/([^/]+)/command$` */
  predicate Matches(pathname: string, c: Command, w: string, t: string) {
    && w != "" && t != "" && IsSegment(w) && IsSegment(t)
    && pathname == "/v1/workspaces/" + w + "/p1/composer/tasks/" + t + "/" +
         match c case Answer => "answer" case Cancel => "cancel" case Revise => "revise" case Start => "start"
  }

  function RouteSegments(w: string, t: string, c: Command): seq<string> {
    ["v1", "workspaces", w, "p1", "composer", "tasks", t, CommandName(c)]
  }

  /** `taskRoute`: match, then decode both ids; a malformed escape is no route. */
  function TaskRoute(pathname: string, c: Command): Option<TaskAddress> {
    var s := Split(pathname);
    if |s| == 9 && s == [""] + RouteSegments(s[3], s[7], c) && s[3] != "" && s[7] != "" then
      match (Decode(s[3]), Decode(s[7]))
      case (Some(w), Some(t)) => Some(TaskAddress(w, t))
      case _ => None
    else None
  }

  /** Matching by segments is matching the pattern. */
  lemma TaskRouteReadsThePattern(pathname: string, c: Command, a: TaskAddress)
    ensures TaskRoute(pathname, c) == Some(a)
       <==> exists w, t :: Matches(pathname, c, w, t) && Decode(w) == Some(a.workspace) && Decode(t) == Some(a.task)
  {
    hide Decode;
    if TaskRoute(pathname, c) == Some(a) {
      var s := Split(pathname);
      JoinUndoesSplit(pathname);
      assert IsSegment(s[3]) && IsSegment(s[7]);
      RouteText(s[3], s[7], c);
      assert Matches(pathname, c, s[3], s[7]);
    }
    if w, t :| Matches(pathname, c, w, t) && Decode(w) == Some(a.workspace) && Decode(t) == Some(a.task) {
      MatchSplits(pathname, c, w, t);
    }
  }

  lemma JoinStep(first: string, rest: seq<string>)
    requires rest != []
    ensures Join([first] + rest) == first + "/" + Join(rest)
  {
    assert ([first] + rest)[1..] == rest;
  }

  lemma JoinThree(a: string, b: string, c: string, rest: seq<string>)
    requires rest != []
    ensures Join([a, b, c] + rest) == (a + "/" + b + "/") + c + "/" + Join(rest)
  {
    hide Join;
    JoinStep(c, rest);
    JoinStep(b, [c] + rest);
    JoinStep(a, [b] + ([c] + rest));
    assert [a, b, c] + rest == [a] + ([b] + ([c] + rest));
  }

  lemma JoinPair(a: string, b: string)
    ensures Join([a, b]) == a + "/" + b
  {
  }

  lemma FixedParts()
    ensures "v1" + "/" + "workspaces" + "/" == "v1/workspaces/"
    ensures "p1" + "/" + "composer" + "/" == "p1/composer/"
  {
  }

  lemma RouteTail(t: string, end: string)
    ensures Join(["p1", "composer", "tasks", t, end]) == "p1/composer/tasks/" + t + "/" + end
  {
    hide Join;
    FixedParts();
    JoinPair(t, end);
    JoinThree("p1", "composer", "tasks", [t, end]);
    assert ["p1", "composer", "tasks"] + [t, end] == ["p1", "composer", "tasks", t, end];
    assert "p1/composer/" + "tasks" + "/" == "p1/composer/tasks/";
    Regroup("p1/composer/tasks/", t, "/", end, "");
  }

  lemma RouteText(w: string, t: string, c: Command)
    ensures "/" + Join(RouteSegments(w, t, c)) == "/v1/workspaces/" + w + "/p1/composer/tasks/" + t + "/" + CommandName(c)
    ensures Join([""] + RouteSegments(w, t, c)) == "/" + Join(RouteSegments(w, t, c))
  {
    hide CommandName, Join;
    var end := CommandName(c);
    var last := ["p1", "composer", "tasks", t, end];
    FixedParts();
    RouteTail(t, end);
    JoinThree("v1", "workspaces", w, last);
    assert ["v1", "workspaces", w] + last == RouteSegments(w, t, c);
    JoinStep("", RouteSegments(w, t, c));
    RouteConcat(w, t, end);
  }

  lemma RouteConcat(w: string, t: string, end: string)
    ensures "/" + ("v1/workspaces/" + w + "/" + ("p1/composer/tasks/" + t + "/" + end))
         == "/v1/workspaces/" + w + "/p1/composer/tasks/" + t + "/" + end
  {
    Regroup("/v1/workspaces/" + w, "/p1/composer/tasks/", t, "/", end);
    Regroup("p1/composer/tasks/", t, "/", end, "");
    var tail := t + ("/" + end);
    assert "/" + "v1/workspaces/" == "/v1/workspaces/";
    assert "/" + ("p1/composer/tasks/" + tail) == "/p1/composer/tasks/" + tail;
  }

  lemma CommandNamesAreSegments(c: Command)
    ensures IsSegment(CommandName(c)) && !IsDot(CommandName(c))
    ensures forall i :: 0 <= i < |CommandName(c)| ==> CommandName(c)[i] !in "?#"
  {
  }

  lemma CommandNamesDiffer(c: Command, d: Command)
    requires CommandName(c) == CommandName(d)
    ensures c == d
  {
    assert CommandName(c)[0] == CommandName(d)[0];
  }

  lemma RouteSegmentsAreSegments(w: string, t: string, c: Command)
    requires IsSegment(w) && IsSegment(t)
    ensures AreSegments([""] + RouteSegments(w, t, c)) && AreSegments(RouteSegments(w, t, c))
  {
    CommandNamesAreSegments(c);
  }

  lemma MatchSplits(pathname: string, c: Command, w: string, t: string)
    requires Matches(pathname, c, w, t)
    ensures Split(pathname) == [""] + RouteSegments(w, t, c)
  {
    RouteText(w, t, c);
    RouteSegmentsAreSegments(w, t, c);
    SplitUndoesJoin([""] + RouteSegments(w, t, c));
  }

  // ----- dot segments

  lemma {:induction false} ResolvePlain(path: seq<string>, rest: seq<string>)
    requires forall i :: 0 <= i < |rest| ==> !IsDot(rest[i])
    ensures Resolve(path, rest) == path + rest
    decreases |rest|
  {
    if rest != [] {
      ResolvePlain(path + [rest[0]], rest[1..]);
    }
  }

  /** A dot segment before the last one leaves fewer segments; slashes never appear. */
  lemma {:induction false} ResolveShortens(path: seq<string>, rest: seq<string>)
    requires AreSegments(path) && AreSegments(rest)
    ensures AreSegments(Resolve(path, rest)) && |Resolve(path, rest)| <= |path| + |rest|
    ensures rest != [] ==> Resolve(path, rest) != []
    ensures (exists i :: 0 <= i < |rest| - 1 && IsDot(rest[i])) ==> |Resolve(path, rest)| < |path| + |rest|
    decreases |rest|
  {
    hide IsSingleDot, IsDoubleDot, IsSegment;
    if rest != [] {
      var kept := if IsDoubleDot(rest[0]) && path != [] then path[..|path| - 1] else path;
      var added := if !IsDot(rest[0]) then [rest[0]] else if |rest| == 1 then [""] else [];
      assert IsSegment("") by { NothingIsASegment(); }
      ResolveShortens(kept + added, rest[1..]);
      if i :| 0 <= i < |rest| - 1 && IsDot(rest[i]) {
        if i > 0 {
          assert rest[1..][i - 1] == rest[i];
        }
      }
    }
  }

  lemma NothingIsASegment()
    ensures IsSegment("")
  {
  }

  lemma DotsDecode(s: string)
    ensures IsSingleDot(s) ==> Decode(s) == Some(".")
    ensures IsDoubleDot(s) ==> Decode(s) == Some("..")
  {
    DecodeDot(s);
    if IsDoubleDot(s) {
      var cut := if s[0] == '.' then 1 else 3;
      DecodeDot(s[cut..]);
      assert IsSingleDot(s[..cut]) && IsSingleDot(s[cut..]);
      DecodeFirstDot(s, cut);
      assert ['.'] + "." == "..";
    }
  }

  lemma DecodeDot(s: string)
    ensures IsSingleDot(s) ==> Decode(s) == Some(".")
  {
    if IsSingleDot(s) {
      DecodeNothing();
      assert s[..|s|] == s && s[|s|..] == "";
      DecodeFirstDot(s, |s|);
      assert ['.'] + "" == ".";
    }
  }

  lemma DecodeFirstDot(s: string, cut: nat)
    requires 0 < cut <= |s| && IsSingleDot(s[..cut])
    ensures Decode(s) == Prepend('.', Decode(s[cut..]))
  {
    assert s[0] == s[..cut][0];
    if cut == 3 {
      assert s[1] == s[..cut][1] && s[2] == s[..cut][2];
      assert HexValue('2') == Some(2) && HexValue('e') == Some(14) && HexValue('E') == Some(14);
      assert ReadByte(s) == Some(46);
    }
  }

  /** Ids that survive as one path segment. */
  predicate IsRoutable(id: string) { id != "" && id != "." && id != ".." }

  lemma EncodedIdIsDotIff(id: string)
    ensures IsSingleDot(Encode(id)) <==> id == "."
    ensures IsDoubleDot(Encode(id)) <==> id == ".."
  {
    DecodeUndoesEncode(id);
    DotsDecode(Encode(id));
    if id == "." || id == ".." {
      EncodeDots();
    }
  }

  lemma EncodeDots()
    ensures Encode(".") == "." && Encode("..") == ".."
  {
    assert Encode("") == "";
    assert "."[1..] == "" && ".."[1..] == ".";
  }

  // ----- the round trip

  lemma {:induction false} BeforeQueryStops(s: string, search: string)
    requires forall i :: 0 <= i < |s| ==> s[i] !in "?#"
    requires IsSearch(search)
    ensures BeforeQuery(s + search) == s
  {
    if s == "" {
      assert s + search == search;
    } else {
      assert (s + search)[1..] == s[1..] + search;
      BeforeQueryStops(s[1..], search);
    }
  }

  lemma SafeTextIsPlain(s: string)
    requires IsSafe(s)
    ensures IsSegment(s) && forall i :: 0 <= i < |s| ==> s[i] !in "?#"
  {
  }

  lemma NameOfCommand(c: Command)
    ensures CommandName(c) == match c case Answer => "answer" case Cancel => "cancel" case Revise => "revise" case Start => "start"
  {
  }

  lemma UpstreamConcat(w: string, t: string, end: string, search: string)
    ensures "/v1/workspaces/" + w + "/" + ("p1/composer/tasks/" + t + "/" + end) + search
         == "/v1/workspaces/" + w + "/p1/composer/tasks/" + t + "/" + end + search
  {
    SlashMoves("/v1/workspaces/" + w, t, end, search);
  }

  lemma SlashMoves(head: string, t: string, end: string, search: string)
    ensures head + "/" + ("p1/composer/tasks/" + t + "/" + end) + search == head + "/p1/composer/tasks/" + t + "/" + end + search
  {
    var tail := t + "/" + end;
    assert "p1/composer/tasks/" + t + "/" + end == "p1/composer/tasks/" + tail;
    assert head + "/" + ("p1/composer/tasks/" + tail) == head + "/p1/composer/tasks/" + tail;
    assert head + "/p1/composer/tasks/" + t + "/" + end == head + "/p1/composer/tasks/" + tail;
  }

  /** The builders write one text, word by word, and it is the text of the eight segments. */
  lemma UpstreamText(ws: string, task: string, c: Command, search: string)
    ensures UpstreamPath(ws, TaskResource(task, c), search)
         == "/v1/workspaces/" + Encode(ws) + "/p1/composer/tasks/" + Encode(task) + "/"
            + (match c case Answer => "answer" case Cancel => "cancel" case Revise => "revise" case Start => "start")
            + search
    ensures UpstreamPath(ws, TaskResource(task, c), search)
         == "/" + Join(RouteSegments(Encode(ws), Encode(task), c)) + search
  {
    hide Encode, CommandName, Join;
    NameOfCommand(c);
    RouteText(Encode(ws), Encode(task), c);
    UpstreamConcat(Encode(ws), Encode(task), CommandName(c), search);
  }

  lemma RouteTextHasNoQuery(w: string, t: string, c: Command)
    requires IsSafe(w) && IsSafe(t)
    ensures forall i :: 0 <= i < |Join(RouteSegments(w, t, c))| ==> Join(RouteSegments(w, t, c))[i] !in "?#"
  {
    hide IsSafe, CommandName, Join;
    RouteText(w, t, c);
    SafeTextIsPlain(w);
    SafeTextIsPlain(t);
    CommandNamesAreSegments(c);
    var text := "/v1/workspaces/" + w + "/p1/composer/tasks/" + t + "/" + CommandName(c);
    assert forall i :: 0 <= i < |text| ==> text[i] !in "?#";
    assert ("/" + Join(RouteSegments(w, t, c)))[1..] == Join(RouteSegments(w, t, c));
  }

  lemma UpstreamPathname(ws: string, task: string, c: Command, search: string)
    requires IsSearch(search)
    ensures Resolve([], RouteSegments(Encode(ws), Encode(task), c)) != []
    ensures Pathname(UpstreamPath(ws, TaskResource(task, c), search))
         == "/" + Join(Resolve([], RouteSegments(Encode(ws), Encode(task), c)))
  {
    hide Encode, CommandName, Join, Resolve, IsSafe, Split, UpstreamPath, BeforeQuery, IsSegment, RouteSegments, AreSegments;
    var s := RouteSegments(Encode(ws), Encode(task), c);
    EncodedIsSafe(ws);
    EncodedIsSafe(task);
    SafeTextIsPlain(Encode(ws));
    SafeTextIsPlain(Encode(task));
    RouteSegmentsAreSegments(Encode(ws), Encode(task), c);
    RouteSegmentsAreMany(Encode(ws), Encode(task), c);
    UpstreamText(ws, task, c, search);
    RouteTextHasNoQuery(Encode(ws), Encode(task), c);
    BeforeQueryStops("/" + Join(s), search);
    assert ("/" + Join(s))[1..] == Join(s);
    SplitUndoesJoin(s);
    NoSegments();
    ResolveShortens([], s);
  }

  lemma NoSegments()
    ensures AreSegments([])
  {
  }

  lemma RouteSegmentsAreMany(w: string, t: string, c: Command)
    ensures |RouteSegments(w, t, c)| == 8
    ensures RouteSegments(w, t, c)[2] == w && RouteSegments(w, t, c)[6] == t && RouteSegments(w, t, c)[7] == CommandName(c)
  {
  }

  lemma SplitAbsolute(segments: seq<string>)
    requires segments != [] && AreSegments(segments)
    ensures Split("/" + Join(segments)) == [""] + segments
  {
    SplitUndoesJoin(segments);
    SplitHead("", Join(segments));
    assert "/" + Join(segments) == "" + "/" + Join(segments);
  }

  lemma RouteSegmentsResolve(w: string, t: string, c: Command)
    requires IsSegment(w) && IsSegment(t)
    ensures AreSegments(Resolve([], RouteSegments(w, t, c)))
    ensures IsDot(w) || IsDot(t) ==> |Resolve([], RouteSegments(w, t, c))| < 8
    ensures !IsDot(w) && !IsDot(t) ==> Resolve([], RouteSegments(w, t, c)) == RouteSegments(w, t, c)
  {
    hide IsDot, IsSegment, CommandName, Resolve;
    var s := RouteSegments(w, t, c);
    RouteSegmentsAreSegments(w, t, c);
    ResolveShortens([], s);
    assert s[2] == w && s[6] == t;
    if !IsDot(w) && !IsDot(t) {
      CommandNamesAreSegments(c);
      FixedSegmentsAreNoDots();
      ResolvePlain([], s);
    }
  }

  lemma FixedSegmentsAreNoDots()
    ensures !IsDot("v1") && !IsDot("workspaces") && !IsDot("p1") && !IsDot("composer") && !IsDot("tasks")
  {
  }

  lemma RouteOfSegments(pathname: string, w: string, t: string, built: Command, asked: Command)
    requires Split(pathname) == [""] + RouteSegments(w, t, built)
    requires Decode(w).Some? && Decode(t).Some?
    ensures TaskRoute(pathname, asked)
         == if built == asked && w != "" && t != "" then Some(TaskAddress(Decode(w).value, Decode(t).value)) else None
  {
    hide CommandName, Split, Decode;
    var s := Split(pathname);
    assert s[3] == w && s[7] == t && s[8] == CommandName(built);
    if CommandName(built) == CommandName(asked) {
      CommandNamesDiffer(built, asked);
    }
  }

  /**
   * Core recovers exactly the two ids, through percent-encoding, URL normalisation and any query,
   * when asked for the same command and both ids are non-empty and not dot segments. In every
   * other case it finds no route.
   */
  lemma CoreRecoversTheIds(ws: string, task: string, built: Command, asked: Command, search: string)
    requires IsSearch(search)
    ensures TaskRoute(Pathname(UpstreamPath(ws, TaskResource(task, built), search)), asked)
         == if built == asked && IsRoutable(ws) && IsRoutable(task) then Some(TaskAddress(ws, task)) else None
  {
    hide Encode, Decode, CommandName, Join, Resolve, IsSafe, Split, UpstreamPath, Pathname, IsSegment, AreSegments, IsSingleDot, IsDoubleDot;
    var w, t := Encode(ws), Encode(task);
    var segments := Resolve([], RouteSegments(w, t, built));
    UpstreamPathname(ws, task, built, search);
    EncodedIsSafe(ws);
    EncodedIsSafe(task);
    SafeTextIsPlain(w);
    SafeTextIsPlain(t);
    RouteSegmentsResolve(w, t, built);
    SplitAbsolute(segments);
    EncodedIdIsDotIff(ws);
    EncodedIdIsDotIff(task);
    DecodeUndoesEncode(ws);
    DecodeUndoesEncode(task);
    if CommandName(built) == CommandName(asked) {
      CommandNamesDiffer(built, asked);
    }
    if !IsDot(w) && !IsDot(t) {
      RouteOfSegments(Pathname(UpstreamPath(ws, TaskResource(task, built), search)), w, t, built, asked);
    }
  }

  /** No pathname is a route of two commands. */
  lemma RoutesAreDisjoint(pathname: string, c: Command, d: Command)
    requires TaskRoute(pathname, c).Some? && TaskRoute(pathname, d).Some?
    ensures c == d
  {
    hide CommandName, Split, Decode;
    var s := Split(pathname);
    assert s[8] == CommandName(c) && s[8] == CommandName(d);
    CommandNamesDiffer(c, d);
  }
}
