/** The generated radix router of the analytics service, against the plain table of its operations. */
module Router {
  import opened Wrappers
  import opened Text
  import Names

  datatype Operation =
    | GetConsent | RecordConsent | RecordEvents
    | GetFunnelRollup | ComputeFunnelRollup
    | ApplyAnalyticsRetention | SummariseEvents
    | ListAnalyticsSubjects | ExportAnalyticsSubject | EraseAnalyticsSubject

  /** A path pattern: a literal path, or one parameter between two literal parts. */
  datatype Pattern = Literal(path: string) | Param(before: string, after: string)

  // ---- the table of operations ----

  function MethodOf(op: Operation): string {
    match op
    case GetConsent | GetFunnelRollup | SummariseEvents | ListAnalyticsSubjects | ExportAnalyticsSubject => "GET"
    case RecordConsent => "PUT"
    case RecordEvents | ComputeFunnelRollup | ApplyAnalyticsRetention | EraseAnalyticsSubject => "POST"
  }

  function PatternOf(op: Operation): Pattern {
    match op
    case GetConsent | RecordConsent => Literal("/analytics/consent")
    case RecordEvents => Literal("/analytics/events")
    case GetFunnelRollup | ComputeFunnelRollup => Param("/analytics/funnels/", "/rollup")
    case ApplyAnalyticsRetention => Literal("/analytics/retention")
    case SummariseEvents => Literal("/analytics/summary")
    case ListAnalyticsSubjects => Literal("/subject-data/analytics")
    case ExportAnalyticsSubject => Param("/subject-data/analytics/", "")
    case EraseAnalyticsSubject => Param("/subject-data/analytics/", "/erase")
  }

  /** A path matches with the arguments it captures; a parameter is a possibly empty slash-free segment. */
  predicate Matches(pattern: Pattern, path: string, args: seq<string>) {
    match pattern
    case Literal(p) => path == p && args == []
    case Param(before, after) => |args| == 1 && '/' !in args[0] && path == before + args[0] + after
  }

  datatype Route = Route(op: Operation, args: seq<string>)

  // ---- what a path resolves to ----

  /** The leaves of the tree, one for each distinct pattern. */
  datatype Leaf = Consent | Events | Funnel | Retention | Summary | Subjects | Subject | Erase

  datatype Hit = Hit(leaf: Leaf, args: seq<string>)

  function LeafOf(op: Operation): Leaf {
    match op
    case GetConsent | RecordConsent => Consent
    case RecordEvents => Events
    case GetFunnelRollup | ComputeFunnelRollup => Funnel
    case ApplyAnalyticsRetention => Retention
    case SummariseEvents => Summary
    case ListAnalyticsSubjects => Subjects
    case ExportAnalyticsSubject => Subject
    case EraseAnalyticsSubject => Erase
  }

  function OperationAt(leaf: Leaf, verb: string): Option<Operation> {
    match leaf
    case Consent => if verb == "GET" then Some(GetConsent) else if verb == "PUT" then Some(RecordConsent) else None
    case Events => if verb == "POST" then Some(RecordEvents) else None
    case Funnel => if verb == "GET" then Some(GetFunnelRollup) else if verb == "POST" then Some(ComputeFunnelRollup) else None
    case Retention => if verb == "POST" then Some(ApplyAnalyticsRetention) else None
    case Summary => if verb == "GET" then Some(SummariseEvents) else None
    case Subjects => if verb == "GET" then Some(ListAnalyticsSubjects) else None
    case Subject => if verb == "GET" then Some(ExportAnalyticsSubject) else None
    case Erase => if verb == "POST" then Some(EraseAnalyticsSubject) else None
  }

  lemma OperationAtIs(leaf: Leaf, verb: string, op: Operation)
    ensures OperationAt(leaf, verb) == Some(op) <==> LeafOf(op) == leaf && MethodOf(op) == verb
  {
    assert "GET"[0] == 'G' && "PUT"[1] == 'U' && "POST"[1] == 'O' && "PUT"[0] == 'P' && "POST"[0] == 'P';
  }

  function ResolveAnalytics(rest: string): Option<Hit> {
    if rest == "consent" then Some(Hit(Consent, []))
    else if rest == "events" then Some(Hit(Events, []))
    else if rest == "retention" then Some(Hit(Retention, []))
    else if rest == "summary" then Some(Hit(Summary, []))
    else if StartsWith(rest, "funnels/") then
      var tail := rest[8..];
      var cut := IndexIn(tail, '/');
      if tail[cut..] == "/rollup" then Some(Hit(Funnel, [tail[..cut]])) else None
    else None
  }

  function ResolveSubjects(rest: string): Option<Hit> {
    if rest == "" then Some(Hit(Subjects, []))
    else if StartsWith(rest, "/") then
      var tail := rest[1..];
      var cut := IndexIn(tail, '/');
      if tail[cut..] == "" then Some(Hit(Subject, [tail[..cut]]))
      else if tail[cut..] == "/erase" then Some(Hit(Erase, [tail[..cut]]))
      else None
    else None
  }

  function Resolve(path: string): Option<Hit> {
    if StartsWith(path, "/analytics/") then ResolveAnalytics(path[11..])
    else if StartsWith(path, "/subject-data/analytics") then ResolveSubjects(path[23..])
    else None
  }

  function AtHit(hit: Option<Hit>, verb: string): Option<Route> {
    match hit
    case None => None
    case Some(Hit(leaf, args)) =>
      match OperationAt(leaf, verb)
      case None => None
      case Some(op) => Some(Route(op, args))
  }

  function Find(verb: string, path: string): Option<Route> {
    AtHit(Resolve(path), verb)
  }

  /** What the server does with a request. */
  datatype Response = Handled(route: Route) | NotAllowed(allowed: string) | NotFound

  /** The verbs of a leaf, in the order the Allow header lists them. */
  function VerbsAt(leaf: Leaf): seq<string> {
    match leaf
    case Consent => ["GET", "PUT"]
    case Funnel => ["GET", "POST"]
    case Events | Retention | Erase => ["POST"]
    case Summary | Subjects | Subject => ["GET"]
  }

  function JoinComma(words: seq<string>): string {
    if |words| == 0 then "" else if |words| == 1 then words[0] else words[0] + "," + JoinComma(words[1..])
  }

  function Dispatch(hit: Option<Hit>, verb: string): Response {
    match hit
    case None => NotFound
    case Some(Hit(leaf, args)) =>
      match OperationAt(leaf, verb)
      case None => NotAllowed(JoinComma(VerbsAt(leaf)))
      case Some(op) => Handled(Route(op, args))
  }

  function CutPrefix(prefix: string, path: string): Option<string> {
    if StartsWith(path, prefix) then Some(path[|prefix|..]) else None
  }

  // ---- FindPath ----

  /** The walk of `FindPath`, which slices `elem` down as it descends. */
  method FindPath(prefix: string, verb: string, path: string) returns (r: Option<Route>)
    ensures r == FoundAt(prefix, verb, path) && IsFound(prefix, verb, path, r)
  {
    FoundByTable(prefix, verb, path);
    hide IsFound, AtHit, Resolve, ResolveAnalytics, ResolveSubjects;
    var cut := CutPrefix(prefix, path);
    if cut == None {
      return None;
    }
    var elem := cut.value;
    NotRouted(elem);
    FindNothing(verb);
    if |elem| > 0 && elem[0] == '/' {
      elem := elem[1..];
      if |elem| > 0 {
        if elem[0] == 'a' {
          if |elem| >= 10 && elem[..10] == "analytics/" {
            elem := elem[10..];
            r := FindInAnalytics(elem, verb);
            return;
          }
        } else if elem[0] == 's' {
          if |elem| >= 22 && elem[..22] == "subject-data/analytics" {
            elem := elem[22..];
            r := FindInSubjects(elem, verb);
            return;
          }
        }
      }
    }
    r := None;
  }

  lemma FindNothing(verb: string)
    ensures AtHit(None, verb) == None
  {
  }

  /** How a path splits at the first two nodes of the tree. */
  lemma NotRouted(path: string)
    ensures Resolve(path) ==
      if |path| > 0 && path[0] == '/' && StartsWith(path[1..], "analytics/") then ResolveAnalytics(path[1..][10..])
      else if |path| > 0 && path[0] == '/' && StartsWith(path[1..], "subject-data/analytics") then ResolveSubjects(path[1..][22..])
      else None
  {
    hide ResolveAnalytics, ResolveSubjects;
    SplitFirst(path, "analytics/");
    SplitFirst(path, "subject-data/analytics");
    assert "/" + "analytics/" == "/analytics/" && "/" + "subject-data/analytics" == "/subject-data/analytics";
  }

  lemma SplitFirst(path: string, p: string)
    ensures StartsWith(path, "/" + p) <==> |path| > 0 && path[0] == '/' && StartsWith(path[1..], p)
    ensures StartsWith(path, "/" + p) ==> path[1 + |p|..] == path[1..][|p|..]
  {
    if |path| >= 1 + |p| {
      assert path[..1 + |p|] == [path[0]] + path[1..][..|p|];
      if path[..1 + |p|] == "/" + p {
        assert path[0] == ("/" + p)[0];
        assert path[1..][..|p|] == ("/" + p)[1..];
      }
    }
  }

  method FindInAnalytics(rest: string, verb: string) returns (r: Option<Route>)
    ensures r == AtHit(ResolveAnalytics(rest), verb)
  {
    var elem := rest;
    if |elem| == 0 {
      return None;
    }
    AnalyticsByFirst(rest);
    hide ResolveAnalytics;
    match elem[0] {
    case 'c' =>
      if |elem| >= 7 && elem[..7] == "consent" {
        elem := elem[7..];
        if |elem| == 0 {
          if verb == "GET" {
            return Some(Route(GetConsent, []));
          } else if verb == "PUT" {
            return Some(Route(RecordConsent, []));
          }
          return None;
        }
      }
    case 'e' =>
      if |elem| >= 6 && elem[..6] == "events" {
        elem := elem[6..];
        if |elem| == 0 {
          if verb == "POST" {
            return Some(Route(RecordEvents, []));
          }
          return None;
        }
      }
    case 'f' =>
      if |elem| >= 8 && elem[..8] == "funnels/" {
        elem := elem[8..];
        var idx := IndexIn(elem, '/');
        var arg := elem[..idx];
        elem := elem[idx..];
        if |elem| > 0 && elem[0] == '/' {
          if |elem| >= 7 && elem[..7] == "/rollup" {
            elem := elem[7..];
            if |elem| == 0 {
              if verb == "GET" {
                return Some(Route(GetFunnelRollup, [arg]));
              } else if verb == "POST" {
                return Some(Route(ComputeFunnelRollup, [arg]));
              }
              return None;
            }
          }
        }
      }
    case 'r' =>
      if |elem| >= 9 && elem[..9] == "retention" {
        elem := elem[9..];
        if |elem| == 0 {
          if verb == "POST" {
            return Some(Route(ApplyAnalyticsRetention, []));
          }
          return None;
        }
      }
    case 's' =>
      if |elem| >= 7 && elem[..7] == "summary" {
        elem := elem[7..];
        if |elem| == 0 {
          if verb == "GET" {
            return Some(Route(SummariseEvents, []));
          }
          return None;
        }
      }
    case _ =>
    }
    r := None;
  }

  method FindInSubjects(rest: string, verb: string) returns (r: Option<Route>)
    ensures r == AtHit(ResolveSubjects(rest), verb)
  {
    var elem := rest;
    if |elem| == 0 {
      if verb == "GET" {
        return Some(Route(ListAnalyticsSubjects, []));
      }
      return None;
    }
    SubjectsByFirst(rest);
    hide ResolveSubjects;
    if elem[0] == '/' {
      elem := elem[1..];
      var idx := IndexIn(elem, '/');
      var arg := elem[..idx];
      elem := elem[idx..];
      if |elem| == 0 {
        if verb == "GET" {
          return Some(Route(ExportAnalyticsSubject, [arg]));
        }
        return None;
      }
      if elem[0] == '/' {
        if |elem| >= 6 && elem[..6] == "/erase" {
          elem := elem[6..];
          if |elem| == 0 {
            if verb == "POST" {
              return Some(Route(EraseAnalyticsSubject, [arg]));
            }
            return None;
          }
        }
      }
    }
    r := None;
  }

  // ---- ServeHTTP ----

  method ServeHTTP(prefix: string, verb: string, path: string) returns (r: Response)
    ensures r == Served(prefix, verb, path) && IsAnswer(prefix, verb, path, r)
  {
    ServedByTable(prefix, verb, path);
    hide IsAnswer, Dispatch, Resolve, ResolveAnalytics, ResolveSubjects;
    DispatchNothing(verb);
    var cut := CutPrefix(prefix, path);
    if cut == None {
      return NotFound;
    }
    var elem := cut.value;
    NotRouted(elem);
    if |elem| == 0 {
      return NotFound;
    }
    if elem[0] == '/' {
      elem := elem[1..];
      if |elem| > 0 {
        if elem[0] == 'a' {
          if |elem| >= 10 && elem[..10] == "analytics/" {
            elem := elem[10..];
            r := ServeAnalytics(elem, verb);
            return;
          }
        } else if elem[0] == 's' {
          if |elem| >= 22 && elem[..22] == "subject-data/analytics" {
            elem := elem[22..];
            r := ServeSubjects(elem, verb);
            return;
          }
        }
      }
    }
    r := NotFound;
  }

  lemma DispatchNothing(verb: string)
    ensures Dispatch(None, verb) == NotFound
  {
  }

  method ServeAnalytics(rest: string, verb: string) returns (r: Response)
    ensures r == Dispatch(ResolveAnalytics(rest), verb)
  {
    var elem := rest;
    if |elem| == 0 {
      return NotFound;
    }
    AnalyticsByFirst(rest);
    AllowHeaders();
    hide ResolveAnalytics, JoinComma, VerbsAt;
    match elem[0] {
    case 'c' =>
      if |elem| >= 7 && elem[..7] == "consent" {
        elem := elem[7..];
        if |elem| == 0 {
          if verb == "GET" {
            return Handled(Route(GetConsent, []));
          } else if verb == "PUT" {
            return Handled(Route(RecordConsent, []));
          }
          return NotAllowed("GET,PUT");
        }
      }
    case 'e' =>
      if |elem| >= 6 && elem[..6] == "events" {
        elem := elem[6..];
        if |elem| == 0 {
          if verb == "POST" {
            return Handled(Route(RecordEvents, []));
          }
          return NotAllowed("POST");
        }
      }
    case 'f' =>
      if |elem| >= 8 && elem[..8] == "funnels/" {
        elem := elem[8..];
        var idx := IndexIn(elem, '/');
        var arg := elem[..idx];
        elem := elem[idx..];
        if |elem| > 0 && elem[0] == '/' {
          if |elem| >= 7 && elem[..7] == "/rollup" {
            elem := elem[7..];
            if |elem| == 0 {
              if verb == "GET" {
                return Handled(Route(GetFunnelRollup, [arg]));
              } else if verb == "POST" {
                return Handled(Route(ComputeFunnelRollup, [arg]));
              }
              return NotAllowed("GET,POST");
            }
          }
        }
      }
    case 'r' =>
      if |elem| >= 9 && elem[..9] == "retention" {
        elem := elem[9..];
        if |elem| == 0 {
          if verb == "POST" {
            return Handled(Route(ApplyAnalyticsRetention, []));
          }
          return NotAllowed("POST");
        }
      }
    case 's' =>
      if |elem| >= 7 && elem[..7] == "summary" {
        elem := elem[7..];
        if |elem| == 0 {
          if verb == "GET" {
            return Handled(Route(SummariseEvents, []));
          }
          return NotAllowed("GET");
        }
      }
    case _ =>
    }
    r := NotFound;
  }

  method ServeSubjects(rest: string, verb: string) returns (r: Response)
    ensures r == Dispatch(ResolveSubjects(rest), verb)
  {
    AllowHeaders();
    var elem := rest;
    if |elem| == 0 {
      if verb == "GET" {
        return Handled(Route(ListAnalyticsSubjects, []));
      }
      return NotAllowed("GET");
    }
    SubjectsByFirst(rest);
    hide ResolveSubjects, JoinComma, VerbsAt;
    if elem[0] == '/' {
      elem := elem[1..];
      var idx := IndexIn(elem, '/');
      var arg := elem[..idx];
      elem := elem[idx..];
      if |elem| == 0 {
        if verb == "GET" {
          return Handled(Route(ExportAnalyticsSubject, [arg]));
        }
        return NotAllowed("GET");
      }
      if elem[0] == '/' {
        if |elem| >= 6 && elem[..6] == "/erase" {
          elem := elem[6..];
          if |elem| == 0 {
            if verb == "POST" {
              return Handled(Route(EraseAnalyticsSubject, [arg]));
            }
            return NotAllowed("POST");
          }
        }
      }
    }
    r := NotFound;
  }

  /** The Allow header of each leaf, as the generated code spells it. */
  lemma AllowHeaders()
    ensures JoinComma(VerbsAt(Consent)) == "GET,PUT" && JoinComma(VerbsAt(Funnel)) == "GET,POST"
    ensures forall leaf :: leaf in {Events, Retention, Erase} ==> JoinComma(VerbsAt(leaf)) == "POST"
    ensures forall leaf :: leaf in {Summary, Subjects, Subject} ==> JoinComma(VerbsAt(leaf)) == "GET"
  {
    TwoVerbs("GET", "PUT");
    TwoVerbs("GET", "POST");
    assert "GET" + "," + "PUT" == "GET,PUT" && "GET" + "," + "POST" == "GET,POST";
  }

  lemma TwoVerbs(a: string, b: string)
    ensures JoinComma([a, b]) == a + "," + b
  {
    assert [a, b][1..] == [b];
  }

  /** Which leaf a path under the analytics node can still be, by its first character. */
  lemma AnalyticsByFirst(rest: string)
    requires |rest| > 0
    ensures ResolveAnalytics(rest) ==
      match rest[0]
      case 'c' => (if Exactly(rest, "consent") then Some(Hit(Consent, [])) else None)
      case 'e' => (if Exactly(rest, "events") then Some(Hit(Events, [])) else None)
      case 'r' => (if Exactly(rest, "retention") then Some(Hit(Retention, [])) else None)
      case 's' => (if Exactly(rest, "summary") then Some(Hit(Summary, [])) else None)
      case 'f' => (if StartsWith(rest, "funnels/") then
        var tail := rest[8..];
        var cut := IndexIn(tail, '/');
        if Exactly(tail[cut..], "/rollup") then Some(Hit(Funnel, [tail[..cut]])) else None
      else None)
      case _ => None
  {
  }

  /** The comparison the generated code makes: the literal is a prefix and nothing follows it. */
  predicate Exactly(s: string, p: string)
    ensures Exactly(s, p) <==> s == p
  {
    StartsWith(s, p) && |s[|p|..]| == 0
  }

  lemma SubjectsByFirst(rest: string)
    requires |rest| > 0
    ensures ResolveSubjects(rest) ==
      if rest[0] != '/' then None
      else
        var tail := rest[1..];
        var cut := IndexIn(tail, '/');
        if |tail[cut..]| == 0 then Some(Hit(Subject, [tail[..cut]]))
        else if Exactly(tail[cut..], "/erase") then Some(Hit(Erase, [tail[..cut]]))
        else None
  {
    assert StartsWith(rest, "/") <==> rest[0] == '/' by {
      assert rest[..1] == [rest[0]] && "/" == ['/'];
    }
  }

  // ---- the router refines the table ----

  lemma CutAtSlash(elem: string, arg: string, tail: string)
    requires tail == "" || tail[0] == '/'
    ensures '/' !in arg && elem == arg + tail <==> elem[..IndexIn(elem, '/')] == arg && elem[IndexIn(elem, '/')..] == tail
  {
    var cut := IndexIn(elem, '/');
    if '/' !in arg && elem == arg + tail {
      assert forall k :: 0 <= k < |arg| ==> elem[k] == arg[k] && arg[k] in arg;
      assert tail != "" ==> elem[|arg|] == '/';
      assert forall k :: 0 <= k < cut ==> elem[k] in elem[..cut];
      assert cut == |arg|;
    }
    assert elem == elem[..cut] + elem[cut..];
  }

  function LeafPattern(leaf: Leaf): Pattern {
    match leaf
    case Consent => Literal("/analytics/consent")
    case Events => Literal("/analytics/events")
    case Funnel => Param("/analytics/funnels/", "/rollup")
    case Retention => Literal("/analytics/retention")
    case Summary => Literal("/analytics/summary")
    case Subjects => Literal("/subject-data/analytics")
    case Subject => Param("/subject-data/analytics/", "")
    case Erase => Param("/subject-data/analytics/", "/erase")
  }

  lemma LeafPatternIs(op: Operation)
    ensures LeafPattern(LeafOf(op)) == PatternOf(op)
  {
  }

  lemma AppendedTo(path: string, p: string, q: string)
    ensures path == p + q <==> StartsWith(path, p) && path[|p|..] == q
  {
    if StartsWith(path, p) {
      assert path == path[..|p|] + path[|p|..];
    }
  }

  lemma RootsDiffer(path: string)
    ensures !(StartsWith(path, "/analytics/") && StartsWith(path, "/subject-data/analytics"))
  {
    CharOf(path, "/analytics/", 1);
    CharOf(path, "/subject-data/analytics", 1);
  }

  lemma CharOf(s: string, p: string, i: nat)
    requires i < |p|
    ensures StartsWith(s, p) ==> s[i] == p[i]
  {
    if StartsWith(s, p) {
      assert s[i] == s[..|p|][i];
    }
  }

  lemma AnalyticsLeaf(path: string, name: string, leaf: Leaf)
    requires (name == "consent" && leaf == Consent) || (name == "events" && leaf == Events)
          || (name == "retention" && leaf == Retention) || (name == "summary" && leaf == Summary)
    ensures forall args :: Resolve(path) == Some(Hit(leaf, args)) <==> path == "/analytics/" + name && args == []
  {
    hide ResolveAnalytics, ResolveSubjects;
    AppendedTo(path, "/analytics/", name);
    RootsDiffer(path);
    if StartsWith(path, "/analytics/") {
      var rest := path[11..];
      if |rest| > 0 {
        AnalyticsByFirst(rest);
      }
      EmptyAnalytics();
    } else if StartsWith(path, "/subject-data/analytics") {
      SubjectLeavesOnly(path[23..]);
    }
  }

  lemma EmptyAnalytics()
    ensures ResolveAnalytics("") == None
  {
  }

  lemma SubjectLeavesOnly(rest: string)
    ensures ResolveSubjects(rest).Some? ==> ResolveSubjects(rest).value.leaf in {Subjects, Subject, Erase}
  {
  }

  lemma AnalyticsLeavesOnly(rest: string)
    ensures ResolveAnalytics(rest).Some? ==> ResolveAnalytics(rest).value.leaf in {Consent, Events, Funnel, Retention, Summary}
  {
  }

  lemma FunnelLeaf(path: string, arg: string)
    ensures Resolve(path) == Some(Hit(Funnel, [arg])) <==> '/' !in arg && path == "/analytics/funnels/" + arg + "/rollup"
  {
    hide ResolveAnalytics, ResolveSubjects;
    RootsDiffer(path);
    var tail := arg + "/rollup";
    assert "/analytics/" + "funnels/" == "/analytics/funnels/";
    assert "/analytics/funnels/" + arg + "/rollup" == "/analytics/" + ("funnels/" + tail);
    AppendedTo(path, "/analytics/", "funnels/" + tail);
    if StartsWith(path, "/analytics/") {
      var rest := path[11..];
      AppendedTo(rest, "funnels/", tail);
      if StartsWith(rest, "funnels/") {
        CutAtSlash(rest[8..], arg, "/rollup");
      }
      EmptyAnalytics();
      if |rest| > 0 {
        AnalyticsByFirst(rest);
        CharOf(rest, "funnels/", 0);
      }
    } else if StartsWith(path, "/subject-data/analytics") {
      SubjectLeavesOnly(path[23..]);
    }
  }

  lemma SubjectLeaf(path: string, arg: string, leaf: Leaf, after: string)
    requires (leaf == Subject && after == "") || (leaf == Erase && after == "/erase")
    ensures Resolve(path) == Some(Hit(leaf, [arg])) <==> '/' !in arg && path == "/subject-data/analytics/" + arg + after
  {
    hide ResolveAnalytics, ResolveSubjects;
    RootsDiffer(path);
    var tail := arg + after;
    assert "/subject-data/analytics" + "/" == "/subject-data/analytics/";
    assert "/subject-data/analytics/" + arg + after == "/subject-data/analytics" + ("/" + tail);
    AppendedTo(path, "/subject-data/analytics", "/" + tail);
    if StartsWith(path, "/analytics/") {
      AnalyticsLeavesOnly(path[11..]);
    } else if StartsWith(path, "/subject-data/analytics") {
      var rest := path[23..];
      EmptySubjects();
      if |rest| > 0 {
        SubjectsByFirst(rest);
        AppendedTo(rest, "/", tail);
        CharOf(rest, "/", 0);
        CutAtSlash(rest[1..], arg, after);
        assert rest[..1] == [rest[0]];
      }
    }
  }

  lemma EmptySubjects()
    ensures ResolveSubjects("") == Some(Hit(Subjects, []))
  {
  }

  lemma SubjectsRoot(path: string)
    ensures forall args :: Resolve(path) == Some(Hit(Subjects, args)) <==> path == "/subject-data/analytics" && args == []
  {
    hide ResolveAnalytics, ResolveSubjects;
    RootsDiffer(path);
    AppendedTo(path, "/subject-data/analytics", "");
    assert "/subject-data/analytics" + "" == "/subject-data/analytics";
    if StartsWith(path, "/analytics/") {
      AnalyticsLeavesOnly(path[11..]);
    } else if StartsWith(path, "/subject-data/analytics") {
      EmptySubjects();
      if |path[23..]| > 0 {
        SubjectsByFirst(path[23..]);
      }
    }
  }

  lemma ParametersAreSingle(path: string)
    ensures Resolve(path).Some? && Resolve(path).value.leaf in {Funnel, Subject, Erase} ==> |Resolve(path).value.args| == 1
  {
  }

  /** A path resolves to a leaf with arguments exactly when it matches the leaf's pattern with them. */
  lemma ResolveIsTable(path: string, leaf: Leaf, args: seq<string>)
    ensures Resolve(path) == Some(Hit(leaf, args)) <==> Matches(LeafPattern(leaf), path, args)
  {
    hide Resolve;
    ParametersAreSingle(path);
    match leaf
    case Consent =>
      AnalyticsLeaf(path, "consent", leaf);
      assert "/analytics/" + "consent" == "/analytics/consent";
    case Events =>
      AnalyticsLeaf(path, "events", leaf);
      assert "/analytics/" + "events" == "/analytics/events";
    case Retention =>
      AnalyticsLeaf(path, "retention", leaf);
      assert "/analytics/" + "retention" == "/analytics/retention";
    case Summary =>
      AnalyticsLeaf(path, "summary", leaf);
      assert "/analytics/" + "summary" == "/analytics/summary";
    case Subjects =>
      SubjectsRoot(path);
    case Funnel =>
      if |args| == 1 {
        FunnelLeaf(path, args[0]);
        assert args == [args[0]];
      }
    case Subject =>
      if |args| == 1 {
        SubjectLeaf(path, args[0], leaf, "");
        assert args == [args[0]];
      }
    case Erase =>
      if |args| == 1 {
        SubjectLeaf(path, args[0], leaf, "/erase");
        assert args == [args[0]];
      }
  }

  /** The router finds an operation exactly when the verb is its verb and the path matches its
      pattern, and the arguments are the ones the pattern captures; so at most one matches. */
  lemma RouterRefinesTable(verb: string, path: string, op: Operation, args: seq<string>)
    ensures Find(verb, path) == Some(Route(op, args)) <==> MethodOf(op) == verb && Matches(PatternOf(op), path, args)
  {
    hide Resolve, OperationAt, MethodOf, Matches, PatternOf, LeafPattern;
    ResolveIsTable(path, LeafOf(op), args);
    OperationAtIs(LeafOf(op), verb, op);
    LeafPatternIs(op);
    if Resolve(path).Some? && OperationAt(Resolve(path).value.leaf, verb).Some? {
      OperationAtIs(Resolve(path).value.leaf, verb, OperationAt(Resolve(path).value.leaf, verb).value);
    }
  }

  lemma AtMostOneMatches(verb: string, path: string, op1: Operation, args1: seq<string>, op2: Operation, args2: seq<string>)
    requires MethodOf(op1) == verb && Matches(PatternOf(op1), path, args1)
    requires MethodOf(op2) == verb && Matches(PatternOf(op2), path, args2)
    ensures op1 == op2 && args1 == args2
  {
    hide MethodOf, Matches, PatternOf, Find;
    RouterRefinesTable(verb, path, op1, args1);
    RouterRefinesTable(verb, path, op2, args2);
  }

  /** The server handles a request exactly with the operation FindPath finds; it answers "method not
      allowed" exactly when another verb would match, and then lists exactly the verbs that would. */
  lemma ServerAgreesWithFind(verb: string, path: string)
    ensures forall route :: Dispatch(Resolve(path), verb) == Handled(route) <==> Find(verb, path) == Some(route)
    ensures Dispatch(Resolve(path), verb).NotAllowed?
       <==> Find(verb, path) == None && exists op, args :: Matches(PatternOf(op), path, args)
    ensures Resolve(path).Some? ==>
      forall v :: v in VerbsAt(Resolve(path).value.leaf) <==> Find(v, path).Some?
  {
    hide Resolve, OperationAt, MethodOf, Matches, PatternOf, JoinComma, VerbsAt;
    if Resolve(path).Some? {
      var leaf, args := Resolve(path).value.leaf, Resolve(path).value.args;
      forall v ensures v in VerbsAt(leaf) <==> OperationAt(leaf, v).Some? {
        VerbsAreComplete(leaf, v);
      }
      var op := SomeOperation(leaf);
      var v := MethodOf(op);
      OperationAtIs(leaf, v, op);
      RouterRefinesTable(v, path, op, args);
    }
    forall op, args | Matches(PatternOf(op), path, args) ensures Resolve(path).Some? {
      RouterRefinesTable(MethodOf(op), path, op, args);
    }
  }

  lemma VerbsAreComplete(leaf: Leaf, v: string)
    ensures v in VerbsAt(leaf) <==> OperationAt(leaf, v).Some?
  {
  }

  /** The header lists exactly the verbs that the path answers, in ascending order and divided by commas. */
  ghost predicate Allows(allowed: string, path: string) {
    || (forall v :: Find(v, path).Some? <==> v == allowed)
    || exists v, w :: AllowsBoth(allowed, path, v, w)
  }

  ghost predicate AllowsBoth(allowed: string, path: string, v: string, w: string) {
    Names.Less(v, w) && allowed == v + "," + w && forall x :: Find(x, path).Some? <==> x == v || x == w
  }

  lemma AllowedVerbs(verb: string, path: string, allowed: string)
    requires Dispatch(Resolve(path), verb) == NotAllowed(allowed)
    ensures Allows(allowed, path)
  {
    hide Resolve, OperationAt;
    var leaf := Resolve(path).value.leaf;
    AllowHeaders();
    forall v ensures Find(v, path).Some? <==> v in VerbsAt(leaf) {
      VerbsAreComplete(leaf, v);
    }
    if |VerbsAt(leaf)| == 1 {
      assert JoinComma(VerbsAt(leaf)) == VerbsAt(leaf)[0];
    } else {
      var v, w := VerbsAt(leaf)[0], VerbsAt(leaf)[1];
      TwoVerbs(v, w);
      assert VerbsAt(leaf) == [v, w];
      assert AllowsBoth(allowed, path, v, w);
    }
  }

  /** The path under the prefix matches the operation's pattern with the arguments. */
  ghost predicate Asks(prefix: string, path: string, op: Operation, args: seq<string>) {
    exists rest :: path == prefix + rest && Matches(PatternOf(op), rest, args)
  }

  /** The answers by the table: the operation of the verb and the path, the verbs there are for the path, or nothing. */
  ghost predicate IsAnswer(prefix: string, verb: string, path: string, r: Response) {
    && (forall op, args :: r == Handled(Route(op, args)) <==> MethodOf(op) == verb && Asks(prefix, path, op, args))
    && (r.NotAllowed? ==> exists rest :: path == prefix + rest && Allows(r.allowed, rest))
    && (r.NotFound? <==> forall op, args :: !Asks(prefix, path, op, args))
  }

  ghost predicate IsFound(prefix: string, verb: string, path: string, r: Option<Route>) {
    forall op, args :: r == Some(Route(op, args)) <==> MethodOf(op) == verb && Asks(prefix, path, op, args)
  }

  function Served(prefix: string, verb: string, path: string): Response {
    match CutPrefix(prefix, path) case None => NotFound case Some(rest) => Dispatch(Resolve(rest), verb)
  }

  function FoundAt(prefix: string, verb: string, path: string): Option<Route> {
    match CutPrefix(prefix, path) case None => None case Some(rest) => Find(verb, rest)
  }

  lemma CutPrefixIs(prefix: string, path: string)
    ensures forall rest :: CutPrefix(prefix, path) == Some(rest) <==> path == prefix + rest
  {
    forall rest ensures CutPrefix(prefix, path) == Some(rest) <==> path == prefix + rest {
      AppendedTo(path, prefix, rest);
    }
  }

  lemma FoundByTable(prefix: string, verb: string, path: string)
    ensures IsFound(prefix, verb, path, FoundAt(prefix, verb, path))
  {
    hide CutPrefix, Find, MethodOf, PatternOf, Matches;
    CutPrefixIs(prefix, path);
    var r := FoundAt(prefix, verb, path);
    forall op, args ensures r == Some(Route(op, args)) <==> MethodOf(op) == verb && Asks(prefix, path, op, args) {
      if CutPrefix(prefix, path).Some? {
        var rest := CutPrefix(prefix, path).value;
        RouterRefinesTable(verb, rest, op, args);
      }
    }
  }

  lemma ServedByTable(prefix: string, verb: string, path: string)
    ensures IsAnswer(prefix, verb, path, Served(prefix, verb, path))
  {
    hide CutPrefix, Find, Resolve, Dispatch, MethodOf, PatternOf, Matches, Allows, Asks;
    CutPrefixIs(prefix, path);
    FoundByTable(prefix, verb, path);
    var r := Served(prefix, verb, path);
    if CutPrefix(prefix, path).Some? {
      var rest := CutPrefix(prefix, path).value;
      ServerAgreesWithFind(verb, rest);
      if r.NotAllowed? {
        AllowedVerbs(verb, rest, r.allowed);
      }
      AskedIs(prefix, path, rest);
      NotFoundIff(rest, verb);
    } else {
      NothingAsked(prefix, path);
    }
  }

  lemma AskedIs(prefix: string, path: string, rest: string)
    requires path == prefix + rest
    ensures forall op, args :: Asks(prefix, path, op, args) <==> Matches(PatternOf(op), rest, args)
  {
    hide PatternOf, Matches;
    CutPrefixIs(prefix, path);
  }

  lemma NothingAsked(prefix: string, path: string)
    requires CutPrefix(prefix, path) == None
    ensures forall op, args :: !Asks(prefix, path, op, args)
  {
    hide PatternOf, Matches, CutPrefix;
    CutPrefixIs(prefix, path);
  }

  lemma NotFoundIff(path: string, verb: string)
    ensures Dispatch(Resolve(path), verb).NotFound? <==> forall op, args :: !Matches(PatternOf(op), path, args)
  {
    hide Resolve, MethodOf, PatternOf, Matches, OperationAt, JoinComma, VerbsAt;
    if Resolve(path).Some? {
      var leaf, args := Resolve(path).value.leaf, Resolve(path).value.args;
      var op := SomeOperation(leaf);
      ResolveIsTable(path, leaf, args);
      LeafPatternIs(op);
    }
    forall op, args | Matches(PatternOf(op), path, args) ensures Resolve(path).Some? {
      LeafPatternIs(op);
      ResolveIsTable(path, LeafOf(op), args);
    }
  }

  function SomeOperation(leaf: Leaf): (op: Operation)
    ensures LeafOf(op) == leaf
  {
    match leaf
    case Consent => GetConsent
    case Events => RecordEvents
    case Funnel => GetFunnelRollup
    case Retention => ApplyAnalyticsRetention
    case Summary => SummariseEvents
    case Subjects => ListAnalyticsSubjects
    case Subject => ExportAnalyticsSubject
    case Erase => EraseAnalyticsSubject
  }

  // ---- the client ----

  /** The path the client concatenates for an operation from its encoded parameter. */
  function ClientPath(op: Operation, param: string): string {
    match PatternOf(op)
    case Literal(path) => path
    case Param(before, after) => before + param + after
  }

  /** A path the client builds from a slash-free parameter, mounted under the server's prefix, routes
      back to that operation and parameter. */
  lemma ClientPathRoutesBack(prefix: string, op: Operation, param: string)
    requires '/' !in param
    ensures var args := if PatternOf(op).Param? then [param] else [];
      CutPrefix(prefix, prefix + ClientPath(op, param)) == Some(ClientPath(op, param))
      && Find(MethodOf(op), ClientPath(op, param)) == Some(Route(op, args))
      && Dispatch(Resolve(ClientPath(op, param)), MethodOf(op)) == Handled(Route(op, args))
  {
    hide Find, MethodOf, Dispatch, Resolve;
    var args := if PatternOf(op).Param? then [param] else [];
    RouterRefinesTable(MethodOf(op), ClientPath(op, param), op, args);
    ServerAgreesWithFind(MethodOf(op), ClientPath(op, param));
  }
}
