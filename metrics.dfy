/**
  The per-method HTTP request counter of the metrics module: five counters
  that every request bumps and that a periodic flush pushes, one text line per
  counter, to the metrics sink before resetting each to zero.
*/
module Metrics {

  /** The counter names, in the insertion order the flush walks them. */
  const Keys: seq<string> := ["all", "get", "post", "put", "delete"]

  type Counters = map<string, nat>

  /** The counters hold exactly the five keys. */
  predicate HasKeys(c: Counters) {
    c.Keys == {"all", "get", "post", "put", "delete"}
  }

  function Zero(): (c: Counters)
    ensures HasKeys(c)
    ensures forall k :: k in c ==> c[k] == 0
  {
    map["all" := 0, "get" := 0, "post" := 0, "put" := 0, "delete" := 0]
  }

  // ---------------------------------------------------------------------
  // Method names

  function LowerChar(c: char): char {
    if 'A' <= c <= 'Z' then (c as int - 'A' as int + 'a' as int) as char else c
  }

  /** `toLowerCase`, on the letters A to Z. */
  function ToLower(s: string): (r: string)
    ensures |r| == |s|
    ensures forall i :: 0 <= i < |s| ==> r[i] == LowerChar(s[i])
  {
    if s == [] then [] else [LowerChar(s[0])] + ToLower(s[1..])
  }

  // ---------------------------------------------------------------------
  // requestTracker

  /**
    The counters after one request: `all` rises, and so does the counter the
    lower-cased method names when it is one of the keys.
  */
  function Bump(c: Counters, verb: string): (r: Counters)
    requires HasKeys(c)
    ensures HasKeys(r) && r.Keys == c.Keys
    ensures r["all"] > c["all"]
  {
    var m := ToLower(verb);
    var c' := c["all" := c["all"] + 1];
    if m in c' then c'[m := c'[m] + 1] else c'
  }

  /** A request whose method is not `all` in some case raises `all` by exactly one. */
  lemma BumpRaisesAllByOne(c: Counters, verb: string)
    requires HasKeys(c) && ToLower(verb) != "all"
    ensures Bump(c, verb)["all"] == c["all"] + 1
  {
  }

  /**
    A method that lower-cases to `all` is itself a key, so `all` rises twice.
    Node's request parser has no such method, so no HTTP request reaches this case.
  */
  lemma BumpAllMethodCountsTwice(c: Counters, verb: string)
    requires HasKeys(c) && ToLower(verb) == "all"
    ensures Bump(c, verb)["all"] == c["all"] + 2
    ensures forall k :: k in c && k != "all" ==> Bump(c, verb)[k] == c[k]
  {
  }

  /** GET, POST, PUT and DELETE, in any case, raise their own counter and `all`, and nothing else. */
  lemma BumpKnownMethod(c: Counters, verb: string)
    requires HasKeys(c)
    requires ToLower(verb) in {"get", "post", "put", "delete"}
    ensures var m := ToLower(verb);
      && Bump(c, verb)["all"] == c["all"] + 1
      && Bump(c, verb)[m] == c[m] + 1
      && forall k :: k in c && k != "all" && k != m ==> Bump(c, verb)[k] == c[k]
  {
  }

  /** Any other method raises only `all`. */
  lemma BumpUnknownMethod(c: Counters, verb: string)
    requires HasKeys(c)
    requires ToLower(verb) !in {"all", "get", "post", "put", "delete"}
    ensures Bump(c, verb)["all"] == c["all"] + 1
    ensures forall k :: k in c && k != "all" ==> Bump(c, verb)[k] == c[k]
  {
  }

  /** Matching ignores case: `GET` and `get` count alike. */
  lemma BumpCaseInsensitive(c: Counters, m1: string, m2: string)
    requires HasKeys(c)
    requires ToLower(m1) == ToLower(m2)
    ensures Bump(c, m1) == Bump(c, m2)
  {
  }

  /** The counters after a run of requests, in order. */
  function TrackAll(c: Counters, methods: seq<string>): (r: Counters)
    requires HasKeys(c)
    ensures HasKeys(r)
    decreases |methods|
  {
    if methods == [] then c else TrackAll(Bump(c, methods[0]), methods[1..])
  }

  /** How many of the methods lower-case to k. */
  function CountOf(methods: seq<string>, k: string): nat {
    if methods == [] then 0 else (if ToLower(methods[0]) == k then 1 else 0) + CountOf(methods[1..], k)
  }

  /**
    After a run of requests every method counter has risen by the number of
    requests with that method, and `all` by the number of requests (plus any
    whose method was `all` itself).
  */
  lemma {:induction false} TrackAllCounts(c: Counters, methods: seq<string>)
    requires HasKeys(c)
    ensures TrackAll(c, methods)["all"] == c["all"] + |methods| + CountOf(methods, "all")
    ensures forall k :: k in c && k != "all" ==> TrackAll(c, methods)[k] == c[k] + CountOf(methods, k)
    decreases |methods|
  {
    if methods != [] {
      TrackAllCounts(Bump(c, methods[0]), methods[1..]);
    }
  }

  // ---------------------------------------------------------------------
  // The wire line

  function DigitChar(d: nat): (c: char)
    requires d < 10
  {
    ('0' as int + d) as char
  }

  predicate IsDigit(c: char) {
    '0' <= c <= '9'
  }

  /** A template literal's rendering of a whole number: decimal, without leading zeros. */
  function NatToString(n: nat): (r: string)
    ensures |r| >= 1
    ensures forall i :: 0 <= i < |r| ==> IsDigit(r[i])
    ensures |r| > 1 ==> r[0] != '0'
    decreases n
  {
    if n < 10 then [DigitChar(n)] else NatToString(n / 10) + [DigitChar(n % 10)]
  }

  /** The number a string of decimal digits denotes. */
  function ParseDecimal(s: string): nat
    requires forall i :: 0 <= i < |s| ==> IsDigit(s[i])
    decreases |s|
  {
    if s == [] then 0
    else
      var last := s[|s| - 1];
      assert IsDigit(last);
      ParseDecimal(s[..|s| - 1]) * 10 + (last as int - '0' as int)
  }

  /** The rendered number reads back as itself. */
  lemma {:induction false} ParseNatToString(n: nat)
    ensures ParseDecimal(NatToString(n)) == n
    decreases n
  {
    if n >= 10 {
      var r := NatToString(n);
      assert r[..|r| - 1] == NatToString(n / 10);
      ParseNatToString(n / 10);
    }
  }

  /**
    The line template of `sendMetricToGrafana`:
    `<prefix>,source=<source>,method=<httpMethod> <name>=<value>`.
  */
  function MetricLine(prefix: string, source: string, httpMethod: string, name: string, value: nat): (r: string)
    ensures |r| > |prefix| + |NatToString(value)|
    ensures r[..|prefix|] == prefix
    ensures r[|r| - |NatToString(value)|..] == NatToString(value)
  {
    prefix + ",source=" + source + ",method=" + httpMethod + " " + name + "=" + NatToString(value)
  }

  /** Lines that differ only in the value carry different values: the reading is recoverable from the line. */
  lemma MetricLineDeterminesValue(prefix: string, source: string, httpMethod: string, name: string, v1: nat, v2: nat)
    requires MetricLine(prefix, source, httpMethod, name, v1) == MetricLine(prefix, source, httpMethod, name, v2)
    ensures v1 == v2
  {
    var head := prefix + ",source=" + source + ",method=" + httpMethod + " " + name + "=";
    var l1 := MetricLine(prefix, source, httpMethod, name, v1);
    var l2 := MetricLine(prefix, source, httpMethod, name, v2);
    assert l1[|head|..] == NatToString(v1);
    assert l2[|head|..] == NatToString(v2);
    ParseNatToString(v1);
    ParseNatToString(v2);
  }

  /** A line holds no line break when its prefix, source, method and name hold none. */
  lemma MetricLineIsOneLine(prefix: string, source: string, httpMethod: string, name: string, value: nat)
    requires '\n' !in prefix + source + httpMethod + name
    ensures '\n' !in MetricLine(prefix, source, httpMethod, name, value)
  {
    // Spelled out position by position so that the proof stays cheap and stable across solver seeds.
    var line := MetricLine(prefix, source, httpMethod, name, value);
    var digits := NatToString(value);
    forall i | 0 <= i < |line| ensures line[i] != '\n' {
      var a := |prefix| + |",source="|;
      var b := a + |source| + |",method="|;
      var c := b + |httpMethod| + 1;
      var d := c + |name| + 1;
      if i < |prefix| {
        assert line[i] == (prefix + source + httpMethod + name)[i];
      } else if a <= i < a + |source| {
        assert line[i] == (prefix + source + httpMethod + name)[i - |",source="|];
      } else if b <= i < b + |httpMethod| {
        assert line[i] == (prefix + source + httpMethod + name)[i - |",source="| - |",method="|];
      } else if c <= i < c + |name| {
        assert line[i] == (prefix + source + httpMethod + name)[i - |",source="| - |",method="| - 1];
      } else if d <= i {
        assert line[i] == digits[i - d];
      }
    }
  }

  // ---------------------------------------------------------------------
  // Pushing a line

  /** How the sink answers one push: an ok response, a non-ok response, or a failed request. */
  datatype PushReply = Ok | NotOk | NetworkError(error: string)

  /** What a push writes to the console. */
  datatype ConsoleEntry = Info(text: string) | Error(text: string)

  /** One push: the line sent as the request body and what was logged about it. */
  datatype Push = Push(body: string, console: ConsoleEntry)

  /** The console entry for a push of `metric` that got `reply`; no reply is ever raised to the caller. */
  function Report(metric: string, reply: PushReply): (e: ConsoleEntry)
    ensures e.Info? <==> reply.Ok?
    ensures reply.Ok? ==> e.text == "Pushed " + metric
  {
    match reply
    case Ok => Info("Pushed " + metric)
    case NotOk => Error("Failed to push metrics data to Grafana")
    case NetworkError(_) => Error("Error pushing metrics:")
  }

  /** A console entry that logs a reply as `sendMetricToGrafana` does is the report of that reply. */
  lemma ConsoleIsReport(e: ConsoleEntry, metric: string, reply: PushReply)
    requires e.Info? <==> reply.Ok?
    requires e.Info? ==> e.text == "Pushed " + metric
    requires reply.NotOk? ==> e == Error("Failed to push metrics data to Grafana")
    requires reply.NetworkError? ==> e == Error("Error pushing metrics:")
    ensures e == Report(metric, reply)
  {
  }

  /** The pushes so far sent the first lines, in order, each logged as the report of the sink's reply. */
  ghost predicate PushedLines(pushes: seq<Push>, lines: seq<string>, sink: string -> PushReply) {
    |pushes| <= |lines| &&
    forall j :: 0 <= j < |pushes| ==> pushes[j].body == lines[j] && pushes[j].console == Report(lines[j], sink(lines[j]))
  }

  lemma PushedLinesExtend(pushes: seq<Push>, p: Push, lines: seq<string>, sink: string -> PushReply)
    requires PushedLines(pushes, lines, sink) && |pushes| < |lines|
    requires p.body == lines[|pushes|] && p.console == Report(p.body, sink(p.body))
    ensures PushedLines(pushes + [p], lines, sink)
  {
  }

  /** The lines one flush sends for counters c: one per key, in key order, each with the counter's value. */
  function Snapshot(c: Counters, source: string): (lines: seq<string>)
    requires HasKeys(c)
    ensures |lines| == |Keys|
  {
    seq(|Keys|, i requires 0 <= i < |Keys| => MetricLine("request", source, Keys[i], "total", c[Keys[i]]))
  }

  /** The request bodies of a run of pushes. */
  function Bodies(pushes: seq<Push>): (bodies: seq<string>)
    ensures |bodies| == |pushes|
    ensures forall i :: 0 <= i < |pushes| ==> bodies[i] == pushes[i].body
  {
    if pushes == [] then [] else [pushes[0].body] + Bodies(pushes[1..])
  }

  /** The keys are pairwise distinct, so resetting one leaves the others alone. */
  lemma KeysDistinct()
    ensures forall i, j :: 0 <= i < j < |Keys| ==> Keys[i] != Keys[j]
  {
  }

  /** Counters holding the five keys, each at 0, are the zero counters. */
  lemma ZeroedIsZero(c: Counters)
    requires HasKeys(c)
    requires forall j :: 0 <= j < |Keys| ==> c[Keys[j]] == 0
    ensures c == Zero()
  {
    forall k | k in c ensures c[k] == 0 {
      assert k == Keys[0] || k == Keys[1] || k == Keys[2] || k == Keys[3] || k == Keys[4];
    }
  }

  lemma BodiesAre(pushes: seq<Push>, lines: seq<string>)
    requires |pushes| == |lines|
    requires forall j :: 0 <= j < |pushes| ==> pushes[j].body == lines[j]
    ensures Bodies(pushes) == lines
  {
  }

  /** A flush of all-zero counters, such as a second flush with no traffic in between, reports total=0 for every key. */
  lemma SnapshotOfZero(source: string)
    ensures forall i :: 0 <= i < |Keys| ==>
      Snapshot(Zero(), source)[i] == "request,source=" + source + ",method=" + Keys[i] + " total=0"
  {
  }

  /** n requests of the same method. */
  function Repeat(verb: string, n: nat): (r: seq<string>)
    ensures |r| == n
  {
    if n == 0 then [] else [verb] + Repeat(verb, n - 1)
  }

  /** A run of one method counts fully under that method's key and not at all under another. */
  lemma {:induction false} CountOfRepeat(verb: string, n: nat, k: string)
    ensures CountOf(Repeat(verb, n), k) == if ToLower(verb) == k then n else 0
  {
    if n > 0 {
      assert Repeat(verb, n)[1..] == Repeat(verb, n - 1);
      CountOfRepeat(verb, n - 1, k);
    }
  }

  lemma {:induction false} CountOfAppend(a: seq<string>, b: seq<string>, k: string)
    ensures CountOf(a + b, k) == CountOf(a, k) + CountOf(b, k)
    decreases |a|
  {
    if a == [] {
      assert a + b == b;
    } else {
      assert (a + b)[1..] == a[1..] + b;
      CountOfAppend(a[1..], b, k);
    }
  }

  /** g GET requests and p POST requests from zero: all holds g + p, get g, post p, put and delete 0. */
  lemma GetsAndPostsCounted(g: nat, p: nat)
    ensures var c := TrackAll(Zero(), Repeat("GET", g) + Repeat("POST", p));
      c["all"] == g + p && c["get"] == g && c["post"] == p && c["put"] == 0 && c["delete"] == 0
  {
    var gets, posts := Repeat("GET", g), Repeat("POST", p);
    assert ToLower("GET") == "get";
    assert ToLower("POST") == "post";
    forall k | k in {"all", "get", "post", "put", "delete"}
      ensures CountOf(gets + posts, k) == (if k == "get" then g else 0) + (if k == "post" then p else 0)
    {
      CountOfRepeat("GET", g, k);
      CountOfRepeat("POST", p, k);
      CountOfAppend(gets, posts, k);
    }
    TrackAllCounts(Zero(), gets + posts);
  }

  /** Each line of a flush names its key and renders that key's counter. */
  lemma SnapshotLines(c: Counters, source: string)
    requires HasKeys(c)
    ensures var lines := Snapshot(c, source);
      && lines[0] == MetricLine("request", source, "all", "total", c["all"])
      && lines[1] == MetricLine("request", source, "get", "total", c["get"])
      && lines[2] == MetricLine("request", source, "post", "total", c["post"])
      && lines[3] == MetricLine("request", source, "put", "total", c["put"])
      && lines[4] == MetricLine("request", source, "delete", "total", c["delete"])
  {
  }

  /**
    g GET requests and p POST requests from zero, then a flush: the all line
    reports g + p, the get line g, the post line p, and put and delete 0.
    (With g = 100 and p = 50 the get line is `request,source=<source>,method=get total=100`.)
  */
  lemma GetsAndPostsFlush(g: nat, p: nat, source: string)
    ensures var lines := Snapshot(TrackAll(Zero(), Repeat("GET", g) + Repeat("POST", p)), source);
      && lines[0] == MetricLine("request", source, "all", "total", g + p)
      && lines[1] == MetricLine("request", source, "get", "total", g)
      && lines[2] == MetricLine("request", source, "post", "total", p)
      && lines[3] == MetricLine("request", source, "put", "total", 0)
      && lines[4] == MetricLine("request", source, "delete", "total", 0)
  {
    var c := TrackAll(Zero(), Repeat("GET", g) + Repeat("POST", p));
    GetsAndPostsCounted(g, p);
    SnapshotLines(c, source);
  }

  // ---------------------------------------------------------------------
  // The Metrics object

  class Metrics {
    /** The deployment's source tag, read once from the configuration. */
    const source: string
    var requests: Counters

    ghost predicate Valid()
      reads this
    {
      HasKeys(requests)
    }

    constructor (source: string)
      ensures Valid()
      ensures this.source == source && requests == Zero()
    {
      this.source := source;
      requests := Zero();
    }

    /** `requestTracker`: count one request of the given method. */
    method RequestTracker(verb: string)
      requires Valid()
      modifies this
      ensures Valid()
      ensures requests == Bump(old(requests), verb)
    {
      var m := ToLower(verb);
      requests := requests["all" := requests["all"] + 1];
      if m in requests {
        requests := requests[m := requests[m] + 1];
      }
    }

    /** `sendMetricToGrafana`: build the line, push it, and log the outcome without raising it. */
    function SendMetricToGrafana(prefix: string, httpMethod: string, name: string, value: nat, sink: string -> PushReply): (p: Push)
      ensures p.body == MetricLine(prefix, source, httpMethod, name, value)
      ensures p.console.Info? <==> sink(p.body).Ok?
      ensures p.console.Info? ==> p.console.text == "Pushed " + p.body
      ensures sink(p.body).NotOk? ==> p.console == Error("Failed to push metrics data to Grafana")
      ensures sink(p.body).NetworkError? ==> p.console == Error("Error pushing metrics:")
    {
      var metric := MetricLine(prefix, source, httpMethod, name, value);
      Push(metric, Report(metric, sink(metric)))
    }

    /**
      `sendEveryRequest`: for each key in order, push its current value and
      then reset it, whatever the sink answered.
    */
    method SendEveryRequest(sink: string -> PushReply) returns (pushes: seq<Push>)
      requires Valid()
      modifies this
      ensures Valid()
      ensures requests == Zero()
      ensures Bodies(pushes) == Snapshot(old(requests), source)
      ensures forall i :: 0 <= i < |pushes| ==> pushes[i].console == Report(pushes[i].body, sink(pushes[i].body))
    {
      ghost var before := requests;
      KeysDistinct();
      pushes := [];
      var i := 0;
      while i < |Keys|
        invariant 0 <= i <= |Keys|
        invariant HasKeys(requests)
        invariant forall j :: 0 <= j < i ==> requests[Keys[j]] == 0
        invariant forall j :: i <= j < |Keys| ==> requests[Keys[j]] == before[Keys[j]]
        invariant |pushes| == i
        invariant PushedLines(pushes, Snapshot(before, source), sink)
      {
        var key := Keys[i];
        var p := SendMetricToGrafana("request", key, "total", requests[key], sink);
        ConsoleIsReport(p.console, p.body, sink(p.body));
        PushedLinesExtend(pushes, p, Snapshot(before, source), sink);
        pushes := pushes + [p];
        requests := requests[key := 0];
        i := i + 1;
      }
      ZeroedIsZero(requests);
      BodiesAre(pushes, Snapshot(before, source));
    }
  }

  /**
    The static `Metrics.instance`: constructing `Metrics` again hands back the
    instance built first, so the module holds a single set of counters.
  */
  class MetricsSingleton {
    var instance: Metrics?

    constructor ()
      ensures instance == null
    {
      instance := null;
    }

    /** `new Metrics()`: the existing instance when there is one, otherwise a new one with zero counters. */
    method NewMetrics(source: string) returns (m: Metrics)
      modifies this
      ensures instance == m
      ensures old(instance) != null ==> m == old(instance)
      ensures old(instance) == null ==> fresh(m) && m.Valid() && m.source == source && m.requests == Zero()
    {
      if instance != null {
        return instance;
      }
      m := new Metrics(source);
      instance := m;
    }
  }
}
