/**
  Name derivation of the metrics collector: how the header of a metrics report
  and the (group, metric name) of one measurement become the fully-qualified
  gauge name under which the measurement is exposed to the scrape endpoint.

  Strings are sequences of code points, as the sanitising regular expression
  matches one rune at a time.
 */
module Naming {

  /** The header of a metrics report. Only job name, job id, container name and
      source take part in naming; the other fields are carried but unused. */
  datatype Header = Header(
    jobId: string,
    execEnvContainerId: string,
    samzaVersion: string,
    jobName: string,
    host: string,
    resetTime: int,
    containerName: string,
    source: string,
    time: int,
    version: string)

  /** The characters the scrape endpoint accepts in a name: [a-zA-Z0-9_]. */
  predicate IsScrapeChar(c: char) {
    ('a' <= c <= 'z') || ('A' <= c <= 'Z') || ('0' <= c <= '9') || c == '_'
  }

  predicate IsScrapeName(s: string) {
    forall i :: 0 <= i < |s| ==> IsScrapeChar(s[i])
  }

  /** The identity part of the name that every report of a container shares. */
  function BasePrefix(h: Header): (r: string)
    ensures |r| == |h.jobName| + |h.jobId| + |h.containerName| + 2
    ensures r[..|h.jobName|] == h.jobName && r[|h.jobName|] == '_'
    ensures r[|h.jobName| + 1..|h.jobName| + 1 + |h.jobId|] == h.jobId && r[|h.jobName| + 1 + |h.jobId|] == '_'
    ensures r[|r| - |h.containerName|..] == h.containerName
  {
    h.jobName + "_" + h.jobId + "_" + h.containerName
  }

  /** The prefix of every name derived from a report: the source segment is
      present only for per-subcomponent reports, whose source differs from the
      container name; container roll-ups keep the shorter name. */
  function Prefix(h: Header): (r: string)
    ensures h.containerName == h.source ==> r == BasePrefix(h)
    ensures h.containerName != h.source ==> r == BasePrefix(h) + "_" + h.source
    ensures |r| == |BasePrefix(h)| + (if h.containerName == h.source then 0 else 1 + |h.source|)
  {
    var prefix := BasePrefix(h);
    if h.containerName != h.source then prefix + "_" + h.source else prefix
  }

  /** The replacement of one character: itself if allowed, an underscore otherwise. */
  function ScrapeChar(c: char): (d: char)
    ensures IsScrapeChar(d)
    ensures d == c <==> IsScrapeChar(c)
    ensures !IsScrapeChar(c) ==> d == '_'
  {
    if IsScrapeChar(c) then c else '_'
  }

  /** Replaces every character outside [a-zA-Z0-9_] by one underscore, one
      character at a time: nothing is collapsed, removed or inserted. */
  function Sanitize(s: string): (r: string)
    ensures |r| == |s|
  {
    if s == [] then [] else [ScrapeChar(s[0])] + Sanitize(s[1..])
  }

  /** Position i of a sanitised string holds the replacement of position i of
      the raw string. */
  lemma {:induction false} SanitizeAt(s: string, i: nat)
    requires i < |s|
    ensures Sanitize(s)[i] == ScrapeChar(s[i])
  {
    if i > 0 {
      SanitizeAt(s[1..], i - 1);
    }
  }

  /** Every sanitised string is in the scrape alphabet. */
  lemma SanitizeInScrapeAlphabet(s: string)
    ensures IsScrapeName(Sanitize(s))
  {
    forall i | 0 <= i < |s| ensures IsScrapeChar(Sanitize(s)[i]) {
      SanitizeAt(s, i);
    }
  }

  /** The fully-qualified name of a measurement, given the report's prefix. */
  function QualifiedName(prefix: string, group: string, name: string): (r: string)
    ensures |r| == |prefix| + |group| + |name| + 2
    ensures IsScrapeName(r)
  {
    SanitizeInScrapeAlphabet(prefix + "_" + group + "_" + name);
    Sanitize(prefix + "_" + group + "_" + name)
  }

  /** The name before sanitisation. */
  function RawName(h: Header, group: string, name: string): (r: string)
    ensures |r| == |Prefix(h)| + |group| + |name| + 2
    ensures r[..|Prefix(h)|] == Prefix(h) && r[|Prefix(h)|] == '_'
    ensures r[|Prefix(h)| + 1..|Prefix(h)| + 1 + |group|] == group && r[|Prefix(h)| + 1 + |group|] == '_'
    ensures r[|r| - |name|..] == name
  {
    Prefix(h) + "_" + group + "_" + name
  }

  /** The fully-qualified name of measurement (group, name) of a report with header h. */
  function FullyQualifiedName(h: Header, group: string, name: string): (r: string)
    ensures |r| == |RawName(h, group, name)|
    ensures IsScrapeName(r)
  {
    QualifiedName(Prefix(h), group, name)
  }

  /** A name already in the scrape alphabet is left as it is. */
  lemma {:induction false} SanitizeKeepsScrapeNames(s: string)
    requires IsScrapeName(s)
    ensures Sanitize(s) == s
  {
    if s != [] {
      assert IsScrapeName(s[1..]);
      SanitizeKeepsScrapeNames(s[1..]);
      assert s == [s[0]] + s[1..];
    }
  }

  /** Sanitising twice is sanitising once. */
  lemma SanitizeIdempotent(s: string)
    ensures Sanitize(Sanitize(s)) == Sanitize(s)
  {
    SanitizeInScrapeAlphabet(s);
    SanitizeKeepsScrapeNames(Sanitize(s));
  }

  /** A sanitised name is the raw name with exactly the characters outside the
      scrape alphabet turned into underscores: the same length, a position
      keeps its character if and only if that character was allowed, and every
      other position holds an underscore. */
  lemma SanitizedPositions(s: string, i: nat)
    requires i < |s|
    ensures |Sanitize(s)| == |s|
    ensures Sanitize(s)[i] == s[i] <==> IsScrapeChar(s[i])
    ensures !IsScrapeChar(s[i]) ==> Sanitize(s)[i] == '_'
  {
    SanitizeAt(s, i);
  }

  /** Sanitisation works segment by segment. */
  lemma {:induction false} SanitizeAppend(a: string, b: string)
    ensures Sanitize(a + b) == Sanitize(a) + Sanitize(b)
  {
    if a == [] {
      assert a + b == b;
    } else {
      var ab := a + b;
      assert ab[0] == a[0] && ab[1..] == a[1..] + b;
      SanitizeAppend(a[1..], b);
      calc {
        Sanitize(ab);
        [ScrapeChar(a[0])] + Sanitize(a[1..] + b);
        [ScrapeChar(a[0])] + (Sanitize(a[1..]) + Sanitize(b));
        ([ScrapeChar(a[0])] + Sanitize(a[1..])) + Sanitize(b);
      }
    }
  }

  /** Sanitisation is not injective: distinct raw names can share one gauge name. */
  lemma SanitizeNotInjective()
    ensures "a.b" != "a_b" && Sanitize("a.b") == Sanitize("a_b")
  {
    assert "a.b"[1] != "a_b"[1];
  }

  /** The sanitised name equals the raw name character for character wherever
      the raw name is in the scrape alphabet, and has the raw name's length. */
  lemma FullyQualifiedNameShape(h: Header, group: string, name: string)
    ensures |FullyQualifiedName(h, group, name)| == |RawName(h, group, name)|
    ensures forall i :: 0 <= i < |RawName(h, group, name)| ==>
      FullyQualifiedName(h, group, name)[i] == ScrapeChar(RawName(h, group, name)[i])
    ensures IsScrapeName(FullyQualifiedName(h, group, name))
  {
    var raw := RawName(h, group, name);
    forall i | 0 <= i < |raw| ensures Sanitize(raw)[i] == ScrapeChar(raw[i]) {
      SanitizeAt(raw, i);
    }
  }

  /** Joining two segments with an underscore commutes with sanitisation. */
  lemma SanitizeJoin(a: string, b: string)
    ensures Sanitize(a + "_" + b) == Sanitize(a) + "_" + Sanitize(b)
  {
    SanitizeAppend(a, "_");
    SanitizeAppend(a + "_", b);
  }

  /** The prefix is sanitised segment by segment; the source segment appears
      exactly when the source differs from the container name. */
  lemma SanitizedPrefixSegments(h: Header)
    ensures Sanitize(Prefix(h)) ==
      Sanitize(h.jobName) + "_" + Sanitize(h.jobId) + "_" + Sanitize(h.containerName)
      + (if h.containerName == h.source then "" else "_" + Sanitize(h.source))
  {
    SanitizeJoin(h.jobName, h.jobId);
    SanitizeJoin(h.jobName + "_" + h.jobId, h.containerName);
    if h.containerName != h.source {
      SanitizeJoin(BasePrefix(h), h.source);
    }
  }

  /** Each segment of the name is sanitised on its own and the separating
      underscores survive. */
  lemma FullyQualifiedNameSegments(h: Header, group: string, name: string)
    ensures FullyQualifiedName(h, group, name) ==
      Sanitize(Prefix(h)) + "_" + Sanitize(group) + "_" + Sanitize(name)
  {
    var prefix := Prefix(h);
    SanitizeJoin(prefix, group);
    SanitizeJoin(prefix + "_" + group, name);
  }

  /** Only the identity fields of the header decide the name. */
  lemma NameIgnoresInformationalFields(h1: Header, h2: Header, group: string, name: string)
    requires h1.jobName == h2.jobName && h1.jobId == h2.jobId
    requires h1.containerName == h2.containerName && h1.source == h2.source
    ensures FullyQualifiedName(h1, group, name) == FullyQualifiedName(h2, group, name)
  {
  }

  /** Two headers for the same container, one a roll-up (source is the
      container) and one per subcomponent, never yield the same raw name for
      the same group and metric name. */
  lemma RollupAndSubcomponentRawNamesDiffer(h1: Header, h2: Header, group: string, name: string)
    requires h1.jobName == h2.jobName && h1.jobId == h2.jobId && h1.containerName == h2.containerName
    requires h1.source == h1.containerName && h2.source != h2.containerName
    ensures RawName(h1, group, name) != RawName(h2, group, name)
  {
    assert |RawName(h1, group, name)| < |RawName(h2, group, name)|;
  }

  /** Hence the roll-up and the per-subcomponent report of one container never
      share a gauge: the per-subcomponent name is strictly longer. */
  lemma RollupAndSubcomponentNamesDiffer(h1: Header, h2: Header, group: string, name: string)
    requires h1.jobName == h2.jobName && h1.jobId == h2.jobId && h1.containerName == h2.containerName
    requires h1.source == h1.containerName && h2.source != h2.containerName
    ensures |FullyQualifiedName(h1, group, name)| < |FullyQualifiedName(h2, group, name)|
    ensures FullyQualifiedName(h1, group, name) != FullyQualifiedName(h2, group, name)
  {
    assert |RawName(h1, group, name)| < |RawName(h2, group, name)|;
  }

  /** Scenario header: job J, id 1, container C, with the given source. */
  predicate IsExampleHeader(h: Header, source: string) {
    h.jobName == "J" && h.jobId == "1" && h.containerName == "C" && h.source == source
  }

  /** A container roll-up: source equals the container name. */
  lemma ExampleRollupName(h: Header)
    requires IsExampleHeader(h, "C")
    ensures FullyQualifiedName(h, "g", "m") == "J_1_C_g_m"
  {
    assert RawName(h, "g", "m") == "J_1_C_g_m";
    SanitizeKeepsScrapeNames("J_1_C_g_m");
  }

  lemma SanitizeTaskSource()
    ensures Sanitize("task-0") == "task_0"
  {
    assert Sanitize("-0") == "_0";
  }

  lemma ExampleBasePrefix(h: Header, source: string)
    requires IsExampleHeader(h, source)
    ensures Sanitize(BasePrefix(h)) == "J_1_C"
  {
    assert BasePrefix(h) == "J_1_C";
    SanitizeKeepsScrapeNames("J_1_C");
  }

  lemma ExampleTaskHasSource(h: Header)
    requires IsExampleHeader(h, "task-0")
    ensures Prefix(h) == BasePrefix(h) + "_" + h.source
  {
    assert h.source[0] != h.containerName[0];
  }

  lemma ExampleTaskPrefix(h: Header)
    requires IsExampleHeader(h, "task-0")
    ensures Sanitize(Prefix(h)) == "J_1_C_task_0"
  {
    ExampleTaskHasSource(h);
    SanitizeJoin(BasePrefix(h), h.source);
    ExampleBasePrefix(h, "task-0");
    SanitizeTaskSource();
  }

  /** A per-task report: the source segment appears and its dash is replaced. */
  lemma ExampleTaskName(h: Header)
    requires IsExampleHeader(h, "task-0")
    ensures FullyQualifiedName(h, "g", "m") == "J_1_C_task_0_g_m"
  {
    ExampleTaskPrefix(h);
    FullyQualifiedNameSegments(h, "g", "m");
  }

  lemma ExampleRollupPrefix(h: Header)
    requires IsExampleHeader(h, "C")
    ensures Sanitize(Prefix(h)) == "J_1_C"
  {
    SanitizedPrefixSegments(h);
  }

  lemma SanitizePunctuatedName()
    ensures Sanitize("a.b/c") == "a_b_c"
  {
    assert Sanitize("/c") == "_c";
  }

  /** A metric name with two characters outside the alphabet. */
  lemma ExamplePunctuatedName(h: Header)
    requires IsExampleHeader(h, "C")
    ensures FullyQualifiedName(h, "g", "a.b/c") == "J_1_C_g_a_b_c"
  {
    ExampleRollupPrefix(h);
    SanitizePunctuatedName();
    FullyQualifiedNameSegments(h, "g", "a.b/c");
  }
}
