/**
  Registry reconciliation: how each measurement of a report updates the
  registry that maps fully-qualified names to metrics.

  The floating-point type is the type parameter F, and the conversion of a
  decoded number token to it is the partial function `toFloat`, passed in.
  Reconciliation stops at the first fatal outcome, as the process exits there.
 */
module Reconcile {
  import opened Wrappers
  import opened Naming

  /** A decoded metric value: a number kept as its token, a boolean, or any
      other JSON value (string, null, array, object). */
  datatype Value = Number(token: string) | Bool(b: bool) | Other

  /** A registered metric: a gauge holding its last set value, or a metric of
      another kind registered under the same name. */
  datatype Metric<F> = Gauge(value: F) | OtherKind

  type Registry<F> = map<string, Metric<F>>

  datatype Error =
    | ConversionFailed(fqn: string, token: string)
    | KindMismatch(fqn: string)

  /** The state of reconciliation: still running over a registry, or stopped
      by a fatal error. */
  datatype State<F> = Running(registry: Registry<F>) | Fatal(error: Error)

  /** One measurement, already named. */
  datatype Update = Update(fqn: string, value: Value)

  /** The measurement (name, value) of a group. */
  datatype Measurement = Measurement(name: string, value: Value)

  /** A group of measurements, in the order the report body is walked. */
  datatype Group = Group(name: string, metrics: seq<Measurement>)

  /** A decoded report: its header and its body, a two-level map given as
      sequences in iteration order. */
  datatype MetricsReport = MetricsReport(header: Header, metrics: seq<Group>)

  /** Whether some measurement of us is a number for the name k: only those
      can change what k is bound to. */
  ghost predicate SetsName(us: seq<Update>, k: string) {
    exists i :: 0 <= i < |us| && us[i].fqn == k && us[i].value.Number?
  }

  /** The bad cases: a number that does not convert, or a number for a name
      already bound to a metric that is not a gauge. */
  predicate IsFatal<F>(reg: Registry<F>, u: Update, toFloat: string -> Option<F>) {
    u.value.Number? && (toFloat(u.value.token).None? || (u.fqn in reg && !reg[u.fqn].Gauge?))
  }

  /** Reconciles one measurement against the registry. */
  function Step<F>(st: State<F>, u: Update, toFloat: string -> Option<F>): (r: State<F>)
    // a stopped reconciliation stays stopped
    ensures st.Fatal? ==> r == st
    // fatal exactly on the bad cases, and with the matching error
    ensures st.Running? ==> (r.Fatal? <==> IsFatal(st.registry, u, toFloat))
    ensures st.Running? && r.Fatal? && toFloat(u.value.token).None? ==>
      r.error == ConversionFailed(u.fqn, u.value.token)
    ensures st.Running? && r.Fatal? && toFloat(u.value.token).Some? ==>
      r.error == KindMismatch(u.fqn) && u.fqn in st.registry && !st.registry[u.fqn].Gauge?
    // a converted number is set on the gauge of its name, created if absent
    ensures st.Running? && r.Running? && u.value.Number? ==>
      r.registry == st.registry[u.fqn := Gauge(toFloat(u.value.token).value)]
    // a name already present keeps the key set as it was
    ensures st.Running? && r.Running? && u.fqn in st.registry ==> r.registry.Keys == st.registry.Keys
    // booleans and other values leave the registry as it was
    ensures st.Running? && !u.value.Number? ==> r == st
  {
    match st
    case Fatal(_) => st
    case Running(reg) =>
      if !u.value.Number? then st
      else if toFloat(u.value.token).None? then Fatal(ConversionFailed(u.fqn, u.value.token))
      else if u.fqn in reg && !reg[u.fqn].Gauge? then Fatal(KindMismatch(u.fqn))
      else Running(reg[u.fqn := Gauge(toFloat(u.value.token).value)])
  }

  /** A convertible number for a name that is absent or a gauge is set on
      that name's gauge. */
  lemma NumberIsSet<F>(reg: Registry<F>, k: string, token: string, toFloat: string -> Option<F>)
    requires toFloat(token).Some? && (k !in reg || reg[k].Gauge?)
    ensures Step(Running(reg), Update(k, Number(token)), toFloat) == Running(reg[k := Gauge(toFloat(token).value)])
  {
  }

  /** Reconciles measurements in order. */
  function Run<F>(st: State<F>, us: seq<Update>, toFloat: string -> Option<F>): (r: State<F>)
    // a stopped reconciliation stays stopped
    ensures st.Fatal? ==> r == st
    // a reconciliation that keeps running never removes a name
    ensures st.Running? && r.Running? ==> st.registry.Keys <= r.registry.Keys
  {
    if us == [] then st else Step(Run(st, us[..|us| - 1], toFloat), us[|us| - 1], toFloat)
  }

  /** The named measurements of one group, in order. */
  function GroupUpdates(prefix: string, group: string, ms: seq<Measurement>): (r: seq<Update>)
    ensures |r| == |ms|
    ensures forall i :: 0 <= i < |r| ==> IsScrapeName(r[i].fqn)
  {
    if ms == [] then []
    else
      var last := ms[|ms| - 1];
      GroupUpdates(prefix, group, ms[..|ms| - 1]) + [Update(QualifiedName(prefix, group, last.name), last.value)]
  }

  /** The named measurements of a report body, group after group. */
  function BodyUpdates(prefix: string, gs: seq<Group>): (r: seq<Update>)
    ensures forall i :: 0 <= i < |r| ==> IsScrapeName(r[i].fqn)
  {
    if gs == [] then []
    else
      var last := gs[|gs| - 1];
      BodyUpdates(prefix, gs[..|gs| - 1]) + GroupUpdates(prefix, last.name, last.metrics)
  }

  /** The number of measurements in the first n groups: where group n's
      measurements start among the body's named measurements. */
  function Offset(gs: seq<Group>, n: nat): nat
    requires n <= |gs|
  {
    if n == 0 then 0 else Offset(gs, n - 1) + |gs[n - 1].metrics|
  }

  /** Reconciling one report against a registry. */
  function RecordMetrics<F>(reg: Registry<F>, mr: MetricsReport, toFloat: string -> Option<F>): (r: State<F>)
    // names are never removed
    ensures r.Running? ==> reg.Keys <= r.registry.Keys
    // a fatal outcome is a failed conversion or a name bound to a non-gauge before the report
    ensures r.Fatal? ==> r.error.ConversionFailed? || (r.error.fqn in reg && !reg[r.error.fqn].Gauge?)
  {
    var us := BodyUpdates(Prefix(mr.header), mr.metrics);
    var outcome := Run(Running(reg), us, toFloat);
    if outcome.Fatal? then
      FatalHasCause(reg, us, toFloat);
      outcome
    else
      outcome
  }

  /** Reconciling the reports the consumer reads, one after the other, into the
      registry that exists from start-up. */
  function RecordAll<F>(reg: Registry<F>, reports: seq<MetricsReport>, toFloat: string -> Option<F>): (r: State<F>)
    // names registered from start-up are never removed
    ensures r.Running? ==> reg.Keys <= r.registry.Keys
  {
    if reports == [] then Running(reg)
    else
      match RecordAll(reg, reports[..|reports| - 1], toFloat)
      case Fatal(e) => Fatal(e)
      case Running(r) => RecordMetrics(r, reports[|reports| - 1], toFloat)
  }

  /** How a running reconciliation may change the registry: keys are only
      added, and only for names that received a number; a new key holds a
      gauge; a key that received no number (none at all, or only booleans and
      other values) keeps its metric; no key changes kind; a non-gauge never
      changes. */
  ghost predicate Evolves<F>(before: Registry<F>, after: Registry<F>, us: seq<Update>) {
    && before.Keys <= after.Keys
    && (forall k :: k in after && k !in before ==> SetsName(us, k) && after[k].Gauge?)
    && (forall k :: k in before && !SetsName(us, k) ==> after[k] == before[k])
    && (forall k :: k in before && before[k].Gauge? ==> after[k].Gauge?)
    && (forall k :: k in before && !before[k].Gauge? ==> after[k] == before[k])
  }

  ghost predicate AllGauges<F>(reg: Registry<F>) {
    forall k :: k in reg ==> reg[k].Gauge?
  }

  ghost predicate AllScrapeNames<F>(reg: Registry<F>) {
    forall k :: k in reg ==> IsScrapeName(k)
  }

  // ---------------------------------------------------------------- lemmas

  /** Reconciling one more measurement is one more step. */
  lemma RunSnoc<F>(st: State<F>, us: seq<Update>, u: Update, toFloat: string -> Option<F>)
    ensures Run(st, us + [u], toFloat) == Step(Run(st, us, toFloat), u, toFloat)
  {
    assert (us + [u])[..|us + [u]| - 1] == us;
  }

  /** The named measurements of the first j + 1 measurements of a group. */
  lemma GroupUpdatesSnoc(prefix: string, group: string, ms: seq<Measurement>, j: nat)
    requires j < |ms|
    ensures GroupUpdates(prefix, group, ms[..j + 1]) ==
      GroupUpdates(prefix, group, ms[..j]) + [Update(QualifiedName(prefix, group, ms[j].name), ms[j].value)]
  {
    assert ms[..j + 1][..j] == ms[..j];
  }

  /** The named measurements of the first n measurements start those of the whole group. */
  lemma {:induction false} GroupUpdatesPrefix(prefix: string, group: string, ms: seq<Measurement>, n: nat)
    requires n <= |ms|
    ensures GroupUpdates(prefix, group, ms[..n]) <= GroupUpdates(prefix, group, ms)
  {
    if n < |ms| {
      GroupUpdatesPrefix(prefix, group, ms[..|ms| - 1], n);
      assert ms[..|ms| - 1][..n] == ms[..n];
    } else {
      assert ms[..n] == ms;
    }
  }

  /** The i-th named measurement of a group is its i-th measurement, named. */
  lemma {:induction false} GroupUpdatesAt(prefix: string, group: string, ms: seq<Measurement>, i: nat)
    requires i < |ms|
    ensures GroupUpdates(prefix, group, ms)[i] == Update(QualifiedName(prefix, group, ms[i].name), ms[i].value)
  {
    if i < |ms| - 1 {
      GroupUpdatesAt(prefix, group, ms[..|ms| - 1], i);
    }
  }

  /** The named measurements of the first i + 1 groups. */
  lemma BodyUpdatesSnoc(prefix: string, gs: seq<Group>, i: nat)
    requires i < |gs|
    ensures BodyUpdates(prefix, gs[..i + 1]) ==
      BodyUpdates(prefix, gs[..i]) + GroupUpdates(prefix, gs[i].name, gs[i].metrics)
  {
    assert gs[..i + 1][..i] == gs[..i];
  }

  /** The named measurements of the first n groups of a body start those of the whole body. */
  lemma {:induction false} BodyUpdatesPrefix(prefix: string, gs: seq<Group>, n: nat)
    requires n <= |gs|
    ensures BodyUpdates(prefix, gs[..n]) <= BodyUpdates(prefix, gs)
  {
    if n < |gs| {
      BodyUpdatesPrefix(prefix, gs[..|gs| - 1], n);
      assert gs[..|gs| - 1][..n] == gs[..n];
    } else {
      assert gs[..n] == gs;
    }
  }

  /** The first groups of a longer body start at the same offsets. */
  lemma {:induction false} OffsetPrefix(gs: seq<Group>, m: nat, n: nat)
    requires n <= m <= |gs|
    ensures Offset(gs[..m], n) == Offset(gs, n)
  {
    if n > 0 {
      OffsetPrefix(gs, m, n - 1);
      assert gs[..m][n - 1] == gs[n - 1];
    }
  }

  /** A body yields exactly one named measurement per measurement of its groups. */
  lemma {:induction false} BodyUpdatesLength(prefix: string, gs: seq<Group>)
    ensures |BodyUpdates(prefix, gs)| == Offset(gs, |gs|)
  {
    if gs != [] {
      var n := |gs| - 1;
      BodyUpdatesLength(prefix, gs[..n]);
      OffsetPrefix(gs, n, n);
    }
  }

  /** Measurement j of group i is reconciled at position Offset(gs, i) + j,
      under its fully-qualified name: the body is walked group by group and,
      within a group, measurement by measurement. */
  lemma {:induction false} BodyUpdatesAt(prefix: string, gs: seq<Group>, i: nat, j: nat)
    requires i < |gs| && j < |gs[i].metrics|
    ensures Offset(gs, i) + j < |BodyUpdates(prefix, gs)|
    ensures BodyUpdates(prefix, gs)[Offset(gs, i) + j] ==
      Update(QualifiedName(prefix, gs[i].name, gs[i].metrics[j].name), gs[i].metrics[j].value)
  {
    var n := |gs| - 1;
    var init := gs[..n];
    BodyUpdatesLength(prefix, init);
    OffsetPrefix(gs, n, n);
    if i == n {
      GroupUpdatesAt(prefix, gs[i].name, gs[i].metrics, j);
    } else {
      assert init[i] == gs[i];
      BodyUpdatesAt(prefix, init, i, j);
      OffsetPrefix(gs, n, i);
    }
  }

  /** A fatal outcome on a prefix of the measurements is the outcome of them all. */
  lemma FatalOnPrefix<F>(st: State<F>, us: seq<Update>, vs: seq<Update>, e: Error, toFloat: string -> Option<F>)
    requires us <= vs
    requires Run(st, us, toFloat) == Fatal(e)
    ensures Run(st, vs, toFloat) == Fatal(e)
  {
    assert vs == us + vs[|us|..];
    RunAppend(st, us, vs[|us|..], toFloat);
    FatalStops(e, vs[|us|..], toFloat);
  }

  /** Once fatal, the rest of the measurements change nothing. */
  lemma {:induction false} FatalStops<F>(e: Error, us: seq<Update>, toFloat: string -> Option<F>)
    ensures Run(Fatal(e), us, toFloat) == Fatal(e)
  {
    if us != [] {
      FatalStops(e, us[..|us| - 1], toFloat);
    }
  }

  /** Reconciling a + b is reconciling a, then b. */
  lemma {:induction false} RunAppend<F>(st: State<F>, a: seq<Update>, b: seq<Update>, toFloat: string -> Option<F>)
    ensures Run(st, a + b, toFloat) == Run(Run(st, a, toFloat), b, toFloat)
  {
    if b == [] {
      assert a + b == a;
    } else {
      assert (a + b)[..|a + b| - 1] == a + b[..|b| - 1];
      RunAppend(st, a, b[..|b| - 1], toFloat);
    }
  }

  /** Every running reconciliation evolves the registry as Evolves says. */
  lemma {:induction false} RunEvolves<F>(reg: Registry<F>, us: seq<Update>, toFloat: string -> Option<F>)
    requires Run(Running(reg), us, toFloat).Running?
    ensures Evolves(reg, Run(Running(reg), us, toFloat).registry, us)
  {
    if us != [] {
      var init := us[..|us| - 1];
      var u := us[|us| - 1];
      var mid := Run(Running(reg), init, toFloat);
      if mid.Fatal? {
        FatalStops(mid.error, [u], toFloat);
        assert false;
      }
      RunEvolves(reg, init, toFloat);
      forall k | SetsName(init, k) ensures SetsName(us, k) {
        var i :| 0 <= i < |init| && init[i].fqn == k && init[i].value.Number?;
        assert us[i] == init[i];
      }
      assert us[|us| - 1] == u;
      if u.value.Number? {
        assert SetsName(us, u.fqn);
      }
    }
  }

  /** Last write wins: numbers that all convert, all for one name bound to a
      gauge or absent, leave exactly one entry for that name, holding the last
      value, and change nothing else. */
  lemma {:induction false} LastWriteWins<F>(reg: Registry<F>, k: string, us: seq<Update>, toFloat: string -> Option<F>)
    requires |us| > 0
    requires k !in reg || reg[k].Gauge?
    requires forall i :: 0 <= i < |us| ==> us[i].fqn == k && us[i].value.Number?
    requires forall i :: 0 <= i < |us| ==> toFloat(us[i].value.token).Some?
    ensures Run(Running(reg), us, toFloat) ==
      Running(reg[k := Gauge(toFloat(us[|us| - 1].value.token).value)])
  {
    var u := us[|us| - 1];
    if |us| > 1 {
      var init := us[..|us| - 1];
      LastWriteWins(reg, k, init, toFloat);
      var mid := reg[k := Gauge(toFloat(init[|init| - 1].value.token).value)];
      assert mid[k := Gauge(toFloat(u.value.token).value)] == reg[k := Gauge(toFloat(u.value.token).value)];
    } else {
      assert us[..0] == [];
    }
  }

  /** Last write wins in any run: when a run does not fail, a name that
      received a number holds a gauge with the value of the last number it
      received, whatever other names and values came in between. */
  lemma {:induction false} LastNumberWins<F>(reg: Registry<F>, k: string, us: seq<Update>, j: nat, toFloat: string -> Option<F>)
    requires Run(Running(reg), us, toFloat).Running?
    requires j < |us| && us[j].fqn == k && us[j].value.Number?
    requires forall i :: j < i < |us| ==> !(us[i].fqn == k && us[i].value.Number?)
    ensures toFloat(us[j].value.token).Some?
    ensures k in Run(Running(reg), us, toFloat).registry
    ensures Run(Running(reg), us, toFloat).registry[k] == Gauge(toFloat(us[j].value.token).value)
  {
    var init := us[..|us| - 1];
    var u := us[|us| - 1];
    var mid := Run(Running(reg), init, toFloat);
    assert mid.Running?;
    if j < |us| - 1 {
      forall i | j < i < |init| ensures !(init[i].fqn == k && init[i].value.Number?) {
        assert init[i] == us[i];
      }
      LastNumberWins(reg, k, init, j, toFloat);
    }
  }

  /** Measurements that are not numbers leave the state as it was. */
  lemma {:induction false} NonNumbersSkipped<F>(st: State<F>, us: seq<Update>, toFloat: string -> Option<F>)
    requires forall i :: 0 <= i < |us| ==> !us[i].value.Number?
    ensures Run(st, us, toFloat) == st
  {
    if us != [] {
      NonNumbersSkipped(st, us[..|us| - 1], toFloat);
    }
  }

  /** A number that does not convert, or a number for a name bound to a metric
      of another kind, makes the reconciliation fatal. */
  lemma {:induction false} BadNumberIsFatal<F>(reg: Registry<F>, us: seq<Update>, j: nat, toFloat: string -> Option<F>)
    requires j < |us| && us[j].value.Number?
    requires toFloat(us[j].value.token).None? || (us[j].fqn in reg && !reg[us[j].fqn].Gauge?)
    ensures Run(Running(reg), us, toFloat).Fatal?
  {
    var before := us[..j];
    var u := us[j];
    assert us == before + [u] + us[j + 1..];
    RunAppend(Running(reg), before + [u], us[j + 1..], toFloat);
    RunAppend(Running(reg), before, [u], toFloat);
    var mid := Run(Running(reg), before, toFloat);
    if mid.Running? {
      RunEvolves(reg, before, toFloat);
      assert Step(mid, u, toFloat).Fatal?;
    }
    var stopped := Run(Running(reg), before + [u], toFloat);
    FatalStops(stopped.error, us[j + 1..], toFloat);
  }

  /** A fatal outcome names its cause: a number whose conversion failed, or a
      name that was already bound to a non-gauge before reconciliation began. */
  lemma {:induction false} FatalHasCause<F>(reg: Registry<F>, us: seq<Update>, toFloat: string -> Option<F>)
    requires Run(Running(reg), us, toFloat).Fatal?
    ensures match Run(Running(reg), us, toFloat).error
      case ConversionFailed(fqn, token) =>
        exists i :: 0 <= i < |us| && us[i] == Update(fqn, Number(token)) && toFloat(token).None?
      case KindMismatch(fqn) =>
        fqn in reg && !reg[fqn].Gauge? && exists i :: 0 <= i < |us| && us[i].fqn == fqn && us[i].value.Number?
  {
    var init := us[..|us| - 1];
    var u := us[|us| - 1];
    var mid := Run(Running(reg), init, toFloat);
    if mid.Fatal? {
      FatalHasCause(reg, init, toFloat);
      match mid.error
      case ConversionFailed(fqn, token) =>
        var i :| 0 <= i < |init| && init[i] == Update(fqn, Number(token)) && toFloat(token).None?;
        assert us[i] == init[i];
      case KindMismatch(fqn) =>
        var i :| 0 <= i < |init| && init[i].fqn == fqn && init[i].value.Number?;
        assert us[i] == init[i];
    } else {
      RunEvolves(reg, init, toFloat);
      assert us[|us| - 1] == u;
    }
  }

  /** A registry of gauges only never meets the kind mismatch. */
  lemma NoKindMismatchOverGauges<F>(reg: Registry<F>, us: seq<Update>, toFloat: string -> Option<F>)
    requires AllGauges(reg)
    requires Run(Running(reg), us, toFloat).Fatal?
    ensures Run(Running(reg), us, toFloat).error.ConversionFailed?
  {
    FatalHasCause(reg, us, toFloat);
  }

  /** A report that does not fail keeps a registry of gauges under scrape
      names such a registry. */
  lemma RecordMetricsKeepsRegistryShape<F>(reg: Registry<F>, mr: MetricsReport, toFloat: string -> Option<F>)
    requires AllGauges(reg) && AllScrapeNames(reg)
    requires RecordMetrics(reg, mr, toFloat).Running?
    ensures AllGauges(RecordMetrics(reg, mr, toFloat).registry)
    ensures AllScrapeNames(RecordMetrics(reg, mr, toFloat).registry)
  {
    var us := BodyUpdates(Prefix(mr.header), mr.metrics);
    RunEvolves(reg, us, toFloat);
    var after := RecordMetrics(reg, mr, toFloat).registry;
    forall k | k in after ensures IsScrapeName(k) {
      if k !in reg {
        var i :| 0 <= i < |us| && us[i].fqn == k;
      }
    }
  }

  /** Every registry reached from the empty one through any sequence of
      reports holds only gauges under scrape names, and the kind mismatch is
      never the reason a reconciliation stops. */
  lemma {:induction false} RecordAllInvariant<F>(reports: seq<MetricsReport>, toFloat: string -> Option<F>)
    ensures RecordAll(map[], reports, toFloat).Running? ==>
      AllGauges(RecordAll(map[], reports, toFloat).registry) &&
      AllScrapeNames(RecordAll(map[], reports, toFloat).registry)
    ensures RecordAll(map[], reports, toFloat).Fatal? ==>
      RecordAll(map[], reports, toFloat).error.ConversionFailed?
  {
    if reports != [] {
      var init := reports[..|reports| - 1];
      RecordAllInvariant(init, toFloat);
      var mid := RecordAll(map[], init, toFloat);
      if mid.Running? {
        var last := reports[|reports| - 1];
        if RecordMetrics(mid.registry, last, toFloat).Running? {
          RecordMetricsKeepsRegistryShape(mid.registry, last, toFloat);
        } else {
          NoKindMismatchOverGauges(mid.registry, BodyUpdates(Prefix(last.header), last.metrics), toFloat);
        }
      }
    }
  }

  /** Whether every measurement of a body holds a boolean. */
  ghost predicate AllBooleans(gs: seq<Group>) {
    forall i, j :: 0 <= i < |gs| && 0 <= j < |gs[i].metrics| ==> gs[i].metrics[j].value.Bool?
  }

  lemma {:induction false} BodyUpdatesOfBooleans(prefix: string, gs: seq<Group>)
    requires AllBooleans(gs)
    ensures forall i :: 0 <= i < |BodyUpdates(prefix, gs)| ==> BodyUpdates(prefix, gs)[i].value.Bool?
  {
    if gs != [] {
      var init := gs[..|gs| - 1];
      var last := gs[|gs| - 1];
      assert AllBooleans(init) by {
        forall i, j | 0 <= i < |init| && 0 <= j < |init[i].metrics| ensures init[i].metrics[j].value.Bool? {
          assert init[i] == gs[i];
        }
      }
      BodyUpdatesOfBooleans(prefix, init);
      forall j | 0 <= j < |last.metrics| ensures GroupUpdates(prefix, last.name, last.metrics)[j].value.Bool? {
        GroupUpdatesAt(prefix, last.name, last.metrics, j);
      }
    }
  }

  /** A report whose values are all booleans registers nothing. */
  lemma BooleanReportRegistersNothing<F>(reg: Registry<F>, mr: MetricsReport, toFloat: string -> Option<F>)
    requires AllBooleans(mr.metrics)
    ensures RecordMetrics(reg, mr, toFloat) == Running(reg)
  {
    BodyUpdatesOfBooleans(Prefix(mr.header), mr.metrics);
    NonNumbersSkipped(Running(reg), BodyUpdates(Prefix(mr.header), mr.metrics), toFloat);
  }

  /** Among the measurements that are numbers for k, there is a last one. */
  lemma {:induction false} LastNumberFor(us: seq<Update>, k: string, p: nat) returns (q: nat)
    requires p < |us| && us[p].fqn == k && us[p].value.Number?
    ensures p <= q < |us| && us[q].fqn == k && us[q].value.Number?
    ensures forall i :: q < i < |us| ==> !(us[i].fqn == k && us[i].value.Number?)
  {
    var n := |us| - 1;
    if us[n].fqn == k && us[n].value.Number? {
      q := n;
    } else {
      q := LastNumberFor(us[..n], k, p);
    }
  }

  /** A report that does not fail registers, for every number it carries, a
      gauge under that measurement's fully-qualified name. */
  lemma ReportRegistersNumbers<F>(reg: Registry<F>, mr: MetricsReport, i: nat, j: nat, toFloat: string -> Option<F>)
    requires RecordMetrics(reg, mr, toFloat).Running?
    requires i < |mr.metrics| && j < |mr.metrics[i].metrics| && mr.metrics[i].metrics[j].value.Number?
    ensures FullyQualifiedName(mr.header, mr.metrics[i].name, mr.metrics[i].metrics[j].name) in RecordMetrics(reg, mr, toFloat).registry
    ensures RecordMetrics(reg, mr, toFloat).registry[FullyQualifiedName(mr.header, mr.metrics[i].name, mr.metrics[i].metrics[j].name)].Gauge?
  {
    var us := BodyUpdates(Prefix(mr.header), mr.metrics);
    var k := FullyQualifiedName(mr.header, mr.metrics[i].name, mr.metrics[i].metrics[j].name);
    BodyUpdatesAt(Prefix(mr.header), mr.metrics, i, j);
    var q := LastNumberFor(us, k, Offset(mr.metrics, i) + j);
    LastNumberWins(reg, k, us, q, toFloat);
  }

  /** A report carrying a number that does not convert, at any group and
      measurement, is fatal. */
  lemma ReportBadNumberIsFatal<F>(reg: Registry<F>, mr: MetricsReport, i: nat, j: nat, toFloat: string -> Option<F>)
    requires i < |mr.metrics| && j < |mr.metrics[i].metrics| && mr.metrics[i].metrics[j].value.Number?
    requires toFloat(mr.metrics[i].metrics[j].value.token).None?
    ensures RecordMetrics(reg, mr, toFloat).Fatal?
  {
    BodyUpdatesAt(Prefix(mr.header), mr.metrics, i, j);
    BadNumberIsFatal(reg, BodyUpdates(Prefix(mr.header), mr.metrics), Offset(mr.metrics, i) + j, toFloat);
  }
}
