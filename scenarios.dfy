/**
  End-to-end behaviour of the collector on small reports: one container
  roll-up and one per-task report of job J, id 1, container C, with group g
  and metric m.
 */
module Scenarios {
  import opened Wrappers
  import opened Naming
  import opened Reconcile
  import opened Collector

  function SingleReport(h: Header, group: string, name: string, v: Value): MetricsReport {
    MetricsReport(h, [Group(group, [Measurement(name, v)])])
  }

  /** A report with one measurement reconciles exactly that measurement,
      under its fully-qualified name. */
  lemma SingleReportIsOneStep<F>(reg: Registry<F>, h: Header, group: string, name: string, v: Value, toFloat: string -> Option<F>)
    ensures RecordMetrics(reg, SingleReport(h, group, name, v), toFloat) ==
      Step(Running(reg), Update(FullyQualifiedName(h, group, name), v), toFloat)
  {
    var mr := SingleReport(h, group, name, v);
    var u := Update(FullyQualifiedName(h, group, name), v);
    assert mr.metrics[..0] == [];
    assert [Measurement(name, v)][..0] == [];
    assert GroupUpdates(Prefix(h), group, [Measurement(name, v)]) == [u];
    assert BodyUpdates(Prefix(h), mr.metrics) == [u];
    RunSnoc(Running(reg), [], u, toFloat);
    assert [] + [u] == [u];
  }

  /** One single-number report per token, all for the same (header, group, name). */
  function RepeatedReports(h: Header, group: string, name: string, tokens: seq<string>): (r: seq<MetricsReport>)
    ensures |r| == |tokens|
  {
    if tokens == [] then []
    else RepeatedReports(h, group, name, tokens[..|tokens| - 1]) + [SingleReport(h, group, name, Number(tokens[|tokens| - 1]))]
  }

  /** Reports that each carry one number for the same (header, group, name),
      all convertible, leave one entry for that name holding the last value,
      and change nothing else. */
  lemma {:induction false} RepeatedReportsLastWriteWins<F>(reg: Registry<F>, h: Header, group: string, name: string,
      tokens: seq<string>, toFloat: string -> Option<F>)
    requires |tokens| > 0
    requires forall i :: 0 <= i < |tokens| ==> toFloat(tokens[i]).Some?
    requires FullyQualifiedName(h, group, name) !in reg || reg[FullyQualifiedName(h, group, name)].Gauge?
    ensures RecordAll(reg, RepeatedReports(h, group, name, tokens), toFloat) ==
      Running(reg[FullyQualifiedName(h, group, name) := Gauge(toFloat(tokens[|tokens| - 1]).value)])
  {
    var k := FullyQualifiedName(h, group, name);
    var n := |tokens| - 1;
    var init := RepeatedReports(h, group, name, tokens[..n]);
    var last := SingleReport(h, group, name, Number(tokens[n]));
    assert RepeatedReports(h, group, name, tokens) == init + [last];
    RecordAllSnoc(reg, init, last, toFloat);
    if n == 0 {
      assert init == [];
      NumberReportSets(reg, h, group, name, tokens[n], toFloat);
    } else {
      var shorter := tokens[..n];
      assert shorter[|shorter| - 1] == tokens[n - 1];
      RepeatedReportsLastWriteWins(reg, h, group, name, shorter, toFloat);
      var mid := reg[k := Gauge(toFloat(tokens[n - 1]).value)];
      NumberReportSets(mid, h, group, name, tokens[n], toFloat);
      OverwriteTwice(reg, k, Gauge(toFloat(tokens[n - 1]).value), Gauge(toFloat(tokens[n]).value));
    }
  }

  lemma OverwriteTwice<F>(reg: Registry<F>, k: string, first: Metric<F>, second: Metric<F>)
    ensures reg[k := first][k := second] == reg[k := second]
  {
  }

  /** Reconciling one more report continues from the registry reached so far. */
  lemma RecordAllSnoc<F>(reg: Registry<F>, reports: seq<MetricsReport>, mr: MetricsReport, toFloat: string -> Option<F>)
    ensures RecordAll(reg, reports + [mr], toFloat) ==
      match RecordAll(reg, reports, toFloat)
      case Fatal(e) => Fatal(e)
      case Running(r) => RecordMetrics(r, mr, toFloat)
  {
    assert (reports + [mr])[..|reports|] == reports;
  }

  /** A report carrying one convertible number for a name that is absent or a
      gauge sets that name's gauge and changes nothing else. */
  lemma NumberReportSets<F>(reg: Registry<F>, h: Header, group: string, name: string, token: string, toFloat: string -> Option<F>)
    requires toFloat(token).Some?
    requires FullyQualifiedName(h, group, name) !in reg || reg[FullyQualifiedName(h, group, name)].Gauge?
    ensures RecordMetrics(reg, SingleReport(h, group, name, Number(token)), toFloat) ==
      Running(reg[FullyQualifiedName(h, group, name) := Gauge(toFloat(token).value)])
  {
    SingleReportIsOneStep(reg, h, group, name, Number(token), toFloat);
    NumberIsSet(reg, FullyQualifiedName(h, group, name), token, toFloat);
  }

  /** The number 5 of a roll-up report becomes gauge J_1_C_g_m
      holding 5 in the empty registry. */
  lemma RollupReportRegistersGauge<F>(h: Header, five: F, toFloat: string -> Option<F>)
    requires IsExampleHeader(h, "C") && toFloat("5") == Some(five)
    ensures RecordAll(map[], [SingleReport(h, "g", "m", Number("5"))], toFloat) ==
      Running(map["J_1_C_g_m" := Gauge(five)])
  {
    var reports := [SingleReport(h, "g", "m", Number("5"))];
    assert reports[..0] == [];
    ExampleRollupName(h);
    SingleReportIsOneStep(map[], h, "g", "m", Number("5"), toFloat);
  }

  /** Two reports of the same identity with 5 then 7 leave one
      entry, holding 7. */
  lemma SecondReportOverwrites<F>(h: Header, five: F, seven: F, toFloat: string -> Option<F>)
    requires IsExampleHeader(h, "C") && toFloat("5") == Some(five) && toFloat("7") == Some(seven)
    ensures RecordAll(map[], [SingleReport(h, "g", "m", Number("5")), SingleReport(h, "g", "m", Number("7"))], toFloat) ==
      Running(map["J_1_C_g_m" := Gauge(seven)])
    ensures |RecordAll(map[], [SingleReport(h, "g", "m", Number("5")), SingleReport(h, "g", "m", Number("7"))], toFloat).registry| == 1
  {
    var first := SingleReport(h, "g", "m", Number("5"));
    var reports := [first, SingleReport(h, "g", "m", Number("7"))];
    assert reports[..1] == [first];
    RollupReportRegistersGauge(h, five, toFloat);
    ExampleRollupName(h);
    SingleReportIsOneStep(map["J_1_C_g_m" := Gauge(five)], h, "g", "m", Number("7"), toFloat);
    assert map["J_1_C_g_m" := Gauge(five)]["J_1_C_g_m" := Gauge(seven)] == map["J_1_C_g_m" := Gauge(seven)];
  }

  /** A report holding only a boolean registers nothing. */
  lemma BooleanReportLeavesRegistryEmpty<F>(h: Header, toFloat: string -> Option<F>)
    ensures RecordMetrics(map[], SingleReport(h, "g", "m", Bool(true)), toFloat) == Running(map[])
  {
    BooleanReportRegistersNothing(map[], SingleReport(h, "g", "m", Bool(true)), toFloat);
  }

  /** A roll-up report, then a per-task report, register both names. */
  lemma RollupThenTaskRegistersBoth<F>(hc: Header, ht: Header, five: F, six: F, toFloat: string -> Option<F>)
    requires IsExampleHeader(hc, "C") && IsExampleHeader(ht, "task-0")
    requires toFloat("5") == Some(five) && toFloat("6") == Some(six)
    ensures RecordAll(map[], [SingleReport(hc, "g", "m", Number("5")), SingleReport(ht, "g", "m", Number("6"))], toFloat) ==
      Running(map["J_1_C_g_m" := Gauge(five), "J_1_C_task_0_g_m" := Gauge(six)])
  {
    var first := SingleReport(hc, "g", "m", Number("5"));
    var reports := [first, SingleReport(ht, "g", "m", Number("6"))];
    assert reports[..1] == [first];
    RollupReportRegistersGauge(hc, five, toFloat);
    ExampleTaskName(ht);
    SingleReportIsOneStep(map["J_1_C_g_m" := Gauge(five)], ht, "g", "m", Number("6"), toFloat);
  }

  /** The collector's own method, called on two reports of the same
      identity, leaves one gauge holding the second value. */
  method CollectTwoReports<F>(h: Header, five: F, seven: F, toFloat: string -> Option<F>) returns (metrics: Registry<F>)
    requires IsExampleHeader(h, "C") && toFloat("5") == Some(five) && toFloat("7") == Some(seven)
    ensures metrics == map["J_1_C_g_m" := Gauge(seven)]
  {
    var registry := new MetricsRegistry<F>();
    var first := SingleReport(h, "g", "m", Number("5"));
    var second := SingleReport(h, "g", "m", Number("7"));
    var fatal := registry.RecordMetrics(first, toFloat);
    RollupReportRegistersGauge(h, five, toFloat);
    assert [first][..0] == [];
    assert fatal == None;
    fatal := registry.RecordMetrics(second, toFloat);
    SecondReportOverwrites(h, five, seven, toFloat);
    assert [first, second][..1] == [first];
    assert fatal == None;
    metrics := registry.metrics;
  }
}
