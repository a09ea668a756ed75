# samza-metrics-collector: naming and registry reconciliation

The collector consumes Samza metrics reports and exposes each numeric
measurement as a Prometheus gauge. This project models the core of that work,
`recordMetrics` in `main.go`, together with the header of a report. It has
two parts.

**Name derivation** (`naming.dfy`, module `Naming`). The prefix of a report
is `jobName_jobId_containerName`. `_source` is appended only when the source
differs from the container name, that is, for per-subcomponent reports rather
than container roll-ups. The raw name of a measurement is
`prefix_group_metricName`. Every character outside `[a-zA-Z0-9_]` is then
replaced by one underscore. Strings are sequences of code points, because the
regular expression matches one rune at a time.

**Registry reconciliation** (`reconcile.dfy`, module `Reconcile`, and
`collector.dfy`, module `Collector`).

- Each measurement updates the map from fully-qualified names to metrics.
- A number is converted to a float. A failed conversion is fatal.
- The number is then set on the gauge of its name. That gauge is created if the name is absent and reused if it is a gauge already.
- A name bound to another kind of metric is fatal.
- Booleans and all other values are skipped.

`Reconcile` states this as a pure step function and a fold over the
measurements. It also holds the lemmas: last write wins, how the registry may
evolve, when and why a run is fatal, and the invariant kept across a stream
of reports. `Collector.MetricsRegistry` is the registry the consumer owns.
Its `RecordMetrics` walks the report body group by group and measurement by
measurement, updating its `metrics` map in place. Each of its methods is
proved to end in the state the pure fold computes. `scenarios.dfy` (module
`Scenarios`) works through small concrete reports.

Modelling choices:

- **Floats.** The floating-point type is the type parameter `F`. The conversion `json.Number.Float64` is the parameter `toFloat: string -> Option<F>`.
- **Fatal exits.** `log.Fatal` ends the process. The pure model turns it into a `Fatal(error)` state that absorbs every later step. The methods return `Some(error)` at once.
- **Map order.** Go iterates the two-level body map in an unspecified order. The body is therefore given as a sequence of groups, each a sequence of measurements, in the order they are visited. Every proved property holds for every such order.

## Model

| member | source | states |
|---|---|---|
| Naming.BasePrefix | main.go:33 | The base prefix is the job name, `_`, the job id, `_`, then the container name, and its length is the sum of theirs plus two. `Naming.SanitizedPrefixSegments` states how it sanitises. |
| Naming.Prefix | main.go:33-36 | The prefix is job name, job id and container name joined by underscores. `_source` follows exactly when the source differs from the container name. The length follows from that. |
| Naming.ScrapeChar | main.go:41-42 | The replacement of a character is always in `[a-zA-Z0-9_]`. It equals the character if and only if the character was allowed. A disallowed character becomes `_`. |
| Naming.Sanitize | main.go:41-42 | Sanitising keeps the length in characters: nothing is collapsed, removed or inserted. |
| Naming.SanitizeAt | main.go:41-42 | Position i of the sanitised string is the replacement of position i of the raw string. |
| Naming.SanitizedPositions | main.go:41-42 | A position keeps its character if and only if that character is allowed. Every other position becomes `_`. The length is unchanged. |
| Naming.SanitizeInScrapeAlphabet | main.go:41-42 | Every character of a sanitised string lies in `[a-zA-Z0-9_]`. |
| Naming.SanitizeKeepsScrapeNames | main.go:41-42 | A string already in the scrape alphabet is left unchanged. |
| Naming.SanitizeIdempotent | main.go:41-42 | Sanitising twice equals sanitising once. |
| Naming.SanitizeAppend | main.go:41-42 | Sanitising a concatenation equals concatenating the sanitised parts. |
| Naming.RawName | main.go:40 | The raw name is the prefix, `_`, the group, `_`, then the metric name, and its length is the sum of theirs plus two. |
| Naming.FullyQualifiedName | main.go:33-42 | The gauge name of a measurement has the raw name's length and lies in the scrape alphabet. `Naming.FullyQualifiedNameShape` and `Naming.FullyQualifiedNameSegments` give its characters and its segments. |
| Naming.SanitizeJoin | main.go:40-42 | Sanitising two segments joined by `_` sanitises each segment and keeps the separator. |
| Naming.SanitizeNotInjective | main.go:41-42 | Two distinct raw names, `a.b` and `a_b`, share one sanitised name. |
| Naming.QualifiedName | main.go:40-42 | The fully-qualified name, given the report's prefix, is as long as the raw name `prefix_group_name` and lies in the scrape alphabet. |
| Naming.FullyQualifiedNameShape | main.go:33-42 | The fully-qualified name has the raw name's length. It is the raw name with each character replaced position by position. It is in the scrape alphabet. |
| Naming.SanitizedPrefixSegments | main.go:33-36 | The sanitised prefix is the sanitised job name, job id and container name. The sanitised source follows exactly when the source differs from the container name. |
| Naming.FullyQualifiedNameSegments | main.go:40-42 | The fully-qualified name is the sanitised prefix, group and metric name, separated by underscores. |
| Naming.NameIgnoresInformationalFields | main.go:16-28 | Headers that agree on job name, job id, container name and source yield the same name for every group and metric. Time, host, version and the other header fields play no part. |
| Naming.RollupAndSubcomponentRawNamesDiffer | main.go:33-36 | For one container, a roll-up report and a per-subcomponent report never share a raw name for the same group and metric. |
| Naming.RollupAndSubcomponentNamesDiffer | main.go:33-42 | The gauge names of a roll-up report and a per-subcomponent report of one container also differ: the per-subcomponent name is strictly longer. |
| Naming.ExampleRollupName | main.go:33-42 | Job J, id 1, container C and source C, with group g and metric m, give `J_1_C_g_m`. |
| Naming.ExampleTaskName | main.go:33-42 | The same with source `task-0` gives `J_1_C_task_0_g_m`. |
| Naming.ExamplePunctuatedName | main.go:40-42 | Metric name `a.b/c` in a roll-up report gives `J_1_C_g_a_b_c`. |
| Reconcile.Step | main.go:47-67 | A measurement is fatal exactly when it is a number whose conversion fails, or a number whose name is bound to a non-gauge. The error says which case. Otherwise a number sets its name to a gauge holding the converted value and changes no other key. A name already present keeps the key set as it was. Booleans and other values change nothing. Once fatal, always fatal. |
| Reconcile.NumberIsSet | main.go:53-64 | A convertible number for a name that is absent or a gauge binds that name to a gauge holding the value. |
| Reconcile.GroupUpdates | main.go:39-42 | A group yields one named measurement per measurement. Every name lies in the scrape alphabet. |
| Reconcile.GroupUpdatesAt | main.go:39-42 | The i-th named measurement of a group is the i-th measurement under its fully-qualified name. |
| Reconcile.BodyUpdates | main.go:38-42 | Every measurement name in a report body lies in the scrape alphabet. `Reconcile.BodyUpdatesLength` and `Reconcile.BodyUpdatesAt` state that the updates are exactly the body's measurements, group by group, each under its fully-qualified name. |
| Reconcile.BodyUpdatesLength | main.go:38-39 | A body yields exactly one named measurement per measurement of its groups. |
| Reconcile.BodyUpdatesAt | main.go:38-42 | Measurement j of group i is reconciled at position `Offset(gs, i) + j`, that is, after every measurement of the earlier groups and the earlier measurements of its own group, under its fully-qualified name. |
| Reconcile.Run | main.go:38-67 | Reconciling the visited measurements in order never removes a name while it keeps running. Once a measurement is fatal, the state stays fatal. `Reconcile.RunEvolves`, `Reconcile.LastNumberWins` and `Reconcile.FatalHasCause` state the rest. |
| Reconcile.RecordMetrics | main.go:32-70 | Reconciling one report never removes a name. A fatal outcome is either a failed conversion or a name that was bound to a non-gauge before the report. `Reconcile.ReportRegistersNumbers` and `Reconcile.ReportBadNumberIsFatal` state the outcome for the report's own measurements. |
| Reconcile.ReportRegistersNumbers | main.go:38-64 | When a report does not fail, every number it carries, at any group and measurement, has a gauge registered under that measurement's fully-qualified name. |
| Reconcile.ReportBadNumberIsFatal | main.go:38-51 | A report carrying a number that does not convert, at any group and measurement, ends fatally. |
| Reconcile.RecordAll | main.go:88-100 | Reconciling the reports read since start-up into the one registry never removes a name. `Reconcile.RecordAllInvariant` states what that registry holds. |
| Reconcile.RunAppend | main.go:38-39 | Reconciling two runs of measurements in turn equals reconciling their concatenation. |
| Reconcile.FatalStops | main.go:51 | After a fatal exit, later measurements have no effect. |
| Reconcile.RunEvolves | main.go:53-67 | A run that does not fail only adds keys. A new key is a name that received a number, and it holds a gauge. A key that received no number keeps its metric, even if it received booleans or other values. A gauge stays a gauge. A non-gauge is never changed. |
| Reconcile.LastWriteWins | main.go:54-64 | Convertible numbers that all target one name, absent or a gauge, leave that name bound to a gauge holding the last value. Nothing else changes. |
| Reconcile.LastNumberWins | main.go:49-64 | In any run that does not fail, including one where other names and values interleave, a name that received a number holds a gauge. Its value is the conversion of the last number that name received, and that conversion succeeded. |
| Reconcile.NonNumbersSkipped | main.go:65-67 | Measurements that are not numbers leave the state unchanged. |
| Reconcile.BadNumberIsFatal | main.go:49-58 | One failing conversion, or a number for a name that was bound to a non-gauge at the start, makes the whole run fatal. |
| Reconcile.FatalHasCause | main.go:49-58 | A fatal run names its cause. A conversion failure points to a measured number token that does not convert. A kind mismatch points to a measured number whose name was bound to a non-gauge before the run began. |
| Reconcile.NoKindMismatchOverGauges | main.go:57-58 | Over a registry of gauges only, the kind mismatch is never why a run stops. |
| Reconcile.RecordMetricsKeepsRegistryShape | main.go:53-63 | A report that does not fail keeps the registry as gauges under names in the scrape alphabet. |
| Reconcile.RecordAllInvariant | main.go:32-70 | Starting from the empty registry and reading any stream of reports, the registry holds only gauges under names in the scrape alphabet. The only fatal outcome is a failed conversion. |
| Reconcile.BodyUpdatesOfBooleans | main.go:65-66 | A body holding only booleans yields only boolean measurements. |
| Reconcile.BooleanReportRegistersNothing | main.go:65-66 | A report whose values are all booleans leaves the registry unchanged. |
| Collector.MetricsRegistry.constructor | main.go:88 | The registry starts empty. |
| Collector.MetricsRegistry.Observe | main.go:47-67 | Handling one measurement in place ends in the state that `Reconcile.Step` gives, or returns that state's error. Keys are never removed, and every key stays in the scrape alphabet. |
| Collector.MetricsRegistry.RecordGroup | main.go:39-68 | The inner loop over a group ends in the state that the fold over the group's named measurements gives. It returns the first fatal error at once. |
| Collector.MetricsRegistry.RecordMetrics | main.go:32-70 | The nested loops over a report end in the registry that `Reconcile.RecordMetrics` computes. A fatal error is returned at once. Keys are never removed, and every key stays in the scrape alphabet. |
| Scenarios.SingleReportIsOneStep | main.go:32-67 | A report with one measurement is one step under that measurement's fully-qualified name. |
| Scenarios.RepeatedReportsLastWriteWins | main.go:54-64 | Reports that each carry a convertible number for the same header, group and metric leave one entry for that name, holding the last value. Nothing else changes. |
| Scenarios.RecordAllSnoc | main.go:90-100 | Reading one more report continues from the registry reached so far, unless an earlier report was fatal. |
| Scenarios.NumberReportSets | main.go:53-64 | A report with one convertible number for a name that is absent or a gauge sets that gauge. Nothing else changes. |
| Scenarios.RollupReportRegistersGauge | main.go:32-64 | A roll-up report carrying 5 for g/m turns the empty registry into one gauge `J_1_C_g_m` holding 5. |
| Scenarios.SecondReportOverwrites | main.go:54-64 | A second report with 7 for the same name leaves exactly one entry, holding 7. |
| Scenarios.BooleanReportLeavesRegistryEmpty | main.go:65-66 | A report holding only a boolean registers nothing. |
| Scenarios.RollupThenTaskRegistersBoth | main.go:33-64 | A roll-up report followed by a per-task report registers two names: `J_1_C_g_m` and `J_1_C_task_0_g_m`. |
| Scenarios.CollectTwoReports | main.go:88-100 | Calling the registry's own method on two reports for the same name leaves one gauge, holding the second value. |

## Left out

- The Kafka consumer setup and read loop (main.go:72-106) use network I/O through a foreign client. Reports reach the model already decoded, as a sequence.
- The HTTP `/metrics` endpoint and the `main` function (main.go:108-113) are I/O and library wiring.
- The goroutine that runs the consumer beside the HTTP server is out of scope. The registry is modelled as used by one thread.
- JSON decoding with `UseNumber` (main.go:95-99) is a library call. Its result is the `Value` datatype directly: a number token, a boolean, or any other value. A decoding failure, which is fatal in the consumer, is not modelled.
- Float semantics are not modelled. `json.Number.Float64` and `gauge.Set` (main.go:49, main.go:64) use a type parameter and a partial conversion passed in.
- `promauto.NewGauge` (main.go:61) also registers the gauge with the global Prometheus registry. Only the local map insertion is modelled, so the exporter's own name validation is not modelled either. For example, it rejects a name that starts with a digit, and sanitising never prevents one. When registration fails, `promauto` panics, so the program stops at main.go:61. The model has no such fatal exit. `Reconcile.RecordAllInvariant`'s statement that the only fatal outcome is a failed conversion therefore holds of the model, not of the running program.
- The regular-expression compile failure branch (main.go:43-44) cannot be taken, because the pattern is constant.
- `fmt.Printf` logging (main.go:66, 92, 103) is not modelled. The boolean branch is modelled as a skip.
- Gauge handles are modelled by value, as the last value set under a name. Aliasing of a handle obtained elsewhere is not modelled.
- Go's unspecified map iteration order (main.go:38-39) is modelled as a fixed sequence order. Duplicate group or metric names within one report are not excluded. A Go map cannot hold them, so the model covers a superset of inputs.
- Metric kinds other than gauges are one `OtherKind` constructor. This collector never creates one, so the kind mismatch is proved unreachable from the empty registry rather than exercised.
