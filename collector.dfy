/**
  The registry the consumer owns, created empty at start-up, and the
  reconciliation of one report against it, walking the report body group by
  group and measurement by measurement and updating the registry in place.
 */
module Collector {
  import opened Wrappers
  import opened Naming
  import opened Reconcile

  class MetricsRegistry<F> {
    /** Fully-qualified name to registered metric. */
    var metrics: Registry<F>

    /** Every registered name is in the scrape alphabet. */
    ghost predicate Valid()
      reads this
    {
      AllScrapeNames(metrics)
    }

    /** The registry starts empty. */
    constructor ()
      ensures Valid() && metrics == map[]
    {
      metrics := map[];
    }

    /** Reconciles one named measurement: a number is converted and set on the
        gauge of its name, which is created if absent; a failed conversion or a
        name bound to another kind of metric is fatal; a boolean is reported
        and skipped; any other value is skipped. */
    method Observe(fqn: string, value: Value, toFloat: string -> Option<F>) returns (fatal: Option<Error>)
      requires Valid() && IsScrapeName(fqn)
      modifies this
      ensures Valid()
      ensures old(metrics).Keys <= metrics.Keys
      ensures Step(Running(old(metrics)), Update(fqn, value), toFloat) ==
        if fatal.Some? then Fatal(fatal.value) else Running(metrics)
    {
      fatal := None;
      match value {
        case Number(token) =>
          var converted := toFloat(token);
          if converted.None? {
            fatal := Some(ConversionFailed(fqn, token));
            return;
          }
          if fqn in metrics && !metrics[fqn].Gauge? {
            fatal := Some(KindMismatch(fqn));
            return;
          }
          metrics := metrics[fqn := Gauge(converted.value)];
        case Bool(_) =>
          // reported in the log and skipped
        case Other =>
      }
    }

    /** Reconciles the measurements of one group in order, stopping at the
        first fatal error. */
    method RecordGroup(prefix: string, group: Group, toFloat: string -> Option<F>) returns (fatal: Option<Error>)
      requires Valid()
      modifies this
      ensures Valid()
      ensures old(metrics).Keys <= metrics.Keys
      ensures Run(Running(old(metrics)), GroupUpdates(prefix, group.name, group.metrics), toFloat) ==
        if fatal.Some? then Fatal(fatal.value) else Running(metrics)
    {
      ghost var start := Running(metrics);
      var ms := group.metrics;
      var j := 0;
      while j < |ms|
        invariant 0 <= j <= |ms|
        invariant Valid()
        invariant old(metrics).Keys <= metrics.Keys
        invariant Run(start, GroupUpdates(prefix, group.name, ms[..j]), toFloat) == Running(metrics)
      {
        var m := ms[j];
        var fqn := QualifiedName(prefix, group.name, m.name);
        GroupUpdatesSnoc(prefix, group.name, ms, j);
        RunSnoc(start, GroupUpdates(prefix, group.name, ms[..j]), Update(fqn, m.value), toFloat);
        fatal := Observe(fqn, m.value, toFloat);
        if fatal.Some? {
          GroupUpdatesPrefix(prefix, group.name, ms, j + 1);
          FatalOnPrefix(start, GroupUpdates(prefix, group.name, ms[..j + 1]),
            GroupUpdates(prefix, group.name, ms), fatal.value, toFloat);
          return;
        }
        j := j + 1;
      }
      assert ms[..j] == ms;
      fatal := None;
    }

    /** Reconciles every measurement of the report, group by group. On a
        fatal error the process would exit: the error is returned at once and
        the registry is left as it stood. Otherwise the registry is the one the
        pure model of reconciliation computes. */
    method RecordMetrics(mr: MetricsReport, toFloat: string -> Option<F>) returns (fatal: Option<Error>)
      requires Valid()
      modifies this
      ensures Valid()
      ensures old(metrics).Keys <= metrics.Keys
      ensures Reconcile.RecordMetrics(old(metrics), mr, toFloat) ==
        if fatal.Some? then Fatal(fatal.value) else Running(metrics)
    {
      var prefix := Prefix(mr.header);
      ghost var start := Running(metrics);
      var gs := mr.metrics;
      var i := 0;
      while i < |gs|
        invariant 0 <= i <= |gs|
        invariant Valid()
        invariant old(metrics).Keys <= metrics.Keys
        invariant Run(start, BodyUpdates(prefix, gs[..i]), toFloat) == Running(metrics)
      {
        ghost var done := BodyUpdates(prefix, gs[..i]);
        ghost var groupUpdates := GroupUpdates(prefix, gs[i].name, gs[i].metrics);
        BodyUpdatesSnoc(prefix, gs, i);
        RunAppend(start, done, groupUpdates, toFloat);
        fatal := RecordGroup(prefix, gs[i], toFloat);
        if fatal.Some? {
          BodyUpdatesPrefix(prefix, gs, i + 1);
          FatalOnPrefix(start, BodyUpdates(prefix, gs[..i + 1]), BodyUpdates(prefix, gs), fatal.value, toFloat);
          return;
        }
        i := i + 1;
      }
      assert gs[..i] == gs;
      fatal := None;
    }
  }
}
