/**
 * Whole runs of the record store: announcements, removals, status changes and expiry sweeps in any
 * order, each at its own instant.
 */
module StoreRuns {
  import opened Records

  datatype Event =
    | Announce(record: Record)
    | ForgetHost(hostname: string)
    | MarkHostLost(hostname: string)
    | RefreshStatuses
    | SweepExpired

  datatype Timed = Timed(event: Event, at: int)

  function Next(cfg: Config, st: Store, e: Timed): Store {
    match e.event
    case Announce(r) => AddOrUpdate(cfg, st, r, e.at)
    case ForgetHost(h) => Forget(st, h)
    case MarkHostLost(h) => MarkLost(st, h)
    case RefreshStatuses => RefreshAll(cfg, st, e.at)
    case SweepExpired => Sweep(cfg, st, e.at)
  }

  function Run(cfg: Config, es: seq<Timed>): Store {
    if es == [] then Initial(cfg)
    else Next(cfg, Run(cfg, es[..|es| - 1]), es[|es| - 1])
  }

  lemma NextValid(cfg: Config, st: Store, e: Timed)
    requires ValidStore(cfg, st)
    ensures ValidStore(cfg, Next(cfg, st, e))
  {
    match e.event
    case Announce(r) => AddOrUpdateValid(cfg, st, r, e.at);
    case ForgetHost(h) =>
    case MarkHostLost(h) =>
    case RefreshStatuses =>
    case SweepExpired => SweepValid(cfg, st, e.at);
  }

  lemma {:induction false} RunValid(cfg: Config, es: seq<Timed>)
    ensures ValidStore(cfg, Run(cfg, es))
  {
    if es != [] {
      RunValid(cfg, es[..|es| - 1]);
      NextValid(cfg, Run(cfg, es[..|es| - 1]), es[|es| - 1]);
    }
  }

  /** The clock never goes backward during the run, up to `now`. */
  predicate InOrder(es: seq<Timed>, now: int) {
    && (forall i, j :: 0 <= i < j < |es| ==> es[i].at <= es[j].at)
    && (forall i :: 0 <= i < |es| ==> es[i].at <= now)
  }

  function WithoutSweeps(es: seq<Timed>): seq<Timed> {
    if es == [] then []
    else
      var rest := WithoutSweeps(es[..|es| - 1]);
      if es[|es| - 1].event.SweepExpired? then rest else rest + [es[|es| - 1]]
  }
}
