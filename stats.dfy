/** A player's lifetime statistics (src/stats.rs). */
module LifetimeStats {
  import opened Wrappers
  import opened Shared
  import opened Json

  /** `Lifetime` as decoded; `rev` is the match count, `stats` the flattened remaining fields. */
  datatype Lifetime = Lifetime(rev: nat, createdAt: Option<u64>, updatedAt: u64, stats: map<string, Value>)

  datatype Response = Response(lifetime: Lifetime)

  datatype Stats = Stats(matches: nat, createdAt: Option<Timestamp>, updatedAt: Timestamp, stats: map<string, string>)

  /**
   * `Into<Stats> for Response`: the match count is `rev`, the creation time is
   * converted when present, the update time always, and the stats keep exactly
   * the string-valued fields.
   */
  function StatsFromResponse(resp: Response): (s: Stats)
    ensures s.matches == resp.lifetime.rev
    ensures s.createdAt.None? <==> resp.lifetime.createdAt.None?
    ensures s.createdAt.Some? ==> s.createdAt.value == UnixTimeMs(resp.lifetime.createdAt.value)
    ensures s.updatedAt == UnixTimeMs(resp.lifetime.updatedAt)
    ensures forall k :: k in s.stats <==> k in resp.lifetime.stats && resp.lifetime.stats[k].String?
    ensures forall k :: k in s.stats ==> s.stats[k] == resp.lifetime.stats[k].s
    ensures |s.stats| <= |resp.lifetime.stats|
  {
    var l := resp.lifetime;
    StringValuedSize(l.stats);
    var createdAt := match l.createdAt
      case Some(ms) => Some(UnixTimeMs(ms))
      case None => None;
    Stats(l.rev, createdAt, UnixTimeMs(l.updatedAt), StringValued(l.stats))
  }
}
