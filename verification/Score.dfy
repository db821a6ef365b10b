/** Exponential-decay scoring of a peer.

    The decay factor exp(-age / tau) is a parameter, constrained only by `IsDecay`; the
    theorems hold for every such factor, and `RationalIsDecay` shows the constraints can be met.
    Scores are real numbers: rounding is not modelled. */
module Score {
  import opened Bytes
  import opened Net

  const MIN_RETRY: int := 1000
  const NODE_NETWORK: u64 := 1

  const TAU_2H: real := 7200.0
  const TAU_8H: real := 28800.0
  const TAU_1D: real := 86400.0
  const TAU_1W: real := 604800.0
  const TAU_1M: real := 2592000.0

  type Decay = (real, real) -> real

  ghost predicate IsDecay(decay: Decay) {
    && (forall age, tau :: 0.0 <= age && 0.0 < tau ==> 0.0 < decay(age, tau) <= 1.0)
    && (forall age, tau :: 0.0 < age && 0.0 < tau ==> decay(age, tau) < 1.0)
    && (forall a, b, tau :: 0.0 <= a <= b && 0.0 < tau ==> decay(b, tau) <= decay(a, tau))
    && (forall age, s, t :: 0.0 <= age && 0.0 < s <= t ==> decay(age, s) <= decay(age, t))
  }

  function RationalDecay(age: real, tau: real): real {
    if 0.0 <= age && 0.0 < tau then tau / (tau + age) else 1.0
  }

  lemma RationalIsDecay()
    ensures IsDecay(RationalDecay)
  {
    forall a, b, tau | 0.0 <= a <= b && 0.0 < tau
      ensures RationalDecay(b, tau) <= RationalDecay(a, tau)
    {
      QuotientLe(tau, tau + b, tau, tau + a);
    }
    forall age, s, t | 0.0 <= age && 0.0 < s <= t
      ensures RationalDecay(age, s) <= RationalDecay(age, t)
    {
      assert s * age <= t * age;
      QuotientLe(s, s + age, t, t + age);
    }
  }

  lemma QuotientLe(a: real, b: real, c: real, d: real)
    requires 0.0 < b && 0.0 < d && a * d <= c * b
    ensures a / b <= c / d
  {
  }

  datatype AddrStat = AddrStat(weight: real, count: real, reliability: real) {

    /** The statistic after one attempt, `f` being the decay since the previous one. */
    function Updated(good: bool, f: real): AddrStat {
      AddrStat(weight * f + (1.0 - f),
               count * f + 1.0,
               reliability * f + if good then 1.0 - f else 0.0)
    }

    /** How far the reliability may be below the weight of evidence: 1 means no failure seen. */
    function Margin(): real { reliability - weight + 1.0 }
  }

  const NEW_STAT := AddrStat(0.0, 0.0, 0.0)

  datatype AddrInfo = AddrInfo(
    service: Service,
    services: u64,
    lastTry: int,
    ourLastTry: int,
    ourLastSuccess: int,
    ignoreTill: int,
    stat2h: AddrStat,
    stat8h: AddrStat,
    stat1d: AddrStat,
    stat1w: AddrStat,
    stat1m: AddrStat,
    clientVersion: int,
    blocks: int,
    total: int,
    success: int,
    clientSubVersion: seq<byte>,
    inSync: bool)
  {
    predicate IsGood(walletPort: u16, minVersion: int) {
      && service.port == walletPort
      && services % 2 == 1
      && service.IsRoutable()
      && !(0 < clientVersion < minVersion)
      && inSync
      && (|| (total <= 3 && success * 2 >= total)
          || (stat2h.reliability > 0.85 && stat2h.count > 2.0)
          || (stat8h.reliability > 0.70 && stat8h.count > 4.0)
          || (stat1d.reliability > 0.55 && stat1d.count > 8.0)
          || (stat1w.reliability > 0.45 && stat1w.count > 16.0)
          || (stat1m.reliability > 0.35 && stat1m.count > 32.0))
    }

    function GetBanTime(minVersion: int): int {
      if 0 < clientVersion < minVersion then 604800
      else if stat1m.Margin() < 0.15 && stat1m.count > 32.0 then 30 * 86400
      else if stat1w.Margin() < 0.10 && stat1w.count > 16.0 then 7 * 86400
      else if stat1d.Margin() < 0.05 && stat1d.count > 8.0 then 86400
      else 0
    }

    function GetIgnoreTime(): int {
      if stat1m.Margin() < 0.20 && stat1m.count > 2.0 then 10 * 86400
      else if stat1w.Margin() < 0.16 && stat1w.count > 2.0 then 3 * 86400
      else if stat1d.Margin() < 0.12 && stat1d.count > 2.0 then 8 * 3600
      else if stat8h.Margin() < 0.08 && stat8h.count > 2.0 then 2 * 3600
      else 0
    }

    /** Seconds since the previous attempt, as `Updated` counts them. */
    function Age(now: int): int {
      if ourLastTry == 0 then MIN_RETRY else now - ourLastTry
    }

    /** The five windows decayed and charged with one attempt. */
    function Tried(decay: Decay, good: bool, now: int): AddrInfo {
      var age := Age(now) as real;
      this.(lastTry := now,
            ourLastTry := now,
            ourLastSuccess := if good then now else ourLastSuccess,
            total := total + 1,
            success := if good then success + 1 else success,
            stat2h := stat2h.Updated(good, decay(age, TAU_2H)),
            stat8h := stat8h.Updated(good, decay(age, TAU_8H)),
            stat1d := stat1d.Updated(good, decay(age, TAU_1D)),
            stat1w := stat1w.Updated(good, decay(age, TAU_1W)),
            stat1m := stat1m.Updated(good, decay(age, TAU_1M)))
    }

    /** The ignore mark set from the score; it never moves back. */
    function Marked(now: int): AddrInfo {
      var ign := GetIgnoreTime();
      if ign > 0 && (ignoreTill == 0 || ignoreTill < ign + now) then this.(ignoreTill := ign + now) else this
    }

    function Updated(decay: Decay, good: bool, now: int): AddrInfo {
      Tried(decay, good, now).Marked(now)
    }
  }

  function NewInfo(service: Service): AddrInfo {
    AddrInfo(service, NODE_NETWORK, 0, 0, 0, 0, NEW_STAT, NEW_STAT, NEW_STAT, NEW_STAT, NEW_STAT,
             0, 0, 0, 0, [], false)
  }

  /** The assignments `AddrStat::update` makes, in its order. */
  method UpdateStat(decay: Decay, start: AddrStat, good: bool, age: real, tau: real) returns (stat: AddrStat)
    ensures stat == start.Updated(good, decay(age, tau))
  {
    stat := start;
    var f := decay(age, tau);
    stat := stat.(reliability := stat.reliability * f + if good then 1.0 - f else 0.0);
    stat := stat.(count := stat.count * f + 1.0);
    stat := stat.(weight := stat.weight * f + (1.0 - f));
    assert stat == AddrStat(start.weight * f + (1.0 - f), start.count * f + 1.0,
                            start.reliability * f + if good then 1.0 - f else 0.0);
  }

  /** The assignments `AddrInfo::update` makes, one at a time and in its order. */
  method UpdateInfo(decay: Decay, start: AddrInfo, good: bool, now: int) returns (info: AddrInfo)
    ensures info == start.Updated(decay, good, now)
  {
    info := start;
    if info.ourLastTry == 0 {
      info := info.(ourLastTry := now - MIN_RETRY);
    }
    var age := (now - info.ourLastTry) as real;
    info := info.(lastTry := now);
    info := info.(ourLastTry := now);
    info := info.(total := info.total + 1);
    if good {
      info := info.(success := info.success + 1);
      info := info.(ourLastSuccess := now);
    }
    var stat := UpdateStat(decay, info.stat2h, good, age, 3600.0 * 2.0);
    info := info.(stat2h := stat);
    stat := UpdateStat(decay, info.stat8h, good, age, 3600.0 * 8.0);
    info := info.(stat8h := stat);
    stat := UpdateStat(decay, info.stat1d, good, age, 3600.0 * 24.0);
    info := info.(stat1d := stat);
    stat := UpdateStat(decay, info.stat1w, good, age, 3600.0 * 24.0 * 7.0);
    info := info.(stat1w := stat);
    stat := UpdateStat(decay, info.stat1m, good, age, 3600.0 * 24.0 * 30.0);
    info := info.(stat1m := stat);
    assert info == start.Tried(decay, good, now);
    var ign := info.GetIgnoreTime();
    if ign > 0 && (info.ignoreTill == 0 || info.ignoreTill < ign + now) {
      info := info.(ignoreTill := ign + now);
    }
  }
}
