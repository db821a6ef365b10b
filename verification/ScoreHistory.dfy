/** What whole try histories do to a score: bounds, the order of the windows, patience, and
    the monotonicity of every verdict in the outcomes. */
module ScoreHistory {
  import opened Net
  import opened Score

  datatype Try = Try(good: bool, now: int)

  /** A history read off a clock that starts after 1970 and never runs backwards. */
  predicate Ordered(tries: seq<Try>) {
    && (forall i :: 0 <= i < |tries| ==> 0 < tries[i].now)
    && (forall i, j :: 0 <= i < j < |tries| ==> tries[i].now <= tries[j].now)
  }

  predicate Spaced(tries: seq<Try>) {
    forall i :: 0 < i < |tries| ==> tries[i].now - tries[i - 1].now >= MIN_RETRY
  }

  predicate AllGood(tries: seq<Try>) {
    forall i :: 0 <= i < |tries| ==> tries[i].good
  }

  /** The peer after the whole history. */
  function Run(decay: Decay, info: AddrInfo, tries: seq<Try>): AddrInfo {
    if tries == [] then info
    else Run(decay, info, tries[..|tries| - 1]).Updated(decay, tries[|tries| - 1].good, tries[|tries| - 1].now)
  }

  /** The age of the `i`-th try: the first counts as `MIN_RETRY` old. */
  function AgeOf(tries: seq<Try>, i: nat): int
    requires i < |tries|
  {
    if i == 0 then MIN_RETRY else tries[i].now - tries[i - 1].now
  }

  /** The product of the decay factors over the history. */
  function Faded(decay: Decay, tau: real, tries: seq<Try>): real {
    if tries == [] then 1.0
    else Faded(decay, tau, tries[..|tries| - 1]) * decay(AgeOf(tries, |tries| - 1) as real, tau)
  }

  function Goods(tries: seq<Try>): nat {
    if tries == [] then 0
    else Goods(tries[..|tries| - 1]) + if tries[|tries| - 1].good then 1 else 0
  }

  // ---------------------------------------------------------------- one window, one step

  predicate SaneStat(s: AddrStat, total: int) {
    && 0.0 <= s.reliability <= s.weight <= 1.0
    && 0.0 <= s.count <= total as real
  }

  /** A window with the longer memory: less evidence weight, more evidence count. */
  predicate Longer(short: AddrStat, long: AddrStat) {
    long.weight <= short.weight && short.count <= long.count
  }

  predicate StatBetter(a: AddrStat, b: AddrStat) {
    a.weight == b.weight && a.count == b.count && a.reliability >= b.reliability
  }

  lemma ProductLe(a: real, b: real, f: real)
    requires a <= b && 0.0 <= f
    ensures a * f <= b * f
  {
  }

  lemma ScaleLe(x: real, f: real)
    requires 0.0 <= x && 0.0 <= f <= 1.0
    ensures 0.0 <= x * f <= x
  {
    ProductLe(0.0, x, f);
    ProductLe(0.0, x, 1.0 - f);
  }

  lemma StatStaysSane(s: AddrStat, total: int, good: bool, f: real)
    requires SaneStat(s, total) && 0.0 < f <= 1.0
    ensures SaneStat(s.Updated(good, f), total + 1)
  {
    EvidenceStaysSane(s.reliability, s.weight, good, f);
    CountStaysSane(s.count, total, f);
  }

  lemma EvidenceStaysSane(r: real, w: real, good: bool, f: real)
    requires 0.0 <= r <= w <= 1.0 && 0.0 < f <= 1.0
    ensures 0.0 <= r * f + (if good then 1.0 - f else 0.0) <= w * f + (1.0 - f) <= 1.0
  {
    ScaleLe(r, f);
    ProductLe(r, w, f);
    ProductLe(w, 1.0, f);
    EvidenceStep(r * f, w * f, f, good);
  }

  lemma EvidenceStep(r: real, w: real, f: real, good: bool)
    requires 0.0 <= r <= w <= f <= 1.0
    ensures 0.0 <= r + (if good then 1.0 - f else 0.0) <= w + (1.0 - f) <= 1.0
  {
  }

  lemma CountStaysSane(c: real, total: int, f: real)
    requires 0.0 <= c <= total as real && 0.0 < f <= 1.0
    ensures 0.0 <= c * f + 1.0 <= (total + 1) as real
  {
    ScaleLe(c, f);
  }

  lemma LongerStays(s: AddrStat, l: AddrStat, good: bool, f: real, g: real)
    requires Longer(s, l) && 0.0 < f <= g <= 1.0 && s.weight <= 1.0 && 0.0 <= s.count
    ensures Longer(s.Updated(good, f), l.Updated(good, g))
  {
    // weight: 1 - (1 - w) * f
    ProductLe(1.0 - s.weight, 1.0 - l.weight, f);
    ProductLe(f, g, 1.0 - l.weight);
    assert (1.0 - s.weight) * f <= (1.0 - l.weight) * g;
    ProductLe(s.count, l.count, f);
    ProductLe(f, g, l.count);
    assert s.count * f <= l.count * g;
  }

  lemma StatBetterStays(a: AddrStat, b: AddrStat, goodA: bool, goodB: bool, f: real)
    requires StatBetter(a, b) && 0.0 < f <= 1.0 && (goodB ==> goodA)
    ensures StatBetter(a.Updated(goodA, f), b.Updated(goodB, f))
  {
    ReliabilityStaysBetter(a.reliability, b.reliability, goodA, goodB, f);
  }

  lemma ReliabilityStaysBetter(a: real, b: real, goodA: bool, goodB: bool, f: real)
    requires b <= a && 0.0 < f <= 1.0 && (goodB ==> goodA)
    ensures b * f + (if goodB then 1.0 - f else 0.0) <= a * f + (if goodA then 1.0 - f else 0.0)
  {
    ProductLe(b, a, f);
    GainLe(b * f, a * f, f, goodA, goodB);
  }

  lemma GainLe(x: real, y: real, f: real, goodA: bool, goodB: bool)
    requires x <= y && f <= 1.0 && (goodB ==> goodA)
    ensures x + (if goodB then 1.0 - f else 0.0) <= y + (if goodA then 1.0 - f else 0.0)
  {
  }

  /** The count of a window whose updates are at least `MIN_RETRY` apart stays at or under
      1 / (1 - F), written without the division. */
  predicate CountBounded(decay: Decay, s: AddrStat, tau: real) {
    s.count * (1.0 - decay(MIN_RETRY as real, tau)) <= 1.0
  }

  lemma CountExpansion(count: real, f: real, g: real)
    ensures (count * f + 1.0) * g == (count * g) * f + g
  {
  }

  lemma CountStaysBounded(decay: Decay, s: AddrStat, tau: real, good: bool, age: int)
    requires IsDecay(decay) && 0.0 < tau && MIN_RETRY <= age && 0.0 <= s.count
    requires CountBounded(decay, s, tau)
    ensures CountBounded(decay, s.Updated(good, decay(age as real, tau)), tau)
  {
    var F := decay(MIN_RETRY as real, tau);
    var f := decay(age as real, tau);
    assert 0.0 < f <= F < 1.0;
    var c := s.count * (1.0 - F);
    var cf := c * f;
    assert cf <= f by { ProductLe(c, 1.0, f); }
    CountExpansion(s.count, f, 1.0 - F);
  }

  // ---------------------------------------------------------------- one peer, one step

  predicate Sane(i: AddrInfo) {
    && 0 <= i.success <= i.total && 0 <= i.ourLastTry && 0 <= i.ignoreTill
    && SaneStat(i.stat2h, i.total) && SaneStat(i.stat8h, i.total) && SaneStat(i.stat1d, i.total)
    && SaneStat(i.stat1w, i.total) && SaneStat(i.stat1m, i.total)
  }

  predicate WindowsOrdered(i: AddrInfo) {
    Longer(i.stat2h, i.stat8h) && Longer(i.stat8h, i.stat1d) && Longer(i.stat1d, i.stat1w) && Longer(i.stat1w, i.stat1m)
  }

  predicate CountsBounded(decay: Decay, i: AddrInfo) {
    && CountBounded(decay, i.stat2h, TAU_2H) && CountBounded(decay, i.stat8h, TAU_8H)
    && CountBounded(decay, i.stat1d, TAU_1D) && CountBounded(decay, i.stat1w, TAU_1W)
    && CountBounded(decay, i.stat1m, TAU_1M)
  }

  lemma UpdateKeepsSane(decay: Decay, i: AddrInfo, good: bool, now: int)
    requires IsDecay(decay) && Sane(i) && 0 <= i.Age(now) && 0 < now
    ensures Sane(i.Updated(decay, good, now))
  {
    var age := i.Age(now) as real;
    StatStaysSane(i.stat2h, i.total, good, decay(age, TAU_2H));
    StatStaysSane(i.stat8h, i.total, good, decay(age, TAU_8H));
    StatStaysSane(i.stat1d, i.total, good, decay(age, TAU_1D));
    StatStaysSane(i.stat1w, i.total, good, decay(age, TAU_1W));
    StatStaysSane(i.stat1m, i.total, good, decay(age, TAU_1M));
  }

  lemma UpdateKeepsWindowsOrdered(decay: Decay, i: AddrInfo, good: bool, now: int)
    requires IsDecay(decay) && Sane(i) && WindowsOrdered(i) && 0 <= i.Age(now)
    ensures WindowsOrdered(i.Updated(decay, good, now))
  {
    var age := i.Age(now) as real;
    LongerStays(i.stat2h, i.stat8h, good, decay(age, TAU_2H), decay(age, TAU_8H));
    LongerStays(i.stat8h, i.stat1d, good, decay(age, TAU_8H), decay(age, TAU_1D));
    LongerStays(i.stat1d, i.stat1w, good, decay(age, TAU_1D), decay(age, TAU_1W));
    LongerStays(i.stat1w, i.stat1m, good, decay(age, TAU_1W), decay(age, TAU_1M));
  }

  lemma UpdateKeepsCountsBounded(decay: Decay, i: AddrInfo, good: bool, now: int)
    requires IsDecay(decay) && Sane(i) && CountsBounded(decay, i) && MIN_RETRY <= i.Age(now)
    ensures CountsBounded(decay, i.Updated(decay, good, now))
  {
    var age := i.Age(now);
    CountStaysBounded(decay, i.stat2h, TAU_2H, good, age);
    CountStaysBounded(decay, i.stat8h, TAU_8H, good, age);
    CountStaysBounded(decay, i.stat1d, TAU_1D, good, age);
    CountStaysBounded(decay, i.stat1w, TAU_1W, good, age);
    CountStaysBounded(decay, i.stat1m, TAU_1M, good, age);
  }

  lemma NewInfoBounds(decay: Decay, service: Service)
    ensures Sane(NewInfo(service)) && WindowsOrdered(NewInfo(service)) && CountsBounded(decay, NewInfo(service))
  {
  }

  // ---------------------------------------------------------------- whole histories

  lemma OrderedPrefix(tries: seq<Try>)
    requires Ordered(tries) && tries != []
    ensures Ordered(tries[..|tries| - 1])
  {
  }

  /** The age a run's next update sees is the age the history says. */
  lemma {:induction false} RunClock(decay: Decay, service: Service, tries: seq<Try>)
    requires Ordered(tries)
    ensures var r := Run(decay, NewInfo(service), tries);
            && r.ourLastTry == (if tries == [] then 0 else tries[|tries| - 1].now)
            && r.total == |tries| && r.success == Goods(tries)
            && r.service == service
  {
    if tries != [] {
      OrderedPrefix(tries);
      RunClock(decay, service, tries[..|tries| - 1]);
    }
  }

  lemma RunAge(decay: Decay, service: Service, tries: seq<Try>)
    requires Ordered(tries) && tries != []
    ensures Run(decay, NewInfo(service), tries[..|tries| - 1]).Age(tries[|tries| - 1].now) == AgeOf(tries, |tries| - 1)
    ensures 0 <= AgeOf(tries, |tries| - 1)
  {
    OrderedPrefix(tries);
    RunClock(decay, service, tries[..|tries| - 1]);
  }

  /** Bounds and window order after any history. */
  lemma {:induction false} ScoreBounds(decay: Decay, service: Service, tries: seq<Try>)
    requires IsDecay(decay) && Ordered(tries)
    ensures var r := Run(decay, NewInfo(service), tries);
            Sane(r) && WindowsOrdered(r) && r.total == |tries| && r.success == Goods(tries)
  {
    RunClock(decay, service, tries);
    if tries != [] {
      OrderedPrefix(tries);
      var before := tries[..|tries| - 1];
      var last := tries[|tries| - 1];
      ScoreBounds(decay, service, before);
      RunAge(decay, service, tries);
      UpdateKeepsSane(decay, Run(decay, NewInfo(service), before), last.good, last.now);
      UpdateKeepsWindowsOrdered(decay, Run(decay, NewInfo(service), before), last.good, last.now);
    }
  }

  /** One window folded over the history by itself. */
  function StatRun(decay: Decay, tau: real, tries: seq<Try>): AddrStat {
    if tries == [] then NEW_STAT
    else
      var n := |tries| - 1;
      StatRun(decay, tau, tries[..n]).Updated(tries[n].good, decay(AgeOf(tries, n) as real, tau))
  }

  /** The five windows of a peer never influence one another. */
  lemma {:induction false} WindowsAreIndependent(decay: Decay, service: Service, tries: seq<Try>)
    requires Ordered(tries)
    ensures var r := Run(decay, NewInfo(service), tries);
            && r.stat2h == StatRun(decay, TAU_2H, tries)
            && r.stat8h == StatRun(decay, TAU_8H, tries)
            && r.stat1d == StatRun(decay, TAU_1D, tries)
            && r.stat1w == StatRun(decay, TAU_1W, tries)
            && r.stat1m == StatRun(decay, TAU_1M, tries)
  {
    if tries != [] {
      OrderedPrefix(tries);
      WindowsAreIndependent(decay, service, tries[..|tries| - 1]);
      RunAge(decay, service, tries);
    }
  }

  /** The weight of a window is exactly one minus the product of the decay factors. */
  lemma {:induction false} WeightIsOneMinusFaded(decay: Decay, tau: real, tries: seq<Try>)
    ensures StatRun(decay, tau, tries).weight == 1.0 - Faded(decay, tau, tries)
  {
    if tries != [] {
      var n := |tries| - 1;
      WeightIsOneMinusFaded(decay, tau, tries[..n]);
      WeightStep(StatRun(decay, tau, tries[..n]).weight, Faded(decay, tau, tries[..n]), decay(AgeOf(tries,
        n) as real, tau));
    }
  }

  lemma WeightStep(w: real, p: real, f: real)
    requires w == 1.0 - p
    ensures w * f + (1.0 - f) == 1.0 - p * f
  {
  }

  /** Without a failure the reliability is all the evidence there is. */
  lemma {:induction false} AllGoodMargin(decay: Decay, tau: real, tries: seq<Try>)
    requires AllGood(tries)
    ensures StatRun(decay, tau, tries).Margin() == 1.0
  {
    if tries != [] {
      AllGoodMargin(decay, tau, tries[..|tries| - 1]);
    }
  }

  /** Tries at least `MIN_RETRY` apart never let a window's count pass 1 / (1 - F). */
  lemma {:induction false} SpacedCounts(decay: Decay, service: Service, tries: seq<Try>)
    requires IsDecay(decay) && Ordered(tries) && Spaced(tries)
    ensures CountsBounded(decay, Run(decay, NewInfo(service), tries))
  {
    if tries == [] {
      NewInfoBounds(decay, service);
    } else {
      OrderedPrefix(tries);
      var before := tries[..|tries| - 1];
      var last := tries[|tries| - 1];
      SpacedCounts(decay, service, before);
      ScoreBounds(decay, service, before);
      RunAge(decay, service, tries);
      UpdateKeepsCountsBounded(decay, Run(decay, NewInfo(service), before), last.good, last.now);
    }
  }

  /** No score ban before the ninth try and no ignore before the third. */
  lemma Patience(decay: Decay, service: Service, tries: seq<Try>, minVersion: int)
    requires IsDecay(decay) && Ordered(tries)
    ensures var r := Run(decay, NewInfo(service), tries);
            && (|tries| <= 8 && !(0 < r.clientVersion < minVersion) ==> r.GetBanTime(minVersion) == 0)
            && (|tries| <= 2 ==> r.GetIgnoreTime() == 0 && r.ignoreTill == 0)
  {
    ScoreBounds(decay, service, tries);
    if |tries| <= 2 {
      NotIgnoredEarly(decay, service, tries);
    }
  }

  lemma {:induction false} NotIgnoredEarly(decay: Decay, service: Service, tries: seq<Try>)
    requires IsDecay(decay) && Ordered(tries) && |tries| <= 2
    ensures Run(decay, NewInfo(service), tries).ignoreTill == 0
  {
    if tries != [] {
      OrderedPrefix(tries);
      NotIgnoredEarly(decay, service, tries[..|tries| - 1]);
      ScoreBounds(decay, service, tries);
    }
  }

  /** A peer that never failed is never ignored, and never banned for its score. */
  lemma {:induction false} AllGoodIsTrusted(decay: Decay, service: Service, tries: seq<Try>, minVersion: int)
    requires Ordered(tries) && AllGood(tries)
    ensures var r := Run(decay, NewInfo(service), tries);
            && r.stat2h.Margin() == r.stat8h.Margin() == r.stat1d.Margin() == r.stat1w.Margin() == r.stat1m.Margin() == 1.0
            && r.GetIgnoreTime() == 0 && r.ignoreTill == 0
            && (r.GetBanTime(minVersion) > 0 <==> 0 < r.clientVersion < minVersion)
  {
    if tries != [] {
      OrderedPrefix(tries);
      AllGoodIsTrusted(decay, service, tries[..|tries| - 1], minVersion);
    }
    WindowsAreIndependent(decay, service, tries);
    AllGoodMargin(decay, TAU_2H, tries);
    AllGoodMargin(decay, TAU_8H, tries);
    AllGoodMargin(decay, TAU_1D, tries);
    AllGoodMargin(decay, TAU_1W, tries);
    AllGoodMargin(decay, TAU_1M, tries);
  }

  // ---------------------------------------------------------------- better history, better verdict

  predicate SamePeer(a: AddrInfo, b: AddrInfo) {
    && a.service == b.service && a.services == b.services && a.clientVersion == b.clientVersion && a.inSync == b.inSync
  }

  predicate InfoBetter(a: AddrInfo, b: AddrInfo) {
    && SamePeer(a, b)
    && a.ourLastTry == b.ourLastTry && a.total == b.total && a.success >= b.success
    && 0 <= a.ignoreTill <= b.ignoreTill
    && StatBetter(a.stat2h, b.stat2h) && StatBetter(a.stat8h, b.stat8h) && StatBetter(a.stat1d, b.stat1d)
    && StatBetter(a.stat1w, b.stat1w) && StatBetter(a.stat1m, b.stat1m)
  }

  /** The same try times, one succeeding wherever the other does. */
  predicate Dominates(a: seq<Try>, b: seq<Try>) {
    |a| == |b| && forall i :: 0 <= i < |a| ==> a[i].now == b[i].now && (b[i].good ==> a[i].good)
  }

  lemma BetterVerdict(a: AddrInfo, b: AddrInfo, walletPort: Bytes.u16, minVersion: int)
    requires InfoBetter(a, b)
    ensures a.GetBanTime(minVersion) <= b.GetBanTime(minVersion)
    ensures a.GetIgnoreTime() <= b.GetIgnoreTime()
    ensures b.IsGood(walletPort, minVersion) ==> a.IsGood(walletPort, minVersion)
  {
  }

  lemma BetterTried(decay: Decay, a: AddrInfo, b: AddrInfo, goodA: bool, goodB: bool, now: int)
    requires IsDecay(decay) && InfoBetter(a, b) && 0 <= a.Age(now) && (goodB ==> goodA)
    ensures InfoBetter(a.Tried(decay, goodA, now), b.Tried(decay, goodB, now))
  {
    var age := a.Age(now) as real;
    StatBetterStays(a.stat2h, b.stat2h, goodA, goodB, decay(age, TAU_2H));
    StatBetterStays(a.stat8h, b.stat8h, goodA, goodB, decay(age, TAU_8H));
    StatBetterStays(a.stat1d, b.stat1d, goodA, goodB, decay(age, TAU_1D));
    StatBetterStays(a.stat1w, b.stat1w, goodA, goodB, decay(age, TAU_1W));
    StatBetterStays(a.stat1m, b.stat1m, goodA, goodB, decay(age, TAU_1M));
  }

  lemma BetterMarked(a: AddrInfo, b: AddrInfo, now: int)
    requires InfoBetter(a, b) && 0 < now
    ensures InfoBetter(a.Marked(now), b.Marked(now))
  {
    assert a.GetIgnoreTime() <= b.GetIgnoreTime();
  }

  lemma BetterUpdated(decay: Decay, a: AddrInfo, b: AddrInfo, goodA: bool, goodB: bool, now: int)
    requires IsDecay(decay) && InfoBetter(a, b) && 0 <= a.Age(now) && 0 < now && (goodB ==> goodA)
    ensures InfoBetter(a.Updated(decay, goodA, now), b.Updated(decay, goodB, now))
  {
    BetterTried(decay, a, b, goodA, goodB, now);
    BetterMarked(a.Tried(decay, goodA, now), b.Tried(decay, goodB, now), now);
  }

  lemma {:induction false} RunOurLastTry(decay: Decay, info: AddrInfo, tries: seq<Try>)
    ensures Run(decay, info, tries).ourLastTry == if tries == [] then info.ourLastTry else tries[|tries| - 1].now
  {
    if tries != [] {
      var n := |tries| - 1;
      assert forall i: AddrInfo :: i.Updated(decay, tries[n].good, tries[n].now).ourLastTry == tries[n].now;
    }
  }

  lemma {:induction false} BetterRun(decay: Decay, info: AddrInfo, a: seq<Try>, b: seq<Try>)
    requires IsDecay(decay) && Ordered(a) && Dominates(a, b)
    requires 0 <= info.ignoreTill && (a != [] ==> info.ourLastTry <= a[0].now)
    ensures InfoBetter(Run(decay, info, a), Run(decay, info, b))
  {
    if a != [] {
      var n := |a| - 1;
      BetterRun(decay, info, a[..n], b[..n]);
      RunOurLastTry(decay, info, a[..n]);
      BetterUpdated(decay, Run(decay, info, a[..n]), Run(decay, info, b[..n]), a[n].good, b[n].good, a[n].now);
    }
  }

  /** Better history, better verdict: from the same start, succeeding wherever the other
      succeeds never costs anything. */
  lemma BetterHistoryBetterVerdict(
    decay: Decay, info: AddrInfo, a: seq<Try>, b: seq<Try>, walletPort: Bytes.u16, minVersion: int)
    requires IsDecay(decay) && Ordered(a) && Dominates(a, b)
    requires 0 <= info.ignoreTill && (a != [] ==> info.ourLastTry <= a[0].now)
    ensures var ra, rb := Run(decay, info, a), Run(decay, info, b);
            && InfoBetter(ra, rb)
            && ra.GetBanTime(minVersion) <= rb.GetBanTime(minVersion)
            && ra.GetIgnoreTime() <= rb.GetIgnoreTime()
            && ra.ignoreTill <= rb.ignoreTill
            && (rb.IsGood(walletPort, minVersion) ==> ra.IsGood(walletPort, minVersion))
  {
    BetterRun(decay, info, a, b);
    BetterVerdict(Run(decay, info, a), Run(decay, info, b), walletPort, minVersion);
  }
}
