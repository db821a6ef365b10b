/** What a score amounts to, in closed form, and what exactly follows from it. */
module ScoreLaws {
  import opened Bytes
  import opened Net
  import opened Score
  import opened ScoreHistory

  // ---------------------------------------------------------------- closed forms

  /** The decay between a try and the one before it. */
  function Factor(decay: Decay, tau: real, tries: seq<Try>, i: nat): real
    requires i < |tries|
  {
    decay(AgeOf(tries, i) as real, tau)
  }

  /** The product of the decay factors behind the `i`-th of the first `n` tries. */
  function Later(decay: Decay, tau: real, tries: seq<Try>, i: nat, n: nat): real
    requires i < n <= |tries|
  {
    if n == i + 1 then 1.0 else Later(decay, tau, tries, i, n - 1) * Factor(decay, tau, tries, n - 1)
  }

  /** What is left of the first `k` of `n` tries: each counts one, faded by all that came later. */
  function FadedCount(decay: Decay, tau: real, tries: seq<Try>, k: nat, n: nat): real
    requires k <= n <= |tries|
  {
    if k == 0 then 0.0
    else FadedCount(decay, tau, tries, k - 1, n) + Later(decay, tau, tries, k - 1, n)
  }

  /** The same for the good ones, each weighing what its own decay made room for. */
  function FadedGoods(decay: Decay, tau: real, tries: seq<Try>, k: nat, n: nat): real
    requires k <= n <= |tries|
  {
    if k == 0 then 0.0
    else
      FadedGoods(decay, tau, tries, k - 1, n)
      + if tries[k - 1].good then (1.0 - Factor(decay, tau, tries, k - 1)) * Later(decay, tau, tries, k - 1, n) else 0.0
  }

  lemma Distributes(a: real, b: real, f: real)
    ensures (a + b) * f == a * f + b * f
  {
  }

  lemma Reassociates(g: real, p: real, f: real)
    ensures g * (p * f) == (g * p) * f
  {
  }

  /** One more try fades every earlier one by the same factor. */
  lemma {:induction false} CountFades(decay: Decay, tau: real, tries: seq<Try>, k: nat, n: nat)
    requires k <= n < |tries|
    ensures FadedCount(decay, tau, tries, k, n + 1)
            == FadedCount(decay, tau, tries, k, n) * Factor(decay, tau, tries, n)
  {
    if k > 0 {
      CountFades(decay, tau, tries, k - 1, n);
      Distributes(FadedCount(decay, tau, tries, k - 1, n), Later(decay, tau, tries, k - 1, n), Factor(decay, tau, tries, n));
    }
  }

  lemma {:induction false} GoodsFade(decay: Decay, tau: real, tries: seq<Try>, k: nat, n: nat)
    requires k <= n < |tries|
    ensures FadedGoods(decay, tau, tries, k, n + 1)
            == FadedGoods(decay, tau, tries, k, n) * Factor(decay, tau, tries, n)
  {
    if k > 0 {
      GoodsFade(decay, tau, tries, k - 1, n);
      var f, p := Factor(decay, tau, tries, n), Later(decay, tau, tries, k - 1, n);
      var before := FadedGoods(decay, tau, tries, k - 1, n);
      if tries[k - 1].good {
        var g := 1.0 - Factor(decay, tau, tries, k - 1);
        Reassociates(g, p, f);
        Distributes(before, g * p, f);
      } else {
        Distributes(before, 0.0, f);
      }
    }
  }

  /** The count of a window is the sum over the tries of the product of the later decay factors;
      its reliability is the sum over the good tries of what their own factor lacks of one,
      times that product. */
  lemma {:induction false} WindowInClosedForm(decay: Decay, tau: real, tries: seq<Try>, n: nat)
    requires n <= |tries|
    ensures var s := StatRun(decay, tau, tries[..n]);
            && s.count == FadedCount(decay, tau, tries, n, n)
            && s.reliability == FadedGoods(decay, tau, tries, n, n)
            && s.weight == 1.0 - Faded(decay, tau, tries[..n])
  {
    hide *;
    WeightIsOneMinusFaded(decay, tau, tries[..n]);
    if n == 0 {
      NothingFaded(decay, tau, tries);
      assert tries[..0] == [];
    } else {
      WindowInClosedForm(decay, tau, tries, n - 1);
      CountFades(decay, tau, tries, n - 1, n - 1);
      GoodsFade(decay, tau, tries, n - 1, n - 1);
      LastCounted(decay, tau, tries, n);
      LastTry(decay, tau, tries, n);
    }
  }

  lemma NothingFaded(decay: Decay, tau: real, tries: seq<Try>)
    ensures FadedCount(decay, tau, tries, 0, 0) == 0.0 && FadedGoods(decay, tau, tries, 0, 0) == 0.0
    ensures StatRun(decay, tau, []).count == 0.0 && StatRun(decay, tau, []).reliability == 0.0
  {
  }

  lemma LastCounted(decay: Decay, tau: real, tries: seq<Try>, n: nat)
    requires 0 < n <= |tries|
    ensures FadedCount(decay, tau, tries, n, n) == FadedCount(decay, tau, tries, n - 1, n) + 1.0
    ensures FadedGoods(decay, tau, tries, n, n)
            == FadedGoods(decay, tau, tries, n - 1, n)
               + if tries[n - 1].good then 1.0 - Factor(decay, tau, tries, n - 1) else 0.0
  {
    assert Later(decay, tau, tries, n - 1, n) == 1.0;
  }

  lemma LastTry(decay: Decay, tau: real, tries: seq<Try>, n: nat)
    requires 0 < n <= |tries|
    ensures var s, t := StatRun(decay, tau, tries[..n - 1]), StatRun(decay, tau, tries[..n]);
            var f := Factor(decay, tau, tries, n - 1);
            && t.count == s.count * f + 1.0
            && t.reliability == s.reliability * f + if tries[n - 1].good then 1.0 - f else 0.0
  {
    assert tries[..n][..n - 1] == tries[..n - 1];
    assert AgeOf(tries[..n], n - 1) == AgeOf(tries, n - 1);
    var s, f := StatRun(decay, tau, tries[..n - 1]), Factor(decay, tau, tries, n - 1);
    assert StatRun(decay, tau, tries[..n]) == s.Updated(tries[n - 1].good, f);
    hide *;
    UpdateIs(s, tries[n - 1].good, f);
  }

  lemma UpdateIs(s: AddrStat, good: bool, f: real)
    ensures var t := s.Updated(good, f);
            t.count == s.count * f + 1.0 && t.reliability == s.reliability * f + if good then 1.0 - f else 0.0
  {
  }

  ghost predicate InClosedForm(decay: Decay, tau: real, tries: seq<Try>, s: AddrStat) {
    && s.count == FadedCount(decay, tau, tries, |tries|, |tries|)
    && s.reliability == FadedGoods(decay, tau, tries, |tries|, |tries|)
    && s.weight == 1.0 - Faded(decay, tau, tries)
  }

  /** So it is for all five windows of a peer, of 2 and 8 hours, a day, a week and 30 days. */
  lemma ScoresInClosedForm(decay: Decay, service: Service, tries: seq<Try>)
    requires Ordered(tries)
    ensures var r := Run(decay, NewInfo(service), tries);
            && InClosedForm(decay, 7200.0, tries, r.stat2h)
            && InClosedForm(decay, 28800.0, tries, r.stat8h)
            && InClosedForm(decay, 86400.0, tries, r.stat1d)
            && InClosedForm(decay, 604800.0, tries, r.stat1w)
            && InClosedForm(decay, 2592000.0, tries, r.stat1m)
  {
    WindowsAreIndependent(decay, service, tries);
    assert tries[..|tries|] == tries;
    hide Run, StatRun, FadedCount, FadedGoods, Faded;
    WindowInClosedForm(decay, 7200.0, tries, |tries|);
    WindowInClosedForm(decay, 28800.0, tries, |tries|);
    WindowInClosedForm(decay, 86400.0, tries, |tries|);
    WindowInClosedForm(decay, 604800.0, tries, |tries|);
    WindowInClosedForm(decay, 2592000.0, tries, |tries|);
  }

  /** The rest of a record after a history: when it was last tried and last good, and how often. */
  lemma {:induction false} TimesOfHistory(decay: Decay, service: Service, tries: seq<Try>)
    requires Ordered(tries)
    ensures var r := Run(decay, NewInfo(service), tries);
            && (tries != [] ==> r.lastTry == r.ourLastTry == tries[|tries| - 1].now)
            && (forall i :: 0 <= i < |tries| && tries[i].good ==> tries[i].now <= r.ourLastSuccess)
            && (r.ourLastSuccess == 0 || exists i :: 0 <= i < |tries| && tries[i].good && r.ourLastSuccess == tries[i].now)
            && r.services == 1 && r.clientVersion == 0 && r.blocks == 0 && r.clientSubVersion == [] && !r.inSync
            && r.service == service
  {
    if tries != [] {
      var n := |tries| - 1;
      var before := tries[..n];
      OrderedPrefix(tries);
      TimesOfHistory(decay, service, before);
      var r := Run(decay, NewInfo(service), tries);
      var q := Run(decay, NewInfo(service), before);
      assert r == q.Updated(decay, tries[n].good, tries[n].now);
      OneTry(decay, q, tries[n].good, tries[n].now);
      hide Run;
      if !tries[n].good && q.ourLastSuccess != 0 {
        var i :| 0 <= i < |before| && before[i].good && q.ourLastSuccess == before[i].now;
        assert tries[i] == before[i];
      }
    }
  }

  /** What one attempt writes beside the windows: the mark never goes back, and reaches as far
      as the score asks. */
  lemma OneTry(decay: Decay, info: AddrInfo, good: bool, now: int)
    ensures var r := info.Updated(decay, good, now);
            && r.lastTry == now && r.ourLastTry == now && r.total == info.total + 1
            && r.success == info.success + (if good then 1 else 0)
            && r.ourLastSuccess == (if good then now else info.ourLastSuccess)
            && r.service == info.service && r.services == info.services && r.clientVersion == info.clientVersion
            && r.blocks == info.blocks && r.clientSubVersion == info.clientSubVersion && r.inSync == info.inSync
            && (info.ignoreTill >= 0 && now > 0 ==>
                  var ign := r.GetIgnoreTime();
                  r.ignoreTill == if ign > 0 && info.ignoreTill < now + ign then now + ign else info.ignoreTill)
  {
    hide AddrStat.Updated;
    var t := info.Tried(decay, good, now);
    assert info.Updated(decay, good, now).GetIgnoreTime() == t.GetIgnoreTime();
  }

  // ---------------------------------------------------------------- verdicts

  /** How much of a window's evidence speaks for the peer, one minus what speaks against it. */
  function Standing(s: AddrStat): real { 1.0 - (s.weight - s.reliability) }

  /** When a peer is worth publishing. */
  ghost predicate Publishable(i: AddrInfo, walletPort: u16, minVersion: int) {
    && i.service.port == walletPort && i.services % 2 != 0 && i.service.IsRoutable() && i.inSync
    && (i.clientVersion <= 0 || i.clientVersion >= minVersion)
    && (|| (i.total <= 3 && i.total <= 2 * i.success)
        || (i.stat2h.count > 2.0 && i.stat2h.reliability > 0.85)
        || (i.stat8h.count > 4.0 && i.stat8h.reliability > 0.7)
        || (i.stat1d.count > 8.0 && i.stat1d.reliability > 0.55)
        || (i.stat1w.count > 16.0 && i.stat1w.reliability > 0.45)
        || (i.stat1m.count > 32.0 && i.stat1m.reliability > 0.35))
  }

  /** Exactly when a peer is good. */
  lemma GoodExactly(i: AddrInfo, walletPort: u16, minVersion: int)
    ensures i.IsGood(walletPort, minVersion) <==> Publishable(i, walletPort, minVersion)
  {
  }

  /** Exactly how long a score bans for: a week for an old version; otherwise 30, 7 or 1 days, the
      longest first, for standing below 15, 10 or 5 percent on more than 32, 16 or 8 tries. */
  lemma BanTimeExactly(i: AddrInfo, minVersion: int)
    ensures var outdated := 0 < i.clientVersion && i.clientVersion < minVersion;
            var month := Standing(i.stat1m) < 0.15 && i.stat1m.count > 32.0;
            var week := Standing(i.stat1w) < 0.1 && i.stat1w.count > 16.0;
            var day := Standing(i.stat1d) < 0.05 && i.stat1d.count > 8.0;
            && (i.GetBanTime(minVersion) == 2592000 <==> !outdated && month)
            && (i.GetBanTime(minVersion) == 604800 <==> outdated || (!month && week))
            && (i.GetBanTime(minVersion) == 86400 <==> !outdated && !month && !week && day)
            && (i.GetBanTime(minVersion) == 0 <==> !outdated && !month && !week && !day)
            && i.GetBanTime(minVersion) in {0, 86400, 604800, 2592000}
  {
  }

  /** Exactly how long a score sets the mark for: 10 or 3 days, 8 or 2 hours, the longest first,
      for standing below 20, 16, 12 or 8 percent on more than two tries. */
  lemma IgnoreTimeExactly(i: AddrInfo)
    ensures var month := Standing(i.stat1m) < 0.2 && i.stat1m.count > 2.0;
            var week := Standing(i.stat1w) < 0.16 && i.stat1w.count > 2.0;
            var day := Standing(i.stat1d) < 0.12 && i.stat1d.count > 2.0;
            var hours := Standing(i.stat8h) < 0.08 && i.stat8h.count > 2.0;
            && (i.GetIgnoreTime() == 864000 <==> month)
            && (i.GetIgnoreTime() == 259200 <==> !month && week)
            && (i.GetIgnoreTime() == 28800 <==> !month && !week && day)
            && (i.GetIgnoreTime() == 7200 <==> !month && !week && !day && hours)
            && (i.GetIgnoreTime() == 0 <==> !month && !week && !day && !hours)
  {
  }
}
