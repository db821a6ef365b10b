/** What each operation writes into a peer's record and into the good set, exactly. */
module ReportEffects {
  import opened Bytes
  import opened Net
  import opened Score
  import opened ScoreLaws
  import opened CrawlerDb
  import opened DbInvariants
  import opened LeaseProtocol
  import opened LeaseSafety

  // ---------------------------------------------------------------- reports

  /** A window `t` after one more attempt on the window `s`. */
  ghost predicate Charged(s: AddrStat, t: AddrStat, good: bool, f: real) {
    && t.count == s.count * f + 1.0
    && t.weight == s.weight * f + (1.0 - f)
    && t.reliability == if good then s.reliability * f + (1.0 - f) else s.reliability * f
  }

  /** The record `r` after one more attempt on the peer of `was`. */
  ghost predicate Attempted(decay: Decay, was: AddrInfo, r: AddrInfo, good: bool, now: int) {
    var age := (if was.ourLastTry == 0 then 1000 else now - was.ourLastTry) as real;
    && Charged(was.stat2h, r.stat2h, good, decay(age, 7200.0))
    && Charged(was.stat8h, r.stat8h, good, decay(age, 28800.0))
    && Charged(was.stat1d, r.stat1d, good, decay(age, 86400.0))
    && Charged(was.stat1w, r.stat1w, good, decay(age, 604800.0))
    && Charged(was.stat1m, r.stat1m, good, decay(age, 2592000.0))
    && r.service == was.service && r.lastTry == now && r.ourLastTry == now
    && r.total == was.total + 1
    && r.success == (if good then was.success + 1 else was.success)
    && r.ourLastSuccess == (if good then now else was.ourLastSuccess)
  }

  lemma AttemptedIs(decay: Decay, info: AddrInfo, good: bool, now: int)
    ensures Attempted(decay, info, info.Updated(decay, good, now), good, now)
  {
    hide AddrInfo.GetIgnoreTime;
  }

  /** A good report: the record takes over what the peer said and one good attempt; and the peer
      is in the good set if and only if it was before, or is publishable now. */
  lemma GoodReportEffect(decay: Decay, db: Db, res: ServiceResult, now: int)
    requires WellFormed(db) && res.good && res.service in db.ipToId
    ensures var id := db.ipToId[res.service];
            var d := db.Reported(decay, res, now);
            && id in d.idToInfo
            && var r := d.idToInfo[id];
               && Attempted(decay, db.idToInfo[id], r, true, now)
               && r.clientVersion == res.clientV && r.clientSubVersion == res.clientSv && r.blocks == res.height
               && r.services == res.services && r.inSync == res.inSync
               && (id in d.goodId <==> id in db.goodId || Publishable(r, db.walletPort, db.minVersion))
               && d.goodId - {id} == db.goodId - {id}
               && res.service !in d.banned && d.ourId == db.ourId + [id] && id !in d.unkId
  {
    hide AddrInfo.Updated, NetAddr.IsRoutable, Attempted;
    var id := db.ipToId[res.service];
    var said := db.idToInfo[id].(clientVersion := res.clientV, clientSubVersion := res.clientSv, blocks := res.height,
      inSync := res.inSync, services := res.services);
    AttemptedIs(decay, said, true, now);
    OneTry(decay, said, true, now);
    assert Attempted(decay, db.idToInfo[id], said.Updated(decay, true, now), true, now) by {
      AttemptedOnSame(decay, db.idToInfo[id], said, said.Updated(decay, true, now), true, now);
    }
    GoodExactly(said.Updated(decay, true, now), db.walletPort, db.minVersion);
    hide AddrInfo.IsGood, Publishable;
  }

  lemma AttemptedOnSame(decay: Decay, a: AddrInfo, b: AddrInfo, r: AddrInfo, good: bool, now: int)
    requires Attempted(decay, b, r, good, now)
    requires b == a.(clientVersion := b.clientVersion, clientSubVersion := b.clientSubVersion, blocks := b.blocks,
                     inSync := b.inSync, services := b.services)
    ensures Attempted(decay, a, r, good, now)
  {
  }

  /** A bad report: out of the good set, one failed attempt, and what the peer said is not taken
      over. The record is kept exactly when neither the report nor the score bans. */
  lemma BadReportEffect(decay: Decay, db: Db, res: ServiceResult, now: int)
    requires WellFormed(db) && !res.good && res.service in db.ipToId
    ensures var id := db.ipToId[res.service];
            var d := db.Reported(decay, res, now);
            && id !in d.goodId && d.goodId == db.goodId - {id} && id !in d.unkId
            && (id in d.idToInfo ==>
                  var r := d.idToInfo[id];
                  && Attempted(decay, db.idToInfo[id], r, false, now)
                  && r.clientVersion == db.idToInfo[id].clientVersion && r.services == db.idToInfo[id].services
                  && r.clientSubVersion == db.idToInfo[id].clientSubVersion && r.blocks == db.idToInfo[id].blocks
                  && r.inSync == db.idToInfo[id].inSync
                  && d.ourId == db.ourId + [id] && res.banTime <= 0 && r.GetBanTime(db.minVersion) == 0)
            && (id !in d.idToInfo ==>
                  && res.service !in d.ipToId && res.service in d.banned && now < d.banned[res.service]
                  && now + res.banTime <= d.banned[res.service])
  {
    hide AddrInfo.Updated, Attempted, AddrInfo.GetBanTime;
    var id := db.ipToId[res.service];
    AttemptedIs(decay, db.idToInfo[id], false, now);
    OneTry(decay, db.idToInfo[id], false, now);
    BanTimeIsNonNegative(db.idToInfo[id].Updated(decay, false, now), db.minVersion);
  }

  /** In every run the first report on a peer, if it is good, in sync, and says enough, gets a
      servable peer published. */
  lemma FirstGoodReportIsPublished(decay: Decay, w: World, steps: seq<Step>, c: nat, res: ServiceResult, now: int)
    requires IsDecay(decay) && Inv(decay, w) && Legal(decay, w, steps)
    requires Enabled(Run(decay, w, steps), Report(c, res, now))
    requires var db := Run(decay, w, steps).db;
             && res.service in db.ipToId && db.ipToId[res.service] in db.idToInfo
             && db.idToInfo[db.ipToId[res.service]].total == 0
             && res.service.port == db.walletPort && res.service.IsRoutable()
             && res.good && res.inSync && res.services % 2 == 1 && (res.clientV <= 0 || db.minVersion <= res.clientV)
    ensures var v := Exec(decay, Run(decay, w, steps), Report(c, res, now));
            res.service in v.db.ipToId && v.db.ipToId[res.service] in v.db.goodId
  {
    var v := Run(decay, w, steps);
    RunKeepsInv(decay, w, steps);
    InvParts(decay, v);
    hide Legal, Run, Inv, Healthy, Timed, IsDecay, NetAddr.IsRoutable;
    GoodReportEffect(decay, v.db, res, now);
    var id := v.db.ipToId[res.service];
    var r := v.db.Reported(decay, res, now).idToInfo[id];
    FirstTrySane(decay, v.db, id, v.clock);
    hide Db.Reported, WellFormed;
    assert r.total == 1 && r.success == 1;
    assert v.db.Reported(decay, res, now).ipToId == v.db.ipToId by { GoodKeepsTracking(decay, v.db, res, now); }
  }

  lemma GoodKeepsTracking(decay: Decay, db: Db, res: ServiceResult, now: int)
    requires res.good
    ensures db.Reported(decay, res, now).ipToId == db.ipToId
  {
    hide AddrInfo.Updated, AddrInfo.IsGood;
  }

  lemma FirstTrySane(decay: Decay, db: Db, id: int, t: int)
    requires Healthy(decay, db, t) && id in db.idToInfo && db.idToInfo[id].total == 0
    ensures db.idToInfo[id].success == 0
  {
    assert ScoreFits(decay, db.idToInfo[id]);
  }

  // ---------------------------------------------------------------- the log

  /** The log misses nothing: each hand-out adds its id, service and time, each report its id,
      verdict and time, and the ban it ends in if it forgets the peer; nothing else adds to it. */
  lemma EveryStepIsLogged(decay: Decay, w: World, step: Step)
    requires IsDecay(decay) && Inv(decay, w) && Enabled(w, step)
    ensures var v := Exec(decay, w, step);
            match step
            case LeaseOne(c, now, draws) =>
              var outcome := w.db.GetOne(now, draws).1;
              v.log == w.log + if outcome.Served? then [HandedOut(outcome.id, outcome.result.service, now)] else []
            case Report(c, res, now) =>
              && res.service in w.db.ipToId
              && (res.service !in v.db.ipToId ==> res.service in v.db.banned)
              && v.log == w.log + [Tested(w.db.ipToId[res.service], res.good, now)]
                          + if res.service in v.db.ipToId then [] else [Banned(res.service, v.db.banned[res.service])]
            case _ => v.log == w.log && v.batches == w.batches
  {
    hide Db.GetOne, Db.Reported, Db.AddRaw, Db.AddService, Healthy, LogDated, LogBehindQueue, HandOutsSpaced,
         GoodSetVouched, GoodSetServable, IsDecay;
    match step
    case Report(c, res, now) =>
      HeldIsLeased(decay, w, c, 0);
      ReportedKeeps(decay, w.db, res, now, w.clock);
      ReportForgets(decay, w.db, w.db.Reported(decay, res, now), res, now, w.clock);
    case LeaseOne(c, now, draws) =>
      assert w.log + [] == w.log;
    case _ =>
  }

  lemma ReportForgets(decay: Decay, db: Db, d: Db, res: ServiceResult, now: int, t: int)
    requires Healthy(decay, db, t) && res.service in db.ipToId && ReportDone(decay, db, d, db.ipToId[res.service], res, now)
    ensures var id := db.ipToId[res.service];
            && id in db.idToInfo && db.Lookup(res.service) == id
            && (res.service in d.ipToId <==> id in d.idToInfo)
            && (res.service !in d.ipToId ==> res.service in d.banned)
  {
    hide Scored, Timed, NoDuplicates;
  }

  // ---------------------------------------------------------------- gossip and seeds

  /** A record nobody has tested yet. */
  ghost predicate Untested(info: AddrInfo) {
    && info.ourLastTry == 0 && info.ourLastSuccess == 0 && info.ignoreTill == 0
    && info.total == 0 && info.success == 0 && info.clientVersion == 0 && info.blocks == 0
    && info.clientSubVersion == [] && !info.inSync
    && info.stat2h == info.stat8h == info.stat1d == info.stat1w == info.stat1m == AddrStat(0.0, 0.0, 0.0)
  }

  /** Gossip about an unknown service makes a new, untested record with what was said. About a
      known one it moves the sighting forward, and lifts the ignore mark only by force. */
  lemma GossipEffect(db: Db, service: Service, services: u64, time: u32, force: bool, now: int)
    requires WellFormed(db)
    ensures var d := db.AddRaw(service, services, time, force, now);
            && (service !in db.ipToId && service in d.ipToId ==>
                  && d.ipToId[service] == db.nId && db.nId in d.idToInfo && d.unkId == db.unkId + {db.nId}
                  && d.nId == db.nId + 1
                  && Untested(d.idToInfo[db.nId]) && d.idToInfo[db.nId].service == service
                  && d.idToInfo[db.nId].services == services && d.idToInfo[db.nId].lastTry == time)
            && (service in db.ipToId && service !in db.banned && (force || service.IsRoutable()) ==>
                  var was, r := db.idToInfo[db.ipToId[service]], d.idToInfo[db.ipToId[service]];
                  r == was.(lastTry := if was.lastTry % 0x1_0000_0000 < time then time else was.lastTry,
                             ignoreTill := if force then 0 else was.ignoreTill))
            && (!force && !service.IsRoutable() ==> d == db)
            && (forall id :: id in db.idToInfo && db.idToInfo[id].service != service ==>
                  id in d.idToInfo && d.idToInfo[id] == db.idToInfo[id])
  {
    hide NetAddr.IsRoutable, NoDuplicates;
  }

  /** A seed makes a new, untested record that claims the network service, of unknown services
      only. */
  lemma SeedEffect(db: Db, service: Service, force: bool)
    requires WellFormed(db)
    ensures var d := db.AddService(service, force);
            && (service in db.ipToId || (!force && !service.IsRoutable()) ==> d == db)
            && (service !in db.ipToId && (force || service.IsRoutable()) ==>
                  && d.ipToId == db.ipToId[service := db.nId] && d.unkId == db.unkId + {db.nId} && d.nId == db.nId + 1
                  && db.nId in d.idToInfo && Untested(d.idToInfo[db.nId]) && d.idToInfo[db.nId].service == service
                  && d.idToInfo[db.nId].services == 1 && d.idToInfo[db.nId].lastTry == 0)
  {
    hide NetAddr.IsRoutable;
  }

  // ---------------------------------------------------------------- hand-outs

  /** A draw takes a new id when its remainder falls among them, and the queue's head otherwise. */
  lemma DrawDecides(db: Db, now: int, tot: nat, draw: Draw)
    requires WellFormed(db) && 0 < tot == |db.unkId| + |db.ourId|
    ensures var turn := db.Take(now, tot, draw);
            if draw.rnd % tot < |db.unkId| then
              turn.Got? && turn.id in db.unkId && turn.id == draw.last(db.unkId)
              && turn.db == db.(unkId := db.unkId - {turn.id})
            else
              && db.ourId != []
              && (turn.Got? <==> 1000 <= now - db.idToInfo[db.ourId[0]].ourLastTry)
              && (turn.Got? ==> turn.id == db.ourId[0] && turn.db == db.(ourId := db.ourId[1..]))
  {
    hide Inverse, NoDuplicates;
  }

  ghost predicate AsRecorded(info: AddrInfo, r: ServiceResult) {
    r == ServiceResult(info.service, info.services, false, 0, 0, 0, [], info.ourLastSuccess, false)
  }

  lemma {:induction false} RoundsHandOutAsRecorded(decay: Decay, db: Db, now: int, draws: nat -> Draw, tot: nat, i: nat)
    requires Healthy(decay, db, now) && 0 < tot == |db.unkId| + |db.ourId|
    ensures var outcome := db.Rounds(now, draws, tot, i).1;
            outcome.Served? && outcome.id in db.idToInfo ==> AsRecorded(db.idToInfo[outcome.id], outcome.result)
    decreases tot - i
  {
    hide Healthy, Leased, SameTracking, AllResting, Db.Take, AsRecorded;
    if i < tot {
      TakeKeeps(decay, db, now, tot, draws(i));
      match db.Take(now, tot, draws(i))
      case Stop(_) =>
      case Got(taken, id) =>
        LeasedIsTracked(taken, id);
        if taken.Skips(id, now) {
          RequeuedKeeps(decay, taken, id, now);
          var next := taken.Requeued(id, now);
          RoundsHandOutAsRecorded(decay, next, now, draws, tot, i + 1);
          var outcome := next.Rounds(now, draws, tot, i + 1).1;
          if outcome.Served? && outcome.id in db.idToInfo {
            OnlyTimesDiffer(db.idToInfo[outcome.id], next.idToInfo[outcome.id], outcome.result);
          }
        } else {
          ServedAsRecorded(taken, id);
        }
    }
  }

  lemma ServedAsRecorded(db: Db, id: int)
    requires id in db.idToInfo
    ensures AsRecorded(db.idToInfo[id], db.Lease(id))
  {
  }

  lemma OnlyTimesDiffer(a: AddrInfo, b: AddrInfo, r: ServiceResult)
    requires AsRecorded(b, r) && b == a.(ourLastTry := b.ourLastTry)
    ensures AsRecorded(a, r)
  {
  }

  /** What is handed out is the peer's service, what it last offered and when it was last good,
      with nothing else filled in. */
  lemma HandedOutAsRecorded(decay: Decay, db: Db, now: int, draws: nat -> Draw, t: int)
    requires Healthy(decay, db, t) && t <= now
    ensures var outcome := db.GetOne(now, draws).1;
            outcome.Served? && outcome.id in db.idToInfo ==> AsRecorded(db.idToInfo[outcome.id], outcome.result)
  {
    hide *;
    HealthLater(decay, db, t, now);
    var tot := |db.unkId| + |db.ourId|;
    GetOneIs(db, now, draws);
    if tot > 0 {
      RoundsHandOutAsRecorded(decay, db, now, draws, tot, 0);
    }
  }

  lemma HealthLater(decay: Decay, db: Db, t: int, now: int)
    requires Healthy(decay, db, t) && t <= now
    ensures Healthy(decay, db, now)
  {
    ClockMayAdvance(db, t, now);
  }

  lemma GetOneIs(db: Db, now: int, draws: nat -> Draw)
    ensures var tot := |db.unkId| + |db.ourId|;
            db.GetOne(now, draws) == if tot == 0 then (db, Idle) else db.Rounds(now, draws, tot, 0)
  {
    hide Db.Rounds;
  }

  /** A batch is never too large, and one that is too small means that nothing left may be tried. */
  lemma {:induction false} ShortBatchMeansNothingReady(decay: Decay, db: Db, max: nat, now: nat -> int,
                                                       draws: nat -> nat -> Draw, k: nat, t: int)
    requires Healthy(decay, db, t) && t <= now(k) && forall i, j :: k <= i <= j ==> now(i) <= now(j)
    requires k <= max
    ensures var (end, batch) := db.GetMany(max, now, draws, k);
            && |batch| <= max - k
            && (|batch| < max - k ==> AllResting(end, now(k + |batch|)))
    decreases max - k
  {
    hide Db.GetOne, Healthy, AllResting, Moved, Leased;
    if k < max {
      GetOneServes(decay, db, now(k), draws(k), t);
      var (d, outcome) := db.GetOne(now(k), draws(k));
      db.GetManyStep(max, now, draws, k);
      if outcome.Served? {
        ShortBatchMeansNothingReady(decay, d, max, now, draws, k + 1, now(k));
      } else {
        NothingServedNothingReady(decay, db, now(k), d, outcome);
      }
    }
  }

  lemma NothingServedNothingReady(decay: Decay, db: Db, now: int, d: Db, outcome: Outcome)
    requires OneServed(decay, db, now, d, outcome) && !outcome.Served?
    ensures AllResting(d, now)
  {
    hide Healthy, Moved, Leased;
  }
}
