/** What holds after every run of the lease protocol. */
module LeaseSafety {
  import opened Bytes
  import opened Collections
  import opened Net
  import opened Score
  import opened CrawlerDb
  import opened DbInvariants
  import opened LeaseProtocol

  // ---------------------------------------------------------------- where runs start

  function IdleBatches(crawlers: nat): (b: seq<seq<Service>>)
    ensures |b| == crawlers
  {
    if crawlers == 0 then [] else [[]] + IdleBatches(crawlers - 1)
  }

  lemma {:induction false} IdlePool(crawlers: nat)
    ensures Pooled(IdleBatches(crawlers)) == multiset{} && TotalSize(IdleBatches(crawlers)) == 0
  {
    if crawlers > 0 {
      IdlePool(crawlers - 1);
      assert IdleBatches(crawlers)[1..] == IdleBatches(crawlers - 1);
      assert multiset(IdleBatches(crawlers)[0]) == multiset{};
    }
  }

  /** An empty database and idle crawlers. */
  function FreshWorld(walletPort: u16, minVersion: int, crawlers: nat, clock: int): World {
    World(NewDb(walletPort, minVersion), IdleBatches(crawlers), {}, clock, [])
  }

  lemma FreshStart(decay: Decay, walletPort: u16, minVersion: int, crawlers: nat, clock: int)
    requires 0 < clock
    ensures Inv(decay, FreshWorld(walletPort, minVersion, crawlers, clock))
  {
    IdlePool(crawlers);
    var w := FreshWorld(walletPort, minVersion, crawlers, clock);
    assert Leased(w.db) == {};
    assert OutOnLease(w.db, {}) == {};
  }

  /** How a process is started: the two limits it is configured with, and what it was asked to
      wipe from the snapshot. */
  datatype Start = Start(walletPort: u16, minVersion: int, wipeBan: bool, wipeIgnore: bool)

  /** The database a process starts with, from the snapshot `saved`. */
  function StartedFrom(saved: Db, start: Start): Db {
    var restored := saved.(walletPort := start.walletPort, minVersion := start.minVersion);
    var unbanned := if start.wipeBan then restored.(banned := map[]) else restored;
    if start.wipeIgnore then unbanned.IgnoresReset() else unbanned
  }

  /** The beginning of the program: a new database, the snapshot taken over, and the wipes. */
  method StartUp(saved: AddrDb, start: Start, decay: Decay) returns (db: AddrDb)
    ensures fresh(db)
    ensures db.View() == StartedFrom(old(saved.View()), start)
  {
    db := new AddrDb(start.walletPort, start.minVersion, decay);
    db.RestoreFrom(saved);
    if start.wipeBan {
      db.banned := map[];
    }
    if start.wipeIgnore {
      db.ResetIgnores();
    }
  }

  /** The process restarted from a snapshot of `w`. Batches are not part of a snapshot, so
      whatever was leased when it was taken is leased to nobody. */
  ghost function Restarted(w: World, crawlers: nat, clock: int, start: Start): World {
    World(StartedFrom(w.db, start), IdleBatches(crawlers), Leased(w.db), clock, w.log)
  }

  /** What a start leaves of a snapshot. */
  lemma StartedKeeps(decay: Decay, db: Db, start: Start, t: int)
    requires Healthy(decay, db, t)
    ensures var d := StartedFrom(db, start);
            && Healthy(decay, d, t) && Leased(d) == Leased(db)
            && d.goodId == db.goodId && d.nId == db.nId && d.unkId == db.unkId && d.ourId == db.ourId
            && d.ipToId == db.ipToId && d.idToInfo.Keys == db.idToInfo.Keys && d.walletPort == start.walletPort
            && (forall id :: id in d.idToInfo ==>
                  && d.idToInfo[id].service == db.idToInfo[id].service
                  && d.idToInfo[id].ourLastTry == db.idToInfo[id].ourLastTry
                  && d.idToInfo[id] == if start.wipeIgnore then db.idToInfo[id].(ignoreTill := 0) else db.idToInfo[id])
            && d.minVersion == start.minVersion && d.banned == if start.wipeBan then map[] else db.banned
  {
    var d := StartedFrom(db, start);
    assert d.idToInfo.Keys == db.idToInfo.Keys;
    forall id | id in d.idToInfo
      ensures ScoreFits(decay, d.idToInfo[id])
    {
      assert ScoreFits(decay, db.idToInfo[id]);
      UnmarkedFits(decay, db.idToInfo[id]);
    }
    hide ScoreFits, StartedFrom, Inverse;
    assert Leased(d) == Leased(db);
    SameTimes(db, d, t);
    InverseOfSame(db, d);
  }

  lemma UnmarkedFits(decay: Decay, info: AddrInfo)
    requires ScoreFits(decay, info)
    ensures ScoreFits(decay, info.(ignoreTill := 0))
  {
  }

  /** A restart meets the invariant exactly when the wallet port is the one the good set was
      vouched for on, or there is no good set. Limits and wipes do not matter otherwise. */
  lemma RestartKeepsInv(decay: Decay, w: World, crawlers: nat, clock: int, start: Start)
    requires Inv(decay, w) && w.clock <= clock
    ensures Inv(decay, Restarted(w, crawlers, clock, start))
            <==> start.walletPort == w.db.walletPort || w.db.goodId == {}
  {
    hide Leased, Scored, LastVerdict, NetAddr.IsRoutable, StartedFrom, ScoreFits;
    IdlePool(crawlers);
    var v := Restarted(w, crawlers, clock, start);
    StartedKeeps(decay, w.db, start, w.clock);
    ClockMayAdvance(v.db, w.clock, clock);
    NobodyHolds(v.db);
    hide Timed, HandOutsSpaced;
    if w.db.goodId != {} && start.walletPort != w.db.walletPort {
      HasMember(w.db.goodId);
      var id := AnyOf(w.db.goodId);
      assert v.db.idToInfo[id].service.port == w.db.walletPort;
    }
  }

  lemma NobodyHolds(db: Db)
    ensures OutOnLease(db, Leased(db)) == {}
  {
  }

  /** Exactly when a restart strands nothing: when every tracked peer of the snapshot was new
      or queued, which shows in its own counts. */
  lemma NothingStrandedExactly(decay: Decay, w: World, crawlers: nat, clock: int, start: Start)
    requires Inv(decay, w)
    ensures Restarted(w, crawlers, clock, start).stranded == {}
            <==> |w.db.idToInfo| == |w.db.ourId| + |w.db.unkId|
  {
    InvParts(decay, w);
    TrackedCount(w.db);
    hide Inv, StartedFrom;
    if |Leased(w.db)| == 0 {
      NoMemberNoSize(Leased(w.db));
    }
  }

  /** One such restart: a peer is seeded and leased, and the process restarted before its
      report. It is tracked, and no run will hand it out. */
  lemma LeasedAtRestartIsStranded(decay: Decay, service: Service, start: Start, clock: int, draws: nat -> Draw)
    requires 0 < clock
    ensures var w := FreshWorld(start.walletPort, start.minVersion, 1, clock);
            var steps := [Seed(service, true), LeaseOne(0, clock, draws)];
            && Inv(decay, w) && Legal(decay, w, steps)
            && var v := Run(decay, w, steps);
               && v.batches == [[service]]
               && Restarted(v, 1, clock, start).stranded == {0}
               && 0 in Restarted(v, 1, clock, start).db.idToInfo
  {
    hide *;
    var w := FreshWorld(start.walletPort, start.minVersion, 1, clock);
    FreshStart(decay, start.walletPort, start.minVersion, 1, clock);
    SeedThenLease(decay, service, start, clock, draws);
    TwoSteps(decay, w, Seed(service, true), LeaseOne(0, clock, draws));
  }

  lemma SeedThenLease(decay: Decay, service: Service, start: Start, clock: int, draws: nat -> Draw)
    requires 0 < clock
    ensures var w := FreshWorld(start.walletPort, start.minVersion, 1, clock);
            var seed, lease := Seed(service, true), LeaseOne(0, clock, draws);
            && Enabled(w, seed) && Enabled(Exec(decay, w, seed), lease)
            && var v := Exec(decay, Exec(decay, w, seed), lease);
               && v.batches == [[service]]
               && Restarted(v, 1, clock, start).stranded == {0}
               && 0 in Restarted(v, 1, clock, start).db.idToInfo
  {
    var w := FreshWorld(start.walletPort, start.minVersion, 1, clock);
    var seeded := w.db.AddService(service, true);
    OneSeeded(service, start.walletPort, start.minVersion);
    SoleNewIsServed(seeded, clock, draws);
    OneBatch(service);
    hide Db.GetOne, Db.AddService, IdleBatches, StartedFrom, NewDb;
    var v := Exec(decay, Exec(decay, w, Seed(service, true)), LeaseOne(0, clock, draws));
    assert v.batches == [[service]];
    assert Leased(v.db) == {0};
    StartedTracks(v.db, start);
  }

  lemma OneSeeded(service: Service, walletPort: u16, minVersion: int)
    ensures var seeded := NewDb(walletPort, minVersion).AddService(service, true);
            && seeded.unkId == {0} && seeded.ourId == [] && seeded.idToInfo.Keys == {0}
            && seeded.idToInfo[0].service == service && seeded.idToInfo[0].ignoreTill == 0
  {
  }

  lemma OneBatch(service: Service)
    ensures |IdleBatches(1)| == 1 && IdleBatches(1)[0 := IdleBatches(1)[0] + [service]] == [[service]]
  {
    assert IdleBatches(1) == [[]] + IdleBatches(0);
    assert IdleBatches(1)[0] + [service] == [service];
  }

  lemma StartedTracks(db: Db, start: Start)
    ensures StartedFrom(db, start).idToInfo.Keys == db.idToInfo.Keys
  {
  }

  lemma TwoSteps(decay: Decay, w: World, a: Step, b: Step)
    requires Enabled(w, a) && Enabled(Exec(decay, w, a), b)
    ensures Legal(decay, w, [a, b]) && Run(decay, w, [a, b]) == Exec(decay, Exec(decay, w, a), b)
  {
    hide Exec, Enabled;
    var steps := [a, b];
    assert steps[1..] == [b] && steps[1..][1..] == [];
    var mid := Exec(decay, w, a);
    var last := Exec(decay, mid, b);
    assert Legal(decay, last, []) && Run(decay, last, []) == last;
    assert Legal(decay, mid, [b]) && Run(decay, mid, [b]) == last;
  }

  lemma SoleNewIsServed(db: Db, now: int, draws: nat -> Draw)
    requires db.unkId == {0} && db.ourId == [] && 0 in db.idToInfo && !db.Skips(0, now)
    ensures db.GetOne(now, draws)
            == (db.(unkId := {}, nDirty := db.nDirty + 1), Served(0, db.Lease(0)))
  {
    assert draws(0).last(db.unkId) in db.unkId;
    var taken := db.(unkId := db.unkId - {0});
    assert taken == db.(unkId := {});
    assert db.Take(now, 1, draws(0)) == Got(taken, 0);
    assert db.Rounds(now, draws, 1, 0) == (taken.(nDirty := taken.nDirty + 1), Served(0, taken.Lease(0)));
  }

  /** With the marks wiped nothing is skipped: the first draw settles every hand-out, until
      reports set new marks. */
  lemma WipedMarksSkipNothing(decay: Decay, db: Db, now: int, draws: nat -> Draw, t: int)
    requires Healthy(decay, db, t) && t <= now
    ensures var d := db.IgnoresReset();
            && (forall id :: id in d.idToInfo ==> d.idToInfo[id].ignoreTill == 0)
            && var outcome := d.GetOne(now, draws).1;
               && outcome != Exhausted && outcome != Lost
               && (outcome.Served? <==> d.unkId + (set id | id in d.ourId) != {}
                                        && d.Take(now, |d.unkId| + |d.ourId|, draws(0)).Got?)
  {
    hide *;
    var d := db.IgnoresReset();
    WipedIsHealthy(decay, db, now, t);
    var tot := |d.unkId| + |d.ourId|;
    if tot > 0 {
      TakeKeeps(decay, d, now, tot, draws(0));
      FirstRoundSettles(decay, d, now, draws);
    } else {
      NothingFree(d, now, draws);
    }
  }

  lemma WipedIsHealthy(decay: Decay, db: Db, now: int, t: int)
    requires Healthy(decay, db, t) && t <= now
    ensures var d := db.IgnoresReset();
            && Healthy(decay, d, now)
            && forall id :: id in d.idToInfo ==> d.idToInfo[id].ignoreTill == 0 && !d.Skips(id, now)
  {
    var d := db.IgnoresReset();
    var start := Start(db.walletPort, db.minVersion, false, true);
    assert StartedFrom(db, start) == d;
    StartedKeeps(decay, db, start, t);
    ClockMayAdvance(d, t, now);
    hide Scored, Timed, WellFormed;
  }

  lemma NothingFree(db: Db, now: int, draws: nat -> Draw)
    requires |db.unkId| + |db.ourId| == 0
    ensures db.GetOne(now, draws).1 == Idle && db.unkId + (set id | id in db.ourId) == {}
  {
    assert db.unkId == {} && db.ourId == [];
  }

  lemma FirstRoundSettles(decay: Decay, d: Db, now: int, draws: nat -> Draw)
    requires forall id :: id in d.idToInfo ==> !d.Skips(id, now)
    requires var tot := |d.unkId| + |d.ourId|;
             && tot > 0
             && match d.Take(now, tot, draws(0))
                case Got(taken, id) => TakenOut(decay, d, taken, id, now)
                case Stop(outcome) => outcome == Cooldown && AllResting(d, now)
    ensures var outcome := d.GetOne(now, draws).1;
            && outcome != Exhausted && outcome != Lost
            && (outcome.Served? <==> d.unkId + (set id | id in d.ourId) != {}
                                     && d.Take(now, |d.unkId| + |d.ourId|, draws(0)).Got?)
  {
    hide TakenOut, AllResting, Db.Take;
    var tot := |d.unkId| + |d.ourId|;
    match d.Take(now, tot, draws(0))
    case Stop(_) =>
    case Got(taken, id) =>
      TakenIsTracked(decay, d, taken, id, now);
      assert !taken.Skips(id, now) by { assert !d.Skips(id, now); }
  }

  lemma TakenIsTracked(decay: Decay, db: Db, taken: Db, id: int, now: int)
    requires TakenOut(decay, db, taken, id, now)
    ensures id in taken.idToInfo && taken.idToInfo == db.idToInfo
    ensures db.unkId + (set x | x in db.ourId) != {}
  {
    LeasedIsTracked(taken, id);
    if id in db.unkId {
      assert id in db.unkId + (set x | x in db.ourId);
    } else {
      assert db.ourId[0] in db.ourId;
      assert id in db.unkId + (set x | x in db.ourId);
    }
  }

  lemma {:induction false} RunKeepsInv(decay: Decay, w: World, steps: seq<Step>)
    requires IsDecay(decay) && Inv(decay, w) && Legal(decay, w, steps)
    ensures Inv(decay, Run(decay, w, steps))
    decreases |steps|
  {
    hide Inv, IsDecay;
    if steps != [] {
      StepKeepsInv(decay, w, steps[0]);
      RunKeepsInv(decay, Exec(decay, w, steps[0]), steps[1..]);
    }
  }

  // ---------------------------------------------------------------- exclusivity

  ghost predicate HeldBySome(w: World, s: Service) {
    exists c, i :: 0 <= c < |w.batches| && 0 <= i < |w.batches[c]| && w.batches[c][i] == s
  }

  predicate ExactlyOne(a: bool, b: bool, c: bool, d: bool) {
    && (a || b || c || d)
    && !(a && b) && !(a && c) && !(a && d) && !(b && c) && !(b && d) && !(c && d)
  }

  /** Every tracked id is new, or queued once, or in one slot of one crawler's batch, or was
      stranded by a restart; and every batch slot names a tracked service. */
  ghost predicate Exclusive(w: World) {
    && (forall id :: id in w.db.idToInfo ==>
          ExactlyOne(id in w.db.unkId, id in w.db.ourId, HeldBySome(w, w.db.idToInfo[id].service), id in w.stranded))
    && NoDuplicates(w.db.ourId)
    && (forall c, i, d, j |
          0 <= c < |w.batches| && 0 <= i < |w.batches[c]| && 0 <= d < |w.batches| && 0 <= j < |w.batches[d]| ::
          w.batches[c][i] == w.batches[d][j] ==> c == d && i == j)
    && (forall c, i :: 0 <= c < |w.batches| && 0 <= i < |w.batches[c]| ==>
          w.batches[c][i] in w.db.ipToId && w.db.ipToId[w.batches[c][i]] in w.db.idToInfo)
    && Inverse(w.db)
  }

  lemma InvIsExclusive(decay: Decay, w: World)
    requires Inv(decay, w)
    ensures Exclusive(w)
  {
    hide Timed, Scored, LogDated, LogBehindQueue, HandOutsSpaced, GoodSetServable, GoodSetVouched;
    forall id | id in w.db.idToInfo
      ensures HeldBySome(w, w.db.idToInfo[id].service) <==> id in Leased(w.db) && id !in w.stranded
    {
      var s := w.db.idToInfo[id].service;
      PooledMember(w.batches, s);
      assert s in OutOnLease(w.db, w.stranded) <==> id in Leased(w.db) && id !in w.stranded;
    }
    forall c, i, d, j | 0 <= c < |w.batches| && 0 <= i < |w.batches[c]| && 0 <= d < |w.batches| && 0 <= j < |w.batches[d]|
                        && w.batches[c][i] == w.batches[d][j]
      ensures c == d && i == j
    {
      if c != d || i != j {
        PooledTwice(w.batches, c, i, d, j);
      }
    }
    forall c, i | 0 <= c < |w.batches| && 0 <= i < |w.batches[c]|
      ensures w.batches[c][i] in w.db.ipToId
    {
      HeldIsLeased(decay, w, c, i);
    }
  }

  /** Lease exclusivity: in every interleaving no service is with two crawlers at once, and
      none is lost. */
  lemma LeaseExclusivity(decay: Decay, w: World, steps: seq<Step>)
    requires IsDecay(decay) && Inv(decay, w) && Legal(decay, w, steps)
    ensures Exclusive(Run(decay, w, steps))
  {
    hide Inv, IsDecay;
    RunKeepsInv(decay, w, steps);
    InvIsExclusive(decay, Run(decay, w, steps));
  }

  /** Whatever a crawler reports, the database knows the service, nobody else has it, and the
      update it causes sees an age of at least `MIN_RETRY`. */
  lemma EveryReportLands(decay: Decay, w: World, steps: seq<Step>, c: nat, res: ServiceResult, now: int)
    requires IsDecay(decay) && Inv(decay, w) && Legal(decay, w, steps)
    requires Enabled(Run(decay, w, steps), Report(c, res, now))
    ensures var db := Run(decay, w, steps).db;
            && res.service in db.ipToId
            && db.ipToId[res.service] in db.idToInfo
            && db.ipToId[res.service] !in db.ourId && db.ipToId[res.service] !in db.unkId
            && MIN_RETRY <= db.idToInfo[db.ipToId[res.service]].Age(now)
  {
    RunKeepsInv(decay, w, steps);
    var v := Run(decay, w, steps);
    hide IsDecay, Scored, LogDated, LogBehindQueue, HandOutsSpaced, GoodSetServable, GoodSetVouched, Legal, Run;
    HeldIsLeased(decay, v, c, 0);
    var id := v.db.ipToId[res.service];
    assert Rested(v.db.idToInfo[id], v.clock);
    RetriesSpaced(v.db.idToInfo[id], now);
  }

  /** The `?` exits of `get_one` never fire; whenever it returns nothing, nothing queued may be
      retried, and unless the queue's head is cooling nothing is new; and a peer is handed out
      only while its ignore mark is unset or still running. */
  lemma HandOutsNeverMisfire(decay: Decay, w: World, steps: seq<Step>, now: int, draws: nat -> Draw)
    requires IsDecay(decay) && Inv(decay, w) && Legal(decay, w, steps) && Run(decay, w, steps).clock <= now
    ensures var db := Run(decay, w, steps).db;
            var (d, outcome) := db.GetOne(now, draws);
            && outcome != Lost
            && (outcome.Served? ==>
                  && outcome.id in db.idToInfo && !(0 < db.idToInfo[outcome.id].ignoreTill < now))
            && (!outcome.Served? ==> AllResting(d, now) && Leased(d) == Leased(db))
            && (outcome == Exhausted ==> d.unkId == {})
            && (outcome == Idle ==> db.idToInfo.Keys == Leased(db) && d.unkId == {} && d.ourId == [])
  {
    hide IsDecay, Healthy, Legal, Run, Db.GetOne, Leased, Moved;
    RunKeepsInv(decay, w, steps);
    var v := Run(decay, w, steps);
    GetOneServes(decay, v.db, now, draws, v.clock);
  }

  /** An ignore mark does not keep a peer from being handed out: a new peer whose mark is
      still running is served by every draw. (It is a mark already past that sends a peer
      back to the queue.) */
  lemma IgnoredYetServed(service: Service, walletPort: u16, minVersion: int, now: int, draws: nat -> Draw)
    ensures var info := NewInfo(service).(ignoreTill := now + 1);
            var db := NewDb(walletPort, minVersion).Inserted(info);
            db.GetOne(now, draws).1 == Served(0, db.Lease(0))
  {
    var info := NewInfo(service).(ignoreTill := now + 1);
    var db := NewDb(walletPort, minVersion).Inserted(info);
    assert db.unkId == {0} && db.ourId == [];
    assert draws(0).last(db.unkId) in db.unkId;
    assert db.Rounds(now, draws, 1, 0).1 == Served(0, db.Lease(0));
  }

  // ---------------------------------------------------------------- counting

  lemma LeasedCount(decay: Decay, w: World)
    requires Inv(decay, w)
    ensures |Leased(w.db)| == TotalSize(w.batches) + |w.stranded|
  {
    hide Timed, Scored, LogDated, LogBehindQueue, HandOutsSpaced, GoodSetServable, GoodSetVouched;
    var out := OutOnLease(w.db, w.stranded);
    var ids := Leased(w.db) - w.stranded;
    var services := map id | id in w.db.idToInfo :: w.db.idToInfo[id].service;
    forall id | id in ids
      ensures services[id] in out && w.db.ipToId[services[id]] == id
    {
      assert w.db.idToInfo[id].service in w.db.ipToId;
    }
    SameSize(w.db.ipToId, services, out, ids);
    PooledSize(w.batches);
    assert |multiset(out)| == |out|;
    assert Leased(w.db) == ids + w.stranded;
  }

  lemma TrackedCount(db: Db)
    requires WellFormed(db)
    ensures |db.idToInfo| == |db.unkId| + |db.ourId| + |Leased(db)|
  {
    var queued := set id | id in db.ourId;
    SeqAsSetSize(db.ourId);
    assert db.idToInfo.Keys == db.unkId + queued + Leased(db);
    assert |db.idToInfo.Keys| == |db.idToInfo|;
    assert db.unkId !! queued;
    assert |db.unkId + queued| == |db.unkId| + |queued|;
    assert (db.unkId + queued) !! Leased(db);
  }

  /** The "active" figure of the statistics is exactly the number of services out with
      crawlers, plus those a restart stranded. */
  lemma ActiveCount(decay: Decay, w: World, steps: seq<Step>)
    requires IsDecay(decay) && Inv(decay, w) && Legal(decay, w, steps)
    ensures var v := Run(decay, w, steps);
            |v.db.idToInfo| - |v.db.ourId| - |v.db.unkId| == TotalSize(v.batches) + |v.stranded|
  {
    hide IsDecay;
    RunKeepsInv(decay, w, steps);
    hide Inv, Legal, Run;
    var v := Run(decay, w, steps);
    InvParts(decay, v);
    LeasedCount(decay, v);
    TrackedCount(v.db);
  }

  // ---------------------------------------------------------------- time

  /** In every run the queue is sorted by last try, so its head is the oldest entry. */
  lemma QueueStaysSorted(decay: Decay, w: World, steps: seq<Step>)
    requires IsDecay(decay) && Inv(decay, w) && Legal(decay, w, steps)
    ensures var db := Run(decay, w, steps).db;
            && QueueSorted(db)
            && forall id :: id in db.ourId ==>
                 db.ourId[0] in db.idToInfo && id in db.idToInfo
                 && db.idToInfo[db.ourId[0]].ourLastTry <= db.idToInfo[id].ourLastTry
  {
    hide IsDecay;
    RunKeepsInv(decay, w, steps);
    hide Inv, Legal, Run;
    var v := Run(decay, w, steps);
    InvParts(decay, v);
    if v.db.ourId != [] {
      HeadIsOldest(v.db, v.clock);
    }
  }

  /** What the statistics say after any run: the "active" figure is the number of services out
      with crawlers or stranded, and the age is the largest in the queue. */
  lemma StatsAreExact(decay: Decay, w: World, steps: seq<Step>, now: int)
    requires IsDecay(decay) && Inv(decay, w) && Legal(decay, w, steps)
    ensures var v := Run(decay, w, steps);
            var stats := v.db.Stats(now);
            && stats.nAvail - stats.nTracked - stats.nNew == TotalSize(v.batches) + |v.stranded|
            && stats.nAvail == |v.db.idToInfo| && stats.nTracked == |v.db.ourId| && stats.nNew == |v.db.unkId|
            && stats.nGood == |v.db.goodId| && stats.nBanned == |v.db.banned|
            && (forall id :: id in v.db.ourId ==>
                  id in v.db.idToInfo && now - v.db.idToInfo[id].ourLastTry <= stats.nAge)
            && (v.db.ourId != [] ==>
                  exists id :: id in v.db.ourId && id in v.db.idToInfo && now - v.db.idToInfo[id].ourLastTry == stats.nAge)
            && (v.db.ourId == [] ==> stats.nAge == 0)
  {
    ActiveCount(decay, w, steps);
    QueueStaysSorted(decay, w, steps);
    hide Inv, Legal, Run, IsDecay, QueueSorted;
    var db := Run(decay, w, steps).db;
    if db.ourId != [] {
      var head := db.ourId[0];
      assert head in db.ourId;
      assert now - db.idToInfo[head].ourLastTry == db.Stats(now).nAge;
    }
  }

  /** Over a whole run, two hand-outs of one id are at least `MIN_RETRY` seconds apart, and
      every peer's score stays within its bounds, counts under 1 / (1 - F) included. */
  lemma RetriesAreSpaced(decay: Decay, w: World, steps: seq<Step>)
    requires IsDecay(decay) && Inv(decay, w) && Legal(decay, w, steps)
    ensures HandOutsSpaced(Run(decay, w, steps).log)
    ensures Scored(decay, Run(decay, w, steps).db)
  {
    hide IsDecay, HandOutsSpaced, Scored;
    RunKeepsInv(decay, w, steps);
  }

  /** Every published id is tracked, was good at its latest report, and answers on the wallet
      port at a routable address. */
  lemma GoodSetIsVouchedFor(decay: Decay, w: World, steps: seq<Step>)
    requires IsDecay(decay) && Inv(decay, w) && Legal(decay, w, steps)
    ensures var v := Run(decay, w, steps);
            forall id :: id in v.db.goodId ==>
              && id in v.db.idToInfo && id !in v.db.unkId
              && v.db.idToInfo[id].service.port == v.db.walletPort
              && v.db.idToInfo[id].service.IsRoutable()
              && LastVerdict(v.log, id) == Some(true)
  {
    hide IsDecay, NetAddr.IsRoutable, LastVerdict;
    RunKeepsInv(decay, w, steps);
  }

  // ---------------------------------------------------------------- restarts

  /** A step leaves the stranded ids leased to nobody and hands none of them out. */
  lemma StrandedStay(decay: Decay, w: World, step: Step)
    requires IsDecay(decay) && Inv(decay, w) && Enabled(w, step)
    ensures var v := Exec(decay, w, step);
            && v.stranded == w.stranded && w.stranded <= Leased(v.db)
            && w.log <= v.log
            && forall i :: |w.log| <= i < |v.log| && v.log[i].HandedOut? ==> v.log[i].id !in w.stranded
  {
    hide *;
    StepKeepsInv(decay, w, step);
    StrandedAreLeased(decay, w);
    StrandedAreLeased(decay, Exec(decay, w, step));
    NothingLeasedIsServed(decay, w, step);
  }

  lemma StrandedAreLeased(decay: Decay, w: World)
    requires Inv(decay, w)
    ensures w.stranded <= Leased(w.db)
  {
  }

  lemma NothingLeasedIsServed(decay: Decay, w: World, step: Step)
    requires Inv(decay, w) && Enabled(w, step)
    ensures var v := Exec(decay, w, step);
            && v.stranded == w.stranded && w.log <= v.log
            && forall i :: |w.log| <= i < |v.log| && v.log[i].HandedOut? ==> v.log[i].id !in Leased(w.db)
  {
    InvParts(decay, w);
    hide Inv, Healthy, Moved, Leased, AllResting, Db.Reported, Db.AddRaw, Db.AddService, Db.GetOne;
    match step
    case LeaseOne(c, now, draws) => GetOneServes(decay, w.db, now, draws, w.clock);
    case _ =>
  }

  /** Whatever was leased when the snapshot was taken is never handed out again: it stays
      tracked, outside queue and new ids, for as long as the process runs. */
  lemma {:induction false} StrandedForever(decay: Decay, w: World, steps: seq<Step>)
    requires IsDecay(decay) && Inv(decay, w) && Legal(decay, w, steps)
    ensures var v := Run(decay, w, steps);
            && w.stranded <= Leased(v.db)
            && w.log <= v.log
            && forall i :: |w.log| <= i < |v.log| && v.log[i].HandedOut? ==> v.log[i].id !in w.stranded
    decreases |steps|
  {
    hide IsDecay;
    if steps == [] {
    } else {
      StepKeepsInv(decay, w, steps[0]);
      StrandedStay(decay, w, steps[0]);
      hide Inv, Exec, Leased;
      StrandedForever(decay, Exec(decay, w, steps[0]), steps[1..]);
    }
  }

  // ---------------------------------------------------------------- bans

  /** Bans and tracking exclude each other, every logged ban is still running or over, and no
      hand-out ever fell within a ban. */
  ghost predicate BanSafe(w: World) {
    && w.db.banned.Keys !! w.db.ipToId.Keys
    && (forall i :: 0 <= i < |w.log| && w.log[i].Banned? ==> BanAccounted(w, w.log[i].service, w.log[i].expiry))
    && HandOutsOutsideBans(w.log)
  }

  ghost predicate BanAccounted(w: World, s: Service, expiry: int) {
    if s in w.db.banned then expiry <= w.db.banned[s]
    else s in w.db.ipToId && expiry < w.clock
  }

  /** No service is handed out at or before the expiry of any earlier ban of it. */
  ghost predicate HandOutsOutsideBans(log: seq<Event>) {
    forall i, j :: 0 <= i < j < |log| && log[i].Banned? && log[j].HandedOut? && log[i].service == log[j].service ==>
      log[i].expiry < log[j].time
  }

  /** Neither forced gossip nor a seed names a service that is banned at that moment. */
  predicate RespectsBans(w: World, step: Step) {
    match step
    case Learn(service, _, _, force, _) => force ==> service !in w.db.banned
    case Seed(service, _) => service !in w.db.banned
    case _ => true
  }

  predicate AllRespectBans(decay: Decay, w: World, steps: seq<Step>)
    requires Legal(decay, w, steps)
    decreases |steps|
  {
    steps == [] || (RespectsBans(w, steps[0]) && AllRespectBans(decay, Exec(decay, w, steps[0]), steps[1..]))
  }

  lemma LeaseKeepsBanSafe(decay: Decay, w: World, c: nat, now: int, draws: nat -> Draw)
    requires Inv(decay, w) && BanSafe(w) && Enabled(w, LeaseOne(c, now, draws))
    ensures BanSafe(Exec(decay, w, LeaseOne(c, now, draws)))
  {
    hide Db.GetOne, Timed, Scored, LogDated, LogBehindQueue, HandOutsSpaced, GoodSetVouched, GoodSetServable,
      AllResting, Leased, HeldExactly;
    GetOneServes(decay, w.db, now, draws, w.clock);
    var (d, outcome) := w.db.GetOne(now, draws);
    if outcome.Served? {
      assert outcome.result.service in w.db.ipToId;
    }
  }

  /** New tracked services may appear and bans may lapse, as long as each lapsed ban is over
      and its service tracked. */
  lemma GrowthKeepsBanSafe(w: World, d: Db, t: int)
    requires BanSafe(w) && w.clock <= t
    requires d.banned.Keys !! d.ipToId.Keys && w.db.ipToId.Keys <= d.ipToId.Keys
    requires forall s :: s in d.banned ==> s in w.db.banned && d.banned[s] == w.db.banned[s]
    requires forall s :: s in w.db.banned && s !in d.banned ==> s in d.ipToId && w.db.banned[s] < t
    ensures BanSafe(w.(db := d, clock := t))
  {
    hide HandOutsOutsideBans;
    var v := w.(db := d, clock := t);
    forall i | 0 <= i < |w.log| && w.log[i].Banned?
      ensures BanAccounted(v, w.log[i].service, w.log[i].expiry)
    {
      assert BanAccounted(w, w.log[i].service, w.log[i].expiry);
    }
  }

  lemma LearnKeepsBanSafe(decay: Decay, w: World, service: Service, services: u64, time: u32, force: bool, now: int)
    requires Inv(decay, w) && BanSafe(w) && w.clock <= now
    requires RespectsBans(w, Learn(service, services, time, force, now))
    ensures BanSafe(Exec(decay, w, Learn(service, services, time, force, now)))
  {
    InvParts(decay, w);
    hide Inv, WellFormed, Db.AddRaw, NetAddr.IsRoutable, HandOutsOutsideBans, BanAccounted;
    AddRawGrows(w.db, service, services, time, force, now);
    GrowthKeepsBanSafe(w, w.db.AddRaw(service, services, time, force, now), now);
  }

  lemma SeedKeepsBanSafe(decay: Decay, w: World, service: Service, force: bool)
    requires Inv(decay, w) && BanSafe(w) && RespectsBans(w, Seed(service, force))
    ensures BanSafe(Exec(decay, w, Seed(service, force)))
  {
    InvParts(decay, w);
    hide Inv, WellFormed, Db.AddService, NetAddr.IsRoutable, HandOutsOutsideBans, BanAccounted;
    AddServiceGrows(w.db, service, force);
    var d := w.db.AddService(service, force);
    GrowthKeepsBanSafe(w, d, w.clock);
    assert w.(db := d, clock := w.clock) == w.(db := d);
  }

  lemma ReportKeepsBanSafe(decay: Decay, w: World, c: nat, res: ServiceResult, now: int)
    requires IsDecay(decay) && Inv(decay, w) && BanSafe(w) && Enabled(w, Report(c, res, now))
    ensures BanSafe(Exec(decay, w, Report(c, res, now)))
  {
    hide Db.Reported, Timed, Scored, LogDated, LogBehindQueue, HandOutsSpaced, GoodSetVouched, GoodSetServable,
      IsDecay, HeldExactly;
    HeldIsLeased(decay, w, c, 0);
    ReportedKeeps(decay, w.db, res, now, w.clock);
    hide Leased;
    var d := w.db.Reported(decay, res, now);
    var v := Exec(decay, w, Report(c, res, now));
    forall i | 0 <= i < |v.log| && v.log[i].Banned?
      ensures BanAccounted(v, v.log[i].service, v.log[i].expiry)
    {
      if i < |w.log| {
        assert BanAccounted(w, w.log[i].service, w.log[i].expiry);
      }
    }
  }

  lemma StepKeepsBanSafe(decay: Decay, w: World, step: Step)
    requires IsDecay(decay) && Inv(decay, w) && BanSafe(w) && Enabled(w, step) && RespectsBans(w, step)
    ensures BanSafe(Exec(decay, w, step))
  {
    hide Inv, BanSafe, IsDecay;
    match step
    case LeaseOne(c, now, draws) => LeaseKeepsBanSafe(decay, w, c, now, draws);
    case Learn(service, services, time, force, now) => LearnKeepsBanSafe(decay, w, service, services, time, force, now);
    case Seed(service, force) => SeedKeepsBanSafe(decay, w, service, force);
    case Report(c, res, now) => ReportKeepsBanSafe(decay, w, c, res, now);
  }

  /** Ban safety: as long as no seed and no forced gossip names a banned service, bans and
      tracking stay disjoint and nothing is handed out at or before its ban's expiry. */
  lemma {:induction false} BansAreRespected(decay: Decay, w: World, steps: seq<Step>)
    requires IsDecay(decay) && Inv(decay, w) && BanSafe(w)
    requires Legal(decay, w, steps) && AllRespectBans(decay, w, steps)
    ensures BanSafe(Run(decay, w, steps))
    decreases |steps|
  {
    hide Inv, BanSafe, IsDecay, RespectsBans;
    if steps != [] {
      StepKeepsInv(decay, w, steps[0]);
      StepKeepsBanSafe(decay, w, steps[0]);
      BansAreRespected(decay, Exec(decay, w, steps[0]), steps[1..]);
    }
  }

  /** A restart keeps ban safety exactly when it does not wipe a ban that a report has set. */
  lemma RestartKeepsBanSafe(w: World, crawlers: nat, clock: int, start: Start)
    requires BanSafe(w) && w.clock <= clock
    ensures BanSafe(Restarted(w, crawlers, clock, start))
            <==> !(start.wipeBan
                   && exists i :: 0 <= i < |w.log| && w.log[i].Banned? && w.log[i].service in w.db.banned)
  {
    hide HandOutsOutsideBans, IdleBatches, Leased;
    var v := Restarted(w, crawlers, clock, start);
    assert v.db.ipToId == w.db.ipToId && v.log == w.log;
    assert v.db.banned == if start.wipeBan then map[] else w.db.banned;
    hide StartedFrom;
    forall i | 0 <= i < |w.log| && w.log[i].Banned?
      ensures BanAccounted(v, w.log[i].service, w.log[i].expiry)
              <==> !(start.wipeBan && w.log[i].service in w.db.banned)
    {
      assert BanAccounted(w, w.log[i].service, w.log[i].expiry);
    }
  }

  lemma FreshIsBanSafe(walletPort: u16, minVersion: int, crawlers: nat, clock: int)
    ensures BanSafe(FreshWorld(walletPort, minVersion, crawlers, clock))
  {
  }

  /** Exactly when a seed breaks the separation: `add_service` looks at the tracked services
      but never at the bans. */
  lemma SeedAgainstBan(db: Db, service: Service, force: bool)
    requires WellFormed(db) && db.banned.Keys !! db.ipToId.Keys
    ensures var d := db.AddService(service, force);
            d.banned.Keys !! d.ipToId.Keys <==> !(service in db.banned && (force || service.IsRoutable()))
  {
    hide NetAddr.IsRoutable, WellFormed;
    AddServiceGrows(db, service, force);
  }

  /** One such seed: a service banned until time 5, seeded by its operator. */
  lemma SeededWhileBanned(service: Service, walletPort: u16, minVersion: int)
    ensures var db := NewDb(walletPort, minVersion).(banned := map[service := 5]);
            service in db.AddService(service, true).banned && service in db.AddService(service, true).ipToId
  {
  }

  /** A bad report bans exactly when the report or the score asks for it, and for the longer
      of the two times, counted from the report. */
  lemma BanIsTheLonger(decay: Decay, db: Db, res: ServiceResult, now: int)
    requires WellFormed(db) && res.service in db.ipToId
    ensures var id := db.ipToId[res.service];
            var asked := db.idToInfo[id].Updated(decay, false, now).GetBanTime(db.minVersion);
            var longer := if res.banTime >= asked then res.banTime else asked;
            var d := db.Bad(decay, res, now);
            && (id !in d.idToInfo <==> longer > 0)
            && (longer > 0 ==>
                  && res.service in d.banned && d.banned[res.service] == now + longer
                  && res.service !in d.ipToId)
            && (longer <= 0 ==> d.banned == db.banned && d.ipToId == db.ipToId)
  {
    var info := db.idToInfo[db.ipToId[res.service]];
    UpdatedFrame(decay, info, false, now);
    BanTimeIsNonNegative(info.Updated(decay, false, now), db.minVersion);
    hide AddrInfo.Updated, AddrInfo.GetBanTime;
  }

  lemma BanTimeIsNonNegative(info: AddrInfo, minVersion: int)
    ensures 0 <= info.GetBanTime(minVersion)
  {
  }
}
