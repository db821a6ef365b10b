/** What every locked operation of the database keeps: the two maps stay inverse, the queue
    stays duplicate-free and sorted by last try, and every score stays within its bounds. */
module DbInvariants {
  import opened Net
  import opened Score
  import opened ScoreHistory
  import opened CrawlerDb

  // ---------------------------------------------------------------- predicates

  /** `idToInfo` and `ipToId` are inverse to one another. */
  ghost predicate Inverse(db: Db) {
    && (forall id :: id in db.idToInfo ==>
          0 <= id < db.nId && db.idToInfo[id].service in db.ipToId && db.ipToId[db.idToInfo[id].service] == id)
    && (forall s :: s in db.ipToId ==>
          db.ipToId[s] in db.idToInfo && db.idToInfo[db.ipToId[s]].service == s)
  }

  ghost predicate NoDuplicates(q: seq<int>) {
    forall i, j :: 0 <= i < j < |q| ==> q[i] != q[j]
  }

  ghost predicate WellFormed(db: Db) {
    && db.nId >= 0
    && Inverse(db)
    && db.unkId <= db.idToInfo.Keys
    && db.goodId <= db.idToInfo.Keys
    && db.goodId !! db.unkId
    && (forall i :: 0 <= i < |db.ourId| ==> db.ourId[i] in db.idToInfo && db.ourId[i] !in db.unkId)
    && NoDuplicates(db.ourId)
  }

  /** Tracked ids that are neither new nor queued: a crawler has them, or a restart lost them. */
  ghost function Leased(db: Db): set<int> {
    set id | id in db.idToInfo && id !in db.unkId && id !in db.ourId
  }

  ghost predicate QueueSorted(db: Db) {
    forall i, j :: 0 <= i < j < |db.ourId| && db.ourId[i] in db.idToInfo && db.ourId[j] in db.idToInfo ==>
      db.idToInfo[db.ourId[i]].ourLastTry <= db.idToInfo[db.ourId[j]].ourLastTry
  }

  /** The times at clock `t`. A new id was never tried; a queued one was, by now; a leased one
      was never tried or has rested for `MIN_RETRY`. */
  ghost predicate Timed(db: Db, t: int) {
    && 0 < t
    && QueueSorted(db)
    && (forall id :: id in db.ourId && id in db.idToInfo ==> 0 < db.idToInfo[id].ourLastTry <= t)
    && (forall id :: id in db.unkId && id in db.idToInfo ==> db.idToInfo[id].ourLastTry == 0)
    && (forall id :: id in Leased(db) ==> Rested(db.idToInfo[id], t))
  }

  predicate Rested(info: AddrInfo, t: int) {
    info.ourLastTry == 0 || (0 < info.ourLastTry && MIN_RETRY <= t - info.ourLastTry)
  }

  ghost predicate Scored(decay: Decay, db: Db) {
    forall id :: id in db.idToInfo ==> ScoreFits(decay, db.idToInfo[id])
  }

  ghost predicate ScoreFits(decay: Decay, info: AddrInfo) {
    Sane(info) && WindowsOrdered(info) && CountsBounded(decay, info)
  }

  ghost predicate Healthy(decay: Decay, db: Db, t: int) {
    WellFormed(db) && Timed(db, t) && Scored(decay, db)
  }

  /** What hand-outs and reports of others leave alone. */
  ghost predicate SameTracking(a: Db, b: Db) {
    && a.nId == b.nId && a.ipToId == b.ipToId && a.banned == b.banned && a.goodId == b.goodId
    && a.walletPort == b.walletPort && a.minVersion == b.minVersion
    && a.idToInfo.Keys == b.idToInfo.Keys
    && (forall id :: id in a.idToInfo ==> a.idToInfo[id].service == b.idToInfo[id].service)
  }

  /** `b` comes from `a` by taking ids out and putting some back at the end, stamped `now`. */
  ghost predicate Moved(a: Db, b: Db, now: int) {
    && SameTracking(a, b)
    && b.unkId <= a.unkId
    && (forall id :: id in a.idToInfo && id in b.idToInfo ==> b.idToInfo[id].ignoreTill == a.idToInfo[id].ignoreTill)
    && (forall id :: id in b.ourId && id in b.idToInfo && id in a.idToInfo ==>
          (id in a.ourId && b.idToInfo[id] == a.idToInfo[id]) || b.idToInfo[id].ourLastTry == now)
  }

  // ---------------------------------------------------------------- small facts

  lemma ClockMayAdvance(db: Db, t: int, u: int)
    requires WellFormed(db) && Timed(db, t) && t <= u
    ensures Timed(db, u)
  {
  }

  lemma RetriesSpaced(info: AddrInfo, t: int)
    requires Rested(info, t)
    ensures MIN_RETRY <= info.Age(t)
  {
  }

  lemma UpdatedFrame(decay: Decay, info: AddrInfo, good: bool, now: int)
    ensures var r := info.Updated(decay, good, now);
            && r.service == info.service && r.ourLastTry == now && r.services == info.services
            && r.clientVersion == info.clientVersion && r.inSync == info.inSync
  {
  }

  lemma UpdateFits(decay: Decay, info: AddrInfo, good: bool, now: int)
    requires IsDecay(decay) && ScoreFits(decay, info) && Rested(info, now) && 0 < now
    ensures ScoreFits(decay, info.Updated(decay, good, now))
  {
    RetriesSpaced(info, now);
    UpdateKeepsSane(decay, info, good, now);
    UpdateKeepsWindowsOrdered(decay, info, good, now);
    UpdateKeepsCountsBounded(decay, info, good, now);
  }

  lemma GoodInfoFrame(decay: Decay, db: Db, info: AddrInfo, res: ServiceResult, now: int)
    ensures var r := db.GoodInfo(decay, info, res, now); r.service == info.service && r.ourLastTry == now
  {
  }

  lemma GoodInfoFits(decay: Decay, db: Db, info: AddrInfo, res: ServiceResult, now: int)
    requires IsDecay(decay) && ScoreFits(decay, info) && Rested(info, now) && 0 < now
    ensures ScoreFits(decay, db.GoodInfo(decay, info, res, now))
  {
    var reported := info.(clientVersion := res.clientV, clientSubVersion := res.clientSv, blocks := res.height,
                          inSync := res.inSync, services := res.services);
    UpdateFits(decay, reported, true, now);
  }

  // ---------------------------------------------------------------- gossip and seeds

  lemma InsertedKeeps(decay: Decay, db: Db, info: AddrInfo, t: int)
    requires Healthy(decay, db, t)
    requires info.service !in db.ipToId && info.ourLastTry == 0 && ScoreFits(decay, info)
    ensures Healthy(decay, db.Inserted(info), t) && Leased(db.Inserted(info)) == Leased(db)
  {
    hide ScoreFits, Rested;
    var d := db.Inserted(info);
    assert db.nId !in db.idToInfo;
    assert db.nId !in db.ourId;
    assert Leased(d) == Leased(db);
    assert WellFormed(d);
  }

  lemma TouchedKeeps(decay: Decay, db: Db, id: int, time: Bytes.u32, force: bool, t: int)
    requires Healthy(decay, db, t)
    ensures var d := db.Touched(id, time, force);
            Healthy(decay, d, t) && Leased(d) == Leased(db) && SameTracking(db, d)
  {
    if id in db.idToInfo {
      var d := db.Touched(id, time, force);
      var info := d.idToInfo[id];
      assert ScoreFits(decay, info);
      RecordChanged(decay, db, id, info, t);
      assert d == db.(idToInfo := db.idToInfo[id := info]);
    }
  }

  /** A record may change in any way that leaves its service, its last try and its score. */
  lemma RecordChanged(decay: Decay, db: Db, id: int, info: AddrInfo, t: int)
    requires Healthy(decay, db, t) && id in db.idToInfo && ScoreFits(decay, info)
    requires info.service == db.idToInfo[id].service && info.ourLastTry == db.idToInfo[id].ourLastTry
    ensures var d := db.(idToInfo := db.idToInfo[id := info]);
            Healthy(decay, d, t) && Leased(d) == Leased(db) && SameTracking(db, d)
  {
    var d := db.(idToInfo := db.idToInfo[id := info]);
    assert d.idToInfo.Keys == db.idToInfo.Keys;
    assert Leased(d) == Leased(db);
    hide Inverse, Timed, ScoreFits;
    InverseOfSame(db, d);
    SameTimes(db, d, t);
  }

  /** The two maps stay inverse, and the times in order, under what leaves services and times alone. */
  lemma InverseOfSame(a: Db, b: Db)
    requires Inverse(a) && a.nId == b.nId && a.ipToId == b.ipToId && a.idToInfo.Keys == b.idToInfo.Keys
    requires forall id :: id in a.idToInfo && id in b.idToInfo ==> a.idToInfo[id].service == b.idToInfo[id].service
    ensures Inverse(b)
  {
  }

  lemma SameTimes(a: Db, b: Db, t: int)
    requires Timed(a, t) && a.idToInfo.Keys == b.idToInfo.Keys && a.unkId == b.unkId && a.ourId == b.ourId
    requires forall id :: id in b.idToInfo ==> id in a.idToInfo && a.idToInfo[id].ourLastTry == b.idToInfo[id].ourLastTry
    ensures Timed(b, t)
  {
    assert Leased(a) == Leased(b);
    forall i, j | 0 <= i < j < |b.ourId| && b.ourId[i] in b.idToInfo && b.ourId[j] in b.idToInfo
      ensures b.idToInfo[b.ourId[i]].ourLastTry <= b.idToInfo[b.ourId[j]].ourLastTry
    {
      var x, y := b.ourId[i], b.ourId[j];
      assert a.ourId[i] == x && a.ourId[j] == y;
      assert a.idToInfo[x].ourLastTry == b.idToInfo[x].ourLastTry;
      assert a.idToInfo[y].ourLastTry == b.idToInfo[y].ourLastTry;
    }
  }

  lemma LearnedKeeps(decay: Decay, db: Db, service: Service, services: Bytes.u64, time: Bytes.u32, force: bool, t: int)
    requires Healthy(decay, db, t)
    ensures var d := db.Learned(service, services, time, force);
            Healthy(decay, d, t) && Leased(d) == Leased(db)
  {
    hide Healthy, Db.Touched, Db.Inserted;
    if service in db.ipToId {
      TouchedKeeps(decay, db, db.ipToId[service], time, force, t);
    } else {
      var info := NewInfo(service).(services := services, lastTry := time);
      NewInfoBounds(decay, service);
      InsertedKeeps(decay, db, info, t);
    }
  }

  lemma UnbannedKeeps(decay: Decay, db: Db, service: Service, t: int)
    requires Healthy(decay, db, t)
    ensures var d := db.(banned := db.banned - {service}); Healthy(decay, d, t) && Leased(d) == Leased(db)
  {
    assert Leased(db.(banned := db.banned - {service})) == Leased(db);
  }

  lemma AddRawKeeps(decay: Decay, db: Db, service: Service, services: Bytes.u64, time: Bytes.u32, force: bool,
                    now: int, t: int)
    requires Healthy(decay, db, t)
    ensures var d := db.AddRaw(service, services, time, force, now);
            Healthy(decay, d, t) && Leased(d) == Leased(db)
  {
    hide NetAddr.IsRoutable, Db.Learned, Healthy;
    LearnedKeeps(decay, db, service, services, time, force, t);
    UnbannedKeeps(decay, db, service, t);
    LearnedKeeps(decay, db.(banned := db.banned - {service}), service, services, time, force, t);
  }

  lemma AddServiceKeeps(decay: Decay, db: Db, service: Service, force: bool, t: int)
    requires Healthy(decay, db, t)
    ensures var d := db.AddService(service, force);
            Healthy(decay, d, t) && Leased(d) == Leased(db)
  {
    hide NetAddr.IsRoutable, Db.Inserted, Healthy;
    if service !in db.ipToId {
      NewInfoBounds(decay, service);
      InsertedKeeps(decay, db, NewInfo(service), t);
    }
  }

  /** What gossip and seeds may do to the rest of the database: add new ids, and nothing else
      that a crawler or the queue could notice. */
  ghost predicate Grown(db: Db, d: Db) {
    && d.ourId == db.ourId && d.goodId == db.goodId && db.nId <= d.nId
    && d.walletPort == db.walletPort && d.minVersion == db.minVersion
    && (forall id :: id in db.idToInfo ==>
          && id in d.idToInfo && d.idToInfo[id].service == db.idToInfo[id].service
          && d.idToInfo[id].ourLastTry == db.idToInfo[id].ourLastTry)
    && (forall s :: s in db.ipToId ==> s in d.ipToId && d.ipToId[s] == db.ipToId[s])
    && (forall s :: s in d.ipToId && s !in db.ipToId ==> d.ipToId[s] in d.unkId)
    && (forall id :: id in d.unkId ==> id in db.unkId || db.nId <= id)
    && (forall s :: s in d.banned ==> s in db.banned && d.banned[s] == db.banned[s])
  }

  lemma LearnedGrows(db: Db, service: Service, services: Bytes.u64, time: Bytes.u32, force: bool)
    requires WellFormed(db)
    ensures Grown(db, db.Learned(service, services, time, force))
  {
  }

  /** The gossip rule for one service: what it does to the ban and to whether it is tracked. */
  lemma AddRawGrows(db: Db, service: Service, services: Bytes.u64, time: Bytes.u32, force: bool, now: int)
    requires WellFormed(db)
    ensures var d := db.AddRaw(service, services, time, force, now);
            && Grown(db, d)
            && (forall s :: s != service && s in db.banned ==> s in d.banned)
            && (forall s :: s != service && s in d.ipToId ==> s in db.ipToId)
            && (service in d.banned <==>
                  && service in db.banned
                  && !(force || (service.IsRoutable() && db.banned[service] < now && time > db.banned[service])))
            && (service in d.ipToId <==>
                  service in db.ipToId || ((force || service.IsRoutable()) && service !in d.banned))
  {
    hide NetAddr.IsRoutable, Db.Learned, Grown, WellFormed;
    if (force || service.IsRoutable()) && service !in db.banned {
      LearnedGrows(db, service, services, time, force);
      LearnedTracks(db, service, services, time, force);
    } else if force || (service.IsRoutable() && db.banned[service] < now && time > db.banned[service]) {
      var u := db.(banned := db.banned - {service});
      assert WellFormed(u) by { UnbannedWellFormed(db, service); }
      LearnedGrows(u, service, services, time, force);
      LearnedTracks(u, service, services, time, force);
      UnbannedGrows(db, service, u.Learned(service, services, time, force));
    } else {
      GrownNowhere(db);
    }
  }

  lemma UnbannedWellFormed(db: Db, service: Service)
    requires WellFormed(db)
    ensures WellFormed(db.(banned := db.banned - {service}))
  {
  }

  lemma UnbannedGrows(db: Db, service: Service, d: Db)
    requires Grown(db.(banned := db.banned - {service}), d)
    ensures Grown(db, d)
  {
  }

  lemma GrownNowhere(db: Db)
    ensures Grown(db, db)
  {
  }

  lemma LearnedTracks(db: Db, service: Service, services: Bytes.u64, time: Bytes.u32, force: bool)
    ensures var d := db.Learned(service, services, time, force);
            d.ipToId.Keys == db.ipToId.Keys + {service} && d.banned == db.banned
  {
  }

  lemma AddServiceGrows(db: Db, service: Service, force: bool)
    requires WellFormed(db)
    ensures var d := db.AddService(service, force);
            && Grown(db, d) && d.banned == db.banned
            && d.ipToId.Keys == db.ipToId.Keys + if force || service.IsRoutable() then {service} else {}
  {
    hide NetAddr.IsRoutable;
  }

  // ---------------------------------------------------------------- handing out

  /** `id` has just left the new ids or the queue. */
  ghost predicate TakenOut(decay: Decay, db: Db, d: Db, id: int, now: int) {
    && Healthy(decay, d, now) && Moved(db, d, now) && d.idToInfo == db.idToInfo
    && id in Leased(d) && id !in Leased(db) && Leased(d) == Leased(db) + {id}
    && |d.unkId| + |d.ourId| + 1 == |db.unkId| + |db.ourId|
    && (|| (id in db.unkId && d.unkId == db.unkId - {id} && d.ourId == db.ourId)
        || (&& db.ourId != [] && id == db.ourId[0] && d.ourId == db.ourId[1..] && d.unkId == db.unkId
            && id in db.idToInfo && MIN_RETRY <= now - db.idToInfo[id].ourLastTry))
  }

  lemma NewTaken(decay: Decay, db: Db, id: int, now: int)
    requires Healthy(decay, db, now) && id in db.unkId
    ensures TakenOut(decay, db, db.(unkId := db.unkId - {id}), id, now)
  {
    hide ScoreFits;
    var d := db.(unkId := db.unkId - {id});
    assert Leased(d) == Leased(db) + {id};
    assert WellFormed(d);
  }

  lemma QueuedTaken(decay: Decay, db: Db, now: int)
    requires Healthy(decay, db, now) && db.ourId != []
    requires db.ourId[0] in db.idToInfo && MIN_RETRY <= now - db.idToInfo[db.ourId[0]].ourLastTry
    ensures TakenOut(decay, db, db.(ourId := db.ourId[1..]), db.ourId[0], now)
  {
    hide ScoreFits;
    var d := db.(ourId := db.ourId[1..]);
    var id := db.ourId[0];
    assert db.ourId == [id] + d.ourId;
    assert forall k :: k in db.ourId <==> k == id || k in d.ourId;
    assert id !in d.ourId;
    assert WellFormed(d);
    assert Leased(d) == Leased(db) + {id};
  }

  /** A draw either takes an id that was new or whose rest is over, or stops because nothing
      in the queue has rested long enough. The `?` exits are not reached. */
  lemma TakeKeeps(decay: Decay, db: Db, now: int, tot: nat, draw: Draw)
    requires Healthy(decay, db, now)
    requires 0 < tot == |db.unkId| + |db.ourId|
    ensures match db.Take(now, tot, draw)
            case Got(d, id) => TakenOut(decay, db, d, id, now)
            case Stop(outcome) => outcome == Cooldown && AllResting(db, now)
  {
    hide Timed, Scored, TakenOut, AllResting, Inverse;
    if draw.rnd % tot < |db.unkId| {
      NewTaken(decay, db, draw.last(db.unkId), now);
    } else {
      assert db.ourId != [];
      assert db.ourId[0] in db.ourId && db.ourId[0] in db.idToInfo;
      if MIN_RETRY <= now - db.idToInfo[db.ourId[0]].ourLastTry {
        QueuedTaken(decay, db, now);
      } else {
        CoolingHead(decay, db, now);
      }
    }
  }

  lemma CoolingHead(decay: Decay, db: Db, now: int)
    requires Healthy(decay, db, now) && db.ourId != []
    requires db.ourId[0] in db.idToInfo && now - db.idToInfo[db.ourId[0]].ourLastTry < MIN_RETRY
    ensures AllResting(db, now)
  {
    hide Scored;
    HeadIsOldest(db, now);
  }

  /** Nothing in the queue may be retried yet. */
  ghost predicate AllResting(db: Db, now: int) {
    forall id :: id in db.ourId && id in db.idToInfo ==> now - db.idToInfo[id].ourLastTry < MIN_RETRY
  }

  lemma HeadIsOldest(db: Db, now: int)
    requires WellFormed(db) && QueueSorted(db) && db.ourId != []
    ensures forall id :: id in db.ourId ==> db.idToInfo[db.ourId[0]].ourLastTry <= db.idToInfo[id].ourLastTry
  {
    forall id | id in db.ourId
      ensures db.idToInfo[db.ourId[0]].ourLastTry <= db.idToInfo[id].ourLastTry
    {
      var k :| 0 <= k < |db.ourId| && db.ourId[k] == id;
      assert db.ourId[0] in db.idToInfo && db.ourId[k] in db.idToInfo;
    }
  }

  lemma RequeuedKeeps(decay: Decay, db: Db, id: int, now: int)
    requires Healthy(decay, db, now) && id in Leased(db)
    ensures var d := db.Requeued(id, now);
            && Healthy(decay, d, now) && Moved(db, d, now)
            && Leased(d) == Leased(db) - {id}
            && |d.unkId| + |d.ourId| == |db.unkId| + |db.ourId| + 1
  {
    var d := db.Requeued(id, now);
    assert ScoreFits(decay, d.idToInfo[id]) by { assert ScoreFits(decay, db.idToInfo[id]); }
    PutBack(decay, db, id, d.idToInfo[id], now);
    assert d == db.(ourId := db.ourId + [id], idToInfo := db.idToInfo[id := d.idToInfo[id]]);
  }

  /** A leased id joins the end of the queue with a record stamped `now`. */
  lemma PutBack(decay: Decay, db: Db, id: int, info: AddrInfo, now: int)
    requires Healthy(decay, db, now) && id in Leased(db)
    requires info.service == db.idToInfo[id].service && info.ourLastTry == now && ScoreFits(decay, info)
    ensures var d := db.(ourId := db.ourId + [id], idToInfo := db.idToInfo[id := info]);
            && Healthy(decay, d, now) && Leased(d) == Leased(db) - {id}
            && (info.ignoreTill == db.idToInfo[id].ignoreTill ==> Moved(db, d, now))
  {
    hide *;
    LeasedIsTracked(db, id);
    PutBackWellFormed(decay, db, id, info, now);
    PutBackTimed(decay, db, id, info, now);
    PutBackScored(decay, db, id, info, now);
    if info.ignoreTill == db.idToInfo[id].ignoreTill {
      PutBackMoves(db, id, info, now);
    }
  }

  lemma PutBackWellFormed(decay: Decay, db: Db, id: int, info: AddrInfo, now: int)
    requires Healthy(decay, db, now) && id in Leased(db) && info.service == db.idToInfo[id].service
    ensures var d := db.(ourId := db.ourId + [id], idToInfo := db.idToInfo[id := info]);
            WellFormed(d) && Leased(d) == Leased(db) - {id}
  {
    hide Timed, Scored;
    var d := db.(ourId := db.ourId + [id], idToInfo := db.idToInfo[id := info]);
    assert forall k :: k in d.ourId <==> k == id || k in db.ourId;
    assert Leased(d) == Leased(db) - {id};
  }

  lemma PutBackTimed(decay: Decay, db: Db, id: int, info: AddrInfo, now: int)
    requires Healthy(decay, db, now) && id in Leased(db) && info.ourLastTry == now
    ensures Timed(db.(ourId := db.ourId + [id], idToInfo := db.idToInfo[id := info]), now)
  {
    hide Scored, Inverse;
    var d := db.(ourId := db.ourId + [id], idToInfo := db.idToInfo[id := info]);
    assert forall k :: k in d.ourId <==> k == id || k in db.ourId;
    forall i, j | 0 <= i < j < |d.ourId|
      ensures d.idToInfo[d.ourId[i]].ourLastTry <= d.idToInfo[d.ourId[j]].ourLastTry
    {
      assert d.ourId[i] == db.ourId[i] && db.ourId[i] in db.ourId;
    }
  }

  lemma PutBackScored(decay: Decay, db: Db, id: int, info: AddrInfo, now: int)
    requires Healthy(decay, db, now) && ScoreFits(decay, info)
    ensures Scored(decay, db.(ourId := db.ourId + [id], idToInfo := db.idToInfo[id := info]))
    ensures WellFormed(db.(ourId := db.ourId + [id], idToInfo := db.idToInfo[id := info]))
            && Timed(db.(ourId := db.ourId + [id], idToInfo := db.idToInfo[id := info]), now)
            ==> Healthy(decay, db.(ourId := db.ourId + [id], idToInfo := db.idToInfo[id := info]), now)
  {
    hide ScoreFits, WellFormed, Timed;
  }

  lemma PutBackMoves(db: Db, id: int, info: AddrInfo, now: int)
    requires id in db.idToInfo && info.service == db.idToInfo[id].service && info.ourLastTry == now
    requires info.ignoreTill == db.idToInfo[id].ignoreTill
    ensures Moved(db, db.(ourId := db.ourId + [id], idToInfo := db.idToInfo[id := info]), now)
  {
    assert db.idToInfo[id := info].Keys == db.idToInfo.Keys;
  }

  /** The last `i` queue entries were put there at this very moment. */
  ghost predicate Stamped(db: Db, i: nat, now: int) {
    && i <= |db.ourId|
    && forall k :: |db.ourId| - i <= k < |db.ourId| ==>
         db.ourId[k] in db.idToInfo && db.idToInfo[db.ourId[k]].ourLastTry == now
  }

  lemma StampedOneMore(decay: Decay, db: Db, taken: Db, id: int, now: int, i: nat)
    requires Healthy(decay, db, now) && TakenOut(decay, db, taken, id, now) && id in taken.idToInfo && Stamped(db, i, now)
    ensures Stamped(taken.Requeued(id, now), i + 1, now)
  {
    hide Scored, Timed, Inverse, Moved;
    var next := taken.Requeued(id, now);
    assert id !in taken.ourId;
    if id !in db.unkId {
      assert i < |db.ourId|;
    }
    forall k | |next.ourId| - (i + 1) <= k < |next.ourId|
      ensures next.ourId[k] in next.idToInfo && next.idToInfo[next.ourId[k]].ourLastTry == now
    {
      if k < |taken.ourId| {
        assert next.ourId[k] == taken.ourId[k] && taken.ourId[k] in taken.ourId;
        assert exists j :: |db.ourId| - i <= j < |db.ourId| && db.ourId[j] == taken.ourId[k] by {
          var j := if taken.ourId == db.ourId then k else k + 1;
          assert db.ourId[j] == taken.ourId[k];
        }
      }
    }
  }

  /** Once every free id has been put back, nothing is new and all of the queue is resting. */
  lemma AllStamped(db: Db, now: int, tot: nat)
    requires tot == |db.unkId| + |db.ourId| && Stamped(db, tot, now)
    ensures db.unkId == {} && AllResting(db, now)
  {
    assert |db.unkId| == 0;
    forall id | id in db.ourId && id in db.idToInfo
      ensures now - db.idToInfo[id].ourLastTry < MIN_RETRY
    {
      var k :| 0 <= k < |db.ourId| && db.ourId[k] == id;
    }
  }

  /** What one call of `get_one` promises. */
  ghost predicate OneServed(decay: Decay, db: Db, now: int, d: Db, outcome: Outcome) {
    && Healthy(decay, d, now) && Moved(db, d, now)
    && match outcome
       case Served(id, result) =>
         && id in Leased(d) && id !in Leased(db) && Leased(d) == Leased(db) + {id}
         && id in db.idToInfo && result.service == db.idToInfo[id].service
         && !(0 < db.idToInfo[id].ignoreTill < now)
         && (id in db.unkId || (id in db.ourId && MIN_RETRY <= now - db.idToInfo[id].ourLastTry))
       case Idle => db.idToInfo.Keys == Leased(db) && d == db && d.unkId == {} && d.ourId == []
       case Cooldown => Leased(d) == Leased(db) && AllResting(d, now)
       case Exhausted => Leased(d) == Leased(db) && d.unkId == {} && AllResting(d, now)
       case Lost => false
  }

  lemma ServedAfterMove(decay: Decay, db: Db, mid: Db, d: Db, now: int, outcome: Outcome)
    requires Moved(db, mid, now) && Leased(mid) == Leased(db) && OneServed(decay, mid, now, d, outcome) && !outcome.Idle?
    ensures OneServed(decay, db, now, d, outcome)
  {
    hide Healthy;
    assert Moved(db, d, now);
  }

  lemma ServedAtOnce(decay: Decay, db: Db, taken: Db, id: int, now: int)
    requires TakenOut(decay, db, taken, id, now) && id in taken.idToInfo && !taken.Skips(id, now)
    ensures OneServed(decay, db, now, taken.(nDirty := taken.nDirty + 1), Served(id, taken.Lease(id)))
  {
    var d := taken.(nDirty := taken.nDirty + 1);
    assert Leased(d) == Leased(taken);
    assert Healthy(decay, d, now);
  }

  lemma {:induction false} RoundsServe(decay: Decay, db: Db, now: int, draws: nat -> Draw, tot: nat, i: nat)
    requires Healthy(decay, db, now)
    requires 0 < tot == |db.unkId| + |db.ourId| && i <= tot && Stamped(db, i, now)
    ensures var (d, outcome) := db.Rounds(now, draws, tot, i);
            OneServed(decay, db, now, d, outcome) && !outcome.Idle?
    decreases tot - i
  {
    hide Healthy, Leased, SameTracking, AllResting, Db.Take, Stamped;
    if i < tot {
      TakeKeeps(decay, db, now, tot, draws(i));
      match db.Take(now, tot, draws(i))
      case Stop(_) =>
        MovedNowhere(db, now);
      case Got(taken, id) =>
        LeasedIsTracked(taken, id);
        if taken.Skips(id, now) {
          var next := taken.Requeued(id, now);
          RequeuedKeeps(decay, taken, id, now);
          StampedOneMore(decay, db, taken, id, now, i);
          MovedTwice(db, taken, next, now);
          assert Leased(next) == Leased(db);
          RoundsServe(decay, next, now, draws, tot, i + 1);
          var (d, outcome) := next.Rounds(now, draws, tot, i + 1);
          ServedAfterMove(decay, db, next, d, now, outcome);
        } else {
          ServedAtOnce(decay, db, taken, id, now);
        }
    } else {
      AllStamped(db, now, tot);
      MovedNowhere(db, now);
    }
  }

  lemma LeasedIsTracked(db: Db, id: int)
    requires id in Leased(db)
    ensures id in db.idToInfo
  {
  }

  lemma MovedNowhere(db: Db, now: int)
    ensures Moved(db, db, now)
  {
  }

  lemma MovedTwice(a: Db, b: Db, c: Db, now: int)
    requires Moved(a, b, now) && Moved(b, c, now)
    ensures Moved(a, c, now)
  {
  }

  lemma GetOneServes(decay: Decay, db: Db, now: int, draws: nat -> Draw, t: int)
    requires Healthy(decay, db, t) && t <= now
    ensures var (d, outcome) := db.GetOne(now, draws); OneServed(decay, db, now, d, outcome)
  {
    hide Db.Rounds;
    ClockMayAdvance(db, t, now);
    if |db.unkId| + |db.ourId| > 0 {
      RoundsServe(decay, db, now, draws, |db.unkId| + |db.ourId|, 0);
    } else {
      MovedNowhere(db, now);
      assert db.unkId == {} && db.ourId == [];
      assert Leased(db) == db.idToInfo.Keys;
    }
  }

  // ---------------------------------------------------------------- reports

  /** Every published id answers on the wallet port at a routable address. */
  ghost predicate GoodSetServable(db: Db) {
    forall id :: id in db.goodId && id in db.idToInfo ==>
      db.idToInfo[id].service.port == db.walletPort && db.idToInfo[id].service.IsRoutable()
  }

  /** What one report does: the id goes back to the end of the queue stamped `now`, or is
      banned and forgotten; nothing else moves. */
  ghost predicate ReportDone(decay: Decay, db: Db, d: Db, id: int, res: ServiceResult, now: int) {
    && Healthy(decay, d, now)
    && Leased(d) == Leased(db) - {id}
    && d.unkId == db.unkId && d.nId == db.nId && d.walletPort == db.walletPort && d.minVersion == db.minVersion
    && (forall k :: k in db.idToInfo && k != id ==> k in d.idToInfo && d.idToInfo[k] == db.idToInfo[k])
    && d.goodId - {id} == db.goodId - {id}
    && (id in d.goodId ==> res.good)
    && (if id in d.idToInfo
        then
          && d.idToInfo.Keys == db.idToInfo.Keys && d.ipToId == db.ipToId
          && d.ourId == db.ourId + [id]
          && d.idToInfo[id].service == res.service && d.idToInfo[id].ourLastTry == now
          && d.banned == (if res.good then db.banned - {res.service} else db.banned)
        else
          && !res.good
          && d.idToInfo.Keys == db.idToInfo.Keys - {id} && d.ipToId == db.ipToId - {res.service}
          && d.ourId == db.ourId
          && res.service in d.banned && d.banned == db.banned[res.service := d.banned[res.service]]
          && now < d.banned[res.service])
  }

  lemma PutBackCounted(decay: Decay, db: Db, id: int, info: AddrInfo, now: int, good: set<int>, banned: map<Service, int>)
    requires Healthy(decay, db, now) && id in Leased(db)
    requires info.service == db.idToInfo[id].service && info.ourLastTry == now && ScoreFits(decay, info)
    requires good <= db.goodId + {id}
    ensures var d := db.(ourId := db.ourId + [id], idToInfo := db.idToInfo[id := info],
                         goodId := good, banned := banned, nDirty := db.nDirty + 1);
            Healthy(decay, d, now) && Leased(d) == Leased(db) - {id}
  {
    PutBack(decay, db, id, info, now);
    var p := db.(ourId := db.ourId + [id], idToInfo := db.idToInfo[id := info]);
    var d := db.(ourId := db.ourId + [id], idToInfo := db.idToInfo[id := info],
                 goodId := good, banned := banned, nDirty := db.nDirty + 1);
    assert Leased(d) == Leased(p);
    assert id !in db.unkId;
    GoodSetChanged(decay, p, d, now);
  }

  lemma GoodSetChanged(decay: Decay, p: Db, d: Db, t: int)
    requires Healthy(decay, p, t)
    requires d == p.(goodId := d.goodId, banned := d.banned, nDirty := d.nDirty)
    requires d.goodId <= p.idToInfo.Keys && d.goodId !! p.unkId
    ensures Healthy(decay, d, t)
  {
    hide ScoreFits;
    assert Leased(d) == Leased(p);
  }

  lemma GoodKeeps(decay: Decay, db: Db, res: ServiceResult, now: int)
    requires IsDecay(decay) && Healthy(decay, db, now)
    requires res.good && res.service in db.ipToId && db.ipToId[res.service] in Leased(db)
    ensures var d := db.Good(decay, res, now);
            ReportDone(decay, db, d, db.ipToId[res.service], res, now)
    ensures var d := db.Good(decay, res, now); GoodSetServable(db) ==> GoodSetServable(d)
  {
    hide *;
    var id := db.ipToId[res.service];
    LeasedParts(decay, db, res.service, now);
    var info := db.GoodInfo(decay, db.idToInfo[id], res, now);
    GoodInfoFits(decay, db, db.idToInfo[id], res, now);
    GoodInfoFrame(decay, db, db.idToInfo[id], res, now);
    var good := if info.IsGood(db.walletPort, db.minVersion) then db.goodId + {id} else db.goodId;
    PutBackCounted(decay, db, id, info, now, good, db.banned - {res.service});
    GoodIs(decay, db, id, res, now);
    PutBackIsDone(decay, db, id, info, res, now, good, db.banned - {res.service});
    IsGoodIsServable(info, db.walletPort, db.minVersion);
    GoodSetGrows(db, id, info, good, db.Good(decay, res, now));
  }

  /** What is known of a service out on lease. */
  lemma LeasedParts(decay: Decay, db: Db, service: Service, t: int)
    requires Healthy(decay, db, t) && service in db.ipToId && db.ipToId[service] in Leased(db)
    ensures var id := db.ipToId[service];
            && id >= 0 && id in db.idToInfo && id !in db.unkId && db.idToInfo[id].service == service
            && 0 < t && ScoreFits(decay, db.idToInfo[id]) && Rested(db.idToInfo[id], t)
  {
    hide ScoreFits, Rested, NoDuplicates;
  }

  lemma GoodIs(decay: Decay, db: Db, id: int, res: ServiceResult, now: int)
    requires id >= 0 && res.service in db.ipToId && db.ipToId[res.service] == id && id in db.idToInfo && id !in db.unkId
    ensures var info := db.GoodInfo(decay, db.idToInfo[id], res, now);
            db.Good(decay, res, now)
            == db.(ourId := db.ourId + [id], idToInfo := db.idToInfo[id := info],
                   goodId := if info.IsGood(db.walletPort, db.minVersion) then db.goodId + {id} else db.goodId,
                   banned := db.banned - {res.service}, nDirty := db.nDirty + 1)
  {
    hide Db.GoodInfo, AddrInfo.IsGood;
    assert db.unkId - {id} == db.unkId;
  }

  lemma IsGoodIsServable(info: AddrInfo, port: Bytes.u16, minVersion: int)
    ensures info.IsGood(port, minVersion) ==> info.service.port == port && info.service.IsRoutable()
  {
    hide NetAddr.IsRoutable;
  }

  lemma GoodSetGrows(db: Db, id: int, info: AddrInfo, good: set<int>, d: Db)
    requires d.idToInfo == db.idToInfo[id := info] && d.goodId == good <= db.goodId + {id} && d.walletPort == db.walletPort
    requires id in db.idToInfo && info.service == db.idToInfo[id].service
    requires id in good && id !in db.goodId ==> info.service.port == db.walletPort && info.service.IsRoutable()
    ensures GoodSetServable(db) ==> GoodSetServable(d)
  {
    hide NetAddr.IsRoutable;
  }

  /** Putting an id back is what a report does that does not ban. */
  lemma PutBackIsDone(decay: Decay, db: Db, id: int, info: AddrInfo, res: ServiceResult, now: int, good: set<int>,
                      banned: map<Service, int>)
    requires id in db.idToInfo && info.service == res.service && info.ourLastTry == now
    requires good - {id} == db.goodId - {id} && (id in good ==> res.good)
    requires banned == if res.good then db.banned - {res.service} else db.banned
    requires var d := db.(ourId := db.ourId + [id], idToInfo := db.idToInfo[id := info],
                          goodId := good, banned := banned, nDirty := db.nDirty + 1);
             Healthy(decay, d, now) && Leased(d) == Leased(db) - {id}
    ensures ReportDone(decay, db, db.(ourId := db.ourId + [id], idToInfo := db.idToInfo[id := info],
                                      goodId := good, banned := banned, nDirty := db.nDirty + 1), id, res, now)
  {
    hide Healthy, Leased;
    assert db.idToInfo[id := info].Keys == db.idToInfo.Keys;
  }

  lemma ForgottenKeeps(decay: Decay, db: Db, id: int, t: int)
    requires Healthy(decay, db, t) && id in Leased(db)
    ensures var d := db.(ipToId := db.ipToId - {db.idToInfo[id].service}, idToInfo := db.idToInfo - {id},
                         goodId := db.goodId - {id});
            Healthy(decay, d, t) && Leased(d) == Leased(db) - {id}
  {
    hide ScoreFits;
    var d := db.(ipToId := db.ipToId - {db.idToInfo[id].service}, idToInfo := db.idToInfo - {id},
                 goodId := db.goodId - {id});
    assert Leased(d) == Leased(db) - {id};
    assert forall k :: k in db.ourId ==> k != id;
    assert WellFormed(d);
  }

  lemma BadKeeps(decay: Decay, db: Db, res: ServiceResult, now: int)
    requires IsDecay(decay) && Healthy(decay, db, now)
    requires !res.good && res.service in db.ipToId && db.ipToId[res.service] in Leased(db)
    ensures var d := db.Bad(decay, res, now);
            ReportDone(decay, db, d, db.ipToId[res.service], res, now)
    ensures var d := db.Bad(decay, res, now); GoodSetServable(db) ==> GoodSetServable(d)
  {
    hide *;
    var id := db.ipToId[res.service];
    LeasedParts(decay, db, res.service, now);
    var info := db.idToInfo[id].Updated(decay, false, now);
    UpdateFits(decay, db.idToInfo[id], false, now);
    UpdatedFrame(decay, db.idToInfo[id], false, now);
    var ban := db.BanLength(info, res);
    BadIs(decay, db, id, res, now);
    if ban > 0 {
      ForgottenIsDone(decay, db, id, res, now, ban);
    } else {
      PutBackCounted(decay, db, id, info, now, db.goodId - {id}, db.banned);
      PutBackIsDone(decay, db, id, info, res, now, db.goodId - {id}, db.banned);
    }
    GoodSetShrinks(db, id, db.Bad(decay, res, now));
  }

  lemma BadIs(decay: Decay, db: Db, id: int, res: ServiceResult, now: int)
    requires id >= 0 && res.service in db.ipToId && db.ipToId[res.service] == id && id in db.idToInfo && id !in db.unkId
    ensures var info := db.idToInfo[id].Updated(decay, false, now);
            var ban, d := db.BanLength(info, res), db.Bad(decay, res, now);
            if ban > 0 then
              d == db.(ipToId := db.ipToId - {info.service}, idToInfo := db.idToInfo - {id}, goodId := db.goodId - {id},
                       banned := db.banned[info.service := ban + now], nDirty := db.nDirty + 1)
            else
              d == db.(ourId := db.ourId + [id], idToInfo := db.idToInfo[id := info],
                       goodId := db.goodId - {id}, banned := db.banned, nDirty := db.nDirty + 1)
  {
    hide AddrInfo.Updated, Db.BanLength;
    assert db.unkId - {id} == db.unkId;
  }

  /** Forgetting an id is what a report does that bans. */
  lemma ForgottenIsDone(decay: Decay, db: Db, id: int, res: ServiceResult, now: int, ban: int)
    requires Healthy(decay, db, now) && id in Leased(db) && id in db.idToInfo && res.service == db.idToInfo[id].service
    requires !res.good && ban > 0
    ensures var d := db.(ipToId := db.ipToId - {res.service}, idToInfo := db.idToInfo - {id}, goodId := db.goodId - {id},
                         banned := db.banned[res.service := ban + now], nDirty := db.nDirty + 1);
            ReportDone(decay, db, d, id, res, now)
  {
    ForgottenKeeps(decay, db, id, now);
    var f := db.(ipToId := db.ipToId - {res.service}, idToInfo := db.idToInfo - {id}, goodId := db.goodId - {id});
    var d := f.(banned := db.banned[res.service := ban + now], nDirty := db.nDirty + 1);
    ForgottenParts(decay, f, now);
    GoodSetChanged(decay, f, d, now);
    assert Leased(d) == Leased(f);
    hide Healthy, Leased;
  }

  lemma ForgottenParts(decay: Decay, f: Db, t: int)
    requires Healthy(decay, f, t)
    ensures f.goodId <= f.idToInfo.Keys && f.goodId !! f.unkId
  {
  }

  lemma GoodSetShrinks(db: Db, id: int, d: Db)
    requires d.goodId == db.goodId - {id} && d.walletPort == db.walletPort
    requires forall k :: k in d.goodId && k in d.idToInfo ==> k in db.idToInfo && d.idToInfo[k] == db.idToInfo[k]
    ensures GoodSetServable(db) ==> GoodSetServable(d)
  {
    hide NetAddr.IsRoutable;
  }

  lemma ReportedKeeps(decay: Decay, db: Db, res: ServiceResult, now: int, t: int)
    requires IsDecay(decay) && Healthy(decay, db, t) && t <= now
    requires res.service in db.ipToId && db.ipToId[res.service] in Leased(db)
    ensures var d := db.Reported(decay, res, now);
            ReportDone(decay, db, d, db.ipToId[res.service], res, now)
    ensures var d := db.Reported(decay, res, now); GoodSetServable(db) ==> GoodSetServable(d)
  {
    hide Db.Good, Db.Bad, IsDecay;
    ClockMayAdvance(db, t, now);
    if res.good {
      GoodKeeps(decay, db, res, now);
    } else {
      BadKeeps(decay, db, res, now);
    }
  }
}
