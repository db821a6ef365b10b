/** Any number of crawlers sharing one database. A step is one call under the lock: one
    hand-out, one gossiped address, one seed, one report. Real blocks run several such calls
    under one lock, so every real interleaving is a run of these steps. */
module LeaseProtocol {
  import opened Bytes
  import opened Collections
  import opened Net
  import opened Score
  import opened CrawlerDb
  import opened DbInvariants

  datatype Event =
    | HandedOut(id: int, service: Service, time: int)
    | Tested(id: int, good: bool, time: int)
    | Banned(service: Service, expiry: int)

  /** The shared database, the batch each crawler holds, the ids a restart left leased to
      nobody, the latest clock reading, and everything that happened. */
  datatype World = World(
    db: Db,
    batches: seq<seq<Service>>,
    stranded: set<int>,
    clock: int,
    log: seq<Event>)

  datatype Step =
    | LeaseOne(crawler: nat, now: int, draws: nat -> Draw)
    | Learn(service: Service, services: u64, time: u32, force: bool, now: int)
    | Seed(service: Service, force: bool)
    | Report(crawler: nat, res: ServiceResult, now: int)

  /** The clock never runs backwards, and a crawler reports what it holds, in order. */
  predicate Enabled(w: World, step: Step) {
    match step
    case LeaseOne(c, now, _) => c < |w.batches| && w.clock <= now
    case Learn(_, _, _, _, now) => w.clock <= now
    case Seed(_, _) => true
    case Report(c, res, now) =>
      c < |w.batches| && w.batches[c] != [] && res.service == w.batches[c][0] && w.clock <= now
  }

  function Exec(decay: Decay, w: World, step: Step): World
    requires Enabled(w, step)
  {
    match step
    case LeaseOne(c, now, draws) =>
      var (db, outcome) := w.db.GetOne(now, draws);
      if outcome.Served? then
        w.(db := db, clock := now,
           batches := w.batches[c := w.batches[c] + [outcome.result.service]],
           log := w.log + [HandedOut(outcome.id, outcome.result.service, now)])
      else w.(db := db, clock := now)
    case Learn(service, services, time, force, now) =>
      w.(db := w.db.AddRaw(service, services, time, force, now), clock := now)
    case Seed(service, force) => w.(db := w.db.AddService(service, force))
    case Report(c, res, now) =>
      var db := w.db.Reported(decay, res, now);
      w.(db := db, clock := now, batches := w.batches[c := w.batches[c][1..]],
         log := w.log + ReportEvents(w.db, db, res, now))
  }

  /** A report is a verdict on an id, and a ban when the id is gone afterwards. */
  function ReportEvents(before: Db, after: Db, res: ServiceResult, now: int): seq<Event> {
    var id := before.Lookup(res.service);
    [Tested(id, res.good, now)]
    + if id in before.idToInfo && id !in after.idToInfo && res.service in after.banned
      then [Banned(res.service, after.banned[res.service])] else []
  }

  predicate Legal(decay: Decay, w: World, steps: seq<Step>)
    decreases |steps|
  {
    steps == [] || (Enabled(w, steps[0]) && Legal(decay, Exec(decay, w, steps[0]), steps[1..]))
  }

  function Run(decay: Decay, w: World, steps: seq<Step>): World
    requires Legal(decay, w, steps)
    decreases |steps|
  {
    if steps == [] then w else Run(decay, Exec(decay, w, steps[0]), steps[1..])
  }

  // ---------------------------------------------------------------- the invariant

  /** The services a live crawler must be holding. */
  ghost function OutOnLease(db: Db, stranded: set<int>): set<Service> {
    set s | s in db.ipToId && db.ipToId[s] in Leased(db) && db.ipToId[s] !in stranded
  }

  /** The crawlers' batches, pooled, are the leased services, each exactly once. */
  ghost predicate HeldExactly(w: World) {
    && w.stranded <= Leased(w.db)
    && Pooled(w.batches) == multiset(OutOnLease(w.db, w.stranded))
  }

  ghost predicate LogDated(w: World) {
    forall i :: 0 <= i < |w.log| && !w.log[i].Banned? ==>
      0 <= w.log[i].id < w.db.nId && w.log[i].time <= w.clock
  }

  /** New ids were never handed out, and queued ones were last tried after every hand-out. */
  ghost predicate LogBehindQueue(w: World) {
    forall i :: 0 <= i < |w.log| && w.log[i].HandedOut? ==>
      && w.log[i].id !in w.db.unkId
      && (w.log[i].id in w.db.ourId && w.log[i].id in w.db.idToInfo ==>
            w.log[i].time <= w.db.idToInfo[w.log[i].id].ourLastTry)
  }

  /** Two hand-outs of one id are at least `MIN_RETRY` seconds apart. */
  ghost predicate HandOutsSpaced(log: seq<Event>) {
    forall i, j :: 0 <= i < j < |log| && log[i].HandedOut? && log[j].HandedOut? && log[i].id == log[j].id ==>
      MIN_RETRY <= log[j].time - log[i].time
  }

  function LastVerdict(log: seq<Event>, id: int): Option<bool> {
    if log == [] then None
    else
      var e := log[|log| - 1];
      if e.Tested? && e.id == id then Some(e.good) else LastVerdict(log[..|log| - 1], id)
  }

  /** The latest report on every published id was good. */
  ghost predicate GoodSetVouched(w: World) {
    forall id :: id in w.db.goodId ==> LastVerdict(w.log, id) == Some(true)
  }

  ghost predicate Inv(decay: Decay, w: World) {
    && Healthy(decay, w.db, w.clock)
    && HeldExactly(w)
    && LogDated(w) && LogBehindQueue(w) && HandOutsSpaced(w.log)
    && GoodSetServable(w.db) && GoodSetVouched(w)
  }

  // ---------------------------------------------------------------- one step keeps it

  lemma VerdictAppended(log: seq<Event>, e: Event, id: int)
    ensures LastVerdict(log + [e], id) == if e.Tested? && e.id == id then Some(e.good) else LastVerdict(log, id)
  {
    assert (log + [e])[..|log|] == log;
  }

  lemma ServedKeepsLog(decay: Decay, w: World, d: Db, outcome: Outcome, now: int)
    requires Inv(decay, w) && w.clock <= now && OneServed(decay, w.db, now, d, outcome)
    ensures var v := w.(db := d, clock := now,
                        log := if outcome.Served?
                               then w.log + [HandedOut(outcome.id, outcome.result.service, now)] else w.log);
            && LogDated(v) && LogBehindQueue(v) && HandOutsSpaced(v.log)
            && GoodSetVouched(v) && GoodSetServable(v.db)
  {
    hide Scored, NetAddr.IsRoutable, LastVerdict, HeldExactly, Timed, AllResting;
    if outcome.Served? {
      var e := HandedOut(outcome.id, outcome.result.service, now);
      assert d.idToInfo[e.id].service == w.db.idToInfo[e.id].service;
      forall id
        ensures LastVerdict(w.log + [e], id) == LastVerdict(w.log, id)
      {
        VerdictAppended(w.log, e, id);
      }
    }
  }

  lemma ServedKeepsHeld(decay: Decay, w: World, c: nat, d: Db, outcome: Outcome, now: int)
    requires Inv(decay, w) && c < |w.batches| && OneServed(decay, w.db, now, d, outcome)
    ensures HeldExactly(w.(db := d,
                           batches := if outcome.Served?
                                      then w.batches[c := w.batches[c] + [outcome.result.service]] else w.batches))
  {
    hide GoodSetServable, Leased, LogDated, LogBehindQueue, HandOutsSpaced, GoodSetVouched, Healthy, Inverse;
    InvParts(decay, w);
    if outcome.Served? {
      var s := outcome.result.service;
      PooledPush(w.batches, c, s);
      LeasedIsTracked(d, outcome.id);
      NewlyOnLease(w.db, d, w.stranded, outcome.id, s);
      hide OutOnLease, OneServed, WellFormed, Moved;
    } else {
      assert OutOnLease(d, w.stranded) == OutOnLease(w.db, w.stranded);
    }
  }

  lemma NewlyOnLease(db: Db, d: Db, stranded: set<int>, id: int, s: Service)
    requires WellFormed(db) && SameTracking(db, d) && Leased(d) == Leased(db) + {id} && id !in Leased(db)
    requires id in db.idToInfo && s == db.idToInfo[id].service && stranded <= Leased(db)
    ensures OutOnLease(d, stranded) == OutOnLease(db, stranded) + {s} && s !in OutOnLease(db, stranded)
  {
    hide Leased, NoDuplicates;
  }

  lemma LeaseKeepsInv(decay: Decay, w: World, c: nat, now: int, draws: nat -> Draw)
    requires Inv(decay, w) && Enabled(w, LeaseOne(c, now, draws))
    ensures Inv(decay, Exec(decay, w, LeaseOne(c, now, draws)))
  {
    hide Db.GetOne, Healthy, HeldExactly, LogDated, LogBehindQueue, HandOutsSpaced, GoodSetVouched, GoodSetServable;
    var (d, outcome) := w.db.GetOne(now, draws);
    GetOneServes(decay, w.db, now, draws, w.clock);
    ServedKeepsLog(decay, w, d, outcome, now);
    ServedKeepsHeld(decay, w, c, d, outcome, now);
    HeldExactlyFrame(w.(db := d,
                        batches := if outcome.Served?
                                   then w.batches[c := w.batches[c] + [outcome.result.service]] else w.batches),
                     Exec(decay, w, LeaseOne(c, now, draws)));
    LogFrame(w.(db := d, clock := now, log := Exec(decay, w, LeaseOne(c, now, draws)).log),
             Exec(decay, w, LeaseOne(c, now, draws)));
  }

  lemma HeldExactlyFrame(v: World, u: World)
    requires v.db == u.db && v.batches == u.batches && v.stranded == u.stranded
    ensures HeldExactly(v) <==> HeldExactly(u)
  {
  }

  lemma LogFrame(v: World, u: World)
    requires v.db == u.db && v.clock == u.clock && v.log == u.log
    ensures LogDated(v) <==> LogDated(u)
    ensures LogBehindQueue(v) <==> LogBehindQueue(u)
    ensures GoodSetVouched(v) <==> GoodSetVouched(u)
  {
  }

  lemma GrownKeepsInv(decay: Decay, w: World, d: Db, t: int)
    requires Inv(decay, w) && w.clock <= t && Grown(w.db, d) && Healthy(decay, d, t) && Leased(d) == Leased(w.db)
    ensures Inv(decay, w.(db := d, clock := t))
  {
    hide Timed, Scored, NetAddr.IsRoutable, LastVerdict;
    assert OutOnLease(d, w.stranded) == OutOnLease(w.db, w.stranded) by {
      hide LogDated, LogBehindQueue, HandOutsSpaced, GoodSetServable;
      forall s
        ensures s in OutOnLease(d, w.stranded) <==> s in OutOnLease(w.db, w.stranded)
      {
        if s in d.ipToId && s !in w.db.ipToId {
          assert d.ipToId[s] !in Leased(d);
        }
      }
    }
    assert d.goodId <= w.db.idToInfo.Keys;
  }

  lemma LearnKeepsInv(decay: Decay, w: World, service: Service, services: u64, time: u32, force: bool, now: int)
    requires Inv(decay, w) && w.clock <= now
    ensures Inv(decay, Exec(decay, w, Learn(service, services, time, force, now)))
  {
    hide Inv, Grown, Db.AddRaw, NetAddr.IsRoutable;
    InvParts(decay, w);
    var d := w.db.AddRaw(service, services, time, force, now);
    ClockMayAdvance(w.db, w.clock, now);
    AddRawKeeps(decay, w.db, service, services, time, force, now, now);
    AddRawGrows(w.db, service, services, time, force, now);
    GrownKeepsInv(decay, w, d, now);
  }

  lemma SeedKeepsInv(decay: Decay, w: World, service: Service, force: bool)
    requires Inv(decay, w)
    ensures Inv(decay, Exec(decay, w, Seed(service, force)))
  {
    hide Inv, Grown, Db.AddService, NetAddr.IsRoutable;
    InvParts(decay, w);
    var d := w.db.AddService(service, force);
    AddServiceKeeps(decay, w.db, service, force, w.clock);
    AddServiceGrows(w.db, service, force);
    GrownKeepsInv(decay, w, d, w.clock);
    assert w.(db := d, clock := w.clock) == w.(db := d);
  }

  lemma InvParts(decay: Decay, w: World)
    requires Inv(decay, w)
    ensures Healthy(decay, w.db, w.clock) && WellFormed(w.db) && Timed(w.db, w.clock)
  {
  }

  /** The head of a batch is a tracked service whose id is out on lease. */
  lemma HeldIsLeased(decay: Decay, w: World, c: nat, i: nat)
    requires Inv(decay, w) && c < |w.batches| && i < |w.batches[c]|
    ensures w.batches[c][i] in OutOnLease(w.db, w.stranded)
  {
    PooledMember(w.batches, w.batches[c][i]);
  }

  lemma ReportEndsLease(decay: Decay, w: World, d: Db, res: ServiceResult, now: int)
    requires WellFormed(w.db) && w.stranded <= Leased(w.db)
    requires res.service in OutOnLease(w.db, w.stranded)
    requires ReportDone(decay, w.db, d, w.db.ipToId[res.service], res, now)
    ensures w.stranded <= Leased(d)
    ensures OutOnLease(d, w.stranded) == OutOnLease(w.db, w.stranded) - {res.service}
  {
    hide Healthy, Leased;
    var id := w.db.ipToId[res.service];
    forall s | s in w.db.ipToId && s != res.service
      ensures w.db.ipToId[s] != id
    {
    }
  }

  lemma ReportKeepsHeld(decay: Decay, w: World, c: nat, d: Db, res: ServiceResult, now: int)
    requires Inv(decay, w) && c < |w.batches| && w.batches[c] != [] && res.service == w.batches[c][0]
    requires res.service in OutOnLease(w.db, w.stranded)
    requires ReportDone(decay, w.db, d, w.db.ipToId[res.service], res, now)
    ensures HeldExactly(w.(db := d, batches := w.batches[c := w.batches[c][1..]]))
  {
    InvParts(decay, w);
    hide Healthy, WellFormed, ReportDone, OutOnLease, Leased;
    ReportEndsLease(decay, w, d, res, now);
    PooledPop(w.batches, c);
    SetWithout(Pooled(w.batches[c := w.batches[c][1..]]), OutOnLease(w.db, w.stranded), res.service);
  }

  lemma ReportKeepsLog(decay: Decay, w: World, d: Db, res: ServiceResult, now: int)
    requires Inv(decay, w) && w.clock <= now && res.service in w.db.ipToId
    requires ReportDone(decay, w.db, d, w.db.ipToId[res.service], res, now)
    ensures var v := w.(db := d, clock := now, log := w.log + ReportEvents(w.db, d, res, now));
            LogDated(v) && LogBehindQueue(v) && HandOutsSpaced(v.log) && GoodSetVouched(v)
  {
    hide Timed, Scored, NetAddr.IsRoutable, HeldExactly, Leased, GoodSetServable, LastVerdict;
    var id := w.db.ipToId[res.service];
    var e := Tested(id, res.good, now);
    var events := ReportEvents(w.db, d, res, now);
    forall k
      ensures LastVerdict(w.log + events, k) == if k == id then Some(res.good) else LastVerdict(w.log, k)
    {
      VerdictAppended(w.log, e, k);
      if |events| == 1 {
        assert events == [e];
      } else {
        VerdictAppended(w.log + [e], events[1], k);
        assert w.log + events == (w.log + [e]) + [events[1]];
      }
    }
    forall k | k in d.goodId
      ensures LastVerdict(w.log + events, k) == Some(true)
    {
      if k != id {
        assert k in d.goodId - {id};
      }
    }
  }

  lemma ReportKeepsInv(decay: Decay, w: World, c: nat, res: ServiceResult, now: int)
    requires IsDecay(decay) && Inv(decay, w) && Enabled(w, Report(c, res, now))
    ensures Inv(decay, Exec(decay, w, Report(c, res, now)))
  {
    hide Db.Reported, Healthy, LogDated, LogBehindQueue, HandOutsSpaced, GoodSetVouched, GoodSetServable,
      ReportEvents, HeldExactly, IsDecay;
    HeldIsLeased(decay, w, c, 0);
    var d := w.db.Reported(decay, res, now);
    ReportedKeeps(decay, w.db, res, now, w.clock);
    ReportKeepsLog(decay, w, d, res, now);
    ReportKeepsHeld(decay, w, c, d, res, now);
    var v := Exec(decay, w, Report(c, res, now));
    HeldExactlyFrame(w.(db := d, batches := w.batches[c := w.batches[c][1..]]), v);
    LogFrame(w.(db := d, clock := now, log := v.log), v);
  }

  lemma StepKeepsInv(decay: Decay, w: World, step: Step)
    requires IsDecay(decay) && Inv(decay, w) && Enabled(w, step)
    ensures Inv(decay, Exec(decay, w, step))
  {
    hide Inv, IsDecay;
    match step
    case LeaseOne(c, now, draws) => LeaseKeepsInv(decay, w, c, now, draws);
    case Learn(service, services, time, force, now) => LearnKeepsInv(decay, w, service, services, time, force, now);
    case Seed(service, force) => SeedKeepsInv(decay, w, service, force);
    case Report(c, res, now) => ReportKeepsInv(decay, w, c, res, now);
  }
}
