/** A crawler: lease a batch, test it without the lock, pass on the gossip, report. */
module Crawler {
  import opened Bytes
  import opened Net
  import opened Score
  import opened Message
  import opened FrameDecoder
  import opened Handshake
  import opened HandshakeSafety
  import opened HandshakeEnds
  import opened CrawlerDb
  import opened DbInvariants
  import opened LeaseProtocol
  import opened LeaseSafety

  const BATCH: nat := 16
  const DAY: int := 86400

  /** The height of the chain as read before a peer's handshake, and whether an explorer vouches
      for it, as read after. */
  datatype Tip = Tip(height: int, explorer: bool)

  predicate InSync(p: Peer, tip: Tip) {
    p.height >= (if tip.explorer then tip.height - 5 else tip.height)
    && (tip.explorer ==> p.height <= tip.height + 5)
  }

  /** What is reported on a leased peer after its handshake. */
  function Verdict(leased: ServiceResult, p: Peer, tip: Tip): ServiceResult {
    ServiceResult(leased.service, p.services, p.ban == 0 && p.version > 0, p.ban, p.height, p.version,
                  p.subVersion, 0, InSync(p, tip))
  }

  /** What the handshake with a leased peer learns, from the chunks its connection delivers: none,
      when it cannot be reached. Addresses are asked for when the last success is a day old. */
  function Handshaken(app: AppState, leased: ServiceResult, now: int, chunks: seq<seq<byte>>): Peer {
    Receive(app, leased.ourLastSuccess + DAY < now, chunks, [], NEW_PEER, Hungry).peer
  }

  function Peers(app: AppState, leased: seq<ServiceResult>, now: int, chunks: nat -> seq<seq<byte>>): (p: seq<Peer>)
    ensures |p| == |leased|
  {
    seq(|leased|, i requires 0 <= i < |leased| => Handshaken(app, leased[i], now, chunks(i)))
  }

  function Verdicts(leased: seq<ServiceResult>, peers: seq<Peer>, tips: nat -> Tip): (r: seq<ServiceResult>)
    requires |peers| == |leased|
    ensures |r| == |leased|
  {
    seq(|leased|, i requires 0 <= i < |leased| => Verdict(leased[i], peers[i], tips(i)))
  }

  /** `add` for every address a peer gossiped, each with its own clock reading. */
  function Gossiped(db: Db, addrs: seq<Address>, now: nat -> int, k: nat): Db
    decreases |addrs| - k
  {
    if k >= |addrs| then db
    else Gossiped(db.AddRaw(Service(addrs[k].addr, addrs[k].port), addrs[k].services, addrs[k].time, false, now(k)),
                  addrs, now, k + 1)
  }

  function AllGossiped(db: Db, peers: seq<Peer>, now: nat -> nat -> int, k: nat): Db
    decreases |peers| - k
  {
    if k >= |peers| then db else AllGossiped(Gossiped(db, peers[k].addresses, now(k), 0), peers, now, k + 1)
  }

  method AddAll(db: AddrDb, addrs: seq<Address>, now: nat -> int)
    modifies db
    ensures db.View() == Gossiped(old(db.View()), addrs, now, 0)
  {
    hide Db.AddRaw;
    for k := 0 to |addrs|
      invariant Gossiped(old(db.View()), addrs, now, 0) == Gossiped(db.View(), addrs, now, k)
    {
      db.AddRaw(Service(addrs[k].addr, addrs[k].port), addrs[k].services, addrs[k].time, false, now(k));
    }
  }

  /** What a peer's handshake has to do with the report on it, in plain values. The height of the
      chain is allowed for by five blocks either way where an explorer gave it, and is a lower
      bound otherwise. */
  ghost predicate ReportedAs(r: ServiceResult, leased: ServiceResult, s: Session, tip: Tip) {
    && r.service == leased.service && r.ourLastSuccess == 0
    && r.banTime == s.peer.ban && r.height == s.peer.height && r.clientV == s.peer.version
    && r.clientSv == s.peer.subVersion && r.services == s.peer.services
    && (r.good <==> s.why != Broken && VersionSaid(s.msgs) > 0)
    && (r.inSync <==>
          if tip.explorer then -5 <= s.peer.height - tip.height <= 5 else tip.height <= s.peer.height)
  }

  /** The version a peer said last: that of its last version message of at least four octets. */
  function VersionSaid(msgs: seq<Item>): i32
    decreases |msgs|
  {
    if msgs == [] then 0
    else
      var last := msgs[|msgs| - 1];
      if last.Msg? && last.command == [118, 101, 114, 115, 105, 111, 110] && |last.payload| >= 4 then
        AsI32(Number(last.payload[0], last.payload[1], last.payload[2], last.payload[3]) % 0x1_0000_0000)
      else VersionSaid(msgs[..|msgs| - 1])
  }

  lemma {:induction false} LastVersionCounts(app: AppState, getAddr: bool, msgs: seq<Item>)
    ensures ApplyAll(app, getAddr, NEW_PEER, msgs).version == VersionSaid(msgs)
    decreases |msgs|
  {
    if msgs != [] {
      var front, last := msgs[..|msgs| - 1], msgs[|msgs| - 1];
      LastVersionCounts(app, getAddr, front);
      ApplyAllJoins(app, getAddr, NEW_PEER, front, [last]);
      assert front + [last] == msgs;
      var p := ApplyAll(app, getAddr, NEW_PEER, front);
      OneApplied(app, getAddr, p, last);
      hide Apply, ApplyAll;
      if last.Msg? {
        VersionByMessage(app, getAddr, p, last);
      } else {
        NoMessageNoChange(app, getAddr, p, last);
      }
    }
  }

  lemma VersionByMessage(app: AppState, getAddr: bool, p: Peer, msg: Item)
    requires msg.Msg?
    ensures Apply(app, getAddr, p, msg).version
            == if msg.command == [118, 101, 114, 115, 105, 111, 110] && |msg.payload| >= 4
               then AsI32(Number(msg.payload[0], msg.payload[1], msg.payload[2], msg.payload[3]) % 0x1_0000_0000)
               else p.version
  {
    assert msg == Msg(msg.command, msg.payload);
    VersionByLength(app, getAddr, p, msg.payload);
    if msg.command != VERSION {
      hide OnVersion, ReadAddresses, OnAddr, Number;
    }
  }

  lemma NoMessageNoChange(app: AppState, getAddr: bool, p: Peer, msg: Item)
    requires !msg.Msg?
    ensures Apply(app, getAddr, p, msg) == p
  {
  }

  /** The handshake with a leased peer: addresses are asked for when it was last good more than a
      day ago. */
  function SessionWith(app: AppState, leased: ServiceResult, now: int, chunks: seq<seq<byte>>): Session {
    Receive(app, leased.ourLastSuccess + 86400 < now, chunks, [], NEW_PEER, Hungry)
  }

  /** Every report is like that; in particular a peer that delivers nothing is reported as not
      good, with no ban. */
  lemma VerdictsAreReports(app: AppState, leased: ServiceResult, now: int, chunks: seq<seq<byte>>, tip: Tip)
    ensures var r := Verdict(leased, Handshaken(app, leased, now, chunks), tip);
            && ReportedAs(r, leased, SessionWith(app, leased, now, chunks), tip)
            && (chunks == [] ==> !r.good && r.banTime == 0)
  {
    var getAddr := leased.ourLastSuccess + 86400 < now;
    var s := SessionWith(app, leased, now, chunks);
    ChunkingIndependence(app, getAddr, chunks, []);
    NoBanFromMessages(app, getAddr, NEW_PEER, s.msgs);
    LastVersionCounts(app, getAddr, s.msgs);
    NothingFromNothing(app, getAddr);
    hide Receive, ApplyAll, VersionSaid, Decoded, Joined;
  }

  lemma NothingFromNothing(app: AppState, getAddr: bool)
    ensures Receive(app, getAddr, [], [], NEW_PEER, Hungry) == Session([], NEW_PEER, [], 0, Hungry)
  {
  }

  /** One pass of the crawler's loop when no other crawler comes between. What others do between
      its calls is in the protocol, below. */
  method CrawlOnce(db: AddrDb, app: AppState, leaseTime: nat -> int, draws: nat -> nat -> Draw, now: int,
                   chunks: nat -> seq<seq<byte>>, tips: nat -> Tip,
                   gossipTime: nat -> nat -> int, reportTime: nat -> int)
    returns (batch: seq<ServiceResult>, results: seq<ServiceResult>)
    modifies db
    ensures batch == old(db.View()).GetMany(16, leaseTime, draws, 0).1
    ensures results == Verdicts(batch, Peers(app, batch, now, chunks), tips)
    ensures |results| == |batch| <= 16
    ensures forall i :: 0 <= i < |results| ==>
              && ReportedAs(results[i], batch[i], SessionWith(app, batch[i], now, chunks(i)), tips(i))
              && (chunks(i) == [] ==> !results[i].good && results[i].banTime == 0)
    ensures db.View()
            == var leased := old(db.View()).GetMany(16, leaseTime, draws, 0).0;
               AllGossiped(leased, Peers(app, batch, now, chunks), gossipTime, 0)
               .ResultMany(db.decay, results, reportTime, 0)
  {
    hide Db.GetMany, Db.ResultMany, Receive, ReportedAs, SessionWith, Verdict;
    BatchSize(db.View(), BATCH, leaseTime, draws, 0);
    batch := db.GetMany(BATCH, leaseTime, draws);
    results := [];
    if batch == [] {
      NothingToDo(db.View(), db.decay, gossipTime, reportTime);
      return;
    }
    ghost var leased, peers := db.View(), Peers(app, batch, now, chunks);
    for i := 0 to |batch|
      invariant |results| == i
      invariant forall j :: 0 <= j < i ==> results[j] == Verdict(batch[j], peers[j], tips(j))
      invariant AllGossiped(leased, peers, gossipTime, 0) == AllGossiped(db.View(), peers, gossipTime, i)
    {
      var p, _, _, _, _ := TestNode(app, batch[i].ourLastSuccess + DAY < now, chunks(i));
      results := results + [Verdict(batch[i], p, tips(i))];
      if p.addresses != [] {
        AddAll(db, p.addresses, gossipTime(i));
      }
    }
    assert results == Verdicts(batch, peers, tips);
    forall i | 0 <= i < |results|
      ensures ReportedAs(results[i], batch[i], SessionWith(app, batch[i], now, chunks(i)), tips(i))
              && (chunks(i) == [] ==> !results[i].good && results[i].banTime == 0)
    {
      VerdictsAreReports(app, batch[i], now, chunks(i), tips(i));
      assert results[i] == Verdict(batch[i], Handshaken(app, batch[i], now, chunks(i)), tips(i));
    }
    db.ResultMany(results, reportTime);
  }

  lemma {:induction false} BatchSize(db: Db, max: nat, now: nat -> int, draws: nat -> nat -> Draw, k: nat)
    requires k <= max
    ensures |db.GetMany(max, now, draws, k).1| <= max - k
    decreases max - k
  {
    hide Db.GetOne;
    if k < max {
      BatchSize(db.GetOne(now(k), draws(k)).0, max, now, draws, k + 1);
    }
  }

  lemma NothingToDo(db: Db, decay: Decay, gossipTime: nat -> nat -> int, reportTime: nat -> int)
    ensures AllGossiped(db, [], gossipTime, 0).ResultMany(decay, [], reportTime, 0) == db
  {
  }

  // ---------------------------------------------------------------- the crawler keeps the protocol

  /** Clock readings from the `k`-th on that never go back, nor behind `start`. */
  ghost predicate Forward(now: nat -> int, k: nat, start: int) {
    start <= now(k) && forall i, j :: k <= i <= j ==> now(i) <= now(j)
  }

  function Services(results: seq<ServiceResult>): (s: seq<Service>)
    ensures |s| == |results|
  {
    seq(|results|, i requires 0 <= i < |results| => results[i].service)
  }

  lemma {:induction false} RunJoins(decay: Decay, w: World, a: seq<Step>, b: seq<Step>)
    requires Legal(decay, w, a)
    ensures Legal(decay, w, a + b) <==> Legal(decay, Run(decay, w, a), b)
    ensures Legal(decay, w, a + b) ==> Run(decay, w, a + b) == Run(decay, Run(decay, w, a), b)
    decreases |a|
  {
    hide Exec, Enabled;
    if a == [] {
      assert a + b == b;
    } else {
      assert (a + b)[1..] == a[1..] + b;
      RunJoins(decay, Exec(decay, w, a[0]), a[1..], b);
    }
  }

  /** The calls `get_many` makes, one step each, the fruitless last one included. */
  function LeaseSteps(db: Db, c: nat, max: nat, now: nat -> int, draws: nat -> nat -> Draw, k: nat): seq<Step>
    decreases max - k
  {
    if k >= max then []
    else
      var (d, outcome) := db.GetOne(now(k), draws(k));
      [LeaseOne(c, now(k), draws(k))] + if outcome.Served? then LeaseSteps(d, c, max, now, draws, k + 1) else []
  }

  /** Leasing a batch is a legal run, and leaves the crawler with just that batch more. */
  lemma {:induction false} LeasingIsLegal(decay: Decay, w: World, c: nat, max: nat, now: nat -> int,
                                          draws: nat -> nat -> Draw, k: nat)
    requires c < |w.batches| && Forward(now, k, w.clock)
    ensures var steps := LeaseSteps(w.db, c, max, now, draws, k);
            var (db, batch) := w.db.GetMany(max, now, draws, k);
            && Legal(decay, w, steps)
            && Run(decay, w, steps).db == db
            && Run(decay, w, steps).batches == w.batches[c := w.batches[c] + Services(batch)]
    decreases max - k
  {
    hide Db.GetOne, Db.GetMany, Exec, Services;
    if k >= max {
      NothingLeased(w.db, max, now, draws, k);
      assert w.batches[c] + [] == w.batches[c];
      assert w.batches[c := w.batches[c]] == w.batches;
    } else {
      var (d, outcome) := w.db.GetOne(now(k), draws(k));
      var step := LeaseOne(c, now(k), draws(k));
      var steps := LeaseSteps(w.db, c, max, now, draws, k);
      assert steps[0] == step;
      w.db.GetManyStep(max, now, draws, k);
      LeaseOneDoes(decay, w, c, now(k), draws(k));
      if outcome.Served? {
        LeasingIsLegal(decay, Exec(decay, w, step), c, max, now, draws, k + 1);
        assert steps[1..] == LeaseSteps(d, c, max, now, draws, k + 1);
        ServicesPush(w.batches[c], outcome.result, d.GetMany(max, now, draws, k + 1).1);
      } else {
        assert steps[1..] == [];
        NoServices();
        assert w.batches[c] + [] == w.batches[c];
        assert w.batches[c := w.batches[c]] == w.batches;
      }
    }
  }

  lemma NothingLeased(db: Db, max: nat, now: nat -> int, draws: nat -> nat -> Draw, k: nat)
    requires k >= max
    ensures db.GetMany(max, now, draws, k) == (db, []) && Services([]) == []
  {
  }

  lemma NoServices()
    ensures Services([]) == []
  {
  }

  lemma ServicesPush(held: seq<Service>, r: ServiceResult, rest: seq<ServiceResult>)
    ensures (held + [r.service]) + Services(rest) == held + Services([r] + rest)
  {
    var all := [r] + rest;
    assert Services(all) == [r.service] + Services(rest) by {
      assert forall i :: 0 < i < |all| ==> all[i] == rest[i - 1];
    }
  }

  lemma LeaseOneDoes(decay: Decay, w: World, c: nat, now: int, draws: nat -> Draw)
    requires Enabled(w, LeaseOne(c, now, draws))
    ensures var (d, outcome) := w.db.GetOne(now, draws);
            var v := Exec(decay, w, LeaseOne(c, now, draws));
            && v.db == d && v.clock == now
            && v.batches == if outcome.Served? then w.batches[c := w.batches[c] + [outcome.result.service]] else w.batches
  {
    hide Db.GetOne;
  }

  /** A step that is not this crawler's leasing or reporting. */
  predicate Foreign(step: Step, c: nat) {
    match step
    case LeaseOne(d, _, _) => d != c
    case Report(d, _, _) => d != c
    case Learn(_, _, _, _, _) => true
    case Seed(_, _) => true
  }

  lemma {:induction false} OthersLeaveTheBatch(decay: Decay, w: World, steps: seq<Step>, c: nat)
    requires Legal(decay, w, steps) && c < |w.batches|
    requires forall i :: 0 <= i < |steps| ==> Foreign(steps[i], c)
    ensures |Run(decay, w, steps).batches| == |w.batches| && Run(decay, w, steps).batches[c] == w.batches[c]
    decreases |steps|
  {
    hide Db.GetOne, Db.Reported, Db.AddRaw, Db.AddService, ReportEvents;
    if steps != [] {
      assert Foreign(steps[0], c);
      OthersLeaveTheBatch(decay, Exec(decay, w, steps[0]), steps[1..], c);
    }
  }

  function ReportSteps(c: nat, results: seq<ServiceResult>, now: nat -> int, k: nat): seq<Step>
    decreases |results| - k
  {
    if k >= |results| then [] else [Report(c, results[k], now(k))] + ReportSteps(c, results, now, k + 1)
  }

  /** Reporting on a whole batch, in order, is a legal run, and leaves the crawler with nothing. */
  lemma {:induction false} ReportingIsLegal(decay: Decay, w: World, c: nat, results: seq<ServiceResult>,
                                            now: nat -> int, k: nat)
    requires c < |w.batches| && k <= |results| && w.batches[c] == Services(results)[k..] && Forward(now, k, w.clock)
    ensures var steps := ReportSteps(c, results, now, k);
            && Legal(decay, w, steps)
            && Run(decay, w, steps).db == w.db.ResultMany(decay, results, now, k)
            && Run(decay, w, steps).batches == w.batches[c := []]
    decreases |results| - k
  {
    hide Db.Reported, ReportEvents;
    var steps := ReportSteps(c, results, now, k);
    if k == |results| {
      assert w.batches[c := []] == w.batches;
    } else {
      var v := Exec(decay, w, steps[0]);
      assert w.batches[c][0] == results[k].service && w.batches[c][1..] == Services(results)[k + 1..];
      ReportingIsLegal(decay, v, c, results, now, k + 1);
      assert steps[1..] == ReportSteps(c, results, now, k + 1);
      assert v.batches[c := []] == w.batches[c := []];
    }
  }

  lemma VerdictsKeepServices(leased: seq<ServiceResult>, peers: seq<Peer>, tips: nat -> Tip)
    requires |peers| == |leased|
    ensures Services(Verdicts(leased, peers, tips)) == Services(leased)
  {
    var results := Verdicts(leased, peers, tips);
    forall i | 0 <= i < |leased|
      ensures Services(results)[i] == Services(leased)[i]
    {
      assert results[i] == Verdict(leased[i], peers[i], tips(i));
    }
  }

  /** A whole pass of the crawler, whatever other crawlers, gossip and seeds come between its
      leasing and its reporting, and whatever its peers say: a legal run of the protocol. It
      keeps the invariant and leaves the crawler holding nothing. So does, by repetition, a
      program of nothing but such passes. */
  lemma PassIsLegal(decay: Decay, w: World, c: nat, leaseTime: nat -> int, draws: nat -> nat -> Draw,
                    between: seq<Step>, peers: seq<Peer>, tips: nat -> Tip, reportTime: nat -> int)
    requires IsDecay(decay) && Inv(decay, w) && c < |w.batches| && w.batches[c] == [] && Forward(leaseTime, 0, w.clock)
    requires |peers| == |w.db.GetMany(BATCH, leaseTime, draws, 0).1|
    requires forall i :: 0 <= i < |between| ==> Foreign(between[i], c)
    requires var leasing := LeaseSteps(w.db, c, BATCH, leaseTime, draws, 0);
             Legal(decay, w, leasing + between) && Forward(reportTime, 0, Run(decay, w, leasing + between).clock)
    ensures var results := Verdicts(w.db.GetMany(BATCH, leaseTime, draws, 0).1, peers, tips);
            var steps := LeaseSteps(w.db, c, BATCH, leaseTime, draws, 0) + between + ReportSteps(c, results,
              reportTime, 0);
            && Legal(decay, w, steps)
            && Inv(decay, Run(decay, w, steps))
            && |Run(decay, w, steps).batches| == |w.batches| && Run(decay, w, steps).batches[c] == []
  {
    hide *;
    var leasing := LeaseSteps(w.db, c, BATCH, leaseTime, draws, 0);
    var batch := w.db.GetMany(BATCH, leaseTime, draws, 0).1;
    var results := Verdicts(batch, peers, tips);
    LeasingIsLegal(decay, w, c, BATCH, leaseTime, draws, 0);
    RunJoins(decay, w, leasing, between);
    var mid := Run(decay, w, leasing);
    assert [] + Services(batch) == Services(batch);
    OthersLeaveTheBatch(decay, mid, between, c);
    var v := Run(decay, mid, between);
    VerdictsKeepServices(batch, peers, tips);
    assert Services(results)[0..] == Services(results);
    ReportingIsLegal(decay, v, c, results, reportTime, 0);
    RunJoins(decay, w, leasing + between, ReportSteps(c, results, reportTime, 0));
    RunKeepsInv(decay, w, leasing + between + ReportSteps(c, results, reportTime, 0));
  }

  // ---------------------------------------------------------------- the pass without interference

  function GossipSteps(addrs: seq<Address>, now: nat -> int, k: nat): (s: seq<Step>)
    ensures |s| == if k < |addrs| then |addrs| - k else 0
    ensures forall i :: 0 <= i < |s| ==>
              var a := addrs[k + i];
              s[i] == Learn(Service(a.addr, a.port), a.services, a.time, false, now(k + i))
    decreases |addrs| - k
  {
    if k >= |addrs| then []
    else [Learn(Service(addrs[k].addr, addrs[k].port), addrs[k].services, addrs[k].time, false, now(k))]
         + GossipSteps(addrs, now, k + 1)
  }

  function AllGossipSteps(peers: seq<Peer>, now: nat -> nat -> int, k: nat): (s: seq<Step>)
    ensures forall i :: 0 <= i < |s| ==> s[i].Learn?
    decreases |peers| - k
  {
    if k >= |peers| then [] else GossipSteps(peers[k].addresses, now(k), 0) + AllGossipSteps(peers, now, k + 1)
  }

  /** Clock readings that never go back, within one peer's gossip and from peer to peer. */
  ghost predicate AllForward(now: nat -> nat -> int, k: nat, start: int) {
    && start <= now(k)(0)
    && (forall p, i, j :: k <= p && 0 <= i <= j ==> now(p)(i) <= now(p)(j))
    && (forall p, i :: k <= p && 0 <= i ==> now(p)(i) <= now(p + 1)(0))
  }

  lemma {:induction false} GossipIsLegal(decay: Decay, w: World, addrs: seq<Address>, now: nat -> int, k: nat)
    requires Forward(now, k, w.clock)
    ensures var steps := GossipSteps(addrs, now, k);
            && Legal(decay, w, steps)
            && Run(decay, w, steps).db == Gossiped(w.db, addrs, now, k)
            && Run(decay, w, steps).clock <= now(if k < |addrs| then |addrs| else k)
    decreases |addrs| - k
  {
    hide Db.AddRaw;
    var steps := GossipSteps(addrs, now, k);
    if k < |addrs| {
      GossipIsLegal(decay, Exec(decay, w, steps[0]), addrs, now, k + 1);
      assert steps[1..] == GossipSteps(addrs, now, k + 1);
    }
  }

  lemma {:induction false} AllGossipIsLegal(decay: Decay, w: World, peers: seq<Peer>, now: nat -> nat -> int, k: nat)
    requires AllForward(now, k, w.clock)
    ensures var steps := AllGossipSteps(peers, now, k);
            && Legal(decay, w, steps)
            && Run(decay, w, steps).db == AllGossiped(w.db, peers, now, k)
    decreases |peers| - k
  {
    hide Gossiped, GossipSteps, Legal, Run;
    if k < |peers| {
      GossipIsLegal(decay, w, peers[k].addresses, now(k), 0);
      var first := GossipSteps(peers[k].addresses, now(k), 0);
      var v := Run(decay, w, first);
      assert v.clock <= now(k + 1)(0);
      AllGossipIsLegal(decay, v, peers, now, k + 1);
      RunJoins(decay, w, first, AllGossipSteps(peers, now, k + 1));
    } else {
      NoSteps(decay, w);
    }
  }

  lemma NoSteps(decay: Decay, w: World)
    ensures Legal(decay, w, []) && Run(decay, w, []) == w
  {
  }

  /** `CrawlOnce` refines the protocol: what it makes of the database is what one crawler's
      steps make of it, leasing, then gossip, then reports. */
  lemma CrawlOnceIsARun(decay: Decay, w: World, c: nat, leaseTime: nat -> int, draws: nat -> nat -> Draw,
                        peers: seq<Peer>, tips: nat -> Tip, gossipTime: nat -> nat -> int, reportTime: nat -> int)
    requires c < |w.batches| && w.batches[c] == [] && Forward(leaseTime, 0, w.clock)
    requires |peers| == |w.db.GetMany(BATCH, leaseTime, draws, 0).1|
    requires var leasing := LeaseSteps(w.db, c, BATCH, leaseTime, draws, 0);
             Legal(decay, w, leasing) ==>
               && AllForward(gossipTime, 0, Run(decay, w, leasing).clock)
               && (Legal(decay, w, leasing + AllGossipSteps(peers, gossipTime, 0)) ==>
                     Forward(reportTime, 0, Run(decay, w, leasing + AllGossipSteps(peers, gossipTime, 0)).clock))
    ensures var (leased, batch) := w.db.GetMany(BATCH, leaseTime, draws, 0);
            var results := Verdicts(batch, peers, tips);
            var steps := LeaseSteps(w.db, c, BATCH, leaseTime, draws, 0) + AllGossipSteps(peers, gossipTime, 0)
                         + ReportSteps(c, results, reportTime, 0);
            && Legal(decay, w, steps)
            && Run(decay, w, steps).db
               == AllGossiped(leased, peers, gossipTime, 0).ResultMany(decay, results, reportTime, 0)
  {
    hide *;
    var leasing := LeaseSteps(w.db, c, BATCH, leaseTime, draws, 0);
    var gossip := AllGossipSteps(peers, gossipTime, 0);
    var batch := w.db.GetMany(BATCH, leaseTime, draws, 0).1;
    var results := Verdicts(batch, peers, tips);
    LeasingIsLegal(decay, w, c, BATCH, leaseTime, draws, 0);
    var mid := Run(decay, w, leasing);
    assert [] + Services(batch) == Services(batch);
    AllGossipIsLegal(decay, mid, peers, gossipTime, 0);
    RunJoins(decay, w, leasing, gossip);
    GossipIsForeign(gossip, c);
    OthersLeaveTheBatch(decay, mid, gossip, c);
    VerdictsKeepServices(batch, peers, tips);
    assert Services(results)[0..] == Services(results);
    ReportingIsLegal(decay, Run(decay, mid, gossip), c, results, reportTime, 0);
    RunJoins(decay, w, leasing + gossip, ReportSteps(c, results, reportTime, 0));
  }

  lemma GossipIsForeign(steps: seq<Step>, c: nat)
    requires forall i :: 0 <= i < |steps| ==> steps[i].Learn?
    ensures forall i :: 0 <= i < |steps| ==> Foreign(steps[i], c)
  {
  }
}
