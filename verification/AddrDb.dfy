/** The crawler's database: what each locked operation does to its state (`Db`), and the
    object that does it in place (`AddrDb`).

    The clock is an argument. The two sources of chance in `get_one`, the random number and
    the element a hash set's iteration ends on, are arguments too: a `Draw`. */
module CrawlerDb {
  import opened Bytes
  import opened Net
  import opened Score
  import Collections

  datatype ServiceResult = ServiceResult(
    service: Service,
    services: u64,
    good: bool,
    banTime: int,
    height: int,
    clientV: int,
    clientSv: seq<byte>,
    ourLastSuccess: int,
    inSync: bool)

  ghost function SomeMember(s: set<int>): (x: int)
    ensures |s| > 0 ==> x in s
  {
    if |s| == 0 then 0 else Collections.AnyOf(s)
  }

  /** Which element iteration over a non-empty hash set ends on. */
  type Picker = f: set<int> -> int | (forall s: set<int> :: |s| > 0 ==> f(s) in s)
    ghost witness SomeMember

  datatype Draw = Draw(rnd: u64, last: Picker)

  /** How `get_one` ended. All but `Served` are `None` to the caller; `Lost` is its `?` exits. */
  datatype Outcome = Served(id: int, result: ServiceResult) | Idle | Cooldown | Exhausted | Lost {
    function Result(): Option<ServiceResult> {
      if Served? then Some(result) else None
    }
  }

  /** One round of `get_one`'s loop before the ignore test: an id in hand, or an exit. */
  datatype Turn = Got(db: Db, id: int) | Stop(outcome: Outcome)

  datatype Db = Db(
    nId: int,
    idToInfo: map<int, AddrInfo>,
    ipToId: map<Service, int>,
    ourId: seq<int>,
    unkId: set<int>,
    goodId: set<int>,
    banned: map<Service, int>,
    nDirty: int,
    walletPort: u16,
    minVersion: int)
  {
    function Lookup(service: Service): int {
      if service in ipToId then ipToId[service] else -1
    }

    function Inserted(info: AddrInfo): Db {
      this.(nId := nId + 1,
            idToInfo := idToInfo[nId := info],
            ipToId := ipToId[info.service := nId],
            unkId := unkId + {nId},
            nDirty := nDirty + 1)
    }

    /** Gossip about a service already tracked: a later sighting (compared as `u32`), and a
        forced one lifts the ignore mark. */
    function Touched(id: int, time: u32, force: bool): Db {
      if id !in idToInfo then this
      else
        var seen := if time > idToInfo[id].lastTry % 0x1_0000_0000
                    then idToInfo[id].(lastTry := time) else idToInfo[id];
        this.(idToInfo := idToInfo[id := if force then seen.(ignoreTill := 0) else seen])
    }

    function Learned(service: Service, services: u64, time: u32, force: bool): Db {
      if service in ipToId then Touched(ipToId[service], time, force)
      else Inserted(NewInfo(service).(services := services, lastTry := time))
    }

    function AddRaw(service: Service, services: u64, time: u32, force: bool, now: int): Db {
      if !force && !service.IsRoutable() then this
      else if service !in banned then Learned(service, services, time, force)
      else if force || (banned[service] < now && time > banned[service])
      then this.(banned := banned - {service}).Learned(service, services, time, force)
      else this
    }

    function AddService(service: Service, force: bool): Db {
      if (!force && !service.IsRoutable()) || service in ipToId then this
      else Inserted(NewInfo(service))
    }

    function Take(now: int, tot: nat, draw: Draw): Turn
      requires tot > 0
    {
      if draw.rnd % tot < |unkId| then
        var id := draw.last(unkId);
        Got(this.(unkId := unkId - {id}), id)
      else if ourId == [] || ourId[0] !in idToInfo then Stop(Lost)
      else if now - idToInfo[ourId[0]].ourLastTry < MIN_RETRY then Stop(Cooldown)
      else Got(this.(ourId := ourId[1..]), ourId[0])
    }

    predicate Skips(id: int, now: int)
      requires id in idToInfo
    {
      0 < idToInfo[id].ignoreTill < now
    }

    function Requeued(id: int, now: int): Db
      requires id in idToInfo
    {
      this.(ourId := ourId + [id], idToInfo := idToInfo[id := idToInfo[id].(ourLastTry := now)])
    }

    function Lease(id: int): ServiceResult
      requires id in idToInfo
    {
      ServiceResult(idToInfo[id].service, idToInfo[id].services, false, 0, 0, 0, [], idToInfo[id].ourLastSuccess, false)
    }

    /** `get_one` from its `i`-th round on. */
    function Rounds(now: int, draws: nat -> Draw, tot: nat, i: nat): (Db, Outcome)
      decreases tot - i
    {
      if i >= tot then (this, Exhausted)
      else
        match Take(now, tot, draws(i))
        case Stop(outcome) => (this, outcome)
        case Got(db, id) =>
          if id !in db.idToInfo then (db, Lost)
          else if db.Skips(id, now) then db.Requeued(id, now).Rounds(now, draws, tot, i + 1)
          else (db.(nDirty := db.nDirty + 1), Served(id, db.Lease(id)))
    }

    function GetOne(now: int, draws: nat -> Draw): (Db, Outcome) {
      var tot := |unkId| + |ourId|;
      if tot == 0 then (this, Idle) else Rounds(now, draws, tot, 0)
    }

    /** `get_many` once `k` calls have been made, each with its own clock reading and draws. */
    function GetMany(max: nat, now: nat -> int, draws: nat -> nat -> Draw, k: nat): (Db, seq<ServiceResult>)
      decreases max - k
    {
      if k >= max then (this, [])
      else
        var (db, outcome) := GetOne(now(k), draws(k));
        if !outcome.Served? then (db, [])
        else
          var (end, rest) := db.GetMany(max, now, draws, k + 1);
          (end, [outcome.result] + rest)
    }

    lemma GetManyStep(max: nat, now: nat -> int, draws: nat -> nat -> Draw, k: nat)
      requires k < max
      ensures var (db, outcome) := GetOne(now(k), draws(k));
              GetMany(max, now, draws, k)
              == if outcome.Served?
                 then (db.GetMany(max, now, draws, k + 1).0,
                       [outcome.result] + db.GetMany(max, now, draws, k + 1).1)
                 else (db, [])
    {
    }

    /** What a good report writes into the peer's record. */
    function GoodInfo(decay: Decay, info: AddrInfo, res: ServiceResult, now: int): AddrInfo {
      info.(clientVersion := res.clientV, clientSubVersion := res.clientSv, blocks := res.height,
            inSync := res.inSync, services := res.services).Updated(decay, true, now)
    }

    function Good(decay: Decay, res: ServiceResult, now: int): Db {
      var id := Lookup(res.service);
      if id < 0 then this
      else
        var db := this.(unkId := unkId - {id}, banned := banned - {res.service},
                        nDirty := nDirty + 1, ourId := ourId + [id]);
        if id !in idToInfo then db
        else
          var info := GoodInfo(decay, idToInfo[id], res, now);
          db.(idToInfo := idToInfo[id := info],
              goodId := if info.IsGood(walletPort, minVersion) then goodId + {id} else goodId)
    }

    /** How long a bad report bans for: the longer of what the report and the score ask for. */
    function BanLength(info: AddrInfo, res: ServiceResult): int {
      var ter := info.GetBanTime(minVersion);
      if ter > 0 && res.banTime < ter then ter else res.banTime
    }

    function Bad(decay: Decay, res: ServiceResult, now: int): Db {
      var id := Lookup(res.service);
      if id < 0 then this
      else if id !in idToInfo then this.(unkId := unkId - {id}, nDirty := nDirty + 1)
      else
        var info := idToInfo[id].Updated(decay, false, now);
        var ban := BanLength(info, res);
        var db := this.(unkId := unkId - {id}, goodId := goodId - {id}, nDirty := nDirty + 1);
        if ban > 0 then
          db.(banned := banned[info.service := ban + now],
              ipToId := ipToId - {info.service},
              idToInfo := idToInfo - {id})
        else
          db.(idToInfo := idToInfo[id := info], ourId := ourId + [id])
    }

    function Reported(decay: Decay, res: ServiceResult, now: int): Db {
      if res.good then Good(decay, res, now) else Bad(decay, res, now)
    }

    /** `result_many` from its `k`-th result on. */
    function ResultMany(decay: Decay, results: seq<ServiceResult>, now: nat -> int, k: nat): Db
      decreases |results| - k
    {
      if k >= |results| then this
      else Reported(decay, results[k], now(k)).ResultMany(decay, results, now, k + 1)
    }

    function Stats(now: int): AddrDbStats {
      AddrDbStats(|banned|, |idToInfo|, |ourId|, |unkId|, |goodId|,
                  if ourId != [] && ourId[0] in idToInfo then now - idToInfo[ourId[0]].ourLastTry else 0)
    }

    /** One peer's address, if it is tracked and offers every requested service. */
    function Offered(id: int, flags: u64): set<NetAddr> {
      if id in idToInfo && HasFlags(idToInfo[id].services, flags) then {idToInfo[id].service.addr} else {}
    }

    /** What may be published without a good peer: what the head of the queue offers, or some new
        peer when nothing is queued. */
    ghost predicate FallsBackTo(ips: set<NetAddr>, flags: u64) {
      if ourId != [] then ips == Offered(ourId[0], flags)
      else if unkId != {} then exists id :: id in unkId && ips == Offered(id, flags)
      else ips == {}
    }

    /** Every ignore mark cleared. */
    function IgnoresReset(): Db {
      this.(idToInfo := map id | id in idToInfo :: idToInfo[id].(ignoreTill := 0))
    }

    /** Ids of good peers offering every requested service. */
    function Filtered(flags: u64): set<int> {
      set id | id in goodId && id in idToInfo && HasFlags(idToInfo[id].services, flags)
    }
  }

  /** How many ids `get_ips` samples from a good set. */
  function SampleSize(max: nat, filtered: nat): nat {
    Min(Max(max, 1), filtered / 2)
  }

  /** The members of `filtered` that the first `n` draws show. */
  function Drawn(filtered: set<int>, draw: nat -> Picker, n: nat): set<int> {
    if n == 0 then {} else Drawn(filtered, draw, n - 1) + {draw(n - 1)(filtered)}
  }

  lemma NothingDrawn(filtered: set<int>, draw: nat -> Picker)
    ensures Drawn(filtered, draw, 0) == {}
  {
  }

  lemma DrawnOnce(filtered: set<int>, draw: nat -> Picker, n: nat)
    ensures Drawn(filtered, draw, n + 1) == Drawn(filtered, draw, n) + {draw(n)(filtered)}
  {
  }

  /** Iteration over `s` ending on `id`, over other sets anywhere. */
  ghost function EndingOn(s: set<int>, id: int): (p: Picker)
    requires id in s
    ensures p(s) == id
  {
    var f := (t: set<int>) => if t == s then id else SomeMember(t);
    f
  }

  /** Some draws show all there is, so that no sample size up to that is out of their reach. */
  lemma SomeDrawsShowAll(filtered: set<int>) returns (draw: nat -> Picker)
    ensures Drawn(filtered, draw, |filtered|) == filtered
  {
    hide *;
    var order := Listed(filtered);
    draw := InOrder(filtered, order);
    DrawnInOrder(filtered, order, |order|);
    assert order[..|order|] == order;
    var shown := Drawn(filtered, draw, |filtered|);
    assert forall x :: x in shown <==> x in filtered;
    assert shown == filtered;
  }

  ghost function InOrder(s: set<int>, order: seq<int>): (draw: nat -> Picker)
    requires forall i :: 0 <= i < |order| ==> order[i] in s
    ensures forall i: nat :: i < |order| ==> draw(i)(s) == order[i]
  {
    var other: Picker := SomeMember;
    (i: nat) => if i < |order| then EndingOn(s, order[i]) else other
  }

  ghost function Listed(s: set<int>): (order: seq<int>)
    ensures |order| == |s| && forall x :: x in order <==> x in s
    decreases |s|
  {
    if |s| == 0 then []
    else
      var x := Collections.AnyOf(s);
      [x] + Listed(s - {x})
  }

  lemma {:induction false} DrawnInOrder(filtered: set<int>, order: seq<int>, n: nat)
    requires n <= |order| && forall i :: 0 <= i < |order| ==> order[i] in filtered
    ensures forall x :: x in Drawn(filtered, InOrder(filtered, order), n) <==> x in order[..n]
  {
    hide *;
    var draw := InOrder(filtered, order);
    if n == 0 {
      NothingDrawn(filtered, draw);
    } else {
      DrawnInOrder(filtered, order, n - 1);
      DrawnOnce(filtered, draw, n - 1);
      assert order[..n] == order[..n - 1] + [order[n - 1]];
    }
  }

  lemma OneMoreMember(s: set<int>, x: int)
    ensures |s + {x}| <= |s| + 1
  {
    if x in s {
      assert s + {x} == s;
    }
  }

  /** Routable, and on a network the caller asked for. */
  predicate NetWanted(a: NetAddr, nets: seq<bool>) {
    NetIndex(a.Network()) < 4 && NetIndex(a.Network()) < |nets| && nets[NetIndex(a.Network())]
  }

  /** The addresses of the sampled ids on the wanted networks. */
  function Published(infos: map<int, AddrInfo>, ids: set<int>, nets: seq<bool>): set<NetAddr> {
    set id | id in ids && id in infos && NetWanted(infos[id].service.addr, nets) :: infos[id].service.addr
  }

  lemma NothingPublished(infos: map<int, AddrInfo>, nets: seq<bool>)
    ensures Published(infos, {}, nets) == {}
  {
  }

  lemma PublishedStep(infos: map<int, AddrInfo>, done: set<int>, id: int, nets: seq<bool>)
    ensures Published(infos, done + {id}, nets)
            == Published(infos, done, nets)
               + if id in infos && NetWanted(infos[id].service.addr, nets) then {infos[id].service.addr} else {}
  {
    hide NetWanted;
  }

  /** `services & flags == flags`, bit by bit. */
  predicate HasFlags(services: nat, flags: nat) {
    flags == 0 || ((flags % 2 == 1 ==> services % 2 == 1) && HasFlags(services / 2, flags / 2))
  }

  function NewDb(walletPort: u16, minVersion: int): Db {
    Db(0, map[], map[], [], {}, {}, map[], 0, walletPort, minVersion)
  }

  function NetIndex(n: Network): nat {
    match n
    case Ipv4 => 0
    case Ipv6 => 1
    case Tor => 2
    case I2p => 3
    case Unroutable => 4
  }

  function Min(a: nat, b: nat): nat { if a <= b then a else b }

  function Max(a: nat, b: nat): nat { if a >= b then a else b }

  datatype AddrDbStats = AddrDbStats(nBanned: nat, nAvail: nat, nTracked: nat, nNew: nat, nGood: nat, nAge: int)

  class AddrDb {
    var nId: int
    var idToInfo: map<int, AddrInfo>
    var ipToId: map<Service, int>
    var ourId: seq<int>
    var unkId: set<int>
    var goodId: set<int>
    var banned: map<Service, int>
    var nDirty: int
    const walletPort: u16
    const minVersion: int
    const decay: Decay

    ghost function View(): Db
      reads this
    {
      Db(nId, idToInfo, ipToId, ourId, unkId, goodId, banned, nDirty, walletPort, minVersion)
    }

    constructor (walletPort: u16, minVersion: int, decay: Decay)
      ensures View() == NewDb(walletPort, minVersion) && this.decay == decay
    {
      this.walletPort, this.minVersion, this.decay := walletPort, minVersion, decay;
      nId, idToInfo, ipToId, ourId, unkId, goodId := 0, map[], map[], [], {}, {};
      banned, nDirty := map[], 0;
    }

    /** Everything but the two configured values comes from the snapshot. */
    method RestoreFrom(saved: AddrDb)
      modifies this
      ensures View() == old(saved.View()).(walletPort := walletPort, minVersion := minVersion)
    {
      nId := saved.nId;
      idToInfo := saved.idToInfo;
      ipToId := saved.ipToId;
      ourId := saved.ourId;
      unkId := saved.unkId;
      goodId := saved.goodId;
      banned := saved.banned;
      nDirty := saved.nDirty;
    }

    method Insert(info: AddrInfo)
      modifies this
      ensures View() == old(View()).Inserted(info)
    {
      var id := nId;
      nId := nId + 1;
      idToInfo := idToInfo[id := info];
      ipToId := ipToId[info.service := id];
      unkId := unkId + {id};
      nDirty := nDirty + 1;
    }

    method AddRaw(service: Service, services: u64, time: u32, force: bool, now: int)
      modifies this
      ensures View() == old(View()).AddRaw(service, services, time, force, now)
    {
      if !force && !service.IsRoutable() {
        return;
      }
      if service in banned {
        var bantime := banned[service];
        if force || (bantime < now && time > bantime) {
          banned := banned - {service};
        } else {
          return;
        }
      }
      if service in ipToId {
        var id := ipToId[service];
        if id in idToInfo {
          var info := idToInfo[id];
          if time > info.lastTry % 0x1_0000_0000 {
            info := info.(lastTry := time);
          }
          if force {
            info := info.(ignoreTill := 0);
          }
          idToInfo := idToInfo[id := info];
        }
        return;
      }
      var info := NewInfo(service);
      info := info.(services := services);
      info := info.(lastTry := time);
      Insert(info);
    }

    method AddService(service: Service, force: bool)
      modifies this
      ensures View() == old(View()).AddService(service, force)
    {
      if !force && !service.IsRoutable() {
        return;
      }
      if service in ipToId {
        return;
      }
      Insert(NewInfo(service));
    }

    /** The draw at the top of `get_one`'s loop. */
    method Take(now: int, tot: nat, draw: Draw) returns (turn: Option<int>)
      requires tot > 0
      modifies this
      ensures match old(View()).Take(now, tot, draw)
              case Got(db, id) => View() == db && turn == Some(id)
              case Stop(_) => View() == old(View()) && turn == None
    {
      var rnd := draw.rnd % tot;
      if rnd < |unkId| {
        var it := draw.last(unkId);
        unkId := unkId - {it};
        return Some(it);
      }
      if ourId == [] {
        return None;
      }
      var ret := ourId[0];
      if ret !in idToInfo {
        return None;
      }
      if now - idToInfo[ret].ourLastTry < MIN_RETRY {
        return None;
      }
      ourId := ourId[1..];
      return Some(ret);
    }

    method GetOne(now: int, draws: nat -> Draw) returns (r: Option<ServiceResult>)
      modifies this
      ensures View() == old(View()).GetOne(now, draws).0
      ensures r == old(View()).GetOne(now, draws).1.Result()
    {
      var tot := |unkId| + |ourId|;
      if tot == 0 {
        return None;
      }
      for i := 0 to tot
        invariant old(View()).GetOne(now, draws) == View().Rounds(now, draws, tot, i)
      {
        var turn := Take(now, tot, draws(i));
        if turn.None? {
          return None;
        }
        var ret := turn.value;
        if ret !in idToInfo {
          return None;
        }
        var info := idToInfo[ret];
        if info.ignoreTill > 0 && info.ignoreTill < now {
          ourId := ourId + [ret];
          idToInfo := idToInfo[ret := info.(ourLastTry := now)];
          continue;
        }
        nDirty := nDirty + 1;
        return Some(ServiceResult(info.service, info.services, false, 0, 0, 0, [], info.ourLastSuccess, false));
      }
      return None;
    }

    method GetMany(max: nat, now: nat -> int, draws: nat -> nat -> Draw) returns (results: seq<ServiceResult>)
      modifies this
      ensures View() == old(View()).GetMany(max, now, draws, 0).0
      ensures results == old(View()).GetMany(max, now, draws, 0).1
    {
      hide Db.GetOne;
      results := [];
      ghost var start := View();
      ghost var db := start;
      ghost var todo := start.GetMany(max, now, draws, 0).1;
      for k := 0 to max
        invariant db == View() && todo == db.GetMany(max, now, draws, k).1
        invariant start.GetMany(max, now, draws, 0).0 == db.GetMany(max, now, draws, k).0
        invariant start.GetMany(max, now, draws, 0).1 == results + todo
      {
        var res := GetOne(now(k), draws(k));
        db.GetManyStep(max, now, draws, k);
        db := db.GetOne(now(k), draws(k)).0;
        if res.None? {
          assert todo == [] && results == results + todo;
          return;
        }
        todo := db.GetMany(max, now, draws, k + 1).1;
        assert results + ([res.value] + todo) == (results + [res.value]) + todo;
        results := results + [res.value];
      }
    }

    method ResultMany(results: seq<ServiceResult>, now: nat -> int)
      modifies this
      ensures View() == old(View()).ResultMany(decay, results, now, 0)
    {
      for k := 0 to |results|
        invariant old(View()).ResultMany(decay, results, now, 0) == View().ResultMany(decay, results, now, k)
      {
        if results[k].good {
          Good(results[k], now(k));
        } else {
          Bad(results[k], now(k));
        }
      }
    }

    method Good(res: ServiceResult, now: int)
      modifies this
      ensures View() == old(View()).Good(decay, res, now)
    {
      hide AddrInfo.IsGood, AddrInfo.Updated;
      var id := if res.service in ipToId then ipToId[res.service] else -1;
      if id < 0 {
        return;
      }
      unkId := unkId - {id};
      banned := banned - {res.service};
      if id in idToInfo {
        var info := idToInfo[id];
        info := info.(clientVersion := res.clientV);
        info := info.(clientSubVersion := res.clientSv);
        info := info.(blocks := res.height);
        info := info.(inSync := res.inSync);
        info := info.(services := res.services);
        info := UpdateInfo(decay, info, true, now);
        assert info == old(View()).GoodInfo(decay, old(idToInfo)[id], res, now);
        idToInfo := idToInfo[id := info];
        if info.IsGood(walletPort, minVersion) && id !in goodId {
          goodId := goodId + {id};
        }
      }
      nDirty := nDirty + 1;
      ourId := ourId + [id];
    }

    method Bad(res: ServiceResult, now: int)
      modifies this
      ensures View() == old(View()).Bad(decay, res, now)
    {
      hide AddrInfo.Updated, AddrInfo.GetBanTime;
      var id := if res.service in ipToId then ipToId[res.service] else -1;
      if id < 0 {
        return;
      }
      unkId := unkId - {id};
      if id in idToInfo {
        var info := UpdateInfo(decay, idToInfo[id], false, now);
        idToInfo := idToInfo[id := info];
        var ban := res.banTime;
        var ter := info.GetBanTime(minVersion);
        if ter > 0 && ban < ter {
          ban := ter;
        }
        if ban > 0 {
          banned := banned[info.service := ban + now];
          ipToId := ipToId - {info.service};
          goodId := goodId - {id};
          idToInfo := idToInfo - {id};
          assert idToInfo == old(idToInfo) - {id};
        } else {
          if id in goodId {
            goodId := goodId - {id};
          }
          ourId := ourId + [id];
        }
      }
      nDirty := nDirty + 1;
    }

    method GetStats(now: int) returns (stats: AddrDbStats)
      ensures stats == View().Stats(now)
    {
      var age := 0;
      if ourId != [] && ourId[0] in idToInfo {
        age := now - idToInfo[ourId[0]].ourLastTry;
      }
      stats := AddrDbStats(|banned|, |idToInfo|, |ourId|, |unkId|, |goodId|, age);
    }

    /** Without a good peer: the head of the queue, or any new id, if its services match. */
    method FallbackIps(flags: u64, first: Picker) returns (ips: set<NetAddr>)
      ensures View().FallsBackTo(ips, flags)
    {
      ips := {};
      var id: int;
      if ourId != [] {
        id := ourId[0];
      } else if |unkId| > 0 {
        id := first(unkId);
      } else {
        return;
      }
      if id in idToInfo {
        if HasFlags(idToInfo[id].services, flags) {
          ips := {idToInfo[id].service.addr};
        }
      }
    }

    /** `count` different ids, drawn from all until enough have shown up. Whether they do is up to
        the draws; the first `enough` of them must show that many. */
    method Sample(filtered: set<int>, count: nat, draw: nat -> Picker, ghost enough: nat)
      returns (chosen: set<int>, ghost drawn: nat)
      requires |filtered| > 0 && count <= |Drawn(filtered, draw, enough)|
      ensures chosen <= filtered && |chosen| == count
      ensures drawn <= enough && chosen == Drawn(filtered, draw, drawn)
      ensures forall n: nat :: n < drawn ==> |Drawn(filtered, draw, n)| < count
    {
      hide Drawn;
      NothingDrawn(filtered, draw);
      chosen, drawn := {}, 0;
      var i := 0;
      while |chosen| < count
        invariant 0 <= i <= enough && drawn == i
        invariant chosen <= filtered && |chosen| <= count && chosen == Drawn(filtered, draw, i)
        invariant forall n: nat :: n < i ==> |Drawn(filtered, draw, n)| < count
        decreases enough - i
      {
        DrawnOnce(filtered, draw, i);
        var id := draw(i)(filtered);
        assert id in filtered;
        OneMoreMember(chosen, id);
        chosen := chosen + {id};
        i, drawn := i + 1, drawn + 1;
      }
    }

    method Collect(ids: set<int>, nets: seq<bool>, first: Picker) returns (ips: set<NetAddr>)
      ensures ips == Published(idToInfo, ids, nets)
    {
      hide NetWanted, Published;
      ips := {};
      assert ids - ids == {};
      NothingPublished(idToInfo, nets);
      var todo := ids;
      while |todo| > 0
        invariant todo <= ids
        invariant ips == Published(idToInfo, ids - todo, nets)
        decreases |todo|
      {
        var id := first(todo);
        ghost var done := ids - todo;
        todo := todo - {id};
        assert ids - todo == done + {id};
        PublishedStep(idToInfo, done, id, nets);
        if id in idToInfo {
          var a := idToInfo[id].service.addr;
          if NetWanted(a, nets) {
            ips := ips + {a};
          }
        }
      }
      assert todo == {};
      assert ids - todo == ids;
    }

    /** The addresses to publish. `first` is where iteration over a hash set starts and `draw`
        the sampling. */
    method GetIps(flags: u64, max: nat, nets: seq<bool>, first: Picker, draw: nat -> Picker, ghost enough: nat)
      returns (ips: set<NetAddr>, ghost ids: set<int>)
      requires var filtered := View().Filtered(flags);
               SampleSize(max, |filtered|) <= |Drawn(filtered, draw, enough)|
      ensures goodId == {} ==> View().FallsBackTo(ips, flags)
      ensures goodId != {} ==>
                && ids <= View().Filtered(flags)
                && (var half, cap := |View().Filtered(flags)| / 2, if max == 0 then 1 else max;
                    |ids| == if cap < half then cap else half)
                && ips == Published(idToInfo, ids, nets)
    {
      ips, ids := {}, {};
      if goodId == {} {
        ips := FallbackIps(flags, first);
        return;
      }
      var filtered := set id | id in goodId && id in idToInfo && HasFlags(idToInfo[id].services, flags);
      assert filtered == View().Filtered(flags);
      if |filtered| == 0 {
        return;
      }
      var chosen, _ := Sample(filtered, Min(Max(max, 1), |filtered| / 2), draw, enough);
      ids := chosen;
      ips := Collect(chosen, nets, first);
    }

    method ResetIgnores()
      modifies this
      ensures View() == old(View()).IgnoresReset()
    {
      idToInfo := map id | id in idToInfo :: idToInfo[id].(ignoreTill := 0);
    }
  }
}
