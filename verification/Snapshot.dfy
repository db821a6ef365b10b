/** What the DNS cache gets to see of the good set. */
module Snapshot {
  import opened Bytes
  import opened Net
  import opened Score
  import opened CrawlerDb
  import opened DbInvariants
  import opened LeaseProtocol
  import opened LeaseSafety
  import Collections
  import DnsRecords

  /** The networks a DNS snapshot asks for. */
  const DNS_NETS: seq<bool> := [true, true, false, false]

  lemma NoFlagsAsked(services: nat)
    ensures HasFlags(services, 0)
  {
  }

  /** An address the DNS callback can turn into an A or an AAAA record. */
  predicate Convertible(a: NetAddr) { DnsRecords.AsAddr(a).Some? }

  /** The sampled peers that have an A or AAAA record. */
  ghost function Shown(infos: map<int, AddrInfo>, ids: set<int>): set<int> {
    set id | id in ids && id in infos && Convertible(infos[id].service.addr)
  }

  lemma DistinctAddresses(db: Db, a: int, b: int)
    requires WellFormed(db) && GoodSetServable(db) && a in db.goodId && b in db.goodId
    ensures db.idToInfo[a].service.addr == db.idToInfo[b].service.addr ==> a == b
  {
    hide NetAddr.IsRoutable;
    if db.idToInfo[a].service.addr == db.idToInfo[b].service.addr {
      assert db.idToInfo[a].service == db.idToInfo[b].service;
    }
  }

  lemma WantedNetworks(a: NetAddr)
    requires a.IsRoutable()
    ensures NetWanted(a, DNS_NETS) <==> Convertible(a)
  {
    NetworkDecidesTheRecord(a);
    hide NetAddr.IsRoutable;
    assert a.Network() != Unroutable;
  }

  lemma {:induction false} PublishedSize(db: Db, ids: set<int>)
    requires WellFormed(db) && GoodSetServable(db) && ids <= db.goodId
    ensures |Published(db.idToInfo, ids, DNS_NETS)|
            == |Shown(db.idToInfo, ids)|
    decreases |ids|
  {
    hide NetAddr.IsRoutable, NetAddr.Network, Convertible, NetWanted, Inverse, NoDuplicates;
    if |ids| == 0 {
      assert ids == {};
      assert Published(db.idToInfo, ids, DNS_NETS) == {};
      assert Shown(db.idToInfo, ids) == {};
    } else {
      Collections.HasMember(ids);
      var x := Collections.AnyOf(ids);
      var rest := ids - {x};
      var a := db.idToInfo[x].service.addr;
      PublishedSize(db, rest);
      PublishedOneMore(db, ids, x);
      var kept := Shown(db.idToInfo, rest);
      var all := Shown(db.idToInfo, ids);
      if Convertible(a) {
        assert all == kept + {x};
      } else {
        assert all == kept;
      }
    }
  }

  lemma PublishedOneMore(db: Db, ids: set<int>, x: int)
    requires WellFormed(db) && GoodSetServable(db) && ids <= db.goodId && x in ids
    ensures var a := db.idToInfo[x].service.addr;
            var before := Published(db.idToInfo, ids - {x}, DNS_NETS);
            && a !in before
            && Published(db.idToInfo, ids, DNS_NETS) == before + if Convertible(a) then {a} else {}
  {
    hide NetAddr.IsRoutable, NetAddr.Network, NetWanted, Convertible;
    var a := db.idToInfo[x].service.addr;
    WantedNetworks(a);
    forall y | y in ids - {x}
      ensures db.idToInfo[y].service.addr != a
    {
      DistinctAddresses(db, x, y);
    }
  }

  lemma SnapshotOf(db: Db, ids: set<int>)
    requires WellFormed(db) && GoodSetServable(db) && ids <= db.Filtered(0)
    ensures db.Filtered(0) == db.goodId && ids <= db.idToInfo.Keys
    ensures forall a :: a in Published(db.idToInfo, ids, DNS_NETS) ==> DnsRecords.AsAddr(a).Some?
    ensures |Published(db.idToInfo, ids, DNS_NETS)|
            == |Shown(db.idToInfo, ids)|
  {
    hide NetAddr.IsRoutable, Inverse, NoDuplicates, NetWanted, NetAddr.IsIpv4, NetAddr.IsTor, NetAddr.IsI2p;
    forall id | id in db.goodId
      ensures HasFlags(db.idToInfo[id].services, 0)
    {
      NoFlagsAsked(db.idToInfo[id].services);
    }
    assert db.Filtered(0) == db.goodId;
    PublishedSize(db, ids);
    forall a | a in Published(db.idToInfo, ids, DNS_NETS)
      ensures DnsRecords.AsAddr(a).Some?
    {
      var id :| id in ids && db.idToInfo[id].service.addr == a && NetWanted(a, DNS_NETS);
      WantedNetworks(a);
    }
  }

  /** Snapshot exactness. After any run with a good set to draw from, a DNS snapshot built
      from any sample `ids` holds one address for each sampled A or AAAA peer, no two of them
      merged, and every address in it is answered by the callback. */
  lemma SnapshotIsExact(decay: Decay, w: World, steps: seq<Step>, ids: set<int>)
    requires IsDecay(decay) && Inv(decay, w) && Legal(decay, w, steps)
    requires ids <= Run(decay, w, steps).db.Filtered(0)
    ensures var db := Run(decay, w, steps).db;
            var shown := Published(db.idToInfo, ids, DNS_NETS);
            && db.Filtered(0) == db.goodId && ids <= db.idToInfo.Keys
            && (forall a :: a in shown ==> DnsRecords.AsAddr(a).Some?)
            && |shown| == |Shown(db.idToInfo, ids)|
  {
    hide IsDecay, Published, Shown, Convertible, Db.Filtered, WellFormed, GoodSetServable, Legal, Run,
         HeldExactly, LogDated, LogBehindQueue, HandOutsSpaced, GoodSetVouched, Timed, Scored;
    RunKeepsInv(decay, w, steps);
    SnapshotOf(Run(decay, w, steps).db, ids);
  }

  // ---------------------------------------------------------------- without a good peer

  /** Which addresses the callback answers, and which of those the snapshot's network filter
      would have let through. */
  lemma AnsweredUnfiltered(a: NetAddr)
    ensures Convertible(a) <==> !a.IsTor() && !a.IsI2p()
    ensures NetWanted(a, DNS_NETS) <==> Convertible(a) && a.IsRoutable()
  {
    if a.IsIpv4() {
      assert a.ip[0] == a.ip[..12][0];
      assert !a.IsTor() by { assert a.ip[..6][0] == a.ip[0]; }
      assert !a.IsI2p() by { assert a.ip[..6][0] == a.ip[0]; }
    }
    if a.IsRoutable() {
      WantedNetworks(a);
    } else {
      assert a.Network() == Unroutable;
    }
    hide NetAddr.IsRoutable, NetAddr.IsIpv4, NetAddr.IsTor, NetAddr.IsI2p;
  }

  /** After any run that leaves the good set empty a snapshot holds the address of one tracked
      peer that is queued first, or new if none is queued, and nothing only when every peer is
      leased. The network filter does not apply to it: it is answered exactly when it is
      neither a Tor nor an I2P address, routable or not. */
  lemma SnapshotWithoutGoodPeers(decay: Decay, w: World, steps: seq<Step>, ips: set<NetAddr>)
    requires IsDecay(decay) && Inv(decay, w) && Legal(decay, w, steps)
    requires var db := Run(decay, w, steps).db; db.goodId == {} && db.FallsBackTo(ips, 0)
    ensures var db := Run(decay, w, steps).db;
            && (ips == {} <==> db.idToInfo.Keys == Leased(db))
            && (ips != {} ==>
                  exists id :: id in db.idToInfo && (if db.ourId != [] then id == db.ourId[0] else id in db.unkId)
                               && ips == {db.idToInfo[id].service.addr})
            && (forall a :: a in ips ==> (DnsRecords.AsAddr(a).Some? <==> !a.IsTor() && !a.IsI2p()))
  {
    RunKeepsInv(decay, w, steps);
    var v := Run(decay, w, steps);
    InvParts(decay, v);
    FallbackIsOnePeer(v.db, ips);
    forall a | a in ips
      ensures DnsRecords.AsAddr(a).Some? <==> !a.IsTor() && !a.IsI2p()
    {
      AnsweredUnfiltered(a);
    }
    hide *;
  }

  lemma FallbackIsOnePeer(db: Db, ips: set<NetAddr>)
    requires WellFormed(db) && db.FallsBackTo(ips, 0)
    ensures ips == {} <==> db.idToInfo.Keys == Leased(db)
    ensures ips != {} ==>
              exists id :: id in db.idToInfo && (if db.ourId != [] then id == db.ourId[0] else id in db.unkId)
                           && ips == {db.idToInfo[id].service.addr}
  {
    hide Inverse, NoDuplicates, HasFlags;
    forall id | id in db.idToInfo
      ensures db.Offered(id, 0) == {db.idToInfo[id].service.addr}
    {
      NoFlagsAsked(db.idToInfo[id].services);
    }
    if db.ourId != [] {
      assert db.ourId[0] in db.ourId && db.ourId[0] in db.idToInfo;
      assert db.ourId[0] !in Leased(db);
    } else if db.unkId != {} {
      var id :| id in db.unkId && ips == db.Offered(id, 0);
      assert id in db.idToInfo && id !in Leased(db);
    } else {
      assert Leased(db) == db.idToInfo.Keys;
    }
  }

  /** A good set of one publishes nothing: half of one, rounded down. */
  lemma LoneGoodPeerIsNotPublished(max: nat)
    ensures SampleSize(max, 1) == 0
    ensures forall n: nat :: 2 <= n ==> 1 <= SampleSize(max, n) <= n / 2
  {
  }

  // ---------------------------------------------------------------- what is asked for

  /** Bit `k` of a number. */
  predicate Bit(n: nat, k: nat) {
    if k == 0 then n % 2 == 1 else Bit(n / 2, k - 1)
  }

  /** Every service bit that is asked for is offered. */
  ghost predicate OffersAll(services: nat, flags: nat) {
    forall k: nat :: Bit(flags, k) ==> Bit(services, k)
  }

  lemma {:induction false} FlagsBitByBit(services: nat, flags: nat)
    ensures HasFlags(services, flags) <==> OffersAll(services, flags)
    decreases flags
  {
    if flags == 0 {
      forall k: nat
        ensures !Bit(0, k)
      {
        NoBits(k);
      }
    } else {
      FlagsBitByBit(services / 2, flags / 2);
      if OffersAll(services, flags) {
        assert Bit(flags, 0) ==> Bit(services, 0);
        forall k: nat | Bit(flags / 2, k)
          ensures Bit(services / 2, k)
        {
          assert Bit(flags, k + 1);
          assert Bit(services, k + 1);
        }
      }
      if HasFlags(services, flags) {
        forall k: nat | Bit(flags, k)
          ensures Bit(services, k)
        {
          if k > 0 {
            assert Bit(flags / 2, k - 1);
          }
        }
      }
    }
  }

  lemma {:induction false} NoBits(k: nat)
    ensures !Bit(0, k)
  {
    if k > 0 {
      NoBits(k - 1);
    }
  }

  /** Exactly which good peers are sampled from, and what a peer published for want of good ones
      must offer: every service bit asked for. */
  lemma AskedForExactly(db: Db, flags: u64, id: int)
    ensures id in db.Filtered(flags)
            <==> id in db.goodId && id in db.idToInfo && OffersAll(db.idToInfo[id].services, flags)
    ensures db.Offered(id, flags)
            == if id in db.idToInfo && OffersAll(db.idToInfo[id].services, flags) then {db.idToInfo[id].service.addr}
               else {}
  {
    if id in db.idToInfo {
      FlagsBitByBit(db.idToInfo[id].services, flags);
    }
    hide HasFlags, OffersAll;
  }

  /** Exactly which sampled addresses are published: the routable ones whose network is asked for,
      by four flags in the order IPv4, IPv6, Tor, I2P. */
  lemma PublishedExactly(infos: map<int, AddrInfo>, ids: set<int>, nets: seq<bool>, a: NetAddr)
    ensures var k := if a.ip[..12] == [0, 0, 0, 0, 0, 0, 0, 0, 0, 0, 255, 255] then 0
                     else if a.ip[..6] == [253, 135, 216, 126, 235, 67] then 2
                     else if a.ip[..6] == [253, 96, 219, 77, 221, 181] then 3
                     else 1;
            a in Published(infos, ids, nets)
            <==> && (exists id :: id in ids && id in infos && infos[id].service.addr == a)
                 && a.IsRoutable() && k < |nets| && nets[k]
  {
    if a.ip[..12] != [0, 0, 0, 0, 0, 0, 0, 0, 0, 0, 255, 255] {
      RoutableOther(a);
    } else {
      var ip := a.ip;
      assert ip == ip[..12] + ip[12..];
      RoutableIpv4(ip[12], ip[13], ip[14], ip[15]);
      assert ip == Ipv4Octets(ip[12], ip[13], ip[14], ip[15]);
    }
    hide NetAddr.IsRoutable, NetAddr.Network;
  }
}
