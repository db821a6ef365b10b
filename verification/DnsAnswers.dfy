/** What the DNS server answers to whom, in plain values. */
module DnsAnswers {
  import opened Bytes
  import opened Net
  import opened DnsName
  import opened DnsRecords
  import opened DnsServer
  import opened DnsReply

  // ---------------------------------------------------------------- addresses

  /** The addresses of the families picked, in order. */
  function Picked(addrs: seq<Addr>, four: bool, six: bool): seq<Addr> {
    if addrs == [] then []
    else
      (if (four && addrs[0].v == 4) || (six && addrs[0].v == 6) then [addrs[0]] else [])
      + Picked(addrs[1..], four, six)
  }

  /** Exactly which addresses a query is eligible for: class 1 or 255, and IPv4 for type 1, IPv6
      for type 28, both for type 255. */
  lemma {:induction false} EligibleExactly(q: Query, addrs: seq<Addr>)
    ensures var plain := q.cls == 1 || q.cls == 255;
            Eligibles(q, addrs) == Picked(addrs, plain && (q.typ == 1 || q.typ == 255), plain && (q.typ == 28 || q.typ == 255))
    ensures q.cls !in {1, 255} || q.typ !in {1, 28, 255} ==> Eligibles(q, addrs) == []
  {
    if addrs != [] {
      EligibleExactly(q, addrs[1..]);
      var rest := Eligibles(q, addrs[1..]);
      assert [] + rest == rest;
    }
  }

  /** The record an address makes. */
  lemma RecordExactly(opt: DnsOpt, q: Query, a: Addr)
    ensures a.v == 4 ==> AddrRr(opt, q, a) == Rr(1, q.cls, opt.dataTtl, a.data[..4])
    ensures a.v == 6 ==> AddrRr(opt, q, a) == Rr(28, q.cls, opt.dataTtl, a.data)
  {
  }

  /** An address in IPv4 form. */
  predicate Mapped(a: NetAddr) { a.ip[..12] == [0, 0, 0, 0, 0, 0, 0, 0, 0, 0, 255, 255] }

  /** An address in neither IPv4 form nor one of the forms of Tor and I2P. */
  predicate Plain6(a: NetAddr) {
    !Mapped(a) && a.ip[..6] != [253, 135, 216, 126, 235, 67] && a.ip[..6] != [253, 96, 219, 77, 221, 181]
  }

  lemma AsAddrExactly(a: NetAddr)
    ensures AsAddr(a).Some? <==> Mapped(a) || Plain6(a)
    ensures Mapped(a) ==> AsAddr(a).value.v == 4 && AsAddr(a).value.data[..4] == a.ip[12..]
    ensures Plain6(a) ==> AsAddr(a).value == Addr(6, a.ip)
  {
  }

  /** The cached peer that comes first among those of one family comes first among the picked. */
  lemma {:induction false} FirstPicked(cache: seq<NetAddr>, i: nat, four: bool)
    requires i < |cache| && (if four then Mapped(cache[i]) else Plain6(cache[i]))
    requires forall j :: 0 <= j < i ==> if four then !Mapped(cache[j]) else !Plain6(cache[j])
    ensures var picked := Picked(FromCache(cache), four, !four);
            picked != [] && Some(picked[0]) == AsAddr(cache[i])
  {
    hide Mapped, Plain6, AsAddr;
    AsAddrExactly(cache[0]);
    var rest := FromCache(cache[1..]);
    if i > 0 {
      FirstPicked(cache[1..], i - 1, four);
      NotBoth(cache[0]);
      if AsAddr(cache[0]).Some? {
        assert ([AsAddr(cache[0]).value] + rest)[1..] == rest;
        FamilyIs(cache[0]);
      }
    } else {
      FamilyIs(cache[0]);
    }
  }

  lemma NotBoth(a: NetAddr)
    ensures !(Mapped(a) && Plain6(a))
  {
  }

  lemma FamilyIs(a: NetAddr)
    ensures Mapped(a) ==> AsAddr(a).Some? && AsAddr(a).value.v == 4
    ensures Plain6(a) ==> AsAddr(a).Some? && AsAddr(a).value.v == 6
    ensures !Mapped(a) && !Plain6(a) ==> AsAddr(a).None?
  {
    AsAddrExactly(a);
  }

  /** A query of type 1 or 28 for the host is answered with the first cached IPv4 or IPv6 peer, as
      the first record, whenever a record of 12 octets and the address ends before octet 512. */
  lemma FirstCachedPeerIsAnswered(dgram: seq<byte>, opt: DnsOpt, cache: seq<NetAddr>, clock: u32, laterClock: u32,
                                  depth: nat, i: nat)
    requires HEADER <= |dgram| <= OUT_END && Judge(dgram, opt, depth).Accepted?
    requires var q := Judge(dgram, opt, depth).q;
             && (q.typ == 1 || q.typ == 28) && (q.cls == 1 || q.cls == 255)
             && q.end + 12 + (if q.typ == 1 then 4 else 16) < 512
             && i < |cache| && (if q.typ == 1 then Mapped(cache[i]) else Plain6(cache[i]))
             && forall j :: 0 <= j < i ==> if q.typ == 1 then !Mapped(cache[j]) else !Plain6(cache[j])
    ensures var q := Judge(dgram, opt, depth).q;
            var o := Reply(dgram, opt, _ => FromCache(cache), clock, laterClock, depth);
            && o.Sent? && |o.bytes| > q.end >= 12
            && Word(o.bytes[6], o.bytes[7]) > 0
            && ReadRr(o.bytes, q.end)
               == Some(if q.typ == 1 then Rr(1, q.cls, opt.dataTtl, cache[i].ip[12..])
                       else Rr(28, q.cls, opt.dataTtl, cache[i].ip))
  {
    hide *;
    var cb: seq<byte> -> seq<Addr> := _ => FromCache(cache);
    var q := Judge(dgram, opt, depth).q;
    ReplyReadsBack(dgram, opt, cb, clock, laterClock, depth);
    AcceptedInside(dgram, opt, depth);
    var answers := Answers(opt, q, clock, FromCache(cache));
    var authority := Authority(opt, q, q.end + ListingSize(answers), answers != [], laterClock);
    FirstAnswer(opt, q, clock, cache, i);
    FirstRead(Reply(dgram, opt, cb, clock, laterClock, depth).bytes, dgram, q, answers, authority);
  }

  lemma FirstAnswer(opt: DnsOpt, q: Query, clock: u32, cache: seq<NetAddr>, i: nat)
    requires (q.typ == 1 || q.typ == 28) && (q.cls == 1 || q.cls == 255)
    requires q.end + 12 + (if q.typ == 1 then 4 else 16) < 512
    requires i < |cache| && (if q.typ == 1 then Mapped(cache[i]) else Plain6(cache[i]))
    requires forall j :: 0 <= j < i ==> if q.typ == 1 then !Mapped(cache[j]) else !Plain6(cache[j])
    ensures var answers := Answers(opt, q, clock, FromCache(cache));
            && answers != []
            && answers[0] == if q.typ == 1 then Rr(1, q.cls, opt.dataTtl, cache[i].ip[12..])
                             else Rr(28, q.cls, opt.dataTtl, cache[i].ip)
  {
    hide *;
    OwnNothing(opt, q, clock);
    FirstPicked(cache, i, q.typ == 1);
    EligibleExactly(q, FromCache(cache));
    var first := Eligibles(q, FromCache(cache))[0];
    AsAddrExactly(cache[i]);
    RecordExactly(opt, q, first);
    ListingOfNone();
    OnlyAddresses(opt, q, clock, FromCache(cache));
    AnsweredIsAPrefix(opt, q, q.end, FromCache(cache));
    CutOnlyForRoom(opt, q, q.end, AddrsIn(opt, q, q.end, FromCache(cache)), Eligibles(q, FromCache(cache)));
  }

  lemma OwnNothing(opt: DnsOpt, q: Query, clock: u32)
    requires q.typ == 1 || q.typ == 28
    ensures OwnAnswers(opt, q, clock) == []
  {
    hide NsIn, SoaIn, ListingSize;
  }

  lemma OnlyAddresses(opt: DnsOpt, q: Query, clock: u32, addrs: seq<Addr>)
    requires (q.typ == 1 || q.typ == 28) && (q.cls == 1 || q.cls == 255) && OwnAnswers(opt, q, clock) == []
    ensures Answers(opt, q, clock, addrs) == AddrsIn(opt, q, q.end, addrs)
  {
    ListingOfNone();
    hide OwnAnswers, AddrsIn, ListingSize, Listing;
    var others := AddrsIn(opt, q, q.end, addrs);
    assert [] + others == others;
  }

  lemma CutOnlyForRoom(opt: DnsOpt, q: Query, pos: nat, rrs: seq<Rr>, eligible: seq<Addr>)
    requires CutPrefix(opt, q, pos, rrs, eligible) && eligible != []
    requires pos + 12 + |AddrRr(opt, q, eligible[0]).data| < 512
    ensures rrs != [] && rrs[0] == AddrRr(opt, q, eligible[0])
  {
    ListingOfNone();
    hide AddrRr, ListingSize, Listing;
  }

  lemma FirstRead(r: seq<byte>, dgram: seq<byte>, q: Query, answers: seq<Rr>, authority: seq<Rr>)
    requires HEADER <= q.end <= |dgram| && LaidOut(r, dgram, q, answers, authority) && answers != []
    ensures |r| > q.end >= 12 && Word(r[6], r[7]) > 0 && ReadRr(r, q.end) == Some(answers[0])
  {
    hide ReadRr, Word, WithAa, WithQr;
    RoomForOne(r, q.end, |answers| + |authority|, answers + authority);
  }

  lemma RoomForOne(data: seq<byte>, pos: nat, n: nat, rrs: seq<Rr>)
    requires ReadRrs(data, pos, n) == Some(rrs) && n > 0
    ensures |rrs| > 0 && ReadRr(data, pos) == Some(rrs[0]) && pos < |data|
  {
  }

  // ---------------------------------------------------------------- the host

  /** Exactly which names are the server's: the host, and whatever ends in a dot and the host. */
  lemma HostsExactly(name: seq<byte>, host: seq<int>)
    ensures HostMatches(name, host) <==> name == host || exists front: seq<int> :: name == front + [46] + host
  {
    if EndsWith(name, [46] + host) {
      var front: seq<int> := name[..|name| - |host| - 1];
      assert name == front + ([46] + host);
      assert front + ([46] + host) == front + [46] + host;
    }
    forall front: seq<int> | name == front + [46] + host
      ensures EndsWith(name, [46] + host)
    {
      assert front + [46] + host == front + ([46] + host);
      assert name[|name| - |host| - 1..] == [46] + host;
    }
  }

  /** A name that merely ends in the host, without the dot, is refused. */
  lemma NoDotNoMatch(front: seq<byte>, host: seq<byte>)
    requires front != [] && front[|front| - 1] != 46
    ensures !HostMatches(front + host, host)
  {
    var name := front + host;
    var ending := name[|name| - |host| - 1..];
    assert ending[0] == front[|front| - 1];
    assert |name| != |host|;
  }

  // ---------------------------------------------------------------- errors

  /** The header of an error reply in plain octets. */
  function Refusal(dgram: seq<byte>, flags: byte, rcode: nat): seq<byte>
    requires |dgram| >= 12 && rcode < 16
  {
    [dgram[0], dgram[1], flags, dgram[3] - dgram[3] % 16 + rcode, 0, 0, 0, 0, 0, 0, 0, 0]
  }

  /** The question read as a name and judged: 1 if it does not parse or is cut short; 5, marked as
      a reply, for a foreign host; and a marked, authoritative reply without an error otherwise. */
  ghost predicate QuestionAnswered(o: Outcome, dgram: seq<byte>, opt: DnsOpt, parsed: Parsed)
    requires |dgram| >= 12 && dgram[2] < 128
  {
    match parsed
    case Malformed => o == Sent(Refusal(dgram, dgram[2], 1))
    case Overflow => o == NoReturn
    case Name(name, pos) =>
      if pos + 4 > |dgram| then o == Sent(Refusal(dgram, dgram[2], 1))
      else if !HostMatches(name, opt.host) then o == Sent(Refusal(dgram, dgram[2] + 128, 5))
      else
        && o.Sent? && |o.bytes| >= 12
        && o.bytes[2] as int == dgram[2] as int + 128 + (if dgram[2] / 4 % 2 == 1 then 0 else 4)
        && o.bytes[3] == dgram[3] - dgram[3] % 16
  }

  /** The header judged first: 1 for a reply or another operation, 0 for no question, 4 for
      several. */
  ghost predicate Answered(o: Outcome, dgram: seq<byte>, opt: DnsOpt, parsed: Parsed)
    requires |dgram| >= 12
  {
    var questions := 256 * (dgram[4] as int) + dgram[5] as int;
    if dgram[2] >= 128 || dgram[2] / 8 != 0 then o == Sent(Refusal(dgram, dgram[2], 1))
    else if questions == 0 then o == Sent(Refusal(dgram, dgram[2], 0))
    else if questions > 1 then o == Sent(Refusal(dgram, dgram[2], 4))
    else QuestionAnswered(o, dgram, opt, parsed)
  }

  /** Exactly which reply, by its code and flags, every datagram gets. */
  lemma RepliesExactly(dgram: seq<byte>, opt: DnsOpt, cb: seq<byte> -> seq<Addr>, clock: u32, laterClock: u32, depth: nat)
    requires |dgram| >= 12
    ensures Answered(Reply(dgram, opt, cb, clock, laterClock, depth), dgram, opt, Parse(dgram, 12, depth))
  {
    hide Parse, HostMatches, Answers, Authority, FullReply, Word, QuestionAnswered;
    HeaderFaults(dgram, opt, depth);
    assert Word(dgram[4], dgram[5]) as int == 256 * (dgram[4] as int) + dgram[5] as int by { WordIs(dgram[4], dgram[5]); }
    ErrorIsRefusal(dgram);
    if dgram[2] < 8 && Word(dgram[4], dgram[5]) == 1 {
      JudgedQuestion(dgram, opt, cb, clock, laterClock, depth);
    }
  }

  lemma WordIs(hi: byte, lo: byte)
    ensures Word(hi, lo) as int == 256 * (hi as int) + lo as int
  {
  }

  lemma ErrorIsRefusal(dgram: seq<byte>)
    requires |dgram| >= 12
    ensures forall flags: byte, rcode: nat :: rcode < 16 ==> ErrorReply(dgram, flags, rcode) == Refusal(dgram, flags, rcode)
  {
    assert dgram[3] / 16 * 16 == dgram[3] - dgram[3] % 16;
  }

  lemma JudgedQuestion(dgram: seq<byte>, opt: DnsOpt, cb: seq<byte> -> seq<Addr>, clock: u32, laterClock: u32, depth: nat)
    requires |dgram| >= 12 && dgram[2] < 8 && Word(dgram[4], dgram[5]) == 1
    ensures QuestionAnswered(Reply(dgram, opt, cb, clock, laterClock, depth), dgram, opt, Parse(dgram, 12, depth))
  {
    hide Parse, HostMatches, Answers, Authority, FullReply, Word, ErrorReply, Refusal;
    ErrorIsRefusal(dgram);
    match Parse(dgram, 12, depth)
    case Malformed =>
    case Overflow =>
    case Name(name, pos) =>
      if pos + 4 <= |dgram| && HostMatches(name, opt.host) {
        var q := Judge(dgram, opt, depth).q;
        AcceptedInside(dgram, opt, depth);
        var answers := Answers(opt, q, clock, cb(q.name));
        FullFlags(dgram, q, answers, Authority(opt, q, q.end + ListingSize(answers), answers != [], laterClock));
      }
  }

  lemma FullFlags(dgram: seq<byte>, q: Query, answers: seq<Rr>, authority: seq<Rr>)
    requires HEADER <= q.end <= |dgram| && dgram[2] < 128
    ensures var r := FullReply(dgram, q, answers, authority);
            && |r| >= 12
            && r[2] as int == dgram[2] as int + 128 + (if dgram[2] / 4 % 2 == 1 then 0 else 4)
            && r[3] == dgram[3] - dgram[3] % 16
  {
    assert dgram[3] / 16 * 16 == dgram[3] - dgram[3] % 16;
    assert (dgram[2] as int + 128) / 4 % 2 == dgram[2] / 4 % 2;
    hide BE, Listing;
  }

  // ---------------------------------------------------------------- the server's own records

  /** The server's own records in plain values, and exactly when each is asked for and fits. */
  lemma OwnRecordsExactly(opt: DnsOpt, q: Query, clock: u32, pos: nat, rr: Rr)
    ensures Writable(opt.ns) ==> NsRr(opt, q) == Rr(2, q.cls, opt.nsTtl, NameBytes(opt.ns))
    ensures Writable(opt.ns) && Writable(opt.mbox) ==>
              SoaRr(opt, q, clock)
              == Rr(6, q.cls, opt.nsTtl, SoaData(opt.ns, opt.mbox, clock, 604800, 86400, 2592000, 604800))
    ensures q.Asks(TYPE_NS) <==> (q.typ == 2 || q.typ == 255) && (q.cls == 1 || q.cls == 255)
    ensures q.Asks(TYPE_SOA) <==> (q.typ == 6 || q.typ == 255) && (q.cls == 1 || q.cls == 255)
    ensures Room(pos, rr) <==> pos + 12 + |rr.data| < 512
  {
    hide NameBytes, SoaData, Writable;
  }

  /** Exactly what stands in the authority section: behind answers the name server, without any
      the start of authority if there is a mailbox; each if it can be written and ends before
      octet 512. */
  lemma AuthorityExactly(opt: DnsOpt, q: Query, pos: nat, answered: bool, clock: u32)
    ensures var authority := Authority(opt, q, pos, answered, clock);
            if answered then
              (if Writable(opt.ns) && pos + 12 + |opt.ns| + 2 < 512
               then authority == [Rr(2, q.cls, opt.nsTtl, NameBytes(opt.ns))] else authority == [])
            else if opt.mbox != [] && Writable(opt.ns) && Writable(opt.mbox)
                    && pos + 12 + |opt.ns| + 2 + |opt.mbox| + 2 + 20 < 512
            then authority == [Rr(6, q.cls, opt.nsTtl, SoaData(opt.ns, opt.mbox, clock, 604800, 86400, 2592000, 604800))]
            else authority == []
  {
    if Writable(opt.ns) {
      WrittenSize(opt.ns);
      if Writable(opt.mbox) {
        WrittenSize(opt.mbox);
      }
    }
    hide NameBytes, Writable;
  }
}
