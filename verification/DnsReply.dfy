/** What holds of every reply of the DNS server. */
module DnsReply {
  import opened Bytes
  import opened Net
  import opened DnsName
  import opened DnsRecords
  import opened DnsServer

  // ---------------------------------------------------------------- sizes

  lemma {:induction false} AddrsFit(opt: DnsOpt, q: Query, pos: nat, addrs: seq<Addr>)
    requires pos <= OUT_END
    ensures pos + ListingSize(AddrsIn(opt, q, pos, addrs)) <= OUT_END
    decreases |addrs|
  {
    ListingOfNone();
    if addrs != [] {
      if !q.Eligible(addrs[0]) {
        AddrsFit(opt, q, pos, addrs[1..]);
      } else {
        var rr := AddrRr(opt, q, addrs[0]);
        if Room(pos, rr) {
          AddrsFit(opt, q, pos + 12 + |rr.data|, addrs[1..]);
          var rest := AddrsIn(opt, q, pos + 12 + |rr.data|, addrs[1..]);
          assert ([rr] + rest)[1..] == rest;
          ListingStep([rr] + rest);
          hide AddrsIn;
        }
      }
    }
  }

  lemma IfRoomFits(pos: nat, rr: Rr)
    requires pos <= OUT_END
    ensures pos + ListingSize(IfRoom(pos, rr)) <= OUT_END
  {
    ListingOfNone();
    ListingOfOne(rr);
    hide ListingSize, Listing, RecordBytes;
  }

  lemma NsFits(opt: DnsOpt, q: Query, pos: nat)
    requires pos <= OUT_END
    ensures pos + ListingSize(NsIn(opt, q, pos)) <= OUT_END
  {
    ListingOfNone();
    hide ListingSize, Listing, IfRoom, NameBytes;
    if Writable(opt.ns) {
      IfRoomFits(pos, NsRr(opt, q));
    }
  }

  lemma SoaFits(opt: DnsOpt, q: Query, pos: nat, clock: u32)
    requires pos <= OUT_END
    ensures pos + ListingSize(SoaIn(opt, q, pos, clock)) <= OUT_END
  {
    ListingOfNone();
    hide ListingSize, Listing, IfRoom, SoaData, Writable;
    if opt.mbox != [] && Writable(opt.ns) && Writable(opt.mbox) {
      IfRoomFits(pos, SoaRr(opt, q, clock));
    }
  }

  lemma OwnAnswersFit(opt: DnsOpt, q: Query, clock: u32)
    requires q.end <= OUT_END
    ensures q.end + ListingSize(OwnAnswers(opt, q, clock)) <= OUT_END
  {
    hide ListingSize, NsIn, SoaIn, Query.Asks;
    ListingOfNone();
    var ns := if q.Asks(TYPE_NS) then NsIn(opt, q, q.end) else [];
    NsFits(opt, q, q.end);
    var soa := if q.Asks(TYPE_SOA) then SoaIn(opt, q, q.end + ListingSize(ns), clock) else [];
    SoaFits(opt, q, q.end + ListingSize(ns), clock);
    ListingJoins(ns, soa);
  }

  lemma AnswersFit(opt: DnsOpt, q: Query, clock: u32, addrs: seq<Addr>)
    requires q.end <= OUT_END
    ensures q.end + ListingSize(Answers(opt, q, clock, addrs)) <= OUT_END
  {
    hide ListingSize, OwnAnswers, AddrsIn, Query.Asks;
    ListingOfNone();
    var own := OwnAnswers(opt, q, clock);
    OwnAnswersFit(opt, q, clock);
    var at := q.end + ListingSize(own);
    AddrsFit(opt, q, at, addrs);
    ListingJoins(own, AddrAnswers(opt, q, at, addrs));
  }

  lemma SectionsFit(opt: DnsOpt, q: Query, clock: u32, laterClock: u32, addrs: seq<Addr>)
    requires q.end <= OUT_END
    ensures var answers := Answers(opt, q, clock, addrs);
            var authority := Authority(opt, q, q.end + ListingSize(answers), answers != [], laterClock);
            q.end + ListingSize(answers + authority) <= OUT_END
  {
    hide ListingSize, NsIn, SoaIn, Answers;
    var answers := Answers(opt, q, clock, addrs);
    AnswersFit(opt, q, clock, addrs);
    var pos := q.end + ListingSize(answers);
    NsFits(opt, q, pos);
    SoaFits(opt, q, pos, laterClock);
    ListingJoins(answers, Authority(opt, q, pos, answers != [], laterClock));
  }

  lemma {:induction false} DataWithinListing(rrs: seq<Rr>, i: nat)
    requires i < |rrs|
    ensures 12 + |rrs[i].data| <= ListingSize(rrs)
  {
    if i > 0 {
      DataWithinListing(rrs[1..], i - 1);
    }
  }

  // ---------------------------------------------------------------- layout

  /** Every reply fits the buffer and carries the query's id. */
  lemma ReplyFits(dgram: seq<byte>, opt: DnsOpt, cb: seq<byte> -> seq<Addr>, clock: u32, laterClock: u32, depth: nat)
    requires |dgram| <= OUT_END
    ensures var o := Reply(dgram, opt, cb, clock, laterClock, depth);
            && (o.Silent? <==> |dgram| < HEADER)
            && (o.Sent? ==> HEADER <= |o.bytes| <= OUT_END && o.bytes[..2] == dgram[..2])
            && (o.Sent? && |o.bytes| != HEADER ==> Judge(dgram, opt, depth).Accepted?)
  {
    hide Judge, Answers, Authority, Listing, ListingSize;
    if |dgram| >= HEADER && Judge(dgram, opt, depth).Accepted? {
      var q := Judge(dgram, opt, depth).q;
      AcceptedInside(dgram, opt, depth);
      SectionsFit(opt, q, clock, laterClock, cb(q.name));
      var answers := Answers(opt, q, clock, cb(q.name));
      var authority := Authority(opt, q, q.end + ListingSize(answers), answers != [], laterClock);
      ListingTiles(answers + authority);
    }
  }

  /** A reply's layout: the flags, one question echoed as it came, the counts, and behind the
      question exactly as many records as counted, which tile the datagram to its end by their
      own length fields and read back as the answers followed by the authority. */
  ghost predicate LaidOut(r: seq<byte>, dgram: seq<byte>, q: Query, answers: seq<Rr>, authority: seq<Rr>)
    requires HEADER <= q.end <= |dgram|
  {
    && q.end <= |r| <= OUT_END
    && r[2] == WithAa(WithQr(dgram[2])) && r[3] == dgram[3] / 16 * 16
    && Word(r[4], r[5]) == 1
    && Word(r[6], r[7]) as int == |answers|
    && Word(r[8], r[9]) as int == |authority|
    && Word(r[10], r[11]) == 0
    && r[HEADER..q.end] == dgram[HEADER..q.end]
    && ReadRrs(r, q.end, |answers| + |authority|) == Some(answers + authority)
  }

  /** Every accepted query gets a reply laid out like that. */
  lemma ReplyReadsBack(dgram: seq<byte>, opt: DnsOpt, cb: seq<byte> -> seq<Addr>, clock: u32, laterClock: u32, depth: nat)
    requires HEADER <= |dgram| <= OUT_END && Judge(dgram, opt, depth).Accepted?
    ensures var q := Judge(dgram, opt, depth).q;
            var answers := Answers(opt, q, clock, cb(q.name));
            var authority := Authority(opt, q, q.end + ListingSize(answers), answers != [], laterClock);
            var o := Reply(dgram, opt, cb, clock, laterClock, depth);
            && HEADER <= q.end <= |dgram|
            && o.Sent? && LaidOut(o.bytes, dgram, q, answers, authority)
  {
    hide *;
    AcceptedInside(dgram, opt, depth);
    ReplyToAccepted(dgram, opt, cb, clock, laterClock, depth);
    var q := Judge(dgram, opt, depth).q;
    var answers := Answers(opt, q, clock, cb(q.name));
    SectionsFit(opt, q, clock, laterClock, cb(q.name));
    FullReplyReadsBack(dgram, q, answers, Authority(opt, q, q.end + ListingSize(answers), answers != [], laterClock));
  }

  lemma ReplyToAccepted(dgram: seq<byte>, opt: DnsOpt, cb: seq<byte> -> seq<Addr>, clock: u32, laterClock: u32,
                        depth: nat)
    requires |dgram| >= HEADER && Judge(dgram, opt, depth).Accepted?
    ensures var q := Judge(dgram, opt, depth).q;
            var answers := Answers(opt, q, clock, cb(q.name));
            var authority := Authority(opt, q, q.end + ListingSize(answers), answers != [], laterClock);
            && HEADER <= q.end <= |dgram|
            && Reply(dgram, opt, cb, clock, laterClock, depth) == Sent(FullReply(dgram, q, answers, authority))
  {
    hide Judge, Answers, Authority, ListingSize, FullReply;
    AcceptedInside(dgram, opt, depth);
  }

  lemma FullReplyReadsBack(dgram: seq<byte>, q: Query, answers: seq<Rr>, authority: seq<Rr>)
    requires HEADER <= q.end <= |dgram| && q.end + ListingSize(answers + authority) <= OUT_END
    ensures LaidOut(FullReply(dgram, q, answers, authority), dgram, q, answers, authority)
  {
    hide Listing, ListingSize, WithAa, WithQr, ReadRrs, BE, Word;
    var rrs := answers + authority;
    var flags := [dgram[0], dgram[1], WithAa(WithQr(dgram[2])), dgram[3] / 16 * 16];
    var question := dgram[HEADER..q.end];
    RoomForEach(rrs);
    RecordsReadBack(flags + BE(1, 2) + BE(|answers|, 2) + BE(|authority|, 2) + [0, 0] + question, rrs);
    FieldsOf(flags, BE(1, 2), BE(|answers|, 2), BE(|authority|, 2), question, Listing(rrs));
    Counted(1);
    Counted(|answers|);
    Counted(|authority|);
    WordOf(0);
  }

  lemma Counted(n: u16)
    ensures Word(BE(n, 2)[0], BE(n, 2)[1]) == n
  {
    BE2(n);
    hide BE;
  }

  lemma RecordsReadBack(front: seq<byte>, rrs: seq<Rr>)
    requires |front| + ListingSize(rrs) <= OUT_END
    ensures ReadRrs(front + Listing(rrs), |front|, |rrs|) == Some(rrs)
    ensures |Listing(rrs)| == ListingSize(rrs)
  {
    forall i | 0 <= i < |rrs|
      ensures |rrs[i].data| < 0x1_0000
    {
      DataWithinListing(rrs, i);
    }
    ListingReadBack(front, rrs);
    ListingTiles(rrs);
  }

  lemma WordOf(v: u16)
    ensures Word(v / 256 % 256, v % 256) == v
  {
  }

  lemma FieldsOf(flags: seq<byte>, a: seq<byte>, b: seq<byte>, c: seq<byte>, question: seq<byte>, records: seq<byte>)
    requires |flags| == 4 && |a| == 2 && |b| == 2 && |c| == 2
    ensures var r, end := flags + a + b + c + [0, 0] + question + records, HEADER + |question|;
            && r[2] == flags[2] && r[3] == flags[3]
            && r[4] == a[0] && r[5] == a[1] && r[6] == b[0] && r[7] == b[1] && r[8] == c[0] && r[9] == c[1]
            && r[10] == 0 && r[11] == 0
            && r[HEADER..end] == question
            && r == r[..end] + records
  {
  }

  /** Only accepting and refusing mark the reply as one: the reply to a faulty query has the
      query bit it came with. */
  lemma OnlyGoodQueriesGetMarkedReplies(dgram: seq<byte>, opt: DnsOpt, cb: seq<byte> -> seq<Addr>,
                                        clock: u32, laterClock: u32, depth: nat)
    requires HEADER <= |dgram| <= OUT_END && Reply(dgram, opt, cb, clock, laterClock, depth).Sent?
    ensures Reply(dgram, opt, cb, clock, laterClock, depth).bytes[2] >= 128
            <==> dgram[2] >= 128 || Judge(dgram, opt, depth).Refused? || Judge(dgram, opt, depth).Accepted?
  {
    hide Judge, Answers, Authority;
    if Judge(dgram, opt, depth).Accepted? {
      ReplyReadsBack(dgram, opt, cb, clock, laterClock, depth);
    }
  }

  // ---------------------------------------------------------------- queries that are never answered

  /** A header that lets the question be looked at. */
  predicate HeaderInOrder(dgram: seq<byte>) {
    |dgram| >= HEADER && dgram[2] < 128 && dgram[2] / 8 % 16 == 0 && Word(dgram[4], dgram[5]) == 1
  }

  /** Exactly which datagrams exhaust a stack of `depth` calls: those with their header in order
      and a chain of that many pointers in the question. */
  lemma NoReplyExactly(dgram: seq<byte>, opt: DnsOpt, cb: seq<byte> -> seq<Addr>, clock: u32, laterClock: u32, depth: nat)
    ensures Reply(dgram, opt, cb, clock, laterClock, depth) == NoReturn
            <==> HeaderInOrder(dgram) && RunStart(dgram, HEADER, depth).Some?
  {
    hide Parse, RunStart, Answers, Authority, HostMatches, FullReply, ErrorReply, Word;
    OverflowIsAChain(dgram, HEADER, depth);
    if |dgram| >= HEADER {
      HeaderFaults(dgram, opt, depth);
    }
  }

  /** Exactly which datagrams no stack is deep enough for: those with their header in order and
      a question whose pointers come back to where they have been. Frames for one call more
      than the datagram has octets are enough for all others. */
  lemma NeverRepliedExactly(dgram: seq<byte>, opt: DnsOpt, cb: seq<byte> -> seq<Addr>, clock: u32, laterClock: u32)
    ensures (forall depth: nat :: Reply(dgram, opt, cb, clock, laterClock, depth) == NoReturn)
            <==> HeaderInOrder(dgram) && exists i: nat, j: nat :: i < j && ComesBack(dgram, HEADER, i, j)
    ensures (forall depth: nat :: Reply(dgram, opt, cb, clock, laterClock, depth) == NoReturn)
            <==> Reply(dgram, opt, cb, clock, laterClock, |dgram| + 1) == NoReturn
  {
    hide *;
    NoReplyExactly(dgram, opt, cb, clock, laterClock, |dgram| + 1);
    EndlessIsACycle(dgram, HEADER);
    if Reply(dgram, opt, cb, clock, laterClock, |dgram| + 1) == NoReturn {
      forall depth: nat
        ensures Reply(dgram, opt, cb, clock, laterClock, depth) == NoReturn
      {
        NoReplyExactly(dgram, opt, cb, clock, laterClock, depth);
        LongChainNeverEnds(dgram, HEADER, depth);
      }
    }
  }

  /** One of them: a question that is a pointer to itself. */
  lemma SelfPointerIsNeverAnswered(front: seq<byte>, post: seq<byte>, opt: DnsOpt, cb: seq<byte> -> seq<Addr>,
                                   clock: u32, laterClock: u32, depth: nat)
    requires |front| == HEADER && HeaderInOrder(front)
    ensures Reply(front + (PointerTo(HEADER) + post), opt, cb, clock, laterClock, depth) == NoReturn
  {
    hide Parse, RunStart, Answers, Authority, FullReply, ErrorReply, Word, PointerTo, Reply;
    var dgram := front + (PointerTo(HEADER) + post);
    assert forall i :: 0 <= i < HEADER ==> dgram[i] == front[i];
    SelfPointerNeverEnds(front, post, depth);
    OverflowIsAChain(dgram, HEADER, depth);
    NoReplyExactly(dgram, opt, cb, clock, laterClock, depth);
  }

  // ---------------------------------------------------------------- what is in it

  /** The eligible addresses, in order. */
  function Eligibles(q: Query, addrs: seq<Addr>): seq<Addr> {
    if addrs == [] then []
    else if q.Eligible(addrs[0]) then [addrs[0]] + Eligibles(q, addrs[1..])
    else Eligibles(q, addrs[1..])
  }

  /** `rrs` stand for a prefix of `eligible`, cut only where the next one finds no room. */
  ghost predicate CutPrefix(opt: DnsOpt, q: Query, pos: nat, rrs: seq<Rr>, eligible: seq<Addr>) {
    && |rrs| <= |eligible|
    && (forall i :: 0 <= i < |rrs| ==> rrs[i] == AddrRr(opt, q, eligible[i]))
    && (|rrs| < |eligible| ==> !Room(pos + ListingSize(rrs), AddrRr(opt, q, eligible[|rrs|])))
  }

  lemma CutPrefixPush(opt: DnsOpt, q: Query, pos: nat, a: Addr, tail: seq<Rr>, others: seq<Addr>)
    requires CutPrefix(opt, q, pos + 12 + |AddrRr(opt, q, a).data|, tail, others)
    ensures CutPrefix(opt, q, pos, [AddrRr(opt, q, a)] + tail, [a] + others)
  {
    hide AddrRr, Room;
    var rr := AddrRr(opt, q, a);
    assert ([rr] + tail)[1..] == tail;
    ListingStep([rr] + tail);
    hide ListingSize;
  }

  /** The addresses answered are a prefix, in order, of the eligible ones, and it is cut only
      where the next one finds no room. */
  lemma {:induction false} AnsweredIsAPrefix(opt: DnsOpt, q: Query, pos: nat, addrs: seq<Addr>)
    ensures CutPrefix(opt, q, pos, AddrsIn(opt, q, pos, addrs), Eligibles(q, addrs))
    decreases |addrs|
  {
    hide AddrRr, Query.Eligible, Room, ListingSize;
    ListingOfNone();
    if addrs != [] {
      if !q.Eligible(addrs[0]) {
        AnsweredIsAPrefix(opt, q, pos, addrs[1..]);
      } else {
        var rr := AddrRr(opt, q, addrs[0]);
        if Room(pos, rr) {
          hide CutPrefix;
          var next := pos + 12 + |rr.data|;
          AnsweredIsAPrefix(opt, q, next, addrs[1..]);
          CutPrefixPush(opt, q, pos, addrs[0], AddrsIn(opt, q, next, addrs[1..]), Eligibles(q, addrs[1..]));
        }
      }
    }
  }

  /** Nothing is answered that was not asked for, and the authority is one name server behind
      answers and one start of authority without. */
  lemma AnswersWereAskedFor(opt: DnsOpt, q: Query, clock: u32, laterClock: u32, addrs: seq<Addr>, i: nat)
    ensures var answers := Answers(opt, q, clock, addrs);
            i < |answers| ==> answers[i].cls == q.cls && q.Asks(answers[i].typ)
    ensures var answers := Answers(opt, q, clock, addrs);
            var authority := Authority(opt, q, q.end + ListingSize(answers), answers != [], laterClock);
            && |authority| <= 1
            && (authority != [] ==> authority[0].typ == if answers != [] then TYPE_NS else TYPE_SOA)
  {
    hide *;
    var own := OwnAnswers(opt, q, clock);
    var at := q.end + ListingSize(own);
    var answers := Answers(opt, q, clock, addrs);
    AnswersAre(opt, q, clock, addrs);
    AuthorityKind(opt, q, q.end + ListingSize(answers), answers != [], laterClock);
    if i < |own| {
      OwnWereAskedFor(opt, q, clock, i);
    } else if i < |answers| {
      AddressesWereAskedFor(opt, q, at, addrs, i - |own|);
    }
  }

  lemma AuthorityKind(opt: DnsOpt, q: Query, pos: nat, answered: bool, clock: u32)
    ensures var authority := Authority(opt, q, pos, answered, clock);
            && |authority| <= 1
            && (authority != [] ==> authority[0].typ == if answered then TYPE_NS else TYPE_SOA)
  {
    hide Writable, NameBytes, SoaData, Room;
  }

  lemma OwnWereAskedFor(opt: DnsOpt, q: Query, clock: u32, i: nat)
    requires i < |OwnAnswers(opt, q, clock)|
    ensures var rr := OwnAnswers(opt, q, clock)[i]; rr.cls == q.cls && q.Asks(rr.typ)
  {
    hide ListingSize, Writable, NameBytes, SoaData, Room, Query.Asks;
  }

  lemma AddressesWereAskedFor(opt: DnsOpt, q: Query, pos: nat, addrs: seq<Addr>, i: nat)
    requires i < |AddrAnswers(opt, q, pos, addrs)|
    ensures var rr := AddrAnswers(opt, q, pos, addrs)[i]; rr.cls == q.cls && q.Asks(rr.typ)
  {
    hide AddrsIn, Room, ListingSize, Query.Asks, Query.Eligible, Eligibles, AddrRr;
    AnsweredIsAPrefix(opt, q, pos, addrs);
    EligiblesAre(q, addrs, i);
    EligibleAsked(opt, q, Eligibles(q, addrs)[i]);
  }

  /** The server's own records are answered exactly when they are asked for, can be written and
      find room, the name server first. */
  lemma OwnRecordsAreGiven(opt: DnsOpt, q: Query, clock: u32, addrs: seq<Addr>)
    requires Writable(opt.ns)
    ensures var answers := Answers(opt, q, clock, addrs);
            var ns := NsRr(opt, q);
            && (ns in answers <==> q.Asks(TYPE_NS) && Room(q.end, ns))
            && (Writable(opt.mbox) ==>
                  var soa := SoaRr(opt, q, clock);
                  var at := if ns in answers then q.end + 12 + |ns.data| else q.end;
                  soa in answers <==> opt.mbox != [] && q.Asks(TYPE_SOA) && Room(at, soa))
  {
    hide OwnAnswers, AddrAnswers, ListingSize, Writable, NameBytes, SoaData, Room, Query.Asks;
    var own := OwnAnswers(opt, q, clock);
    OwnAre(opt, q, clock);
    AddressesOnly(opt, q, q.end + ListingSize(own), addrs);
  }

  lemma OwnAre(opt: DnsOpt, q: Query, clock: u32)
    requires Writable(opt.ns)
    ensures var own := OwnAnswers(opt, q, clock);
            var ns := NsRr(opt, q);
            && (ns in own <==> q.Asks(TYPE_NS) && Room(q.end, ns))
            && (Writable(opt.mbox) ==>
                  var soa := SoaRr(opt, q, clock);
                  var at := if ns in own then q.end + 12 + |ns.data| else q.end;
                  soa in own <==> opt.mbox != [] && q.Asks(TYPE_SOA) && Room(at, soa))
  {
    ListingOfNone();
    ListingOfOne(NsRr(opt, q));
    hide ListingSize, Listing, RecordBytes, Writable, NameBytes, SoaData, Room, Query.Asks;
  }

  lemma AddressesOnly(opt: DnsOpt, q: Query, pos: nat, addrs: seq<Addr>)
    ensures forall rr :: rr in AddrAnswers(opt, q, pos, addrs) ==> rr.typ != TYPE_NS && rr.typ != TYPE_SOA
  {
    hide AddrsIn, Room, Query.Asks, Eligibles, ListingSize;
    AnsweredIsAPrefix(opt, q, pos, addrs);
    var others := AddrAnswers(opt, q, pos, addrs);
    forall rr | rr in others
      ensures rr.typ != TYPE_NS && rr.typ != TYPE_SOA
    {
      var i :| 0 <= i < |others| && others[i] == rr;
      assert rr == AddrRr(opt, q, Eligibles(q, addrs)[i]);
    }
  }

  lemma EligibleAsked(opt: DnsOpt, q: Query, a: Addr)
    requires q.Eligible(a)
    ensures q.Asks(AddrRr(opt, q, a).typ) && AddrRr(opt, q, a).cls == q.cls
  {
  }

  lemma {:induction false} EligiblesAre(q: Query, addrs: seq<Addr>, i: nat)
    requires i < |Eligibles(q, addrs)|
    ensures q.Eligible(Eligibles(q, addrs)[i])
    decreases |addrs|
  {
    hide Query.Eligible;
    if q.Eligible(addrs[0]) {
      if i > 0 {
        EligiblesAre(q, addrs[1..], i - 1);
      }
    } else {
      EligiblesAre(q, addrs[1..], i);
    }
  }

  // ---------------------------------------------------------------- queries that are answered

  function QueryFront(id: seq<byte>, flags: byte, more: byte): (s: seq<byte>)
    requires |id| == 2
    ensures |s| == HEADER
  {
    id + [flags, more] + BE(1, 2) + [0, 0, 0, 0, 0, 0]
  }

  /** A query for one name. */
  function QueryBytes(id: seq<byte>, flags: byte, more: byte, name: seq<byte>, typ: u16, cls: u16,
                      rest: seq<byte>): seq<byte>
    requires |id| == 2 && Writable(name)
  {
    QueryFront(id, flags, more) + NameBytes(name) + (BE(typ, 2) + BE(cls, 2) + rest)
  }

  lemma QueryFrontFields(id: seq<byte>, flags: byte, more: byte)
    requires |id| == 2
    ensures var front := QueryFront(id, flags, more);
            front[2] == flags && Word(front[4], front[5]) == 1
  {
    hide BE, Word;
    Counted(1);
  }

  /** A standard query for a name of non-empty labels is read as that name, type and class, and
      is accepted exactly when the name is the host or ends with a dot and the host. */
  lemma StandardQueriesAreJudgedByHost(id: seq<byte>, flags: byte, more: byte, name: seq<byte>, typ: u16, cls: u16,
                                       rest: seq<byte>, opt: DnsOpt, depth: nat)
    requires |id| == 2 && flags < 128 && flags / 8 % 16 == 0
    requires Writable(name) && NoneEmpty(Split(name)) && depth > 0
    ensures var dgram := QueryBytes(id, flags, more, name, typ, cls, rest);
            |dgram| >= HEADER && Judge(dgram, opt, depth)
            == if HostMatches(name, opt.host) then Accepted(Query(name, typ, cls, HEADER + |name| + 6)) else Refused
  {
    hide Parse, NameBytes, Writable, NoneEmpty, Split, BE, HostMatches, Word, Judge, QueryFront;
    var front := QueryFront(id, flags, more);
    WrittenSize(name);
    NameRoundTrip(front, name, BE(typ, 2) + BE(cls, 2) + rest, depth);
    QueryFrontFields(id, flags, more);
    Counted(typ);
    Counted(cls);
    QueryFields(front, NameBytes(name), BE(typ, 2), BE(cls, 2), rest);
    JudgedByHost(QueryBytes(id, flags, more, name, typ, cls, rest), opt, depth, name, HEADER + |name| + 2);
  }

  lemma JudgedByHost(dgram: seq<byte>, opt: DnsOpt, depth: nat, name: seq<byte>, pos: nat)
    requires |dgram| >= HEADER && dgram[2] < 128 && dgram[2] / 8 % 16 == 0 && Word(dgram[4], dgram[5]) == 1
    requires Parse(dgram, HEADER, depth) == Name(name, pos) && pos + 4 <= |dgram|
    ensures Judge(dgram, opt, depth)
            == if HostMatches(name, opt.host) then
              Accepted(Query(name, Word(dgram[pos], dgram[pos + 1]), Word(dgram[pos + 2], dgram[pos + 3]), pos + 4))
            else Refused
  {
    hide Parse, HostMatches, Word;
  }

  lemma QueryFields(front: seq<byte>, name: seq<byte>, typ: seq<byte>, cls: seq<byte>, rest: seq<byte>)
    requires |front| == HEADER && |typ| == 2 && |cls| == 2
    ensures var s, p := front + name + (typ + cls + rest), HEADER + |name|;
            && (forall i :: 0 <= i < HEADER ==> s[i] == front[i])
            && s[p] == typ[0] && s[p + 1] == typ[1] && s[p + 2] == cls[0] && s[p + 3] == cls[1]
  {
  }

  // ---------------------------------------------------------------- the callback

  /** The DNS cache as address records: IPv4 first, IPv6 otherwise, everything else dropped. */
  function FromCache(cache: seq<NetAddr>): seq<Addr> {
    if cache == [] then []
    else
      var rest := FromCache(cache[1..]);
      match AsAddr(cache[0]) case Some(a) => [a] + rest case None => rest
  }

  /** The peer address an address record stands for. */
  function Meant(rr: Rr): Option<NetAddr> {
    if rr.typ == TYPE_A && |rr.data| == 4 then Some(NetAddr(PCH_IPV4_PREFIX + rr.data))
    else if rr.typ == TYPE_AAAA && |rr.data| == 16 then Some(NetAddr(rr.data))
    else None
  }

  /** The cached addresses of the families asked for. */
  function Wanted(q: Query, cache: seq<NetAddr>): seq<NetAddr> {
    if cache == [] then []
    else
      var rest := Wanted(q, cache[1..]);
      if AsAddr(cache[0]).Some? && q.Eligible(AsAddr(cache[0]).value) then [cache[0]] + rest else rest
  }

  lemma RecordMeansTheAddress(opt: DnsOpt, q: Query, ip: NetAddr)
    requires AsAddr(ip).Some?
    ensures Meant(AddrRr(opt, q, AsAddr(ip).value)) == Some(ip)
  {
    if ip.ToIpv4().Some? {
      assert ip.ip == ip.ip[..12] + ip.ip[12..];
      assert AsAddr(ip).value.data[..4] == ip.ip[12..];
    }
  }

  lemma {:induction false} CacheEligibles(opt: DnsOpt, q: Query, cache: seq<NetAddr>)
    ensures var eligible, wanted := Eligibles(q, FromCache(cache)), Wanted(q, cache);
            && |eligible| == |wanted|
            && forall i :: 0 <= i < |wanted| ==> Meant(AddrRr(opt, q, eligible[i])) == Some(wanted[i])
  {
    if cache != [] {
      CacheEligibles(opt, q, cache[1..]);
      hide Query.Eligible, AddrRr, Meant, AsAddr;
      var ip, rest := cache[0], FromCache(cache[1..]);
      if AsAddr(ip).Some? {
        RecordMeansTheAddress(opt, q, ip);
        assert ([AsAddr(ip).value] + rest)[1..] == rest;
      }
    }
  }

  /** The address records made from the cache stand for the first of the cached peers of the
      families asked for, in order. */
  lemma RecordsComeFromTheCache(opt: DnsOpt, q: Query, pos: nat, cache: seq<NetAddr>)
    ensures var rrs, wanted := AddrsIn(opt, q, pos, FromCache(cache)), Wanted(q, cache);
            |rrs| <= |wanted| && forall i :: 0 <= i < |rrs| ==> Meant(rrs[i]) == Some(wanted[i])
  {
    AnsweredIsAPrefix(opt, q, pos, FromCache(cache));
    CacheEligibles(opt, q, cache);
    hide AddrsIn, Eligibles, Meant, AddrRr, Wanted;
  }

  /** The peers a list of records stands for. */
  function PeersIn(rrs: seq<Rr>): seq<NetAddr> {
    if rrs == [] then []
    else (match Meant(rrs[0]) case Some(a) => [a] case None => []) + PeersIn(rrs[1..])
  }

  lemma {:induction false} PeersJoin(a: seq<Rr>, b: seq<Rr>)
    ensures PeersIn(a + b) == PeersIn(a) + PeersIn(b)
  {
    hide *;
    if a == [] {
      assert a + b == b;
      PeersOfNone();
      assert [] + PeersIn(b) == PeersIn(b);
    } else {
      PeersStep(a);
      PeersStep(a + b);
      PeersJoin(a[1..], b);
      assert (a + b)[1..] == a[1..] + b;
      assert (a + b)[0] == a[0];
      var one := PeersIn([a[0]]);
      assert one + (PeersIn(a[1..]) + PeersIn(b)) == (one + PeersIn(a[1..])) + PeersIn(b);
    }
  }

  lemma PeersOfNone()
    ensures PeersIn([]) == []
  {
  }

  lemma PeersStep(rrs: seq<Rr>)
    requires rrs != []
    ensures PeersIn(rrs) == PeersIn([rrs[0]]) + PeersIn(rrs[1..])
  {
    hide Meant;
    var one := [rrs[0]];
    assert one[1..] == [];
  }

  lemma {:induction false} PeersOfMeant(rrs: seq<Rr>, peers: seq<NetAddr>)
    requires |rrs| <= |peers| && forall i :: 0 <= i < |rrs| ==> Meant(rrs[i]) == Some(peers[i])
    ensures PeersIn(rrs) == peers[..|rrs|]
  {
    hide Meant;
    if rrs != [] {
      assert Meant(rrs[0]) == Some(peers[0]);
      PeersOfMeant(rrs[1..], peers[1..]);
      assert peers[..|rrs|] == [peers[0]] + peers[1..][..|rrs| - 1];
    }
  }

  lemma {:induction false} NoPeersMeant(rrs: seq<Rr>)
    requires forall rr :: rr in rrs ==> rr.typ == TYPE_NS || rr.typ == TYPE_SOA
    ensures PeersIn(rrs) == []
  {
    if rrs != [] {
      assert rrs[0] in rrs;
      NoPeersMeant(rrs[1..]);
    }
  }

  ghost predicate NoPeerTwice(peers: seq<NetAddr>) {
    forall i, j :: 0 <= i < j < |peers| ==> peers[i] != peers[j]
  }

  lemma {:induction false} WantedAmong(q: Query, cache: seq<NetAddr>)
    ensures forall a :: a in Wanted(q, cache) ==> a in cache
    ensures NoPeerTwice(cache) ==> NoPeerTwice(Wanted(q, cache))
  {
    hide Query.Eligible, AsAddr;
    if cache != [] {
      WantedAmong(q, cache[1..]);
      if NoPeerTwice(cache) {
        assert cache[0] !in cache[1..];
      }
    }
  }

  lemma OwnMeanNoPeers(opt: DnsOpt, q: Query, clock: u32, pos: nat, answered: bool)
    ensures PeersIn(OwnAnswers(opt, q, clock)) == []
    ensures PeersIn(Authority(opt, q, pos, answered, clock)) == []
  {
    hide Writable, NameBytes, SoaData, Room, ListingSize, Query.Asks;
    NoPeersMeant(OwnAnswers(opt, q, clock));
    NoPeersMeant(Authority(opt, q, pos, answered, clock));
  }

  lemma AnswersMeanThePeers(opt: DnsOpt, q: Query, clock: u32, laterClock: u32, cache: seq<NetAddr>)
    ensures var answers := Answers(opt, q, clock, FromCache(cache));
            var authority := Authority(opt, q, q.end + ListingSize(answers), answers != [], laterClock);
            PeersIn(answers + authority) <= Wanted(q, cache)
  {
    hide *;
    var own := OwnAnswers(opt, q, clock);
    var at := q.end + ListingSize(own);
    var others := AddrAnswers(opt, q, at, FromCache(cache));
    AnswersAre(opt, q, clock, FromCache(cache));
    var answers := Answers(opt, q, clock, FromCache(cache));
    var pos := q.end + ListingSize(answers);
    OwnMeanNoPeers(opt, q, clock, pos, answers != []);
    OwnMeanNoPeers(opt, q, laterClock, pos, answers != []);
    PeersJoin(own, others);
    PeersJoin(answers, Authority(opt, q, pos, answers != [], laterClock));
    OthersMean(opt, q, at, cache);
    assert [] + PeersIn(others) + [] == PeersIn(others);
  }

  lemma AnswersAre(opt: DnsOpt, q: Query, clock: u32, addrs: seq<Addr>)
    ensures var own := OwnAnswers(opt, q, clock);
            Answers(opt, q, clock, addrs) == own + AddrAnswers(opt, q, q.end + ListingSize(own), addrs)
  {
    hide OwnAnswers, AddrAnswers, ListingSize;
  }

  lemma OthersMean(opt: DnsOpt, q: Query, at: nat, cache: seq<NetAddr>)
    ensures PeersIn(AddrAnswers(opt, q, at, FromCache(cache))) <= Wanted(q, cache)
  {
    hide AddrsIn, Query.Asks, Wanted, Meant, FromCache;
    RecordsComeFromTheCache(opt, q, at, cache);
    PeersOfMeant(AddrsIn(opt, q, at, FromCache(cache)), Wanted(q, cache));
  }

  /** A reply, read back by its own counts, stands for the first of the cached peers of the
      families asked for, in order; and for none twice, if the cache holds none twice. */
  ghost predicate ReadsAsFirstOf(o: Outcome, q: Query, cache: seq<NetAddr>) {
    && o.Sent? && |o.bytes| >= HEADER
    && var read := ReadRrs(o.bytes, q.end, Word(o.bytes[6], o.bytes[7]) as int + Word(o.bytes[8], o.bytes[9]) as int);
       && read.Some?
       && PeersIn(read.value) <= Wanted(q, cache)
       && (NoPeerTwice(cache) ==> NoPeerTwice(PeersIn(read.value)))
  }

  /** End to end: so does every reply to an accepted query. (A snapshot holds no peer twice.) */
  lemma AnswersComeFromTheCache(dgram: seq<byte>, opt: DnsOpt, cache: seq<NetAddr>, clock: u32, laterClock: u32, depth: nat)
    requires HEADER <= |dgram| <= OUT_END && Judge(dgram, opt, depth).Accepted?
    ensures ReadsAsFirstOf(Reply(dgram, opt, _ => FromCache(cache), clock, laterClock, depth),
                           Judge(dgram, opt, depth).q, cache)
  {
    hide *;
    var cb: seq<byte> -> seq<Addr> := _ => FromCache(cache);
    var q := Judge(dgram, opt, depth).q;
    ReplyReadsBack(dgram, opt, cb, clock, laterClock, depth);
    AcceptedInside(dgram, opt, depth);
    var answers := Answers(opt, q, clock, cb(q.name));
    var authority := Authority(opt, q, q.end + ListingSize(answers), answers != [], laterClock);
    AnswersMeanThePeers(opt, q, clock, laterClock, cache);
    LaidOutReads(Reply(dgram, opt, cb, clock, laterClock, depth), dgram, q, answers, authority, cache);
  }

  lemma LaidOutReads(o: Outcome, dgram: seq<byte>, q: Query, answers: seq<Rr>, authority: seq<Rr>, cache: seq<NetAddr>)
    requires HEADER <= q.end <= |dgram| && o.Sent? && LaidOut(o.bytes, dgram, q, answers, authority)
    requires PeersIn(answers + authority) <= Wanted(q, cache)
    ensures ReadsAsFirstOf(o, q, cache)
  {
    hide ReadRrs, Word, WithAa, WithQr, NoPeerTwice, PeersIn, Wanted;
    WantedAmong(q, cache);
    if NoPeerTwice(cache) {
      PrefixNoPeerTwice(PeersIn(answers + authority), Wanted(q, cache));
    }
  }

  lemma PrefixNoPeerTwice(a: seq<NetAddr>, b: seq<NetAddr>)
    requires a <= b && NoPeerTwice(b)
    ensures NoPeerTwice(a)
  {
  }
}
