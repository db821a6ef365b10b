/** One round of the DNS server: a datagram in, at most one datagram out. */
module DnsServer {
  import opened Bytes
  import opened Net
  import opened DnsName
  import opened DnsRecords

  const OUT_END: nat := 512
  const HEADER: nat := 12
  const REFRESH: u32 := 604800
  const RETRY: u32 := 86400
  const EXPIRE: u32 := 2592000
  const MINIMUM: u32 := 604800

  /** The host as code points, which is how it is compared; the names that are written, as the
      octets of their UTF-8. */
  datatype DnsOpt = DnsOpt(host: seq<int>, ns: seq<byte>, mbox: seq<byte>, dataTtl: u32, nsTtl: u32)

  /** Nothing is sent; one datagram is sent; or the name's pointers exhaust the stack. */
  datatype Outcome = Silent | Sent(bytes: seq<byte>) | NoReturn

  // ---------------------------------------------------------------- the question

  datatype Query = Query(name: seq<byte>, typ: u16, cls: u16, end: nat) {
    predicate Asks(t: u16) { (typ == t || typ == TYPE_ANY) && (cls == 1 || cls == 255) }

    predicate Eligible(a: Addr) { (a.v == 4 && Asks(TYPE_A)) || (a.v == 6 && Asks(TYPE_AAAA)) }
  }

  datatype Verdict = Faulty(rcode: byte) | Refused | Lost | Accepted(q: Query)

  predicate HostMatches(name: seq<byte>, host: seq<int>) {
    name == host || EndsWith(name, [DOT] + host)
  }

  predicate EndsWith(s: seq<byte>, t: seq<int>) {
    |t| <= |s| && s[|s| - |t|..] == t
  }

  function Judge(dgram: seq<byte>, opt: DnsOpt, depth: nat): Verdict
    requires |dgram| >= HEADER
  {
    if dgram[2] >= 128 then Faulty(1)
    else if dgram[2] / 8 % 16 != 0 then Faulty(1)
    else if Word(dgram[4], dgram[5]) == 0 then Faulty(0)
    else if Word(dgram[4], dgram[5]) > 1 then Faulty(4)
    else
      match Parse(dgram, HEADER, depth)
      case Malformed => Faulty(1)
      case Overflow => Lost
      case Name(name, pos) =>
        if pos + 4 > |dgram| then Faulty(1)
        else if !HostMatches(name, opt.host) then Refused
        else Accepted(Query(name, Word(dgram[pos], dgram[pos + 1]), Word(dgram[pos + 2], dgram[pos + 3]), pos + 4))
  }

  lemma AcceptedInside(dgram: seq<byte>, opt: DnsOpt, depth: nat)
    requires |dgram| >= HEADER && Judge(dgram, opt, depth).Accepted?
    ensures HEADER + 5 <= Judge(dgram, opt, depth).q.end <= |dgram|
    ensures dgram[2] < 128
  {
    ParsedEndsInside(dgram, HEADER, depth);
  }

  // ---------------------------------------------------------------- the records

  predicate Room(pos: nat, rr: Rr) { pos + 12 + |rr.data| < OUT_END }

  function NsRr(opt: DnsOpt, q: Query): Rr
    requires Writable(opt.ns)
  {
    Rr(TYPE_NS, q.cls, opt.nsTtl, NameBytes(opt.ns))
  }

  function SoaRr(opt: DnsOpt, q: Query, clock: u32): Rr
    requires Writable(opt.ns) && Writable(opt.mbox)
  {
    Rr(TYPE_SOA, q.cls, opt.nsTtl, SoaData(opt.ns, opt.mbox, clock, REFRESH, RETRY, EXPIRE, MINIMUM))
  }

  function IfRoom(pos: nat, rr: Rr): seq<Rr> { if Room(pos, rr) then [rr] else [] }

  /** The name server record, where there is room for it. */
  function NsIn(opt: DnsOpt, q: Query, pos: nat): seq<Rr> {
    if Writable(opt.ns) then IfRoom(pos, NsRr(opt, q)) else []
  }

  /** The start of authority, where there is a mailbox to name and room for it. */
  function SoaIn(opt: DnsOpt, q: Query, pos: nat, clock: u32): seq<Rr> {
    if opt.mbox != [] && Writable(opt.ns) && Writable(opt.mbox) then IfRoom(pos, SoaRr(opt, q, clock)) else []
  }

  function AddrRr(opt: DnsOpt, q: Query, a: Addr): Rr {
    if a.v == 4 then Rr(TYPE_A, q.cls, opt.dataTtl, a.data[..4]) else Rr(TYPE_AAAA, q.cls, opt.dataTtl, a.data)
  }

  /** The eligible addresses, up to the first that finds no room. */
  function AddrsIn(opt: DnsOpt, q: Query, pos: nat, addrs: seq<Addr>): seq<Rr>
    decreases |addrs|
  {
    if addrs == [] then []
    else if !q.Eligible(addrs[0]) then AddrsIn(opt, q, pos, addrs[1..])
    else
      var rr := AddrRr(opt, q, addrs[0]);
      if Room(pos, rr) then [rr] + AddrsIn(opt, q, pos + 12 + |rr.data|, addrs[1..]) else []
  }

  /** The server's own answers. */
  function OwnAnswers(opt: DnsOpt, q: Query, clock: u32): seq<Rr> {
    var ns := if q.Asks(TYPE_NS) then NsIn(opt, q, q.end) else [];
    var soa := if q.Asks(TYPE_SOA) then SoaIn(opt, q, q.end + ListingSize(ns), clock) else [];
    ns + soa
  }

  function AddrAnswers(opt: DnsOpt, q: Query, pos: nat, addrs: seq<Addr>): seq<Rr> {
    if q.Asks(TYPE_A) || q.Asks(TYPE_AAAA) then AddrsIn(opt, q, pos, addrs) else []
  }

  function Answers(opt: DnsOpt, q: Query, clock: u32, addrs: seq<Addr>): seq<Rr> {
    var own := OwnAnswers(opt, q, clock);
    own + AddrAnswers(opt, q, q.end + ListingSize(own), addrs)
  }

  function Authority(opt: DnsOpt, q: Query, pos: nat, answered: bool, clock: u32): seq<Rr> {
    if answered then NsIn(opt, q, pos) else SoaIn(opt, q, pos, clock)
  }

  // ---------------------------------------------------------------- the reply

  const NO_COUNTS: seq<byte> := [0, 0, 0, 0, 0, 0, 0, 0]

  /** The header alone: the query's id and flags, a response code, and all counts zero. */
  function ErrorReply(dgram: seq<byte>, flags: byte, rcode: nat): (s: seq<byte>)
    requires |dgram| >= HEADER && rcode < 16
    ensures |s| == HEADER
  {
    [dgram[0], dgram[1], flags, dgram[3] / 16 * 16 + rcode] + NO_COUNTS
  }

  /** `flags | 0x80` */
  function WithQr(flags: byte): byte { flags % 128 + 128 }

  /** `flags | 0x04` */
  function WithAa(flags: byte): byte {
    if flags / 4 % 2 == 1 then flags else flags + 4
  }

  function FullReply(dgram: seq<byte>, q: Query, answers: seq<Rr>, authority: seq<Rr>): seq<byte>
    requires HEADER <= q.end <= |dgram|
  {
    [dgram[0], dgram[1], WithAa(WithQr(dgram[2])), dgram[3] / 16 * 16]
    + BE(1, 2) + BE(|answers| % 0x1_0000, 2) + BE(|authority|, 2) + [0, 0]
    + dgram[HEADER..q.end] + Listing(answers + authority)
  }

  /** What is sent for a datagram: a function of the datagram, the options, the clock and the
      callback alone. */
  function Reply(dgram: seq<byte>, opt: DnsOpt, cb: seq<byte> -> seq<Addr>, clock: u32, laterClock: u32,
                 depth: nat): Outcome {
    if |dgram| < HEADER then Silent
    else
      match Judge(dgram, opt, depth)
      case Faulty(rcode) => Sent(ErrorReply(dgram, dgram[2], rcode % 16))
      case Refused => Sent(ErrorReply(dgram, WithQr(dgram[2]), 5))
      case Lost => NoReturn
      case Accepted(q) =>
        AcceptedInside(dgram, opt, depth);
        var answers := Answers(opt, q, clock, cb(q.name));
        var authority := Authority(opt, q, q.end + ListingSize(answers), answers != [], laterClock);
        Sent(FullReply(dgram, q, answers, authority))
  }

  // ---------------------------------------------------------------- the buffers

  /** The octets from `at` on replaced by `bytes`. */
  function Spliced(s: seq<byte>, at: nat, bytes: seq<byte>): (t: seq<byte>)
    requires at + |bytes| <= |s|
    ensures |t| == |s|
  {
    s[..at] + bytes + s[at + |bytes|..]
  }

  /** `copy_from_slice` */
  method CopyInto(buf: array<byte>, at: nat, bytes: seq<byte>)
    requires at + |bytes| <= buf.Length
    modifies buf
    ensures buf[..] == Spliced(old(buf[..]), at, bytes)
  {
    for i := 0 to |bytes|
      invariant buf[..at] == old(buf[..at])
      invariant buf[at..at + i] == bytes[..i]
      invariant buf[at + |bytes|..] == old(buf[at + |bytes|..])
    {
      buf[at + i] := bytes[i];
    }
  }

  /** `tmp` behind the reply so far, if it ends before the end of the buffer. */
  method Append(outbuf: array<byte>, outpos: nat, tmp: seq<byte>) returns (pos: nat, added: bool)
    requires outbuf.Length == OUT_END && outpos <= OUT_END
    modifies outbuf
    ensures added <==> outpos + |tmp| < OUT_END
    ensures pos == if added then outpos + |tmp| else outpos
    ensures outbuf[..pos] == old(outbuf[..outpos]) + if added then tmp else []
  {
    if outpos + |tmp| < OUT_END {
      CopyInto(outbuf, outpos, tmp);
      return outpos + |tmp|, true;
    }
    return outpos, false;
  }

  /** A record's octets appended are the record, or nothing, listed. */
  method AppendRr(outbuf: array<byte>, outpos: nat, tmp: seq<byte>, ghost rr: Rr) returns (pos: nat, added: bool)
    requires outbuf.Length == OUT_END && outpos <= OUT_END
    requires Writable([]) && tmp == RecordBytes([], rr)
    modifies outbuf
    ensures var rrs := IfRoom(outpos, rr);
            && added == (rrs != [])
            && pos == outpos + ListingSize(rrs) <= OUT_END
            && outbuf[..pos] == old(outbuf[..outpos]) + Listing(rrs)
  {
    ListingOfNone();
    ListingOfOne(rr);
    hide RecordBytes, Listing, ListingSize, Writable;
    pos, added := Append(outbuf, outpos, tmp);
  }

  method AppendNs(opt: DnsOpt, q: Query, outbuf: array<byte>, outpos: nat) returns (pos: nat, added: bool)
    requires outbuf.Length == OUT_END && outpos <= OUT_END
    modifies outbuf
    ensures var rrs := NsIn(opt, q, outpos);
            && added == (rrs != [])
            && pos == outpos + ListingSize(rrs) <= OUT_END
            && outbuf[..pos] == old(outbuf[..outpos]) + Listing(rrs)
  {
    ListingOfNone();
    EmptyName([], [], 1);
    hide RecordBytes, NameBytes, Writable, Listing, ListingSize, IfRoom;
    var tmp := new ByteVec();
    var ok := WriteNs(tmp, [], q.cls, opt.nsTtl, opt.ns);
    if !ok {
      return outpos, false;
    }
    NsPatchesItsLength([], q.cls, opt.nsTtl, opt.ns);
    pos, added := AppendRr(outbuf, outpos, tmp.bytes, NsRr(opt, q));
  }

  method AppendSoa(opt: DnsOpt, q: Query, outbuf: array<byte>, outpos: nat, clock: u32) returns (pos: nat, added: bool)
    requires outbuf.Length == OUT_END && outpos <= OUT_END
    requires opt.mbox != []
    modifies outbuf
    ensures var rrs := SoaIn(opt, q, outpos, clock);
            && added == (rrs != [])
            && pos == outpos + ListingSize(rrs) <= OUT_END
            && outbuf[..pos] == old(outbuf[..outpos]) + Listing(rrs)
  {
    ListingOfNone();
    EmptyName([], [], 1);
    hide RecordBytes, NameBytes, Writable, Listing, ListingSize, IfRoom, SoaData;
    var tmp := new ByteVec();
    var ok := WriteSoa(tmp, [], q.cls, opt.nsTtl, opt.ns, opt.mbox, clock, REFRESH, RETRY, EXPIRE, MINIMUM);
    if !ok {
      return outpos, false;
    }
    pos, added := AppendRr(outbuf, outpos, tmp.bytes, SoaRr(opt, q, clock));
  }

  lemma ListingOfOne(rr: Rr)
    ensures Listing([rr]) == RecordBytes([], rr) && ListingSize([rr]) == 12 + |rr.data|
  {
    var one := [rr];
    assert one[1..] == [];
    hide RecordBytes;
  }

  method AppendAddr(opt: DnsOpt, q: Query, outbuf: array<byte>, outpos: nat, addr: Addr) returns (pos: nat, added: bool)
    requires outbuf.Length == OUT_END && outpos <= OUT_END && q.Eligible(addr)
    modifies outbuf
    ensures var rrs := IfRoom(outpos, AddrRr(opt, q, addr));
            && added == (rrs != [])
            && pos == outpos + ListingSize(rrs) <= OUT_END
            && outbuf[..pos] == old(outbuf[..outpos]) + Listing(rrs)
  {
    EmptyName([], [], 1);
    hide RecordBytes, NameBytes, Writable, Listing, ListingSize, IfRoom;
    var tmp := new ByteVec();
    var ok;
    if addr.v == 4 {
      ok := WriteA(tmp, [], q.cls, opt.dataTtl, addr);
    } else {
      ok := WriteAaaa(tmp, [], q.cls, opt.dataTtl, addr);
    }
    pos, added := AppendRr(outbuf, outpos, tmp.bytes, AddrRr(opt, q, addr));
  }

  method AppendAddrs(opt: DnsOpt, q: Query, outbuf: array<byte>, outpos: nat, addrs: seq<Addr>, count: u16)
    returns (pos: nat, total: u16)
    requires outbuf.Length == OUT_END && outpos <= OUT_END
    requires 12 * (count as int) <= outpos
    modifies outbuf
    ensures var rrs := AddrsIn(opt, q, outpos, addrs);
            && total as int == count as int + |rrs|
            && pos == outpos + ListingSize(rrs) <= OUT_END
            && outbuf[..pos] == old(outbuf[..outpos]) + Listing(rrs)
  {
    hide RecordBytes, Listing, ListingSize, Writable, Query.Asks, NameBytes;
    pos, total := outpos, count;
    ghost var done: seq<Rr> := [];
    ListingOfNone();
    var i := 0;
    while i < |addrs|
      invariant 0 <= i <= |addrs|
      invariant pos <= OUT_END && 12 * (total as int) <= pos
      invariant pos == outpos + ListingSize(done) && total as int == count as int + |done|
      invariant outbuf[..pos] == old(outbuf[..outpos]) + Listing(done)
      invariant AddrsIn(opt, q, outpos, addrs) == done + AddrsIn(opt, q, pos, addrs[i..])
    {
      var addr := addrs[i];
      assert addrs[i..][1..] == addrs[i + 1..];
      if q.Eligible(addr) {
        ghost var rr := AddrRr(opt, q, addr);
        ListingOfOne(rr);
        var next, added := AppendAddr(opt, q, outbuf, pos, addr);
        if !added {
          assert done + [] == done;
          return;
        }
        PushRr(old(outbuf[..outpos]), done, rr);
        pos, total := next, total + 1;
        done := done + [rr];
      }
      i := i + 1;
    }
    assert addrs[i..] == [];
    assert done + [] == done;
  }

  lemma PushRr(pre: seq<byte>, done: seq<Rr>, rr: Rr)
    ensures ListingSize(done + [rr]) == ListingSize(done) + 12 + |rr.data|
    ensures pre + Listing(done + [rr]) == (pre + Listing(done)) + RecordBytes([], rr)
  {
    ListingOfOne(rr);
    ListingJoins(done, [rr]);
    hide *;
    Associates(pre, Listing(done), Listing([rr]));
  }

  method AppendOwnAnswers(opt: DnsOpt, q: Query, outbuf: array<byte>, clock: u32) returns (outpos: nat, count: u16)
    requires outbuf.Length == OUT_END && HEADER <= q.end <= OUT_END
    modifies outbuf
    ensures var rrs := OwnAnswers(opt, q, clock);
            && count as int == |rrs| && 12 * |rrs| <= outpos
            && outpos == q.end + ListingSize(rrs) <= OUT_END
            && outbuf[..outpos] == old(outbuf[..q.end]) + Listing(rrs)
  {
    hide RecordBytes, Listing, ListingSize, Writable, NameBytes, NsIn, SoaIn;
    ListingOfNone();
    OneAtMost(opt, q, q.end, clock);
    outpos, count := q.end, 0;
    ghost var ns: seq<Rr> := [];
    ghost var soa: seq<Rr> := [];
    ghost var start := outbuf[..q.end];
    if q.Asks(TYPE_NS) {
      ns := NsIn(opt, q, outpos);
      var added;
      outpos, added := AppendNs(opt, q, outbuf, outpos);
      if added {
        count := count + 1;
      }
    }
    assert outbuf[..outpos] == start + Listing(ns);
    OneAtMost(opt, q, outpos, clock);
    if q.Asks(TYPE_SOA) && opt.mbox != [] {
      soa := SoaIn(opt, q, outpos, clock);
      var added;
      outpos, added := AppendSoa(opt, q, outbuf, outpos, clock);
      if added {
        count := count + 1;
      }
    }
    ListedBehind(start, ns, soa);
    RoomForEach(ns + soa);
  }

  method AppendAuthority(opt: DnsOpt, q: Query, outbuf: array<byte>, outpos: nat, answerCount: u16, clock: u32)
    returns (pos: nat, count: u16)
    requires outbuf.Length == OUT_END && outpos <= OUT_END
    modifies outbuf
    ensures var rrs := Authority(opt, q, outpos, answerCount > 0, clock);
            && count as int == |rrs|
            && pos == outpos + ListingSize(rrs) <= OUT_END
            && outbuf[..pos] == old(outbuf[..outpos]) + Listing(rrs)
  {
    hide RecordBytes, Listing, ListingSize, Writable, NameBytes, NsIn, SoaIn;
    ListingOfNone();
    OneAtMost(opt, q, outpos, clock);
    pos, count := outpos, 0;
    if answerCount > 0 {
      var added;
      pos, added := AppendNs(opt, q, outbuf, outpos);
      if added {
        count := count + 1;
      }
    } else if opt.mbox != [] {
      var added;
      pos, added := AppendSoa(opt, q, outbuf, outpos, clock);
      if added {
        count := count + 1;
      }
    }
  }

  /** Answer and authority sections behind the question. */
  method AppendSections(opt: DnsOpt, cb: seq<byte> -> seq<Addr>, q: Query, outbuf: array<byte>, clock: u32,
                        laterClock: u32)
    returns (outpos: nat, answerCount: u16, authCount: u16)
    requires outbuf.Length == OUT_END && HEADER <= q.end <= OUT_END
    modifies outbuf
    ensures var answers := Answers(opt, q, clock, cb(q.name));
            var authority := Authority(opt, q, q.end + ListingSize(answers), answers != [], laterClock);
            && answerCount as int == |answers| && authCount as int == |authority|
            && q.end <= outpos <= OUT_END
            && outbuf[..outpos] == old(outbuf[..q.end]) + Listing(answers + authority)
  {
    hide RecordBytes, Listing, ListingSize, Writable, NameBytes, AddrsIn, OwnAnswers, Authority, Query.Asks;
    ghost var start := outbuf[..q.end];
    ghost var own := OwnAnswers(opt, q, clock);
    outpos, answerCount := AppendOwnAnswers(opt, q, outbuf, clock);
    ghost var others := AddrAnswers(opt, q, outpos, cb(q.name));
    ListingOfNone();
    if q.Asks(TYPE_A) || q.Asks(TYPE_AAAA) {
      outpos, answerCount := AppendAddrs(opt, q, outbuf, outpos, cb(q.name), answerCount);
    }
    ListedBehind(start, own, others);
    ghost var answers := own + others;
    assert answers == Answers(opt, q, clock, cb(q.name));
    ghost var authority := Authority(opt, q, outpos, answers != [], laterClock);
    outpos, authCount := AppendAuthority(opt, q, outbuf, outpos, answerCount, laterClock);
    ListedBehind(start, answers, authority);
  }

  lemma ListedBehind(start: seq<byte>, a: seq<Rr>, b: seq<Rr>)
    ensures start + Listing(a) + Listing(b) == start + Listing(a + b)
    ensures ListingSize(a) + ListingSize(b) == ListingSize(a + b)
  {
    ListingJoins(a, b);
    hide *;
    Associates(start, Listing(a), Listing(b));
  }

  lemma {:induction false} RoomForEach(rrs: seq<Rr>)
    ensures 12 * |rrs| <= ListingSize(rrs)
  {
    if rrs != [] {
      RoomForEach(rrs[1..]);
    }
  }

  lemma OneAtMost(opt: DnsOpt, q: Query, pos: nat, clock: u32)
    ensures |NsIn(opt, q, pos)| <= 1 && |SoaIn(opt, q, pos, clock)| <= 1
    ensures opt.mbox == [] ==> SoaIn(opt, q, pos, clock) == []
  {
    hide Writable, NameBytes, SoaData;
  }

  // ---------------------------------------------------------------- one datagram

  method SetErrorHeader(outbuf: array<byte>, rcode: byte)
    requires outbuf.Length >= HEADER
    modifies outbuf
    ensures outbuf[..] == Spliced(old(outbuf[..])[3 := old(outbuf[3]) / 16 * 16 + rcode % 16], 4, NO_COUNTS)
  {
    outbuf[3] := outbuf[3] / 16 * 16 + rcode % 16;
    assert outbuf[..] == old(outbuf[..])[3 := old(outbuf[3]) / 16 * 16 + rcode % 16];
    CopyInto(outbuf, 4, NO_COUNTS);
  }

  /** The header alone is sent. */
  method SendError(outbuf: array<byte>, rcode: byte, ghost dgram: seq<byte>) returns (o: Outcome)
    requires outbuf.Length == OUT_END && rcode < 16 && |dgram| >= HEADER
    requires outbuf[0] == dgram[0] && outbuf[1] == dgram[1] && outbuf[3] / 16 == dgram[3] / 16
    modifies outbuf
    ensures o == Sent(ErrorReply(dgram, old(outbuf[2]), rcode))
  {
    ghost var was := outbuf[..];
    SetErrorHeader(outbuf, rcode);
    assert outbuf[..HEADER] == outbuf[..][..HEADER];
    assert outbuf[..HEADER] == [was[0], was[1], was[2], was[3] / 16 * 16 + rcode] + NO_COUNTS;
    o := Sent(outbuf[..HEADER]);
  }

  /** The datagram copied over the last reply, its response code cleared. */
  method StartReply(inbuf: array<byte>, len: nat, outbuf: array<byte>)
    requires inbuf.Length == OUT_END && outbuf.Length == OUT_END && inbuf != outbuf
    requires HEADER <= len <= OUT_END
    modifies outbuf
    ensures outbuf[0] == inbuf[0] && outbuf[1] == inbuf[1] && outbuf[2] == inbuf[2]
    ensures outbuf[3] == inbuf[3] / 16 * 16
    ensures outbuf[4..len] == inbuf[4..len]
  {
    StartCopied(outbuf[..], inbuf[..], len);
    assert inbuf[..][..len] == inbuf[..len] && inbuf[..][0..2] == inbuf[0..2];
    CopyInto(outbuf, 0, inbuf[..len]);
    CopyInto(outbuf, 0, inbuf[0..2]);
    assert forall i :: 0 <= i < len ==> outbuf[i] == outbuf[..][i] == inbuf[i];
    hide Spliced;
    outbuf[2] := inbuf[2];
    outbuf[3] := inbuf[3];
    outbuf[3] := outbuf[3] / 16 * 16;
  }

  lemma StartCopied(was: seq<byte>, dgram: seq<byte>, len: nat)
    requires |was| == OUT_END && |dgram| == OUT_END && HEADER <= len <= OUT_END
    ensures var s := Spliced(Spliced(was, 0, dgram[..len]), 0, dgram[0..2]);
            forall i :: 0 <= i < len ==> s[i] == dgram[i]
  {
  }

  /** The header's faults come before the question is looked at. */
  lemma HeaderFaults(dgram: seq<byte>, opt: DnsOpt, depth: nat)
    requires |dgram| >= HEADER
    ensures dgram[2] >= 128 || dgram[2] / 8 % 16 != 0 ==> Judge(dgram, opt, depth) == Faulty(1)
    ensures dgram[2] < 128 && dgram[2] / 8 % 16 == 0 ==>
              && (Word(dgram[4], dgram[5]) == 0 ==> Judge(dgram, opt, depth) == Faulty(0))
              && (Word(dgram[4], dgram[5]) > 1 ==> Judge(dgram, opt, depth) == Faulty(4))
  {
    hide Parse, Word, HostMatches;
  }

  /** The body of the server's loop. Whatever earlier requests left in either buffer, what is
      sent is what `Reply` makes of the datagram. */
  method HandleDatagram(opt: DnsOpt, cb: seq<byte> -> seq<Addr>, inbuf: array<byte>, len: nat, outbuf: array<byte>,
                        clock: u32, laterClock: u32, depth: nat) returns (o: Outcome)
    requires inbuf.Length == OUT_END && outbuf.Length == OUT_END && inbuf != outbuf
    requires len <= OUT_END
    modifies outbuf
    ensures o == Reply(inbuf[..len], opt, cb, clock, laterClock, depth)
  {
    hide Answers, Authority, Judge, FullReply, ErrorReply, Word;
    if len < HEADER {
      return Silent;
    }
    ghost var dgram := inbuf[..len];
    HeaderFaults(dgram, opt, depth);
    StartReply(inbuf, len, outbuf);
    if inbuf[2] >= 128 {
      o := SendError(outbuf, 1, dgram);
      return;
    }
    if inbuf[2] / 8 % 16 != 0 {
      o := SendError(outbuf, 1, dgram);
      return;
    }
    var nquestion := Word(inbuf[4], inbuf[5]);
    if nquestion == 0 {
      o := SendError(outbuf, 0, dgram);
      return;
    }
    if nquestion > 1 {
      o := SendError(outbuf, 4, dgram);
      return;
    }
    o := HandleQuestion(opt, cb, inbuf, len, outbuf, clock, laterClock, depth);
  }

  method HandleQuestion(opt: DnsOpt, cb: seq<byte> -> seq<Addr>, inbuf: array<byte>, len: nat, outbuf: array<byte>,
                        clock: u32, laterClock: u32, depth: nat) returns (o: Outcome)
    requires inbuf.Length == OUT_END && outbuf.Length == OUT_END && inbuf != outbuf
    requires HEADER <= len <= OUT_END
    requires inbuf[2] < 128 && inbuf[2] / 8 % 16 == 0 && Word(inbuf[4], inbuf[5]) == 1
    requires outbuf[0] == inbuf[0] && outbuf[1] == inbuf[1] && outbuf[2] == inbuf[2]
    requires outbuf[3] == inbuf[3] / 16 * 16
    requires outbuf[4..len] == inbuf[4..len]
    modifies outbuf
    ensures o == Reply(inbuf[..len], opt, cb, clock, laterClock, depth)
  {
    hide Answers, Authority, Parse, HostMatches, FullReply, ErrorReply, WithQr;
    var dgram := inbuf[..len];
    var cur := new Cursor(HEADER);
    var parsed := ParseName(dgram, cur, depth);
    if parsed.Overflow? {
      return NoReturn;
    }
    if parsed.Malformed? {
      o := SendError(outbuf, 1, dgram);
      return;
    }
    if cur.pos + 4 > len {
      o := SendError(outbuf, 1, dgram);
      return;
    }
    var name, pos := parsed.name, cur.pos;
    ParsedEndsInside(dgram, HEADER, depth);
    var q := Query(name, Word(inbuf[pos], inbuf[pos + 1]), Word(inbuf[pos + 2], inbuf[pos + 3]), pos + 4);
    ghost var was := outbuf[..];
    CopyInto(outbuf, 4, NO_COUNTS);
    QuestionUntouched(was, dgram, q.end);
    outbuf[2] := WithQr(outbuf[2]);
    if !HostMatches(name, opt.host) {
      o := SendError(outbuf, 5, dgram);
      return;
    }
    assert outbuf[HEADER..q.end] == dgram[HEADER..q.end];
    o := Answer(opt, cb, dgram, q, outbuf, clock, laterClock);
  }

  lemma QuestionUntouched(was: seq<byte>, dgram: seq<byte>, end: nat)
    requires |was| == OUT_END && HEADER <= end <= |dgram| <= OUT_END && was[4..|dgram|] == dgram[4..]
    ensures var s := Spliced(was, 4, NO_COUNTS);
            && s[..4] == was[..4] && s[10] == 0 && s[11] == 0
            && s[HEADER..end] == dgram[HEADER..end]
  {
    assert forall i :: HEADER <= i < |dgram| ==> was[i] == was[4..|dgram|][i - 4] == dgram[4..][i - 4] == dgram[i];
  }

  method Answer(opt: DnsOpt, cb: seq<byte> -> seq<Addr>, dgram: seq<byte>, q: Query, outbuf: array<byte>,
                clock: u32, laterClock: u32) returns (o: Outcome)
    requires outbuf.Length == OUT_END && HEADER <= q.end <= |dgram| <= OUT_END
    requires outbuf[0] == dgram[0] && outbuf[1] == dgram[1] && outbuf[2] == WithQr(dgram[2])
    requires outbuf[3] == dgram[3] / 16 * 16 && outbuf[10] == 0 && outbuf[11] == 0
    requires outbuf[HEADER..q.end] == dgram[HEADER..q.end]
    modifies outbuf
    ensures var answers := Answers(opt, q, clock, cb(q.name));
            var authority := Authority(opt, q, q.end + ListingSize(answers), answers != [], laterClock);
            o == Sent(FullReply(dgram, q, answers, authority))
  {
    hide Answers, Authority, BE, Listing, WithAa, WithQr, Spliced;
    ghost var answers := Answers(opt, q, clock, cb(q.name));
    ghost var authority := Authority(opt, q, q.end + ListingSize(answers), answers != [], laterClock);
    ghost var front, question := outbuf[..HEADER], dgram[HEADER..q.end];
    assert outbuf[..q.end] == front + question by {
      var was := outbuf[..];
      Cut(was, HEADER, q.end);
      assert was[..q.end] == outbuf[..q.end] && was[HEADER..q.end] == outbuf[HEADER..q.end];
    }
    var outpos, answerCount, authCount := AppendSections(opt, cb, q, outbuf, clock, laterClock);
    ghost var body := question + Listing(answers + authority);
    Associates(front, question, Listing(answers + authority));
    assert outbuf[..outpos] == front + body;
    SendReply(outbuf, outpos, answerCount, authCount, front, body);
    FullReplyIs(dgram, q, answers, authority, front);
    hide FullReply;
    o := Sent(outbuf[..outpos]);
  }

  lemma FullReplyIs(dgram: seq<byte>, q: Query, answers: seq<Rr>, authority: seq<Rr>, front: seq<byte>)
    requires HEADER <= q.end <= |dgram| && |front| == HEADER
    requires front[0] == dgram[0] && front[1] == dgram[1] && front[2] == WithQr(dgram[2]) && front[3] == dgram[3] / 16 * 16
    ensures FullReply(dgram, q, answers, authority)
            == [front[0], front[1], WithAa(front[2]), front[3]]
               + BE(1, 2) + BE(|answers| % 0x1_0000, 2) + BE(|authority|, 2) + [0, 0]
               + (dgram[HEADER..q.end] + Listing(answers + authority))
  {
    hide BE, Listing, WithAa, WithQr;
    var head := [front[0], front[1], WithAa(front[2]), front[3]]
                + BE(1, 2) + BE(|answers| % 0x1_0000, 2) + BE(|authority|, 2) + [0, 0];
    Associates(head, dgram[HEADER..q.end], Listing(answers + authority));
  }

  lemma Cut(s: seq<byte>, a: nat, b: nat)
    requires a <= b <= |s|
    ensures s[..b] == s[..a] + s[a..b]
  {
  }

  /** Counts and flags. */
  method SendReply(outbuf: array<byte>, outpos: nat, answerCount: u16, authCount: u16, ghost front: seq<byte>,
                   ghost body: seq<byte>)
    requires outbuf.Length == OUT_END && HEADER <= outpos <= OUT_END
    requires |front| == HEADER && front[10] == 0 && front[11] == 0 && outbuf[..outpos] == front + body
    modifies outbuf
    ensures outbuf[..outpos]
            == [front[0], front[1], WithAa(front[2]), front[3]]
               + BE(1, 2) + BE(answerCount, 2) + BE(authCount, 2) + [0, 0] + body
  {
    hide BE, WithAa, Spliced;
    ghost var s0 := outbuf[..];
    assert s0[..outpos] == front + body;
    CopyInto(outbuf, 4, BE(1, 2));
    CopyInto(outbuf, 6, BE(answerCount, 2));
    CopyInto(outbuf, 8, BE(authCount, 2));
    CountsSet(s0, BE(1, 2), BE(answerCount, 2), BE(authCount, 2));
    ghost var s3 := outbuf[..];
    assert outbuf[2] == s3[2] == s0[..4][2] == s0[2] == s0[..outpos][2] == front[2];
    outbuf[2] := WithAa(outbuf[2]);
    assert outbuf[..] == s3[2 := WithAa(front[2])];
    ReplyAssembled(s0, WithAa(front[2]), BE(1, 2), BE(answerCount, 2), BE(authCount, 2), front, body, outpos);
    assert outbuf[..outpos] == outbuf[..][..outpos];
  }

  lemma CountsSet(s: seq<byte>, a: seq<byte>, b: seq<byte>, c: seq<byte>)
    requires |s| == OUT_END && |a| == 2 && |b| == 2 && |c| == 2
    ensures Spliced(Spliced(Spliced(s, 4, a), 6, b), 8, c) == s[..4] + a + b + c + s[10..]
  {
  }

  lemma ReplyAssembled(s: seq<byte>, flags: byte, a: seq<byte>, b: seq<byte>, c: seq<byte>,
                       front: seq<byte>, body: seq<byte>, end: nat)
    requires |s| == OUT_END && |a| == 2 && |b| == 2 && |c| == 2 && HEADER <= end <= OUT_END
    requires |front| == HEADER && front[10] == 0 && front[11] == 0 && s[..end] == front + body
    ensures (s[..4] + a + b + c + s[10..])[2 := flags][..end]
            == [front[0], front[1], flags, front[3]] + a + b + c + [0, 0] + body
  {
    var t := s[..4] + a + b + c + s[10..];
    assert s[..4] == s[..end][..4] == (front + body)[..4] == front[..4];
    assert s[10..end] == s[..end][10..] == (front + body)[10..] == front[10..] + body;
    assert front[10..] == [0, 0];
    assert t[..end] == front[..4] + a + b + c + ([0, 0] + body);
    assert t[2 := flags][..end] == t[..end][2 := flags];
  }
}
