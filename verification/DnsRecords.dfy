/** Resource records as the DNS server writes them (RFC 1035, section 4.1.3). */
module DnsRecords {
  import opened Bytes
  import opened DnsName
  import opened Net

  const TYPE_A: u16 := 1
  const TYPE_NS: u16 := 2
  const TYPE_SOA: u16 := 6
  const TYPE_AAAA: u16 := 28
  const TYPE_ANY: u16 := 255

  /** An address with its family, four octets used of the sixteen for family 4. */
  datatype Addr = Addr(v: byte, data: Ip16)

  /** The DNS callback on one peer's address: IPv4 first, IPv6 otherwise, everything else dropped. */
  function AsAddr(ip: NetAddr): Option<Addr> {
    if ip.ToIpv4().Some? then Some(Addr(4, ip.ToIpv4().value + [0, 0, 0, 0, 0, 0, 0, 0, 0, 0, 0, 0]))
    else if ip.ToIpv6().Some? then Some(Addr(6, ip.ToIpv6().value))
    else None
  }

  /** A record without its owner name. */
  datatype Rr = Rr(typ: u16, cls: u16, ttl: u32, data: seq<byte>)

  function HeaderBytes(name: seq<byte>, typ: u16, cls: u16, ttl: u32): (s: seq<byte>)
    requires Writable(name)
    ensures |s| == |name| + 10
  {
    WrittenSize(name);
    NameBytes(name) + BE(typ, 2) + BE(cls, 2) + BE(ttl, 4)
  }

  /** A record as it should be: the length field counts the data behind it, as far as
      sixteen bits can. */
  function RecordBytes(name: seq<byte>, rr: Rr): (s: seq<byte>)
    requires Writable(name)
    ensures |s| == |name| + 12 + |rr.data|
  {
    HeaderBytes(name, rr.typ, rr.cls, rr.ttl) + BE(|rr.data| % 0x1_0000, 2) + rr.data
  }

  function SoaData(mname: seq<byte>, rname: seq<byte>,
                   serial: u32, refresh: u32, retry: u32, expire: u32, minimum: u32): seq<byte>
    requires Writable(mname) && Writable(rname)
  {
    NameBytes(mname) + NameBytes(rname)
    + BE(serial, 4) + BE(refresh, 4) + BE(retry, 4) + BE(expire, 4) + BE(minimum, 4)
  }

  // ---------------------------------------------------------------- writers

  /** Overwrites two octets of the buffer. */
  function Patched(s: seq<byte>, at: nat, field: seq<byte>): (t: seq<byte>)
    requires |field| == 2 && at + 2 <= |s|
    ensures |t| == |s|
  {
    s[..at] + field + s[at + 2..]
  }

  method WriteRecordHeader(buf: ByteVec, name: seq<byte>, typ: u16, cls: u16, ttl: u32) returns (ok: bool)
    modifies buf
    ensures ok <==> Writable(name)
    ensures ok ==> buf.bytes == old(buf.bytes) + HeaderBytes(name, typ, cls, ttl)
  {
    hide Writable, NameBytes, BE;
    var written := WriteName(buf, name);
    if written.None? {
      return false;
    }
    buf.bytes := buf.bytes + BE(typ, 2);
    buf.bytes := buf.bytes + BE(cls, 2);
    buf.bytes := buf.bytes + BE(ttl, 4);
    return true;
  }

  /** A length field is patched where its placeholder was written. */
  lemma PatchedPlaceholder(pre: seq<byte>, field: seq<byte>, data: seq<byte>)
    requires |field| == 2
    ensures Patched(pre + [0, 0] + data, |pre|, field) == pre + field + data
  {
  }

  method WriteSoa(buf: ByteVec, name: seq<byte>, cls: u16, ttl: u32, mname: seq<byte>, rname: seq<byte>,
                  serial: u32, refresh: u32, retry: u32, expire: u32, minimum: u32) returns (ok: bool)
    modifies buf
    ensures ok <==> Writable(name) && Writable(mname) && Writable(rname)
    ensures ok ==>
              buf.bytes == old(buf.bytes)
                           + RecordBytes(name, Rr(TYPE_SOA, cls, ttl,
                                                  SoaData(mname, rname, serial, refresh, retry, expire, minimum)))
  {
    hide Writable, NameBytes, BE;
    ok := WriteRecordHeader(buf, name, TYPE_SOA, cls, ttl);
    if !ok {
      return false;
    }
    ghost var head := buf.bytes;
    var rdlenPos := |buf.bytes|;
    buf.bytes := buf.bytes + [0, 0];
    var written := WriteName(buf, mname);
    if written.None? {
      return false;
    }
    written := WriteName(buf, rname);
    if written.None? {
      return false;
    }
    buf.bytes := buf.bytes + BE(serial, 4);
    buf.bytes := buf.bytes + BE(refresh, 4);
    buf.bytes := buf.bytes + BE(retry, 4);
    buf.bytes := buf.bytes + BE(expire, 4);
    buf.bytes := buf.bytes + BE(minimum, 4);
    ghost var data := SoaData(mname, rname, serial, refresh, retry, expire, minimum);
    SoaAppended(head, NameBytes(mname), NameBytes(rname),
                BE(serial, 4), BE(refresh, 4), BE(retry, 4), BE(expire, 4), BE(minimum, 4));
    assert buf.bytes == head + [0, 0] + data;
    var rdlength := (|buf.bytes| - rdlenPos - 2) % 0x1_0000;
    PatchedPlaceholder(head, BE(rdlength, 2), data);
    buf.bytes := Patched(buf.bytes, rdlenPos, BE(rdlength, 2));
  }

  lemma SoaAppended(head: seq<byte>, m: seq<byte>, r: seq<byte>, a: seq<byte>, b: seq<byte>, c: seq<byte>,
                    d: seq<byte>, e: seq<byte>)
    ensures head + [0, 0] + m + r + a + b + c + d + e == head + [0, 0] + (m + r + a + b + c + d + e)
  {
  }

  method WriteA(buf: ByteVec, name: seq<byte>, cls: u16, ttl: u32, addr: Addr) returns (ok: bool)
    modifies buf
    ensures ok <==> addr.v == 4 && Writable(name)
    ensures ok ==> buf.bytes == old(buf.bytes) + RecordBytes(name, Rr(TYPE_A, cls, ttl, addr.data[..4]))
  {
    hide Writable, NameBytes, BE;
    if addr.v != 4 {
      return false;
    }
    ok := WriteRecordHeader(buf, name, TYPE_A, cls, ttl);
    if !ok {
      return false;
    }
    ghost var head := buf.bytes;
    var rdlenPos := |buf.bytes|;
    buf.bytes := buf.bytes + [0, 0];
    buf.bytes := buf.bytes + addr.data[..4];
    var rdlength := (|buf.bytes| - rdlenPos - 2) % 0x1_0000;
    PatchedPlaceholder(head, BE(rdlength, 2), addr.data[..4]);
    buf.bytes := Patched(buf.bytes, rdlenPos, BE(rdlength, 2));
  }

  method WriteAaaa(buf: ByteVec, name: seq<byte>, cls: u16, ttl: u32, addr: Addr) returns (ok: bool)
    modifies buf
    ensures ok <==> addr.v == 6 && Writable(name)
    ensures ok ==> buf.bytes == old(buf.bytes) + RecordBytes(name, Rr(TYPE_AAAA, cls, ttl, addr.data))
  {
    hide Writable, NameBytes, BE;
    if addr.v != 6 {
      return false;
    }
    ok := WriteRecordHeader(buf, name, TYPE_AAAA, cls, ttl);
    if !ok {
      return false;
    }
    ghost var head := buf.bytes;
    var rdlenPos := |buf.bytes|;
    buf.bytes := buf.bytes + [0, 0];
    buf.bytes := buf.bytes + addr.data[..16];
    var rdlength := (|buf.bytes| - rdlenPos - 2) % 0x1_0000;
    PatchedPlaceholder(head, BE(rdlength, 2), addr.data[..16]);
    buf.bytes := Patched(buf.bytes, rdlenPos, BE(rdlength, 2));
  }

  /** What `write_ns` appends: its length goes ten octets behind the record's start, whatever
      the owner name. */
  function NsBytes(name: seq<byte>, cls: u16, ttl: u32, ns: seq<byte>): (s: seq<byte>)
    requires Writable(name) && Writable(ns)
    ensures |s| == |name| + |ns| + 14
  {
    WrittenSize(ns);
    Patched(HeaderBytes(name, TYPE_NS, cls, ttl) + [0, 0] + NameBytes(ns), 10, BE(|NameBytes(ns)| % 0x1_0000, 2))
  }

  method WriteNs(buf: ByteVec, name: seq<byte>, cls: u16, ttl: u32, ns: seq<byte>) returns (ok: bool)
    modifies buf
    ensures ok <==> Writable(name) && Writable(ns)
    ensures ok ==> buf.bytes == old(buf.bytes) + NsBytes(name, cls, ttl, ns)
  {
    hide Writable, NameBytes, BE;
    var before := |buf.bytes|;
    ok := WriteRecordHeader(buf, name, TYPE_NS, cls, ttl);
    if !ok {
      return false;
    }
    buf.bytes := buf.bytes + [0, 0];
    var rdlenStart := |buf.bytes|;
    var written := WriteName(buf, ns);
    if written.None? {
      return false;
    }
    var rdlength := (|buf.bytes| - rdlenStart) % 0x1_0000;
    var rlpos := before + 10;
    ghost var appended := HeaderBytes(name, TYPE_NS, cls, ttl) + [0, 0] + NameBytes(ns);
    assert buf.bytes == old(buf.bytes) + appended;
    PatchedBehind(old(buf.bytes), appended, 10, BE(rdlength, 2));
    buf.bytes := Patched(buf.bytes, rlpos, BE(rdlength, 2));
  }

  lemma PatchedBehind(pre: seq<byte>, s: seq<byte>, at: nat, field: seq<byte>)
    requires |field| == 2 && at + 2 <= |s|
    ensures Patched(pre + s, |pre| + at, field) == pre + Patched(s, at, field)
  {
  }

  /** `write_ns` patches the true length field exactly for the empty owner name (and a host
      name whose length sixteen bits can hold); then the record is as it should be. */
  lemma NsPatchesItsLength(name: seq<byte>, cls: u16, ttl: u32, ns: seq<byte>)
    requires Writable(name) && Writable(ns)
    ensures FromBE(NsBytes(name, cls, ttl, ns)[|name| + 10..|name| + 12]) == |NameBytes(ns)|
            <==> name == [] && |ns| + 2 < 0x1_0000
    ensures name == [] ==> NsBytes(name, cls, ttl, ns) == RecordBytes(name, Rr(TYPE_NS, cls, ttl, NameBytes(ns)))
  {
    if name == [] {
      NsUnnamed(cls, ttl, ns);
    } else {
      NsNamed(name, cls, ttl, ns);
    }
  }

  lemma NsUnnamed(cls: u16, ttl: u32, ns: seq<byte>)
    requires Writable([]) && Writable(ns)
    ensures FromBE(NsBytes([], cls, ttl, ns)[10..12]) == |NameBytes(ns)| <==> |ns| + 2 < 0x1_0000
    ensures NsBytes([], cls, ttl, ns) == RecordBytes([], Rr(TYPE_NS, cls, ttl, NameBytes(ns)))
  {
    var field := BE(|NameBytes(ns)| % 0x1_0000, 2);
    var head := HeaderBytes([], TYPE_NS, cls, ttl);
    WrittenSize(ns);
    Pow256Values();
    FromBEOfBE(|NameBytes(ns)| % 0x1_0000, 2);
    hide Writable, NameBytes, BE, HeaderBytes, FromBE, Patched, Pow256;
    PatchedPlaceholder(head, field, NameBytes(ns));
    assert (head + field + NameBytes(ns))[10..12] == field;
  }

  lemma NsNamed(name: seq<byte>, cls: u16, ttl: u32, ns: seq<byte>)
    requires Writable(name) && Writable(ns) && name != []
    ensures FromBE(NsBytes(name, cls, ttl, ns)[|name| + 10..|name| + 12]) != |NameBytes(ns)|
  {
    var length := |NameBytes(ns)|;
    var head := HeaderBytes(name, TYPE_NS, cls, ttl);
    WrittenSize(ns);
    BE2(length % 0x1_0000);
    FromBE2(NsBytes(name, cls, ttl, ns)[|name| + 10..|name| + 12]);
    hide Writable, NameBytes, BE, HeaderBytes, FromBE, Patched;
    PatchedEarly(head, BE(length % 0x1_0000, 2), NameBytes(ns));
    NotItsOwnMultiple(length);
  }

  lemma PatchedEarly(head: seq<byte>, field: seq<byte>, data: seq<byte>)
    requires |field| == 2 && |head| > 10
    ensures Patched(head + [0, 0] + data, 10, field)[|head|..|head| + 2] == [if |head| == 11 then field[1] else 0, 0]
  {
  }

  lemma NotItsOwnMultiple(length: nat)
    requires length > 0
    ensures 256 * (length % 0x1_0000 % 256) != length
  {
  }

  // ---------------------------------------------------------------- reading

  /** The records one behind the other, each owned by the empty name. */
  function Listing(rrs: seq<Rr>): seq<byte> {
    if rrs == [] then [] else RecordBytes([], rrs[0]) + Listing(rrs[1..])
  }

  function ListingSize(rrs: seq<Rr>): nat {
    if rrs == [] then 0 else 12 + |rrs[0].data| + ListingSize(rrs[1..])
  }

  /** One record: the two octets of an empty owner name, the fields, and as much data as the
      length field says. */
  function ReadRr(data: seq<byte>, pos: nat): Option<Rr> {
    if pos + 12 > |data| || data[pos..pos + 2] != [0, 0] then None
    else
      var length := FromBE(data[pos + 10..pos + 12]);
      if pos + 12 + length > |data| then None
      else
        Some(Rr(Word(data[pos + 2], data[pos + 3]), Word(data[pos + 4], data[pos + 5]),
                FromBE4(data[pos + 6..pos + 10]), data[pos + 12..pos + 12 + length]))
  }

  function Word(hi: byte, lo: byte): u16 { 256 * (hi as int) + lo as int }

  function FromBE4(s: seq<byte>): (v: u32)
    requires |s| == 4
    ensures v == FromBE(s)
  {
    assert FromBE(s) == 256 * FromBE(s[..3]) + s[3];
    assert FromBE(s[..3]) == 256 * FromBE(s[..3][..2]) + s[2];
    assert FromBE(s[..3][..2]) == 256 * FromBE(s[..3][..2][..1]) + s[1];
    assert FromBE(s[..3][..2][..1]) == 256 * FromBE(s[..3][..2][..1][..0]) + s[0];
    FromBE(s)
  }

  /** Exactly `n` records that tile the data from `pos` to its end. */
  function ReadRrs(data: seq<byte>, pos: nat, n: nat): Option<seq<Rr>>
    decreases n
  {
    if n == 0 then
      if pos == |data| then Some([]) else None
    else
      match ReadRr(data, pos)
      case None => None
      case Some(rr) =>
        match ReadRrs(data, pos + 12 + |rr.data|, n - 1)
        case None => None
        case Some(rest) => Some([rr] + rest)
  }

  lemma {:induction false} ListingTiles(rrs: seq<Rr>)
    ensures |Listing(rrs)| == ListingSize(rrs)
  {
    if rrs != [] {
      ListingTiles(rrs[1..]);
    }
  }

  lemma {:induction false} ListingJoins(a: seq<Rr>, b: seq<Rr>)
    ensures Listing(a + b) == Listing(a) + Listing(b)
    ensures ListingSize(a + b) == ListingSize(a) + ListingSize(b)
  {
    hide *;
    if a == [] {
      assert a + b == b;
      ListingOfNone();
      assert Listing(a) + Listing(b) == Listing(b);
    } else {
      ListingStep(a);
      ListingStep(a + b);
      ListingJoins(a[1..], b);
      assert (a + b)[1..] == a[1..] + b;
      EmptyName([], [], 1);
      Associates(RecordBytes([], a[0]), Listing(a[1..]), Listing(b));
    }
  }

  lemma Associates(a: seq<byte>, b: seq<byte>, c: seq<byte>)
    ensures a + (b + c) == (a + b) + c
  {
  }

  lemma ListingOfNone()
    ensures Listing([]) == [] && ListingSize([]) == 0
  {
  }

  lemma ListingStep(rrs: seq<Rr>)
    requires rrs != []
    ensures Listing(rrs) == RecordBytes([], rrs[0]) + Listing(rrs[1..])
    ensures ListingSize(rrs) == 12 + |rrs[0].data| + ListingSize(rrs[1..])
  {
  }

  /** A record reads back field by field, and takes twelve octets more than its data. */
  lemma RecordReadBack(pre: seq<byte>, rr: Rr, post: seq<byte>)
    requires |rr.data| < 0x1_0000
    ensures ReadRr(pre + RecordBytes([], rr) + post, |pre|) == Some(rr)
  {
    var data := pre + RecordBytes([], rr) + post;
    var p := |pre|;
    EmptyName([], [], 1);
    var owner, typ, cls, ttl, len := NameBytes([]), BE(rr.typ, 2), BE(rr.cls, 2), BE(rr.ttl, 4), BE(|rr.data|, 2);
    Pow256Values();
    BE2(rr.typ);
    BE2(rr.cls);
    FromBEOfBE(rr.ttl, 4);
    FromBEOfBE(|rr.data|, 2);
    hide BE, FromBE, Writable, NameBytes, Pow256;
    assert RecordBytes([], rr) == owner + typ + cls + ttl + len + rr.data;
    FieldsPlaced(pre, owner, typ, cls, ttl, len, rr.data, post);
  }

  lemma FieldsPlaced(pre: seq<byte>, owner: seq<byte>, typ: seq<byte>, cls: seq<byte>, ttl: seq<byte>,
                     len: seq<byte>, rdata: seq<byte>, post: seq<byte>)
    requires |owner| == 2 && |typ| == 2 && |cls| == 2 && |ttl| == 4 && |len| == 2
    ensures var data, p := pre + (owner + typ + cls + ttl + len + rdata) + post, |pre|;
            && data[p..p + 2] == owner
            && data[p + 2] == typ[0] && data[p + 3] == typ[1]
            && data[p + 4] == cls[0] && data[p + 5] == cls[1]
            && data[p + 6..p + 10] == ttl
            && data[p + 10..p + 12] == len
            && data[p + 12..p + 12 + |rdata|] == rdata
  {
  }

  lemma {:induction false} ListingReadBack(pre: seq<byte>, rrs: seq<Rr>)
    requires forall i :: 0 <= i < |rrs| ==> |rrs[i].data| < 0x1_0000
    ensures ReadRrs(pre + Listing(rrs), |pre|, |rrs|) == Some(rrs)
    decreases |rrs|
  {
    hide RecordBytes, ReadRr;
    if rrs == [] {
      assert pre + Listing(rrs) == pre;
    } else {
      var one := RecordBytes([], rrs[0]);
      RecordReadBack(pre, rrs[0], Listing(rrs[1..]));
      ListingReadBack(pre + one, rrs[1..]);
      assert pre + Listing(rrs) == (pre + one) + Listing(rrs[1..]);
      assert pre + Listing(rrs) == pre + one + Listing(rrs[1..]);
      assert rrs == [rrs[0]] + rrs[1..];
    }
  }

  /** The data of a start of authority: two names and five numbers, each where the one before
      it ends. */
  ghost predicate ReadsAsSoa(data: seq<byte>, pos: nat, depth: nat, mname: seq<byte>, rname: seq<byte>,
                             numbers: seq<u32>, end: nat)
    requires |numbers| == 5
  {
    var first := Parse(data, pos, depth);
    && first.Name? && first.name == mname
    && var second := Parse(data, first.pos, depth);
       && second.Name? && second.name == rname
       && second.pos + 20 == end <= |data|
       && forall i :: 0 <= i < 5 ==> FromBE(data[second.pos + 4 * i..second.pos + 4 * i + 4]) == numbers[i]
  }

  lemma SoaReadBack(pre: seq<byte>, mname: seq<byte>, rname: seq<byte>, serial: u32, refresh: u32, retry: u32,
                    expire: u32, minimum: u32, post: seq<byte>, depth: nat)
    requires Writable(mname) && Writable(rname) && NoneEmpty(Split(mname)) && NoneEmpty(Split(rname)) && depth > 0
    ensures var data := SoaData(mname, rname, serial, refresh, retry, expire, minimum);
            ReadsAsSoa(pre + data + post, |pre|, depth, mname, rname, [serial, refresh, retry, expire, minimum],
                       |pre| + |data|)
  {
    hide Parse, NameBytes, Writable, NoneEmpty, Split, BE, FromBE, Pow256;
    var numbers := [serial, refresh, retry, expire, minimum];
    var m, r := NameBytes(mname), NameBytes(rname);
    var a, b, c, d, e := BE(serial, 4), BE(refresh, 4), BE(retry, 4), BE(expire, 4), BE(minimum, 4);
    NameRoundTrip(pre, mname, r + a + b + c + d + e + post, depth);
    NameRoundTrip(pre + m, rname, a + b + c + d + e + post, depth);
    Pow256Values();
    FromBEOfBE(serial, 4);
    FromBEOfBE(refresh, 4);
    FromBEOfBE(retry, 4);
    FromBEOfBE(expire, 4);
    FromBEOfBE(minimum, 4);
    SoaPlaced(pre, m, r, a, b, c, d, e, post);
  }

  lemma SoaPlaced(pre: seq<byte>, m: seq<byte>, r: seq<byte>, a: seq<byte>, b: seq<byte>, c: seq<byte>, d: seq<byte>,
                  e: seq<byte>, post: seq<byte>)
    requires |a| == 4 && |b| == 4 && |c| == 4 && |d| == 4 && |e| == 4
    ensures var s, p := pre + (m + r + a + b + c + d + e) + post, |pre| + |m| + |r|;
            && s == pre + m + (r + a + b + c + d + e + post)
            && s == (pre + m) + r + (a + b + c + d + e + post)
            && s[p..p + 4] == a && s[p + 4..p + 8] == b && s[p + 8..p + 12] == c
            && s[p + 12..p + 16] == d && s[p + 16..p + 20] == e
  {
  }
}
