/** Where a handshake ends and what single messages do to it, in plain values. */
module HandshakeEnds {
  import opened Bytes
  import opened Net
  import opened Serialize
  import opened Message
  import opened FrameDecoder
  import opened Handshake
  import opened HandshakeSafety

  // ---------------------------------------------------------------- where reading stops

  /** The peer is banned, or has acknowledged us and given addresses, if any were wanted. */
  predicate NothingMoreWanted(getAddr: bool, p: Peer) {
    p.ban > 0 || (p.verackReceived && (p.addresses != [] || !getAddr))
  }

  ghost predicate StopsRightly(app: AppState, getAddr: bool, chunks: seq<seq<byte>>, buf: seq<byte>, p: Peer, why: Why) {
    var s := Receive(app, getAddr, chunks, buf, p, why);
    && (forall i :: 0 <= i < s.read ==> chunks[i] != [])
    && (s.read < |chunks| && chunks[s.read] != [] ==> s.read > 0 && NothingMoreWanted(getAddr, s.peer))
    && (forall k :: 0 < k < s.read ==>
          var t := Receive(app, getAddr, chunks[..k], buf, p, why);
          t.read == k && !NothingMoreWanted(getAddr, t.peer))
  }

  lemma {:induction false} ReceiveStopsRightly(app: AppState, getAddr: bool, chunks: seq<seq<byte>>, buf: seq<byte>,
                                               p: Peer, why: Why)
    ensures StopsRightly(app, getAddr, chunks, buf, p, why)
    decreases |chunks|
  {
    hide Drain, Receive, NothingMoreWanted;
    if chunks == [] || chunks[0] == [] {
      ReceiveNothing(app, getAddr, chunks, buf, p, why);
    } else {
      ReceiveStep(app, getAddr, chunks, buf, p, why);
      var d := Drain(app, getAddr, buf + chunks[0], p);
      if !NothingMoreWanted(getAddr, d.peer) {
        ReceiveStopsRightly(app, getAddr, chunks[1..], d.buf, d.peer, d.why);
        var s := Receive(app, getAddr, chunks, buf, p, why);
        forall k | 0 < k < s.read
          ensures var t := Receive(app, getAddr, chunks[..k], buf, p, why);
                  t.read == k && !NothingMoreWanted(getAddr, t.peer)
        {
          assert chunks[..k][1..] == chunks[1..][..k - 1] && chunks[..k][0] == chunks[0];
          ReceiveStep(app, getAddr, chunks[..k], buf, p, why);
          if k == 1 {
            assert chunks[..1][1..] == [];
            ReceiveNothing(app, getAddr, [], d.buf, d.peer, d.why);
          }
        }
      }
    }
  }

  lemma ReceiveNothing(app: AppState, getAddr: bool, chunks: seq<seq<byte>>, buf: seq<byte>, p: Peer, why: Why)
    requires chunks == [] || chunks[0] == []
    ensures Receive(app, getAddr, chunks, buf, p, why) == Session(buf, p, [], 0, why)
  {
  }

  lemma ReceiveStep(app: AppState, getAddr: bool, chunks: seq<seq<byte>>, buf: seq<byte>, p: Peer, why: Why)
    requires chunks != [] && chunks[0] != []
    ensures var d := Drain(app, getAddr, buf + chunks[0], p);
            var s := Receive(app, getAddr, chunks, buf, p, why);
            if NothingMoreWanted(getAddr, d.peer) then s == Session(d.buf, d.peer, d.msgs, 1, d.why)
            else
              var rest := Receive(app, getAddr, chunks[1..], d.buf, d.peer, d.why);
              s.buf == rest.buf && s.peer == rest.peer && s.why == rest.why && s.read == rest.read + 1
  {
    hide Drain;
  }

  /** A handshake reads on until the stream ends or nothing more is wanted of the peer, and not
      one read longer: if a read was left over, the peer is banned, or has acknowledged and given
      addresses if any were wanted; and after no smaller number of reads was that so. */
  lemma HandshakeStopsExactly(app: AppState, getAddr: bool, chunks: seq<seq<byte>>)
    ensures var s := Receive(app, getAddr, chunks, [], NEW_PEER, Hungry);
            && (s.read < |chunks| && chunks[s.read] != [] ==>
                  s.peer.ban > 0 || (s.peer.verackReceived && (s.peer.addresses != [] || !getAddr)))
            && (forall i :: 0 <= i < s.read ==> chunks[i] != [])
            && (forall k :: 0 < k < s.read ==>
                  var t := Receive(app, getAddr, chunks[..k], [], NEW_PEER, Hungry);
                  t.read == k
                  && !(t.peer.ban > 0 || (t.peer.verackReceived && (t.peer.addresses != [] || !getAddr))))
  {
    ReceiveStopsRightly(app, getAddr, chunks, [], NEW_PEER, Hungry);
    hide Receive;
  }

  /** A message after which the inner loop waits for the next read. */
  predicate BreaksOff(msg: Item) {
    msg.Msg? && (msg.command == [97, 100, 100, 114]
                 || (msg.command == [118, 101, 114, 115, 105, 111, 110] && |msg.payload| < 4))
  }

  /** An inner loop breaks off behind its first message `addr`, or `version` of less than four
      octets, and behind no other; and an invalid header bans for 100000 seconds. */
  lemma {:induction false} LoopBreaksOffExactly(app: AppState, getAddr: bool, buf: seq<byte>, p: Peer)
    ensures var d := Drain(app, getAddr, buf, p);
            && (forall i :: 0 <= i < |d.msgs| - 1 ==> !BreaksOff(d.msgs[i]))
            && (d.why == Paused <==> d.msgs != [] && BreaksOff(d.msgs[|d.msgs| - 1]))
            && (d.why == Broken ==> d.peer.ban == 100000)
            && (d.why != Broken ==> d.peer.ban == p.ban)
    decreases |buf|
  {
    hide PullFrame, Decoded;
    PullAgrees(app, buf, []);
    match PullFrame(app, buf)
    case Starved(kept) =>
    case Corrupt(kept) =>
    case Skipped(rest) => LoopBreaksOffExactly(app, getAddr, rest, p);
    case Pulled(msg, rest) =>
      PulledIsMessage(app, buf);
      BanUntouched(app, getAddr, p, msg);
      hide Apply;
      LoopBreaksOffExactly(app, getAddr, rest, Apply(app, getAddr, p, msg));
  }

  lemma PulledIsMessage(app: AppState, buf: seq<byte>)
    ensures PullFrame(app, buf).Pulled? ==> PullFrame(app, buf).msg.Msg?
  {
  }

  lemma BanUntouched(app: AppState, getAddr: bool, p: Peer, msg: Item)
    ensures Apply(app, getAddr, p, msg).ban == p.ban
  {
    hide ReadVarstr, ReadAddresses, NewHeader, ReadVarint;
  }

  // ---------------------------------------------------------------- invalid headers

  /** Four octets as a little-endian number. */
  function Number(a: byte, b: byte, c: byte, d: byte): nat {
    (a as int) + 0x100 * (b as int) + 0x1_0000 * (c as int) + 0x100_0000 * (d as int)
  }

  lemma FromLE4(s: seq<byte>)
    requires |s| == 4
    ensures FromLE(s) == Number(s[0], s[1], s[2], s[3])
  {
    assert s[1..][1..] == s[2..] && s[2..][1..] == s[3..] && s[3..][1..] == [];
    assert FromLE(s) == s[0] as int + 256 * FromLE(s[1..]);
    assert FromLE(s[1..]) == s[1] as int + 256 * FromLE(s[2..]);
    assert FromLE(s[2..]) == s[2] as int + 256 * FromLE(s[3..]);
    assert FromLE(s[3..]) == s[3] as int + 256 * FromLE([]);
  }

  /** Exactly which headers end a handshake in a ban: those with an octet in the command that is
      neither zero nor printable ASCII, or with a payload of more than 2^25 octets. */
  lemma InvalidHeadersExactly(app: AppState, s: seq<byte>)
    requires |s| >= 24 && s[0..4] == app.messageStart
    ensures PullFrame(app, s).Corrupt?
            <==> (exists j :: 4 <= j < 16 && s[j] != 0 && (s[j] < 32 || s[j] > 126))
                 || Number(s[16], s[17], s[18], s[19]) > 33554432
  {
    FirstHeaderIs(app.messageStart, s, 0, 0);
    assert s[0..] == s;
    var h := HeaderOf(s);
    var front := s[..24];
    assert front[4..16] == s[4..16] && front[16..20] == s[16..20] && front[0..4] == s[0..4];
    FromLE4(s[16..20]);
    hide FromLE, FirstHeader;
    assert forall j :: 4 <= j < 16 ==> h.command[j - 4] == s[j];
    assert forall i :: 0 <= i < 12 ==> h.command[i] == s[i + 4];
  }

  /** What a starved round keeps: the last 23 octets if there is no header, and less than one frame
      of 24 octets and 32 MiB if there is. */
  lemma StarvedKeepsLittle(app: AppState, buf: seq<byte>)
    requires PullFrame(app, buf).Starved?
    ensures var kept := PullFrame(app, buf).kept;
            && |kept| <= |buf| && kept == buf[|buf| - |kept|..] && |kept| < 24 + 0x0200_0000
            && ((forall i: nat :: !HeaderAt(app.messageStart, buf, i)) ==>
                  |kept| == if |buf| < 23 then |buf| else 23)
  {
    match FirstHeader(app.messageStart, buf, 0)
    case None =>
    case Some(i) =>
      assert HeaderAt(app.messageStart, buf, i);
      assert HeaderOf(buf[i..]).IsValid(app);
      assert buf[i..] == buf[|buf| - |buf[i..]|..];
  }

  /** An inner loop that goes hungry leaves less than one frame in the buffer, whatever was read. */
  lemma {:induction false} BufferIsBounded(app: AppState, getAddr: bool, buf: seq<byte>, p: Peer)
    ensures var d := Drain(app, getAddr, buf, p);
            d.why == Hungry ==> |d.buf| < 24 + 0x0200_0000
    decreases |buf|
  {
    hide PullFrame, Apply, Pauses, Decoded;
    PullAgrees(app, buf, []);
    match PullFrame(app, buf)
    case Starved(_) => StarvedKeepsLittle(app, buf);
    case Corrupt(_) =>
    case Skipped(rest) => BufferIsBounded(app, getAddr, rest, p);
    case Pulled(msg, rest) =>
      if !Pauses(msg) {
        BufferIsBounded(app, getAddr, rest, Apply(app, getAddr, p, msg));
      }
  }

  // ---------------------------------------------------------------- single messages

  /** What a version message does, by the length of its payload: nothing below four octets, the
      protocol version from four on, the services from twelve on; and from four on it is
      acknowledged, and addresses are asked for if they are wanted. */
  lemma VersionByLength(app: AppState, getAddr: bool, p: Peer, payload: seq<byte>)
    ensures var q := Apply(app, getAddr, p, Msg([118, 101, 114, 115, 105, 111, 110], payload));
            && (|payload| < 4 ==> q == p)
            && (|payload| >= 4 ==>
                  && q.version == AsI32(Number(payload[0], payload[1], payload[2], payload[3]) % 0x1_0000_0000)
                  && q.sent == p.sent + NewHeader(app, [118, 101, 114, 97, 99, 107], 0).Serialize()
                               + if getAddr then NewHeader(app, [103, 101, 116, 97, 100, 100, 114], 0).Serialize() else [])
            && (4 <= |payload| < 12 ==> q.services == p.services)
            && (4 <= |payload| <= 80 ==> q.subVersion == p.subVersion)
            && (4 <= |payload| < 84 ==> q.height == p.height)
            && q.verackReceived == p.verackReceived && q.addresses == p.addresses && q.ban == p.ban
  {
    if |payload| >= 4 {
      FromLE4(payload[0..4]);
      hide FromLE, NewHeader, ValidUtf8;
      AgentBehind80(payload);
      hide ReadVarstr;
    }
  }

  /** Where a version message's other fields come from: the services from octet 4, the user agent
      from octet 80 if it can be read there, and the height from where its reading left off. */
  lemma VersionFields(app: AppState, getAddr: bool, p: Peer, payload: seq<byte>)
    requires |payload| >= 4
    ensures var q := Apply(app, getAddr, p, Msg([118, 101, 114, 115, 105, 111, 110], payload));
            var agent := ReadVarstr(payload, 80);
            && (|payload| >= 12 ==> LE(q.services, 8) == payload[4..12])
            && q.subVersion == (if agent.value.Some? then agent.value.value else p.subVersion)
            && (if agent.pos + 4 <= |payload| then LE(AsU32(q.height), 4) == payload[agent.pos..agent.pos + 4]
                else q.height == p.height)
  {
    if |payload| >= 12 {
      LEOfFromLE(payload[4..12]);
    }
    var agent := ReadVarstr(payload, 80);
    if agent.pos + 4 <= |payload| {
      LEOfFromLE(payload[agent.pos..agent.pos + 4]);
    }
    hide LE, FromLE, NewHeader, ReadVarstr;
  }

  lemma AgentBehind80(payload: seq<byte>)
    ensures var r := ReadVarstr(payload, 80);
            r.pos >= 80 && (|payload| <= 80 ==> r.value.None?)
  {
    hide ValidUtf8, FromLE;
  }

  /** An acknowledgement is noted, and an unknown message changes nothing. */
  lemma OtherMessages(app: AppState, getAddr: bool, p: Peer, command: seq<byte>, payload: seq<byte>)
    ensures Apply(app, getAddr, p, Msg([118, 101, 114, 97, 99, 107], payload)) == p.(verackReceived := true)
    ensures command !in {[118, 101, 114, 115, 105, 111, 110], [118, 101, 114, 97, 99, 107], [97, 100, 100, 114]}
            ==> Apply(app, getAddr, p, Msg(command, payload)) == p
  {
    assert [118, 101, 114, 97, 99, 107] != VERSION by { assert |VERSION| == 7; }
    hide OnVersion, OnAddr;
  }

  // ---------------------------------------------------------------- addresses

  /** Exactly when an address can be read: when its octets are there, 30 with a time field and 26
      without; and what is read from which of them. */
  lemma AddressNeedsItsOctets(app: AppState, data: seq<byte>, pos: nat, version: u32)
    ensures var timed := version >= app.caddrTimeVersion;
            var at := if timed then pos + 4 else pos;
            var r := ReadAddress(app, data, pos, version, app.caddrTimeVersion).value;
            && (r.Some? <==> at + 26 <= |data|)
            && (r.Some? ==>
                  && (if timed then LE(r.value.time, 4) == data[pos..at] else r.value.time == 100000000)
                  && LE(r.value.services, 8) == data[at..at + 8] && r.value.addr.ip == data[at + 8..at + 24]
                  && r.value.port == 256 * (data[at + 24] as int) + data[at + 25] as int)
  {
    var timed := version >= app.caddrTimeVersion;
    var at := if timed then pos + 4 else pos;
    if at + 26 <= |data| {
      if timed {
        LEOfFromLE(data[pos..at]);
      }
      LEOfFromLE(data[at..at + 8]);
      FromBE2(data[at + 24..at + 26]);
    }
    hide FromLE, FromBE, LE;
  }

  lemma {:induction false} SomeAddressesRead(app: AppState, pre: seq<byte>, addrs: seq<Address>, rest: seq<byte>,
                                             version: u32, n: nat)
    requires !(app.caddrTimeVersion == 0 && version == app.initVersion)
    requires |rest| < if version >= app.caddrTimeVersion then 30 else 26
    ensures ReadAddresses(app, pre + AddressesBytes(app, addrs, version) + rest, |pre|, version, n)
            == SeenAll(app, addrs[..if n < |addrs| then n else |addrs|], version)
    decreases n
  {
    hide AddressBytes, ReadAddress, Seen;
    var data := pre + AddressesBytes(app, addrs, version) + rest;
    AddressNeedsItsOctets(app, data, |pre|, version);
    if n > 0 && addrs != [] {
      var first, more := AddressBytes(app, addrs[0], version), AddressesBytes(app, addrs[1..], version);
      assert data == pre + first + (more + rest);
      AddressRoundTrip(app, pre, addrs[0], version, more + rest);
      assert data == (pre + first) + more + rest;
      SomeAddressesRead(app, pre + first, addrs[1..], rest, version, n - 1);
      var k := if n < |addrs| then n else |addrs|;
      assert addrs[..k][0] == addrs[0];
      assert addrs[..k][1..] == addrs[1..][..k - 1];
      SeenFirst(app, addrs[0], version);
    } else {
      assert addrs[..0] == [];
    }
  }

  lemma SeenFirst(app: AppState, a: Address, version: u32)
    ensures Seen(app, a, version) == if WriterIncludesTime(app, version) then a else a.(time := DEFAULT_TIME)
  {
  }

  /** An address message claiming any number of addresses and holding some, with less than one
      more behind them: taken over are the first of them, as many as claimed, and at most a
      thousand. */
  lemma AddrMessageTakes(app: AppState, getAddr: bool, p: Peer, claimed: u64, addrs: seq<Address>, rest: seq<byte>)
    requires !(app.caddrTimeVersion == 0 && AsU32(p.version) == app.initVersion)
    requires |rest| < if AsU32(p.version) >= app.caddrTimeVersion then 30 else 26
    ensures var version := AsU32(p.version);
            var most := if claimed < 1000 then claimed else 1000;
            Apply(app, getAddr, p, Msg([97, 100, 100, 114], Varint(claimed) + AddressesBytes(app, addrs, version) + rest))
            == p.(addresses := p.addresses + SeenAll(app, addrs[..if most < |addrs| then most else |addrs|], version))
  {
    hide ReadAddresses, AddressesBytes, SeenAll, Varint, ReadVarint;
    var version := AsU32(p.version);
    var list := AddressesBytes(app, addrs, version);
    var payload := Varint(claimed) + list + rest;
    VarintRoundTrip([], claimed, list + rest);
    assert [] + Varint(claimed) + (list + rest) == payload;
    SomeAddressesRead(app, Varint(claimed), addrs, rest, version, if claimed < 1000 then claimed else 1000);
    assert [97, 100, 100, 114] != VERSION by { assert |VERSION| == 7; }
    assert [97, 100, 100, 114] != VERACK by { assert |VERACK| == 6; }
  }
}
