/** How the bytes were cut into reads does not matter, and what one side frames the other reads. */
module HandshakeSafety {
  import opened Bytes
  import opened Net
  import opened Serialize
  import opened Message
  import opened FrameDecoder
  import opened Handshake

  // ---------------------------------------------------------------- chunking

  /** What one inner loop promises: with any bytes `c` still to come, what it acted on followed
      by what the rest decodes to is what the whole buffer decodes to. */
  ghost predicate DrainSound(app: AppState, getAddr: bool, buf: seq<byte>, p: Peer, c: seq<byte>, d: Drained) {
    && d.msgs + Decoded(app, d.buf + c) == Decoded(app, buf + c)
    && d.peer == (if d.why == Broken then ApplyAll(app, getAddr, p, d.msgs).(ban := GARBAGE_BAN)
                  else ApplyAll(app, getAddr, p, d.msgs))
    && (d.why == Hungry ==> Decoded(app, d.buf) == [])
    && (d.why == Broken ==> Decoded(app, d.buf + c) == [Garbage])
    && (d.why == Paused ==> d.msgs != [] && Pauses(d.msgs[|d.msgs| - 1]))
    && (forall m :: m in d.msgs ==> m.Msg?)
    && (forall i :: 0 <= i < |d.msgs| - 1 ==> !Pauses(d.msgs[i]))
  }

  lemma {:induction false} DrainAgrees(app: AppState, getAddr: bool, buf: seq<byte>, p: Peer, c: seq<byte>)
    ensures DrainSound(app, getAddr, buf, p, c, Drain(app, getAddr, buf, p))
    decreases |buf|
  {
    hide Apply, Decoded, PullFrame, Pauses;
    PullAgrees(app, buf, c);
    PullAgrees(app, buf, []);
    match PullFrame(app, buf)
    case Starved(kept) =>
    case Corrupt(kept) =>
    case Skipped(rest) => DrainAgrees(app, getAddr, rest, p, c);
    case Pulled(msg, rest) =>
      var q := Apply(app, getAddr, p, msg);
      if Pauses(msg) {
        OneApplied(app, getAddr, p, msg);
      } else {
        DrainAgrees(app, getAddr, rest, q, c);
        var d := Drain(app, getAddr, rest, q);
        assert ([msg] + d.msgs)[1..] == d.msgs;
        assert ([msg] + d.msgs) + Decoded(app, d.buf + c) == [msg] + (d.msgs + Decoded(app, d.buf + c));
      }
  }

  lemma OneApplied(app: AppState, getAddr: bool, p: Peer, msg: Item)
    ensures ApplyAll(app, getAddr, p, [msg]) == Apply(app, getAddr, p, msg)
  {
    hide Apply;
    assert [msg][1..] == [];
  }

  lemma {:induction false} ApplyAllJoins(app: AppState, getAddr: bool, p: Peer, a: seq<Item>, b: seq<Item>)
    ensures ApplyAll(app, getAddr, p, a + b) == ApplyAll(app, getAddr, ApplyAll(app, getAddr, p, a), b)
    decreases |a|
  {
    hide Apply;
    if a == [] {
      assert a + b == b;
    } else {
      assert (a + b)[0] == a[0] && (a + b)[1..] == a[1..] + b;
      ApplyAllJoins(app, getAddr, Apply(app, getAddr, p, a[0]), a[1..], b);
    }
  }

  /** What a session promises about the bytes read, for any bytes `c` still to come, when it
      starts with `buf` left over by an inner loop that ended for the reason `why`. */
  ghost predicate SessionSound(app: AppState, getAddr: bool, read: seq<byte>, p: Peer, c: seq<byte>, s: Session) {
    && s.msgs + Decoded(app, s.buf + c) == Decoded(app, read + c)
    && s.peer == (if s.why == Broken then ApplyAll(app, getAddr, p, s.msgs).(ban := GARBAGE_BAN)
                  else ApplyAll(app, getAddr, p, s.msgs))
    && (s.why == Hungry ==> Decoded(app, s.buf) == [])
    && (s.why == Broken ==> Decoded(app, s.buf + c) == [Garbage])
    && (s.why == Paused && s.read > 0 ==> s.msgs != [] && Pauses(s.msgs[|s.msgs| - 1]))
    && (s.read == 0 ==> s.msgs == [])
    && (forall m :: m in s.msgs ==> m.Msg?)
  }

  lemma SessionExtended(app: AppState, getAddr: bool, buf: seq<byte>, p: Peer, c: seq<byte>,
                        d: Drained, read: seq<byte>, s: Session)
    requires DrainSound(app, getAddr, buf, p, read + c, d) && d.why != Broken
    requires SessionSound(app, getAddr, d.buf + read, d.peer, c, s)
    requires s.read == 0 ==> s.why == d.why
    ensures SessionSound(app, getAddr, buf + read, p, c, s.(msgs := d.msgs + s.msgs, read := s.read + 1))
  {
    hide ApplyAll, Decoded, Pauses;
    ApplyAllJoins(app, getAddr, p, d.msgs, s.msgs);
    assert (d.buf + read) + c == d.buf + (read + c);
    assert (buf + read) + c == buf + (read + c);
    assert (d.msgs + s.msgs) + Decoded(app, s.buf + c) == d.msgs + (s.msgs + Decoded(app, s.buf + c));
    assert d.msgs + [] == d.msgs;
  }

  lemma {:induction false} ReceiveAgrees(app: AppState, getAddr: bool, chunks: seq<seq<byte>>, buf: seq<byte>,
                                         p: Peer, why: Why, c: seq<byte>)
    requires why != Broken && (why == Hungry ==> Decoded(app, buf) == [])
    ensures var s := Receive(app, getAddr, chunks, buf, p, why);
            SessionSound(app, getAddr, buf + Joined(chunks[..s.read]), p, c, s)
    ensures var s := Receive(app, getAddr, chunks, buf, p, why); s.read == 0 ==> s.why == why
    decreases |chunks|
  {
    hide ApplyAll, Decoded, Pauses, Drain;
    var s := Receive(app, getAddr, chunks, buf, p, why);
    if chunks == [] || chunks[0] == [] {
      assert buf + [] == buf;
      NothingApplied(app, getAddr, p);
    } else {
      var d := Drain(app, getAddr, buf + chunks[0], p);
      if Finished(getAddr, d.peer) {
        DrainAgrees(app, getAddr, buf + chunks[0], p, c);
        assert Joined(chunks[..1]) == chunks[0] by { JoinedFront(chunks, 1); }
      } else {
        var t := Receive(app, getAddr, chunks[1..], d.buf, d.peer, d.why);
        var read := Joined(chunks[1..][..t.read]);
        DrainAgrees(app, getAddr, buf + chunks[0], p, read + c);
        ReceiveAgrees(app, getAddr, chunks[1..], d.buf, d.peer, d.why, c);
        SessionExtended(app, getAddr, buf + chunks[0], p, c, d, read, t);
        JoinedFront(chunks, t.read + 1);
        assert (buf + chunks[0]) + read == buf + (chunks[0] + read);
      }
    }
  }

  lemma NothingApplied(app: AppState, getAddr: bool, p: Peer)
    ensures ApplyAll(app, getAddr, p, []) == p
  {
  }

  lemma JoinedFront(chunks: seq<seq<byte>>, n: nat)
    requires 0 < n <= |chunks|
    ensures Joined(chunks[..n]) == chunks[0] + Joined(chunks[1..][..n - 1])
  {
    assert chunks[..n][0] == chunks[0] && chunks[..n][1..] == chunks[1..][..n - 1];
  }

  lemma {:induction false} JoinedSplit(chunks: seq<seq<byte>>, n: nat)
    requires n <= |chunks|
    ensures Joined(chunks) == Joined(chunks[..n]) + Joined(chunks[n..])
  {
    if n == 0 {
      assert chunks[0..] == chunks;
    } else {
      JoinedSplit(chunks[1..], n - 1);
      JoinedFront(chunks, n);
      assert chunks[1..][n - 1..] == chunks[n..];
    }
  }

  /** Chunking independence. However a stream is cut into reads, the messages acted on,
      followed by a reference decoding of the buffer, are the reference decoding of all bytes
      received, now and with any bytes `c` still to come; and the peer is what those messages
      make of it. When the last inner loop ran dry nothing is outstanding; when it met an
      invalid header, that is what comes next; otherwise it paused behind its last message. */
  lemma ChunkingIndependence(app: AppState, getAddr: bool, chunks: seq<seq<byte>>, c: seq<byte>)
    ensures var s := Receive(app, getAddr, chunks, [], NEW_PEER, Hungry);
            var received := Joined(chunks[..s.read]);
            && s.msgs + Decoded(app, s.buf + c) == Decoded(app, received + c)
            && (s.why != Broken ==> s.peer == ApplyAll(app, getAddr, NEW_PEER, s.msgs))
            && (s.why == Broken ==> s.peer == ApplyAll(app, getAddr, NEW_PEER, s.msgs).(ban := GARBAGE_BAN))
            && (s.why == Hungry ==> Decoded(app, received) == s.msgs)
            && (s.why == Broken ==> Decoded(app, received + c) == s.msgs + [Garbage])
            && (s.why == Paused ==> s.msgs != [] && Pauses(s.msgs[|s.msgs| - 1]))
  {
    NothingDecoded(app);
    hide ApplyAll, Pauses, Receive, Joined, Decoded;
    var s := Receive(app, getAddr, chunks, [], NEW_PEER, Hungry);
    var received := Joined(chunks[..s.read]);
    assert [] + received == received;
    ReceiveAgrees(app, getAddr, chunks, [], NEW_PEER, Hungry, c);
    if s.why == Hungry {
      ReceiveAgrees(app, getAddr, chunks, [], NEW_PEER, Hungry, []);
      assert received + [] == received && s.buf + [] == s.buf && s.msgs + [] == s.msgs;
    }
  }

  lemma NothingDecoded(app: AppState)
    ensures Decoded(app, []) == []
  {
  }

  /** Two ways of cutting one stream act on the same messages in the same order, one of them
      perhaps on fewer; acting on equally many, they learn the same of the peer. */
  lemma TwoChunkings(app: AppState, getAddr: bool, a: seq<seq<byte>>, b: seq<seq<byte>>)
    requires Joined(a) == Joined(b)
    ensures var s := Receive(app, getAddr, a, [], NEW_PEER, Hungry);
            var t := Receive(app, getAddr, b, [], NEW_PEER, Hungry);
            && s.msgs <= Decoded(app, Joined(a)) && t.msgs <= Decoded(app, Joined(a))
            && (s.msgs <= t.msgs || t.msgs <= s.msgs)
            && (|s.msgs| == |t.msgs| ==> s.peer.(ban := 0) == t.peer.(ban := 0))
            && (s.why == t.why == Hungry && s.read == |a| && t.read == |b| ==> s.peer == t.peer)
  {
    hide ApplyAll, Pauses, Receive, Decoded, Joined;
    var s := Receive(app, getAddr, a, [], NEW_PEER, Hungry);
    var t := Receive(app, getAddr, b, [], NEW_PEER, Hungry);
    SessionReadsStream(app, getAddr, a);
    SessionReadsStream(app, getAddr, b);
    CommonPrefixes(s.msgs, t.msgs, Decoded(app, Joined(a)));
    NoBanFromMessages(app, getAddr, NEW_PEER, s.msgs);
    NoBanFromMessages(app, getAddr, NEW_PEER, t.msgs);
  }

  /** One session against the whole stream it was cut from. */
  lemma SessionReadsStream(app: AppState, getAddr: bool, a: seq<seq<byte>>)
    ensures var s := Receive(app, getAddr, a, [], NEW_PEER, Hungry);
            && s.msgs <= Decoded(app, Joined(a))
            && s.peer.(ban := 0) == ApplyAll(app, getAddr, NEW_PEER, s.msgs).(ban := 0)
            && (s.why != Broken ==> s.peer == ApplyAll(app, getAddr, NEW_PEER, s.msgs))
            && (s.why == Hungry && s.read == |a| ==> s.msgs == Decoded(app, Joined(a)))
  {
    hide ApplyAll, Pauses, Receive, Decoded, Joined;
    var s := Receive(app, getAddr, a, [], NEW_PEER, Hungry);
    JoinedSplit(a, s.read);
    ChunkingIndependence(app, getAddr, a, Joined(a[s.read..]));
    assert s.read == |a| ==> a[..s.read] == a;
  }

  lemma CommonPrefixes<T>(s: seq<T>, t: seq<T>, all: seq<T>)
    requires s <= all && t <= all
    ensures s <= t || t <= s
    ensures |s| == |t| ==> s == t
  {
    assert s == all[..|s|] && t == all[..|t|];
    if |s| <= |t| {
      assert s == t[..|s|];
    } else {
      assert t == s[..|t|];
    }
  }

  lemma {:induction false} NoBanFromMessages(app: AppState, getAddr: bool, p: Peer, msgs: seq<Item>)
    ensures ApplyAll(app, getAddr, p, msgs).ban == p.ban
    decreases |msgs|
  {
    if msgs != [] {
      hide ReadVarstr, ReadAddresses, ReadVarint;
      NoBanFromMessages(app, getAddr, Apply(app, getAddr, p, msgs[0]), msgs[1..]);
    }
  }

  // ---------------------------------------------------------------- sending and receiving

  /** A message the sender of this protocol may frame. */
  predicate Sendable(m: Item) {
    && m.Msg?
    && |m.command| <= COMMAND_SIZE && (forall i :: 0 <= i < |m.command| ==> 0x20 <= m.command[i] <= 0x7e)
    && |m.payload| <= MAX_SIZE
  }

  function Framed(app: AppState, m: Item): seq<byte>
    requires Sendable(m)
  {
    NewHeader(app, m.command, |m.payload|).WithChecksum(app, m.payload).Serialize() + m.payload
  }

  function FramedAll(app: AppState, msgs: seq<Item>): seq<byte>
    requires forall m :: m in msgs ==> Sendable(m)
  {
    if msgs == [] then [] else Framed(app, msgs[0]) + FramedAll(app, msgs[1..])
  }

  lemma FrontFrame(app: AppState, m: Item, post: seq<byte>)
    requires Sendable(m)
    ensures Decoded(app, Framed(app, m) + post) == [m] + Decoded(app, post)
  {
    hide ValidUtf8;
    var h := NewHeader(app, m.command, |m.payload|).WithChecksum(app, m.payload);
    var b := Framed(app, m) + post;
    HeaderRoundTrip(h, []);
    assert b[..HEADER_SIZE] == h.Serialize() + [];
    assert HeaderOf(b) == h;
    assert b[0..4] == app.messageStart by { assert h.Serialize()[0..4] == app.messageStart; }
    FirstHeaderIs(app.messageStart, b, 0, 0);
    assert b[0..] == b;
    assert 0 !in m.command;
    CommandRoundTrip(app, m.command, |m.payload|);
    assert h.CommandStr() == m.command;
    assert m.command[..|m.command|] == m.command;
    assert h.IsValid(app);
    assert PayloadOf(b) == m.payload;
    assert b[FrameSize(b)..] == post;
  }

  lemma {:induction false} FramesReadBack(app: AppState, msgs: seq<Item>, post: seq<byte>)
    requires forall m :: m in msgs ==> Sendable(m)
    ensures Decoded(app, FramedAll(app, msgs) + post) == msgs + Decoded(app, post)
    decreases |msgs|
  {
    hide Decoded, Framed;
    if msgs == [] {
      assert [] + post == post;
    } else {
      FramesReadBack(app, msgs[1..], post);
      FrontFrame(app, msgs[0], FramedAll(app, msgs[1..]) + post);
      assert FramedAll(app, msgs) + post == Framed(app, msgs[0]) + (FramedAll(app, msgs[1..]) + post);
    }
  }

  /** Message round trip: behind junk that shows no magic of its own, any framed messages
      decode to themselves, and decoding goes on with whatever follows. */
  lemma MessageRoundTrip(app: AppState, junk: seq<byte>, msgs: seq<Item>, post: seq<byte>)
    requires forall m :: m in msgs ==> Sendable(m)
    requires forall i :: 0 <= i < |junk| ==> !HeaderAt(app.messageStart, junk + FramedAll(app, msgs) + post, i)
    ensures Decoded(app, junk + FramedAll(app, msgs) + post) == msgs + Decoded(app, post)
  {
    hide Decoded, HeaderAt, FramedAll, Sendable;
    var b := junk + FramedAll(app, msgs) + post;
    DropBeforeHeader(app, b, |junk|);
    assert b[|junk|..] == FramedAll(app, msgs) + post;
    FramesReadBack(app, msgs, post);
  }

  /** A message sent without its checksum, as `verack` and `getaddr` are, is skipped by a
      reader of this protocol exactly when the checksum of nothing is not all zeros. */
  lemma UncheckedIsSkipped(app: AppState, command: seq<byte>, post: seq<byte>)
    requires |command| <= COMMAND_SIZE && (forall i :: 0 <= i < |command| ==> 0x20 <= command[i] <= 0x7e)
    ensures var b := NewHeader(app, command, 0).Serialize() + post;
            && (PullFrame(app, b) == Skipped(post) <==> app.Checksum([]) != [0, 0, 0, 0])
            && (PullFrame(app, b) == Pulled(Msg(command, []), post) <==> app.Checksum([]) == [0, 0, 0, 0])
  {
    hide ValidUtf8;
    var h := NewHeader(app, command, 0);
    var b := h.Serialize() + post;
    HeaderRoundTrip(h, []);
    assert b[..HEADER_SIZE] == h.Serialize() + [];
    assert HeaderOf(b) == h;
    assert b[0..4] == app.messageStart by { assert h.Serialize()[0..4] == app.messageStart; }
    FirstHeaderIs(app.messageStart, b, 0, 0);
    assert b[0..] == b;
    CommandRoundTrip(app, command, 0);
    assert command[..|command|] == command;
    assert h.IsValid(app);
    assert PayloadOf(b) == [];
    assert b[FrameSize(b)..] == post;
  }

  // ---------------------------------------------------------------- what the payloads say

  /** A version message is understood: protocol version, services, user agent and height come
      through whenever addresses at the init version carry no time field. */
  lemma VersionReadBack(app: AppState, getAddr: bool, p: Peer, version: u32, services: u64, timestamp: int,
                        recv: Address, from: Address, nonce: u64, agent: Text, height: i32, relay: byte)
    requires |agent| < 0x1_0000_0000_0000_0000
    requires app.caddrTimeVersion == 0 || app.initVersion < app.caddrTimeVersion
    ensures var payload := VersionPayload(app, version, services, timestamp, recv, from, nonce, agent, height, relay);
            var q := Apply(app, getAddr, p, Msg(VERSION, payload));
            q.version == AsI32(version) && q.services == services && q.subVersion == agent && q.height == height
  {
    var prefix := VersionPrefix(app, version, services, timestamp, recv, from, nonce);
    var tail := I32Bytes(height) + [relay];
    UserAgentOffset(app, version, services, timestamp, recv, from, nonce);
    PrefixFields(app, version, services, timestamp, recv, from, nonce);
    VarstrRoundTrip(prefix, agent, tail);
    I32RoundTrip(height);
    hide ValidUtf8, NewHeader, VersionPrefix, Varstr, ReadVarstr, Varint, I32Bytes, LE, FromLE;
    var payload := prefix + Varstr(agent) + tail;
    assert payload == VersionPayload(app, version, services, timestamp, recv, from, nonce, agent, height, relay);
    assert payload[0..4] == prefix[0..4] && payload[4..12] == prefix[4..12];
    var at := USER_AGENT_OFFSET + |Varstr(agent)|;
    assert payload[at..at + 4] == I32Bytes(height);
  }

  /** Otherwise the addresses grow by four octets each, and the reader finds the nonce where the
      user agent should be. The nonce of this program starts with a length of 37 and goes on
      with octets that are no text, so no user agent is taken over, and part of the nonce is
      taken for the height. */
  lemma VersionMisread(app: AppState, getAddr: bool, p: Peer, version: u32, services: u64, timestamp: int,
                       recv: Address, from: Address, agent: Text, height: i32, relay: byte)
    requires |agent| < 0x1_0000_0000_0000_0000
    requires !(app.caddrTimeVersion == 0 || app.initVersion < app.caddrTimeVersion)
    ensures var payload := VersionPayload(app, version, services, timestamp, recv, from, SEED_NONCE, agent, height, relay);
            var q := Apply(app, getAddr, p, Msg(VERSION, payload));
            && q.version == AsI32(version) && q.services == services
            && q.subVersion == p.subVersion && q.height == MISREAD_HEIGHT
  {
    hide *;
    var prefix := VersionPrefix(app, version, services, timestamp, recv, from, SEED_NONCE);
    var payload := VersionPayload(app, version, services, timestamp, recv, from, SEED_NONCE, agent, height, relay);
    NonceBehindAddresses(app, version, services, timestamp, recv, from);
    PayloadStarts(app, version, services, timestamp, recv, from, SEED_NONCE, agent, height, relay);
    PrefixFields(app, version, services, timestamp, recv, from, SEED_NONCE);
    NonceReadAsAgent(prefix, payload);
    FieldsApplied(app, getAddr, p, payload, prefix);
    assert |payload| >= USER_AGENT_OFFSET + 8;
  }

  /** The nonce every version message of this program carries, its octets, and the number that
      its second to fifth octets make. */
  const SEED_NONCE: u64 := 0x0539_a019_ca55_0825
  const NONCE_OCTETS: seq<byte> := [0x25, 0x08, 0x55, 0xca, 0x19, 0xa0, 0x39, 0x05]
  const MISREAD_HEIGHT: i32 := 0x19ca_5508

  lemma NonceOctets()
    ensures LE(SEED_NONCE, 8) == NONCE_OCTETS
  {
    NonceSteps();
    hide LE;
  }

  lemma NonceSteps()
    ensures LE(0x0539_a019_ca55_0825, 8) == [0x25, 0x08, 0x55, 0xca, 0x19, 0xa0, 0x39, 0x05]
  {
    hide *;
    LEStep(0x05, 1, 0, 0x05);
    assert LE(0x05, 1) == [0x05];
    LEStep(0x0539, 2, 0x05, 0x39);
    assert LE(0x0539, 2) == [0x39, 0x05];
    LEStep(0x05_39a0, 3, 0x0539, 0xa0);
    assert LE(0x05_39a0, 3) == [0xa0, 0x39, 0x05];
    LEStep(0x0539_a019, 4, 0x05_39a0, 0x19);
    assert LE(0x0539_a019, 4) == [0x19, 0xa0, 0x39, 0x05];
    LEStep(0x05_39a0_19ca, 5, 0x0539_a019, 0xca);
    assert LE(0x05_39a0_19ca, 5) == [0xca, 0x19, 0xa0, 0x39, 0x05];
    LEStep(0x0539_a019_ca55, 6, 0x05_39a0_19ca, 0x55);
    assert LE(0x0539_a019_ca55, 6) == [0x55, 0xca, 0x19, 0xa0, 0x39, 0x05];
    LEStep(0x05_39a0_19ca_5508, 7, 0x0539_a019_ca55, 0x08);
    assert LE(0x05_39a0_19ca_5508, 7) == [0x08, 0x55, 0xca, 0x19, 0xa0, 0x39, 0x05];
    LEStep(0x0539_a019_ca55_0825, 8, 0x05_39a0_19ca_5508, 0x25);
    assert LE(0x0539_a019_ca55_0825, 8) == [0x25, 0x08, 0x55, 0xca, 0x19, 0xa0, 0x39, 0x05];
  }

  lemma LEStep(v: nat, n: nat, rest: nat, low: byte)
    requires n > 0 && v == 256 * rest + low
    ensures LE(v, n) == [low] + LE(rest, n - 1)
    ensures n == 1 ==> LE(v, n) == [low]
  {
    assert v % 256 == low && v / 256 == rest;
  }

  lemma NonceBehindAddresses(app: AppState, version: u32, services: u64, timestamp: int, recv: Address, from: Address)
    requires !(app.caddrTimeVersion == 0 || app.initVersion < app.caddrTimeVersion)
    ensures var prefix := VersionPrefix(app, version, services, timestamp, recv, from, SEED_NONCE);
            |prefix| == USER_AGENT_OFFSET + 8 && prefix[USER_AGENT_OFFSET..] == NONCE_OCTETS
  {
    var front := LE(version, 4) + LE(services, 8) + I64Bytes(timestamp)
                 + AddressBytes(app, recv, app.initVersion) + AddressBytes(app, from, app.initVersion);
    assert |front| == USER_AGENT_OFFSET;
    NonceOctets();
    hide LE, AddressBytes, I64Bytes;
  }

  lemma PayloadStarts(app: AppState, version: u32, services: u64, timestamp: int, recv: Address, from: Address,
                      nonce: u64, agent: Text, height: i32, relay: byte)
    requires |agent| < 0x1_0000_0000_0000_0000
    ensures VersionPrefix(app, version, services, timestamp, recv, from, nonce)
            <= VersionPayload(app, version, services, timestamp, recv, from, nonce, agent, height, relay)
  {
    hide VersionPrefix, Varstr, I32Bytes;
  }

  /** Where the nonce is met, no text is read and the position stays behind the length. */
  lemma NonceReadAsAgent(prefix: seq<byte>, payload: seq<byte>)
    requires prefix <= payload && |prefix| == USER_AGENT_OFFSET + 8 && prefix[USER_AGENT_OFFSET..] == NONCE_OCTETS
    ensures ReadVarstr(payload, USER_AGENT_OFFSET) == Read(None, USER_AGENT_OFFSET + 1)
    ensures FromLE(payload[USER_AGENT_OFFSET + 1..USER_AGENT_OFFSET + 5]) == MISREAD_HEIGHT
  {
    var at := USER_AGENT_OFFSET;
    assert forall i :: 0 <= i < 8 ==> payload[at + i] == prefix[at + i] == prefix[at..][i] == NONCE_OCTETS[i];
    if at + 1 + 37 <= |payload| {
      var text := payload[at + 1..at + 1 + 37];
      assert forall i :: 0 <= i < 7 ==> text[i] == payload[at + 1 + i] == NONCE_OCTETS[i + 1];
      NonceIsNoText(text);
    }
    hide ValidUtf8;
    NonceAsNumber(payload[at + 1..at + 5]);
  }

  lemma NonceIsNoText(text: seq<byte>)
    requires |text| == 37 && forall i :: 0 <= i < 7 ==> text[i] == NONCE_OCTETS[i + 1]
    ensures !ValidUtf8(text)
  {
    assert text[0] == 0x08 && text[1] == 0x55 && text[2] == 0xca && text[3] == 0x19;
    assert ValidUtf8(text) == ValidUtf8(text[1..]);
    assert ValidUtf8(text[1..]) == ValidUtf8(text[1..][1..]);
    assert text[1..][1..] == text[2..];
    assert text[2..][0] == 0xca && text[2..][1] == 0x19;
  }

  lemma NonceAsNumber(s: seq<byte>)
    requires s == NONCE_OCTETS[1..5]
    ensures FromLE(s) == MISREAD_HEIGHT
  {
    assert s == [0x08, 0x55, 0xca, 0x19];
    assert s[1..] == [0x55, 0xca, 0x19] && s[1..][1..] == [0xca, 0x19] && s[1..][1..][1..] == [0x19];
    assert FromLE([0x19]) == 0x19 + 256 * FromLE([]);
    assert FromLE(s[1..][1..]) == 0xca + 256 * FromLE(s[1..][1..][1..]);
  }

  lemma FieldsApplied(app: AppState, getAddr: bool, p: Peer, payload: seq<byte>, prefix: seq<byte>)
    requires prefix <= payload && |prefix| >= USER_AGENT_OFFSET + 8
    requires ReadVarstr(payload, USER_AGENT_OFFSET) == Read(None, USER_AGENT_OFFSET + 1)
    requires FromLE(payload[USER_AGENT_OFFSET + 1..USER_AGENT_OFFSET + 5]) == MISREAD_HEIGHT
    ensures var q := Apply(app, getAddr, p, Msg(VERSION, payload));
            && FromLE(prefix[0..4]) < 0x1_0000_0000 && FromLE(prefix[4..12]) < 0x1_0000_0000_0000_0000
            && q.version == AsI32(FromLE(prefix[0..4])) && q.services == FromLE(prefix[4..12])
            && q.subVersion == p.subVersion && q.height == MISREAD_HEIGHT
  {
    assert payload[0..4] == prefix[0..4] && payload[4..12] == prefix[4..12];
    LEOfFromLE(prefix[0..4]);
    LEOfFromLE(prefix[4..12]);
    Pow256Values();
    hide FromLE, ReadVarstr, NewHeader, Pow256, LE, ValidUtf8;
    assert I32At(payload, USER_AGENT_OFFSET + 1) == MISREAD_HEIGHT;
  }

  const SLASH: byte := 47

  /** The user agent this program sends: its name between slashes. */
  function OwnAgent(name: Text): (agent: Text)
    ensures |agent| == |name| + 2
  {
    AsciiIsUtf8([SLASH]);
    Utf8Joins([SLASH], name);
    Utf8Joins([SLASH] + name, [SLASH]);
    [SLASH] + name + [SLASH]
  }

  /** The version message this program sends is understood by a reader of this protocol, with
      its version, services, user agent and height, if and only if addresses at the init version
      carry no time field. */
  lemma OwnVersionUnderstoodExactly(app: AppState, getAddr: bool, version: u32, services: u64, timestamp: int,
                                    recv: Address, from: Address, name: Text, height: i32, relay: byte)
    requires |name| + 2 < 0x1_0000_0000_0000_0000
    ensures var payload := VersionPayload(app, version, services, timestamp, recv, from, SEED_NONCE, OwnAgent(name),
                                          height, relay);
            var q := Apply(app, getAddr, NEW_PEER, Msg(VERSION, payload));
            (q.version == AsI32(version) && q.services == services && q.subVersion == OwnAgent(name) && q.height == height)
            <==> (app.caddrTimeVersion == 0 || app.initVersion < app.caddrTimeVersion)
  {
    hide Apply, VersionPayload, OwnAgent;
    if app.caddrTimeVersion == 0 || app.initVersion < app.caddrTimeVersion {
      VersionReadBack(app, getAddr, NEW_PEER, version, services, timestamp, recv, from, SEED_NONCE, OwnAgent(name),
                      height, relay);
    } else {
      VersionMisread(app, getAddr, NEW_PEER, version, services, timestamp, recv, from, OwnAgent(name), height, relay);
    }
  }

  lemma PrefixFields(app: AppState, version: u32, services: u64, timestamp: int, recv: Address, from: Address, nonce: u64)
    ensures var prefix := VersionPrefix(app, version, services, timestamp, recv, from, nonce);
            |prefix| >= 12 && FromLE(prefix[0..4]) == version && FromLE(prefix[4..12]) == services
  {
    var prefix := VersionPrefix(app, version, services, timestamp, recv, from, nonce);
    Pow256Values();
    FromLEOfLE(version, 4);
    FromLEOfLE(services, 8);
    hide LE, FromLE, AddressBytes;
    assert prefix[0..4] == LE(version, 4);
    assert prefix[4..12] == LE(services, 8);
  }

  lemma I32RoundTrip(v: i32)
    ensures |I32Bytes(v)| == 4 && FromLE(I32Bytes(v)) < 0x1_0000_0000 && AsI32(FromLE(I32Bytes(v))) == v
  {
    Pow256Values();
    FromLEOfLE(AsU32(v), 4);
  }

  function AddressesBytes(app: AppState, addrs: seq<Address>, version: u32): seq<byte> {
    if addrs == [] then [] else AddressBytes(app, addrs[0], version) + AddressesBytes(app, addrs[1..], version)
  }

  /** An address as a reader at this version sees it. */
  function Seen(app: AppState, a: Address, version: u32): Address {
    if WriterIncludesTime(app, version) then a else a.(time := DEFAULT_TIME)
  }

  function SeenAll(app: AppState, addrs: seq<Address>, version: u32): seq<Address> {
    if addrs == [] then [] else [Seen(app, addrs[0], version)] + SeenAll(app, addrs[1..], version)
  }

  lemma {:induction false} AddressesReadBack(app: AppState, pre: seq<byte>, addrs: seq<Address>, version: u32,
                                             post: seq<byte>)
    requires !(app.caddrTimeVersion == 0 && version == app.initVersion)
    ensures ReadAddresses(app, pre + AddressesBytes(app, addrs, version) + post, |pre|, version, |addrs|)
            == SeenAll(app, addrs, version)
    decreases |addrs|
  {
    hide AddressBytes, ReadAddress;
    if addrs != [] {
      var first, rest := AddressBytes(app, addrs[0], version), AddressesBytes(app, addrs[1..], version);
      var data := pre + AddressesBytes(app, addrs, version) + post;
      assert data == pre + first + (rest + post);
      AddressRoundTrip(app, pre, addrs[0], version, rest + post);
      assert data == (pre + first) + rest + post;
      AddressesReadBack(app, pre + first, addrs[1..], version, post);
    }
  }

  /** An address message of at most a thousand addresses is taken over whole, once the peer's
      version is known and not the exceptional one. */
  lemma AddrReadBack(app: AppState, getAddr: bool, p: Peer, addrs: seq<Address>)
    requires |addrs| <= MAX_ADDRESSES
    requires !(app.caddrTimeVersion == 0 && AsU32(p.version) == app.initVersion)
    ensures var version := AsU32(p.version);
            Apply(app, getAddr, p, Msg(ADDR, Varint(|addrs|) + AddressesBytes(app, addrs, version)))
            == p.(addresses := p.addresses + SeenAll(app, addrs, version))
  {
    hide ReadAddresses, AddressesBytes, SeenAll, Varint, ReadVarint;
    var version := AsU32(p.version);
    var list := AddressesBytes(app, addrs, version);
    var payload := Varint(|addrs|) + list;
    VarintRoundTrip([], |addrs|, list);
    assert [] + Varint(|addrs|) + list == payload;
    AddressesReadBack(app, Varint(|addrs|), addrs, version, []);
    assert payload + [] == payload;
  }
}
