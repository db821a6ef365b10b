/** Reading a peer's side of the handshake. Bytes arrive in arbitrary chunks; a run is given
    what the reads return, an empty chunk being the end of the stream and the end of the list a
    timeout. Sockets and deadlines are not modelled. */
module Handshake {
  import opened Bytes
  import opened Net
  import opened Serialize
  import opened Message
  import opened FrameDecoder

  const VERSION: seq<byte> := [118, 101, 114, 115, 105, 111, 110]
  const VERACK: seq<byte> := [118, 101, 114, 97, 99, 107]
  const ADDR: seq<byte> := [97, 100, 100, 114]
  const GETADDR: seq<byte> := [103, 101, 116, 97, 100, 100, 114]

  const GARBAGE_BAN: int := 100000
  const MAX_ADDRESSES: nat := 1000

  /** Where a version message's user agent starts. */
  const USER_AGENT_OFFSET: nat := 80

  /** What the handshake has learned of the peer, and what it has sent since its own version. */
  datatype Peer = Peer(
    version: i32,
    services: u64,
    subVersion: Text,
    height: i32,
    verackReceived: bool,
    addresses: seq<Address>,
    ban: int,
    sent: seq<byte>)

  const NEW_PEER := Peer(0, 0, [], 0, false, [], 0, [])

  // ---------------------------------------------------------------- acting on one message

  function I32At(data: seq<byte>, pos: nat): i32
    requires pos + 4 <= |data|
  {
    LEOfFromLE(data[pos..pos + 4]);
    Pow256Values();
    AsI32(FromLE(data[pos..pos + 4]))
  }

  function U64At(data: seq<byte>, pos: nat): u64
    requires pos + 8 <= |data|
  {
    LEOfFromLE(data[pos..pos + 8]);
    Pow256Values();
    FromLE(data[pos..pos + 8])
  }

  function OnVersion(app: AppState, getAddr: bool, p: Peer, payload: seq<byte>): Peer {
    if |payload| < 4 then p
    else
      var agent := ReadVarstr(payload, USER_AGENT_OFFSET);
      p.(version := I32At(payload, 0),
         services := if |payload| >= 12 then U64At(payload, 4) else p.services,
         subVersion := if agent.value.Some? then agent.value.value else p.subVersion,
         height := if agent.pos + 4 <= |payload| then I32At(payload, agent.pos) else p.height,
         sent := p.sent + NewHeader(app, VERACK, 0).Serialize()
                 + if getAddr then NewHeader(app, GETADDR, 0).Serialize() else [])
  }

  /** Up to `n` addresses from `pos` on, stopping at the first that does not parse. */
  function ReadAddresses(app: AppState, payload: seq<byte>, pos: nat, version: u32, n: nat): seq<Address>
    decreases n
  {
    if n == 0 then []
    else
      var r := ReadAddress(app, payload, pos, version, app.caddrTimeVersion);
      if r.value.None? then [] else [r.value.value] + ReadAddresses(app, payload, r.pos, version, n - 1)
  }

  function OnAddr(app: AppState, p: Peer, payload: seq<byte>): Peer {
    var count := ReadVarint(payload, 0);
    if count.value.None? then p
    else
      var n := if count.value.value <= MAX_ADDRESSES then count.value.value else MAX_ADDRESSES;
      p.(addresses := p.addresses + ReadAddresses(app, payload, count.pos, AsU32(p.version), n))
  }

  function Apply(app: AppState, getAddr: bool, p: Peer, msg: Item): Peer {
    if !msg.Msg? then p
    else if msg.command == VERSION then OnVersion(app, getAddr, p, msg.payload)
    else if msg.command == VERACK then p.(verackReceived := true)
    else if msg.command == ADDR then OnAddr(app, p, msg.payload)
    else p
  }

  function ApplyAll(app: AppState, getAddr: bool, p: Peer, msgs: seq<Item>): Peer
    decreases |msgs|
  {
    if msgs == [] then p else ApplyAll(app, getAddr, Apply(app, getAddr, p, msgs[0]), msgs[1..])
  }

  /** Messages after which the inner loop waits for the next read although bytes may be left. */
  predicate Pauses(msg: Item) {
    msg.Msg? && (msg.command == ADDR || (msg.command == VERSION && |msg.payload| < 4))
  }

  /** The outer loop's reasons to stop. */
  predicate Finished(getAddr: bool, p: Peer) {
    p.ban > 0 || (p.verackReceived && p.addresses != []) || (p.verackReceived && !getAddr)
  }

  // ---------------------------------------------------------------- the loops, as functions

  /** Why the inner loop ended: nothing complete left, an invalid header, or a pause. */
  datatype Why = Hungry | Broken | Paused

  datatype Drained = Drained(buf: seq<byte>, peer: Peer, msgs: seq<Item>, why: Why)

  function Drain(app: AppState, getAddr: bool, buf: seq<byte>, p: Peer): Drained
    decreases |buf|
  {
    PullAgrees(app, buf, []);
    match PullFrame(app, buf)
    case Starved(kept) => Drained(kept, p, [], Hungry)
    case Corrupt(kept) => Drained(kept, p.(ban := GARBAGE_BAN), [], Broken)
    case Skipped(rest) => Drain(app, getAddr, rest, p)
    case Pulled(msg, rest) =>
      var q := Apply(app, getAddr, p, msg);
      if Pauses(msg) then Drained(rest, q, [msg], Paused)
      else var d := Drain(app, getAddr, rest, q); d.(msgs := [msg] + d.msgs)
  }

  /** What the reads came to: the bytes left over, the peer, the messages acted on, how many
      chunks were read and how the last inner loop ended. */
  datatype Session = Session(buf: seq<byte>, peer: Peer, msgs: seq<Item>, read: nat, why: Why)

  function Receive(app: AppState, getAddr: bool, chunks: seq<seq<byte>>, buf: seq<byte>, p: Peer, why: Why): (s: Session)
    ensures s.read <= |chunks|
    decreases |chunks|
  {
    if chunks == [] || chunks[0] == [] then Session(buf, p, [], 0, why)
    else
      var d := Drain(app, getAddr, buf + chunks[0], p);
      if Finished(getAddr, d.peer) then Session(d.buf, d.peer, d.msgs, 1, d.why)
      else
        var s := Receive(app, getAddr, chunks[1..], d.buf, d.peer, d.why);
        s.(msgs := d.msgs + s.msgs, read := s.read + 1)
  }

  function Joined(chunks: seq<seq<byte>>): seq<byte> {
    if chunks == [] then [] else chunks[0] + Joined(chunks[1..])
  }

  // ---------------------------------------------------------------- the loops

  method FindMagic(magic: Octets4, buf: seq<byte>) returns (found: Option<nat>)
    ensures found == FirstHeader(magic, buf, 0)
  {
    var end := if |buf| > 23 then |buf| - 23 else 0;
    for i := 0 to end
      invariant FirstHeader(magic, buf, 0) == FirstHeader(magic, buf, i)
    {
      if buf[i..i + 4] == magic {
        return Some(i);
      }
    }
    return None;
  }

  method HandleVersion(app: AppState, getAddr: bool, start: Peer, payload: seq<byte>) returns (p: Peer)
    requires |payload| >= 4
    ensures p == OnVersion(app, getAddr, start, payload)
  {
    hide ReadVarstr, ValidUtf8, NewHeader;
    p := start;
    p := p.(version := I32At(payload, 0));
    var cur := new Cursor(4);
    if |payload| >= cur.pos + 8 {
      p := p.(services := U64At(payload, cur.pos));
    }
    cur.pos := cur.pos + 8;
    cur.pos := cur.pos + 8;
    cur.pos := cur.pos + 26;
    cur.pos := cur.pos + 26;
    cur.pos := cur.pos + 8;
    var sv := ReadVarstrAt(payload, cur);
    if sv.Some? {
      p := p.(subVersion := sv.value);
    }
    if cur.pos + 4 <= |payload| {
      p := p.(height := I32At(payload, cur.pos));
    }
    p := p.(sent := p.sent + NewHeader(app, VERACK, 0).Serialize());
    if getAddr {
      p := p.(sent := p.sent + NewHeader(app, GETADDR, 0).Serialize());
    } else {
      assert p.sent == p.sent + [];
    }
  }

  method HandleAddr(app: AppState, start: Peer, payload: seq<byte>) returns (p: Peer)
    ensures p == OnAddr(app, start, payload)
  {
    hide ReadAddress, ReadVarint, ValidUtf8;
    p := start;
    var cur := new Cursor(0);
    var count := ReadVarintAt(payload, cur);
    if count.None? {
      return;
    }
    var n: nat := if count.value <= MAX_ADDRESSES then count.value else MAX_ADDRESSES;
    ghost var all := p.addresses + ReadAddresses(app, payload, cur.pos, AsU32(p.version), n);
    for i := 0 to n
      invariant p == start.(addresses := p.addresses)
      invariant all == p.addresses + ReadAddresses(app, payload, cur.pos, AsU32(start.version), n - i)
    {
      var a := DeserializeAddress(app, payload, cur, AsU32(p.version), app.caddrTimeVersion);
      if a.None? {
        assert all == p.addresses;
        return;
      }
      p := p.(addresses := p.addresses + [a.value]);
    }
  }

  /** One round up to the dispatch: find, check, cut off. */
  method NextFrame(app: AppState, start: seq<byte>) returns (pull: Pull)
    ensures pull == PullFrame(app, start)
  {
    hide ValidUtf8;
    var buf := start;
    var found := FindMagic(app.messageStart, buf);
    if found.None? {
      if |buf| > 23 {
        buf := buf[|buf| - 23..];
      }
      return Starved(buf);
    }
    if found.value > 0 {
      buf := buf[found.value..];
    }
    assert buf == start[found.value..];
    var header := HeaderOf(buf);
    if !header.IsValid(app) {
      return Corrupt(buf);
    }
    var total := HEADER_SIZE + header.payloadSize;
    if |buf| < total {
      return Starved(buf);
    }
    var payload := buf[HEADER_SIZE..][..header.payloadSize];
    var rest := buf[HEADER_SIZE..][header.payloadSize..];
    assert payload == PayloadOf(buf) && rest == buf[total..];
    if app.sha256d(payload)[..4] != header.checksum {
      return Skipped(rest);
    }
    return Pulled(Msg(header.CommandStr(), payload), rest);
  }

  /** The dispatch: what it makes of the peer, and whether the inner loop pauses. */
  method Dispatch(app: AppState, getAddr: bool, start: Peer, command: seq<byte>, payload: seq<byte>)
    returns (p: Peer, pause: bool)
    ensures p == Apply(app, getAddr, start, Msg(command, payload))
    ensures pause == Pauses(Msg(command, payload))
  {
    hide OnAddr;
    p := start;
    if command == VERSION {
      if |payload| < 4 {
        return p, true;
      }
      p := HandleVersion(app, getAddr, p, payload);
      return p, false;
    } else if command == VERACK {
      p := p.(verackReceived := true);
      return p, false;
    } else if command == ADDR {
      p := HandleAddr(app, p, payload);
      return p, true;
    }
    return p, false;
  }

  /** The inner loop. It ends because every round that goes on takes a whole header with it. */
  method DrainFrames(app: AppState, getAddr: bool, start: seq<byte>, from: Peer)
    returns (buf: seq<byte>, p: Peer, ghost msgs: seq<Item>, ghost why: Why)
    ensures buf == Drain(app, getAddr, start, from).buf && p == Drain(app, getAddr, start, from).peer
    ensures msgs == Drain(app, getAddr, start, from).msgs && why == Drain(app, getAddr, start, from).why
  {
    hide PullFrame, Apply, Pauses, Decoded;
    buf, p, msgs, why := start, from, [], Hungry;
    ghost var all := Drain(app, getAddr, start, from);
    assert all.msgs == msgs + all.msgs;
    while true
      invariant all == Drain(app, getAddr, buf, p).(msgs := msgs + Drain(app, getAddr, buf, p).msgs)
      decreases |buf|
    {
      PullAgrees(app, buf, []);
      ghost var todo := Drain(app, getAddr, buf, p);
      var pull := NextFrame(app, buf);
      match pull
      case Starved(kept) =>
        assert msgs + [] == msgs;
        buf := kept;
        return;
      case Corrupt(kept) =>
        assert msgs + [] == msgs;
        buf, why := kept, Broken;
        p := p.(ban := GARBAGE_BAN);
        return;
      case Skipped(rest) =>
        buf := rest;
      case Pulled(msg, rest) =>
        var pause: bool;
        p, pause := Dispatch(app, getAddr, p, msg.command, msg.payload);
        assert msg == Msg(msg.command, msg.payload);
        buf := rest;
        if pause {
          msgs, why := msgs + [msg], Paused;
          return;
        }
        assert msgs + ([msg] + Drain(app, getAddr, buf, p).msgs) == (msgs + [msg]) + Drain(app, getAddr, buf, p).msgs;
        msgs := msgs + [msg];
    }
  }

  /** The outer loop of the handshake, from the reply to our version to the reasons to stop. */
  method TestNode(app: AppState, getAddr: bool, chunks: seq<seq<byte>>)
    returns (p: Peer, ghost buf: seq<byte>, ghost msgs: seq<Item>, ghost read: nat, ghost why: Why)
    ensures p == Receive(app, getAddr, chunks, [], NEW_PEER, Hungry).peer
    ensures Session(buf, p, msgs, read, why) == Receive(app, getAddr, chunks, [], NEW_PEER, Hungry)
  {
    hide Drain, Finished;
    p, msgs, why, read := NEW_PEER, [], Hungry, 0;
    var readBuf: seq<byte> := [];
    ghost var all := Receive(app, getAddr, chunks, [], NEW_PEER, Hungry);
    assert chunks[0..] == chunks && all.msgs == msgs + all.msgs;
    for i := 0 to |chunks|
      invariant read == i
      invariant var s := Receive(app, getAddr, chunks[i..], readBuf, p, why);
                all == s.(msgs := msgs + s.msgs, read := i + s.read)
    {
      var n := chunks[i];
      assert chunks[i..][0] == n && chunks[i..][1..] == chunks[i + 1..];
      if n == [] {
        assert msgs + [] == msgs;
        buf := readBuf;
        return;
      }
      readBuf := readBuf + n;
      ghost var more, w;
      readBuf, p, more, w := DrainFrames(app, getAddr, readBuf, p);
      ghost var s := Receive(app, getAddr, chunks[i + 1..], readBuf, p, w);
      assert msgs + (more + s.msgs) == (msgs + more) + s.msgs;
      msgs, why, read := msgs + more, w, i + 1;
      if Finished(getAddr, p) {
        buf := readBuf;
        return;
      }
    }
    assert msgs + [] == msgs;
    buf := readBuf;
  }
}
