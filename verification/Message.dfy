/** Message headers, network addresses and the version payload of the peer-to-peer protocol. */
module Message {
  import opened Bytes
  import opened Net
  import opened Serialize

  const COMMAND_SIZE: nat := 12
  const MAX_SIZE: u32 := 0x0200_0000
  const HEADER_SIZE: nat := 24

  type Octets4 = s: seq<byte> | |s| == 4 witness [0, 0, 0, 0]
  type Command = s: seq<byte> | |s| == 12 witness [0, 0, 0, 0, 0, 0, 0, 0, 0, 0, 0, 0]
  type Digest = s: seq<byte> | |s| == 32 witness ALL_ZERO + ALL_ZERO

  /** The network parameters, and the double SHA-256 every payload is checked with. */
  datatype AppState = AppState(
    messageStart: Octets4,
    protocolVersion: u32,
    initVersion: u32,
    caddrTimeVersion: u32,
    sha256d: seq<byte> -> Digest)
  {
    function Checksum(payload: seq<byte>): Octets4 { sha256d(payload)[..4] }
  }

  function Zeros(n: nat): (z: seq<byte>)
    ensures |z| == n && forall i :: 0 <= i < n ==> z[i] == 0
  {
    if n == 0 then [] else [0] + Zeros(n - 1)
  }

  // ---------------------------------------------------------------- headers

  datatype MessageHeader = MessageHeader(magic: Octets4, command: Command, payloadSize: u32, checksum: Octets4) {

    function WithChecksum(app: AppState, payload: seq<byte>): MessageHeader {
      this.(checksum := app.Checksum(payload))
    }

    /** The command up to its first zero octet. */
    function CommandStr(): seq<byte> { UpToZero(command) }

    predicate IsValid(app: AppState) {
      && magic == app.messageStart
      && (forall i :: 0 <= i < COMMAND_SIZE ==> command[i] == 0 || 0x20 <= command[i] <= 0x7e)
      && payloadSize <= MAX_SIZE
    }

    function Serialize(): (s: seq<byte>)
      ensures |s| == HEADER_SIZE
    {
      magic + command + LE(payloadSize, 4) + checksum
    }
  }

  function UpToZero(s: seq<byte>): (r: seq<byte>)
    ensures r <= s && 0 !in r && (|r| < |s| ==> s[|r|] == 0)
  {
    if s == [] || s[0] == 0 then [] else [s[0]] + UpToZero(s[1..])
  }

  function NewHeader(app: AppState, command: seq<byte>, payloadSize: u32): MessageHeader {
    var len := if |command| <= COMMAND_SIZE then |command| else COMMAND_SIZE;
    MessageHeader(app.messageStart, command[..len] + Zeros(COMMAND_SIZE - len), payloadSize, [0, 0, 0, 0])
  }

  function DeserializeHeader(data: seq<byte>): Option<MessageHeader> {
    if |data| < HEADER_SIZE then None
    else
      LEOfFromLE(data[16..20]);
      Pow256Values();
      Some(MessageHeader(data[0..4], data[4..16], FromLE(data[16..20]), data[20..24]))
  }

  lemma HeaderRoundTrip(h: MessageHeader, post: seq<byte>)
    ensures DeserializeHeader(h.Serialize() + post) == Some(h)
  {
    var data := h.Serialize() + post;
    assert data[0..4] == h.magic;
    assert data[4..16] == h.command;
    assert data[16..20] == LE(h.payloadSize, 4);
    assert data[20..24] == h.checksum;
    Pow256Values();
    FromLEOfLE(h.payloadSize, 4);
  }

  lemma {:induction false} UpToZeroOfPadded(s: seq<byte>, z: seq<byte>)
    requires 0 !in s && (z == [] || z[0] == 0)
    ensures UpToZero(s + z) == s
  {
    if s == [] {
      assert s + z == z;
    } else {
      assert (s + z)[1..] == s[1..] + z;
      UpToZeroOfPadded(s[1..], z);
    }
  }

  /** A command of at most twelve octets without a zero is read back whole. */
  lemma CommandRoundTrip(app: AppState, command: seq<byte>, payloadSize: u32)
    requires |command| <= COMMAND_SIZE && 0 !in command
    ensures NewHeader(app, command, payloadSize).CommandStr() == command
  {
    assert command[..|command|] == command;
    UpToZeroOfPadded(command, Zeros(COMMAND_SIZE - |command|));
  }

  // ---------------------------------------------------------------- addresses

  datatype Address = Address(time: u32, services: u64, addr: NetAddr, port: u16)

  /** When the writer includes the time field. */
  predicate WriterIncludesTime(app: AppState, version: u32) {
    if app.caddrTimeVersion == 0 then version != app.initVersion else version >= app.caddrTimeVersion
  }

  /** When the reader expects one. */
  predicate ReaderIncludesTime(app: AppState, version: u32, caddrTimeVersion: u32) {
    (caddrTimeVersion == 0 && app.initVersion != version) || version >= caddrTimeVersion
  }

  function AddressBytes(app: AppState, a: Address, version: u32): seq<byte> {
    (if WriterIncludesTime(app, version) then LE(a.time, 4) else [])
    + LE(a.services, 8) + a.addr.ip + BE(a.port, 2)
  }

  method SerializeAddress(app: AppState, a: Address, version: u32) returns (buf: seq<byte>)
    ensures buf == AddressBytes(app, a, version)
  {
    buf := [];
    var includeTime := if app.caddrTimeVersion == 0 then version != app.initVersion else version >= app.caddrTimeVersion;
    if includeTime {
      buf := buf + LE(a.time, 4);
    }
    buf := buf + LE(a.services, 8);
    buf := buf + a.addr.ip;
    buf := buf + BE(a.port, 2);
  }

  const DEFAULT_TIME: u32 := 100000000

  /** The fields after the time field. On an error the position stays at the field missing. */
  function ReadAddressBody(data: seq<byte>, pos: nat, time: u32): Read<Address> {
    if pos + 8 > |data| then Read(None, pos)
    else if pos + 24 > |data| then Read(None, pos + 8)
    else if pos + 26 > |data| then Read(None, pos + 24)
    else
      LEOfFromLE(data[pos..pos + 8]);
      Pow256Values();
      FromBE2(data[pos + 24..pos + 26]);
      Read(Some(Address(time, FromLE(data[pos..pos + 8]), NetAddr(data[pos + 8..pos + 24]),
        FromBE(data[pos + 24..pos + 26]))),
           pos + 26)
  }

  function ReadAddress(app: AppState, data: seq<byte>, pos: nat, version: u32, caddrTimeVersion: u32): Read<Address> {
    if !ReaderIncludesTime(app, version, caddrTimeVersion) then ReadAddressBody(data, pos, DEFAULT_TIME)
    else if pos + 4 > |data| then Read(None, pos)
    else
      LEOfFromLE(data[pos..pos + 4]);
      Pow256Values();
      ReadAddressBody(data, pos + 4, FromLE(data[pos..pos + 4]))
  }

  method DeserializeAddress(app: AppState, data: seq<byte>, cur: Cursor, version: u32, caddrTimeVersion: u32)
    returns (r: Option<Address>)
    modifies cur
    ensures Read(r, cur.pos) == ReadAddress(app, data, old(cur.pos), version, caddrTimeVersion)
  {
    Pow256Values();
    var time: u32 := DEFAULT_TIME;
    var includeTime := (caddrTimeVersion == 0 && app.initVersion != version) || version >= caddrTimeVersion;
    if includeTime {
      if cur.pos + 4 > |data| {
        return None;
      }
      LEOfFromLE(data[cur.pos..cur.pos + 4]);
      time := FromLE(data[cur.pos..cur.pos + 4]);
      cur.pos := cur.pos + 4;
    }
    if cur.pos + 8 > |data| {
      return None;
    }
    LEOfFromLE(data[cur.pos..cur.pos + 8]);
    var services: u64 := FromLE(data[cur.pos..cur.pos + 8]);
    cur.pos := cur.pos + 8;
    if cur.pos + 16 > |data| {
      return None;
    }
    var ip := data[cur.pos..cur.pos + 16];
    cur.pos := cur.pos + 16;
    if cur.pos + 2 > |data| {
      return None;
    }
    FromBE2(data[cur.pos..cur.pos + 2]);
    var port: u16 := FromBE(data[cur.pos..cur.pos + 2]);
    cur.pos := cur.pos + 2;
    return Some(Address(time, services, NetAddr(ip), port));
  }

  /** Writer and reader agree on the time field for every version, except the init version
      while no time version is configured. */
  lemma TimeFieldAgreement(app: AppState, version: u32)
    ensures WriterIncludesTime(app, version) == ReaderIncludesTime(app, version, app.caddrTimeVersion)
            <==> !(app.caddrTimeVersion == 0 && version == app.initVersion)
  {
  }

  function BodyBytes(a: Address): (s: seq<byte>)
    ensures |s| == 26
  {
    LE(a.services, 8) + a.addr.ip + BE(a.port, 2)
  }

  lemma BodyRoundTrip(pre: seq<byte>, a: Address, time: u32, post: seq<byte>)
    ensures ReadAddressBody(pre + BodyBytes(a) + post, |pre|, time) == Read(Some(a.(time := time)), |pre| + 26)
  {
    var data := pre + BodyBytes(a) + post;
    var p := |pre|;
    assert data[p..p + 8] == LE(a.services, 8);
    assert data[p + 8..p + 24] == a.addr.ip;
    assert data[p + 24..p + 26] == BE(a.port, 2);
    Pow256Values();
    FromLEOfLE(a.services, 8);
    FromBEOfBE(a.port, 2);
  }

  /** Where writer and reader agree, an address is read back, whatever surrounds it; the time
      of one written without a time field is the default. */
  lemma AddressRoundTrip(app: AppState, pre: seq<byte>, a: Address, version: u32, post: seq<byte>)
    requires !(app.caddrTimeVersion == 0 && version == app.initVersion)
    ensures ReadAddress(app, pre + AddressBytes(app, a, version) + post, |pre|, version, app.caddrTimeVersion)
            == Read(Some(if WriterIncludesTime(app, version) then a else a.(time := DEFAULT_TIME)),
                    |pre| + |AddressBytes(app, a, version)|)
  {
    TimeFieldAgreement(app, version);
    var data := pre + AddressBytes(app, a, version) + post;
    if WriterIncludesTime(app, version) {
      assert data == (pre + LE(a.time, 4)) + BodyBytes(a) + post;
      assert data[|pre|..|pre| + 4] == LE(a.time, 4);
      Pow256Values();
      FromLEOfLE(a.time, 4);
      BodyRoundTrip(pre + LE(a.time, 4), a, a.time, post);
    } else {
      assert data == pre + BodyBytes(a) + post;
      BodyRoundTrip(pre, a, DEFAULT_TIME, post);
    }
  }

  /** Where they disagree, the writer's own output is too short for the reader. So an address
      written and read at one version comes back exactly when the two agree. */
  lemma AddressReadsBackExactly(app: AppState, a: Address, version: u32)
    ensures ReadAddress(app, AddressBytes(app, a, version), 0, version, app.caddrTimeVersion).value.Some?
            <==> !(app.caddrTimeVersion == 0 && version == app.initVersion)
  {
    if app.caddrTimeVersion == 0 && version == app.initVersion {
      assert |AddressBytes(app, a, version)| == 26;
    } else {
      AddressRoundTrip(app, [], a, version, []);
      assert [] + AddressBytes(app, a, version) + [] == AddressBytes(app, a, version);
    }
  }

  // ---------------------------------------------------------------- the version payload

  function I64Bytes(v: int): seq<byte> { LE(v % 0x1_0000_0000_0000_0000, 8) }

  function I32Bytes(v: i32): seq<byte> { LE(AsU32(v), 4) }

  /** Everything before the user agent. Its addresses carry the init version. */
  function VersionPrefix(app: AppState, version: u32, services: u64, timestamp: int,
                         recv: Address, from: Address, nonce: u64): seq<byte> {
    LE(version, 4) + LE(services, 8) + I64Bytes(timestamp)
    + AddressBytes(app, recv, app.initVersion) + AddressBytes(app, from, app.initVersion) + LE(nonce, 8)
  }

  function VersionPayload(app: AppState, version: u32, services: u64, timestamp: int, recv: Address, from: Address,
                          nonce: u64, subVersion: Text, height: i32, relay: byte): seq<byte>
    requires |subVersion| < 0x1_0000_0000_0000_0000
  {
    VersionPrefix(app, version, services, timestamp, recv, from, nonce) + Varstr(subVersion) + I32Bytes(height) + [relay]
  }

  method SerializeVersionPayload(app: AppState, version: u32, services: u64, timestamp: int, recv: Address,
                                 from: Address, nonce: u64, subVersion: Text, height: i32, relay: byte)
    returns (payload: seq<byte>)
    requires |subVersion| < 0x1_0000_0000_0000_0000
    ensures payload == VersionPayload(app, version, services, timestamp, recv, from, nonce, subVersion, height, relay)
  {
    var buf := new ByteVec();
    buf.bytes := buf.bytes + LE(version, 4);
    buf.bytes := buf.bytes + LE(services, 8);
    buf.bytes := buf.bytes + I64Bytes(timestamp);
    var a := SerializeAddress(app, recv, app.initVersion);
    buf.bytes := buf.bytes + a;
    a := SerializeAddress(app, from, app.initVersion);
    buf.bytes := buf.bytes + a;
    buf.bytes := buf.bytes + LE(nonce, 8);
    assert buf.bytes == VersionPrefix(app, version, services, timestamp, recv, from, nonce);
    WriteVarstr(buf, subVersion);
    buf.bytes := buf.bytes + I32Bytes(height);
    buf.bytes := buf.bytes + [relay];
    payload := buf.bytes;
  }

  /** The user agent sits where readers of version messages look for it, at octet 80, exactly
      when addresses at the init version carry no time field. */
  lemma UserAgentOffset(app: AppState, version: u32, services: u64, timestamp: int, recv: Address, from: Address,
                        nonce: u64)
    ensures |VersionPrefix(app, version, services, timestamp, recv, from, nonce)| == 80
            <==> app.caddrTimeVersion == 0 || app.initVersion < app.caddrTimeVersion
  {
  }
}
