/** The octets of the peer-to-peer protocol, one by one, and exactly what is text. */
module WireFormat {
  import opened Bytes
  import opened Net
  import opened Serialize
  import opened Message
  import opened HandshakeSafety

  // ---------------------------------------------------------------- numbers

  lemma LE2(v: nat)
    requires v < 0x1_0000
    ensures LE(v, 2) == [v % 0x100, v / 0x100]
  {
    LEStep(v, 2, v / 0x100, v % 0x100);
    LEStep(v / 0x100, 1, 0, v / 0x100);
  }

  lemma LE4(v: nat)
    requires v < 0x1_0000_0000
    ensures LE(v, 4) == [v % 0x100, v / 0x100 % 0x100, v / 0x1_0000 % 0x100, v / 0x100_0000]
  {
    hide LE;
    Quotients(v);
    LEStep(v, 4, v / 0x100, v % 0x100);
    LEStep(v / 0x100, 3, v / 0x1_0000, v / 0x100 % 0x100);
    LE2(v / 0x1_0000);
  }

  lemma Quotients(v: nat)
    ensures v / 0x100 / 0x100 == v / 0x1_0000 && v / 0x1_0000 / 0x100 == v / 0x100_0000
    ensures v / 0x100 == 0x100 * (v / 0x1_0000) + v / 0x100 % 0x100
    ensures v < 0x1_0000_0000 ==> v / 0x1_0000 < 0x1_0000
  {
  }

  lemma LE8(v: nat)
    requires v < 0x1_0000_0000_0000_0000
    ensures LE(v, 8) == LE(v % 0x1_0000_0000, 4) + LE(v / 0x1_0000_0000, 4)
  {
    hide LE;
    var a, b := v % 0x1_0000_0000, v / 0x1_0000_0000;
    LESplits(a, b, 4, 4);
    Pow256Values();
  }

  lemma {:induction false} LESplits(a: nat, b: nat, n: nat, m: nat)
    requires a < Pow256(n)
    ensures LE(a + Pow256(n) * b, n + m) == LE(a, n) + LE(b, m)
  {
    if n == 0 {
      assert a == 0;
      assert LE(a, 0) + LE(b, m) == LE(b, m);
    } else {
      var p := Pow256(n - 1);
      ShiftDown(a, b, p);
      LESplits(a / 256, b, n - 1, m);
      LEStep(a + Pow256(n) * b, n + m, a / 256 + p * b, a % 256);
      LEStep(a, n, a / 256, a % 256);
      assert [a % 256] + (LE(a / 256, n - 1) + LE(b, m)) == ([a % 256] + LE(a / 256, n - 1)) + LE(b, m);
    }
  }

  lemma ShiftDown(a: nat, b: nat, p: nat)
    requires a < 256 * p
    ensures a + (256 * p) * b == 256 * (a / 256 + p * b) + a % 256 && a / 256 < p
  {
    assert (256 * p) * b == 256 * (p * b);
  }

  /** The four written forms of an integer, octet by octet. */
  lemma VarintExactly(v: u64)
    ensures v < 253 ==> Varint(v) == [v]
    ensures 253 <= v < 0x1_0000 ==> Varint(v) == [253, v % 0x100, v / 0x100]
    ensures 0x1_0000 <= v < 0x1_0000_0000 ==>
              Varint(v) == [254, v % 0x100, v / 0x100 % 0x100, v / 0x1_0000 % 0x100, v / 0x100_0000]
    ensures 0x1_0000_0000 <= v ==> Varint(v) == [255] + LE(v % 0x1_0000_0000, 4) + LE(v / 0x1_0000_0000, 4)
  {
    hide LE;
    if v < 0x1_0000 {
      LE2(v);
    } else if v < 0x1_0000_0000 {
      LE4(v);
    } else {
      LE8(v);
    }
  }

  /** Exactly when an integer can be read: when its first octet and those it announces are there;
      on failure the position is at most one further. */
  lemma VarintReadExactly(data: seq<byte>, pos: nat)
    ensures var size := if pos >= |data| || data[pos] < 253 then 1 else if data[pos] == 253 then 3 else if data[pos] == 254 then 5 else 9;
            var r := ReadVarint(data, pos);
            && (r.value.Some? <==> pos + size <= |data|)
            && (r.value.Some? ==> r.pos == pos + size)
            && (r.value.None? ==> r.pos == if pos < |data| then pos + 1 else pos)
  {
    hide FromLE, LE;
  }

  /** A string is read only if all of it is there and it is text; else the position stays behind
      its length. */
  lemma VarstrReadExactly(data: seq<byte>, pos: nat)
    ensures var len, r := ReadVarint(data, pos), ReadVarstr(data, pos);
            && (len.value.None? ==> r == Read(None, len.pos))
            && (len.value.Some? ==>
                  var end := len.pos + len.value.value;
                  if end <= |data| && ValidUtf8(data[len.pos..end]) then r == Read(Some(data[len.pos..end]), end)
                  else r == Read(None, len.pos))
  {
    hide ReadVarint, ValidUtf8;
  }

  // ---------------------------------------------------------------- layouts

  /** Where everything is in a header: magic, command filled up with zeros, size, checksum. */
  lemma HeaderLayout(app: AppState, command: seq<byte>, payload: seq<byte>)
    requires |command| <= 12 && |payload| < 0x1_0000_0000
    ensures var s := NewHeader(app, command, |payload|).WithChecksum(app, payload).Serialize();
            && |s| == 24 && s[0..4] == app.messageStart
            && s[4..4 + |command|] == command && (forall i :: 4 + |command| <= i < 16 ==> s[i] == 0)
            && s[16..20] == LE(|payload|, 4) && s[20..24] == app.sha256d(payload)[..4]
    ensures NewHeader(app, command, 0).Serialize()[20..24] == [0, 0, 0, 0]
  {
    hide LE;
    var c := NewHeader(app, command, 0).command;
    assert command[..|command|] == command;
    var s := NewHeader(app, command, |payload|).WithChecksum(app, payload).Serialize();
    HeaderPieces(app.messageStart, c, LE(|payload|, 4), app.sha256d(payload)[..4]);
    assert forall i :: 4 <= i < 16 ==> s[i] == c[i - 4];
  }

  lemma HeaderPieces(a: seq<byte>, b: seq<byte>, c: seq<byte>, d: seq<byte>)
    requires |a| == 4 && |b| == 12 && |c| == 4 && |d| == 4
    ensures var s := a + b + c + d;
            |s| == 24 && s[0..4] == a && s[4..16] == b && s[16..20] == c && s[20..24] == d
  {
  }

  /** Where everything is in an address: the time if there is one, services, the sixteen octets of
      the address, and the port with its high octet first. */
  lemma AddressLayout(app: AppState, a: Address, version: u32)
    ensures var timed := if app.caddrTimeVersion == 0 then version != app.initVersion else version >= app.caddrTimeVersion;
            var s, at := AddressBytes(app, a, version), if timed then 4 else 0;
            && |s| == at + 26
            && (timed ==> s[0..4] == LE(a.time, 4))
            && s[at..at + 8] == LE(a.services, 8) && s[at + 8..at + 24] == a.addr.ip
            && s[at + 24] == a.port / 256 && s[at + 25] == a.port % 256
  {
    BE2(a.port);
    hide LE, BE;
  }

  /** Where everything is in a version message whose addresses carry no time: version, services,
      timestamp, the two addresses, the nonce, and at octet 80 the user agent. */
  lemma VersionLayout(app: AppState, version: u32, services: u64, timestamp: int, recv: Address, from: Address,
                      nonce: u64, agent: Text, height: i32, relay: byte)
    requires |agent| < 0x1_0000_0000_0000_0000
    requires app.caddrTimeVersion == 0 || app.initVersion < app.caddrTimeVersion
    ensures var s := VersionPayload(app, version, services, timestamp, recv, from, nonce, agent, height, relay);
            var at := 80 + |Varstr(agent)|;
            && |s| == at + 5
            && s[0..4] == LE(version, 4) && s[4..12] == LE(services, 8)
            && s[12..20] == LE(timestamp % 0x1_0000_0000_0000_0000, 8)
            && s[20..46] == AddressBytes(app, recv, app.initVersion)
            && s[46..72] == AddressBytes(app, from, app.initVersion)
            && s[72..80] == LE(nonce, 8) && s[80..at] == Varstr(agent)
            && s[at..at + 4] == LE(if height < 0 then height + 0x1_0000_0000 else height, 4) && s[at + 4] == relay
  {
    AddressLayout(app, recv, app.initVersion);
    AddressLayout(app, from, app.initVersion);
    hide LE, AddressBytes, Varstr;
    PiecesPlaced(LE(version, 4), LE(services, 8), I64Bytes(timestamp), AddressBytes(app, recv, app.initVersion),
                 AddressBytes(app, from, app.initVersion), LE(nonce, 8), Varstr(agent), I32Bytes(height), [relay]);
  }

  lemma PiecesPlaced(a: seq<byte>, b: seq<byte>, c: seq<byte>, d: seq<byte>, e: seq<byte>, f: seq<byte>, g: seq<byte>,
                     h: seq<byte>, i: seq<byte>)
    requires |a| == 4 && |b| == 8 && |c| == 8 && |d| == 26 && |e| == 26 && |f| == 8 && |h| == 4 && |i| == 1
    ensures var s, at := (a + b + c + d + e + f) + g + h + i, 80 + |g|;
            && s[0..4] == a && s[4..12] == b && s[12..20] == c && s[20..46] == d && s[46..72] == e && s[72..80] == f
            && s[80..at] == g && s[at..at + 4] == h && s[at + 4] == i[0]
  {
  }

  // ---------------------------------------------------------------- text

  /** A Unicode scalar value. */
  predicate Scalar(c: int) { 0 <= c < 0xd800 || 0xe000 <= c < 0x11_0000 }

  /** Its UTF-8 (RFC 3629, section 3). */
  function Encoded(c: int): (s: seq<byte>)
    requires Scalar(c)
    ensures s != []
  {
    if c < 0x80 then [c]
    else if c < 0x800 then [0xc0 + c / 64, 0x80 + c % 64]
    else if c < 0x1_0000 then [0xe0 + c / 4096, 0x80 + c / 64 % 64, 0x80 + c % 64]
    else [0xf0 + c / 262144, 0x80 + c / 4096 % 64, 0x80 + c / 64 % 64, 0x80 + c % 64]
  }

  predicate Scalars(cs: seq<int>) { forall i :: 0 <= i < |cs| ==> Scalar(cs[i]) }

  function AllEncoded(cs: seq<int>): seq<byte>
    requires Scalars(cs)
  {
    if cs == [] then [] else Encoded(cs[0]) + AllEncoded(cs[1..])
  }

  lemma EncodedFits(c: int, rest: seq<byte>)
    requires Scalar(c)
    ensures var s := Encoded(c) + rest;
            HeadFits(s) && HeadSize(s[0]) == |Encoded(c)| && s[HeadSize(s[0])..] == rest
  {
  }

  lemma {:induction false} EncodingsAreText(cs: seq<int>)
    requires Scalars(cs)
    ensures ValidUtf8(AllEncoded(cs))
  {
    hide ValidUtf8, Encoded, HeadFits;
    if cs == [] {
      NothingIsText();
    } else {
      EncodingsAreText(cs[1..]);
      EncodedFits(cs[0], AllEncoded(cs[1..]));
      Utf8Step(AllEncoded(cs));
    }
  }

  lemma NothingIsText()
    ensures ValidUtf8([])
  {
  }

  /** The character a well-formed head stands for. */
  function HeadChar(s: seq<byte>): int
    requires s != [] && HeadFits(s)
  {
    if s[0] < 0x80 then s[0]
    else if s[0] <= 0xdf then (s[0] as int - 0xc0) * 64 + (s[1] as int - 0x80)
    else if s[0] <= 0xef then (s[0] as int - 0xe0) * 4096 + (s[1] as int - 0x80) * 64 + (s[2] as int - 0x80)
    else (s[0] as int - 0xf0) * 262144 + (s[1] as int - 0x80) * 4096 + (s[2] as int - 0x80) * 64 + (s[3] as int - 0x80)
  }

  lemma HeadIsEncoding(s: seq<byte>)
    requires s != [] && HeadFits(s)
    ensures Scalar(HeadChar(s)) && Encoded(HeadChar(s)) == s[..HeadSize(s[0])]
  {
    if s[0] < 0x80 {
    } else if s[0] <= 0xdf {
      TwoOctets(s);
    } else if s[0] <= 0xef {
      ThreeOctets(s);
    } else {
      FourOctets(s);
    }
  }

  lemma TwoOctets(s: seq<byte>)
    requires s != [] && HeadFits(s) && 0x80 <= s[0] <= 0xdf
    ensures Scalar(HeadChar(s)) && Encoded(HeadChar(s)) == s[..HeadSize(s[0])]
  {
    assert Continues(s[1]);
    LastDigit(s[0] as int - 0xc0, s[1] as int - 0x80);
  }

  lemma ThreeOctets(s: seq<byte>)
    requires s != [] && HeadFits(s) && 0xe0 <= s[0] <= 0xef
    ensures Scalar(HeadChar(s)) && Encoded(HeadChar(s)) == s[..HeadSize(s[0])]
  {
    assert Continues(s[1]) && Continues(s[2]);
    var a, b, c := s[0] as int - 0xe0, s[1] as int - 0x80, s[2] as int - 0x80;
    LastDigits(a, b, c);
    assert HeadChar(s) == a * 4096 + b * 64 + c;
    assert s[..3] == [s[0], s[1], s[2]];
  }

  lemma FourOctets(s: seq<byte>)
    requires s != [] && HeadFits(s) && s[0] > 0xef
    ensures Scalar(HeadChar(s)) && Encoded(HeadChar(s)) == s[..HeadSize(s[0])]
  {
    assert Continues(s[1]) && Continues(s[2]) && Continues(s[3]);
    var a, b, c, d := s[0] as int - 0xf0, s[1] as int - 0x80, s[2] as int - 0x80, s[3] as int - 0x80;
    Digits4(a, b, c, d);
    assert HeadChar(s) == a * 262144 + b * 4096 + c * 64 + d;
    assert s[..4] == [s[0], s[1], s[2], s[3]];
  }

  lemma LastDigit(q: nat, r: nat)
    requires r < 64
    ensures (q * 64 + r) / 64 == q && (q * 64 + r) % 64 == r
  {
  }

  lemma TwiceDivided(v: nat)
    ensures v / 4096 == v / 64 / 64
  {
  }

  lemma ThriceDivided(v: nat)
    ensures v / 262144 == v / 4096 / 64
  {
  }

  lemma LastDigits(a: nat, b: nat, c: nat)
    requires b < 64 && c < 64
    ensures var v := a * 4096 + b * 64 + c;
            v / 4096 == a && v / 64 == a * 64 + b && v / 64 % 64 == b && v % 64 == c
  {
    var v := a * 4096 + b * 64 + c;
    LastDigit(a * 64 + b, c);
    LastDigit(a, b);
    TwiceDivided(v);
    assert v == (a * 64 + b) * 64 + c;
  }

  lemma Digits4(a: nat, b: nat, c: nat, d: nat)
    requires b < 64 && c < 64 && d < 64
    ensures var v := a * 262144 + b * 4096 + c * 64 + d;
            v / 262144 == a && v / 4096 % 64 == b && v / 64 % 64 == c && v % 64 == d
  {
    var v := a * 262144 + b * 4096 + c * 64 + d;
    LastDigits(a * 64 + b, c, d);
    assert v == (a * 64 + b) * 4096 + c * 64 + d;
    LastDigit(a, b);
    ThriceDivided(v);
  }

  lemma {:induction false} TextIsEncodings(s: seq<byte>) returns (cs: seq<int>)
    requires ValidUtf8(s)
    ensures Scalars(cs) && AllEncoded(cs) == s
    decreases |s|
  {
    hide ValidUtf8, Encoded, HeadFits, HeadChar, HeadSize, Scalar;
    if s == [] {
      cs := [];
    } else {
      Utf8Step(s);
      HeadIsEncoding(s);
      HeadSizePositive(s[0]);
      var n := HeadSize(s[0]);
      HeadWithin(s);
      var rest := TextIsEncodings(s[n..]);
      cs := [HeadChar(s)] + rest;
      assert cs[1..] == rest;
      assert s == s[..n] + s[n..];
    }
  }

  lemma HeadSizePositive(b: byte)
    ensures HeadSize(b) > 0
  {
  }

  lemma HeadWithin(s: seq<byte>)
    requires s != [] && HeadFits(s)
    ensures HeadSize(s[0]) <= |s|
  {
  }

  /** Text is exactly what scalar values encode to. */
  lemma TextExactly(s: seq<byte>)
    ensures ValidUtf8(s) <==> exists cs: seq<int> :: Scalars(cs) && AllEncoded(cs) == s
  {
    if ValidUtf8(s) {
      var cs := TextIsEncodings(s);
    }
    forall cs: seq<int> | Scalars(cs) && AllEncoded(cs) == s
      ensures ValidUtf8(s)
    {
      EncodingsAreText(cs);
    }
  }
}
