/** Variable-length integers and strings of the peer-to-peer protocol. */
module Serialize {
  import opened Bytes

  /** What a reader returns: the value or an error, and where it left the position. */
  datatype Read<+T> = Read(value: Option<T>, pos: nat)

  // ---------------------------------------------------------------- integers

  function Varint(v: u64): seq<byte> {
    if v < 0xfd then [v]
    else if v <= 0xffff then [0xfd] + LE(v, 2)
    else if v <= 0xffff_ffff then [0xfe] + LE(v, 4)
    else [0xff] + LE(v, 8)
  }

  /** The little-endian number in the `n` octets after the prefix at `pos`. */
  function ReadWide(data: seq<byte>, pos: nat, n: nat): Read<u64>
    requires pos < |data| && n in {2, 4, 8}
  {
    if pos + 1 + n > |data| then Read(None, pos + 1)
    else
      LEOfFromLE(data[pos + 1..pos + 1 + n]);
      Pow256Values();
      Read(Some(FromLE(data[pos + 1..pos + 1 + n])), pos + 1 + n)
  }

  function ReadVarint(data: seq<byte>, pos: nat): Read<u64> {
    if pos >= |data| then Read(None, pos)
    else if data[pos] == 0xff then ReadWide(data, pos, 8)
    else if data[pos] == 0xfe then ReadWide(data, pos, 4)
    else if data[pos] == 0xfd then ReadWide(data, pos, 2)
    else Read(Some(data[pos]), pos + 1)
  }

  method WriteVarint(buf: ByteVec, val: u64)
    modifies buf
    ensures buf.bytes == old(buf.bytes) + Varint(val)
  {
    if val < 0xfd {
      buf.bytes := buf.bytes + [val];
    } else if val <= 0xffff {
      buf.bytes := buf.bytes + [0xfd];
      buf.bytes := buf.bytes + LE(val, 2);
    } else if val <= 0xffff_ffff {
      buf.bytes := buf.bytes + [0xfe];
      buf.bytes := buf.bytes + LE(val, 4);
    } else {
      buf.bytes := buf.bytes + [0xff];
      buf.bytes := buf.bytes + LE(val, 8);
    }
  }

  method ReadVarintAt(data: seq<byte>, cur: Cursor) returns (r: Option<u64>)
    modifies cur
    ensures Read(r, cur.pos) == ReadVarint(data, old(cur.pos))
  {
    if cur.pos >= |data| {
      return None;
    }
    var prefix := data[cur.pos];
    cur.pos := cur.pos + 1;
    var n: nat := if prefix == 0xff then 8 else if prefix == 0xfe then 4 else if prefix == 0xfd then 2 else 0;
    if n == 0 {
      return Some(prefix);
    }
    if cur.pos + n > |data| {
      return None;
    }
    var bytes := data[cur.pos..cur.pos + n];
    LEOfFromLE(bytes);
    Pow256Values();
    cur.pos := cur.pos + n;
    return Some(FromLE(bytes));
  }

  /** Self-delimiting: whatever comes before and after, what was written is read back, and
      reading stops where writing did. */
  lemma VarintRoundTrip(pre: seq<byte>, v: u64, post: seq<byte>)
    ensures ReadVarint(pre + Varint(v) + post, |pre|) == Read(Some(v), |pre| + |Varint(v)|)
  {
    var data := pre + Varint(v) + post;
    assert data[|pre|] == Varint(v)[0];
    Pow256Values();
    if v >= 0xfd {
      var n := |Varint(v)| - 1;
      FromLEOfLE(v, n);
      assert data[|pre| + 1..|pre| + 1 + n] == LE(v, n);
    }
  }

  /** No shorter string of octets reads as the same value. */
  lemma VarintIsShortest(e: seq<byte>, v: u64)
    requires ReadVarint(e, 0) == Read(Some(v), |e|)
    ensures |Varint(v)| <= |e|
  {
    Pow256Values();
    if |e| > 1 {
      LEOfFromLE(e[1..]);
      assert e[1..1 + (|e| - 1)] == e[1..];
    }
  }

  // ---------------------------------------------------------------- strings

  predicate Continues(b: byte) { 0x80 <= b <= 0xbf }

  /** Well-formed UTF-8 (RFC 3629, section 4). */
  predicate ValidUtf8(s: seq<byte>)
    decreases |s|
  {
    if s == [] then true
    else if s[0] < 0x80 then ValidUtf8(s[1..])
    else if 0xc2 <= s[0] <= 0xdf then |s| >= 2 && Continues(s[1]) && ValidUtf8(s[2..])
    else if 0xe0 <= s[0] <= 0xef then
      && |s| >= 3 && Continues(s[1]) && Continues(s[2])
      && (s[0] == 0xe0 ==> s[1] >= 0xa0) && (s[0] == 0xed ==> s[1] <= 0x9f)
      && ValidUtf8(s[3..])
    else if 0xf0 <= s[0] <= 0xf4 then
      && |s| >= 4 && Continues(s[1]) && Continues(s[2]) && Continues(s[3])
      && (s[0] == 0xf0 ==> s[1] >= 0x90) && (s[0] == 0xf4 ==> s[1] <= 0x8f)
      && ValidUtf8(s[4..])
    else false
  }

  /** A Rust `String`, as the octets it consists of. */
  type Text = s: seq<byte> | ValidUtf8(s)

  lemma {:induction false} AsciiIsUtf8(s: seq<byte>)
    requires forall i :: 0 <= i < |s| ==> s[i] < 0x80
    ensures ValidUtf8(s)
  {
    if s != [] {
      AsciiIsUtf8(s[1..]);
    }
  }

  function HeadSize(first: byte): nat {
    if first < 0x80 then 1 else if first <= 0xdf then 2 else if first <= 0xef then 3 else 4
  }

  /** The first character of `s` is well-formed. */
  predicate HeadFits(s: seq<byte>)
    requires s != []
  {
    && HeadSize(s[0]) <= |s|
    && !(0x80 <= s[0] < 0xc2) && s[0] <= 0xf4
    && (forall i :: 1 <= i < HeadSize(s[0]) ==> Continues(s[i]))
    && (s[0] == 0xe0 ==> s[1] >= 0xa0) && (s[0] == 0xed ==> s[1] <= 0x9f)
    && (s[0] == 0xf0 ==> s[1] >= 0x90) && (s[0] == 0xf4 ==> s[1] <= 0x8f)
  }

  lemma Utf8Step(s: seq<byte>)
    requires s != []
    ensures ValidUtf8(s) <==> HeadFits(s) && ValidUtf8(s[HeadSize(s[0])..])
  {
  }

  /** Text behind text is text. */
  lemma {:induction false} Utf8Joins(a: seq<byte>, b: seq<byte>)
    requires ValidUtf8(a) && ValidUtf8(b)
    ensures ValidUtf8(a + b)
    decreases |a|
  {
    hide *;
    if a == [] {
      assert a + b == b;
    } else {
      Utf8Step(a);
      Utf8Step(a + b);
      HeadStays(a, b);
      Utf8Joins(a[HeadSize(a[0])..], b);
    }
  }

  lemma HeadStays(a: seq<byte>, b: seq<byte>)
    requires a != [] && HeadFits(a)
    ensures HeadFits(a + b) && HeadSize((a + b)[0]) == HeadSize(a[0]) > 0 && HeadSize(a[0]) <= |a|
    ensures (a + b)[HeadSize(a[0])..] == a[HeadSize(a[0])..] + b
  {
  }

  /** `len() as u64` of a string; lengths fit 64 bits. */
  function Varstr(s: Text): seq<byte>
    requires |s| < 0x1_0000_0000_0000_0000
  {
    Varint(|s|) + s
  }

  function ReadVarstr(data: seq<byte>, pos: nat): Read<Text> {
    var len := ReadVarint(data, pos);
    if len.value.None? then Read(None, len.pos)
    else if len.pos + len.value.value > |data| then Read(None, len.pos)
    else if !ValidUtf8(data[len.pos..len.pos + len.value.value]) then Read(None, len.pos)
    else Read(Some(data[len.pos..len.pos + len.value.value]), len.pos + len.value.value)
  }

  method WriteVarstr(buf: ByteVec, s: Text)
    requires |s| < 0x1_0000_0000_0000_0000
    modifies buf
    ensures buf.bytes == old(buf.bytes) + Varstr(s)
  {
    WriteVarint(buf, |s|);
    buf.bytes := buf.bytes + s;
  }

  method ReadVarstrAt(data: seq<byte>, cur: Cursor) returns (r: Option<Text>)
    modifies cur
    ensures Read(r, cur.pos) == ReadVarstr(data, old(cur.pos))
  {
    var len := ReadVarintAt(data, cur);
    if len.None? {
      return None;
    }
    if cur.pos + len.value > |data| {
      return None;
    }
    var s := data[cur.pos..cur.pos + len.value];
    if !ValidUtf8(s) {
      return None;
    }
    cur.pos := cur.pos + len.value;
    return Some(s);
  }

  lemma VarstrRoundTrip(pre: seq<byte>, s: Text, post: seq<byte>)
    requires |s| < 0x1_0000_0000_0000_0000
    ensures ReadVarstr(pre + Varstr(s) + post, |pre|) == Read(Some(s), |pre| + |Varstr(s)|)
  {
    VarintRoundTrip(pre, |s|, s + post);
    var data := pre + Varstr(s) + post;
    assert data == pre + Varint(|s|) + (s + post);
    var at := |pre| + |Varint(|s|)|;
    assert data[at..at + |s|] == s;
  }
}
