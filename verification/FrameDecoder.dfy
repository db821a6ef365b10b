/** Frames in a byte stream: what a whole stream means, what one round of the handshake's inner
    loop does to its buffer, and that the two agree whatever arrives later. */
module FrameDecoder {
  import opened Bytes
  import opened Net
  import opened Serialize
  import opened Message

  /** What a byte stream says: messages, and the end of all sense after an invalid header. */
  datatype Item = Msg(command: seq<byte>, payload: seq<byte>) | Garbage

  // ---------------------------------------------------------------- reference decoding

  predicate HeaderAt(magic: Octets4, b: seq<byte>, i: nat) {
    i + HEADER_SIZE <= |b| && b[i..i + 4] == magic
  }

  /** The first place at or after `i` where a whole header starts with the magic. */
  function FirstHeader(magic: Octets4, b: seq<byte>, i: nat): (r: Option<nat>)
    ensures r.Some? ==> i <= r.value && HeaderAt(magic, b, r.value)
    ensures forall k :: i <= k && (r.Some? ==> k < r.value) ==> !HeaderAt(magic, b, k)
    decreases |b| - i
  {
    if i + HEADER_SIZE > |b| then None
    else if b[i..i + 4] == magic then Some(i)
    else FirstHeader(magic, b, i + 1)
  }

  /** The header at the front of `s`. */
  function HeaderOf(s: seq<byte>): MessageHeader
    requires HEADER_SIZE <= |s|
  {
    DeserializeHeader(s[..HEADER_SIZE]).value
  }

  function FrameSize(s: seq<byte>): (n: nat)
    requires HEADER_SIZE <= |s|
    ensures n >= HEADER_SIZE
  {
    HEADER_SIZE + HeaderOf(s).payloadSize
  }

  function PayloadOf(s: seq<byte>): seq<byte>
    requires HEADER_SIZE <= |s| && FrameSize(s) <= |s|
  {
    s[HEADER_SIZE..FrameSize(s)]
  }

  predicate Checks(app: AppState, s: seq<byte>)
    requires HEADER_SIZE <= |s| && FrameSize(s) <= |s|
  {
    app.Checksum(PayloadOf(s)) == HeaderOf(s).checksum
  }

  /** All the bytes at once: what they decode to, by definition. */
  function Decoded(app: AppState, b: seq<byte>): seq<Item>
    decreases |b|, 1
  {
    match FirstHeader(app.messageStart, b, 0)
    case None => []
    case Some(i) => DecodedHere(app, b[i..])
  }

  /** The same for bytes that start with a header. */
  function DecodedHere(app: AppState, s: seq<byte>): seq<Item>
    requires HEADER_SIZE <= |s|
    decreases |s|, 0
  {
    if !HeaderOf(s).IsValid(app) then [Garbage]
    else if FrameSize(s) > |s| then []
    else
      (if Checks(app, s) then [Msg(HeaderOf(s).CommandStr(), PayloadOf(s))] else [])
      + Decoded(app, s[FrameSize(s)..])
  }

  // ---------------------------------------------------------------- one frame of the loop

  datatype Pull =
    | Starved(kept: seq<byte>)
    | Corrupt(kept: seq<byte>)
    | Skipped(rest: seq<byte>)
    | Pulled(msg: Item, rest: seq<byte>)

  /** One round of the inner loop on the buffer: too little to go on, an invalid header, a
      frame whose checksum is wrong, or a frame. Without a header only the last 23 octets stay. */
  function PullFrame(app: AppState, buf: seq<byte>): Pull {
    match FirstHeader(app.messageStart, buf, 0)
    case None => Starved(if |buf| > 23 then buf[|buf| - 23..] else buf)
    case Some(start) =>
      var b := buf[start..];
      if !HeaderOf(b).IsValid(app) then Corrupt(b)
      else if |b| < FrameSize(b) then Starved(b)
      else if !Checks(app, b) then Skipped(b[FrameSize(b)..])
      else Pulled(Msg(HeaderOf(b).CommandStr(), PayloadOf(b)), b[FrameSize(b)..])
  }

  lemma {:induction false} FirstHeaderIs(magic: Octets4, b: seq<byte>, i: nat, j: nat)
    requires i <= j && HeaderAt(magic, b, j)
    requires forall k :: i <= k < j ==> !HeaderAt(magic, b, k)
    ensures FirstHeader(magic, b, i) == Some(j)
    decreases j - i
  {
    if i < j {
      assert !HeaderAt(magic, b, i);
      FirstHeaderIs(magic, b, i + 1, j);
    }
  }

  lemma NoHeaderIsNone(magic: Octets4, b: seq<byte>, i: nat)
    requires forall k :: i <= k ==> !HeaderAt(magic, b, k)
    ensures FirstHeader(magic, b, i) == None
  {
  }

  lemma FirstHeaderShifts(magic: Octets4, b: seq<byte>, k: nat)
    requires k <= |b|
    requires forall i :: 0 <= i < k ==> !HeaderAt(magic, b, i)
    ensures FirstHeader(magic, b[k..], 0)
            == match FirstHeader(magic, b, 0) case None => None case Some(i) => if k <= i then Some(i - k) else None
    ensures FirstHeader(magic, b, 0).Some? ==> k <= FirstHeader(magic, b, 0).value
  {
    var t := b[k..];
    forall i: nat | k <= i
      ensures HeaderAt(magic, b, i) <==> HeaderAt(magic, t, i - k)
    {
      if i + HEADER_SIZE <= |b| {
        assert b[i..i + 4] == t[i - k..i - k + 4];
      }
    }
    match FirstHeader(magic, b, 0)
    case None =>
      forall i: nat
        ensures !HeaderAt(magic, t, i)
      {
        assert HeaderAt(magic, b, i + k) <==> HeaderAt(magic, t, i);
      }
      NoHeaderIsNone(magic, t, 0);
    case Some(i) =>
      forall m | 0 <= m < i - k
        ensures !HeaderAt(magic, t, m)
      {
        assert HeaderAt(magic, b, m + k) <==> HeaderAt(magic, t, m);
      }
      FirstHeaderIs(magic, t, 0, i - k);
  }

  /** Octets before every header may be dropped. */
  lemma DropBeforeHeader(app: AppState, b: seq<byte>, k: nat)
    requires k <= |b|
    requires forall i :: 0 <= i < k ==> !HeaderAt(app.messageStart, b, i)
    ensures Decoded(app, b[k..]) == Decoded(app, b)
  {
    FirstHeaderShifts(app.messageStart, b, k);
    match FirstHeader(app.messageStart, b, 0)
    case None =>
    case Some(i) => assert b[k..][i - k..] == b[i..];
  }

  /** A header found stays the first one however the buffer grows. */
  lemma HeaderStays(magic: Octets4, b: seq<byte>, c: seq<byte>)
    requires FirstHeader(magic, b, 0).Some?
    ensures FirstHeader(magic, b + c, 0) == FirstHeader(magic, b, 0)
  {
    var j := FirstHeader(magic, b, 0).value;
    forall i | 0 <= i <= j
      ensures HeaderAt(magic, b + c, i) <==> HeaderAt(magic, b, i)
    {
      assert (b + c)[i..i + 4] == b[i..i + 4];
    }
    FirstHeaderIs(magic, b + c, 0, j);
  }

  /** Keeping exactly the last 23 octets of a buffer without a header loses no header, whatever
      arrives next. */
  lemma TailKeepsHeaders(app: AppState, b: seq<byte>, c: seq<byte>)
    requires FirstHeader(app.messageStart, b, 0).None? && |b| > 23
    ensures Decoded(app, b[|b| - 23..] + c) == Decoded(app, b + c)
  {
    var k := |b| - 23;
    forall i | 0 <= i < k
      ensures !HeaderAt(app.messageStart, b + c, i)
    {
      assert !HeaderAt(app.messageStart, b, i);
      assert (b + c)[i..i + 4] == b[i..i + 4];
    }
    DropBeforeHeader(app, b + c, k);
    assert (b + c)[k..] == b[k..] + c;
  }

  /** What one round promises about the bytes `c` still to come: it decodes what the reference
      decodes first, and every round that goes on shrinks the buffer by a header at least. */
  ghost predicate PullSound(app: AppState, buf: seq<byte>, c: seq<byte>, pull: Pull) {
    match pull
    case Starved(kept) => Decoded(app, kept) == [] && Decoded(app, kept + c) == Decoded(app, buf + c)
    case Corrupt(kept) =>
      Decoded(app, kept) == [Garbage] && Decoded(app, kept + c) == [Garbage] && Decoded(app, buf + c) == [Garbage]
    case Skipped(rest) => |rest| + 24 <= |buf| && Decoded(app, rest + c) == Decoded(app, buf + c)
    case Pulled(msg, rest) => msg.Msg? && |rest| + 24 <= |buf| && [msg] + Decoded(app, rest + c) == Decoded(app, buf + c)
  }

  /** One round decodes what the reference decodes first, whatever arrives next. */
  lemma PullAgrees(app: AppState, buf: seq<byte>, c: seq<byte>)
    ensures PullSound(app, buf, c, PullFrame(app, buf))
  {
    var magic := app.messageStart;
    match FirstHeader(magic, buf, 0)
    case None =>
      if |buf| > 23 {
        TailKeepsHeaders(app, buf, c);
        TailKeepsHeaders(app, buf, []);
        assert buf[|buf| - 23..] + [] == buf[|buf| - 23..] && buf + [] == buf;
      }
    case Some(start) =>
      HeaderStays(magic, buf, c);
      PullAgreesAt(app, buf, c, start);
  }

  lemma PullAgreesAt(app: AppState, buf: seq<byte>, c: seq<byte>, start: nat)
    requires FirstHeader(app.messageStart, buf, 0) == Some(start) == FirstHeader(app.messageStart, buf + c, 0)
    ensures PullSound(app, buf, c, PullFrame(app, buf))
  {
    var b := buf[start..];
    assert (buf + c)[start..] == b + c;
    GrownFrame(app, b, c);
    DecodedFromHeader(app, buf, start);
    DecodedFromHeader(app, b + c, 0);
  }

  lemma DecodedFromHeader(app: AppState, buf: seq<byte>, start: nat)
    requires FirstHeader(app.messageStart, buf, 0) == Some(start)
    ensures Decoded(app, buf) == DecodedHere(app, buf[start..])
    ensures FirstHeader(app.messageStart, buf[start..], 0) == Some(0)
    ensures Decoded(app, buf[start..]) == DecodedHere(app, buf[start..])
  {
    FirstHeaderShifts(app.messageStart, buf, start);
    DropBeforeHeader(app, buf, start);
  }

  /** More bytes behind a frame change nothing about the frame. */
  lemma GrownFrame(app: AppState, b: seq<byte>, c: seq<byte>)
    requires HEADER_SIZE <= |b|
    ensures HeaderOf(b + c) == HeaderOf(b) && FrameSize(b + c) == FrameSize(b)
    ensures FrameSize(b) <= |b| ==> Checks(app, b + c) == Checks(app, b) && PayloadOf(b + c) == PayloadOf(b)
    ensures FrameSize(b) <= |b| ==> (b + c)[FrameSize(b)..] == b[FrameSize(b)..] + c
  {
    assert (b + c)[..HEADER_SIZE] == b[..HEADER_SIZE];
    if FrameSize(b) <= |b| {
      assert (b + c)[HEADER_SIZE..FrameSize(b)] == b[HEADER_SIZE..FrameSize(b)];
    }
  }
}
