/** Domain names on the wire (RFC 1035, section 4.1.4).

    Text is a sequence of octets: the writer's text is the UTF-8 of a Rust string, and the
    reader's is a string whose code points are the octets read. For ASCII they coincide. */
module DnsName {
  import opened Bytes
  import Collections

  const DOT: byte := 46
  const MAX_LABEL: nat := 63
  const REFERENCE_BITS: byte := 192

  // ---------------------------------------------------------------- labels

  /** `str::split('.')`: at least one part, empty parts included. */
  function Split(s: seq<byte>): (parts: seq<seq<byte>>)
    ensures |parts| >= 1
  {
    if s == [] then [[]]
    else
      var rest := Split(s[1..]);
      if s[0] == DOT then [[]] + rest else [[s[0]] + rest[0]] + rest[1..]
  }

  /** The parts with a dot between each two. */
  function Join(parts: seq<seq<byte>>): seq<byte> {
    if parts == [] then []
    else if |parts| == 1 then parts[0]
    else parts[0] + [DOT] + Join(parts[1..])
  }

  lemma {:induction false} JoinOfSplit(s: seq<byte>)
    ensures Join(Split(s)) == s
  {
    if s != [] {
      hide *;
      JoinOfSplit(s[1..]);
      SplitStep(s);
      var rest := Split(s[1..]);
      if s[0] == DOT {
        JoinStep([[]] + rest);
        assert ([[]] + rest)[1..] == rest;
        assert s == [] + [DOT] + s[1..];
      } else {
        JoinFront(s[0], rest);
        assert s == [s[0]] + s[1..];
      }
    }
  }

  lemma SplitStep(s: seq<byte>)
    requires s != []
    ensures Split(s) == var rest := Split(s[1..]);
                        if s[0] == DOT then [[]] + rest else [[s[0]] + rest[0]] + rest[1..]
  {
  }

  lemma JoinStep(parts: seq<seq<byte>>)
    requires parts != []
    ensures Join(parts) == if |parts| == 1 then parts[0] else parts[0] + [DOT] + Join(parts[1..])
  {
  }

  lemma JoinFront(c: byte, parts: seq<seq<byte>>)
    requires parts != []
    ensures Join([[c] + parts[0]] + parts[1..]) == [c] + Join(parts)
  {
    hide *;
    var all := [[c] + parts[0]] + parts[1..];
    Consed([c] + parts[0], parts[1..]);
    JoinStep(all);
    JoinStep(parts);
    if |parts| > 1 {
      Shifted(c, parts[0], Join(parts[1..]));
    }
  }

  lemma Consed<T>(x: T, s: seq<T>)
    ensures ([x] + s)[1..] == s
  {
  }

  lemma Shifted(c: byte, a: seq<byte>, b: seq<byte>)
    ensures [c] + (a + [DOT] + b) == ([c] + a) + [DOT] + b
  {
  }

  predicate Fits(parts: seq<seq<byte>>) {
    forall i :: 0 <= i < |parts| ==> |parts[i]| <= MAX_LABEL
  }

  predicate NoneEmpty(parts: seq<seq<byte>>) {
    forall i :: 0 <= i < |parts| ==> parts[i] != []
  }

  /** Each label behind its length. */
  function Labels(parts: seq<seq<byte>>): seq<byte>
    requires Fits(parts)
  {
    if parts == [] then [] else [|parts[0]|] + parts[0] + Labels(parts[1..])
  }

  lemma {:induction false} LabelsSize(parts: seq<seq<byte>>)
    requires Fits(parts)
    ensures |Labels(parts)| == if parts == [] then 0 else |Join(parts)| + 1
  {
    if |parts| > 1 {
      LabelsSize(parts[1..]);
    } else if parts != [] {
      assert parts[1..] == [];
    }
  }

  lemma {:induction false} LabelsJoin(a: seq<seq<byte>>, b: seq<seq<byte>>)
    requires Fits(a) && Fits(b)
    ensures Fits(a + b) && Labels(a + b) == Labels(a) + Labels(b)
  {
    if a == [] {
      assert a + b == b;
    } else {
      LabelsJoin(a[1..], b);
      assert (a + b)[1..] == a[1..] + b;
      var one, left, right := [|a[0]|] + a[0], Labels(a[1..]), Labels(b);
      assert Labels(a + b) == one + Labels(a[1..] + b);
      assert one + (left + right) == (one + left) + right;
    }
  }

  lemma LabelsPush(parts: seq<seq<byte>>, i: nat)
    requires i < |parts| && Fits(parts[..i]) && |parts[i]| <= MAX_LABEL
    ensures Fits(parts[..i + 1])
    ensures Labels(parts[..i + 1]) == Labels(parts[..i]) + [|parts[i]|] + parts[i]
  {
    assert parts[..i + 1] == parts[..i] + [parts[i]];
    LabelsJoin(parts[..i], [parts[i]]);
    var last := [parts[i]];
    assert last[1..] == [];
    assert Labels(last) == [|parts[i]|] + parts[i];
  }

  // ---------------------------------------------------------------- writing

  /** Names the writer accepts. */
  predicate Writable(name: seq<byte>) { Fits(Split(name)) }

  function NameBytes(name: seq<byte>): seq<byte>
    requires Writable(name)
  {
    Labels(Split(name)) + [0]
  }

  method WriteName(buf: ByteVec, name: seq<byte>) returns (written: Option<nat>)
    modifies buf
    ensures written.Some? <==> Writable(name)
    ensures written.Some? ==> buf.bytes == old(buf.bytes) + NameBytes(name) && written.value == |NameBytes(name)|
  {
    var start := |buf.bytes|;
    var parts := Split(name);
    for i := 0 to |parts|
      invariant Fits(parts[..i])
      invariant buf.bytes == old(buf.bytes) + Labels(parts[..i])
    {
      var part := parts[i];
      if |part| > MAX_LABEL {
        return None;
      }
      LabelsPush(parts, i);
      buf.bytes := buf.bytes + [|part|];
      buf.bytes := buf.bytes + part;
    }
    assert parts[..|parts|] == parts;
    buf.bytes := buf.bytes + [0];
    return Some(|buf.bytes| - start);
  }

  /** Every accepted name takes two octets more than its text: the empty one, too. */
  lemma WrittenSize(name: seq<byte>)
    requires Writable(name)
    ensures |NameBytes(name)| == |name| + 2
  {
    JoinOfSplit(name);
    LabelsSize(Split(name));
  }

  // ---------------------------------------------------------------- reading

  /** A label run: ended by a zero octet, by a pointer, or not at all. */
  datatype LabelRun = Ended(name: seq<byte>, pos: nat) | Jump(name: seq<byte>, target: nat, pos: nat) | Bad

  function RunFrom(data: seq<byte>, pos: nat, name: seq<byte>, first: bool): LabelRun
    decreases |data| - pos
  {
    if pos >= |data| then Bad
    else if data[pos] == 0 then Ended(name, pos + 1)
    else
      var dotted := if first then name else name + [DOT];
      if data[pos] >= REFERENCE_BITS then
        if pos + 1 >= |data| then Bad
        else Jump(dotted, (data[pos] - REFERENCE_BITS) * 256 + data[pos + 1], pos + 2)
      else if data[pos] > MAX_LABEL || pos + 1 + data[pos] > |data| then Bad
      else RunFrom(data, pos + 1 + data[pos], dotted + data[pos + 1..pos + 1 + data[pos]], false)
  }

  datatype Parsed = Name(name: seq<byte>, pos: nat) | Malformed | Overflow

  /** `parse_name` with `depth` stack frames to spare: each pointer followed takes one. */
  function Parse(data: seq<byte>, pos: nat, depth: nat): Parsed
    decreases depth
  {
    if depth == 0 then Overflow
    else
      match RunFrom(data, pos, [], true)
      case Bad => Malformed
      case Ended(name, end) => Name(name, end)
      case Jump(name, target, end) =>
        match Parse(data, target, depth - 1)
        case Name(rest, _) => Name(name + rest, end)
        case other => other
  }

  lemma RunStep(data: seq<byte>, pos: nat, name: seq<byte>, first: bool)
    ensures RunFrom(data, pos, name, first)
            == if pos >= |data| then Bad
               else if data[pos] == 0 then Ended(name, pos + 1)
               else
                 var dotted := if first then name else name + [DOT];
                 if data[pos] >= REFERENCE_BITS then
                   if pos + 1 >= |data| then Bad
                   else Jump(dotted, (data[pos] - REFERENCE_BITS) * 256 + data[pos + 1], pos + 2)
                 else if data[pos] > MAX_LABEL || pos + 1 + data[pos] > |data| then Bad
                 else RunFrom(data, pos + 1 + data[pos], dotted + data[pos + 1..pos + 1 + data[pos]], false)
  {
  }

  method ParseName(data: seq<byte>, cur: Cursor, depth: nat) returns (r: Parsed)
    modifies cur
    ensures r == Parse(data, old(cur.pos), depth)
    ensures r.Name? ==> cur.pos == r.pos
    decreases depth
  {
    hide RunFrom;
    if depth == 0 {
      return Overflow;
    }
    var name: seq<byte> := [];
    var first := true;
    while true
      invariant RunFrom(data, old(cur.pos), [], true) == RunFrom(data, cur.pos, name, first)
      decreases |data| - cur.pos
    {
      RunStep(data, cur.pos, name, first);
      if cur.pos >= |data| {
        return Malformed;
      }
      var octet := data[cur.pos];
      cur.pos := cur.pos + 1;
      if octet == 0 {
        return Name(name, cur.pos);
      }
      if !first {
        name := name + [DOT];
      }
      first := false;
      if octet >= REFERENCE_BITS {
        if cur.pos >= |data| {
          return Malformed;
        }
        var refOffset: nat := (octet - REFERENCE_BITS) * 256 + data[cur.pos];
        cur.pos := cur.pos + 1;
        var refPos := new Cursor(refOffset);
        var rest := ParseName(data, refPos, depth - 1);
        if !rest.Name? {
          return rest;
        }
        return Name(name + rest.name, cur.pos);
      }
      if octet > MAX_LABEL {
        return Malformed;
      }
      var text := ReadLabel(data, cur, octet);
      if text.None? {
        return Malformed;
      }
      name := name + text.value;
    }
  }

  /** The octets of one label, one by one. */
  method ReadLabel(data: seq<byte>, cur: Cursor, octet: nat) returns (text: Option<seq<byte>>)
    modifies cur
    ensures text.Some? <==> old(cur.pos) + octet <= |data| || octet == 0
    ensures text.Some? && octet > 0 ==> text.value == data[old(cur.pos)..old(cur.pos) + octet]
    ensures text.Some? && octet == 0 ==> text.value == []
    ensures text.Some? ==> cur.pos == old(cur.pos) + octet
  {
    var read: seq<byte> := [];
    for i := 0 to octet
      invariant cur.pos == old(cur.pos) + i
      invariant i > 0 ==> cur.pos <= |data| && read == data[old(cur.pos)..cur.pos]
      invariant i == 0 ==> read == []
    {
      if cur.pos >= |data| {
        return None;
      }
      read := read + [data[cur.pos]];
      cur.pos := cur.pos + 1;
    }
    return Some(read);
  }

  lemma {:induction false} RunAdvances(data: seq<byte>, pos: nat, name: seq<byte>, first: bool)
    ensures match RunFrom(data, pos, name, first)
            case Bad => true
            case Ended(_, end) => pos < end <= |data|
            case Jump(_, target, end) => pos < end <= |data| && target < 0x4000
    decreases |data| - pos
  {
    if pos < |data| && data[pos] != 0 && data[pos] <= MAX_LABEL && pos + 1 + data[pos] <= |data| {
      var dotted := if first then name else name + [DOT];
      RunAdvances(data, pos + 1 + data[pos], dotted + data[pos + 1..pos + 1 + data[pos]], false);
    }
  }

  lemma ParsedEndsInside(data: seq<byte>, pos: nat, depth: nat)
    ensures Parse(data, pos, depth).Name? ==> pos < Parse(data, pos, depth).pos <= |data|
  {
    if depth > 0 {
      RunAdvances(data, pos, [], true);
    }
  }

  // ---------------------------------------------------------------- round trip

  /** What `parts` add to a name already started, or not. */
  function Appended(name: seq<byte>, first: bool, parts: seq<seq<byte>>): seq<byte>
    decreases |parts|
  {
    if parts == [] then name
    else Appended((if first then name else name + [DOT]) + parts[0], false, parts[1..])
  }

  lemma {:induction false} AppendedIsJoin(name: seq<byte>, first: bool, parts: seq<seq<byte>>)
    ensures Appended(name, first, parts)
            == if parts == [] then name else (if first then name else name + [DOT]) + Join(parts)
    decreases |parts|
  {
    if parts != [] {
      AppendedIsJoin((if first then name else name + [DOT]) + parts[0], false, parts[1..]);
      var front := if first then name else name + [DOT];
      if |parts| > 1 {
        assert Join(parts) == parts[0] + [DOT] + Join(parts[1..]);
        assert ((front + parts[0]) + [DOT]) + Join(parts[1..]) == front + (parts[0] + [DOT] + Join(parts[1..]));
      }
    }
  }

  lemma OneLabel(data: seq<byte>, pos: nat, text: seq<byte>, name: seq<byte>, first: bool)
    requires 0 < |text| <= MAX_LABEL && pos + 1 + |text| <= |data|
    requires data[pos] == |text| && data[pos + 1..pos + 1 + |text|] == text
    ensures RunFrom(data, pos, name, first)
            == RunFrom(data, pos + 1 + |text|, (if first then name else name + [DOT]) + text, false)
  {
  }

  /** Reading non-empty labels consumes exactly what writing them produced. */
  lemma {:induction false} RunOverLabels(pre: seq<byte>, parts: seq<seq<byte>>, post: seq<byte>, name: seq<byte>,
                                         first: bool)
    requires Fits(parts) && NoneEmpty(parts)
    ensures var data := pre + Labels(parts) + post;
            RunFrom(data, |pre|, name, first)
            == RunFrom(data, |pre| + |Labels(parts)|, Appended(name, first, parts), first && parts == [])
    decreases |parts|
  {
    hide RunFrom, Labels;
    if parts == [] {
      assert Labels(parts) == [] by { LabelsSize(parts); }
    } else {
      var text, rest := parts[0], Labels(parts[1..]);
      LabelsStep(parts);
      LabelPlaced(pre, text, rest, post);
      var data := pre + Labels(parts) + post;
      OneLabel(data, |pre|, text, name, first);
      RunOverLabels(pre + ([|text|] + text), parts[1..], post, (if first then name else name + [DOT]) + text, false);
    }
  }

  lemma LabelsStep(parts: seq<seq<byte>>)
    requires Fits(parts) && parts != []
    ensures Labels(parts) == [|parts[0]|] + parts[0] + Labels(parts[1..])
  {
  }

  lemma LabelPlaced(pre: seq<byte>, text: seq<byte>, rest: seq<byte>, post: seq<byte>)
    requires |text| <= MAX_LABEL
    ensures var data := pre + ([|text|] + text + rest) + post;
            && data == (pre + ([|text|] + text)) + rest + post
            && data[|pre|] == |text|
            && data[|pre| + 1..|pre| + 1 + |text|] == text
  {
  }

  lemma RunAtZero(data: seq<byte>, pos: nat, name: seq<byte>, first: bool)
    requires pos < |data| && data[pos] == 0
    ensures RunFrom(data, pos, name, first) == Ended(name, pos + 1)
  {
  }

  lemma LabelsThenZero(pre: seq<byte>, parts: seq<seq<byte>>, post: seq<byte>)
    requires Fits(parts) && NoneEmpty(parts)
    ensures RunFrom(pre + Labels(parts) + ([0] + post), |pre|, [], true)
            == Ended(Join(parts), |pre| + |Labels(parts)| + 1)
  {
    hide RunFrom, Labels, Join, Appended, Fits, NoneEmpty;
    var data := pre + Labels(parts) + ([0] + post);
    RunOverLabels(pre, parts, [0] + post, [], true);
    AppendedIsJoin([], true, parts);
    NamesFromNothing(parts);
    RunAtZero(data, |pre| + |Labels(parts)|, Appended([], true, parts), parts == []);
  }

  lemma NamesFromNothing(parts: seq<seq<byte>>)
    ensures [] + Join(parts) == Join(parts)
    ensures parts == [] ==> Join(parts) == []
  {
  }

  lemma {:induction false} FirstEmpty(parts: seq<seq<byte>>) returns (k: nat)
    requires !NoneEmpty(parts)
    ensures k < |parts| && parts[k] == [] && NoneEmpty(parts[..k])
    decreases |parts|
  {
    if parts[0] == [] {
      k := 0;
    } else {
      k := FirstEmpty(parts[1..]);
      k := k + 1;
      assert forall i :: 0 < i < k ==> parts[i] == parts[1..][i - 1];
    }
  }

  lemma LabelsFrom(parts: seq<seq<byte>>, k: nat)
    requires Fits(parts) && k < |parts| && parts[k] == []
    ensures Fits(parts[..k]) && Fits(parts[k + 1..])
    ensures Labels(parts) == Labels(parts[..k]) + ([0] + Labels(parts[k + 1..]))
  {
    assert parts == parts[..k] + parts[k..];
    LabelsJoin(parts[..k], parts[k..]);
    var rest := parts[k..];
    assert rest[1..] == parts[k + 1..];
    EmptyLabelFirst(rest);
    hide Labels;
  }

  lemma EmptyLabelFirst(parts: seq<seq<byte>>)
    requires Fits(parts) && parts != [] && parts[0] == []
    ensures Labels(parts) == [0] + Labels(parts[1..])
  {
  }

  /** Name round trip: read at any offset in any buffer, a written name gives back its text
      and takes exactly the octets written, if and only if no label of it is empty. */
  lemma NameRoundTrip(pre: seq<byte>, name: seq<byte>, post: seq<byte>, depth: nat)
    requires Writable(name) && depth > 0
    ensures Parse(pre + NameBytes(name) + post, |pre|, depth) == Name(name, |pre| + |NameBytes(name)|)
            <==> NoneEmpty(Split(name))
  {
    hide RunFrom, Labels, Join, Split, Fits, NoneEmpty;
    var parts := Split(name);
    var data := pre + NameBytes(name) + post;
    JoinOfSplit(name);
    if NoneEmpty(parts) {
      LabelsThenZero(pre, parts, post);
      assert data == pre + Labels(parts) + ([0] + post);
    } else {
      ReadStopsAtEmpty(pre, parts, post);
      assert data == pre + Labels(parts) + ([0] + post);
    }
  }

  /** An empty label is taken for the end of the name. */
  lemma ReadStopsAtEmpty(pre: seq<byte>, parts: seq<seq<byte>>, post: seq<byte>)
    requires Fits(parts) && !NoneEmpty(parts)
    ensures var run := RunFrom(pre + Labels(parts) + ([0] + post), |pre|, [], true);
            run.Ended? && run.pos < |pre| + |Labels(parts)| + 1
  {
    var k := FirstEmpty(parts);
    LabelsFrom(parts, k);
    hide RunFrom, Labels, Join, Fits, NoneEmpty;
    var rest := Labels(parts[k + 1..]) + [0] + post;
    LabelsThenZero(pre, parts[..k], rest);
    Regroup(pre, Labels(parts[..k]), Labels(parts[k + 1..]), post);
  }

  lemma Regroup(a: seq<byte>, b: seq<byte>, c: seq<byte>, d: seq<byte>)
    ensures a + (b + ([0] + c)) + ([0] + d) == a + b + ([0] + (c + [0] + d))
  {
  }

  /** The empty name is written as two zero octets, of which the reader takes one. */
  lemma EmptyName(pre: seq<byte>, post: seq<byte>, depth: nat)
    requires depth > 0
    ensures Writable([]) && NameBytes([]) == [0, 0]
    ensures Parse(pre + NameBytes([]) + post, |pre|, depth) == Name([], |pre| + 1)
  {
    var none: seq<seq<byte>> := [];
    assert Split([])[1..] == none;
    assert Labels(Split([])) == [0];
    var data := pre + NameBytes([]) + post;
    assert data[|pre|] == 0;
  }

  /** Which names can be written: those whose dots leave no label of more than 63 octets. (That
      `Split` cuts exactly at the dots is `JoinOfSplit` and `SplitHasNoDots`.) */
  lemma WritableExactly(name: seq<byte>)
    ensures Writable(name) <==> forall i :: 0 <= i < |Split(name)| ==> |Split(name)[i]| < 64
  {
  }

  /** What no name starts with: the end of the data, a length from 64 to 191, a label that the data
      ends in, or half a pointer. */
  lemma NoNameStarts(data: seq<byte>, pos: nat, depth: nat)
    requires depth > 0
    requires || pos >= |data|
             || 64 <= data[pos] < 192
             || (data[pos] < 64 && 0 < data[pos] && pos + data[pos] >= |data|)
             || (data[pos] >= 192 && pos + 1 >= |data|)
    ensures Parse(data, pos, depth) == Malformed
  {
  }

  // ---------------------------------------------------------------- compression

  function PointerTo(target: nat): (s: seq<byte>)
    requires target < 0x4000
    ensures |s| == 2
  {
    [REFERENCE_BITS + target / 256, target % 256]
  }

  /** Labels followed by a pointer read as the labels, a dot, and what is found at the target;
      the position ends just behind the pointer. */
  lemma PointerSplices(pre: seq<byte>, parts: seq<seq<byte>>, target: nat, post: seq<byte>, depth: nat)
    requires Fits(parts) && NoneEmpty(parts) && target < 0x4000
    ensures var data := pre + Labels(parts) + (PointerTo(target) + post);
            Parse(data, |pre|, depth + 1)
            == match Parse(data, target, depth)
               case Name(rest, _) =>
                 Name((if parts == [] then [] else Join(parts) + [DOT]) + rest, |pre| + |Labels(parts)| + 2)
               case other => other
  {
    hide *;
    var data := pre + Labels(parts) + (PointerTo(target) + post);
    var at := |pre| + |Labels(parts)|;
    RunOverLabels(pre, parts, PointerTo(target) + post, [], true);
    AppendedFromNothing(parts);
    TwoPlaced(pre, Labels(parts), PointerTo(target), post);
    PointerOctets(target);
    RunAtPointer(data, at, target, Join(parts), parts == []);
    ParseJump(data, |pre|, depth);
  }

  lemma AppendedFromNothing(parts: seq<seq<byte>>)
    ensures Appended([], true, parts) == Join(parts)
    ensures parts == [] ==> Join(parts) == []
  {
    AppendedIsJoin([], true, parts);
    NamesFromNothing(parts);
    hide Join;
  }

  lemma TwoPlaced(pre: seq<byte>, front: seq<byte>, two: seq<byte>, post: seq<byte>)
    requires |two| == 2
    ensures var data, at := pre + front + (two + post), |pre| + |front|;
            at + 2 <= |data| && data[at] == two[0] && data[at + 1] == two[1]
  {
  }

  lemma PointerOctets(target: nat)
    requires target < 0x4000
    ensures PointerTo(target) == [REFERENCE_BITS + target / 256, target % 256]
  {
  }

  lemma ParseJump(data: seq<byte>, pos: nat, depth: nat)
    requires RunFrom(data, pos, [], true).Jump?
    ensures var run := RunFrom(data, pos, [], true);
            Parse(data, pos, depth + 1) == match Parse(data, run.target, depth)
                                           case Name(rest, _) => Name(run.name + rest, run.pos)
                                           case other => other
  {
  }

  lemma RunAtPointer(data: seq<byte>, at: nat, target: nat, name: seq<byte>, first: bool)
    requires target < 0x4000 && at + 2 <= |data|
    requires data[at] == REFERENCE_BITS + target / 256 && data[at + 1] == target % 256
    ensures RunFrom(data, at, name, first) == Jump(if first then name else name + [DOT], target, at + 2)
  {
  }

  lemma {:induction false} SplitOfJoin(parts: seq<seq<byte>>)
    requires parts != [] && forall i :: 0 <= i < |parts| ==> DOT !in parts[i]
    ensures Split(Join(parts)) == parts
    decreases |parts|, |parts[0]|
  {
    if parts[0] == [] {
      if |parts| > 1 {
        SplitOfJoin(parts[1..]);
        assert Join(parts) == [DOT] + Join(parts[1..]);
        assert Join(parts)[1..] == Join(parts[1..]);
      }
    } else {
      var less := [parts[0][1..]] + parts[1..];
      assert less[1..] == parts[1..];
      SplitOfJoin(less);
      assert Join(parts) == [parts[0][0]] + Join(less);
      assert Join(parts)[1..] == Join(less);
      assert parts[0] == [parts[0][0]] + parts[0][1..];
    }
  }

  lemma {:induction false} SplitHasNoDots(s: seq<byte>)
    ensures forall i :: 0 <= i < |Split(s)| ==> DOT !in Split(s)[i]
  {
    if s != [] {
      SplitHasNoDots(s[1..]);
    }
  }

  lemma {:induction false} JoinTwo(a: seq<seq<byte>>, b: seq<seq<byte>>)
    requires a != [] && b != []
    ensures Join(a + b) == Join(a) + [DOT] + Join(b)
  {
    if |a| == 1 {
      assert (a + b)[1..] == b;
    } else {
      JoinTwo(a[1..], b);
      assert (a + b)[1..] == a[1..] + b;
    }
  }

  /** Compression preserves meaning. The labels of `front` followed by a pointer read as `front`,
      a dot and whatever name is found at the target, be it written in full or itself compressed,
      and the position then ends behind the pointer. Where that name has no empty or too long
      label, the uncompressed form of the whole reads as the same text. */
  lemma CompressionPreservesMeaning(pre: seq<byte>, front: seq<byte>, tail: seq<byte>, target: nat, post: seq<byte>,
                                    p: seq<byte>, q: seq<byte>, depth: nat)
    requires Writable(front) && NoneEmpty(Split(front)) && target < 0x4000
    requires var data := pre + Labels(Split(front)) + (PointerTo(target) + post);
             Parse(data, target, depth).Name? && Parse(data, target, depth).name == tail
    ensures var data := pre + Labels(Split(front)) + (PointerTo(target) + post);
            var full := front + [DOT] + tail;
            && Parse(data, |pre|, depth + 1) == Name(full, |pre| + |Labels(Split(front))| + 2)
            && (Writable(tail) && NoneEmpty(Split(tail)) ==>
                  && Writable(full)
                  && Parse(p + NameBytes(full) + q, |p|, depth) == Name(full, |p| + |NameBytes(full)|))
  {
    hide Labels, Fits, NoneEmpty, RunFrom, PointerTo;
    assert Writable(front) ==> Fits(Split(front));
    PointerSplices(pre, Split(front), target, post, depth);
    JoinOfSplit(front);
    if Writable(tail) && NoneEmpty(Split(tail)) {
      FullNameReads(front, tail, p, q, depth);
    }
  }

  lemma FullNameReads(front: seq<byte>, tail: seq<byte>, p: seq<byte>, q: seq<byte>, depth: nat)
    requires Writable(front) && Writable(tail) && NoneEmpty(Split(front)) && NoneEmpty(Split(tail)) && depth > 0
    ensures var full := front + [DOT] + tail;
            && Writable(full)
            && Parse(p + NameBytes(full) + q, |p|, depth) == Name(full, |p| + |NameBytes(full)|)
  {
    hide Parse, Labels, Join, Split, NameBytes;
    var a, b := Split(front), Split(tail);
    JoinOfSplit(front);
    JoinOfSplit(tail);
    SplitHasNoDots(front);
    SplitHasNoDots(tail);
    JoinTwo(a, b);
    SplitOfJoin(a + b);
    assert Split(front + [DOT] + tail) == a + b;
    NameRoundTrip(p, front + [DOT] + tail, q, depth);
  }

  /** A pointer to the empty name leaves a dot behind: that is the one case in which the
      spliced text is not the text of the labels. */
  lemma PointerToEmptyName(pre: seq<byte>, parts: seq<seq<byte>>, target: nat, post: seq<byte>, depth: nat)
    requires Fits(parts) && NoneEmpty(parts) && parts != [] && target < 0x4000
    requires var data := pre + Labels(parts) + (PointerTo(target) + post);
             Parse(data, target, depth).Name?
    ensures var data := pre + Labels(parts) + (PointerTo(target) + post);
            Parse(data, target, depth).name == []
            <==> Parse(data, |pre|, depth + 1) == Name(Join(parts) + [DOT], |pre| + |Labels(parts)| + 2)
  {
    PointerSplices(pre, parts, target, post, depth);
    var rest := Parse(pre + Labels(parts) + (PointerTo(target) + post), target, depth).name;
    assert |(Join(parts) + [DOT]) + rest| == |Join(parts)| + 1 + |rest|;
  }

  // ---------------------------------------------------------------- termination

  /** Where the run starting at `pos` points. */
  function Next(data: seq<byte>, pos: nat): Option<nat> {
    var run := RunFrom(data, pos, [], true);
    if run.Jump? then Some(run.target) else None
  }

  /** Every pointer that is followed targets an offset before its own run: a prior occurrence. */
  predicate PriorPointers(data: seq<byte>, pos: nat)
    decreases pos
  {
    match Next(data, pos)
    case None => true
    case Some(target) => target < pos && PriorPointers(data, target)
  }

  /** Prior pointers always lead to an end, within as many frames as the offset allows. */
  lemma {:induction false} PriorPointersEnd(data: seq<byte>, pos: nat, depth: nat)
    requires PriorPointers(data, pos) && depth > pos
    ensures Parse(data, pos, depth) != Overflow
    decreases pos
  {
    match Next(data, pos)
    case None =>
    case Some(target) => PriorPointersEnd(data, target, depth - 1);
  }

  /** The start of the `k`-th run reached from `pos`. */
  function RunStart(data: seq<byte>, pos: nat, k: nat): Option<nat> {
    if k == 0 then Some(pos)
    else
      match RunStart(data, pos, k - 1)
      case None => None
      case Some(p) => Next(data, p)
  }

  lemma {:induction false} RunStartShift(data: seq<byte>, pos: nat, k: nat)
    requires k > 0
    ensures RunStart(data, pos, k) == match Next(data, pos) case None => None case Some(t) => RunStart(data, t, k - 1)
  {
    hide Next;
    if k > 1 {
      RunStartShift(data, pos, k - 1);
    } else {
      assert RunStart(data, pos, 0) == Some(pos);
    }
  }

  /** The frames run out exactly when there is a run for every one of them and one more. */
  lemma {:induction false} OverflowIsAChain(data: seq<byte>, pos: nat, depth: nat)
    ensures Parse(data, pos, depth) == Overflow <==> RunStart(data, pos, depth).Some?
    decreases depth
  {
    if depth > 0 {
      RunStartShift(data, pos, depth);
      match Next(data, pos)
      case None =>
      case Some(target) => OverflowIsAChain(data, target, depth - 1);
    }
  }

  lemma {:induction false} ChainGoesBack(data: seq<byte>, pos: nat, k: nat, m: nat)
    requires k <= m && RunStart(data, pos, m).Some?
    ensures RunStart(data, pos, k).Some?
    decreases m - k
  {
    hide Next;
    if k < m {
      ChainGoesBack(data, pos, k, m - 1);
    }
  }

  lemma {:induction false} ChainRepeats(data: seq<byte>, pos: nat, i: nat, j: nat, m: nat)
    requires RunStart(data, pos, i) == RunStart(data, pos, j)
    ensures RunStart(data, pos, i + m) == RunStart(data, pos, j + m)
    decreases m
  {
    hide Next;
    if m > 0 {
      ChainRepeats(data, pos, i, j, m - 1);
    }
  }

  function Starts(data: seq<byte>, pos: nat, n: nat): (s: seq<nat>)
    requires RunStart(data, pos, n).Some?
    ensures |s| == n
    ensures forall k :: 0 <= k < n ==> RunStart(data, pos, k) == Some(s[k])
  {
    if n == 0 then []
    else
      ChainGoesBack(data, pos, n - 1, n);
      Starts(data, pos, n - 1) + [RunStart(data, pos, n - 1).value]
  }

  lemma SomeRepeat(s: seq<nat>, n: nat) returns (i: nat, j: nat)
    requires |s| > n && forall k :: 0 <= k < |s| ==> s[k] < n
    ensures i < j < |s| && s[i] == s[j]
  {
    if forall a, b :: 0 <= a < b < |s| ==> s[a] != s[b] {
      Collections.SeqAsSetSize(s);
      var elements := set x | x in s;
      assert elements <= Below(n);
      Collections.SubsetSize(elements, Below(n));
      assert false;
    }
    i, j :| 0 <= i < j < |s| && s[i] == s[j];
  }

  function Below(n: nat): (s: set<nat>)
    ensures |s| == n && forall x: nat :: x in s <==> x < n
  {
    if n == 0 then {} else Below(n - 1) + {n - 1}
  }

  lemma RunNeedsData(data: seq<byte>, pos: nat)
    requires Next(data, pos).Some?
    ensures pos < |data|
  {
  }

  /** A chain of more runs than the data has octets comes back to where it was. */
  lemma ChainHasACycle(data: seq<byte>, pos: nat) returns (i: nat, j: nat)
    requires RunStart(data, pos, |data| + 1).Some?
    ensures i < j && ComesBack(data, pos, i, j)
  {
    hide Next;
    var n := |data|;
    var s := Starts(data, pos, n + 1);
    forall i | 0 <= i < n + 1
      ensures s[i] < n
    {
      ChainGoesBack(data, pos, i + 1, n + 1);
      RunNeedsData(data, s[i]);
    }
    i, j := SomeRepeat(s, n);
  }

  lemma LongChainNeverEnds(data: seq<byte>, pos: nat, k: nat)
    requires RunStart(data, pos, |data| + 1).Some?
    ensures RunStart(data, pos, k).Some?
  {
    var i, j := ChainHasACycle(data, pos);
    RepeatNeverEnds(data, pos, i, j, k);
  }

  lemma {:induction false} RepeatNeverEnds(data: seq<byte>, pos: nat, i: nat, j: nat, k: nat)
    requires i < j && RunStart(data, pos, i) == RunStart(data, pos, j)
    requires RunStart(data, pos, j).Some?
    ensures RunStart(data, pos, k).Some?
    decreases k
  {
    if k <= j {
      ChainGoesBack(data, pos, k, j);
    } else {
      ChainRepeats(data, pos, i, j, k - j);
      RepeatNeverEnds(data, pos, i, j, k - (j - i));
    }
  }

  /** Exactly when reading a name ends: when it ends within one frame more than the data has
      octets. Past that, no number of frames is enough; and any number of frames that is
      enough gives the same answer. */
  lemma ReadingEnds(data: seq<byte>, pos: nat, depth: nat)
    ensures depth >= |data| + 1 ==> Parse(data, pos, depth) == Parse(data, pos, |data| + 1)
    ensures Parse(data, pos, |data| + 1) == Overflow ==> Parse(data, pos, depth) == Overflow
    ensures Parse(data, pos, depth) != Overflow ==> Parse(data, pos, |data| + 1) == Parse(data, pos, depth)
  {
    OverflowIsAChain(data, pos, |data| + 1);
    OverflowIsAChain(data, pos, depth);
    if RunStart(data, pos, |data| + 1).Some? {
      LongChainNeverEnds(data, pos, depth);
    } else if depth >= |data| + 1 {
      MoreFramesSameAnswer(data, pos, |data| + 1, depth);
    } else if Parse(data, pos, depth) != Overflow {
      MoreFramesSameAnswer(data, pos, depth, |data| + 1);
    }
  }

  /** Exactly when no number of frames is enough: when the pointers followed lead back to a run
      they have started from. */
  lemma EndlessIsACycle(data: seq<byte>, pos: nat)
    ensures (forall depth: nat :: Parse(data, pos, depth) == Overflow)
            <==> exists i: nat, j: nat :: i < j && ComesBack(data, pos, i, j)
    ensures (forall depth: nat :: Parse(data, pos, depth) == Overflow) <==> RunStart(data, pos, |data| + 1).Some?
  {
    hide *;
    if RunStart(data, pos, |data| + 1).Some? {
      var i, j := ChainHasACycle(data, pos);
      forall depth: nat
        ensures Parse(data, pos, depth) == Overflow
      {
        LongChainNeverEnds(data, pos, depth);
        OverflowIsAChain(data, pos, depth);
      }
    } else {
      OverflowIsAChain(data, pos, |data| + 1);
      forall i: nat, j: nat | i < j && ComesBack(data, pos, i, j)
        ensures false
      {
        ComingBackNeverEnds(data, pos, i, j, |data| + 1);
      }
    }
  }

  /** The `i`-th and the `j`-th run read from `pos` start at the same place. */
  predicate ComesBack(data: seq<byte>, pos: nat, i: nat, j: nat) {
    RunStart(data, pos, j).Some? && RunStart(data, pos, i) == RunStart(data, pos, j)
  }

  lemma ComingBackNeverEnds(data: seq<byte>, pos: nat, i: nat, j: nat, k: nat)
    requires i < j && ComesBack(data, pos, i, j)
    ensures RunStart(data, pos, k).Some?
  {
    RepeatNeverEnds(data, pos, i, j, k);
  }

  /** A pointer to itself is the shortest such cycle. */
  lemma SelfPointerNeverEnds(pre: seq<byte>, post: seq<byte>, depth: nat)
    requires |pre| < 0x4000
    ensures Parse(pre + (PointerTo(|pre|) + post), |pre|, depth) == Overflow
  {
    var data := pre + (PointerTo(|pre|) + post);
    assert data[|pre|] == PointerTo(|pre|)[0] && data[|pre| + 1] == PointerTo(|pre|)[1];
    RunAtPointer(data, |pre|, |pre|, [], true);
    if depth > 0 {
      SelfPointerNeverEnds(pre, post, depth - 1);
    }
  }

  lemma {:induction false} MoreFramesSameAnswer(data: seq<byte>, pos: nat, few: nat, many: nat)
    requires few <= many && Parse(data, pos, few) != Overflow
    ensures Parse(data, pos, many) == Parse(data, pos, few)
    decreases few
  {
    match Next(data, pos)
    case None =>
    case Some(target) => MoreFramesSameAnswer(data, target, few - 1, many - 1);
  }
}
