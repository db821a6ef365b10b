/** The dump of the crawl's results: written by the seeder, read by the publisher. */
module SeedDump {
  import opened Bytes

  // ---------------------------------------------------------------- decimal numbers

  function DigitOf(n: nat): char
    requires n < 10
  {
    '0' + n as char
  }

  function Decimal(n: nat): (s: string)
    ensures s != ""
  {
    (if n < 10 then "" else Decimal(n / 10)) + [DigitOf(n % 10)]
  }

  predicate AllDigits(s: string) { forall i :: 0 <= i < |s| ==> '0' <= s[i] <= '9' }

  function ValueOf(s: string): nat
    requires AllDigits(s)
  {
    if s == "" then 0 else 10 * ValueOf(s[..|s| - 1]) + (s[|s| - 1] as int - '0' as int)
  }

  /** `parse::<u16>`: an optional plus sign, at least one digit, leading zeros allowed. */
  function ParseU16(s: string): Option<u16> {
    var digits := if |s| > 1 && s[0] == '+' then s[1..] else s;
    if digits == "" || !AllDigits(digits) || ValueOf(digits) >= 0x1_0000 then None else Some(ValueOf(digits))
  }

  lemma {:induction false} DecimalReadsBack(n: nat)
    ensures AllDigits(Decimal(n)) && ValueOf(Decimal(n)) == n
  {
    var front := if n < 10 then "" else Decimal(n / 10);
    if n >= 10 {
      DecimalReadsBack(n / 10);
    }
    hide *;
    assert AllDigits(front) && ValueOf(front) == n / 10 by {
      if n < 10 {
        NoDigits();
      }
    }
    DecimalSplit(n);
    OneMoreDigit(front, n % 10);
  }

  lemma DecimalSplit(n: nat)
    ensures Decimal(n) == (if n < 10 then "" else Decimal(n / 10)) + [DigitOf(n % 10)]
  {
  }

  lemma NoDigits()
    ensures AllDigits("") && ValueOf("") == 0
  {
  }

  lemma OneMoreDigit(front: string, digit: nat)
    requires AllDigits(front) && digit < 10
    ensures AllDigits(front + [DigitOf(digit)]) && ValueOf(front + [DigitOf(digit)]) == 10 * ValueOf(front) + digit
  {
    var s := front + [DigitOf(digit)];
    assert s[..|s| - 1] == front;
  }

  lemma PortRoundTrip(port: u16)
    ensures ParseU16(Decimal(port)) == Some(port)
  {
    DecimalReadsBack(port);
    assert Decimal(port)[0] != '+';
  }

  // ---------------------------------------------------------------- text

  /** Unicode white space. */
  predicate IsSpace(c: char) {
    var n := c as int;
    || 0x09 <= n <= 0x0d || n == 0x20 || n == 0x85 || n == 0xa0 || n == 0x1680
    || 0x2000 <= n <= 0x200a || n == 0x2028 || n == 0x2029 || n == 0x202f || n == 0x205f || n == 0x3000
  }

  predicate NoSpace(s: string) { forall i :: 0 <= i < |s| ==> !IsSpace(s[i]) }

  function SkipSpace(s: string): (t: string)
    ensures |t| <= |s|
    ensures t != "" ==> !IsSpace(t[0])
  {
    if s != "" && IsSpace(s[0]) then SkipSpace(s[1..]) else s
  }

  function WordLength(s: string): (n: nat)
    ensures n <= |s| && NoSpace(s[..n])
    ensures n < |s| ==> IsSpace(s[n])
  {
    if s == "" || IsSpace(s[0]) then 0 else
      var n := 1 + WordLength(s[1..]);
      assert s[..n] == [s[0]] + s[1..][..n - 1];
      n
  }

  /** `split_whitespace` */
  function Words(s: string): seq<string>
    decreases |s|
  {
    var t := SkipSpace(s);
    if t == "" then [] else [t[..WordLength(t)]] + Words(t[WordLength(t)..])
  }

  lemma {:induction false} SpaceSkipped(n: nat, s: string)
    ensures Words(Spaces(n) + s) == Words(s)
  {
    if n == 0 {
      assert Spaces(n) + s == s;
    } else {
      SpaceSkipped(n - 1, s);
      assert (Spaces(n) + s)[1..] == Spaces(n - 1) + s;
      assert SkipSpace(Spaces(n) + s) == SkipSpace(Spaces(n - 1) + s);
    }
  }

  lemma {:induction false} WordLengthIs(w: string, s: string)
    requires NoSpace(w) && (s == "" || IsSpace(s[0]))
    ensures WordLength(w + s) == |w|
  {
    if w == "" {
      assert w + s == s;
    } else {
      WordLengthIs(w[1..], s);
      assert (w + s)[1..] == w[1..] + s;
    }
  }

  lemma WordSplit(w: string, s: string)
    requires w != "" && NoSpace(w) && s != "" && IsSpace(s[0])
    ensures Words(w + s) == [w] + Words(s)
  {
    WordLengthIs(w, s);
    assert SkipSpace(w + s) == w + s;
    assert (w + s)[..|w|] == w && (w + s)[|w|..] == s;
  }

  function Spaces(n: nat): (s: string)
    ensures |s| == n && forall i :: 0 <= i < n ==> s[i] == ' '
  {
    seq(n, i => ' ')
  }

  /** `{:width}` of text: filled up on the right. */
  function PadRight(s: string, width: nat): string {
    if |s| < width then s + Spaces(width - |s|) else s
  }

  /** `{:width}` of a number: filled up on the left. */
  function PadLeft(s: string, width: nat): string {
    if |s| < width then Spaces(width - |s|) + s else s
  }

  // ---------------------------------------------------------------- lines

  function StripCr(s: string): string {
    if s != "" && s[|s| - 1] == '\r' then s[..|s| - 1] else s
  }

  function BreakAt(s: string): (n: nat)
    ensures n <= |s| && '\n' !in s[..n]
    ensures n < |s| ==> s[n] == '\n'
  {
    if s == "" || s[0] == '\n' then 0 else
      var n := 1 + BreakAt(s[1..]);
      assert s[..n] == [s[0]] + s[1..][..n - 1];
      n
  }

  /** `lines()`: a carriage return goes with the line feed behind it. */
  function Lines(s: string): seq<string>
    decreases |s|
  {
    if s == "" then []
    else
      var n := BreakAt(s);
      if n == |s| then [s] else [StripCr(s[..n])] + Lines(s[n + 1..])
  }

  lemma {:induction false} BreakAtIs(s: string, rest: string)
    requires '\n' !in s
    ensures BreakAt(s + "\n" + rest) == |s|
  {
    if s != "" {
      BreakAtIs(s[1..], rest);
      assert (s + "\n" + rest)[1..] == s[1..] + "\n" + rest;
    }
  }

  lemma FirstLine(s: string, rest: string)
    requires '\n' !in s
    ensures Lines(s + "\n" + rest) == [StripCr(s)] + Lines(rest)
  {
    BreakAtIs(s, rest);
    var all := s + "\n" + rest;
    assert all[..|s|] == s && all[|s| + 1..] == rest;
  }

  /** Text that ends with a line feed, or is empty. */
  predicate WholeLines(s: string) { s == "" || s[|s| - 1] == '\n' }

  /** The first line of a text of whole lines, and the others. */
  lemma FirstOfWholeLines(s: string) returns (head: string, rest: string)
    requires WholeLines(s) && s != ""
    ensures '\n' !in head && s == head + "\n" + rest && WholeLines(rest)
  {
    var n := BreakAt(s);
    assert s[..|s|] == s && s[|s| - 1] in s;
    head, rest := s[..n], s[n + 1..];
  }

  lemma {:induction false} LinesJoin(a: string, b: string)
    requires WholeLines(a)
    ensures Lines(a + b) == Lines(a) + Lines(b)
    decreases |a|
  {
    hide *;
    if a == "" {
      assert a + b == b;
      NoLines();
      assert [] + Lines(b) == Lines(b);
    } else {
      var head, rest := FirstOfWholeLines(a);
      LinesJoin(rest, b);
      FirstLine(head, rest);
      FirstLine(head, rest + b);
      assert a + b == head + "\n" + (rest + b);
      assert [StripCr(head)] + (Lines(rest) + Lines(b)) == [StripCr(head)] + Lines(rest) + Lines(b);
    }
  }

  lemma NoLines()
    ensures Lines("") == []
  {
  }

  // ---------------------------------------------------------------- reading

  datatype IpPort = IpPort(ip: string, port: u16) | BadFormat | Crash

  function IndexOf(s: string, c: char): (n: nat)
    ensures n <= |s| && c !in s[..n]
    ensures n < |s| ==> s[n] == c
  {
    if s == "" || s[0] == c then 0 else
      var n := 1 + IndexOf(s[1..], c);
      assert s[..n] == [s[0]] + s[1..][..n - 1];
      n
  }

  /** One more than the last index, or zero. */
  function LastIndexOf(s: string, c: char): (n: nat)
    ensures n <= |s| && (n > 0 ==> s[n - 1] == c)
    ensures forall i :: n <= i < |s| ==> s[i] != c
  {
    if s == "" || s[|s| - 1] == c then |s| else LastIndexOf(s[..|s| - 1], c)
  }

  predicate HasDoubleColon(s: string) { exists i :: 0 <= i && i + 1 < |s| && s[i] == ':' && s[i + 1] == ':' }

  function Addressed(ip: string, port: Option<u16>): IpPort {
    match port case Some(p) => IpPort(ip, p) case None => BadFormat
  }

  /** `parse_ip`. The text in brackets is cut out from its second byte on, which is no place to
      cut when the closing bracket comes first or the first character is no single byte. */
  function ParseIp(input: string): IpPort {
    var close := IndexOf(input, ']');
    if close < |input| then
      if close == 0 || input[0] as int >= 128 then Crash
      else
        var rest := input[close + 1..];
        if rest != "" && rest[0] == ':' then Addressed(input[1..close], ParseU16(rest[1..])) else BadFormat
    else if HasDoubleColon(input) then BadFormat
    else
      var colon := LastIndexOf(input, ':');
      if colon == 0 then BadFormat else Addressed(input[..colon - 1], ParseU16(input[colon..]))
  }

  datatype Collected = Got(addresses: seq<string>) | Failed | Crashed

  /** One line of the dump: an address or nothing, or the end of the reading. */
  function ReadLine(line: string, validPort: u16): Collected {
    if (line != "" && line[0] == '#') || SkipSpace(line) == "" then Got([])
    else
      var parts := Words(line);
      if |parts| < 2 || parts[1] != "1" then Got([])
      else
        match ParseIp(parts[0])
        case IpPort(ip, port) => if port == validPort then Got([ip]) else Got([])
        case BadFormat => Failed
        case Crash => Crashed
  }

  function Then(a: Collected, b: Collected): Collected {
    if a.Got? && b.Got? then Got(a.addresses + b.addresses) else if a.Got? then b else a
  }

  function ReadLines(lines: seq<string>, validPort: u16): Collected {
    if lines == [] then Got([]) else Then(ReadLine(lines[0], validPort), ReadLines(lines[1..], validPort))
  }

  datatype SeedList = Seeds(addresses: seq<string>) | NoSeeds | ParseError | Panic

  function Summed(c: Collected): SeedList {
    match c
    case Got(addresses) => if addresses == [] then NoSeeds else Seeds(addresses)
    case Failed => ParseError
    case Crashed => Panic
  }

  method ReadSeedDump(content: string, validPort: u16) returns (r: SeedList)
    ensures r == Summed(ReadLines(Lines(content), validPort))
  {
    hide ReadLine, Lines;
    var lines := Lines(content);
    var addresses: seq<string> := [];
    assert lines[0..] == lines;
    for i := 0 to |lines|
      invariant Then(Got(addresses), ReadLines(lines[i..], validPort)) == ReadLines(lines, validPort)
    {
      assert lines[i..][1..] == lines[i + 1..];
      var one := ReadOne(lines[i], validPort);
      if one.Failed? {
        return ParseError;
      }
      if one.Crashed? {
        return Panic;
      }
      ThenGroups(Got(addresses), one, ReadLines(lines[i + 1..], validPort));
      addresses := addresses + one.addresses;
    }
    assert Then(Got(addresses), Got([])) == Got(addresses);
    if addresses == [] {
      return NoSeeds;
    }
    return Seeds(addresses);
  }

  /** The body of the reader's loop. */
  method ReadOne(line: string, validPort: u16) returns (one: Collected)
    ensures one == ReadLine(line, validPort)
  {
    if (line != "" && line[0] == '#') || SkipSpace(line) == "" {
      return Got([]);
    }
    var parts := Words(line);
    if |parts| < 2 {
      return Got([]);
    }
    if parts[1] != "1" {
      return Got([]);
    }
    var parsed := ParseIp(parts[0]);
    if parsed.BadFormat? {
      return Failed;
    }
    if parsed.Crash? {
      return Crashed;
    }
    return if parsed.port == validPort then Got([parsed.ip]) else Got([]);
  }

  lemma ThenGroups(a: Collected, b: Collected, c: Collected)
    ensures Then(a, Then(b, c)) == Then(Then(a, b), c)
  {
    if a.Got? && b.Got? && c.Got? {
      assert a.addresses + (b.addresses + c.addresses) == (a.addresses + b.addresses) + c.addresses;
    }
  }

  lemma {:induction false} ReadLinesJoin(a: seq<string>, b: seq<string>, validPort: u16)
    ensures ReadLines(a + b, validPort) == Then(ReadLines(a, validPort), ReadLines(b, validPort))
  {
    hide ReadLine;
    if a == [] {
      assert a + b == b;
      var r := ReadLines(b, validPort);
      assert r.Got? ==> [] + r.addresses == r.addresses;
    } else {
      assert (a + b)[1..] == a[1..] + b;
      ReadLinesJoin(a[1..], b, validPort);
      ThenGroups(ReadLine(a[0], validPort), ReadLines(a[1..], validPort), ReadLines(b, validPort));
      hide Then;
    }
  }

  // ---------------------------------------------------------------- writing

  /** A report on a peer as far as the reader looks at it: its address as text, and whatever
      the other columns hold. */
  datatype Report = Report(ipText: string, v4: bool, port: u16, good: bool, blocks: int, clientVersion: int,
                           columns: string, subVersion: string) {

    /** `to_string_ip_port` */
    function IpPortText(): string {
      if v4 then ipText + ":" + Decimal(port) else "[" + ipText + "]:" + Decimal(port)
    }

    predicate Flagged() { good && blocks > 0 && clientVersion > 0 && subVersion != "" }

    function Line(): string { FlagPart() + RestPart() }

    function FlagPart(): string {
      PadRight(IpPortText(), 47) + "  " + PadLeft(if Flagged() then "1" else "0", 4) + "  "
    }

    function RestPart(): string { columns + " \"" + subVersion + "\"" }

    /** Address text holds neither white space nor a closing bracket, and IPv4 text no colon and
        no hash. */
    predicate Printable() {
      && NoSpace(ipText) && ']' !in ipText
      && (v4 ==> ':' !in ipText && '#' !in ipText)
    }
  }

  const HEADING: string :=
    "# address" + Spaces(40) + "good  " + "lastSuccess" + Spaces(4) + "%(2h)   "
    + "%(8h)   " + "%(1d)   " + "%(7d)  " + "%(30d)  " + "blocks" + Spaces(6) + "svcs  version"

  function Body(reports: seq<Report>): string {
    if reports == [] then "" else reports[0].Line() + "\n" + Body(reports[1..])
  }

  function Dump(reports: seq<Report>): string { HEADING + "\n" + Body(reports) }

  method WriteDump(reports: seq<Report>) returns (content: string)
    ensures content == Dump(reports)
  {
    hide Report.Line;
    content := HEADING + "\n";
    assert reports[0..] == reports;
    for i := 0 to |reports|
      invariant content + Body(reports[i..]) == Dump(reports)
    {
      assert reports[i..][1..] == reports[i + 1..];
      ghost var rest := Body(reports[i + 1..]);
      assert content + (reports[i].Line() + "\n" + rest) == (content + (reports[i].Line() + "\n")) + rest;
      content := content + (reports[i].Line() + "\n");
    }
    assert content + "" == content;
  }

  /** What the reader should return: the flagged addresses on the port, in order. */
  function Wanted(reports: seq<Report>, port: u16): seq<string> {
    if reports == [] then [] else WantedOf(reports[0], port) + Wanted(reports[1..], port)
  }

  function WantedOf(rep: Report, port: u16): seq<string> {
    if rep.Flagged() && rep.port == port then [rep.ipText] else []
  }

  // ---------------------------------------------------------------- one address

  lemma IpTextReadBack(rep: Report)
    requires rep.Printable()
    ensures ParseIp(rep.IpPortText()) == IpPort(rep.ipText, rep.port)
  {
    PortRoundTrip(rep.port);
    DecimalReadsBack(rep.port);
    hide Decimal, AllDigits, ValueOf, ParseU16, ParseIp, NoSpace;
    DigitsPlain(Decimal(rep.port));
    if rep.v4 {
      ParsePlain(rep.ipText, Decimal(rep.port));
    } else {
      ParseBracketed(rep.ipText, Decimal(rep.port));
    }
  }

  lemma ParsePlain(ip: string, digits: string)
    requires ':' !in ip && ']' !in ip && ':' !in digits && ']' !in digits
    ensures ParseIp(ip + ":" + digits) == Addressed(ip, ParseU16(digits))
  {
    OneColon(ip, digits);
    hide ParseU16, HasDoubleColon, IndexOf, LastIndexOf;
  }

  lemma ParseBracketed(ip: string, digits: string)
    requires ']' !in ip
    ensures ParseIp("[" + ip + "]:" + digits) == Addressed(ip, ParseU16(digits))
  {
    Bracketed(ip, digits);
    hide ParseU16, HasDoubleColon, IndexOf, LastIndexOf;
  }

  lemma DigitsPlain(s: string)
    requires AllDigits(s)
    ensures ':' !in s && ']' !in s && NoSpace(s)
  {
  }

  lemma OneColon(ip: string, digits: string)
    requires ':' !in ip && ']' !in ip && ':' !in digits && ']' !in digits
    ensures var text := ip + ":" + digits;
            && IndexOf(text, ']') == |text| && !HasDoubleColon(text)
            && LastIndexOf(text, ':') == |ip| + 1 && text[..|ip|] == ip && text[|ip| + 1..] == digits
  {
    var text := ip + ":" + digits;
    assert forall i :: 0 <= i < |text| ==> (text[i] == ':' <==> i == |ip|);
    assert text[|ip|] == ':';
  }

  lemma Bracketed(ip: string, digits: string)
    requires ']' !in ip
    ensures var text := "[" + ip + "]:" + digits;
            && IndexOf(text, ']') == |ip| + 1 && text[1..|ip| + 1] == ip
            && text[|ip| + 2..] == ":" + digits && text[0] == '['
            && (":" + digits)[1..] == digits
  {
    var text := "[" + ip + "]:" + digits;
    assert text[|ip| + 1] == ']';
    assert forall i :: 0 <= i < |ip| + 1 ==> text[i] != ']';
    assert text[..IndexOf(text, ']')] == text[..IndexOf(text, ']')];
  }

  // ---------------------------------------------------------------- one line

  /** Behind the address and the flag nothing of the line matters. */
  lemma FlagPartDecides(rep: Report, rest: string, port: u16)
    requires rep.Printable()
    ensures ReadLine(rep.FlagPart() + rest, port) == Got(WantedOf(rep, port))
  {
    hide *;
    var text, flag := rep.IpPortText(), if rep.Flagged() then "1" else "0";
    IpTextPlain(rep);
    IpTextReadBack(rep);
    FlagPartIs(rep);
    OneDigit(flag);
    OwnOf(rep, port, flag);
    var gap := (if |text| < 47 then 47 - |text| + 2 else 2) + 3;
    WordsOfLine(text, gap, flag, rest);
    var line := text + Spaces(gap) + flag + "  " + rest;
    assert line[0] == text[0];
    LineOfWords(line, text, flag, Words("  " + rest), port);
    assert rep.FlagPart() + rest == line;
  }

  lemma OwnOf(rep: Report, port: u16, flag: string)
    requires flag == if rep.Flagged() then "1" else "0"
    ensures WantedOf(rep, port) == if flag == "1" && rep.port == port then [rep.ipText] else []
  {
  }

  lemma WordsOfLine(text: string, gap: nat, flag: string, rest: string)
    requires text != "" && NoSpace(text) && flag != "" && NoSpace(flag) && gap > 0
    ensures Words(text + Spaces(gap) + flag + "  " + rest) == [text, flag] + Words("  " + rest)
  {
    hide Words, NoSpace;
    var tail := Spaces(gap) + (flag + ("  " + rest));
    WordSplit(text, tail);
    SpaceSkipped(gap, flag + ("  " + rest));
    WordSplit(flag, "  " + rest);
    assert text + Spaces(gap) + flag + "  " + rest == text + tail;
    assert [text] + ([flag] + Words("  " + rest)) == [text, flag] + Words("  " + rest);
  }

  lemma LineOfWords(line: string, text: string, flag: string, others: seq<string>, port: u16)
    requires line != "" && line[0] != '#' && !IsSpace(line[0]) && Words(line) == [text, flag] + others
    ensures ReadLine(line, port)
            == if flag != "1" then Got([])
               else match ParseIp(text)
                    case IpPort(ip, p) => if p == port then Got([ip]) else Got([])
                    case BadFormat => Failed
                    case Crash => Crashed
  {
    hide Words, ParseIp;
    assert Words(line)[0] == text && Words(line)[1] == flag;
  }

  lemma OneDigit(flag: string)
    requires flag == "1" || flag == "0"
    ensures NoSpace(flag)
  {
  }

  lemma IpTextPlain(rep: Report)
    requires rep.Printable()
    ensures rep.IpPortText() != "" && NoSpace(rep.IpPortText())
    ensures rep.IpPortText()[0] != '#' && !IsSpace(rep.IpPortText()[0])
  {
    DecimalReadsBack(rep.port);
    var digits := Decimal(rep.port);
    DigitsPlain(digits);
    hide Decimal, ValueOf, NoSpace, IsSpace;
    PunctuationPlain();
    NoSpaceJoins(rep.ipText, ":");
    NoSpaceJoins(rep.ipText + ":", digits);
    NoSpaceJoins("[", rep.ipText);
    NoSpaceJoins("[" + rep.ipText, "]:");
    NoSpaceJoins("[" + rep.ipText + "]:", digits);
    NoSpaceFirst(rep.IpPortText());
  }

  lemma PunctuationPlain()
    ensures NoSpace(":") && NoSpace("[") && NoSpace("]:")
  {
  }

  lemma NoSpaceJoins(a: string, b: string)
    requires NoSpace(a) && NoSpace(b)
    ensures NoSpace(a + b)
  {
  }

  lemma NoSpaceFirst(a: string)
    requires NoSpace(a) && a != ""
    ensures !IsSpace(a[0])
  {
  }

  lemma FlagPartIs(rep: Report)
    ensures var text, flag := rep.IpPortText(), if rep.Flagged() then "1" else "0";
            rep.FlagPart() == text + Spaces((if |text| < 47 then 47 - |text| + 2 else 2) + 3) + flag + "  "
  {
    hide Report.IpPortText, Report.Flagged;
    var text := rep.IpPortText();
    assert Spaces(2) == "  ";
    var gap := if |text| < 47 then 47 - |text| + 2 else 2;
    assert PadRight(text, 47) + "  " == text + Spaces(gap);
    assert Spaces(gap) + Spaces(3) == Spaces(gap + 3);
  }

  // ---------------------------------------------------------------- the whole dump

  /** The lines that line feeds make of the rest of a report's line: none without line feeds. */
  function Stray(rep: Report): seq<string> {
    var s := rep.RestPart() + "\n";
    if BreakAt(s) < |s| then Lines(s[BreakAt(s) + 1..]) else []
  }

  lemma FlagPartUnbroken(rep: Report)
    requires rep.Printable()
    ensures '\n' !in rep.FlagPart()
    ensures rep.FlagPart() != "" && rep.FlagPart()[|rep.FlagPart()| - 1] == ' '
  {
    hide *;
    FlagPartIs(rep);
    IpTextPlain(rep);
    NoSpaceUnbroken(rep.IpPortText());
  }

  lemma NoSpaceUnbroken(s: string)
    requires NoSpace(s)
    ensures '\n' !in s
  {
  }

  lemma StripBehind(front: string, s: string)
    requires front != "" && front[|front| - 1] == ' '
    ensures StripCr(front + s) == front + StripCr(s)
  {
  }

  /** A report's line reads as its own address, if it is wanted, and whatever is astray. */
  lemma ReportRead(rep: Report, port: u16)
    requires rep.Printable()
    ensures ReadLines(Lines(rep.Line() + "\n"), port) == Then(Got(WantedOf(rep, port)), ReadLines(Stray(rep), port))
  {
    var front, s := rep.FlagPart(), rep.RestPart() + "\n";
    hide Report.FlagPart, Report.RestPart, Report.Printable, Lines, BreakAt, ReadLine, Then, WantedOf, StripCr;
    FlagPartUnbroken(rep);
    var head, rest := FirstOfWholeLines(s);
    BreakAtIs(head, rest);
    assert s[|head| + 1..] == rest;
    assert rep.Line() + "\n" == front + s;
    assert front + (head + "\n" + rest) == (front + head) + "\n" + rest;
    FirstLine(front + head, rest);
    StripBehind(front, head);
    FlagPartDecides(rep, StripCr(head), port);
    var all := Lines(rep.Line() + "\n");
    assert all[0] == front + StripCr(head) && all[1..] == Lines(rest);
  }

  lemma BodyRead(reports: seq<Report>, port: u16)
    requires reports != [] && reports[0].Printable()
    ensures ReadLines(Lines(Body(reports)), port)
            == Then(Then(Got(WantedOf(reports[0], port)), ReadLines(Stray(reports[0]), port)),
                    ReadLines(Lines(Body(reports[1..])), port))
  {
    hide Report.Line, Lines, ReadLines, Stray, Then, WantedOf, Report.Printable;
    var line := reports[0].Line() + "\n";
    LinesJoin(line, Body(reports[1..]));
    ReadLinesJoin(Lines(line), Lines(Body(reports[1..])), port);
    ReportRead(reports[0], port);
  }

  lemma BodyOfNone(port: u16)
    ensures Body([]) == "" && Wanted([], port) == [] && ReadLines(Lines(Body([])), port) == Got([])
  {
  }

  ghost predicate NothingStray(reports: seq<Report>, port: u16) {
    forall i :: 0 <= i < |reports| ==> ReadLines(Stray(reports[i]), port) == Got([])
  }

  lemma {:induction false} BodyExact(reports: seq<Report>, port: u16)
    requires forall i :: 0 <= i < |reports| ==> reports[i].Printable()
    ensures var r, w := ReadLines(Lines(Body(reports)), port), Wanted(reports, port);
            && (r == Got(w) <==> NothingStray(reports, port))
            && (r.Got? ==> |r.addresses| >= |w|)
  {
    hide *;
    if reports == [] {
      BodyOfNone(port);
      NothingStraySplits(reports, port);
    } else {
      BodyRead(reports, port);
      BodyExact(reports[1..], port);
      NothingStraySplits(reports, port);
      WantedSplits(reports, port);
      ExactStep(WantedOf(reports[0], port), ReadLines(Stray(reports[0]), port),
                ReadLines(Lines(Body(reports[1..])), port), Wanted(reports[1..], port));
    }
  }

  lemma NothingStraySplits(reports: seq<Report>, port: u16)
    ensures NothingStray(reports, port)
            <==> reports == [] || (ReadLines(Stray(reports[0]), port) == Got([]) && NothingStray(reports[1..], port))
  {
    hide ReadLines, Stray;
    if reports != [] && ReadLines(Stray(reports[0]), port) == Got([]) && NothingStray(reports[1..], port) {
      forall i | 0 <= i < |reports|
        ensures ReadLines(Stray(reports[i]), port) == Got([])
      {
        if i > 0 {
          assert reports[i] == reports[1..][i - 1];
        }
      }
    }
  }

  lemma WantedSplits(reports: seq<Report>, port: u16)
    requires reports != []
    ensures Wanted(reports, port) == WantedOf(reports[0], port) + Wanted(reports[1..], port)
  {
  }

  /** Reading never finds less than it should, so it finds the same only with nothing astray. */
  lemma ExactStep(own: seq<string>, stray: Collected, rest: Collected, wanted: seq<string>)
    requires rest.Got? ==> |rest.addresses| >= |wanted|
    ensures var r := Then(Then(Got(own), stray), rest);
            && (r == Got(own + wanted) <==> stray == Got([]) && rest == Got(wanted))
            && (r.Got? ==> |r.addresses| >= |own + wanted|)
  {
    var r := Then(Then(Got(own), stray), rest);
    if r.Got? {
      assert r.addresses == (own + stray.addresses) + rest.addresses;
      if r == Got(own + wanted) {
        assert stray.addresses == [];
        assert rest.addresses == r.addresses[|own|..] == (own + wanted)[|own|..] == wanted;
      }
      if stray.addresses == [] {
        assert own + stray.addresses == own;
      }
    }
  }

  /** Dump round trip: the publisher reads back, in order, exactly the address texts of the
      flagged reports on its port (or that there are none), if and only if no line feed of a
      report has put anything astray that the reader does not skip. */
  lemma DumpRoundTrip(reports: seq<Report>, port: u16)
    requires forall i :: 0 <= i < |reports| ==> reports[i].Printable()
    ensures Summed(ReadLines(Lines(Dump(reports)), port)) == Summed(Got(Wanted(reports, port)))
            <==> NothingStray(reports, port)
  {
    BodyExact(reports, port);
    HeadingSkipped(Body(reports), port);
    hide Lines, ReadLines, Body, Wanted, NothingStray, Report.Printable;
  }

  lemma HeadingSkipped(body: string, port: u16)
    ensures ReadLines(Lines(HEADING + "\n" + body), port) == ReadLines(Lines(body), port)
  {
    HeadingPlain();
    hide HEADING, Lines, ReadLine, StripCr;
    FirstLine(HEADING, body);
    assert Lines(HEADING + "\n" + body)[1..] == Lines(body);
    CommentSkipped(StripCr(HEADING), port);
    var r := ReadLines(Lines(body), port);
    assert r.Got? ==> [] + r.addresses == r.addresses;
  }

  lemma HeadingPlain()
    ensures '\n' !in HEADING && HEADING != ""
    ensures StripCr(HEADING) != "" && StripCr(HEADING)[0] == '#'
  {
    assert '\n' !in "# address";
    assert '\n' !in "good  ";
    assert '\n' !in "lastSuccess";
    assert '\n' !in "%(2h)   ";
    assert '\n' !in "%(8h)   ";
    assert '\n' !in "%(1d)   ";
    assert '\n' !in "%(7d)  ";
    assert '\n' !in "%(30d)  ";
    assert '\n' !in "blocks";
    assert '\n' !in "svcs  version";
    var last := "svcs  version";
    assert last[|last| - 1] == 'n' && HEADING[|HEADING| - 1] == last[|last| - 1];
  }

  lemma CommentSkipped(line: string, port: u16)
    requires line != "" && line[0] == '#'
    ensures ReadLine(line, port) == Got([])
  {
  }

  /** Without line feeds nothing is astray. */
  lemma UnbrokenReportsReadBack(reports: seq<Report>, port: u16)
    requires forall i :: 0 <= i < |reports| ==>
               reports[i].Printable() && '\n' !in reports[i].columns && '\n' !in reports[i].subVersion
    ensures Summed(ReadLines(Lines(Dump(reports)), port))
            == if Wanted(reports, port) == [] then NoSeeds else Seeds(Wanted(reports, port))
  {
    DumpRoundTrip(reports, port);
    hide Lines, Wanted, Dump, Report.Printable, BreakAt;
    forall i | 0 <= i < |reports|
      ensures ReadLines(Stray(reports[i]), port) == Got([])
    {
      NothingBehind(reports[i]);
    }
  }

  lemma NothingBehind(rep: Report)
    requires '\n' !in rep.columns && '\n' !in rep.subVersion
    ensures Stray(rep) == []
  {
    var s := rep.RestPart();
    assert '\n' !in s;
    BreakAtIs(s, "");
    assert s + "\n" + "" == s + "\n";
    assert (s + "\n")[|s| + 1..] == "";
    NoLines();
    hide Lines, BreakAt;
  }

  /** A sub-version with a line feed in it can put another peer's columns astray: its address
      is then read as if it had been reported. */
  lemma LineFeedsAddAddresses(rep: Report, other: Report, port: u16)
    requires other.Printable() && other.Flagged() && other.port == port
    requires '\n' !in rep.columns && rep.subVersion == "\n" + other.FlagPart()
    ensures ReadLines(Stray(rep), port) == Got([other.ipText])
  {
    hide *;
    var front := rep.columns + " \"";
    var back := other.FlagPart() + "\"";
    StrayBehind(rep, front, back);
    FlagPartUnbroken(other);
    FlagPartDecides(other, "\"", port);
    FirstLine(back, "");
    assert back + "\n" + "" == back + "\n";
    NoLines();
    QuoteStays(other.FlagPart());
    assert [back] + [] == [back];
    OneLineRead(back, port);
    WantedWhenFlagged(other, port);
  }

  lemma StrayBehind(rep: Report, front: string, back: string)
    requires '\n' !in rep.columns && front == rep.columns + " \"" && rep.subVersion + "\"" == "\n" + back
    ensures Stray(rep) == Lines(back + "\n")
  {
    hide Lines, BreakAt;
    assert rep.RestPart() == front + (rep.subVersion + "\"");
    assert rep.RestPart() + "\n" == front + "\n" + (back + "\n");
    BreakAtIs(front, back + "\n");
    assert (front + "\n" + (back + "\n"))[|front| + 1..] == back + "\n";
  }

  lemma QuoteStays(s: string)
    ensures StripCr(s + "\"") == s + "\""
  {
  }

  lemma WantedWhenFlagged(rep: Report, port: u16)
    requires rep.Flagged() && rep.port == port
    ensures WantedOf(rep, port) == [rep.ipText]
  {
  }

  lemma OneLineRead(line: string, port: u16)
    ensures ReadLines([line], port) == ReadLine(line, port)
  {
    hide ReadLine;
    var one := [line];
    assert one[1..] == [];
    var r := ReadLine(line, port);
    assert r.Got? ==> r.addresses + [] == r.addresses;
  }
}
