/** What is written to the dump, and what the publisher makes of a text, in plain values. */
module DumpLaws {
  import opened Bytes
  import opened SeedDump

  // ---------------------------------------------------------------- one report

  /** A report is read back exactly when it is good, has a height, a client version and a
      sub-version, and is on the port; else its line contributes nothing. */
  lemma ReportReadBackExactly(rep: Report, port: u16)
    requires rep.Printable()
    ensures ReadLine(rep.Line(), port)
            == Got(if rep.good && rep.blocks > 0 && rep.clientVersion > 0 && rep.subVersion != "" && rep.port == port
                   then [rep.ipText] else [])
  {
    FlagPartDecides(rep, rep.RestPart(), port);
    hide Report.FlagPart, Report.RestPart, ReadLine, Report.Printable;
  }

  /** What the reader should return is put together report by report, in order. */
  lemma {:induction false} WantedExactly(a: seq<Report>, rep: Report, b: seq<Report>, port: u16)
    ensures Wanted(a + [rep] + b, port)
            == Wanted(a, port)
               + (if rep.good && rep.blocks > 0 && rep.clientVersion > 0 && rep.subVersion != "" && rep.port == port
                  then [rep.ipText] else [])
               + Wanted(b, port)
    ensures Wanted([], port) == []
    decreases |a|
  {
    WantedPart(rep, port);
    BodyOfNone(port);
    hide *;
    var all := a + [rep] + b;
    WantedSplits(all, port);
    if a == [] {
      assert all[1..] == b;
    } else {
      WantedExactly(a[1..], rep, b, port);
      WantedSplits(a, port);
      assert all[1..] == a[1..] + [rep] + b;
    }
  }

  lemma WantedPart(rep: Report, port: u16)
    ensures WantedOf(rep, port)
            == if rep.good && rep.blocks > 0 && rep.clientVersion > 0 && rep.subVersion != "" && rep.port == port
               then [rep.ipText] else []
  {
  }

  /** Where everything is in the line of a report whose address takes up to 47 characters. */
  lemma LineLayout(rep: Report)
    requires |rep.IpPortText()| <= 47
    ensures var line, text := rep.Line(), rep.IpPortText();
            var flagged := rep.good && rep.blocks > 0 && rep.clientVersion > 0 && rep.subVersion != "";
            && |line| >= 55 && line[..|text|] == text
            && (forall i :: |text| <= i < 55 && i != 52 ==> line[i] == ' ')
            && line[52] == (if flagged then '1' else '0')
            && line[55..] == rep.columns + " \"" + rep.subVersion + "\""
  {
    var text := rep.IpPortText();
    FlagPartIs(rep);
    var front := rep.FlagPart();
    var gap := 47 - |text| + 5;
    var flag := if rep.Flagged() then "1" else "0";
    assert front == text + Spaces(gap) + flag + "  ";
    assert |front| == 55;
    assert front[52] == flag[0];
    assert rep.Line()[55..] == rep.RestPart();
    hide *;
    assert forall i :: |text| <= i < 52 ==> front[i] == Spaces(gap)[i - |text|];
  }

  // ---------------------------------------------------------------- lines

  /** A line feed ends a line, and takes one carriage return before it along. */
  lemma LineEnds(s: string, rest: string)
    requires '\n' !in s
    ensures s == "" || s[|s| - 1] != '\r' ==> Lines(s + "\n" + rest) == [s] + Lines(rest)
    ensures Lines(s + "\r\n" + rest) == [s] + Lines(rest)
    ensures s != "" ==> Lines(s) == [s]
    ensures Lines("") == []
  {
    hide *;
    FirstLine(s, rest);
    WithReturn(s);
    FirstLine(s + "\r", rest);
    assert s + "\r" + "\n" + rest == s + "\r\n" + rest;
    Stripped(s);
    Unbroken(s);
  }

  lemma WithReturn(s: string)
    requires '\n' !in s
    ensures '\n' !in s + "\r"
  {
  }

  lemma Stripped(s: string)
    ensures StripCr(s + "\r") == s
    ensures s == "" || s[|s| - 1] != '\r' ==> StripCr(s) == s
  {
  }

  lemma Unbroken(s: string)
    requires '\n' !in s
    ensures s != "" ==> Lines(s) == [s]
    ensures Lines("") == []
  {
  }

  // ---------------------------------------------------------------- words

  predicate AllSpace(s: string) { forall i :: 0 <= i < |s| ==> IsSpace(s[i]) }

  lemma {:induction false} LeadSkipped(lead: string, s: string)
    requires AllSpace(lead)
    ensures Words(lead + s) == Words(s) && SkipSpace(lead + s) == SkipSpace(s)
  {
    if lead == "" {
      assert lead + s == s;
    } else {
      LeadSkipped(lead[1..], s);
      assert (lead + s)[1..] == lead[1..] + s;
    }
  }

  /** A comment, a line of white space and a line of one word contribute nothing. */
  lemma EmptyLines(s: string, word: string, back: string, port: u16)
    requires AllSpace(s) && AllSpace(back) && NoSpace(word) && word != ""
    ensures ReadLine(s, port) == Got([])
    ensures ReadLine(s + word + back, port) == Got([])
    ensures ReadLine("#" + back, port) == Got([])
  {
    hide *;
    AllSkipped(s);
    AllSkipped(back);
    OneWord(word, back);
    LeadSkipped(s, word + back);
    assert s + word + back == s + (word + back);
    NothingRead(s, port);
    NothingRead(s + word + back, port);
    assert ("#" + back)[0] == '#';
    CommentSkipped("#" + back, port);
  }

  lemma AllSkipped(s: string)
    requires AllSpace(s)
    ensures Words(s) == []
  {
    LeadSkipped(s, "");
    assert s + "" == s;
  }

  lemma OneWord(word: string, back: string)
    requires AllSpace(back) && NoSpace(word) && word != ""
    ensures |Words(word + back)| == 1
  {
    AllSkipped(back);
    if back == "" {
      WordLengthIs(word, back);
      assert SkipSpace(word + back) == word + back;
      assert (word + back)[|word|..] == "";
    } else {
      WordSplit(word, back);
    }
  }

  lemma NothingRead(line: string, port: u16)
    requires |Words(line)| < 2
    ensures ReadLine(line, port) == Got([])
  {
    hide ParseIp;
  }

  /** What a line of two words or more contributes: nothing unless it is no comment and its second
      word is 1; then the address of the first word, if its port is the one asked for, or the end
      of all reading, if it has none. */
  lemma LinesExactly(lead: string, word: string, gap: string, flag: string, rest: string, port: u16)
    requires AllSpace(lead) && NoSpace(word) && word != "" && AllSpace(gap) && gap != "" && NoSpace(flag) && flag != ""
    requires rest == "" || IsSpace(rest[0])
    ensures var r := ReadLine(lead + word + gap + flag + rest, port);
            if (lead == "" && word[0] == '#') || flag != "1" then r == Got([])
            else match ParseIp(word)
                 case IpPort(ip, p) => r == Got(if p == port then [ip] else [])
                 case BadFormat => r == Failed
                 case Crash => r == Crashed
  {
    hide *;
    var line := lead + word + gap + flag + rest;
    assert line == lead + (word + (gap + (flag + rest)));
    LeadSkipped(lead, word + (gap + (flag + rest)));
    TwoWords(word, gap, flag, rest);
    if lead == "" {
      assert line[0] == word[0];
    } else {
      assert line[0] == lead[0];
      SpacesAreNoHash(lead);
    }
    TwoWordsRead(line, word, flag, port);
  }

  lemma SpacesAreNoHash(s: string)
    requires AllSpace(s) && s != ""
    ensures s[0] != '#'
  {
  }

  lemma TwoWords(word: string, gap: string, flag: string, rest: string)
    requires NoSpace(word) && word != "" && AllSpace(gap) && gap != "" && NoSpace(flag) && flag != ""
    requires rest == "" || IsSpace(rest[0])
    ensures var words := Words(word + (gap + (flag + rest)));
            |words| >= 2 && words[0] == word && words[1] == flag
  {
    hide Words, NoSpace;
    WordSplit(word, gap + (flag + rest));
    LeadSkipped(gap, flag + rest);
    FirstWord(flag, rest);
  }

  lemma FirstWord(word: string, rest: string)
    requires NoSpace(word) && word != "" && (rest == "" || IsSpace(rest[0]))
    ensures Words(word + rest) != [] && Words(word + rest)[0] == word
  {
    WordLengthIs(word, rest);
    assert SkipSpace(word + rest) == word + rest;
    assert (word + rest)[..|word|] == word;
  }

  lemma TwoWordsRead(line: string, word: string, flag: string, port: u16)
    requires |Words(line)| >= 2 && Words(line)[0] == word && Words(line)[1] == flag && line != ""
    ensures var r := ReadLine(line, port);
            if line[0] == '#' || flag != "1" then r == Got([])
            else match ParseIp(word)
                 case IpPort(ip, p) => r == Got(if p == port then [ip] else [])
                 case BadFormat => r == Failed
                 case Crash => r == Crashed
  {
    hide ParseIp;
  }

  // ---------------------------------------------------------------- addresses

  /** Text in brackets behind one character of one byte: the address is what is between, and a
      colon and a port have to follow. */
  lemma BracketedExactly(open: char, ip: string, rest: string)
    requires open != ']' && ']' !in ip
    ensures var r := ParseIp([open] + ip + "]" + rest);
            if open as int >= 128 then r == Crash
            else if rest == "" || rest[0] != ':' then r == BadFormat
            else match ParseU16(rest[1..])
                 case Some(port) => r == IpPort(ip, port)
                 case None => r == BadFormat
    ensures ParseIp("]" + rest) == Crash
  {
    var text := [open] + ip + "]" + rest;
    FoundAt([open] + ip, ']', rest);
    assert text == ([open] + ip) + "]" + rest;
    assert text[|ip| + 2..] == rest && text[1..|ip| + 1] == ip;
    assert ("]" + rest)[0] == ']';
    hide ParseU16;
  }

  lemma FoundAt(front: string, c: char, rest: string)
    requires c !in front
    ensures IndexOf(front + [c] + rest, c) == |front|
  {
    var text := front + [c] + rest;
    assert text[|front|] == c;
    assert forall i :: 0 <= i < |front| ==> text[i] == front[i];
  }

  /** Text without a closing bracket: the port stands behind the last colon, and two colons in a
      row or none at all are refused. */
  lemma PlainExactly(ip: string, digits: string)
    requires ']' !in ip && ']' !in digits && ':' !in digits
    ensures var r := ParseIp(ip + ":" + digits);
            if exists i :: 0 < i < |ip| && ip[i - 1] == ':' && ip[i] == ':' then r == BadFormat
            else if ip != "" && ip[|ip| - 1] == ':' then r == BadFormat
            else match ParseU16(digits)
                 case Some(port) => r == IpPort(ip, port)
                 case None => r == BadFormat
    ensures ParseIp(digits) == BadFormat
  {
    hide ParseU16, IndexOf, LastIndexOf;
    var text := ip + ":" + digits;
    assert IndexOf(text, ']') == |text| && IndexOf(digits, ']') == |digits|;
    assert text[|ip|] == ':' && text[..|ip|] == ip && text[|ip| + 1..] == digits;
    assert forall i :: |ip| < i < |text| ==> text[i] == digits[i - |ip| - 1];
    assert LastIndexOf(text, ':') == |ip| + 1;
    DoubleColonIn(ip, digits);
  }

  lemma DoubleColonIn(ip: string, digits: string)
    requires ':' !in digits
    ensures HasDoubleColon(ip + ":" + digits)
            <==> (exists i :: 0 < i < |ip| && ip[i - 1] == ':' && ip[i] == ':') || (ip != "" && ip[|ip| - 1] == ':')
  {
    var text := ip + ":" + digits;
    assert forall i :: 0 <= i < |ip| ==> text[i] == ip[i];
    assert text[|ip|] == ':';
    assert forall i :: |ip| < i < |text| ==> text[i] == digits[i - |ip| - 1];
    if HasDoubleColon(text) {
      var i :| 0 <= i && i + 1 < |text| && text[i] == ':' && text[i + 1] == ':';
      assert i + 1 <= |ip|;
      if i + 1 < |ip| {
        assert ip[i + 1 - 1] == ':' && ip[i + 1] == ':';
      }
    }
    if j :| 0 < j < |ip| && ip[j - 1] == ':' && ip[j] == ':' {
      assert text[j - 1] == ':' && text[j - 1 + 1] == ':';
    }
    if ip != "" && ip[|ip| - 1] == ':' {
      assert text[|ip| - 1] == ':' && text[|ip| - 1 + 1] == ':';
    }
  }

  /** Which texts are ports: the decimal forms below 65536, behind zeros and a plus sign or not. */
  lemma PortsExactly(n: nat, zeros: nat, s: string)
    ensures ParseU16(Zeros(zeros) + Decimal(n)) == if n < 65536 then Some(n) else None
    ensures ParseU16("+" + Zeros(zeros) + Decimal(n)) == if n < 65536 then Some(n) else None
    ensures ParseU16("") == ParseU16("+") == None
    ensures !AllDigits(s) && (s[0] != '+' || !AllDigits(s[1..])) ==> ParseU16(s) == None
  {
    DecimalReadsBack(n);
    var text := Zeros(zeros) + Decimal(n);
    ZerosInFront(zeros, Decimal(n));
    assert text[0] != '+' by { assert AllDigits(text); }
    assert ("+" + Zeros(zeros) + Decimal(n)) == "+" + text;
    assert ("+" + text)[1..] == text;
    hide ValueOf;
    assert !AllDigits("+") by { assert "+"[0] == '+'; }
  }

  function Zeros(n: nat): (s: string)
    ensures |s| == n && forall i :: 0 <= i < n ==> s[i] == '0'
  {
    seq(n, i => '0')
  }

  lemma {:induction false} ZerosInFront(n: nat, s: string)
    requires AllDigits(s)
    ensures AllDigits(Zeros(n) + s) && ValueOf(Zeros(n) + s) == ValueOf(s)
    decreases n, |s|
  {
    var text := Zeros(n) + s;
    assert AllDigits(text);
    if s == "" && n > 0 {
      ZerosInFront(n - 1, s);
      assert text[..|text| - 1] == Zeros(n - 1) + s;
    } else if s != "" {
      ZerosInFront(n, s[..|s| - 1]);
      assert text[..|text| - 1] == Zeros(n) + s[..|s| - 1];
    }
  }

  // ---------------------------------------------------------------- the end of reading

  /** The first line that does not read ends the reading with an error, whatever follows; without
      one the addresses of all lines are returned, or that there are none. */
  lemma FirstBadLineDecides(a: seq<string>, bad: string, b: seq<string>, port: u16)
    requires ReadLines(a, port).Got?
    ensures ReadLine(bad, port) == Failed ==> Summed(ReadLines(a + [bad] + b, port)) == ParseError
    ensures ReadLine(bad, port) == Crashed ==> Summed(ReadLines(a + [bad] + b, port)) == Panic
    ensures ReadLine(bad, port).Got? && ReadLines(b, port).Got? ==>
              var all := ReadLines(a, port).addresses + ReadLine(bad, port).addresses + ReadLines(b, port).addresses;
              Summed(ReadLines(a + [bad] + b, port)) == if all == [] then NoSeeds else Seeds(all)
  {
    hide ReadLine;
    ReadLinesJoin(a, [bad] + b, port);
    assert a + [bad] + b == a + ([bad] + b);
    assert ([bad] + b)[1..] == b;
    if ReadLine(bad, port).Got? && ReadLines(b, port).Got? {
      var x, y, z := ReadLines(a, port).addresses, ReadLine(bad, port).addresses, ReadLines(b, port).addresses;
      assert x + (y + z) == x + y + z;
    }
  }
}
