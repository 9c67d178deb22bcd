/** AMI messages as text: "Key: Value" lines closed by an empty line.

    The proxy's readAction and the client's readLoop parse it, each in its own way;
    sendResponse and sendActionLocked print it, with the entries in the arbitrary
    order in which Go ranges over a map. Text is a sequence of Unicode characters. */
module AmiFraming {
  import opened Ttl
  import opened GoStrings

  type Message = map<string, string>

  // ------------------------------------------------------------------ parsing

  /** readAction trims a line before it looks at it; readLoop only drops its end. */
  datatype Dialect = Proxy | Client

  datatype Line = End | Skip | Pair(key: string, value: string)

  function Content(d: Dialect, line: string): string {
    match d case Proxy => TrimSpace(line) case Client => TrimLineEnd(line)
  }

  function SplitLine(content: string): Line {
    if content == "" then End
    else
      var i := IndexOf(content, ':');
      if i == |content| then Skip else Pair(TrimSpace(content[..i]), TrimSpace(content[i + 1..]))
  }

  function ParseLine(d: Dialect, line: string): Line {
    SplitLine(Content(d, line))
  }

  /** ReadString('\n'): the next line with its end, and what follows; None at the end
      of the input, where what is left is lost. */
  function ReadLine(input: string): (r: Option<(string, string)>)
    ensures r.Some? ==> r.value.0 + r.value.1 == input && |r.value.1| < |input|
    ensures r.Some? ==> r.value.0 != "" && '\n' !in r.value.0[..|r.value.0| - 1]
  {
    var i := IndexOf(input, '\n');
    if i == |input| then None
    else
      assert input[..i + 1][..i] == input[..i];
      Some((input[..i + 1], input[i + 1..]))
  }

  /** The message read from the input after the entries in `m`, and what follows it. */
  function ParseFrom(d: Dialect, input: string, m: Message): (r: Option<(Message, string)>)
    ensures r.Some? ==> |r.value.1| < |input|
    decreases |input|
  {
    var r := ReadLine(input);
    if r.None? then None
    else
      match ParseLine(d, r.value.0)
      case End => Some((m, r.value.1))
      case Skip => ParseFrom(d, r.value.1, m)
      case Pair(k, v) => ParseFrom(d, r.value.1, m[k := v])
  }

  function Parse(d: Dialect, input: string): (r: Option<(Message, string)>)
    ensures r.Some? ==> |r.value.1| < |input|
  {
    ParseFrom(d, input, map[])
  }

  // ----------------------------------------------------------------- printing

  function LineOf(k: string, v: string): string {
    k + ": " + v + "\r\n"
  }

  /** Every key of the map once, in any order. */
  ghost predicate IsOrder(order: seq<string>, m: Message) {
    && (forall k :: k in order <==> k in m)
    && (forall i, j :: 0 <= i < j < |order| ==> order[i] != order[j])
  }

  function Print(m: Message, order: seq<string>): string
    requires forall k :: k in order ==> k in m
  {
    if order == [] then "\r\n" else LineOf(order[0], m[order[0]]) + Print(m, order[1..])
  }

  // --------------------------------------------------------------- round trip

  predicate WellFormedPair(k: string, v: string) {
    IsTrimmed(k) && IsTrimmed(v) && '\n' !in k && '\n' !in v && ':' !in k
  }

  predicate WellFormed(m: Message) {
    forall k :: k in m ==> WellFormedPair(k, m[k])
  }

  lemma LineEndIs(t: string, end: string)
    requires forall i :: 0 <= i < |end| ==> end[i] == '\r' || end[i] == '\n'
    requires t == "" || (t[|t| - 1] != '\r' && t[|t| - 1] != '\n')
    ensures TrimLineEnd(t + end) == t
    decreases |end|
  {
    if end == "" {
      assert t + end == t;
    } else {
      assert (t + end)[..|t + end| - 1] == t + end[..|end| - 1];
      LineEndIs(t, end[..|end| - 1]);
    }
  }

  /** What the value looks like once the line is stripped: only the proxy loses the
      space before an empty one. */
  function ValuePart(d: Dialect, v: string): string {
    if d == Proxy && v == "" then "" else " " + v
  }

  lemma LineShape(d: Dialect, k: string, v: string)
    ensures LineOf(k, v) == k + ":" + (" " + v) + "\r\n"
    ensures v == "" ==> LineOf(k, v) == k + ":" + " \r\n"
  {}

  lemma ProxyContentIs(whole: string, q: string)
    requires whole != "" && IsTrimmed(whole) && (q == "\r\n" || q == " \r\n")
    ensures TrimSpace(whole + q) == whole
  {
    assert AllSpace("") && AllSpace("\r\n") && AllSpace(" \r\n");
    hide TrimSpace, IsSpace, AllSpace;
    assert "" + whole + q == whole + q;
    TrimIs("", whole, q);
  }

  lemma ProxyContent(k: string, v: string)
    requires WellFormedPair(k, v)
    ensures TrimSpace(LineOf(k, v)) == k + ":" + ValuePart(Proxy, v)
  {
    assert !IsSpace(':');
    hide TrimSpace, IsSpace, LineOf;
    LineShape(Proxy, k, v);
    if v == "" {
      ProxyContentIs(k + ":", " \r\n");
      assert k + ":" + "" == k + ":";
    } else {
      ProxyContentIs(k + ":" + (" " + v), "\r\n");
    }
  }

  lemma ClientContentOfEntry(k: string, v: string)
    requires WellFormedPair(k, v)
    ensures TrimLineEnd(LineOf(k, v)) == k + ":" + ValuePart(Client, v)
  {
    assert IsSpace('\r') && IsSpace('\n');
    hide TrimLineEnd, IsSpace, LineOf;
    LineShape(Client, k, v);
    LineEndIs(k + ":" + (" " + v), "\r\n");
  }

  lemma LineOfContent(d: Dialect, k: string, v: string)
    requires WellFormedPair(k, v)
    ensures Content(d, LineOf(k, v)) == k + ":" + ValuePart(d, v)
  {
    hide LineOf, WellFormedPair, TrimSpace, TrimLineEnd;
    match d {
      case Proxy => ProxyContent(k, v);
      case Client => ClientContentOfEntry(k, v);
    }
  }

  /** A line is split at its first colon. */
  lemma ColonAt(content: string, k: string, v: string)
    requires content == k + ":" + v && ':' !in k
    ensures IndexOf(content, ':') == |k| && content[..|k|] == k && content[|k| + 1..] == v
  {
    assert content[..|k|] == k && content[|k| + 1..] == v;
    IndexOfIs(content, ':', |k|);
  }

  lemma NoSplit(content: string)
    requires content != "" && ':' !in content
    ensures SplitLine(content) == Skip
  {
    hide IndexOf;
    assert content[..|content|] == content;
    IndexOfIs(content, ':', |content|);
  }

  lemma ValuePartTrims(d: Dialect, v: string)
    requires IsTrimmed(v)
    ensures TrimSpace(ValuePart(d, v)) == v
  {
    hide TrimSpace;
    assert AllSpace(" ");
    TrimOfTrimmed(v);
    if !(d == Proxy && v == "") {
      assert " " + v + "" == " " + v;
      TrimPadded(" ", v, "");
    }
  }

  /** A printed entry parses back to the pair it was printed from. */
  lemma LineOfParses(d: Dialect, k: string, v: string)
    requires WellFormedPair(k, v)
    ensures ParseLine(d, LineOf(k, v)) == Pair(k, v)
  {
    hide Content, IndexOf, ValuePart, LineOf, TrimSpace;
    LineOfContent(d, k, v);
    ColonAt(k + ":" + ValuePart(d, v), k, ValuePart(d, v));
    TrimOfTrimmed(k);
    ValuePartTrims(d, v);
  }

  lemma LineIsOneLine(k: string, v: string, rest: string)
    requires WellFormedPair(k, v)
    ensures ReadLine(LineOf(k, v) + rest) == Some((LineOf(k, v), rest))
  {
    hide IndexOf;
    var input := LineOf(k, v) + rest;
    var i := |LineOf(k, v)| - 1;
    assert input[..i] == k + ": " + v + "\r";
    IndexOfIs(input, '\n', i);
    assert input[..i + 1] == LineOf(k, v) && input[i + 1..] == rest;
  }

  lemma EndIsOneLine(rest: string)
    ensures ReadLine("\r\n" + rest) == Some(("\r\n", rest))
  {
    hide IndexOf;
    var input := "\r\n" + rest;
    assert input[..1] == "\r";
    IndexOfIs(input, '\n', 1);
    assert input[..2] == "\r\n" && input[2..] == rest;
  }

  lemma EndEnds(d: Dialect)
    ensures ParseLine(d, "\r\n") == End
  {
    hide TrimSpace, TrimLineEnd;
    TrimIs("\r\n", "", "");
    assert "\r\n" + "" + "" == "\r\n" == "" + "\r\n";
    LineEndIs("", "\r\n");
  }

  lemma {:induction false} PrintParses(d: Dialect, m: Message, order: seq<string>, done: Message, rest: string)
    requires WellFormed(m) && IsOrderOf(order, m, done)
    ensures ParseFrom(d, Print(m, order) + rest, done) == Some((m, rest))
    decreases |order|
  {
    hide ReadLine, ParseLine, LineOf, WellFormedPair;
    if order == [] {
      EndIsOneLine(rest);
      EndEnds(d);
      assert done == m;
    } else {
      var (k, v) := (order[0], m[order[0]]);
      assert Print(m, order) + rest == LineOf(k, v) + (Print(m, order[1..]) + rest);
      LineIsOneLine(k, v, Print(m, order[1..]) + rest);
      LineOfParses(d, k, v);
      PrintParses(d, m, order[1..], done[k := v], rest);
    }
  }

  /** `done` holds the entries of the map that the order leaves out. */
  ghost predicate IsOrderOf(order: seq<string>, m: Message, done: Message) {
    && (forall k :: k in m <==> k in order || k in done)
    && (forall k :: k in done ==> k in m && done[k] == m[k])
    && (forall k :: k in order ==> k in m)
  }

  lemma TrimKeeps(s: string, c: char)
    requires c !in s
    ensures c !in TrimSpace(s)
  {
    hide TrimSpace, IsSpace;
    var p, q := TrimSplits(s);
    assert forall i :: 0 <= i < |TrimSpace(s)| ==> TrimSpace(s)[i] == s[|p| + i];
  }

  /** Only the last character of a line can be a newline. */
  lemma InsideLine(line: string, p: string, content: string)
    requires line != "" && '\n' !in line[..|line| - 1] && p + content <= line
    requires content == "" || content[|content| - 1] != '\n'
    ensures '\n' !in content
  {
    var before := line[..|line| - 1];
    forall i | 0 <= i < |content| ensures content[i] != '\n' {
      assert content[i] == (p + content)[|p| + i] == line[|p| + i];
      if i < |content| - 1 {
        assert before[|p| + i] == line[|p| + i];
      }
    }
  }

  lemma ContentHasNoNewline(d: Dialect, line: string)
    requires line != "" && '\n' !in line[..|line| - 1]
    ensures '\n' !in Content(d, line)
  {
    assert IsSpace('\n');
    hide TrimSpace, TrimLineEnd, IsSpace;
    if d == Proxy {
      var p, q := TrimSplits(line);
      InsideLine(line, p, TrimSpace(line));
    } else {
      InsideLine(line, "", TrimLineEnd(line));
    }
  }

  lemma ParsedPairIsWellFormed(d: Dialect, line: string)
    requires line != "" && '\n' !in line[..|line| - 1] && ParseLine(d, line).Pair?
    ensures var r := ParseLine(d, line); WellFormedPair(r.key, r.value)
  {
    hide TrimSpace, Content, IsSpace;
    var content := Content(d, line);
    ContentHasNoNewline(d, line);
    var i := IndexOf(content, ':');
    var (k, v) := (content[..i], content[i + 1..]);
    TrimKeeps(k, '\n');
    TrimKeeps(k, ':');
    TrimKeeps(v, '\n');
    var _, _ := TrimSplits(k);
    var _, _ := TrimSplits(v);
  }

  lemma {:induction false} ParsedIsWellFormed(d: Dialect, input: string, m: Message)
    requires WellFormed(m)
    ensures var r := ParseFrom(d, input, m); r.Some? ==> WellFormed(r.value.0)
    decreases |input|
  {
    hide ReadLine, ParseLine, WellFormedPair;
    var r := ReadLine(input);
    if r.Some? {
      match ParseLine(d, r.value.0)
      case End =>
      case Skip => ParsedIsWellFormed(d, r.value.1, m);
      case Pair(k, v) =>
        ParsedPairIsWellFormed(d, r.value.0);
        ParsedIsWellFormed(d, r.value.1, m[k := v]);
    }
  }

  /** Printing in any order and parsing, with any text behind it, gives the message
      back and stops exactly at its end, for the messages whose keys and values are
      trimmed and free of newlines and whose keys have no colon; and for no others. */
  lemma RoundTripIff(d: Dialect, m: Message, order: seq<string>, rest: string)
    requires IsOrder(order, m)
    ensures Parse(d, Print(m, order) + rest) == Some((m, rest)) <==> WellFormed(m)
  {
    hide ParseFrom, Print, WellFormedPair;
    if WellFormed(m) {
      PrintParses(d, m, order, map[], rest);
    } else {
      ParsedIsWellFormed(d, Print(m, order) + rest, map[]);
    }
  }

  // ------------------------------------------------------- a stream of messages

  /** The messages a reader sees before the input ends. */
  function ParseAll(d: Dialect, input: string): seq<Message>
    decreases |input|
  {
    var r := Parse(d, input);
    if r.None? then [] else [r.value.0] + ParseAll(d, r.value.1)
  }

  ghost function PrintAll(ms: seq<Message>, orders: seq<seq<string>>): string
    requires |ms| == |orders| && forall i :: 0 <= i < |ms| ==> IsOrder(orders[i], ms[i])
  {
    if ms == [] then ""
    else
      assert IsOrder(orders[0], ms[0]);
      Print(ms[0], orders[0]) + PrintAll(ms[1..], orders[1..])
  }

  lemma FirstOfStream(d: Dialect, m: Message, order: seq<string>, rest: string)
    requires IsOrder(order, m) && WellFormed(m)
    ensures ParseAll(d, Print(m, order) + rest) == [m] + ParseAll(d, rest)
  {
    hide Parse, Print, IsOrder, WellFormed;
    RoundTripIff(d, m, order, rest);
  }

  lemma EndOfStream(d: Dialect)
    ensures ParseAll(d, "") == []
  {
    assert Parse(d, "") == None;
  }

  /** What is parsed can be printed in any order and parsed again: a proxy that reads
      messages and forwards them loses nothing, however many there are. */
  lemma {:induction false} StreamRoundTrip(d: Dialect, ms: seq<Message>, orders: seq<seq<string>>)
    requires |ms| == |orders| && forall i :: 0 <= i < |ms| ==> IsOrder(orders[i], ms[i]) && WellFormed(ms[i])
    ensures ParseAll(d, PrintAll(ms, orders)) == ms
  {
    hide Print, IsOrder, WellFormed, ParseAll;
    if ms == [] {
      EndOfStream(d);
    } else {
      FirstOfStream(d, ms[0], orders[0], PrintAll(ms[1..], orders[1..]));
      StreamRoundTrip(d, ms[1..], orders[1..]);
    }
  }

  /** Whatever the input, a parsed message is well formed. */
  lemma MessageIsWellFormed(d: Dialect, input: string)
    ensures Parse(d, input).Some? ==> WellFormed(Parse(d, input).value.0)
  {
    hide ParseFrom, WellFormedPair;
    ParsedIsWellFormed(d, input, map[]);
  }

  lemma {:induction false} AllParsedAreWellFormed(d: Dialect, input: string)
    ensures forall i :: 0 <= i < |ParseAll(d, input)| ==> WellFormed(ParseAll(d, input)[i])
    decreases |input|
  {
    hide Parse, WellFormed;
    var r := Parse(d, input);
    if r.Some? {
      MessageIsWellFormed(d, input);
      AllParsedAreWellFormed(d, r.value.1);
      assert ParseAll(d, input) == [r.value.0] + ParseAll(d, r.value.1);
    }
  }

  /** So forwarding any input whatever, from either parser to either parser, is lossless. */
  lemma ForwardingIsLossless(from: Dialect, to: Dialect, input: string, orders: seq<seq<string>>)
    requires |orders| == |ParseAll(from, input)|
    requires forall i :: 0 <= i < |orders| ==> IsOrder(orders[i], ParseAll(from, input)[i])
    ensures ParseAll(to, PrintAll(ParseAll(from, input), orders)) == ParseAll(from, input)
  {
    AllParsedAreWellFormed(from, input);
    StreamRoundTrip(to, ParseAll(from, input), orders);
  }

  // ------------------------------------------------------ where the two differ

  /** Where a text with a colon is cut. */
  lemma ColonSplits(t: string) returns (k: string, v: string)
    requires ':' in t
    ensures t == k + ":" + v && ':' !in k
  {
    hide IndexOf;
    var i := IndexOf(t, ':');
    assert t[..|t|] == t;
    k, v := t[..i], t[i + 1..];
  }

  lemma SpaceHasNoColon(s: string)
    requires AllSpace(s)
    ensures ':' !in s
  {}

  lemma SplitPadded(p: string, t: string, q: string)
    requires AllSpace(p) && AllSpace(q) && t != ""
    ensures SplitLine(p + t + q) == SplitLine(t)
  {
    hide TrimSpace, IsSpace, AllSpace, IndexOf;
    SpaceHasNoColon(p);
    SpaceHasNoColon(q);
    if ':' in t {
      var k, v := ColonSplits(t);
      ColonAt(t, k, v);
      assert p + t + q == (p + k) + ":" + (v + q);
      ColonAt(p + t + q, p + k, v + q);
      PadBoth(p, k, v, q);
    } else {
      NoSplit(t);
      NoSplit(p + t + q);
    }
  }

  lemma PadBoth(p: string, k: string, v: string, q: string)
    requires AllSpace(p) && AllSpace(q)
    ensures TrimSpace(p + k) == TrimSpace(k) && TrimSpace(v + q) == TrimSpace(v)
  {
    hide TrimSpace, IsSpace;
    assert p + k + "" == p + k && "" + v + q == v + q;
    TrimPadded(p, k, "");
    TrimPadded("", v, q);
  }

  /** The two parsers read a line alike unless it is blank without being empty: that
      ends the message for the proxy and is passed over by the client. */
  lemma ParsersDifferIff(line: string)
    ensures ParseLine(Proxy, line) != ParseLine(Client, line) <==> TrimSpace(line) == "" && TrimLineEnd(line) != ""
    ensures TrimSpace(line) == "" && TrimLineEnd(line) != "" ==>
        ParseLine(Proxy, line) == End && ParseLine(Client, line) == Skip
  {
    hide TrimSpace, TrimLineEnd, IsSpace, AllSpace;
    assert SplitLine("") == End;
    hide SplitLine;
    var t, c := TrimSpace(line), TrimLineEnd(line);
    if t == "" {
      if c != "" {
        BlankHasNoColon(line);
        NoSplit(c);
      }
    } else {
      var p, q := ClientContent(line);
      SplitPadded(p, t, q);
    }
  }

  lemma BlankHasNoColon(line: string)
    requires TrimSpace(line) == ""
    ensures ':' !in TrimLineEnd(line)
  {
    hide TrimSpace, TrimLineEnd, IsSpace, AllSpace;
    var p, _ := TrimSplits(line);
    assert line == p;
    SpaceHasNoColon(line);
  }

  lemma EndsInText(p: string, t: string, end: string)
    requires t != "" && !IsSpace(t[|t| - 1])
    ensures |TrimLineEnd(p + t + end)| >= |p| + |t|
  {
    assert IsSpace('\r') && IsSpace('\n');
    hide TrimLineEnd, IsSpace;
    assert (p + t + end)[|p| + |t| - 1] == t[|t| - 1];
  }

  /** Dropping the line end takes away only space. */
  lemma ClientContent(line: string) returns (p: string, q: string)
    requires TrimSpace(line) != ""
    ensures TrimLineEnd(line) == p + TrimSpace(line) + q && AllSpace(p) && AllSpace(q)
  {
    hide TrimSpace, TrimLineEnd, IsSpace, AllSpace;
    var t, c := TrimSpace(line), TrimLineEnd(line);
    var end;
    p, end := TrimSplits(line);
    EndsInText(p, t, end);
    PrefixOfThree(p, t, end, c);
    q := end[..|c| - |p| - |t|];
    PrefixIsSpace(end, |q|);
  }

  lemma PrefixOfThree(p: string, t: string, q: string, c: string)
    requires c <= p + t + q && |c| >= |p| + |t|
    ensures c == p + t + q[..|c| - |p| - |t|]
  {}

  lemma PrefixIsSpace(s: string, n: nat)
    requires AllSpace(s) && n <= |s|
    ensures AllSpace(s[..n])
  {}

  // ----------------------------------------------- what a message is made of

  predicate IsLine(line: string) {
    line != "" && line[|line| - 1] == '\n' && '\n' !in line[..|line| - 1]
  }

  function Joined(lines: seq<string>): string {
    if lines == [] then "" else lines[0] + Joined(lines[1..])
  }

  /** What the last line with this key gives it. */
  function LastValue(d: Dialect, lines: seq<string>, key: string): Option<string>
    decreases |lines|
  {
    if lines == [] then None
    else
      var last := ParseLine(d, lines[|lines| - 1]);
      if last.Pair? && last.key == key then Some(last.value) else LastValue(d, lines[..|lines| - 1], key)
  }

  lemma {:induction false} LastValueByHead(d: Dialect, lines: seq<string>, key: string)
    requires lines != []
    ensures var (first, later) := (ParseLine(d, lines[0]), LastValue(d, lines[1..], key));
            LastValue(d, lines, key) == if later.Some? then later
                                        else if first.Pair? && first.key == key then Some(first.value) else None
    decreases |lines|
  {
    hide ParseLine;
    var before := lines[..|lines| - 1];
    if |lines| > 1 {
      LastValueByHead(d, before, key);
      assert before[1..] == lines[1..][..|lines| - 2];
    }
  }

  lemma ReadsOneLine(line: string, rest: string)
    requires IsLine(line)
    ensures ReadLine(line + rest) == Some((line, rest))
  {
    hide IndexOf;
    var (input, i) := (line + rest, |line| - 1);
    assert input[..i] == line[..i];
    IndexOfIs(input, '\n', i);
    assert input[..i + 1] == line && input[i + 1..] == rest;
  }

  /** The message has exactly the keys of the lines and of what was read before, each with
      the value that came last. */
  ghost predicate Collects(d: Dialect, lines: seq<string>, before: Message, m: Message) {
    forall key ::
      && (key in m <==> key in before || LastValue(d, lines, key).Some?)
      && (LastValue(d, lines, key).Some? ==> m[key] == LastValue(d, lines, key).value)
      && (LastValue(d, lines, key).None? && key in before ==> m[key] == before[key])
  }

  lemma {:induction false} LinesAreCollected(d: Dialect, lines: seq<string>, end: string, rest: string, before: Message)
    requires forall i :: 0 <= i < |lines| ==> IsLine(lines[i]) && ParseLine(d, lines[i]) != End
    requires IsLine(end) && ParseLine(d, end) == End
    ensures var r := ParseFrom(d, Joined(lines) + end + rest, before);
            r.Some? && r.value.1 == rest && Collects(d, lines, before, r.value.0)
    decreases |lines|
  {
    hide ReadLine, ParseLine, IsLine, LastValue, Collects;
    if lines == [] {
      assert Joined(lines) + end + rest == end + rest;
      ReadsOneLine(end, rest);
      NothingLast(d, before);
    } else {
      var tail := Joined(lines[1..]) + end + rest;
      assert Joined(lines) + end + rest == lines[0] + tail;
      ReadsOneLine(lines[0], tail);
      LinesAreCollected(d, lines[1..], end, rest, Added(d, lines[0], before));
      CollectsWithHead(d, lines, before, ParseFrom(d, tail, Added(d, lines[0], before)).value.0);
    }
  }

  function Added(d: Dialect, line: string, m: Message): Message {
    match ParseLine(d, line) case Pair(k, v) => m[k := v] case _ => m
  }

  lemma CollectsWithHead(d: Dialect, lines: seq<string>, before: Message, m: Message)
    requires lines != [] && Collects(d, lines[1..], Added(d, lines[0], before), m)
    ensures Collects(d, lines, before, m)
  {
    hide ParseLine, LastValue;
    forall key ensures LastValue(d, lines, key) ==
                         var (first, later) := (ParseLine(d, lines[0]), LastValue(d, lines[1..], key));
                         if later.Some? then later
                         else if first.Pair? && first.key == key then Some(first.value) else None
    {
      LastValueByHead(d, lines, key);
    }
  }

  lemma NothingLast(d: Dialect, before: Message)
    ensures Collects(d, [], before, before)
  {}

  /** Any lines up to the first empty one are a message: a line without a colon is passed
      over and leaves the others alone, and of lines with the same key the last one counts. */
  lemma LastLineWins(d: Dialect, lines: seq<string>, end: string, rest: string)
    requires forall i :: 0 <= i < |lines| ==> IsLine(lines[i]) && ParseLine(d, lines[i]) != End
    requires IsLine(end) && ParseLine(d, end) == End
    ensures var r := Parse(d, Joined(lines) + end + rest);
            && r.Some? && r.value.1 == rest
            && forall key ::
                 && (key in r.value.0 <==> LastValue(d, lines, key).Some?)
                 && (key in r.value.0 ==> r.value.0[key] == LastValue(d, lines, key).value)
  {
    hide ParseFrom, ParseLine, LastValue, IsLine, Joined;
    LinesAreCollected(d, lines, end, rest, map[]);
  }
}
