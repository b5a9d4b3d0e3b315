/** Server-sent events: what internal/api/sse.go writes is what a browser reads back.

    The reader is the parser of the WHATWG HTML Living Standard, sections 9.2.5 and 9.2.6, on text
    that has been decoded and has no byte order mark. */
module Sse {

  /** One event: its type and its data. */
  datatype Event = Event(name: string, data: string)

  // ---------------------------------------------------------------- the writer

  const KEEPALIVE := ": keepalive\n\n"

  /** What the write loop of a stream is woken up by, in order: frames from the hub and ticks. */
  datatype Wake = Frame(event: Event) | Tick

  /** encodeFrame, given the body already in JSON. */
  function Encode(e: Event): string {
    FieldText("event", e.name) + FieldText("data", e.data) + "\n"
  }

  function FieldText(name: string, value: string): string {
    name + ": " + value + "\n"
  }

  function TextOf(w: Wake): string {
    if w.Frame? then Encode(w.event) else KEEPALIVE
  }

  function Written(wakes: seq<Wake>): string {
    if wakes == [] then "" else TextOf(wakes[0]) + Written(wakes[1..])
  }

  function Sent(wakes: seq<Wake>): seq<Event> {
    if wakes == [] then []
    else if wakes[0].Frame? then [wakes[0].event] + Sent(wakes[1..])
    else Sent(wakes[1..])
  }

  method EncodeFrame(event: string, body: string) returns (buf: string)
    ensures buf == Encode(Event(event, body))
    ensures OneLine(event) && OneLine(body) ==> Lines(buf) == ["event: " + event, "data: " + body, ""]
  {
    buf := "";
    buf := buf + "event: ";
    buf := buf + event;
    buf := buf + "\ndata: ";
    buf := buf + body;
    buf := buf + "\n\n";
    assert buf == Encode(Event(event, body));
    if OneLine(event) && OneLine(body) { FrameLines(event, body, buf); }
  }

  lemma {:induction false} WrittenSnoc(wakes: seq<Wake>, w: Wake)
    ensures Written(wakes + [w]) == Written(wakes) + TextOf(w)
  {
    if wakes == [] {
      assert wakes + [w] == [w];
    } else {
      assert (wakes + [w])[1..] == wakes[1..] + [w];
      WrittenSnoc(wakes[1..], w);
    }
  }

  datatype Option<T> = None | Some(value: T)

  /** What gets out of a text when the connection fails after `sent` characters, or at the flush. */
  function Part(text: string, sent: nat): (out: string)
    ensures out <= text && |out| == if sent < |text| then sent else |text|
  {
    if sent < |text| then text[..sent] else text
  }

  /** What a stream has to write: the first frame, if it could be encoded, then whatever wakes it up. */
  function Due(first: Option<Event>, wakes: seq<Wake>): seq<Wake> {
    (if first.Some? then [Frame(first.value)] else []) + wakes
  }

  lemma WrittenFirst(first: Option<Event>)
    ensures Written(Due(first, [])) == if first.Some? then Encode(first.value) else ""
  {
    WrittenSnoc([], Frame(if first.Some? then first.value else Event("", "")));
    assert Due(first, []) == if first.Some? then [] + [Frame(first.value)] else [];
  }

  lemma DueSteps(first: Option<Event>, wakes: seq<Wake>, i: nat)
    requires i < |wakes|
    ensures Due(first, wakes[..i + 1]) == Due(first, wakes[..i]) + [wakes[i]]
    ensures var n, due := |Due(first, [])| + i, Due(first, wakes);
            n < |due| && due[n] == wakes[i] && due[..n] == Due(first, wakes[..i])
  {
    assert wakes[..i + 1] == wakes[..i] + [wakes[i]];
  }

  /** What one wake-up has the loop write. */
  method Answer(w: Wake) returns (text: string)
    ensures text == TextOf(w)
    ensures w.Tick? ==> Lines(text) == [": keepalive", ""]
  {
    KeepaliveLines();
    match w {
      case Tick => text := KEEPALIVE;
      case Frame(e) => text := EncodeFrame(e.name, e.data);
    }
  }

  /** The write loop: the first frame at once, then whatever wakes it up until the client goes away or
      the hub closes. Write number `breaks`, or its flush, is the first to fail, if the stream gets
      that far; `sent` characters of its text got out. */
  method Stream(first: Option<Event>, wakes: seq<Wake>, breaks: nat, sent: nat) returns (out: string)
    ensures var due := Due(first, wakes);
            if breaks >= |due| then out == Written(due)
            else out == Written(due[..breaks]) + Part(TextOf(due[breaks]), sent)
  {
    out := "";
    if first.Some? {
      var frame := Answer(Frame(first.value));
      if breaks == 0 {
        return Part(frame, sent);
      }
      out := frame;
    }
    WrittenFirst(first);
    var i, done := 0, if first.Some? then 1 else 0;
    while i < |wakes|
      invariant 0 <= i <= |wakes| && done == |Due(first, [])| + i <= breaks
      invariant out == Written(Due(first, wakes[..i]))
    {
      var text := Answer(wakes[i]);
      DueSteps(first, wakes, i);
      if breaks == done {
        return out + Part(text, sent);
      }
      WrittenSnoc(Due(first, wakes[..i]), wakes[i]);
      out, i, done := out + text, i + 1, done + 1;
    }
    assert wakes[..i] == wakes;
  }

  // ---------------------------------------------------------------- the reader

  predicate IsBreak(c: char) {
    c == '\n' || c == '\r'
  }

  predicate OneLine(s: string) {
    forall i :: 0 <= i < |s| ==> !IsBreak(s[i])
  }

  /** Where the first line ends. */
  function LineLength(text: string): (n: nat)
    ensures n <= |text|
  {
    if text == "" || IsBreak(text[0]) then 0 else 1 + LineLength(text[1..])
  }

  /** The text after the line end: a CR LF pair, a lone LF or a lone CR. */
  function AfterBreak(text: string): (rest: string)
    requires text != ""
    ensures |rest| < |text|
  {
    if text[0] == '\r' && |text| > 1 && text[1] == '\n' then text[2..] else text[1..]
  }

  /** The complete lines of a stream; an unfinished last line is discarded. */
  function Lines(text: string): seq<string>
    decreases |text|
  {
    var n := LineLength(text);
    if n == |text| then [] else [text[..n]] + Lines(AfterBreak(text[n..]))
  }

  /** The parser's buffers and the events it has dispatched. */
  datatype Parser = Parser(name: string, data: string, lastId: string, dispatched: seq<Event>)

  const START := Parser("", "", "", [])

  /** The position of the first colon, or the length. */
  function Colon(line: string): (n: nat)
    ensures n <= |line|
    ensures n < |line| ==> line[n] == ':'
  {
    if line == "" || line[0] == ':' then 0 else 1 + Colon(line[1..])
  }

  function StripSpace(value: string): string {
    if value != "" && value[0] == ' ' then value[1..] else value
  }

  /** Processing a field. Reconnection times do not change what is dispatched. */
  function Field(p: Parser, name: string, value: string): Parser {
    if name == "event" then p.(name := value)
    else if name == "data" then p.(data := p.data + value + "\n")
    else if name == "id" && '\0' !in value then p.(lastId := value)
    else p
  }

  /** Dispatching an event: nothing without data; the last LF of the data is dropped; an event
      without a type is a message. */
  function Dispatch(p: Parser): Parser {
    if p.data == "" then p.(name := "")
    else
      var data := if p.data[|p.data| - 1] == '\n' then p.data[..|p.data| - 1] else p.data;
      Parser("", "", p.lastId, p.dispatched + [Event(if p.name == "" then "message" else p.name, data)])
  }

  function Line(p: Parser, line: string): Parser {
    if line == "" then Dispatch(p)
    else if line[0] == ':' then p
    else
      var n := Colon(line);
      if n < |line| then Field(p, line[..n], StripSpace(line[n + 1..])) else Field(p, line, "")
  }

  function ParseLines(p: Parser, lines: seq<string>): Parser
    decreases |lines|
  {
    if lines == [] then p
    else
      var p' := Line(p, lines[0]);
      ParseLines(p', lines[1..])
  }

  function Parse(text: string): seq<Event> {
    ParseLines(START, Lines(text)).dispatched
  }

  // ---------------------------------------------------------------- round trip

  lemma {:induction false} LineLengthIs(line: string, rest: string)
    requires OneLine(line)
    ensures LineLength(line + "\n" + rest) == |line|
  {
    var text := line + "\n" + rest;
    if line != "" {
      assert text[1..] == line[1..] + "\n" + rest;
      LineLengthIs(line[1..], rest);
    }
  }

  /** A line ended by LF is read as one line. */
  lemma FirstLine(line: string, rest: string)
    requires OneLine(line)
    ensures Lines(line + "\n" + rest) == [line] + Lines(rest)
  {
    var text := line + "\n" + rest;
    LineLengthIs(line, rest);
    assert text[..|line|] == line;
    assert text[|line|..] == "\n" + rest;
    assert AfterBreak("\n" + rest) == rest;
  }

  lemma {:induction false} ColonAfterName(name: string, value: string)
    requires ':' !in name
    ensures Colon(name + ":" + value) == |name|
  {
    if name != "" {
      assert (name + ":" + value)[1..] == name[1..] + ":" + value;
      ColonAfterName(name[1..], value);
    }
  }

  /** A field written with one space after the colon is read back as it was. */
  lemma FieldLine(p: Parser, name: string, value: string)
    requires name != "" && ':' !in name
    ensures Line(p, name + ": " + value) == Field(p, name, value)
  {
    var line := name + ": " + value;
    assert line == name + ":" + (" " + value);
    ColonAfterName(name, " " + value);
    assert line[..|name|] == name;
    assert line[|name| + 1..] == " " + value;
    assert (" " + value)[1..] == value;
  }

  lemma FieldTextLines(name: string, value: string, rest: string)
    requires OneLine(name) && OneLine(value)
    ensures Lines(FieldText(name, value) + rest) == [name + ": " + value] + Lines(rest)
  {
    assert FieldText(name, value) + rest == (name + ": " + value) + "\n" + rest;
    FirstLine(name + ": " + value, rest);
  }

  lemma EmptyLine(rest: string)
    ensures Lines("\n" + rest) == [""] + Lines(rest)
  {
    assert "" + "\n" + rest == "\n" + rest;
    FirstLine("", rest);
  }

  lemma ParseCons(p: Parser, line: string, lines: seq<string>)
    ensures ParseLines(p, [line] + lines) == ParseLines(Line(p, line), lines)
  {
    assert ([line] + lines)[1..] == lines;
  }

  /** Reading one field that was written. */
  lemma ReadsField(p: Parser, name: string, value: string, rest: string)
    requires OneLine(name) && OneLine(value) && name != "" && ':' !in name
    ensures ParseLines(p, Lines(FieldText(name, value) + rest)) == ParseLines(Field(p, name, value), Lines(rest))
  {
    FieldTextLines(name, value, rest);
    ParseCons(p, name + ": " + value, Lines(rest));
    FieldLine(p, name, value);
  }

  lemma ReadsEmptyLine(p: Parser, rest: string)
    ensures ParseLines(p, Lines("\n" + rest)) == ParseLines(Dispatch(p), Lines(rest))
  {
    EmptyLine(rest);
    ParseCons(p, "", Lines(rest));
  }

  predicate Blank(p: Parser) {
    p.name == "" && p.data == ""
  }

  function AfterFrame(p: Parser, e: Event): Parser {
    p.(dispatched := p.dispatched + [Known(e)])
  }

  lemma FrameFields(p: Parser, e: Event)
    requires Blank(p)
    ensures Dispatch(Field(Field(p, "event", e.name), "data", e.data)) == AfterFrame(p, e)
  {
    var p1 := Field(p, "event", e.name);
    assert p1 == p.(name := e.name);
    assert Field(p1, "data", e.data).data == e.data + "\n";
    assert (e.data + "\n")[..|e.data|] == e.data;
  }

  lemma Regroup(a: string, b: string, c: string, d: string)
    ensures a + b + c + d == a + (b + (c + d))
  {
  }

  lemma EncodeText(e: Event, rest: string)
    ensures Encode(e) + rest == FieldText("event", e.name) + (FieldText("data", e.data) + ("\n" + rest))
  {
    Regroup(FieldText("event", e.name), FieldText("data", e.data), "\n", rest);
  }

  lemma ReadsName(p: Parser, name: string, rest: string)
    requires OneLine(name)
    ensures ParseLines(p, Lines(FieldText("event", name) + rest)) == ParseLines(Field(p, "event", name), Lines(rest))
  {
    ReadsField(p, "event", name, rest);
  }

  lemma ReadsBody(p: Parser, body: string, rest: string)
    requires OneLine(body)
    ensures ParseLines(p, Lines(FieldText("data", body) + rest)) == ParseLines(Field(p, "data", body), Lines(rest))
  {
    ReadsField(p, "data", body, rest);
  }

  lemma EventLine(name: string, text: string, rest: string)
    requires OneLine(name) && text == FieldText("event", name) + rest
    ensures Lines(text) == ["event: " + name] + Lines(rest)
  {
    assert "event" + ": " + name == "event: " + name;
    FieldTextLines("event", name, rest);
  }

  lemma DataLine(body: string, text: string)
    requires OneLine(body) && text == FieldText("data", body) + "\n"
    ensures Lines(text) == ["data: " + body] + [""]
  {
    assert "data" + ": " + body == "data: " + body;
    FieldTextLines("data", body, "\n");
    OneEmptyLine();
  }

  lemma ThreeLines(text: string, a: string, b: string, rest: string)
    requires Lines(text) == [a] + Lines(rest) && Lines(rest) == [b] + [""]
    ensures Lines(text) == [a, b, ""]
  {
  }

  lemma Associate(a: string, b: string, c: string)
    ensures a + b + c == a + (b + c)
  {
  }

  /** A frame is three lines, whatever is in it. */
  lemma FrameLines(name: string, body: string, text: string)
    requires OneLine(name) && OneLine(body) && text == Encode(Event(name, body))
    ensures Lines(text) == ["event: " + name, "data: " + body, ""]
  {
    var rest := FieldText("data", body) + "\n";
    Associate(FieldText("event", name), FieldText("data", body), "\n");
    EventLine(name, text, rest);
    DataLine(body, rest);
    ThreeLines(text, "event: " + name, "data: " + body, rest);
  }

  /** A keepalive is a comment line and an empty one. */
  lemma KeepaliveLines()
    ensures Lines(KEEPALIVE) == [": keepalive", ""]
  {
    assert KEEPALIVE == ": keepalive" + "\n" + ("\n" + "");
    FirstLine(": keepalive", "\n" + "");
    EmptyLine("");
    assert Lines("") == [];
  }

  /** Between frames the parser's buffers are empty; a frame dispatches exactly its event. */
  lemma ReadsFrame(p: Parser, e: Event, rest: string)
    requires Blank(p) && OneLine(e.name) && OneLine(e.data)
    ensures ParseLines(p, Lines(Encode(e) + rest)) == ParseLines(AfterFrame(p, e), Lines(rest))
  {
    EncodeText(e, rest);
    ReadsName(p, e.name, FieldText("data", e.data) + ("\n" + rest));
    ReadsBody(Field(p, "event", e.name), e.data, "\n" + rest);
    ReadsEmptyLine(Field(Field(p, "event", e.name), "data", e.data), rest);
    FrameFields(p, e);
  }

  /** A keepalive is a comment and a blank line: nothing is dispatched. */
  lemma ReadsKeepalive(p: Parser, rest: string)
    requires Blank(p)
    ensures ParseLines(p, Lines(KEEPALIVE + rest)) == ParseLines(p, Lines(rest))
  {
    assert KEEPALIVE + rest == ": keepalive" + "\n" + ("\n" + rest);
    FirstLine(": keepalive", "\n" + rest);
    ParseCons(p, ": keepalive", Lines("\n" + rest));
    ReadsEmptyLine(p, rest);
  }

  /** How an event is known to the page: without a type it is a message. */
  function Known(e: Event): Event {
    if e.name == "" then e.(name := "message") else e
  }

  function AllKnown(events: seq<Event>): seq<Event> {
    if events == [] then [] else [Known(events[0])] + AllKnown(events[1..])
  }

  ghost predicate Writable(wakes: seq<Wake>) {
    forall i :: 0 <= i < |wakes| && wakes[i].Frame? ==> OneLine(wakes[i].event.name) && OneLine(wakes[i].event.data)
  }

  lemma KnownCons(e: Event, events: seq<Event>)
    ensures AllKnown([e] + events) == [Known(e)] + AllKnown(events)
  {
    assert ([e] + events)[1..] == events;
  }

  lemma Append(before: seq<Event>, e: Event, events: seq<Event>)
    ensures before + [Known(e)] + AllKnown(events) == before + AllKnown([e] + events)
  {
    KnownCons(e, events);
  }

  lemma {:induction false} ParsesFrom(p: Parser, wakes: seq<Wake>)
    requires Blank(p) && Writable(wakes)
    ensures ParseLines(p, Lines(Written(wakes))).dispatched == p.dispatched + AllKnown(Sent(wakes))
    decreases |wakes|
  {
    if wakes == [] {
      assert Lines("") == [];
    } else {
      var w, rest := wakes[0], wakes[1..];
      match w
      case Frame(e) =>
        ReadsFrame(p, e, Written(rest));
        ParsesFrom(AfterFrame(p, e), rest);
        Append(p.dispatched, e, Sent(rest));
      case Tick =>
        ReadsKeepalive(p, Written(rest));
        ParsesFrom(p, rest);
    }
  }

  lemma {:induction false} NamedAreKnown(events: seq<Event>)
    requires forall i :: 0 <= i < |events| ==> events[i].name != ""
    ensures AllKnown(events) == events
  {
    if events != [] { NamedAreKnown(events[1..]); }
  }

  /** The round trip. Whatever frames and keepalives are interleaved, a conforming reader dispatches
      exactly the events that were sent, in order, provided no name or body contains a line break.
      (An event sent without a type arrives as a message; the program always names its events.) */
  lemma RoundTrip(wakes: seq<Wake>)
    requires Writable(wakes)
    ensures Parse(Written(wakes)) == AllKnown(Sent(wakes))
    ensures (forall i :: 0 <= i < |Sent(wakes)| ==> Sent(wakes)[i].name != "") ==> Parse(Written(wakes)) == Sent(wakes)
  {
    ParsesFrom(START, wakes);
    if forall i :: 0 <= i < |Sent(wakes)| ==> Sent(wakes)[i].name != "" { NamedAreKnown(Sent(wakes)); }
  }

  // ---------------------------------------------------------------- a stream cut short

  lemma {:induction false} LineLengthLonger(a: string, b: string)
    requires LineLength(a) < |a|
    ensures LineLength(a + b) == LineLength(a)
  {
    if !IsBreak(a[0]) {
      assert (a + b)[1..] == a[1..] + b;
      LineLengthLonger(a[1..], b);
    }
  }

  /** More text never changes the lines that are already complete. */
  lemma {:induction false} LinesStay(a: string, b: string)
    ensures Lines(a) <= Lines(a + b)
    decreases |a|
  {
    var n := LineLength(a);
    if n < |a| {
      LineLengthLonger(a, b);
      assert (a + b)[..n] == a[..n] && (a + b)[n..] == a[n..] + b;
      var rest := AfterBreak(a[n..]);
      if a[n] == '\r' && n == |a| - 1 {
        assert Lines(rest) == [];
      } else {
        assert AfterBreak(a[n..] + b) == rest + b;
        LinesStay(rest, b);
      }
    }
  }

  lemma {:induction false} DispatchedGrows(p: Parser, lines: seq<string>)
    ensures p.dispatched <= ParseLines(p, lines).dispatched
    decreases |lines|
  {
    if lines != [] { DispatchedGrows(Line(p, lines[0]), lines[1..]); }
  }

  lemma {:induction false} PrefixDispatches(p: Parser, a: seq<string>, b: seq<string>)
    requires a <= b
    ensures ParseLines(p, a).dispatched <= ParseLines(p, b).dispatched
    decreases |a|
  {
    if a == [] {
      DispatchedGrows(p, b);
    } else {
      assert a[1..] <= b[1..];
      PrefixDispatches(Line(p, a[0]), a[1..], b[1..]);
    }
  }

  /** What has been read of a stream is never taken back. */
  lemma ReadSoFar(a: string, text: string)
    requires a <= text
    ensures Parse(a) <= Parse(text)
  {
    assert text == a + text[|a|..];
    LinesStay(a, text[|a|..]);
    PrefixDispatches(START, Lines(a), Lines(text));
  }

  lemma {:induction false} WrittenConcat(a: seq<Wake>, b: seq<Wake>)
    ensures Written(a + b) == Written(a) + Written(b)
  {
    if a == [] {
      assert a + b == b;
    } else {
      assert (a + b)[1..] == a[1..] + b;
      WrittenConcat(a[1..], b);
    }
  }

  lemma PrefixOf(a: string, b: string, c: string)
    requires b <= c
    ensures a <= a + b <= a + c
  {
  }

  lemma WrittenAround(a: seq<Wake>, b: seq<Wake>, part: string, text: string)
    requires b != [] && text == TextOf(b[0]) && part <= text
    ensures Written(a) <= Written(a) + part <= Written(a + b)
  {
    WrittenConcat(a, b);
    PrefixOf(Written(a), part, text + Written(b[1..]));
  }

  lemma ReadBetween(a: seq<Wake>, whole: seq<Wake>, out: string)
    requires Writable(a) && Writable(whole) && Written(a) <= out <= Written(whole)
    ensures AllKnown(Sent(a)) <= Parse(out) <= AllKnown(Sent(whole))
  {
    RoundTrip(a);
    RoundTrip(whole);
    ReadSoFar(Written(a), out);
    ReadSoFar(out, Written(whole));
  }

  /** A stream that breaks off after writing for the wakes in `a`, in whatever part of the next text, has
      shown the page the events of those, and nothing but the events due, in order. */
  lemma CutShort(a: seq<Wake>, b: seq<Wake>, part: string)
    requires Writable(a) && Writable(a + b) && b != [] && part <= TextOf(b[0])
    ensures AllKnown(Sent(a)) <= Parse(Written(a) + part) <= AllKnown(Sent(a + b))
  {
    WrittenAround(a, b, part, TextOf(b[0]));
    ReadBetween(a, a + b, Written(a) + part);
  }

  // ---------------------------------------------------------------- exactly when

  /** The first line ends at the first break, whatever it is. */
  lemma {:induction false} LineEndsAtBreak(line: string, rest: string)
    requires OneLine(line) && rest != "" && IsBreak(rest[0])
    ensures LineLength(line + rest) == |line|
  {
    if line == "" {
      assert line + rest == rest;
    } else {
      assert (line + rest)[1..] == line[1..] + rest;
      LineEndsAtBreak(line[1..], rest);
    }
  }

  lemma LineBefore(line: string, rest: string)
    requires OneLine(line) && rest != "" && IsBreak(rest[0])
    ensures Lines(line + rest) == [line] + Lines(AfterBreak(rest))
  {
    LineEndsAtBreak(line, rest);
    assert (line + rest)[..|line|] == line && (line + rest)[|line|..] == rest;
  }

  lemma {:induction false} LineLengthStops(text: string)
    ensures var n := LineLength(text);
            OneLine(text[..n]) && (n < |text| ==> IsBreak(text[n]))
  {
    if text != "" && !IsBreak(text[0]) {
      LineLengthStops(text[1..]);
      var n := LineLength(text);
      assert text[..n] == [text[0]] + text[1..][..n - 1];
    }
  }

  ghost predicate AllOneLine(lines: seq<string>) {
    forall i :: 0 <= i < |lines| ==> OneLine(lines[i])
  }

  lemma {:induction false} LinesAreLines(text: string)
    ensures AllOneLine(Lines(text))
    decreases |text|
  {
    var n := LineLength(text);
    LineLengthStops(text);
    if n < |text| { LinesAreLines(AfterBreak(text[n..])); }
  }

  ghost predicate NamesOk(p: Parser) {
    OneLine(p.name) && forall i :: 0 <= i < |p.dispatched| ==> OneLine(p.dispatched[i].name)
  }

  lemma LineKeepsNames(p: Parser, line: string)
    requires NamesOk(p) && OneLine(line)
    ensures NamesOk(Line(p, line))
  {
    assert OneLine("message");
  }

  /** No reader ever sees a line break in an event's type. */
  lemma {:induction false} NamesHaveNoBreaks(p: Parser, lines: seq<string>)
    requires NamesOk(p) && AllOneLine(lines)
    ensures NamesOk(ParseLines(p, lines))
    decreases |lines|
  {
    if lines != [] {
      LineKeepsNames(p, lines[0]);
      NamesHaveNoBreaks(Line(p, lines[0]), lines[1..]);
    }
  }

  function Weigh(events: seq<Event>): nat {
    if events == [] then 0 else Weigh(events[..|events| - 1]) + |events[|events| - 1].data| + 1
  }

  /** What the parser holds, in characters of data and line ends. */
  function Weight(p: Parser): nat {
    |p.data| + Weigh(p.dispatched)
  }

  function Length(lines: seq<string>): nat {
    if lines == [] then 0 else |lines[0]| + Length(lines[1..])
  }

  predicate Ended(p: Parser) {
    p.data == "" || p.data[|p.data| - 1] == '\n'
  }

  lemma LineAddsAtMostItself(p: Parser, line: string)
    requires Ended(p)
    ensures Ended(Line(p, line)) && Weight(Line(p, line)) <= Weight(p) + |line|
  {
    if line == "" {
      var d := Dispatch(p).dispatched;
      assert p.data != "" ==> d[..|d| - 1] == p.dispatched;
    }
  }

  lemma {:induction false} LinesAddAtMostThemselves(p: Parser, lines: seq<string>)
    requires Ended(p)
    ensures Weight(ParseLines(p, lines)) <= Weight(p) + Length(lines)
    decreases |lines|
  {
    if lines != [] {
      LineAddsAtMostItself(p, lines[0]);
      LinesAddAtMostThemselves(Line(p, lines[0]), lines[1..]);
    }
  }

  lemma LengthCons(line: string, lines: seq<string>)
    ensures Length([line] + lines) == |line| + Length(lines)
  {
    assert ([line] + lines)[1..] == lines;
  }

  /** The lines of a text that ends in an empty line fall short of it by the line ends. */
  lemma {:induction false} LengthWithin(u: string)
    ensures Length(Lines(u + "\n\n")) <= |u|
    decreases |u|, 1
  {
    var n := LineLength(u);
    LineLengthStops(u);
    var line, v := u[..n], u[n..];
    assert u + "\n\n" == line + (v + "\n\n");
    LineBefore(line, v + "\n\n");
    LengthCons(line, Lines(AfterBreak(v + "\n\n")));
    if v == "" {
      assert v + "\n\n" == "\n" + "\n";
      LastBreak();
    } else {
      LengthAfterBreak(v);
    }
  }

  lemma LastBreak()
    ensures Length(Lines("\n")) == 0
  {
    assert Lines("") == [];
    EmptyLine("");
    assert "\n" + "" == "\n";
    LengthCons("", []);
  }

  /** And so do the lines after a break. */
  lemma {:induction false} LengthAfterBreak(v: string)
    requires v != "" && IsBreak(v[0])
    ensures Length(Lines(AfterBreak(v + "\n\n"))) <= |v| - 1
    decreases |v|, 0
  {
    var text := v + "\n\n";
    if v[0] == '\r' && |v| == 1 {
      assert AfterBreak(text) == "\n";
      LastBreak();
    } else if v[0] == '\r' && v[1] == '\n' {
      assert AfterBreak(text) == v[2..] + "\n\n";
      LengthWithin(v[2..]);
    } else {
      assert AfterBreak(text) == v[1..] + "\n\n";
      LengthWithin(v[1..]);
    }
  }

  lemma Rejoin(a: string, b: string, c: string, d: string)
    ensures a + (b + c) + d == (a + b) + (c + d)
  {
  }

  /** The first line of a broken body is read as a field, the rest as other lines. */
  lemma ReadsBrokenField(p: Parser, d0: string, v: string)
    requires OneLine(d0) && v != "" && IsBreak(v[0])
    ensures ParseLines(p, Lines("data: " + (d0 + v) + "\n\n"))
            == ParseLines(Field(p, "data", d0), Lines(AfterBreak(v + "\n\n")))
  {
    Rejoin("data: ", d0, v, "\n\n");
    assert "data" + ": " + d0 == "data: " + d0;
    LineBefore("data: " + d0, v + "\n\n");
    ParseCons(p, "data: " + d0, Lines(AfterBreak(v + "\n\n")));
    FieldLine(p, "data", d0);
  }

  lemma RestAddsLess(p: Parser, d0: string, v: string)
    requires p.data == "" && v != "" && IsBreak(v[0])
    ensures Weight(ParseLines(Field(p, "data", d0), Lines(AfterBreak(v + "\n\n")))) <= Weight(p) + |d0| + |v|
  {
    var p' := Field(p, "data", d0);
    assert p'.data == d0 + "\n";
    LinesAddAtMostThemselves(p', Lines(AfterBreak(v + "\n\n")));
    LengthAfterBreak(v);
  }

  /** A body with a break comes out shorter than it went in. */
  lemma BrokenBody(p: Parser, d0: string, v: string)
    requires p.data == "" && OneLine(d0) && v != "" && IsBreak(v[0])
    ensures Weight(ParseLines(p, Lines("data: " + (d0 + v) + "\n\n"))) <= Weight(p) + |d0 + v|
  {
    ReadsBrokenField(p, d0, v);
    RestAddsLess(p, d0, v);
  }

  lemma BodyText(e: Event)
    ensures Encode(e) == FieldText("event", e.name) + ("data: " + e.data + "\n\n")
  {
    assert "data" + ": " + e.data == "data: " + e.data;
    assert FieldText("data", e.data) + "\n" == "data: " + e.data + "\n\n";
  }

  lemma BrokenFrame(p: Parser, e: Event, d0: string, v: string)
    requires p.data == "" && OneLine(e.name) && e.data == d0 + v && OneLine(d0) && v != "" && IsBreak(v[0])
    ensures Weight(ParseLines(p, Lines(Encode(e)))) <= Weight(p) + |e.data|
  {
    BodyText(e);
    ReadsField(p, "event", e.name, "data: " + e.data + "\n\n");
    BrokenBody(Field(p, "event", e.name), d0, v);
  }

  // A stream is read text by text.

  lemma {:induction false} EndsInBreak(a: string)
    requires a != "" && a[|a| - 1] == '\n'
    ensures LineLength(a) < |a|
  {
    if !IsBreak(a[0]) { EndsInBreak(a[1..]); }
  }

  lemma AfterBreakLonger(t: string, b: string)
    requires t != "" && IsBreak(t[0]) && t[|t| - 1] == '\n'
    ensures AfterBreak(t + b) == AfterBreak(t) + b
    ensures AfterBreak(t) != "" ==> AfterBreak(t)[|AfterBreak(t)| - 1] == '\n'
  {
  }

  lemma LinesStep(a: string, n: nat, tail: string)
    requires n == LineLength(a) < |a| && tail == a[n..]
    ensures Lines(a) == [a[..n]] + Lines(AfterBreak(tail))
  {
  }

  /** What comes after a line feed is read on its own. */
  lemma {:induction false} LinesConcat(a: string, b: string)
    requires a != "" && a[|a| - 1] == '\n'
    ensures Lines(a + b) == Lines(a) + Lines(b)
    decreases |a|
  {
    var n := LineLength(a);
    EndsInBreak(a);
    LineLengthLonger(a, b);
    LineLengthStops(a);
    var tail := a[n..];
    assert (a + b)[..n] == a[..n] && (a + b)[n..] == tail + b;
    AfterBreakLonger(tail, b);
    LinesStep(a, n, tail);
    LinesStep(a + b, n, tail + b);
    var rest := AfterBreak(tail);
    if rest == "" {
      assert rest + b == b && Lines(rest) == [];
    } else {
      LinesConcat(rest, b);
    }
    ConsConcat(a[..n], Lines(rest), Lines(b));
  }

  lemma ConsConcat(x: string, y: seq<string>, z: seq<string>)
    ensures [x] + (y + z) == ([x] + y) + z
  {
  }

  lemma {:induction false} ParseAppend(p: Parser, a: seq<string>, b: seq<string>)
    ensures ParseLines(p, a + b) == ParseLines(ParseLines(p, a), b)
    decreases |a|
  {
    if a == [] {
      assert a + b == b;
    } else {
      assert (a + b)[1..] == a[1..] + b;
      ParseAppend(Line(p, a[0]), a[1..], b);
    }
  }

  lemma OneLineParse(p: Parser, line: string)
    ensures ParseLines(p, [line]) == Line(p, line)
  {
    ParseCons(p, line, []);
    assert [line] + [] == [line];
  }

  lemma OneEmptyLine()
    ensures Lines("\n") == [""]
  {
    EmptyLine("");
    assert "\n" + "" == "\n" && Lines("") == [];
    assert [""] + Lines("") == [""];
  }

  lemma EmptyLineBlanks(p: Parser, fields: string)
    requires fields != "" && fields[|fields| - 1] == '\n'
    ensures Blank(ParseLines(p, Lines(fields + "\n")))
  {
    LinesConcat(fields, "\n");
    OneEmptyLine();
    ParseAppend(p, Lines(fields), [""]);
    OneLineParse(ParseLines(p, Lines(fields)), "");
  }

  /** Every frame ends in an empty line, which leaves the parser's buffers empty. */
  lemma FrameLeavesBlank(p: Parser, e: Event)
    ensures Encode(e)[|Encode(e)| - 1] == '\n' && Blank(ParseLines(p, Lines(Encode(e))))
  {
    EmptyLineBlanks(p, FieldText("event", e.name) + FieldText("data", e.data));
  }

  /** A frame adds to what the parser holds its body and one line end if the body is one line, and less
      if it is not. */
  lemma FrameWeight(p: Parser, e: Event)
    requires Blank(p) && OneLine(e.name)
    ensures OneLine(e.data) ==> Weight(ParseLines(p, Lines(Encode(e)))) == Weight(p) + |e.data| + 1
    ensures !OneLine(e.data) ==> Weight(ParseLines(p, Lines(Encode(e)))) <= Weight(p) + |e.data|
  {
    if OneLine(e.data) {
      ReadsFrame(p, e, "");
      assert Encode(e) + "" == Encode(e) && Lines("") == [];
      WeighSnoc(p.dispatched, Known(e));
    } else {
      var n := LineLength(e.data);
      LineLengthStops(e.data);
      assert e.data == e.data[..n] + e.data[n..];
      BrokenFrame(p, e, e.data[..n], e.data[n..]);
    }
  }

  lemma WeighSnoc(events: seq<Event>, e: Event)
    ensures Weigh(events + [e]) == Weigh(events) + |e.data| + 1
  {
    assert (events + [e])[..|events|] == events;
  }

  lemma {:induction false} WeighCons(e: Event, events: seq<Event>)
    ensures Weigh([e] + events) == |e.data| + 1 + Weigh(events)
  {
    if events == [] {
      assert [e] + events == [] + [e];
      WeighSnoc([], e);
    } else {
      var n := |events| - 1;
      WeighCons(e, events[..n]);
      assert [e] + events == ([e] + events[..n]) + [events[n]];
      WeighSnoc([e] + events[..n], events[n]);
    }
  }

  ghost predicate NamesWritable(wakes: seq<Wake>) {
    forall i :: 0 <= i < |wakes| && wakes[i].Frame? ==> OneLine(wakes[i].event.name)
  }

  /** Reading one text of a stream. */
  lemma ReadsText(p: Parser, w: Wake, rest: string, p': Parser)
    requires Blank(p) && (w.Frame? ==> OneLine(w.event.name))
    requires p' == AfterText(p, w)
    ensures Blank(p') && ParseLines(p, Lines(TextOf(w) + rest)) == ParseLines(p', Lines(rest))
  {
    if w.Frame? {
      FrameLeavesBlank(p, w.event);
      LinesConcat(Encode(w.event), rest);
      ParseAppend(p, Lines(Encode(w.event)), Lines(rest));
    } else {
      ReadsKeepalive(p, rest);
    }
  }

  /** What a text adds to what was sent. */
  function Load(w: Wake): nat {
    if w.Frame? then |w.event.data| + 1 else 0
  }

  lemma LoadNext(wakes: seq<Wake>)
    requires wakes != []
    ensures Weigh(AllKnown(Sent(wakes))) == Load(wakes[0]) + Weigh(AllKnown(Sent(wakes[1..])))
  {
    if wakes[0].Frame? {
      KnownCons(wakes[0].event, Sent(wakes[1..]));
      WeighCons(Known(wakes[0].event), AllKnown(Sent(wakes[1..])));
    }
  }

  /** The parser after one text. */
  function AfterText(p: Parser, w: Wake): Parser {
    if w.Frame? then ParseLines(p, Lines(Encode(w.event))) else p
  }

  predicate WholeText(w: Wake) {
    w.Frame? ==> OneLine(w.event.name) && OneLine(w.event.data)
  }

  lemma TextWeight(p: Parser, w: Wake)
    requires Blank(p) && (w.Frame? ==> OneLine(w.event.name))
    ensures Weight(AfterText(p, w)) <= Weight(p) + Load(w)
    ensures !WholeText(w) ==> Weight(AfterText(p, w)) < Weight(p) + Load(w)
  {
    if w.Frame? { FrameWeight(p, w.event); }
  }

  /** The page never holds more than was sent, and less if a body had a break; and its buffers are empty. */
  lemma {:induction false} StreamWeight(p: Parser, wakes: seq<Wake>)
    requires Blank(p) && NamesWritable(wakes)
    ensures var after := ParseLines(p, Lines(Written(wakes)));
            && Blank(after)
            && Weight(after) <= Weight(p) + Weigh(AllKnown(Sent(wakes)))
            && (!Writable(wakes) ==> Weight(after) < Weight(p) + Weigh(AllKnown(Sent(wakes))))
    decreases |wakes|
  {
    if wakes == [] {
      assert Lines("") == [];
    } else {
      ReadsText(p, wakes[0], Written(wakes[1..]), AfterText(p, wakes[0]));
      StreamWeight(AfterText(p, wakes[0]), wakes[1..]);
      TextWeight(p, wakes[0]);
      LoadNext(wakes);
      RestWritable(wakes);
    }
  }

  lemma RestWritable(wakes: seq<Wake>)
    requires wakes != []
    ensures Writable(wakes) <==> Writable(wakes[1..]) && WholeText(wakes[0])
  {
    if Writable(wakes[1..]) && WholeText(wakes[0]) {
      forall i | 0 <= i < |wakes| && wakes[i].Frame?
        ensures OneLine(wakes[i].event.name) && OneLine(wakes[i].event.data)
      {
        if i > 0 { assert wakes[i] == wakes[1..][i - 1]; }
      }
    }
  }

  ghost predicate NamesAreLines(events: seq<Event>) {
    forall i :: 0 <= i < |events| ==> OneLine(events[i].name)
  }

  lemma {:induction false} NamesOfSent(wakes: seq<Wake>)
    requires NamesAreLines(AllKnown(Sent(wakes)))
    ensures NamesWritable(wakes)
  {
    if wakes != [] {
      var w, rest := wakes[0], wakes[1..];
      if w.Frame? {
        KnownCons(w.event, Sent(rest));
        var known := AllKnown(Sent(wakes));
        assert known[1..] == AllKnown(Sent(rest)) && OneLine(known[0].name);
      }
      NamesOfSent(rest);
      forall i | 0 <= i < |wakes| && wakes[i].Frame? ensures OneLine(wakes[i].event.name) {
        if i > 0 { assert wakes[i] == rest[i - 1]; }
      }
    }
  }

  lemma NamesRead(text: string)
    ensures NamesAreLines(Parse(text))
  {
    LinesAreLines(text);
    NamesHaveNoBreaks(START, Lines(text));
  }

  /** A stream survives the trip exactly when no name and no body of its frames contains a line break:
      otherwise what the page reads differs from what was sent. */
  lemma SurvivesExactlyWhen(wakes: seq<Wake>)
    ensures Parse(Written(wakes)) == AllKnown(Sent(wakes)) <==> Writable(wakes)
  {
    if Writable(wakes) {
      RoundTrip(wakes);
    } else if Parse(Written(wakes)) == AllKnown(Sent(wakes)) {
      NamesRead(Written(wakes));
      NamesOfSent(wakes);
      StreamWeight(START, wakes);
    }
  }
}
