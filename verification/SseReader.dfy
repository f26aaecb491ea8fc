/** The incremental reader of a server-sent event stream. */
module SseReader {
  import opened Wrappers

  /** `JSON.parse`, left uninterpreted: it may refuse its text. */
  type JsonParse<!J> = string -> Option<J>

  datatype Data<J> = Parsed(value: J) | Unparsed(text: string)

  datatype Message<J> = Message(event: string, data: Data<J>, id: Option<string>)

  /** What is remembered between two lines. */
  datatype Current = Current(event: string, id: Option<string>, data: string)

  const INITIAL := Current("message", None, "")

  // ---- Trimming -------------------------------------------------------------------------

  /** White space and line terminators, as `String.prototype.trim` removes them. */
  predicate IsSpace(c: char) {
    var v := c as int;
    || 9 <= v <= 13 || v == 0x20 || v == 0xA0 || v == 0x1680 || 0x2000 <= v <= 0x200A
    || v == 0x2028 || v == 0x2029 || v == 0x202F || v == 0x205F || v == 0x3000 || v == 0xFEFF
  }

  function TrimStart(s: string): string {
    if s != "" && IsSpace(s[0]) then TrimStart(s[1..]) else s
  }

  function TrimEnd(s: string): string {
    if s != "" && IsSpace(s[|s| - 1]) then TrimEnd(s[..|s| - 1]) else s
  }

  function Trim(s: string): string {
    TrimEnd(TrimStart(s))
  }

  // ---- Lines ----------------------------------------------------------------------------

  /** `s.split("\n")`: always at least one piece. */
  function Split(s: string): (lines: seq<string>)
    ensures lines != []
  {
    if s == "" then [""]
    else if s[0] == '\n' then [""] + Split(s[1..])
    else
      var rest := Split(s[1..]);
      [[s[0]] + rest[0]] + rest[1..]
  }

  function CompleteLines(text: string): seq<string> {
    Split(text)[..|Split(text)| - 1]
  }

  /** The unfinished line at the end, which the reader carries over. */
  function Unfinished(text: string): string {
    Split(text)[|Split(text)| - 1]
  }

  function Decode<J>(parse: JsonParse<J>, text: string): Data<J> {
    match parse(text)
    case Some(v) => Parsed(v)
    case None => Unparsed(text)
  }

  /** One complete line: the new memory, and the message it releases if any. */
  function LineStep<J>(parse: JsonParse<J>, cur: Current, line: string): (Current, seq<Message<J>>) {
    var trimmed := Trim(line);
    if trimmed == "" then
      (INITIAL, if cur.data != "" then [Message(cur.event, Decode(parse, cur.data), cur.id)] else [])
    else if "event:" <= trimmed then (cur.(event := Trim(trimmed[6..])), [])
    else if "data:" <= trimmed then
      var d := Trim(trimmed[5..]);
      (cur.(data := if cur.data != "" then cur.data + "\n" + d else d), [])
    else if "id:" <= trimmed then (cur.(id := Some(Trim(trimmed[3..]))), [])
    else (cur, [])
  }

  function RunLines<J>(parse: JsonParse<J>, cur: Current, lines: seq<string>): (Current, seq<Message<J>>) {
    if lines == [] then (cur, [])
    else
      var (mid, out) := RunLines(parse, cur, lines[..|lines| - 1]);
      var (next, more) := LineStep(parse, mid, lines[|lines| - 1]);
      (next, out + more)
  }

  /** The line machine run once over the complete lines of the whole text. */
  function MessagesOf<J>(parse: JsonParse<J>, text: string): seq<Message<J>> {
    RunLines(parse, INITIAL, CompleteLines(text)).1
  }

  function Concat(chunks: seq<string>): string {
    if chunks == [] then "" else Concat(chunks[..|chunks| - 1]) + chunks[|chunks| - 1]
  }

  // ---- Splitting in two steps -----------------------------------------------------------

  /** Splitting a text in two steps: the unfinished line of the first part goes before the second. */
  lemma {:induction false} SplitConcat(a: string, b: string)
    ensures CompleteLines(a + b) == CompleteLines(a) + CompleteLines(Unfinished(a) + b)
    ensures Unfinished(a + b) == Unfinished(Unfinished(a) + b)
  {
    if a == "" {
      assert a + b == b && Unfinished(a) + b == b;
    } else {
      var t := a[1..];
      assert (a + b)[1..] == t + b && (a + b)[0] == a[0];
      SplitConcat(t, b);
      if a[0] == '\n' {
        SplitBreak(t);
        SplitBreak(t + b);
        assert a == "\n" + t && a + b == "\n" + (t + b);
      } else {
        SplitCharConcat(a[0], t, b);
        assert a == [a[0]] + t && a + b == [a[0]] + (t + b);
      }
    }
  }

  lemma SplitBreak(t: string)
    ensures Split("\n" + t) == [""] + Split(t)
    ensures CompleteLines("\n" + t) == [""] + CompleteLines(t) && Unfinished("\n" + t) == Unfinished(t)
  {
    assert ("\n" + t)[1..] == t;
  }

  /** A character other than a line break goes in front of the first line. */
  lemma SplitChar(c: char, t: string)
    requires c != '\n'
    ensures Split([c] + t) == [[c] + Split(t)[0]] + Split(t)[1..]
    ensures |Split(t)| == 1 ==> CompleteLines([c] + t) == [] && Unfinished([c] + t) == [c] + Unfinished(t)
    ensures |Split(t)| > 1 ==> CompleteLines([c] + t) == [[c] + CompleteLines(t)[0]] + CompleteLines(t)[1..]
    ensures |Split(t)| > 1 ==> Unfinished([c] + t) == Unfinished(t)
  {
    assert ([c] + t)[1..] == t;
    assert Split([c] + t) == [[c] + Split(t)[0]] + Split(t)[1..];
    hide Split;
    FirstPieceGrows(c, Split(t));
  }

  lemma FirstPieceGrows(c: char, s: seq<string>)
    requires s != []
    ensures var r := [[c] + s[0]] + s[1..];
      && |r| == |s|
      && (|s| == 1 ==> r[..|r| - 1] == [] && r[|r| - 1] == [c] + s[|s| - 1])
      && (|s| > 1 ==> r[..|r| - 1] == [[c] + s[..|s| - 1][0]] + s[..|s| - 1][1..] && r[|r| - 1] == s[|s| - 1])
  {
  }

  lemma SplitCharConcat(c: char, t: string, b: string)
    requires c != '\n'
    requires CompleteLines(t + b) == CompleteLines(t) + CompleteLines(Unfinished(t) + b)
    requires Unfinished(t + b) == Unfinished(Unfinished(t) + b)
    ensures var a := [c] + t;
      && CompleteLines([c] + (t + b)) == CompleteLines(a) + CompleteLines(Unfinished(a) + b)
      && Unfinished([c] + (t + b)) == Unfinished(Unfinished(a) + b)
  {
    hide Split;
    SplitChar(c, t);
    SplitChar(c, t + b);
    if |Split(t)| == 1 {
      assert CompleteLines(t) == [];
      SplitChar(c, Unfinished(t) + b);
      assert [c] + (Unfinished(t) + b) == ([c] + Unfinished(t)) + b;
      SplitSizes(t + b);
      SplitSizes(Unfinished(t) + b);
    } else {
      SplitSizes(t);
      SplitSizes(t + b);
    }
  }

  lemma SplitSizes(t: string)
    ensures |CompleteLines(t)| == |Split(t)| - 1
  {
  }

  lemma {:induction false} RunConcat<J>(parse: JsonParse<J>, cur: Current, a: seq<string>, b: seq<string>)
    ensures var (mid, out) := RunLines(parse, cur, a);
      var (end, more) := RunLines(parse, mid, b);
      RunLines(parse, cur, a + b) == (end, out + more)
  {
    hide LineStep;
    var (mid, out) := RunLines(parse, cur, a);
    if b == [] {
      assert a + b == a && out + [] == out;
    } else {
      var n := |b| - 1;
      assert (a + b)[..|a| + n] == a + b[..n] && (a + b)[|a| + n] == b[n];
      RunConcat(parse, cur, a, b[..n]);
      var (before, released) := RunLines(parse, mid, b[..n]);
      var last := LineStep(parse, before, b[n]).1;
      assert (out + released) + last == out + (released + last);
    }
  }

  // ---- The reader -----------------------------------------------------------------------

  /** `readSSEResponse` over the decoded chunks of a response. However the text is cut, the messages
      are those of the whole text. */
  method ReadSSE<J>(chunks: seq<string>, parse: JsonParse<J>) returns (messages: seq<Message<J>>)
    ensures messages == MessagesOf(parse, Concat(chunks))
  {
    hide LineStep, RunLines, Split, CompleteLines, Unfinished;
    var buffer := "";
    var currentEvent, currentData := "message", "";
    var currentId: Option<string> := None;
    messages := [];
    NothingRead(parse);
    var next := 0;
    while next < |chunks|
      invariant next <= |chunks|
      invariant buffer == Unfinished(Concat(chunks[..next]))
      invariant (Current(currentEvent, currentId, currentData), messages)
        == RunLines(parse, INITIAL, CompleteLines(Concat(chunks[..next])))
    {
      ghost var text := Concat(chunks[..next]);
      assert chunks[..next + 1][..next] == chunks[..next];
      SplitConcat(text, chunks[next]);
      RunConcat(parse, INITIAL, CompleteLines(text), CompleteLines(buffer + chunks[next]));
      buffer := buffer + chunks[next];
      SplitParts(buffer);
      var lines := Split(buffer);
      buffer := lines[|lines| - 1];
      lines := lines[..|lines| - 1];
      var released;
      currentEvent, currentId, currentData, released := ReadLines(parse, lines, currentEvent, currentId, currentData);
      messages := messages + released;
      next := next + 1;
    }
    assert chunks[..next] == chunks;
  }

  lemma NothingRead<J>(parse: JsonParse<J>)
    ensures Unfinished("") == "" && CompleteLines("") == []
    ensures RunLines(parse, INITIAL, CompleteLines("")) == (INITIAL, [])
  {
  }

  lemma SplitParts(text: string)
    ensures Split(text)[|Split(text)| - 1] == Unfinished(text)
    ensures Split(text)[..|Split(text)| - 1] == CompleteLines(text)
  {
  }

  /** The line loop. */
  method ReadLines<J>(parse: JsonParse<J>, lines: seq<string>, event: string, id: Option<string>, data: string)
    returns (currentEvent: string, currentId: Option<string>, currentData: string, messages: seq<Message<J>>)
    ensures (Current(currentEvent, currentId, currentData), messages)
      == RunLines(parse, Current(event, id, data), lines)
  {
    hide LineStep;
    currentEvent, currentId, currentData, messages := event, id, data, [];
    var index := 0;
    while index < |lines|
      invariant index <= |lines|
      invariant (Current(currentEvent, currentId, currentData), messages)
        == RunLines(parse, Current(event, id, data), lines[..index])
    {
      assert lines[..index + 1][..index] == lines[..index];
      var released;
      currentEvent, currentId, currentData, released := ReadLine(parse, lines[index], currentEvent, currentId, currentData);
      messages := messages + released;
      index := index + 1;
    }
    assert lines[..index] == lines;
  }

  /** The body of the line loop. */
  method ReadLine<J>(parse: JsonParse<J>, line: string, event: string, id: Option<string>, data: string)
    returns (currentEvent: string, currentId: Option<string>, currentData: string, released: seq<Message<J>>)
    ensures (Current(currentEvent, currentId, currentData), released) == LineStep(parse, Current(event, id, data), line)
  {
    currentEvent, currentId, currentData, released := event, id, data, [];
    var trimmed := Trim(line);
    if trimmed == "" {
      if currentData != "" {
        released := [Message(currentEvent, Decode(parse, currentData), currentId)];
      }
      currentEvent, currentId, currentData := "message", None, "";
      return;
    }
    if "event:" <= trimmed {
      currentEvent := Trim(trimmed[6..]);
    } else if "data:" <= trimmed {
      var d := Trim(trimmed[5..]);
      currentData := if currentData != "" then currentData + "\n" + d else d;
    } else if "id:" <= trimmed {
      currentId := Some(Trim(trimmed[3..]));
    }
  }

  function Ended(lines: seq<string>): string {
    if lines == [] then "" else lines[0] + "\n" + Ended(lines[1..])
  }

  ghost predicate NoBreak(lines: seq<string>) {
    forall i :: 0 <= i < |lines| ==> '\n' !in lines[i]
  }

  /** Nothing of the text is lost: the complete lines, ended by breaks, and the unfinished one. */
  lemma {:induction false} LinesRebuildTheText(text: string)
    ensures text == Ended(CompleteLines(text)) + Unfinished(text)
    ensures '\n' !in Unfinished(text) && NoBreak(CompleteLines(text))
  {
    if text != "" {
      hide Split, CompleteLines, Unfinished, Ended, NoBreak;
      var t := text[1..];
      LinesRebuildTheText(t);
      assert text == [text[0]] + t;
      SplitSizes(t);
      var ls := CompleteLines(t);
      if text[0] == '\n' {
        SplitBreak(t);
        EndedPushEmpty(ls);
        hide *;
        assert "\n" + Ended(ls) + Unfinished(t) == "\n" + (Ended(ls) + Unfinished(t));
      } else {
        SplitChar(text[0], t);
        if ls == [] {
          EndedNothing();
        } else {
          EndedGrows(text[0], ls);
          hide *;
          assert [text[0]] + Ended(ls) + Unfinished(t) == [text[0]] + (Ended(ls) + Unfinished(t));
        }
      }
    } else {
      EndedNothing();
    }
  }

  lemma EndedNothing()
    ensures Ended([]) == "" && NoBreak([])
  {
  }

  lemma EndedPushEmpty(ls: seq<string>)
    requires NoBreak(ls)
    ensures Ended([""] + ls) == "\n" + Ended(ls) && NoBreak([""] + ls)
  {
    assert ([""] + ls)[1..] == ls;
  }

  lemma EndedGrows(c: char, ls: seq<string>)
    requires ls != [] && NoBreak(ls) && c != '\n'
    ensures var grown := [[c] + ls[0]] + ls[1..]; Ended(grown) == [c] + Ended(ls) && NoBreak(grown)
  {
    var first := [c] + ls[0];
    assert ([first] + ls[1..])[1..] == ls[1..];
    assert [c] + (ls[0] + "\n" + Ended(ls[1..])) == first + "\n" + Ended(ls[1..]);
  }

  /** The complete lines of lines that were each ended by a break are those lines. */
  lemma {:induction false} LinesOfEnded(lines: seq<string>)
    requires NoBreak(lines)
    ensures CompleteLines(Ended(lines)) == lines && Unfinished(Ended(lines)) == ""
  {
    if lines != [] {
      LinesOfEnded(lines[1..]);
      LineInFront(lines[0], Ended(lines[1..]));
      assert lines == [lines[0]] + lines[1..];
    }
  }

  lemma {:induction false} LineInFront(line: string, t: string)
    requires '\n' !in line
    ensures CompleteLines(line + "\n" + t) == [line] + CompleteLines(t) && Unfinished(line + "\n" + t) == Unfinished(t)
  {
    if line == "" {
      assert line + "\n" + t == "\n" + t;
      SplitBreak(t);
    } else {
      hide Split, CompleteLines, Unfinished;
      var more := line[1..] + "\n" + t;
      LineInFront(line[1..], t);
      assert line + "\n" + t == [line[0]] + more;
      SplitChar(line[0], more);
      SplitSizes(more);
      assert line == [line[0]] + line[1..];
    }
  }

  // ---- Reading what a server writes -----------------------------------------------------

  /** Neither end is white space. */
  predicate Tight(s: string) {
    s == "" || (!IsSpace(s[0]) && !IsSpace(s[|s| - 1]))
  }

  ghost predicate Blank(s: string) {
    forall i :: 0 <= i < |s| ==> IsSpace(s[i])
  }

  lemma {:induction false} TrimStartBlank(x: string, s: string)
    requires Blank(x) && (s == "" || !IsSpace(s[0]))
    ensures TrimStart(x + s) == s
  {
    if x == "" {
      assert x + s == s;
    } else {
      assert (x + s)[1..] == x[1..] + s;
      TrimStartBlank(x[1..], s);
    }
  }

  lemma {:induction false} TrimEndBlank(s: string, y: string)
    requires Blank(y) && (s == "" || !IsSpace(s[|s| - 1]))
    ensures TrimEnd(s + y) == s
  {
    if y == "" {
      assert s + y == s;
    } else {
      assert (s + y)[..|s + y| - 1] == s + y[..|y| - 1];
      TrimEndBlank(s, y[..|y| - 1]);
    }
  }

  lemma TrimPadded(x: string, s: string, y: string)
    requires Blank(x) && Blank(y) && Tight(s)
    ensures Trim(x + s + y) == s
  {
    if s == "" {
      assert x + s + y == (x + y) + "";
      TrimStartBlank(x + y, "");
      assert TrimEnd("") == "";
    } else {
      assert x + s + y == x + (s + y);
      TrimStartBlank(x, s + y);
      TrimEndBlank(s, y);
    }
  }

  /** The white space and line terminators of ECMAScript, code point by code point. */
  lemma SpacesAre(c: char)
    ensures IsSpace(c) <==> c as int in {
      0x9, 0xA, 0xB, 0xC, 0xD, 0x20, 0xA0, 0x1680, 0x2000, 0x2001, 0x2002, 0x2003, 0x2004, 0x2005, 0x2006, 0x2007,
      0x2008, 0x2009, 0x200A, 0x2028, 0x2029, 0x202F, 0x205F, 0x3000, 0xFEFF}
  {
  }

  /** A line of a frame as a server may write it: a field with white space around its value and the
      line, or a line that is no field, such as a comment. */
  datatype Field =
    | EventField(lead: string, gap: string, value: string, tail: string)
    | DataField(lead: string, gap: string, value: string, tail: string)
    | IdField(lead: string, gap: string, value: string, tail: string)
    | OtherLine(text: string)

  function LineOf(f: Field): string {
    match f
    case EventField(lead, gap, value, tail) => lead + ("event:" + gap + value) + tail
    case DataField(lead, gap, value, tail) => lead + ("data:" + gap + value) + tail
    case IdField(lead, gap, value, tail) => lead + ("id:" + gap + value) + tail
    case OtherLine(text) => text
  }

  ghost predicate Writable(f: Field) {
    match f
    case OtherLine(text) =>
      Trim(text) != "" && !("event:" <= Trim(text)) && !("data:" <= Trim(text)) && !("id:" <= Trim(text))
    case _ => Blank(f.lead) && Blank(f.gap) && Blank(f.tail) && Tight(f.value)
  }

  /** A frame is its lines, in any order and number, and the blank line that ends it. */
  datatype Frame = Frame(fields: seq<Field>, end: string)

  ghost predicate Sendable(m: Frame) {
    Blank(m.end) && forall i :: 0 <= i < |m.fields| ==> Writable(m.fields[i])
  }

  // What a frame says: the last event and id lines count, and the data lines are joined.

  function EventOf(fields: seq<Field>): string {
    if fields == [] then "message"
    else
      var last := fields[|fields| - 1];
      if last.EventField? then last.value else EventOf(fields[..|fields| - 1])
  }

  function IdOf(fields: seq<Field>): Option<string> {
    if fields == [] then None
    else
      var last := fields[|fields| - 1];
      if last.IdField? then Some(last.value) else IdOf(fields[..|fields| - 1])
  }

  function Payload(fields: seq<Field>): seq<string> {
    if fields == [] then []
    else
      var last := fields[|fields| - 1];
      Payload(fields[..|fields| - 1]) + if last.DataField? then [last.value] else []
  }

  /** Empty data lines in front leave no trace. */
  function WithoutEmptyFront(payload: seq<string>): seq<string> {
    if payload != [] && payload[0] == "" then WithoutEmptyFront(payload[1..]) else payload
  }

  function Joined(payload: seq<string>): string {
    if payload == [] then ""
    else if |payload| == 1 then payload[0]
    else Joined(payload[..|payload| - 1]) + "\n" + payload[|payload| - 1]
  }

  function DataOf(fields: seq<Field>): string {
    Joined(WithoutEmptyFront(Payload(fields)))
  }

  /** A frame with data is one message; its text is decoded when it is JSON. A frame without is none. */
  function Received<J>(parse: JsonParse<J>, fields: seq<Field>): seq<Message<J>> {
    var text := DataOf(fields);
    if text == "" then []
    else
      match parse(text)
      case Some(v) => [Message(EventOf(fields), Parsed(v), IdOf(fields))]
      case None => [Message(EventOf(fields), Unparsed(text), IdOf(fields))]
  }

  function LinesOf(fields: seq<Field>): seq<string> {
    seq(|fields|, i requires 0 <= i < |fields| => LineOf(fields[i]))
  }

  function AllLines(ms: seq<Frame>): seq<string> {
    if ms == [] then [] else LinesOf(ms[0].fields) + [ms[0].end] + AllLines(ms[1..])
  }

  function AllReceived<J>(parse: JsonParse<J>, ms: seq<Frame>): seq<Message<J>> {
    if ms == [] then [] else Received(parse, ms[0].fields) + AllReceived(parse, ms[1..])
  }

  lemma PaddedFieldTrims(name: string, lead: string, gap: string, value: string, tail: string)
    requires Tight(name) && name != "" && Blank(lead) && Blank(gap) && Blank(tail) && Tight(value)
    ensures var t := Trim(lead + (name + gap + value) + tail); name <= t && Trim(t[|name|..]) == value
  {
    if value == "" {
      assert lead + (name + gap + value) + tail == lead + name + (gap + tail);
      TrimPadded(lead, name, gap + tail);
      assert name[|name|..] == "" + "" + "";
      TrimPadded("", "", "");
    } else {
      var s := name + gap + value;
      TrimPadded(lead, s, tail);
      assert s[|name|..] == gap + value + "";
      TrimPadded(gap, value, "");
    }
  }

  /** What one line does to the memory. */
  lemma FieldStep<J>(parse: JsonParse<J>, cur: Current, f: Field)
    requires Writable(f)
    ensures LineStep(parse, cur, LineOf(f)) == (
      match f
      case EventField(_, _, value, _) => (cur.(event := value), [])
      case IdField(_, _, value, _) => (cur.(id := Some(value)), [])
      case DataField(_, _, value, _) => (cur.(data := if cur.data != "" then cur.data + "\n" + value else value), [])
      case OtherLine(_) => (cur, []))
  {
    hide Trim;
    match f
    case EventField(lead, gap, value, tail) => PaddedFieldTrims("event:", lead, gap, value, tail);
    case IdField(lead, gap, value, tail) =>
      PaddedFieldTrims("id:", lead, gap, value, tail);
      assert "id:"[0] == 'i' && "event:"[0] == 'e' && "data:"[0] == 'd';
    case DataField(lead, gap, value, tail) =>
      PaddedFieldTrims("data:", lead, gap, value, tail);
      assert "data:"[0] == 'd' && "event:"[0] == 'e';
    case OtherLine(text) =>
  }

  lemma {:induction false} FrontPush(payload: seq<string>, d: string)
    ensures WithoutEmptyFront(payload + [d])
      == if WithoutEmptyFront(payload) == [] && d == "" then [] else WithoutEmptyFront(payload) + [d]
    ensures WithoutEmptyFront(payload) != [] ==> WithoutEmptyFront(payload)[0] != ""
  {
    if payload == [] {
      assert payload + [d] == [d] && [d][1..] == [];
    } else {
      assert (payload + [d])[1..] == payload[1..] + [d];
      FrontPush(payload[1..], d);
    }
  }

  lemma {:induction false} JoinedIsEmptyIff(payload: seq<string>)
    requires payload != [] ==> payload[0] != ""
    ensures Joined(payload) == "" <==> payload == []
  {
    if |payload| > 1 {
      JoinedIsEmptyIff(payload[..|payload| - 1]);
    }
  }

  lemma JoinedPush(payload: seq<string>, d: string)
    ensures var before := Joined(WithoutEmptyFront(payload));
      Joined(WithoutEmptyFront(payload + [d])) == if before != "" then before + "\n" + d else d
  {
    var p := WithoutEmptyFront(payload);
    FrontPush(payload, d);
    JoinedIsEmptyIff(p);
    hide WithoutEmptyFront;
    if p != [] {
      assert (p + [d])[..|p|] == p;
    } else {
      assert p + [d] == [d];
    }
  }

  /** The memory after the lines of a frame is what the frame says. */
  lemma {:induction false} FrameIsRemembered<J>(parse: JsonParse<J>, fields: seq<Field>)
    requires forall i :: 0 <= i < |fields| ==> Writable(fields[i])
    ensures RunLines(parse, Current("message", None, ""), LinesOf(fields))
      == (Current(EventOf(fields), IdOf(fields), DataOf(fields)), [])
  {
    if fields == [] {
      assert LinesOf(fields) == [];
    } else {
      var n := |fields| - 1;
      var init, last := fields[..n], fields[n];
      FrameIsRemembered(parse, init);
      assert LinesOf(fields)[..n] == LinesOf(init) && LinesOf(fields)[n] == LineOf(last);
      FieldStep(parse, Current(EventOf(init), IdOf(init), DataOf(init)), last);
      SaysOneMore(fields);
      hide LineStep, LineOf, Writable, EventOf, IdOf, DataOf, LinesOf;
    }
  }

  lemma SaysOneMore(fields: seq<Field>)
    requires fields != []
    ensures var init, last := fields[..|fields| - 1], fields[|fields| - 1];
      && EventOf(fields) == (if last.EventField? then last.value else EventOf(init))
      && IdOf(fields) == (if last.IdField? then Some(last.value) else IdOf(init))
      && DataOf(fields) == (
        if !last.DataField? then DataOf(init)
        else if DataOf(init) != "" then DataOf(init) + "\n" + last.value
        else last.value)
  {
    var init, last := fields[..|fields| - 1], fields[|fields| - 1];
    if last.DataField? {
      JoinedPush(Payload(init), last.value);
    } else {
      assert Payload(init) + [] == Payload(init);
    }
    hide Joined, WithoutEmptyFront;
  }

  /** A blank line releases what is remembered, if there is data, and forgets it. */
  lemma BlankLineReleases<J>(parse: JsonParse<J>, cur: Current, end: string)
    requires Blank(end)
    ensures LineStep(parse, cur, end) == (Current("message", None, ""),
      if cur.data == "" then []
      else [Message(cur.event, match parse(cur.data) case Some(v) => Parsed(v) case None => Unparsed(cur.data), cur.id)])
  {
    assert end == "" + "" + end;
    TrimPadded("", "", end);
    hide Trim;
  }

  lemma RunOne<J>(parse: JsonParse<J>, cur: Current, line: string)
    ensures RunLines(parse, cur, [line]) == LineStep(parse, cur, line)
  {
    assert [line][..0] == [];
    var (next, more) := LineStep(parse, cur, line);
    assert [] + more == more;
  }

  lemma FrameIsReceived<J>(parse: JsonParse<J>, m: Frame)
    requires Sendable(m)
    ensures RunLines(parse, Current("message", None, ""), LinesOf(m.fields) + [m.end])
      == (Current("message", None, ""), Received(parse, m.fields))
  {
    hide LineStep, RunLines, LinesOf, EventOf, IdOf, DataOf, Writable, Blank;
    var start := Current("message", None, "");
    var cur := Current(EventOf(m.fields), IdOf(m.fields), DataOf(m.fields));
    FrameIsRemembered(parse, m.fields);
    BlankLineReleases(parse, cur, m.end);
    RunOne(parse, cur, m.end);
    RunConcat(parse, start, LinesOf(m.fields), [m.end]);
    assert [] + Received(parse, m.fields) == Received(parse, m.fields);
  }

  lemma {:induction false} AllFramesAreReceived<J>(parse: JsonParse<J>, ms: seq<Frame>)
    requires forall i :: 0 <= i < |ms| ==> Sendable(ms[i])
    ensures RunLines(parse, Current("message", None, ""), AllLines(ms))
      == (Current("message", None, ""), AllReceived(parse, ms))
  {
    if ms != [] {
      hide RunLines, LinesOf, Sendable, Received;
      FrameIsReceived(parse, ms[0]);
      AllFramesAreReceived(parse, ms[1..]);
      RunConcat(parse, Current("message", None, ""), LinesOf(ms[0].fields) + [ms[0].end], AllLines(ms[1..]));
    }
  }

  /** What a server sends is what is received: each frame with data once, in order, under its own event
      and id or the defaults, its data lines joined. Lines that are no field, frames without data, white
      space, and a last frame that is not ended change nothing. */
  lemma SentIsReceived<J>(parse: JsonParse<J>, ms: seq<Frame>, open: seq<Field>, partial: string)
    requires forall i :: 0 <= i < |ms| ==> Sendable(ms[i])
    requires forall i :: 0 <= i < |open| ==> Writable(open[i])
    requires NoBreak(AllLines(ms) + LinesOf(open)) && '\n' !in partial
    ensures MessagesOf(parse, Ended(AllLines(ms) + LinesOf(open)) + partial) == AllReceived(parse, ms)
  {
    hide *;
    var lines := AllLines(ms) + LinesOf(open);
    LinesOfEnded(lines);
    PartialLine(Ended(lines), partial);
    AllFramesAreReceived(parse, ms);
    FrameIsRemembered(parse, open);
    RunConcat(parse, Current("message", None, ""), AllLines(ms), LinesOf(open));
    MessagesAreReleased(parse, Ended(lines) + partial);
    assert AllReceived(parse, ms) + [] == AllReceived(parse, ms);
  }

  lemma MessagesAreReleased<J>(parse: JsonParse<J>, text: string)
    ensures MessagesOf(parse, text) == RunLines(parse, Current("message", None, ""), CompleteLines(text)).1
  {
  }

  /** A partial line at the end is not complete. */
  lemma PartialLine(text: string, partial: string)
    requires Unfinished(text) == "" && '\n' !in partial
    ensures CompleteLines(text + partial) == CompleteLines(text)
  {
    SplitConcat(text, partial);
    NoLineIn(partial);
    hide CompleteLines, Unfinished;
    assert "" + partial == partial;
    assert CompleteLines(text) + [] == CompleteLines(text);
  }

  lemma {:induction false} NoLineIn(partial: string)
    requires '\n' !in partial
    ensures Split(partial) == [partial] && CompleteLines(partial) == []
  {
    if partial != "" {
      NoLineIn(partial[1..]);
      assert partial == [partial[0]] + partial[1..];
    }
  }

  function ServerFrame(event: string, data: string): Frame {
    Frame([EventField("", " ", event, ""), DataField("", " ", data, "")], "")
  }

  lemma ServerFrameLines(event: string, data: string)
    requires Tight(event) && Tight(data) && '\n' !in event && '\n' !in data
    ensures Sendable(ServerFrame(event, data))
    ensures AllLines([ServerFrame(event, data)]) == ["event: " + event, "data: " + data, ""]
  {
    var m := ServerFrame(event, data);
    assert "" + ("event:" + " " + event) + "" == "event: " + event;
    assert "" + ("data:" + " " + data) + "" == "data: " + data;
    assert LinesOf(m.fields) == ["event: " + event, "data: " + data];
    assert AllLines([m][1..]) == [];
    assert IsSpace(' ');
  }

  lemma ServerFrameText(a: string, b: string)
    requires '\n' !in a && '\n' !in b
    ensures Ended([a, b, ""]) == a + "\n" + b + "\n\n" && NoBreak([a, b, ""])
  {
    assert [a, b, ""][1..] == [b, ""] && [b, ""][1..] == [""] && [""][1..] == [];
    assert Ended([""]) == "\n";
    assert Ended([b, ""]) == b + "\n" + "\n";
    assert a + "\n" + (b + "\n" + "\n") == a + "\n" + b + "\n\n";
  }

  lemma ServerFrameSays<J>(parse: JsonParse<J>, event: string, data: string)
    requires data != ""
    ensures AllReceived(parse, [ServerFrame(event, data)])
      == [Message(event, match parse(data) case Some(v) => Parsed(v) case None => Unparsed(data), None)]
  {
    var fields := ServerFrame(event, data).fields;
    var e, d := fields[0], fields[1];
    assert fields[..1] == [e] && [e][..0] == [];
    assert Payload([e]) == [];
    assert Payload(fields) == Payload([e]) + [data] && [] + [data] == [data];
    assert EventOf([e]) == event && IdOf([e]) == None;
    assert WithoutEmptyFront([data]) == [data] && Joined([data]) == data;
    hide EventOf, IdOf, DataOf;
    var ms := [ServerFrame(event, data)];
    assert ms[1..] == [];
    assert Received(parse, fields) + [] == Received(parse, fields);
  }

  /** The frame this system's own servers send: an event, one line of data, no id. */
  lemma ServerFrameIsReceived<J>(parse: JsonParse<J>, event: string, data: string)
    requires Tight(event) && Tight(data) && data != "" && '\n' !in event && '\n' !in data
    ensures MessagesOf(parse, "event: " + event + "\ndata: " + data + "\n\n")
      == [Message(event, match parse(data) case Some(v) => Parsed(v) case None => Unparsed(data), None)]
  {
    hide *;
    var m := ServerFrame(event, data);
    ServerFrameLines(event, data);
    ServerFrameText("event: " + event, "data: " + data);
    NothingOpen();
    assert AllLines([m]) + [] == AllLines([m]);
    SentIsReceived(parse, [m], [], "");
    ServerFrameSays(parse, event, data);
    var text := Ended(AllLines([m]));
    assert text + "" == text;
    assert text == "event: " + event + "\ndata: " + data + "\n\n";
  }

  lemma NothingOpen()
    ensures LinesOf([]) == []
  {
  }
}
