/**
  The bounded reader of a server's answer, as one JSON body or as a stream of server-sent events.
  JSON decoding and the request-id comparison are parameters; no deadline.
*/
module EventStream {
  import opened Prelude
  import opened FrameProtocol

  const READ_SIZE := 65536
  const CR: byte := 13
  const SPACE: byte := 32
  /** `data:` */
  const DATA: seq<byte> := [0x64, 0x61, 0x74, 0x61, 0x3A]

  lemma BytesAreAscii()
    ensures |DATA| == |"data:"| && forall i :: 0 <= i < |DATA| ==> DATA[i] == "data:"[i] as int
    ensures NEWLINE == '\n' as int && CR == '\r' as int && SPACE == ' ' as int
  {}

  datatype Reader<!Doc> = Reader(decode: seq<byte> -> Option<Doc>, matches: Doc -> bool)

  /** `BadJson` is the program exit on text that does not decode. */
  datatype Outcome<Doc> = Found(doc: Doc) | NoAnswer | BadJson

  // ---------- The parser, one line at a time ----------

  datatype Step<Doc> = Answer(outcome: Outcome<Doc>) | More(pending: seq<byte>, data: seq<seq<byte>>)

  /** A line without its trailing carriage returns, all of them. */
  function TrimEnd(line: seq<byte>): (r: seq<byte>)
    ensures r <= line
    ensures r == [] || r[|r| - 1] != CR
    ensures forall k :: |r| <= k < |line| ==> line[k] == CR
  {
    if line != [] && line[|line| - 1] == CR then TrimEnd(line[..|line| - 1]) else line
  }

  predicate Blank(raw: seq<byte>) {
    forall b <- raw :: b == 32 || 9 <= b <= 13
  }

  function Joined(data: seq<seq<byte>>): seq<byte> {
    if data == [] then [] else if |data| == 1 then data[0] else data[0] + [NEWLINE] + Joined(data[1..])
  }

  /** A data field's value: one space after the colon does not belong to it. */
  function Value(field: seq<byte>): seq<byte> {
    if field != [] && field[0] == SPACE then field[1..] else field
  }

  function WithLine(data: seq<seq<byte>>, line: seq<byte>): seq<seq<byte>> {
    if DATA <= line then data + [Value(line[5..])] else data
  }

  /** What one dispatched payload settles, if anything. */
  function Verdict<Doc>(reader: Reader<Doc>, raw: seq<byte>): Option<Outcome<Doc>> {
    if Blank(raw) then None
    else
      match reader.decode(raw)
      case None => Some(BadJson)
      case Some(doc) => if reader.matches(doc) then Some(Found(doc)) else None
  }

  /** One complete line: it may settle the answer, otherwise it leaves the fields gathered so far. */
  function AfterLine<Doc>(reader: Reader<Doc>, raw: seq<byte>, data: seq<seq<byte>>): Step<Doc> {
    var line := TrimEnd(raw);
    if line != [] then More([], WithLine(data, line))
    else
      match Verdict(reader, Joined(data))
      case Some(outcome) => Answer(outcome)
      case None => More([], [])
  }

  /** All complete lines of `text`, until one settles the answer. */
  function Scan<Doc>(reader: Reader<Doc>, text: seq<byte>, data: seq<seq<byte>>): Step<Doc>
    decreases |text|
  {
    var n := FirstNewline(text);
    if n == |text| then More(text, data)
    else
      var step := AfterLine(reader, text[..n], data);
      if step.Answer? then step else Scan(reader, text[n + 1..], step.data)
  }

  function Resume<Doc>(reader: Reader<Doc>, step: Step<Doc>, more: seq<byte>): Step<Doc> {
    match step
    case Answer(outcome) => step
    case More(pending, data) => Scan(reader, pending + more, data)
  }

  lemma NewlineInPrefix(a: seq<byte>, b: seq<byte>)
    requires FirstNewline(a) < |a|
    ensures FirstNewline(a + b) == FirstNewline(a)
    ensures (a + b)[..FirstNewline(a)] == a[..FirstNewline(a)]
    ensures (a + b)[FirstNewline(a) + 1..] == a[FirstNewline(a) + 1..] + b
  {
    var n := FirstNewline(a);
    assert (a + b)[..n] == a[..n];
    NewlineIsFirst(a + b, n);
  }

  lemma ScanLine<Doc>(reader: Reader<Doc>, text: seq<byte>, data: seq<seq<byte>>, line: seq<byte>, rest: seq<byte>)
    requires FirstNewline(text) < |text|
    requires line == text[..FirstNewline(text)] && rest == text[FirstNewline(text) + 1..]
    ensures var step := AfterLine(reader, line, data);
            Scan(reader, text, data) == if step.Answer? then step else Scan(reader, rest, step.data)
  {}

  /** Cutting the text anywhere changes nothing: the parser resumes where it stopped. */
  lemma {:induction false} ScanResumes<Doc>(reader: Reader<Doc>, a: seq<byte>, b: seq<byte>, data: seq<seq<byte>>)
    ensures Scan(reader, a + b, data) == Resume(reader, Scan(reader, a, data), b)
    decreases |a|
  {
    var n := FirstNewline(a);
    if n < |a| {
      var line, rest := a[..n], a[n + 1..];
      NewlineInPrefix(a, b);
      ScanLine(reader, a, data, line, rest);
      ScanLine(reader, a + b, data, line, rest + b);
      var step := AfterLine(reader, line, data);
      if step.More? { ScanResumes(reader, rest, b, step.data); }
    } else {
      assert Scan(reader, a, data) == More(a, data);
    }
  }

  // ---------- The events of a stream ----------

  /** Every payload the complete lines of `text` dispatch, in order, settled or not. */
  function Events(text: seq<byte>, data: seq<seq<byte>>): seq<seq<byte>>
    decreases |text|
  {
    var n := FirstNewline(text);
    if n == |text| then []
    else
      var line := TrimEnd(text[..n]);
      if line != [] then Events(text[n + 1..], WithLine(data, line))
      else [Joined(data)] + Events(text[n + 1..], [])
  }

  /** The first payload that settles the answer. */
  function Decided<Doc>(reader: Reader<Doc>, events: seq<seq<byte>>): Outcome<Doc> {
    if events == [] then NoAnswer
    else
      match Verdict(reader, events[0])
      case Some(outcome) => outcome
      case None => Decided(reader, events[1..])
  }

  function Final<Doc>(step: Step<Doc>): Outcome<Doc> {
    if step.Answer? then step.outcome else NoAnswer
  }

  lemma DecidedHead<Doc>(reader: Reader<Doc>, raw: seq<byte>, events: seq<seq<byte>>)
    ensures Decided(reader, [raw] + events)
         == if Verdict(reader, raw).Some? then Verdict(reader, raw).value else Decided(reader, events)
  {
    assert ([raw] + events)[1..] == events;
  }

  lemma {:induction false} ScanDecides<Doc>(reader: Reader<Doc>, text: seq<byte>, data: seq<seq<byte>>)
    ensures Final(Scan(reader, text, data)) == Decided(reader, Events(text, data))
    decreases |text|
  {
    var n := FirstNewline(text);
    if n < |text| {
      var line := TrimEnd(text[..n]);
      var next := if line != [] then WithLine(data, line) else [];
      ScanDecides(reader, text[n + 1..], next);
      if line == [] { DecidedHead(reader, Joined(data), Events(text[n + 1..], [])); }
    }
  }

  /** Which payload answers: the first that settles anything, everything before it being passed over. */
  lemma {:induction false} DecidedIsFirst<Doc>(reader: Reader<Doc>, events: seq<seq<byte>>, k: nat)
    requires k < |events| && Verdict(reader, events[k]).Some?
    requires forall i :: 0 <= i < k ==> Verdict(reader, events[i]).None?
    ensures Some(Decided(reader, events)) == Verdict(reader, events[k])
  {
    if k > 0 {
      assert Verdict(reader, events[0]).None?;
      DecidedIsFirst(reader, events[1..], k - 1);
    }
  }

  /** A payload's lines, one more than it has newlines. */
  function SplitLines(payload: seq<byte>): (lines: seq<seq<byte>>)
    ensures Joined(lines) == payload && lines != []
    decreases |payload|
  {
    var n := FirstNewline(payload);
    if n == |payload| then [payload]
    else
      var rest := SplitLines(payload[n + 1..]);
      assert ([payload[..n]] + rest)[1..] == rest;
      assert payload == payload[..n] + [NEWLINE] + payload[n + 1..];
      [payload[..n]] + rest
  }

  /** A line of a stream: a data field, with or without the space after its colon, or anything else. */
  datatype Line = Field(value: seq<byte>, spaced: bool) | Other(text: seq<byte>)
  {
    function Shown(): seq<byte> {
      match this
      case Field(value, spaced) => (if spaced then DATA + [SPACE] else DATA) + value
      case Other(text) => text
    }

    function Gathers(): seq<seq<byte>> { if Field? then [value] else [] }

    predicate Proper() {
      && OneLine(Shown())
      && match this
         case Field(value, spaced) => spaced || value == [] || value[0] != SPACE
         case Other(text) => text != [] && !(DATA <= text)
    }
  }

  function Shown(lines: seq<Line>, end: seq<byte>): seq<byte> {
    if lines == [] then [] else lines[0].Shown() + end + Shown(lines[1..], end)
  }

  function Gathered(lines: seq<Line>): seq<seq<byte>> {
    if lines == [] then [] else lines[0].Gathers() + Gathered(lines[1..])
  }

  /** A stream: the lines of each event, and an empty line after them. */
  function Stream(events: seq<seq<Line>>, end: seq<byte>): seq<byte> {
    if events == [] then [] else Shown(events[0], end) + end + Stream(events[1..], end)
  }

  /** What each event carries: its fields' values, joined. */
  function Payloads(events: seq<seq<Line>>): seq<seq<byte>> {
    if events == [] then [] else [Joined(Gathered(events[0]))] + Payloads(events[1..])
  }

  function Fields(lines: seq<seq<byte>>): seq<Line> {
    if lines == [] then [] else [Field(lines[0], true)] + Fields(lines[1..])
  }

  function EventText(payload: seq<byte>, end: seq<byte>): seq<byte> { Shown(Fields(SplitLines(payload)), end) + end }

  /** How a server writes payloads, a field for each line of each, ending its lines with `end`. */
  function Written(payloads: seq<seq<byte>>, end: seq<byte>): seq<byte> {
    if payloads == [] then []
    else EventText(payloads[0], end) + Written(payloads[1..], end)
  }

  /** No line of the payload ends in a carriage return, which the reader would take off. */
  predicate Sendable(payload: seq<byte>) { forall line <- SplitLines(payload) :: OneLine(line) }

  predicate OneLine(payload: seq<byte>) {
    NEWLINE !in payload && (payload == [] || payload[|payload| - 1] != CR)
  }

  lemma LineIsTaken(line: seq<byte>, end: seq<byte>, rest: seq<byte>)
    requires OneLine(line) && (end == [NEWLINE] || end == [CR, NEWLINE])
    ensures var text := line + end + rest; var n := FirstNewline(text);
            n < |text| && TrimEnd(text[..n]) == line && text[n + 1..] == rest
  {
    var text := line + end + rest;
    var n := |line| + |end| - 1;
    assert text[..n] == line + end[..|end| - 1];
    assert text[n] == NEWLINE;
    assert NEWLINE !in text[..n];
    NewlineIsFirst(text, n);
    if |end| == 2 { assert (line + [CR])[..|line|] == line; }
  }

  /** The space after a field's colon is not part of its value, and only fields are gathered. */
  lemma LineIsRead(line: Line, data: seq<seq<byte>>)
    requires line.Proper()
    ensures line.Shown() != [] && WithLine(data, line.Shown()) == data + line.Gathers()
  {
    match line {
      case Field(value, true) =>
        var field := line.Shown();
        assert field == DATA + [SPACE] + value && field[5..] == [SPACE] + value;
        assert ([SPACE] + value)[1..] == value;
      case Field(value, false) => assert line.Shown() == DATA + value && line.Shown()[5..] == value;
      case Other(text) =>
    }
  }

  lemma EventsLine(text: seq<byte>, data: seq<seq<byte>>, line: seq<byte>, rest: seq<byte>)
    requires FirstNewline(text) < |text| && TrimEnd(text[..FirstNewline(text)]) == line
    requires rest == text[FirstNewline(text) + 1..]
    ensures Events(text, data)
        == if line != [] then Events(rest, WithLine(data, line)) else [Joined(data)] + Events(rest, [])
  {}

  lemma NextIsTaken(line: Line, end: seq<byte>, data: seq<seq<byte>>, rest: seq<byte>)
    requires line.Proper() && (end == [NEWLINE] || end == [CR, NEWLINE])
    ensures Events(line.Shown() + end + rest, data) == Events(rest, data + line.Gathers())
  {
    var shown := line.Shown();
    LineIsRead(line, data);
    LineIsTaken(shown, end, rest);
    EventsLine(shown + end + rest, data, shown, rest);
  }

  lemma BlankIsTaken(end: seq<byte>, data: seq<seq<byte>>, rest: seq<byte>)
    requires end == [NEWLINE] || end == [CR, NEWLINE]
    ensures Events(end + rest, data) == [Joined(data)] + Events(rest, [])
  {
    assert end + rest == [] + end + rest;
    LineIsTaken([], end, rest);
    EventsLine(end + rest, data, [], rest);
  }

  lemma ShownSplit(lines: seq<Line>, end: seq<byte>, data: seq<seq<byte>>, rest: seq<byte>)
    ensures lines == [] ==> Shown(lines, end) + rest == rest && data + Gathered(lines) == data
    ensures lines != [] ==>
              && lines[0] in lines
              && Shown(lines, end) + rest == lines[0].Shown() + end + (Shown(lines[1..], end) + rest)
              && data + lines[0].Gathers() + Gathered(lines[1..]) == data + Gathered(lines)
  {
    if lines != [] {
      var first := lines[0].Shown() + end;
      Joins(first, Shown(lines[1..], end), rest);
      Joins(data, lines[0].Gathers(), Gathered(lines[1..]));
    }
  }

  lemma Joins<T>(a: seq<T>, b: seq<T>, c: seq<T>)
    ensures a + b + c == a + (b + c)
  {}

  /** Lines are read one by one, and the fields among them gathered. */
  lemma {:induction false} LinesAreTaken(lines: seq<Line>, end: seq<byte>, data: seq<seq<byte>>, rest: seq<byte>)
    requires forall line <- lines :: line.Proper()
    requires end == [NEWLINE] || end == [CR, NEWLINE]
    ensures Events(Shown(lines, end) + rest, data) == Events(rest, data + Gathered(lines))
  {
    ShownSplit(lines, end, data, rest);
    if lines != [] {
      NextIsTaken(lines[0], end, data, Shown(lines[1..], end) + rest);
      LinesAreTaken(lines[1..], end, data + lines[0].Gathers(), rest);
    }
  }

  lemma EventIsTaken(lines: seq<Line>, end: seq<byte>, rest: seq<byte>)
    requires (forall line <- lines :: line.Proper()) && (end == [NEWLINE] || end == [CR, NEWLINE])
    ensures Events(Shown(lines, end) + end + rest, []) == [Joined(Gathered(lines))] + Events(rest, [])
  {
    Glue(Shown(lines, end), end, rest, Gathered(lines));
    LinesAreTaken(lines, end, [], end + rest);
    BlankIsTaken(end, Gathered(lines), rest);
  }

  lemma Glue(a: seq<byte>, b: seq<byte>, c: seq<byte>, lines: seq<seq<byte>>)
    ensures a + b + c == a + (b + c) && [] + lines == lines
  {}

  lemma StreamSplits(events: seq<seq<Line>>, end: seq<byte>, tail: seq<byte>)
    requires events != []
    ensures Stream(events, end) + tail == Shown(events[0], end) + end + (Stream(events[1..], end) + tail)
    ensures events[0] in events
  {}

  /**
    A stream reads as the joined field values of each event, whatever other lines stand between the
    fields, with either line ending and with any unfinished line at its end.
  */
  lemma {:induction false} StreamIsRead(events: seq<seq<Line>>, end: seq<byte>, tail: seq<byte>)
    requires forall lines <- events, line <- lines :: line.Proper()
    requires end == [NEWLINE] || end == [CR, NEWLINE]
    requires NEWLINE !in tail
    ensures Events(Stream(events, end) + tail, []) == Payloads(events)
  {
    if events == [] {
      assert [] + tail == tail;
      NewlineIsFirst(tail, |tail|);
    } else {
      StreamSplits(events, end, tail);
      EventIsTaken(events[0], end, Stream(events[1..], end) + tail);
      StreamIsRead(events[1..], end, tail);
    }
  }

  lemma {:induction false} FieldsGather(lines: seq<seq<byte>>)
    requires forall line <- lines :: OneLine(line)
    ensures forall line <- Fields(lines) :: line.Proper()
    ensures Gathered(Fields(lines)) == lines
  {
    if lines != [] {
      assert lines[0] in lines;
      FieldsGather(lines[1..]);
      FieldIsProper(lines[0]);
      var rest := Fields(lines[1..]);
      assert ([Field(lines[0], true)] + rest)[1..] == rest;
    }
  }

  lemma FieldIsProper(value: seq<byte>)
    requires OneLine(value)
    ensures Field(value, true).Proper()
  {
    var field := DATA + [SPACE] + value;
    assert Field(value, true).Shown() == field;
    assert forall k :: 6 <= k < |field| ==> field[k] == value[k - 6];
  }

  lemma WrittenSplits(payloads: seq<seq<byte>>, end: seq<byte>)
    requires payloads != []
    ensures Written(payloads, end) == EventText(payloads[0], end) + Written(payloads[1..], end)
    ensures [payloads[0]] + payloads[1..] == payloads
  {}

  /** Round trip: the events read are the payloads written, however many lines each has, with either line ending. */
  lemma {:induction false} WrittenAreRead(payloads: seq<seq<byte>>, end: seq<byte>)
    requires forall p <- payloads :: Sendable(p)
    requires end == [NEWLINE] || end == [CR, NEWLINE]
    ensures Events(Written(payloads, end), []) == payloads
  {
    if payloads != [] {
      assert payloads[0] in payloads;
      WrittenSplits(payloads, end);
      FieldsGather(SplitLines(payloads[0]));
      EventIsTaken(Fields(SplitLines(payloads[0])), end, Written(payloads[1..], end));
      WrittenAreRead(payloads[1..], end);
    }
  }

  lemma OneLineIsSendable(payload: seq<byte>)
    requires OneLine(payload)
    ensures SplitLines(payload) == [payload] && Sendable(payload)
  {
    assert payload[..|payload|] == payload;
    NewlineIsFirst(payload, |payload|);
  }

  // ---------- Reading within the budget ----------

  /** A read hands out the front of what has arrived, at most `n` bytes; nothing only at the end. */
  function Chunk(arrivals: seq<seq<byte>>, n: nat): seq<byte> {
    if arrivals == [] then [] else arrivals[0][..Least(n, |arrivals[0]|)]
  }

  function Left(arrivals: seq<seq<byte>>, n: nat): seq<seq<byte>> {
    if arrivals == [] then []
    else if |arrivals[0]| <= n then arrivals[1..]
    else [arrivals[0][n..]] + arrivals[1..]
  }

  lemma ReadSplits(arrivals: seq<seq<byte>>, n: nat)
    requires [] !in arrivals && n > 0
    ensures Flat(arrivals) == Chunk(arrivals, n) + Flat(Left(arrivals, n))
    ensures [] !in Left(arrivals, n)
    ensures arrivals != [] ==> Chunk(arrivals, n) != []
  {
    if arrivals != [] {
      assert arrivals[0] in arrivals;
      if |arrivals[0]| > n {
        var left := Left(arrivals, n);
        assert left[1..] == arrivals[1..];
        assert arrivals[0] == arrivals[0][..n] + arrivals[0][n..];
      }
    }
  }

  class Response {
    var arrivals: seq<seq<byte>>

    constructor (arrivals: seq<seq<byte>>)
      ensures this.arrivals == arrivals
    {
      this.arrivals := arrivals;
    }

    method Read1(n: nat) returns (chunk: seq<byte>)
      modifies this
      ensures chunk == Chunk(old(arrivals), n) && arrivals == Left(old(arrivals), n)
    {
      if arrivals == [] { return []; }
      chunk := arrivals[0][..Least(n, |arrivals[0]|)];
      arrivals := if |chunk| == |arrivals[0]| then arrivals[1..] else [arrivals[0][n..]] + arrivals[1..];
    }
  }

  function AtEnd<Doc>(reader: Reader<Doc>, stream: bool, pending: seq<byte>): Outcome<Doc> {
    if stream then NoAnswer
    else
      match reader.decode(pending)
      case None => BadJson
      case Some(doc) => if reader.matches(doc) then Found(doc) else NoAnswer
  }

  function Fed<Doc>(reader: Reader<Doc>, stream: bool, pending: seq<byte>, data: seq<seq<byte>>): Step<Doc> {
    if stream then Scan(reader, pending, data) else More(pending, data)
  }

  /** The answer from what has been parsed, what is still to arrive, and how much may still be read. */
  function Reply<Doc>(reader: Reader<Doc>, stream: bool, step: Step<Doc>, arrivals: seq<seq<byte>>,
      remaining: int): Outcome<Doc>
    requires [] !in arrivals
    decreases |Flat(arrivals)|
  {
    if step.Answer? then step.outcome
    else if remaining < 0 then NoAnswer
    else if arrivals == [] then AtEnd(reader, stream, step.pending)
    else
      var n := Least(READ_SIZE, remaining + 1);
      var chunk := Chunk(arrivals, n);
      ReadSplits(arrivals, n);
      if |chunk| > remaining then NoAnswer
      else Reply(reader, stream, Fed(reader, stream, step.pending + chunk, step.data), Left(arrivals, n),
          remaining - |chunk|)
  }

  /** The inner loop: every complete line that is pending. */
  method Feed<Doc>(reader: Reader<Doc>, pending: seq<byte>, data: seq<seq<byte>>) returns (step: Step<Doc>)
    ensures step == Scan(reader, pending, data)
  {
    var text, fields := pending, data;
    while FirstNewline(text) < |text|
      invariant Scan(reader, text, fields) == Scan(reader, pending, data)
      decreases |text|
    {
      var n := FirstNewline(text);
      var after := AfterLine(reader, text[..n], fields);
      ScanLine(reader, text, fields, text[..n], text[n + 1..]);
      if after.Answer? { return after; }
      fields := after.data;
      text := text[n + 1..];
    }
    step := More(text, fields);
  }

  /** The reader: it gives the reply defined above, after at most `limit + 1` bytes. */
  method ReadResponse<Doc>(response: Response, stream: bool, reader: Reader<Doc>, limit: int) returns (r: Outcome<Doc>)
    requires [] !in response.arrivals
    modifies response
    ensures r == Reply(reader, stream, More([], []), old(response.arrivals), limit)
    ensures |Flat(old(response.arrivals))| - |Flat(response.arrivals)| <= if limit < 0 then 0 else limit + 1
  {
    ghost var arrivals := response.arrivals;
    var remaining, step: Step<Doc> := limit, More([], []);
    while remaining >= 0
      invariant [] !in response.arrivals && step.More? && (remaining == limit || remaining >= 0)
      invariant Reply(reader, stream, step, response.arrivals, remaining)
          == Reply(reader, stream, More([], []), arrivals, limit)
      invariant |Flat(arrivals)| - |Flat(response.arrivals)| == limit - remaining
      decreases |Flat(response.arrivals)|
    {
      var n := Least(READ_SIZE, remaining + 1);
      ReadSplits(response.arrivals, n);
      var chunk := response.Read1(n);
      remaining := remaining - |chunk|;
      if remaining < 0 { return NoAnswer; }
      if chunk == [] { return AtEnd(reader, stream, step.pending); }
      if stream {
        step := Feed(reader, step.pending + chunk, step.data);
        if step.Answer? { return step.outcome; }
      } else {
        step := More(step.pending + chunk, step.data);
      }
    }
    r := NoAnswer;
  }

  // ---------- What the reply depends on ----------

  /** The same answer from the whole body at once. */
  function OnePass<Doc>(reader: Reader<Doc>, stream: bool, body: seq<byte>): Outcome<Doc> {
    if stream then Decided(reader, Events(body, [])) else AtEnd(reader, false, body)
  }

  /** How many bytes are parsed before a read overruns the budget or nothing is left to arrive. */
  function Kept(arrivals: seq<seq<byte>>, remaining: int): (n: nat)
    requires [] !in arrivals
    ensures n <= |Flat(arrivals)| && (n > 0 ==> n <= remaining)
    ensures |Flat(arrivals)| <= remaining ==> n == |Flat(arrivals)|
    ensures |Flat(arrivals)| > remaining ==> remaining < n + READ_SIZE
    decreases |Flat(arrivals)|
  {
    if remaining < 0 || arrivals == [] then 0
    else
      var size := Least(READ_SIZE, remaining + 1);
      var chunk := Chunk(arrivals, size);
      ReadSplits(arrivals, size);
      if |chunk| > remaining then 0 else |chunk| + Kept(Left(arrivals, size), remaining - |chunk|)
  }

  lemma ResumesThrough<Doc>(reader: Reader<Doc>, step: Step<Doc>, chunk: seq<byte>, rest: seq<byte>)
    requires step.More?
    ensures Resume(reader, step, chunk + rest) == Resume(reader, Scan(reader, step.pending + chunk, step.data), rest)
  {
    assert step.pending + (chunk + rest) == step.pending + chunk + rest;
    ScanResumes(reader, step.pending + chunk, rest, step.data);
  }

  lemma {:induction false} ScanPending<Doc>(reader: Reader<Doc>, text: seq<byte>, data: seq<seq<byte>>)
    ensures var step := Scan(reader, text, data); step.More? ==> FirstNewline(step.pending) == |step.pending|
    decreases |text|
  {
    var n := FirstNewline(text);
    if n < |text| {
      var step := AfterLine(reader, text[..n], data);
      if step.More? { ScanPending(reader, text[n + 1..], step.data); }
    }
  }

  /** One read of a reply that is still open, and of the count of parsed bytes. */
  lemma ReplyReads<Doc>(
    reader: Reader<Doc>, step: Step<Doc>, arrivals: seq<seq<byte>>, remaining: nat, chunk: seq<byte>,
    left: seq<seq<byte>>)
    requires [] !in arrivals && arrivals != [] && step.More?
    requires chunk == Chunk(arrivals, Least(READ_SIZE, remaining + 1))
        && left == Left(arrivals, Least(READ_SIZE, remaining + 1))
    ensures chunk != [] && [] !in left && Flat(arrivals) == chunk + Flat(left)
    ensures |chunk| > remaining ==>
        Reply(reader, true, step, arrivals, remaining) == NoAnswer && Kept(arrivals, remaining) == 0
    ensures |chunk| <= remaining ==>
              && Reply(reader, true, step, arrivals, remaining)
                 == Reply(reader, true, Scan(reader, step.pending + chunk, step.data), left, remaining - |chunk|)
              && Kept(arrivals, remaining) == |chunk| + Kept(left, remaining - |chunk|)
  {
    ReadSplits(arrivals, Least(READ_SIZE, remaining + 1));
  }

  lemma ResumesPrefix<Doc>(reader: Reader<Doc>, step: Step<Doc>, chunk: seq<byte>, rest: seq<byte>, kept: nat)
    requires step.More? && kept <= |rest|
    ensures Resume(reader, step, (chunk + rest)[..|chunk| + kept])
         == Resume(reader, Scan(reader, step.pending + chunk, step.data), rest[..kept])
  {
    assert (chunk + rest)[..|chunk| + kept] == chunk + rest[..kept];
    ResumesThrough(reader, step, chunk, rest[..kept]);
  }

  lemma NothingParsed<Doc>(reader: Reader<Doc>, step: Step<Doc>)
    requires step.More? ==> FirstNewline(step.pending) == |step.pending|
    ensures Final(Resume(reader, step, [])) == Final(step)
  {
    if step.More? { assert step.pending + [] == step.pending; }
  }

  /** The reply is that of the bytes parsed. */
  ghost predicate OfKept<Doc>(reader: Reader<Doc>, step: Step<Doc>, arrivals: seq<seq<byte>>, remaining: int)
    requires [] !in arrivals
  {
    Reply(reader, true, step, arrivals, remaining)
    == Final(Resume(reader, step, Flat(arrivals)[..Kept(arrivals, remaining)]))
  }

  predicate Stops(arrivals: seq<seq<byte>>, remaining: int) {
    remaining < 0 || arrivals == [] || |Chunk(arrivals, Least(READ_SIZE, remaining + 1))| > remaining
  }

  lemma StreamStops<Doc>(reader: Reader<Doc>, step: Step<Doc>, arrivals: seq<seq<byte>>, remaining: int)
    requires [] !in arrivals && (step.Answer? || Stops(arrivals, remaining))
    requires step.More? ==> FirstNewline(step.pending) == |step.pending|
    ensures OfKept(reader, step, arrivals, remaining)
  {
    if step.More? {
      assert Kept(arrivals, remaining) == 0;
      assert Flat(arrivals)[..0] == [];
      NothingParsed(reader, step);
    }
  }

  lemma StreamReads<Doc>(
    reader: Reader<Doc>, step: Step<Doc>, arrivals: seq<seq<byte>>, remaining: nat, chunk: seq<byte>,
    left: seq<seq<byte>>)
    requires [] !in arrivals && arrivals != [] && [] !in left && step.More? && |chunk| <= remaining
    requires chunk == Chunk(arrivals, Least(READ_SIZE, remaining + 1))
        && left == Left(arrivals, Least(READ_SIZE, remaining + 1))
    requires OfKept(reader, Scan(reader, step.pending + chunk, step.data), left, remaining - |chunk|)
    ensures OfKept(reader, step, arrivals, remaining)
  {
    var rest, kept := Flat(left), Kept(left, remaining - |chunk|);
    ReplyReads(reader, step, arrivals, remaining, chunk, left);
    ResumesPrefix(reader, step, chunk, rest, kept);
    assert Flat(arrivals)[..Kept(arrivals, remaining)] == (chunk + rest)[..|chunk| + kept];
  }

  lemma {:induction false} StreamReply<Doc>(reader: Reader<Doc>, step: Step<Doc>, arrivals: seq<seq<byte>>,
      remaining: int)
    requires [] !in arrivals
    requires step.More? ==> FirstNewline(step.pending) == |step.pending|
    ensures OfKept(reader, step, arrivals, remaining)
    decreases |Flat(arrivals)|
  {
    if step.Answer? || Stops(arrivals, remaining) {
      StreamStops(reader, step, arrivals, remaining);
    } else {
      var n := Least(READ_SIZE, remaining + 1);
      var chunk, left := Chunk(arrivals, n), Left(arrivals, n);
      ReadSplits(arrivals, n);
      ScanPending(reader, step.pending + chunk, step.data);
      StreamReply(reader, Scan(reader, step.pending + chunk, step.data), left, remaining - |chunk|);
      StreamReads(reader, step, arrivals, remaining, chunk, left);
    }
  }

  /**
    Exactly what a stream's reply depends on: it is the one-pass answer of the bytes that were
    parsed before a read overran the limit, and of the whole body if none did.
  */
  lemma ReplyIsOfKept<Doc>(reader: Reader<Doc>, arrivals: seq<seq<byte>>, limit: int)
    requires [] !in arrivals
    ensures Reply(reader, true, More([], []), arrivals, limit)
         == OnePass(reader, true, Flat(arrivals)[..Kept(arrivals, limit)])
  {
    var parsed := Flat(arrivals)[..Kept(arrivals, limit)];
    StreamReply(reader, More([], []), arrivals, limit);
    assert [] + parsed == parsed;
    ScanDecides(reader, parsed, []);
  }

  lemma {:induction false} BodyWithinBudget<Doc>(reader: Reader<Doc>, pending: seq<byte>, data: seq<seq<byte>>,
                                                 arrivals: seq<seq<byte>>, remaining: int)
    requires [] !in arrivals
    ensures Reply(reader, false, More(pending, data), arrivals, remaining)
         == if |Flat(arrivals)| <= remaining then AtEnd(reader, false, pending + Flat(arrivals)) else NoAnswer
    decreases |Flat(arrivals)|
  {
    if arrivals == [] {
      assert pending + [] == pending;
    } else if remaining >= 0 {
      var n := Least(READ_SIZE, remaining + 1);
      var chunk, left := Chunk(arrivals, n), Left(arrivals, n);
      ReadSplits(arrivals, n);
      BodyWithinBudget(reader, pending + chunk, data, left, remaining - |chunk|);
      assert pending + Flat(arrivals) == pending + chunk + Flat(left);
    }
  }

  /** The reply to a body within the limit does not depend on how it arrives. */
  lemma ArrivalIsIrrelevant<Doc>(reader: Reader<Doc>, stream: bool, arrivals: seq<seq<byte>>, limit: int)
    requires [] !in arrivals && |Flat(arrivals)| <= limit
    ensures Reply(reader, stream, More([], []), arrivals, limit) == OnePass(reader, stream, Flat(arrivals))
  {
    var all := Flat(arrivals);
    assert [] + all == all && all[..|all|] == all;
    if stream {
      ReplyIsOfKept(reader, arrivals, limit);
    } else {
      BodyWithinBudget(reader, [], [], arrivals, limit);
    }
  }

  /** And for a stream it is the verdict of the first event that has one. */
  lemma FirstSettlingEventAnswers<Doc>(reader: Reader<Doc>, arrivals: seq<seq<byte>>, limit: int, k: nat)
    requires [] !in arrivals && |Flat(arrivals)| <= limit
    requires k < |Events(Flat(arrivals), [])| && Verdict(reader, Events(Flat(arrivals), [])[k]).Some?
    requires forall i :: 0 <= i < k ==> Verdict(reader, Events(Flat(arrivals), [])[i]).None?
    ensures Some(Reply(reader, true, More([], []), arrivals, limit)) == Verdict(reader, Events(Flat(arrivals), [])[k])
  {
    ArrivalIsIrrelevant(reader, true, arrivals, limit);
    DecidedIsFirst(reader, Events(Flat(arrivals), []), k);
  }

  /** The reply to a JSON body within the limit, however it arrives: its document if that answers the request. */
  lemma BodyReplyExactly<Doc>(reader: Reader<Doc>, arrivals: seq<seq<byte>>, limit: int)
    requires [] !in arrivals && |Flat(arrivals)| <= limit
    ensures var r, decoded := Reply(reader, false, More([], []), arrivals, limit), reader.decode(Flat(arrivals));
            && (r.BadJson? <==> decoded.None?)
            && (r.Found? <==> decoded.Some? && reader.matches(decoded.value))
            && (r.Found? ==> r.doc == decoded.value)
  {
    ArrivalIsIrrelevant(reader, false, arrivals, limit);
  }

  /** The reader goes on after this payload: it is blank, or decodes to another request's document. */
  predicate PassesOver<Doc>(reader: Reader<Doc>, raw: seq<byte>) {
    || (forall b <- raw :: b in {9, 10, 11, 12, 13, 32})
    || (reader.decode(raw).Some? && !reader.matches(reader.decode(raw).value))
  }

  /** Payload `k` is the first that the reader does not pass over. */
  ghost predicate StopsAt<Doc>(reader: Reader<Doc>, events: seq<seq<byte>>, k: nat) {
    k < |events| && !PassesOver(reader, events[k]) && forall i :: 0 <= i < k ==> PassesOver(reader, events[i])
  }

  lemma {:induction false} StopsSomewhere<Doc>(reader: Reader<Doc>, events: seq<seq<byte>>) returns (k: nat)
    ensures StopsAt(reader, events, k) || (k == |events| && forall i :: 0 <= i < k ==> PassesOver(reader, events[i]))
    ensures Decided(reader, events)
         == if k == |events| then NoAnswer
            else if reader.decode(events[k]).None? then BadJson else Found(reader.decode(events[k]).value)
  {
    if events == [] || !PassesOver(reader, events[0]) {
      k := 0;
    } else {
      k := StopsSomewhere(reader, events[1..]);
      k := k + 1;
      forall i | 0 <= i < k ensures PassesOver(reader, events[i]) {
        if i > 0 { assert events[i] == events[1..][i - 1]; }
      }
    }
  }

  /**
    The reply to a stream within the limit, by decoding and matching alone: a document if and only
    if it is that of the first event not passed over and matches the request, a failure if and only
    if that event does not decode, and nothing if and only if every event is passed over.
  */
  lemma ReplyExactly<Doc>(reader: Reader<Doc>, arrivals: seq<seq<byte>>, limit: int)
    requires [] !in arrivals && |Flat(arrivals)| <= limit
    ensures var r, events := Reply(reader, true, More([], []), arrivals, limit), Events(Flat(arrivals), []);
            && (r.Found? <==> exists k: nat :: StopsAt(reader, events, k) && reader.decode(events[k]).Some?)
            && (r.BadJson? <==> exists k: nat :: StopsAt(reader, events, k) && reader.decode(events[k]).None?)
            && (r.NoAnswer? <==> forall e <- events :: PassesOver(reader, e))
            && forall k: nat :: StopsAt(reader, events, k) && reader.decode(events[k]).Some? ==>
                 r == Found(reader.decode(events[k]).value) && reader.matches(r.doc)
  {
    var events := Events(Flat(arrivals), []);
    ArrivalIsIrrelevant(reader, true, arrivals, limit);
    var k := StopsSomewhere(reader, events);
    if k < |events| {
      assert StopsAt(reader, events, k);
      assert events[k] in events;
      forall j: nat | StopsAt(reader, events, j) ensures j == k { OneStop(reader, events, j, k); }
    }
  }

  lemma OneStop<Doc>(reader: Reader<Doc>, events: seq<seq<byte>>, j: nat, k: nat)
    requires StopsAt(reader, events, j) && StopsAt(reader, events, k)
    ensures j == k
  {}

  /** Beyond the limit a JSON body gives no answer, however it arrives. */
  lemma OverlongBodyIsRefused<Doc>(reader: Reader<Doc>, arrivals: seq<seq<byte>>, limit: int)
    requires [] !in arrivals && |Flat(arrivals)| > limit
    ensures Reply(reader, false, More([], []), arrivals, limit) == NoAnswer
  {
    BodyWithinBudget(reader, [], [], arrivals, limit);
  }

  // ---------- Where a stream settles ----------

  /** How long the shortest beginning of `text` is that settles the answer. */
  function SettledAt<Doc>(reader: Reader<Doc>, text: seq<byte>, data: seq<seq<byte>>): (p: nat)
    requires Scan(reader, text, data).Answer?
    ensures 0 < p <= |text|
    decreases |text|
  {
    var n := FirstNewline(text);
    var step := AfterLine(reader, text[..n], data);
    if step.Answer? then n + 1 else n + 1 + SettledAt(reader, text[n + 1..], step.data)
  }

  lemma VerdictsAnswer<Doc>(reader: Reader<Doc>, raw: seq<byte>, data: seq<seq<byte>>)
    ensures var step := AfterLine(reader, raw, data); step.Answer? ==> !step.outcome.NoAnswer?
  {}

  lemma NoLineSettlesNothing<Doc>(reader: Reader<Doc>, text: seq<byte>, data: seq<seq<byte>>, q: nat)
    requires q <= FirstNewline(text)
    ensures Scan(reader, text[..q], data) == More(text[..q], data)
  {
    NoneBefore(text, FirstNewline(text));
    NewlineIsFirst(text[..q], q);
  }

  lemma PrefixLine(a: seq<byte>, b: seq<byte>, n: nat)
    requires n == FirstNewline(a + b) < |a|
    ensures FirstNewline(a) == n && (a + b)[..n] == a[..n] && (a + b)[n + 1..] == a[n + 1..] + b
  {
    assert (a + b)[..n] == a[..n];
    NewlineIsFirst(a, n);
  }

  /** The first line and what follows it, in the first `q` bytes of `text`. */
  lemma PrefixParts(text: seq<byte>, n: nat, q: nat)
    requires n == FirstNewline(text) < q <= |text|
    ensures FirstNewline(text[..q]) == n
    ensures text[..q][..n] == text[..n] && text[..q][n + 1..] == text[n + 1..][..q - n - 1]
  {
    assert text == text[..q] + text[q..];
    PrefixLine(text[..q], text[q..], n);
  }

  lemma SettledStep<Doc>(reader: Reader<Doc>, text: seq<byte>, data: seq<seq<byte>>, n: nat, step: Step<Doc>)
    requires n == FirstNewline(text) < |text| && step == AfterLine(reader, text[..n], data)
    ensures step.Answer? ==> Scan(reader, text, data) == step && SettledAt(reader, text, data) == n + 1
    ensures step.More? ==>
              && Scan(reader, text, data) == Scan(reader, text[n + 1..], step.data)
              && (Scan(reader, text, data).Answer? ==>
                    SettledAt(reader, text, data) == n + 1 + SettledAt(reader, text[n + 1..], step.data))
  {}

  /** `text[..q]` has settled the answer of `text` from `SettledAt` on, and nothing before. */
  ghost predicate SettlesAt<Doc>(reader: Reader<Doc>, text: seq<byte>, data: seq<seq<byte>>, q: nat)
    requires Scan(reader, text, data).Answer? && q <= |text|
  {
    && (SettledAt(reader, text, data) <= q ==> Scan(reader, text[..q], data) == Scan(reader, text, data))
    && (q < SettledAt(reader, text, data) ==> Scan(reader, text[..q], data).More?)
  }

  /** The first line of `text` is within its first `q` bytes and settles nothing. */
  lemma SettlesAfterLine<Doc>(reader: Reader<Doc>, text: seq<byte>, data: seq<seq<byte>>, n: nat, q: nat,
      step: Step<Doc>)
    requires n == FirstNewline(text) < q <= |text| && step == AfterLine(reader, text[..n], data) && step.More?
    requires Scan(reader, text, data).Answer? && Scan(reader, text[n + 1..], step.data).Answer?
    requires SettlesAt(reader, text[n + 1..], step.data, q - n - 1)
    ensures SettlesAt(reader, text, data, q)
  {
    var head := text[..q];
    PrefixParts(text, n, q);
    SettledStep(reader, text, data, n, step);
    SettledStep(reader, head, data, n, step);
  }

  lemma SettlesWithLine<Doc>(reader: Reader<Doc>, text: seq<byte>, data: seq<seq<byte>>, n: nat, q: nat,
      step: Step<Doc>)
    requires n == FirstNewline(text) < q <= |text| && step == AfterLine(reader, text[..n], data) && step.Answer?
    ensures Scan(reader, text, data).Answer? && SettlesAt(reader, text, data, q)
  {
    var head := text[..q];
    PrefixParts(text, n, q);
    SettledStep(reader, text, data, n, step);
    SettledStep(reader, head, data, n, step);
  }

  /** From that length on the answer is settled, and it is the same; before it, it is not. */
  lemma {:induction false} SettledExactly<Doc>(reader: Reader<Doc>, text: seq<byte>, data: seq<seq<byte>>, q: nat)
    requires Scan(reader, text, data).Answer? && q <= |text|
    ensures !Scan(reader, text, data).outcome.NoAnswer?
    ensures SettlesAt(reader, text, data, q)
    decreases |text|
  {
    var n := FirstNewline(text);
    var step := AfterLine(reader, text[..n], data);
    VerdictsAnswer(reader, text[..n], data);
    SettledStep(reader, text, data, n, step);
    if step.More? { SettledExactly(reader, text[n + 1..], step.data, if q <= n then 0 else q - n - 1); }
    if q <= n {
      NoLineSettlesNothing(reader, text, data, q);
    } else if step.More? {
      SettlesAfterLine(reader, text, data, n, q, step);
    } else {
      SettlesWithLine(reader, text, data, n, q, step);
    }
  }

  /**
    Beyond the limit too, for every arrival: a body whose beginning settles the answer is answered
    if and only if the parsed bytes reach that far.
  */
  lemma OverlongStreamAnswers<Doc>(reader: Reader<Doc>, arrivals: seq<seq<byte>>, limit: int)
    requires [] !in arrivals && Scan(reader, Flat(arrivals), []).Answer?
    ensures Reply(reader, true, More([], []), arrivals, limit)
         == if SettledAt(reader, Flat(arrivals), []) <= Kept(arrivals, limit)
            then Scan(reader, Flat(arrivals), []).outcome else NoAnswer
  {
    var body, kept := Flat(arrivals), Kept(arrivals, limit);
    StreamReply(reader, More([], []), arrivals, limit);
    assert [] + body[..kept] == body[..kept];
    SettledExactly(reader, body, [], kept);
  }

  // ---------- The threshold ----------

  /** The body arrives in two pieces, the first of `c` bytes; or in one, if `c` is 0. */
  function CutAt(body: seq<byte>, c: nat): seq<seq<byte>>
    requires c < |body|
  {
    if c == 0 then [body] else [body[..c], body[c..]]
  }

  /** One read of a piece that fits what remains. */
  lemma KeptReads(first: seq<byte>, others: seq<seq<byte>>, remaining: nat)
    requires first != [] && [] !in others && |first| <= remaining
    ensures var n := Least(READ_SIZE, remaining + 1);
            && [] !in [first] + others
            && Kept([first] + others, remaining)
               == if |first| <= n then |first| + Kept(others, remaining - |first|)
                  else n + Kept([first[n..]] + others, remaining - n)
  {
    assert ([first] + others)[1..] == others;
    ReadSplits([first] + others, Least(READ_SIZE, remaining + 1));
  }

  lemma {:induction false} KeptThroughFirst(first: seq<byte>, others: seq<seq<byte>>, remaining: nat)
    requires first != [] && [] !in others && |first| <= remaining
    ensures Kept([first] + others, remaining) == |first| + Kept(others, remaining - |first|)
    decreases |first|
  {
    var n := Least(READ_SIZE, remaining + 1);
    KeptReads(first, others, remaining);
    if |first| > n { KeptThroughFirst(first[n..], others, remaining - n); }
  }

  /** A read that takes one byte more than remains. */
  lemma NothingKept(rest: seq<byte>, remaining: nat)
    requires remaining < |rest| && remaining < READ_SIZE
    ensures Flat([rest]) == rest && [] !in [rest] && Kept([rest], remaining) == 0
  {
    assert Flat([rest]) == rest + Flat([]) && rest + [] == rest;
    assert Chunk([rest], remaining + 1) == rest[..remaining + 1];
  }

  /** Any number of bytes from `limit - 65535` to `limit` can be the last ones parsed. */
  lemma CutIsKept(body: seq<byte>, c: nat, limit: nat)
    requires limit < |body| && c <= limit < c + READ_SIZE
    ensures [] !in CutAt(body, c) && Flat(CutAt(body, c)) == body && Kept(CutAt(body, c), limit) == c
  {
    NothingKept(body[c..], limit - c);
    CutSplits(body, c);
    if c > 0 { KeptThroughFirst(body[..c], [body[c..]], limit); }
  }

  lemma CutSplits(body: seq<byte>, c: nat)
    requires c < |body|
    ensures [] !in CutAt(body, c) && Flat(CutAt(body, c)) == body
    ensures CutAt(body, c) == if c == 0 then [body[c..]] else [body[..c]] + [body[c..]]
  {
    var rest := body[c..];
    assert Flat([rest]) == rest + Flat([]) && rest + [] == rest;
    if c > 0 {
      assert CutAt(body, c)[1..] == [rest] && body == body[..c] + rest;
    } else {
      assert rest == body;
    }
  }

  /** Every arrival of `body` gets the same reply. */
  ghost predicate SameReply<Doc>(reader: Reader<Doc>, body: seq<byte>, limit: nat) {
    forall a, b :: Arrives(a, body) && Arrives(b, body) ==>
      Reply(reader, true, More([], []), a, limit) == Reply(reader, true, More([], []), b, limit)
  }

  predicate Arrives(arrivals: seq<seq<byte>>, body: seq<byte>) { [] !in arrivals && Flat(arrivals) == body }

  /** The first `limit` bytes settle the answer so late that one read can carry it past the limit. */
  ghost predicate SettlesLate<Doc>(reader: Reader<Doc>, body: seq<byte>, limit: nat) {
    && Scan(reader, body, []).Answer?
    && SettledAt(reader, body, []) <= limit < SettledAt(reader, body, []) + READ_SIZE - 1
  }

  /** Two arrivals of such a body, one answered and one not. */
  lemma LateAnswerMayBeLost<Doc>(reader: Reader<Doc>, body: seq<byte>, limit: nat)
    requires limit < |body| && SettlesLate(reader, body, limit)
    ensures var lost := if limit < READ_SIZE then 0 else limit - READ_SIZE + 1;
            && Arrives(CutAt(body, limit), body) && Arrives(CutAt(body, lost), body)
            && Reply(reader, true, More([], []), CutAt(body, limit), limit) == Scan(reader, body, []).outcome
            && !Scan(reader, body, []).outcome.NoAnswer?
            && Reply(reader, true, More([], []), CutAt(body, lost), limit) == NoAnswer
  {
    var lost := if limit < READ_SIZE then 0 else limit - READ_SIZE + 1;
    CutIsKept(body, limit, limit);
    CutIsKept(body, lost, limit);
    OverlongStreamAnswers(reader, CutAt(body, limit), limit);
    OverlongStreamAnswers(reader, CutAt(body, lost), limit);
    SettledExactly(reader, body, [], 0);
  }

  /**
    The exact threshold: the reply to a body over the limit is the same for every arrival if and
    only if its first `limit` bytes settle nothing, or settle it at least 65535 bytes before the
    limit.
  */
  lemma ArrivalMattersExactly<Doc>(reader: Reader<Doc>, body: seq<byte>, limit: nat)
    requires limit < |body|
    ensures SameReply(reader, body, limit) <==>
            || Scan(reader, body[..limit], []).More?
            || SettledAt(reader, body[..limit], []) + 65535 <= limit
  {
    HeadSettles(reader, body, limit);
    if SettlesLate(reader, body, limit) {
      LateAnswerMayBeLost(reader, body, limit);
    } else {
      forall a, b | Arrives(a, body) && Arrives(b, body)
        ensures Reply(reader, true, More([], []), a, limit) == Reply(reader, true, More([], []), b, limit)
      {
        EarlyOrNever(reader, a, limit);
        EarlyOrNever(reader, b, limit);
      }
    }
  }

  /** What the first `limit` bytes settle, and where, is what the whole body does. */
  lemma HeadSettles<Doc>(reader: Reader<Doc>, body: seq<byte>, limit: nat)
    requires limit < |body|
    ensures Scan(reader, body[..limit], []).Answer? <==>
            Scan(reader, body, []).Answer? && SettledAt(reader, body, []) <= limit
    ensures Scan(reader, body[..limit], []).Answer? ==>
              SettledAt(reader, body[..limit], []) == SettledAt(reader, body, [])
  {
    var head := body[..limit];
    assert body == head + body[limit..];
    ScanResumes(reader, head, body[limit..], []);
    if Scan(reader, body, []).Answer? {
      SettledExactly(reader, body, [], limit);
      if SettledAt(reader, body, []) <= limit {
        var p, q := SettledAt(reader, body, []), SettledAt(reader, head, []);
        SettledExactly(reader, head, [], p);
        SettledExactly(reader, body, [], q);
        assert head[..p] == body[..p] && head[..q] == body[..q];
        SettledExactly(reader, body, [], p);
        SettledExactly(reader, head, [], q);
      }
    }
  }

  lemma EarlyOrNever<Doc>(reader: Reader<Doc>, arrivals: seq<seq<byte>>, limit: nat)
    requires [] !in arrivals && limit < |Flat(arrivals)| && !SettlesLate(reader, Flat(arrivals), limit)
    ensures Reply(reader, true, More([], []), arrivals, limit)
         == if Scan(reader, Flat(arrivals), []).Answer? && SettledAt(reader, Flat(arrivals), []) <= limit
            then Scan(reader, Flat(arrivals), []).outcome else NoAnswer
  {
    var body, kept := Flat(arrivals), Kept(arrivals, limit);
    if Scan(reader, body, []).Answer? {
      OverlongStreamAnswers(reader, arrivals, limit);
    } else {
      NeverSettles(reader, arrivals, limit);
    }
  }

  /** The reply in terms of the parser instead of the events. */
  lemma ReplyIsOfScan<Doc>(reader: Reader<Doc>, arrivals: seq<seq<byte>>, limit: int)
    requires [] !in arrivals
    ensures Reply(reader, true, More([], []), arrivals, limit)
         == Final(Scan(reader, Flat(arrivals)[..Kept(arrivals, limit)], []))
  {
    var parsed := Flat(arrivals)[..Kept(arrivals, limit)];
    StreamReply(reader, More([], []), arrivals, limit);
    assert [] + parsed == parsed;
  }

  lemma PrefixIsOpen<Doc>(reader: Reader<Doc>, body: seq<byte>, q: nat)
    requires q <= |body| && Scan(reader, body, []).More?
    ensures Scan(reader, body[..q], []).More?
  {
    assert body == body[..q] + body[q..];
    ScanResumes(reader, body[..q], body[q..], []);
  }

  /** A body that settles nothing gets no answer. */
  lemma NeverSettles<Doc>(reader: Reader<Doc>, arrivals: seq<seq<byte>>, limit: int)
    requires [] !in arrivals && Scan(reader, Flat(arrivals), []).More?
    ensures Reply(reader, true, More([], []), arrivals, limit) == NoAnswer
  {
    ReplyIsOfScan(reader, arrivals, limit);
    PrefixIsOpen(reader, Flat(arrivals), Kept(arrivals, limit));
  }

  // ---------- A body that breaks at the limit the endpoint check uses ----------

  const ENDPOINT_LIMIT := 65536

  /**
    At a limit of 65536 bytes: one short event and enough bytes after it. With the first byte
    arriving alone the next read overruns the limit and the answer is lost; with the first 65536
    bytes arriving together it is given.
  */
  lemma EndpointAnswerIsLost<Doc>(reader: Reader<Doc>, payload: seq<byte>, extra: seq<byte>)
    requires OneLine(payload) && |payload| <= 1000 && Verdict(reader, payload).Some?
    requires |extra| > ENDPOINT_LIMIT
    ensures var body := Written([payload], [NEWLINE]) + extra;
            && Reply(reader, true, More([], []), CutAt(body, ENDPOINT_LIMIT), ENDPOINT_LIMIT)
                == Verdict(reader, payload).value
            && Reply(reader, true, More([], []), CutAt(body, 1), ENDPOINT_LIMIT) == NoAnswer
            && Verdict(reader, payload).value != NoAnswer
  {
    var event := Written([payload], [NEWLINE]);
    var body := event + extra;
    OneLineIsSendable(payload);
    WrittenAreRead([payload], [NEWLINE]);
    ScanDecides(reader, event, []);
    assert Decided(reader, [payload]) == Verdict(reader, payload).value;
    VerdictIsAnswer(reader, payload);
    EventSettles(reader, payload);
    ScanResumes(reader, event, extra, []);
    SettledExactly(reader, body, [], |event|);
    assert body[..|event|] == event;
    LateAnswerMayBeLost(reader, body, ENDPOINT_LIMIT);
  }

  lemma VerdictIsAnswer<Doc>(reader: Reader<Doc>, raw: seq<byte>)
    ensures Verdict(reader, raw).Some? ==> !Verdict(reader, raw).value.NoAnswer?
  {}

  lemma WrittenOne(payload: seq<byte>)
    requires OneLine(payload)
    ensures Written([payload], [NEWLINE]) == DATA + [SPACE] + payload + [NEWLINE] + [NEWLINE]
  {
    OneLineIsSendable(payload);
    var none: seq<seq<byte>> := [];
    var field := Field(payload, true);
    assert [payload][1..] == none && Written(none, [NEWLINE]) == [] && Fields(none) == [];
    assert Fields([payload]) == [field] && Shown([field][1..], [NEWLINE]) == [];
  }

  /** A settling event settles at its end and not on its first line. */
  lemma EventSettles<Doc>(reader: Reader<Doc>, payload: seq<byte>)
    requires OneLine(payload) && Verdict(reader, payload).Some?
    ensures var event := Written([payload], [NEWLINE]);
            && |event| == |payload| + 8
            && Scan(reader, event, []) == Answer(Verdict(reader, payload).value)
            && SettledAt(reader, event, []) > 1
  {
    var line := DATA + [SPACE] + payload;
    var event := Written([payload], [NEWLINE]);
    WrittenOne(payload);
    FieldIsProper(payload);
    LineIsRead(Field(payload, true), []);
    LineIsTaken(line, [NEWLINE], [NEWLINE]);
    assert event == line + [NEWLINE] + [NEWLINE];
    assert event[..FirstNewline(event)] == line by { NewlineIsFirst(event, |line|); }
    ScanLine(reader, event, [], event[..FirstNewline(event)], [NEWLINE]);
    assert Joined([payload]) == payload;
    ScanLine(reader, [NEWLINE], [payload], [], []);
  }
}
