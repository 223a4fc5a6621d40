/**
  The line-framed protocol of the execution runtime: a writer with an output budget and a reader
  that refuses an overlong line while reading it, however the stream is cut into buffers.
*/
module FrameProtocol {
  import opened Prelude

  const MAX_FRAME_BYTES := 256 * 1024
  const MAX_OUTPUT_BYTES := 16 * 1024 * 1024
  const USIZE_MAX := 0xFFFF_FFFF_FFFF_FFFF
  const NEWLINE: byte := 10

  datatype FrameError = UnexpectedEnd | TooLong

  // ---------- The stream ----------

  function Flat(chunks: seq<seq<byte>>): seq<byte> {
    if chunks == [] then [] else chunks[0] + Flat(chunks[1..])
  }

  /** A buffered reader over a stream that arrives in arbitrary non-empty chunks. */
  class BufferedStream {
    var buffer: seq<byte>
    var chunks: seq<seq<byte>>

    ghost predicate Valid() reads this { [] !in chunks }

    /** What has not been consumed yet. */
    ghost function Contents(): seq<byte> reads this { buffer + Flat(chunks) }

    constructor (chunks: seq<seq<byte>>)
      requires [] !in chunks
      ensures Valid() && Contents() == Flat(chunks)
    {
      this.buffer, this.chunks := [], chunks;
    }

    /** Some of what is left; nothing only at the end of the stream. */
    method FillBuf() returns (available: seq<byte>)
      requires Valid()
      modifies this
      ensures Valid() && Contents() == old(Contents())
      ensures available == buffer && available <= Contents()
      ensures available == [] <==> Contents() == []
    {
      if buffer == [] && chunks != [] {
        assert chunks[0] in chunks;
        buffer, chunks := chunks[0], chunks[1..];
      }
      available := buffer;
    }

    method Consume(count: nat)
      requires Valid() && count <= |buffer|
      modifies this
      ensures Valid() && Contents() == old(Contents())[count..]
    {
      assert buffer[count..] + Flat(chunks) == (buffer + Flat(chunks))[count..];
      buffer := buffer[count..];
    }
  }

  // ---------- Reading one frame ----------

  /** The index of the first newline, or the length when there is none. */
  function FirstNewline(s: seq<byte>): (n: nat)
    ensures n <= |s| && NEWLINE !in s[..n]
    ensures n < |s| ==> s[n] == NEWLINE
  {
    if s == [] || s[0] == NEWLINE then 0
    else
      var n := 1 + FirstNewline(s[1..]);
      assert s[..n] == [s[0]] + s[1..][..n - 1];
      n
  }

  /** What reading a frame from the whole stream means; chunks do not occur in it. */
  function FrameOf(s: seq<byte>, max: nat): Result<seq<byte>, FrameError> {
    var n := FirstNewline(s);
    if n < |s| then (if n + 1 <= max then Ok(s[..n]) else Err(TooLong))
    else if |s| > max then Err(TooLong) else Err(UnexpectedEnd)
  }

  lemma NoneBefore(s: seq<byte>, n: nat)
    requires n <= |s| && NEWLINE !in s[..n]
    ensures forall k :: 0 <= k < n ==> s[k] != NEWLINE
  {
    forall k | 0 <= k < n ensures s[k] != NEWLINE { assert s[k] == s[..n][k]; }
  }

  lemma NewlineIsFirst(s: seq<byte>, n: nat)
    requires n <= |s| && NEWLINE !in s[..n] && (n < |s| ==> s[n] == NEWLINE)
    ensures FirstNewline(s) == n
  {
    NoneBefore(s, n);
    NoneBefore(s, FirstNewline(s));
  }

  /** A frame is read exactly when the stream starts with that line and its newline within the limit. */
  lemma FrameIsFirstLine(s: seq<byte>, max: nat, line: seq<byte>)
    ensures FrameOf(s, max) == Ok(line) <==> NEWLINE !in line && |line| + 1 <= max && line + [NEWLINE] <= s
    ensures FrameOf(s, max) == Err(UnexpectedEnd) <==> NEWLINE !in s && |s| <= max
  {
    var n := FirstNewline(s);
    if n < |s| {
      assert s[..n + 1] == s[..n] + [NEWLINE];
    } else {
      assert s[..n] == s;
    }
    if NEWLINE !in line && line + [NEWLINE] <= s {
      assert s[|line|] == (line + [NEWLINE])[|line|];
      assert s[..|line|] == line;
      NewlineIsFirst(s, |line|);
    }
  }

  /** How many bytes of the buffer one turn takes: through its first newline, or all of them. */
  function Count(available: seq<byte>): (count: nat)
    requires available != []
    ensures 0 < count <= |available|
    ensures available[count - 1] == NEWLINE <==> NEWLINE in available
    ensures NEWLINE !in available[..count - 1]
    ensures NEWLINE !in available ==> count == |available|
  {
    var n := FirstNewline(available);
    assert available[..|available|] == available;
    if n < |available| then n + 1 else n
  }

  /** One turn of the loop, seen from the whole stream `s` of which `out` has been read. */
  lemma Turn(s: seq<byte>, out: seq<byte>, available: seq<byte>, max: nat)
    requires out + available <= s && available != [] && NEWLINE !in out
    ensures var read := out + available[..Count(available)];
            && read <= s
            && (|read| > max ==> FrameOf(s, max) == Err(TooLong))
            && (|read| <= max && NEWLINE in available ==> FrameOf(s, max) == Ok(read[..|read| - 1]))
            && (NEWLINE !in available ==> NEWLINE !in read)
  {
    var count := Count(available);
    var read := out + available[..count];
    assert read == s[..|read|] && read[..|read| - 1] == out + available[..count - 1];
    if NEWLINE in available {
      assert s[|read| - 1] == NEWLINE && s[..|read| - 1] == read[..|read| - 1];
      NewlineIsFirst(s, |read| - 1);
    } else {
      assert available[..count] == available;
      assert read[..|read|] == read;
      NoneBefore(read, |read|);
    }
  }

  /** `rest` is `s` without its first bytes, at most `max` of them. */
  predicate Remains(s: seq<byte>, rest: seq<byte>, max: nat) {
    |rest| <= |s| <= |rest| + max && rest == s[|s| - |rest|..]
  }

  /** The reader is somewhere in `s`, having consumed `out`. */
  ghost predicate Reading(s: seq<byte>, out: seq<byte>, rest: seq<byte>, max: nat) {
    out + rest == s && NEWLINE !in out && |out| <= max
  }

  lemma ReadingRemains(s: seq<byte>, out: seq<byte>, rest: seq<byte>, max: nat)
    requires out + rest == s && |out| <= max
    ensures Remains(s, rest, max) && rest == s[|out|..]
  {}

  lemma EndMeansUnexpected(s: seq<byte>, out: seq<byte>, max: nat)
    requires Reading(s, out, [], max)
    ensures FrameOf(s, max) == Err(UnexpectedEnd)
  {
    assert out == s;
    FrameIsFirstLine(s, max, []);
  }

  /**
    Reading a frame: the answer depends only on the stream, success leaves exactly what follows the
    newline, and a failure has consumed at most `max` bytes.
  */
  method ReadFrame(reader: BufferedStream, max: nat) returns (r: Result<seq<byte>, FrameError>)
    requires reader.Valid()
    modifies reader
    ensures reader.Valid()
    ensures r == FrameOf(old(reader.Contents()), max)
    ensures r.Ok? ==> reader.Contents() == old(reader.Contents())[|r.value| + 1..]
    ensures r.Err? ==> Remains(old(reader.Contents()), reader.Contents(), max)
  {
    ghost var s := reader.Contents();
    var out: seq<byte> := [];
    var ended: Option<Result<seq<byte>, FrameError>> := None;
    while ended.None?
      invariant reader.Valid() && (ended.None? ==> Reading(s, out, reader.Contents(), max))
      invariant ended.Some? ==> Answers(s, ended.value, reader.Contents(), max)
      decreases |reader.Contents()|, ended.None?
    {
      ended, out := TakeBuffer(reader, out, max, s);
    }
    r := ended.value;
  }

  ghost predicate Answers(s: seq<byte>, r: Result<seq<byte>, FrameError>, rest: seq<byte>, max: nat) {
    && r == FrameOf(s, max)
    && (r.Ok? ==> |r.value| < |s| && rest == s[|r.value| + 1..])
    && (r.Err? ==> Remains(s, rest, max))
  }

  /** The body of the reading loop. */
  method TakeBuffer(reader: BufferedStream, out: seq<byte>, max: nat, ghost s: seq<byte>)
    returns (ended: Option<Result<seq<byte>, FrameError>>, longer: seq<byte>)
    requires reader.Valid() && Reading(s, out, reader.Contents(), max)
    modifies reader
    ensures reader.Valid() && (ended.Some? ==> Answers(s, ended.value, reader.Contents(), max))
    ensures ended.None? ==> Reading(s, longer, reader.Contents(), max) && |reader.Contents()| < |old(reader.Contents())|
    ensures |reader.Contents()| <= |old(reader.Contents())|
  {
    longer := out;
    ghost var left := reader.Contents();
    var available := reader.FillBuf();
    if available == [] {
      EndAnswers(s, out, max);
      return Some(Err(UnexpectedEnd)), out;
    }
    TurnAnswers(s, out, left, available, max);
    var count := Count(available);
    if |out| + count > max { return Some(Err(TooLong)), out; }
    var done := available[count - 1] == NEWLINE;
    longer := out + available[..count];
    reader.Consume(count);
    ended := if done then Some(Ok(longer[..|longer| - 1])) else None;
  }

  lemma EndAnswers(s: seq<byte>, out: seq<byte>, max: nat)
    requires Reading(s, out, [], max)
    ensures Answers(s, Err(UnexpectedEnd), [], max)
  {
    EndMeansUnexpected(s, out, max);
    ReadingRemains(s, out, [], max);
  }

  /** What one turn establishes: the refusal before consuming, or the frame or the rest after it. */
  lemma TurnAnswers(s: seq<byte>, out: seq<byte>, left: seq<byte>, available: seq<byte>, max: nat)
    requires Reading(s, out, left, max) && available <= left && available != []
    ensures var count := Count(available);
            var read := out + available[..count];
            && (|out| + count > max ==> Answers(s, Err(TooLong), left, max))
            && (|out| + count <= max && available[count - 1] == NEWLINE ==>
                Answers(s, Ok(read[..|read| - 1]), left[count..], max))
            && (|out| + count <= max && available[count - 1] != NEWLINE ==> Reading(s, read, left[count..], max))
  {
    var count := Count(available);
    var read := out + available[..count];
    TurnOf(s, out, left, available, max);
    if |out| + count > max {
      ReadingRemains(s, out, left, max);
    } else {
      ReadingRemains(s, read, left[count..], max);
    }
  }

  lemma TurnOf(s: seq<byte>, out: seq<byte>, left: seq<byte>, available: seq<byte>, max: nat)
    requires Reading(s, out, left, max) && available <= left && available != []
    ensures var read := out + available[..Count(available)];
            && read + left[Count(available)..] == s
            && (|read| > max ==> FrameOf(s, max) == Err(TooLong))
            && (|read| <= max && NEWLINE in available ==> FrameOf(s, max) == Ok(read[..|read| - 1]))
            && (NEWLINE !in available ==> NEWLINE !in read)
  {
    assert out + available <= s;
    Turn(s, out, available, max);
    assert left == left[..Count(available)] + left[Count(available)..];
    assert left[..Count(available)] == available[..Count(available)];
  }

  // ---------- Writing frames ----------

  /** The bytes charged so far, and what reached the writer. */
  datatype Output = Output(charged: nat, written: seq<byte>)

  function Saturated(n: nat): nat { Least(n, USIZE_MAX) }

  /** One attempt: the serialised payload, and whether the deadline had passed. */
  datatype Attempt = Attempt(payload: seq<byte>, late: bool)

  predicate Accepts(o: Output, a: Attempt) {
    !a.late && |a.payload| + 1 <= MAX_FRAME_BYTES && o.charged + |a.payload| + 1 <= MAX_OUTPUT_BYTES
  }

  /** A refused frame is charged as well, unless the deadline refused it first. */
  function Emitted(o: Output, a: Attempt): Output {
    if a.late then o
    else Output(Saturated(o.charged + |a.payload| + 1),
                if Accepts(o, a) then o.written + a.payload + [NEWLINE] else o.written)
  }

  class InteractiveSigner {
    var charged: nat
    var written: seq<byte>

    constructor ()
      ensures charged == 0 && written == []
    {
      charged, written := 0, [];
    }

    method Emit(payload: seq<byte>, late: bool) returns (ok: bool)
      modifies this
      ensures Output(charged, written) == Emitted(old(Output(charged, written)), Attempt(payload, late))
      ensures ok == Accepts(old(Output(charged, written)), Attempt(payload, late))
    {
      if late { return false; }
      charged := Saturated(charged + |payload| + 1);
      if |payload| + 1 > MAX_FRAME_BYTES || charged > MAX_OUTPUT_BYTES { return false; }
      written := written + payload;
      written := written + [NEWLINE];
      ok := true;
    }
  }

  function OutputAfter(attempts: seq<Attempt>): Output {
    if attempts == [] then Output(0, []) else Emitted(OutputAfter(attempts[..|attempts| - 1]), attempts[|attempts| - 1])
  }

  /** The payloads that were accepted, in order. */
  function Sent(attempts: seq<Attempt>): seq<seq<byte>> {
    if attempts == [] then []
    else
      var earlier, a := attempts[..|attempts| - 1], attempts[|attempts| - 1];
      if Accepts(OutputAfter(earlier), a) then Sent(earlier) + [a.payload] else Sent(earlier)
  }

  function Lines(payloads: seq<seq<byte>>): seq<byte> {
    if payloads == [] then [] else payloads[0] + [NEWLINE] + Lines(payloads[1..])
  }

  lemma {:induction false} LinesAppend(payloads: seq<seq<byte>>, payload: seq<byte>)
    ensures Lines(payloads + [payload]) == Lines(payloads) + payload + [NEWLINE]
  {
    if payloads == [] {
      assert Lines([payload]) == payload + [NEWLINE] + Lines([payload][1..]);
    } else {
      LinesAppend(payloads[1..], payload);
      assert (payloads + [payload])[1..] == payloads[1..] + [payload];
    }
  }

  /**
    Over any run of attempts: exactly the accepted lines are written, within the output limit, and
    the charge covers them. Beyond the limit the signer refuses for good.
  */
  lemma {:induction false} OutputIsBounded(attempts: seq<Attempt>)
    ensures OutputAfter(attempts).written == Lines(Sent(attempts))
    ensures |OutputAfter(attempts).written| <= Least(OutputAfter(attempts).charged, MAX_OUTPUT_BYTES)
    ensures forall p <- Sent(attempts) :: |p| + 1 <= MAX_FRAME_BYTES
  {
    if attempts != [] {
      var earlier, a := attempts[..|attempts| - 1], attempts[|attempts| - 1];
      OutputIsBounded(earlier);
      if Accepts(OutputAfter(earlier), a) { LinesAppend(Sent(earlier), a.payload); }
    }
  }

  /** The lines of all attempts made before the deadline, refused ones included. */
  function Charges(attempts: seq<Attempt>): nat {
    if attempts == [] then 0
    else
      var a := attempts[|attempts| - 1];
      Charges(attempts[..|attempts| - 1]) + if a.late then 0 else |a.payload| + 1
  }

  lemma {:induction false} ChargedIsSum(attempts: seq<Attempt>)
    ensures OutputAfter(attempts).charged == Least(Charges(attempts), 0xFFFF_FFFF_FFFF_FFFF)
  {
    if attempts != [] { ChargedIsSum(attempts[..|attempts| - 1]); }
  }

  /** Which attempts are accepted, over any run: each in time, of at most 256 KiB, and within 16 MiB in all. */
  lemma AcceptedExactly(earlier: seq<Attempt>, a: Attempt)
    ensures Accepts(OutputAfter(earlier), a) <==>
            !a.late && |a.payload| < 262144 && Charges(earlier + [a]) <= 16777216
  {
    ChargedIsSum(earlier);
    assert (earlier + [a])[..|earlier|] == earlier;
  }

  lemma {:induction false} OverBudgetIsFinal(attempts: seq<Attempt>, more: seq<Attempt>)
    requires OutputAfter(attempts).charged > MAX_OUTPUT_BYTES
    ensures OutputAfter(attempts + more).charged > MAX_OUTPUT_BYTES
    ensures Sent(attempts + more) == Sent(attempts)
  {
    if more == [] {
      assert attempts + more == attempts;
    } else {
      OverBudgetIsFinal(attempts, more[..|more| - 1]);
      assert (attempts + more)[..|attempts + more| - 1] == attempts + more[..|more| - 1];
    }
  }

  // ---------- Round trip ----------

  lemma FirstLineIsRead(payloads: seq<seq<byte>>, tail: seq<byte>, max: nat)
    requires payloads != [] && NEWLINE !in payloads[0] && |payloads[0]| + 1 <= max
    ensures FrameOf(Lines(payloads) + tail, max) == Ok(payloads[0])
    ensures (Lines(payloads) + tail)[|payloads[0]| + 1..] == Lines(payloads[1..]) + tail
  {
    var s := Lines(payloads) + tail;
    assert s == payloads[0] + [NEWLINE] + (Lines(payloads[1..]) + tail);
    FrameIsFirstLine(s, max, payloads[0]);
  }

  /** Repeated reading returns exactly the payloads whose lines the stream holds, for every chunking. */
  method ReadFrames(reader: BufferedStream, ghost payloads: seq<seq<byte>>, ghost tail: seq<byte>, count: nat, max: nat)
    returns (frames: seq<seq<byte>>)
    requires reader.Valid() && reader.Contents() == Lines(payloads) + tail && count == |payloads|
    requires forall p <- payloads :: NEWLINE !in p && |p| + 1 <= max
    modifies reader
    ensures frames == payloads
    ensures reader.Valid() && reader.Contents() == tail
  {
    frames := [];
    while |frames| < count
      invariant reader.Valid() && |frames| <= count && frames == payloads[..|frames|]
      invariant reader.Contents() == Lines(payloads[|frames|..]) + tail
    {
      ghost var left := payloads[|frames|..];
      assert left[0] in payloads;
      FirstLineIsRead(left, tail, max);
      var frame := ReadFrame(reader, max);
      assert left[1..] == payloads[|frames| + 1..];
      frames := frames + [frame.value];
    }
  }

  /** Writer and reader together: what `Emit` accepted is what the other end reads, cut anyhow. */
  method Exchange(attempts: seq<Attempt>, chunks: seq<seq<byte>>) returns (frames: seq<seq<byte>>)
    requires forall a <- attempts :: NEWLINE !in a.payload
    requires [] !in chunks && Flat(chunks) == OutputAfter(attempts).written
    ensures frames == Sent(attempts)
  {
    var reader := new BufferedStream(chunks);
    OutputIsBounded(attempts);
    SentAreAttempts(attempts);
    assert Lines(Sent(attempts)) + [] == Lines(Sent(attempts));
    frames := ReadFrames(reader, Sent(attempts), [], |Sent(attempts)|, MAX_FRAME_BYTES);
  }

  lemma {:induction false} SentAreAttempts(attempts: seq<Attempt>)
    requires forall a <- attempts :: NEWLINE !in a.payload
    ensures forall p <- Sent(attempts) :: NEWLINE !in p
  {
    if attempts != [] {
      SentAreAttempts(attempts[..|attempts| - 1]);
      assert attempts[|attempts| - 1] in attempts;
    }
  }
}
