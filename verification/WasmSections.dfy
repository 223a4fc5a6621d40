/**
  The section walk: three hand-written loops over a module's section headers (WebAssembly Core
  Specification 1.0, sections 5.5.2 and 5.5.3) and the one splitting they agree on.
*/
module WasmSections {
  import opened Prelude
  import opened Leb128

  /** How every module begins: the magic number, then the version. */
  const PREAMBLE: seq<byte> := [0x00, 0x61, 0x73, 0x6D, 0x01, 0x00, 0x00, 0x00]

  lemma PreambleIsAsm()
    ensures PREAMBLE == [0] + ['a' as int, 's' as int, 'm' as int] + [1, 0, 0, 0]
  {}

  datatype Section = Section(id: byte, body: seq<byte>)

  /** The first section of `bytes` and what follows it, with lengths read as numbers of `bits` bits. */
  function NextSection(bits: nat, bytes: seq<byte>): (r: Option<(Section, seq<byte>)>)
    ensures r.Some? ==> |r.value.1| < |bytes|
  {
    if bytes == [] then None
    else
      match Grammar(bits, bytes[1..])
      case None => None
      case Some(size) =>
        ReadsSuffix(bits, bytes[1..]);
        if size.value > |size.rest| then None
        else Some((Section(bytes[0], size.rest[..size.value]), size.rest[size.value..]))
  }

  lemma ReadsSuffix(bits: nat, bytes: seq<byte>)
    requires Grammar(bits, bytes).Some?
    ensures |Grammar(bits, bytes).value.rest| < |bytes|
  {
    var n := ReadsPrefix(bits, bytes);
  }

  /** All of the bytes, as sections, or nothing. */
  function Walk(bits: nat, bytes: seq<byte>): Option<seq<Section>>
    decreases |bytes|
  {
    if bytes == [] then Some([])
    else
      match NextSection(bits, bytes)
      case None => None
      case Some((first, rest)) =>
        match Walk(bits, rest)
        case None => None
        case Some(others) => Some([first] + others)
  }

  function Module(bits: nat, wasm: seq<byte>): Option<seq<Section>> {
    if |wasm| >= 8 && wasm[..8] == PREAMBLE then Walk(bits, wasm[8..]) else None
  }

  // ---------- The Python walks ----------

  /** The loop of `function_exports`, keeping every section instead of decoding the exports. */
  method SplitForExports(wasm: seq<byte>) returns (r: Result<seq<Section>, WasmError>)
    ensures r == match Module(32, wasm) { case Some(sections) => Ok(sections) case None => Err(Malformed) }
  {
    var reader := new Reader(wasm);
    var magic := reader.Take(8);
    if magic.Err? || magic.value != PREAMBLE {
      return Err(Malformed);
    }
    var sections := [];
    FollowEnds([], Walk(32, wasm[8..]));
    while reader.pos != |wasm|
      invariant fresh(reader) && reader.Valid() && reader.data == wasm
      invariant |wasm| >= 8 && wasm[..8] == PREAMBLE
      invariant Walk(32, wasm[8..]) == Follow(sections, Walk(32, wasm[reader.pos..]))
      decreases |wasm| - reader.pos
    {
      ghost var here := wasm[reader.pos..];
      var id := reader.Byte();
      assert here[1..] == wasm[reader.pos..];
      var size := reader.U32();
      if size.Err? {
        return Err(Malformed);
      }
      ghost var rest := wasm[reader.pos..];
      ReadsSuffix(32, here[1..]);
      var body := reader.Take(size.value);
      if body.Err? {
        return Err(Malformed);
      }
      assert rest[..size.value] == body.value && rest[size.value..] == wasm[reader.pos..];
      assert NextSection(32, here) == Some((Section(id.value, body.value), wasm[reader.pos..]));
      FollowStep(sections, Section(id.value, body.value), Walk(32, wasm[reader.pos..]));
      sections := sections + [Section(id.value, body.value)];
    }
    assert wasm[reader.pos..] == [];
    FollowEnds(sections, None);
    r := Ok(sections);
  }

  /**
    The loop of `function_imports`, which reads lengths without the 32-bit check and still splits
    every module of less than 4 GiB exactly as `SplitForExports` does.
  */
  method SplitForImports(wasm: seq<byte>) returns (r: Result<seq<Section>, WasmError>)
    ensures r == match Module(35, wasm) { case Some(sections) => Ok(sections) case None => Err(Malformed) }
    ensures |wasm| < 8 + LOOSE_SIZE ==>
              r == match Module(32, wasm) { case Some(sections) => Ok(sections) case None => Err(Malformed) }
  {
    if |wasm| < 8 + LOOSE_SIZE { ModulesAgree(wasm); }
    if |wasm| < 8 || wasm[..8] != PREAMBLE {
      return Err(Malformed);
    }
    var pos, sections := 8, [];
    FollowEnds([], Walk(35, wasm[8..]));
    while pos < |wasm|
      invariant 8 <= pos <= |wasm|
      invariant Walk(35, wasm[8..]) == Follow(sections, Walk(35, wasm[pos..]))
      decreases |wasm| - pos
    {
      ghost var here := wasm[pos..];
      var id := wasm[pos];
      assert here[1..] == wasm[pos + 1..];
      var size := LebU32(wasm, pos + 1);
      if size.Err? {
        return Err(Malformed);
      }
      ghost var rest := wasm[size.value.1..];
      ReadsSuffix(35, here[1..]);
      var end := size.value.1 + size.value.0;
      if end > |wasm| {
        return Err(Malformed);
      }
      var body := wasm[size.value.1..end];
      assert rest[..size.value.0] == body && rest[size.value.0..] == wasm[end..];
      assert NextSection(35, here) == Some((Section(id, body), wasm[end..]));
      FollowStep(sections, Section(id, body), Walk(35, wasm[end..]));
      sections := sections + [Section(id, body)];
      pos := end;
    }
    assert wasm[pos..] == [];
    FollowEnds(sections, None);
    r := Ok(sections);
  }

  /** Sections already split, in front of what the rest splits into. */
  function Follow(done: seq<Section>, rest: Option<seq<Section>>): Option<seq<Section>> {
    match rest
    case None => None
    case Some(more) => Some(done + more)
  }

  lemma FollowEnds(done: seq<Section>, rest: Option<seq<Section>>)
    ensures Follow([], rest) == rest && Follow(done, Some([])) == Some(done)
  {
    if rest.Some? { assert [] + rest.value == rest.value; }
    assert done + [] == done;
  }

  lemma FollowStep(done: seq<Section>, next: Section, rest: Option<seq<Section>>)
    ensures Follow(done, Follow([next], rest)) == Follow(done + [next], rest)
  {
    if rest.Some? { assert done + ([next] + rest.value) == done + [next] + rest.value; }
  }

  /**
    The smallest byte string the two walks treat differently: a section of 2^32 bytes has an id, a
    length of five bytes and its body.
  */
  const LOOSE_SIZE := U32_LIMIT + 6

  /** On every shorter byte string the strict and the loose walk agree, refusals included. */
  lemma {:induction false} WalksAgree(bytes: seq<byte>)
    requires |bytes| < LOOSE_SIZE
    ensures Walk(35, bytes) == Walk(32, bytes)
    decreases |bytes|
  {
    if bytes != [] {
      LooseReaderExceeds(bytes[1..]);
      assert NextSection(35, bytes) == NextSection(32, bytes);
      if NextSection(32, bytes).Some? { WalksAgree(NextSection(32, bytes).value.1); }
    }
  }

  /** So all three readers split a module of less than 4 GiB alike, or refuse it alike. */
  lemma ModulesAgree(wasm: seq<byte>)
    requires |wasm| < 8 + LOOSE_SIZE
    ensures Module(35, wasm) == Module(32, wasm)
  {
    if |wasm| >= 8 { WalksAgree(wasm[8..]); }
  }

  /** What the strict walk splits, the loose walk splits the same way, whatever the size. */
  lemma {:induction false} StrictIsLoose(bytes: seq<byte>)
    requires Walk(32, bytes).Some?
    ensures Walk(35, bytes) == Walk(32, bytes)
    decreases |bytes|
  {
    if bytes != [] {
      LooseReaderExceeds(bytes[1..]);
      StrictIsLoose(NextSection(32, bytes).value.1);
    }
  }

  /** 2^32 in five bytes, the fifth of which uses a fifth bit. */
  const LOOSE_LENGTH: seq<byte> := [0x80, 0x80, 0x80, 0x80, 0x10]

  lemma LooseLengthReads(tail: seq<byte>)
    ensures Grammar(35, LOOSE_LENGTH + tail) == Some(Read(U32_LIMIT, tail))
    ensures Grammar(32, LOOSE_LENGTH + tail) == None
  {
    var b0 := LOOSE_LENGTH + tail;
    var b1, b2, b3, b4 := b0[1..], b0[2..], b0[3..], b0[4..];
    assert b1[1..] == b2 && b2[1..] == b3 && b3[1..] == b4 && b4[1..] == tail;
    assert b0[0] == b1[0] == b2[0] == b3[0] == 0x80 && b4[0] == 0x10;
    assert Pow2(4) == 16 && Pow2(7) == 128;
    assert Grammar(7, b4) == Some(Read(0x10, tail)) && Grammar(4, b4) == None;
    assert Grammar(14, b3) == Some(Read(0x800, tail)) && Grammar(11, b3) == None;
    assert Grammar(21, b2) == Some(Read(0x4_0000, tail)) && Grammar(18, b2) == None;
    assert Grammar(28, b1) == Some(Read(0x200_0000, tail)) && Grammar(25, b1) == None;
  }

  /** The bound is sharp: a body of 2^32 bytes is a section to the loose walk only. */
  lemma LooseWalkAcceptsMore(id: byte, body: seq<byte>)
    requires |body| == U32_LIMIT
    ensures |[id] + LOOSE_LENGTH + body| == LOOSE_SIZE
    ensures Walk(35, [id] + LOOSE_LENGTH + body) == Some([Section(id, body)])
    ensures Walk(32, [id] + LOOSE_LENGTH + body) == None
  {
    var bytes := [id] + LOOSE_LENGTH + body;
    assert bytes[1..] == LOOSE_LENGTH + body;
    LooseLengthReads(body);
    assert body[..U32_LIMIT] == body && body[U32_LIMIT..] == [];
    assert NextSection(35, bytes) == Some((Section(id, body), []));
    assert [Section(id, body)] + [] == [Section(id, body)];
  }

  // ---------- Printing sections ----------

  function PrintSection(s: Section): seq<byte> { [s.id] + Printed(|s.body|) + s.body }

  function PrintSections(sections: seq<Section>): seq<byte> {
    if sections == [] then [] else PrintSection(sections[0]) + PrintSections(sections[1..])
  }

  lemma PrintedSectionWalks(s: Section, others: seq<byte>)
    requires |s.body| < U32_LIMIT
    ensures NextSection(32, PrintSection(s) + others) == Some((s, others))
  {
    var bytes := PrintSection(s) + others;
    var rest := s.body + others;
    Powers();
    PrintedReads(32, |s.body|, rest);
    assert bytes[1..] == Printed(|s.body|) + rest;
    assert rest[..|s.body|] == s.body && rest[|s.body|..] == others;
  }

  lemma {:induction false} PrintedWalks(sections: seq<Section>)
    requires forall s :: s in sections ==> |s.body| < U32_LIMIT
    ensures Walk(32, PrintSections(sections)) == Some(sections)
  {
    if sections != [] {
      PrintedSectionWalks(sections[0], PrintSections(sections[1..]));
      PrintedWalks(sections[1..]);
      assert [sections[0]] + sections[1..] == sections;
    }
  }

  /** Sections with the bytes of their lengths between id and body, one after the other. */
  function Glued(sections: seq<Section>, lengths: seq<seq<byte>>): seq<byte>
    requires |lengths| == |sections|
  {
    if sections == [] then []
    else [sections[0].id] + lengths[0] + sections[0].body + Glued(sections[1..], lengths[1..])
  }

  /**
    A walk accounts for every byte: an accepted module is its sections' ids, lengths and bodies and
    nothing else, each length being an encoding of its body's size.
  */
  lemma {:induction false} WalkConsumesAll(bits: nat, bytes: seq<byte>) returns (lengths: seq<seq<byte>>)
    requires Walk(bits, bytes).Some?
    ensures |lengths| == |Walk(bits, bytes).value|
    ensures bytes == Glued(Walk(bits, bytes).value, lengths)
    ensures forall i :: 0 <= i < |lengths| ==>
        Grammar(bits, lengths[i]) == Some(Read(|Walk(bits, bytes).value[i].body|, []))
    decreases |bytes|
  {
    if bytes == [] {
      lengths := [];
    } else {
      ReadsSuffix(bits, bytes[1..]);
      var (first, rest) := NextSection(bits, bytes).value;
      var length := LengthBytes(bits, bytes);
      var others := WalkConsumesAll(bits, rest);
      lengths := [length] + others;
      assert lengths[1..] == others;
      assert ([first] + Walk(bits, rest).value)[1..] == Walk(bits, rest).value;
    }
  }

  /** The bytes of the first section's length. */
  lemma LengthBytes(bits: nat, bytes: seq<byte>) returns (length: seq<byte>)
    requires NextSection(bits, bytes).Some?
    ensures var (first, rest) := NextSection(bits, bytes).value;
            bytes == [first.id] + length + first.body + rest && Grammar(bits, length) == Some(Read(|first.body|, []))
  {
    var tail := bytes[1..];
    var n := ReadsPrefix(bits, tail);
    length := tail[..n];
    var size := Grammar(bits, tail).value;
    assert tail == length + size.rest;
    assert size.rest == size.rest[..size.value] + size.rest[size.value..];
    PrefixReads(bits, tail, n);
  }
}
