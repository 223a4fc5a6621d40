/**
  SEP-46 contract metadata: the reader that collects `contractmetav0` entries from every custom
  section (WebAssembly Core Specification 1.0, section 5.5.2; RFC 4506, sections 4.11 and 4.15),
  the hand-written printer, and what a module's metadata is independently of both.
*/
module WasmMeta {
  import opened Prelude
  import opened Leb128
  import opened WasmSections

  /** UTF-8, uninterpreted: `decode` is lossy on bytes that `encode` never produces. */
  datatype Text = Text(encode: Name -> seq<byte>, decode: seq<byte> -> Name)

  datatype Name = Name(chars: string)

  datatype Entry = Entry(key: Name, value: Name)

  const MAX_ENTRIES := 256

  /** The bytes of `contractmetav0`. */
  const META_NAME: seq<byte> := [99, 111, 110, 116, 114, 97, 99, 116, 109, 101, 116, 97, 118, 48]

  lemma MetaNameIsAscii()
    ensures |META_NAME| == |"contractmetav0"|
    ensures forall i :: 0 <= i < |META_NAME| ==> META_NAME[i] == "contractmetav0"[i] as int
  {}

  // ---------- XDR ----------

  function BigEndian(bytes: seq<byte>): Option<Read> {
    if |bytes| < 4 then None
    else
      var high := 0x100_0000 * (bytes[0] as int) + 0x1_0000 * (bytes[1] as int);
      Some(Read(high + 0x100 * (bytes[2] as int) + bytes[3], bytes[4..]))
  }

  function Padding(length: nat): nat { (4 - length % 4) % 4 }

  function Zeros(n: nat): seq<byte> { seq(n, _ => 0) }

  /** A length, that many bytes, and zero padding to a multiple of four. */
  function XdrString(bytes: seq<byte>): (r: Option<(seq<byte>, seq<byte>)>)
    ensures r.Some? ==> |r.value.1| + 4 <= |bytes|
  {
    match BigEndian(bytes)
    case None => None
    case Some(length) =>
      var end := length.value + Padding(length.value);
      if end > |length.rest| then None
      else if length.rest[length.value..end] != Zeros(Padding(length.value)) then None
      else Some((length.rest[..length.value], length.rest[end..]))
  }

  /** One `SCMetaEntry`: discriminant 0 and two strings. */
  function XdrEntry(text: Text, bytes: seq<byte>): (r: Option<(Entry, seq<byte>)>)
    ensures r.Some? ==> |r.value.1| < |bytes|
  {
    match BigEndian(bytes)
    case None => None
    case Some(kind) =>
      if kind.value != 0 then None
      else
        match XdrString(kind.rest)
        case None => None
        case Some((key, afterKey)) =>
          match XdrString(afterKey)
          case None => None
          case Some((value, rest)) => Some((Entry(text.decode(key), text.decode(value)), rest))
  }

  function XdrEntries(text: Text, bytes: seq<byte>): Option<seq<Entry>>
    decreases |bytes|
  {
    if bytes == [] then Some([])
    else
      match XdrEntry(text, bytes)
      case None => None
      case Some((first, rest)) => Prepend([first], XdrEntries(text, rest))
  }

  function Prepend(done: seq<Entry>, rest: Option<seq<Entry>>): Option<seq<Entry>> {
    match rest
    case None => None
    case Some(more) => Some(done + more)
  }

  // ---------- What a module's metadata is ----------

  /** The entries of one section; a section that is not contract metadata has none. */
  function SectionEntries(text: Text, s: Section): Option<seq<Entry>> {
    if s.id != 0 then Some([])
    else
      match Grammar(32, s.body)
      case None => None
      case Some(name) =>
        if name.value > |name.rest| then None
        else if name.rest[..name.value] != META_NAME then Some([])
        else XdrEntries(text, name.rest[name.value..])
  }

  function AllEntries(text: Text, sections: seq<Section>): Option<seq<Entry>> {
    if sections == [] then Some([])
    else
      match SectionEntries(text, sections[0])
      case None => None
      case Some(entries) => Prepend(entries, AllEntries(text, sections[1..]))
  }

  function BytesEntries(text: Text, bytes: seq<byte>): Option<seq<Entry>> {
    match Walk(32, bytes)
    case None => None
    case Some(sections) => AllEntries(text, sections)
  }

  ghost predicate DistinctKeys(entries: seq<Entry>) {
    forall i, j :: 0 <= i < j < |entries| ==> entries[i].key != entries[j].key
  }

  function MapOf(entries: seq<Entry>): map<Name, Name> {
    if entries == [] then map[]
    else MapOf(entries[..|entries| - 1])[entries[|entries| - 1].key := entries[|entries| - 1].value]
  }

  ghost predicate Acceptable(entries: seq<Entry>) {
    |entries| <= 256 && DistinctKeys(entries)
  }

  /** The metadata of a module: all entries of all its sections, if they can be read and agree. */
  ghost function MetaOf(text: Text, wasm: seq<byte>): Option<map<Name, Name>> {
    if |wasm| < 8 || wasm[..8] != PREAMBLE then None
    else
      match BytesEntries(text, wasm[8..])
      case None => None
      case Some(entries) => if Acceptable(entries) then Some(MapOf(entries)) else None
  }

  // ---------- The reader ----------

  function KeySet(entries: seq<Entry>): set<Name> { set e | e in entries :: e.key }

  /** What has been collected, which never contains a key twice. */
  ghost predicate Collected(meta: map<Name, Name>, entries: seq<Entry>) {
    && Acceptable(entries)
    && meta == MapOf(entries)
    && |meta| == |entries|
    && meta.Keys == KeySet(entries)
  }

  lemma KeySetGrows(entries: seq<Entry>, e: Entry)
    ensures KeySet(entries + [e]) == KeySet(entries) + {e.key}
  {
    var more := entries + [e];
    forall k | k in KeySet(entries) + {e.key} ensures k in KeySet(more) {
      if k == e.key {
        assert e in more;
      } else {
        var f :| f in entries && f.key == k;
        assert f in more;
      }
    }
  }

  lemma MapGrows(entries: seq<Entry>, e: Entry)
    ensures MapOf(entries + [e]) == MapOf(entries)[e.key := e.value]
  {
    assert (entries + [e])[..|entries|] == entries;
  }

  lemma NewKey(meta: map<Name, Name>, k: Name, v: Name)
    requires k !in meta
    ensures meta[k := v].Keys == meta.Keys + {k} && |meta[k := v]| == |meta| + 1
  {
    assert meta[k := v].Keys == meta.Keys + {k};
  }

  lemma CollectOne(meta: map<Name, Name>, entries: seq<Entry>, e: Entry)
    requires Collected(meta, entries) && |meta| < MAX_ENTRIES && e.key !in meta
    ensures Collected(meta[e.key := e.value], entries + [e])
  {
    DistinctGrows(entries, e);
    MapGrows(entries, e);
    KeySetGrows(entries, e);
    NewKey(meta, e.key, e.value);
  }

  lemma DistinctGrows(entries: seq<Entry>, e: Entry)
    requires DistinctKeys(entries) && e.key !in KeySet(entries)
    ensures DistinctKeys(entries + [e])
  {
    forall i | 0 <= i < |entries| ensures entries[i].key != e.key {
      assert entries[i] in entries;
    }
  }

  lemma RejectOne(meta: map<Name, Name>, entries: seq<Entry>, e: Entry, later: seq<Entry>)
    requires Collected(meta, entries)
    requires |meta| >= MAX_ENTRIES || e.key in meta
    ensures !Acceptable(entries + [e] + later)
  {
    var all := entries + [e] + later;
    if |meta| < MAX_ENTRIES {
      var f :| f in entries && f.key == e.key;
      var i :| 0 <= i < |entries| && entries[i] == f;
      assert all[i].key == all[|entries|].key;
    }
  }

  lemma PrependTwice(a: seq<Entry>, b: seq<Entry>, rest: Option<seq<Entry>>)
    ensures Prepend(a, Prepend(b, rest)) == Prepend(a + b, rest)
    ensures Prepend([], rest) == rest
  {
    if rest.Some? {
      assert a + (b + rest.value) == a + b + rest.value;
      assert [] + rest.value == rest.value;
    }
  }

  /** Entries that no module can be accepted with, whatever follows them. */
  ghost predicate Hopeless(before: seq<Entry>, entries: Option<seq<Entry>>) {
    entries.Some? ==> forall later :: !Acceptable(before + entries.value + later)
  }

  /** An entry that cannot be collected spoils everything it is part of. */
  lemma RejectedFollows(meta: map<Name, Name>, before: seq<Entry>, done: seq<Entry>, e: Entry, more: seq<Entry>)
    requires Collected(meta, before + done) && (|meta| >= MAX_ENTRIES || e.key in meta)
    ensures Hopeless(before, Some(done + ([e] + more)))
  {
    forall later ensures !Acceptable(before + (done + ([e] + more)) + later) {
      RejectOne(meta, before + done, e, more + later);
      assert before + (done + ([e] + more)) + later == before + done + [e] + (more + later);
    }
  }

  lemma HopelessApplies(before: seq<Entry>, entries: seq<Entry>, later: seq<Entry>)
    requires Hopeless(before, Some(entries))
    ensures !Acceptable(before + (entries + later))
  {
    assert before + (entries + later) == before + entries + later;
  }

  lemma RejectedPayload(text: Text, meta: map<Name, Name>, before: seq<Entry>, done: seq<Entry>, left: seq<byte>)
    requires Collected(meta, before + done) && left != []
    requires |meta| >= MAX_ENTRIES || XdrEntry(text, left).None? || XdrEntry(text, left).value.0.key in meta
    ensures Hopeless(before, Prepend(done, XdrEntries(text, left)))
  {
    if XdrEntries(text, left).Some? {
      var (e, rest) := XdrEntry(text, left).value;
      RejectedFollows(meta, before, done, e, XdrEntries(text, rest).value);
    }
  }

  /** Where the inner loop stands: `done` is in the map, `left` is still to be decoded. */
  ghost predicate Collecting(
    text: Text, payload: seq<byte>, before: seq<Entry>, meta: map<Name, Name>, done: seq<Entry>, left: seq<byte>)
  {
    XdrEntries(text, payload) == Prepend(done, XdrEntries(text, left)) && Collected(meta, before + done)
  }

  lemma CollectStep(
    text: Text, payload: seq<byte>, before: seq<Entry>, meta: map<Name, Name>, done: seq<Entry>, left: seq<byte>)
    requires Collecting(text, payload, before, meta, done, left) && left != []
    requires |meta| < MAX_ENTRIES && XdrEntry(text, left).Some? && XdrEntry(text, left).value.0.key !in meta
    ensures var (e, rest) := XdrEntry(text, left).value;
            Collecting(text, payload, before, meta[e.key := e.value], done + [e], rest)
  {
    var (e, rest) := XdrEntry(text, left).value;
    assert Collected(meta[e.key := e.value], before + (done + [e])) by {
      CollectOne(meta, before + done, e);
      assert before + done + [e] == before + (done + [e]);
    }
    PrependTwice(done, [e], XdrEntries(text, rest));
  }

  lemma CollectEnds(
    text: Text, payload: seq<byte>, before: seq<Entry>, meta: map<Name, Name>, done: seq<Entry>)
    requires Collecting(text, payload, before, meta, done, [])
    ensures XdrEntries(text, payload) == Some(done)
  {
    assert done + [] == done;
  }

  lemma CollectStarts(text: Text, payload: seq<byte>, before: seq<Entry>, meta: map<Name, Name>)
    requires Collected(meta, before)
    ensures Collecting(text, payload, before, meta, [], payload)
  {
    PrependTwice([], [], XdrEntries(text, payload));
    assert before + [] == before;
  }

  /** The inner loop: the entries of one payload, into the map. */
  method CollectPayload(text: Text, payload: seq<byte>, meta0: map<Name, Name>, ghost before: seq<Entry>)
    returns (r: Option<map<Name, Name>>)
    requires Collected(meta0, before)
    ensures match r
            case Some(meta) => XdrEntries(text, payload).Some?
                && Collected(meta, before + XdrEntries(text, payload).value)
            case None => Hopeless(before, XdrEntries(text, payload))
  {
    var meta, left := meta0, payload;
    ghost var done: seq<Entry> := [];
    CollectStarts(text, payload, before, meta);
    while left != []
      invariant Collecting(text, payload, before, meta, done, left)
      decreases |left|
    {
      var next := XdrEntry(text, left);
      if |meta| >= MAX_ENTRIES || next.None? || next.value.0.key in meta {
        RejectedPayload(text, meta, before, done, left);
        return None;
      }
      CollectStep(text, payload, before, meta, done, left);
      meta := meta[next.value.0.key := next.value.0.value];
      done := done + [next.value.0];
      left := next.value.1;
    }
    CollectEnds(text, payload, before, meta, done);
    r := Some(meta);
  }

  /** Where the outer loop stands: `entries` are in the map, `rest` is still to be walked. */
  ghost predicate Walking(
    text: Text, total: Option<seq<Entry>>, meta: map<Name, Name>, entries: seq<Entry>, rest: seq<byte>)
  {
    total == Prepend(entries, BytesEntries(text, rest)) && Collected(meta, entries)
  }

  lemma WalkStarts(text: Text, bytes: seq<byte>)
    ensures Walking(text, BytesEntries(text, bytes), map[], [], bytes)
  {
    PrependTwice([], [], BytesEntries(text, bytes));
  }

  lemma WalkStep(
    text: Text, total: Option<seq<Entry>>, meta: map<Name, Name>, entries: seq<Entry>, rest: seq<byte>,
    section: Section, tail: seq<byte>, after: map<Name, Name>, more: seq<Entry>)
    requires Walking(text, total, meta, entries, rest) && rest != []
    requires NextSection(32, rest) == Some((section, tail))
    requires SectionEntries(text, section) == Some(more) && Collected(after, entries + more)
    ensures Walking(text, total, after, entries + more, tail)
  {
    NextEntries(text, rest, section, tail);
    PrependTwice(entries, more, BytesEntries(text, tail));
  }

  lemma WalkFails(
    text: Text, total: Option<seq<Entry>>, meta: map<Name, Name>, entries: seq<Entry>, rest: seq<byte>,
    section: Section, tail: seq<byte>)
    requires Walking(text, total, meta, entries, rest) && rest != []
    requires NextSection(32, rest) == Some((section, tail))
    requires Hopeless(entries, SectionEntries(text, section))
    ensures total.Some? ==> !Acceptable(total.value)
  {
    NextEntries(text, rest, section, tail);
    if total.Some? {
      HopelessApplies(entries, SectionEntries(text, section).value, BytesEntries(text, tail).value);
    }
  }

  /** One section's entries, into the map. */
  method CollectSection(text: Text, section: Section, meta: map<Name, Name>, ghost entries: seq<Entry>)
    returns (r: Option<map<Name, Name>>)
    requires Collected(meta, entries)
    ensures match r
            case Some(after) =>
              SectionEntries(text, section).Some? && Collected(after, entries + SectionEntries(text, section).value)
            case None => Hopeless(entries, SectionEntries(text, section))
  {
    assert entries + [] == entries;
    if section.id != 0 {
      return Some(meta);
    }
    var name := ReadUleb128(section.body);
    if name.None? || name.value.value > |name.value.rest| {
      return None;
    }
    if name.value.rest[..name.value.value] != META_NAME {
      return Some(meta);
    }
    r := CollectPayload(text, name.value.rest[name.value.value..], meta, entries);
  }

  /** `wasm_contract_meta`. */
  method WasmContractMeta(text: Text, wasm: seq<byte>) returns (r: Option<map<Name, Name>>)
    ensures r == MetaOf(text, wasm)
  {
    if |wasm| < 8 || wasm[..8] != PREAMBLE {
      return None;
    }
    var rest := wasm[8..];
    var meta := map[];
    ghost var entries: seq<Entry> := [];
    ghost var total := BytesEntries(text, rest);
    WalkStarts(text, rest);
    while rest != []
      invariant Walking(text, total, meta, entries, rest)
      decreases |rest|
    {
      var size := ReadUleb128(rest[1..]);
      if size.None? || size.value.value > |size.value.rest| {
        assert NextSection(32, rest) == None;
        return None;
      }
      ReadsSuffix(32, rest[1..]);
      var section := Section(rest[0], size.value.rest[..size.value.value]);
      var tail := size.value.rest[size.value.value..];
      var collected := CollectSection(text, section, meta, entries);
      if collected.None? {
        WalkFails(text, total, meta, entries, rest, section, tail);
        return None;
      }
      ghost var more := SectionEntries(text, section).value;
      WalkStep(text, total, meta, entries, rest, section, tail, collected.value, more);
      meta, entries, rest := collected.value, entries + more, tail;
    }
    assert entries + [] == entries;
    r := Some(meta);
  }

  lemma NextEntries(text: Text, bytes: seq<byte>, section: Section, tail: seq<byte>)
    requires bytes != [] && NextSection(32, bytes) == Some((section, tail))
    ensures BytesEntries(text, bytes) == if SectionEntries(text, section).None? then None
            else Prepend(SectionEntries(text, section).value, BytesEntries(text, tail))
  {
    if Walk(32, tail).Some? {
      var others := Walk(32, tail).value;
      assert Walk(32, bytes) == Some([section] + others);
      assert ([section] + others)[1..] == others;
    }
  }
}
