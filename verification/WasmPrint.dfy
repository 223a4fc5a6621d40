/**
  The hand-written module printer against the reader: any well-formed arrangement of sections is
  read back as exactly the entries it was printed from, and only their multiset matters.
*/
module WasmPrint {
  import opened Prelude
  import opened Leb128
  import opened WasmSections
  import opened WasmMeta

  /** A section before printing: contract metadata, another custom section, or any other section. */
  datatype Item =
    | MetaItem(entries: seq<Entry>)
    | CustomItem(name: seq<byte>, payload: seq<byte>)
    | OtherItem(id: byte, body: seq<byte>)

  // ---------- XDR ----------

  function Be(n: nat): seq<byte>
    requires n < U32_LIMIT
  {
    [n / 0x100_0000, n / 0x1_0000 % 0x100, n / 0x100 % 0x100, n % 0x100]
  }

  lemma BeReads(n: nat, tail: seq<byte>)
    requires n < U32_LIMIT
    ensures BigEndian(Be(n) + tail) == Some(Read(n, tail))
  {
    var bytes := Be(n) + tail;
    assert bytes[4..] == tail;
    var a, b := n / 0x100, n / 0x1_0000;
    assert b == a / 0x100 && n / 0x100_0000 == b / 0x100;
    assert n == 0x100 * a + n % 0x100 && a == 0x100 * b + a % 0x100 && b == 0x100 * (b / 0x100) + b % 0x100;
  }

  function XdrPrinted(value: seq<byte>): seq<byte>
    requires |value| < U32_LIMIT
  {
    Be(|value|) + value + Zeros(Padding(|value|))
  }

  /** `xdr_string`: the length, the bytes, and zeros until the total is a multiple of four. */
  method PrintXdrString(value: seq<byte>) returns (out: seq<byte>)
    requires |value| < U32_LIMIT
    ensures out == XdrPrinted(value)
  {
    out := Be(|value|) + value;
    ghost var n: nat := 0;
    PaddingEnds(|value|, n);
    while |out| % 4 != 0
      invariant n <= Padding(|value|) && out == Be(|value|) + value + Zeros(n)
      invariant |out| % 4 == 0 <==> n == Padding(|value|)
      decreases Padding(|value|) - n
    {
      assert Zeros(n) + [0] == Zeros(n + 1);
      out := out + [0];
      n := n + 1;
      PaddingEnds(|value|, n);
    }
  }

  lemma PaddingEnds(length: nat, n: nat)
    requires n <= Padding(length)
    ensures (4 + length + n) % 4 == 0 <==> n == Padding(length)
  {}

  lemma XdrStringReads(value: seq<byte>, tail: seq<byte>)
    requires |value| < U32_LIMIT
    ensures XdrString(XdrPrinted(value) + tail) == Some((value, tail))
  {
    var rest := value + Zeros(Padding(|value|)) + tail;
    assert XdrPrinted(value) + tail == Be(|value|) + rest;
    BeReads(|value|, rest);
    var end := |value| + Padding(|value|);
    assert rest[|value|..end] == Zeros(Padding(|value|)) && rest[..|value|] == value && rest[end..] == tail;
  }

  lemma BeWrites(bytes: seq<byte>)
    requires |bytes| >= 4
    ensures var n := BigEndian(bytes).value.value;
            n < U32_LIMIT && bytes == Be(n) + bytes[4..] && BigEndian(bytes).value.rest == bytes[4..]
  {
    var a, b, c, d: int := bytes[0], bytes[1], bytes[2], bytes[3];
    var n := BigEndian(bytes).value.value;
    assert n == 0x100 * (0x100 * (0x100 * a + b) + c) + d;
    assert n / 0x100 == 0x100 * (0x100 * a + b) + c && n % 0x100 == d;
    assert n / 0x1_0000 == 0x100 * a + b && n / 0x100_0000 == a;
    assert bytes == [bytes[0], bytes[1], bytes[2], bytes[3]] + bytes[4..];
  }

  /** Only a printed string is taken for one: its length, its bytes, and nothing but zeros up to a multiple of four. */
  lemma OnlyPrintedReads(bytes: seq<byte>)
    requires XdrString(bytes).Some?
    ensures var (value, rest) := XdrString(bytes).value;
            |value| < U32_LIMIT && bytes == XdrPrinted(value) + rest
  {
    BeWrites(bytes);
    var n, rest := BigEndian(bytes).value.value, bytes[4..];
    var end := n + Padding(n);
    assert rest == rest[..n] + rest[n..end] + rest[end..];
  }

  /** The entries as they stand in a section, before decoding. */
  type Raw = (seq<byte>, seq<byte>)

  predicate Short(raw: Raw) { |raw.0| < U32_LIMIT && |raw.1| < U32_LIMIT }

  function RawEntry(raw: Raw): seq<byte>
    requires Short(raw)
  {
    [0, 0, 0, 0] + XdrPrinted(raw.0) + XdrPrinted(raw.1)
  }

  lemma RawEntryReads(text: Text, raw: Raw, tail: seq<byte>)
    requires Short(raw)
    ensures XdrEntry(text, RawEntry(raw) + tail) == Some((Entry(text.decode(raw.0), text.decode(raw.1)), tail))
  {
    var key, value := XdrPrinted(raw.0), XdrPrinted(raw.1);
    assert RawEntry(raw) + tail == Be(0) + (key + (value + tail));
    BeReads(0, key + (value + tail));
    XdrStringReads(raw.0, value + tail);
    XdrStringReads(raw.1, tail);
  }

  ghost predicate Printable(text: Text, e: Entry) {
    && |text.encode(e.key)| < U32_LIMIT && |text.encode(e.value)| < U32_LIMIT
  }

  function PrintEntry(text: Text, e: Entry): seq<byte>
    requires Printable(text, e)
  {
    RawEntry((text.encode(e.key), text.encode(e.value)))
  }

  function PrintEntries(text: Text, entries: seq<Entry>): seq<byte>
    requires forall e :: e in entries ==> Printable(text, e)
  {
    if entries == [] then []
    else PrintEntries(text, entries[..|entries| - 1]) + PrintEntry(text, entries[|entries| - 1])
  }

  /** Decoding undoes encoding; nothing is assumed of bytes that are not an encoding. */
  ghost predicate Lossless(text: Text) {
    forall n: Name :: text.decode(text.encode(n)) == n
  }

  lemma EntryReads(text: Text, e: Entry, tail: seq<byte>)
    requires Lossless(text) && Printable(text, e)
    ensures XdrEntry(text, PrintEntry(text, e) + tail) == Some((e, tail))
  {
    RawEntryReads(text, (text.encode(e.key), text.encode(e.value)), tail);
  }

  lemma OneEntryReads(text: Text, e: Entry, tail: seq<byte>)
    requires Lossless(text) && Printable(text, e)
    ensures XdrEntries(text, PrintEntry(text, e) + tail) == Prepend([e], XdrEntries(text, tail))
  {
    EntryReads(text, e, tail);
  }

  lemma {:induction false} EntriesRead(text: Text, entries: seq<Entry>, tail: seq<byte>)
    requires Lossless(text) && forall e :: e in entries ==> Printable(text, e)
    ensures XdrEntries(text, PrintEntries(text, entries) + tail) == Prepend(entries, XdrEntries(text, tail))
  {
    if entries == [] {
      assert PrintEntries(text, entries) + tail == tail;
      PrependTwice([], [], XdrEntries(text, tail));
    } else {
      var init, last := entries[..|entries| - 1], entries[|entries| - 1];
      assert init + [last] == entries;
      var more := PrintEntry(text, last) + tail;
      assert PrintEntries(text, entries) + tail == PrintEntries(text, init) + more;
      EntriesRead(text, init, more);
      OneEntryReads(text, last, tail);
      PrependTwice(init, [last], XdrEntries(text, tail));
    }
  }

  function RawPrinted(raws: seq<Raw>): seq<byte>
    requires forall raw <- raws :: Short(raw)
  {
    if raws == [] then [] else RawEntry(raws[0]) + RawPrinted(raws[1..])
  }

  function Decoded(text: Text, raws: seq<Raw>): seq<Entry> {
    if raws == [] then []
    else [Entry(text.decode(raws[0].0), text.decode(raws[0].1))] + Decoded(text, raws[1..])
  }

  lemma OnlyRawEntryReads(text: Text, bytes: seq<byte>) returns (raw: Raw)
    requires XdrEntry(text, bytes).Some?
    ensures Short(raw) && bytes == RawEntry(raw) + XdrEntry(text, bytes).value.1
    ensures XdrEntry(text, bytes).value.0 == Entry(text.decode(raw.0), text.decode(raw.1))
  {
    BeWrites(bytes);
    OnlyPrintedReads(bytes[4..]);
    var key, afterKey := XdrString(bytes[4..]).value.0, XdrString(bytes[4..]).value.1;
    OnlyPrintedReads(afterKey);
    var value, rest := XdrString(afterKey).value.0, XdrString(afterKey).value.1;
    raw := (key, value);
    Regroup(Be(0), XdrPrinted(key), XdrPrinted(value), rest);
  }

  lemma Regroup(a: seq<byte>, b: seq<byte>, c: seq<byte>, d: seq<byte>)
    ensures a + (b + (c + d)) == a + b + c + d
  {}

  /** Printed entries are read, and what is read was printed so: the reader takes no other bytes. */
  lemma {:induction false} RawReads(text: Text, raws: seq<Raw>)
    requires forall raw <- raws :: Short(raw)
    ensures XdrEntries(text, RawPrinted(raws)) == Some(Decoded(text, raws))
  {
    if raws != [] {
      assert raws[0] in raws;
      RawEntryReads(text, raws[0], RawPrinted(raws[1..]));
      RawReads(text, raws[1..]);
    }
  }

  lemma {:induction false} OnlyRawReads(text: Text, payload: seq<byte>) returns (raws: seq<Raw>)
    requires XdrEntries(text, payload).Some?
    ensures forall raw <- raws :: Short(raw)
    ensures payload == RawPrinted(raws) && XdrEntries(text, payload) == Some(Decoded(text, raws))
    decreases |payload|
  {
    if payload == [] {
      raws := [];
    } else {
      var raw := OnlyRawEntryReads(text, payload);
      var others := OnlyRawReads(text, XdrEntry(text, payload).value.1);
      raws := [raw] + others;
      assert raws[1..] == others;
    }
  }

  // ---------- Sections ----------

  ghost predicate WellFormed(text: Text, item: Item) {
    && (item.MetaItem? ==> forall e :: e in item.entries ==> Printable(text, e))
    && (item.CustomItem? ==> item.name != META_NAME && |item.name| < U32_LIMIT)
    && (item.OtherItem? ==> item.id != 0)
    && |SectionOf(text, item).body| < U32_LIMIT
  }

  ghost function SectionOf(text: Text, item: Item): Section {
    match item
    case MetaItem(entries) =>
      Section(0, Printed(|META_NAME|) + META_NAME
                 + if forall e :: e in entries ==> Printable(text, e) then PrintEntries(text, entries) else [])
    case CustomItem(name, payload) => Section(0, Printed(|name|) + name + payload)
    case OtherItem(id, body) => Section(id, body)
  }

  function EntriesIn(items: seq<Item>): seq<Entry> {
    if items == [] then []
    else (if items[0].MetaItem? then items[0].entries else []) + EntriesIn(items[1..])
  }

  ghost function Sections(text: Text, items: seq<Item>): seq<Section> {
    if items == [] then [] else [SectionOf(text, items[0])] + Sections(text, items[1..])
  }

  ghost function PrintModule(text: Text, items: seq<Item>): seq<byte> {
    PREAMBLE + PrintSections(Sections(text, items))
  }

  lemma SectionReads(text: Text, item: Item)
    requires Lossless(text) && WellFormed(text, item)
    ensures SectionEntries(text, SectionOf(text, item)) == Some(if item.MetaItem? then item.entries else [])
  {
    Powers();
    if item.MetaItem? {
      var payload := PrintEntries(text, item.entries);
      NamedSection(META_NAME, payload);
      EntriesRead(text, item.entries, []);
      assert payload + [] == payload && item.entries + [] == item.entries;
    } else if item.CustomItem? {
      NamedSection(item.name, item.payload);
    }
  }

  lemma NamedSection(name: seq<byte>, payload: seq<byte>)
    requires |name| < U32_LIMIT
    ensures Grammar(32, Printed(|name|) + name + payload) == Some(Read(|name|, name + payload))
    ensures (name + payload)[..|name|] == name && (name + payload)[|name|..] == payload
  {
    Powers();
    PrintedReads(32, |name|, name + payload);
    assert Printed(|name|) + name + payload == Printed(|name|) + (name + payload);
  }

  lemma {:induction false} SectionsRead(text: Text, items: seq<Item>)
    requires Lossless(text) && forall item :: item in items ==> WellFormed(text, item)
    ensures AllEntries(text, Sections(text, items)) == Some(EntriesIn(items))
    ensures forall s :: s in Sections(text, items) ==> |s.body| < U32_LIMIT
  {
    if items != [] {
      SectionReads(text, items[0]);
      SectionsRead(text, items[1..]);
      assert Sections(text, items)[1..] == Sections(text, items[1..]);
    }
  }

  /**
    Round trip: a printed module, whatever other sections surround its metadata, is read as exactly
    the map of its entries when their keys are distinct and there are at most 256; otherwise it is
    refused.
  */
  lemma PrintedModuleReads(text: Text, items: seq<Item>)
    requires Lossless(text) && forall item :: item in items ==> WellFormed(text, item)
    ensures MetaOf(text, PrintModule(text, items))
            == if Acceptable(EntriesIn(items)) then Some(MapOf(EntriesIn(items))) else None
  {
    SectionsRead(text, items);
    PrintedWalks(Sections(text, items));
    var wasm := PrintModule(text, items);
    assert wasm[..8] == PREAMBLE && wasm[8..] == PrintSections(Sections(text, items));
  }

  method PrintPayload(text: Text, entries: seq<Entry>) returns (payload: seq<byte>)
    requires forall e :: e in entries ==> Printable(text, e)
    ensures payload == PrintEntries(text, entries)
  {
    payload := [];
    for j := 0 to |entries|
      invariant payload == PrintEntries(text, entries[..j])
    {
      var e := entries[j];
      assert Printable(text, e);
      var key := PrintXdrString(text.encode(e.key));
      var value := PrintXdrString(text.encode(e.value));
      assert entries[..j + 1][..j] == entries[..j];
      assert payload + Be(0) + key + value == payload + (Be(0) + key + value);
      payload := payload + Be(0) + key + value;
    }
    assert entries[..|entries|] == entries;
  }

  method PrintMetaSection(text: Text, entries: seq<Entry>) returns (bytes: seq<byte>)
    requires WellFormed(text, MetaItem(entries))
    ensures bytes == PrintSection(SectionOf(text, MetaItem(entries)))
  {
    var payload := PrintPayload(text, entries);
    var body := Uleb128(|META_NAME|);
    body := body + META_NAME;
    body := body + payload;
    var size := Uleb128(|body|);
    bytes := [0] + size + body;
  }

  /** `wasm_with_meta`: each group of entries as its own metadata section. */
  method WasmWithMeta(text: Text, groups: seq<seq<Entry>>) returns (wasm: seq<byte>)
    requires forall g :: g in groups ==> WellFormed(text, MetaItem(g))
    ensures wasm == PrintModule(text, Groups(groups))
  {
    wasm := PREAMBLE;
    assert PREAMBLE + [] == PREAMBLE;
    for i := 0 to |groups|
      invariant wasm == PrintModule(text, Groups(groups[..i]))
    {
      var section := PrintMetaSection(text, groups[i]);
      GroupsPrefix(text, groups, i);
      wasm := wasm + section;
    }
    assert groups[..|groups|] == groups;
  }

  function Groups(groups: seq<seq<Entry>>): seq<Item> {
    if groups == [] then [] else Groups(groups[..|groups| - 1]) + [MetaItem(groups[|groups| - 1])]
  }

  lemma GroupsPrefix(text: Text, groups: seq<seq<Entry>>, n: nat)
    requires n < |groups|
    ensures PrintModule(text, Groups(groups[..n + 1]))
            == PrintModule(text, Groups(groups[..n])) + PrintSection(SectionOf(text, MetaItem(groups[n])))
  {
    assert groups[..n + 1] == groups[..n] + [groups[n]];
    GroupsGrow(text, groups[..n], groups[n]);
  }

  lemma GroupsGrow(text: Text, groups: seq<seq<Entry>>, entries: seq<Entry>)
    ensures PrintModule(text, Groups(groups + [entries]))
            == PrintModule(text, Groups(groups)) + PrintSection(SectionOf(text, MetaItem(entries)))
  {
    assert (groups + [entries])[..|groups|] == groups;
    SectionsGrow(text, Groups(groups), MetaItem(entries));
    PrintGrows(Sections(text, Groups(groups)), SectionOf(text, MetaItem(entries)));
    var a, b := PrintSections(Sections(text, Groups(groups))), PrintSection(SectionOf(text, MetaItem(entries)));
    assert PREAMBLE + (a + b) == PREAMBLE + a + b;
  }

  lemma {:induction false} SectionsGrow(text: Text, items: seq<Item>, item: Item)
    ensures Sections(text, items + [item]) == Sections(text, items) + [SectionOf(text, item)]
  {
    if items != [] {
      assert (items + [item])[1..] == items[1..] + [item];
      SectionsGrow(text, items[1..], item);
    }
  }

  lemma {:induction false} PrintGrows(sections: seq<Section>, s: Section)
    ensures PrintSections(sections + [s]) == PrintSections(sections) + PrintSection(s)
  {
    if sections == [] {
      assert PrintSection(s) + [] == PrintSection(s);
    } else {
      assert (sections + [s])[1..] == sections[1..] + [s];
      PrintGrows(sections[1..], s);
    }
  }

  // ---------- Only the multiset of entries matters ----------

  lemma {:induction false} KeyInMap(entries: seq<Entry>, e: Entry)
    requires DistinctKeys(entries) && e in entries
    ensures e.key in MapOf(entries) && MapOf(entries)[e.key] == e.value
  {
    var init, last := entries[..|entries| - 1], entries[|entries| - 1];
    if e != last {
      assert entries == init + [last];
      assert e in init;
      var i :| 0 <= i < |init| && init[i] == e;
      assert entries[i].key != entries[|entries| - 1].key;
      KeyInMap(init, e);
    }
  }

  lemma {:induction false} MapHasOnlyKeys(entries: seq<Entry>, k: Name)
    requires k in MapOf(entries)
    ensures exists e :: e in entries && e.key == k && MapOf(entries)[k] == e.value
  {
    var init, last := entries[..|entries| - 1], entries[|entries| - 1];
    if k == last.key {
      assert last in entries;
    } else {
      MapHasOnlyKeys(init, k);
      var e :| e in init && e.key == k && MapOf(init)[k] == e.value;
      assert e in entries;
    }
  }

  lemma SameEntriesSameMap(a: seq<Entry>, b: seq<Entry>)
    requires multiset(a) == multiset(b) && DistinctKeys(a) && DistinctKeys(b)
    ensures MapOf(a) == MapOf(b)
  {
    forall k ensures k in MapOf(a) <==> k in MapOf(b) {
      if k in MapOf(a) { SameLookup(a, b, k); }
      if k in MapOf(b) { SameLookup(b, a, k); }
    }
    forall k | k in MapOf(a) ensures MapOf(a)[k] == MapOf(b)[k] {
      SameLookup(a, b, k);
    }
  }

  lemma SameLookup(a: seq<Entry>, b: seq<Entry>, k: Name)
    requires multiset(a) == multiset(b) && DistinctKeys(b) && k in MapOf(a)
    ensures k in MapOf(b) && MapOf(b)[k] == MapOf(a)[k]
  {
    MapHasOnlyKeys(a, k);
    var e :| e in a && e.key == k && MapOf(a)[k] == e.value;
    assert e in multiset(b);
    KeyInMap(b, e);
  }

  /** Distinct keys are a property of the multiset: no entry twice, no two entries with one key. */
  lemma {:induction false} DistinctIsUnordered(a: seq<Entry>, b: seq<Entry>)
    requires multiset(a) == multiset(b) && DistinctKeys(a)
    ensures DistinctKeys(b)
  {
    forall i, j | 0 <= i < j < |b| ensures b[i].key != b[j].key {
      if b[i].key == b[j].key {
        assert b[i] in multiset(a) && b[j] in multiset(a);
        var m :| 0 <= m < |a| && a[m] == b[i];
        var n :| 0 <= n < |a| && a[n] == b[j];
        assert m == n;
        CountTwice(b, i, j);
        CountOnce(a, m);
      }
    }
  }

  lemma CountTwice(b: seq<Entry>, i: nat, j: nat)
    requires i < j < |b| && b[i] == b[j]
    ensures multiset(b)[b[i]] >= 2
  {
    assert b == b[..j] + b[j..];
    assert b[..j][i] == b[i] && b[j..][0] == b[j];
    assert b[i] in b[..j] && b[i] in b[j..];
  }

  lemma CountOnce(a: seq<Entry>, m: nat)
    requires m < |a| && DistinctKeys(a)
    ensures multiset(a)[a[m]] == 1
  {
    assert a == a[..m] + [a[m]] + a[m + 1..];
    assert a[m] !in a[..m] && a[m] !in a[m + 1..];
  }

  /** Acceptance and the map are the same for any arrangement of the same entries. */
  lemma ArrangementIsIrrelevant(a: seq<Entry>, b: seq<Entry>)
    requires multiset(a) == multiset(b)
    ensures Acceptable(a) <==> Acceptable(b)
    ensures Acceptable(a) ==> MapOf(a) == MapOf(b)
  {
    assert |a| == |multiset(a)| == |multiset(b)| == |b|;
    if DistinctKeys(a) {
      DistinctIsUnordered(a, b);
    }
    if DistinctKeys(b) {
      DistinctIsUnordered(b, a);
    }
    if Acceptable(a) {
      SameEntriesSameMap(a, b);
    }
  }

  /**
    Permuting entries, moving them between sections, reordering sections or surrounding them with
    other sections changes nothing the reader reports.
  */
  lemma ModuleArrangementIsIrrelevant(text: Text, a: seq<Item>, b: seq<Item>)
    requires Lossless(text)
    requires forall item :: item in a + b ==> WellFormed(text, item)
    requires multiset(EntriesIn(a)) == multiset(EntriesIn(b))
    ensures MetaOf(text, PrintModule(text, a)) == MetaOf(text, PrintModule(text, b))
  {
    PrintedModuleReads(text, a);
    PrintedModuleReads(text, b);
    ArrangementIsIrrelevant(EntriesIn(a), EntriesIn(b));
  }

  // ---------- Any encoding, not only the printed one ----------

  /** Some reading of all the sections, with the entries counted and not ordered. */
  ghost predicate SameCount(a: Option<seq<Entry>>, b: Option<seq<Entry>>) {
    a.Some? == b.Some? && (a.Some? ==> multiset(a.value) == multiset(b.value))
  }

  /** Reading one section first or in its place gives the same entries, or fails alike. */
  lemma {:induction false} SectionInPlace(text: Text, sections: seq<Section>, i: nat)
    requires i < |sections|
    ensures SameCount(AllEntries(text, sections), AllEntries(text, [sections[i]] + Without(sections, i)))
  {
    var moved := [sections[i]] + Without(sections, i);
    assert moved[1..] == Without(sections, i);
    if i == 0 {
      assert moved == sections;
    } else {
      var tail := sections[1..];
      SectionInPlace(text, tail, i - 1);
      assert ([tail[i - 1]] + Without(tail, i - 1))[1..] == Without(tail, i - 1);
      assert Without(sections, i)[1..] == Without(tail, i - 1);
    }
  }

  lemma Counterpart(a: seq<Section>, b: seq<Section>) returns (i: nat)
    requires multiset(a) == multiset(b) && a != []
    ensures i < |b| && b[i] == a[0] && multiset(a[1..]) == multiset(Without(b, i))
  {
    assert a[0] in multiset(b);
    i :| 0 <= i < |b| && b[i] == a[0];
    assert b == b[..i] + [b[i]] + b[i + 1..];
    assert a == [a[0]] + a[1..];
    assert multiset(a[1..]) == multiset(a) - multiset{a[0]};
    assert multiset(Without(b, i)) == multiset(b) - multiset{b[i]};
  }

  lemma FirstSection(text: Text, first: Section, a: seq<Section>, b: seq<Section>)
    requires SameCount(AllEntries(text, a), AllEntries(text, b))
    ensures SameCount(AllEntries(text, [first] + a), AllEntries(text, [first] + b))
  {
    assert ([first] + a)[1..] == a && ([first] + b)[1..] == b;
  }

  lemma {:induction false} SectionsPermuted(text: Text, a: seq<Section>, b: seq<Section>)
    requires multiset(a) == multiset(b)
    ensures SameCount(AllEntries(text, a), AllEntries(text, b))
  {
    assert |a| == |multiset(a)| == |multiset(b)| == |b|;
    if a == [] {
      assert b == [];
    } else {
      var i := Counterpart(a, b);
      SectionsPermuted(text, a[1..], Without(b, i));
      FirstSection(text, a[0], a[1..], Without(b, i));
      assert [a[0]] + a[1..] == a;
      SectionInPlace(text, b, i);
    }
  }

  /** Two modules whose readable entries are the same up to order and place are read alike. */
  lemma EntriesDecide(text: Text, a: seq<byte>, b: seq<byte>)
    requires Module(32, a).Some? && Module(32, b).Some?
    requires SameCount(BytesEntries(text, a[8..]), BytesEntries(text, b[8..]))
    ensures MetaOf(text, a) == MetaOf(text, b)
  {
    if BytesEntries(text, a[8..]).Some? {
      ArrangementIsIrrelevant(BytesEntries(text, a[8..]).value, BytesEntries(text, b[8..]).value);
    }
  }

  /** Reordering the sections of any module, however it is encoded, changes nothing the reader reports. */
  lemma SectionOrderIsIrrelevant(text: Text, a: seq<byte>, b: seq<byte>)
    requires Module(32, a).Some? && Module(32, b).Some?
    requires multiset(Module(32, a).value) == multiset(Module(32, b).value)
    ensures MetaOf(text, a) == MetaOf(text, b)
  {
    SectionsPermuted(text, Module(32, a).value, Module(32, b).value);
    EntriesDecide(text, a, b);
  }
}
