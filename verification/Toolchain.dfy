/**
  Whether an artifact's own metadata bears out what the manifest says about the tools that built it:
  two spellings of a tool's identity, three claims, and which modules confirm them.
*/
module Toolchain {
  import opened Prelude
  import opened WasmMeta
  import opened WasmPrint
  import opened WasmSections

  // ---------- The two spellings of an identity ----------

  datatype ToolIdentity = ToolIdentity(version: string, revision: Option<string>)

  predicate IsSpace(c: char) {
    || '\t' <= c <= '\r' || c == ' ' || c == '\U{85}' || c == '\U{A0}' || c == '\U{1680}'
    || '\U{2000}' <= c <= '\U{200A}' || c == '\U{2028}' || c == '\U{2029}' || c == '\U{202F}'
    || c == '\U{205F}' || c == '\U{3000}'
  }

  predicate IsDigit(c: char) { '0' <= c <= '9' }

  function Trim(s: string): (r: string)
    ensures |r| <= |s|
  {
    if s != [] && IsSpace(s[0]) then Trim(s[1..]) else s
  }

  /** The leading run of characters that are not white space. */
  function Word(s: string): (r: string)
    ensures |r| <= |s|
    ensures s != [] && !IsSpace(s[0]) ==> r != []
  {
    if s == [] || IsSpace(s[0]) then [] else [s[0]] + Word(s[1..])
  }

  /** `split_whitespace`. */
  function Tokens(s: string): seq<string>
    decreases |s|
  {
    var t := Trim(s);
    if t == [] || IsSpace(t[0]) then [] else [Word(t)] + Tokens(t[|Word(t)|..])
  }

  function FirstVersion(tokens: seq<string>): Option<string> {
    if tokens == [] then None
    else if tokens[0] != [] && IsDigit(tokens[0][0]) then Some(tokens[0])
    else FirstVersion(tokens[1..])
  }

  /** `split_once`: what stands before and after the first `c`. */
  function SplitOnce(s: string, c: char): Option<(string, string)> {
    if s == [] then None
    else if s[0] == c then Some(([], s[1..]))
    else
      match SplitOnce(s[1..], c)
      case None => None
      case Some((before, after)) => Some(([s[0]] + before, after))
  }

  function ParenthesizedRevision(value: string): Option<string> {
    match SplitOnce(value, '(')
    case None => None
    case Some((_, after)) =>
      match SplitOnce(after, ')')
      case None => None
      case Some((inside, _)) => if Tokens(inside) == [] then None else Some(Tokens(inside)[0])
  }

  function DeclaredIdentity(value: string): Option<ToolIdentity> {
    match FirstVersion(Tokens(value))
    case None => None
    case Some(version) => Some(ToolIdentity(version, ParenthesizedRevision(value)))
  }

  function MetadataIdentity(value: string): ToolIdentity {
    match SplitOnce(value, '#')
    case None => ToolIdentity(value, None)
    case Some((version, revision)) => ToolIdentity(version, Some(revision))
  }

  // ---------- The spellings name the same identity ----------

  ghost predicate Lacks(s: string, c: char) { c !in s }

  ghost predicate Solid(s: string) { s != [] && forall c :: c in s ==> !IsSpace(c) }

  lemma {:induction false} WordOf(s: string, tail: string)
    requires forall c :: c in s ==> !IsSpace(c)
    requires tail == [] || IsSpace(tail[0])
    ensures Word(s + tail) == s
  {
    if s != [] {
      assert (s + tail)[1..] == s[1..] + tail;
      assert forall c :: c in s[1..] ==> c in s;
      WordOf(s[1..], tail);
    } else {
      assert s + tail == tail;
    }
  }

  lemma SplitToken(s: string, tail: string)
    requires Solid(s) && (tail == [] || IsSpace(tail[0]))
    ensures Tokens(s + tail) == [s] + Tokens(tail)
  {
    var t := s + tail;
    assert t[0] == s[0] && s[0] in s;
    WordOf(s, tail);
    assert t[|s|..] == tail;
  }

  lemma SkipSpace(tail: string)
    ensures Tokens(" " + tail) == Tokens(tail)
  {
    assert (" " + tail)[1..] == tail;
    assert Trim(" " + tail) == Trim(tail);
  }

  lemma {:induction false} SplitAt(before: string, c: char, after: string)
    requires Lacks(before, c)
    ensures SplitOnce(before + [c] + after, c) == Some((before, after))
  {
    var s := before + [c] + after;
    if before == [] {
      assert s[1..] == after;
    } else {
      assert s[1..] == before[1..] + [c] + after;
      assert before == [before[0]] + before[1..];
      SplitAt(before[1..], c, after);
    }
  }

  lemma {:induction false} NoSplit(s: string, c: char)
    requires Lacks(s, c)
    ensures SplitOnce(s, c) == None
  {
    if s != [] {
      assert s == [s[0]] + s[1..];
      NoSplit(s[1..], c);
    }
  }

  /** A `--version` line: `name version (revision more)`. */
  function VersionLine(name: string, version: string, revision: string, more: string): string {
    name + (" " + (version + (" (" + (revision + more + ")"))))
  }

  lemma VersionOfLine(name: string, version: string, tail: string)
    requires Solid(name) && !IsDigit(name[0])
    requires Solid(version) && IsDigit(version[0])
    requires tail != [] && IsSpace(tail[0])
    ensures FirstVersion(Tokens(name + (" " + (version + tail)))) == Some(version)
  {
    SplitToken(name, " " + (version + tail));
    SkipSpace(version + tail);
    SplitToken(version, tail);
    var tokens := [name] + ([version] + Tokens(tail));
    assert tokens[1..] == [version] + Tokens(tail);
  }

  lemma RevisionOfLine(before: string, revision: string, more: string)
    requires Lacks(before, '(')
    requires Solid(revision) && Lacks(revision, ')')
    requires (more == [] || IsSpace(more[0])) && Lacks(more, ')')
    ensures ParenthesizedRevision(before + "(" + (revision + more + ")")) == Some(revision)
  {
    SplitAt(before, '(', revision + more + ")");
    SplitAt(revision + more, ')', "");
    assert revision + more + ")" == revision + more + [')'] + "";
    SplitToken(revision, more);
  }

  /**
    A `--version` line and the metadata value `version#revision` that the same build writes reduce
    to the same identity.
  */
  lemma SpellingsAgree(name: string, version: string, revision: string, more: string)
    requires Solid(name) && Lacks(name, '(') && !IsDigit(name[0])
    requires Solid(version) && Lacks(version, '(') && Lacks(version, '#') && IsDigit(version[0])
    requires Solid(revision) && Lacks(revision, ')')
    requires (more == [] || IsSpace(more[0])) && Lacks(more, ')')
    ensures DeclaredIdentity(VersionLine(name, version, revision, more))
        == Some(MetadataIdentity(version + "#" + revision))
        == Some(ToolIdentity(version, Some(revision)))
  {
    var inside := revision + more + ")";
    VersionOfLine(name, version, " (" + inside);
    assert VersionLine(name, version, revision, more) == name + (" " + (version + (" " + ("(" + inside)))) by {
      assert " (" + inside == " " + ("(" + inside);
    }
    var before := name + " " + version + " ";
    assert name + (" " + (version + (" " + ("(" + inside)))) == before + "(" + inside;
    RevisionOfLine(before, revision, more);
    SplitAt(version, '#', revision);
    NoSplit(version, '#');
  }

  // ---------- What any text declares ----------

  /** Unicode's white space, by code point, and the ten ASCII digits. */
  lemma CharactersByCode(c: char)
    ensures IsSpace(c) <==>
            || c as int in {9, 10, 11, 12, 13, 32, 0x85, 0xA0, 0x1680, 0x2028, 0x2029, 0x202F, 0x205F, 0x3000}
            || 0x2000 <= c as int <= 0x200A
    ensures IsDigit(c) <==> 48 <= c as int <= 57
  {}

  /** A word starts at `i`, and with a digit. */
  predicate VersionStarts(s: string, i: nat) {
    i < |s| && IsDigit(s[i]) && (i == 0 || IsSpace(s[i - 1]))
  }

  /** The first such word is the one from `i` to `j`. */
  ghost predicate VersionStands(s: string, i: nat, j: nat) {
    && i < j <= |s| && VersionStarts(s, i)
    && (forall h: nat :: h < i ==> !VersionStarts(s, h))
    && (forall h :: i <= h < j ==> !IsSpace(s[h]))
    && (j == |s| || IsSpace(s[j]))
  }

  lemma {:induction false} WordStands(s: string)
    ensures Word(s) == s[..|Word(s)|]
    ensures forall h :: 0 <= h < |Word(s)| ==> !IsSpace(s[h])
    ensures |Word(s)| == |s| || IsSpace(s[|Word(s)|])
  {
    if s != [] && !IsSpace(s[0]) {
      WordStands(s[1..]);
      assert s == [s[0]] + s[1..];
    }
  }

  lemma VersionAfter(s: string, n: nat, i: nat, j: nat)
    requires n <= |s| && (n == 0 || n == |s| || IsSpace(s[n - 1]) || IsSpace(s[n]))
    requires forall h: nat :: h < n ==> !VersionStarts(s, h)
    requires VersionStands(s, i, j)
    ensures n <= i && s[n..][i - n..j - n] == s[i..j]
    ensures VersionStands(s[n..], i - n, j - n)
  {
    forall h: nat | h < i - n ensures !VersionStarts(s[n..], h) {
      assert !VersionStarts(s, n + h);
    }
  }

  lemma NoVersionAfter(s: string, n: nat)
    requires n <= |s| && (n == 0 || n == |s| || IsSpace(s[n - 1]) || IsSpace(s[n]))
    requires forall h: nat :: !VersionStarts(s, h)
    ensures forall h: nat :: !VersionStarts(s[n..], h)
  {
    forall h: nat ensures !VersionStarts(s[n..], h) {
      assert !VersionStarts(s, n + h);
    }
  }

  lemma TokensStep(s: string)
    requires s != []
    ensures IsSpace(s[0]) ==> Tokens(s) == Tokens(s[1..])
    ensures !IsSpace(s[0]) ==> Tokens(s) == [Word(s)] + Tokens(s[|Word(s)|..]) && Word(s) != []
  {}

  /** The version of any text is its first word that starts with a digit, and there is none without one. */
  lemma {:induction false} VersionIsFirst(s: string)
    ensures forall i: nat, j: nat :: VersionStands(s, i, j) ==> FirstVersion(Tokens(s)) == Some(s[i..j])
    ensures (forall i: nat :: !VersionStarts(s, i)) ==> FirstVersion(Tokens(s)) == None
    decreases |s|
  {
    if s != [] {
      WordStands(s);
      TokensStep(s);
      var n := if IsSpace(s[0]) then 1 else |Word(s)|;
      if IsDigit(s[0]) && !IsSpace(s[0]) {
        assert VersionStarts(s, 0);
        forall i: nat, j: nat | VersionStands(s, i, j) ensures i == 0 && j == |Word(s)| {}
      } else {
        assert forall h: nat :: h < n ==> !VersionStarts(s, h);
        VersionIsFirst(s[n..]);
        if n > 1 || !IsSpace(s[0]) { assert ([Word(s)] + Tokens(s[n..]))[1..] == Tokens(s[n..]); }
        forall i: nat, j: nat | VersionStands(s, i, j) ensures FirstVersion(Tokens(s)) == Some(s[i..j]) {
          VersionAfter(s, n, i, j);
        }
        if forall i: nat :: !VersionStarts(s, i) { NoVersionAfter(s, n); }
      }
    }
  }

  ghost predicate AllSpace(s: string) { forall c :: c in s ==> IsSpace(c) }

  lemma {:induction false} LeadingSpace(space: string, rest: string)
    requires AllSpace(space)
    ensures Tokens(space + rest) == Tokens(rest)
  {
    if space == [] {
      assert space + rest == rest;
    } else {
      assert space[0] in space;
      TokensStep(space + rest);
      assert (space + rest)[1..] == space[1..] + rest;
      assert forall c :: c in space[1..] ==> c in space;
      LeadingSpace(space[1..], rest);
    }
  }

  /** The revision is the first word in the first pair of parentheses... */
  lemma RevisionReads(before: string, space: string, revision: string, more: string, after: string)
    requires Lacks(before, '(') && AllSpace(space) && Lacks(space, ')')
    requires Solid(revision) && Lacks(revision, ')')
    requires (more == [] || IsSpace(more[0])) && Lacks(more, ')')
    ensures ParenthesizedRevision(before + "(" + (space + (revision + more) + ")" + after)) == Some(revision)
  {
    var inside := space + (revision + more);
    SplitAt(before, '(', inside + ")" + after);
    SplitAt(inside, ')', after);
    LeadingSpace(space, revision + more);
    SplitToken(revision, more);
  }

  /** ...and there is none without such a pair, or with nothing but space in it. */
  lemma NoRevision(value: string, before: string, inside: string, after: string)
    ensures Lacks(value, '(') ==> ParenthesizedRevision(value).None?
    ensures Lacks(before, '(') && Lacks(after, ')') ==> ParenthesizedRevision(before + "(" + after).None?
    ensures Lacks(before, '(') && AllSpace(inside) && Lacks(inside, ')') ==>
              ParenthesizedRevision(before + "(" + (inside + ")" + after)).None?
  {
    if Lacks(value, '(') { NoSplit(value, '('); }
    if Lacks(before, '(') {
      SplitAt(before, '(', after);
      if Lacks(after, ')') { NoSplit(after, ')'); }
      SplitAt(before, '(', inside + ")" + after);
      if AllSpace(inside) && Lacks(inside, ')') {
        SplitAt(inside, ')', after);
        LeadingSpace(inside, "");
        assert inside + "" == inside;
      }
    }
  }

  /** Metadata splits at its first `#`. */
  lemma MetadataReads(version: string, revision: string)
    requires Lacks(version, '#')
    ensures MetadataIdentity(version + "#" + revision) == ToolIdentity(version, Some(revision))
    ensures MetadataIdentity(version) == ToolIdentity(version, None)
  {
    SplitAt(version, '#', revision);
    NoSplit(version, '#');
  }

  // ---------- The three claims ----------

  datatype Manifest = Manifest(rustcVersion: string, cliVersion: string, sdkVersion: string)

  datatype Claim = Claim(declared: string, key: Name, revisionIsStated: bool)

  datatype ReconcileError =
    | UnreadableModule
    | MissingKey(key: Name)
    | NoVersion(key: Name)
    | VersionContradicted(key: Name)
    | RevisionUnstated(key: Name)
    | RevisionContradicted(key: Name)

  function Claims(m: Manifest): seq<Claim> {
    [ Claim(m.rustcVersion, Name("rsver"), false),
      Claim(m.cliVersion, Name("cliver"), true),
      Claim(m.sdkVersion, Name("rssdkver"), false) ]
  }

  /** The artifact states the key, and both sides name the same build. */
  ghost predicate Confirms(meta: map<Name, Name>, c: Claim) {
    && c.key in meta
    && DeclaredIdentity(c.declared).Some?
    && var declared, observed := DeclaredIdentity(c.declared).value, MetadataIdentity(meta[c.key].chars);
       && declared.version == observed.version
       && (c.revisionIsStated ==> declared.revision.Some? && declared.revision == observed.revision)
  }

  ghost predicate Reconciles(text: Text, m: Manifest, wasm: seq<byte>) {
    && MetaOf(text, wasm).Some?
    && forall c :: c in Claims(m) ==> Confirms(MetaOf(text, wasm).value, c)
  }

  /** The metadata's value for a key, read as an identity; nothing if it is not there. */
  function Observed(meta: map<Name, Name>, key: string): Option<ToolIdentity> {
    if Name(key) in meta then Some(MetadataIdentity(meta[Name(key)].chars)) else None
  }

  predicate SameVersion(declared: Option<ToolIdentity>, observed: Option<ToolIdentity>) {
    declared.Some? && observed.Some? && declared.value.version == observed.value.version
  }

  predicate SameRevision(declared: Option<ToolIdentity>, observed: Option<ToolIdentity>) {
    && declared.Some? && observed.Some?
    && declared.value.revision.Some? && observed.value.revision.Some?
    && declared.value.revision == observed.value.revision
  }

  /** The three agreements, key by key: all three versions, and the CLI's revision as well. */
  predicate AllAgree(m: Manifest, meta: map<Name, Name>) {
    && SameVersion(DeclaredIdentity(m.rustcVersion), Observed(meta, "rsver"))
    && SameVersion(DeclaredIdentity(m.cliVersion), Observed(meta, "cliver"))
    && SameRevision(DeclaredIdentity(m.cliVersion), Observed(meta, "cliver"))
    && SameVersion(DeclaredIdentity(m.sdkVersion), Observed(meta, "rssdkver"))
  }

  /** Exactly what is reconciled: a readable module, and these agreements. */
  lemma ReconcilesExactly(text: Text, m: Manifest, wasm: seq<byte>)
    ensures Reconciles(text, m, wasm) <==> MetaOf(text, wasm).Some? && AllAgree(m, MetaOf(text, wasm).value)
  {
    var claims := Claims(m);
    assert claims[0] in claims && claims[1] in claims && claims[2] in claims;
  }

  /** What is wrong with one claim, if anything. */
  ghost predicate Fault(meta: map<Name, Name>, c: Claim, e: ReconcileError) {
    var observed := Observed(meta, c.key.chars);
    var declared := DeclaredIdentity(c.declared);
    match e
    case UnreadableModule => false
    case MissingKey(k) => k == c.key && observed.None?
    case NoVersion(k) => k == c.key && observed.Some? && declared.None?
    case VersionContradicted(k) =>
      k == c.key && observed.Some? && declared.Some? && declared.value.version != observed.value.version
    case RevisionUnstated(k) =>
      && k == c.key && SameVersion(declared, observed) && c.revisionIsStated
      && (declared.value.revision.None? || observed.value.revision.None?)
    case RevisionContradicted(k) =>
      && k == c.key && SameVersion(declared, observed) && c.revisionIsStated
      && declared.value.revision.Some? && observed.value.revision.Some?
      && declared.value.revision != observed.value.revision
  }

  /** The fault found first: the compiler is looked at before the CLI, and the CLI before the SDK. */
  ghost predicate FirstFault(m: Manifest, meta: map<Name, Name>, e: ReconcileError) {
    var rustc, cli := DeclaredIdentity(m.rustcVersion), DeclaredIdentity(m.cliVersion);
    if !SameVersion(rustc, Observed(meta, "rsver")) then
      Fault(meta, Claim(m.rustcVersion, Name("rsver"), false), e)
    else if !SameVersion(cli, Observed(meta, "cliver")) || !SameRevision(cli, Observed(meta, "cliver")) then
      Fault(meta, Claim(m.cliVersion, Name("cliver"), true), e)
    else
      Fault(meta, Claim(m.sdkVersion, Name("rssdkver"), false), e)
  }

  lemma FaultIsFirst(m: Manifest, meta: map<Name, Name>, i: nat, e: ReconcileError)
    requires i < |Claims(m)| && Fault(meta, Claims(m)[i], e)
    requires forall c :: c in Claims(m)[..i] ==> Confirms(meta, c)
    ensures FirstFault(m, meta, e)
  {
    var claims := Claims(m);
    assert i > 0 ==> claims[0] in claims[..i];
    assert i > 1 ==> claims[1] in claims[..i];
  }

  /** One turn of the loop over the claims. */
  method CheckClaim(meta: map<Name, Name>, claim: Claim) returns (fault: Option<ReconcileError>)
    ensures fault.None? <==> Confirms(meta, claim)
    ensures fault.Some? ==> Fault(meta, claim, fault.value)
  {
    if claim.key !in meta {
      return Some(MissingKey(claim.key));
    }
    var observed := MetadataIdentity(meta[claim.key].chars);
    var declared := DeclaredIdentity(claim.declared);
    if declared.None? {
      return Some(NoVersion(claim.key));
    }
    if declared.value.version != observed.version {
      return Some(VersionContradicted(claim.key));
    }
    if claim.revisionIsStated {
      if declared.value.revision.None? || observed.revision.None? {
        return Some(RevisionUnstated(claim.key));
      }
      if declared.value.revision.value != observed.revision.value {
        return Some(RevisionContradicted(claim.key));
      }
    }
    fault := None;
  }

  /** `reconcile_declared_toolchain`: an error is that of the first claim that is not confirmed. */
  method ReconcileDeclaredToolchain(text: Text, m: Manifest, wasm: seq<byte>) returns (r: Result<(), ReconcileError>)
    ensures r.Ok? <==> Reconciles(text, m, wasm)
    ensures r.Ok? <==> MetaOf(text, wasm).Some? && AllAgree(m, MetaOf(text, wasm).value)
    ensures r == Err(UnreadableModule) <==> MetaOf(text, wasm).None?
    ensures r.Err? && MetaOf(text, wasm).Some? ==> FirstFault(m, MetaOf(text, wasm).value, r.error)
  {
    ReconcilesExactly(text, m, wasm);
    var meta := WasmContractMeta(text, wasm);
    if meta.None? {
      return Err(UnreadableModule);
    }
    var claims := Claims(m);
    for i := 0 to |claims|
      invariant forall c :: c in claims[..i] ==> Confirms(meta.value, c)
    {
      var fault := CheckClaim(meta.value, claims[i]);
      assert claims[i] in claims;
      if fault.Some? {
        FaultIsFirst(m, meta.value, i, fault.value);
        return Err(fault.value);
      }
      assert claims[..i + 1] == claims[..i] + [claims[i]];
    }
    assert claims[..|claims|] == claims;
    return Ok(());
  }

  // ---------- What acceptance means for a module ----------

  function Occurrences(entries: seq<Entry>, k: Name): nat {
    if entries == [] then 0
    else Occurrences(entries[1..], k) + (if entries[0].key == k then 1 else 0)
  }

  lemma {:induction false} OccursOnce(entries: seq<Entry>, e: Entry)
    requires DistinctKeys(entries) && e in entries
    ensures Occurrences(entries, e.key) == 1
  {
    var tail := entries[1..];
    assert forall i :: 0 <= i < |tail| ==> tail[i] == entries[i + 1];
    assert entries == [entries[0]] + tail;
    if entries[0].key == e.key {
      OccursNever(tail, e.key);
    } else {
      OccursOnce(tail, e);
    }
  }

  lemma {:induction false} OccursNever(entries: seq<Entry>, k: Name)
    requires forall i :: 0 <= i < |entries| ==> entries[i].key != k
    ensures Occurrences(entries, k) == 0
  {
    if entries != [] { OccursNever(entries[1..], k); }
  }

  /** What the manifest declares beside a key. */
  function DeclaredFor(m: Manifest, key: string): Option<ToolIdentity> {
    DeclaredIdentity(if key == "rsver" then m.rustcVersion else if key == "cliver" then m.cliVersion else m.sdkVersion)
  }

  /**
    Any accepted module, whoever wrote it, is readable, and states each of the three keys exactly
    once among all its entries, with the declared version and, for the CLI, the declared revision.
  */
  lemma AcceptanceMeans(text: Text, m: Manifest, wasm: seq<byte>, key: string) returns (e: Entry)
    requires Reconciles(text, m, wasm) && key in {"rsver", "cliver", "rssdkver"}
    ensures |wasm| >= 8 && BytesEntries(text, wasm[8..]).Some?
    ensures var entries := BytesEntries(text, wasm[8..]).value;
            e in entries && e.key == Name(key) && Occurrences(entries, Name(key)) == 1
    ensures SameVersion(DeclaredFor(m, key), Some(MetadataIdentity(e.value.chars)))
    ensures key == "cliver" ==> SameRevision(DeclaredFor(m, key), Some(MetadataIdentity(e.value.chars)))
  {
    ReconcilesExactly(text, m, wasm);
    var entries := BytesEntries(text, wasm[8..]).value;
    MapHasOnlyKeys(entries, Name(key));
    e :| e in entries && e.key == Name(key) && MapOf(entries)[Name(key)] == e.value;
    OccursOnce(entries, e);
  }

  /** Two printed modules with the same entries, however arranged, get the same verdict. */
  lemma VerdictIgnoresArrangement(text: Text, m: Manifest, a: seq<Item>, b: seq<Item>)
    requires Lossless(text)
    requires forall item :: item in a + b ==> WellFormed(text, item)
    requires multiset(EntriesIn(a)) == multiset(EntriesIn(b))
    ensures Reconciles(text, m, PrintModule(text, a)) <==> Reconciles(text, m, PrintModule(text, b))
  {
    ModuleArrangementIsIrrelevant(text, a, b);
  }

  /** The same for modules in any encoding: only which entries they state, and how often, matters. */
  lemma VerdictIsAboutEntries(text: Text, m: Manifest, a: seq<byte>, b: seq<byte>)
    requires Module(32, a).Some? && Module(32, b).Some?
    requires || SameCount(BytesEntries(text, a[8..]), BytesEntries(text, b[8..]))
             || multiset(Module(32, a).value) == multiset(Module(32, b).value)
    ensures Reconciles(text, m, a) <==> Reconciles(text, m, b)
  {
    if multiset(Module(32, a).value) == multiset(Module(32, b).value) {
      SectionOrderIsIrrelevant(text, a, b);
    } else {
      EntriesDecide(text, a, b);
    }
  }
}
