/**
  Captured-target execution: a strict read-through source under a host storage with frames, and
  the plain ledger they must be indistinguishable from.

  Keys and entries are compared by their canonical XDR, so both are their encodings here. The
  host's contract is assumed: a first access to a key goes through the source, a refusal is not
  cached, and a frame that fails restores the storage it started from.
*/
module Captured {
  import opened Prelude

  datatype Key = Key(xdr: string)

  datatype Entry = Entry(data: string, liveUntil: Option<nat>)

  type Ledger = map<Key, Entry>

  type Storage = map<Key, Option<Entry>>

  // ---------- The source ----------

  datatype SourceState = SourceState(
    strict: bool,
    expectedAbsent: set<Key>,
    capturedReads: set<Key>,
    undeclared: set<Key>)

  datatype Refused = Refused

  function Lookup(ledger: Ledger, key: Key): Option<Entry> {
    if key in ledger then Some(ledger[key]) else None
  }

  /** Whether the source may answer for a key it is asked about. */
  predicate Answers(captured: Ledger, s: SourceState, key: Key) {
    if key in captured then s.strict else !s.strict || key in s.expectedAbsent
  }

  /** What a request leaves in the logs, which no rollback reaches. */
  function Logged(captured: Ledger, s: SourceState, key: Key): SourceState {
    if !Answers(captured, s, key) then s.(undeclared := s.undeclared + {key})
    else if key in captured then s.(capturedReads := s.capturedReads + {key})
    else s
  }

  class StrictSource {
    const captured: Ledger
    var strict: bool
    var expectedAbsent: set<Key>
    var capturedReads: set<Key>
    var undeclared: set<Key>

    constructor (captured: Ledger)
      ensures this.captured == captured && State() == SourceState(false, {}, {}, {})
    {
      this.captured := captured;
      strict, expectedAbsent, capturedReads, undeclared := false, {}, {}, {};
    }

    ghost function State(): SourceState
      reads this
    {
      SourceState(strict, expectedAbsent, capturedReads, undeclared)
    }

    /** `StrictSource::get`: the captured entry, a declared absence, or a logged refusal. */
    method Get(key: Key) returns (r: Result<Option<Entry>, Refused>)
      modifies this
      ensures State() == Logged(captured, old(State()), key)
      ensures r == if Answers(captured, old(State()), key) then Ok(Lookup(captured, key)) else Err(Refused)
    {
      if key in captured {
        if !strict {
          undeclared := undeclared + {key};
          return Err(Refused);
        }
        capturedReads := capturedReads + {key};
        return Ok(Some(captured[key]));
      }
      if !strict || key in expectedAbsent {
        return Ok(None);
      }
      undeclared := undeclared + {key};
      r := Err(Refused);
    }
  }

  // ---------- What the host effectively sees ----------

  /** Storage decides for the keys it holds, with `None` for a deletion; the capture for all others. */
  function Effective(captured: Ledger, storage: Storage): Ledger {
    map k | k in captured.Keys + storage.Keys && (k in storage ==> storage[k].Some?)
      :: if k in storage then storage[k].value else captured[k]
  }

  /** Applies the stored values to the captured entries, in the order the host lists them. */
  function Overlaid(state: Ledger, stored: seq<(Key, Option<Entry>)>): Ledger {
    if stored == [] then state
    else
      var init, (key, value) := Overlaid(state, stored[..|stored| - 1]), stored[|stored| - 1];
      if value.Some? then init[key := value.value] else init - {key}
  }

  function StorageOf(stored: seq<(Key, Option<Entry>)>): Storage {
    if stored == [] then map[]
    else StorageOf(stored[..|stored| - 1])[stored[|stored| - 1].0 := stored[|stored| - 1].1]
  }

  function LedgerOf(entries: seq<(Key, Entry)>): Ledger {
    if entries == [] then map[]
    else LedgerOf(entries[..|entries| - 1])[entries[|entries| - 1].0 := entries[|entries| - 1].1]
  }

  lemma {:induction false} OverlaidIsEffective(captured: Ledger, stored: seq<(Key, Option<Entry>)>)
    ensures Overlaid(captured, stored) == Effective(captured, StorageOf(stored))
  {
    if stored == [] {
      assert Effective(captured, map[]) == captured;
    } else {
      var init, last := stored[..|stored| - 1], stored[|stored| - 1];
      OverlaidIsEffective(captured, init);
      EffectiveWrite(captured, StorageOf(init), last.0, last.1);
    }
  }

  /** A value put into storage is put into the logical ledger, and nothing else moves. */
  lemma EffectiveWrite(captured: Ledger, storage: Storage, key: Key, value: Option<Entry>)
    ensures Effective(captured, storage[key := value])
            == if value.Some? then Effective(captured, storage)[key := value.value]
               else Effective(captured, storage) - {key}
  {
    var before, after := Effective(captured, storage), Effective(captured, storage[key := value]);
    var expected := if value.Some? then before[key := value.value] else before - {key};
    forall k ensures k in after <==> k in expected {
    }
  }

  /** `effective_state`. */
  method EffectiveState(entries: seq<(Key, Entry)>, stored: seq<(Key, Option<Entry>)>) returns (state: Ledger)
    ensures state == Effective(LedgerOf(entries), StorageOf(stored))
  {
    state := map[];
    for i := 0 to |entries|
      invariant state == LedgerOf(entries[..i])
    {
      assert entries[..i + 1][..i] == entries[..i];
      state := state[entries[i].0 := entries[i].1];
    }
    assert entries[..|entries|] == entries;
    for i := 0 to |stored|
      invariant state == Overlaid(LedgerOf(entries), stored[..i])
    {
      assert stored[..i + 1][..i] == stored[..i];
      var (key, value) := stored[i];
      if value.Some? {
        state := state[key := value.value];
      } else {
        state := state - {key};
      }
    }
    assert stored[..|stored|] == stored;
    OverlaidIsEffective(LedgerOf(entries), stored);
  }

  // ---------- Host operations ----------

  datatype Op =
    | ReadOp(key: Key)
    | WriteOp(key: Key, entry: Entry)
    | DeleteOp(key: Key)
    | PushFrame
    | CommitFrame
    | RollBackFrame
    | GoStrict(expectedAbsent: set<Key>)

  datatype Answer = Value(entry: Option<Entry>) | Done | Failed

  datatype Host = Host(storage: Storage, frames: seq<Storage>, source: SourceState)

  const FRESH_HOST := Host(map[], [], SourceState(false, {}, {}, {}))

  predicate Touches(op: Op) { op.ReadOp? || op.WriteOp? || op.DeleteOp? }

  /** Whether the operation asks the source for a key it may not answer. */
  predicate IsRefused(captured: Ledger, h: Host, op: Op) {
    Touches(op) && op.key !in h.storage && !Answers(captured, h.source, op.key)
  }

  function HostStep(captured: Ledger, h: Host, op: Op): (Host, Answer) {
    if Touches(op) then
      var source := if op.key in h.storage then h.source else Logged(captured, h.source, op.key);
      if IsRefused(captured, h, op) then (h.(source := source), Failed)
      else
        var held := if op.key in h.storage then h.storage[op.key] else Lookup(captured, op.key);
        var value := match op case ReadOp(_) => held case WriteOp(_, e) => Some(e) case _ => None;
        (h.(source := source, storage := h.storage[op.key := value]), if op.ReadOp? then Value(held) else Done)
    else
      match op
      case PushFrame => (h.(frames := h.frames + [h.storage]), Done)
      case CommitFrame => if h.frames == [] then (h, Failed) else (h.(frames := h.frames[..|h.frames| - 1]), Done)
      case RollBackFrame =>
        if h.frames == [] then (h, Failed)
        else (h.(storage := h.frames[|h.frames| - 1], frames := h.frames[..|h.frames| - 1]), Done)
      case GoStrict(keys) =>
        (h.(source := h.source.(strict := true, expectedAbsent := h.source.expectedAbsent + keys)), Done)
      case _ => (h, Failed)
  }

  /** The machine the host must be indistinguishable from: one map, copied at each frame. */
  datatype Plain = Plain(ledger: Ledger, frames: seq<Ledger>)

  function PlainStep(p: Plain, op: Op): (Plain, Answer) {
    match op
    case ReadOp(key) => (p, Value(Lookup(p.ledger, key)))
    case WriteOp(key, entry) => (p.(ledger := p.ledger[key := entry]), Done)
    case DeleteOp(key) => (p.(ledger := p.ledger - {key}), Done)
    case PushFrame => (p.(frames := p.frames + [p.ledger]), Done)
    case CommitFrame => if p.frames == [] then (p, Failed) else (p.(frames := p.frames[..|p.frames| - 1]), Done)
    case RollBackFrame =>
      if p.frames == [] then (p, Failed) else (Plain(p.frames[|p.frames| - 1], p.frames[..|p.frames| - 1]), Done)
    case GoStrict(_) => (p, Done)
  }

  function HostRun(captured: Ledger, h: Host, ops: seq<Op>, n: nat): Host
    requires n <= |ops|
  {
    if n == 0 then h else HostStep(captured, HostRun(captured, h, ops, n - 1), ops[n - 1]).0
  }

  /** The plain machine over the operations the host accepted. */
  function PlainRun(captured: Ledger, h: Host, p: Plain, ops: seq<Op>, n: nat): Plain
    requires n <= |ops|
  {
    if n == 0 then p
    else
      var q := PlainRun(captured, h, p, ops, n - 1);
      if IsRefused(captured, HostRun(captured, h, ops, n - 1), ops[n - 1]) then q else PlainStep(q, ops[n - 1]).0
  }

  /** The plain machine over all the operations. */
  function WholeRun(p: Plain, ops: seq<Op>, n: nat): Plain
    requires n <= |ops|
  {
    if n == 0 then p else PlainStep(WholeRun(p, ops, n - 1), ops[n - 1]).0
  }

  // ---------- Refinement ----------

  /** The host's storage, and every storage a frame would restore, shows the plain ledger. */
  ghost predicate Refines(captured: Ledger, h: Host, p: Plain) {
    && Effective(captured, h.storage) == p.ledger
    && |h.frames| == |p.frames|
    && forall i :: 0 <= i < |h.frames| ==> Effective(captured, h.frames[i]) == p.frames[i]
  }

  /** An accepted operation answers as the plain ledger does and keeps the two in step. */
  lemma StepRefines(captured: Ledger, h: Host, p: Plain, op: Op)
    requires Refines(captured, h, p) && !IsRefused(captured, h, op)
    ensures HostStep(captured, h, op).1 == PlainStep(p, op).1
    ensures Refines(captured, HostStep(captured, h, op).0, PlainStep(p, op).0)
  {
    if Touches(op) {
      var held := if op.key in h.storage then h.storage[op.key] else Lookup(captured, op.key);
      assert held == Lookup(p.ledger, op.key);
      var value := match op case ReadOp(_) => held case WriteOp(_, e) => Some(e) case _ => None;
      EffectiveWrite(captured, h.storage, op.key, value);
      if op.ReadOp? {
        assert (if held.Some? then p.ledger[op.key := held.value] else p.ledger - {op.key}) == p.ledger;
      }
    }
  }

  /**
    For every sequence of reads, writes, deletes and frames: the effective state is the plain
    ledger after the accepted operations, and the logs only grow.
  */
  lemma {:induction false} OverlayRefinesLedger(captured: Ledger, h: Host, p: Plain, ops: seq<Op>, n: nat)
    requires n <= |ops| && Refines(captured, h, p)
    ensures var t := HostRun(captured, h, ops, n);
            && Refines(captured, t, PlainRun(captured, h, p, ops, n))
            && h.source.capturedReads <= t.source.capturedReads
            && h.source.undeclared <= t.source.undeclared
  {
    if n > 0 {
      OverlayRefinesLedger(captured, h, p, ops, n - 1);
      var t := HostRun(captured, h, ops, n - 1);
      StepLogs(captured, t, ops[n - 1]);
      if !IsRefused(captured, t, ops[n - 1]) {
        StepRefines(captured, t, PlainRun(captured, h, p, ops, n - 1), ops[n - 1]);
      }
    }
  }

  /** Logs only grow, and the undeclared log grows exactly by refusals. */
  lemma StepLogs(captured: Ledger, h: Host, op: Op)
    ensures var t := HostStep(captured, h, op).0;
            && h.source.capturedReads <= t.source.capturedReads
            && (if IsRefused(captured, h, op) then
                  t.source.undeclared == h.source.undeclared + {op.key}
                  && t.storage == h.storage && t.frames == h.frames
                else t.source.undeclared == h.source.undeclared)
  {
  }

  /** Operation `i` of the run was refused. */
  predicate RefusedAt(captured: Ledger, h: Host, ops: seq<Op>, i: nat)
    requires i < |ops|
  {
    IsRefused(captured, HostRun(captured, h, ops, i), ops[i])
  }

  lemma RunLogs(captured: Ledger, h: Host, ops: seq<Op>, n: nat)
    requires n < |ops|
    ensures HostRun(captured, h, ops, n + 1).source.undeclared == {} <==>
            HostRun(captured, h, ops, n).source.undeclared == {} && !RefusedAt(captured, h, ops, n)
  {
    var t := HostRun(captured, h, ops, n);
    StepLogs(captured, t, ops[n]);
    if RefusedAt(captured, h, ops, n) {
      assert ops[n].key in HostStep(captured, t, ops[n]).0.source.undeclared;
    }
  }

  /** The source was made strict before operation `i`. */
  ghost predicate WentStrict(ops: seq<Op>, i: nat) {
    exists j :: 0 <= j < i && j < |ops| && ops[j].GoStrict?
  }

  /** And `key` was declared absent when it was. */
  ghost predicate DeclaredAbsent(ops: seq<Op>, i: nat, key: Key) {
    exists j :: 0 <= j < i && j < |ops| && ops[j].GoStrict? && key in ops[j].expectedAbsent
  }

  lemma OneMoreOp(ops: seq<Op>, n: nat, key: Key)
    requires n < |ops|
    ensures WentStrict(ops, n + 1) <==> WentStrict(ops, n) || ops[n].GoStrict?
    ensures DeclaredAbsent(ops, n + 1, key) <==>
            DeclaredAbsent(ops, n, key) || (ops[n].GoStrict? && key in ops[n].expectedAbsent)
  {}

  lemma {:induction false} SourceIsHistory(captured: Ledger, ops: seq<Op>, n: nat, key: Key)
    requires n <= |ops|
    ensures var source := HostRun(captured, FRESH_HOST, ops, n).source;
            && (source.strict <==> WentStrict(ops, n))
            && (key in source.expectedAbsent <==> DeclaredAbsent(ops, n, key))
  {
    if n > 0 {
      SourceIsHistory(captured, ops, n - 1, key);
      OneMoreOp(ops, n - 1, key);
    }
  }

  /**
    Which operations are refused: a first access to a captured key before the source was made
    strict, or to any other key after that unless it was declared absent.
  */
  lemma RefusedExactly(captured: Ledger, ops: seq<Op>, i: nat)
    requires i < |ops|
    ensures RefusedAt(captured, FRESH_HOST, ops, i) <==>
            && (ops[i].ReadOp? || ops[i].WriteOp? || ops[i].DeleteOp?)
            && ops[i].key !in HostRun(captured, FRESH_HOST, ops, i).storage
            && if ops[i].key in captured then !WentStrict(ops, i)
               else WentStrict(ops, i) && !DeclaredAbsent(ops, i, ops[i].key)
  {
    if Touches(ops[i]) { SourceIsHistory(captured, ops, i, ops[i].key); }
  }

  ghost predicate NoneRefused(captured: Ledger, h: Host, ops: seq<Op>, n: nat)
    requires n <= |ops|
  {
    forall i :: 0 <= i < n ==> !RefusedAt(captured, h, ops, i)
  }

  lemma NoneRefusedNext(captured: Ledger, h: Host, ops: seq<Op>, n: nat)
    requires n < |ops|
    ensures NoneRefused(captured, h, ops, n + 1) <==>
        NoneRefused(captured, h, ops, n) && !RefusedAt(captured, h, ops, n)
  {}

  /** The log of undeclared keys is empty exactly when nothing was refused. */
  lemma {:induction false} UndeclaredIsRefused(captured: Ledger, h: Host, ops: seq<Op>, n: nat)
    requires n <= |ops| && h.source.undeclared == {}
    ensures HostRun(captured, h, ops, n).source.undeclared == {} <==> NoneRefused(captured, h, ops, n)
  {
    if n == 0 {
      assert HostRun(captured, h, ops, 0) == h;
    } else {
      UndeclaredIsRefused(captured, h, ops, n - 1);
      RunLogs(captured, h, ops, n - 1);
      NoneRefusedNext(captured, h, ops, n - 1);
    }
  }

  /**
    A run that ends with an empty log of undeclared keys is a run on the plain ledger: every read
    got the plain map's answer and the effective state is the plain map.
  */
  lemma CleanRunIsPlain(captured: Ledger, ops: seq<Op>, n: nat)
    requires n <= |ops|
    requires HostRun(captured, FRESH_HOST, ops, n).source.undeclared == {}
    ensures var h, p := FRESH_HOST, Plain(captured, []);
            && Effective(captured, HostRun(captured, h, ops, n).storage) == WholeRun(p, ops, n).ledger
            && forall i :: 0 <= i < n ==>
                 HostStep(captured, HostRun(captured, h, ops, i), ops[i]).1 == PlainStep(WholeRun(p, ops, i), ops[i]).1
  {
    var h, p := FRESH_HOST, Plain(captured, []);
    assert Effective(captured, map[]) == captured;
    UndeclaredIsRefused(captured, h, ops, n);
    forall i: nat | i <= n ensures PlainRun(captured, h, p, ops, i) == WholeRun(p, ops, i) {
      NothingSkipped(captured, h, p, ops, i);
    }
    forall i | 0 <= i < n
      ensures HostStep(captured, HostRun(captured, h, ops, i), ops[i]).1 == PlainStep(WholeRun(p, ops, i), ops[i]).1
    {
      assert !RefusedAt(captured, h, ops, i);
      OverlayRefinesLedger(captured, h, p, ops, i);
      StepRefines(captured, HostRun(captured, h, ops, i), PlainRun(captured, h, p, ops, i), ops[i]);
    }
    OverlayRefinesLedger(captured, h, p, ops, n);
  }

  lemma {:induction false} NothingSkipped(captured: Ledger, h: Host, p: Plain, ops: seq<Op>, n: nat)
    requires n <= |ops| && NoneRefused(captured, h, ops, n)
    ensures PlainRun(captured, h, p, ops, n) == WholeRun(p, ops, n)
  {
    if n > 0 {
      NothingSkipped(captured, h, p, ops, n - 1);
      assert !RefusedAt(captured, h, ops, n - 1);
    }
  }

  lemma {:induction false} LogGrows(captured: Ledger, h: Host, ops: seq<Op>, m: nat, n: nat)
    requires m <= n <= |ops|
    ensures HostRun(captured, h, ops, m).source.undeclared <= HostRun(captured, h, ops, n).source.undeclared
  {
    if m < n {
      LogGrows(captured, h, ops, m, n - 1);
      StepLogs(captured, HostRun(captured, h, ops, n - 1), ops[n - 1]);
    }
  }

  /** A refused key is in the log of every later state of the run, whatever was rolled back since. */
  lemma RefusalIsRecorded(captured: Ledger, h: Host, ops: seq<Op>, i: nat, n: nat)
    requires i < n <= |ops| && RefusedAt(captured, h, ops, i)
    ensures ops[i].key in HostRun(captured, h, ops, n).source.undeclared
  {
    StepLogs(captured, HostRun(captured, h, ops, i), ops[i]);
    assert HostRun(captured, h, ops, i + 1) == HostStep(captured, HostRun(captured, h, ops, i), ops[i]).0;
    LogGrows(captured, h, ops, i + 1, n);
  }
}
