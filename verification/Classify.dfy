/**
  Classifying the difference between two ledger states, and what an agreeing captured case shows.
*/
module Classify {
  import opened Prelude
  import opened Captured
  import opened Footprint

  datatype Surprise =
    | CreatedKey(key: Key)
    | RemovedKey(key: Key)
    | WroteKey(key: Key)
    | TtlOfKey(key: Key)
    | MissingKey(key: Key)
    | UndeclaredRead(key: Key)

  datatype Changes = Changes(
    created: seq<Key>,
    written: seq<Key>,
    ttlExtended: seq<Key>,
    unexpected: seq<Surprise>)

  datatype Limits = Limits(writable: set<Key>, expectedNew: set<Key>, maxLiveUntil: nat)

  predicate TtlGrows(b: Option<nat>, a: Option<nat>, max: nat) {
    b.Some? && a.Some? && a.value > b.value && a.value <= max
  }

  /** Whether a surprise is one: each kind says which rule a key's entries break. */
  predicate Surprising(s: Surprise, before: Ledger, after: Ledger, l: Limits) {
    match s
    case CreatedKey(k) => k !in before && k in after && k !in l.expectedNew
    case RemovedKey(k) => k in before && k !in after
    case WroteKey(k) => k in before && k in after && before[k].data != after[k].data && k !in l.writable
    case TtlOfKey(k) =>
      && k in before && k in after && before[k].liveUntil != after[k].liveUntil
      && (before[k].liveUntil.Some? && after[k].liveUntil.Some? ==>
          after[k].liveUntil.value < before[k].liveUntil.value || l.maxLiveUntil < after[k].liveUntil.value)
    case MissingKey(k) => k in l.expectedNew && k !in after
    case UndeclaredRead(_) => false
  }

  /** What may differ between two states without surprising anyone. */
  ghost predicate Expected(before: Ledger, after: Ledger, l: Limits) {
    && (forall k :: k in after && k !in before ==> k in l.expectedNew)
    && l.expectedNew <= after.Keys
    && before.Keys <= after.Keys
    && (forall k :: k in before && k in after && before[k].data != after[k].data ==> k in l.writable)
    && (forall k :: k in before && k in after && before[k].liveUntil != after[k].liveUntil ==>
          && before[k].liveUntil.Some? && after[k].liveUntil.Some?
          && before[k].liveUntil.value <= after[k].liveUntil.value <= l.maxLiveUntil)
  }

  lemma ExpectedIsUnsurprising(before: Ledger, after: Ledger, l: Limits)
    ensures Expected(before, after, l) <==> forall s :: !Surprising(s, before, after, l)
  {
    if forall s :: !Surprising(s, before, after, l) {
      forall k | k in before.Keys + after.Keys + l.expectedNew
        ensures k in before ==> k in after
        ensures k in l.expectedNew ==> k in after
        ensures k in after && k !in before ==> k in l.expectedNew
      {
        assert !Surprising(RemovedKey(k), before, after, l) && !Surprising(MissingKey(k), before, after, l);
        assert !Surprising(CreatedKey(k), before, after, l);
      }
      forall k | k in before && k in after
        ensures before[k].data != after[k].data ==> k in l.writable
        ensures before[k].liveUntil != after[k].liveUntil ==>
          && before[k].liveUntil.Some? && after[k].liveUntil.Some?
          && before[k].liveUntil.value <= after[k].liveUntil.value <= l.maxLiveUntil
      {
        assert !Surprising(WroteKey(k), before, after, l) && !Surprising(TtlOfKey(k), before, after, l);
      }
    }
  }

  predicate IsWritten(k: Key, before: Ledger, after: Ledger, l: Limits) {
    k in before && k in after && before[k].data != after[k].data && k in l.writable
  }

  predicate IsExtended(k: Key, before: Ledger, after: Ledger, l: Limits) {
    && k in before && k in after && before[k].liveUntil != after[k].liveUntil
    && TtlGrows(before[k].liveUntil, after[k].liveUntil, l.maxLiveUntil)
  }

  predicate IsCreated(k: Key, before: Ledger, after: Ledger, l: Limits) {
    k !in before && k in after && k in l.expectedNew
  }

  /** The comparison of one key, appended to the lists. */
  method ClassifyKey(k: Key, before: Ledger, after: Ledger, l: Limits, c: Changes) returns (r: Changes)
    ensures r.created == c.created + (if IsCreated(k, before, after, l) then [k] else [])
    ensures r.written == c.written + (if IsWritten(k, before, after, l) then [k] else [])
    ensures r.ttlExtended == c.ttlExtended + (if IsExtended(k, before, after, l) then [k] else [])
    ensures forall s :: s in r.unexpected <==>
              s in c.unexpected || (s.key == k && !s.MissingKey? && Surprising(s, before, after, l))
  {
    r := c;
    if k !in before && k in after {
      if k in l.expectedNew {
        r := r.(created := r.created + [k]);
      } else {
        r := r.(unexpected := r.unexpected + [CreatedKey(k)]);
      }
    } else if k in before && k !in after {
      r := r.(unexpected := r.unexpected + [RemovedKey(k)]);
    } else if k in before && k in after {
      if before[k].data != after[k].data {
        if k in l.writable {
          r := r.(written := r.written + [k]);
        } else {
          r := r.(unexpected := r.unexpected + [WroteKey(k)]);
        }
      }
      var b, a := before[k].liveUntil, after[k].liveUntil;
      if b != a {
        if TtlGrows(b, a, l.maxLiveUntil) {
          r := r.(ttlExtended := r.ttlExtended + [k]);
        } else {
          r := r.(unexpected := r.unexpected + [TtlOfKey(k)]);
        }
      }
    }
  }

  /** `classify`: what is reported as unexpected is so, and each of the lists is complete. */
  method Classify(before: Ledger, after: Ledger, l: Limits) returns (c: Changes)
    ensures forall s :: s in c.unexpected <==> Surprising(s, before, after, l)
    ensures c.unexpected == [] <==> Expected(before, after, l)
    ensures forall k :: k in c.created <==> IsCreated(k, before, after, l)
    ensures forall k :: k in c.written <==> IsWritten(k, before, after, l)
    ensures forall k :: k in c.ttlExtended <==> IsExtended(k, before, after, l)
  {
    c := Changes([], [], [], []);
    var left := before.Keys + after.Keys;
    ghost var done: set<Key> := {};
    while left != {}
      invariant done + left == before.Keys + after.Keys && done !! left
      invariant forall k :: k in c.created <==> k in done && IsCreated(k, before, after, l)
      invariant forall k :: k in c.written <==> k in done && IsWritten(k, before, after, l)
      invariant forall k :: k in c.ttlExtended <==> k in done && IsExtended(k, before, after, l)
      invariant forall s :: s in c.unexpected <==>
          s.key in done && !s.MissingKey? && Surprising(s, before, after, l)
      decreases left
    {
      var k :| k in left;
      c := ClassifyKey(k, before, after, l, c);
      left, done := left - {k}, done + {k};
    }
    assert forall s :: Surprising(s, before, after, l) && !s.MissingKey? ==> s.key in done;
    c := AddMissing(before, after, l, c);
    ExpectedIsUnsurprising(before, after, l);
    if c.unexpected != [] { assert c.unexpected[0] in c.unexpected; }
  }

  /** Entries that should have appeared and did not. */
  method AddMissing(before: Ledger, after: Ledger, l: Limits, found: Changes) returns (c: Changes)
    ensures c == found.(unexpected := c.unexpected)
    ensures forall s :: s in c.unexpected <==>
              s in found.unexpected || (s.MissingKey? && Surprising(s, before, after, l))
  {
    c := found;
    var missing := l.expectedNew;
    while missing != {}
      invariant missing <= l.expectedNew && c == found.(unexpected := c.unexpected)
      invariant forall s :: s in c.unexpected <==>
          s in found.unexpected || (s.MissingKey? && s.key !in missing && Surprising(s, before, after, l))
      decreases missing
    {
      var k :| k in missing;
      if k !in after {
        c := c.(unexpected := c.unexpected + [MissingKey(k)]);
      }
      missing := missing - {k};
    }
  }

  // ---------- One captured case ----------

  /** How balances are read from entries; uninterpreted beyond depending on the entry's data. */
  datatype Balances = Balances(sac: string -> int, classic: string -> int)

  datatype Case = Case(
    senderKey: Key,
    recipientKey: Key,
    counterKey: Option<Key>, // the candidate's counter, when the rule is capped
    nonceKeys: set<Key>,
    amount: int,
    expectedCode: Option<nat>)

  datatype Observation = Observation(
    permitted: bool,
    attributed: bool,
    counterBefore: Option<u32>,
    counterAfter: Option<u32>,
    undeclared: seq<Key>,
    before: Ledger,
    after: Ledger)

  /** What may differ in a case: the prepared entries marked writable, the counter, the nonces. */
  function CaseLimits(c: Case, prepared: seq<Prepared>, maxLiveUntil: nat): Limits {
    Limits(WritableKeys(prepared) + (if c.counterKey.Some? then {c.counterKey.value} else {}),
           if c.expectedCode.None? then c.nonceKeys else {},
           maxLiveUntil)
  }

  predicate Readable(c: Case, o: Observation) {
    && c.senderKey in o.before && c.senderKey in o.after
    && c.recipientKey in o.before && c.recipientKey in o.after
  }

  predicate Moved(c: Case, o: Observation, bal: Balances)
    requires Readable(c, o)
  {
    && bal.sac(o.after[c.senderKey].data) == bal.sac(o.before[c.senderKey].data) - c.amount
    && bal.classic(o.after[c.recipientKey].data) == bal.classic(o.before[c.recipientKey].data) + c.amount
  }

  /** The counter went up by one, `checked_add` failing at the top; an uncounted rule has none. */
  predicate Counted(o: Observation) {
    o.counterAfter
    == if o.counterBefore.Some? && o.counterBefore.value + 1 < U32_LIMIT then Some(o.counterBefore.value + 1) else None
  }

  ghost predicate PermitAgrees(
    c: Case, o: Observation, prepared: seq<Prepared>, maxLiveUntil: nat, bal: Balances)
    requires Readable(c, o)
  {
    && o.permitted && o.undeclared == []
    && Expected(o.before, o.after, CaseLimits(c, prepared, maxLiveUntil))
    && Moved(c, o, bal) && Counted(o)
    && o.after[c.senderKey].data != o.before[c.senderKey].data
    && o.after[c.recipientKey].data != o.before[c.recipientKey].data
  }

  ghost predicate DenialAgrees(
    c: Case, o: Observation, prepared: seq<Prepared>, maxLiveUntil: nat, hash: Ledger -> string) {
    && !o.permitted && o.attributed && o.undeclared == []
    && Expected(o.before, o.after, CaseLimits(c, prepared, maxLiveUntil))
    && hash(o.before) == hash(o.after) && o.counterBefore == o.counterAfter
  }

  /**
    The part of `execute_captured` that decides whether one case agrees; it gives up when one of the
    two balances has disappeared.
  */
  method Agree(
    c: Case, o: Observation, prepared: seq<Prepared>, maxLiveUntil: nat, bal: Balances, hash: Ledger -> string)
    returns (r: Option<bool>)
    ensures r.None? <==> !Readable(c, o)
    ensures r == Some(true) <==>
            && Readable(c, o)
            && if c.expectedCode.None? then PermitAgrees(c, o, prepared, maxLiveUntil, bal)
               else DenialAgrees(c, o, prepared, maxLiveUntil, hash)
  {
    var changes := Classify(o.before, o.after, CaseLimits(c, prepared, maxLiveUntil));
    for i := 0 to |o.undeclared|
      invariant changes.unexpected == [] <==>
          i == 0 && Expected(o.before, o.after, CaseLimits(c, prepared, maxLiveUntil))
      invariant forall k :: k in changes.written <==>
          IsWritten(k, o.before, o.after, CaseLimits(c, prepared, maxLiveUntil))
    {
      changes := changes.(unexpected := changes.unexpected + [UndeclaredRead(o.undeclared[i])]);
    }
    if c.senderKey !in o.before || c.senderKey !in o.after { return None; }
    if c.recipientKey !in o.before || c.recipientKey !in o.after { return None; }
    var senderDelta := bal.sac(o.after[c.senderKey].data) - bal.sac(o.before[c.senderKey].data);
    var recipientDelta := bal.classic(o.after[c.recipientKey].data) - bal.classic(o.before[c.recipientKey].data);
    if c.expectedCode.None? {
      var counterAdvanced :=
        if o.counterBefore.None? then o.counterAfter.None?
        else if o.counterBefore.value + 1 < U32_LIMIT then o.counterAfter == Some(o.counterBefore.value + 1)
        else o.counterAfter.None?;
      r := Some(o.permitted && senderDelta == -c.amount && recipientDelta == c.amount && counterAdvanced
        && changes.unexpected == [] && c.senderKey in changes.written && c.recipientKey in changes.written);
    } else {
      r := Some(!o.permitted && o.attributed && hash(o.before) == hash(o.after)
        && o.counterBefore == o.counterAfter && changes.unexpected == []);
    }
  }

  // ---------- What an agreeing case shows about the ledger ----------

  /** The observation is of a host that ran `ops` over the strict source, before step `m` and after step `n`. */
  ghost predicate Observes(o: Observation, captured: Ledger, ops: seq<Op>, m: nat, n: nat)
    requires m <= n <= |ops|
  {
    && o.before == Effective(captured, HostRun(captured, FRESH_HOST, ops, m).storage)
    && o.after == Effective(captured, HostRun(captured, FRESH_HOST, ops, n).storage)
    && forall k <- HostRun(captured, FRESH_HOST, ops, n).source.undeclared :: k in o.undeclared
  }

  /** With nothing undeclared, what was observed are the states of the plain ledger. */
  lemma ObservedIsLedger(o: Observation, captured: Ledger, ops: seq<Op>, m: nat, n: nat)
    requires m <= n <= |ops| && Observes(o, captured, ops, m, n) && o.undeclared == []
    ensures o.before == WholeRun(Plain(captured, []), ops, m).ledger
    ensures o.after == WholeRun(Plain(captured, []), ops, n).ledger
  {
    assert HostRun(captured, FRESH_HOST, ops, n).source.undeclared == {};
    CleanRunIsPlain(captured, ops, n);
    LogGrows(captured, FRESH_HOST, ops, m, n);
    CleanRunIsPlain(captured, ops, m);
  }

  /** The case is about the transfer of the accepted capture. */
  ghost predicate Prepares(
    c: Case, capture: Capture, closure: Closure, hasTtl: Key -> bool, prepared: seq<Prepared>)
  {
    && closure.instance != closure.sender && closure.instance != closure.recipient
    && closure.sender != closure.recipient
    && Exact(capture, closure, hasTtl) && Marked(prepared, capture.entries, closure)
    && c.senderKey == closure.sender && c.recipientKey == closure.recipient
  }

  /** Two states that differ, among common keys, in data at `free` only, and in lifetimes by bounded growth. */
  ghost predicate DifferOnlyAt(before: Ledger, after: Ledger, free: set<Key>, maxLiveUntil: nat) {
    forall k <- before :: k in after
      && (before[k].data != after[k].data ==> k in free)
      && (before[k].liveUntil == after[k].liveUntil ||
          (before[k].liveUntil.Some? && after[k].liveUntil.Some?
           && before[k].liveUntil.value < after[k].liveUntil.value <= maxLiveUntil))
  }

  function Touchable(c: Case): set<Key> {
    {c.senderKey, c.recipientKey} + (if c.counterKey.Some? then {c.counterKey.value} else {})
  }

  /**
    What an agreeing permit case is, in full: nothing undeclared was read, exactly the nonces are
    new and nothing is gone, only the two balances and the counter have other data, the sender's
    balance is down and the recipient's up by the amount, and the counter, if there is one, is up
    by one.
  */
  lemma PermitAgreesExactly(
    c: Case, o: Observation, capture: Capture, closure: Closure, hasTtl: Key -> bool, prepared: seq<Prepared>,
    maxLiveUntil: nat, bal: Balances)
    requires Prepares(c, capture, closure, hasTtl, prepared) && Readable(c, o) && c.expectedCode.None?
    ensures PermitAgrees(c, o, prepared, maxLiveUntil, bal) <==>
            && o.permitted && o.undeclared == []
            && o.after.Keys == o.before.Keys + c.nonceKeys
            && DifferOnlyAt(o.before, o.after, Touchable(c), maxLiveUntil)
            && o.after[c.senderKey].data != o.before[c.senderKey].data
            && o.after[c.recipientKey].data != o.before[c.recipientKey].data
            && bal.sac(o.before[c.senderKey].data) - bal.sac(o.after[c.senderKey].data) == c.amount
            && bal.classic(o.after[c.recipientKey].data) - bal.classic(o.before[c.recipientKey].data) == c.amount
            && match (o.counterBefore, o.counterAfter)
               case (Some(b), Some(a)) => a as int == b as int + 1
               case (Some(b), None) => b as int + 1 == 0x1_0000_0000
               case (None, a) => a.None?
  {
    WritableAreBalances(capture, closure, hasTtl, prepared);
    SameLimits(c, o, prepared, maxLiveUntil);
  }

  lemma SameLimits(c: Case, o: Observation, prepared: seq<Prepared>, maxLiveUntil: nat)
    requires WritableKeys(prepared) == {c.senderKey, c.recipientKey}
    ensures Expected(o.before, o.after, CaseLimits(c, prepared, maxLiveUntil)) <==>
            && o.after.Keys == o.before.Keys + (if c.expectedCode.None? then c.nonceKeys else {})
            && DifferOnlyAt(o.before, o.after, Touchable(c), maxLiveUntil)
  {
    assert CaseLimits(c, prepared, maxLiveUntil).writable == Touchable(c);
  }

  /** And an agreeing denial: the entries are the same ones, and neither hash nor counter moved. */
  lemma DenialAgreesExactly(
    c: Case, o: Observation, capture: Capture, closure: Closure, hasTtl: Key -> bool, prepared: seq<Prepared>,
    maxLiveUntil: nat, hash: Ledger -> string)
    requires Prepares(c, capture, closure, hasTtl, prepared) && c.expectedCode.Some?
    ensures DenialAgrees(c, o, prepared, maxLiveUntil, hash) <==>
            && !o.permitted && o.attributed && o.undeclared == []
            && o.after.Keys == o.before.Keys
            && DifferOnlyAt(o.before, o.after, Touchable(c), maxLiveUntil)
            && hash(o.before) == hash(o.after) && o.counterBefore == o.counterAfter
  {
    WritableAreBalances(capture, closure, hasTtl, prepared);
    SameLimits(c, o, prepared, maxLiveUntil);
  }

  /**
    The chain from the closure check to the verdict: in an agreeing permit case of an accepted
    capture, the plain ledger itself gained exactly the nonces, lost nothing, changed data only at
    the two balances and the counter, and the two balances moved by the amount against each other.
  */
  lemma AgreeingPermit(
    c: Case, o: Observation, capture: Capture, closure: Closure, hasTtl: Key -> bool, prepared: seq<Prepared>,
    ops: seq<Op>, m: nat, n: nat, maxLiveUntil: nat, bal: Balances)
    requires Prepares(c, capture, closure, hasTtl, prepared) && m <= n <= |ops|
    requires Observes(o, CapturedLedger(prepared), ops, m, n)
    requires Readable(c, o) && c.expectedCode.None? && PermitAgrees(c, o, prepared, maxLiveUntil, bal)
    ensures var start := Plain(CapturedLedger(prepared), []);
            var before, after := WholeRun(start, ops, m).ledger, WholeRun(start, ops, n).ledger;
            && after.Keys == before.Keys + c.nonceKeys
            && DifferOnlyAt(before, after, Touchable(c), maxLiveUntil)
            && c.senderKey in before && c.recipientKey in before
            && bal.sac(after[c.senderKey].data) == bal.sac(before[c.senderKey].data) - c.amount
            && bal.sac(after[c.senderKey].data) + bal.classic(after[c.recipientKey].data)
               == bal.sac(before[c.senderKey].data) + bal.classic(before[c.recipientKey].data)
    ensures forall i :: 0 <= i < n ==>
              HostStep(CapturedLedger(prepared), HostRun(CapturedLedger(prepared), FRESH_HOST, ops, i), ops[i]).1
              == PlainStep(WholeRun(Plain(CapturedLedger(prepared), []), ops, i), ops[i]).1
  {
    WritableAreBalances(capture, closure, hasTtl, prepared);
    ObservedIsLedger(o, CapturedLedger(prepared), ops, m, n);
    CleanRunIsPlain(CapturedLedger(prepared), ops, n);
    assert CaseLimits(c, prepared, maxLiveUntil).writable == Touchable(c);
  }

  /** The state hash tells these two ledgers apart if they differ. */
  predicate Tells(hash: Ledger -> string, a: Ledger, b: Ledger) { hash(a) == hash(b) ==> a == b }

  /**
    The same for a denial: the plain ledger has the same entries, nonces included, and can differ
    only at the two balances and the counter; where its hash tells, it did not change at all.
  */
  lemma AgreeingDenial(
    c: Case, o: Observation, capture: Capture, closure: Closure, hasTtl: Key -> bool, prepared: seq<Prepared>,
    ops: seq<Op>, m: nat, n: nat, maxLiveUntil: nat, hash: Ledger -> string)
    requires Prepares(c, capture, closure, hasTtl, prepared) && m <= n <= |ops|
    requires Observes(o, CapturedLedger(prepared), ops, m, n)
    requires c.expectedCode.Some? && DenialAgrees(c, o, prepared, maxLiveUntil, hash)
    ensures var start := Plain(CapturedLedger(prepared), []);
            var before, after := WholeRun(start, ops, m).ledger, WholeRun(start, ops, n).ledger;
            && after.Keys == before.Keys
            && DifferOnlyAt(before, after, Touchable(c), maxLiveUntil)
            && (Tells(hash, before, after) ==> after == before)
  {
    WritableAreBalances(capture, closure, hasTtl, prepared);
    ObservedIsLedger(o, CapturedLedger(prepared), ops, m, n);
    assert CaseLimits(c, prepared, maxLiveUntil).writable == Touchable(c);
  }
}
