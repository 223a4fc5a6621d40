/**
  The closure check on a captured target: the declared footprint and the captured entries must be
  exactly the three entries a native transfer touches, each of them live.
*/
module Footprint {
  import opened Prelude
  import opened Captured

  // ---------- Strictly sorted keys ----------

  /** The order of `String`: the shorter of two equal beginnings comes first. */
  predicate Before(a: string, b: string) {
    b != [] && (a == [] || a[0] < b[0] || (a[0] == b[0] && Before(a[1..], b[1..])))
  }

  lemma {:induction false} BeforeIsStrict(a: string, b: string, c: string)
    ensures !Before(a, a)
    ensures Before(a, b) && Before(b, c) ==> Before(a, c)
  {
    if a != [] {
      BeforeIsStrict(a[1..], if b == [] then [] else b[1..], if c == [] then [] else c[1..]);
    }
  }

  /** It is lexicographic: past a common beginning the second goes on alone, or with the greater character. */
  lemma {:induction false} BeforeIsLexicographic(a: string, b: string)
    ensures Before(a, b) <==> (a <= b && a != b) || exists i :: Diverges(a, b, i)
  {
    if a != [] && b != [] && a[0] == b[0] {
      BeforeIsLexicographic(a[1..], b[1..]);
      assert a == [a[0]] + a[1..] && b == [b[0]] + b[1..];
      if i :| Diverges(a[1..], b[1..], i) { assert Diverges(a, b, i + 1); }
      if i :| Diverges(a, b, i) { DivergesLater(a, b, i); }
    } else if a != [] && b != [] && a[0] < b[0] {
      assert Diverges(a, b, 0);
    }
  }

  predicate Diverges(a: string, b: string, i: int) {
    0 <= i < |a| && i < |b| && a[..i] == b[..i] && a[i] < b[i]
  }

  lemma DivergesLater(a: string, b: string, i: int)
    requires Diverges(a, b, i) && a[0] == b[0]
    ensures Diverges(a[1..], b[1..], i - 1)
  {
    assert a[1..][..i - 1] == a[..i][1..] && b[1..][..i - 1] == b[..i][1..];
  }

  ghost predicate StrictlySorted(keys: seq<Key>) {
    forall i :: 0 < i < |keys| ==> Before(keys[i - 1].xdr, keys[i].xdr)
  }

  method IsStrictlySorted(keys: seq<Key>) returns (sorted: bool)
    ensures sorted <==> StrictlySorted(keys)
  {
    for i := 0 to |keys|
      invariant forall j :: 0 < j < i ==> Before(keys[j - 1].xdr, keys[j].xdr)
    {
      if i > 0 && !Before(keys[i - 1].xdr, keys[i].xdr) { return false; }
    }
    sorted := true;
  }

  lemma {:induction false} SortedApart(keys: seq<Key>, i: nat, j: nat)
    requires StrictlySorted(keys) && i < j < |keys|
    ensures Before(keys[i].xdr, keys[j].xdr) && keys[i] != keys[j]
  {
    if i + 1 < j {
      SortedApart(keys, i, j - 1);
      BeforeIsStrict(keys[i].xdr, keys[j - 1].xdr, keys[j].xdr);
    }
    BeforeIsStrict(keys[i].xdr, keys[i].xdr, keys[i].xdr);
  }

  function KeySet(keys: seq<Key>): set<Key> { set k | k in keys }

  /** Strictly sorted keys are all different, so they are as many as their set has members. */
  lemma {:induction false} SortedCount(keys: seq<Key>)
    requires StrictlySorted(keys)
    ensures |KeySet(keys)| == |keys|
  {
    if keys != [] {
      var n := |keys| - 1;
      var init, last := keys[..n], keys[n];
      SortedCount(init);
      forall k | k in init ensures k != last {
        var i :| 0 <= i < n && init[i] == k;
        SortedApart(keys, i, n);
      }
      assert keys == init + [last];
      assert KeySet(keys) == KeySet(init) + {last};
    } else {
      assert KeySet(keys) == {};
    }
  }

  lemma SubsetOfSameSize(a: set<Key>, b: set<Key>)
    requires a <= b && |a| == |b|
    ensures a == b
  {
    assert b == a + (b - a);
  }

  /** Three sorted keys drawn from three different ones are those three, and the other way round. */
  lemma ThreeKeys(keys: seq<Key>, all: set<Key>)
    requires StrictlySorted(keys) && |all| == 3
    ensures |keys| == 3 && (forall k <- keys :: k in all) <==> KeySet(keys) == all
  {
    SortedCount(keys);
    if |keys| == 3 && forall k <- keys :: k in all {
      SubsetOfSameSize(KeySet(keys), all);
    }
    if KeySet(keys) == all {
      forall k <- keys ensures k in all { assert k in KeySet(keys); }
    }
  }

  // ---------- The capture ----------

  /** `own` is the key the data itself has; `asset` marks the built-in asset contract's instance. */
  datatype Entered = Entered(
    key: Key, own: Key, data: string, lastModified: nat, liveUntil: Option<nat>, asset: bool)

  datatype Capture = Capture(readOnly: seq<Key>, readWrite: seq<Key>, entries: seq<Entered>, observed: nat)

  /** The transfer's three keys, which are of different kinds. */
  datatype Closure = Closure(instance: Key, sender: Key, recipient: Key)

  datatype Prepared = Prepared(entry: Entered, writable: bool)

  function KeysOf(entries: seq<Entered>): seq<Key> {
    seq(|entries|, i requires 0 <= i < |entries| => entries[i].key)
  }

  function Pairs(prepared: seq<Prepared>): seq<(Key, Entry)> {
    seq(|prepared|, i requires 0 <= i < |prepared| =>
          (prepared[i].entry.key, Entry(prepared[i].entry.data, prepared[i].entry.liveUntil)))
  }

  /** The captured ledger that prepared entries stand for. */
  function CapturedLedger(prepared: seq<Prepared>): Ledger {
    LedgerOf(Pairs(prepared))
  }

  function WritableKeys(prepared: seq<Prepared>): set<Key> {
    set p <- prepared | p.writable :: p.entry.key
  }

  /** The entry is its key's, not from a later ledger, and alive at the ledger after the capture. */
  predicate Healthy(e: Entered, observed: nat, instance: Key, hasTtl: Key -> bool) {
    && e.own == e.key && e.lastModified <= observed && hasTtl(e.key) == e.liveUntil.Some?
    && (e.liveUntil.Some? ==> observed < e.liveUntil.value)
    && (e.key == instance ==> e.asset)
  }

  /** What an accepted capture is: exactly the closure, in order, and healthy. */
  ghost predicate Exact(c: Capture, k: Closure, hasTtl: Key -> bool) {
    && StrictlySorted(c.readOnly) && KeySet(c.readOnly) == {k.instance}
    && StrictlySorted(c.readWrite) && KeySet(c.readWrite) == {k.sender, k.recipient}
    && StrictlySorted(KeysOf(c.entries)) && KeySet(KeysOf(c.entries)) == {k.instance, k.sender, k.recipient}
    && forall e <- c.entries ::
         && e.own == e.key && e.lastModified <= c.observed
         && (if hasTtl(e.key) then e.liveUntil.Some? && c.observed + 1 <= e.liveUntil.value else e.liveUntil.None?)
         && (e.asset || e.key != k.instance)
  }

  ghost predicate Marked(prepared: seq<Prepared>, entries: seq<Entered>, k: Closure) {
    |prepared| == |entries| &&
    forall i :: 0 <= i < |entries| ==>
      prepared[i].entry == entries[i] && (prepared[i].writable <==> entries[i].key != k.instance)
  }

  /** The entry loop: every key must be declared, every entry healthy. */
  method MarkEntries(c: Capture, k: Closure, hasTtl: Key -> bool) returns (r: Option<seq<Prepared>>)
    requires k.instance != k.sender && k.instance != k.recipient
    ensures r.Some? <==> forall e <- c.entries ::
              e.key in {k.instance, k.sender, k.recipient} && Healthy(e, c.observed, k.instance, hasTtl)
    ensures r.Some? ==> Marked(r.value, c.entries, k)
  {
    var prepared := [];
    for i := 0 to |c.entries|
      invariant forall e <- c.entries[..i] ::
                  e.key in {k.instance, k.sender, k.recipient} && Healthy(e, c.observed, k.instance, hasTtl)
      invariant Marked(prepared, c.entries[..i], k)
    {
      var e := c.entries[i];
      assert c.entries[..i + 1] == c.entries[..i] + [e];
      var writable := false;
      if e.key == k.instance {
      } else if e.key in {k.sender, k.recipient} {
        writable := true;
      } else {
        return None;
      }
      if !Healthy(e, c.observed, k.instance, hasTtl) { return None; }
      prepared := prepared + [Prepared(e, writable)];
    }
    assert c.entries[..|c.entries|] == c.entries;
    r := Some(prepared);
  }

  /** The closure check accepts a capture exactly when it is exact, and marks the two balances writable. */
  method CheckFootprint(c: Capture, k: Closure, hasTtl: Key -> bool) returns (r: Option<seq<Prepared>>)
    requires k.instance != k.sender && k.instance != k.recipient && k.sender != k.recipient
    ensures r.Some? <==> Exact(c, k, hasTtl)
    ensures r.Some? ==> Marked(r.value, c.entries, k)
  {
    var keys := KeysOf(c.entries);
    var a := IsStrictlySorted(c.readOnly);
    var b := IsStrictlySorted(c.readWrite);
    var d := IsStrictlySorted(keys);
    if !a || !b || KeySet(c.readOnly) != {k.instance} || KeySet(c.readWrite) != {k.sender, k.recipient} {
      return None;
    }
    if d { ThreeKeys(keys, {k.instance, k.sender, k.recipient}); }
    if |c.entries| != 3 || !d { return None; }
    KeysAre(c.entries, {k.instance, k.sender, k.recipient});
    r := MarkEntries(c, k, hasTtl);
  }

  lemma KeysAre(entries: seq<Entered>, all: set<Key>)
    ensures (forall k <- KeysOf(entries) :: k in all) <==> forall e <- entries :: e.key in all
  {
    forall i | 0 <= i < |entries| ensures KeysOf(entries)[i] == entries[i].key
        && KeysOf(entries)[i] in KeysOf(entries) && entries[i] in entries {}
    if forall k <- KeysOf(entries) :: k in all {
      forall e <- entries ensures e.key in all {
        var i :| 0 <= i < |entries| && entries[i] == e;
        assert KeysOf(entries)[i] == e.key;
      }
    }
  }

  /** The ledger holds the entry at `i`. */
  predicate Holds(ledger: Ledger, entries: seq<(Key, Entry)>, i: nat)
    requires i < |entries|
  {
    entries[i].0 in ledger && ledger[entries[i].0] == entries[i].1
  }

  ghost predicate HasKey(entries: seq<(Key, Entry)>, key: Key) {
    exists i :: 0 <= i < |entries| && entries[i].0 == key
  }

  /** The ledger of entries has their keys and no others, and of entries with different keys it holds each. */
  lemma {:induction false} LedgerKeys(entries: seq<(Key, Entry)>, key: Key)
    ensures key in LedgerOf(entries) <==> HasKey(entries, key)
  {
    if entries != [] {
      LedgerKeys(entries[..|entries| - 1], key);
      assert entries[|entries| - 1].0 == key ==> HasKey(entries, key);
    }
  }

  lemma {:induction false} LedgerHolds(entries: seq<(Key, Entry)>, i: nat)
    requires i < |entries| && forall j :: i < j < |entries| ==> entries[j].0 != entries[i].0
    ensures Holds(LedgerOf(entries), entries, i)
  {
    if i < |entries| - 1 { LedgerHolds(entries[..|entries| - 1], i); }
  }

  /** So an accepted capture's ledger is its three entries. */
  lemma CapturedAsPrepared(c: Capture, k: Closure, hasTtl: Key -> bool, prepared: seq<Prepared>)
    requires Exact(c, k, hasTtl) && Marked(prepared, c.entries, k)
    ensures forall i :: 0 <= i < |c.entries| ==>
              && c.entries[i].key in CapturedLedger(prepared)
              && CapturedLedger(prepared)[c.entries[i].key] == Entry(c.entries[i].data, c.entries[i].liveUntil)
    ensures CapturedLedger(prepared).Keys == {k.instance, k.sender, k.recipient}
  {
    var keys, pairs := KeysOf(c.entries), Pairs(prepared);
    forall i | 0 <= i < |c.entries| ensures Holds(LedgerOf(pairs), pairs, i) {
      forall j | i < j < |pairs| ensures pairs[j].0 != pairs[i].0 { SortedApart(keys, i, j); }
      LedgerHolds(pairs, i);
    }
    assert CapturedLedger(prepared) == LedgerOf(pairs);
    forall i | 0 <= i < |c.entries|
      ensures c.entries[i].key in CapturedLedger(prepared)
      ensures CapturedLedger(prepared)[c.entries[i].key] == Entry(c.entries[i].data, c.entries[i].liveUntil)
    {
      assert Holds(LedgerOf(pairs), pairs, i);
      assert pairs[i].0 == c.entries[i].key && pairs[i].1 == Entry(c.entries[i].data, c.entries[i].liveUntil);
    }
    forall key ensures key in LedgerOf(pairs) <==> key in KeySet(keys) {
      LedgerKeys(pairs, key);
      SameKeys(c.entries, prepared, k, key);
    }
  }

  lemma SameKeys(entries: seq<Entered>, prepared: seq<Prepared>, k: Closure, key: Key)
    requires Marked(prepared, entries, k)
    ensures HasKey(Pairs(prepared), key) <==> key in KeySet(KeysOf(entries))
  {
    var keys, pairs := KeysOf(entries), Pairs(prepared);
    if i :| 0 <= i < |pairs| && pairs[i].0 == key { assert keys[i] == key; }
    if i :| 0 <= i < |keys| && keys[i] == key { assert pairs[i].0 == key; }
  }

  lemma IsWritableKey(prepared: seq<Prepared>, key: Key)
    ensures key in WritableKeys(prepared) <==>
        exists i :: 0 <= i < |prepared| && prepared[i].writable && prepared[i].entry.key == key
  {
    if i :| 0 <= i < |prepared| && prepared[i].writable && prepared[i].entry.key == key {
      assert prepared[i] in prepared;
    }
  }

  /** An exact capture has three entries, and the writable ones are the two balances. */
  lemma WritableAreBalances(c: Capture, k: Closure, hasTtl: Key -> bool, prepared: seq<Prepared>)
    requires k.instance != k.sender && k.instance != k.recipient && k.sender != k.recipient
    requires Exact(c, k, hasTtl) && Marked(prepared, c.entries, k)
    ensures |prepared| == 3
    ensures WritableKeys(prepared) == {k.sender, k.recipient}
  {
    var keys := KeysOf(c.entries);
    ThreeKeys(keys, {k.instance, k.sender, k.recipient});
    forall key ensures key in WritableKeys(prepared) <==> key in {k.sender, k.recipient} {
      IsWritableKey(prepared, key);
      if key in {k.sender, k.recipient} {
        assert key in KeySet(keys);
        var i :| 0 <= i < |keys| && keys[i] == key;
        assert prepared[i].writable && prepared[i].entry.key == key;
      }
      if i :| 0 <= i < |prepared| && prepared[i].writable && prepared[i].entry.key == key {
        assert keys[i] == key && keys[i] in KeySet(keys);
      }
    }
  }
}
