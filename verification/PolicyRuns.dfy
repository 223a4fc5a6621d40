/**
  Whole runs of one deployed policy: any interleaving of installs, enforcements, uninstalls and
  queries by any accounts and rules, each at its own ledger, refusals rolled back.
*/
module PolicyRuns {
  import opened Prelude
  import opened Policy

  datatype Call =
    | InstallCall(ledger: Ledger, authorised: bool, key: Key)
    | EnforceCall(attempt: Attempt)
    | UninstallCall(authorised: bool, key: Key)
    | QueryCall(key: Key)
  {
    function Subject(): Key { if EnforceCall? then attempt.Key() else key }
  }

  ghost function Apply(g: Grant, s: Storage, c: Call): (Storage, Result<nat, PolicyError>) {
    match c
    case InstallCall(ledger, authorised, key) => Installed(g, s, ledger, authorised, key)
    case EnforceCall(attempt) => Enforced(g, s, attempt)
    case UninstallCall(authorised, key) => Uninstalled(s, authorised, key)
    case QueryCall(key) => (s, RemainingCalls(g, s, key))
  }

  /** Storage after the first `n` calls of a schedule. */
  ghost function After(g: Grant, s: Storage, calls: seq<Call>, n: nat): Storage
    requires n <= |calls|
  {
    if n == 0 then s else Apply(g, After(g, s, calls, n - 1), calls[n - 1]).0
  }

  ghost function Outcome(g: Grant, s: Storage, calls: seq<Call>, i: nat): Result<nat, PolicyError>
    requires i < |calls|
  {
    Apply(g, After(g, s, calls, i), calls[i]).1
  }

  // ---------- What the log of a run says ----------

  ghost predicate InstallAt(g: Grant, s: Storage, calls: seq<Call>, k: Key, i: nat)
    requires i < |calls|
  {
    calls[i].InstallCall? && calls[i].key == k && Outcome(g, s, calls, i).Ok?
  }

  ghost predicate UninstallAt(g: Grant, s: Storage, calls: seq<Call>, k: Key, i: nat)
    requires i < |calls|
  {
    calls[i].UninstallCall? && calls[i].key == k && Outcome(g, s, calls, i).Ok?
  }

  ghost predicate PermitAt(g: Grant, s: Storage, calls: seq<Call>, k: Key, i: nat)
    requires i < |calls|
  {
    calls[i].EnforceCall? && calls[i].attempt.Key() == k && Outcome(g, s, calls, i).Ok?
  }

  /** Call `i` installed `k`, and `k` has not been uninstalled among the calls before `n`. */
  ghost predicate InstalledSince(g: Grant, s: Storage, calls: seq<Call>, k: Key, i: nat, n: nat)
    requires n <= |calls|
  {
    && i < n
    && InstallAt(g, s, calls, k, i)
    && forall j :: i < j < n ==> !UninstallAt(g, s, calls, k, j)
  }

  /** How many of the calls from `lo` up to `n` permitted an authorization under `k`. */
  ghost function Permits(g: Grant, s: Storage, calls: seq<Call>, k: Key, lo: nat, n: nat): nat
    requires n <= |calls|
  {
    if n <= lo then 0
    else Permits(g, s, calls, k, lo, n - 1) + (if PermitAt(g, s, calls, k, n - 1) then 1 else 0)
  }

  // ---------- What every call keeps ----------

  ghost predicate Consistent(g: Grant, s: Storage) {
    && s.marker.Keys == s.counter.Keys
    && forall k :: k in s.counter ==> s.counter[k].used <= g.maxCalls
  }

  /** An enforcement permits exactly an admissible attempt on an installation with calls left. */
  lemma PermitsExactly(g: Grant, s: Storage, a: Attempt)
    ensures Enforced(g, s, a).1.Ok? <==>
            && Admissible(g, a)
            && a.Key() in s.marker && a.Key() in s.counter
            && s.counter[a.Key()].used < g.maxCalls
  {
    var cs := Conditions(g, s, a);
    if i :| 0 <= i < |cs| && cs[i].fails {
      var first := FirstFailing(cs, i);
      RefusalIs(cs, first);
      if Admissible(g, a) {
        assert a.signers != [];
      }
    } else {
      RefusalIs(cs, |cs|);
      assert forall i :: 0 <= i < |cs| ==> !cs[i].fails;
      assert !cs[0].fails && !cs[1].fails && !cs[2].fails && !cs[3].fails && !cs[4].fails && !cs[5].fails;
      assert !cs[6].fails && !cs[7].fails && !cs[8].fails && !cs[9].fails && !cs[10].fails && !cs[11].fails;
    }
  }

  lemma {:induction false} FirstFailing<E>(cs: seq<Check<E>>, i: nat) returns (first: nat)
    requires i < |cs| && cs[i].fails
    ensures first <= i && cs[first].fails && forall j :: 0 <= j < first ==> !cs[j].fails
  {
    first := 0;
    while !cs[first].fails
      invariant first <= i
      invariant forall j :: 0 <= j < first ==> !cs[j].fails
      decreases i - first
    {
      first := first + 1;
    }
  }

  /** With marker and counter kept together, the branch for a missing counter is never taken. */
  lemma MissingStateMeansNotInstalled(g: Grant, s: Storage, a: Attempt)
    requires Consistent(g, s)
    ensures Enforced(g, s, a).1 == Err(MissingState) <==> a.authorised && a.Key() !in s.marker
    ensures RemainingCalls(g, s, a.Key()).Err? <==> a.Key() !in s.marker
  {
    var cs := Conditions(g, s, a);
    PermitsExactly(g, s, a);
    if !a.authorised {
      RefusalIs(cs, 0);
    } else if a.Key() !in s.marker {
      RefusalIs(cs, 1);
    } else if i :| 0 <= i < |cs| && cs[i].fails {
      var first := FirstFailing(cs, i);
      RefusalIs(cs, first);
      assert !cs[0].fails && !cs[1].fails && !cs[10].fails;
      assert first == 2 || first == 3 || first == 4 || first == 5 || first == 6 || first == 7 || first == 8
             || first == 9 || first == 11;
      assert cs[2].code == RuleExpired && cs[3].code == ZeroSigners && cs[4].code == PredicateUnsatisfied;
      assert cs[5].code == SignerSetDiverged && cs[6].code == cs[8].code == FunctionNotAllowed;
      assert cs[7].code == TargetMismatch && cs[9].code == NoTupleMatched && cs[11].code == CallCountExceeded;
    } else {
      RefusalIs(cs, |cs|);
      assert !cs[11].fails;
    }
  }

  /** One call keeps marker and counter together, never passes the cap, and touches one key. */
  lemma ApplyKeeps(g: Grant, s: Storage, c: Call)
    requires Consistent(g, s)
    ensures Consistent(g, Apply(g, s, c).0)
    ensures forall k :: k != c.Subject() ==> View(Apply(g, s, c).0, k) == View(s, k)
    ensures Apply(g, s, c).1.Err? ==> Apply(g, s, c).0 == s
  {
    if c.EnforceCall? {
      PermitsExactly(g, s, c.attempt);
    }
  }

  lemma {:induction false} RunKeeps(g: Grant, s: Storage, calls: seq<Call>, n: nat)
    requires Consistent(g, s) && n <= |calls|
    ensures Consistent(g, After(g, s, calls, n))
  {
    if n > 0 {
      RunKeeps(g, s, calls, n - 1);
      ApplyKeeps(g, After(g, s, calls, n - 1), calls[n - 1]);
    }
  }

  // ---------- The counter is the history ----------

  /** `k` stood from the start and was never uninstalled, so no install of it succeeded either. */
  ghost predicate StoodThroughout(g: Grant, s: Storage, calls: seq<Call>, k: Key, n: nat)
    requires n <= |calls|
  {
    k in s.marker && forall j :: 0 <= j < n ==> !UninstallAt(g, s, calls, k, j)
  }

  /**
    From any consistent storage: `k` is installed after `n` calls exactly when some install of it
    has not been undone, or it stood throughout. Its counter is then the number of permits since
    that install, or what it was plus all permits.
  */
  lemma {:induction false} CounterFrom(g: Grant, s: Storage, calls: seq<Call>, k: Key, n: nat)
    requires Consistent(g, s) && n <= |calls|
    ensures var t := After(g, s, calls, n);
            && Consistent(g, t)
            && (k in t.marker <==>
                  StoodThroughout(g, s, calls, k, n) || exists i: nat :: InstalledSince(g, s, calls, k, i, n))
            && (forall i: nat :: InstalledSince(g, s, calls, k, i, n) ==>
                  k in t.counter && t.counter[k].used == Permits(g, s, calls, k, i + 1, n)
                  && !StoodThroughout(g, s, calls, k, n))
            && (StoodThroughout(g, s, calls, k, n) ==>
                  k in t.counter && t.counter[k].used == s.counter[k].used + Permits(g, s, calls, k, 0, n))
  {
    if n > 0 {
      var p := After(g, s, calls, n - 1);
      CounterFrom(g, s, calls, k, n - 1);
      ApplyKeeps(g, p, calls[n - 1]);
      InstallStep(g, s, calls, k, n);
      StoodStep(g, s, calls, k, n);
      CounterStep(g, p, calls[n - 1], k);
      if k in p.marker && !UninstallAt(g, s, calls, k, n - 1) {
        var m := n - 1;
        if i: nat :| InstalledSince(g, s, calls, k, i, m) {
          assert InstalledSince(g, s, calls, k, i, n);
        }
      }
      if InstallAt(g, s, calls, k, n - 1) {
        assert InstalledSince(g, s, calls, k, n - 1, n);
      }
    }
  }

  lemma StoodStep(g: Grant, s: Storage, calls: seq<Call>, k: Key, n: nat)
    requires 0 < n <= |calls|
    ensures StoodThroughout(g, s, calls, k, n)
            <==> StoodThroughout(g, s, calls, k, n - 1) && !UninstallAt(g, s, calls, k, n - 1)
  {}

  /**
    From empty storage: `k` is installed exactly when some install of it has not been undone, and
    then its counter is the number of permits since that install, never above the cap.
  */
  lemma CounterIsHistory(g: Grant, instance: nat, calls: seq<Call>, k: Key, n: nat)
    requires n <= |calls|
    ensures var s := EMPTY.(instance := instance); var t := After(g, s, calls, n);
            && Consistent(g, t)
            && (k in t.marker <==> exists i: nat :: InstalledSince(g, s, calls, k, i, n))
            && (forall i: nat :: InstalledSince(g, s, calls, k, i, n) ==>
                  k in t.counter && t.counter[k].used == Permits(g, s, calls, k, i + 1, n) <= g.maxCalls)
  {
    CounterFrom(g, EMPTY.(instance := instance), calls, k, n);
  }

  /** How the set of standing installs of `k` changes with one more call. */
  lemma InstallStep(g: Grant, s: Storage, calls: seq<Call>, k: Key, n: nat)
    requires 0 < n <= |calls|
    ensures forall i: nat :: i < n - 1 ==>
      (InstalledSince(g, s, calls, k, i, n)
       <==> InstalledSince(g, s, calls, k, i, n - 1) && !UninstallAt(g, s, calls, k, n - 1))
    ensures InstalledSince(g, s, calls, k, n - 1, n) <==> InstallAt(g, s, calls, k, n - 1)
  {
  }

  /** What one call does to the entries of `k`, told by its outcome. */
  lemma CounterStep(g: Grant, p: Storage, c: Call, k: Key)
    requires Consistent(g, p)
    ensures var (t, r) := Apply(g, p, c);
            if c.Subject() == k && r.Ok? && c.InstallCall? then
              k !in p.marker && k in t.marker && t.counter[k].used == 0
            else if c.Subject() == k && r.Ok? && c.UninstallCall? then
              k in p.marker && k !in t.marker
            else
              && (k in t.marker <==> k in p.marker)
              && (k in p.marker ==>
                    t.counter[k].used
                    == p.counter[k].used + if c.Subject() == k && r.Ok? && c.EnforceCall? then 1 else 0)
  {
    ApplyKeeps(g, p, c);
    if c.EnforceCall? {
      PermitsExactly(g, p, c.attempt);
    }
    if c.Subject() != k {
      assert View(Apply(g, p, c).0, k) == View(p, k);
    }
  }

  /** No installation ever permits more than its cap, and no permit falls past the window. */
  lemma CapAndWindow(g: Grant, instance: nat, calls: seq<Call>, k: Key, i: nat, n: nat)
    requires n <= |calls|
    requires InstalledSince(g, EMPTY.(instance := instance), calls, k, i, n)
    ensures Permits(g, EMPTY.(instance := instance), calls, k, i + 1, n) <= g.maxCalls
    ensures forall j :: i < j < n && PermitAt(g, EMPTY.(instance := instance), calls, k, j) ==>
              && Admissible(g, calls[j].attempt)
              && calls[j].attempt.ledger.sequence <= g.validUntil
  {
    var s := EMPTY.(instance := instance);
    CounterIsHistory(g, instance, calls, k, n);
    forall j | i < j < n && PermitAt(g, s, calls, k, j) ensures Admissible(g, calls[j].attempt) {
      PermitsExactly(g, After(g, s, calls, j), calls[j].attempt);
    }
  }

  // ---------- Installations do not observe each other ----------

  datatype Installation = Absent | Present(markerLives: nat, counter: Counter) | Broken

  /** Everything the policy stores for one (account, rule). */
  function View(s: Storage, k: Key): Installation {
    if k in s.marker && k in s.counter then Present(s.marker[k], s.counter[k])
    else if k !in s.marker && k !in s.counter then Absent
    else Broken
  }

  function Only(calls: seq<Call>, k: Key): seq<Call> {
    if calls == [] then []
    else
      var init := Only(calls[..|calls| - 1], k);
      if calls[|calls| - 1].Subject() == k then init + [calls[|calls| - 1]] else init
  }

  /** Equal entries for a key give equal outcomes and equal entries after a call on that key. */
  lemma SameViewSameStep(g: Grant, s: Storage, t: Storage, c: Call)
    requires Consistent(g, s) && Consistent(g, t)
    requires View(s, c.Subject()) == View(t, c.Subject())
    ensures Apply(g, s, c).1 == Apply(g, t, c).1
    ensures View(Apply(g, s, c).0, c.Subject()) == View(Apply(g, t, c).0, c.Subject())
  {
    if c.EnforceCall? {
      assert Conditions(g, s, c.attempt) == Conditions(g, t, c.attempt);
      PermitsExactly(g, s, c.attempt);
      PermitsExactly(g, t, c.attempt);
    }
  }

  /**
    Non-interference: deleting every call on other keys from a schedule leaves the entries of `k`
    and the outcome of its next call exactly as they were.
  */
  lemma {:induction false} OthersAreInvisible(g: Grant, s: Storage, calls: seq<Call>, k: Key)
    requires Consistent(g, s)
    ensures var mine := Only(calls, k);
            View(After(g, s, calls, |calls|), k) == View(After(g, s, mine, |mine|), k)
    ensures forall c: Call :: c.Subject() == k ==>
              Apply(g, After(g, s, calls, |calls|), c).1
              == Apply(g, After(g, s, Only(calls, k), |Only(calls, k)|), c).1
  {
    var n := |calls|;
    var mine := Only(calls, k);
    if n > 0 {
      var init, c := calls[..n - 1], calls[n - 1];
      var mineInit := Only(init, k);
      OthersAreInvisible(g, s, init, k);
      AfterPrefix(g, s, calls, init, n - 1);
      RunKeeps(g, s, init, n - 1);
      RunKeeps(g, s, mineInit, |mineInit|);
      ApplyKeeps(g, After(g, s, init, n - 1), c);
      if c.Subject() == k {
        AfterPrefix(g, s, mine, mineInit, |mineInit|);
        SameViewSameStep(g, After(g, s, init, n - 1), After(g, s, mineInit, |mineInit|), c);
      }
    }
    RunKeeps(g, s, calls, n);
    RunKeeps(g, s, mine, |mine|);
    forall c: Call | c.Subject() == k
      ensures Apply(g, After(g, s, calls, n), c).1 == Apply(g, After(g, s, mine, |mine|), c).1
    {
      SameViewSameStep(g, After(g, s, calls, n), After(g, s, mine, |mine|), c);
    }
  }

  lemma {:induction false} AfterPrefix(g: Grant, s: Storage, a: seq<Call>, b: seq<Call>, n: nat)
    requires n <= |a| && n <= |b|
    requires a[..n] == b[..n]
    ensures After(g, s, a, n) == After(g, s, b, n)
  {
    if n > 0 {
      assert a[n - 1] == a[..n][n - 1] == b[n - 1];
      assert a[..n - 1] == a[..n][..n - 1] == b[..n - 1];
      AfterPrefix(g, s, a, b, n - 1);
    }
  }

  // ---------- Rent ----------

  function Sequence(c: Call): nat {
    match c
    case InstallCall(ledger, _, _) => ledger.sequence
    case EnforceCall(attempt) => attempt.ledger.sequence
    case _ => 0
  }

  function MaxTtl(c: Call): nat {
    match c
    case InstallCall(ledger, _, _) => ledger.maxTtl
    case EnforceCall(attempt) => attempt.ledger.maxTtl
    case _ => 0
  }

  /** A lifetime either stays, or grows to somewhere inside the window and the network's reach. */
  ghost predicate Extends(g: Grant, c: Call, before: nat, after: nat) {
    after == before
    || (before < after <= g.validUntil && after <= Sequence(c) + MaxTtl(c))
  }

  /** How long a new entry lives when an install has just written it. */
  function Written(c: Call): nat {
    match c
    case InstallCall(ledger, _, _) => SaturatingSub(ledger.sequence + ledger.minPersistentTtl, 1)
    case _ => 0
  }

  /** The lifetimes of `k`'s entries that a call's extension starts from. */
  function MarkerBase(s: Storage, c: Call, k: Key): nat { if k in s.marker then s.marker[k] else Written(c) }

  function CounterBase(s: Storage, c: Call, k: Key): nat {
    if k in s.counter then s.counter[k].liveUntil else Written(c)
  }

  lemma InstanceExtension(g: Grant, s: Storage, c: Call)
    requires Consistent(g, s)
    ensures Extends(g, c, s.instance, Apply(g, s, c).0.instance)
  {
    if c.EnforceCall? { PermitsExactly(g, s, c.attempt); }
  }

  lemma EntryExtension(g: Grant, s: Storage, c: Call, k: Key)
    requires Consistent(g, s) && k in Apply(g, s, c).0.marker
    ensures var t := Apply(g, s, c).0;
            && k in t.counter
            && Extends(g, c, MarkerBase(s, c, k), t.marker[k])
            && Extends(g, c, CounterBase(s, c, k), t.counter[k].liveUntil)
            && (k !in s.marker ==> c.InstallCall? && c.key == k)
  {
    ApplyKeeps(g, s, c);
    if c.Subject() != k {
      assert View(Apply(g, s, c).0, k) == View(s, k);
    } else if c.EnforceCall? {
      PermitsExactly(g, s, c.attempt);
    }
  }

  /**
    No call shortens a life or extends one past the window or the network bound: not the instance's,
    and not that of any entry there is afterwards, the ones an install has just written included.
  */
  lemma ExtensionsAreBounded(g: Grant, s: Storage, c: Call)
    requires Consistent(g, s)
    ensures var t := Apply(g, s, c).0;
            && Consistent(g, t)
            && Extends(g, c, s.instance, t.instance)
            && forall k :: k in t.marker ==>
                 && k in t.counter
                 && Extends(g, c, MarkerBase(s, c, k), t.marker[k])
                 && Extends(g, c, CounterBase(s, c, k), t.counter[k].liveUntil)
                 && (k !in s.marker ==> c.InstallCall? && c.key == k)
  {
    ApplyKeeps(g, s, c);
    InstanceExtension(g, s, c);
    forall k | k in Apply(g, s, c).0.marker
      ensures k in Apply(g, s, c).0.counter
      ensures Extends(g, c, MarkerBase(s, c, k), Apply(g, s, c).0.marker[k])
      ensures Extends(g, c, CounterBase(s, c, k), Apply(g, s, c).0.counter[k].liveUntil)
      ensures k !in s.marker ==> c.InstallCall? && c.key == k
    {
      EntryExtension(g, s, c, k);
    }
  }

  /** From a life of `before`: up to `sequence + r` if at most half of `r` was left, else unchanged. */
  predicate KeptUp(before: nat, after: nat, sequence: nat, r: int) {
    after == if r > 0 && before <= sequence + r / 2 then sequence + r else before
  }

  /** What is left of the window, or the network's reach if that is less. */
  function LedgersLeft(g: Grant, l: Ledger): int {
    if g.validUntil - l.sequence <= l.maxTtl then g.validUntil - l.sequence else l.maxTtl
  }

  /**
    The exact effect of a permit: one use is spent, and while calls remain the three lives last
    until the window closes, or as far as the network reaches. The last call keeps up nothing.
  */
  lemma PermitKeepsAlive(g: Grant, s: Storage, a: Attempt)
    requires Enforced(g, s, a).1.Ok?
    ensures var t, k, l := Enforced(g, s, a).0, a.Key(), a.ledger;
            && k in s.marker && k in s.counter && k in t.marker && k in t.counter
            && t.counter[k].used == s.counter[k].used + 1
            && Enforced(g, s, a).1.value == g.maxCalls - s.counter[k].used - 1
            && var r := if s.counter[k].used + 1 < g.maxCalls then LedgersLeft(g, l) else 0;
               && KeptUp(s.marker[k], t.marker[k], l.sequence, r)
               && KeptUp(s.counter[k].liveUntil, t.counter[k].liveUntil, l.sequence, r)
               && KeptUp(s.instance, t.instance, l.sequence, r)
  {
    PermitsExactly(g, s, a);
  }

  /** The exact effect of an install: a zero count, and the same from the lives it has just written. */
  lemma InstallKeepsAlive(g: Grant, s: Storage, l: Ledger, k: Key)
    requires Consistent(g, s) && Installed(g, s, l, true, k).1.Ok?
    ensures var t := Installed(g, s, l, true, k).0;
            && k !in s.marker && k in t.marker && k in t.counter && t.counter[k].used == 0
            && var r := if g.maxCalls > 0 then LedgersLeft(g, l) else 0;
               var written := if l.sequence + l.minPersistentTtl > 0 then l.sequence + l.minPersistentTtl - 1 else 0;
               && KeptUp(written, t.marker[k], l.sequence, r)
               && KeptUp(written, t.counter[k].liveUntil, l.sequence, r)
               && KeptUp(s.instance, t.instance, l.sequence, r)
  {
  }

  /** For instance, an early install of the transfer policy lives to the end of its window. */
  lemma TransferInstallLives(k: Key)
    ensures var l := Ledger(3000000, 3110400, 120960);
            && Installed(TransferGrant(), EMPTY, l, true, k).1.Ok?
            && Installed(TransferGrant(), EMPTY, l, true, k).0.marker[k] == 4223456
  {
  }

  ghost predicate StandsBetween(g: Grant, s: Storage, calls: seq<Call>, k: Key, lo: nat, n: nat)
    requires n <= |calls|
  {
    forall j :: lo <= j < n ==> !UninstallAt(g, s, calls, k, j)
  }

  /**
    Over the calls from `lo` up to `n` a lifetime stayed, or grew to somewhere inside the window and
    the network's reach at one of those calls.
  */
  ghost predicate GrowsOver(g: Grant, calls: seq<Call>, lo: nat, n: nat, before: nat, after: nat)
    requires n <= |calls|
  {
    after == before
    || (before < after <= g.validUntil && exists j :: lo <= j < n && after <= Sequence(calls[j]) + MaxTtl(calls[j]))
  }

  lemma GrowsOneMore(g: Grant, calls: seq<Call>, lo: nat, n: nat, before: nat, middle: nat, after: nat)
    requires lo <= n < |calls| && GrowsOver(g, calls, lo, n, before, middle) && Extends(g, calls[n], middle, after)
    ensures GrowsOver(g, calls, lo, n + 1, before, after)
  {
    if after != middle { assert after <= Sequence(calls[n]) + MaxTtl(calls[n]); }
  }

  /** Over every run, installs and uninstalls included, the instance only grows, within both bounds. */
  lemma {:induction false} InstanceOverRuns(g: Grant, s: Storage, calls: seq<Call>, n: nat)
    requires Consistent(g, s) && n <= |calls|
    ensures GrowsOver(g, calls, 0, n, s.instance, After(g, s, calls, n).instance)
  {
    if n > 0 {
      InstanceOverRuns(g, s, calls, n - 1);
      RunKeeps(g, s, calls, n - 1);
      var p := After(g, s, calls, n - 1);
      ExtensionsAreBounded(g, p, calls[n - 1]);
      GrowsOneMore(g, calls, 0, n - 1, s.instance, p.instance, After(g, s, calls, n).instance);
    }
  }

  /** While a key stands its two lifetimes only grow, within both bounds. */
  lemma {:induction false} RentWhileStanding(g: Grant, s: Storage, calls: seq<Call>, k: Key, lo: nat, n: nat)
    requires Consistent(g, s) && lo <= n <= |calls|
    requires k in After(g, s, calls, lo).marker && StandsBetween(g, s, calls, k, lo, n)
    ensures var p := After(g, s, calls, lo); var t := After(g, s, calls, n);
            && Consistent(g, p) && Consistent(g, t) && k in t.marker
            && GrowsOver(g, calls, lo, n, p.marker[k], t.marker[k])
            && GrowsOver(g, calls, lo, n, p.counter[k].liveUntil, t.counter[k].liveUntil)
  {
    RunKeeps(g, s, calls, lo);
    if lo < n {
      RentWhileStanding(g, s, calls, k, lo, n - 1);
      var o, p, c := After(g, s, calls, lo), After(g, s, calls, n - 1), calls[n - 1];
      assert !UninstallAt(g, s, calls, k, n - 1);
      CounterStep(g, p, c, k);
      ExtensionsAreBounded(g, p, c);
      var t := After(g, s, calls, n);
      GrowsOneMore(g, calls, lo, n - 1, o.marker[k], p.marker[k], t.marker[k]);
      GrowsOneMore(g, calls, lo, n - 1, o.counter[k].liveUntil, p.counter[k].liveUntil, t.counter[k].liveUntil);
    }
  }

  /**
    Over every run since an install that stands: marker and counter live at least as long as that
    install wrote them for, and longer only within the window and the network's reach at some call,
    the install's own extension included.
  */
  lemma RentOverRuns(g: Grant, s: Storage, calls: seq<Call>, k: Key, i: nat, n: nat)
    requires Consistent(g, s) && n <= |calls| && InstalledSince(g, s, calls, k, i, n)
    ensures var t := After(g, s, calls, n);
            && k in t.marker && k in t.counter
            && GrowsOver(g, calls, i, n, Written(calls[i]), t.marker[k])
            && GrowsOver(g, calls, i, n, Written(calls[i]), t.counter[k].liveUntil)
  {
    var p, q, t := After(g, s, calls, i), After(g, s, calls, i + 1), After(g, s, calls, n);
    RunKeeps(g, s, calls, i);
    CounterStep(g, p, calls[i], k);
    ExtensionsAreBounded(g, p, calls[i]);
    RentWhileStanding(g, s, calls, k, i + 1, n);
    GrowsOneMore(g, calls, i, i, Written(calls[i]), Written(calls[i]), q.marker[k]);
    GrowsOneMore(g, calls, i, i, Written(calls[i]), Written(calls[i]), q.counter[k].liveUntil);
    GrowsFurther(g, calls, i, i + 1, n, Written(calls[i]), q.marker[k], t.marker[k]);
    GrowsFurther(g, calls, i, i + 1, n, Written(calls[i]), q.counter[k].liveUntil, t.counter[k].liveUntil);
  }

  lemma GrowsFurther(g: Grant, calls: seq<Call>, lo: nat, m: nat, n: nat, before: nat, middle: nat, after: nat)
    requires lo <= m <= n <= |calls|
    requires GrowsOver(g, calls, lo, m, before, middle) && GrowsOver(g, calls, m, n, middle, after)
    ensures GrowsOver(g, calls, lo, n, before, after)
  {
    if after != middle {
      var j :| m <= j < n && after <= Sequence(calls[j]) + MaxTtl(calls[j]);
    }
  }

  /** An exhausted installation never changes again, lifetimes included, until it is uninstalled. */
  lemma {:induction false} ExhaustedIsFrozen(g: Grant, s: Storage, calls: seq<Call>, k: Key, lo: nat, n: nat)
    requires Consistent(g, s) && lo <= n <= |calls|
    requires k in After(g, s, calls, lo).counter && After(g, s, calls, lo).counter[k].used == g.maxCalls
    requires StandsBetween(g, s, calls, k, lo, n)
    ensures View(After(g, s, calls, n), k) == View(After(g, s, calls, lo), k)
    ensures forall j :: lo <= j < n ==> !PermitAt(g, s, calls, k, j)
  {
    RunKeeps(g, s, calls, lo);
    if lo < n {
      ExhaustedIsFrozen(g, s, calls, k, lo, n - 1);
      RunKeeps(g, s, calls, n - 1);
      var p, c := After(g, s, calls, n - 1), calls[n - 1];
      assert View(p, k).Present?;
      ApplyKeeps(g, p, c);
      assert !UninstallAt(g, s, calls, k, n - 1);
      if c.EnforceCall? {
        PermitsExactly(g, p, c.attempt);
      }
    }
  }
}
