/**
  The native execution worker's stateful sequence: it drives one fresh installation to its cap,
  tries a doubled authorization at the last call and one call too many, and reports whether the
  deployed policy enforces exactly the declared cap.
*/
module Worker {
  import opened Prelude
  import opened Policy
  import opened PolicyRuns

  /** Delegate nonces are this base plus the request number. */
  const NONCE_BASE := 1000

  datatype World = World(storage: Storage, nonces: set<int>)

  /** `hash` stands for the snapshot hash; no property here needs it to be injective. */
  datatype Baseline = Baseline(grant: Grant, request: Attempt, hash: World -> string)

  datatype AttemptLog = AttemptLog(
    result: Result<(), PolicyError>,
    before: string,
    after: string,
    counterBefore: Option<nat>,
    counterAfter: Option<nat>)

  datatype StatefulResult = StatefulResult(
    successfulCalls: nat,
    counterBefore: nat,
    counterAfter: nat,
    overflowRefused: bool,
    overflowRolledBack: bool,
    partialRollbackRefused: bool,
    partialRollbackPreservedCounter: bool,
    passed: bool)

  function CounterOf(s: Storage, k: Key): Option<nat> {
    if k in s.counter then Some(s.counter[k].used) else None
  }

  /** The account enforces its policy once per context; the first refusal is the result. */
  ghost function EnforceAll(g: Grant, s: Storage, a: Attempt, contexts: nat): Result<Storage, PolicyError> {
    if contexts == 0 then Ok(s)
    else
      match EnforceAll(g, s, a, contexts - 1)
      case Err(e) => Err(e)
      case Ok(t) =>
        var (u, r) := Enforced(g, t, a);
        if r.Ok? then Ok(u) else Err(r.error)
  }

  /** One authorization attempt: all of it is kept, or none of it. */
  ghost function Attempted(g: Grant, w: World, nonce: int, a: Attempt, contexts: nat)
    : (World, Result<(), PolicyError>)
  {
    if nonce in w.nonces then (w, Err(AuthRefused))
    else
      match EnforceAll(g, w.storage, a, contexts)
      case Err(e) => (w, Err(e))
      case Ok(t) => (World(t, w.nonces + {nonce}), Ok(()))
  }

  class Runner {
    const baseline: Baseline
    const policy: GeneratedPolicy
    var nonces: set<int>
    var requestCount: nat

    /** A fresh account with the candidate installed and its counter seeded at zero. */
    constructor (baseline: Baseline, setup: Ledger)
      requires setup.sequence <= baseline.grant.validUntil
      ensures fresh(policy) && this.baseline == baseline && policy.grant == baseline.grant
      ensures Fresh() && requestCount == 0
      ensures baseline.request.Key() in policy.marker
      ensures CounterOf(policy.State(), baseline.request.Key()) == Some(0)
    {
      this.baseline := baseline;
      this.policy := new GeneratedPolicy(baseline.grant, 0);
      this.nonces := {};
      this.requestCount := 0;
      new;
      var installed := policy.Install(setup, true, baseline.request.Key());
      var k := baseline.request.Key();
      policy.counter := policy.counter[k := policy.counter[k].(used := 0)];
    }

    function Current(): World
      reads this, policy
    {
      World(policy.State(), nonces)
    }

    /** Every nonce consumed so far belongs to an earlier request. */
    ghost predicate Fresh()
      reads this
    {
      forall n :: n in nonces ==> n <= NONCE_BASE + requestCount
    }

    method Attempt(contexts: nat) returns (log: AttemptLog)
      requires NoDuplicates(baseline.grant.expected)
      requires policy.grant == baseline.grant
      requires Fresh()
      modifies this, policy
      ensures Fresh() && requestCount == old(requestCount) + 1
      ensures (Current(), log.result)
              == Attempted(baseline.grant, old(Current()), NONCE_BASE + requestCount, baseline.request, contexts)
      ensures log.before == baseline.hash(old(Current())) && log.after == baseline.hash(Current())
      ensures log.counterBefore == CounterOf(old(policy.State()), baseline.request.Key())
      ensures log.counterAfter == CounterOf(policy.State(), baseline.request.Key())
    {
      var k := baseline.request.Key();
      requestCount := requestCount + 1;
      var nonce := NONCE_BASE + requestCount;
      var counterBefore := CounterOf(policy.State(), k);
      var before := baseline.hash(Current());
      var saved := Current();
      var result := Ok(());
      nonces := nonces + {nonce};
      var i := 0;
      while i < contexts
        invariant i <= contexts
        invariant nonces == saved.nonces + {nonce} && requestCount == old(requestCount) + 1
        invariant result == Ok(())
        invariant EnforceAll(baseline.grant, saved.storage, baseline.request, i) == Ok(policy.State())
      {
        var r := policy.Enforce(baseline.request);
        if r.Err? {
          result := Err(r.error);
          RefusalStays(baseline.grant, saved.storage, baseline.request, i + 1, contexts);
          break;
        }
        i := i + 1;
      }
      if result.Err? {
        // The host restores everything the failed frame touched, the consumed nonce included.
        policy.marker, policy.counter, policy.instance :=
          saved.storage.marker, saved.storage.counter, saved.storage.instance;
        nonces := saved.nonces;
      }
      log := AttemptLog(result, before, baseline.hash(Current()), counterBefore, CounterOf(policy.State(), k));
    }
  }

  lemma {:induction false} RefusalStays(g: Grant, s: Storage, a: Attempt, i: nat, contexts: nat)
    requires i <= contexts && EnforceAll(g, s, a, i).Err?
    ensures EnforceAll(g, s, a, contexts) == EnforceAll(g, s, a, i)
    decreases contexts - i
  {
    if i < contexts {
      RefusalStays(g, s, a, i + 1, contexts);
    }
  }

  /** An admissible attempt on a standing installation spends one call, or is refused for the cap. */
  lemma SpendsOneCall(g: Grant, s: Storage, a: Attempt)
    requires Admissible(g, a) && a.Key() in s.marker && a.Key() in s.counter
    ensures var (t, r) := Enforced(g, s, a);
            if s.counter[a.Key()].used < g.maxCalls then
              r.Ok? && a.Key() in t.marker && CounterOf(t, a.Key()) == Some(s.counter[a.Key()].used + 1)
            else r == Err(CallCountExceeded)
  {
    PermitsExactly(g, s, a);
    if s.counter[a.Key()].used >= g.maxCalls {
      var cs := Conditions(g, s, a);
      assert !cs[0].fails && !cs[1].fails && !cs[2].fails && !cs[3].fails && !cs[4].fails && !cs[5].fails;
      assert !cs[6].fails && !cs[7].fails && !cs[8].fails && !cs[9].fails && !cs[10].fails && cs[11].fails;
      RefusalIs(cs, 11);
    }
  }

  /** Enforcing once per context spends that many calls if they fit the cap, and is refused otherwise. */
  lemma {:induction false} EnforceAllCounts(g: Grant, s: Storage, a: Attempt, contexts: nat)
    requires Admissible(g, a) && a.Key() in s.marker && a.Key() in s.counter
    ensures var used := s.counter[a.Key()].used;
            if contexts == 0 || used + contexts <= g.maxCalls then
              && EnforceAll(g, s, a, contexts).Ok?
              && a.Key() in EnforceAll(g, s, a, contexts).value.marker
              && CounterOf(EnforceAll(g, s, a, contexts).value, a.Key()) == Some(used + contexts)
            else EnforceAll(g, s, a, contexts) == Err(CallCountExceeded)
  {
    if contexts > 0 {
      EnforceAllCounts(g, s, a, contexts - 1);
      if EnforceAll(g, s, a, contexts - 1).Ok? {
        SpendsOneCall(g, EnforceAll(g, s, a, contexts - 1).value, a);
      }
    }
  }

  /** An attempt with any number of contexts, in terms of the counter alone. */
  lemma AttemptedCounts(g: Grant, w: World, nonce: int, a: Attempt, contexts: nat)
    requires Admissible(g, a) && a.Key() in w.storage.marker && a.Key() in w.storage.counter
    requires nonce !in w.nonces
    ensures var (v, r) := Attempted(g, w, nonce, a, contexts); var used := w.storage.counter[a.Key()].used;
            && a.Key() in v.storage.marker && a.Key() in v.storage.counter
            && if contexts == 0 || used + contexts <= g.maxCalls then
                 r == Ok(()) && v.storage.counter[a.Key()].used == used + contexts
               else r == Err(CallCountExceeded) && v == w
  {
    EnforceAllCounts(g, w.storage, a, contexts);
  }

  /**
    The stateful part of `execute` for a declared cap. It passes exactly when the deployed policy
    enforces that cap and the cap is positive.
  */
  method Stateful(baseline: Baseline, setup: Ledger, maxCalls: u32) returns (r: StatefulResult)
    requires NoDuplicates(baseline.grant.expected)
    requires Admissible(baseline.grant, baseline.request)
    requires setup.sequence <= baseline.grant.validUntil
    ensures r.passed <==> baseline.grant.maxCalls == maxCalls && maxCalls >= 1
    ensures r.passed ==> r.successfulCalls == r.counterAfter == maxCalls && r.counterBefore == 0
  {
    var runner := new Runner(baseline, setup);
    var k := baseline.request.Key();
    ghost var cap: nat := baseline.grant.maxCalls;
    var counterBefore: nat := runner.policy.counter[k].used;
    var successful := 0;
    var sequential := true;
    var partialRefused, partialPreserved := false, false;
    var index: nat := 0;
    while index < maxCalls
      invariant index <= maxCalls
      invariant fresh(runner) && fresh(runner.policy) && runner.baseline == baseline
      invariant runner.policy.grant == baseline.grant && runner.Fresh()
      invariant k in runner.policy.marker && k in runner.policy.counter
      invariant index < maxCalls || cap <= maxCalls ==>
        runner.policy.counter[k].used == successful == if index < cap then index else cap
      invariant index < maxCalls ==> (sequential <==> index <= cap)
      invariant index == maxCalls ==> (cap < maxCalls ==> !sequential)
      invariant index == maxCalls ==> (cap > maxCalls || maxCalls == 0 ==> !partialRefused)
      invariant index == maxCalls && maxCalls > 0 && cap == maxCalls ==>
        sequential && partialRefused && partialPreserved
    {
      if index == maxCalls - 1 {
        ghost var w := runner.Current();
        AttemptedCounts(baseline.grant, w, NONCE_BASE + runner.requestCount + 1, baseline.request, 2);
        var partial := runner.Attempt(2);
        partialRefused := partial.result == Err(CallCountExceeded);
        partialPreserved := partial.before == partial.after
          && partial.counterBefore == Some(index) && partial.counterAfter == Some(index);
      }
      AttemptedCounts(baseline.grant, runner.Current(), NONCE_BASE + runner.requestCount + 1, baseline.request, 1);
      var a := runner.Attempt(1);
      if a.result.Ok? {
        successful := successful + 1;
      }
      sequential := sequential && a.counterBefore == Some(index) && a.counterAfter == Some(index + 1);
      index := index + 1;
    }
    AttemptedCounts(baseline.grant, runner.Current(), NONCE_BASE + runner.requestCount + 1, baseline.request, 1);
    var overflow := runner.Attempt(1);
    var overflowRefused := overflow.result == Err(CallCountExceeded);
    var overflowRolledBack := overflow.before == overflow.after;
    var counterAfter: nat := runner.policy.counter[k].used;
    r := StatefulResult(successful, counterBefore, counterAfter, overflowRefused, overflowRolledBack,
                        partialRefused, partialPreserved,
                        && counterBefore == 0
                        && counterAfter == maxCalls
                        && successful == maxCalls
                        && sequential
                        && overflowRefused
                        && overflowRolledBack
                        && partialRefused
                        && partialPreserved);
  }
}
