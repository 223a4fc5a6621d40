/**
  The generated policy contract: one compiled rule, a marker and a call counter per
  (smart account, context rule), and an ordered list of refusals.

  A host panic rolls the invocation back, so a refusal is an `Err` beside unchanged storage.
  The compiled-in constants are a `Grant`; the two committed contracts are instances of it.
*/
module Policy {
  import opened Prelude

  // ---------- Values the host hands to the contract ----------

  type Address = string

  datatype Signer = Delegated(address: Address) | External(verifier: Address, key: seq<byte>)

  /** A host value. `Encoded` is any value that is neither an address nor an i128, by its XDR. */
  datatype Val = AddressVal(address: Address) | I128Val(amount: int) | Encoded(xdr: seq<byte>)

  datatype Context = ContractCall(contract: Address, fnName: string, args: seq<Val>) | OtherContext

  datatype ContextRule = ContextRule(id: u32, signers: seq<Signer>)

  /** Ledger facts one invocation sees. `maxTtl` is the farthest a single extension reaches. */
  datatype Ledger = Ledger(sequence: u32, maxTtl: u32, minPersistentTtl: u32)

  datatype PolicyError =
    | AuthRefused // the host's own refusal of `require_auth`
    | ZeroSigners
    | PredicateUnsatisfied
    | SignerSetDiverged
    | TargetMismatch
    | FunctionNotAllowed
    | NoTupleMatched
    | CallCountExceeded
    | MissingState
    | RuleExpired
    | AlreadyInstalled
    | NotInstalled

  // ---------- The compiled rule and its storage ----------

  datatype Grant = Grant(
    target: Address,
    fnName: string,
    validUntil: u32,
    maxCalls: u32,
    expected: seq<Signer>,
    checkArgs: (seq<Val>, Address) -> bool)

  type Key = (Address, u32)

  datatype Counter = Counter(used: u32, liveUntil: nat)

  /** Persistent entries of every installation, with the ledger each lives until. */
  datatype Storage = Storage(marker: map<Key, nat>, counter: map<Key, Counter>, instance: nat)

  const EMPTY := Storage(map[], map[], 0)

  datatype Attempt = Attempt(
    ledger: Ledger,
    authorised: bool,
    context: Context,
    signers: seq<Signer>,
    rule: ContextRule,
    account: Address)
  {
    function Key(): Key { (account, rule.id) }
  }

  // ---------- Entry lifetimes ----------

  function SaturatingSub(a: nat, b: nat): nat { if a >= b then a - b else 0 }

  function TtlTarget(g: Grant, l: Ledger): nat {
    var remaining := SaturatingSub(g.validUntil, l.sequence);
    if remaining < l.maxTtl then remaining else l.maxTtl
  }

  /** The host's `extend_ttl`: only an entry at or below the threshold moves, and only forward. */
  function ExtendTtl(liveUntil: nat, l: Ledger, threshold: nat, extendTo: nat): nat {
    if liveUntil <= l.sequence + threshold && liveUntil < l.sequence + extendTo
    then l.sequence + extendTo else liveUntil
  }

  /** Rent is kept up, for both entries and the instance, while calls remain and the window is open. */
  function Extended(g: Grant, s: Storage, k: Key, l: Ledger, remaining: nat): Storage
    requires k in s.marker && k in s.counter
  {
    var ttl := TtlTarget(g, l);
    if remaining == 0 || ttl == 0 then s else
      Storage(
        s.marker[k := ExtendTtl(s.marker[k], l, ttl / 2, ttl)],
        s.counter[k := Counter(s.counter[k].used, ExtendTtl(s.counter[k].liveUntil, l, ttl / 2, ttl))],
        ExtendTtl(s.instance, l, ttl / 2, ttl))
  }

  // ---------- What an enforcement decides ----------

  datatype Check<+E> = Check(fails: bool, code: E)

  /** Conditions are checked in order, and the first one that fails gives its code. */
  function FirstRefusal<E>(checks: seq<Check<E>>): Option<E> {
    if checks == [] then None
    else if checks[0].fails then Some(checks[0].code)
    else FirstRefusal(checks[1..])
  }

  /** The signers of `expected` that authenticated, however often each is repeated. */
  function Matched(authenticated: seq<Signer>, expected: seq<Signer>): set<Signer> {
    set x | x in authenticated && x in expected
  }

  /** The conditions of `enforce`, by meaning, in the published order. */
  ghost function Conditions(g: Grant, s: Storage, a: Attempt): seq<Check<PolicyError>> {
    [ Check(!a.authorised, AuthRefused),
      Check(a.Key() !in s.marker, MissingState),
      Check(a.ledger.sequence > g.validUntil, RuleExpired),
      Check(a.signers == [], ZeroSigners),
      Check(Matched(a.signers, g.expected) == {}, PredicateUnsatisfied),
      Check(multiset(a.rule.signers) != multiset(g.expected), SignerSetDiverged),
      Check(!a.context.ContractCall?, FunctionNotAllowed),
      Check(a.context.ContractCall? && a.context.contract != g.target, TargetMismatch),
      Check(a.context.ContractCall? && a.context.fnName != g.fnName, FunctionNotAllowed),
      Check(a.context.ContractCall? && !g.checkArgs(a.context.args, a.account), NoTupleMatched),
      Check(a.Key() !in s.counter, MissingState),
      Check(a.Key() in s.counter && s.counter[a.Key()].used >= g.maxCalls, CallCountExceeded) ]
  }

  /** Whether everything but the call count lets the attempt through. */
  ghost predicate Admissible(g: Grant, a: Attempt) {
    && a.authorised
    && a.ledger.sequence <= g.validUntil
    && Matched(a.signers, g.expected) != {}
    && multiset(a.rule.signers) == multiset(g.expected)
    && a.context.ContractCall?
    && a.context.contract == g.target
    && a.context.fnName == g.fnName
    && g.checkArgs(a.context.args, a.account)
  }

  ghost function Enforced(g: Grant, s: Storage, a: Attempt): (Storage, Result<nat, PolicyError>) {
    match FirstRefusal(Conditions(g, s, a))
    case Some(code) => (s, Err(code))
    case None =>
      var k := a.Key();
      if k in s.marker && k in s.counter && s.counter[k].used < g.maxCalls then
        var used := s.counter[k].used + 1;
        var spent := s.(counter := s.counter[k := s.counter[k].(used := used)]);
        (Extended(g, spent, k, a.ledger, g.maxCalls - used), Ok(g.maxCalls - used))
      else (s, Err(MissingState))
  }

  ghost function Installed(g: Grant, s: Storage, l: Ledger, authorised: bool, k: Key)
    : (Storage, Result<nat, PolicyError>)
  {
    if !authorised then (s, Err(AuthRefused))
    else if l.sequence > g.validUntil then (s, Err(RuleExpired))
    else if k in s.marker then (s, Err(AlreadyInstalled))
    else
      var lives := SaturatingSub(l.sequence + l.minPersistentTtl, 1);
      // Writing an entry that is already there keeps its lifetime.
      var counterLives := if k in s.counter then s.counter[k].liveUntil else lives;
      var written := s.(marker := s.marker[k := lives], counter := s.counter[k := Counter(0, counterLives)]);
      (Extended(g, written, k, l, g.maxCalls), Ok(g.maxCalls))
  }

  ghost function Uninstalled(s: Storage, authorised: bool, k: Key): (Storage, Result<nat, PolicyError>) {
    if !authorised then (s, Err(AuthRefused))
    else if k !in s.marker then (s, Err(NotInstalled))
    else (s.(marker := s.marker - {k}, counter := s.counter - {k}), Ok(0))
  }

  function RemainingCalls(g: Grant, s: Storage, k: Key): Result<nat, PolicyError> {
    if k !in s.marker || k !in s.counter then Err(MissingState)
    else Ok(SaturatingSub(g.maxCalls, s.counter[k].used))
  }

  // ---------- The contract itself ----------

  /** `matched_count`: the nested scan counts each expected signer at most once. */
  method MatchedCount(authenticated: seq<Signer>, expected: seq<Signer>) returns (matched: nat)
    requires NoDuplicates(expected)
    ensures matched == |Matched(authenticated, expected)|
  {
    matched := 0;
    for i := 0 to |expected|
      invariant matched == |Matched(authenticated, expected[..i])|
    {
      var exp := expected[i];
      MatchedGrows(authenticated, expected[..i], exp);
      assert expected[..i + 1] == expected[..i] + [exp];
      var found := false;
      for j := 0 to |authenticated|
        invariant !found
        invariant exp !in authenticated[..j]
      {
        if authenticated[j] == exp {
          found := true;
          break;
        }
      }
      if found {
        matched := matched + 1;
      }
    }
    assert expected[..|expected|] == expected;
  }

  lemma MatchedGrows(authenticated: seq<Signer>, prefix: seq<Signer>, exp: Signer)
    requires exp !in prefix
    ensures |Matched(authenticated, prefix + [exp])|
            == |Matched(authenticated, prefix)| + (if exp in authenticated then 1 else 0)
  {
    var before := Matched(authenticated, prefix);
    if exp in authenticated {
      assert Matched(authenticated, prefix + [exp]) == before + {exp};
    } else {
      assert Matched(authenticated, prefix + [exp]) == before;
    }
  }

  /** The strict signer-set check of `enforce`: equal length, and every expected signer present. */
  method SignersUnchanged(live: seq<Signer>, expected: seq<Signer>) returns (ok: bool)
    requires NoDuplicates(expected)
    ensures ok <==> multiset(live) == multiset(expected)
  {
    if |live| != |expected| {
      assert |multiset(live)| != |multiset(expected)|;
      return false;
    }
    for i := 0 to |expected|
      invariant forall m :: 0 <= m < i ==> expected[m] in live
    {
      var found := false;
      for j := 0 to |live|
        invariant !found
        invariant expected[i] !in live[..j]
      {
        if live[j] == expected[i] {
          found := true;
          break;
        }
      }
      if !found {
        assert expected[i] in multiset(expected) && expected[i] !in multiset(live);
        return false;
      }
    }
    SameLengthCover(live, expected);
    return true;
  }

  /** What is left to know once no condition failed. */
  lemma NoRefusalMeans(g: Grant, s: Storage, a: Attempt)
    requires FirstRefusal(Conditions(g, s, a)).None?
    ensures a.Key() in s.marker && a.Key() in s.counter && s.counter[a.Key()].used < g.maxCalls
  {
    var cs := Conditions(g, s, a);
    NoneFails(cs);
    assert !cs[1].fails && !cs[10].fails && !cs[11].fails;
  }

  lemma {:induction false} NoneFails<E>(checks: seq<Check<E>>)
    requires FirstRefusal(checks).None?
    ensures forall i :: 0 <= i < |checks| ==> !checks[i].fails
  {
    if checks != [] { NoneFails(checks[1..]); }
  }

  class GeneratedPolicy {
    const grant: Grant
    var marker: map<Key, nat>
    var counter: map<Key, Counter>
    var instance: nat

    constructor (grant: Grant, instance: nat)
      ensures this.grant == grant && State() == EMPTY.(instance := instance)
    {
      this.grant := grant;
      this.instance := instance;
      marker, counter := map[], map[];
    }

    function State(): Storage
      reads this
    {
      Storage(marker, counter, instance)
    }

    method IsInstalled(k: Key) returns (installed: bool)
      ensures installed <==> k in marker
    {
      installed := k in marker;
    }

    method Remaining(k: Key) returns (r: Result<nat, PolicyError>)
      ensures r == RemainingCalls(grant, State(), k)
    {
      if k !in marker {
        return Err(MissingState);
      }
      if k !in counter {
        return Err(MissingState);
      }
      r := Ok(SaturatingSub(grant.maxCalls, counter[k].used));
    }

    /** The lines shared by `enforce` and `install` that keep a usable installation alive. */
    method KeepAlive(k: Key, ledger: Ledger, remaining: nat)
      requires k in marker && k in counter
      modifies this
      ensures State() == Extended(grant, old(State()), k, ledger, remaining)
    {
      if remaining > 0 {
        var ttl := TtlTarget(grant, ledger);
        if ttl > 0 {
          instance := ExtendTtl(instance, ledger, ttl / 2, ttl);
          marker := marker[k := ExtendTtl(marker[k], ledger, ttl / 2, ttl)];
          counter := counter[k := counter[k].(liveUntil := ExtendTtl(counter[k].liveUntil, ledger, ttl / 2, ttl))];
        }
      }
    }

    /** The checks of `enforce`, in order. */
    method Refusal(a: Attempt) returns (r: Option<PolicyError>)
      requires NoDuplicates(grant.expected)
      ensures r == FirstRefusal(Conditions(grant, State(), a))
    {
      ghost var cs := Conditions(grant, State(), a);
      if !a.authorised {
        RefusalIs(cs, 0);
        return Some(AuthRefused);
      }
      var k := a.Key();
      if k !in marker {
        RefusalIs(cs, 1);
        return Some(MissingState);
      }
      if a.ledger.sequence > grant.validUntil {
        RefusalIs(cs, 2);
        return Some(RuleExpired);
      }
      if a.signers == [] {
        RefusalIs(cs, 3);
        return Some(ZeroSigners);
      }
      var matched := MatchedCount(a.signers, grant.expected);
      if matched < 1 {
        RefusalIs(cs, 4);
        return Some(PredicateUnsatisfied);
      }
      var same := SignersUnchanged(a.rule.signers, grant.expected);
      if !same {
        RefusalIs(cs, 5);
        return Some(SignerSetDiverged);
      }
      if !a.context.ContractCall? {
        RefusalIs(cs, 6);
        return Some(FunctionNotAllowed);
      }
      if a.context.contract != grant.target {
        RefusalIs(cs, 7);
        return Some(TargetMismatch);
      }
      if a.context.fnName != grant.fnName {
        RefusalIs(cs, 8);
        return Some(FunctionNotAllowed);
      }
      if !grant.checkArgs(a.context.args, a.account) {
        RefusalIs(cs, 9);
        return Some(NoTupleMatched);
      }
      if k !in counter {
        RefusalIs(cs, 10);
        return Some(MissingState);
      }
      if counter[k].used >= grant.maxCalls {
        RefusalIs(cs, 11);
        return Some(CallCountExceeded);
      }
      RefusalIs(cs, |cs|);
      r := None;
    }

    method Enforce(a: Attempt) returns (r: Result<nat, PolicyError>)
      requires NoDuplicates(grant.expected)
      modifies this
      ensures (State(), r) == Enforced(grant, old(State()), a)
    {
      var refused := Refusal(a);
      if refused.Some? {
        return Err(refused.value);
      }
      NoRefusalMeans(grant, State(), a);
      var k := a.Key();
      counter := counter[k := counter[k].(used := counter[k].used + 1)];
      var remaining := grant.maxCalls - counter[k].used;
      KeepAlive(k, a.ledger, remaining);
      r := Ok(remaining);
    }

    method Install(ledger: Ledger, authorised: bool, k: Key) returns (r: Result<nat, PolicyError>)
      modifies this
      ensures (State(), r) == Installed(grant, old(State()), ledger, authorised, k)
    {
      if !authorised {
        return Err(AuthRefused);
      }
      if ledger.sequence > grant.validUntil {
        return Err(RuleExpired);
      }
      if k in marker {
        return Err(AlreadyInstalled);
      }
      var lives := SaturatingSub(ledger.sequence + ledger.minPersistentTtl, 1);
      marker := marker[k := lives];
      counter := counter[k := Counter(0, if k in counter then counter[k].liveUntil else lives)];
      KeepAlive(k, ledger, grant.maxCalls);
      r := Ok(grant.maxCalls);
    }

    method Uninstall(authorised: bool, k: Key) returns (r: Result<nat, PolicyError>)
      modifies this
      ensures (State(), r) == Uninstalled(old(State()), authorised, k)
    {
      if !authorised {
        return Err(AuthRefused);
      }
      if k !in marker {
        return Err(NotInstalled);
      }
      counter := counter - {k};
      marker := marker - {k};
      r := Ok(0);
    }
  }

  /** A refusal carries the code of the first failing condition, and a permit means none fails. */
  lemma {:induction false} RefusalIs<E>(checks: seq<Check<E>>, i: nat)
    requires i <= |checks|
    requires forall j :: 0 <= j < i ==> !checks[j].fails
    requires i < |checks| ==> checks[i].fails
    ensures FirstRefusal(checks) == if i < |checks| then Some(checks[i].code) else None
  {
    if i > 0 {
      assert forall j :: 0 <= j < i - 1 ==> checks[1..][j] == checks[j + 1];
      RefusalIs(checks[1..], i - 1);
    }
  }

  // ---------- The two committed instances ----------

  const TRANSFER_TOKEN := "CABAEAQCAIBAEAQCAIBAEAQCAIBAEAQCAIBAEAQCAIBAEAQCAIBAFNSZ"
  const SWAP_ROUTER := "CAPB4HQ6DYPB4HQ6DYPB4HQ6DYPB4HQ6DYPB4HQ6DYPB4HQ6DYPB4QTN"
  const TRANSFER_RECIPIENT := "GABQGAYDAMBQGAYDAMBQGAYDAMBQGAYDAMBQGAYDAMBQGAYDAMBQHGPC"
  const DELEGATE := "GADQOBYHA4DQOBYHA4DQOBYHA4DQOBYHA4DQOBYHA4DQOBYHA4DQOZPI"

  /** `check_call_0` of the transfer policy. */
  method CheckTransfer(args: seq<Val>, account: Address) returns (ok: bool)
    ensures ok <==> TransferGrant().checkArgs(args, account)
    ensures ok <==> args == [AddressVal(account), AddressVal(TRANSFER_RECIPIENT), I128Val(500000000)]
  {
    if |args| != 3 {
      return false;
    }
    if !args[0].AddressVal? || account != args[0].address {
      return false;
    }
    if !args[1].AddressVal? || args[1].address != TRANSFER_RECIPIENT {
      return false;
    }
    if !args[2].I128Val? || args[2].amount != 500000000 {
      return false;
    }
    return true;
  }

  const SWAP_PATH_XDR: seq<byte> := [
    0x00, 0x00, 0x00, 0x10, 0x00, 0x00, 0x00, 0x01, 0x00, 0x00, 0x00, 0x02, 0x00, 0x00, 0x00, 0x03,
    0x00, 0x00, 0x00, 0x01, 0x00, 0x00, 0x00, 0x03, 0x00, 0x00, 0x00, 0x02]

  function SwapArgs(spend: int, receive: int, account: Address, deadline: Val): seq<Val> {
    [I128Val(spend), I128Val(receive), Encoded(SWAP_PATH_XDR), AddressVal(account), deadline]
  }

  /** `check_call_0` of the swap policy: two bounds, one exact encoding, one unconstrained. */
  method CheckSwap(args: seq<Val>, account: Address) returns (ok: bool)
    ensures ok <==> SwapGrant().checkArgs(args, account)
    ensures ok <==> SwapWithin(args, account)
  {
    if |args| != 5 {
      return false;
    }
    if !args[0].I128Val? || args[0].amount > 1000000000 {
      return false;
    }
    if !args[1].I128Val? || args[1].amount < 950000000 {
      return false;
    }
    if args[2] != Encoded(SWAP_PATH_XDR) {
      return false;
    }
    if !args[3].AddressVal? || account != args[3].address {
      return false;
    }
    assert args == SwapArgs(args[0].amount, args[1].amount, account, args[4]);
    return true;
  }

  function TransferGrant(): Grant {
    Grant(TRANSFER_TOKEN, "transfer", 4223456, 12,
          [Delegated(DELEGATE)],
          (args: seq<Val>, account: Address) =>
            args == [AddressVal(account), AddressVal(TRANSFER_RECIPIENT), I128Val(500000000)])
  }

  function SwapGrant(): Grant {
    Grant(SWAP_ROUTER, "swap_exact_tokens_for_tokens", 4260000, 10, [Delegated(DELEGATE)],
          (args: seq<Val>, account: Address) =>
            && |args| == 5
            && args[0].I128Val? && args[0].amount <= 1000000000
            && args[1].I128Val? && args[1].amount >= 950000000
            && args[2] == Encoded(SWAP_PATH_XDR)
            && args[3] == AddressVal(account))
  }

  /** The installation has uses left of `cap`, and the one delegate authenticated under an unchanged rule. */
  ghost predicate DelegateMayCall(s: Storage, a: Attempt, lastLedger: nat, cap: nat) {
    && a.authorised && a.ledger.sequence <= lastLedger
    && Delegated(DELEGATE) in a.signers && a.rule.signers == [Delegated(DELEGATE)]
    && a.Key() in s.marker && a.Key() in s.counter && s.counter[a.Key()].used < cap
  }

  lemma SingleSigner(signers: seq<Signer>)
    ensures multiset(signers) == multiset([Delegated(DELEGATE)]) <==> signers == [Delegated(DELEGATE)]
  {
    if multiset(signers) == multiset([Delegated(DELEGATE)]) {
      assert |signers| == |multiset(signers)| == 1;
      assert signers[0] in multiset(signers);
    }
  }

  lemma PermitMeans(g: Grant, s: Storage, a: Attempt)
    requires g.expected == [Delegated(DELEGATE)]
    ensures Enforced(g, s, a).1.Ok? <==>
            && DelegateMayCall(s, a, g.validUntil, g.maxCalls)
            && a.context.ContractCall? && a.context.contract == g.target && a.context.fnName == g.fnName
            && g.checkArgs(a.context.args, a.account)
  {
    var cs := Conditions(g, s, a);
    SingleSigner(a.rule.signers);
    SingleMatch(a.signers);
    if FirstRefusal(cs).None? {
      NoRefusalMeans(g, s, a);
      NoneFails(cs);
      assert !cs[0].fails && !cs[2].fails && !cs[4].fails && !cs[5].fails && !cs[6].fails && !cs[7].fails;
      assert !cs[8].fails && !cs[9].fails;
    } else if forall i :: 0 <= i < |cs| ==> !cs[i].fails {
      RefusalIs(cs, |cs|);
    }
  }

  lemma SingleMatch(signers: seq<Signer>)
    ensures Matched(signers, [Delegated(DELEGATE)]) != {} <==> Delegated(DELEGATE) in signers
  {
    var matched := Matched(signers, [Delegated(DELEGATE)]);
    if Delegated(DELEGATE) in signers { assert Delegated(DELEGATE) in matched; }
  }

  /** What the two committed contracts let through, each up to its ledger and its number of calls. */
  lemma TransferPermitsExactly(s: Storage, a: Attempt)
    ensures Enforced(TransferGrant(), s, a).1.Ok? <==>
            && DelegateMayCall(s, a, 4223456, 12)
            && a.context == ContractCall(TRANSFER_TOKEN, "transfer",
                 [AddressVal(a.account), AddressVal(TRANSFER_RECIPIENT), I128Val(500000000)])
  {
    PermitMeans(TransferGrant(), s, a);
  }

  lemma SwapPermitsExactly(s: Storage, a: Attempt)
    ensures Enforced(SwapGrant(), s, a).1.Ok? <==>
            && DelegateMayCall(s, a, 4260000, 10)
            && a.context.ContractCall? && a.context.contract == SWAP_ROUTER
            && a.context.fnName == "swap_exact_tokens_for_tokens" && SwapWithin(a.context.args, a.account)
  {
    PermitMeans(SwapGrant(), s, a);
    if a.context.ContractCall? { SwapArgsExactly(a.context.args, a.account); }
  }

  /** Any arguments of the shape between the two bounds. */
  ghost predicate SwapWithin(args: seq<Val>, account: Address) {
    exists spend, receive, deadline {:trigger SwapArgs(spend, receive, account, deadline)} ::
      spend <= 1000000000 && receive >= 950000000 && args == SwapArgs(spend, receive, account, deadline)
  }

  lemma SwapArgsExactly(args: seq<Val>, account: Address)
    ensures SwapGrant().checkArgs(args, account) <==> SwapWithin(args, account)
  {
    if SwapGrant().checkArgs(args, account) {
      assert args == SwapArgs(args[0].amount, args[1].amount, account, args[4]);
    }
    if spend, receive, deadline {:trigger SwapArgs(spend, receive, account, deadline)} :|
        spend <= 1000000000 && receive >= 950000000 && args == SwapArgs(spend, receive, account, deadline) {
      assert args[0] == I128Val(spend) && args[1] == I128Val(receive) && args[3] == AddressVal(account);
    }
  }
}
