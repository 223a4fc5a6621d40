/**
  The atomic live helper composed with the policy: install a candidate rule, make one transfer,
  and succeed only if afterwards the policy counts one remaining call less for it.

  The account and the asset are callees whose code is not modelled: each either traps or returns
  after an arbitrary schedule of calls on the candidate policy and arbitrary other effects.
*/
module LiveHelper {
  import opened Prelude
  import opened Policy
  import opened PolicyRuns

  const MAX_AMOUNT := 1_000_001

  datatype LiveRule = LiveRule(
    id: u32,
    target: Option<Address>, // `CallContract(target)`, or another context type
    name: string,
    signers: seq<Signer>,
    signerIds: nat,
    policies: seq<Address>,
    policyIds: nat,
    validUntil: Option<u32>)

  datatype Candidate = Candidate(
    account: Address,
    policy: Address,
    delegate: Address,
    expectedRuleId: u32,
    name: string,
    validUntil: u32,
    recipient: Address,
    amount: int)

  /** What the host reports of the contracts involved. */
  datatype Network = Network(
    helper: Address,
    token: Address,
    delegateIsAccount: bool,
    accountIsPinned: bool,
    policyIsCandidate: bool)

  datatype HelperError =
    | AmountOutOfScope
    | AliasedIdentity
    | UnsupportedDelegate
    | UnrecognizedAccount
    | PolicyCodeMismatch
    | UnexpectedRuleId
    | InstalledRuleMismatch
    | UnobservablePolicy
    | CandidateRuleNotExercised
    | CalleeTrapped

  datatype Chain<W> = Chain(policy: Storage, rest: W)

  /** How a callee behaves: it traps, or it returns a value after `calls` on the policy. */
  datatype Reply<R, W> = Trapped | Returned(value: R, calls: seq<Call>, rest: W)

  function Roles(c: Candidate, net: Network): seq<Address> {
    [net.helper, c.account, c.policy, c.delegate, c.recipient, net.token]
  }

  function Requested(c: Candidate, net: Network, id: u32): LiveRule {
    LiveRule(id, Some(net.token), c.name, [Delegated(c.delegate)], 1, [c.policy], 1, Some(c.validUntil))
  }

  ghost function AfterReply<R, W>(g: Grant, chain: Chain<W>, reply: Reply<R, W>): Chain<W> {
    if reply.Returned? then Chain(After(g, chain.policy, reply.calls, |reply.calls|), reply.rest) else chain
  }

  ghost function ScopeChecks(c: Candidate, net: Network): seq<Check<HelperError>> {
    [ Check(!(0 < c.amount <= MAX_AMOUNT), AmountOutOfScope),
      Check(!NoDuplicates(Roles(c, net)), AliasedIdentity),
      Check(!net.delegateIsAccount, UnsupportedDelegate),
      Check(!net.accountIsPinned, UnrecognizedAccount),
      Check(!net.policyIsCandidate, PolicyCodeMismatch) ]
  }

  ghost function RuleChecks<W>(c: Candidate, net: Network, add: Reply<LiveRule, W>): seq<Check<HelperError>> {
    [ Check(add.Trapped?, CalleeTrapped),
      Check(add.Returned? && add.value.id != c.expectedRuleId, UnexpectedRuleId),
      Check(add.Returned? && add.value != Requested(c, net, add.value.id), InstalledRuleMismatch) ]
  }

  /** The checks around the transfer, on the counts the policy reports before and after it. */
  ghost function CountChecks(trapped: bool, before: Result<nat, PolicyError>, after: Result<nat, PolicyError>)
    : seq<Check<HelperError>>
  {
    [ Check(before.Err?, UnobservablePolicy),
      Check(trapped, CalleeTrapped),
      Check(after.Err?, UnobservablePolicy),
      Check(before.Ok? && after.Ok? && before.value != after.value + 1, CandidateRuleNotExercised) ]
  }

  ghost function CountBefore<W>(g: Grant, c: Candidate, start: Chain<W>, add: Reply<LiveRule, W>)
    : Result<nat, PolicyError>
  {
    RemainingCalls(g, AfterReply(g, start, add).policy, (c.account, c.expectedRuleId))
  }

  ghost function CountAfter<W>(
    g: Grant, c: Candidate, start: Chain<W>, add: Reply<LiveRule, W>, transfer: Reply<(), W>): Result<nat, PolicyError>
  {
    RemainingCalls(g, AfterReply(g, AfterReply(g, start, add), transfer).policy, (c.account, c.expectedRuleId))
  }

  /** Why the helper fails, if it does: the first failing check, scope before rule before count. */
  ghost function Refusal<W>(
    g: Grant, c: Candidate, net: Network, start: Chain<W>, add: Reply<LiveRule, W>, transfer: Reply<(), W>)
    : Option<HelperError>
  {
    if FirstRefusal(ScopeChecks(c, net)).Some? then FirstRefusal(ScopeChecks(c, net))
    else if FirstRefusal(RuleChecks(c, net, add)).Some? then FirstRefusal(RuleChecks(c, net, add))
    else FirstRefusal(CountChecks(transfer.Trapped?, CountBefore(g, c, start, add),
        CountAfter(g, c, start, add, transfer)))
  }

  /** The pairwise scan over the six roles. */
  method AllDistinct(roles: seq<Address>) returns (distinct: bool)
    ensures distinct <==> NoDuplicates(roles)
  {
    for i := 0 to |roles|
      invariant forall m, n :: 0 <= m < i && m < n < |roles| ==> roles[m] != roles[n]
    {
      for j := i + 1 to |roles|
        invariant roles[i] !in roles[i + 1..j]
      {
        if roles[i] == roles[j] {
          return false;
        }
      }
    }
    return true;
  }

  /** Runs a callee's schedule against the deployed policy. */
  method Replay(policy: GeneratedPolicy, calls: seq<Call>)
    requires NoDuplicates(policy.grant.expected)
    modifies policy
    ensures policy.State() == After(policy.grant, old(policy.State()), calls, |calls|)
  {
    for i := 0 to |calls|
      invariant policy.State() == After(policy.grant, old(policy.State()), calls, i)
    {
      match calls[i]
      case InstallCall(ledger, authorised, key) => var _ := policy.Install(ledger, authorised, key);
      case EnforceCall(attempt) => var _ := policy.Enforce(attempt);
      case UninstallCall(authorised, key) => var _ := policy.Uninstall(authorised, key);
      case QueryCall(key) => var _ := policy.IsInstalled(key); var _ := policy.Remaining(key);
    }
  }

  method OutOfScope(c: Candidate, net: Network) returns (r: Option<HelperError>)
    ensures r == FirstRefusal(ScopeChecks(c, net))
  {
    ghost var cs := ScopeChecks(c, net);
    if c.amount <= 0 || c.amount > MAX_AMOUNT {
      RefusalIs(cs, 0);
      return Some(AmountOutOfScope);
    }
    var distinct := AllDistinct(Roles(c, net));
    if !distinct {
      RefusalIs(cs, 1);
      return Some(AliasedIdentity);
    }
    if !net.delegateIsAccount {
      RefusalIs(cs, 2);
      return Some(UnsupportedDelegate);
    }
    if !net.accountIsPinned {
      RefusalIs(cs, 3);
      return Some(UnrecognizedAccount);
    }
    if !net.policyIsCandidate {
      RefusalIs(cs, 4);
      return Some(PolicyCodeMismatch);
    }
    RefusalIs(cs, |cs|);
    return None;
  }

  method WrongRule<W>(c: Candidate, net: Network, add: Reply<LiveRule, W>) returns (r: Option<HelperError>)
    ensures r == FirstRefusal(RuleChecks(c, net, add))
    ensures r.None? ==> add.Returned? && add.value == Requested(c, net, c.expectedRuleId)
  {
    ghost var cs := RuleChecks(c, net, add);
    if add.Trapped? {
      RefusalIs(cs, 0);
      return Some(CalleeTrapped);
    }
    var installed := add.value;
    if installed.id != c.expectedRuleId {
      RefusalIs(cs, 1);
      return Some(UnexpectedRuleId);
    }
    if || installed.target != Some(net.token)
       || installed.name != c.name
       || installed.signers != [Delegated(c.delegate)]
       || installed.signerIds != 1
       || installed.policies != [c.policy]
       || installed.policyIds != 1
       || installed.validUntil != Some(c.validUntil)
    {
      RefusalIs(cs, 2);
      return Some(InstalledRuleMismatch);
    }
    RefusalIs(cs, |cs|);
    return None;
  }

  /** Everything between the invocation's frame and its result, on the live policy object. */
  method Invoke<W>(
    policy: GeneratedPolicy, c: Candidate, net: Network, rest: W, add: Reply<LiveRule, W>, transfer: Reply<(), W>)
    returns (r: Result<LiveRule, HelperError>, final: W)
    requires NoDuplicates(policy.grant.expected)
    modifies policy
    ensures match Refusal(policy.grant, c, net, Chain(old(policy.State()), rest), add, transfer)
            case Some(code) => r == Err(code)
            case None =>
              && r == Ok(Requested(c, net, c.expectedRuleId))
              && Chain(policy.State(), final)
                 == AfterReply(policy.grant, AfterReply(policy.grant, Chain(old(policy.State()), rest), add), transfer)
  {
    ghost var start := Chain(policy.State(), rest);
    ghost var g := policy.grant;
    final := rest;
    var refused := OutOfScope(c, net);
    if refused.Some? {
      return Err(refused.value), final;
    }
    if add.Returned? {
      Replay(policy, add.calls);
      final := add.rest;
    }
    refused := WrongRule(c, net, add);
    if refused.Some? {
      return Err(refused.value), final;
    }
    ghost var cs := CountChecks(transfer.Trapped?, CountBefore(g, c, start, add),
        CountAfter(g, c, start, add, transfer));
    var before := policy.Remaining((c.account, add.value.id));
    if before.Err? {
      RefusalIs(cs, 0);
      return Err(UnobservablePolicy), final;
    }
    if transfer.Trapped? {
      RefusalIs(cs, 1);
      return Err(CalleeTrapped), final;
    }
    Replay(policy, transfer.calls);
    final := transfer.rest;
    var after := policy.Remaining((c.account, add.value.id));
    if after.Err? {
      RefusalIs(cs, 2);
      return Err(UnobservablePolicy), final;
    }
    if before.value == 0 || before.value - 1 != after.value {
      RefusalIs(cs, 3);
      return Err(CandidateRuleNotExercised), final;
    }
    RefusalIs(cs, |cs|);
    r := Ok(add.value);
  }

  /** The invocation as the network sees it: a failed one leaves every contract as it was. */
  method InstallAndTransfer<W>(
    policy: GeneratedPolicy, c: Candidate, net: Network, rest: W, add: Reply<LiveRule, W>, transfer: Reply<(), W>)
    returns (r: Result<LiveRule, HelperError>, final: W)
    requires NoDuplicates(policy.grant.expected)
    modifies policy
    ensures match Refusal(policy.grant, c, net, Chain(old(policy.State()), rest), add, transfer)
            case Some(code) => r == Err(code) && policy.State() == old(policy.State()) && final == rest
            case None =>
              && r == Ok(Requested(c, net, c.expectedRuleId))
              && Chain(policy.State(), final)
                 == AfterReply(policy.grant, AfterReply(policy.grant, Chain(old(policy.State()), rest), add), transfer)
  {
    var saved := policy.State();
    r, final := Invoke(policy, c, net, rest, add, transfer);
    if r.Err? {
      policy.marker, policy.counter, policy.instance := saved.marker, saved.counter, saved.instance;
      final := rest;
    }
  }

  // ---------- What is in scope ----------

  /** Which invocations get as far as the account: in full, role by role. */
  lemma InScopeExactly(c: Candidate, net: Network)
    ensures FirstRefusal(ScopeChecks(c, net)).None? <==>
            && 0 < c.amount < 1000002
            && net.helper !in {c.account, c.policy, c.delegate, c.recipient, net.token}
            && c.account !in {c.policy, c.delegate, c.recipient, net.token}
            && c.policy !in {c.delegate, c.recipient, net.token}
            && c.delegate !in {c.recipient, net.token} && c.recipient != net.token
            && net.delegateIsAccount && net.accountIsPinned && net.policyIsCandidate
  {
    var checks, roles := ScopeChecks(c, net), Roles(c, net);
    if FirstRefusal(checks).None? {
      NoneFails(checks);
      assert !checks[0].fails && !checks[1].fails && !checks[2].fails && !checks[3].fails && !checks[4].fails;
      AllApart(roles);
    } else if forall i :: 0 <= i < |checks| ==> !checks[i].fails {
      RefusalIs(checks, |checks|);
    }
  }

  lemma AllApart(roles: seq<Address>)
    requires |roles| == 6 && NoDuplicates(roles)
    ensures roles[0] !in roles[1..] && roles[1] !in roles[2..] && roles[2] !in roles[3..] && roles[3] !in roles[4..]
    ensures roles[4] != roles[5]
  {
  }

  // ---------- What the counter drop shows ----------

  /** No call of the schedule installs or uninstalls `k`; refused attempts to do so are no matter. */
  ghost predicate Undisturbed(g: Grant, s: Storage, calls: seq<Call>, k: Key, n: nat)
    requires n <= |calls|
  {
    forall i :: 0 <= i < n ==> !InstallAt(g, s, calls, k, i) && !UninstallAt(g, s, calls, k, i)
  }

  /** While nobody reinstalls it, a count drops by exactly the permits of the schedule. */
  lemma {:induction false} DropIsPermits(g: Grant, s: Storage, calls: seq<Call>, k: Key, n: nat)
    requires Consistent(g, s) && n <= |calls| && Undisturbed(g, s, calls, k, n)
    ensures Consistent(g, After(g, s, calls, n))
    ensures var before, after := RemainingCalls(g, s, k), RemainingCalls(g, After(g, s, calls, n), k);
            before.Ok? == after.Ok?
            && (before.Ok? ==> before.value == after.value + Permits(g, s, calls, k, 0, n))
  {
    if n > 0 {
      DropIsPermits(g, s, calls, k, n - 1);
      assert !InstallAt(g, s, calls, k, n - 1) && !UninstallAt(g, s, calls, k, n - 1);
      CounterStep(g, After(g, s, calls, n - 1), calls[n - 1], k);
    }
  }

  /** After a reinstall the count is the cap less the permits since then. */
  lemma CountSinceReinstall(g: Grant, s: Storage, calls: seq<Call>, k: Key, i: nat, n: nat)
    requires Consistent(g, s) && n <= |calls| && InstalledSince(g, s, calls, k, i, n)
    ensures var after := RemainingCalls(g, After(g, s, calls, n), k);
            after.Ok? && after.value + Permits(g, s, calls, k, i + 1, n) == g.maxCalls
  {
    CounterFrom(g, s, calls, k, n);
  }

  /** Everything up to the transfer passed, and the transfer returned. */
  ghost predicate ReachesFinalCheck<W>(
    g: Grant, c: Candidate, net: Network, start: Chain<W>, add: Reply<LiveRule, W>, transfer: Reply<(), W>)
  {
    && FirstRefusal(ScopeChecks(c, net)).None? && FirstRefusal(RuleChecks(c, net, add)).None?
    && CountBefore(g, c, start, add).Ok? && transfer.Returned?
  }

  /** What happened to the candidate rule's key during the transfer. */
  datatype Fate = Stood | Reinstalled(since: nat) | Detached

  /** The fate of `k` over the first `n` calls, from a state in which it is installed. */
  ghost predicate Meets(g: Grant, s: Storage, calls: seq<Call>, k: Key, n: nat, fate: Fate)
    requires n <= |calls|
  {
    match fate
    case Stood => StoodThroughout(g, s, calls, k, n)
    case Reinstalled(i) => InstalledSince(g, s, calls, k, i, n)
    case Detached => k !in After(g, s, calls, n).marker
  }

  /** An installed key meets one of the three fates. */
  lemma FateOf(g: Grant, s: Storage, calls: seq<Call>, k: Key, n: nat) returns (fate: Fate)
    requires Consistent(g, s) && n <= |calls| && k in s.marker
    ensures Meets(g, s, calls, k, n, fate)
  {
    CounterFrom(g, s, calls, k, n);
    if StoodThroughout(g, s, calls, k, n) {
      fate := Stood;
    } else if i: nat :| InstalledSince(g, s, calls, k, i, n) {
      fate := Reinstalled(i);
    } else {
      fate := Detached;
    }
  }

  /**
    Exactly when the helper succeeds once it reaches its final check. If the rule stood, it is when
    the candidate policy permitted exactly once. If it was reinstalled, it is when the permits since
    then and the count before add up to one more than the cap. If it ended detached, it fails.
  */
  lemma FinalCheck<W>(
    g: Grant, c: Candidate, net: Network, start: Chain<W>, add: Reply<LiveRule, W>, transfer: Reply<(), W>, fate: Fate)
    requires Consistent(g, start.policy) && ReachesFinalCheck(g, c, net, start, add, transfer)
    requires Meets(g, AfterReply(g, start, add).policy, transfer.calls, (c.account, c.expectedRuleId),
        |transfer.calls|, fate)
    ensures var s, k := AfterReply(g, start, add).policy, (c.account, c.expectedRuleId); var n := |transfer.calls|;
            match fate
            case Stood =>
              Refusal(g, c, net, start, add, transfer).None? <==> Permits(g, s, transfer.calls, k, 0, n) == 1
            case Reinstalled(i) =>
              Refusal(g, c, net, start, add, transfer).None? <==>
              CountBefore(g, c, start, add).value + Permits(g, s, transfer.calls, k, i + 1, n) == g.maxCalls + 1
            case Detached => Refusal(g, c, net, start, add, transfer) == Some(UnobservablePolicy)
  {
    var s, k, n := AfterReply(g, start, add).policy, (c.account, c.expectedRuleId), |transfer.calls|;
    if add.Returned? { RunKeeps(g, start.policy, add.calls, |add.calls|); }
    CounterFrom(g, s, transfer.calls, k, n);
    RunKeeps(g, s, transfer.calls, n);
    if fate.Reinstalled? { CountSinceReinstall(g, s, transfer.calls, k, fate.since, n); }
    FinalCounts(CountBefore(g, c, start, add), CountAfter(g, c, start, add, transfer));
  }

  /** The count checks after a transfer that returned, on the two counts alone. */
  lemma FinalCounts(before: Result<nat, PolicyError>, after: Result<nat, PolicyError>)
    requires before.Ok?
    ensures FirstRefusal(CountChecks(false, before, after))
         == if after.Err? then Some(UnobservablePolicy)
            else if before.value == after.value + 1 then None else Some(CandidateRuleNotExercised)
  {
    RefusalIs(CountChecks(false, before, after),
              if after.Err? then 2 else if before.value == after.value + 1 then 4 else 3);
  }

  /**
    So where nobody installs or uninstalls the rule during the transfer, the helper succeeds
    exactly when the candidate policy permitted exactly once.
  */
  lemma OnePermit<W>(
    g: Grant, c: Candidate, net: Network, start: Chain<W>, add: Reply<LiveRule, W>, transfer: Reply<(), W>)
    requires Consistent(g, start.policy) && ReachesFinalCheck(g, c, net, start, add, transfer)
    requires Undisturbed(g, AfterReply(g, start, add).policy, transfer.calls, (c.account, c.expectedRuleId),
        |transfer.calls|)
    ensures Refusal(g, c, net, start, add, transfer).None? <==>
            Permits(g, AfterReply(g, start, add).policy, transfer.calls, (c.account, c.expectedRuleId), 0,
                |transfer.calls|) == 1
    ensures Refusal(g, c, net, start, add, transfer) in {None, Some(CandidateRuleNotExercised)}
  {
    var s, k, n := AfterReply(g, start, add).policy, (c.account, c.expectedRuleId), |transfer.calls|;
    FinalCheck(g, c, net, start, add, transfer, Stood);
    if add.Returned? { RunKeeps(g, start.policy, add.calls, |add.calls|); }
    DropIsPermits(g, s, transfer.calls, k, n);
    FinalCounts(CountBefore(g, c, start, add), CountAfter(g, c, start, add, transfer));
  }

  /** Two permits around a reinstall. */
  function Reinstalling(a: Attempt): seq<Call> {
    [EnforceCall(a), UninstallCall(true, a.Key()), InstallCall(a.ledger, true, a.Key()), EnforceCall(a)]
  }

  lemma ReinstallHidesAPermit(g: Grant, s: Storage, a: Attempt)
    requires Consistent(g, s) && Admissible(g, a) && g.maxCalls >= 2
    requires a.Key() in s.marker && s.counter[a.Key()].used == 0
    ensures Permits(g, s, Reinstalling(a), a.Key(), 0, 4) == 2
    ensures RemainingCalls(g, s, a.Key()) == Ok(g.maxCalls)
    ensures RemainingCalls(g, After(g, s, Reinstalling(a), 4), a.Key()) == Ok(g.maxCalls - 1)
  {
    ReinstallStates(g, s, a);
    ReinstallPermits(g, s, a);
  }

  /** The states between the four calls. */
  lemma ReinstallStates(g: Grant, s: Storage, a: Attempt)
    requires Consistent(g, s) && Admissible(g, a) && g.maxCalls >= 2
    requires a.Key() in s.marker && s.counter[a.Key()].used == 0
    ensures var k, calls := a.Key(), Reinstalling(a);
            && Outcome(g, s, calls, 0).Ok? && Outcome(g, s, calls, 3).Ok?
            && k in After(g, s, calls, 4).marker && k in After(g, s, calls, 4).counter
            && After(g, s, calls, 4).counter[k].used == 1
  {
    var k, calls := a.Key(), Reinstalling(a);
    var s1, s2, s3 := After(g, s, calls, 1), After(g, s, calls, 2), After(g, s, calls, 3);
    PermitsExactly(g, s, a);
    assert After(g, s, calls, 0) == s;
    assert s1 == Apply(g, s, calls[0]).0;
    assert s1 == Enforced(g, s, a).0 && k in s1.marker;
    assert s2 == Uninstalled(s1, true, k).0;
    assert s3 == Installed(g, s2, a.ledger, true, k).0 && s3.counter[k].used == 0;
    PermitsExactly(g, s3, a);
    assert After(g, s, calls, 4) == Enforced(g, s3, a).0;
  }

  lemma ReinstallPermits(g: Grant, s: Storage, a: Attempt)
    requires Outcome(g, s, Reinstalling(a), 0).Ok? && Outcome(g, s, Reinstalling(a), 3).Ok?
    ensures Permits(g, s, Reinstalling(a), a.Key(), 0, 4) == 2
  {
    var k, calls := a.Key(), Reinstalling(a);
    assert PermitAt(g, s, calls, k, 0) && PermitAt(g, s, calls, k, 3);
    assert !PermitAt(g, s, calls, k, 1) && !PermitAt(g, s, calls, k, 2);
    assert Permits(g, s, calls, k, 0, 1) == 1;
    assert Permits(g, s, calls, k, 0, 2) == 1;
    assert Permits(g, s, calls, k, 0, 3) == 1;
  }

  /**
    The helper itself accepts such a transfer: a fresh rule, two permits around a reinstall, and no
    refusal.
  */
  lemma HelperAcceptsTwoPermits<W>(
    g: Grant, c: Candidate, net: Network, start: Chain<W>, add: Reply<LiveRule, W>, transfer: Reply<(), W>, a: Attempt)
    requires Consistent(g, start.policy) && ReachesFinalCheck(g, c, net, start, add, transfer)
    requires transfer.calls == Reinstalling(a) && a.Key() == (c.account, c.expectedRuleId)
    requires Admissible(g, a) && g.maxCalls >= 2 && CountBefore(g, c, start, add) == Ok(g.maxCalls)
    ensures Permits(g, AfterReply(g, start, add).policy, transfer.calls, a.Key(), 0, 4) == 2
    ensures Refusal(g, c, net, start, add, transfer) == None
  {
    if add.Returned? { RunKeeps(g, start.policy, add.calls, |add.calls|); }
    ReinstallHidesAPermit(g, AfterReply(g, start, add).policy, a);
    FinalCounts(CountBefore(g, c, start, add), CountAfter(g, c, start, add, transfer));
  }
}
