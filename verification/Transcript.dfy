/**
  The agent-transcript monitor: one pass over a session's steps with a dozen mutable flags.

  Regular expressions and prose recognition are the functions of a `Readers` value, about which
  nothing is assumed; what is proved holds for every choice of them.
*/
module Transcript {
  import opened Prelude

  // ---------- Steps ----------

  datatype Json =
    | Null
    | Bool(b: bool)
    | Num(n: int)
    | Str(s: string)
    | Arr(items: seq<Json>)
    | Obj(fields: map<string, Json>)
  {
    /** `value.get(key)`, where anything that is not an object has no keys. */
    function Get(key: string): Json {
      if Obj? && key in fields then fields[key] else Null
    }
  }

  type Id = string

  /** A tool's short name, reduced to the names the checker tells apart. */
  datatype Tool =
    | ConnectWallet
    | SendWalletProposal
    | SynthesizePolicy
    | CheckPolicyCallSurface
    | PrepareInstallIntent
    | PrepareDryRun
    | AssembleInstallTransaction
    | FileTool
    | OtherTool(name: string)

  datatype Step =
    | User(text: string)
    | Say(text: string, aside: bool)
    | Call(id: Id, tool: Tool, rawName: string, input: Json)
    | Answer(id: Id, error: bool, text: string, payload: Json)

  predicate ReadsAuthority(t: Tool) { t.CheckPolicyCallSurface? || t.PrepareInstallIntent? }

  predicate ResetsCard(t: Tool) { t.SynthesizePolicy? || ReadsAuthority(t) || t.PrepareDryRun? }

  const UNSTAGED_WALLET_CODES :=
    {"E_WALLET_BUSY", "E_WALLET_DRAFT_PENDING", "E_WALLET_PAIRING_REQUIRED", "E_WALLET_PROPOSAL_REFUSED"}

  datatype Readers = Readers(
    isConfirmation: string -> bool,
    startsInstallSkill: string -> bool,
    accepts: string -> bool,
    restates: (string, Json) -> bool,
    cardTitle: string -> bool,
    cardComplete: (string, Json, Json) -> bool,
    listsAuthority: string -> bool,
    deployPrinted: string -> bool,
    carriesProposal: string -> bool,
    assemblyCommand: string -> bool,
    namesProposalSchema: Step -> bool,
    ozpbTool: string -> bool,
    authorityMatches: (Step, Json, Json, Json) -> bool,
    errorCode: string -> Option<string>,
    declined: string -> bool)
  {
    function TitledCard(s: Step): bool { s.Say? && !s.aside && cardTitle(s.text) }

    function Complete(text: string, spec: Json, specHash: Json): bool {
      cardTitle(text) && spec.Obj? && specHash.Str? && cardComplete(text, spec, specHash)
    }

    /** A reading of a non-object spec fails inside the check and counts as no match. */
    function Matches(origin: Step, payload: Json, spec: Json, specHash: Json): bool {
      spec.Obj? && authorityMatches(origin, payload, spec, specHash)
    }

    function Connects(s: Step): bool { s.Call? && s.tool.ConnectWallet? && ozpbTool(s.rawName) }

    function Assembles(s: Step): bool {
      s.Call?
      && (s.tool.AssembleInstallTransaction?
          || (s.input.Get("command").Str? && assemblyCommand(s.input.Get("command").s)))
    }

    function WritesProposal(s: Step): bool {
      s.Call? && (s.tool.FileTool? || s.input.Get("command").Str?) && namesProposalSchema(s)
    }

    /** The steps that hand a grant over, unsigned assembly aside. */
    function HandsOff(s: Step): bool {
      || (s.Say? && !s.aside && (deployPrinted(s.text) || carriesProposal(s.text)))
      || (s.Call? && s.tool.SendWalletProposal?)
      || WritesProposal(s)
    }

    /** Whether an answered send may have left a draft waiting in the wallet. */
    function MayHaveStaged(s: Step): bool
      requires s.Answer?
    {
      if !s.error then true
      else
        var code := if s.payload.Get("code").Str? then Some(s.payload.Get("code").s) else errorCode(s.text);
        match code
        case None => !declined(s.text)
        case Some(c) => c !in UNSTAGED_WALLET_CODES
    }
  }

  function Synthesizes(s: Step): bool { s.Call? && s.tool.SynthesizePolicy? }

  function AsksAuthority(s: Step): bool { s.Call? && ReadsAuthority(s.tool) }

  predicate IsUser(s: Step) { s.User? }

  predicate Stated(s: Step) { s.Say? && !s.aside }

  /** The last call under each id. */
  function CallsById(steps: seq<Step>): map<Id, Step> {
    if steps == [] then map[]
    else
      var last := steps[|steps| - 1];
      var before := CallsById(steps[..|steps| - 1]);
      if last.Call? then before[last.id := last] else before
  }

  // ---------- The flags and how a step moves them ----------

  datatype Send = Send(confirmation: nat, body: Json, id: Id)

  datatype GrantFlags = GrantFlags(spec: Json, specHash: Json, latestSynthesis: Option<Id>)

  /** `request` is the authority question whose answer currently stands, if one does. */
  datatype AuthorityFlags = AuthorityFlags(request: Option<Json>, latest: Option<Id>)

  datatype CardFlags = CardFlags(shown: bool, confirmed: bool, listsAuthority: bool)

  datatype WalletFlags = WalletFlags(
    latestConnect: Option<Id>,
    confirmations: nat,
    firstSend: Option<Send>,
    staged: map<Id, bool>)
  {
    function Pending(id: Id): bool { id in staged ==> staged[id] }

    /** The first send under the current confirmation still decides which bytes it allows. */
    function Held(): bool {
      firstSend.Some? && firstSend.value.confirmation == confirmations && Pending(firstSend.value.id)
    }
  }

  datatype Flags = Flags(
    grant: GrantFlags,
    authority: AuthorityFlags,
    card: CardFlags,
    wallet: WalletFlags,
    window: seq<Step>)

  const NO_GRANT := GrantFlags(Null, Null, None)
  const NO_AUTHORITY := AuthorityFlags(None, None)
  const NO_CARD := CardFlags(false, false, false)
  const NO_WALLET := WalletFlags(None, 0, None, map[])
  const START := Flags(NO_GRANT, NO_AUTHORITY, NO_CARD, NO_WALLET, [])

  function AfterUser(R: Readers, m: Flags, s: Step): Flags
    requires s.User?
  {
    if m.card.shown && R.isConfirmation(s.text) then
      m.(card := m.card.(confirmed := true),
         wallet := m.wallet.(confirmations := m.wallet.confirmations + if m.card.confirmed then 0 else 1))
    else if R.startsInstallSkill(s.text) then m
    else m.(card := NO_CARD)
  }

  function AfterSay(R: Readers, m: Flags, s: Step): Flags
    requires s.Say?
  {
    if !R.TitledCard(s) then m
    else
      var complete := R.Complete(s.text, m.grant.spec, m.grant.specHash);
      m.(card := CardFlags(complete, false, complete && R.listsAuthority(s.text)))
  }

  function AfterSend(m: Flags, s: Step): WalletFlags
    requires s.Call?
  {
    if m.card.confirmed && !m.wallet.Held()
    then m.wallet.(firstSend := Some(Send(m.wallet.confirmations, s.input.Get("proposal_json"), s.id)))
    else m.wallet
  }

  function AfterCall(R: Readers, m: Flags, s: Step): Flags
    requires s.Call?
  {
    Flags(
      if Synthesizes(s) then GrantFlags(Null, Null, Some(s.id)) else m.grant,
      if Synthesizes(s) then NO_AUTHORITY
      else if AsksAuthority(s) then AuthorityFlags(None, Some(s.id)) else m.authority,
      if R.Connects(s) || ResetsCard(s.tool) then NO_CARD else m.card,
      if R.Connects(s) then m.wallet.(latestConnect := Some(s.id))
      else if s.tool.SendWalletProposal? then AfterSend(m, s) else m.wallet,
      if Synthesizes(s) then [] else m.window)
  }

  function AfterAnswer(R: Readers, calls: map<Id, Step>, m: Flags, s: Step): Flags
    requires s.Answer?
  {
    if s.id !in calls || !calls[s.id].Call? then m
    else
      var origin := calls[s.id];
      if origin.tool.SendWalletProposal? then
        m.(wallet := m.wallet.(staged := m.wallet.staged[s.id := R.MayHaveStaged(s)]))
      else if origin.tool.ConnectWallet? && m.wallet.latestConnect == Some(s.id) then m.(card := NO_CARD)
      else if ReadsAuthority(origin.tool) && m.authority.latest == Some(s.id) then
        var read := !s.error && R.Matches(origin, s.payload, m.grant.spec, m.grant.specHash);
        m.(card := NO_CARD, authority := m.authority.(request := if read then Some(origin.input) else None))
      else if origin.tool.SynthesizePolicy? && m.grant.latestSynthesis == Some(s.id) && !s.error then
        m.(card := NO_CARD,
           grant := m.grant.(spec := s.payload.Get("spec"),
                             specHash := if HasSpec(s.payload) then s.payload.Get("spec_hash") else Null))
      else m
  }

  function HasSpec(payload: Json): bool { payload.Obj? && "spec" in payload.fields }

  function Next(R: Readers, calls: map<Id, Step>, m: Flags, s: Step): Flags {
    var n := match s
      case User(_) => AfterUser(R, m, s)
      case Say(_, _) => AfterSay(R, m, s)
      case Call(_, _, _, _) => AfterCall(R, m, s)
      case Answer(_, _, _, _) => AfterAnswer(R, calls, m, s);
    n.(window := n.window + [s])
  }

  function StateAt(R: Readers, steps: seq<Step>, n: nat): Flags
    requires n <= |steps|
  {
    if n == 0 then START else Next(R, CallsById(steps), StateAt(R, steps, n - 1), steps[n - 1])
  }

  // ---------- Findings ----------

  /** The findings that depend on the order of steps; text-only findings are not modelled. */
  datatype Reason =
    | HandoffUnconfirmed
    | AssemblyUnconfirmed
    | AssemblyUnbound
    | ProposalReused
    | NotRestated
    | NotAccepted
    | RestatementGaps
    | ResultUnreadable

  datatype Finding = Finding(reason: Reason, at: nat)

  function LastIndex(window: seq<Step>, p: Step -> bool): Option<nat> {
    if window == [] then None
    else if p(window[|window| - 1]) then Some(|window| - 1)
    else LastIndex(window[..|window| - 1], p)
  }

  /** Where the reply and the restatement it answers stand in a window, if it has both. */
  function Restatement(window: seq<Step>): Option<(nat, nat)> {
    match LastIndex(window, IsUser)
    case None => None
    case Some(reply) =>
      if reply > |window| then None
      else
        match LastIndex(window[..reply], Stated)
        case None => None
        case Some(said) => Some((said, reply))
  }

  function DecisionFinding(R: Readers, window: seq<Step>, decisions: Json): Option<Reason> {
    match Restatement(window)
    case None => Some(NotRestated)
    case Some((said, reply)) =>
      if reply >= |window| || said >= |window| || !window[reply].User? || !window[said].Say? then Some(NotRestated)
      else if !R.accepts(window[reply].text) then Some(NotAccepted)
      else if !R.restates(window[said].text, decisions) then Some(RestatementGaps)
      else None
  }

  /** Whether step `s`, met in state `m` and leaving state `n`, raises a finding. */
  function Raised(R: Readers, calls: map<Id, Step>, m: Flags, n: Flags, s: Step, reason: Reason): bool {
    match reason
    case HandoffUnconfirmed => R.HandsOff(s) && !n.card.confirmed
    case AssemblyUnconfirmed =>
      R.Assembles(s) && !(n.card.confirmed && n.authority.request.Some? && n.card.listsAuthority)
    case AssemblyUnbound =>
      R.Assembles(s)
      && (!s.tool.AssembleInstallTransaction? || n.authority.request != Some(s.input.Get("intent_request")))
    case ProposalReused =>
      && s.Call? && s.tool.SendWalletProposal? && m.card.confirmed
      && m.wallet.Held() && m.wallet.firstSend.value.body != s.input.Get("proposal_json")
    case ResultUnreadable =>
      && s.Answer? && s.id in calls && calls[s.id].Call? && calls[s.id].tool.SynthesizePolicy?
      && m.grant.latestSynthesis == Some(s.id) && !s.error && !HasSpec(s.payload)
    case _ => Synthesizes(s) && DecisionFinding(R, m.window, s.input.Get("decisions")) == Some(reason)
  }

  function Raises(R: Readers, steps: seq<Step>, i: nat, reason: Reason): bool
    requires i < |steps|
  {
    Raised(R, CallsById(steps), StateAt(R, steps, i), StateAt(R, steps, i + 1), steps[i], reason)
  }

  // ---------- The checker ----------

  method FindLast(window: seq<Step>, p: Step -> bool) returns (r: Option<nat>)
    ensures r == LastIndex(window, p)
    ensures r.Some? ==> r.value < |window| && p(window[r.value])
  {
    var i := |window|;
    assert window[..i] == window;
    while i > 0
      invariant 0 <= i <= |window|
      invariant LastIndex(window, p) == LastIndex(window[..i], p)
    {
      assert window[..i][..i - 1] == window[..i - 1];
      if p(window[i - 1]) {
        return Some(i - 1);
      }
      i := i - 1;
    }
    return None;
  }

  /** The variables `check_events` shares with its nested functions. */
  class Monitor {
    const readers: Readers
    const calls: map<Id, Step>
    var grant: GrantFlags
    var authority: AuthorityFlags
    var card: CardFlags
    var wallet: WalletFlags
    var window: seq<Step>
    var raised: set<Reason>

    constructor (readers: Readers, calls: map<Id, Step>)
      ensures this.readers == readers && this.calls == calls
      ensures State() == START
    {
      this.readers, this.calls := readers, calls;
      grant, authority, card, wallet := NO_GRANT, NO_AUTHORITY, NO_CARD, NO_WALLET;
      window, raised := [], {};
    }

    ghost function State(): Flags
      reads this
    {
      Flags(grant, authority, card, wallet, window)
    }

    method Handoff(needsAuthority: bool)
      modifies this`raised
      ensures raised == old(raised)
        + if needsAuthority && !(card.confirmed && authority.request.Some? && card.listsAuthority)
          then {AssemblyUnconfirmed}
          else if !needsAuthority && !card.confirmed then {HandoffUnconfirmed}
          else {}
    {
      if !card.confirmed || (needsAuthority && !(authority.request.Some? && card.listsAuthority)) {
        raised := raised + {if needsAuthority then AssemblyUnconfirmed else HandoffUnconfirmed};
      }
    }

    method OnUser(s: Step)
      requires s.User?
      modifies this`card, this`wallet
      ensures State() == AfterUser(readers, old(State()), s)
    {
      if card.shown && readers.isConfirmation(s.text) {
        if !card.confirmed {
          wallet := wallet.(confirmations := wallet.confirmations + 1);
        }
        card := card.(confirmed := true);
      } else if !readers.startsInstallSkill(s.text) {
        card := NO_CARD;
      }
    }

    method OnSay(s: Step)
      requires s.Say? && raised == {}
      modifies this`card, this`raised
      ensures State() == AfterSay(readers, old(State()), s)
      ensures raised == if readers.HandsOff(s) && !card.confirmed then {HandoffUnconfirmed} else {}
    {
      if !s.aside {
        var titled := readers.cardTitle(s.text);
        var printed, carried := readers.deployPrinted(s.text), readers.carriesProposal(s.text);
        if titled {
          var complete := readers.Complete(s.text, grant.spec, grant.specHash);
          card := CardFlags(complete, false, complete && readers.listsAuthority(s.text));
        }
        if printed {
          Handoff(false);
        }
        if carried {
          Handoff(false);
        }
      }
    }

    method OnSend(s: Step)
      requires s.Call? && s.tool.SendWalletProposal?
      modifies this`wallet, this`raised
      ensures wallet == AfterSend(old(State()), s)
      ensures raised == old(raised)
        + (if !card.confirmed then {HandoffUnconfirmed} else {})
        + (if card.confirmed && old(wallet).Held() && old(wallet).firstSend.value.body != s.input.Get("proposal_json")
           then {ProposalReused} else {})
    {
      var raw := s.input.Get("proposal_json");
      Handoff(false);
      var first := wallet.firstSend;
      if card.confirmed && first.Some? && first.value.confirmation == wallet.confirmations
         && first.value.body != raw && wallet.Pending(first.value.id)
      {
        raised := raised + {ProposalReused};
      }
      if card.confirmed && !(first.Some? && first.value.confirmation == wallet.confirmations
                             && wallet.Pending(first.value.id))
      {
        wallet := wallet.(firstSend := Some(Send(wallet.confirmations, raw, s.id)));
      }
    }

    method OnSynthesize(s: Step)
      requires s.Call?
      modifies this`window, this`raised
      ensures window == []
      ensures raised == old(raised)
        + match DecisionFinding(readers, old(window), s.input.Get("decisions")) { case None => {} case Some(f) => {f} }
    {
      var decisions := s.input.Get("decisions");
      var reply := FindLast(window, IsUser);
      var said := None;
      if reply.Some? {
        said := FindLast(window[..reply.value], Stated);
      }
      if said.None? {
        raised := raised + {NotRestated};
      } else if !readers.accepts(window[reply.value].text) {
        raised := raised + {NotAccepted};
      } else {
        assert window[..reply.value][said.value] == window[said.value];
        if !readers.restates(window[said.value].text, decisions) {
          raised := raised + {RestatementGaps};
        }
      }
      window := [];
    }

    /** The resets a call makes before anything it hands over is judged. */
    method ResetForCall(s: Step)
      requires s.Call?
      modifies this`grant, this`authority, this`card, this`wallet, this`window, this`raised
      ensures State() == AfterCall(readers, old(State()), s)
      ensures raised == old(raised)
        + (if s.tool.SendWalletProposal? && !card.confirmed then {HandoffUnconfirmed} else {})
        + (if Raised(readers, calls, old(State()), State(), s, ProposalReused) then {ProposalReused} else {})
        + (if !Synthesizes(s) then {} else
           match DecisionFinding(readers, old(window), s.input.Get("decisions"))
           { case None => {} case Some(f) => {f} })
    {
      var connects := readers.Connects(s);
      if connects {
        wallet := wallet.(latestConnect := Some(s.id));
        card := NO_CARD;
      }
      if s.tool.SendWalletProposal? {
        OnSend(s);
      }
      if s.tool.SynthesizePolicy? {
        OnSynthesize(s);
      }
      if ResetsCard(s.tool) {
        card := NO_CARD;
      }
      if s.tool.SynthesizePolicy? {
        grant := GrantFlags(Null, Null, Some(s.id));
        authority := NO_AUTHORITY;
      }
      if ReadsAuthority(s.tool) {
        authority := AuthorityFlags(None, Some(s.id));
      }
    }

    method OnCall(s: Step)
      requires s.Call? && raised == {}
      modifies this`grant, this`authority, this`card, this`wallet, this`window, this`raised
      ensures State() == AfterCall(readers, old(State()), s)
      ensures forall r :: r in raised <==> Raised(readers, calls, old(State()), State(), s, r)
    {
      var assembles, writes := readers.Assembles(s), readers.WritesProposal(s);
      ghost var m := State();
      ResetForCall(s);
      if assembles {
        Handoff(true);
        if !s.tool.AssembleInstallTransaction? || authority.request.None?
           || s.input.Get("intent_request") != authority.request.value
        {
          raised := raised + {AssemblyUnbound};
        }
      }
      if writes {
        // Each way of reading what was written ends in the same handoff check.
        Handoff(false);
      }
    }

    method OnAnswer(s: Step)
      requires s.Answer? && raised == {}
      modifies this`grant, this`authority, this`card, this`wallet, this`raised
      ensures State() == AfterAnswer(readers, calls, old(State()), s)
      ensures raised
              == if Raised(readers, calls, old(State()), State(), s, ResultUnreadable) then {ResultUnreadable} else {}
    {
      if s.id !in calls || !calls[s.id].Call? {
        return;
      }
      var origin := calls[s.id];
      if origin.tool.SendWalletProposal? {
        wallet := wallet.(staged := wallet.staged[s.id := readers.MayHaveStaged(s)]);
      }
      if origin.tool.ConnectWallet? && wallet.latestConnect == Some(s.id) {
        card := NO_CARD;
      }
      if ReadsAuthority(origin.tool) && authority.latest == Some(s.id) {
        card := NO_CARD;
        var read := !s.error && readers.Matches(origin, s.payload, grant.spec, grant.specHash);
        authority := authority.(request := if read then Some(origin.input) else None);
      }
      if origin.tool.SynthesizePolicy? && grant.latestSynthesis == Some(s.id) && !s.error {
        card := NO_CARD;
        if HasSpec(s.payload) {
          grant := grant.(spec := s.payload.Get("spec"), specHash := s.payload.Get("spec_hash"));
        } else {
          grant := grant.(spec := Null, specHash := Null);
          raised := raised + {ResultUnreadable};
        }
      }
    }

    /** One turn of the loop. */
    method Observe(s: Step)
      modifies this`grant, this`authority, this`card, this`wallet, this`window, this`raised
      ensures State() == Next(readers, calls, old(State()), s)
      ensures forall r :: r in raised <==> Raised(readers, calls, old(State()), State(), s, r)
    {
      raised := {};
      match s {
        case User(_) => OnUser(s);
        case Say(_, _) => OnSay(s);
        case Call(_, _, _, _) => OnCall(s);
        case Answer(_, _, _, _) => OnAnswer(s);
      }
      window := window + [s];
    }
  }

  /** The calls by their id, before the pass over the steps. */
  method CollectCalls(steps: seq<Step>) returns (calls: map<Id, Step>)
    ensures calls == CallsById(steps)
  {
    calls := map[];
    for i := 0 to |steps|
      invariant calls == CallsById(steps[..i])
    {
      assert steps[..i + 1][..i] == steps[..i];
      if steps[i].Call? {
        calls := calls[steps[i].id := steps[i]];
      }
    }
    assert steps[..|steps|] == steps;
  }

  lemma NextState(R: Readers, steps: seq<Step>, n: nat)
    requires n < |steps|
    ensures StateAt(R, steps, n + 1) == Next(R, CallsById(steps), StateAt(R, steps, n), steps[n])
    ensures forall reason :: Raises(R, steps, n, reason)
              <==> Raised(R, CallsById(steps), StateAt(R, steps, n), StateAt(R, steps, n + 1), steps[n], reason)
  {}

  /** The findings of the first `n` steps, all of them and no others. */
  ghost predicate Reported(R: Readers, steps: seq<Step>, findings: set<Finding>, n: nat)
    requires n <= |steps|
  {
    forall reason, j: nat :: Finding(reason, j) in findings <==> j < n && Raises(R, steps, j, reason)
  }

  lemma OneMoreReported(R: Readers, steps: seq<Step>, findings: set<Finding>, raised: set<Reason>, n: nat)
    requires n < |steps| && Reported(R, steps, findings, n)
    requires forall r :: r in raised <==> Raises(R, steps, n, r)
    ensures Reported(R, steps, findings + set r | r in raised :: Finding(r, n), n + 1)
  {
    var all := findings + set r | r in raised :: Finding(r, n);
    forall reason, j: nat ensures Finding(reason, j) in all <==> j < n + 1 && Raises(R, steps, j, reason) {
      assert Finding(reason, j) in all <==> Finding(reason, j) in findings || (j == n && reason in raised);
    }
  }

  /** `check_events`: a finding is reported exactly where the session's own order raises it. */
  method CheckEvents(R: Readers, steps: seq<Step>) returns (findings: set<Finding>)
    ensures forall reason, i: nat :: Finding(reason, i) in findings <==> i < |steps| && Raises(R, steps, i, reason)
  {
    var calls := CollectCalls(steps);
    var monitor := new Monitor(R, calls);
    findings := {};
    for i := 0 to |steps|
      invariant fresh(monitor) && monitor.readers == R && monitor.calls == calls
      invariant monitor.State() == StateAt(R, steps, i)
      invariant Reported(R, steps, findings, i)
    {
      monitor.Observe(steps[i]);
      NextState(R, steps, i);
      OneMoreReported(R, steps, findings, monitor.raised, i);
      findings := findings + set r | r in monitor.raised :: Finding(r, i);
    }
  }
}
