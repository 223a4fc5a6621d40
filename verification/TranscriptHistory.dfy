/**
  What the monitor's flags mean: each is a statement about the steps already seen, and each
  finding it gates is absent exactly when the session kept the rule.
*/
module TranscriptHistory {
  import opened Prelude
  import opened Transcript

  // ---------- The trace alone ----------

  function LatestConnect(R: Readers, steps: seq<Step>, n: nat): Option<Id>
    requires n <= |steps|
  {
    if n == 0 then None
    else if R.Connects(steps[n - 1]) then Some(steps[n - 1].id)
    else LatestConnect(R, steps, n - 1)
  }

  function LatestSynthesis(steps: seq<Step>, n: nat): Option<Id>
    requires n <= |steps|
  {
    if n == 0 then None
    else if Synthesizes(steps[n - 1]) then Some(steps[n - 1].id)
    else LatestSynthesis(steps, n - 1)
  }

  /** The authority question that still counts: the last one, unless a synthesis came after it. */
  function LatestAuthority(steps: seq<Step>, n: nat): Option<Id>
    requires n <= |steps|
  {
    if n == 0 then None
    else if Synthesizes(steps[n - 1]) then None
    else if AsksAuthority(steps[n - 1]) then Some(steps[n - 1].id)
    else LatestAuthority(steps, n - 1)
  }

  predicate AnswersCall(steps: seq<Step>, p: nat)
    requires p < |steps|
  {
    steps[p].Answer? && steps[p].id in CallsById(steps) && CallsById(steps)[steps[p].id].Call?
  }

  function OriginOf(steps: seq<Step>, p: nat): Step
    requires p < |steps| && AnswersCall(steps, p)
  {
    CallsById(steps)[steps[p].id]
  }

  predicate AnswersConnect(R: Readers, steps: seq<Step>, p: nat)
    requires p < |steps|
  {
    && AnswersCall(steps, p) && OriginOf(steps, p).tool.ConnectWallet?
    && LatestConnect(R, steps, p) == Some(steps[p].id)
  }

  predicate AnswersAuthority(steps: seq<Step>, p: nat)
    requires p < |steps|
  {
    && AnswersCall(steps, p) && ReadsAuthority(OriginOf(steps, p).tool)
    && LatestAuthority(steps, p) == Some(steps[p].id)
  }

  predicate AnswersSynthesis(steps: seq<Step>, p: nat)
    requires p < |steps|
  {
    && AnswersCall(steps, p) && OriginOf(steps, p).tool.SynthesizePolicy?
    && LatestSynthesis(steps, p) == Some(steps[p].id) && !steps[p].error
  }

  /** The grant as of step `n`: what the latest synthesis last returned, or nothing. */
  function SpecAt(steps: seq<Step>, n: nat): (Json, Json)
    requires n <= |steps|
  {
    if n == 0 then (Null, Null)
    else
      var s := steps[n - 1];
      if Synthesizes(s) then (Null, Null)
      else if AnswersSynthesis(steps, n - 1) then
        (s.payload.Get("spec"), if HasSpec(s.payload) then s.payload.Get("spec_hash") else Null)
      else SpecAt(steps, n - 1)
  }

  /** The steps after which an earlier card no longer stands. */
  predicate Clears(R: Readers, steps: seq<Step>, p: nat)
    requires p < |steps|
  {
    var s := steps[p];
    match s
    case User(_) => !R.isConfirmation(s.text) && !R.startsInstallSkill(s.text)
    case Say(_, _) => R.TitledCard(s)
    case Call(_, _, _, _) => R.Connects(s) || ResetsCard(s.tool)
    case Answer(_, _, _, _) => AnswersConnect(R, steps, p) || AnswersAuthority(steps, p) || AnswersSynthesis(steps, p)
  }

  /** The card at step `c` completely states the grant of step `n`, and nothing since has cleared it. */
  ghost predicate CardStands(R: Readers, steps: seq<Step>, c: nat, n: nat)
    requires n <= |steps|
  {
    && c < n
    && R.TitledCard(steps[c])
    && SpecAt(steps, n).0.Obj? && SpecAt(steps, n).1.Str?
    && R.cardComplete(steps[c].text, SpecAt(steps, n).0, SpecAt(steps, n).1)
    && forall p :: c < p < n ==> !Clears(R, steps, p)
  }

  /** The user's confirmation at step `u` is of the card at step `c`, which still stands. */
  ghost predicate ConfirmedCard(R: Readers, steps: seq<Step>, c: nat, u: nat, n: nat)
    requires n <= |steps|
  {
    && CardStands(R, steps, c, n)
    && c < u < n && steps[u].User? && R.isConfirmation(steps[u].text)
  }

  ghost predicate SomeCardStands(R: Readers, steps: seq<Step>, n: nat)
    requires n <= |steps|
  {
    exists c: nat :: CardStands(R, steps, c, n)
  }

  ghost predicate SomeCardConfirmed(R: Readers, steps: seq<Step>, n: nat)
    requires n <= |steps|
  {
    exists c: nat, u: nat :: ConfirmedCard(R, steps, c, u, n)
  }

  ghost predicate SomeCardListsAuthority(R: Readers, steps: seq<Step>, n: nat)
    requires n <= |steps|
  {
    exists c: nat :: CardStands(R, steps, c, n) && R.listsAuthority(steps[c].text)
  }

  // ---------- The card flags ----------

  lemma {:induction false} LatestAreHistory(R: Readers, steps: seq<Step>, n: nat)
    requires n <= |steps|
    ensures var m := StateAt(R, steps, n);
            && m.wallet.latestConnect == LatestConnect(R, steps, n)
            && m.grant.latestSynthesis == LatestSynthesis(steps, n)
            && m.authority.latest == LatestAuthority(steps, n)
            && (m.grant.spec, m.grant.specHash) == SpecAt(steps, n)
  {
    if n > 0 {
      LatestAreHistory(R, steps, n - 1);
    }
  }

  /** Which earlier cards still stand after one more step. */
  lemma StandingStep(R: Readers, steps: seq<Step>, n: nat, c: nat)
    requires c < n < |steps|
    ensures CardStands(R, steps, c, n + 1) <==> !Clears(R, steps, n) && CardStands(R, steps, c, n)
  {
    if !Clears(R, steps, n) {
      assert SpecAt(steps, n + 1) == SpecAt(steps, n);
      if CardStands(R, steps, c, n) {
        forall p | c < p < n + 1 ensures !Clears(R, steps, p) {
          if p < n { assert !Clears(R, steps, p); }
        }
      }
    }
  }

  /** What the three card flags should say after `n` steps. */
  ghost predicate CardFlagsAgree(R: Readers, steps: seq<Step>, n: nat)
    requires n <= |steps|
  {
    var m := StateAt(R, steps, n);
    && (m.card.shown <==> SomeCardStands(R, steps, n))
    && (m.card.confirmed <==> SomeCardConfirmed(R, steps, n))
    && (m.card.listsAuthority <==> SomeCardListsAuthority(R, steps, n))
  }

  /**
    The card flags are the history of the card: it is shown when some complete card stands,
    confirmed when such a card was confirmed, and lists the authority when that card does.
  */
  lemma {:induction false} CardIsHistory(R: Readers, steps: seq<Step>, n: nat)
    requires n <= |steps|
    ensures CardFlagsAgree(R, steps, n)
  {
    if n > 0 {
      CardIsHistory(R, steps, n - 1);
      LatestAreHistory(R, steps, n - 1);
      forall c: nat | c < n - 1
        ensures CardStands(R, steps, c, n) <==> !Clears(R, steps, n - 1) && CardStands(R, steps, c, n - 1)
      {
        StandingStep(R, steps, n - 1, c);
      }
      if R.TitledCard(steps[n - 1]) {
        TitleStep(R, steps, n);
      } else if Clears(R, steps, n - 1) {
        ClearingStep(R, steps, n);
      } else {
        QuietStep(R, steps, n);
      }
    }
  }

  lemma TitleStep(R: Readers, steps: seq<Step>, n: nat)
    requires 0 < n <= |steps| && R.TitledCard(steps[n - 1])
    requires forall c: nat :: c < n - 1 ==> !CardStands(R, steps, c, n)
    ensures CardFlagsAgree(R, steps, n)
  {
    LatestAreHistory(R, steps, n - 1);
    LatestAreHistory(R, steps, n);
    assert StateAt(R, steps, n).card.shown <==> CardStands(R, steps, n - 1, n);
  }

  lemma ClearingStep(R: Readers, steps: seq<Step>, n: nat)
    requires 0 < n <= |steps| && !R.TitledCard(steps[n - 1]) && Clears(R, steps, n - 1)
    requires CardFlagsAgree(R, steps, n - 1)
    requires forall c: nat :: c < n - 1 ==> !CardStands(R, steps, c, n)
    ensures CardFlagsAgree(R, steps, n)
  {
    LatestAreHistory(R, steps, n - 1);
    assert StateAt(R, steps, n).card == NO_CARD;
  }

  lemma QuietStep(R: Readers, steps: seq<Step>, n: nat)
    requires 0 < n <= |steps| && !Clears(R, steps, n - 1)
    requires CardFlagsAgree(R, steps, n - 1)
    requires forall c: nat :: c < n - 1 ==> (CardStands(R, steps, c, n) <==> CardStands(R, steps, c, n - 1))
    ensures CardFlagsAgree(R, steps, n)
  {
    var before, after, s := StateAt(R, steps, n - 1), StateAt(R, steps, n), steps[n - 1];
    LatestAreHistory(R, steps, n - 1);
    assert forall c: nat :: CardStands(R, steps, c, n) <==> CardStands(R, steps, c, n - 1);
    ConfirmationStep(R, steps, n);
    NothingWithoutCard(R, steps, n - 1);
    SameCards(R, steps, n);
    assert after.card == before.card || (s.User? && R.isConfirmation(s.text));
  }

  lemma SameCards(R: Readers, steps: seq<Step>, n: nat)
    requires 0 < n <= |steps|
    requires forall c: nat :: CardStands(R, steps, c, n) <==> CardStands(R, steps, c, n - 1)
    ensures SomeCardStands(R, steps, n) <==> SomeCardStands(R, steps, n - 1)
    ensures SomeCardListsAuthority(R, steps, n) <==> SomeCardListsAuthority(R, steps, n - 1)
  {
    if SomeCardStands(R, steps, n) {
      var c: nat :| CardStands(R, steps, c, n);
      assert CardStands(R, steps, c, n - 1);
    }
    if SomeCardListsAuthority(R, steps, n) {
      var c: nat :| CardStands(R, steps, c, n) && R.listsAuthority(steps[c].text);
      assert CardStands(R, steps, c, n - 1);
    }
  }

  lemma NothingWithoutCard(R: Readers, steps: seq<Step>, n: nat)
    requires n <= |steps|
    ensures SomeCardConfirmed(R, steps, n) ==> SomeCardStands(R, steps, n)
    ensures SomeCardListsAuthority(R, steps, n) ==> SomeCardStands(R, steps, n)
  {
  }

  /** A step that clears nothing confirms the standing card if it is the user's confirmation. */
  lemma ConfirmationStep(R: Readers, steps: seq<Step>, n: nat)
    requires 0 < n <= |steps|
    requires forall c: nat :: CardStands(R, steps, c, n) <==> CardStands(R, steps, c, n - 1)
    ensures SomeCardConfirmed(R, steps, n) <==>
            || SomeCardConfirmed(R, steps, n - 1)
            || (steps[n - 1].User? && R.isConfirmation(steps[n - 1].text) && SomeCardStands(R, steps, n - 1))
  {
    if SomeCardConfirmed(R, steps, n) {
      var c: nat, u: nat :| ConfirmedCard(R, steps, c, u, n);
      assert CardStands(R, steps, c, n - 1);
      if u < n - 1 { assert ConfirmedCard(R, steps, c, u, n - 1); }
    }
    if SomeCardConfirmed(R, steps, n - 1) {
      var c: nat, u: nat :| ConfirmedCard(R, steps, c, u, n - 1);
      assert ConfirmedCard(R, steps, c, u, n);
    }
    if SomeCardStands(R, steps, n - 1) && steps[n - 1].User? && R.isConfirmation(steps[n - 1].text) {
      var c: nat :| CardStands(R, steps, c, n - 1);
      assert ConfirmedCard(R, steps, c, n - 1, n);
    }
  }

  /** Two cards cannot both stand: the later title clears the earlier one. */
  lemma OneCardStands(R: Readers, steps: seq<Step>, c: nat, d: nat, n: nat)
    requires n <= |steps| && CardStands(R, steps, c, n) && CardStands(R, steps, d, n)
    ensures c == d
  {
    if c < d { StandsUncleared(R, steps, c, d, n); }
    if d < c { StandsUncleared(R, steps, d, c, n); }
  }

  lemma StandsUncleared(R: Readers, steps: seq<Step>, c: nat, p: nat, n: nat)
    requires c < p < n <= |steps| && CardStands(R, steps, c, n)
    ensures !Clears(R, steps, p)
  {
  }

  /**
    A printed command or proposal, a wallet send and a written proposal hand a grant over, and each
    passes exactly when the user confirmed, with nothing else since, a card that completely states
    the grant of that moment; no other step is held to that.
  */
  lemma HandoffRule(R: Readers, steps: seq<Step>, h: nat)
    requires h < |steps|
    ensures Raises(R, steps, h, HandoffUnconfirmed) <==>
            && !SomeCardConfirmed(R, steps, h + 1)
            && match steps[h]
               case Say(text, aside) => !aside && (R.deployPrinted(text) || R.carriesProposal(text))
               case Call(_, tool, _, input) =>
                 || tool == SendWalletProposal
                 || ((tool == FileTool || input.Get("command").Str?) && R.namesProposalSchema(steps[h]))
               case _ => false
  {
    CardIsHistory(R, steps, h + 1);
  }

  /** The calls after which a card must be shown and confirmed anew, tool by tool. */
  predicate NeedsNewCard(R: Readers, s: Step) {
    s.Call? &&
    match s.tool
    case SynthesizePolicy => true
    case CheckPolicyCallSurface => true
    case PrepareInstallIntent => true
    case PrepareDryRun => true
    case ConnectWallet => R.ozpbTool(s.rawName)
    case _ => false
  }

  /** Such a call puts every card away, and a call of any other tool leaves the card as it was. */
  lemma CallsAndCards(R: Readers, steps: seq<Step>, p: nat)
    requires p < |steps| && steps[p].Call?
    ensures StateAt(R, steps, p + 1).card == if NeedsNewCard(R, steps[p]) then NO_CARD else StateAt(R, steps, p).card
  {}

  /** No card is shown, let alone confirmed, until the next titled one. */
  lemma {:induction false} NoCardUntilTitle(R: Readers, steps: seq<Step>, p: nat, h: nat)
    requires p < h <= |steps| && StateAt(R, steps, p + 1).card == NO_CARD
    requires forall j :: p < j < h ==> !(steps[j].Say? && !steps[j].aside && R.cardTitle(steps[j].text))
    ensures StateAt(R, steps, h).card == NO_CARD
  {
    if p + 1 < h {
      NoCardUntilTitle(R, steps, p, h - 1);
    }
  }

  /** So a handoff from then on, before another titled card, is found unconfirmed. */
  lemma ResetHandoffIsFound(R: Readers, steps: seq<Step>, p: nat, h: nat)
    requires p <= h < |steps| && NeedsNewCard(R, steps[p]) && R.HandsOff(steps[h])
    requires forall j :: p < j < h ==> !(steps[j].Say? && !steps[j].aside && R.cardTitle(steps[j].text))
    ensures Raises(R, steps, h, HandoffUnconfirmed)
  {
    CallsAndCards(R, steps, p);
    if p < h { NoCardUntilTitle(R, steps, p, h); }
  }

  // ---------- Unsigned assembly ----------

  /** The steps after which an earlier authority answer no longer counts. */
  predicate TouchesAuthority(steps: seq<Step>, p: nat)
    requires p < |steps|
  {
    Synthesizes(steps[p]) || AsksAuthority(steps[p]) || AnswersAuthority(steps, p)
  }

  /** Step `a` answered the latest authority question for the grant of its time, and still counts. */
  ghost predicate AuthorityStands(R: Readers, steps: seq<Step>, a: nat, n: nat)
    requires n <= |steps|
  {
    && a < n
    && AnswersAuthority(steps, a) && !steps[a].error
    && SpecAt(steps, a).0.Obj?
    && R.authorityMatches(OriginOf(steps, a), steps[a].payload, SpecAt(steps, a).0, SpecAt(steps, a).1)
    && forall p :: a < p < n ==> !TouchesAuthority(steps, p)
  }

  ghost predicate AuthorityRequestStands(R: Readers, steps: seq<Step>, request: Json, n: nat)
    requires n <= |steps|
  {
    exists a: nat :: AuthorityStands(R, steps, a, n) && OriginOf(steps, a).input == request
  }

  lemma AuthorityStep(R: Readers, steps: seq<Step>, a: nat, n: nat)
    requires a < n < |steps|
    ensures AuthorityStands(R, steps, a, n + 1) <==> !TouchesAuthority(steps, n) && AuthorityStands(R, steps, a, n)
  {
    if !TouchesAuthority(steps, n) && AuthorityStands(R, steps, a, n) {
      forall p | a < p < n + 1 ensures !TouchesAuthority(steps, p) {
        if p < n { assert !TouchesAuthority(steps, p); }
      }
    }
  }

  /** A step that does not touch the authority leaves standing what stood. */
  lemma SameAnswersStand(R: Readers, steps: seq<Step>, n: nat)
    requires 0 < n <= |steps| && !TouchesAuthority(steps, n - 1)
    requires forall a: nat :: a < n - 1 ==> (AuthorityStands(R, steps, a, n) <==> AuthorityStands(R, steps, a, n - 1))
    requires !AnswersAuthority(steps, n - 1)
    ensures forall request :: AuthorityRequestStands(R, steps, request, n) <==>
        AuthorityRequestStands(R, steps, request, n - 1)
  {
    forall request ensures AuthorityRequestStands(R, steps, request, n) <==>
        AuthorityRequestStands(R, steps, request, n - 1) {
      if a: nat :| AuthorityStands(R, steps, a, n) && OriginOf(steps, a).input == request {
        assert AuthorityStands(R, steps, a, n - 1);
      }
      if a: nat :| AuthorityStands(R, steps, a, n - 1) && OriginOf(steps, a).input == request {
        assert AuthorityStands(R, steps, a, n);
      }
    }
  }

  lemma {:induction false} AuthorityIsHistory(R: Readers, steps: seq<Step>, n: nat)
    requires n <= |steps|
    ensures forall request :: StateAt(R, steps, n).authority.request == Some(request)
                              <==> AuthorityRequestStands(R, steps, request, n)
  {
    if n > 0 {
      AuthorityIsHistory(R, steps, n - 1);
      LatestAreHistory(R, steps, n - 1);
      forall a: nat | a < n - 1
        ensures AuthorityStands(R, steps, a, n) <==>
            !TouchesAuthority(steps, n - 1) && AuthorityStands(R, steps, a, n - 1)
      {
        AuthorityStep(R, steps, a, n - 1);
      }
      var before, after, s := StateAt(R, steps, n - 1), StateAt(R, steps, n), steps[n - 1];
      if AnswersAuthority(steps, n - 1) {
        var read := AuthorityStands(R, steps, n - 1, n);
        assert after.authority.request == if read then Some(OriginOf(steps, n - 1).input) else None;
      } else if TouchesAuthority(steps, n - 1) {
        assert after.authority.request == None;
      } else {
        assert after.authority.request == before.authority.request;
        SameAnswersStand(R, steps, n);
      }
    }
  }

  predicate AssemblyIsAsked(R: Readers, s: Step) {
    match s
    case Call(_, AssembleInstallTransaction, _, _) => true
    case Call(_, _, _, Obj(fields)) => "command" in fields && RunsAssembly(R, fields["command"])
    case _ => false
  }

  predicate RunsAssembly(R: Readers, command: Json) {
    match command
    case Str(line) => R.assemblyCommand(line)
    case _ => false
  }

  lemma AssemblyIsAssembling(R: Readers, s: Step)
    ensures AssemblyIsAsked(R, s) <==> R.Assembles(s)
  {}

  /** The assembly findings are about nothing else. */
  lemma OnlyAssemblies(R: Readers, steps: seq<Step>, h: nat, reason: Reason)
    requires h < |steps| && reason in {AssemblyUnconfirmed, AssemblyUnbound} && Raises(R, steps, h, reason)
    ensures AssemblyIsAsked(R, steps[h])
  {
    AssemblyIsAssembling(R, steps[h]);
  }

  /** The evidence an accepted assembly rests on: answer, then card, then confirmation. */
  ghost predicate AssemblyEvidence(R: Readers, steps: seq<Step>, a: nat, c: nat, u: nat, h: nat)
    requires h < |steps| && steps[h].Call?
  {
    && a < c < u < h
    && AuthorityStands(R, steps, a, h + 1)
    && ConfirmedCard(R, steps, c, u, h + 1) && R.listsAuthority(steps[c].text)
    && OriginOf(steps, a).input == steps[h].input.Get("intent_request")
  }

  /**
    An unsigned assembly, by its tool or by a command, passes exactly when it is made with the tool,
    for the request of an authority answer that still stands, under a confirmed card that came after
    that answer and lists the authority.
  */
  lemma AssemblyRule(R: Readers, steps: seq<Step>, h: nat)
    requires h < |steps| && AssemblyIsAsked(R, steps[h])
    ensures !Raises(R, steps, h, AssemblyUnconfirmed) && !Raises(R, steps, h, AssemblyUnbound) <==>
            && steps[h].tool.AssembleInstallTransaction?
            && exists a: nat, c: nat, u: nat :: AssemblyEvidence(R, steps, a, c, u, h)
  {
    AssemblyIsAssembling(R, steps[h]);
    PassesWith(R, steps, h);
    if !Raises(R, steps, h, AssemblyUnconfirmed) && !Raises(R, steps, h, AssemblyUnbound) {
      var a, c, u := EvidenceFound(R, steps, h);
    }
    if a: nat, c: nat, u: nat :| AssemblyEvidence(R, steps, a, c, u, h) {
      assert AuthorityRequestStands(R, steps, steps[h].input.Get("intent_request"), h + 1);
      assert SomeCardConfirmed(R, steps, h + 1) && SomeCardListsAuthority(R, steps, h + 1);
    }
  }

  /** An assembly passes with the tool, the request that stands, and a confirmed card that lists the authority. */
  lemma PassesWith(R: Readers, steps: seq<Step>, h: nat)
    requires h < |steps| && R.Assembles(steps[h])
    ensures !Raises(R, steps, h, AssemblyUnconfirmed) && !Raises(R, steps, h, AssemblyUnbound) <==>
            && steps[h].tool.AssembleInstallTransaction?
            && AuthorityRequestStands(R, steps, steps[h].input.Get("intent_request"), h + 1)
            && SomeCardConfirmed(R, steps, h + 1) && SomeCardListsAuthority(R, steps, h + 1)
  {
    CardIsHistory(R, steps, h + 1);
    AuthorityIsHistory(R, steps, h + 1);
  }

  lemma EvidenceFound(R: Readers, steps: seq<Step>, h: nat) returns (a: nat, c: nat, u: nat)
    requires h < |steps| && steps[h].Call?
    requires AuthorityRequestStands(R, steps, steps[h].input.Get("intent_request"), h + 1)
    requires SomeCardConfirmed(R, steps, h + 1) && SomeCardListsAuthority(R, steps, h + 1)
    ensures AssemblyEvidence(R, steps, a, c, u, h)
  {
    var n := h + 1;
    a :| AuthorityStands(R, steps, a, n) && OriginOf(steps, a).input == steps[h].input.Get("intent_request");
    c, u :| ConfirmedCard(R, steps, c, u, n);
    var d: nat :| CardStands(R, steps, d, n) && R.listsAuthority(steps[d].text);
    OneCardStands(R, steps, c, d, n);
    AnswerBeforeCard(R, steps, a, c, n);
  }

  /** An authority answer clears the card, so a card that stands beside it came after it. */
  lemma AnswerBeforeCard(R: Readers, steps: seq<Step>, a: nat, c: nat, n: nat)
    requires n <= |steps| && AuthorityStands(R, steps, a, n) && CardStands(R, steps, c, n)
    ensures a < c
  {
    if c < a {
      StandsUncleared(R, steps, c, a, n);
    }
  }

  // ---------- Which grant the evidence is about ----------

  /** No tool call has two answers. */
  ghost predicate AnsweredOnce(steps: seq<Step>) {
    forall p, q :: 0 <= p < q < |steps| && steps[p].Answer? && steps[q].Answer? ==> steps[p].id != steps[q].id
  }

  /** Step `r` is the synthesis result that fixed the grant of step `n`. */
  ghost predicate FixesGrant(steps: seq<Step>, r: nat, n: nat)
    requires n <= |steps|
  {
    && r < n && AnswersSynthesis(steps, r)
    && HasSpec(steps[r].payload)
    && (steps[r].payload.Get("spec"), steps[r].payload.Get("spec_hash")) == SpecAt(steps, n)
    && forall p :: r < p < n ==> !Synthesizes(steps[p]) && !AnswersSynthesis(steps, p)
  }

  lemma {:induction false} GrantHasSource(steps: seq<Step>, n: nat) returns (r: nat)
    requires n <= |steps| && SpecAt(steps, n).0 != Null
    ensures FixesGrant(steps, r, n)
    ensures LatestSynthesis(steps, n) == Some(steps[r].id)
  {
    if AnswersSynthesis(steps, n - 1) {
      r := n - 1;
    } else {
      r := GrantHasSource(steps, n - 1);
      forall p | r < p < n ensures !Synthesizes(steps[p]) && !AnswersSynthesis(steps, p) {
        if p < n - 1 { assert !Synthesizes(steps[p]) && !AnswersSynthesis(steps, p); }
      }
    }
  }

  /** No step from `lo` up to `hi` asks for or answers a synthesis. */
  ghost predicate NoSynthesis(steps: seq<Step>, lo: nat, hi: nat)
    requires hi <= |steps|
  {
    forall p :: lo <= p < hi ==> !Synthesizes(steps[p]) && !AnswersSynthesis(steps, p)
  }

  lemma {:induction false} GrantLasts(steps: seq<Step>, a: nat, n: nat)
    requires a <= n <= |steps| && NoSynthesis(steps, a, n)
    ensures SpecAt(steps, n) == SpecAt(steps, a)
  {
    if a < n {
      GrantLasts(steps, a, n - 1);
      assert !Synthesizes(steps[n - 1]) && !AnswersSynthesis(steps, n - 1);
    }
  }

  /** A standing authority answer, and every step up to `h`, are no synthesis calls. */
  lemma NoSynthesisCalls(R: Readers, steps: seq<Step>, a: nat, h: nat)
    requires a <= h < |steps| && AuthorityStands(R, steps, a, h + 1)
    ensures !AnswersSynthesis(steps, a)
    ensures forall p :: a <= p <= h ==> !Synthesizes(steps[p])
  {
    forall p | a <= p <= h ensures !Synthesizes(steps[p]) {
      if p > a { assert !TouchesAuthority(steps, p); }
    }
  }

  /** The grant of step `n` was fixed by a synthesis result before step `a`. */
  ghost predicate GrantFixedBefore(steps: seq<Step>, a: nat, n: nat)
    requires n <= |steps|
  {
    exists r: nat :: r < a && FixesGrant(steps, r, n)
  }

  /**
    Exactly when the authority answer and the card are about the same synthesis: the grant of an
    evidenced assembly was fixed before its authority was read if and only if no answer to a
    synthesis came after that reading.
  */
  lemma AssemblyGrant(R: Readers, steps: seq<Step>, a: nat, c: nat, u: nat, h: nat)
    requires h < |steps| && AssemblyIsAsked(R, steps[h]) && AssemblyEvidence(R, steps, a, c, u, h)
    ensures GrantFixedBefore(steps, a, h + 1) <==> forall p :: a < p <= h ==> !AnswersSynthesis(steps, p)
  {
    NoSynthesisCalls(R, steps, a, h);
    if forall p :: a < p <= h ==> !AnswersSynthesis(steps, p) {
      GrantLasts(steps, a, h + 1);
      var r := GrantHasSource(steps, a);
      assert FixesGrant(steps, r, h + 1);
    }
  }

  /** With one answer per call, nothing answers the synthesis again after its result was used. */
  lemma NoSecondAnswer(steps: seq<Step>, a: nat, n: nat)
    requires a <= n <= |steps| && AnsweredOnce(steps) && SpecAt(steps, a).0 != Null
    requires forall p :: a <= p < n ==> !Synthesizes(steps[p])
    ensures NoSynthesis(steps, a, n)
  {
    var r := GrantHasSource(steps, a);
    LatestSynthesisLasts(steps, a, n);
    forall p | a <= p < n ensures !AnswersSynthesis(steps, p) {
      LatestSynthesisLasts(steps, a, p);
    }
  }

  lemma {:induction false} LatestSynthesisLasts(steps: seq<Step>, a: nat, n: nat)
    requires a <= n <= |steps| && forall p :: a <= p < n ==> !Synthesizes(steps[p])
    ensures LatestSynthesis(steps, n) == LatestSynthesis(steps, a)
  {
    if a < n { LatestSynthesisLasts(steps, a, n - 1); }
  }

  /**
    So with one answer per call an accepted assembly implies the whole order: a synthesis result,
    an authority answer about exactly that grant, a complete card for it that lists the authority,
    the confirmation.
  */
  lemma AssemblyOrder(R: Readers, steps: seq<Step>, h: nat) returns (r: nat, a: nat, c: nat, u: nat)
    requires h < |steps| && AssemblyIsAsked(R, steps[h]) && AnsweredOnce(steps)
    requires !Raises(R, steps, h, AssemblyUnconfirmed) && !Raises(R, steps, h, AssemblyUnbound)
    ensures r < a < c < u < h
    ensures FixesGrant(steps, r, h + 1)
    ensures AssemblyEvidence(R, steps, a, c, u, h)
    ensures SpecAt(steps, h + 1).0.Obj? && SpecAt(steps, h + 1).1.Str?
    ensures R.authorityMatches(OriginOf(steps, a), steps[a].payload, SpecAt(steps, h + 1).0, SpecAt(steps, h + 1).1)
    ensures R.cardComplete(steps[c].text, SpecAt(steps, h + 1).0, SpecAt(steps, h + 1).1)
  {
    AssemblyRule(R, steps, h);
    a, c, u :| AssemblyEvidence(R, steps, a, c, u, h);
    NoSynthesisCalls(R, steps, a, h);
    NoSecondAnswer(steps, a, h + 1);
    GrantLasts(steps, a, h + 1);
    AssemblyGrant(R, steps, a, c, u, h);
    assert GrantFixedBefore(steps, a, h + 1);
    var n := h + 1;
    r :| r < a && FixesGrant(steps, r, n);
  }

  // ---------- Restated decisions ----------

  function WindowStart(steps: seq<Step>, n: nat): (lo: nat)
    requires n <= |steps|
    ensures lo <= n
    ensures forall p :: lo < p < n ==> !Synthesizes(steps[p])
    ensures lo == 0 || (lo < n && Synthesizes(steps[lo]))
  {
    if n == 0 then 0 else if Synthesizes(steps[n - 1]) then n - 1 else WindowStart(steps, n - 1)
  }

  lemma WindowNext(R: Readers, steps: seq<Step>, n: nat)
    requires 0 < n <= |steps|
    ensures StateAt(R, steps, n).window
            == (if Synthesizes(steps[n - 1]) then [] else StateAt(R, steps, n - 1).window) + [steps[n - 1]]
  {
    NextState(R, steps, n - 1);
  }

  lemma OneLonger(steps: seq<Step>, lo: nat, n: nat)
    requires lo < n <= |steps|
    ensures steps[lo..n - 1] + [steps[n - 1]] == steps[lo..n]
    ensures steps[n - 1..n] == [] + [steps[n - 1]]
  {}

  lemma {:induction false} WindowIsHistory(R: Readers, steps: seq<Step>, n: nat)
    requires n <= |steps|
    ensures StateAt(R, steps, n).window == steps[WindowStart(steps, n)..n]
  {
    if n > 0 {
      WindowIsHistory(R, steps, n - 1);
      WindowNext(R, steps, n);
      OneLonger(steps, if Synthesizes(steps[n - 1]) then n - 1 else WindowStart(steps, n - 1), n);
    }
  }

  lemma {:induction false} LastIndexIsLast(window: seq<Step>, p: Step -> bool)
    ensures match LastIndex(window, p)
            case None => forall i :: 0 <= i < |window| ==> !p(window[i])
            case Some(i) => i < |window| && p(window[i]) && forall j :: i < j < |window| ==> !p(window[j])
  {
    if window != [] && !p(window[|window| - 1]) {
      var init := window[..|window| - 1];
      LastIndexIsLast(init, p);
      assert forall i :: 0 <= i < |init| ==> init[i] == window[i];
    }
  }

  lemma LastIndexIs(window: seq<Step>, p: Step -> bool, i: nat)
    requires i < |window| && p(window[i]) && forall j :: i < j < |window| ==> !p(window[j])
    ensures LastIndex(window, p) == Some(i)
  {
    LastIndexIsLast(window, p);
  }

  /**
    `reply` is the user's last turn before `h` and `said` the agent's last statement before it,
    both since the previous synthesis.
  */
  ghost predicate RepliedTo(steps: seq<Step>, said: nat, reply: nat, h: nat)
    requires h < |steps|
  {
    && said < reply < h
    && steps[said].Say? && !steps[said].aside && steps[reply].User?
    && (forall p :: said < p < reply ==> !(steps[p].Say? && !steps[p].aside))
    && (forall p :: reply < p < h ==> !steps[p].User?)
    && (forall p :: said < p < h ==> !Synthesizes(steps[p]))
  }

  /** The window search finds the reply and the statement that the trace determines... */
  lemma ReplyIsFound(steps: seq<Step>, said: nat, reply: nat, h: nat)
    requires h < |steps| && RepliedTo(steps, said, reply, h)
    ensures var lo := WindowStart(steps, h);
            lo <= said && Restatement(steps[lo..h]) == Some((said - lo, reply - lo))
  {
    var lo := WindowStart(steps, h);
    assert lo <= said;
    var window := steps[lo..h];
    forall j | reply - lo < j < |window| ensures !IsUser(window[j]) {
      assert !steps[lo + j].User?;
    }
    LastIndexIs(window, IsUser, reply - lo);
    var earlier := window[..reply - lo];
    forall j | said - lo < j < |earlier| ensures !Stated(earlier[j]) {
      assert !Stated(steps[lo + j]);
    }
    LastIndexIs(earlier, Stated, said - lo);
  }

  /** ...and nothing else. */
  lemma FoundIsReply(steps: seq<Step>, h: nat, said: nat, reply: nat)
    requires h < |steps| && Restatement(steps[WindowStart(steps, h)..h]) == Some((said, reply))
    ensures RepliedTo(steps, WindowStart(steps, h) + said, WindowStart(steps, h) + reply, h)
  {
    var lo := WindowStart(steps, h);
    var window := steps[lo..h];
    LastIndexIsLast(window, IsUser);
    LastIndexIsLast(window[..reply], Stated);
    forall p | lo + said < p < lo + reply ensures !Stated(steps[p]) {
      assert !Stated(window[..reply][p - lo]);
    }
    forall p | lo + reply < p < h ensures !steps[p].User? {
      assert !IsUser(window[p - lo]);
    }
  }

  /** Some turn of the user's, since the previous synthesis, answers a statement of the agent's. */
  ghost predicate SomeReply(steps: seq<Step>, h: nat)
    requires h < |steps|
  {
    exists said: nat, reply: nat :: RepliedTo(steps, said, reply, h)
  }

  lemma ReplyOrNone(steps: seq<Step>, h: nat)
    requires h < |steps|
    ensures SomeReply(steps, h) <==> Restatement(steps[WindowStart(steps, h)..h]).Some?
  {
    var lo := WindowStart(steps, h);
    if said: nat, reply: nat :| RepliedTo(steps, said, reply, h) {
      ReplyIsFound(steps, said, reply, h);
    }
    match Restatement(steps[lo..h]) {
      case Some((said, reply)) => FoundIsReply(steps, h, said, reply);
      case None =>
    }
  }

  /** Where both are, the finding is the first of the two that fails. */
  lemma ReplyDecides(R: Readers, steps: seq<Step>, decisions: Json, said: nat, reply: nat, h: nat)
    requires h < |steps| && RepliedTo(steps, said, reply, h)
    ensures DecisionFinding(R, steps[WindowStart(steps, h)..h], decisions)
            == if !R.accepts(steps[reply].text) then Some(NotAccepted)
               else if !R.restates(steps[said].text, decisions) then Some(RestatementGaps)
               else None
  {
    ReplyIsFound(steps, said, reply, h);
    var lo := WindowStart(steps, h);
    var window := steps[lo..h];
    assert window[said - lo] == steps[said] && window[reply - lo] == steps[reply];
  }

  /**
    Of the three findings about decisions a synthesis raises at most one: that no statement was
    replied to since the previous synthesis, that the user's latest turn does not plainly accept,
    or that what it answers did not restate these decisions.
  */
  lemma DecisionRule(R: Readers, steps: seq<Step>, h: nat)
    requires h < |steps|
    ensures Raises(R, steps, h, NotRestated) <==> Synthesizes(steps[h]) && !SomeReply(steps, h)
    ensures forall said: nat, reply: nat :: Synthesizes(steps[h]) && RepliedTo(steps, said, reply, h) ==>
              && (Raises(R, steps, h, NotAccepted) <==> !R.accepts(steps[reply].text))
              && (Raises(R, steps, h, RestatementGaps) <==>
                    R.accepts(steps[reply].text) && !R.restates(steps[said].text, steps[h].input.Get("decisions")))
    ensures !Synthesizes(steps[h]) || !SomeReply(steps, h) ==>
              !Raises(R, steps, h, NotAccepted) && !Raises(R, steps, h, RestatementGaps)
  {
    WindowIsHistory(R, steps, h);
    ReplyOrNone(steps, h);
    if Synthesizes(steps[h]) {
      var decisions := steps[h].input.Get("decisions");
      forall said: nat, reply: nat | RepliedTo(steps, said, reply, h)
        ensures DecisionFinding(R, steps[WindowStart(steps, h)..h], decisions)
                == if !R.accepts(steps[reply].text) then Some(NotAccepted)
                   else if !R.restates(steps[said].text, decisions) then Some(RestatementGaps)
                   else None
      {
        ReplyDecides(R, steps, decisions, said, reply, h);
      }
    }
  }

  // ---------- Unreadable results ----------

  /** A synthesis result is found unreadable exactly when it is the latest one's, no error, and states no grant. */
  lemma UnreadableRule(R: Readers, steps: seq<Step>, h: nat)
    requires h < |steps|
    ensures Raises(R, steps, h, ResultUnreadable) <==>
            AnswersSynthesis(steps, h) && !(steps[h].payload.Obj? && "spec" in steps[h].payload.fields)
  {
    LatestAreHistory(R, steps, h);
  }

  // ---------- Which call an answer is to ----------

  /** The last call made under an identifier, wherever in the session it stands. */
  lemma {:induction false} CallIsLast(steps: seq<Step>, id: Id, p: nat)
    requires p < |steps| && steps[p].Call? && steps[p].id == id
    requires forall q :: p < q < |steps| && steps[q].Call? ==> steps[q].id != id
    ensures id in CallsById(steps) && CallsById(steps)[id] == steps[p]
  {
    if p < |steps| - 1 {
      CallIsLast(steps[..|steps| - 1], id, p);
    }
  }

  lemma {:induction false} NoCallNoOrigin(steps: seq<Step>, id: Id)
    requires forall q :: 0 <= q < |steps| && steps[q].Call? ==> steps[q].id != id
    ensures id !in CallsById(steps)
  {
    if steps != [] {
      var init := steps[..|steps| - 1];
      assert forall q :: 0 <= q < |init| ==> init[q] == steps[q];
      NoCallNoOrigin(init, id);
    }
  }
}
