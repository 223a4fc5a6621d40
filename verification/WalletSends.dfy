/**
  Wallet sends under one confirmation, and two sessions that show which hypotheses the
  transcript theorems need.
*/
module WalletSends {
  import opened Prelude
  import opened Transcript
  import opened TranscriptHistory

  // ---------- Calls and their answers ----------

  ghost predicate DistinctCalls(steps: seq<Step>) {
    forall i, j :: 0 <= i < j < |steps| && steps[i].Call? && steps[j].Call? ==> steps[i].id != steps[j].id
  }

  predicate Sends(s: Step) { s.Call? && s.tool.SendWalletProposal? }

  function Body(s: Step): Json
    requires s.Call?
  {
    s.input.Get("proposal_json")
  }

  /** The remembered first send is an earlier send step. */
  lemma {:induction false} FirstSendIsEarlier(R: Readers, steps: seq<Step>, n: nat) returns (f: nat)
    requires n <= |steps| && StateAt(R, steps, n).wallet.firstSend.Some?
    ensures var first := StateAt(R, steps, n).wallet.firstSend.value;
            f < n && Sends(steps[f]) && steps[f].id == first.id && Body(steps[f]) == first.body
  {
    var before := StateAt(R, steps, n - 1);
    var s := steps[n - 1];
    if Sends(s) && before.card.confirmed && !before.wallet.Held() {
      f := n - 1;
    } else {
      assert StateAt(R, steps, n).wallet.firstSend == before.wallet.firstSend;
      f := FirstSendIsEarlier(R, steps, n - 1);
    }
  }

  /** What is recorded about a send was said by an answer to it. */
  lemma {:induction false} StagedWasAnswered(R: Readers, steps: seq<Step>, id: Id, n: nat) returns (p: nat)
    requires n <= |steps| && id in StateAt(R, steps, n).wallet.staged
    ensures p < n && steps[p].Answer? && steps[p].id == id && id in CallsById(steps)
    ensures StateAt(R, steps, n).wallet.staged[id] == R.MayHaveStaged(steps[p])
  {
    var before, after, s := StateAt(R, steps, n - 1), StateAt(R, steps, n), steps[n - 1];
    if s.Answer? && s.id == id && after.wallet.staged != before.wallet.staged {
      p := n - 1;
    } else {
      assert id in before.wallet.staged && after.wallet.staged[id] == before.wallet.staged[id];
      p := StagedWasAnswered(R, steps, id, n - 1);
    }
  }

  /** No step from `lo` up to `hi` ends the confirmation that stands at `lo`. */
  ghost predicate OneConfirmation(R: Readers, steps: seq<Step>, lo: nat, hi: nat)
    requires hi <= |steps|
  {
    forall p :: lo <= p < hi ==> !Clears(R, steps, p)
  }

  /** After `n` steps a card is confirmed and send `f` decides which bytes that allows. */
  predicate HoldsSlot(R: Readers, steps: seq<Step>, f: nat, n: nat)
    requires f < |steps| && n <= |steps|
  {
    var m := StateAt(R, steps, n);
    Sends(steps[f]) && m.card.confirmed && m.wallet.Held() && m.wallet.firstSend.value.id == steps[f].id
  }

  /** An answer from `lo` up to `hi` says that send `f` left nothing in the wallet. */
  ghost predicate RefusedBetween(R: Readers, steps: seq<Step>, f: nat, lo: nat, hi: nat)
    requires f < |steps| && hi <= |steps| && steps[f].Call?
  {
    exists p :: lo <= p < hi && Refuses(R, steps[p], steps[f].id)
  }

  /** The answer is an error that says the wallet took nothing: one of four codes, or a call declined. */
  predicate Refuses(R: Readers, s: Step, id: Id) {
    s.Answer? && s.id == id && s.error &&
    match Code(R, s)
    case Some(code) =>
      || code == "E_WALLET_BUSY" || code == "E_WALLET_DRAFT_PENDING"
      || code == "E_WALLET_PAIRING_REQUIRED" || code == "E_WALLET_PROPOSAL_REFUSED"
    case None => R.declined(s.text)
  }

  /** The code an answer states, in its payload or else in its text. */
  function Code(R: Readers, s: Step): Option<string>
    requires s.Answer?
  {
    match s.payload.Get("code")
    case Str(code) => Some(code)
    case _ => R.errorCode(s.text)
  }

  lemma RefusesExactly(R: Readers, s: Step, id: Id)
    requires s.Answer? && s.id == id
    ensures Refuses(R, s, id) <==> !R.MayHaveStaged(s)
  {
  }

  lemma ConfirmedIsShown(R: Readers, steps: seq<Step>, n: nat)
    requires n <= |steps| && StateAt(R, steps, n).card.confirmed
    ensures StateAt(R, steps, n).card.shown
  {
    CardIsHistory(R, steps, n);
    NothingWithoutCard(R, steps, n);
  }

  lemma QuietStepKeepsSlot(R: Readers, steps: seq<Step>, f: nat, n: nat)
    requires 0 < n <= |steps| && f < |steps| && steps[f].Call? && !Clears(R, steps, n - 1)
    requires steps[n - 1].Answer? && steps[n - 1].id == steps[f].id ==> R.MayHaveStaged(steps[n - 1])
    requires var m := StateAt(R, steps, n - 1);
             m.card.confirmed && m.wallet.Held() && m.wallet.firstSend.value.id == steps[f].id
    ensures var m, k := StateAt(R, steps, n), StateAt(R, steps, n - 1);
            m.card.confirmed && m.wallet.Held() && m.wallet.firstSend == k.wallet.firstSend
  {
    ConfirmedIsShown(R, steps, n - 1);
    LatestAreHistory(R, steps, n - 1);
  }

  /** The one answer to a send is what is recorded about it from then on. */
  lemma {:induction false} AnswerIsRecorded(R: Readers, steps: seq<Step>, f: nat, p: nat, n: nat)
    requires f < p < n <= |steps| && Sends(steps[f]) && steps[p].Answer? && steps[p].id == steps[f].id
    requires steps[f].id in CallsById(steps) && CallsById(steps)[steps[f].id] == steps[f]
    requires AnsweredOnce(steps)
    ensures steps[f].id in StateAt(R, steps, n).wallet.staged
    ensures StateAt(R, steps, n).wallet.staged[steps[f].id] == R.MayHaveStaged(steps[p])
  {
    if n == p + 1 {
      assert StateAt(R, steps, n) == Next(R, CallsById(steps), StateAt(R, steps, p), steps[p]);
    } else {
      AnswerIsRecorded(R, steps, f, p, n - 1);
      var before, after := StateAt(R, steps, n - 1), StateAt(R, steps, n);
      if steps[n - 1].Answer? {
        assert steps[n - 1].id != steps[p].id;
      }
    }
  }

  lemma {:induction false} SlotStays(R: Readers, steps: seq<Step>, f: nat, lo: nat, n: nat)
    requires f < |steps| && lo <= n <= |steps|
    requires OneConfirmation(R, steps, lo, n) && HoldsSlot(R, steps, f, lo)
    requires !RefusedBetween(R, steps, f, lo, n)
    ensures HoldsSlot(R, steps, f, n)
    ensures StateAt(R, steps, n).wallet.firstSend == StateAt(R, steps, lo).wallet.firstSend
  {
    if lo < n {
      SlotStays(R, steps, f, lo, n - 1);
      assert !Refuses(R, steps[n - 1], steps[f].id);
      QuietStepKeepsSlot(R, steps, f, n);
    }
  }

  /**
    Exactly when a send keeps its slot: while one confirmation stands, the send that holds the slot
    after `lo` steps holds it after `n` if and only if no answer in between refuses it.
  */
  lemma SlotIsKept(R: Readers, steps: seq<Step>, f: nat, lo: nat, n: nat)
    requires f < lo <= n <= |steps| && DistinctCalls(steps) && AnsweredOnce(steps)
    requires OneConfirmation(R, steps, lo, n) && HoldsSlot(R, steps, f, lo)
    ensures HoldsSlot(R, steps, f, n) <==> !RefusedBetween(R, steps, f, lo, n)
  {
    if p :| lo <= p < n && Refuses(R, steps[p], steps[f].id) {
      CallIsLast(steps, steps[f].id, f);
      AnswerIsRecorded(R, steps, f, p, n);
    } else {
      SlotStays(R, steps, f, lo, n);
    }
  }

  /** Under a held slot only the bytes of its holder pass. */
  lemma HolderFixesBytes(R: Readers, steps: seq<Step>, f: nat, j: nat)
    requires f < |steps| && j < |steps| && Sends(steps[j]) && DistinctCalls(steps) && HoldsSlot(R, steps, f, j)
    ensures !Raises(R, steps, j, ProposalReused) <==> Body(steps[j]) == Body(steps[f])
  {
    var g := FirstSendIsEarlier(R, steps, j);
    SameId(steps, f, g);
  }

  lemma SameId(steps: seq<Step>, f: nat, g: nat)
    requires f < |steps| && g < |steps| && steps[f].Call? && steps[g].Call? && steps[f].id == steps[g].id
    requires DistinctCalls(steps)
    ensures f == g
  {
  }

  /** Every answer comes after its call. */
  ghost predicate AnswersFollow(steps: seq<Step>) {
    forall f, p :: 0 <= f < |steps| && 0 <= p < |steps| && Answers(steps[p], steps[f]) ==> f < p
  }

  predicate Answers(answer: Step, call: Step) { call.Call? && answer.Answer? && answer.id == call.id }

  /** A send that passes its own check leaves its bytes holding the slot. */
  lemma SendTakesSlot(R: Readers, steps: seq<Step>, i: nat) returns (f: nat)
    requires i < |steps| && Sends(steps[i]) && DistinctCalls(steps) && AnswersFollow(steps)
    requires !Raises(R, steps, i, HandoffUnconfirmed) && !Raises(R, steps, i, ProposalReused)
    ensures f <= i && Sends(steps[f]) && Body(steps[f]) == Body(steps[i])
    ensures f < i ==> StateAt(R, steps, i).wallet.Pending(steps[f].id)
    ensures HoldsSlot(R, steps, f, i + 1)
  {
    var m := StateAt(R, steps, i);
    assert R.HandsOff(steps[i]) && m.card.confirmed;
    if m.wallet.Held() {
      f := FirstSendIsEarlier(R, steps, i);
    } else {
      f := i;
      if steps[i].id in m.wallet.staged {
        var p := StagedWasAnswered(R, steps, steps[i].id, i);
        assert Answers(steps[p], steps[i]);
        assert false;
      }
    }
  }

  /**
    Two sends that pass under one confirmation: the send `f` whose bytes the first one carries
    holds the slot at the second exactly if no answer in between refused it, and then the second
    carries those bytes too.
  */
  lemma LaterSendAgrees(R: Readers, steps: seq<Step>, i: nat, j: nat) returns (f: nat)
    requires i < j < |steps| && Sends(steps[i]) && Sends(steps[j])
    requires DistinctCalls(steps) && AnswersFollow(steps) && AnsweredOnce(steps)
    requires !Raises(R, steps, i, HandoffUnconfirmed) && !Raises(R, steps, i, ProposalReused)
    requires OneConfirmation(R, steps, i + 1, j)
    ensures f <= i && Sends(steps[f]) && Body(steps[f]) == Body(steps[i]) && HoldsSlot(R, steps, f, i + 1)
    ensures f < i ==> StateAt(R, steps, i).wallet.Pending(steps[f].id)
    ensures HoldsSlot(R, steps, f, j) <==> !RefusedBetween(R, steps, f, i + 1, j)
    ensures !RefusedBetween(R, steps, f, i + 1, j) ==>
              (!Raises(R, steps, j, ProposalReused) <==> Body(steps[j]) == Body(steps[i]))
  {
    f := SendTakesSlot(R, steps, i);
    SlotIsKept(R, steps, f, i + 1, j);
    if HoldsSlot(R, steps, f, j) { HolderFixesBytes(R, steps, f, j); }
  }

  // ---------- Prompt answers ----------

  /** Every answer comes after its call and before the next call. */
  ghost predicate PromptAnswers(steps: seq<Step>) {
    forall f, p :: 0 <= f < |steps| && 0 <= p < |steps| && Answers(steps[p], steps[f]) ==>
      f < p && forall k :: f < k < p ==> !steps[k].Call?
  }

  /** Step `i`, a send, was never answered before `j`, or its answer may have left a draft. */
  ghost predicate MayWait(R: Readers, steps: seq<Step>, i: nat, j: nat)
    requires i < |steps| && j <= |steps| && steps[i].Call?
  {
    forall p :: 0 <= p < j ==> !Refuses(R, steps[p], steps[i].id)
  }

  /**
    So when every answer comes before the next call, two sends that pass under one confirmation
    carry identical bytes unless the first was certainly refused.
  */
  lemma SendsAgree(R: Readers, steps: seq<Step>, i: nat, j: nat)
    requires i < j < |steps| && Sends(steps[i]) && Sends(steps[j])
    requires DistinctCalls(steps) && PromptAnswers(steps) && AnsweredOnce(steps)
    requires forall h :: h in {i, j} ==>
        !Raises(R, steps, h, HandoffUnconfirmed) && !Raises(R, steps, h, ProposalReused)
    requires OneConfirmation(R, steps, i + 1, j)
    requires MayWait(R, steps, i, j)
    ensures Body(steps[i]) == Body(steps[j])
  {
    var f := LaterSendAgrees(R, steps, i, j);
    PromptlyAnswered(R, steps, f, i, j);
  }

  /** A prompt answer to an earlier send came before `i`, so only an answer to `i` itself could refuse. */
  lemma PromptlyAnswered(R: Readers, steps: seq<Step>, f: nat, i: nat, j: nat)
    requires f <= i < j < |steps| && steps[f].Call? && steps[i].Call? && PromptAnswers(steps)
    requires f == i ==> MayWait(R, steps, i, j)
    ensures !RefusedBetween(R, steps, f, i + 1, j)
  {
    forall p | i + 1 <= p < j ensures !Refuses(R, steps[p], steps[f].id) {
      var later := steps[i];
      if f < i { assert !Answers(steps[p], steps[f]); }
    }
  }

  // ---------- Sessions that show the hypotheses are needed ----------

  function Synthesized(spec: Json, specHash: Json): Json {
    Obj(map["spec" := spec, "spec_hash" := specHash])
  }

  function Proposal(body: Json): Json {
    Obj(map["proposal_json" := body])
  }

  lemma SynthesisStep(R: Readers, steps: seq<Step>, n: nat, t: Id, spec: Json, specHash: Json)
    requires n + 1 < |steps| && steps[n] == Call(t, SynthesizePolicy, "", Null)
    requires steps[n + 1] == Answer(t, false, "", Synthesized(spec, specHash))
    requires t in CallsById(steps) && CallsById(steps)[t] == steps[n]
    ensures var m, k := StateAt(R, steps, n), StateAt(R, steps, n + 2);
            k.grant == GrantFlags(spec, specHash, Some(t)) && k.authority == NO_AUTHORITY && k.card == NO_CARD
            && k.wallet == m.wallet
  {
    var m, k := StateAt(R, steps, n), StateAt(R, steps, n + 1);
    assert k.grant == GrantFlags(Null, Null, Some(t)) && k.wallet == m.wallet;
    AnswerStep(R, steps, n + 1, t, spec, specHash);
  }

  lemma AnswerStep(R: Readers, steps: seq<Step>, n: nat, t: Id, spec: Json, specHash: Json)
    requires n < |steps| && steps[n] == Answer(t, false, "", Synthesized(spec, specHash))
    requires t in CallsById(steps) && CallsById(steps)[t] == Call(t, SynthesizePolicy, "", Null)
    requires StateAt(R, steps, n).grant.latestSynthesis == Some(t)
    ensures var m, k := StateAt(R, steps, n), StateAt(R, steps, n + 1);
            k.grant == GrantFlags(spec, specHash, Some(t)) && k.authority == m.authority && k.card == NO_CARD
            && k.wallet == m.wallet
  {
    var payload := Synthesized(spec, specHash);
    assert HasSpec(payload) && payload.Get("spec") == spec;
    assert payload.Get("spec_hash") == specHash;
  }

  lemma CardStep(R: Readers, steps: seq<Step>, n: nat, card: string)
    requires n + 1 < |steps| && steps[n] == Say(card, false) && steps[n + 1] == User("confirm")
    requires var m := StateAt(R, steps, n); ReadsCard(R, card, m.grant.spec, m.grant.specHash)
    ensures var m, k := StateAt(R, steps, n), StateAt(R, steps, n + 2);
            k.grant == m.grant && k.authority == m.authority && k.card == CardFlags(true, true, true)
            && k.wallet == m.wallet.(confirmations := m.wallet.confirmations + 1)
  {
    assert StateAt(R, steps, n + 1).card == CardFlags(true, false, true);
  }

  lemma SendStep(R: Readers, steps: seq<Step>, n: nat, id: Id, body: Json)
    requires n < |steps| && steps[n] == Call(id, SendWalletProposal, "", Proposal(body))
    requires StateAt(R, steps, n).card.confirmed
    ensures var m, k := StateAt(R, steps, n), StateAt(R, steps, n + 1);
            && Sends(steps[n]) && Body(steps[n]) == body
            && k.card == m.card
            && k.wallet == (if m.wallet.Held() then m.wallet
                            else m.wallet.(firstSend := Some(Send(m.wallet.confirmations, body, id))))
            && !Raises(R, steps, n, HandoffUnconfirmed)
            && (Raises(R, steps, n, ProposalReused) <==> m.wallet.Held() && m.wallet.firstSend.value.body != body)
  {
    assert steps[n].input.Get("proposal_json") == body;
  }

  /** What a reader must accept for a session to reach a confirmed card for one grant. */
  predicate ReadsCard(R: Readers, card: string, spec: Json, specHash: Json) {
    && spec.Obj? && specHash.Str?
    && R.cardTitle(card) && R.cardComplete(card, spec, specHash) && R.listsAuthority(card)
    && R.isConfirmation("confirm")
  }

  function LateRefusal(card: string, grant: Json, x: Json, y: Json, refusal: Step, t: Id, a: Id, b: Id,
      c: Id): seq<Step> {
    [ Call(t, SynthesizePolicy, "", Null), Answer(t, false, "", grant),
      Say(card, false), User("confirm"),
      Call(a, SendWalletProposal, "", Proposal(x)), Call(b, SendWalletProposal, "", Proposal(x)),
      refusal,
      Call(c, SendWalletProposal, "", Proposal(y)) ]
  }

  /**
    A late refusal of the first send frees its slot, so without prompt answers a third send may
    carry other bytes while the second is still waiting.
  */
  lemma LateRefusalFreesTheSlot(
    R: Readers, card: string, spec: Json, specHash: Json, x: Json, y: Json, refusal: Step, t: Id, a: Id, b: Id, c: Id)
    requires ReadsCard(R, card, spec, specHash)
    requires NoDuplicates([t, a, b, c])
    requires refusal.Answer? && refusal.id == a && !R.MayHaveStaged(refusal)
    requires x != y
    ensures var steps := LateRefusal(card, Synthesized(spec, specHash), x, y, refusal, t, a, b, c);
            && DistinctCalls(steps) && AnsweredOnce(steps) && MayWait(R, steps, 5, 7)
            && Sends(steps[5]) && Sends(steps[7]) && OneConfirmation(R, steps, 6, 7)
            && steps[4].Call? && RefusedBetween(R, steps, 4, 6, 7)
            && (forall h :: h in {5, 7} ==>
                  !Raises(R, steps, h, HandoffUnconfirmed) && !Raises(R, steps, h, ProposalReused))
            && Body(steps[5]) != Body(steps[7])
  {
    var steps := LateRefusal(card, Synthesized(spec, specHash), x, y, refusal, t, a, b, c);
    LateRefusalShape(R, card, Synthesized(spec, specHash), x, y, refusal, t, a, b, c);
    assert Refuses(R, steps[6], steps[4].id);
    LateRefusalRun(R, steps, card, spec, specHash, x, y, t, a, b, c);
  }

  lemma LateRefusalShape(
    R: Readers, card: string, grant: Json, x: Json, y: Json, refusal: Step, t: Id, a: Id, b: Id, c: Id)
    requires NoDuplicates([t, a, b, c]) && refusal.Answer? && refusal.id == a
    ensures var steps := LateRefusal(card, grant, x, y, refusal, t, a, b, c);
            && DistinctCalls(steps) && AnsweredOnce(steps) && MayWait(R, steps, 5, 7)
            && steps[4].id in CallsById(steps) && CallsById(steps)[steps[4].id] == steps[4]
            && t in CallsById(steps) && CallsById(steps)[t] == steps[0]
  {
    var steps := LateRefusal(card, grant, x, y, refusal, t, a, b, c);
    DistinctFour(t, a, b, c);
    CallIsLast(steps, steps[0].id, 0);
    CallIsLast(steps, steps[4].id, 4);
  }

  lemma LateRefusalRun(
    R: Readers, steps: seq<Step>, card: string, spec: Json, specHash: Json, x: Json, y: Json, t: Id, a: Id, b: Id,
    c: Id)
    requires |steps| == 8 && ReadsCard(R, card, spec, specHash)
    requires t in CallsById(steps) && CallsById(steps)[t] == steps[0]
    requires a in CallsById(steps) && CallsById(steps)[a] == steps[4]
    requires steps[0] == Call(t, SynthesizePolicy, "", Null)
        && steps[1] == Answer(t, false, "", Synthesized(spec, specHash))
    requires steps[2] == Say(card, false) && steps[3] == User("confirm")
    requires steps[4] == Call(a, SendWalletProposal, "", Proposal(x))
        && steps[5] == Call(b, SendWalletProposal, "", Proposal(x))
    requires steps[6].Answer? && steps[6].id == a && !R.MayHaveStaged(steps[6])
    requires steps[7] == Call(c, SendWalletProposal, "", Proposal(y))
    ensures forall h :: h in {5, 7} ==>
              Sends(steps[h]) && !Raises(R, steps, h, HandoffUnconfirmed) && !Raises(R, steps, h, ProposalReused)
    ensures Body(steps[5]) == x && Body(steps[7]) == y && !Clears(R, steps, 6)
  {
    TwoSends(R, steps, card, spec, specHash, x, t, a, b);
    RefusalStep(R, steps, 6, 4);
    SendStep(R, steps, 7, c, y);
  }

  /** A confirmed card and two sends of the same bytes: the second leaves the first one's slot alone. */
  lemma TwoSends(
    R: Readers, steps: seq<Step>, card: string, spec: Json, specHash: Json, x: Json, t: Id, a: Id, b: Id)
    requires |steps| == 8 && ReadsCard(R, card, spec, specHash)
    requires t in CallsById(steps) && CallsById(steps)[t] == steps[0]
    requires steps[0] == Call(t, SynthesizePolicy, "", Null)
        && steps[1] == Answer(t, false, "", Synthesized(spec, specHash))
    requires steps[2] == Say(card, false) && steps[3] == User("confirm")
    requires steps[4] == Call(a, SendWalletProposal, "", Proposal(x))
        && steps[5] == Call(b, SendWalletProposal, "", Proposal(x))
    ensures Sends(steps[5]) && !Raises(R, steps, 5, HandoffUnconfirmed) && !Raises(R, steps, 5, ProposalReused)
    ensures StateAt(R, steps, 6).wallet.firstSend == Some(Send(1, x, a))
    ensures StateAt(R, steps, 6).card == CardFlags(true, true, true)
  {
    SynthesisStep(R, steps, 0, t, spec, specHash);
    CardStep(R, steps, 2, card);
    SendStep(R, steps, 4, a, x);
    SendStep(R, steps, 5, b, x);
  }

  lemma DistinctFour(t: Id, a: Id, b: Id, c: Id)
    requires NoDuplicates([t, a, b, c])
    ensures t != a && t != b && t != c && a != b && a != c && b != c
  {
    var s := [t, a, b, c];
    assert s[0] != s[1] && s[0] != s[2] && s[0] != s[3] && s[1] != s[2] && s[1] != s[3] && s[2] != s[3];
  }

  lemma RefusalStep(R: Readers, steps: seq<Step>, n: nat, f: nat)
    requires n < |steps| && f < |steps| && Sends(steps[f])
    requires steps[f].id in CallsById(steps) && CallsById(steps)[steps[f].id] == steps[f]
    requires steps[n].Answer? && steps[n].id == steps[f].id && !R.MayHaveStaged(steps[n])
    requires var w := StateAt(R, steps, n).wallet; w.firstSend.Some? && w.firstSend.value.id == steps[f].id
    ensures var m, k := StateAt(R, steps, n), StateAt(R, steps, n + 1); k.card == m.card && !k.wallet.Held()
    ensures !Clears(R, steps, n)
  {
    assert OriginOf(steps, n) == steps[f];
  }

  function TwoAnswers(card: string, grant: Json, other: Json, question: Json, verdict: Json, t: Id, q: Id,
      s: Id): seq<Step> {
    [ Call(t, SynthesizePolicy, "", Null), Answer(t, false, "", grant),
      Call(q, CheckPolicyCallSurface, "", question), Answer(q, false, "", verdict),
      Answer(t, false, "", other), Say(card, false), User("confirm"),
      Call(s, AssembleInstallTransaction, "", Obj(map["intent_request" := question])) ]
  }

  /**
    If a synthesis may be answered twice, an assembly passes although the authority was read for
    the first grant and the confirmed card shows the second.
  */
  lemma SecondAnswerSwapsTheGrant(
    R: Readers, card: string, spec: Json, specHash: Json, other: Json, otherHash: Json,
    question: Json, verdict: Json, t: Id, q: Id, s: Id)
    requires ReadsCard(R, card, other, otherHash)
    requires spec.Obj? && spec != other
    requires t != q && t != s && q != s
    requires R.authorityMatches(Call(q, CheckPolicyCallSurface, "", question), verdict, spec, specHash)
    ensures var steps :=
              TwoAnswers(card, Synthesized(spec, specHash), Synthesized(other, otherHash), question, verdict, t, q, s);
            && DistinctCalls(steps) && R.Assembles(steps[7])
            && !Raises(R, steps, 7, AssemblyUnconfirmed) && !Raises(R, steps, 7, AssemblyUnbound)
            && SpecAt(steps, 3).0 == spec && SpecAt(steps, 8).0 == other
  {
    var first, second := Synthesized(spec, specHash), Synthesized(other, otherHash);
    var steps := TwoAnswers(card, first, second, question, verdict, t, q, s);
    TwoAnswersCalls(card, first, second, question, verdict, t, q, s);
    AuthorityIsRead(R, steps, spec, specHash, question, verdict, t, q);
    AnswerStep(R, steps, 4, t, other, otherHash);
    CardStep(R, steps, 5, card);
    AssemblyStep(R, steps, 7, s, question);
    LatestAreHistory(R, steps, 3);
    LatestAreHistory(R, steps, 8);
  }

  lemma TwoAnswersCalls(
    card: string, first: Json, second: Json, question: Json, verdict: Json, t: Id, q: Id, s: Id)
    requires t != q && t != s && q != s
    ensures var steps := TwoAnswers(card, first, second, question, verdict, t, q, s);
            && DistinctCalls(steps)
            && t in CallsById(steps) && CallsById(steps)[t] == steps[0]
            && q in CallsById(steps) && CallsById(steps)[q] == steps[2]
  {
    var steps := TwoAnswers(card, first, second, question, verdict, t, q, s);
    CallIsLast(steps, steps[0].id, 0);
    CallIsLast(steps, steps[2].id, 2);
  }

  /** A synthesis and an authority reading for its grant. */
  lemma AuthorityIsRead(
    R: Readers, steps: seq<Step>, spec: Json, specHash: Json, question: Json, verdict: Json, t: Id, q: Id)
    requires |steps| >= 4 && spec.Obj?
    requires t in CallsById(steps) && CallsById(steps)[t] == steps[0]
    requires q in CallsById(steps) && CallsById(steps)[q] == steps[2]
    requires steps[0] == Call(t, SynthesizePolicy, "", Null)
    requires steps[1] == Answer(t, false, "", Synthesized(spec, specHash))
    requires steps[2] == Call(q, CheckPolicyCallSurface, "", question) && steps[3] == Answer(q, false, "", verdict)
    requires R.authorityMatches(steps[2], verdict, spec, specHash)
    ensures StateAt(R, steps, 3).grant == GrantFlags(spec, specHash, Some(t))
    ensures StateAt(R, steps, 4).grant == GrantFlags(spec, specHash, Some(t))
    ensures StateAt(R, steps, 4).authority.request == Some(question)
  {
    SynthesisStep(R, steps, 0, t, spec, specHash);
    AuthorityQuestion(R, steps, 2, q, question, verdict);
  }

  lemma AuthorityQuestion(R: Readers, steps: seq<Step>, n: nat, q: Id, question: Json, verdict: Json)
    requires n + 1 < |steps| && steps[n] == Call(q, CheckPolicyCallSurface, "", question)
    requires steps[n + 1] == Answer(q, false, "", verdict)
    requires q in CallsById(steps) && CallsById(steps)[q] == steps[n]
    requires var m := StateAt(R, steps, n);
             m.grant.spec.Obj? && R.authorityMatches(steps[n], verdict, m.grant.spec, m.grant.specHash)
    ensures StateAt(R, steps, n + 1).grant == StateAt(R, steps, n).grant
    ensures var m, k := StateAt(R, steps, n), StateAt(R, steps, n + 2);
            k.grant == m.grant && k.authority.request == Some(question) && k.wallet == m.wallet
  {
    var k := StateAt(R, steps, n + 1);
    assert k.authority == AuthorityFlags(None, Some(q));
  }

  lemma AssemblyStep(R: Readers, steps: seq<Step>, n: nat, s: Id, question: Json)
    requires n < |steps|
    requires steps[n] == Call(s, AssembleInstallTransaction, "", Obj(map["intent_request" := question]))
    requires StateAt(R, steps, n).card == CardFlags(true, true, true)
    requires StateAt(R, steps, n).authority.request == Some(question)
    ensures R.Assembles(steps[n]) && StateAt(R, steps, n + 1).grant == StateAt(R, steps, n).grant
    ensures !Raises(R, steps, n, AssemblyUnconfirmed) && !Raises(R, steps, n, AssemblyUnbound)
  {
    assert steps[n].input.Get("intent_request") == question;
  }
}
