/** At-most-once delivery of a tablet's report: claim, send, finish, with concurrent callers and crashes anywhere. */
module ReportDelivery {
  import opened Common

  /** One delivery request: an installation and its request id. */
  datatype Key = Key(installation: nat, request: nat)

  datatype RowState = Processing | Success | Failed | Unknown

  datatype Row = Row(recipient: nat, state: RowState, code: string)

  datatype Reply = Reply(state: string, code: string)

  // ---- the single send ------------------------------------------------------------------------------

  datatype ProviderError = ProviderUnavailable | MessageRejected | ProviderConfiguration | OtherProviderError

  /** What came of the one provider call. */
  datatype SendResult = Accepted | NotAResult | Raised(error: ProviderError) | RaisedOther

  /** How a delivery went: refused before any send, or sent. */
  datatype Path =
    | AdmissionRefused(code: string) | ProviderUnusable | RecipientRefused(code: string)
    | MessageInvalid(error: Option<ProviderError>) | SendReturned(result: SendResult)

  datatype Outcome = Outcome(code: string, delivered: bool)

  const ADMISSION_CODES := {
    "recipient_not_authorized", "recipient_email_unavailable", "recipient_domain_not_allowed", "invalid_attachment",
    "attachment_too_large", "invalid_pdf", "unsupported_pdf_encryption", "pdf_inspection_unavailable"}

  function AdmissionCode(code: string): string {
    if code in ADMISSION_CODES then code else "invalid_attachment"
  }

  function ProviderCode(error: ProviderError): string {
    match error
    case ProviderUnavailable => "provider_unavailable"
    case MessageRejected => "message_rejected"
    case ProviderConfiguration => "provider_configuration"
    case OtherProviderError => "provider_unavailable"
  }

  /** `deliver_outbound_report`: the outcome of each path; only `SendReturned` involves the provider. */
  function Deliver(p: Path): Outcome {
    match p
    case AdmissionRefused(code) => Outcome(AdmissionCode(code), false)
    case ProviderUnusable => Outcome("delivery_unavailable", false)
    case RecipientRefused(code) => Outcome(AdmissionCode(code), false)
    case MessageInvalid(Some(e)) => Outcome(ProviderCode(e), false)
    case MessageInvalid(None) => Outcome("provider_unavailable", false)
    case SendReturned(Accepted) => Outcome("delivered", true)
    case SendReturned(Raised(e)) => Outcome(ProviderCode(e), false)
    case SendReturned(_) => Outcome("provider_unavailable", false)
  }

  /** `_terminal_state`. */
  function Terminal(o: Outcome): RowState {
    if o.delivered then Success else if o.code == "provider_unavailable" then Unknown else Failed
  }

  function StateName(s: RowState): string {
    match s case Processing => "PROCESSING" case Success => "SUCCESS" case Failed => "FAILED" case Unknown => "UNKNOWN"
  }

  /** `_replay`: what a later caller is told about an existing claim. */
  function Replay(row: Row, recipient: nat): Reply {
    if row.recipient != recipient then Reply("CONFLICT", "idempotency_conflict")
    else if row.state.Processing? then Reply("UNKNOWN", "delivery_indeterminate")
    else Reply(StateName(row.state), row.code)
  }

  /** The terminal state tells exactly what happened at the provider. */
  lemma TerminalStateMeaning(p: Path)
    ensures Terminal(Deliver(p)) == Success <==> p == SendReturned(Accepted)
    ensures Terminal(Deliver(p)) == Unknown <==>
            p in {SendReturned(NotAResult), SendReturned(RaisedOther), SendReturned(Raised(ProviderUnavailable)),
                  SendReturned(Raised(OtherProviderError)), MessageInvalid(None),
                  MessageInvalid(Some(ProviderUnavailable)), MessageInvalid(Some(OtherProviderError))}
    ensures Terminal(Deliver(p)) != Processing
  {
    if p.AdmissionRefused? || p.RecipientRefused? {
      assert AdmissionCode(p.code) in ADMISSION_CODES;
      assert "provider_unavailable" !in ADMISSION_CODES;
    }
  }

  predicate AdmissionText(code: string) {
    || code == "recipient_not_authorized" || code == "recipient_email_unavailable"
    || code == "recipient_domain_not_allowed" || code == "invalid_attachment" || code == "attachment_too_large"
    || code == "invalid_pdf" || code == "unsupported_pdf_encryption" || code == "pdf_inspection_unavailable"
  }

  /** The code that a caller gets to see for each way a delivery can go; unknown refusals are not passed on. */
  lemma CodesAreTold(p: Path)
    ensures p == SendReturned(Accepted) ==> Deliver(p).code == "delivered"
    ensures p == ProviderUnusable ==> Deliver(p).code == "delivery_unavailable"
    ensures p == SendReturned(Raised(MessageRejected)) || p == MessageInvalid(Some(MessageRejected)) ==>
              Deliver(p).code == "message_rejected"
    ensures p == SendReturned(Raised(ProviderConfiguration)) || p == MessageInvalid(Some(ProviderConfiguration)) ==>
              Deliver(p).code == "provider_configuration"
    ensures (p.AdmissionRefused? || p.RecipientRefused?) && AdmissionText(p.code) ==> Deliver(p).code == p.code
    ensures (p.AdmissionRefused? || p.RecipientRefused?) && !AdmissionText(p.code) ==>
              Deliver(p).code == "invalid_attachment"
    ensures Terminal(Deliver(p)) == Unknown ==> Deliver(p).code == "provider_unavailable"
  {
    if p.AdmissionRefused? || p.RecipientRefused? { assert p.code in ADMISSION_CODES <==> AdmissionText(p.code); }
    TerminalStateMeaning(p);
  }

  // ---- concurrent callers -----------------------------------------------------------------------------

  datatype Phase = Starting | Claimed | Delivered(path: Path) | Answered(reply: Reply) | Crashed

  /** One call of `submit_tablet_report_delivery`; `owner` once its claim has created the row. */
  datatype Caller = Caller(key: Key, recipient: nat, owner: bool, phase: Phase)

  datatype Send = Send(key: Key, result: SendResult)

  /** The table, the callers, every provider call ever made, and how each claimed delivery went. */
  datatype State = State(table: map<Key, Row>, callers: map<nat, Caller>, sends: seq<Send>, paths: map<Key, Path>)

  const Initial := State(map[], map[], [], map[])

  datatype Action =
    | Arrive(id: nat, key: Key, recipient: nat)
    | ClaimOrReplay(id: nat)
    | DeliverOnce(id: nat, path: Path)
    | Finish(id: nat)
    | Crash(id: nat)

  function Move(s: State, id: nat, phase: Phase): map<nat, Caller>
    requires id in s.callers
  {
    s.callers[id := s.callers[id].(phase := phase)]
  }

  /** One committed step of one caller; a step that does not apply changes nothing. */
  function Step(s: State, a: Action): State {
    match a
    case Arrive(id, key, recipient) =>
      if id in s.callers then s else s.(callers := s.callers[id := Caller(key, recipient, false, Starting)])
    case ClaimOrReplay(id) =>
      if id !in s.callers || !s.callers[id].phase.Starting? then s
      else
        var c := s.callers[id];
        if c.key in s.table then s.(callers := Move(s, id, Answered(Replay(s.table[c.key], c.recipient))))
        else s.(table := s.table[c.key := Row(c.recipient, Processing, "")],
                callers := s.callers[id := c.(owner := true, phase := Claimed)])
    case DeliverOnce(id, path) =>
      if id !in s.callers || !s.callers[id].phase.Claimed? then s
      else
        var c := s.callers[id];
        s.(callers := Move(s, id, Delivered(path)), paths := s.paths[c.key := path],
           sends := if path.SendReturned? then s.sends + [Send(c.key, path.result)] else s.sends)
    case Finish(id) =>
      if id !in s.callers || !s.callers[id].phase.Delivered? || s.callers[id].key !in s.table then s
      else
        var c := s.callers[id];
        var o := Deliver(c.phase.path);
        s.(table := s.table[c.key := s.table[c.key].(state := Terminal(o), code := o.code)],
           callers := Move(s, id, Answered(Reply(StateName(Terminal(o)), o.code))))
    case Crash(id) =>
      if id !in s.callers || s.callers[id].phase.Answered? then s else s.(callers := Move(s, id, Crashed))
  }

  // ---- the invariant ----------------------------------------------------------------------------------

  /** The reply repeats the finished row. */
  predicate Told(row: Row, reply: Reply) {
    && reply.code == row.code
    && match row.state
       case Processing => false
       case Success => reply.state == "SUCCESS"
       case Failed => reply.state == "FAILED"
       case Unknown => reply.state == "UNKNOWN"
  }

  /** At most one caller owns a request; its claim fixed the recipient; delivering is ahead of it only while claimed. */
  ghost predicate OwnersOk(s: State) {
    && (forall i, j :: i in s.callers && j in s.callers && SharedOwnership(s.callers[i], s.callers[j]) ==> i == j)
    && (forall i :: i in s.callers && s.callers[i].owner ==> s.callers[i].key in s.table)
    && (forall i :: i in s.callers ==> OwnerPhaseOk(s, s.callers[i]))
  }

  predicate SharedOwnership(c: Caller, d: Caller) {
    c.owner && d.owner && c.key == d.key
  }

  ghost predicate OwnerPhaseOk(s: State, c: Caller) {
    && (c.phase.Claimed? || c.phase.Delivered? ==> c.owner)
    && (c.phase.Starting? ==> !c.owner)
    && (c.phase.Claimed? ==> c.key !in s.paths && c.key in s.table && s.table[c.key].state.Processing?)
    && (c.phase.Delivered? ==>
          c.key in s.paths && s.paths[c.key] == c.phase.path && c.key in s.table && s.table[c.key].state.Processing?)
    && (c.phase.Answered? && c.phase.reply.state == "SUCCESS" ==>
        c.key in s.paths && s.paths[c.key] == SendReturned(Accepted))
    && (c.phase.Answered? && c.owner ==>
          c.key in s.table && Told(s.table[c.key], c.phase.reply) && s.table[c.key].recipient == c.recipient)
    && (c.owner && c.key in s.table ==> s.table[c.key].recipient == c.recipient)
  }

  /** Rows are finished only by what their delivery did. */
  ghost predicate RowsOk(s: State) {
    && (forall k :: k in s.table && !s.table[k].state.Processing? ==>
          k in s.paths && s.table[k].state == Terminal(Deliver(s.paths[k]))
          && s.table[k].code == Deliver(s.paths[k]).code)
    && s.paths.Keys <= s.table.Keys
  }

  /** The provider calls are exactly the deliveries that reached the provider, one per request. */
  ghost predicate SendsOk(s: State) {
    && (forall i, j :: 0 <= i < j < |s.sends| ==> s.sends[i].key != s.sends[j].key)
    && (forall k, r :: Send(k, r) in s.sends <==> k in s.paths && s.paths[k] == SendReturned(r))
  }

  ghost predicate Inv(s: State) {
    OwnersOk(s) && RowsOk(s) && SendsOk(s)
  }

  lemma DeliverKeepsInv(s: State, id: nat, path: Path)
    requires Inv(s)
    ensures Inv(Step(s, DeliverOnce(id, path)))
  {
    var s' := Step(s, DeliverOnce(id, path));
    if s' != s {
      var k := s.callers[id].key;
      assert OwnerPhaseOk(s, s.callers[id]);
      forall i | i in s.callers ensures OwnerPhaseOk(s', s'.callers[i]) {
        assert OwnerPhaseOk(s, s.callers[i]);
      }
      forall i | 0 <= i < |s.sends| ensures s.sends[i].key != k {
        assert Send(s.sends[i].key, s.sends[i].result) in s.sends;
      }
      assert SendsOk(s');
    }
  }

  lemma FinishKeepsInv(s: State, id: nat)
    requires Inv(s)
    ensures Inv(Step(s, Finish(id)))
  {
    var s' := Step(s, Finish(id));
    if s' != s {
      assert OwnerPhaseOk(s, s.callers[id]);
      TerminalStateMeaning(s.callers[id].phase.path);
      forall i | i in s.callers ensures OwnerPhaseOk(s', s'.callers[i]) {
        assert OwnerPhaseOk(s, s.callers[i]);
      }
    }
  }

  lemma ClaimKeepsInv(s: State, id: nat)
    requires Inv(s)
    ensures Inv(Step(s, ClaimOrReplay(id)))
  {
    var s' := Step(s, ClaimOrReplay(id));
    if s' != s {
      assert OwnerPhaseOk(s, s.callers[id]);
      var k := s.callers[id].key;
      if k in s.paths { TerminalStateMeaning(s.paths[k]); }
      forall i | i in s.callers ensures OwnerPhaseOk(s', s'.callers[i]) {
        assert OwnerPhaseOk(s, s.callers[i]);
      }
      assert OwnersOk(s');
      assert s'.sends == s.sends && s'.paths == s.paths;
    }
  }

  lemma ArriveKeepsOwners(s: State, a: Action)
    requires OwnersOk(s) && a.Arrive?
    ensures OwnersOk(Step(s, a))
  {
    var s' := Step(s, a);
    forall i | i in s.callers ensures OwnerPhaseOk(s', s'.callers[i]) {
      assert OwnerPhaseOk(s, s.callers[i]);
    }
  }

  lemma CrashKeepsOwners(s: State, a: Action)
    requires OwnersOk(s) && a.Crash?
    ensures OwnersOk(Step(s, a))
  {
    var s' := Step(s, a);
    forall i | i in s.callers ensures OwnerPhaseOk(s', s'.callers[i]) {
      assert OwnerPhaseOk(s, s.callers[i]);
    }
  }

  lemma CallerOnlyKeepsInv(s: State, a: Action)
    requires Inv(s) && (a.Arrive? || a.Crash?)
    ensures Inv(Step(s, a))
  {
    var s' := Step(s, a);
    assert s' == s.(callers := s'.callers);
    if a.Arrive? { ArriveKeepsOwners(s, a); } else { CrashKeepsOwners(s, a); }
  }

  lemma StepKeepsInv(s: State, a: Action)
    requires Inv(s)
    ensures Inv(Step(s, a))
  {
    match a
    case DeliverOnce(id, path) => DeliverKeepsInv(s, id, path);
    case Finish(id) => FinishKeepsInv(s, id);
    case ClaimOrReplay(id) => ClaimKeepsInv(s, id);
    case _ => CallerOnlyKeepsInv(s, a);
  }

  function Run(s: State, actions: seq<Action>): State
    decreases |actions|
  {
    if actions == [] then s else Run(Step(s, actions[0]), actions[1..])
  }

  lemma {:induction false} RunKeepsInv(s: State, actions: seq<Action>)
    requires Inv(s)
    ensures Inv(Run(s, actions))
    decreases |actions|
  {
    if actions != [] {
      StepKeepsInv(s, actions[0]);
      RunKeepsInv(Step(s, actions[0]), actions[1..]);
    }
  }

  /** Over every interleaving, the provider is called at most once per request. */
  lemma AtMostOneSend(actions: seq<Action>)
    ensures var s := Run(Initial, actions);
            forall i, j :: 0 <= i < |s.sends| && 0 <= j < |s.sends| && s.sends[i].key == s.sends[j].key ==> i == j
  {
    RunKeepsInv(Initial, actions);
  }

  predicate ToldSuccess(c: Caller) {
    c.phase.Answered? && c.phase.reply.state == "SUCCESS"
  }

  /**
   In every reachable state: SUCCESS means one provider call, accepted; FAILED means no accepted call; an unfinished row
   is the only other case; a caller was told SUCCESS only about an accepted call; and the caller whose claim it was has
   been told what the row says.
   */
  lemma ReachableOutcomes(actions: seq<Action>, k: Key)
    ensures var s := Run(Initial, actions);
            && (k in s.table && s.table[k].state == Success ==> Send(k, Accepted) in s.sends)
            && (k in s.table && s.table[k].state == Failed ==> Send(k, Accepted) !in s.sends)
            && (k in s.table && s.table[k].state == Unknown ==>
                k in s.paths && Terminal(Deliver(s.paths[k])) == Unknown)
            && (forall i :: i in s.callers && ToldSuccess(s.callers[i]) ==> Send(s.callers[i].key, Accepted) in s.sends)
            && (forall i :: i in s.callers && s.callers[i].owner && s.callers[i].phase.Answered? ==>
                  s.callers[i].key in s.table && Told(s.table[s.callers[i].key], s.callers[i].phase.reply))
  {
    RunKeepsInv(Initial, actions);
    var s := Run(Initial, actions);
    if k in s.table && k in s.paths { TerminalStateMeaning(s.paths[k]); }
    forall i | i in s.callers && ToldSuccess(s.callers[i])
      ensures Send(s.callers[i].key, Accepted) in s.sends
    {
      assert OwnerPhaseOk(s, s.callers[i]);
    }
    forall i | i in s.callers && s.callers[i].owner && s.callers[i].phase.Answered?
      ensures s.callers[i].key in s.table && Told(s.table[s.callers[i].key], s.callers[i].phase.reply)
    {
      assert OwnerPhaseOk(s, s.callers[i]);
    }
  }

  /** A terminal row and a recorded recipient never change; rows are never removed. */
  lemma StepKeepsTerminal(s: State, a: Action, k: Key)
    requires Inv(s) && k in s.table
    ensures var s' := Step(s, a);
            k in s'.table && s'.table[k].recipient == s.table[k].recipient
            && (!s.table[k].state.Processing? ==> s'.table[k] == s.table[k])
  {
    if a.Finish? && a.id in s.callers { assert OwnerPhaseOk(s, s.callers[a.id]); }
  }

  lemma {:induction false} TerminalForever(s: State, actions: seq<Action>, k: Key)
    requires Inv(s) && k in s.table && !s.table[k].state.Processing?
    ensures k in Run(s, actions).table && Run(s, actions).table[k] == s.table[k]
    decreases |actions|
  {
    if actions != [] {
      StepKeepsInv(s, actions[0]);
      StepKeepsTerminal(s, actions[0], k);
      TerminalForever(Step(s, actions[0]), actions[1..], k);
    }
  }

  /**
   A caller that finds the request already claimed never sends and never changes the row: another recipient is told
   CONFLICT, the same recipient UNKNOWN until the row is terminal and then the recorded result.
   */
  lemma LateCallersOnlyReplay(s: State, id: nat)
    requires Inv(s) && id in s.callers && s.callers[id].phase.Starting? && s.callers[id].key in s.table
    ensures var c := s.callers[id];
            var row := s.table[c.key];
            var s' := Step(s, ClaimOrReplay(id));
            && s'.table == s.table && s'.sends == s.sends && s'.paths == s.paths
            && s'.callers[id].phase.Answered? && !s'.callers[id].owner
            && (c.recipient != row.recipient <==> s'.callers[id].phase.reply.state == "CONFLICT")
            && (c.recipient != row.recipient ==>
                  s'.callers[id].phase.reply == Reply("CONFLICT", "idempotency_conflict"))
            && (c.recipient == row.recipient && !row.state.Processing? ==> Told(row, s'.callers[id].phase.reply))
            && (c.recipient == row.recipient && row.state.Processing? ==>
                  s'.callers[id].phase.reply == Reply("UNKNOWN", "delivery_indeterminate"))
            && (s'.callers[id].phase.reply.state == "SUCCESS" ==> Send(c.key, Accepted) in s.sends)
  {
    var c := s.callers[id];
    assert OwnerPhaseOk(s, c);
    if !s.table[c.key].state.Processing? { TerminalStateMeaning(s.paths[c.key]); }
  }

  /** Only an owner in the claimed phase can make the provider call, and it was never made for that request before. */
  lemma OnlyTheClaimantSends(s: State, a: Action)
    requires Inv(s) && Step(s, a).sends != s.sends
    ensures a.DeliverOnce? && a.id in s.callers && s.callers[a.id].owner && s.callers[a.id].phase.Claimed?
    ensures forall r :: Send(s.callers[a.id].key, r) !in s.sends
  {
    assert OwnerPhaseOk(s, s.callers[a.id]);
  }

  // ---- one caller's own run ---------------------------------------------------------------------------

  class DeliveryTable {
    var table: map<Key, Row>

    constructor ()
      ensures table == map[]
    {
      table := map[];
    }

    /** `_claim_or_replay`: create the row, or find the one another claimant committed. */
    method Claim(key: Key, recipient: nat) returns (row: Row, created: bool)
      modifies this
      ensures created == (key !in old(table)) && key in table && row == table[key]
      ensures table == if created then old(table)[key := Row(recipient, Processing, "")] else old(table)
    {
      created := key !in table;
      if created { table := table[key := Row(recipient, Processing, "")]; }
      row := table[key];
    }

    /**
     `submit_tablet_report_delivery` run alone: the same as the caller's three steps. `sent` counts its provider calls.
     */
    method Submit(key: Key, recipient: nat, path: Path) returns (reply: Reply, sent: nat)
      modifies this
      ensures key in table
      ensures forall k :: k != key ==>
              (k in table <==> k in old(table)) && (k in old(table) ==> table[k] == old(table)[k])
      ensures key in old(table) ==> table == old(table) && reply == Replay(old(table)[key], recipient) && sent == 0
      ensures key !in old(table) ==>
              sent == (if path.SendReturned? then 1 else 0) && reply == Replay(table[key], recipient)
      ensures key !in old(table) ==>
                var alone := State(old(table), map[0 := Caller(key, recipient, false, Starting)], [], map[]);
                table == Run(alone, [ClaimOrReplay(0), DeliverOnce(0, path), Finish(0)]).table
    {
      var row, created := Claim(key, recipient);
      if !created { return Replay(row, recipient), 0; }
      sent := if path.SendReturned? then 1 else 0;
      var outcome := Deliver(path);
      table := table[key := table[key].(state := Terminal(outcome), code := outcome.code)];
      TerminalStateMeaning(path);
      ghost var alone := State(old(table), map[0 := Caller(key, recipient, false, Starting)], [], map[]);
      ghost var s1 := Step(alone, ClaimOrReplay(0));
      ghost var s2 := Step(s1, DeliverOnce(0, path));
      assert Run(s2, [Finish(0)]) == Run(Step(s2, Finish(0)), []);
      assert [DeliverOnce(0, path), Finish(0)][1..] == [Finish(0)];
      assert [ClaimOrReplay(0), DeliverOnce(0, path), Finish(0)][1..] == [DeliverOnce(0, path), Finish(0)];
      reply := Reply(StateName(Terminal(outcome)), outcome.code);
    }
  }
}
