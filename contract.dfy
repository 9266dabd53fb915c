/**
 * The contract's stored tables as one value, what every action keeps true of them, and
 * each action of src/daclifycore.cpp as a step from the tables before to the outcome and
 * the tables after. An action that aborts leaves the tables as they were: on the chain
 * the whole transaction is rolled back.
 */
module Contract {
  import opened Types
  import opened Tables
  import opened Thresholds
  import opened Custodians
  import opened Proposals
  import opened Ledger

  /** The open proposals (scope self), by id. */
  type ProposalTable = map<Uint64, Proposal>

  /** The archived proposals: one scope per outcome ("cancelled", "executed"), each in
      ascending id order. */
  type History = map<Name, seq<Proposal>>

  /** The balances tables, one scope per account. */
  type Balances = map<Name, BalanceTable>

  /** Everything the contract stores. */
  datatype State = State(
    conf: GroupConf,
    custCount: Uint8,
    memberCount: Uint64,
    custodians: CustodianTable,
    members: map<Name, Member>,
    thresholds: ThresholdTable,
    links: LinkTable,
    proposals: ProposalTable,
    history: History,
    balances: Balances,
    modules: map<Name, ModuleLink>)

  /** The tables of a freshly deployed contract. */
  function InitialState(): State
  {
    State(DefaultGroupConf(), 0, 0, map[], map[], map[], map[], map[], map[], map[], map[])
  }

  // ---------------------------------------------------------------------
  // Table views
  // ---------------------------------------------------------------------

  /** The rows of a history scope; a scope never written is empty. */
  function HistoryRows(h: History, scope: Name): seq<Proposal>
  {
    if scope in h then h[scope] else []
  }

  /** The balances of a scope; a scope never written is empty. */
  function BalanceScope(b: Balances, scope: Name): BalanceTable
  {
    if scope in b then b[scope] else map[]
  }

  /** The primary keys of a balances scope. */
  function RowIds(t: BalanceTable): set<Uint64>
  {
    set k | k in t :: t[k].id
  }

  /** The primary keys of the threshold links. */
  function LinkIds(links: LinkTable): set<Uint64>
  {
    set k | k in links :: links[k].id
  }

  // ---------------------------------------------------------------------
  // The invariant
  // ---------------------------------------------------------------------

  /** Custodians are filed by account with weight 1 and counted by the uint8 cust_count;
      once there is one, a "default" threshold exists. */
  predicate CustodiansValid(s: State)
  {
    && CustodianRows(s.custodians, s.custCount)
    && (s.custodians != map[] ==> DEFAULT in s.thresholds)
  }

  /** Members are filed by account, never the contract itself, and counted by the uint64
      member_count. */
  predicate MembersValid(self: Name, s: State)
  {
    && (forall a :: a in s.members ==> s.members[a].account == a)
    && self !in s.members
    && s.memberCount == |s.members| % TWO_TO_THE_64
  }

  /** An open proposal as propose, approve and unapprove leave it: under its own id, with
      one to seven actions and an ordered, duplicate-free approval list. */
  predicate ProposalShape(id: Uint64, p: Proposal)
  {
    p.id == id && 1 <= |p.actions| <= MAX_ACTIONS && StrictlySorted(p.approvals)
  }

  predicate ProposalsValid(ps: ProposalTable)
  {
    forall id :: id in ps ==> ProposalShape(id, ps[id])
  }

  /** Every archive scope holds consecutive ids in ascending order. */
  predicate HistoryValid(h: History)
  {
    forall scope :: scope in h ==> Contiguous(h[scope])
  }

  /** One row per asset type in every scope, and only positive rows outside the
      contract's own scope. */
  predicate BalancesValid(self: Name, b: Balances)
  {
    && (forall scope :: scope in b ==> RowsKeyed(b[scope]))
    && (forall scope :: scope in b && scope != self ==> RowsPositive(b[scope]))
  }

  /** What every action keeps true of the tables of the contract self (whose own scope is
      neither archive scope). */
  predicate ValidState(self: Name, s: State)
  {
    && self != 0 && self != CANCELLED && self != EXECUTED
    && CustodiansValid(s)
    && MembersValid(self, s)
    && LinksWellFormed(s.links, s.thresholds)
    && ProposalsValid(s.proposals)
    && HistoryValid(s.history)
    && BalancesValid(self, s.balances)
  }

  /** A freshly deployed contract is valid. */
  lemma InitialStateValid(self: Name)
    requires self != 0 && self != CANCELLED && self != EXECUTED
    ensures ValidState(self, InitialState())
  {
  }

  // ---------------------------------------------------------------------
  // Steps
  // ---------------------------------------------------------------------

  /** The outcome of an action and the tables it leaves. */
  datatype Step = Step(outcome: Outcome, after: State)

  /** An abort: nothing is stored. */
  function Fails(s: State, e: Error): (st: Step)
    ensures st.outcome == Abort(e) && st.after == s
  {
    Step(Abort(e), s)
  }

  /** account is a custodian that is_account_alive accepts. */
  predicate CustodianAlive(s: State, account: Name, now: TimeSec)
  {
    account in s.custodians && IsAccountAlive(s.conf.inactivateCustAfterSec, now, s.custodians[account].lastActive)
  }

  /** The custodians after is_custodian(account, true, _) let account through. */
  function StampIfCustodian(cs: CustodianTable, account: Name, now: TimeSec): CustodianTable
  {
    if account in cs then Stamp(cs, account, now) else cs
  }

  /** The active authority update_active sends once the custodians table is cs. */
  ghost function ActiveOf(s: State, cs: CustodianTable, now: TimeSec): Authority
  {
    ActiveAuthority(TableOrder(cs), s.conf.inactivateCustAfterSec, now)
  }

  /** update_active once the custodians table is cs: send the active authority, then
      write the derived "default" threshold with privilege. */
  ghost function ActiveStep(s: State, cs: CustodianTable, now: TimeSec, custCount: Uint8): (st: Step)
    ensures st.outcome.Abort? ==> st.after == s
  {
    var a := ActiveOf(s, cs, now);
    match UpsertOrDelete(s.thresholds, s.links, DEFAULT, Int8Of(DefaultThreshold(|a.accounts|)), false, true)
    case Err(e) => Fails(s, e)
    case Ok(ts) => Step(Done([UpdateAuth(ACTIVE, OWNER, a)]), s.(custodians := cs, custCount := custCount, thresholds := ts))
  }

  /** update_active reads only the configuration, the thresholds and the links besides
      the table and count it is given. */
  lemma ActiveStepFrame(s: State, s1: State, now: TimeSec)
    requires s1 == s.(custodians := s1.custodians, custCount := s1.custCount)
    ensures ActiveStep(s1, s1.custodians, now, s1.custCount).outcome == ActiveStep(s, s1.custodians, now, s1.custCount).outcome
    ensures ActiveStep(s1, s1.custodians, now, s1.custCount).outcome.Done? ==>
      ActiveStep(s1, s1.custodians, now, s1.custCount).after == ActiveStep(s, s1.custodians, now, s1.custCount).after
  {
  }

  /** updateconf. */
  function UpdateConfStep(self: Name, s: State, env: Env, newConf: GroupConf, remove: bool): (st: Step)
    ensures st.outcome.Abort? ==> st.after == s
    ensures st.outcome.Done? ==> self in env.auths && st.after == s.(conf := st.after.conf)
  {
    if self !in env.auths then Fails(s, MissingAuth)
    else if remove then Step(Done([]), s.(conf := DefaultGroupConf()))
    else
      var maintainer := newConf.maintainerAccount;
      var effects :=
        if s.conf.maintainerAccount != maintainer
        then [UpdateAuth(OWNER, 0, OwnerAuthority(self, maintainer, maintainer.actor in env.accounts))]
        else [];
      Step(Done(effects), s.(conf := newConf))
  }

  /** propose: the proposer's gate; a custodian proposer is stamped active. */
  ghost function ProposeStep(self: Name, s: State, env: Env, proposer: Name, title: string, description: string,
                             actions: seq<Action>, expiration: TimeSec): (st: Step)
    ensures st.outcome.Abort? ==> st.after == s
  {
    if proposer !in env.auths then Fails(s, MissingAuth)
    else if proposer != self && proposer !in s.custodians then Fails(s, NotCustodian)
    else if proposer != self && !CustodianAlive(s, proposer, env.now) then Fails(s, Inactive)
    else
      var cs := if proposer == self then s.custodians else Stamp(s.custodians, proposer, env.now);
      SubmitStep(self, s, cs, env, proposer, title, description, actions, expiration)
  }

  /** The rest of propose, once the custodians table is cs: check the actions, find the
      threshold they require, then send them at once or store the proposal. */
  ghost function SubmitStep(self: Name, s: State, cs: CustodianTable, env: Env, proposer: Name, title: string,
                            description: string, actions: seq<Action>, expiration: TimeSec): (st: Step)
    ensures st.outcome.Abort? ==> st.after == s
  {
    if !(1 <= |actions| <= MAX_ACTIONS) then Fails(s, BadActionCount)
    else match RequiredThreshold(self, s.links, s.thresholds, actions)
      case Err(e) => Fails(s, e)
      case Ok(req) =>
        if req.threshold == 0 && s.conf.execOnThresholdZero then Step(Done(Sends(actions)), s.(custodians := cs))
        else if env.now >= expiration then Fails(s, ExpirationNotFuture)
        else if expiration - env.now < MIN_EXPIRATION then Fails(s, MinimumExpiration)
        else match NextPrimaryKey(Largest(s.proposals.Keys))
          case Err(e) => Fails(s, e)
          case Ok(id) =>
            var p := Proposal(id, title, description, proposer, actions, env.now, expiration,
                              if proposer != self then [proposer] else [], req.thresholdName, proposer, env.trxId);
            Step(Done([MessageBus(s.conf.hubAccount, self, PROPOSE, proposer)]),
                 s.(custodians := cs, proposals := s.proposals[id := p]))
  }

  /** The approval list approve stores: the approver and every old approver still a
      custodian, ascending. */
  ghost function ApprovedBy(olds: seq<Name>, approver: Name, cs: CustodianTable): seq<Name>
  {
    Ascending({approver} + set a | a in olds && a in cs)
  }

  /** The approval list unapprove stores: every old approver still a custodian except the
      caller, ascending. */
  ghost function UnapprovedBy(olds: seq<Name>, unapprover: Name, cs: CustodianTable): seq<Name>
  {
    Ascending(set a | a in olds && a != unapprover && a in cs)
  }

  /** approve. */
  ghost function ApproveStep(s: State, env: Env, approver: Name, id: Uint64): (st: Step)
    ensures st.outcome.Abort? ==> st.after == s
  {
    if approver !in env.auths then Fails(s, MissingAuth)
    else if approver !in s.custodians then Fails(s, NotCustodian)
    else if !CustodianAlive(s, approver, env.now) then Fails(s, Inactive)
    else if id !in s.proposals then Fails(s, ProposalNotFound)
    else
      var p := s.proposals[id];
      if ApproveClash(p.approvals, approver, s.custodians.Keys) then Fails(s, AlreadyApproved)
      else
        var p' := p.(lastActor := approver, approvals := ApprovedBy(p.approvals, approver, s.custodians));
        Step(Done([]), s.(custodians := Stamp(s.custodians, approver, env.now), proposals := s.proposals[id := p']))
  }

  /** unapprove. */
  ghost function UnapproveStep(s: State, env: Env, unapprover: Name, id: Uint64): (st: Step)
    ensures st.outcome.Abort? ==> st.after == s
  {
    if unapprover !in env.auths then Fails(s, MissingAuth)
    else if unapprover !in s.custodians then Fails(s, NotCustodian)
    else if !CustodianAlive(s, unapprover, env.now) then Fails(s, Inactive)
    else if id !in s.proposals then Fails(s, ProposalNotFound)
    else
      var p := s.proposals[id];
      if unapprover !in p.approvals then Fails(s, NotInApprovals)
      else
        var p' := p.(approvals := UnapprovedBy(p.approvals, unapprover, s.custodians), lastActor := unapprover);
        Step(Done([]), s.(custodians := Stamp(s.custodians, unapprover, env.now), proposals := s.proposals[id := p']))
  }

  /** The archives after archive_proposal put a snapshot into scope (its rows grown). */
  function Archived(h: History, scope: Name, keep: Uint8, grown: seq<Proposal>): History
  {
    if keep == 0 then h else h[scope := grown]
  }

  /** The trunchistory archive_proposal schedules, if any. */
  function Eviction(rows: seq<Proposal>, scope: Name, keep: Uint8): seq<Effect>
  {
    if ArchiveTrims(rows, keep) then [TruncHistory(scope, 1)] else []
  }

  /** The end of cancel and exec: archive the open proposal (its last actor set) under
      scope, then is_custodian(actor, true, true), which aborts for an inactive custodian
      and stamps an active one. sent comes before the scheduled eviction. */
  ghost function CloseStep(s: State, env: Env, id: Uint64, actor: Name, scope: Name, sent: seq<Effect>): (st: Step)
    requires id in s.proposals
    ensures st.outcome.Abort? ==> st.after == s
  {
    var rows := HistoryRows(s.history, scope);
    var keep := s.conf.proposalArchiveSize;
    match ArchiveRows(rows, s.proposals[id].(lastActor := actor), keep)
    case Err(e) => Fails(s, e)
    case Ok(grown) =>
      if actor in s.custodians && !CustodianAlive(s, actor, env.now) then Fails(s, Inactive)
      else
        Step(Done(sent + Eviction(rows, scope, keep)),
             s.(proposals := s.proposals - {id},
                history := Archived(s.history, scope, keep, grown),
                custodians := StampIfCustodian(s.custodians, actor, env.now)))
  }

  /** cancel: the contract itself, or else the proposer, authorises; canceler is only the
      label stored as last actor. */
  ghost function CancelStep(self: Name, s: State, env: Env, canceler: Name, id: Uint64): (st: Step)
    ensures st.outcome.Abort? ==> st.after == s
  {
    if id !in s.proposals then Fails(s, ProposalNotFound)
    else if self !in env.auths && s.proposals[id].proposer !in env.auths then Fails(s, MissingAuth)
    else CloseStep(s, env, id, if self in env.auths then self else canceler, CANCELLED, [])
  }

  /** exec. */
  ghost function ExecStep(s: State, env: Env, executer: Name, id: Uint64): (st: Step)
    ensures st.outcome.Abort? ==> st.after == s
  {
    if executer !in env.auths then Fails(s, MissingAuth)
    else if id !in s.proposals then Fails(s, ProposalNotFound)
    else
      var p := s.proposals[id];
      if env.now >= p.expiration then Fails(s, ProposalExpired)
      else match ThresholdByName(s.thresholds, p.requiredThreshold)
        case Err(e) => Fails(s, e)
        case Ok(t) =>
          if WeightSum(p.approvals, s.custodians) % 0x100 < t then Fails(s, NotEnoughWeight)
          else CloseStep(s, env, id, executer, EXECUTED, Sends(p.actions))
  }

  /** trunchistory. */
  function TruncHistoryStep(self: Name, s: State, env: Env, scope: Name, batchSize: Uint32): (st: Step)
    ensures st.outcome.Abort? ==> st.after == s
  {
    if self !in env.auths then Fails(s, MissingAuth)
    else if scope == self then Fails(s, ScopeForbidden)
    else if HistoryRows(s.history, scope) == [] then Fails(s, HistoryEmpty)
    else Step(Done([]), s.(history := s.history[scope := DropLowest(s.history[scope], batchSize)]))
  }

  // ---------------------------------------------------------------------
  // Custodian steps
  // ---------------------------------------------------------------------

  /** invitecust. The first-custodian test reads cust_count, not the table. */
  ghost function InviteCustStep(self: Name, s: State, env: Env, account: Name): (st: Step)
    ensures st.outcome.Abort? ==> st.after == s
  {
    if self !in env.auths then Fails(s, MissingAuth)
    else if account == self then Fails(s, SelfCustodian)
    else if ELECTIONS in s.modules then Fails(s, ElectionModuleLinked)
    else if account !in env.accounts then Fails(s, AccountMissing)
    else if account in s.custodians then Fails(s, AlreadyCustodian)
    else if s.custCount == 0 then
      var cs := s.custodians[account := NewCustodian(account, env.now).(lastActive := env.now)];
      ActiveStep(s, cs, env.now, (s.custCount + 1) % 0x100)
    else
      Step(Done([]), s.(custodians := s.custodians[account := NewCustodian(account, env.now)],
                        custCount := (s.custCount + 1) % 0x100))
  }

  /** removecust. */
  ghost function RemoveCustStep(self: Name, s: State, env: Env, account: Name): (st: Step)
    ensures st.outcome.Abort? ==> st.after == s
  {
    if self !in env.auths then Fails(s, MissingAuth)
    else if account !in s.custodians then Fails(s, NotCustodian)
    else if |s.custodians - {account}| == 0 then Fails(s, LastCustodian)
    else ActiveStep(s, s.custodians - {account}, env.now, (s.custCount - 1) % 0x100)
  }

  /** imalive. */
  ghost function ImAliveStep(s: State, env: Env, account: Name): (st: Step)
    ensures st.outcome.Abort? ==> st.after == s
  {
    if account !in env.auths then Fails(s, MissingAuth)
    else if account !in s.custodians then Fails(s, NotCustodian)
    else if CustodianAlive(s, account, env.now) then
      Step(Done([]), s.(custodians := Stamp(s.custodians, account, env.now)))
    else ActiveStep(s, Stamp(s.custodians, account, env.now), env.now, s.custCount)
  }

  /** isetcusts, called by the elections module's account. */
  ghost function ISetCustsStep(s: State, env: Env, accounts: seq<Name>): (st: Step)
    ensures st.outcome.Abort? ==> st.after == s
  {
    if ELECTIONS !in s.modules then Fails(s, NoElectionsModule)
    else if s.modules[ELECTIONS].slavePermission.actor !in env.auths then Fails(s, MissingAuth)
    else if |accounts| > s.conf.maxCustodians then Fails(s, TooManyCustodians)
    else if |accounts| == 0 then Fails(s, EmptyCustodianList)
    else if !Distinct(accounts) then Fails(s, DuplicateRow)
    else ActiveStep(s, ElectedTable(s.custodians, accounts, env.now), env.now, |accounts|)
  }

  // ---------------------------------------------------------------------
  // Threshold steps
  // ---------------------------------------------------------------------

  /** manthreshold: the threshold update without privilege. */
  function ManThresholdStep(self: Name, s: State, env: Env, n: Name, v: Int8, remove: bool): (st: Step)
    ensures st.outcome.Abort? ==> st.after == s
  {
    if self !in env.auths then Fails(s, MissingAuth)
    else match UpsertOrDelete(s.thresholds, s.links, n, v, remove, false)
      case Err(e) => Fails(s, e)
      case Ok(ts) => Step(Done([]), s.(thresholds := ts))
  }

  /** manthreshlin. */
  ghost function ManThreshLinStep(self: Name, s: State, env: Env, contract: Name, action: Name, tname: Name, remove: bool): (st: Step)
    ensures st.outcome.Abort? ==> st.after == s
  {
    if self !in env.auths then Fails(s, MissingAuth)
    else match LinkUpdate(s.links, s.thresholds, contract in env.accounts, contract, action, tname, remove,
                          NextPrimaryKey(Largest(LinkIds(s.links))))
      case Err(e) => Fails(s, e)
      case Ok(ls) => Step(Done([]), s.(links := ls))
  }

  // ---------------------------------------------------------------------
  // Ledger and membership steps
  // ---------------------------------------------------------------------

  /** add_balance on a scope. */
  ghost function CreditStep(s: State, scope: Name, value: ExtendedAsset): (st: Step)
    ensures st.outcome.Abort? ==> st.after == s
  {
    var t := BalanceScope(s.balances, scope);
    match Credit(t, value, NextPrimaryKey(Largest(RowIds(t))))
    case Err(e) => Fails(s, e)
    case Ok(t') => Step(Done([]), s.(balances := s.balances[scope := t']))
  }

  /** sub_balance on a scope. */
  function DebitStep(self: Name, s: State, scope: Name, value: ExtendedAsset): (st: Step)
    ensures st.outcome.Abort? ==> st.after == s
  {
    match Debit(BalanceScope(s.balances, scope), value, scope == self)
    case Err(e) => Fails(s, e)
    case Ok(t') => Step(Done([]), s.(balances := s.balances[scope := t']))
  }

  /** widthdraw: only sends the transfer; the debit happens when its notification returns. */
  function WidthdrawStep(self: Name, s: State, env: Env, account: Name, amount: ExtendedAsset): (st: Step)
    ensures st.after == s
  {
    if account !in env.auths then Fails(s, MissingAuth)
    else if !s.conf.withdrawals then Fails(s, WithdrawalsDisabled)
    else if account == self then Fails(s, WithdrawToSelf)
    else if amount.quantity.amount <= 0 then Fails(s, NonPositiveAmount)
    else Step(Done([Transfer(amount.contract, self, account, amount.quantity, WITHDRAW_PREFIX)]), s)
  }

  /** internalxfr: debit the sender's scope, then credit the receiver's. */
  ghost function InternalXfrStep(self: Name, s: State, env: Env, from: Name, to: Name, amount: ExtendedAsset): (st: Step)
    ensures st.outcome.Abort? ==> st.after == s
  {
    if from !in env.auths then Fails(s, MissingAuth)
    else if !s.conf.internalTransfers then Fails(s, TransfersDisabled)
    else if !IsMember(self, s.members.Keys, from) then Fails(s, SenderNotMember)
    else if !IsMember(self, s.members.Keys, to) then Fails(s, ReceiverNotMember)
    else if amount.quantity.amount <= 0 then Fails(s, NonPositiveAmount)
    else
      var debited := DebitStep(self, s, from, amount);
      if debited.outcome.Abort? then debited
      else
        var credited := CreditStep(debited.after, to, amount);
        if credited.outcome.Abort? then Fails(s, credited.outcome.error) else credited
  }

  /** regmember. */
  function RegMemberStep(self: Name, s: State, env: Env, actor: Name): (st: Step)
    ensures st.outcome.Abort? ==> st.after == s
  {
    if actor !in env.auths then Fails(s, MissingAuth)
    else if !s.conf.memberRegistration then Fails(s, RegistrationDisabled)
    else if actor !in env.accounts then Fails(s, AccountMissing)
    else if actor == self then Fails(s, SelfMember)
    else if actor in s.members then Fails(s, AlreadyMember)
    else Step(Done([]), s.(members := s.members[actor := Member(actor, env.now, 0, 0)],
                           memberCount := (s.memberCount + 1) % TWO_TO_THE_64))
  }

  /** unregmember: refused while the member's balances scope holds a row. */
  function UnregMemberStep(s: State, env: Env, actor: Name): (st: Step)
    ensures st.outcome.Abort? ==> st.after == s
  {
    if actor !in env.auths then Fails(s, MissingAuth)
    else if BalanceScope(s.balances, actor) != map[] then Fails(s, MemberHasBalance)
    else if actor !in s.members then Fails(s, NotMember)
    else Step(Done([]), s.(members := s.members - {actor}, memberCount := (s.memberCount - 1) % TWO_TO_THE_64))
  }

  /** on_transfer, notified by the token contract firstReceiver. */
  ghost function OnTransferStep(self: Name, s: State, firstReceiver: Name, nameOf: string -> Option<Name>,
                                from: Name, to: Name, quantity: Asset, memo: string): (st: Step)
    ensures st.outcome.Abort? ==> st.after == s
  {
    var value := ExtendedAsset(quantity, firstReceiver);
    match TransferRoute(self, s.members.Keys, s.conf.deposits, nameOf, from, to, quantity.amount, memo)
    case Err(e) => Fails(s, e)
    case Ok(route) =>
      match route
      case CreditScope(scope) => CreditStep(s, scope, value)
      case DebitScope(scope) => DebitStep(self, s, scope, value)
      case Untouched => Step(Done([]), s)
  }
}
