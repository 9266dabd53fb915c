/**
 * Every action keeps the tables valid: from a valid state, the state its step leaves
 * (completed or aborted) is valid again.
 */
module Preservation {
  import opened Types
  import opened Tables
  import opened Thresholds
  import opened Custodians
  import opened Proposals
  import opened Ledger
  import opened Contract

  // ---------------------------------------------------------------------
  // Table-level facts
  // ---------------------------------------------------------------------

  /** A uint8 counter that tracks a size keeps tracking it through ++ and --. */
  lemma CountUp8(c: int, n: int)
    requires c == n % 0x100
    ensures (c + 1) % 0x100 == (n + 1) % 0x100
  {
  }

  lemma CountDown8(c: int, n: int)
    requires c == n % 0x100
    ensures (c - 1) % 0x100 == (n - 1) % 0x100
  {
  }

  /** The same for a uint64 counter. */
  lemma CountUp64(c: int, n: int)
    requires c == n % TWO_TO_THE_64
    ensures (c + 1) % TWO_TO_THE_64 == (n + 1) % TWO_TO_THE_64
  {
  }

  lemma CountDown64(c: int, n: int)
    requires c == n % TWO_TO_THE_64
    ensures (c - 1) % TWO_TO_THE_64 == (n - 1) % TWO_TO_THE_64
  {
  }

  // ---------------------------------------------------------------------
  // The invariant rebuilt with one component replaced
  // ---------------------------------------------------------------------

  lemma WithCustodians(self: Name, s: State, cs: CustodianTable, count: Uint8)
    requires ValidState(self, s) && CustodiansValid(s.(custodians := cs, custCount := count))
    ensures ValidState(self, s.(custodians := cs, custCount := count))
  {
  }

  lemma WithMembers(self: Name, s: State, ms: map<Name, Member>, count: Uint64)
    requires ValidState(self, s) && MembersValid(self, s.(members := ms, memberCount := count))
    ensures ValidState(self, s.(members := ms, memberCount := count))
  {
  }

  lemma WithProposals(self: Name, s: State, ps: ProposalTable)
    requires ValidState(self, s) && ProposalsValid(ps)
    ensures ValidState(self, s.(proposals := ps))
  {
  }

  lemma WithHistory(self: Name, s: State, h: History)
    requires ValidState(self, s) && HistoryValid(h)
    ensures ValidState(self, s.(history := h))
  {
  }

  lemma WithLinks(self: Name, s: State, ls: LinkTable)
    requires ValidState(self, s) && LinksWellFormed(ls, s.thresholds)
    ensures ValidState(self, s.(links := ls))
  {
  }

  lemma WithThresholds(self: Name, s: State, ts: ThresholdTable)
    requires ValidState(self, s) && LinksWellFormed(s.links, ts)
    requires DEFAULT in s.thresholds ==> DEFAULT in ts
    ensures ValidState(self, s.(thresholds := ts))
  {
  }

  // ---------------------------------------------------------------------
  // Table-level facts
  // ---------------------------------------------------------------------

  /** Adding a row filed under its own account, of weight 1, keeps the table's rows
      and its ++ count. */
  lemma RowsAfterInsert(cs: CustodianTable, count: Uint8, account: Name, row: Custodian)
    requires CustodianRows(cs, count) && account !in cs && row.account == account && row.weight == 1
    ensures CustodianRows(cs[account := row], (count + 1) % 0x100)
  {
    assert |cs[account := row]| == |cs| + 1;
    CountUp8(count, |cs|);
  }

  /** Erasing a row keeps the table's rows and its -- count. */
  lemma RowsAfterErase(cs: CustodianTable, count: Uint8, account: Name)
    requires CustodianRows(cs, count) && account in cs
    ensures CustodianRows(cs - {account}, (count - 1) % 0x100)
  {
    assert |cs - {account}| == |cs| - 1;
    CountDown8(count, |cs|);
  }

  /** Stamping a row keeps the table's rows and its count. */
  lemma RowsAfterStamp(cs: CustodianTable, count: Uint8, account: Name, now: TimeSec)
    requires CustodianRows(cs, count) && account in cs
    ensures CustodianRows(Stamp(cs, account, now), count)
  {
    var r := Stamp(cs, account, now);
    forall a | a in r ensures r[a].account == a && r[a].weight == 1 {
      if a != account {
        assert r[a] == cs[a];
      }
    }
  }

  /** The elected table of distinct candidates, at most 255 of them, counted by their number. */
  lemma RowsElected(cs: CustodianTable, count: Uint8, accounts: seq<Name>, now: TimeSec)
    requires CustodianRows(cs, count) && Distinct(accounts) && |accounts| < 0x100
    ensures CustodianRows(ElectedTable(cs, accounts, now), |accounts|)
  {
    ElectedTableShape(cs, accounts, now);
    ElectedTableSize(cs, accounts, now);
  }

  /** Registering a member other than the contract keeps the members valid. */
  lemma MembersAfterAdd(self: Name, s: State, actor: Name, m: Member)
    requires MembersValid(self, s) && actor !in s.members && actor != self && m.account == actor
    ensures MembersValid(self, s.(members := s.members[actor := m], memberCount := (s.memberCount + 1) % TWO_TO_THE_64))
  {
    assert |s.members[actor := m]| == |s.members| + 1;
    CountUp64(s.memberCount, |s.members|);
  }

  /** Unregistering a member keeps the members valid. */
  lemma MembersAfterDrop(self: Name, s: State, actor: Name)
    requires MembersValid(self, s) && actor in s.members
    ensures MembersValid(self, s.(members := s.members - {actor}, memberCount := (s.memberCount - 1) % TWO_TO_THE_64))
  {
    assert |s.members - {actor}| == |s.members| - 1;
    CountDown64(s.memberCount, |s.members|);
  }

  /** Stamping a custodian keeps the state valid. */
  lemma StampKeepsValid(self: Name, s: State, account: Name, now: TimeSec)
    requires ValidState(self, s) && account in s.custodians
    ensures ValidState(self, s.(custodians := Stamp(s.custodians, account, now)))
  {
    RowsAfterStamp(s.custodians, s.custCount, account, now);
    var cs := Stamp(s.custodians, account, now);
    assert s.(custodians := cs) == s.(custodians := cs, custCount := s.custCount);
    WithCustodians(self, s, cs, s.custCount);
  }

  /** The "default" threshold write of update_active, when it succeeds, keeps the links
      well formed and makes "default" exist. */
  lemma DefaultWriteKeeps(s: State, ts: ThresholdTable, v: Int8)
    requires LinksWellFormed(s.links, s.thresholds)
    requires UpsertOrDelete(s.thresholds, s.links, DEFAULT, v, false, true) == Ok(ts)
    ensures LinksWellFormed(s.links, ts) && DEFAULT in ts
  {
    UpsertKeepsLinksWellFormed(s.thresholds, s.links, DEFAULT, v, false, true);
  }

  /** update_active over a valid custodians table with its count keeps the state valid. */
  lemma ActiveStepKeepsValid(self: Name, s: State, cs: CustodianTable, now: TimeSec, custCount: Uint8)
    requires ValidState(self, s)
    requires CustodianRows(cs, custCount)
    ensures ValidState(self, ActiveStep(s, cs, now, custCount).after)
  {
    var a := ActiveOf(s, cs, now);
    var v := Int8Of(DefaultThreshold(|a.accounts|));
    var up := UpsertOrDelete(s.thresholds, s.links, DEFAULT, v, false, true);
    if up.Ok? {
      DefaultWriteKeeps(s, up.value, v);
      WithThresholds(self, s, up.value);
      var s1 := s.(thresholds := up.value);
      WithCustodians(self, s1, cs, custCount);
      assert s1.(custodians := cs, custCount := custCount) == s.(custodians := cs, custCount := custCount, thresholds := up.value);
    }
  }

  /** Adding a proposal of the right shape keeps the proposals valid. */
  lemma InsertProposalKeeps(ps: ProposalTable, id: Uint64, p: Proposal)
    requires ProposalsValid(ps) && ProposalShape(id, p)
    ensures ProposalsValid(ps[id := p])
  {
  }

  /** The empty scope, and every stored archive scope, is contiguous. */
  lemma HistoryRowsContiguous(h: History, scope: Name)
    requires HistoryValid(h)
    ensures Contiguous(HistoryRows(h, scope))
  {
  }

  /** Writing a contiguous scope back keeps the archives valid. */
  lemma ArchivedKeepsHistory(h: History, scope: Name, keep: Uint8, grown: seq<Proposal>)
    requires HistoryValid(h) && Contiguous(grown)
    ensures HistoryValid(Archived(h, scope, keep, grown))
  {
  }

  /** The end of cancel and exec changes nothing, or archives the proposal and stamps the
      actor if it is a custodian. */
  lemma CloseShape(s: State, env: Env, id: Uint64, actor: Name, scope: Name, sent: seq<Effect>)
    requires id in s.proposals
    ensures var after := CloseStep(s, env, id, actor, scope, sent).after;
      var rows := HistoryRows(s.history, scope);
      var keep := s.conf.proposalArchiveSize;
      var archived := ArchiveRows(rows, s.proposals[id].(lastActor := actor), keep);
      after == s
      || (archived.Ok?
          && after == s.(proposals := s.proposals - {id},
                         history := Archived(s.history, scope, keep, archived.value),
                         custodians := StampIfCustodian(s.custodians, actor, env.now)))
  {
  }

  /** Archiving a proposal into a contiguous scope and stamping the actor keeps the state
      valid. */
  lemma ArchiveKeepsValid(self: Name, s: State, id: Uint64, h: History, actor: Name, now: TimeSec)
    requires ValidState(self, s) && HistoryValid(h)
    ensures ValidState(self, s.(proposals := s.proposals - {id}, history := h,
                                custodians := StampIfCustodian(s.custodians, actor, now)))
  {
    var cs := StampIfCustodian(s.custodians, actor, now);
    if actor in s.custodians {
      StampKeepsValid(self, s, actor, now);
    }
    var s1 := s.(custodians := cs);
    WithProposals(self, s1, s.proposals - {id});
    WithHistory(self, s1.(proposals := s.proposals - {id}), h);
    assert s1.(proposals := s.proposals - {id}).(history := h) == s.(proposals := s.proposals - {id}, history := h, custodians := cs);
  }

  /** The common end of cancel and exec keeps the state valid. */
  lemma CloseStepKeepsValid(self: Name, s: State, env: Env, id: Uint64, actor: Name, scope: Name, sent: seq<Effect>)
    requires ValidState(self, s) && id in s.proposals
    ensures ValidState(self, CloseStep(s, env, id, actor, scope, sent).after)
  {
    CloseShape(s, env, id, actor, scope, sent);
    var rows := HistoryRows(s.history, scope);
    var keep := s.conf.proposalArchiveSize;
    var p := s.proposals[id].(lastActor := actor);
    var archived := ArchiveRows(rows, p, keep);
    if archived.Ok? {
      HistoryRowsContiguous(s.history, scope);
      ArchiveContiguous(rows, p, keep);
      ArchivedKeepsHistory(s.history, scope, keep, archived.value);
      ArchiveKeepsValid(self, s, id, Archived(s.history, scope, keep, archived.value), actor, env.now);
    }
  }

  /** A stored balances scope, and a scope never written, is keyed; outside the
      contract's own scope it is positive. */
  lemma ScopeValid(self: Name, b: Balances, scope: Name)
    requires BalancesValid(self, b)
    ensures RowsKeyed(BalanceScope(b, scope))
    ensures scope != self ==> RowsPositive(BalanceScope(b, scope))
  {
  }

  /** Writing a valid scope back keeps the balances valid. */
  lemma ScopeWriteKeepsBalances(self: Name, b: Balances, scope: Name, t: BalanceTable)
    requires BalancesValid(self, b) && RowsKeyed(t) && (scope != self ==> RowsPositive(t))
    ensures BalancesValid(self, b[scope := t])
  {
  }

  /** Valid balances in an otherwise valid state. */
  lemma WithBalances(self: Name, s: State, b: Balances)
    requires ValidState(self, s) && BalancesValid(self, b)
    ensures ValidState(self, s.(balances := b))
  {
  }

  /** A credit of a positive amount keeps the state valid. */
  lemma CreditStepKeepsValid(self: Name, s: State, scope: Name, value: ExtendedAsset)
    requires ValidState(self, s) && value.quantity.amount > 0
    ensures ValidState(self, CreditStep(s, scope, value).after)
  {
    var t := BalanceScope(s.balances, scope);
    var nextId := NextPrimaryKey(Largest(RowIds(t)));
    var c := Credit(t, value, nextId);
    if c.Ok? {
      ScopeValid(self, s.balances, scope);
      CreditDebitKeepKeyed(t, value, nextId, scope == self);
      if scope != self {
        MemberScopeStaysPositive(t, value, nextId);
      }
      ScopeWriteKeepsBalances(self, s.balances, scope, c.value);
      WithBalances(self, s, s.balances[scope := c.value]);
    }
  }

  /** A debit of a positive amount keeps the state valid. */
  lemma DebitStepKeepsValid(self: Name, s: State, scope: Name, value: ExtendedAsset)
    requires ValidState(self, s) && value.quantity.amount > 0
    ensures ValidState(self, DebitStep(self, s, scope, value).after)
  {
    var t := BalanceScope(s.balances, scope);
    var d := Debit(t, value, scope == self);
    if d.Ok? {
      ScopeValid(self, s.balances, scope);
      CreditDebitKeepKeyed(t, value, Err(PrimaryKeyExhausted), scope == self);
      if scope != self {
        MemberScopeStaysPositive(t, value, Err(PrimaryKeyExhausted));
      }
      ScopeWriteKeepsBalances(self, s.balances, scope, d.value);
      WithBalances(self, s, s.balances[scope := d.value]);
    }
  }

  // ---------------------------------------------------------------------
  // The states the steps build
  // ---------------------------------------------------------------------

  /** Registering a member other than the contract keeps the state valid. */
  lemma AddMemberKeepsValid(self: Name, s: State, actor: Name, m: Member)
    requires ValidState(self, s) && actor !in s.members && actor != self && m.account == actor
    ensures ValidState(self, s.(members := s.members[actor := m], memberCount := (s.memberCount + 1) % TWO_TO_THE_64))
  {
    MembersAfterAdd(self, s, actor, m);
    WithMembers(self, s, s.members[actor := m], (s.memberCount + 1) % TWO_TO_THE_64);
  }

  /** Unregistering a member keeps the state valid. */
  lemma DropMemberKeepsValid(self: Name, s: State, actor: Name)
    requires ValidState(self, s) && actor in s.members
    ensures ValidState(self, s.(members := s.members - {actor}, memberCount := (s.memberCount - 1) % TWO_TO_THE_64))
  {
    MembersAfterDrop(self, s, actor);
    WithMembers(self, s, s.members - {actor}, (s.memberCount - 1) % TWO_TO_THE_64);
  }

  /** The first custodian, stamped, and update_active over the one-row table. */
  lemma FirstCustodianKeepsValid(self: Name, s: State, account: Name, now: TimeSec)
    requires ValidState(self, s) && account !in s.custodians
    ensures ValidState(self, ActiveStep(s, s.custodians[account := NewCustodian(account, now).(lastActive := now)], now,
                                        (s.custCount + 1) % 0x100).after)
  {
    var row := NewCustodian(account, now).(lastActive := now);
    RowsAfterInsert(s.custodians, s.custCount, account, row);
    ActiveStepKeepsValid(self, s, s.custodians[account := row], now, (s.custCount + 1) % 0x100);
  }

  /** A further custodian: the count was not zero, so "default" already exists. */
  lemma AddCustodianKeepsValid(self: Name, s: State, account: Name, row: Custodian)
    requires ValidState(self, s) && account !in s.custodians && s.custCount != 0
    requires row.account == account && row.weight == 1
    ensures ValidState(self, s.(custodians := s.custodians[account := row], custCount := (s.custCount + 1) % 0x100))
  {
    RowsAfterInsert(s.custodians, s.custCount, account, row);
    assert s.custodians != map[];
    WithCustodians(self, s, s.custodians[account := row], (s.custCount + 1) % 0x100);
  }

  /** Erasing a custodian and update_active over the rest. */
  lemma DropCustodianKeepsValid(self: Name, s: State, account: Name, now: TimeSec)
    requires ValidState(self, s) && account in s.custodians
    ensures ValidState(self, ActiveStep(s, s.custodians - {account}, now, (s.custCount - 1) % 0x100).after)
  {
    RowsAfterErase(s.custodians, s.custCount, account);
    ActiveStepKeepsValid(self, s, s.custodians - {account}, now, (s.custCount - 1) % 0x100);
  }

  /** Stamping a custodian and update_active over the stamped table. */
  lemma StampedActiveKeepsValid(self: Name, s: State, account: Name, now: TimeSec)
    requires ValidState(self, s) && account in s.custodians
    ensures ValidState(self, ActiveStep(s, Stamp(s.custodians, account, now), now, s.custCount).after)
  {
    RowsAfterStamp(s.custodians, s.custCount, account, now);
    ActiveStepKeepsValid(self, s, Stamp(s.custodians, account, now), now, s.custCount);
  }

  /** The elected table and update_active over it. */
  lemma ElectedKeepsValid(self: Name, s: State, accounts: seq<Name>, now: TimeSec)
    requires ValidState(self, s) && Distinct(accounts) && |accounts| <= s.conf.maxCustodians
    ensures ValidState(self, ActiveStep(s, ElectedTable(s.custodians, accounts, now), now, |accounts|).after)
  {
    RowsElected(s.custodians, s.custCount, accounts, now);
    ActiveStepKeepsValid(self, s, ElectedTable(s.custodians, accounts, now), now, |accounts|);
  }

  /** A new or rewritten proposal of the right shape, once the custodians are cs. */
  lemma PutProposalKeepsValid(self: Name, s: State, cs: CustodianTable, id: Uint64, p: Proposal)
    requires ValidState(self, s.(custodians := cs)) && ProposalShape(id, p)
    ensures ValidState(self, s.(custodians := cs, proposals := s.proposals[id := p]))
  {
    InsertProposalKeeps(s.proposals, id, p);
    WithProposals(self, s.(custodians := cs), s.proposals[id := p]);
    assert s.(custodians := cs).(proposals := s.proposals[id := p]) == s.(custodians := cs, proposals := s.proposals[id := p]);
  }

  // ---------------------------------------------------------------------
  // One lemma per action
  // ---------------------------------------------------------------------

  lemma UpdateConfKeepsValid(self: Name, s: State, env: Env, newConf: GroupConf, remove: bool)
    requires ValidState(self, s)
    ensures ValidState(self, UpdateConfStep(self, s, env, newConf, remove).after)
  {
  }

  lemma ProposeKeepsValid(self: Name, s: State, env: Env, proposer: Name, title: string, description: string,
                          actions: seq<Action>, expiration: TimeSec)
    requires ValidState(self, s)
    ensures ValidState(self, ProposeStep(self, s, env, proposer, title, description, actions, expiration).after)
  {
    if proposer in env.auths && (proposer == self || CustodianAlive(s, proposer, env.now)) {
      var cs := if proposer == self then s.custodians else Stamp(s.custodians, proposer, env.now);
      if proposer != self {
        StampKeepsValid(self, s, proposer, env.now);
      }
      SubmitKeepsValid(self, s, cs, env, proposer, title, description, actions, expiration);
    }
  }

  /** The rest of propose changes nothing, only stamps, or stamps and stores the proposal
      it builds. */
  lemma SubmitShape(self: Name, s: State, cs: CustodianTable, env: Env, proposer: Name, title: string,
                    description: string, actions: seq<Action>, expiration: TimeSec)
    ensures var after := SubmitStep(self, s, cs, env, proposer, title, description, actions, expiration).after;
      after == s || after == s.(custodians := cs)
      || (1 <= |actions| <= MAX_ACTIONS
          && RequiredThreshold(self, s.links, s.thresholds, actions).Ok?
          && NextPrimaryKey(Largest(s.proposals.Keys)).Ok?
          && var id := NextPrimaryKey(Largest(s.proposals.Keys)).value;
             after == s.(custodians := cs, proposals := s.proposals[id := Proposal(id, title, description, proposer, actions,
                           env.now, expiration, if proposer != self then [proposer] else [],
                           RequiredThreshold(self, s.links, s.thresholds, actions).value.thresholdName, proposer, env.trxId)]))
  {
  }

  lemma SubmitKeepsValid(self: Name, s: State, cs: CustodianTable, env: Env, proposer: Name, title: string,
                         description: string, actions: seq<Action>, expiration: TimeSec)
    requires ValidState(self, s) && ValidState(self, s.(custodians := cs))
    ensures ValidState(self, SubmitStep(self, s, cs, env, proposer, title, description, actions, expiration).after)
  {
    SubmitShape(self, s, cs, env, proposer, title, description, actions, expiration);
    if 1 <= |actions| <= MAX_ACTIONS {
      var req := RequiredThreshold(self, s.links, s.thresholds, actions);
      var id := NextPrimaryKey(Largest(s.proposals.Keys));
      if req.Ok? && id.Ok? {
        var p := Proposal(id.value, title, description, proposer, actions, env.now, expiration,
                          if proposer != self then [proposer] else [], req.value.thresholdName, proposer, env.trxId);
        PutProposalKeepsValid(self, s, cs, id.value, p);
      }
    }
  }

  /** approve changes nothing, or stamps the approver and rewrites that one proposal. */
  lemma ApproveShape(s: State, env: Env, approver: Name, id: Uint64)
    ensures var after := ApproveStep(s, env, approver, id).after;
      after == s
      || (approver in s.custodians && id in s.proposals
          && after == s.(custodians := Stamp(s.custodians, approver, env.now),
                         proposals := s.proposals[id := s.proposals[id].(lastActor := approver,
                           approvals := ApprovedBy(s.proposals[id].approvals, approver, s.custodians))]))
  {
  }

  lemma ApproveKeepsValid(self: Name, s: State, env: Env, approver: Name, id: Uint64)
    requires ValidState(self, s)
    ensures ValidState(self, ApproveStep(s, env, approver, id).after)
  {
    ApproveShape(s, env, approver, id);
    if approver in s.custodians && id in s.proposals {
      var p := s.proposals[id];
      StampKeepsValid(self, s, approver, env.now);
      PutProposalKeepsValid(self, s, Stamp(s.custodians, approver, env.now), id,
                            p.(lastActor := approver, approvals := ApprovedBy(p.approvals, approver, s.custodians)));
    }
  }

  lemma UnapproveKeepsValid(self: Name, s: State, env: Env, unapprover: Name, id: Uint64)
    requires ValidState(self, s)
    ensures ValidState(self, UnapproveStep(s, env, unapprover, id).after)
  {
    if unapprover in s.custodians && id in s.proposals {
      var p := s.proposals[id];
      StampKeepsValid(self, s, unapprover, env.now);
      PutProposalKeepsValid(self, s, Stamp(s.custodians, unapprover, env.now), id,
                            p.(approvals := UnapprovedBy(p.approvals, unapprover, s.custodians), lastActor := unapprover));
    }
  }

  lemma CancelKeepsValid(self: Name, s: State, env: Env, canceler: Name, id: Uint64)
    requires ValidState(self, s)
    ensures ValidState(self, CancelStep(self, s, env, canceler, id).after)
  {
    if id in s.proposals {
      CloseStepKeepsValid(self, s, env, id, if self in env.auths then self else canceler, CANCELLED, []);
    }
  }

  lemma ExecKeepsValid(self: Name, s: State, env: Env, executer: Name, id: Uint64)
    requires ValidState(self, s)
    ensures ValidState(self, ExecStep(s, env, executer, id).after)
  {
    if id in s.proposals {
      CloseStepKeepsValid(self, s, env, id, executer, EXECUTED, Sends(s.proposals[id].actions));
    }
  }

  lemma TruncHistoryKeepsValid(self: Name, s: State, env: Env, scope: Name, batchSize: Uint32)
    requires ValidState(self, s)
    ensures ValidState(self, TruncHistoryStep(self, s, env, scope, batchSize).after)
  {
    if scope in s.history {
      DropLowestContiguous(s.history[scope], batchSize);
      WithHistory(self, s, s.history[scope := DropLowest(s.history[scope], batchSize)]);
    }
  }

  lemma InviteCustKeepsValid(self: Name, s: State, env: Env, account: Name)
    requires ValidState(self, s)
    ensures ValidState(self, InviteCustStep(self, s, env, account).after)
  {
    if account !in s.custodians {
      if s.custCount == 0 {
        FirstCustodianKeepsValid(self, s, account, env.now);
      } else {
        AddCustodianKeepsValid(self, s, account, NewCustodian(account, env.now));
      }
    }
  }

  /** removecust changes nothing, or erases a custodian and updates the active authority. */
  lemma RemoveCustShape(self: Name, s: State, env: Env, account: Name)
    ensures var after := RemoveCustStep(self, s, env, account).after;
      after == s
      || (account in s.custodians && after == ActiveStep(s, s.custodians - {account}, env.now, (s.custCount - 1) % 0x100).after)
  {
  }

  lemma RemoveCustKeepsValid(self: Name, s: State, env: Env, account: Name)
    requires ValidState(self, s)
    ensures ValidState(self, RemoveCustStep(self, s, env, account).after)
  {
    RemoveCustShape(self, s, env, account);
    if account in s.custodians {
      DropCustodianKeepsValid(self, s, account, env.now);
    }
  }

  lemma ImAliveKeepsValid(self: Name, s: State, env: Env, account: Name)
    requires ValidState(self, s)
    ensures ValidState(self, ImAliveStep(s, env, account).after)
  {
    if account in s.custodians {
      StampKeepsValid(self, s, account, env.now);
      StampedActiveKeepsValid(self, s, account, env.now);
    }
  }

  lemma ISetCustsKeepsValid(self: Name, s: State, env: Env, accounts: seq<Name>)
    requires ValidState(self, s)
    ensures ValidState(self, ISetCustsStep(s, env, accounts).after)
  {
    if Distinct(accounts) && |accounts| <= s.conf.maxCustodians {
      ElectedKeepsValid(self, s, accounts, env.now);
    }
  }

  lemma ManThresholdKeepsValid(self: Name, s: State, env: Env, n: Name, v: Int8, remove: bool)
    requires ValidState(self, s)
    ensures ValidState(self, ManThresholdStep(self, s, env, n, v, remove).after)
  {
    var up := UpsertOrDelete(s.thresholds, s.links, n, v, remove, false);
    if up.Ok? {
      UpsertKeepsLinksWellFormed(s.thresholds, s.links, n, v, remove, false);
      WithThresholds(self, s, up.value);
    }
  }

  lemma ManThreshLinKeepsValid(self: Name, s: State, env: Env, contract: Name, action: Name, tname: Name, remove: bool)
    requires ValidState(self, s)
    ensures ValidState(self, ManThreshLinStep(self, s, env, contract, action, tname, remove).after)
  {
    var nextId := NextPrimaryKey(Largest(LinkIds(s.links)));
    var lu := LinkUpdate(s.links, s.thresholds, contract in env.accounts, contract, action, tname, remove, nextId);
    if lu.Ok? {
      LinkUpdateKeepsWellFormed(s.links, s.thresholds, contract in env.accounts, contract, action, tname, remove, nextId);
      WithLinks(self, s, lu.value);
    }
  }

  lemma InternalXfrKeepsValid(self: Name, s: State, env: Env, from: Name, to: Name, amount: ExtendedAsset)
    requires ValidState(self, s)
    ensures ValidState(self, InternalXfrStep(self, s, env, from, to, amount).after)
  {
    if amount.quantity.amount > 0 {
      DebitStepKeepsValid(self, s, from, amount);
      var debited := DebitStep(self, s, from, amount);
      CreditStepKeepsValid(self, debited.after, to, amount);
    }
  }

  lemma RegMemberKeepsValid(self: Name, s: State, env: Env, actor: Name)
    requires ValidState(self, s)
    ensures ValidState(self, RegMemberStep(self, s, env, actor).after)
  {
    if actor !in s.members && actor != self {
      AddMemberKeepsValid(self, s, actor, Member(actor, env.now, 0, 0));
    }
  }

  lemma UnregMemberKeepsValid(self: Name, s: State, env: Env, actor: Name)
    requires ValidState(self, s)
    ensures ValidState(self, UnregMemberStep(s, env, actor).after)
  {
    if actor in s.members {
      DropMemberKeepsValid(self, s, actor);
    }
  }

  lemma OnTransferKeepsValid(self: Name, s: State, firstReceiver: Name, nameOf: string -> Option<Name>,
                             from: Name, to: Name, quantity: Asset, memo: string)
    requires ValidState(self, s)
    ensures ValidState(self, OnTransferStep(self, s, firstReceiver, nameOf, from, to, quantity, memo).after)
  {
    if quantity.amount > 0 {
      var value := ExtendedAsset(quantity, firstReceiver);
      match TransferRoute(self, s.members.Keys, s.conf.deposits, nameOf, from, to, quantity.amount, memo)
      case Err(_) =>
      case Ok(route) =>
        match route
        case CreditScope(scope) => CreditStepKeepsValid(self, s, scope, value);
        case DebitScope(scope) => DebitStepKeepsValid(self, s, scope, value);
        case Untouched =>
    }
  }
}
