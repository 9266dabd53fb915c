/**
 * What each action promises, stated over its step function: the conditions under which it
 * completes, the rows it writes, and how actions undo one another.
 */
module Properties {
  import opened Types
  import opened Tables
  import opened Thresholds
  import opened Proposals
  import opened Custodians
  import opened Ledger
  import opened Contract

  // ---------------------------------------------------------------------
  // propose
  // ---------------------------------------------------------------------

  /** A completed propose had a proposer that the gate lets through and one to seven actions,
      none of them a proposal on the group itself. */
  lemma ProposeGates(self: Name, s: State, env: Env, proposer: Name, title: string, description: string,
                     actions: seq<Action>, expiration: TimeSec)
    ensures var st := ProposeStep(self, s, env, proposer, title, description, actions, expiration);
      st.outcome.Done? ==>
        proposer in env.auths && (proposer == self || CustodianAlive(s, proposer, env.now))
        && 1 <= |actions| <= MAX_ACTIONS
        && forall i :: 0 <= i < |actions| ==> !IsSelfPropose(self, actions[i])
  {
    var st := ProposeStep(self, s, env, proposer, title, description, actions, expiration);
    if st.outcome.Done? && 1 <= |actions| <= MAX_ACTIONS {
      var r := ResolveAll(self, s.links, s.thresholds, actions);
      assert r.Ok?;
    }
  }

  /** The actions were sent at once: they need a zero threshold and the group executes on
      threshold zero. */
  ghost predicate SentAtOnce(self: Name, s: State, st: Step, actions: seq<Action>)
    requires st.outcome.Done? && 1 <= |actions|
  {
    var req := RequiredThreshold(self, s.links, s.thresholds, actions);
    req.Ok? && req.value.threshold == 0 && s.conf.execOnThresholdZero && st.outcome.effects == Sends(actions)
  }

  /** A new proposal was stored under an unused id with the given actions and expiration,
      at least an hour ahead, the threshold propose found, and the proposer as its only
      approval unless the group itself proposed. */
  ghost predicate StoredNew(self: Name, s: State, st: Step, env: Env, proposer: Name, actions: seq<Action>, expiration: TimeSec)
    requires 1 <= |actions|
  {
    var req := RequiredThreshold(self, s.links, s.thresholds, actions);
    req.Ok?
    && exists id :: (id !in s.proposals && id in st.after.proposals
      && st.after.proposals == s.proposals[id := st.after.proposals[id]]
      && st.after.proposals[id].id == id
      && st.after.proposals[id].actions == actions
      && st.after.proposals[id].proposer == proposer
      && st.after.proposals[id].expiration == expiration
      && env.now + MIN_EXPIRATION <= expiration
      && st.after.proposals[id].approvals == (if proposer != self then [proposer] else [])
      && st.after.proposals[id].requiredThreshold == req.value.thresholdName)
  }

  /** The rest of propose sends the actions at once when the threshold they need is zero and
      the group executes on threshold zero. */
  lemma SubmitSends(self: Name, s: State, cs: CustodianTable, env: Env, proposer: Name, title: string,
                    description: string, actions: seq<Action>, expiration: TimeSec)
    requires 1 <= |actions| <= MAX_ACTIONS
    requires var req := RequiredThreshold(self, s.links, s.thresholds, actions);
      req.Ok? && req.value.threshold == 0 && s.conf.execOnThresholdZero
    ensures var st := SubmitStep(self, s, cs, env, proposer, title, description, actions, expiration);
      st == Step(Done(Sends(actions)), s.(custodians := cs)) && SentAtOnce(self, s, st, actions)
  {
  }

  /** Otherwise, a completed rest of propose stored a new proposal. */
  lemma SubmitStores(self: Name, s: State, cs: CustodianTable, env: Env, proposer: Name, title: string,
                     description: string, actions: seq<Action>, expiration: TimeSec)
    requires 1 <= |actions| <= MAX_ACTIONS
    requires var req := RequiredThreshold(self, s.links, s.thresholds, actions);
      req.Ok? && !(req.value.threshold == 0 && s.conf.execOnThresholdZero)
    ensures var st := SubmitStep(self, s, cs, env, proposer, title, description, actions, expiration);
      st.outcome.Done? ==> st.after.proposals != s.proposals && StoredNew(self, s, st, env, proposer, actions, expiration)
  {
    var st := SubmitStep(self, s, cs, env, proposer, title, description, actions, expiration);
    if st.outcome.Done? {
      var req := RequiredThreshold(self, s.links, s.thresholds, actions).value;
      var id := NextPrimaryKey(Largest(s.proposals.Keys)).value;
      var p := Proposal(id, title, description, proposer, actions, env.now, expiration,
                        if proposer != self then [proposer] else [], req.thresholdName, proposer, env.trxId);
      assert st.after == s.(custodians := cs, proposals := s.proposals[id := p]);
      assert id !in s.proposals by {
        if s.proposals.Keys != {} {
          assert SetMax(s.proposals.Keys) < id;
        }
      }
      assert st.after.proposals[id] == p;
    }
  }

  /** A completed rest of propose either sent the actions at once, leaving the open proposals
      as they were, or stored one new proposal. */
  lemma SubmitOutcome(self: Name, s: State, cs: CustodianTable, env: Env, proposer: Name, title: string,
                      description: string, actions: seq<Action>, expiration: TimeSec)
    ensures var st := SubmitStep(self, s, cs, env, proposer, title, description, actions, expiration);
      st.outcome.Done? ==>
        1 <= |actions|
        && ((st.after.proposals == s.proposals && SentAtOnce(self, s, st, actions))
            || (st.after.proposals != s.proposals && StoredNew(self, s, st, env, proposer, actions, expiration)))
  {
    if 1 <= |actions| <= MAX_ACTIONS {
      var req := RequiredThreshold(self, s.links, s.thresholds, actions);
      if req.Ok? {
        if req.value.threshold == 0 && s.conf.execOnThresholdZero {
          SubmitSends(self, s, cs, env, proposer, title, description, actions, expiration);
        } else {
          SubmitStores(self, s, cs, env, proposer, title, description, actions, expiration);
        }
      }
    }
  }

  /** A completed propose either sent its actions at once or stored one new proposal, as
      Submitted states. */
  lemma ProposeOutcome(self: Name, s: State, env: Env, proposer: Name, title: string, description: string,
                       actions: seq<Action>, expiration: TimeSec)
    ensures var st := ProposeStep(self, s, env, proposer, title, description, actions, expiration);
      st.outcome.Done? ==>
        1 <= |actions|
        && ((st.after.proposals == s.proposals && SentAtOnce(self, s, st, actions))
            || (st.after.proposals != s.proposals && StoredNew(self, s, st, env, proposer, actions, expiration)))
  {
    var st := ProposeStep(self, s, env, proposer, title, description, actions, expiration);
    if st.outcome.Done? {
      var cs := if proposer == self then s.custodians else Stamp(s.custodians, proposer, env.now);
      assert st == SubmitStep(self, s, cs, env, proposer, title, description, actions, expiration);
      SubmitOutcome(self, s, cs, env, proposer, title, description, actions, expiration);
    }
  }

  // ---------------------------------------------------------------------
  // approve and unapprove
  // ---------------------------------------------------------------------

  /** On stored proposals, approve refuses a repeated approval exactly when the approver, an
      active custodian, is already on the list. A completed approve stamps the approver, keeps
      the other proposals, and stores the approver together with every earlier approver who is
      still a custodian, ascending. */
  lemma ApproveOutcome(s: State, env: Env, approver: Name, id: Uint64)
    requires ProposalsValid(s.proposals)
    ensures var st := ApproveStep(s, env, approver, id);
      st.outcome == Abort(AlreadyApproved) <==>
        approver in env.auths && CustodianAlive(s, approver, env.now) && id in s.proposals
        && approver in s.proposals[id].approvals
    ensures var st := ApproveStep(s, env, approver, id);
      st.outcome.Done? ==>
        id in s.proposals && id in st.after.proposals
        && st.after.proposals == s.proposals[id := st.after.proposals[id]]
        && StrictlySorted(st.after.proposals[id].approvals)
        && (forall y :: y in st.after.proposals[id].approvals <==>
              y == approver || (y in s.proposals[id].approvals && y in s.custodians))
        && st.after.proposals[id].lastActor == approver
        && approver in st.after.custodians && st.after.custodians[approver].lastActive == env.now
  {
    if id in s.proposals {
      assert ProposalShape(id, s.proposals[id]);
      ApproveClashOnSorted(s.proposals[id].approvals, approver, s.custodians.Keys);
    }
  }

  /** unapprove refuses a caller who is not on the raw approval list. A completed unapprove
      stores every earlier approver who is still a custodian except the caller, ascending. */
  lemma UnapproveOutcome(s: State, env: Env, unapprover: Name, id: Uint64)
    ensures var st := UnapproveStep(s, env, unapprover, id);
      st.outcome == Abort(NotInApprovals) <==>
        unapprover in env.auths && CustodianAlive(s, unapprover, env.now) && id in s.proposals
        && unapprover !in s.proposals[id].approvals
    ensures var st := UnapproveStep(s, env, unapprover, id);
      st.outcome.Done? ==>
        id in s.proposals && id in st.after.proposals
        && unapprover in s.proposals[id].approvals
        && st.after.proposals == s.proposals[id := st.after.proposals[id]]
        && StrictlySorted(st.after.proposals[id].approvals)
        && (forall y :: y in st.after.proposals[id].approvals <==>
              y != unapprover && y in s.proposals[id].approvals && y in s.custodians)
  {
  }

  /** An approval withdrawn straight away: once approve completed, an unapprove by the same
      custodian at the same time completes and leaves exactly the earlier approvers still
      custodians, other than the caller. */
  lemma ApproveThenUnapprove(s: State, env: Env, approver: Name, id: Uint64)
    requires ProposalsValid(s.proposals)
    requires ApproveStep(s, env, approver, id).outcome.Done? && env.now > 0
    ensures var s1 := ApproveStep(s, env, approver, id).after;
      var st := UnapproveStep(s1, env, approver, id);
      st.outcome.Done? && id in st.after.proposals
      && forall y :: y in st.after.proposals[id].approvals <==>
           y != approver && y in s.proposals[id].approvals && y in s.custodians
  {
    ApproveOutcome(s, env, approver, id);
    var s1 := ApproveStep(s, env, approver, id).after;
    assert s1.custodians.Keys == s.custodians.Keys;
    assert IsAccountAlive(s.conf.inactivateCustAfterSec, env.now, s.custodians[approver].lastActive);
    assert CustodianAlive(s1, approver, env.now) by {
      if s.conf.inactivateCustAfterSec == 0 {
        assert s.custodians[approver].lastActive != 0;
      }
      assert s1.custodians[approver].lastActive == env.now;
    }
    UnapproveOutcome(s1, env, approver, id);
  }

  // ---------------------------------------------------------------------
  // exec and cancel
  // ---------------------------------------------------------------------

  /** A completed close removes the proposal from the open table, sends sent first, and, when
      the group keeps an archive, appends the proposal with its last actor under the next
      archive id. */
  lemma CloseOutcome(s: State, env: Env, id: Uint64, actor: Name, scope: Name, sent: seq<Effect>)
    requires id in s.proposals
    ensures var st := CloseStep(s, env, id, actor, scope, sent);
      st.outcome.Done? ==>
        st.after.proposals == s.proposals - {id}
        && |sent| <= |st.outcome.effects| && st.outcome.effects[..|sent|] == sent
        && (s.conf.proposalArchiveSize == 0 ==> st.after.history == s.history)
        && (s.conf.proposalArchiveSize > 0 ==>
              var rows := HistoryRows(s.history, scope);
              scope in st.after.history && |st.after.history[scope]| == |rows| + 1
              && st.after.history[scope][..|rows|] == rows
              && st.after.history[scope][|rows|]
                 == s.proposals[id].(lastActor := actor, id := st.after.history[scope][|rows|].id))
  {
    var st := CloseStep(s, env, id, actor, scope, sent);
    if st.outcome.Done? {
      var rows := HistoryRows(s.history, scope);
      var grown := ArchiveRows(rows, s.proposals[id].(lastActor := actor), s.conf.proposalArchiveSize);
      assert grown.Ok?;
      assert st.outcome.effects == sent + Eviction(rows, scope, s.conf.proposalArchiveSize);
    }
  }

  /** A completed exec had an unexpired proposal whose approvers' weight, counted by the 8-bit
      sum exec uses, reaches the required threshold; it sends the proposal's actions first and
      takes the proposal out of the open table. */
  lemma ExecOutcome(s: State, env: Env, executer: Name, id: Uint64)
    ensures var st := ExecStep(s, env, executer, id);
      st.outcome.Done? ==>
        executer in env.auths && id in s.proposals
        && env.now < s.proposals[id].expiration
        && ThresholdByName(s.thresholds, s.proposals[id].requiredThreshold).Ok?
        && WeightSum(s.proposals[id].approvals, s.custodians) % 0x100
           >= ThresholdByName(s.thresholds, s.proposals[id].requiredThreshold).value
        && st.after.proposals == s.proposals - {id}
        && |s.proposals[id].actions| <= |st.outcome.effects|
        && st.outcome.effects[..|s.proposals[id].actions|] == Sends(s.proposals[id].actions)
  {
    if id in s.proposals {
      CloseOutcome(s, env, id, executer, EXECUTED, Sends(s.proposals[id].actions));
    }
  }

  /** A completed cancel was authorised by the group or by the proposer, sends nothing but a
      scheduled eviction, and takes the proposal out of the open table. */
  lemma CancelOutcome(self: Name, s: State, env: Env, canceler: Name, id: Uint64)
    ensures var st := CancelStep(self, s, env, canceler, id);
      st.outcome.Done? ==>
        id in s.proposals
        && (self in env.auths || s.proposals[id].proposer in env.auths)
        && st.after.proposals == s.proposals - {id}
        && forall i :: 0 <= i < |st.outcome.effects| ==> st.outcome.effects[i].TruncHistory?
  {
    if id in s.proposals && (self in env.auths || s.proposals[id].proposer in env.auths) {
      var actor := if self in env.auths then self else canceler;
      CancelIsClose(self, s, env, canceler, id);
      CloseOutcome(s, env, id, actor, CANCELLED, []);
      CloseSendsThenEvicts(s, env, id, actor, CANCELLED, []);
    }
  }

  /** An authorised cancel of an open proposal is the archiving close, with no actions sent. */
  lemma CancelIsClose(self: Name, s: State, env: Env, canceler: Name, id: Uint64)
    requires id in s.proposals && (self in env.auths || s.proposals[id].proposer in env.auths)
    ensures CancelStep(self, s, env, canceler, id)
      == CloseStep(s, env, id, if self in env.auths then self else canceler, CANCELLED, [])
  {
  }

  /** What a completed close sends after sent is at most the scheduled eviction. */
  lemma CloseSendsThenEvicts(s: State, env: Env, id: Uint64, actor: Name, scope: Name, sent: seq<Effect>)
    requires id in s.proposals
    ensures var st := CloseStep(s, env, id, actor, scope, sent);
      st.outcome.Done? ==>
        st.outcome.effects == sent + Eviction(HistoryRows(s.history, scope), scope, s.conf.proposalArchiveSize)
  {
  }

  /** When the group itself authorises a cancel, the canceler argument changes nothing: the
      group is recorded as the last actor. */
  lemma CancelByGroupIgnoresCanceler(self: Name, s: State, env: Env, c1: Name, c2: Name, id: Uint64)
    requires self in env.auths
    ensures CancelStep(self, s, env, c1, id) == CancelStep(self, s, env, c2, id)
  {
  }

  // ---------------------------------------------------------------------
  // Custodians
  // ---------------------------------------------------------------------

  /** A completed update_active stores the table and count it was given, rewrites only the
      thresholds besides, and sends the active authority those custodians define. */
  lemma ActiveStepOutcome(s: State, cs: CustodianTable, now: TimeSec, custCount: Uint8)
    ensures var st := ActiveStep(s, cs, now, custCount);
      st.outcome.Done? ==>
        st.after == s.(custodians := cs, custCount := custCount, thresholds := st.after.thresholds)
        && st.outcome.effects == [UpdateAuth(ACTIVE, OWNER, ActiveOf(s, cs, now))]
  {
  }

  /** A completed imalive had an authorised custodian as caller and stamps its last_active
      with now. Only a caller who was not alive is followed by update_active over the
      stamped table; an alive caller sends nothing. */
  lemma ImAliveOutcome(s: State, env: Env, account: Name)
    requires ImAliveStep(s, env, account).outcome.Done?
    ensures account in env.auths && account in s.custodians
    ensures var st := ImAliveStep(s, env, account);
      st.after.custodians == Stamp(s.custodians, account, env.now)
      && st.after.custodians[account].lastActive == env.now
    ensures CustodianAlive(s, account, env.now) ==>
      ImAliveStep(s, env, account) == Step(Done([]), s.(custodians := Stamp(s.custodians, account, env.now)))
    ensures !CustodianAlive(s, account, env.now) ==>
      var cs := Stamp(s.custodians, account, env.now);
      ImAliveStep(s, env, account) == ActiveStep(s, cs, env.now, s.custCount)
      && ImAliveStep(s, env, account).outcome.effects == [UpdateAuth(ACTIVE, OWNER, ActiveOf(s, cs, env.now))]
  {
    if !CustodianAlive(s, account, env.now) {
      ActiveStepOutcome(s, Stamp(s.custodians, account, env.now), env.now, s.custCount);
    }
  }

  /** The row invitecust writes: the first custodian is stamped active at once. */
  function InvitedRow(s: State, account: Name, now: TimeSec): (c: Custodian)
    ensures c.account == account && c.weight == 1 && c.joined == now
  {
    if s.custCount == 0 then NewCustodian(account, now).(lastActive := now) else NewCustodian(account, now)
  }

  /** invitecust's gates: the group authorises, the account exists, is not the group and is
      not yet a custodian, and no elections module manages the custodians. */
  predicate InviteGates(self: Name, s: State, env: Env, account: Name)
  {
    self in env.auths && account != self && ELECTIONS !in s.modules
    && account in env.accounts && account !in s.custodians
  }

  /** The first invited custodian goes through update_active with the stamped row. */
  lemma InviteFirstIsActive(self: Name, s: State, env: Env, account: Name)
    requires InviteGates(self, s, env, account) && s.custCount == 0
    ensures InviteCustStep(self, s, env, account)
      == ActiveStep(s, s.custodians[account := NewCustodian(account, env.now).(lastActive := env.now)], env.now, (s.custCount + 1) % 0x100)
  {
  }

  /** So a completed first invitation stores the stamped row and a count of one. */
  lemma InviteFirstShape(self: Name, s: State, env: Env, account: Name)
    requires InviteGates(self, s, env, account) && s.custCount == 0
    ensures var st := InviteCustStep(self, s, env, account);
      st.outcome.Done? ==>
        st.after.custodians == s.custodians[account := InvitedRow(s, account, env.now)]
        && st.after.custCount == (s.custCount + 1) % 0x100
  {
    var cs := s.custodians[account := NewCustodian(account, env.now).(lastActive := env.now)];
    InviteFirstIsActive(self, s, env, account);
    ActiveStepOutcome(s, cs, env.now, (s.custCount + 1) % 0x100);
    assert InvitedRow(s, account, env.now) == NewCustodian(account, env.now).(lastActive := env.now);
  }

  /** A completed invitecust wrote the invited row and counted one more custodian. */
  lemma InviteCustShape(self: Name, s: State, env: Env, account: Name)
    ensures var st := InviteCustStep(self, s, env, account);
      st.outcome.Done? ==>
        account != self && account in env.accounts && account !in s.custodians
        && st.after.custodians == s.custodians[account := InvitedRow(s, account, env.now)]
        && st.after.custCount == (s.custCount + 1) % 0x100
  {
    if InviteGates(self, s, env, account) && s.custCount == 0 {
      InviteFirstShape(self, s, env, account);
    }
  }

  /** A completed invitecust adds one fresh custodian of weight 1, keeps every other row, and
      counts one more custodian, modulo 256. */
  lemma InviteCustOutcome(self: Name, s: State, env: Env, account: Name)
    ensures var st := InviteCustStep(self, s, env, account);
      st.outcome.Done? ==>
        account != self && account in env.accounts && account !in s.custodians
        && st.after.custodians.Keys == s.custodians.Keys + {account}
        && (forall a :: a in s.custodians ==> st.after.custodians[a] == s.custodians[a])
        && st.after.custodians[account].weight == 1 && st.after.custodians[account].joined == env.now
        && st.after.custCount == (s.custCount + 1) % 0x100
  {
    InviteCustShape(self, s, env, account);
    if account !in s.custodians {
      InsertedRow(s.custodians, account, InvitedRow(s, account, env.now));
    }
  }

  /** Filing a row under a new key adds that key and keeps every other row. */
  lemma InsertedRow(cs: CustodianTable, account: Name, row: Custodian)
    requires account !in cs
    ensures cs[account := row].Keys == cs.Keys + {account}
    ensures forall a :: a in cs ==> cs[account := row][a] == cs[a]
    ensures cs[account := row][account] == row
  {
  }

  /** removecust completes only through update_active on the table without the account. */
  lemma RemoveCustShape(self: Name, s: State, env: Env, account: Name)
    ensures var st := RemoveCustStep(self, s, env, account);
      st.outcome.Done? ==>
        account in s.custodians && |s.custodians - {account}| != 0
        && st == ActiveStep(s, s.custodians - {account}, env.now, (s.custCount - 1) % 0x100)
  {
    RemoveDoneGates(self, s, env, account);
    if self in env.auths && account in s.custodians && |s.custodians - {account}| != 0 {
      RemoveIsActive(self, s, env, account);
    }
  }

  /** A completed removecust passed its gates. */
  lemma RemoveDoneGates(self: Name, s: State, env: Env, account: Name)
    ensures RemoveCustStep(self, s, env, account).outcome.Done? ==>
      self in env.auths && account in s.custodians && |s.custodians - {account}| != 0
  {
  }

  /** Past its gates, removecust is update_active on the table without the account. */
  lemma RemoveIsActive(self: Name, s: State, env: Env, account: Name)
    requires self in env.auths && account in s.custodians && |s.custodians - {account}| != 0
    ensures RemoveCustStep(self, s, env, account)
      == ActiveStep(s, s.custodians - {account}, env.now, (s.custCount - 1) % 0x100)
  {
  }

  /** A completed removecust erases exactly the removed custodian, never the last one, counts
      one fewer custodian, modulo 256, and sends the new active authority. */
  lemma RemoveCustOutcome(self: Name, s: State, env: Env, account: Name)
    ensures var st := RemoveCustStep(self, s, env, account);
      st.outcome.Done? ==>
        account in s.custodians
        && st.after.custodians == s.custodians - {account}
        && st.after.custodians != map[]
        && st.after.custCount == (s.custCount - 1) % 0x100
        && st.outcome.effects == [UpdateAuth(ACTIVE, OWNER, ActiveOf(s, st.after.custodians, env.now))]
  {
    RemoveCustShape(self, s, env, account);
    ActiveStepOutcome(s, s.custodians - {account}, env.now, (s.custCount - 1) % 0x100);
  }

  /** A completed invitecust passed its gates. */
  lemma InviteDoneGates(self: Name, s: State, env: Env, account: Name)
    requires InviteCustStep(self, s, env, account).outcome.Done?
    ensures InviteGates(self, s, env, account)
  {
  }

  /** A later invitation only files the new row and counts it. */
  lemma InviteLaterIsInsert(self: Name, s: State, env: Env, account: Name)
    requires InviteGates(self, s, env, account) && s.custCount != 0
    ensures InviteCustStep(self, s, env, account)
      == Step(Done([]), s.(custodians := s.custodians[account := NewCustodian(account, env.now)],
                           custCount := (s.custCount + 1) % 0x100))
  {
  }

  /** A table counted by a nonzero cust_count is not empty. */
  lemma CountedTableNonEmpty(cs: CustodianTable, count: Uint8)
    requires CustodianRows(cs, count) && count != 0
    ensures cs != map[]
  {
  }

  /** Removing a row just filed under a new key hands update_active the table and count from
      before the insertion. */
  lemma RemoveAfterInsert(self: Name, s: State, env: Env, account: Name, row: Custodian)
    requires self in env.auths && account !in s.custodians && s.custodians != map[]
    ensures var s1 := s.(custodians := s.custodians[account := row], custCount := (s.custCount + 1) % 0x100);
      RemoveCustStep(self, s1, env, account) == ActiveStep(s1, s.custodians, env.now, s.custCount)
  {
    InsertThenErase(s.custodians, account, row);
    CountBack8(s.custCount);
  }

  /** Filing a row under a new key and erasing that key again gives the table back. */
  lemma InsertThenErase(cs: CustodianTable, account: Name, row: Custodian)
    requires account !in cs
    ensures cs[account := row] - {account} == cs
  {
  }

  /** A uint8 count up then down is the identity. */
  lemma CountBack8(c: Uint8)
    ensures ((c + 1) % 0x100 - 1) % 0x100 == c
  {
  }

  /** An invitation undone: on a state whose count matches its table, removing a second or
      later invited custodian again passes every gate of removecust and hands update_active
      the custodians and count from before the invitation, which it stores if it completes. */
  lemma InviteThenRemove(self: Name, s: State, env: Env, account: Name)
    requires CustodianRows(s.custodians, s.custCount) && s.custCount != 0
    requires InviteCustStep(self, s, env, account).outcome.Done?
    ensures var s1 := InviteCustStep(self, s, env, account).after;
      var st := RemoveCustStep(self, s1, env, account);
      st == ActiveStep(s1, s.custodians, env.now, s.custCount)
      && (st.outcome.Done? ==> st.after.custodians == s.custodians && st.after.custCount == s.custCount)
  {
    InviteDoneGates(self, s, env, account);
    InviteLaterIsInsert(self, s, env, account);
    CountedTableNonEmpty(s.custodians, s.custCount);
    RemoveAfterInsert(self, s, env, account, NewCustodian(account, env.now));
    var s1 := s.(custodians := s.custodians[account := NewCustodian(account, env.now)],
                 custCount := (s.custCount + 1) % 0x100);
    ActiveStepOutcome(s1, s.custodians, env.now, s.custCount);
  }

  /** The election refuses every list while the group allows no custodians, as it does
      under the default configuration. */
  lemma ElectionNeedsRoom(s: State, env: Env, accounts: seq<Name>)
    requires s.conf.maxCustodians == 0
    ensures ISetCustsStep(s, env, accounts).outcome.Abort?
  {
  }

  /** A completed election had a duplicate-free list of one to max_custodians names; the new
      table holds exactly those names, keeps the rows of the names already custodians, stamps
      the newcomers now, and the count is the list's length. */
  lemma ISetCustsOutcome(s: State, env: Env, accounts: seq<Name>)
    requires CustodianRows(s.custodians, s.custCount)
    ensures var st := ISetCustsStep(s, env, accounts);
      st.outcome.Done? ==>
        1 <= |accounts| <= s.conf.maxCustodians && Distinct(accounts)
        && (forall a :: a in st.after.custodians <==> a in accounts)
        && (forall a :: a in st.after.custodians && a in s.custodians ==> st.after.custodians[a] == s.custodians[a])
        && (forall a :: a in st.after.custodians && a !in s.custodians ==> st.after.custodians[a].lastActive == env.now)
        && st.after.custCount == |accounts| && |st.after.custodians| == |accounts|
  {
    var st := ISetCustsStep(s, env, accounts);
    if st.outcome.Done? {
      ElectedTableShape(s.custodians, accounts, env.now);
      ElectedTableSize(s.custodians, accounts, env.now);
    }
  }

  // ---------------------------------------------------------------------
  // History, ledger and membership
  // ---------------------------------------------------------------------

  /** A completed trunchistory keeps the highest rows of the scope, erasing batch_size of them
      or all of them if fewer, and leaves every other scope alone. */
  lemma TruncHistoryOutcome(self: Name, s: State, env: Env, scope: Name, batchSize: Uint32)
    ensures var st := TruncHistoryStep(self, s, env, scope, batchSize);
      st.outcome.Done? ==>
        scope != self && scope in s.history && scope in st.after.history
        && |st.after.history[scope]| == (if batchSize < |s.history[scope]| then |s.history[scope]| - batchSize else 0)
        && st.after.history[scope] == s.history[scope][|s.history[scope]| - |st.after.history[scope]|..]
        && forall sc :: sc in s.history && sc != scope ==> sc in st.after.history && st.after.history[sc] == s.history[sc]
  {
    var st := TruncHistoryStep(self, s, env, scope, batchSize);
    if st.outcome.Done? {
      var rows := s.history[scope];
      var rest := st.after.history[scope];
      assert rest == rows[|rows| - |rest|..];
    }
  }

  /** A completed sub_balance takes the amount off the scope's holding of that asset and
      leaves every other scope alone. */
  lemma DebitStepOutcome(self: Name, s: State, scope: Name, value: ExtendedAsset)
    ensures var st := DebitStep(self, s, scope, value);
      st.outcome.Done? ==>
        Held(BalanceScope(st.after.balances, scope), AssetKey(value))
          == Held(BalanceScope(s.balances, scope), AssetKey(value)) - value.quantity.amount
        && forall sc :: sc != scope ==> BalanceScope(st.after.balances, sc) == BalanceScope(s.balances, sc)
  {
  }

  /** updateconf needs self's authority. It stores the new configuration, or the defaults
      on remove, and rewrites the owner authority exactly when the maintainer permission
      (actor or permission name) changes. */
  lemma UpdateConfOutcome(self: Name, s: State, env: Env, newConf: GroupConf, remove: bool)
    ensures var st := UpdateConfStep(self, s, env, newConf, remove);
      && (st.outcome.Done? <==> self in env.auths)
      && (st.outcome.Abort? ==> st.outcome.error == MissingAuth)
      && (st.outcome.Done? ==>
            st.after == s.(conf := if remove then DefaultGroupConf() else newConf)
            && (st.outcome.effects != [] <==> !remove && s.conf.maintainerAccount != newConf.maintainerAccount)
            && (st.outcome.effects != [] ==>
                  st.outcome.effects == [UpdateAuth(OWNER, 0, OwnerAuthority(self, newConf.maintainerAccount,
                                                                             newConf.maintainerAccount.actor in env.accounts))]))
  {
  }

  /** widthdraw completes exactly when the account authorises it, withdrawals are enabled,
      the account is not the group and the amount is positive; the first failing guard names
      the error. It only sends the token transfer to the account, with the withdrawal memo. */
  lemma WidthdrawOutcome(self: Name, s: State, env: Env, account: Name, amount: ExtendedAsset)
    ensures var st := WidthdrawStep(self, s, env, account, amount);
      && (st.outcome.Done? <==>
            account in env.auths && s.conf.withdrawals && account != self && amount.quantity.amount > 0)
      && (st.outcome.Abort? ==>
            st.outcome.error == (if account !in env.auths then MissingAuth
                                 else if !s.conf.withdrawals then WithdrawalsDisabled
                                 else if account == self then WithdrawToSelf
                                 else NonPositiveAmount))
      && (st.outcome.Done? ==>
            st.outcome.effects == [Transfer(amount.contract, self, account, amount.quantity, WITHDRAW_PREFIX)])
  {
  }

  /** A completed add_balance adds the amount to the scope's holding of that asset and leaves
      every other scope alone. */
  lemma CreditStepOutcome(s: State, scope: Name, value: ExtendedAsset)
    ensures var st := CreditStep(s, scope, value);
      st.outcome.Done? ==>
        Held(BalanceScope(st.after.balances, scope), AssetKey(value))
          == Held(BalanceScope(s.balances, scope), AssetKey(value)) + value.quantity.amount
        && forall sc :: sc != scope ==> BalanceScope(st.after.balances, sc) == BalanceScope(s.balances, sc)
  {
  }

  /** A completed internalxfr moves the amount from the sender's scope to the receiver's:
      the sender holds that much less of the asset, the receiver that much more, and every
      other scope is untouched. A transfer to oneself leaves the holding as it was (an exact
      balance is erased and filed again under a new id, so the row itself may change). */
  lemma InternalXfrMoves(self: Name, s: State, env: Env, from: Name, to: Name, amount: ExtendedAsset)
    ensures var st := InternalXfrStep(self, s, env, from, to, amount);
      var key := AssetKey(amount);
      st.outcome.Done? ==>
        amount.quantity.amount > 0
        && (from != to ==>
              Held(BalanceScope(st.after.balances, from), key) == Held(BalanceScope(s.balances, from), key) - amount.quantity.amount
              && Held(BalanceScope(st.after.balances, to), key) == Held(BalanceScope(s.balances, to), key) + amount.quantity.amount)
        && (from == to ==>
              Held(BalanceScope(st.after.balances, from), key) == Held(BalanceScope(s.balances, from), key))
        && forall sc :: sc != from && sc != to ==> BalanceScope(st.after.balances, sc) == BalanceScope(s.balances, sc)
  {
    var st := InternalXfrStep(self, s, env, from, to, amount);
    if st.outcome.Done? {
      var debited := DebitStep(self, s, from, amount);
      DebitStepOutcome(self, s, from, amount);
      CreditStepOutcome(debited.after, to, amount);
      assert st == CreditStep(debited.after, to, amount);
    }
  }

  /** A completed regmember passed its gates and filed a fresh member record. */
  lemma RegDoneIsInsert(self: Name, s: State, env: Env, actor: Name)
    requires RegMemberStep(self, s, env, actor).outcome.Done?
    ensures actor in env.auths && actor !in s.members
    ensures RegMemberStep(self, s, env, actor)
      == Step(Done([]), s.(members := s.members[actor := Member(actor, env.now, 0, 0)],
                           memberCount := (s.memberCount + 1) % TWO_TO_THE_64))
  {
  }

  /** Unregistering a member just filed under a new key, who holds no balance, gives back the
      state from before the filing. */
  lemma UnregAfterInsert(s: State, env: Env, actor: Name, m: Member)
    requires actor in env.auths && actor !in s.members && BalanceScope(s.balances, actor) == map[]
    ensures UnregMemberStep(s.(members := s.members[actor := m], memberCount := (s.memberCount + 1) % TWO_TO_THE_64), env, actor)
      == Step(Done([]), s)
  {
    assert s.members[actor := m] - {actor} == s.members;
    CountBack64(s.memberCount);
  }

  /** A registration undone: once regmember completed, unregmember of the same actor, who
      holds no balance, completes and gives back the state from before the registration. */
  lemma RegThenUnreg(self: Name, s: State, env: Env, actor: Name)
    requires RegMemberStep(self, s, env, actor).outcome.Done? && BalanceScope(s.balances, actor) == map[]
    ensures UnregMemberStep(RegMemberStep(self, s, env, actor).after, env, actor) == Step(Done([]), s)
  {
    RegDoneIsInsert(self, s, env, actor);
    UnregAfterInsert(s, env, actor, Member(actor, env.now, 0, 0));
  }

  /** Counting up and then down again, modulo 2^64, is the identity. */
  lemma CountBack64(c: Uint64)
    ensures ((c + 1) % TWO_TO_THE_64 - 1) % TWO_TO_THE_64 == c
  {
    if c + 1 == TWO_TO_THE_64 {
      assert (c + 1) % TWO_TO_THE_64 == 0;
    } else {
      assert (c + 1) % TWO_TO_THE_64 == c + 1;
    }
  }
}
