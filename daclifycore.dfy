/**
 * The daclifycore contract: its stored tables as one field of an object, the in-place
 * helpers of include/functions.cpp as methods that update that field, and every action of
 * src/daclifycore.cpp as a method that either completes, returning the inline actions it
 * sends, or aborts and leaves every table as it was.
 */
module Daclify {
  import opened Types
  import opened Tables
  import opened Thresholds
  import opened Custodians
  import opened Proposals
  import opened Ledger
  import opened Contract
  import opened Preservation

  class Core {
    /** get_self(). */
    const self: Name

    /** Every table and singleton the contract stores. */
    var tables: State

    ghost predicate Valid()
      reads this
    {
      ValidState(self, tables)
    }

    constructor (account: Name)
      requires account != 0 && account != CANCELLED && account != EXECUTED
      ensures self == account && tables == InitialState()
      ensures Valid()
    {
      self := account;
      tables := InitialState();
      new;
      InitialStateValid(account);
    }

    // -------------------------------------------------------------------
    // In-place helpers (include/functions.cpp)
    // -------------------------------------------------------------------

    /** is_custodian: false for a non-custodian; for a custodian, abort when asked to check
        liveness and it is inactive, and stamp last_active with now when asked to. */
    method IsCustodian(account: Name, updateLastActive: bool, checkIfAlive: bool, now: TimeSec)
      returns (r: Result<bool>)
      modifies this
      ensures account !in old(tables.custodians) ==> r == Ok(false) && tables == old(tables)
      ensures (account in old(tables.custodians) && checkIfAlive && !CustodianAlive(old(tables), account, now)) ==>
        r == Err(Inactive) && tables == old(tables)
      ensures (account in old(tables.custodians) && (!checkIfAlive || CustodianAlive(old(tables), account, now))) ==>
        r == Ok(true)
        && tables == if updateLastActive then old(tables).(custodians := Stamp(old(tables.custodians), account, now))
                     else old(tables)
    {
      var cs := tables.custodians;
      if account !in cs {
        return Ok(false);
      }
      if checkIfAlive && !IsAccountAlive(tables.conf.inactivateCustAfterSec, now, cs[account].lastActive) {
        return Err(Inactive);
      }
      if updateLastActive {
        tables := tables.(custodians := cs[account := cs[account].(lastActive := now)]);
      }
      return Ok(true);
    }

    /** insert_or_update_or_delete_threshold on the thresholds table, its checks in the
        source's order; a failure leaves the table untouched. */
    method WriteThreshold(n: Name, v: Int8, remove: bool, privileged: bool) returns (failure: Option<Error>)
      modifies this
      ensures var up := UpsertOrDelete(old(tables.thresholds), old(tables.links), n, v, remove, privileged);
        (up.Ok? ==> failure.None? && tables == old(tables).(thresholds := up.value))
        && (up.Err? ==> failure == Some(up.error) && tables == old(tables))
    {
      var ts: ThresholdTable := tables.thresholds;
      var linked := IsLinked(tables.links, n);
      if remove {
        if linked {
          return Some(ThresholdLinked);
        }
        if n !in ts {
          return Some(ThresholdMissing);
        }
        if n == DEFAULT {
          return Some(DefaultUndeletable);
        }
        tables := tables.(thresholds := ts - {n});
        return None;
      }
      if linked {
        if n !in ts {
          return Some(UndefinedRead);
        }
        if ts[n] == -1 {
          return Some(LinkedWasNegative);
        }
        if v == -1 {
          return Some(LinkedToNegative);
        }
      }
      if !privileged && n == DEFAULT {
        return Some(DefaultProtected);
      }
      if v < -1 {
        return Some(BelowMinusOne);
      }
      if n == 0 {
        return Some(InvalidThresholdName);
      }
      if n in ts && n == DEFAULT && v <= 0 {
        return Some(DefaultNotPositive);
      }
      tables := tables.(thresholds := ts[n := v]);
      return None;
    }

    /** update_active: the active authority over the custodians in table order, and the
        "default" threshold derived from its size, written with privilege. */
    method UpdateActive(now: TimeSec) returns (r: Result<Effect>)
      modifies this
      ensures var st := ActiveStep(old(tables), old(tables.custodians), now, old(tables.custCount));
        (r.Ok? ==> st.outcome == Done([r.value]) && tables == st.after)
        && (r.Err? ==> st.outcome == Abort(r.error) && tables == old(tables))
    {
      var cs := tables.custodians;
      var ks := OrderedKeys(cs);
      var rows := seq(|ks|, i requires 0 <= i < |ks| => cs[ks[i]]);
      var auth, defaultThreshold := ComputeActiveAuthority(rows, tables.conf.inactivateCustAfterSec, now);
      var failure := WriteThreshold(DEFAULT, Int8Of(defaultThreshold), false, true);
      if failure.Some? {
        return Err(failure.value);
      }
      return Ok(UpdateAuth(ACTIVE, OWNER, auth));
    }

    /** archive_proposal: with an archive size, snapshot the open proposal at the end of the
        outcome scope under the next id, scheduling a one-row trunchistory when the scope's
        id span reached the size; always erase the open proposal. */
    method ArchiveProposal(archiveType: Name, id: Uint64) returns (r: Result<seq<Effect>>)
      requires id in tables.proposals
      modifies this
      ensures var rows := HistoryRows(old(tables.history), archiveType);
        var keep := old(tables.conf.proposalArchiveSize);
        var archived := ArchiveRows(rows, old(tables.proposals)[id], keep);
        (archived.Err? ==> r == Err(archived.error) && tables == old(tables))
        && (archived.Ok? ==>
              r == Ok(Eviction(rows, archiveType, keep))
              && tables == old(tables).(proposals := old(tables.proposals) - {id},
                                        history := Archived(old(tables.history), archiveType, keep, archived.value)))
    {
      var keep := tables.conf.proposalArchiveSize;
      var history := tables.history;
      var effects := [];
      if keep > 0 {
        var rows := HistoryRows(history, archiveType);
        if rows != [] {
          var count := rows[|rows| - 1].id - rows[0].id + 1;
          if count >= keep {
            effects := [Effect.TruncHistory(archiveType, 1)];
          }
        }
        var next := NextArchiveId(rows);
        if next.Err? {
          return Err(next.error);
        }
        history := history[archiveType := rows + [tables.proposals[id].(id := next.value)]];
      }
      tables := tables.(proposals := tables.proposals - {id}, history := history);
      return Ok(effects);
    }

    /** add_balance on the account's scope; the new row's id is available_primary_key of
        the scope. */
    method AddBalance(account: Name, value: ExtendedAsset) returns (failure: Option<Error>)
      modifies this
      ensures var st := CreditStep(old(tables), account, value);
        (st.outcome.Done? ==> failure.None? && tables == st.after)
        && (st.outcome.Abort? ==> failure == Some(st.outcome.error) && tables == old(tables))
    {
      var t := BalanceScope(tables.balances, account);
      var key := AssetKey(value);
      if key !in t {
        var id := AvailablePrimaryKey(RowIds(t));
        if id.Err? {
          return Some(id.error);
        }
        tables := tables.(balances := tables.balances[account := t[key := BalanceRow(id.value, value)]]);
      } else {
        var sum := t[key].balance.quantity.amount + value.quantity.amount;
        if sum < -MAX_AMOUNT {
          return Some(AdditionUnderflow);
        }
        if sum > MAX_AMOUNT {
          return Some(AdditionOverflow);
        }
        tables := tables.(balances := tables.balances[account := t[key := WithAmount(t[key], sum)]]);
      }
      return None;
    }

    /** sub_balance on the account's scope: a row emptied to exactly zero is erased, except
        in the contract's own scope. */
    method SubBalance(account: Name, value: ExtendedAsset) returns (failure: Option<Error>)
      modifies this
      ensures var st := DebitStep(self, old(tables), account, value);
        (st.outcome.Done? ==> failure.None? && tables == st.after)
        && (st.outcome.Abort? ==> failure == Some(st.outcome.error) && tables == old(tables))
    {
      var t := BalanceScope(tables.balances, account);
      var key := AssetKey(value);
      if key !in t {
        return Some(BalanceMissing);
      }
      var held := t[key].balance.quantity.amount;
      if held < value.quantity.amount {
        return Some(Overdrawn);
      }
      if account != self && held == value.quantity.amount {
        tables := tables.(balances := tables.balances[account := t - {key}]);
        return None;
      }
      if held - value.quantity.amount > MAX_AMOUNT {
        return Some(SubtractionOverflow);
      }
      tables := tables.(balances := tables.balances[account := t[key := WithAmount(t[key], held - value.quantity.amount)]]);
      return None;
    }

    /** The update_active that ends invitecust, removecust, imalive and isetcusts, once
        they have written the custodians table and count: an abort returns the tables to
        saved, as they were before the action. */
    method Activate(saved: State, now: TimeSec) returns (r: Outcome)
      requires tables == saved.(custodians := tables.custodians, custCount := tables.custCount)
      modifies this
      ensures Step(r, tables) == ActiveStep(saved, old(tables.custodians), now, old(tables.custCount))
    {
      ActiveStepFrame(saved, tables, now);
      var active := UpdateActive(now);
      if active.Err? {
        tables := saved;
        return Abort(active.error);
      }
      return Done([active.value]);
    }

    /** The end of cancel and exec: store the last actor, archive the proposal under
        scope, and stamp the actor if it is (still) a custodian. */
    method Close(env: Env, id: Uint64, actor: Name, scope: Name, sent: seq<Effect>) returns (r: Outcome)
      requires id in tables.proposals
      modifies this
      ensures Step(r, tables) == CloseStep(old(tables), env, id, actor, scope, sent)
    {
      var saved := tables;
      tables := tables.(proposals := tables.proposals[id := tables.proposals[id].(lastActor := actor)]);
      var evictions := ArchiveProposal(scope, id);
      if evictions.Err? {
        tables := saved;
        return Abort(evictions.error);
      }
      var stamped := IsCustodian(actor, true, true, env.now);
      if stamped.Err? {
        tables := saved;
        return Abort(stamped.error);
      }
      return Done(sent + evictions.value);
    }

    // -------------------------------------------------------------------
    // Actions (src/daclifycore.cpp). Each one ends with the outcome and the tables of
    // its step; the steps keep the tables valid (module Preservation).
    // -------------------------------------------------------------------

    /** updateconf. */
    method UpdateConf(env: Env, newConf: GroupConf, remove: bool) returns (r: Outcome)
      requires Valid()
      modifies this
      ensures Step(r, tables) == UpdateConfStep(self, old(tables), env, newConf, remove)
      ensures Valid()
    {
      UpdateConfKeepsValid(self, tables, env, newConf, remove);
      if self !in env.auths {
        return Abort(MissingAuth);
      }
      if remove {
        tables := tables.(conf := DefaultGroupConf());
        return Done([]);
      }
      var effects := [];
      var current := tables.conf.maintainerAccount;
      if current.actor != newConf.maintainerAccount.actor || current.permission != newConf.maintainerAccount.permission {
        var maintainer := newConf.maintainerAccount;
        var owner := OwnerAuthority(self, maintainer, maintainer.actor in env.accounts);
        effects := [UpdateAuth(OWNER, 0, owner)];
      }
      tables := tables.(conf := newConf);
      return Done(effects);
    }

    /** propose. */
    method Propose(env: Env, proposer: Name, title: string, description: string,
                   actions: seq<Action>, expiration: TimeSec) returns (r: Outcome)
      requires Valid()
      modifies this
      ensures Step(r, tables) == ProposeStep(self, old(tables), env, proposer, title, description, actions, expiration)
      ensures Valid()
    {
      ProposeKeepsValid(self, tables, env, proposer, title, description, actions, expiration);
      var saved := tables;
      if proposer !in env.auths {
        return Abort(MissingAuth);
      }
      if proposer != self {
        var isCustodian := IsCustodian(proposer, true, true, env.now);
        if isCustodian.Err? {
          return Abort(isCustodian.error);
        }
        if !isCustodian.value {
          return Abort(NotCustodian);
        }
      }
      r := Submit(saved, env, proposer, title, description, actions, expiration);
    }

    /** The rest of propose; an abort returns the tables to saved, as they were before the
        proposer was stamped. */
    method Submit(saved: State, env: Env, proposer: Name, title: string, description: string,
                  actions: seq<Action>, expiration: TimeSec) returns (r: Outcome)
      requires tables == saved.(custodians := tables.custodians)
      modifies this
      ensures Step(r, tables) == SubmitStep(self, saved, old(tables.custodians), env, proposer, title, description, actions, expiration)
    {
      if !(0 < |actions| < 8) {
        tables := saved;
        return Abort(BadActionCount);
      }
      var required := FindRequiredThreshold(self, tables.links, tables.thresholds, actions);
      if required.Err? {
        tables := saved;
        return Abort(required.error);
      }
      if required.value.threshold == 0 && tables.conf.execOnThresholdZero {
        return Done(Sends(actions));
      }
      if !(env.now < expiration) {
        tables := saved;
        return Abort(ExpirationNotFuture);
      }
      if expiration - env.now < 60 * 60 {
        tables := saved;
        return Abort(MinimumExpiration);
      }
      var approvals := [];
      if proposer != self {
        approvals := [proposer];
      }
      var id := AvailablePrimaryKey(tables.proposals.Keys);
      if id.Err? {
        tables := saved;
        return Abort(id.error);
      }
      var p := Proposal(id.value, title, description, proposer, actions, env.now, expiration,
                        approvals, required.value.thresholdName, proposer, env.trxId);
      tables := tables.(proposals := tables.proposals[id.value := p]);
      return Done([MessageBus(tables.conf.hubAccount, self, PROPOSE, proposer)]);
    }

    /** approve. */
    method Approve(env: Env, approver: Name, id: Uint64) returns (r: Outcome)
      requires Valid()
      modifies this
      ensures Step(r, tables) == ApproveStep(old(tables), env, approver, id)
      ensures Valid()
    {
      ApproveKeepsValid(self, tables, env, approver, id);
      r := RecordApproval(env, approver, id);
    }

    /** The checks and writes of approve, which need no invariant: stamp the approver, then
        rebuild the approvals with the approver in them. */
    method RecordApproval(env: Env, approver: Name, id: Uint64) returns (r: Outcome)
      modifies this
      ensures Step(r, tables) == ApproveStep(old(tables), env, approver, id)
    {
      var saved := tables;
      if approver !in env.auths {
        return Abort(MissingAuth);
      }
      var isCustodian := IsCustodian(approver, true, true, env.now);
      if isCustodian.Err? {
        return Abort(isCustodian.error);
      }
      if !isCustodian.value {
        return Abort(NotCustodian);
      }
      if id !in tables.proposals {
        tables := saved;
        return Abort(ProposalNotFound);
      }
      var p := tables.proposals[id];
      var approvals := CollectApprovals(p.approvals, approver, tables.custodians.Keys);
      if approvals.None? {
        tables := saved;
        return Abort(AlreadyApproved);
      }
      SortedUnique(approvals.value, ApprovedBy(p.approvals, approver, saved.custodians));
      tables := tables.(proposals := tables.proposals[id := p.(lastActor := approver, approvals := approvals.value)]);
      return Done([]);
    }

    /** unapprove. */
    method Unapprove(env: Env, unapprover: Name, id: Uint64) returns (r: Outcome)
      requires Valid()
      modifies this
      ensures Step(r, tables) == UnapproveStep(old(tables), env, unapprover, id)
      ensures Valid()
    {
      UnapproveKeepsValid(self, tables, env, unapprover, id);
      var saved := tables;
      if unapprover !in env.auths {
        return Abort(MissingAuth);
      }
      var isCustodian := IsCustodian(unapprover, true, true, env.now);
      if isCustodian.Err? {
        return Abort(isCustodian.error);
      }
      if !isCustodian.value {
        return Abort(NotCustodian);
      }
      if id !in tables.proposals {
        tables := saved;
        return Abort(ProposalNotFound);
      }
      var p := tables.proposals[id];
      var hasApproved, approvals := CollectUnapprovals(p.approvals, unapprover, tables.custodians.Keys);
      if !hasApproved {
        tables := saved;
        return Abort(NotInApprovals);
      }
      SortedUnique(approvals, UnapprovedBy(p.approvals, unapprover, saved.custodians));
      tables := tables.(proposals := tables.proposals[id := p.(approvals := approvals, lastActor := unapprover)]);
      return Done([]);
    }

    /** cancel. */
    method Cancel(env: Env, canceler: Name, id: Uint64) returns (r: Outcome)
      requires Valid()
      modifies this
      ensures Step(r, tables) == CancelStep(self, old(tables), env, canceler, id)
      ensures Valid()
    {
      CancelKeepsValid(self, tables, env, canceler, id);
      if id !in tables.proposals {
        return Abort(ProposalNotFound);
      }
      var actor := canceler;
      if self !in env.auths {
        if tables.proposals[id].proposer !in env.auths {
          return Abort(MissingAuth);
        }
      } else {
        actor := self;
      }
      r := Close(env, id, actor, CANCELLED, []);
    }

    /** exec. */
    method Exec(env: Env, executer: Name, id: Uint64) returns (r: Outcome)
      requires Valid()
      modifies this
      ensures Step(r, tables) == ExecStep(old(tables), env, executer, id)
      ensures Valid()
    {
      ExecKeepsValid(self, tables, env, executer, id);
      if executer !in env.auths {
        return Abort(MissingAuth);
      }
      if id !in tables.proposals {
        return Abort(ProposalNotFound);
      }
      var p := tables.proposals[id];
      if !(env.now < p.expiration) {
        return Abort(ProposalExpired);
      }
      var weight := TotalApprovedWeight(p.approvals, tables.custodians);
      var required := ThresholdByName(tables.thresholds, p.requiredThreshold);
      if required.Err? {
        return Abort(required.error);
      }
      if weight < required.value {
        return Abort(NotEnoughWeight);
      }
      r := Close(env, id, executer, EXECUTED, Sends(p.actions));
    }

    /** trunchistory. */
    method TruncHistory(env: Env, scope: Name, batchSize: Uint32) returns (r: Outcome)
      requires Valid()
      modifies this
      ensures Step(r, tables) == TruncHistoryStep(self, old(tables), env, scope, batchSize)
      ensures Valid()
    {
      TruncHistoryKeepsValid(self, tables, env, scope, batchSize);
      if self !in env.auths {
        return Abort(MissingAuth);
      }
      if scope == self {
        return Abort(ScopeForbidden);
      }
      if HistoryRows(tables.history, scope) == [] {
        return Abort(HistoryEmpty);
      }
      var rest := CleanTable(tables.history[scope], batchSize);
      tables := tables.(history := tables.history[scope := rest]);
      return Done([]);
    }

    // -------------------------------------------------------------------
    // Custodians
    // -------------------------------------------------------------------

    /** invitecust. */
    method InviteCust(env: Env, account: Name) returns (r: Outcome)
      requires Valid()
      modifies this
      ensures Step(r, tables) == InviteCustStep(self, old(tables), env, account)
      ensures Valid()
    {
      InviteCustKeepsValid(self, tables, env, account);
      var saved := tables;
      if self !in env.auths {
        return Abort(MissingAuth);
      }
      if account == self {
        return Abort(SelfCustodian);
      }
      if ELECTIONS in tables.modules {
        return Abort(ElectionModuleLinked);
      }
      if account !in env.accounts {
        return Abort(AccountMissing);
      }
      if account in tables.custodians {
        return Abort(AlreadyCustodian);
      }
      var count := (tables.custCount + 1) % 0x100;
      if tables.custCount == 0 {
        var row := NewCustodian(account, env.now).(lastActive := env.now);
        tables := tables.(custodians := tables.custodians[account := row], custCount := count);
        r := Activate(saved, env.now);
        return;
      }
      tables := tables.(custodians := tables.custodians[account := NewCustodian(account, env.now)], custCount := count);
      return Done([]);
    }

    /** removecust. */
    method RemoveCust(env: Env, account: Name) returns (r: Outcome)
      requires Valid()
      modifies this
      ensures Step(r, tables) == RemoveCustStep(self, old(tables), env, account)
      ensures Valid()
    {
      RemoveCustKeepsValid(self, tables, env, account);
      r := EraseCustodian(env, account);
    }

    /** The checks and writes of removecust, which need no invariant: erase the row and
        decrement the count, then refuse an empty table or update the active authority. */
    method EraseCustodian(env: Env, account: Name) returns (r: Outcome)
      modifies this
      ensures Step(r, tables) == RemoveCustStep(self, old(tables), env, account)
    {
      var saved := tables;
      if self !in env.auths {
        return Abort(MissingAuth);
      }
      if account !in tables.custodians {
        return Abort(NotCustodian);
      }
      tables := tables.(custodians := tables.custodians - {account}, custCount := (tables.custCount - 1) % 0x100);
      if tables.custodians == map[] {
        tables := saved;
        return Abort(LastCustodian);
      }
      r := Activate(saved, env.now);
    }

    /** imalive. */
    method ImAlive(env: Env, account: Name) returns (r: Outcome)
      requires Valid()
      modifies this
      ensures Step(r, tables) == ImAliveStep(old(tables), env, account)
      ensures Valid()
    {
      ImAliveKeepsValid(self, tables, env, account);
      var saved := tables;
      if account !in env.auths {
        return Abort(MissingAuth);
      }
      var cs := tables.custodians;
      if account !in cs {
        return Abort(NotCustodian);
      }
      var alive := IsAccountAlive(tables.conf.inactivateCustAfterSec, env.now, cs[account].lastActive);
      tables := tables.(custodians := cs[account := cs[account].(lastActive := env.now)]);
      if !alive {
        r := Activate(saved, env.now);
        return;
      }
      return Done([]);
    }

    /** isetcusts: collect the elected rows, empty the table, repopulate it (a repeated
        candidate fails the emplace), rewrite the active authority and store the count. */
    method ISetCusts(env: Env, accounts: seq<Name>) returns (r: Outcome)
      requires Valid()
      modifies this
      ensures Step(r, tables) == ISetCustsStep(old(tables), env, accounts)
      ensures Valid()
    {
      ISetCustsKeepsValid(self, tables, env, accounts);
      var saved := tables;
      if ELECTIONS !in tables.modules {
        return Abort(NoElectionsModule);
      }
      if tables.modules[ELECTIONS].slavePermission.actor !in env.auths {
        return Abort(MissingAuth);
      }
      if |accounts| > tables.conf.maxCustodians {
        return Abort(TooManyCustodians);
      }
      if |accounts| == 0 {
        return Abort(EmptyCustodianList);
      }
      var before := tables.custodians;
      var elected := CollectElected(before, accounts, env.now);
      var cs, duplicate := Repopulate(before, accounts, elected, env.now);
      if duplicate {
        return Abort(DuplicateRow);
      }
      tables := tables.(custodians := cs, custCount := |accounts|);
      r := Activate(saved, env.now);
    }

    /** The first loop of isetcusts: each candidate's stored row, or a fresh one. */
    static method CollectElected(before: CustodianTable, accounts: seq<Name>, now: TimeSec)
      returns (elected: seq<Custodian>)
      ensures |elected| == |accounts|
      ensures forall j :: 0 <= j < |accounts| ==> elected[j] == ElectedRow(before, accounts[j], now)
    {
      elected := [];
      var i := 0;
      while i < |accounts|
        invariant 0 <= i <= |accounts| && |elected| == i
        invariant forall j :: 0 <= j < i ==> elected[j] == ElectedRow(before, accounts[j], now)
      {
        var candidate := accounts[i];
        if candidate in before {
          elected := elected + [before[candidate]];
        } else {
          elected := elected + [NewCustodian(candidate, now).(lastActive := now)];
        }
        i := i + 1;
      }
    }

    /** The other two loops of isetcusts: erase every row, then emplace the elected rows in
        order; the emplace of a repeated candidate fails. */
    static method Repopulate(before: CustodianTable, accounts: seq<Name>, elected: seq<Custodian>, now: TimeSec)
      returns (cs: CustodianTable, duplicate: bool)
      requires Keyed(before) && |elected| == |accounts|
      requires forall j :: 0 <= j < |accounts| ==> elected[j] == ElectedRow(before, accounts[j], now)
      ensures duplicate <==> !Distinct(accounts)
      ensures !duplicate ==> cs == ElectedTable(before, accounts, now)
    {
      cs := before;
      while cs != map[]
        decreases cs.Keys
      {
        var k :| k in cs;
        cs := cs - {k};
      }
      var j := 0;
      while j < |elected|
        invariant 0 <= j <= |elected|
        invariant cs == ElectedTable(before, accounts[..j], now)
        invariant Distinct(accounts[..j])
      {
        var row := elected[j];
        ElectedAccount(before, accounts[j], now);
        DistinctPrefix(accounts, j);
        if row.account in cs {
          return cs, true;
        }
        ElectedTableSnoc(before, accounts, j, now);
        cs := cs[row.account := row];
        j := j + 1;
      }
      assert accounts[..|accounts|] == accounts;
      return cs, false;
    }

    // -------------------------------------------------------------------
    // Thresholds
    // -------------------------------------------------------------------

    /** manthreshold. */
    method ManThreshold(env: Env, n: Name, v: Int8, remove: bool) returns (r: Outcome)
      requires Valid()
      modifies this
      ensures Step(r, tables) == ManThresholdStep(self, old(tables), env, n, v, remove)
      ensures Valid()
    {
      ManThresholdKeepsValid(self, tables, env, n, v, remove);
      if self !in env.auths {
        return Abort(MissingAuth);
      }
      var failure := WriteThreshold(n, v, remove, false);
      if failure.Some? {
        return Abort(failure.value);
      }
      return Done([]);
    }

    /** manthreshlin. */
    method ManThreshLin(env: Env, contract: Name, action: Name, tname: Name, remove: bool) returns (r: Outcome)
      requires Valid()
      modifies this
      ensures Step(r, tables) == ManThreshLinStep(self, old(tables), env, contract, action, tname, remove)
      ensures Valid()
    {
      ManThreshLinKeepsValid(self, tables, env, contract, action, tname, remove);
      if self !in env.auths {
        return Abort(MissingAuth);
      }
      if contract == 0 {
        return Abort(WildcardContract);
      }
      if tname == 0 {
        return Abort(EmptyThresholdName);
      }
      if tname == DEFAULT {
        return Abort(DefaultUnassignable);
      }
      if contract !in env.accounts {
        return Abort(AccountMissing);
      }
      if tname !in tables.thresholds {
        return Abort(ThresholdUnknown);
      }
      var key := ContAct(contract, action);
      var links := tables.links;
      if key in links {
        if remove {
          tables := tables.(links := links - {key});
        }
        return Done([]);
      }
      if remove {
        return Abort(LinkMissing);
      }
      var id := AvailablePrimaryKey(LinkIds(links));
      if id.Err? {
        return Abort(id.error);
      }
      tables := tables.(links := links[key := ThreshLink(id.value, contract, action, tname)]);
      return Done([]);
    }

    // -------------------------------------------------------------------
    // Ledger and membership
    // -------------------------------------------------------------------

    /** widthdraw: sends the transfer and stores nothing. */
    method Widthdraw(env: Env, account: Name, amount: ExtendedAsset) returns (r: Outcome)
      ensures Step(r, tables) == WidthdrawStep(self, tables, env, account, amount)
    {
      if account !in env.auths {
        return Abort(MissingAuth);
      }
      if !tables.conf.withdrawals {
        return Abort(WithdrawalsDisabled);
      }
      if account == self {
        return Abort(WithdrawToSelf);
      }
      if amount.quantity.amount <= 0 {
        return Abort(NonPositiveAmount);
      }
      return Done([Transfer(amount.contract, self, account, amount.quantity, WITHDRAW_PREFIX)]);
    }

    /** internalxfr. */
    method InternalXfr(env: Env, from: Name, to: Name, amount: ExtendedAsset) returns (r: Outcome)
      requires Valid()
      modifies this
      ensures Step(r, tables) == InternalXfrStep(self, old(tables), env, from, to, amount)
      ensures Valid()
    {
      InternalXfrKeepsValid(self, tables, env, from, to, amount);
      var saved := tables;
      if from !in env.auths {
        return Abort(MissingAuth);
      }
      if !tables.conf.internalTransfers {
        return Abort(TransfersDisabled);
      }
      if !IsMember(self, tables.members.Keys, from) {
        return Abort(SenderNotMember);
      }
      if !IsMember(self, tables.members.Keys, to) {
        return Abort(ReceiverNotMember);
      }
      if amount.quantity.amount <= 0 {
        return Abort(NonPositiveAmount);
      }
      var failure := SubBalance(from, amount);
      if failure.Some? {
        return Abort(failure.value);
      }
      failure := AddBalance(to, amount);
      if failure.Some? {
        tables := saved;
        return Abort(failure.value);
      }
      return Done([]);
    }

    /** regmember. */
    method RegMember(env: Env, actor: Name) returns (r: Outcome)
      requires Valid()
      modifies this
      ensures Step(r, tables) == RegMemberStep(self, old(tables), env, actor)
      ensures Valid()
    {
      RegMemberKeepsValid(self, tables, env, actor);
      if actor !in env.auths {
        return Abort(MissingAuth);
      }
      if !tables.conf.memberRegistration {
        return Abort(RegistrationDisabled);
      }
      if actor !in env.accounts {
        return Abort(AccountMissing);
      }
      if actor == self {
        return Abort(SelfMember);
      }
      if actor in tables.members {
        return Abort(AlreadyMember);
      }
      tables := tables.(members := tables.members[actor := Member(actor, env.now, 0, 0)],
                        memberCount := (tables.memberCount + 1) % TWO_TO_THE_64);
      return Done([]);
    }

    /** unregmember. */
    method UnregMember(env: Env, actor: Name) returns (r: Outcome)
      requires Valid()
      modifies this
      ensures Step(r, tables) == UnregMemberStep(old(tables), env, actor)
      ensures Valid()
    {
      UnregMemberKeepsValid(self, tables, env, actor);
      if actor !in env.auths {
        return Abort(MissingAuth);
      }
      if BalanceScope(tables.balances, actor) != map[] {
        return Abort(MemberHasBalance);
      }
      if actor !in tables.members {
        return Abort(NotMember);
      }
      tables := tables.(members := tables.members - {actor}, memberCount := (tables.memberCount - 1) % TWO_TO_THE_64);
      return Done([]);
    }

    /** on_transfer: the notification of a transfer on the token contract firstReceiver. */
    method OnTransfer(firstReceiver: Name, nameOf: string -> Option<Name>, from: Name, to: Name,
                      quantity: Asset, memo: string) returns (r: Outcome)
      requires Valid()
      modifies this
      ensures Step(r, tables) == OnTransferStep(self, old(tables), firstReceiver, nameOf, from, to, quantity, memo)
      ensures Valid()
    {
      OnTransferKeepsValid(self, tables, firstReceiver, nameOf, from, to, quantity, memo);
      var route := TransferRoute(self, tables.members.Keys, tables.conf.deposits, nameOf, from, to, quantity.amount, memo);
      if route.Err? {
        return Abort(route.error);
      }
      var value := ExtendedAsset(quantity, firstReceiver);
      var failure: Option<Error> := None;
      match route.value {
        case CreditScope(scope) => failure := AddBalance(scope, value);
        case DebitScope(scope) => failure := SubBalance(scope, value);
        case Untouched =>
      }
      if failure.Some? {
        return Abort(failure.value);
      }
      return Done([]);
    }
  }
}
