# daclifycore in Dafny

A model of the Daclify core contract, an EOSIO contract that governs a group account. It
models the following.

- **Custodians.** They propose batches of inline actions, approve them, and execute them once
  the approved weight reaches the threshold that the actions require.
- **Threshold registry.** It maps (contract, action) pairs to named `int8` thresholds, resolved
  through four tiers.
- **Authority synchroniser.** It rewrites the account's `active` permission from the custodians
  who are still alive, and rewrites the privileged `"default"` threshold.
- **Internal ledger.** Per-member balances are credited and debited by token transfer
  notifications and internal transfers, with member registration beside it.

Every action either runs to completion or aborts as a whole.

## How the model is built

- `types.dfy` (`Types`): the records of `include/daclifycore.hpp` and
  `include/system_structs.hpp`, plus:
  - the configuration defaults;
  - the composite 128-bit keys;
  - the `int8`/`uint8` casts;
  - one error per `check` message;
  - effects, the outbound inline actions, as values.
- `tables.dfy` (`Tables`): multi_index mechanics. It covers the sorted `std::set` insert,
  iteration in key order, `available_primary_key` and `cleanTable`.
- `thresholds.dfy` (`Thresholds`): `get_threshold_by_name`, the resolver,
  `insert_or_update_or_delete_threshold` and the link update of `manthreshlin`.
- `custodians.dfy` (`Custodians`): `is_account_alive`, the default threshold, the active
  authority (with its partition loop), the owner authority (with its insertion sort) and the
  `isetcusts` table.
- `proposals.dfy` (`Proposals`): the required-threshold scan, the approve and unapprove loops,
  the weight sum and archiving.
- `ledger.dfy` (`Ledger`): `add_balance`/`sub_balance`, memo routing and `is_member`.
- `contract.dfy` (`Contract`):
  - all stored tables as one `State` value;
  - the invariant `ValidState` that every action keeps;
  - each action as a step function `XStep(self, s, env, …)`, returning the outcome (`Done`
    with the effects sent, or `Abort` with the error) and the tables after.
  On `Abort` the tables are unchanged, because the transaction reverts.
- `daclifycore.dfy` (`Daclify`): `class Core`, whose field `tables` the actions change in
  place. Each action is a method written like the source, and is proved to produce exactly
  its step function's outcome and tables and to keep `Valid()`. It covers:
  - checks in the source's order;
  - writes to the table field;
  - the `approve`/`unapprove`/weight loops;
  - the `isetcusts` collect, clear and repopulate loops;
  - the `cleanTable` erase loop.
  A method that fails after a write restores the saved tables, which models the rollback.
- `preservation.dfy` (`Preservation`): one lemma per action showing that its step keeps
  `ValidState`.
- `properties.dfy` (`Properties`): what each action promises, stated over its step function,
  and round trips between actions.

The host is a parameter, `Env`. It supplies the clock, the authorising accounts
(`require_auth`/`has_auth`), the existing accounts (`is_account`) and the transaction id.
Names are their 64-bit encodings; the literal names are constants holding their encoded
values.

### Behaviour modelled as the code has it

- Thresholds are stored as `int8`, but `threshold_name_and_value.threshold` and
  `get_threshold_by_name` are `uint8`. A `-1` therefore reads as 255, and propose's
  "blocked via negative threshold" check can never fail. A blocked action is not refused at
  propose time: the proposal is stored, and it needs an approved weight of 255 to execute.
  This follows the code, not the description of a hard block.
- The default threshold is `floor(0.8 n)` for n ≥ 4, not a ceiling. It is written as
  `(4 n) / 5`. It reaches `insert_or_update_or_delete_threshold` as `int8`, so 160 or more
  signers make it negative and abort `update_active` (`DefaultThresholdAsInt8`).
- `get_threshold_by_name` of a missing name without a `"default"` row recurses without end.
  The model returns `Err(UnresolvableDefault)`. This cannot happen under `ValidState` once a
  custodian exists.
- `cust_count` and the approved weight are `uint8` (`% 256`), and `member_count` is `uint64`.
  The model does not bound the custodian count at 255: the invariant relates `cust_count` to
  the table size modulo 256.
- The archive "count" that triggers a one-row eviction is the id span of the scope, not its
  row count. The eviction is an inline action, so it runs after the new snapshot is appended.
- invitecust decides "first custodian" from `cust_count`, not from the table.
- removecust erases first and checks emptiness afterwards. The abort reverts, so the table is
  never left empty.
- `is_account_alive` measures elapsed time in 32 bits. At time 0 without a window, a custodian
  stamped "now" is not alive. `ApproveThenUnapprove` therefore assumes a clock past the epoch.

## Model

| member | source | states |
|---|---|---|
| Types.Uint8Of | include/daclifycore.hpp:136-139 | the `uint8` read of a stored `int8` agrees with it modulo 256 |
| Types.Int8Of | include/functions.cpp:193-205 | the `int8` read of a `uint8` agrees with it modulo 256 |
| Types.Int8Uint8Inverse | include/daclifycore.hpp:136-139 | the two casts are mutually inverse |
| Types.DefaultGroupConf | include/daclifycore.hpp:62-72 | max custodians 0, inactivity 2592000 s, archive size 3, no execution on threshold zero, every feature flag off |
| Types.NewCustodian | include/daclifycore.hpp:200-205 | a new row has authority `active`, weight 1, joined now and `last_active` 0 |
| Types.ContAct | include/daclifycore.hpp:161 | the link key carries the contract in its high and the action in its low 64 bits |
| Types.ContrSym | include/daclifycore.hpp:260 | the balance key carries the contract in its high and the symbol in its low 64 bits |
| Types.ContActInjective | include/daclifycore.hpp:161 | equal link keys mean equal (contract, action) pairs |
| Types.ContrSymInjective | include/daclifycore.hpp:260 | equal balance keys mean equal (contract, symbol) pairs |
| Types.Sends | src/daclifycore.cpp:273-275 | one `Send` effect per action, in stored order |
| Tables.InsertOrdered | src/daclifycore.cpp:154-162 | inserting into a sorted set keeps it sorted, adds exactly the element and leaves it unchanged when present |
| Tables.SortedUnique | src/daclifycore.cpp:165 | two sorted duplicate-free lists with the same elements are equal |
| Tables.Ascending | src/daclifycore.cpp:165 | the ascending list of a set: sorted, duplicate free, same elements |
| Tables.OrderedKeys | include/functions.cpp:162 | iterating a table visits exactly its keys in ascending order |
| Tables.NextPrimaryKey | src/daclifycore.cpp:95 | one past the largest id, 0 for an empty table, an error when the next id is the reserved maximum |
| Tables.AvailablePrimaryKey | src/daclifycore.cpp:95 | the id given is unused and above every existing id |
| Tables.DropLowest | include/daclifycore.hpp:357-364 | exactly min(batch, size) rows disappear and the highest rows remain, in order |
| Tables.CleanTable | include/daclifycore.hpp:357-364 | the counted erase loop from the lowest key leaves `DropLowest(rows, batch)` |
| Thresholds.ThresholdByName | include/functions.cpp:260-269 | a stored value read as `uint8`, a missing name falls back to `"default"`, an error only when both are missing; `-1` reads as 255 |
| Thresholds.ResolveName | include/functions.cpp:328-359 | the first linked key among (c,a), (0,a), (c,0), else `"default"` |
| Thresholds.Resolve | include/functions.cpp:328-359 | fails exactly when neither the governing name nor `"default"` has a row; otherwise carries the governing name and its stored value (or `"default"`'s) read as `uint8` |
| Thresholds.WellFormedResolution | src/daclifycore.cpp:529 | with well-formed links and a `"default"` row, resolution never fails and the (0,a) tier never matches |
| Thresholds.UpsertOrDelete | include/functions.cpp:271-313 | each refusal: a linked, missing or `"default"` removal; a linked sign flip; an unprivileged `"default"`; a value below −1 or name 0; a non-positive `"default"`. Otherwise only the addressed row changes, and `"default"` survives positive |
| Thresholds.UpsertKeepsLinksWellFormed | include/functions.cpp:271-313 | a threshold update never leaves a link pointing at a missing threshold |
| Thresholds.LinkUpdate | src/daclifycore.cpp:524-563 | refuses contract 0, threshold name 0, `"default"`, a non-account contract or an unknown threshold; removes or adds the link; silently keeps an existing link on add |
| Thresholds.LinkUpdateKeepsWellFormed | src/daclifycore.cpp:524-563 | a link update keeps every link well formed |
| Thresholds.LinkUpdateResolves | src/daclifycore.cpp:545-558 | a new link makes its pair resolve to its threshold, and a removal drops the key |
| Custodians.IsAccountAlive | include/functions.cpp:96-105 | with no window, alive iff ever stamped; with window W, alive iff the elapsed time is below W |
| Custodians.Entry | include/functions.cpp:164-167 | an authority entry for the custodian's account and authority, weight 1 |
| Custodians.EntriesMembers | include/functions.cpp:162-175 | the alive (inactive) entries are exactly those of the alive (inactive) custodians |
| Custodians.EntriesCount | include/functions.cpp:162-175 | the two partitions together hold every custodian |
| Custodians.EntriesAscending | include/functions.cpp:162-175 | each partition keeps the table's ascending account order |
| Custodians.ActiveAuthority | include/functions.cpp:177-184 | the alive entries, or all entries when none is alive; the threshold is the entry count; no keys or waits |
| Custodians.NoneAliveIff | include/functions.cpp:177 | the alive partition is empty iff no custodian is alive |
| Custodians.ActiveAuthorityChosen | include/functions.cpp:162-184 | the authority lists exactly the signing custodians, ascending by actor |
| Custodians.ActiveAuthorityShape | include/functions.cpp:162-184 | every entry has weight 1, the list is empty only for an empty table, and the threshold equals the entry count |
| Custodians.PartitionCustodians | include/functions.cpp:162-175 | the partition loop computes both partitions |
| Custodians.DefaultThreshold | include/functions.cpp:193-203 | 1 for one signer, 2 for up to three, ⌊4n/5⌋ otherwise; a strict majority of 1..255 signers, never 0 |
| Custodians.DefaultThresholdAsInt8 | include/functions.cpp:205 | the value stays positive as `int8` below 160 signers and drops below −1 from 160 |
| Custodians.ComputeActiveAuthority | include/functions.cpp:155-203 | the loop computes the active authority and its default threshold |
| Custodians.InsertByActor | include/daclifycore.hpp:350-354 | one insertion step of the owner sort adds exactly the entry |
| Custodians.InsertByActorSorted | include/daclifycore.hpp:350-354 | an insertion step keeps the entries ordered by actor |
| Custodians.SortByActor | include/daclifycore.hpp:350-354 | the sort orders by actor and is a permutation |
| Custodians.OwnerAuthority | include/functions.cpp:112-153 | threshold 1; entries sorted by actor and a permutation of self@active, self@eosio.code and the maintainer when it is a nonzero existing account; 2 or 3 entries of weight 1 |
| Custodians.OwnerEntriesShape | include/functions.cpp:113-134 | the unsorted owner entries hold both entries of self, the maintainer exactly when it is a non-empty existing account, all weight 1 |
| Custodians.TableOrder | include/functions.cpp:162 | the table read in key order has one row per custodian |
| Custodians.TableOrderAscending | include/functions.cpp:162 | that order is ascending by account and holds exactly the table's rows |
| Custodians.Stamp | include/functions.cpp:87-94 | only the stamped custodian's `last_active` changes, to now |
| Custodians.ElectedRow | src/daclifycore.cpp:410-425 | an existing custodian keeps its whole row, a newcomer gets a default row stamped now |
| Custodians.ElectedTableShape | src/daclifycore.cpp:410-438 | the new table holds exactly the elected names, keeps existing rows, stamps newcomers now, all weight 1 |
| Custodians.ElectedTableSnoc | src/daclifycore.cpp:434-438 | each repopulating emplace adds one elected row |
| Custodians.DistinctPrefix | src/daclifycore.cpp:434-438 | an emplace of an already present name is where the list stops being duplicate free |
| Custodians.ElectedTableSize | src/daclifycore.cpp:444 | a duplicate-free list of n names gives a table of n rows |
| Proposals.ResolveAll | src/daclifycore.cpp:57-62 | each action's resolved threshold in order; an action on (self, `propose`) fails the scan |
| Proposals.MaxRequired | src/daclifycore.cpp:63-68 | the running maximum is one of the values and bounds them all |
| Proposals.MaxRequiredIsFirst | src/daclifycore.cpp:63-68 | the running maximum is the first entry with the greatest value |
| Proposals.ResolveAllPrefixFails | src/daclifycore.cpp:57-62 | a failure on a prefix is the failure of the whole scan |
| Proposals.ResolveAllStep | src/daclifycore.cpp:58-61 | one more action refuses a self-proposal, fails on an unresolvable threshold, or extends the list |
| Proposals.MaxRequiredStep | src/daclifycore.cpp:66-67 | only a strictly greater value replaces the running maximum |
| Proposals.ResolveAllOk | src/daclifycore.cpp:57-62 | when every action resolves and none is a self-proposal, the scan yields exactly their values in order |
| Proposals.ResolveAllFirstFailure | src/daclifycore.cpp:58-61 | the first refused action decides the scan's error, whatever follows it |
| Proposals.FindRequiredThreshold | src/daclifycore.cpp:56-69 | the propose loop computes `RequiredThreshold` |
| Proposals.CollectApprovals | src/daclifycore.cpp:154-162 | fails exactly on a clash; otherwise sorted, and exactly {approver} ∪ (old ∩ custodians) |
| Proposals.ApproveClashOnSorted | src/daclifycore.cpp:159-160 | on a stored list, the clash is "approver already approved and is still a custodian" |
| Proposals.CollectUnapprovals | src/daclifycore.cpp:195-206 | notes whether the caller approved; keeps sorted (old ∩ custodians) minus the caller |
| Proposals.TotalApprovedWeight | include/functions.cpp:362-378 | the loop's 8-bit sum of the weights of approvers still custodians |
| Proposals.StillCustodiansSnoc | include/functions.cpp:369-374 | one more approver adds itself to the counted set iff it is a custodian |
| Proposals.WeightSumCountsCustodians | include/functions.cpp:362-378 | with weight-1 custodians, the weight is the number of distinct approvers still custodians |
| Proposals.ArchiveRows | include/functions.cpp:380-423 | with archive size 0 nothing is archived; otherwise the snapshot is appended under the next id (0 in an empty scope), failing only when the id is exhausted |
| Proposals.IdSpanIsRowCount | include/functions.cpp:391 | in a contiguous scope the id span equals the row count |
| Proposals.DropLowestContiguous | include/functions.cpp:391-397 | evicting the lowest rows keeps a scope contiguous |
| Proposals.ArchiveContiguous | include/functions.cpp:380-423 | appending keeps a scope contiguous |
| Proposals.ArchiveKeepsBound | include/functions.cpp:391-397 | a scope within the archive size stays within it and ends with the new snapshot after the eviction |
| Ledger.Credit | include/functions.cpp:229-247 | creates the row under the next id or adds to it; refuses a sum beyond the asset bound; other rows unchanged |
| Ledger.Debit | include/functions.cpp:208-226 | refuses a missing row or an overdraft; subtracts; erases an exact-zero row except in the contract's own scope |
| Ledger.CreditDebitKeepKeyed | include/functions.cpp:208-247 | both keep one row per asset type |
| Ledger.MemberScopeStaysPositive | include/functions.cpp:208-226 | a member scope keeps only positive rows |
| Ledger.CreditThenDebit | include/functions.cpp:208-247 | a credit undone by a debit of the same value restores a member scope exactly |
| Ledger.SelfCreditThenDebit | include/functions.cpp:208-247 | in the contract's own scope the pair restores the holding and may leave a zero row |
| Ledger.MemoAccount | src/daclifycore.cpp:975-977 | the account name is `substr(21, 12)`, and empty for memos of 21 characters or fewer |
| Ledger.DepositMemoAccount | src/daclifycore.cpp:973-977 | a deposit memo yields its account name's first 12 characters |
| Ledger.TransferRoute | src/daclifycore.cpp:958-999 | incoming deposit memos credit the named member (deposits on, member), other incoming transfers credit self; outgoing withdrawal memos debit `to` (a member), others debit self; a credit never reaches a non-member |
| Ledger.BareDepositMemoRefused | src/daclifycore.cpp:973-980 | a deposit prefix with no account is refused |
| Ledger.WithdrawalDebitsMember | src/daclifycore.cpp:988-994 | the transfer widthdraw sends debits the member on its notification |
| Contract.InitialStateValid | include/functions.cpp:1-7 | the empty tables under the default configuration satisfy the invariant |
| Contract.Fails | src/daclifycore.cpp:47 | an abort stores nothing |
| Contract.ActiveStep | include/functions.cpp:155-206 | update_active; an abort of its `"default"` write leaves the tables unchanged |
| Contract.ActiveStepFrame | include/functions.cpp:155-206 | update_active reads only the configuration, thresholds and links besides the custodians it is given |
| Contract.UpdateConfStep | src/daclifycore.cpp:14-28 | needs self's authority and changes only the configuration |
| Contract.ProposeStep | src/daclifycore.cpp:43-136 | propose; an abort stores nothing |
| Contract.SubmitStep | src/daclifycore.cpp:53-118 | the rest of propose; an abort stores nothing |
| Contract.ApproveStep | src/daclifycore.cpp:147-168 | approve; an abort stores nothing |
| Contract.UnapproveStep | src/daclifycore.cpp:188-212 | unapprove; an abort stores nothing |
| Contract.CloseStep | include/functions.cpp:380-423 | archive then `is_custodian(actor, true, true)`; an abort stores nothing |
| Contract.CancelStep | src/daclifycore.cpp:225-245 | cancel; an abort stores nothing |
| Contract.ExecStep | src/daclifycore.cpp:256-286 | exec; an abort stores nothing |
| Contract.TruncHistoryStep | src/daclifycore.cpp:573-584 | trunchistory; an abort stores nothing |
| Contract.InviteCustStep | src/daclifycore.cpp:295-335 | invitecust; an abort stores nothing |
| Contract.RemoveCustStep | src/daclifycore.cpp:344-362 | removecust; an abort stores nothing |
| Contract.ImAliveStep | src/daclifycore.cpp:371-384 | imalive; an abort stores nothing |
| Contract.ISetCustsStep | src/daclifycore.cpp:391-449 | isetcusts; an abort stores nothing |
| Contract.ManThresholdStep | src/daclifycore.cpp:509-512 | manthreshold; an abort stores nothing |
| Contract.ManThreshLinStep | src/daclifycore.cpp:524-563 | manthreshlin; an abort stores nothing |
| Contract.CreditStep | include/functions.cpp:229-247 | add_balance on a scope; an abort stores nothing |
| Contract.DebitStep | include/functions.cpp:208-226 | sub_balance on a scope; an abort stores nothing |
| Contract.WidthdrawStep | src/daclifycore.cpp:462-476 | widthdraw never writes a table |
| Contract.InternalXfrStep | src/daclifycore.cpp:488-498 | internalxfr; an abort stores nothing |
| Contract.RegMemberStep | src/daclifycore.cpp:593-609 | regmember; an abort stores nothing |
| Contract.UnregMemberStep | src/daclifycore.cpp:659-668 | unregmember; an abort stores nothing |
| Contract.OnTransferStep | src/daclifycore.cpp:958-999 | on_transfer; an abort stores nothing |
| Preservation.ActiveStepKeepsValid | include/functions.cpp:155-206 | update_active on a well-formed custodian table keeps the invariant |
| Preservation.CloseStepKeepsValid | include/functions.cpp:380-423 | archiving a proposal keeps the invariant, archives contiguous included |
| Preservation.CreditStepKeepsValid | include/functions.cpp:229-247 | add_balance keeps the invariant |
| Preservation.DebitStepKeepsValid | include/functions.cpp:208-226 | sub_balance keeps the invariant |
| Preservation.UpdateConfKeepsValid | src/daclifycore.cpp:14-28 | updateconf keeps the invariant |
| Preservation.ProposeKeepsValid | src/daclifycore.cpp:43-136 | propose keeps the invariant; a stored proposal has 1–7 actions and a sorted approval list |
| Preservation.SubmitKeepsValid | src/daclifycore.cpp:53-118 | the rest of propose keeps the invariant |
| Preservation.ApproveKeepsValid | src/daclifycore.cpp:147-168 | approve keeps the invariant |
| Preservation.UnapproveKeepsValid | src/daclifycore.cpp:188-212 | unapprove keeps the invariant |
| Preservation.CancelKeepsValid | src/daclifycore.cpp:225-245 | cancel keeps the invariant |
| Preservation.ExecKeepsValid | src/daclifycore.cpp:256-286 | exec keeps the invariant |
| Preservation.TruncHistoryKeepsValid | src/daclifycore.cpp:573-584 | trunchistory keeps archives contiguous |
| Preservation.InviteCustKeepsValid | src/daclifycore.cpp:295-335 | invitecust keeps `cust_count` equal to the table size modulo 256 |
| Preservation.RemoveCustKeepsValid | src/daclifycore.cpp:344-362 | removecust keeps `cust_count` equal to the table size modulo 256 |
| Preservation.ImAliveKeepsValid | src/daclifycore.cpp:371-384 | imalive keeps the invariant |
| Preservation.ISetCustsKeepsValid | src/daclifycore.cpp:391-449 | isetcusts keeps the invariant |
| Preservation.ManThresholdKeepsValid | src/daclifycore.cpp:509-512 | manthreshold keeps the links well formed and `"default"` present |
| Preservation.ManThreshLinKeepsValid | src/daclifycore.cpp:524-563 | manthreshlin keeps the links well formed |
| Preservation.InternalXfrKeepsValid | src/daclifycore.cpp:488-498 | internalxfr keeps the ledger keyed and member scopes positive |
| Preservation.RegMemberKeepsValid | src/daclifycore.cpp:593-609 | regmember keeps `member_count` equal to the table size modulo 2^64 |
| Preservation.UnregMemberKeepsValid | src/daclifycore.cpp:659-668 | unregmember keeps `member_count` equal to the table size modulo 2^64 |
| Preservation.OnTransferKeepsValid | src/daclifycore.cpp:958-999 | on_transfer keeps the invariant |
| Properties.ProposeGates | src/daclifycore.cpp:44-60 | a completed propose had an authorised, alive custodian proposer or self, 1–7 actions and none on (self, `propose`) |
| Properties.SubmitSends | src/daclifycore.cpp:72-78 | zero required threshold and execution on zero: the actions are sent in order and no proposal is stored |
| Properties.SubmitStores | src/daclifycore.cpp:80-106 | otherwise a completed propose stores a new proposal under an unused id, expiring at least 3600 s ahead, approvals `[proposer]` or empty for self, carrying the required threshold's name |
| Properties.SubmitOutcome | src/daclifycore.cpp:53-118 | the rest of propose completes only through one of those two paths |
| Properties.ProposeOutcome | src/daclifycore.cpp:43-118 | a completed propose sent its actions at once or stored exactly one new proposal |
| Properties.ApproveOutcome | src/daclifycore.cpp:147-168 | refused as a repeat iff the approver already approved; a completed approve stores sorted {approver} ∪ (old ∩ custodians), stamps the approver and touches no other proposal |
| Properties.UnapproveOutcome | src/daclifycore.cpp:188-212 | refused iff the caller is absent from the raw list; a completed unapprove stores sorted (old ∩ custodians) minus the caller |
| Properties.ApproveThenUnapprove | src/daclifycore.cpp:147-212 | an approval withdrawn straight away completes and leaves the earlier approvers still custodians |
| Properties.CloseOutcome | include/functions.cpp:380-423 | a completed close sends its effects first, removes the open proposal and appends it with its last actor when archiving is on |
| Properties.ExecOutcome | src/daclifycore.cpp:256-286 | a completed exec was before expiration with approved weight at least the named threshold, sends the actions first in stored order, and removes the proposal |
| Properties.CancelOutcome | src/daclifycore.cpp:225-245 | a completed cancel was authorised by self or the proposer, sends at most an eviction, and removes the proposal |
| Properties.CancelIsClose | src/daclifycore.cpp:232-243 | an authorised cancel of an open proposal is the archiving close under the cancelled scope, recording self or the canceler, sending nothing else |
| Properties.CloseSendsThenEvicts | include/functions.cpp:380-423 | a completed close sends exactly what it was given and then at most the scheduled eviction |
| Properties.CancelByGroupIgnoresCanceler | src/daclifycore.cpp:232-237 | with self's authority the canceler argument changes nothing |
| Properties.ActiveStepOutcome | include/functions.cpp:155-206 | a completed update_active stores the given custodians and count, changes only the thresholds besides, and sends the active authority |
| Properties.ImAliveOutcome | src/daclifycore.cpp:371-384 | a completed imalive had an authorised custodian caller and stamps its `last_active` with now; an alive caller sends nothing, an inactive one is followed by `update_active` over the stamped table and sends the active authority |
| Properties.InviteCustOutcome | src/daclifycore.cpp:295-335 | a completed invitecust adds exactly one fresh weight-1 row joined now and counts +1 |
| Properties.InviteFirstIsActive | src/daclifycore.cpp:316-324 | the first invitation, past its gates, is update_active over the table with the row stamped active |
| Properties.InviteLaterIsInsert | src/daclifycore.cpp:326-332 | a later invitation, past its gates, only files a default row and counts it, sending nothing |
| Properties.RemoveCustOutcome | src/daclifycore.cpp:344-362 | a completed removecust erases exactly that custodian, never empties the table, counts −1 and sends the new active authority |
| Properties.RemoveIsActive | src/daclifycore.cpp:352-357 | past its gates, removecust is update_active over the table without the account and the count one lower |
| Properties.RemoveAfterInsert | src/daclifycore.cpp:344-362 | removing a row just filed under a new key hands update_active exactly the table and count from before |
| Properties.InviteThenRemove | src/daclifycore.cpp:295-362 | removing a freshly invited later custodian hands update_active the earlier custodians and count, restored on completion |
| Properties.ElectionNeedsRoom | src/daclifycore.cpp:402-403 | with `max_custodians` 0, the default, isetcusts always aborts |
| Properties.ISetCustsOutcome | src/daclifycore.cpp:391-449 | a completed election had 1..max distinct names; the table is exactly those names, keeps existing rows, stamps newcomers now, and `cust_count` is the list length |
| Properties.TruncHistoryOutcome | src/daclifycore.cpp:573-584 | a completed trunchistory erases min(batch, size) lowest rows of the scope and leaves other scopes alone |
| Properties.DebitStepOutcome | include/functions.cpp:208-226 | a completed sub_balance lowers the scope's holding by the amount, other scopes untouched |
| Properties.UpdateConfOutcome | src/daclifycore.cpp:14-28 | updateconf completes iff self authorises; it stores the new configuration or, on remove, the defaults; it sends the owner `updateauth` exactly when the maintainer's actor or permission changes, and that authority is `OwnerAuthority` of the new maintainer |
| Properties.WidthdrawOutcome | src/daclifycore.cpp:462-476 | widthdraw completes iff the account authorises, withdrawals are on, the account is not the group and the amount is positive; the first failing guard names the error; it sends exactly the transfer to the account with the withdrawal memo |
| Properties.CreditStepOutcome | include/functions.cpp:229-247 | a completed add_balance raises the scope's holding by the amount, other scopes untouched |
| Properties.InternalXfrMoves | src/daclifycore.cpp:488-498 | a completed internalxfr moves a positive amount from sender to receiver, leaves the holding unchanged when sender and receiver coincide, and touches no other scope |
| Properties.RegDoneIsInsert | src/daclifycore.cpp:593-609 | a completed regmember was authorised by a non-member actor and filed a fresh record, counting it |
| Properties.UnregAfterInsert | src/daclifycore.cpp:659-668 | unregistering a just-filed member who holds no balance gives back the exact state from before |
| Properties.RegThenUnreg | src/daclifycore.cpp:593-668 | unregistering a freshly registered member who holds no balance completes and gives back the whole state from before the registration |
| Properties.CountBack64 | include/functions.cpp:46-52 | a `uint64` count up then down is the identity |
| Daclify.Core.constructor | include/functions.cpp:1-7 | a fresh contract holds the initial tables and is valid |
| Daclify.Core.IsCustodian | include/functions.cpp:67-85 | false for a non-custodian; aborts for a stale custodian when asked to check; stamps now when asked to update |
| Daclify.Core.WriteThreshold | include/functions.cpp:271-313 | writes exactly `UpsertOrDelete`'s table, or nothing with its error |
| Daclify.Core.UpdateActive | include/functions.cpp:155-206 | sends and stores exactly what `ActiveStep` gives |
| Daclify.Core.ArchiveProposal | include/functions.cpp:380-423 | the archive and open table after archiving, and the eviction it schedules |
| Daclify.Core.AddBalance | include/functions.cpp:229-247 | stores exactly `CreditStep`'s tables, or nothing with its error |
| Daclify.Core.SubBalance | include/functions.cpp:208-226 | stores exactly `DebitStep`'s tables, or nothing with its error |
| Daclify.Core.Activate | include/functions.cpp:155-206 | update_active with rollback to the saved tables |
| Daclify.Core.Close | src/daclifycore.cpp:239-243 | the archiving end of cancel and exec equals `CloseStep` |
| Daclify.Core.UpdateConf | src/daclifycore.cpp:14-28 | equals `UpdateConfStep` and keeps `Valid()` |
| Daclify.Core.Propose | src/daclifycore.cpp:43-136 | equals `ProposeStep` and keeps `Valid()` |
| Daclify.Core.Submit | src/daclifycore.cpp:53-118 | equals `SubmitStep` |
| Daclify.Core.Approve | src/daclifycore.cpp:147-168 | equals `ApproveStep` and keeps `Valid()` |
| Daclify.Core.RecordApproval | src/daclifycore.cpp:147-168 | the checks and writes of approve equal `ApproveStep`, without needing the invariant |
| Daclify.Core.Unapprove | src/daclifycore.cpp:188-212 | equals `UnapproveStep` and keeps `Valid()` |
| Daclify.Core.Cancel | src/daclifycore.cpp:225-245 | equals `CancelStep` and keeps `Valid()` |
| Daclify.Core.Exec | src/daclifycore.cpp:256-286 | equals `ExecStep` and keeps `Valid()` |
| Daclify.Core.TruncHistory | src/daclifycore.cpp:573-584 | equals `TruncHistoryStep` and keeps `Valid()` |
| Daclify.Core.InviteCust | src/daclifycore.cpp:295-335 | equals `InviteCustStep` and keeps `Valid()` |
| Daclify.Core.RemoveCust | src/daclifycore.cpp:344-362 | equals `RemoveCustStep` and keeps `Valid()` |
| Daclify.Core.EraseCustodian | src/daclifycore.cpp:347-360 | the erase, count and update_active of removecust equal `RemoveCustStep` |
| Daclify.Core.ImAlive | src/daclifycore.cpp:371-384 | equals `ImAliveStep` and keeps `Valid()` |
| Daclify.Core.ISetCusts | src/daclifycore.cpp:391-449 | equals `ISetCustsStep` and keeps `Valid()` |
| Daclify.Core.CollectElected | src/daclifycore.cpp:410-425 | the collect loop keeps existing rows and builds stamped new ones, in list order |
| Daclify.Core.Repopulate | src/daclifycore.cpp:427-438 | the clear and emplace loops fail exactly on a duplicate name and otherwise leave `ElectedTable` |
| Daclify.Core.ManThreshold | src/daclifycore.cpp:509-512 | equals `ManThresholdStep` and keeps `Valid()` |
| Daclify.Core.ManThreshLin | src/daclifycore.cpp:524-563 | equals `ManThreshLinStep` and keeps `Valid()` |
| Daclify.Core.Widthdraw | src/daclifycore.cpp:462-476 | equals `WidthdrawStep` |
| Daclify.Core.InternalXfr | src/daclifycore.cpp:488-498 | equals `InternalXfrStep` and keeps `Valid()` |
| Daclify.Core.RegMember | src/daclifycore.cpp:593-609 | equals `RegMemberStep` and keeps `Valid()` |
| Daclify.Core.UnregMember | src/daclifycore.cpp:659-668 | equals `UnregMemberStep` and keeps `Valid()` |
| Daclify.Core.OnTransfer | src/daclifycore.cpp:958-999 | equals `OnTransferStep` and keeps `Valid()` |

## Left out

- `hookmanager`: it reads another contract's table, and include/hookmanager.hpp is not part of this model. Every action's trailing hook call is omitted.
- Host intrinsics are inputs in `Env`: `require_auth`/`has_auth`, `is_account`, the clock, and the transaction fingerprint (`read_transaction`/`sha256`). `check_permission_authorization` is not modelled.
- Inline actions are effect values appended in order: proposal actions, `updateauth`, the hub `messagebus`, token `transfer` and the scheduled `trunchistory`. The text of the messagebus message is left out.
- eosio `name(string)` encoding: names are their 64-bit values, and the memo's account name is decoded by a parameter `nameOf`.
- Floating point: `floor(size * 0.8)` is the integer `(4 n) / 5`, which agrees for every `uint8` count. Nothing bounds the custodian count, and from 320 signers the floored value does not fit the `uint8` it is assigned to; that conversion is undefined in C++. `DefaultThreshold` takes its low 8 bits there (320 signers give 1 after the zero guard), so the model's `update_active` may complete where the compiled contract does something unspecified.
- The trivial CRUD actions and their tables are left out: avatars, profile data, `setuiframe`, `fileupload`/`filepublish`/`filedelete`, `signuserterm`, `clearbals`, `offchain` and `ipayroll`. `linkmodule`/`unlinkmodule` are also left out: the modules table is only an input that sets the elections module's account.
- `linkmodule`'s `check_permission_authorization` test of the module's permission is not modelled, since `linkmodule` is left out.
- `std::sort` in `update_owner_maintainance` compares actors only, so `self@active` and `self@eosio.code` always compare equal. The model's stable insertion keeps `self@active` first, which is also what libc++'s sort of 2 or 3 elements gives for this input. Another standard library may order the two entries differently.
- Daclify.Core.constructor: requires that the contract's account is neither `cancelled` nor `executed`, which deployment does not demand. On such an account `archive_proposal` opens the archive under the contract's own scope, which is the open-proposals table itself. The model keeps the archives and the open proposals apart and does not model that aliasing.
- Contract.InitialStateValid: requires the same, because `ValidState` assumes that the contract's own scope is neither archive scope. Nothing is proved for a contract deployed on `cancelled` or `executed`.
- `get_or_create` of the corestate and groupconf singletons on first read is not modelled as a write. Only the values read are.
- The tables are one record field `tables` of the class, rather than one multi_index object each. Scope and payer bookkeeping are not modelled.
