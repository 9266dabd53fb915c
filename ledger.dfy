/**
 * The internal ledger and membership: per-scope balances credited and debited by asset
 * type (add_balance, sub_balance), how an incoming or outgoing token transfer is routed to
 * a scope by its memo (on_transfer), and is_member.
 */
module Ledger {
  import opened Types

  /** One balances scope, by its (contract, symbol) key. */
  type BalanceTable = map<Uint128, BalanceRow>

  /** The key of a balance row for an asset type. */
  function AssetKey(value: ExtendedAsset): Uint128
  {
    ContrSym(value.contract, value.quantity.symbol)
  }

  /** Every row sits under the key of its own asset type. */
  predicate RowsKeyed(t: BalanceTable)
  {
    forall k :: k in t ==> k == AssetKey(t[k].balance)
  }

  /** Every row holds a positive amount, as in every scope other than the contract's own. */
  predicate RowsPositive(t: BalanceTable)
  {
    forall k :: k in t ==> t[k].balance.quantity.amount > 0
  }

  /** The amount a scope holds of an asset type, 0 without a row. */
  function Held(t: BalanceTable, key: Uint128): int
  {
    if key in t then t[key].balance.quantity.amount else 0
  }

  /** A row holding amount of the asset type of value, under id. */
  function WithAmount(row: BalanceRow, amount: Int64): BalanceRow
  {
    row.(balance := row.balance.(quantity := row.balance.quantity.(amount := amount)))
  }

  /** add_balance: create the row (under the id available_primary_key gives, nextId) or add to
      it; asset addition refuses a sum outside +-max_amount. */
  function Credit(t: BalanceTable, value: ExtendedAsset, nextId: Result<Uint64>): (r: Result<BalanceTable>)
    ensures r.Ok? ==> r.value.Keys == t.Keys + {AssetKey(value)}
    ensures r.Ok? ==> forall k :: k in t && k != AssetKey(value) ==> r.value[k] == t[k]
    ensures r.Ok? ==> Held(r.value, AssetKey(value)) == Held(t, AssetKey(value)) + value.quantity.amount
    ensures r.Ok? && AssetKey(value) !in t ==> nextId.Ok? && r.value[AssetKey(value)] == BalanceRow(nextId.value, value)
    ensures AssetKey(value) !in t ==> (r.Err? <==> nextId.Err?)
    ensures AssetKey(value) in t ==>
      (r.Err? <==> !(-MAX_AMOUNT <= Held(t, AssetKey(value)) + value.quantity.amount <= MAX_AMOUNT))
  {
    var key := AssetKey(value);
    if key !in t then
      match nextId
      case Err(e) => Err(e)
      case Ok(id) => Ok(t[key := BalanceRow(id, value)])
    else
      var sum := t[key].balance.quantity.amount + value.quantity.amount;
      if sum < -MAX_AMOUNT then Err(AdditionUnderflow)
      else if sum > MAX_AMOUNT then Err(AdditionOverflow)
      else Ok(t[key := WithAmount(t[key], sum)])
  }

  /** sub_balance: the row must exist and cover value. A scope other than the contract's own
      (keepZeroRow false) loses a row that reaches exactly zero; the contract's own keeps it. */
  function Debit(t: BalanceTable, value: ExtendedAsset, keepZeroRow: bool): (r: Result<BalanceTable>)
    ensures AssetKey(value) !in t ==> r == Err(BalanceMissing)
    ensures AssetKey(value) in t && Held(t, AssetKey(value)) < value.quantity.amount ==> r == Err(Overdrawn)
    ensures r.Ok? ==> forall k :: k != AssetKey(value) ==> (k in r.value <==> k in t) && (k in t ==> r.value[k] == t[k])
    ensures r.Ok? ==> Held(r.value, AssetKey(value)) == Held(t, AssetKey(value)) - value.quantity.amount
    ensures r.Ok? ==> Held(r.value, AssetKey(value)) >= 0
    ensures r.Ok? && !keepZeroRow && Held(t, AssetKey(value)) == value.quantity.amount ==> AssetKey(value) !in r.value
    ensures r.Ok? && (keepZeroRow || Held(t, AssetKey(value)) != value.quantity.amount) ==>
      AssetKey(value) in r.value && r.value[AssetKey(value)].id == t[AssetKey(value)].id
    ensures (value.quantity.amount > 0 && AssetKey(value) in t
      && value.quantity.amount <= Held(t, AssetKey(value)) <= MAX_AMOUNT) ==> r.Ok?
  {
    var key := AssetKey(value);
    if key !in t then Err(BalanceMissing)
    else
      var held := t[key].balance.quantity.amount;
      if held < value.quantity.amount then Err(Overdrawn)
      else if !keepZeroRow && held == value.quantity.amount then Ok(t - {key})
      else if held - value.quantity.amount > MAX_AMOUNT then Err(SubtractionOverflow)
      else Ok(t[key := WithAmount(t[key], held - value.quantity.amount)])
  }

  /** Crediting and debiting keep a scope keyed by asset type. */
  lemma CreditDebitKeepKeyed(t: BalanceTable, value: ExtendedAsset, nextId: Result<Uint64>, keepZeroRow: bool)
    requires RowsKeyed(t)
    ensures Credit(t, value, nextId).Ok? ==> RowsKeyed(Credit(t, value, nextId).value)
    ensures Debit(t, value, keepZeroRow).Ok? ==> RowsKeyed(Debit(t, value, keepZeroRow).value)
  {
  }

  /** In a scope other than the contract's own, positive credits and debits keep every row
      positive: an emptied row is erased. */
  lemma MemberScopeStaysPositive(t: BalanceTable, value: ExtendedAsset, nextId: Result<Uint64>)
    requires RowsPositive(t) && value.quantity.amount > 0
    ensures Credit(t, value, nextId).Ok? ==> RowsPositive(Credit(t, value, nextId).value)
    ensures Debit(t, value, false).Ok? ==> RowsPositive(Debit(t, value, false).value)
  {
    var key := AssetKey(value);
    if Debit(t, value, false).Ok? {
      var t' := Debit(t, value, false).value;
      forall k | k in t' ensures t'[k].balance.quantity.amount > 0 {
        if k == key {
          assert Held(t, key) != value.quantity.amount;
          assert Held(t', key) == t'[k].balance.quantity.amount;
        }
      }
    }
  }

  /** Debiting what was just credited restores a member scope exactly. */
  lemma CreditThenDebit(t: BalanceTable, value: ExtendedAsset, nextId: Result<Uint64>)
    requires RowsKeyed(t) && RowsPositive(t) && value.quantity.amount > 0
    requires Credit(t, value, nextId).Ok?
    ensures Debit(Credit(t, value, nextId).value, value, false) == Ok(t)
  {
    var key := AssetKey(value);
    var t' := Credit(t, value, nextId).value;
    var t'' := Debit(t', value, false).value;
    if key in t {
      var held := t[key].balance.quantity.amount;
      assert t' == t[key := WithAmount(t[key], held + value.quantity.amount)];
      assert t'' == t'[key := WithAmount(t'[key], held)];
      assert WithAmount(WithAmount(t[key], held + value.quantity.amount), held) == t[key];
      assert t'' == t;
    } else {
      assert t' == t[key := BalanceRow(nextId.value, value)];
      assert t'' == t' - {key};
      assert t' - {key} == t;
    }
  }

  /** In the contract's own scope a row is never erased: debiting a credit restores the
      amount and keeps the row. */
  lemma SelfCreditThenDebit(t: BalanceTable, value: ExtendedAsset, nextId: Result<Uint64>)
    requires RowsKeyed(t) && value.quantity.amount > 0 && Held(t, AssetKey(value)) >= 0
    requires Credit(t, value, nextId).Ok?
    ensures Debit(Credit(t, value, nextId).value, value, true).Ok?
    ensures var t'' := Debit(Credit(t, value, nextId).value, value, true).value;
      t''.Keys == t.Keys + {AssetKey(value)} && Held(t'', AssetKey(value)) == Held(t, AssetKey(value))
  {
    var key := AssetKey(value);
    var t' := Credit(t, value, nextId).value;
    var held := Held(t, key);
    assert Held(t', key) == held + value.quantity.amount;
    assert key in t ==> held + value.quantity.amount <= MAX_AMOUNT;
    assert Debit(t', value, true) == Ok(t'[key := WithAmount(t'[key], held)]);
  }

  // ---------------------------------------------------------------------
  // Membership (is_member)
  // ---------------------------------------------------------------------

  /** is_member: the empty name never is, the contract itself always is, anyone else when
      registered. */
  predicate IsMember(self: Name, members: set<Name>, n: Name)
  {
    if n == 0 then false
    else if n == self then true
    else n in members
  }

  // ---------------------------------------------------------------------
  // Memo routing (on_transfer)
  // ---------------------------------------------------------------------

  /** The memo that sends an incoming transfer to a member's balance (21 characters). */
  const DEPOSIT_PREFIX: string := "add to user account: "

  /** The memo prefix that takes an outgoing transfer from a member's balance (26 characters),
      and the memo widthdraw sends. */
  const WITHDRAW_PREFIX: string := "withdraw from user account"

  /** memo.substr(0, |prefix|) == prefix. */
  predicate HasPrefix(memo: string, prefix: string)
  {
    |memo| >= |prefix| && memo[..|prefix|] == prefix
  }

  /** The account text of a deposit memo: up to 12 characters after the prefix, and the
      empty string when nothing follows it. */
  function MemoAccount(memo: string): (s: string)
    ensures |s| <= 12
    ensures |memo| <= 21 ==> s == []
    ensures |memo| > 21 ==> (|s| == (if |memo| >= 33 then 12 else |memo| - 21) && s == memo[21..21 + |s|])
  {
    if |memo| >= 22 then memo[21..if |memo| < 33 then |memo| else 33] else ""
  }

  /** A deposit memo names the account written after the prefix, cut to 12 characters. */
  lemma DepositMemoAccount(account: string)
    ensures HasPrefix(DEPOSIT_PREFIX + account, DEPOSIT_PREFIX)
    ensures MemoAccount(DEPOSIT_PREFIX + account) == account[..if |account| < 12 then |account| else 12]
  {
    var memo := DEPOSIT_PREFIX + account;
    assert memo[..21] == DEPOSIT_PREFIX;
    assert memo[21..] == account;
  }

  /** Where a transfer notification takes effect. */
  datatype Route = CreditScope(scope: Name) | DebitScope(scope: Name) | Untouched

  /** on_transfer's routing. nameOf is eosio's name(string) on the memo's account text
      (None when it rejects the text); the empty text is the empty name. */
  function TransferRoute(self: Name, members: set<Name>, deposits: bool, nameOf: string -> Option<Name>,
                         from: Name, to: Name, amount: Int64, memo: string): (r: Result<Route>)
    ensures amount <= 0 || to == from ==> r.Err?
    // incoming: a deposit memo credits the named member, any other memo the contract
    ensures amount > 0 && to != from && to == self && !HasPrefix(memo, DEPOSIT_PREFIX) ==> r == Ok(CreditScope(self))
    ensures amount > 0 && to != from && to == self && HasPrefix(memo, DEPOSIT_PREFIX) ==>
      (r.Ok? <==> deposits && AccountName(nameOf, MemoAccount(memo)).Some?
                  && IsMember(self, members, AccountName(nameOf, MemoAccount(memo)).value))
    ensures to == self && r.Ok? && HasPrefix(memo, DEPOSIT_PREFIX) ==>
      r.value == CreditScope(AccountName(nameOf, MemoAccount(memo)).value)
    // outgoing: a withdrawal memo debits the receiving member, any other memo the contract
    ensures amount > 0 && to != from && from == self && !HasPrefix(memo, WITHDRAW_PREFIX) ==> r == Ok(DebitScope(self))
    ensures amount > 0 && to != from && from == self && HasPrefix(memo, WITHDRAW_PREFIX) ==>
      r == if IsMember(self, members, to) then Ok(DebitScope(to)) else Err(NotMember)
    // a credit never lands on a non-member's scope
    ensures r.Ok? && r.value.CreditScope? && r.value.scope != self ==> IsMember(self, members, r.value.scope)
    ensures amount > 0 && to != from && to != self && from != self ==> r == Ok(Untouched)
  {
    if amount <= 0 then Err(NonPositiveAmount)
    else if to == from then Err(InvalidTransfer)
    else if to == self then
      if HasPrefix(memo, DEPOSIT_PREFIX) then
        if !deposits then Err(DepositsDisabled)
        else match AccountName(nameOf, MemoAccount(memo))
          case None => Err(InvalidName)
          case Some(n) => if IsMember(self, members, n) then Ok(CreditScope(n)) else Err(MemoNotMember)
      else Ok(CreditScope(self))
    else if from == self then
      if HasPrefix(memo, WITHDRAW_PREFIX) then
        if IsMember(self, members, to) then Ok(DebitScope(to)) else Err(NotMember)
      else Ok(DebitScope(self))
    else Ok(Untouched)
  }

  /** name(string) on the memo's account text: the empty text is name 0. */
  function AccountName(nameOf: string -> Option<Name>, text: string): Option<Name>
  {
    if text == "" then Some(0) else nameOf(text)
  }

  /** A deposit memo without an account refuses the transfer: the empty name is not a member. */
  lemma BareDepositMemoRefused(self: Name, members: set<Name>, nameOf: string -> Option<Name>, from: Name, amount: Int64, memo: string)
    requires amount > 0 && from != self && HasPrefix(memo, DEPOSIT_PREFIX) && |memo| == 21
    ensures TransferRoute(self, members, true, nameOf, from, self, amount, memo) == Err(MemoNotMember)
  {
  }

  /** The transfer widthdraw sends comes back as a notification that debits the member who
      withdrew. */
  lemma WithdrawalDebitsMember(self: Name, members: set<Name>, deposits: bool, nameOf: string -> Option<Name>, account: Name, amount: Int64)
    requires amount > 0 && account != self && IsMember(self, members, account)
    ensures TransferRoute(self, members, deposits, nameOf, self, account, amount, WITHDRAW_PREFIX) == Ok(DebitScope(account))
  {
  }
}
