/**
 * Custodian liveness and the two authorities the contract keeps in sync with its
 * custodians: the "active" permission of the governed account (update_active) and its
 * "owner" permission (update_owner_maintainance).
 */
module Custodians {
  import opened Types
  import opened Tables

  /** The custodians table, by account. */
  type CustodianTable = map<Name, Custodian>

  const TWO_TO_THE_32: int := 0x1_0000_0000

  // ---------------------------------------------------------------------
  // Liveness (is_account_alive)
  // ---------------------------------------------------------------------

  /** is_account_alive. Without an inactivity window, a custodian is alive once it has ever
      been stamped; with a window, alive while the 32-bit elapsed time is below it. */
  function IsAccountAlive(window: Uint32, now: TimeSec, lastActive: TimeSec): (alive: bool)
    ensures window == 0 ==> (alive <==> lastActive != 0)
    ensures window != 0 && lastActive <= now ==> (alive <==> now - lastActive < window)
    // the "never active" sentinel counts as alive during the first window seconds of the epoch
    ensures window != 0 && lastActive == 0 ==> (alive <==> now < window)
    // a custodian stamped now is alive, except at time 0 without a window
    ensures lastActive == now ==> (alive <==> window != 0 || now != 0)
  {
    var dead :=
      if window != 0 then (now - lastActive) % TWO_TO_THE_32 >= window
      else lastActive == 0;
    !dead
  }

  // ---------------------------------------------------------------------
  // The active authority (update_active)
  // ---------------------------------------------------------------------

  /** The authority entry of one custodian: its account at its authority, weight 1. */
  function Entry(c: Custodian): (e: PermissionLevelWeight)
    ensures e.permission.actor == c.account && e.permission.permission == c.authority
    ensures e.weight == 1
  {
    PermissionLevelWeight(PermissionLevel(c.account, c.authority), 1)
  }

  /** The entries, in table order, of the custodians whose liveness is alive. */
  function Entries(cs: seq<Custodian>, window: Uint32, now: TimeSec, alive: bool): seq<PermissionLevelWeight>
  {
    if cs == [] then []
    else
      var last := cs[|cs| - 1];
      Entries(cs[..|cs| - 1], window, now, alive)
        + (if IsAccountAlive(window, now, last.lastActive) == alive then [Entry(last)] else [])
  }

  /** The custodians, in table order, are listed by strictly ascending account. */
  predicate AccountsAscending(cs: seq<Custodian>)
  {
    forall i, j :: 0 <= i < j < |cs| ==> cs[i].account < cs[j].account
  }

  /** Entries with strictly ascending actors, as eosio requires of an authority. */
  predicate ActorsAscending(es: seq<PermissionLevelWeight>)
  {
    forall i, j :: 0 <= i < j < |es| ==> es[i].permission.actor < es[j].permission.actor
  }

  /** Exactly the custodians of the given liveness are listed. */
  lemma {:induction false} EntriesMembers(cs: seq<Custodian>, window: Uint32, now: TimeSec, alive: bool)
    ensures forall e :: e in Entries(cs, window, now, alive) <==>
      exists i :: 0 <= i < |cs| && e == Entry(cs[i]) && IsAccountAlive(window, now, cs[i].lastActive) == alive
  {
    if cs != [] {
      var init := cs[..|cs| - 1];
      EntriesMembers(init, window, now, alive);
      var pre := Entries(init, window, now, alive);
      forall e ensures e in Entries(cs, window, now, alive) <==>
        exists i :: 0 <= i < |cs| && e == Entry(cs[i]) && IsAccountAlive(window, now, cs[i].lastActive) == alive
      {
        if e in pre {
          var i :| 0 <= i < |init| && e == Entry(init[i]) && IsAccountAlive(window, now, init[i].lastActive) == alive;
          assert cs[i] == init[i];
        }
        if exists i :: 0 <= i < |cs| && e == Entry(cs[i]) && IsAccountAlive(window, now, cs[i].lastActive) == alive {
          var i :| 0 <= i < |cs| && e == Entry(cs[i]) && IsAccountAlive(window, now, cs[i].lastActive) == alive;
          if i < |init| {
            assert init[i] == cs[i];
          }
        }
      }
    }
  }

  /** The alive and the inactive lists together have one entry per custodian. */
  lemma {:induction false} EntriesCount(cs: seq<Custodian>, window: Uint32, now: TimeSec)
    ensures |Entries(cs, window, now, true)| + |Entries(cs, window, now, false)| == |cs|
  {
    if cs != [] {
      EntriesCount(cs[..|cs| - 1], window, now);
    }
  }

  /** Custodians in ascending account order yield entries in strictly ascending actor order. */
  lemma {:induction false} EntriesAscending(cs: seq<Custodian>, window: Uint32, now: TimeSec, alive: bool)
    requires AccountsAscending(cs)
    ensures ActorsAscending(Entries(cs, window, now, alive))
  {
    if cs != [] {
      var init, last := cs[..|cs| - 1], cs[|cs| - 1];
      assert AccountsAscending(init) by {
        forall i, j | 0 <= i < j < |init| ensures init[i].account < init[j].account {
          assert init[i] == cs[i] && init[j] == cs[j];
        }
      }
      EntriesAscending(init, window, now, alive);
      EntriesMembers(init, window, now, alive);
      var pre := Entries(init, window, now, alive);
      forall k | 0 <= k < |pre| ensures pre[k].permission.actor < last.account {
        assert pre[k] in pre;
        var i :| 0 <= i < |init| && pre[k] == Entry(init[i]) && IsAccountAlive(window, now, init[i].lastActive) == alive;
        assert init[i] == cs[i];
      }
    }
  }

  /** update_active's authority: the alive custodians, or all of them when none is alive;
      weight 1 each, threshold the entry count. */
  function ActiveAuthority(cs: seq<Custodian>, window: Uint32, now: TimeSec): (a: Authority)
    ensures a.keys == [] && a.waits == []
    ensures a.threshold == |a.accounts| % TWO_TO_THE_32
    ensures Entries(cs, window, now, true) != [] ==> a.accounts == Entries(cs, window, now, true)
    ensures Entries(cs, window, now, true) == [] ==> a.accounts == Entries(cs, window, now, false)
  {
    var alive := Entries(cs, window, now, true);
    var chosen := if |alive| == 0 then Entries(cs, window, now, false) else alive;
    Authority(|chosen| % TWO_TO_THE_32, [], chosen, [])
  }

  /** Whether a custodian signs for the active permission: it is alive, or nobody is. */
  ghost predicate Signs(cs: seq<Custodian>, window: Uint32, now: TimeSec, c: Custodian)
  {
    IsAccountAlive(window, now, c.lastActive)
    || forall i :: 0 <= i < |cs| ==> !IsAccountAlive(window, now, cs[i].lastActive)
  }

  /** Nobody is alive exactly when the alive list is empty. */
  lemma NoneAliveIff(cs: seq<Custodian>, window: Uint32, now: TimeSec)
    ensures Entries(cs, window, now, true) == [] <==>
      forall i :: 0 <= i < |cs| ==> !IsAccountAlive(window, now, cs[i].lastActive)
  {
    EntriesMembers(cs, window, now, true);
    forall i | 0 <= i < |cs| && IsAccountAlive(window, now, cs[i].lastActive)
      ensures Entry(cs[i]) in Entries(cs, window, now, true)
    {
    }
    assert Entries(cs, window, now, true) != [] ==> Entries(cs, window, now, true)[0] in Entries(cs, window, now, true);
  }

  /** The active authority lists exactly the signing custodians, each once, in ascending
      account order. */
  lemma ActiveAuthorityChosen(cs: seq<Custodian>, window: Uint32, now: TimeSec)
    requires AccountsAscending(cs)
    ensures forall e :: e in ActiveAuthority(cs, window, now).accounts <==>
      exists i :: 0 <= i < |cs| && e == Entry(cs[i]) && Signs(cs, window, now, cs[i])
    ensures ActorsAscending(ActiveAuthority(cs, window, now).accounts)
  {
    EntriesMembers(cs, window, now, true);
    EntriesMembers(cs, window, now, false);
    EntriesAscending(cs, window, now, true);
    EntriesAscending(cs, window, now, false);
    NoneAliveIff(cs, window, now);
  }

  /** The active authority weighs each signer 1, needs all of them, and is empty only for an
      empty table. */
  lemma ActiveAuthorityShape(cs: seq<Custodian>, window: Uint32, now: TimeSec)
    ensures forall e :: e in ActiveAuthority(cs, window, now).accounts ==> e.weight == 1
    ensures ActiveAuthority(cs, window, now).accounts == [] <==> cs == []
    ensures |cs| < TWO_TO_THE_32 ==> ActiveAuthority(cs, window, now).threshold == |ActiveAuthority(cs, window, now).accounts|
  {
    EntriesMembers(cs, window, now, true);
    EntriesMembers(cs, window, now, false);
    EntriesCount(cs, window, now);
  }

  /** update_active's loop: one pass over the custodians in table order, splitting their
      entries into the alive and the inactive list. */
  method PartitionCustodians(cs: seq<Custodian>, window: Uint32, now: TimeSec)
    returns (alive: seq<PermissionLevelWeight>, inactive: seq<PermissionLevelWeight>)
    ensures alive == Entries(cs, window, now, true)
    ensures inactive == Entries(cs, window, now, false)
  {
    alive, inactive := [], [];
    var i := 0;
    while i < |cs|
      invariant 0 <= i <= |cs|
      invariant alive == Entries(cs[..i], window, now, true)
      invariant inactive == Entries(cs[..i], window, now, false)
    {
      assert cs[..i + 1][..i] == cs[..i];
      var e := PermissionLevelWeight(PermissionLevel(cs[i].account, cs[i].authority), 1);
      if IsAccountAlive(window, now, cs[i].lastActive) {
        alive := alive + [e];
      } else {
        inactive := inactive + [e];
      }
      i := i + 1;
    }
    assert cs[..|cs|] == cs;
  }

  /** The "default" threshold update_active derives from the number of signers n:
      1 for one, 2 for up to three (and for none), otherwise 80% rounded down, read back
      through a uint8. */
  function DefaultThreshold(n: nat): (t: Uint8)
    ensures 1 <= n <= 255 ==> 1 <= t <= n && 2 * t > n
    ensures 4 <= n <= 255 ==> t == 4 * n / 5
    ensures n == 0 ==> t == 2
    ensures t != 0
  {
    if n == 1 then 1
    else if n <= 3 then 2
    else
      var floored := (4 * n / 5) % 0x100;
      if floored == 0 then 1 else floored
  }

  /** The uint8 default threshold travels to the threshold update as int8: below 160 signers
      it arrives unchanged and positive; from 160 to 255 it arrives below -1, which the
      update refuses. */
  lemma DefaultThresholdAsInt8(n: nat)
    requires n <= 255
    ensures n < 160 ==> Int8Of(DefaultThreshold(n)) == DefaultThreshold(n) > 0
    ensures 160 <= n ==> Int8Of(DefaultThreshold(n)) < -1
  {
  }

  /** update_active's authority and "default" value, computed by its loop. */
  method ComputeActiveAuthority(cs: seq<Custodian>, window: Uint32, now: TimeSec)
    returns (a: Authority, defaultThreshold: Uint8)
    ensures a == ActiveAuthority(cs, window, now)
    ensures defaultThreshold == DefaultThreshold(|a.accounts|)
  {
    var alive, inactive := PartitionCustodians(cs, window, now);
    var accounts := if |alive| == 0 then inactive else alive;
    a := Authority(|accounts| % TWO_TO_THE_32, [], accounts, []);
    defaultThreshold := DefaultThreshold(|accounts|);
  }

  // ---------------------------------------------------------------------
  // The owner authority (update_owner_maintainance)
  // ---------------------------------------------------------------------

  /** Every entry's actor is at least x. */
  predicate ActorsAtLeast(x: Name, s: seq<PermissionLevelWeight>)
  {
    forall k :: 0 <= k < |s| ==> x <= s[k].permission.actor
  }

  lemma SortedByActorSplit(s: seq<PermissionLevelWeight>)
    requires SortedByActor(s) && s != []
    ensures SortedByActor(s[1..]) && ActorsAtLeast(s[0].permission.actor, s[1..])
  {
    var t := s[1..];
    forall i, j | 0 <= i < j < |t| ensures !ActorLess(t[j], t[i]) {
      assert t[i] == s[i + 1] && t[j] == s[j + 1];
    }
    forall k | 0 <= k < |t| ensures s[0].permission.actor <= t[k].permission.actor {
      assert t[k] == s[k + 1];
    }
  }

  lemma SortedByActorCons(e: PermissionLevelWeight, t: seq<PermissionLevelWeight>)
    requires SortedByActor(t) && ActorsAtLeast(e.permission.actor, t)
    ensures SortedByActor([e] + t)
  {
    var r := [e] + t;
    forall i, j | 0 <= i < j < |r| ensures !ActorLess(r[j], r[i]) {
      assert r[j] == t[j - 1];
      if i > 0 {
        assert r[i] == t[i - 1];
      }
    }
  }

  /** One insertion step: e goes in front of the first entry whose actor is not below it. */
  function InsertByActor(e: PermissionLevelWeight, s: seq<PermissionLevelWeight>): (r: seq<PermissionLevelWeight>)
    ensures multiset(r) == multiset(s) + multiset{e}
    ensures |r| == |s| + 1
  {
    if s == [] || !ActorLess(s[0], e) then [e] + s
    else
      assert s == [s[0]] + s[1..];
      [s[0]] + InsertByActor(e, s[1..])
  }

  lemma {:induction false} InsertByActorSorted(e: PermissionLevelWeight, s: seq<PermissionLevelWeight>, x: Name)
    requires SortedByActor(s)
    ensures SortedByActor(InsertByActor(e, s))
    ensures ActorsAtLeast(x, s) && x <= e.permission.actor ==> ActorsAtLeast(x, InsertByActor(e, s))
  {
    if s == [] {
    } else if !ActorLess(s[0], e) {
      SortedByActorSplit(s);
      SortedByActorCons(e, s);
    } else {
      SortedByActorSplit(s);
      InsertByActorSorted(e, s[1..], s[0].permission.actor);
      SortedByActorCons(s[0], InsertByActor(e, s[1..]));
      if ActorsAtLeast(x, s) && x <= e.permission.actor {
        InsertByActorSorted(e, s[1..], x);
        assert s[0] == s[0..1][0];
      }
    }
  }

  /** std::sort with sort_authorization_by_name. The comparator looks at the actor only, so the
      order among entries of one actor is unspecified; this insertion sort keeps it. */
  function SortByActor(s: seq<PermissionLevelWeight>): (r: seq<PermissionLevelWeight>)
    ensures SortedByActor(r)
    ensures multiset(r) == multiset(s)
  {
    if s == [] then []
    else
      var rest := SortByActor(s[1..]);
      InsertByActorSorted(s[0], rest, 0);
      assert s == [s[0]] + s[1..];
      InsertByActor(s[0], rest)
  }

  /** The owner entries before sorting: the maintainer (when it names an existing account),
      then self at "active" and self at "eosio.code", each with weight 1. */
  function OwnerEntries(self: Name, maintainer: PermissionLevel, maintainerExists: bool): seq<PermissionLevelWeight>
  {
    (if maintainer.actor != 0 && maintainerExists then [PermissionLevelWeight(maintainer, 1)] else [])
      + [PermissionLevelWeight(PermissionLevel(self, ACTIVE), 1), PermissionLevelWeight(PermissionLevel(self, EOSIO_CODE), 1)]
  }

  /** update_owner_maintainance's authority: threshold 1, and ordered by actor, the entries
      self@active, self@eosio.code and, when it is a non-empty existing account, the maintainer. */
  function OwnerAuthority(self: Name, maintainer: PermissionLevel, maintainerExists: bool): (a: Authority)
    ensures a.threshold == 1 && a.keys == [] && a.waits == []
    ensures SortedByActor(a.accounts)
    ensures multiset(a.accounts) == multiset(OwnerEntries(self, maintainer, maintainerExists))
    ensures PermissionLevelWeight(PermissionLevel(self, ACTIVE), 1) in a.accounts
    ensures PermissionLevelWeight(PermissionLevel(self, EOSIO_CODE), 1) in a.accounts
    ensures (PermissionLevelWeight(maintainer, 1) in a.accounts && maintainer.actor != self)
      <==> (maintainer.actor != 0 && maintainerExists && maintainer.actor != self)
    ensures |a.accounts| == if maintainer.actor != 0 && maintainerExists then 3 else 2
    ensures forall e :: e in a.accounts ==> e.weight == 1
  {
    var entries := OwnerEntries(self, maintainer, maintainerExists);
    var sorted := SortByActor(entries);
    OwnerEntriesShape(self, maintainer, maintainerExists);
    SameElements(sorted, entries);
    Authority(1, [], sorted, [])
  }

  /** The unsorted owner entries: both entries of self, the maintainer exactly when it is a
      non-empty existing account, all of weight 1. */
  lemma OwnerEntriesShape(self: Name, maintainer: PermissionLevel, maintainerExists: bool)
    ensures var es := OwnerEntries(self, maintainer, maintainerExists);
      PermissionLevelWeight(PermissionLevel(self, ACTIVE), 1) in es
      && PermissionLevelWeight(PermissionLevel(self, EOSIO_CODE), 1) in es
      && ((PermissionLevelWeight(maintainer, 1) in es && maintainer.actor != self)
          <==> (maintainer.actor != 0 && maintainerExists && maintainer.actor != self))
      && |es| == (if maintainer.actor != 0 && maintainerExists then 3 else 2)
      && forall e :: e in es ==> e.weight == 1
  {
  }

  /** Two lists holding the same multiset have the same length and the same elements. */
  lemma SameElements(a: seq<PermissionLevelWeight>, b: seq<PermissionLevelWeight>)
    requires multiset(a) == multiset(b)
    ensures |a| == |b|
    ensures forall e :: e in a <==> e in b
  {
    assert |a| == |multiset(a)| == |multiset(b)| == |b|;
    assert forall e :: e in a <==> e in multiset(a);
    assert forall e :: e in b <==> e in multiset(b);
  }

  // ---------------------------------------------------------------------
  // The custodians table as the actions see it
  // ---------------------------------------------------------------------

  /** Every row is filed under its own account. */
  predicate Keyed(cs: CustodianTable)
  {
    forall a :: a in cs ==> cs[a].account == a
  }

  /** The table as every action leaves it: filed by account, each row of weight 1, and
      counted by the uint8 cust_count. */
  predicate CustodianRows(cs: CustodianTable, count: Uint8)
  {
    Keyed(cs) && (forall a :: a in cs ==> cs[a].weight == 1) && count == |cs| % 0x100
  }

  /** The rows of the table in ascending account order, as update_active's iterator visits them. */
  ghost function TableOrder(cs: CustodianTable): (rows: seq<Custodian>)
    ensures |rows| == |cs|
  {
    var ks := Ascending(cs.Keys);
    seq(|ks|, i requires 0 <= i < |ks| => cs[ks[i]])
  }

  /** The i-th row of the iteration is the row filed under the i-th smallest account. */
  lemma TableOrderAt(cs: CustodianTable, i: int)
    requires Keyed(cs) && 0 <= i < |cs|
    ensures TableOrder(cs)[i] == cs[Ascending(cs.Keys)[i]]
    ensures TableOrder(cs)[i].account == Ascending(cs.Keys)[i]
  {
    assert Ascending(cs.Keys)[i] in cs.Keys;
  }

  /** On a keyed table the iteration lists every row exactly once, by strictly ascending account. */
  lemma TableOrderAscending(cs: CustodianTable)
    requires Keyed(cs)
    ensures AccountsAscending(TableOrder(cs))
    ensures forall c :: c in TableOrder(cs) <==> c.account in cs && cs[c.account] == c
  {
    var ks := Ascending(cs.Keys);
    var rows := TableOrder(cs);
    forall i, j | 0 <= i < j < |rows| ensures rows[i].account < rows[j].account {
      TableOrderAt(cs, i);
      TableOrderAt(cs, j);
    }
    forall c: Custodian | c in rows ensures c.account in cs && cs[c.account] == c {
      var i :| 0 <= i < |rows| && rows[i] == c;
      TableOrderAt(cs, i);
    }
    forall c: Custodian | c.account in cs && cs[c.account] == c ensures c in rows {
      var i :| 0 <= i < |ks| && ks[i] == c.account;
      TableOrderAt(cs, i);
    }
  }

  /** update_custodian_last_active, and is_custodian's stamp: the account's last_active
      becomes now and nothing else changes. */
  function Stamp(cs: CustodianTable, account: Name, now: TimeSec): (r: CustodianTable)
    requires account in cs
    ensures r.Keys == cs.Keys && |r| == |cs|
    ensures forall a :: a in cs && a != account ==> r[a] == cs[a]
    ensures r[account].lastActive == now && r[account].(lastActive := cs[account].lastActive) == cs[account]
  {
    cs[account := cs[account].(lastActive := now)]
  }

  /** The row isetcusts elects a candidate with: an existing custodian keeps its whole
      record, a newcomer gets the member initialisers (joined now) and last_active now. */
  function ElectedRow(cs: CustodianTable, a: Name, now: TimeSec): (c: Custodian)
    ensures a in cs ==> c == cs[a]
    ensures a !in cs ==> (c.account == a && c.authority == ACTIVE && c.weight == 1
                          && c.joined == now && c.lastActive == now)
  {
    if a in cs then cs[a] else NewCustodian(a, now).(lastActive := now)
  }

  /** No name occurs twice. */
  predicate Distinct(s: seq<Name>)
  {
    forall i, j :: 0 <= i < j < |s| ==> s[i] != s[j]
  }

  /** The table isetcusts leaves: one elected row per candidate. */
  ghost function ElectedTable(cs: CustodianTable, accounts: seq<Name>, now: TimeSec): CustodianTable
  {
    map a | a in accounts :: ElectedRow(cs, a, now)
  }

  /** An election keeps every row filed under its account with weight 1, holds exactly the
      candidates, and re-elected custodians keep their last_active (so an inactive one stays
      inactive). */
  lemma ElectedTableShape(cs: CustodianTable, accounts: seq<Name>, now: TimeSec)
    requires Keyed(cs) && forall a :: a in cs ==> cs[a].weight == 1
    ensures var r := ElectedTable(cs, accounts, now);
      Keyed(r) && (forall a :: a in r ==> r[a].weight == 1)
      && (forall a :: a in r <==> a in accounts)
      && (forall a :: a in r && a in cs ==> r[a] == cs[a])
      && (forall a :: a in r && a !in cs ==> r[a].lastActive == now)
  {
  }

  /** The elected row of a candidate is filed under the candidate. */
  lemma ElectedAccount(cs: CustodianTable, a: Name, now: TimeSec)
    requires Keyed(cs)
    ensures ElectedRow(cs, a, now).account == a
  {
  }

  /** Electing one more candidate adds that candidate's row. */
  lemma ElectedTableSnoc(cs: CustodianTable, accounts: seq<Name>, j: nat, now: TimeSec)
    requires j < |accounts|
    ensures ElectedTable(cs, accounts[..j + 1], now) == ElectedTable(cs, accounts[..j], now)[accounts[j] := ElectedRow(cs, accounts[j], now)]
  {
    assert accounts[..j + 1] == accounts[..j] + [accounts[j]];
  }

  /** A prefix without repeats grows without repeats by a name it does not hold; a name it
      holds repeats in the whole list. */
  lemma DistinctPrefix(accounts: seq<Name>, j: nat)
    requires j < |accounts| && Distinct(accounts[..j])
    ensures accounts[j] in accounts[..j] ==> !Distinct(accounts)
    ensures accounts[j] !in accounts[..j] ==> Distinct(accounts[..j + 1])
  {
    if accounts[j] in accounts[..j] {
      var i :| 0 <= i < j && accounts[..j][i] == accounts[j];
      assert accounts[i] == accounts[j];
    }
  }

  /** An election of distinct candidates has one row per candidate. */
  lemma {:induction false} ElectedTableSize(cs: CustodianTable, accounts: seq<Name>, now: TimeSec)
    requires Distinct(accounts)
    ensures |ElectedTable(cs, accounts, now)| == |accounts|
    decreases |accounts|
  {
    if accounts != [] {
      var n := |accounts| - 1;
      var init := accounts[..n];
      assert Distinct(init);
      ElectedTableSize(cs, init, now);
      ElectedTableSnoc(cs, accounts, n, now);
      assert accounts[..n + 1] == accounts;
      assert accounts[n] !in init;
      assert accounts[n] !in ElectedTable(cs, init, now);
    }
  }
}
