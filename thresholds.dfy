/**
 * The threshold registry: named int8 thresholds, the links that assign a threshold to a
 * (contract, action) pair, the lookups the proposal engine uses, and the pure meaning of
 * the two updates (insert_or_update_or_delete_threshold and manthreshlin).
 */
module Thresholds {
  import opened Types
  import opened Tables

  /** The thresholds table: name -> stored int8 value. */
  type ThresholdTable = map<Name, Int8>

  /** The threshlinks table, by its (contract, action) key. manthreshlin is its only writer and
      never adds a second row for a key, so the key is unique. */
  type LinkTable = map<Uint128, ThreshLink>

  /** is_threshold_linked: some link assigns this threshold name. */
  predicate IsLinked(links: LinkTable, n: Name)
  {
    exists k :: k in links && links[k].thresholdName == n
  }

  /** The shape every stored link has: it sits under its own (contract, action) key, names
      an existing threshold other than "default", and no contract wildcard. */
  predicate LinksWellFormed(links: LinkTable, ts: ThresholdTable)
  {
    forall k :: k in links ==>
      k == ContAct(links[k].contract, links[k].actionName)
      && links[k].contract != 0
      && links[k].thresholdName != 0
      && links[k].thresholdName != DEFAULT
      && links[k].thresholdName in ts
  }

  /** get_threshold_by_name: the stored value read as uint8; a missing name falls back to
      "default". Without a "default" row the source recurses without end. */
  function ThresholdByName(ts: ThresholdTable, n: Name): (r: Result<Uint8>)
    ensures n in ts ==> r == Ok(Uint8Of(ts[n]))
    ensures n !in ts && DEFAULT in ts ==> r == Ok(Uint8Of(ts[DEFAULT]))
    ensures r.Err? <==> n !in ts && DEFAULT !in ts
    ensures r.Err? ==> r.error == UnresolvableDefault
    ensures n in ts && ts[n] == -1 ==> r == Ok(255)
    decreases if n == DEFAULT then 0 else 1
  {
    if n in ts then Ok(Uint8Of(ts[n]))
    else if n == DEFAULT then Err(UnresolvableDefault)
    else ThresholdByName(ts, DEFAULT)
  }

  /** The keys the resolver tries, in order: full match, any contract, any action. */
  function Candidates(contract: Name, action: Name): (ks: seq<Uint128>)
    ensures |ks| == 3 && ks[0] == ContAct(contract, action)
    ensures ks[1] == ContAct(0, action) && ks[2] == ContAct(contract, 0)
  {
    [ContAct(contract, action), ContAct(0, action), ContAct(contract, 0)]
  }

  /** The threshold name a request for (contract, action) is governed by. */
  function ResolveName(links: LinkTable, contract: Name, action: Name): (n: Name)
    ensures var ks := Candidates(contract, action);
      (exists i :: 0 <= i < 3 && ks[i] in links && n == links[ks[i]].thresholdName
         && forall j :: 0 <= j < i ==> ks[j] !in links)
      || (n == DEFAULT && forall j :: 0 <= j < 3 ==> ks[j] !in links)
  {
    var ks := Candidates(contract, action);
    if ks[0] in links then links[ks[0]].thresholdName
    else if ks[1] in links then links[ks[1]].thresholdName
    else if ks[2] in links then links[ks[2]].thresholdName
    else DEFAULT
  }

  /** get_required_threshold_name_and_value_for_contract_action: the governing name and the
      value get_threshold_by_name gives it. */
  function Resolve(links: LinkTable, ts: ThresholdTable, contract: Name, action: Name): (r: Result<ThresholdNameAndValue>)
    ensures var n := ResolveName(links, contract, action);
      && (r.Err? <==> n !in ts && DEFAULT !in ts)
      && (r.Err? ==> r.error == UnresolvableDefault)
      && (r.Ok? ==> r.value.thresholdName == n
                    && r.value.threshold == Uint8Of(if n in ts then ts[n] else ts[DEFAULT]))
  {
    var n := ResolveName(links, contract, action);
    match ThresholdByName(ts, n)
    case Ok(v) => Ok(ThresholdNameAndValue(n, v))
    case Err(e) => Err(e)
  }

  /** With well-formed links the resolver never fails while "default" exists, and the
      contract-wildcard tier (0, action) never matches: manthreshlin refuses contract 0. */
  lemma WellFormedResolution(links: LinkTable, ts: ThresholdTable, contract: Name, action: Name)
    requires LinksWellFormed(links, ts) && DEFAULT in ts
    ensures ContAct(0, action) !in links
    ensures Resolve(links, ts, contract, action).Ok?
    ensures var n := ResolveName(links, contract, action);
      n == DEFAULT || (n in ts && Resolve(links, ts, contract, action).value.threshold == Uint8Of(ts[n]))
  {
    var k := ContAct(0, action);
    if k in links {
      ContActInjective(0, action, links[k].contract, links[k].actionName);
    }
  }

  /** insert_or_update_or_delete_threshold, as a function of the tables it reads; the checks
      run in the source's order and the first that fails decides the error. */
  function UpsertOrDelete(ts: ThresholdTable, links: LinkTable, n: Name, v: Int8, remove: bool, privileged: bool): (r: Result<ThresholdTable>)
    // only the addressed row can change
    ensures r.Ok? ==> forall m :: m != n ==> (m in r.value <==> m in ts) && (m in ts ==> r.value[m] == ts[m])
    // removal
    ensures remove ==> (r.Err? <==> IsLinked(links, n) || n !in ts || n == DEFAULT)
    ensures remove && r.Ok? ==> n !in r.value
    // insert or update
    ensures !remove && r.Ok? ==> n in r.value && r.value[n] == v
    ensures !remove && IsLinked(links, n) && n in ts && (ts[n] == -1 || v == -1) ==> r.Err?
    ensures !remove && !privileged && n == DEFAULT ==> r.Err?
    ensures !remove && (v < -1 || n == 0) ==> r.Err?
    ensures !remove && n == DEFAULT && n in ts && v <= 0 ==> r.Err?
    ensures !remove && r.Err? ==>
      (IsLinked(links, n) && (n !in ts || ts[n] == -1 || v == -1))
      || (!privileged && n == DEFAULT) || v < -1 || n == 0
      || (n == DEFAULT && n in ts && v <= 0)
    // "default" is never deleted, and an existing positive "default" stays positive
    ensures r.Ok? && DEFAULT in ts ==> DEFAULT in r.value
    ensures r.Ok? && DEFAULT in ts && ts[DEFAULT] > 0 ==> r.value[DEFAULT] > 0
  {
    if remove then
      if IsLinked(links, n) then Err(ThresholdLinked)
      else if n !in ts then Err(ThresholdMissing)
      else if n == DEFAULT then Err(DefaultUndeletable)
      else Ok(ts - {n})
    else if IsLinked(links, n) && n !in ts then Err(UndefinedRead)
    else if IsLinked(links, n) && ts[n] == -1 then Err(LinkedWasNegative)
    else if IsLinked(links, n) && v == -1 then Err(LinkedToNegative)
    else if !privileged && n == DEFAULT then Err(DefaultProtected)
    else if v < -1 then Err(BelowMinusOne)
    else if n == 0 then Err(InvalidThresholdName)
    else if n !in ts then Ok(ts[n := v])
    else if n == DEFAULT && v <= 0 then Err(DefaultNotPositive)
    else Ok(ts[n := v])
  }

  /** A successful threshold update keeps the links well formed: a linked name cannot be
      removed, and names are only ever added. */
  lemma UpsertKeepsLinksWellFormed(ts: ThresholdTable, links: LinkTable, n: Name, v: Int8, remove: bool, privileged: bool)
    requires LinksWellFormed(links, ts)
    requires UpsertOrDelete(ts, links, n, v, remove, privileged).Ok?
    ensures LinksWellFormed(links, UpsertOrDelete(ts, links, n, v, remove, privileged).value)
  {
    var ts' := UpsertOrDelete(ts, links, n, v, remove, privileged).value;
    forall k | k in links ensures links[k].thresholdName in ts' {
      assert remove ==> links[k].thresholdName != n;
    }
  }

  /** manthreshlin after its authorisation check: isAccount tells whether contract exists,
      and nextId is what available_primary_key yields for the link table. */
  function LinkUpdate(links: LinkTable, ts: ThresholdTable, isAccount: bool, contract: Name, action: Name, tname: Name, remove: bool, nextId: Result<Uint64>): (r: Result<LinkTable>)
    ensures contract == 0 || tname == 0 || tname == DEFAULT || !isAccount || tname !in ts ==> r.Err?
    // an existing link: removed on request, otherwise left untouched
    ensures r.Ok? && ContAct(contract, action) in links ==>
      r.value == if remove then links - {ContAct(contract, action)} else links
    // a new link: refused on removal, otherwise added under its key with the next id
    ensures ContAct(contract, action) !in links && remove ==> r.Err?
    ensures r.Ok? && ContAct(contract, action) !in links ==>
      nextId.Ok? && r.value == links[ContAct(contract, action) := ThreshLink(nextId.value, contract, action, tname)]
    ensures r.Err? ==>
      contract == 0 || tname == 0 || tname == DEFAULT || !isAccount || tname !in ts
      || (ContAct(contract, action) !in links && (remove || nextId.Err?))
  {
    var key := ContAct(contract, action);
    if contract == 0 then Err(WildcardContract)
    else if tname == 0 then Err(EmptyThresholdName)
    else if tname == DEFAULT then Err(DefaultUnassignable)
    else if !isAccount then Err(AccountMissing)
    else if tname !in ts then Err(ThresholdUnknown)
    else if key in links then
      if remove then Ok(links - {key}) else Ok(links)
    else if remove then Err(LinkMissing)
    else match nextId
      case Err(e) => Err(e)
      case Ok(id) => Ok(links[key := ThreshLink(id, contract, action, tname)])
  }

  /** A successful link update keeps the links well formed. */
  lemma LinkUpdateKeepsWellFormed(links: LinkTable, ts: ThresholdTable, isAccount: bool, contract: Name, action: Name, tname: Name, remove: bool, nextId: Result<Uint64>)
    requires LinksWellFormed(links, ts)
    requires LinkUpdate(links, ts, isAccount, contract, action, tname, remove, nextId).Ok?
    ensures LinksWellFormed(LinkUpdate(links, ts, isAccount, contract, action, tname, remove, nextId).value, ts)
  {
  }

  /** After adding a link for (contract, action), the resolver governs that pair by the new
      threshold; after removing it, the pair falls through to the wildcard tiers. */
  lemma LinkUpdateResolves(links: LinkTable, ts: ThresholdTable, isAccount: bool, contract: Name, action: Name, tname: Name, remove: bool, nextId: Result<Uint64>)
    requires LinkUpdate(links, ts, isAccount, contract, action, tname, remove, nextId).Ok?
    ensures var links' := LinkUpdate(links, ts, isAccount, contract, action, tname, remove, nextId).value;
      !remove && ContAct(contract, action) !in links ==> ResolveName(links', contract, action) == tname
    ensures var links' := LinkUpdate(links, ts, isAccount, contract, action, tname, remove, nextId).value;
      remove ==> ContAct(contract, action) !in links'
  {
  }
}
