/**
 * The proposal engine's computations: the required threshold of a list of actions, the
 * approval lists approve and unapprove rebuild, the approved weight exec compares with the
 * threshold, and how archiving a proposal grows and trims a history scope.
 */
module Proposals {
  import opened Types
  import opened Tables
  import opened Thresholds

  /** The largest number of actions one proposal may carry. */
  const MAX_ACTIONS: int := 7

  /** The shortest lifetime a proposal awaiting approval may be given, in seconds. */
  const MIN_EXPIRATION: int := 60 * 60

  /** An action that would make the group propose on itself. */
  predicate IsSelfPropose(self: Name, act: Action)
  {
    act.account == self && act.name == PROPOSE
  }

  // ---------------------------------------------------------------------
  // Required threshold (propose)
  // ---------------------------------------------------------------------

  /** The resolved threshold of each action in order, or the first failure: an action on
      (self, "propose"), or a resolution that cannot end. */
  function ResolveAll(self: Name, links: LinkTable, ts: ThresholdTable, actions: seq<Action>): (r: Result<seq<ThresholdNameAndValue>>)
    ensures r.Ok? ==> (|r.value| == |actions|
      && forall i :: 0 <= i < |actions| ==> Resolve(links, ts, actions[i].account, actions[i].name) == Ok(r.value[i]))
    ensures r.Ok? ==> forall i :: 0 <= i < |actions| ==> !IsSelfPropose(self, actions[i])
    ensures (exists i :: 0 <= i < |actions| && IsSelfPropose(self, actions[i])) ==> r.Err?
  {
    if actions == [] then Ok([])
    else
      var init, last := actions[..|actions| - 1], actions[|actions| - 1];
      match ResolveAll(self, links, ts, init)
      case Err(e) => Err(e)
      case Ok(tnavs) =>
        if IsSelfPropose(self, last) then Err(SelfPropose)
        else match Resolve(links, ts, last.account, last.name)
          case Err(e) => Err(e)
          case Ok(t) =>
            assert forall i :: 0 <= i < |init| ==> actions[i] == init[i];
            Ok(tnavs + [t])
  }

  /** The running maximum of the source's loop: the first entry wins, later ones only when
      strictly greater. */
  function MaxRequired(ts: seq<ThresholdNameAndValue>): (m: ThresholdNameAndValue)
    requires |ts| >= 1
    ensures m in ts
    ensures forall i :: 0 <= i < |ts| ==> ts[i].threshold <= m.threshold
  {
    if |ts| == 1 then ts[0]
    else
      var m := MaxRequired(ts[..|ts| - 1]);
      assert forall i :: 0 <= i < |ts| - 1 ==> ts[..|ts| - 1][i] == ts[i];
      if ts[|ts| - 1].threshold > m.threshold then ts[|ts| - 1] else m
  }

  /** The running maximum is the first entry with the greatest value: every earlier entry is
      strictly smaller. */
  lemma {:induction false} MaxRequiredIsFirst(ts: seq<ThresholdNameAndValue>)
    requires |ts| >= 1
    ensures exists i :: (0 <= i < |ts| && ts[i] == MaxRequired(ts)
      && forall j :: 0 <= j < i ==> ts[j].threshold < ts[i].threshold)
  {
    if |ts| == 1 {
      assert ts[0] == MaxRequired(ts);
    } else {
      var init := ts[..|ts| - 1];
      MaxRequiredIsFirst(init);
      var m := MaxRequired(init);
      var i :| 0 <= i < |init| && init[i] == m && forall j :: 0 <= j < i ==> init[j].threshold < init[i].threshold;
      var k := |ts| - 1;
      if ts[k].threshold > m.threshold {
        assert MaxRequired(ts) == ts[k];
        forall j | 0 <= j < k ensures ts[j].threshold < ts[k].threshold {
          assert ts[j] == init[j];
        }
      } else {
        assert MaxRequired(ts) == m;
        assert ts[i] == init[i];
        forall j | 0 <= j < i ensures ts[j].threshold < ts[i].threshold {
          assert ts[j] == init[j];
        }
      }
    }
  }

  /** A failure on a prefix of the actions is the failure of the whole list: the loop stops at
      the first failing action. */
  lemma {:induction false} ResolveAllPrefixFails(self: Name, links: LinkTable, ts: ThresholdTable, actions: seq<Action>, k: nat)
    requires k <= |actions| && ResolveAll(self, links, ts, actions[..k]).Err?
    ensures ResolveAll(self, links, ts, actions) == ResolveAll(self, links, ts, actions[..k])
    decreases |actions| - k
  {
    if k == |actions| {
      assert actions[..k] == actions;
    } else {
      assert actions[..k + 1][..k] == actions[..k];
      ResolveAllPrefixFails(self, links, ts, actions, k + 1);
    }
  }

  /** One more action: it fails on (self, "propose") or an unresolvable threshold, and
      otherwise extends the resolved list by its value. */
  lemma ResolveAllStep(self: Name, links: LinkTable, ts: ThresholdTable, actions: seq<Action>, i: nat, seen: seq<ThresholdNameAndValue>)
    requires i < |actions| && ResolveAll(self, links, ts, actions[..i]) == Ok(seen)
    ensures var t := Resolve(links, ts, actions[i].account, actions[i].name);
      ResolveAll(self, links, ts, actions[..i + 1]) ==
        if IsSelfPropose(self, actions[i]) then Err(SelfPropose)
        else if t.Err? then Err(t.error)
        else Ok(seen + [t.value])
  {
    assert actions[..i + 1][..i] == actions[..i];
  }

  /** One more entry replaces the running maximum only when strictly greater. */
  lemma MaxRequiredStep(seen: seq<ThresholdNameAndValue>, t: ThresholdNameAndValue)
    requires |seen| >= 1
    ensures MaxRequired(seen + [t]) == if t.threshold > MaxRequired(seen).threshold then t else MaxRequired(seen)
  {
    assert (seen + [t])[..|seen|] == seen;
  }

  /** The threshold a proposal of these actions requires, as propose's loop finds it. */
  function RequiredThreshold(self: Name, links: LinkTable, ts: ThresholdTable, actions: seq<Action>): Result<ThresholdNameAndValue>
    requires |actions| >= 1
  {
    match ResolveAll(self, links, ts, actions)
    case Err(e) => Err(e)
    case Ok(tnavs) => Ok(MaxRequired(tnavs))
  }

  /** The action is not a self-proposal and resolves to t. */
  predicate ResolvesTo(self: Name, links: LinkTable, ts: ThresholdTable, act: Action, t: ThresholdNameAndValue)
  {
    !IsSelfPropose(self, act) && Resolve(links, ts, act.account, act.name) == Ok(t)
  }

  /** One more resolved action extends the resolved prefix. */
  lemma ResolvesSnoc(self: Name, links: LinkTable, ts: ThresholdTable, actions: seq<Action>, i: nat,
                     seen: seq<ThresholdNameAndValue>, t: ThresholdNameAndValue)
    requires i < |actions| && |seen| == i
    requires forall k :: 0 <= k < i ==> ResolvesTo(self, links, ts, actions[k], seen[k])
    requires ResolvesTo(self, links, ts, actions[i], t)
    ensures forall k :: 0 <= k < i + 1 ==> ResolvesTo(self, links, ts, actions[k], (seen + [t])[k])
  {
    forall k | 0 <= k < i + 1 ensures ResolvesTo(self, links, ts, actions[k], (seen + [t])[k]) {
      if k < i {
        assert (seen + [t])[k] == seen[k];
      }
    }
  }

  /** When every action resolves, the scan is the list of their values. */
  lemma {:induction false} ResolveAllOk(self: Name, links: LinkTable, ts: ThresholdTable, actions: seq<Action>,
                                        seen: seq<ThresholdNameAndValue>)
    requires |seen| == |actions|
    requires forall k :: 0 <= k < |actions| ==> ResolvesTo(self, links, ts, actions[k], seen[k])
    ensures ResolveAll(self, links, ts, actions) == Ok(seen)
    decreases |actions|
  {
    if actions != [] {
      var n := |actions| - 1;
      assert forall k :: 0 <= k < n ==> actions[..n][k] == actions[k] && seen[..n][k] == seen[k];
      ResolveAllOk(self, links, ts, actions[..n], seen[..n]);
      assert seen == seen[..n] + [seen[n]];
    }
  }

  /** The first action that is refused decides the scan: every earlier one resolved, and this
      one is a self-proposal or fails to resolve with e. */
  lemma ResolveAllFirstFailure(self: Name, links: LinkTable, ts: ThresholdTable, actions: seq<Action>, i: nat,
                               seen: seq<ThresholdNameAndValue>, e: Error)
    requires i < |actions| && |seen| == i
    requires forall k :: 0 <= k < i ==> ResolvesTo(self, links, ts, actions[k], seen[k])
    requires if IsSelfPropose(self, actions[i]) then e == SelfPropose
             else Resolve(links, ts, actions[i].account, actions[i].name) == Err(e)
    ensures ResolveAll(self, links, ts, actions) == Err(e)
  {
    assert forall k :: 0 <= k < i ==> actions[..i][k] == actions[k];
    ResolveAllOk(self, links, ts, actions[..i], seen);
    ResolveAllStep(self, links, ts, actions, i, seen);
    ResolveAllPrefixFails(self, links, ts, actions, i + 1);
  }

  /** propose's loop over the actions: refuse (self, "propose"), resolve each action and keep
      the first strictly greatest value. */
  method FindRequiredThreshold(self: Name, links: LinkTable, ts: ThresholdTable, actions: seq<Action>)
    returns (r: Result<ThresholdNameAndValue>)
    requires |actions| >= 1
    ensures r == RequiredThreshold(self, links, ts, actions)
  {
    var max := ThresholdNameAndValue(0, 0);
    var i := 0;
    ghost var seen: seq<ThresholdNameAndValue> := [];
    while i < |actions|
      invariant 0 <= i <= |actions| && |seen| == i
      invariant forall k :: 0 <= k < i ==> ResolvesTo(self, links, ts, actions[k], seen[k])
      invariant i > 0 ==> max == MaxRequired(seen)
    {
      var act := actions[i];
      if act.account == self && act.name == PROPOSE {
        ResolveAllFirstFailure(self, links, ts, actions, i, seen, SelfPropose);
        return Err(SelfPropose);
      }
      var tnav := Resolve(links, ts, act.account, act.name);
      if tnav.Err? {
        ResolveAllFirstFailure(self, links, ts, actions, i, seen, tnav.error);
        return Err(tnav.error);
      }
      ResolvesSnoc(self, links, ts, actions, i, seen, tnav.value);
      if i > 0 {
        MaxRequiredStep(seen, tnav.value);
      } else {
        assert seen + [tnav.value] == [tnav.value];
      }
      if i == 0 || tnav.value.threshold > max.threshold {
        max := tnav.value;
      }
      seen := seen + [tnav.value];
      i := i + 1;
    }
    ResolveAllOk(self, links, ts, actions, seen);
    r := Ok(max);
  }

  // ---------------------------------------------------------------------
  // Approvals (approve, unapprove)
  // ---------------------------------------------------------------------

  /** approve's duplicate check fires: a still-custodian entry is the approver, or repeats an
      earlier entry. */
  ghost predicate ApproveClash(olds: seq<Name>, approver: Name, custodians: set<Name>)
  {
    exists i :: 0 <= i < |olds| && olds[i] in custodians && (olds[i] == approver || olds[i] in olds[..i])
  }

  /** approve's loop: start the set with the approver, add every old approver who is still a
      custodian, and fail on a repeated insert. The new list is sorted and duplicate free. */
  method CollectApprovals(olds: seq<Name>, approver: Name, custodians: set<Name>) returns (r: Option<seq<Name>>)
    ensures r.None? <==> ApproveClash(olds, approver, custodians)
    ensures r.Some? ==> StrictlySorted(r.value)
    ensures r.Some? ==> forall y :: y in r.value <==> y == approver || (y in olds && y in custodians)
  {
    var acc := [approver];
    var i := 0;
    while i < |olds|
      invariant 0 <= i <= |olds|
      invariant StrictlySorted(acc)
      invariant forall y :: y in acc <==> y == approver || (y in olds[..i] && y in custodians)
      invariant !ApproveClash(olds[..i], approver, custodians)
    {
      assert olds[..i + 1][..i] == olds[..i];
      var o := olds[i];
      if o in custodians {
        if o in acc {
          assert olds[i] in olds[..i + 1][..i] || olds[i] == approver;
          assert ApproveClash(olds[..i + 1], approver, custodians);
          assert ApproveClash(olds, approver, custodians) by {
            var j :| 0 <= j < i + 1 && olds[..i + 1][j] in custodians
              && (olds[..i + 1][j] == approver || olds[..i + 1][j] in olds[..i + 1][..j]);
            assert olds[..i + 1][..j] == olds[..j];
          }
          return None;
        }
        InsertOrdered(acc, o);
        acc := Insert(acc, o);
      }
      i := i + 1;
    }
    assert olds[..|olds|] == olds;
    r := Some(acc);
  }

  /** On a stored (sorted, duplicate-free) approval list, approve fails exactly when the
      approver already approved and is still a custodian. */
  lemma ApproveClashOnSorted(olds: seq<Name>, approver: Name, custodians: set<Name>)
    requires StrictlySorted(olds)
    ensures ApproveClash(olds, approver, custodians) <==> approver in olds && approver in custodians
  {
    if approver in olds && approver in custodians {
      var i :| 0 <= i < |olds| && olds[i] == approver;
      assert olds[i] in custodians && olds[i] == approver;
    }
    if ApproveClash(olds, approver, custodians) {
      var i :| 0 <= i < |olds| && olds[i] in custodians && (olds[i] == approver || olds[i] in olds[..i]);
    }
  }

  /** unapprove's loop: note whether the caller is in the raw list, and keep every other old
      approver who is still a custodian, sorted and duplicate free. */
  method CollectUnapprovals(olds: seq<Name>, unapprover: Name, custodians: set<Name>)
    returns (hasApproved: bool, r: seq<Name>)
    ensures hasApproved <==> unapprover in olds
    ensures StrictlySorted(r)
    ensures forall y :: y in r <==> y in olds && y != unapprover && y in custodians
  {
    hasApproved := false;
    r := [];
    var i := 0;
    while i < |olds|
      invariant 0 <= i <= |olds|
      invariant hasApproved <==> unapprover in olds[..i]
      invariant StrictlySorted(r)
      invariant forall y :: y in r <==> y in olds[..i] && y != unapprover && y in custodians
    {
      assert olds[..i + 1] == olds[..i] + [olds[i]];
      var o := olds[i];
      if o == unapprover {
        hasApproved := true;
      } else if o in custodians {
        InsertOrdered(r, o);
        r := Insert(r, o);
      }
      i := i + 1;
    }
    assert olds[..|olds|] == olds;
  }

  // ---------------------------------------------------------------------
  // Approved weight (get_total_approved_proposal_weight)
  // ---------------------------------------------------------------------

  /** The summed weight of the listed approvers who are still custodians. */
  function WeightSum(approvals: seq<Name>, custodians: map<Name, Custodian>): nat
  {
    if approvals == [] then 0
    else
      var last := approvals[|approvals| - 1];
      WeightSum(approvals[..|approvals| - 1], custodians) + (if last in custodians then custodians[last].weight else 0)
  }

  /** get_total_approved_proposal_weight: the loop's uint8 total, which wraps. */
  method TotalApprovedWeight(approvals: seq<Name>, custodians: map<Name, Custodian>) returns (w: Uint8)
    ensures w == WeightSum(approvals, custodians) % 0x100
  {
    w := 0;
    if |approvals| == 0 {
      return;
    }
    var i := 0;
    while i < |approvals|
      invariant 0 <= i <= |approvals|
      invariant w == WeightSum(approvals[..i], custodians) % 0x100
    {
      assert approvals[..i + 1][..i] == approvals[..i];
      var a := approvals[i];
      if a in custodians {
        w := (w + custodians[a].weight) % 0x100;
      }
      i := i + 1;
    }
    assert approvals[..|approvals|] == approvals;
  }

  /** The approvers on a list who are still custodians. */
  ghost function StillCustodians(approvals: seq<Name>, custodians: map<Name, Custodian>): set<Name>
  {
    set a | a in approvals && a in custodians
  }

  lemma StillCustodiansSnoc(init: seq<Name>, last: Name, custodians: map<Name, Custodian>)
    ensures StillCustodians(init + [last], custodians)
      == StillCustodians(init, custodians) + (if last in custodians then {last} else {})
  {
    assert forall a :: a in init + [last] <==> a in init || a == last;
  }

  /** With every custodian at weight 1 and a duplicate-free list, the approved weight is the
      number of approvers who are still custodians. */
  lemma {:induction false} WeightSumCountsCustodians(approvals: seq<Name>, custodians: map<Name, Custodian>)
    requires StrictlySorted(approvals)
    requires forall k :: k in custodians ==> custodians[k].weight == 1
    ensures WeightSum(approvals, custodians) == |StillCustodians(approvals, custodians)|
  {
    if approvals != [] {
      var init, last := approvals[..|approvals| - 1], approvals[|approvals| - 1];
      assert StrictlySorted(init) by {
        forall i, j | 0 <= i < j < |init| ensures init[i] < init[j] {
          assert init[i] == approvals[i] && init[j] == approvals[j];
        }
      }
      WeightSumCountsCustodians(init, custodians);
      assert approvals == init + [last];
      StillCustodiansSnoc(init, last, custodians);
      assert last !in StillCustodians(init, custodians);
    }
  }

  // ---------------------------------------------------------------------
  // Archives (archive_proposal, trunchistory)
  // ---------------------------------------------------------------------

  /** A history scope in ascending id order whose ids are consecutive. */
  predicate Contiguous(rows: seq<Proposal>)
  {
    forall i :: 0 <= i < |rows| ==> rows[i].id == rows[0].id + i
  }

  /** The id available_primary_key gives the next snapshot of a scope kept in ascending id order. */
  function NextArchiveId(rows: seq<Proposal>): Result<Uint64>
  {
    NextPrimaryKey(if rows == [] then None else Some(rows[|rows| - 1].id))
  }

  /** archive_proposal's test for scheduling a one-row trunchistory: the id span of the
      scope, not its row count, reached the archive size. */
  function ArchiveTrims(rows: seq<Proposal>, keep: Uint8): bool
  {
    keep > 0 && rows != [] && rows[|rows| - 1].id - rows[0].id + 1 >= keep
  }

  /** The scope after archive_proposal: with archiving on, the snapshot of p goes at the end
      under the next id; with archive size 0, nothing is kept. */
  function ArchiveRows(rows: seq<Proposal>, p: Proposal, keep: Uint8): (r: Result<seq<Proposal>>)
    ensures keep == 0 ==> r == Ok(rows)
    ensures keep > 0 && r.Ok? ==> (|r.value| == |rows| + 1 && r.value[..|rows|] == rows
      && r.value[|rows|] == p.(id := r.value[|rows|].id))
    ensures keep > 0 && rows == [] ==> r.Ok? && r.value[0].id == 0
    ensures keep > 0 && rows != [] && r.Ok? ==> r.value[|rows|].id == rows[|rows| - 1].id + 1
    ensures keep > 0 ==> (r.Err? <==> NextArchiveId(rows).Err?)
  {
    if keep == 0 then Ok(rows)
    else match NextArchiveId(rows)
      case Err(e) => Err(e)
      case Ok(id) => Ok(rows + [p.(id := id)])
  }

  /** On a contiguous scope the id span is the row count. */
  lemma IdSpanIsRowCount(rows: seq<Proposal>)
    requires Contiguous(rows) && rows != []
    ensures rows[|rows| - 1].id - rows[0].id + 1 == |rows|
  {
  }

  /** Truncating a contiguous scope from its lowest id keeps it contiguous. */
  lemma DropLowestContiguous(rows: seq<Proposal>, n: nat)
    requires Contiguous(rows)
    ensures Contiguous(DropLowest(rows, n))
  {
    var r := DropLowest(rows, n);
    forall i | 0 <= i < |r| ensures r[i].id == r[0].id + i {
      assert r[i] == rows[|rows| - |r| + i] && r[0] == rows[|rows| - |r|];
    }
  }

  /** Archiving a snapshot keeps a contiguous scope contiguous. */
  lemma ArchiveContiguous(rows: seq<Proposal>, p: Proposal, keep: Uint8)
    requires Contiguous(rows)
    requires ArchiveRows(rows, p, keep).Ok?
    ensures Contiguous(ArchiveRows(rows, p, keep).value)
  {
    var grown := ArchiveRows(rows, p, keep).value;
    forall i | 0 <= i < |grown| ensures grown[i].id == grown[0].id + i {
      if i < |rows| {
        assert grown[i] == rows[i];
      }
      if rows != [] {
        assert grown[0] == rows[0];
      }
    }
  }

  /** Archiving into a contiguous scope of at most keep rows, followed by the scheduled
      one-row trunchistory when there is one, leaves a contiguous scope of at most keep
      rows that ends with the new snapshot. */
  lemma ArchiveKeepsBound(rows: seq<Proposal>, p: Proposal, keep: Uint8)
    requires Contiguous(rows) && |rows| <= keep && keep > 0
    requires ArchiveRows(rows, p, keep).Ok?
    ensures var grown := ArchiveRows(rows, p, keep).value;
      var final := if ArchiveTrims(rows, keep) then DropLowest(grown, 1) else grown;
      Contiguous(final) && 1 <= |final| <= keep && final[|final| - 1] == grown[|rows|]
  {
    var grown := ArchiveRows(rows, p, keep).value;
    ArchiveContiguous(rows, p, keep);
    if rows != [] {
      IdSpanIsRowCount(rows);
    }
    DropLowestContiguous(grown, 1);
  }
}
