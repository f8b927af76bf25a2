/** The pure half of the approval engine (src/approvals/main.py): how a policy
    expands into the ordered approver chain of one expense, and which approvers
    may act given the set of approvers who already have. */
module ApprovalChain {
  import opened Common

  /** Failures of the approval service, one per error dict it returns. */
  datatype ApprovalError =
    | ExpenseNotFound
    | NotAuthorized        // "Not authorized for current step"
    | EmployeeNotFound     // the manager lookup dereferences a missing user
    | PolicyNotFound
    | MissingField         // a required key is absent from a new policy

  /** A row of the policy's approver list. */
  datatype PolicyApprover = PolicyApprover(approverId: int, orderIndex: Option<int>)

  /** An approval policy as stored; `approvers` is in storage order. */
  datatype Policy = Policy(
    id: int,
    companyId: int,
    userId: int,
    name: string,
    overrideManagerId: Option<int>,
    isManagerApprover: bool,
    isSequential: bool,
    minApprovalPercentage: Option<int>,
    approvers: seq<PolicyApprover>)

  // ---------------------------------------------------------------------------
  // Python's `sorted(approvers, key=lambda x: (x.order_index or 0))`
  // ---------------------------------------------------------------------------

  /** The sort key: a missing (or zero) `order_index` counts as 0. */
  function SortKey(a: PolicyApprover): int
  {
    if a.orderIndex.Some? then a.orderIndex.value else 0
  }

  predicate SortedByOrder(s: seq<PolicyApprover>)
  {
    forall i, j :: 0 <= i < j < |s| ==> SortKey(s[i]) <= SortKey(s[j])
  }

  /** The entries of `s` whose key is `k`, in their order in `s`. */
  function WithKey(s: seq<PolicyApprover>, k: int): seq<PolicyApprover>
  {
    if s == [] then []
    else (if SortKey(s[0]) == k then [s[0]] else []) + WithKey(s[1..], k)
  }

  /** Puts `a` in front of the first entry whose key is not smaller than its own. */
  function Insert(a: PolicyApprover, s: seq<PolicyApprover>): (r: seq<PolicyApprover>)
    ensures multiset(r) == multiset(s) + multiset{a}
  {
    if s == [] || SortKey(a) <= SortKey(s[0]) then [a] + s
    else
      assert s == [s[0]] + s[1..];
      [s[0]] + Insert(a, s[1..])
  }

  /** Python's stable sort on `order_index or 0`, as an insertion sort. */
  function SortByOrder(s: seq<PolicyApprover>): (r: seq<PolicyApprover>)
    ensures multiset(r) == multiset(s)
  {
    if s == [] then []
    else
      assert s == [s[0]] + s[1..];
      Insert(s[0], SortByOrder(s[1..]))
  }

  lemma {:induction false} InsertSorted(a: PolicyApprover, s: seq<PolicyApprover>)
    requires SortedByOrder(s)
    ensures SortedByOrder(Insert(a, s))
  {
    if s != [] && SortKey(s[0]) < SortKey(a) {
      var t := Insert(a, s[1..]);
      InsertSorted(a, s[1..]);
      forall x | x in t ensures SortKey(s[0]) <= SortKey(x) {
        assert x in multiset(t);
        assert x == a || x in multiset(s[1..]);
      }
    }
  }

  /** The sort orders the entries by non-decreasing key. */
  lemma {:induction false} SortByOrderSorted(s: seq<PolicyApprover>)
    ensures SortedByOrder(SortByOrder(s))
  {
    if s != [] {
      SortByOrderSorted(s[1..]);
      InsertSorted(s[0], SortByOrder(s[1..]));
    }
  }

  lemma {:induction false} InsertWithKey(a: PolicyApprover, s: seq<PolicyApprover>, k: int)
    ensures WithKey(Insert(a, s), k) == (if SortKey(a) == k then [a] else []) + WithKey(s, k)
  {
    if s == [] || SortKey(a) <= SortKey(s[0]) {
      assert ([a] + s)[1..] == s;
    } else {
      var t := Insert(a, s[1..]);
      assert ([s[0]] + t)[1..] == t;
      InsertWithKey(a, s[1..], k);
      var ws := if SortKey(s[0]) == k then [s[0]] else [];
      var wa := if SortKey(a) == k then [a] else [];
      calc {
        WithKey(Insert(a, s), k);
        ws + WithKey(t, k);
        ws + (wa + WithKey(s[1..], k));
        { assert ws == [] || wa == []; }
        wa + (ws + WithKey(s[1..], k));
        wa + WithKey(s, k);
      }
    }
  }

  /** The sort is stable: entries with equal keys keep their relative order. */
  lemma {:induction false} SortByOrderStable(s: seq<PolicyApprover>, k: int)
    ensures WithKey(SortByOrder(s), k) == WithKey(s, k)
  {
    if s != [] {
      SortByOrderStable(s[1..], k);
      InsertWithKey(s[0], SortByOrder(s[1..]), k);
    }
  }

  /** An already ordered list is returned as it is. */
  lemma {:induction false} SortByOrderOfSorted(s: seq<PolicyApprover>)
    requires SortedByOrder(s)
    ensures SortByOrder(s) == s
  {
    if s != [] {
      assert SortedByOrder(s[1..]);
      SortByOrderOfSorted(s[1..]);
      assert s == [s[0]] + s[1..];
    }
  }

  // ---------------------------------------------------------------------------
  // _policy_approver_list
  // ---------------------------------------------------------------------------

  /** The approver ids of `s`, in order. */
  function Ids(s: seq<PolicyApprover>): (r: seq<int>)
    ensures |r| == |s| && forall i :: 0 <= i < |s| ==> r[i] == s[i].approverId
  {
    seq(|s|, i requires 0 <= i < |s| => s[i].approverId)
  }

  /** Appends each id of `ids`, in turn, to `init` unless it is already there:
      the body of the append loop over the sorted static approvers. */
  function AddDistinct(init: seq<int>, ids: seq<int>): seq<int>
    decreases |ids|
  {
    if ids == [] then init
    else
      var acc := AddDistinct(init, ids[..|ids| - 1]);
      if ids[|ids| - 1] in acc then acc else acc + [ids[|ids| - 1]]
  }

  lemma IndexOfPrefix(s: seq<int>, n: nat, x: int)
    requires n <= |s| && x in s[..n]
    ensures IndexOf(s, x) == IndexOf(s[..n], x)
  {
    var j := IndexOf(s[..n], x);
    assert s[j] == x;
    assert forall i :: 0 <= i < j ==> s[i] == s[..n][i];
  }

  /** What the append loop builds: `init` untouched at the front, then each new
      id once, in the order of its first occurrence in `ids`. */
  lemma {:induction false} AddDistinctShape(init: seq<int>, ids: seq<int>)
    requires NoDup(init)
    ensures var r := AddDistinct(init, ids);
      && |init| <= |r| && r[..|init|] == init
      && NoDup(r)
      && (forall x :: x in r <==> x in init || x in ids)
      && (forall k :: |init| <= k < |r| ==> r[k] in ids && r[k] !in init)
      && (forall k, l :: |init| <= k < l < |r| ==> IndexOf(ids, r[k]) < IndexOf(ids, r[l]))
    decreases |ids|
  {
    if ids != [] {
      var n := |ids| - 1;
      var pre := ids[..n];
      AddDistinctShape(init, pre);
      var acc := AddDistinct(init, pre);
      var x := ids[n];
      assert ids == pre + [x];
      forall y | y in pre ensures y in ids && IndexOf(ids, y) == IndexOf(pre, y) {
        assert pre == ids[..n];
        IndexOfPrefix(ids, n, y);
      }
      if x !in acc {
        var r := acc + [x];
        assert x !in pre;
        assert IndexOf(ids, x) == n;
        forall k | |init| <= k < |acc| ensures IndexOf(ids, r[k]) < n {
          assert r[k] in pre;
        }
      }
    }
  }

  /** The manager step of the chain, or the error raised while looking it up.
      `managers` maps each user id to the user's `manager_id`. */
  function ManagerStep(p: Policy, managers: map<int, Option<int>>, employeeId: int): (r: Result<Option<int>, ApprovalError>)
    ensures !p.isManagerApprover ==> r == Ok(None)
    ensures p.isManagerApprover && Truthy(p.overrideManagerId) ==> r == Ok(Some(p.overrideManagerId.value))
    ensures r.Err? ==> r.error == EmployeeNotFound && employeeId !in managers && !Truthy(p.overrideManagerId)
    ensures r.Ok? && r.value.Some? ==> r.value.value != 0
    ensures p.isManagerApprover && !Truthy(p.overrideManagerId) ==>
      && (r.Err? <==> employeeId !in managers)
      && (employeeId in managers ==>
            r == Ok(if Truthy(managers[employeeId]) then Some(managers[employeeId].value) else None))
  {
    if !p.isManagerApprover then Ok(None)
    else if Truthy(p.overrideManagerId) then Ok(Some(p.overrideManagerId.value))
    else if employeeId !in managers then Err(EmployeeNotFound)
    else if Truthy(managers[employeeId]) then Ok(Some(managers[employeeId].value))
    else Ok(None)
  }

  /** The chain's head: the manager step if there is one. */
  function Head(m: Option<int>): seq<int>
  {
    if m.Some? then [m.value] else []
  }

  /** The approver ids of the policy's static list, sorted by `order_index`. */
  function StaticIds(p: Policy): seq<int>
  {
    Ids(SortByOrder(p.approvers))
  }

  /** The approver chain of an expense submitted by `employeeId` under `p`. */
  function Chain(p: Policy, managers: map<int, Option<int>>, employeeId: int): Result<seq<int>, ApprovalError>
  {
    match ManagerStep(p, managers, employeeId)
    case Err(e) => Err(e)
    case Ok(m) => Ok(AddDistinct(Head(m), StaticIds(p)))
  }

  /** The chain has no duplicate ids; the manager step, when present, is its
      first member; its members are exactly the manager and the static approvers. */
  lemma ChainShape(p: Policy, managers: map<int, Option<int>>, employeeId: int)
    requires Chain(p, managers, employeeId).Ok?
    ensures var c := Chain(p, managers, employeeId).value;
            var m := ManagerStep(p, managers, employeeId).value;
      && NoDup(c)
      && (m.Some? ==> |c| > 0 && c[0] == m.value)
      && (m.None? && c != [] ==> c[0] in StaticIds(p))
      && (forall x :: x in c <==> (m == Some(x) || exists i :: 0 <= i < |p.approvers| && p.approvers[i].approverId == x))
  {
    var m := ManagerStep(p, managers, employeeId).value;
    AddDistinctShape(Head(m), StaticIds(p));
    StaticIdsMembers(p);
  }

  /** Sorting keeps the ids: the static ids are those of the policy's list. */
  lemma StaticIdsMembers(p: Policy)
    ensures forall x :: x in StaticIds(p) <==> exists i :: 0 <= i < |p.approvers| && p.approvers[i].approverId == x
  {
    var ids := StaticIds(p);
    var sorted := SortByOrder(p.approvers);
    forall x ensures x in ids <==> exists i :: 0 <= i < |p.approvers| && p.approvers[i].approverId == x {
      if x in ids {
        var k :| 0 <= k < |ids| && ids[k] == x;
        assert sorted[k] in multiset(p.approvers);
      }
      if i :| 0 <= i < |p.approvers| && p.approvers[i].approverId == x {
        assert p.approvers[i] in multiset(sorted);
        var k :| 0 <= k < |sorted| && sorted[k] == p.approvers[i];
        assert ids[k] == x;
      }
    }
  }

  /** After the manager step, the static approvers follow in non-decreasing
      `order_index` (that of the first list entry carrying each id). */
  lemma ChainStaticOrder(p: Policy, managers: map<int, Option<int>>, employeeId: int, k: nat, l: nat)
    requires Chain(p, managers, employeeId).Ok?
    requires var c := Chain(p, managers, employeeId).value;
      |Head(ManagerStep(p, managers, employeeId).value)| <= k < l < |c|
    ensures var c := Chain(p, managers, employeeId).value;
            var ids := StaticIds(p);
            var sorted := SortByOrder(p.approvers);
      && c[k] in ids && c[l] in ids
      && SortKey(sorted[IndexOf(ids, c[k])]) <= SortKey(sorted[IndexOf(ids, c[l])])
  {
    var m := ManagerStep(p, managers, employeeId).value;
    AddDistinctShape(Head(m), StaticIds(p));
    SortByOrderSorted(p.approvers);
  }

  /** `_policy_approver_list`: the manager step, then the sorted static
      approvers, each appended unless already present. */
  method PolicyApproverList(p: Policy, managers: map<int, Option<int>>, employeeId: int)
    returns (r: Result<seq<int>, ApprovalError>)
    ensures r == Chain(p, managers, employeeId)
  {
    var approverIds: seq<int> := [];
    if p.isManagerApprover {
      var managerId: Option<int>;
      if Truthy(p.overrideManagerId) {
        managerId := p.overrideManagerId;
      } else {
        if employeeId !in managers {
          return Err(EmployeeNotFound);
        }
        managerId := if Truthy(managers[employeeId]) then managers[employeeId] else None;
      }
      if Truthy(managerId) {
        approverIds := approverIds + [managerId.value];
      }
    }
    ghost var init := approverIds;
    assert init == Head(ManagerStep(p, managers, employeeId).value);
    var ordered := SortByOrder(p.approvers);
    ghost var ids := Ids(ordered);
    for i := 0 to |ordered|
      invariant approverIds == AddDistinct(init, ids[..i])
    {
      assert ids[..i + 1][..i] == ids[..i];
      var id := ordered[i].approverId;
      if id !in approverIds {
        approverIds := approverIds + [id];
      }
    }
    assert ids[..|ordered|] == ids;
    return Ok(approverIds);
  }

  // ---------------------------------------------------------------------------
  // Eligibility: the projection inside _compute_next_approvers
  // ---------------------------------------------------------------------------

  /** The first chain member who has not acted (the sequential loop). */
  function FirstUnacted(chain: seq<int>, acted: set<int>): (r: Option<int>)
    ensures r.None? ==> forall x :: x in chain ==> x in acted
    ensures r.Some? ==> r.value in chain && r.value !in acted
    ensures r.Some? ==> forall j :: 0 <= j < IndexOf(chain, r.value) ==> chain[j] in acted
  {
    if chain == [] then None
    else if chain[0] !in acted then
      assert chain[0] in chain;
      Some(chain[0])
    else
      var r := FirstUnacted(chain[1..], acted);
      assert forall x :: x in chain ==> x == chain[0] || x in chain[1..];
      if r.Some? then
        assert r.value != chain[0];
        assert IndexOf(chain, r.value) == 1 + IndexOf(chain[1..], r.value);
        r
      else r
  }

  /** Every chain member who has not acted, in chain order (the parallel list). */
  function Unacted(chain: seq<int>, acted: set<int>): (r: seq<int>)
    ensures forall x :: x in r <==> x in chain && x !in acted
    ensures NoDup(chain) ==> NoDup(r)
    ensures NoDup(chain) ==> forall i, j :: 0 <= i < j < |r| ==> IndexOf(chain, r[i]) < IndexOf(chain, r[j])
  {
    if chain == [] then []
    else
      var rest := Unacted(chain[1..], acted);
      assert forall x :: x in chain[1..] ==> x in chain;
      assert forall x :: x in chain ==> x == chain[0] || x in chain[1..];
      assert NoDup(chain) ==> NoDup(chain[1..]) && chain[0] !in chain[1..] && chain[0] !in rest;
      assert NoDup(chain) ==> forall i :: 0 <= i < |rest| ==>
        rest[i] != chain[0] && IndexOf(chain, rest[i]) == 1 + IndexOf(chain[1..], rest[i]);
      if chain[0] !in acted then [chain[0]] + rest else rest
  }

  /** Who may act now on an expense with chain `chain` once `acted` have acted. */
  function Eligible(chain: seq<int>, acted: set<int>, sequential: bool): (r: seq<int>)
    ensures forall x :: x in r ==> x in chain && x !in acted
    ensures !sequential ==> forall x :: x in chain && x !in acted ==> x in r
    ensures sequential ==> |r| <= 1
    ensures sequential ==> (r == [] <==> forall x :: x in chain ==> x in acted)
    ensures sequential && r != [] ==> forall j :: 0 <= j < IndexOf(chain, r[0]) ==> chain[j] in acted
    ensures NoDup(chain) ==> NoDup(r)
    ensures !sequential && NoDup(chain) ==>
      forall i, j :: 0 <= i < j < |r| ==> IndexOf(chain, r[i]) < IndexOf(chain, r[j])
  {
    if sequential then
      match FirstUnacted(chain, acted)
      case Some(x) => [x]
      case None => []
    else Unacted(chain, acted)
  }

  /** Before anyone has acted, sequential mode offers the head of the chain and
      parallel mode the whole chain. */
  lemma {:induction false} UnactedNone(chain: seq<int>)
    ensures Unacted(chain, {}) == chain
  {
    if chain != [] {
      UnactedNone(chain[1..]);
      assert chain == [chain[0]] + chain[1..];
    }
  }

  lemma EligibleInitially(chain: seq<int>, sequential: bool)
    ensures Eligible(chain, {}, sequential) ==
      if !sequential then chain else if chain == [] then [] else [chain[0]]
  {
    if !sequential {
      UnactedNone(chain);
    }
  }

  // ---------------------------------------------------------------------------
  // `order_index` defaulting in create_or_update_policy
  // ---------------------------------------------------------------------------

  /** An approver entry of the request; `orderIndex` is None when the key is absent. */
  datatype ApproverInput = ApproverInput(approverId: int, orderIndex: Option<int>)

  /** The row stored for the entry at position `idx` of the request. */
  function DefaultOrder(a: ApproverInput, idx: nat): (r: PolicyApprover)
    ensures r.approverId == a.approverId
    ensures a.orderIndex.Some? ==> r.orderIndex == a.orderIndex
    ensures a.orderIndex.None? ==> SortKey(r) == idx + 1
  {
    PolicyApprover(a.approverId, if a.orderIndex.Some? then a.orderIndex else Some(idx + 1))
  }

  function DefaultOrders(inputs: seq<ApproverInput>): (r: seq<PolicyApprover>)
    ensures |r| == |inputs|
  {
    seq(|inputs|, i requires 0 <= i < |inputs| => DefaultOrder(inputs[i], i))
  }

  /** When no entry gives an `order_index`, the chain follows the request's order. */
  lemma DefaultOrdersKeepRequestOrder(inputs: seq<ApproverInput>)
    requires forall i :: 0 <= i < |inputs| ==> inputs[i].orderIndex.None?
    ensures SortByOrder(DefaultOrders(inputs)) == DefaultOrders(inputs)
    ensures Ids(SortByOrder(DefaultOrders(inputs))) == seq(|inputs|, i requires 0 <= i < |inputs| => inputs[i].approverId)
  {
    var rows := DefaultOrders(inputs);
    assert forall i :: 0 <= i < |rows| ==> SortKey(rows[i]) == i + 1;
    SortByOrderOfSorted(rows);
  }
}
