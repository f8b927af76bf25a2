/** The stateful half of the approval engine (src/approvals/main.py): the
    decision list of each expense, the status transitions of `take_action`, and
    the service that stores expenses, policies and the users' managers. */
module Approvals {
  import opened Common
  import opened ApprovalChain

  /** The action column of a decision record. */
  datatype Action = Approval | Rejection

  datatype Decision = Decision(approverId: int, action: Action, comments: Option<string>)

  /** An expense as the engine sees it: its submitter, its status column and the
      decisions recorded against it, oldest first. */
  datatype ExpenseRecord = ExpenseRecord(employeeId: int, status: ExpenseStatus, decisions: seq<Decision>)

  /** The success dict of `take_action`: the status and, when the expense stays
      open, the next approvers. */
  datatype ActionReply = ActionReply(status: ExpenseStatus, nextApprovers: Option<seq<int>>)

  /** The expense record after `take_action`, and the dict it returns. */
  datatype ActOutcome = ActOutcome(record: ExpenseRecord, reply: Result<ActionReply, ApprovalError>)

  // ---------------------------------------------------------------------------
  // Queries
  // ---------------------------------------------------------------------------

  /** Position of the first stored policy owned by `userId` (`.first()`). */
  function OwnerIndex(policies: seq<Policy>, userId: int): (r: Option<nat>)
    ensures r.None? <==> forall i :: 0 <= i < |policies| ==> policies[i].userId != userId
    ensures r.Some? ==> r.value < |policies| && policies[r.value].userId == userId
    ensures r.Some? ==> forall j :: 0 <= j < r.value ==> policies[j].userId != userId
  {
    if policies == [] then None
    else if policies[0].userId == userId then Some(0)
    else
      match OwnerIndex(policies[1..], userId)
      case None => None
      case Some(k) => Some(k + 1)
  }

  /** `_find_applicable_policy`: the first stored policy of the submitter. */
  function FindPolicy(policies: seq<Policy>, userId: int): Option<Policy>
  {
    match OwnerIndex(policies, userId)
    case None => None
    case Some(k) => Some(policies[k])
  }

  /** The approvers who have recorded a decision. */
  function Acted(ds: seq<Decision>): set<int>
  {
    set i | 0 <= i < |ds| :: ds[i].approverId
  }

  /** The approvers of the decisions, oldest first. */
  function Voters(ds: seq<Decision>): seq<int>
  {
    seq(|ds|, i requires 0 <= i < |ds| => ds[i].approverId)
  }

  /** `_compute_next_approvers`: who may act now on `e`, under the policies as
      they are now. */
  function NextApprovers(policies: seq<Policy>, managers: map<int, Option<int>>, e: ExpenseRecord)
    : (r: Result<seq<int>, ApprovalError>)
    ensures FindPolicy(policies, e.employeeId).None? ==> r == Ok([])
    ensures r.Err? ==> r.error == EmployeeNotFound
    ensures r.Ok? ==> forall x :: x in r.value ==> x !in Acted(e.decisions)
    ensures FindPolicy(policies, e.employeeId).Some? ==>
      var p := FindPolicy(policies, e.employeeId).value;
      && (r.Err? <==> Chain(p, managers, e.employeeId).Err?)
      && (r.Ok? ==> r.value == Eligible(Chain(p, managers, e.employeeId).value, Acted(e.decisions), p.isSequential))
    ensures r.Ok? && r.value != [] ==> var p := FindPolicy(policies, e.employeeId);
      p.Some? && Chain(p.value, managers, e.employeeId).Ok? &&
      forall x :: x in r.value ==> x in Chain(p.value, managers, e.employeeId).value
  {
    match FindPolicy(policies, e.employeeId)
    case None => Ok([])
    case Some(p) =>
      match Chain(p, managers, e.employeeId)
      case Err(err) => Err(err)
      case Ok(chain) => Ok(Eligible(chain, Acted(e.decisions), p.isSequential))
  }

  /** `_has_rejection`: some recorded decision is a rejection. */
  function HasRejection(ds: seq<Decision>): (b: bool)
    ensures !b <==> forall i :: 0 <= i < |ds| ==> ds[i].action == Approval
    ensures b ==> ds != []
  {
    exists i :: 0 <= i < |ds| && ds[i].action == Rejection
  }

  /** The number of 'Approved' records. */
  function CountApproved(ds: seq<Decision>): (n: nat)
    ensures n <= |ds|
    ensures !HasRejection(ds) ==> n == |ds|
  {
    if ds == [] then 0
    else
      var pre := ds[..|ds| - 1];
      assert forall i :: 0 <= i < |pre| ==> pre[i] == ds[i];
      CountApproved(pre) + if ds[|ds| - 1].action == Approval then 1 else 0
  }

  /** A rejection is on record exactly when fewer decisions approve than
      there are decisions. */
  lemma {:induction false} RejectionIffShortCount(ds: seq<Decision>)
    ensures HasRejection(ds) <==> CountApproved(ds) < |ds|
  {
    if ds != [] {
      var pre := ds[..|ds| - 1];
      RejectionIffShortCount(pre);
      assert forall i :: 0 <= i < |pre| ==> pre[i] == ds[i];
      if ds[|ds| - 1].action == Rejection {
        assert HasRejection(ds);
      }
    }
  }

  /** `int((approved / max(total, 1)) * 100)`, computed exactly (floor). */
  function Percentage(approved: nat, total: nat): (pct: nat)
  {
    approved * 100 / (if total > 0 then total else 1)
  }

  lemma MulMono(a: int, b: int, t: nat)
    requires a <= b
    ensures a * t <= b * t
  {
    assert b * t - a * t == (b - a) * t;
  }

  /** The integer percentage reaches `required` exactly when
      `approved * 100 >= required * total`. */
  lemma PercentageThreshold(approved: nat, total: nat, required: int)
    requires total > 0
    ensures Percentage(approved, total) >= required <==> approved * 100 >= required * total
  {
    var q := Percentage(approved, total);
    var m := approved * 100 % total;
    assert approved * 100 == q * total + m && 0 <= m < total;
    if q >= required {
      MulMono(required, q, total);
    } else {
      MulMono(q + 1, required, total);
    }
  }

  // ---------------------------------------------------------------------------
  // take_action, as a function of the expense and the current policies
  // ---------------------------------------------------------------------------

  /** The action stored for the requested one: anything but 'Approved' rejects. */
  function RecordedAction(action: string): (a: Action)
    ensures a == Approval <==> action == "Approved"
  {
    if action == "Approved" then Approval else Rejection
  }

  /** Sets a terminal status and replies without next approvers. */
  function Finish(e: ExpenseRecord, s: ExpenseStatus): ActOutcome
  {
    ActOutcome(e.(status := s), Ok(ActionReply(s, None)))
  }

  /** Keeps the status and replies with the recomputed next approvers. */
  function Continue(policies: seq<Policy>, managers: map<int, Option<int>>, e: ExpenseRecord): ActOutcome
  {
    match NextApprovers(policies, managers, e)
    case Ok(next) => ActOutcome(e, Ok(ActionReply(e.status, Some(next))))
    case Err(err) => ActOutcome(e, Err(err))
  }

  /** The status evaluation after a decision without rejection was recorded. */
  function Evaluate(policies: seq<Policy>, managers: map<int, Option<int>>, e: ExpenseRecord): (o: ActOutcome)
    ensures o.record.decisions == e.decisions && o.record.employeeId == e.employeeId
  {
    var policy := FindPolicy(policies, e.employeeId);
    var order := if policy.Some? then Chain(policy.value, managers, e.employeeId) else Ok([]);
    if order.Err? then ActOutcome(e, Err(order.error))
    else
      var approved := CountApproved(e.decisions);
      var total := |order.value|;
      if policy.Some? && policy.value.isSequential then
        if approved >= total then Finish(e, Approved)
        else Continue(policies, managers, e)
      else
        var required :=
          if policy.Some? && policy.value.minApprovalPercentage.Some?
          then policy.value.minApprovalPercentage.value else 100;
        if Percentage(approved, total) >= required then Finish(e, Approved)
        else if |e.decisions| >= total then Finish(e, Rejected)
        else Continue(policies, managers, e)
  }

  /** `take_action` on an existing expense: refuses an approver who is not
      eligible now; otherwise records the decision and re-evaluates the status. */
  function Act(policies: seq<Policy>, managers: map<int, Option<int>>, e: ExpenseRecord,
               approverId: int, action: string, comments: Option<string>): (o: ActOutcome)
    ensures o.record.employeeId == e.employeeId
    ensures o.record.decisions == e.decisions ==> o.record == e && o.reply.Err?
    ensures o.record.decisions != e.decisions ==>
      && NextApprovers(policies, managers, e).Ok?
      && approverId in NextApprovers(policies, managers, e).value
      && o.record.decisions == e.decisions + [Decision(approverId, RecordedAction(action), comments)]
    ensures NextApprovers(policies, managers, e).Ok? && approverId in NextApprovers(policies, managers, e).value ==>
      o.record.decisions == e.decisions + [Decision(approverId, RecordedAction(action), comments)]
    ensures o.record.decisions != e.decisions && HasRejection(o.record.decisions) ==>
      o.record.status == Rejected && o.reply == Ok(ActionReply(Rejected, None))
  {
    match NextApprovers(policies, managers, e)
    case Err(err) => ActOutcome(e, Err(err))
    case Ok(valid) =>
      if approverId !in valid then ActOutcome(e, Err(NotAuthorized))
      else Record(policies, managers, e, approverId, action, comments)
  }

  /** Records the decision of an eligible approver, then sets Rejected on any
      rejection or else re-evaluates the status. */
  function Record(policies: seq<Policy>, managers: map<int, Option<int>>, e: ExpenseRecord,
                  approverId: int, action: string, comments: Option<string>): (o: ActOutcome)
    ensures o.record.employeeId == e.employeeId
    ensures o.record.decisions == e.decisions + [Decision(approverId, RecordedAction(action), comments)]
    ensures HasRejection(o.record.decisions) ==> o.record.status == Rejected && o.reply == Ok(ActionReply(Rejected, None))
  {
    var ds := e.decisions + [Decision(approverId, RecordedAction(action), comments)];
    var recorded := e.(decisions := ds);
    if HasRejection(ds) then Finish(recorded, Rejected)
    else Evaluate(policies, managers, recorded)
  }

  // ---------------------------------------------------------------------------
  // Properties of take_action
  // ---------------------------------------------------------------------------

  /** An approver who already decided is refused, and nothing changes. */
  lemma NoSecondDecision(policies: seq<Policy>, managers: map<int, Option<int>>, e: ExpenseRecord,
                         approverId: int, action: string, comments: Option<string>)
    requires approverId in Acted(e.decisions)
    ensures var o := Act(policies, managers, e, approverId, action, comments);
      o.record == e && o.reply.Err?
  {
  }

  /** Decisions on an expense stay one per approver. */
  lemma ActKeepsVotersDistinct(policies: seq<Policy>, managers: map<int, Option<int>>, e: ExpenseRecord,
                               approverId: int, action: string, comments: Option<string>)
    requires NoDup(Voters(e.decisions))
    ensures NoDup(Voters(Act(policies, managers, e, approverId, action, comments).record.decisions))
  {
    var o := Act(policies, managers, e, approverId, action, comments);
    if o.record.decisions != e.decisions {
      var vs := Voters(o.record.decisions);
      assert vs == Voters(e.decisions) + [approverId];
      assert approverId !in Acted(e.decisions);
      forall i | 0 <= i < |e.decisions| ensures vs[i] != approverId {
        assert e.decisions[i].approverId in Acted(e.decisions);
      }
    }
  }

  /** The history an expense accumulates while the policies stay as they are:
      one decision per approver, each by a member of the current chain. */
  predicate Consistent(policies: seq<Policy>, managers: map<int, Option<int>>, e: ExpenseRecord)
  {
    && NoDup(Voters(e.decisions))
    && match FindPolicy(policies, e.employeeId)
       case None => e.decisions == []
       case Some(p) =>
         && Chain(p, managers, e.employeeId).Ok?
         && forall i :: 0 <= i < |e.decisions| ==>
              e.decisions[i].approverId in Chain(p, managers, e.employeeId).value
  }

  /** A fresh expense is consistent as long as its chain can be built. */
  lemma FreshConsistent(policies: seq<Policy>, managers: map<int, Option<int>>, e: ExpenseRecord)
    requires e.decisions == []
    requires NextApprovers(policies, managers, e).Ok?
    ensures Consistent(policies, managers, e)
  {
  }

  lemma ActKeepsConsistent(policies: seq<Policy>, managers: map<int, Option<int>>, e: ExpenseRecord,
                           approverId: int, action: string, comments: Option<string>)
    requires Consistent(policies, managers, e)
    ensures Consistent(policies, managers, Act(policies, managers, e, approverId, action, comments).record)
  {
    ActKeepsVotersDistinct(policies, managers, e, approverId, action, comments);
    var o := Act(policies, managers, e, approverId, action, comments);
    if o.record.decisions != e.decisions {
      var ds := o.record.decisions;
      assert forall i :: 0 <= i < |e.decisions| ==> ds[i] == e.decisions[i];
    }
  }

  /** Under a consistent history, the decisions number at most the chain
      length, and reach it exactly when every chain member has acted. */
  lemma DecisionsVersusChain(policies: seq<Policy>, managers: map<int, Option<int>>,
                             e: ExpenseRecord, p: Policy)
    requires Consistent(policies, managers, e)
    requires FindPolicy(policies, e.employeeId) == Some(p)
    ensures var c := Chain(p, managers, e.employeeId).value;
      && |e.decisions| <= |c|
      && (|e.decisions| == |c| <==> forall x :: x in c ==> x in Acted(e.decisions))
  {
    var c := Chain(p, managers, e.employeeId).value;
    ChainShape(p, managers, e.employeeId);
    var vs := Voters(e.decisions);
    forall x ensures x in Acted(e.decisions) <==> x in vs {
      if x in Acted(e.decisions) {
        var i :| 0 <= i < |e.decisions| && e.decisions[i].approverId == x;
        assert vs[i] == x;
      }
    }
    DistinctSubsetCount(vs, c);
  }

  /** An approval adds one to the approval count of a history without
      rejections, and leaves it without rejections. */
  lemma ApprovalCounted(ds: seq<Decision>, d: Decision)
    requires !HasRejection(ds) && d.action == Approval
    ensures !HasRejection(ds + [d]) && CountApproved(ds + [d]) == CountApproved(ds) + 1
  {
    var ds' := ds + [d];
    forall i | 0 <= i < |ds'| ensures ds'[i].action == Approval {
      if i < |ds| { assert ds'[i] == ds[i]; }
    }
  }

  /** Sequential mode, for any history: `take_action` compares the approvals
      on record, the new one included, with the length of the chain as the
      current policy builds it, without checking who cast them. */
  lemma SequentialCountRule(policies: seq<Policy>, managers: map<int, Option<int>>, e: ExpenseRecord,
                            p: Policy, approverId: int, comments: Option<string>)
    requires FindPolicy(policies, e.employeeId) == Some(p) && p.isSequential
    requires !HasRejection(e.decisions)
    requires NextApprovers(policies, managers, e).Ok? && approverId in NextApprovers(policies, managers, e).value
    ensures Chain(p, managers, e.employeeId).Ok?
    ensures var o := Act(policies, managers, e, approverId, "Approved", comments);
            var c := Chain(p, managers, e.employeeId).value;
      && o.record.decisions == e.decisions + [Decision(approverId, Approval, comments)]
      && (CountApproved(e.decisions) + 1 >= |c| ==>
            o.record.status == Approved && o.reply == Ok(ActionReply(Approved, None)))
      && (CountApproved(e.decisions) + 1 < |c| ==>
            && o.record.status == e.status
            && NextApprovers(policies, managers, o.record).Ok?
            && o.reply == Ok(ActionReply(e.status, Some(NextApprovers(policies, managers, o.record).value))))
  {
    var d := Decision(approverId, Approval, comments);
    ApprovalCounted(e.decisions, d);
    var recorded := e.(decisions := e.decisions + [d]);
    assert Act(policies, managers, e, approverId, "Approved", comments) == Evaluate(policies, managers, recorded);
  }

  /** Parallel mode, for any history: `take_action` approves when the approvals
      on record, the new one included, reach the required percentage of the
      current chain (100 when unset); failing that it rejects once there are as
      many decisions as chain members; else the status stays. */
  lemma ParallelCountRule(policies: seq<Policy>, managers: map<int, Option<int>>, e: ExpenseRecord,
                          p: Policy, approverId: int, comments: Option<string>)
    requires FindPolicy(policies, e.employeeId) == Some(p) && !p.isSequential
    requires !HasRejection(e.decisions)
    requires NextApprovers(policies, managers, e).Ok? && approverId in NextApprovers(policies, managers, e).value
    ensures Chain(p, managers, e.employeeId).Ok?
    ensures var o := Act(policies, managers, e, approverId, "Approved", comments);
            var c := Chain(p, managers, e.employeeId).value;
            var approved := CountApproved(e.decisions) + 1;
            var required := if p.minApprovalPercentage.Some? then p.minApprovalPercentage.value else 100;
      && o.record.decisions == e.decisions + [Decision(approverId, Approval, comments)]
      && (Percentage(approved, |c|) >= required ==>
            o.record.status == Approved && o.reply == Ok(ActionReply(Approved, None)))
      && (Percentage(approved, |c|) < required && |e.decisions| + 1 >= |c| ==>
            o.record.status == Rejected && o.reply == Ok(ActionReply(Rejected, None)))
      && (Percentage(approved, |c|) < required && |e.decisions| + 1 < |c| ==>
            && o.record.status == e.status
            && NextApprovers(policies, managers, o.record).Ok?
            && o.reply == Ok(ActionReply(e.status, Some(NextApprovers(policies, managers, o.record).value))))
  {
    var d := Decision(approverId, Approval, comments);
    ApprovalCounted(e.decisions, d);
    var recorded := e.(decisions := e.decisions + [d]);
    assert Act(policies, managers, e, approverId, "Approved", comments) == Evaluate(policies, managers, recorded);
  }

  /** A sequential policy with the chain [20, 21], and the same policy after
      an edit that replaces its approvers by [21, 22]. */
  function SequentialPolicy(): Policy
  {
    HalfPolicy().(isSequential := true)
  }

  function EditedPolicy(): Policy
  {
    SequentialPolicy().(approvers := [PolicyApprover(21, Some(1)), PolicyApprover(22, Some(2))])
  }

  lemma SequentialPolicyChain()
    ensures Chain(SequentialPolicy(), map[], 10) == Ok([20, 21])
  {
    HalfPolicyChain();
    assert StaticIds(SequentialPolicy()) == StaticIds(HalfPolicy());
    assert ManagerStep(SequentialPolicy(), map[], 10) == Ok(None);
  }

  lemma EditedPolicyChain()
    ensures Chain(EditedPolicy(), map[], 10) == Ok([21, 22])
  {
    var a21, a22 := PolicyApprover(21, Some(1)), PolicyApprover(22, Some(2));
    assert [a21, a22][1..] == [a22];
    assert [a22][1..] == [];
    assert SortByOrder([a22]) == [a22];
    assert SortByOrder([a21, a22]) == [a21, a22];
    assert StaticIds(EditedPolicy()) == [21, 22];
    assert ManagerStep(EditedPolicy(), map[], 10) == Ok(None);
    assert [21, 22][..1] == [21];
    assert [21][..0] == [];
    assert AddDistinct([], [21]) == [21];
    assert AddDistinct([], [21, 22]) == [21, 22];
  }

  /** Before the edit: 20, the head of the chain, approves; one of two
      approvals leaves the expense Submitted. */
  lemma SequentialFirstApproval(comments: Option<string>)
    ensures Act([SequentialPolicy()], map[], ExpenseRecord(10, Submitted, []), 20, "Approved", comments).record
         == ExpenseRecord(10, Submitted, [Decision(20, Approval, comments)])
  {
    var p := SequentialPolicy();
    var submitted := ExpenseRecord(10, Submitted, []);
    SequentialPolicyChain();
    assert OwnerIndex([p], 10) == Some(0);
    assert FindPolicy([p], 10) == Some(p);
    assert Acted([]) == {};
    assert NextApprovers([p], map[], submitted) == Ok([20]);
    SequentialCountRule([p], map[], submitted, p, 20, comments);
  }

  /** After the edit: 21, now the head of the chain and not yet acted, approves;
      the two approvals on record reach the chain's length. */
  lemma EditedSecondApproval(first: Option<string>, second: Option<string>)
    ensures var recorded := ExpenseRecord(10, Submitted, [Decision(20, Approval, first)]);
            var o := Act([EditedPolicy()], map[], recorded, 21, "Approved", second);
      && o.record == ExpenseRecord(10, Approved, [Decision(20, Approval, first), Decision(21, Approval, second)])
      && o.reply == Ok(ActionReply(Approved, None))
      && 22 !in Acted(o.record.decisions)
  {
    var p := EditedPolicy();
    var d20 := Decision(20, Approval, first);
    var recorded := ExpenseRecord(10, Submitted, [d20]);
    EditedPolicyChain();
    EditedNextApprover(first);
    assert FindPolicy([p], 10) == Some(p);
    assert !HasRejection([d20]);
    assert CountApproved([d20]) == 1;
    SequentialCountRule([p], map[], recorded, p, 21, second);
    var ds := [d20, Decision(21, Approval, second)];
    forall x | x in Acted(ds) ensures x == 20 || x == 21 {
      var i :| 0 <= i < |ds| && ds[i].approverId == x;
    }
  }

  /** After the edit, with 20's approval on record, 21 is the one to act. */
  lemma EditedNextApprover(first: Option<string>)
    ensures NextApprovers([EditedPolicy()], map[], ExpenseRecord(10, Submitted, [Decision(20, Approval, first)])) == Ok([21])
  {
    var p := EditedPolicy();
    var d20 := Decision(20, Approval, first);
    EditedPolicyChain();
    assert OwnerIndex([p], 10) == Some(0);
    assert FindPolicy([p], 10) == Some(p);
    forall x ensures x in Acted([d20]) <==> x == 20 {
      assert [d20][0].approverId == 20;
    }
    assert Acted([d20]) == {20};
  }

  /** With no snapshot of the chain, a decision cast under an earlier version
      of the policy still counts: approver 20 approves under the chain
      [20, 21]; the policy is then edited to [21, 22]; approver 21 approves and
      the expense becomes Approved although 22, a member of the current chain,
      never acted. */
  lemma PolicyEditApprovesEarly(c20: Option<string>, c21: Option<string>)
    ensures var first := Act([SequentialPolicy()], map[], ExpenseRecord(10, Submitted, []), 20, "Approved", c20);
            var second := Act([EditedPolicy()], map[], first.record, 21, "Approved", c21);
      && first.record.status == Submitted
      && second.record.status == Approved
      && second.reply == Ok(ActionReply(Approved, None))
      && 22 in Chain(EditedPolicy(), map[], 10).value
      && 22 !in Acted(second.record.decisions)
  {
    SequentialFirstApproval(c20);
    EditedSecondApproval(c20, c21);
    EditedPolicyChain();
  }

  /** Sequential mode, under `Consistent` (no policy edit since the first
      decision): once an eligible approver approves, the expense becomes
      Approved exactly when every chain member has acted; until then its status
      is kept and the next approver is returned. */
  lemma SequentialOutcome(policies: seq<Policy>, managers: map<int, Option<int>>, e: ExpenseRecord,
                          p: Policy, approverId: int, comments: Option<string>)
    requires Consistent(policies, managers, e)
    requires FindPolicy(policies, e.employeeId) == Some(p) && p.isSequential
    requires !HasRejection(e.decisions)
    requires NextApprovers(policies, managers, e).Ok? && approverId in NextApprovers(policies, managers, e).value
    ensures var o := Act(policies, managers, e, approverId, "Approved", comments);
            var c := Chain(p, managers, e.employeeId).value;
            var allActed := forall x :: x in c ==> x in Acted(o.record.decisions);
      && o.record.decisions == e.decisions + [Decision(approverId, Approval, comments)]
      && (allActed ==> o.record.status == Approved && o.reply == Ok(ActionReply(Approved, None)))
      && (!allActed ==>
            && o.record.status == e.status
            && NextApprovers(policies, managers, o.record).Ok?
            && o.reply == Ok(ActionReply(e.status, Some(NextApprovers(policies, managers, o.record).value))))
  {
    var o := Act(policies, managers, e, approverId, "Approved", comments);
    SequentialCountRule(policies, managers, e, p, approverId, comments);
    ActKeepsConsistent(policies, managers, e, approverId, "Approved", comments);
    DecisionsVersusChain(policies, managers, o.record, p);
  }

  /** Parallel mode, under `Consistent` (no policy edit since the first
      decision): once an eligible approver approves, the expense becomes
      Approved when the approvals reach the required percentage of the chain
      (100 when unset); failing that, Rejected once everyone has acted; else it
      stays as it is and the remaining approvers are returned. */
  lemma ParallelOutcome(policies: seq<Policy>, managers: map<int, Option<int>>, e: ExpenseRecord,
                        p: Policy, approverId: int, comments: Option<string>)
    requires Consistent(policies, managers, e)
    requires FindPolicy(policies, e.employeeId) == Some(p) && !p.isSequential
    requires !HasRejection(e.decisions)
    requires NextApprovers(policies, managers, e).Ok? && approverId in NextApprovers(policies, managers, e).value
    ensures var o := Act(policies, managers, e, approverId, "Approved", comments);
            var c := Chain(p, managers, e.employeeId).value;
            var approved := |o.record.decisions|;
            var required := if p.minApprovalPercentage.Some? then p.minApprovalPercentage.value else 100;
            var allActed := forall x :: x in c ==> x in Acted(o.record.decisions);
      && o.record.decisions == e.decisions + [Decision(approverId, Approval, comments)]
      && (approved * 100 >= required * |c| ==>
            o.record.status == Approved && o.reply == Ok(ActionReply(Approved, None)))
      && (approved * 100 < required * |c| && allActed ==>
            o.record.status == Rejected && o.reply == Ok(ActionReply(Rejected, None)))
      && (approved * 100 < required * |c| && !allActed ==>
            && o.record.status == e.status
            && NextApprovers(policies, managers, o.record).Ok?
            && o.reply == Ok(ActionReply(e.status, Some(NextApprovers(policies, managers, o.record).value))))
  {
    var o := Act(policies, managers, e, approverId, "Approved", comments);
    ParallelCountRule(policies, managers, e, p, approverId, comments);
    ActKeepsConsistent(policies, managers, e, approverId, "Approved", comments);
    var ds := o.record.decisions;
    var c := Chain(p, managers, e.employeeId).value;
    assert approverId in c;
    var required := if p.minApprovalPercentage.Some? then p.minApprovalPercentage.value else 100;
    PercentageThreshold(|ds|, |c|, required);
    DecisionsVersusChain(policies, managers, o.record, p);
  }

  /** Before anyone has acted, sequential mode offers the head of the chain and
      parallel mode the whole chain. */
  lemma InitialApprovers(policies: seq<Policy>, managers: map<int, Option<int>>, e: ExpenseRecord, p: Policy)
    requires e.decisions == []
    requires FindPolicy(policies, e.employeeId) == Some(p)
    requires Chain(p, managers, e.employeeId).Ok?
    ensures var c := Chain(p, managers, e.employeeId).value;
      NextApprovers(policies, managers, e) ==
        Ok(if !p.isSequential then c else if c == [] then [] else [c[0]])
  {
    assert Acted(e.decisions) == {};
    EligibleInitially(Chain(p, managers, e.employeeId).value, p.isSequential);
  }

  /** A parallel policy at 50% over approvers 20 and 21, owned by user 10. */
  function HalfPolicy(): Policy
  {
    Policy(1, 1, 10, "travel", None, false, false, Some(50),
           [PolicyApprover(20, Some(1)), PolicyApprover(21, Some(2))])
  }

  lemma HalfPolicyChain()
    ensures Chain(HalfPolicy(), map[], 10) == Ok([20, 21])
  {
    var a20, a21 := PolicyApprover(20, Some(1)), PolicyApprover(21, Some(2));
    assert [a20, a21][1..] == [a21];
    assert [a21][1..] == [];
    assert SortByOrder([a21]) == [a21];
    assert SortByOrder([a20, a21]) == [a20, a21];
    assert StaticIds(HalfPolicy()) == [20, 21];
    assert ManagerStep(HalfPolicy(), map[], 10) == Ok(None);
    assert [20, 21][..1] == [20];
    assert [20][..0] == [];
    assert AddDistinct([], [20]) == [20];
    assert AddDistinct([], [20, 21]) == [20, 21];
  }

  /** First step: approver 20 approves a Submitted expense, reaching 50%. */
  lemma HalfPolicyFirstApproval(comments: Option<string>)
    ensures var first := Act([HalfPolicy()], map[], ExpenseRecord(10, Submitted, []), 20, "Approved", comments);
      first == Finish(ExpenseRecord(10, Submitted, [Decision(20, Approval, comments)]), Approved)
  {
    var p := HalfPolicy();
    var submitted := ExpenseRecord(10, Submitted, []);
    HalfPolicyInitialApprovers();
    HalfPolicyChain();
    assert FindPolicy([p], 10) == Some(p);
    ParallelCountRule([p], map[], submitted, p, 20, comments);
    assert Percentage(1, 2) == 50;
  }

  /** Before anyone acts, the 50% parallel policy offers both approvers. */
  lemma HalfPolicyInitialApprovers()
    ensures NextApprovers([HalfPolicy()], map[], ExpenseRecord(10, Submitted, [])) == Ok([20, 21])
  {
    var p := HalfPolicy();
    assert OwnerIndex([p], 10) == Some(0);
    assert FindPolicy([p], 10) == Some(p);
    HalfPolicyChain();
    assert Acted([]) == {};
    UnactedNone([20, 21]);
  }

  /** Second step: approver 21 is still eligible on the Approved expense, and
      a rejection from 21 turns it Rejected. */
  lemma HalfPolicySecondRejection(first: Option<string>, second: Option<string>)
    ensures var approved := ExpenseRecord(10, Approved, [Decision(20, Approval, first)]);
            var o := Act([HalfPolicy()], map[], approved, 21, "Rejected", second);
      && o.record.status == Rejected
      && o.reply == Ok(ActionReply(Rejected, None))
  {
    var p := HalfPolicy();
    var d20 := Decision(20, Approval, first);
    var approved := ExpenseRecord(10, Approved, [d20]);
    assert OwnerIndex([p], 10) == Some(0);
    assert FindPolicy([p], 10) == Some(p);
    HalfPolicyChain();
    forall x ensures x in Acted([d20]) <==> x == 20 {
      assert [d20][0].approverId == 20;
    }
    assert Acted([d20]) == {20};
    assert [20, 21][1..] == [21];
    assert Unacted([21], {20}) == [21];
    assert Unacted([20, 21], {20}) == [21];
    assert NextApprovers([p], map[], approved) == Ok([21]);
    var d21 := Decision(21, Rejection, second);
    assert HasRejection([d20, d21]) by { assert [d20, d21][1].action == Rejection; }
  }

  /** `take_action` never looks at the status: an expense that became Approved
      can still be acted on, and end up Rejected. */
  lemma ApprovedExpenseCanBeRejected(c20: Option<string>, c21: Option<string>)
    ensures var submitted := ExpenseRecord(10, Submitted, []);
            var first := Act([HalfPolicy()], map[], submitted, 20, "Approved", c20);
            var second := Act([HalfPolicy()], map[], first.record, 21, "Rejected", c21);
      && first.record.status == Approved
      && first.reply == Ok(ActionReply(Approved, None))
      && second.record.status == Rejected
      && second.reply == Ok(ActionReply(Rejected, None))
  {
    HalfPolicyFirstApproval(c20);
    HalfPolicySecondRejection(c20, c21);
  }

  // ---------------------------------------------------------------------------
  // Policy storage (create_or_update_policy)
  // ---------------------------------------------------------------------------

  /** The request dict of `create_or_update_policy`; None marks an absent key. */
  datatype PolicyInput = PolicyInput(
    id: Option<int>,
    companyId: Option<int>,
    userId: Option<int>,
    name: Option<string>,
    overrideManagerId: Option<int>,
    isManagerApprover: Option<bool>,
    isSequential: Option<bool>,
    minApprovalPercentage: Option<int>,
    approvers: seq<ApproverInput>)

  function GetOr<T>(o: Option<T>, default: T): T
  {
    if o.Some? then o.value else default
  }

  /** Position of the first stored policy with the given id. */
  function IdIndex(policies: seq<Policy>, id: int): (r: Option<nat>)
    ensures r.None? <==> forall i :: 0 <= i < |policies| ==> policies[i].id != id
    ensures r.Some? ==> r.value < |policies| && policies[r.value].id == id
  {
    if policies == [] then None
    else if policies[0].id == id then Some(0)
    else
      match IdIndex(policies[1..], id)
      case None => None
      case Some(k) => Some(k + 1)
  }

  /** An existing policy after an update: absent keys keep the old value, except
      the override manager and the percentage, which are always overwritten, and
      the approver list, which is replaced. */
  function UpdatedPolicy(p: Policy, data: PolicyInput): (q: Policy)
    ensures q.id == p.id && q.approvers == DefaultOrders(data.approvers)
    ensures q.overrideManagerId == data.overrideManagerId
    ensures q.minApprovalPercentage == data.minApprovalPercentage
    ensures q.companyId == GetOr(data.companyId, p.companyId)
    ensures q.userId == GetOr(data.userId, p.userId)
    ensures q.name == GetOr(data.name, p.name)
    ensures q.isManagerApprover == GetOr(data.isManagerApprover, p.isManagerApprover)
    ensures q.isSequential == GetOr(data.isSequential, p.isSequential)
  {
    Policy(p.id,
           GetOr(data.companyId, p.companyId),
           GetOr(data.userId, p.userId),
           GetOr(data.name, p.name),
           data.overrideManagerId,
           GetOr(data.isManagerApprover, p.isManagerApprover),
           GetOr(data.isSequential, p.isSequential),
           data.minApprovalPercentage,
           DefaultOrders(data.approvers))
  }

  /** A new policy from a request carrying its three required keys. */
  function NewPolicy(id: int, data: PolicyInput): Policy
    requires data.companyId.Some? && data.userId.Some? && data.name.Some?
  {
    Policy(id, data.companyId.value, data.userId.value, data.name.value,
           data.overrideManagerId,
           GetOr(data.isManagerApprover, false),
           GetOr(data.isSequential, false),
           data.minApprovalPercentage,
           DefaultOrders(data.approvers))
  }

  /** A policy added for a user without one is the policy found for that user. */
  lemma {:induction false} AddedPolicyFound(policies: seq<Policy>, q: Policy)
    requires FindPolicy(policies, q.userId).None?
    ensures FindPolicy(policies + [q], q.userId) == Some(q)
  {
    assert OwnerIndex(policies + [q], q.userId) == Some(|policies|) by {
      AddedOwnerIndex(policies, q, q.userId);
    }
  }

  /** A policy added for a user who already has one is never found: the earlier
      policy keeps deciding (no uniqueness check on creation). */
  lemma {:induction false} AddedPolicyShadowed(policies: seq<Policy>, q: Policy, userId: int)
    requires FindPolicy(policies, userId).Some?
    ensures FindPolicy(policies + [q], userId) == FindPolicy(policies, userId)
  {
    AddedOwnerIndex(policies, q, userId);
    var k := OwnerIndex(policies, userId).value;
    assert (policies + [q])[k] == policies[k];
  }

  lemma {:induction false} AddedOwnerIndex(policies: seq<Policy>, q: Policy, userId: int)
    ensures OwnerIndex(policies + [q], userId) ==
      if OwnerIndex(policies, userId).Some? then OwnerIndex(policies, userId)
      else if q.userId == userId then Some(|policies|) else None
  {
    if policies != [] {
      assert (policies + [q])[1..] == policies[1..] + [q];
      AddedOwnerIndex(policies[1..], q, userId);
    } else {
      assert [q][1..] == [];
    }
  }

  // ---------------------------------------------------------------------------
  // The service
  // ---------------------------------------------------------------------------

  /** The expense `id` is Submitted and `approverId` is among its next approvers. */
  predicate PendingFor(expenses: map<int, ExpenseRecord>, policies: seq<Policy>,
                       managers: map<int, Option<int>>, approverId: int, id: int)
  {
    && id in expenses
    && expenses[id].status == Submitted
    && NextApprovers(policies, managers, expenses[id]).Ok?
    && approverId in NextApprovers(policies, managers, expenses[id]).value
  }

  /** `ApprovalsService`, with its tables in memory: the expenses by id (status
      and decision records), the policies in storage order, each user's
      `manager_id`, and the next policy id the database would assign. */
  class ApprovalsService {
    var expenses: map<int, ExpenseRecord>
    var policies: seq<Policy>
    var managers: map<int, Option<int>>
    var nextPolicyId: int

    constructor (expenses: map<int, ExpenseRecord>, policies: seq<Policy>, managers: map<int, Option<int>>, nextPolicyId: int)
      ensures this.expenses == expenses && this.policies == policies
      ensures this.managers == managers && this.nextPolicyId == nextPolicyId
    {
      this.expenses := expenses;
      this.policies := policies;
      this.managers := managers;
      this.nextPolicyId := nextPolicyId;
    }

    /** `submit_expense_for_approval`: sets Submitted whatever the current
        status (and keeps it even when computing the approvers then fails),
        then returns the next approvers. */
    method SubmitExpenseForApproval(expenseId: int) returns (r: Result<seq<int>, ApprovalError>)
      modifies this
      ensures policies == old(policies) && managers == old(managers) && nextPolicyId == old(nextPolicyId)
      ensures expenseId !in old(expenses) ==> r == Err(ExpenseNotFound) && expenses == old(expenses)
      ensures expenseId in old(expenses) ==>
        var e := old(expenses)[expenseId].(status := Submitted);
        expenses == old(expenses)[expenseId := e] && r == NextApprovers(policies, managers, e)
    {
      if expenseId !in expenses {
        return Err(ExpenseNotFound);
      }
      var expense := expenses[expenseId].(status := Submitted);
      expenses := expenses[expenseId := expense];
      r := NextApprovers(policies, managers, expense);
    }

    /** `take_action`. */
    method TakeAction(expenseId: int, approverId: int, action: string, comments: Option<string>)
      returns (r: Result<ActionReply, ApprovalError>)
      modifies this
      ensures policies == old(policies) && managers == old(managers) && nextPolicyId == old(nextPolicyId)
      ensures expenseId !in old(expenses) ==> r == Err(ExpenseNotFound) && expenses == old(expenses)
      ensures expenseId in old(expenses) ==>
        var o := Act(policies, managers, old(expenses)[expenseId], approverId, action, comments);
        expenses == old(expenses)[expenseId := o.record] && r == o.reply
    {
      if expenseId !in expenses {
        return Err(ExpenseNotFound);
      }
      var expense := expenses[expenseId];
      var validNext := NextApprovers(policies, managers, expense);
      if validNext.Err? {
        return Err(validNext.error);
      }
      if approverId !in validNext.value {
        return Err(NotAuthorized);
      }
      r := RecordDecision(expenseId, approverId, action, comments);
    }

    /** The part of `take_action` after the eligibility check: stores the
        decision, then rejects on any rejection or evaluates the status. */
    method RecordDecision(expenseId: int, approverId: int, action: string, comments: Option<string>)
      returns (r: Result<ActionReply, ApprovalError>)
      requires expenseId in expenses
      modifies this
      ensures policies == old(policies) && managers == old(managers) && nextPolicyId == old(nextPolicyId)
      ensures var o := Record(policies, managers, old(expenses)[expenseId], approverId, action, comments);
        expenses == old(expenses)[expenseId := o.record] && r == o.reply
    {
      var expense := expenses[expenseId];
      var record := Decision(approverId, RecordedAction(action), comments);
      expense := expense.(decisions := expense.decisions + [record]);
      expenses := expenses[expenseId := expense];

      if HasRejection(expense.decisions) {
        expense := expense.(status := Rejected);
        expenses := expenses[expenseId := expense];
        return Ok(ActionReply(Rejected, None));
      }

      r := EvaluateStatus(expenseId, expense);
    }

    /** The status evaluation of `take_action` once the new decision is stored
        and no decision rejects. */
    method EvaluateStatus(expenseId: int, expense: ExpenseRecord) returns (r: Result<ActionReply, ApprovalError>)
      requires expenseId in expenses && expenses[expenseId] == expense
      modifies this
      ensures policies == old(policies) && managers == old(managers) && nextPolicyId == old(nextPolicyId)
      ensures var o := Evaluate(policies, managers, expense);
        expenses == old(expenses)[expenseId := o.record] && r == o.reply
    {
      var expense := expense;
      var policy := FindPolicy(policies, expense.employeeId);
      var approverOrder: Result<seq<int>, ApprovalError> := Ok([]);
      if policy.Some? {
        approverOrder := PolicyApproverList(policy.value, managers, expense.employeeId);
      }
      if approverOrder.Err? {
        return Err(approverOrder.error);
      }
      var approvedCount := CountApproved(expense.decisions);
      var totalRequired := |approverOrder.value|;

      if policy.Some? && policy.value.isSequential {
        if approvedCount >= totalRequired {
          expense := expense.(status := Approved);
          expenses := expenses[expenseId := expense];
          return Ok(ActionReply(Approved, None));
        }
      } else {
        var pctRequired := 100;
        if policy.Some? && policy.value.minApprovalPercentage.Some? {
          pctRequired := policy.value.minApprovalPercentage.value;
        }
        var pct := approvedCount * 100 / (if totalRequired > 0 then totalRequired else 1);
        if pct >= pctRequired {
          expense := expense.(status := Approved);
          expenses := expenses[expenseId := expense];
          return Ok(ActionReply(Approved, None));
        }
        if |expense.decisions| >= totalRequired {
          expense := expense.(status := Rejected);
          expenses := expenses[expenseId := expense];
          return Ok(ActionReply(Rejected, None));
        }
      }
      match NextApprovers(policies, managers, expense) {
        case Ok(next) => return Ok(ActionReply(expense.status, Some(next)));
        case Err(err) => return Err(err);
      }
    }

    /** `get_pending_for_approver`: the Submitted expenses whose current next
        approvers include `approverId`; fails if any Submitted expense's
        approvers cannot be computed. */
    method GetPendingForApprover(approverId: int) returns (r: Result<seq<int>, ApprovalError>)
      ensures r.Ok? ==> NoDup(r.value)
      ensures r.Ok? ==> forall id :: id in r.value <==> PendingFor(expenses, policies, managers, approverId, id)
      ensures r.Err? <==> exists id :: id in expenses && expenses[id].status == Submitted &&
                                       NextApprovers(policies, managers, expenses[id]).Err?
    {
      var remaining := expenses.Keys;
      var result: seq<int> := [];
      while remaining != {}
        invariant remaining <= expenses.Keys
        invariant NoDup(result)
        invariant forall id :: id in result ==> id !in remaining
        invariant forall id :: id in result <==>
          id !in remaining && PendingFor(expenses, policies, managers, approverId, id)
        invariant forall id :: id in expenses && id !in remaining && expenses[id].status == Submitted ==>
          NextApprovers(policies, managers, expenses[id]).Ok?
        decreases remaining
      {
        var id := Pick(remaining);
        remaining := remaining - {id};
        var expense := expenses[id];
        if expense.status == Submitted {
          var next := NextApprovers(policies, managers, expense);
          if next.Err? {
            return Err(next.error);
          }
          if approverId in next.value {
            result := result + [id];
          }
        }
      }
      return Ok(result);
    }

    /** `create_or_update_policy`: updates the policy with the given id, or
        stores a new one; either way the approver rows are rebuilt from the
        request, defaulting each missing `order_index` to its position plus one. */
    method CreateOrUpdatePolicy(data: PolicyInput) returns (r: Result<int, ApprovalError>)
      modifies this
      ensures expenses == old(expenses) && managers == old(managers)
      ensures Truthy(data.id) ==> nextPolicyId == old(nextPolicyId)
      ensures Truthy(data.id) && IdIndex(old(policies), data.id.value).None? ==>
        r == Err(PolicyNotFound) && policies == old(policies)
      ensures Truthy(data.id) && IdIndex(old(policies), data.id.value).Some? ==>
        var k := IdIndex(old(policies), data.id.value).value;
        r == Ok(data.id.value) && policies == old(policies)[k := UpdatedPolicy(old(policies)[k], data)]
      ensures !Truthy(data.id) ==>
        if data.companyId.None? || data.userId.None? || data.name.None? then
          r == Err(MissingField) && policies == old(policies) && nextPolicyId == old(nextPolicyId)
        else
          && r == Ok(old(nextPolicyId))
          && policies == old(policies) + [NewPolicy(old(nextPolicyId), data)]
          && nextPolicyId == old(nextPolicyId) + 1
    {
      var rows: seq<PolicyApprover> := [];
      for idx := 0 to |data.approvers|
        invariant |rows| == idx
        invariant forall j :: 0 <= j < idx ==> rows[j] == DefaultOrder(data.approvers[j], j)
      {
        var a := data.approvers[idx];
        var orderIndex := if a.orderIndex.Some? then a.orderIndex else Some(idx + 1);
        rows := rows + [PolicyApprover(a.approverId, orderIndex)];
      }
      assert rows == DefaultOrders(data.approvers);

      if Truthy(data.id) {
        var k := IdIndex(policies, data.id.value);
        if k.None? {
          return Err(PolicyNotFound);
        }
        var p := policies[k.value];
        p := p.(companyId := GetOr(data.companyId, p.companyId),
                userId := GetOr(data.userId, p.userId),
                name := GetOr(data.name, p.name),
                overrideManagerId := data.overrideManagerId,
                isManagerApprover := GetOr(data.isManagerApprover, p.isManagerApprover),
                isSequential := GetOr(data.isSequential, p.isSequential),
                minApprovalPercentage := data.minApprovalPercentage,
                approvers := rows);
        policies := policies[k.value := p];
        return Ok(p.id);
      }
      if data.companyId.None? || data.userId.None? || data.name.None? {
        return Err(MissingField);
      }
      var p := Policy(nextPolicyId, data.companyId.value, data.userId.value, data.name.value,
                      data.overrideManagerId, GetOr(data.isManagerApprover, false),
                      GetOr(data.isSequential, false), data.minApprovalPercentage, rows);
      policies := policies + [p];
      nextPolicyId := nextPolicyId + 1;
      return Ok(p.id);
    }
  }
}
