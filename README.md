# Expense approval engine — Dafny model

This project models the core of an expense-tracking backend. It has three services.

- **Approvals**, in `src/approvals/main.py`:
  - builds an expense's approver chain from the submitter's approval policy: an optional manager step, then the policy's static approvers in `order_index` order, without duplicates;
  - works out who may act next, in sequential or parallel mode;
  - records approve/reject decisions and moves the expense to Approved or Rejected;
  - lists the expenses pending for an approver;
  - stores policies, with `order_index` defaulting.
- **Expenses**, in `src/expenses/main.py`: the per-status totals of an employee's expenses, and the default "Draft" status of a new expense.
- **Users**, in `src/users/main.py`:
  - the guard chain of `create_user`;
  - the role filter of the company listing;
  - the salted `salt:digest` password format and its check;
  - the field-by-field update of a user;
  - login.

The modules are laid out as follows.

- `common.dfy` (`Common`): Option/Result, the expense status, Python truthiness of optional ids, and duplicate-freedom with a pigeonhole lemma.
- `approval_chain.dfy` (`ApprovalChain`): the pure half of the approval engine. It covers the stable sort on `order_index or 0`, the chain, eligibility and order defaulting.
- `approvals.dfy` (`Approvals`): decision records, `take_action` as the function `Act`, and the class `ApprovalsService`. The class holds the expenses, policies and the users' manager column as fields, and its methods are proved equal to the functions.
- `expenses.dfy` (`Expenses`): the class `ExpensesService`, with the totals loop proved against reference sums.
- `users.dfy` (`Users`): the class `UsersService`, with password hashing over an arbitrary digest function.

SHA-256 is the function parameter `sha256`. The random salt is the parameter `salt`. Amounts are whole hundredths, because the `Numeric(10, 2)` sums are exact.

## Model

| member | source | states |
|---|---|---|
| ApprovalChain.SortByOrder | src/approvals/main.py:152 | the sorted approver list is a permutation of the stored one |
| ApprovalChain.SortByOrderSorted | src/approvals/main.py:152 | the sort key `order_index or 0` is non-decreasing along the sorted list |
| ApprovalChain.SortByOrderStable | src/approvals/main.py:152 | entries with equal keys keep their stored relative order (Python's sort is stable) |
| ApprovalChain.SortByOrderOfSorted | src/approvals/main.py:152 | a list already in key order is left as it is |
| ApprovalChain.AddDistinctShape | src/approvals/main.py:143-154 | the append-unless-present loop keeps its initial prefix, never holds a duplicate, holds exactly the initial ids plus the appended ones, and appends new ids in their first-occurrence order |
| ApprovalChain.ManagerStep | src/approvals/main.py:137-150 | without a manager step there is no head; a truthy override is used as is; otherwise the employee's manager is looked up, and a missing employee is an error; a zero or absent manager adds no step |
| ApprovalChain.ChainShape | src/approvals/main.py:142-155 | the chain has no duplicate ids; the manager step, when present, is first; its members are exactly the manager and the policy's approvers |
| ApprovalChain.ChainStaticOrder | src/approvals/main.py:151-154 | after the manager step the static approvers follow in non-decreasing `order_index or 0` |
| ApprovalChain.PolicyApproverList | src/approvals/main.py:142-155 | the imperative loop builds exactly the chain |
| ApprovalChain.FirstUnacted | src/approvals/main.py:174-178 | sequential mode offers the first chain member who has not acted, every earlier one having acted, and nobody once all have acted |
| ApprovalChain.Unacted | src/approvals/main.py:179-180 | parallel mode offers exactly the chain members who have not acted, in chain order, without duplicates |
| ApprovalChain.Eligible | src/approvals/main.py:172-180 | the eligible approvers are chain members who have not acted; sequential mode offers at most one, the first unacted; parallel mode offers all unacted |
| ApprovalChain.EligibleInitially | src/approvals/main.py:174-180 | before any decision, sequential mode offers the chain head and parallel mode the whole chain |
| ApprovalChain.DefaultOrder | src/approvals/main.py:55-61 | a stored approver row keeps the requested id, and its `order_index` is the given one or else its 1-based request position |
| ApprovalChain.DefaultOrdersKeepRequestOrder | src/approvals/main.py:54-61 | when no entry gives an `order_index`, the sorted chain follows the request order |
| Approvals.OwnerIndex | src/approvals/main.py:126-131 | the applicable policy is the first stored policy whose owner is the submitter |
| Approvals.NextApprovers | src/approvals/main.py:157-180 | no policy means no approvers; otherwise an error exactly when the chain cannot be built (a failed manager lookup), else the eligible approvers of the current chain: the first unacted one in sequential mode, every unacted one in parallel mode; they have not acted and belong to the chain |
| Approvals.HasRejection | src/approvals/main.py:221-227 | true exactly when some recorded decision is a rejection, i.e. false exactly when every decision approves |
| Approvals.RejectionIffShortCount | src/approvals/main.py:221-227 | a rejection is on record exactly when the approved count falls short of the number of decisions |
| Approvals.CountApproved | src/approvals/main.py:263 | the approved count is at most the number of decisions, and equals it when there is no rejection |
| Approvals.PercentageThreshold | src/approvals/main.py:277-279 | the integer percentage reaches the requirement exactly when approved × 100 ≥ required × total |
| Approvals.RecordedAction | src/approvals/main.py:243 | only the string "Approved" records an approval; anything else records a rejection |
| Approvals.Act | src/approvals/main.py:229-290 | an approver not among the next approvers changes nothing and gets an error; an eligible approver's decision is appended, exactly one, recorded as an approval only for "Approved"; any rejection among the decisions sets Rejected |
| Approvals.Record | src/approvals/main.py:240-254 | an eligible approver's decision is appended, recorded as an approval only for "Approved"; any rejection among the decisions makes the expense Rejected |
| Approvals.NoSecondDecision | src/approvals/main.py:236-238 | an approver who already decided is refused and nothing changes |
| Approvals.ActKeepsVotersDistinct | src/approvals/main.py:236-247 | each approver decides at most once per expense |
| Approvals.FreshConsistent | src/approvals/main.py:183-192 | a newly submitted expense whose chain can be built starts in the invariant |
| Approvals.ActKeepsConsistent | src/approvals/main.py:229-290 | every decision comes from a chain member and appears once; `take_action` keeps this |
| Approvals.DecisionsVersusChain | src/approvals/main.py:264-285 | under the invariant the decisions are at most the chain length, and equal it exactly when every chain member has acted |
| Approvals.ApprovalCounted | src/approvals/main.py:263 | an approval added to a history without rejections raises the approval count by one and adds no rejection |
| Approvals.SequentialCountRule | src/approvals/main.py:256-274 | for any history, in sequential mode an eligible approval makes the expense Approved exactly when the approvals on record, the new one included, reach the length of the chain built from the current policy; otherwise the status stays and the next approvers are returned |
| Approvals.ParallelCountRule | src/approvals/main.py:256-290 | for any history, in parallel mode an eligible approval makes the expense Approved when the approval count meets the required percentage of the current chain (100 when unset); else Rejected when the decisions on record reach the chain's length; else the status stays and the next approvers are returned |
| Approvals.SequentialOutcome | src/approvals/main.py:266-274 | under `Consistent` (no policy edit since the first decision), in sequential mode an approval makes the expense Approved exactly when every chain member has acted; otherwise the status stays and the next approvers are returned |
| Approvals.ParallelOutcome | src/approvals/main.py:275-290 | under `Consistent` (no policy edit since the first decision), in parallel mode an approval makes the expense Approved when the percentage is met; else Rejected once everyone acted; else the status stays and the next approvers are returned |
| Approvals.InitialApprovers | src/approvals/main.py:157-180 | on a fresh expense the next approvers are the chain head (sequential) or the whole chain (parallel) |
| Approvals.HalfPolicyChain | src/approvals/main.py:142-155 | a policy with static approvers 20 and 21 yields the chain [20, 21] |
| Approvals.HalfPolicyInitialApprovers | src/approvals/main.py:172-180 | before anyone acts, the parallel policy offers both approvers 20 and 21 |
| Approvals.HalfPolicyFirstApproval | src/approvals/main.py:275-282 | at 50% one approval of two makes the expense Approved |
| Approvals.HalfPolicySecondRejection | src/approvals/main.py:235-254 | the other approver is still eligible on the Approved expense, and a rejection turns it Rejected |
| Approvals.ApprovedExpenseCanBeRejected | src/approvals/main.py:229-254 | `take_action` never checks the status, so an Approved expense can still be rejected |
| Approvals.SequentialPolicyChain | src/approvals/main.py:142-155 | the sequential policy with static approvers 20 and 21 yields the chain [20, 21] |
| Approvals.EditedPolicyChain | src/approvals/main.py:142-155 | after its approvers are replaced by 21 and 22, the chain is [21, 22] |
| Approvals.SequentialFirstApproval | src/approvals/main.py:266-274 | under [20, 21], approval by 20 records the decision and leaves the expense Submitted |
| Approvals.EditedNextApprover | src/approvals/main.py:157-180 | after the edit, with 20's approval on record, the sequential chain [21, 22] offers 21 |
| Approvals.EditedSecondApproval | src/approvals/main.py:256-271 | under [21, 22], with 20's approval on record, approval by 21 makes the expense Approved although 22 has not acted |
| Approvals.PolicyEditApprovesEarly | src/approvals/main.py:256-271 | the chain is recomputed from the current policy on every call, so an approval recorded before a policy edit counts toward the new chain: the expense is Approved while 22, a member of the current chain, never acted |
| Approvals.UpdatedPolicy | src/approvals/main.py:30-36 | an update keeps absent fields, except the override and the minimum percentage, which are always overwritten; the approvers are replaced |
| Approvals.AddedPolicyFound | src/approvals/main.py:41-50 | a new policy for a user without one is the policy found for that user |
| Approvals.AddedPolicyShadowed | src/approvals/main.py:41-50 | a new policy for a user who already has one is never found; the earlier one stays in force |
| Approvals.ApprovalsService.SubmitExpenseForApproval | src/approvals/main.py:183-195 | an unknown expense is an error; otherwise the status is set to Submitted first, then the next approvers are returned |
| Approvals.ApprovalsService.TakeAction | src/approvals/main.py:229-293 | an unknown expense is an error; otherwise the new state and reply are exactly those of `Act` |
| Approvals.ApprovalsService.GetPendingForApprover | src/approvals/main.py:197-219 | the result lists exactly the Submitted expenses whose next approvers include the approver, once each; a failed chain lookup on any Submitted expense is an error |
| Approvals.ApprovalsService.CreateOrUpdatePolicy | src/approvals/main.py:21-68 | a truthy id updates that policy or fails when unknown; otherwise a new policy with the next id is added, and a missing required key fails |
| Expenses.OfEmployee | src/expenses/main.py:14 | the query returns exactly the employee's expenses |
| Expenses.TotalIsSumOfMatching | src/expenses/main.py:15-21 | each running total is the sum of the amounts of the rows with the matching status |
| Expenses.TotalsPartition | src/expenses/main.py:15-21 | the five status totals add up to the sum of all amounts, so the three reported totals leave out exactly Rejected and Pending |
| Expenses.OtherStatusIgnored | src/expenses/main.py:15-21 | the total for a status does not depend on the amount of any row with another status |
| Expenses.NewExpense | src/expenses/main.py:94-109 | a new expense has status "Draft" unless another is given |
| Expenses.AddedExpenseListed | src/expenses/main.py:7-43 | a newly added expense of the employee is appended to the listing, and its amount goes only to the total of its status |
| Expenses.ExpensesService.GetExpenseDetailsForEmployee | src/expenses/main.py:7-43 | the loop's totals are the sums over the employee's Draft, Submitted and Approved expenses, and the list is all the employee's expenses in query order |
| Expenses.ExpensesService.AddExpense | src/expenses/main.py:83-115 | an unparsable date adds nothing and returns false; otherwise one row with the next id is appended |
| Users.ParseRole | src/users/main.py:222 | exactly "Admin", "Manager" and "Employee" are accepted roles |
| Users.RoleName | src/users/main.py:222 | every role's stored name is accepted back as that role |
| Users.SplitCount | src/users/main.py:39 | `split(':')` yields one piece more than there are colons |
| Users.JoinSplit | src/users/main.py:39 | joining the pieces of a split gives back the string |
| Users.SplitJoin | src/users/main.py:39 | splitting colon-free pieces joined by colons gives back the pieces |
| Users.HashPassword | src/users/main.py:13-25 | the stored string starts with the salt and holds exactly one colon more than salt and digest together |
| Users.VerifyPassword | src/users/main.py:27-42 | verification succeeds only on a string with exactly one colon, and exactly on the strings that hashing this password with some colon-free salt and digest produces |
| Users.HashPasswordParts | src/users/main.py:23-40 | a stored hash splits back into exactly its salt and digest, when neither contains a colon |
| Users.VerifyHashedPassword | src/users/main.py:23-40 | a password verifies against a stored hash exactly when its salted digest equals the stored one; the hashed password itself verifies |
| Users.VerifyRejectsMalformed | src/users/main.py:38-42 | a stored string without exactly one colon never verifies |
| Users.FindByEmail | src/users/main.py:335 | the first user with the email, or none when no user has it |
| Users.FindById | src/users/main.py:182 | the first user with the id, or none when no user has it |
| Users.UsersOfType | src/users/main.py:141-154 | "all" lists exactly the company's users; "admin", "manager" and "employee" exactly those with that role; any other type is an error |
| Users.RoleListsPartition | src/users/main.py:144-149 | the three role listings together are as long as the full listing |
| Users.Authenticate | src/users/main.py:335-347 | login returns the first user with the email exactly when that user's stored hash verifies the password; otherwise, and when no user has the email, it fails with invalid credentials |
| Users.NewUserAuthenticates | src/users/main.py:335-344 | a user created with a fresh email can log in with the password it was created with |
| Users.CreateCheck | src/users/main.py:221-259 | the error is the first failing guard: role, then email, then company for a non-Admin, then known company, then known manager; success exactly when all pass |
| Users.Current | src/users/main.py:188-189 | the current value of a column, as the update that would set it |
| Users.Apply | src/users/main.py:189 | one `setattr` changes only its own column, and a non-column key changes nothing |
| Users.LastFor | src/users/main.py:188-189 | the last update naming a column, or none when no update names it |
| Users.ApplyAllFields | src/users/main.py:188-189 | after the updates each column holds its last given value, or its old value when not given |
| Users.ApplyAllOthers | src/users/main.py:188-189 | keys that name no column leave the user unchanged |
| Users.UsersService.CreateUser | src/users/main.py:204-295 | a failing guard returns its error and stores nothing; otherwise one user with the hashed password and the next id is appended; unique emails stay unique |
| Users.UsersService.UpdateUserWith | src/users/main.py:177-202 | an unknown id is an error and changes nothing; otherwise the first user with the id becomes the result of applying every update in order |

## Left out

- Database sessions, commits, rollbacks and the catch-all `except` blocks are not modelled. The tables are the fields of the service classes.
  - Failures that would come only from the database are not modelled. These include foreign keys, the `nullable=False` company of an Admin created without one, and the status enum.
  - The status enum of the schema lists only Pending, Approved and Rejected. The services write "Draft" and "Submitted", and the model accepts these as they are.
  - The model assumes the schema the services expect, not the one in src/database/models.py. That file has no `ApprovalPolicyApprover` table. It has none of the policy columns the approval service reads, such as `user_id`, `is_manager_approver`, `is_sequential` and `min_approval_percentage`. Its `ExpenseApprovalStatus.step_id` is NOT NULL, but `take_action` never sets it. Against that schema these operations would fail at the database, and the model does not capture those failures.
- Concurrency is not modelled: every service call runs alone, from start to finish. `take_action` checks eligibility (src/approvals/main.py:236) and commits the decision (:247-248) as separate steps, with no lock. So two concurrent calls by the same approver can both pass the check. Approvals.NoSecondDecision and Approvals.ActKeepsVotersDistinct ("each approver decides at most once per expense") hold only when calls run one at a time.
- Approvals.UpdatedPolicy: an explicit JSON `null` for `is_manager_approver` or `is_sequential` on update stores `bool(None)`, that is False (src/approvals/main.py:34-35). The model treats it like an absent key and keeps the old value. Likewise, an explicit `null` `company_id`, `user_id` or `name` would fail in `int(None)` or store a null name, and the model keeps the old value.
- The approval chain is not snapshotted when an expense is submitted. `take_action` rebuilds it from the current policy on every call (src/approvals/main.py:256-264), and it counts every decision on record, including decisions by approvers no longer in the chain. Approvals.SequentialOutcome and Approvals.ParallelOutcome therefore assume `Consistent`, that is, no policy edit since the first decision. Approvals.SequentialCountRule and Approvals.ParallelCountRule state the rule for any history, and Approvals.PolicyEditApprovesEarly shows an expense approved early after an edit.
- Approvals.PercentageThreshold: models `int((approved / max(total, 1)) * 100)` as exact floor division. Python's float arithmetic can land one below, e.g. 57/100 gives 56.
- Approvals.ApprovalsService.GetPendingForApprover: the expenses are kept in a map, so the order of the returned ids is not modelled. The returned dicts are reduced to the expense ids.
- Approvals.ApprovalsService.CreateOrUpdatePolicy: an explicit `null` `order_index` in a request is treated like an absent key. `int(...)` conversion errors on malformed ids are not modelled.
- The manager lookup of `_get_employee_manager` is the `managers` map. The crash on a missing employee becomes the error `EmployeeNotFound`.
- `print` calls, the LLM, mail, countries and currencies services, the admin signup, and the HTTP wiring are not part of this model.
- `get_policies_by_company` and `get_policy_by_user` are not part of this model. They are read-only serializers.
- Expenses.ExpensesService.AddExpense: `datetime.strptime` is given as its outcome, the parsed date or none. An arbitrary status string is restricted to the five known statuses.
- Users.UsersService.CreateUser: the manager id is optional. A given manager id is always looked up, because it arrives as a string, which is truthy unless empty.
- Users.UsersService.UpdateUserWith: a value of the wrong type for a column is not modelled, since that fails only at commit. Changes to the `created_at` and `updated_at` timestamps are not modelled either.
- Users.Authenticate: returns the stored user rather than its dict. The `str(...)` conversions of ids are not modelled.
- Timestamps (`action_at`, `created_at`) and currency conversion are not modelled.
