/** The expense listing and creation of src/expenses/main.py: the per-status
    totals of one employee's expenses and the default status of a new expense. */
module Expenses {
  import opened Common

  /** A calendar date, as `datetime.strptime(..., "%Y-%m-%d")` yields it. */
  datatype Date = Date(year: int, month: int, day: int)

  /** A row of the expenses table. Amounts are Numeric(10, 2) columns, kept
      here as whole hundredths so that the sums are exact, as Decimal's are. */
  datatype Expense = Expense(
    id: int,
    employeeId: int,
    paidById: int,
    amount: int,
    currencyCode: string,
    amountInCompanyCurrency: int,
    category: string,
    description: string,
    expenseDate: Date,
    remarks: string,
    receiptImageBase64: string,
    status: ExpenseStatus)

  /** The dict returned by `get_expense_details_for_employee`; each entry of
      `expenseList` carries every column of its expense. */
  datatype Details = Details(
    pendingTotal: int,
    waitingApprovalTotal: int,
    approvedTotal: int,
    expenseList: seq<Expense>)

  /** The employee's expenses, in table order (the query). */
  function OfEmployee(table: seq<Expense>, employeeId: int): (r: seq<Expense>)
    ensures forall e :: e in r <==> e in table && e.employeeId == employeeId
  {
    if table == [] then []
    else
      var pre := table[..|table| - 1];
      var last := table[|table| - 1];
      assert table == pre + [last];
      OfEmployee(pre, employeeId) + if last.employeeId == employeeId then [last] else []
  }

  /** The running total for status `s` after the rows of `rows`, as the loop
      accumulates it. */
  function SumWithStatus(rows: seq<Expense>, s: ExpenseStatus): int
  {
    if rows == [] then 0
    else
      var last := rows[|rows| - 1];
      SumWithStatus(rows[..|rows| - 1], s) + if last.status == s then last.amount else 0
  }

  /** Reference definitions: the sum of a list of amounts, and the rows with a
      given status. */
  function Sum(rows: seq<Expense>): int
  {
    if rows == [] then 0 else rows[0].amount + Sum(rows[1..])
  }

  function WithStatus(rows: seq<Expense>, s: ExpenseStatus): (r: seq<Expense>)
    ensures forall e :: e in r <==> e in rows && e.status == s
  {
    if rows == [] then []
    else
      assert forall e :: e in rows <==> e == rows[0] || e in rows[1..];
      (if rows[0].status == s then [rows[0]] else []) + WithStatus(rows[1..], s)
  }

  lemma {:induction false} SumAppend(a: seq<Expense>, b: seq<Expense>)
    ensures Sum(a + b) == Sum(a) + Sum(b)
  {
    if a == [] {
      assert a + b == b;
    } else {
      assert (a + b)[1..] == a[1..] + b;
      SumAppend(a[1..], b);
    }
  }

  lemma {:induction false} WithStatusAppend(a: seq<Expense>, e: Expense, s: ExpenseStatus)
    ensures WithStatus(a + [e], s) == WithStatus(a, s) + (if e.status == s then [e] else [])
  {
    if a != [] {
      assert (a + [e])[1..] == a[1..] + [e];
      WithStatusAppend(a[1..], e, s);
    }
  }

  /** Each running total is the sum of the amounts of the rows with the
      matching status, starting from 0. */
  lemma {:induction false} TotalIsSumOfMatching(rows: seq<Expense>, s: ExpenseStatus)
    ensures SumWithStatus(rows, s) == Sum(WithStatus(rows, s))
  {
    if rows != [] {
      var pre, last := rows[..|rows| - 1], rows[|rows| - 1];
      assert rows == pre + [last];
      TotalIsSumOfMatching(pre, s);
      WithStatusAppend(pre, last, s);
      SumAppend(WithStatus(pre, s), if last.status == s then [last] else []);
    }
  }

  /** The five status totals add up to the sum of all amounts; so the three
      reported totals leave out exactly the Rejected and Pending amounts. */
  lemma {:induction false} TotalsPartition(rows: seq<Expense>)
    ensures SumWithStatus(rows, Draft) + SumWithStatus(rows, Submitted) + SumWithStatus(rows, Approved)
          + SumWithStatus(rows, Rejected) + SumWithStatus(rows, Pending) == Sum(rows)
  {
    if rows != [] {
      var pre, last := rows[..|rows| - 1], rows[|rows| - 1];
      assert rows == pre + [last];
      TotalsPartition(pre);
      SumAppend(pre, [last]);
      assert Sum([last]) == last.amount;
    }
  }

  /** The total for `s` does not depend on the amount of any row of another
      status. */
  lemma {:induction false} OtherStatusIgnored(rows: seq<Expense>, i: nat, amount: int, s: ExpenseStatus)
    requires i < |rows| && rows[i].status != s
    ensures SumWithStatus(rows[i := rows[i].(amount := amount)], s) == SumWithStatus(rows, s)
  {
    var rows' := rows[i := rows[i].(amount := amount)];
    var n := |rows| - 1;
    assert rows'[..n] == if i < n then rows[..n][i := rows[i].(amount := amount)] else rows[..n];
    if i < n {
      OtherStatusIgnored(rows[..n], i, amount, s);
    }
  }

  /** What the loop of `get_expense_details_for_employee` returns. */
  function DetailsOf(rows: seq<Expense>): Details
  {
    Details(SumWithStatus(rows, Draft), SumWithStatus(rows, Submitted), SumWithStatus(rows, Approved), rows)
  }

  /** The row `add_expense` inserts: status "Draft" unless one is given. */
  function NewExpense(id: int, employeeId: int, paidById: int, amount: int, currencyCode: string,
                      amountInCompanyCurrency: int, category: string, description: string,
                      expenseDate: Date, remarks: string, receiptImageBase64: string,
                      status: Option<ExpenseStatus>): (e: Expense)
    ensures status.None? ==> e.status == Draft
    ensures status.Some? ==> e.status == status.value
    ensures e.id == id && e.employeeId == employeeId && e.amount == amount
  {
    Expense(id, employeeId, paidById, amount, currencyCode, amountInCompanyCurrency, category,
            description, expenseDate, remarks, receiptImageBase64,
            if status.Some? then status.value else Draft)
  }

  /** A new expense of the employee shows in the listing, and with no status
      given its amount goes to the pending total only. */
  lemma AddedExpenseListed(table: seq<Expense>, e: Expense)
    ensures var before := DetailsOf(OfEmployee(table, e.employeeId));
            var after := DetailsOf(OfEmployee(table + [e], e.employeeId));
      && after.expenseList == before.expenseList + [e]
      && after.pendingTotal == before.pendingTotal + (if e.status == Draft then e.amount else 0)
      && after.waitingApprovalTotal == before.waitingApprovalTotal + (if e.status == Submitted then e.amount else 0)
      && after.approvedTotal == before.approvedTotal + (if e.status == Approved then e.amount else 0)
  {
    assert (table + [e])[..|table|] == table;
    var rows := OfEmployee(table, e.employeeId);
    assert OfEmployee(table + [e], e.employeeId) == rows + [e];
    assert (rows + [e])[..|rows|] == rows;
  }

  /** `ExpensesService`, with the expenses table in memory and the next id the
      database would assign. */
  class ExpensesService {
    var table: seq<Expense>
    var nextId: int

    constructor (table: seq<Expense>, nextId: int)
      ensures this.table == table && this.nextId == nextId
    {
      this.table := table;
      this.nextId := nextId;
    }

    /** `get_expense_details_for_employee`: one pass over the employee's
        expenses, adding Draft amounts to the pending total, Submitted ones to
        the waiting total and Approved ones to the approved total, and listing
        every expense in query order. */
    method GetExpenseDetailsForEmployee(employeeId: int) returns (d: Details)
      ensures d.expenseList == OfEmployee(table, employeeId)
      ensures d.pendingTotal == Sum(WithStatus(OfEmployee(table, employeeId), Draft))
      ensures d.waitingApprovalTotal == Sum(WithStatus(OfEmployee(table, employeeId), Submitted))
      ensures d.approvedTotal == Sum(WithStatus(OfEmployee(table, employeeId), Approved))
    {
      var pendingTotal, waitingApprovalTotal, approvedTotal := 0, 0, 0;
      var expenseList: seq<Expense> := [];
      var expenses := OfEmployee(table, employeeId);
      for i := 0 to |expenses|
        invariant pendingTotal == SumWithStatus(expenses[..i], Draft)
        invariant waitingApprovalTotal == SumWithStatus(expenses[..i], Submitted)
        invariant approvedTotal == SumWithStatus(expenses[..i], Approved)
        invariant expenseList == expenses[..i]
      {
        var expense := expenses[i];
        assert expenses[..i + 1][..i] == expenses[..i];
        if expense.status == Draft {
          pendingTotal := pendingTotal + expense.amount;
        } else if expense.status == Submitted {
          waitingApprovalTotal := waitingApprovalTotal + expense.amount;
        } else if expense.status == Approved {
          approvedTotal := approvedTotal + expense.amount;
        }
        expenseList := expenseList + [expense];
      }
      assert expenses[..|expenses|] == expenses;
      TotalIsSumOfMatching(expenses, Draft);
      TotalIsSumOfMatching(expenses, Submitted);
      TotalIsSumOfMatching(expenses, Approved);
      d := Details(pendingTotal, waitingApprovalTotal, approvedTotal, expenseList);
    }

    /** `add_expense`: fails when the date string does not parse (the parse is
        given as `expenseDate`), otherwise inserts the row with status "Draft"
        unless a status is given. */
    method AddExpense(employeeId: int, paidById: int, amount: int, currencyCode: string,
                      amountInCompanyCurrency: int, category: string, description: string,
                      expenseDate: Option<Date>, remarks: string, receiptImageBase64: string,
                      status: Option<ExpenseStatus>) returns (ok: bool)
      modifies this
      ensures ok <==> expenseDate.Some?
      ensures !ok ==> table == old(table) && nextId == old(nextId)
      ensures ok ==>
        && table == old(table) + [NewExpense(old(nextId), employeeId, paidById, amount, currencyCode,
                                             amountInCompanyCurrency, category, description,
                                             expenseDate.value, remarks, receiptImageBase64, status)]
        && nextId == old(nextId) + 1
    {
      if expenseDate.None? {
        return false;
      }
      var expense := Expense(nextId, employeeId, paidById, amount, currencyCode, amountInCompanyCurrency,
                             category, description, expenseDate.value, remarks, receiptImageBase64,
                             if status.Some? then status.value else Draft);
      table := table + [expense];
      nextId := nextId + 1;
      return true;
    }
  }
}
