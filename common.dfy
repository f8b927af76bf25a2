/** Shared vocabulary of the expense-tracking services: optional values, results,
    the expense status column, and Python's truthiness test on integer ids. */
module Common {

  datatype Option<+T> = None | Some(value: T)

  /** A service call either succeeds with a value or fails with an error dict. */
  datatype Result<+T, +E> = Ok(value: T) | Err(error: E)

  /** The strings the services write into `expenses.status`. `Pending` is the
      schema default; the services themselves write the other four. */
  datatype ExpenseStatus = Draft | Submitted | Approved | Rejected | Pending

  /** Python's `if x:` on an optional integer: `None` and `0` are both false. */
  predicate Truthy(x: Option<int>)
  {
    x.Some? && x.value != 0
  }

  /** No value occurs twice in `s`. */
  predicate NoDup<T(==)>(s: seq<T>)
  {
    forall i, j :: 0 <= i < j < |s| ==> s[i] != s[j]
  }

  /** Position of the first occurrence of `x` in `s`. */
  function IndexOf<T(==)>(s: seq<T>, x: T): (k: nat)
    requires x in s
    ensures k < |s| && s[k] == x
    ensures forall j :: 0 <= j < k ==> s[j] != x
  {
    if s[0] == x then 0 else 1 + IndexOf(s[1..], x)
  }

  /** Some member of a non-empty set. */
  method Pick<T>(s: set<T>) returns (x: T)
    requires s != {}
    ensures x in s
  {
    x :| x in s;
  }

  lemma SubsetCard(a: set<int>, b: set<int>)
    requires a <= b
    ensures |a| <= |b|
    ensures |a| == |b| ==> a == b
  {
    var d := b - a;
    assert b == a + d && a * d == {};
    assert |b| == |a| + |d|;
    if |d| == 0 {
      assert d == {};
      assert b == a;
    }
  }

  lemma {:induction false} DistinctCard(s: seq<int>)
    requires NoDup(s)
    ensures |set x | x in s| == |s|
  {
    if s != [] {
      DistinctCard(s[1..]);
      assert (set x | x in s) == {s[0]} + (set x | x in s[1..]);
      assert s[0] !in s[1..];
    }
  }

  /** Pigeonhole: a duplicate-free sequence drawn from a duplicate-free `c` is
      at most as long as `c`, and as long exactly when it covers `c`. */
  lemma DistinctSubsetCount(vs: seq<int>, c: seq<int>)
    requires NoDup(vs) && NoDup(c)
    requires forall x :: x in vs ==> x in c
    ensures |vs| <= |c|
    ensures |vs| == |c| <==> forall x :: x in c ==> x in vs
  {
    var a := set x | x in vs;
    var b := set x | x in c;
    DistinctCard(vs);
    DistinctCard(c);
    SubsetCard(a, b);
    if forall x :: x in c ==> x in vs {
      assert a == b;
    }
    if |vs| == |c| {
      assert a == b;
      forall x | x in c ensures x in vs {
        assert x in b;
      }
    }
  }
}
