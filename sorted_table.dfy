/** Membership in a static table of allowed values, decided the way the
    validators do it: binary search with std::lower_bound, then a check that
    the element found is the value.  The search is only meaningful on a
    table sorted in ascending order, which nothing enforces. */
module SortedTable {

  predicate Sorted(t: seq<int>)
  {
    forall i, j | 0 <= i < j < |t| :: t[i] <= t[j]
  }

  /** std::lower_bound over t[first .. first + count]: look at the middle
      element; when it is below v continue right of it, otherwise continue
      in the left half.  On a sorted table the result is the first position
      whose element is not below v. */
  function LowerBound(t: seq<int>, v: int, first: nat, count: nat): (r: nat)
    requires first + count <= |t|
    ensures first <= r <= first + count
    ensures Sorted(t) ==> forall i | first <= i < r :: t[i] < v
    ensures Sorted(t) ==> forall i | r <= i < first + count :: v <= t[i]
    decreases count
  {
    if count == 0 then first
    else
      var step := count / 2;
      var it := first + step;
      if t[it] < v then LowerBound(t, v, it + 1, count - step - 1)
      else LowerBound(t, v, first, step)
  }

  /** The validator's verdict: the lower bound exists and holds v. */
  predicate Accepts(t: seq<int>, v: int)
  {
    var i := LowerBound(t, v, 0, |t|);
    i < |t| && t[i] == v
  }

  /** On a sorted table the binary search decides plain membership. */
  lemma AcceptsIffMember(t: seq<int>, v: int)
    requires Sorted(t)
    ensures Accepts(t, v) <==> v in t
  {
    var i := LowerBound(t, v, 0, |t|);
    if v in t {
      var j :| 0 <= j < |t| && t[j] == v;
      assert i <= j;
      assert t[i] <= t[j];
    }
  }

  /** Without sortedness the search can miss a value that is in the
      table: in [3, 1] it stops at 3 and rejects 1. */
  lemma UnsortedTableMisses()
    ensures 1 in [3, 1] && !Accepts([3, 1], 1)
  {
    assert LowerBound([3, 1], 1, 0, 2) == 0;
  }
}
