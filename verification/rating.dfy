/** The derived product rating: the average `grade` over a product's active
    reviews, or 0 when it has none (SQL `avg` yields NULL on no rows, and the
    service replaces NULL by 0). Computed in exact rational arithmetic. */
module Rating {
  import opened Wrappers
  import opened Reviews
  import opened Query

  /** The inputs of an average: how many grades, and their sum. */
  datatype Tally = Tally(count: nat, total: int)

  function Plus(a: Tally, b: Tally): Tally
  {
    Tally(a.count + b.count, a.total + b.total)
  }

  /** Every grade lies in the accepted range 1..5. */
  predicate GradesInRange(rows: seq<Review>)
  {
    forall r :: r in rows ==> 1 <= r.grade <= 5
  }

  /** Count and sum of the grades of `rows`. */
  function RowTally(rows: seq<Review>): (t: Tally)
    ensures t.count == |rows|
    ensures GradesInRange(rows) ==> t.count <= t.total <= 5 * t.count
  {
    if rows == [] then Tally(0, 0)
    else
      assert forall r :: r in rows[1..] ==> r in rows;
      Plus(Tally(1, rows[0].grade), RowTally(rows[1..]))
  }

  /** Tallies add up over a concatenation. */
  lemma {:induction false} RowTallyAppend(a: seq<Review>, b: seq<Review>)
    ensures RowTally(a + b) == Plus(RowTally(a), RowTally(b))
  {
    if a == [] {
      assert a + b == b;
    } else {
      assert (a + b)[0] == a[0];
      assert (a + b)[1..] == a[1..] + b;
      RowTallyAppend(a[1..], b);
    }
  }

  /** Reordering rows by date does not change their tally. */
  lemma {:induction false} RowTallyInsert(r: Review, rows: seq<Review>)
    requires NewestFirst(rows)
    ensures RowTally(InsertByDate(r, rows)) == Plus(Tally(1, r.grade), RowTally(rows))
  {
    if rows != [] && r.commentDate < rows[0].commentDate {
      RowTallyInsert(r, rows[1..]);
    }
  }

  lemma {:induction false} RowTallySort(rows: seq<Review>)
    ensures RowTally(SortNewestFirst(rows)) == RowTally(rows)
  {
    if rows != [] {
      RowTallySort(rows[1..]);
      RowTallyInsert(rows[0], SortNewestFirst(rows[1..]));
    }
  }

  /** The mean of a tally, 0 for an empty one. */
  function Average(t: Tally): (a: real)
    ensures t.count > 0 ==> a * (t.count as real) == t.total as real
    ensures t.count == 0 ==> a == 0.0
  {
    if t.count == 0 then 0.0 else t.total as real / t.count as real
  }

  /** The rating a product with id `pid` should carry, given the table: 0
      when it has no active review; with grades in 1..5, 0 exactly then and
      otherwise a value between 1 and 5. */
  function MeanGrade(rows: seq<Review>, pid: int): (m: real)
    ensures Select(rows, Some(pid)) == [] ==> m == 0.0
    ensures GradesInRange(rows) ==> (m == 0.0 <==> Select(rows, Some(pid)) == [])
    ensures GradesInRange(rows) && Select(rows, Some(pid)) != [] ==> 1.0 <= m <= 5.0
  {
    var sel := Select(rows, Some(pid));
    if GradesInRange(rows) && sel != [] then
      assert GradesInRange(sel);
      AverageBounds(RowTally(sel));
      Average(RowTally(sel))
    else
      Average(RowTally(sel))
  }

  /** The mean of grades in 1..5 lies in 1..5. */
  lemma AverageBounds(t: Tally)
    requires 0 < t.count <= t.total <= 5 * t.count
    ensures 1.0 <= Average(t) <= 5.0
  {
    var c := t.count as real;
    ScaledBounds(Average(t), c, t.total as real);
  }

  /** A factor that scales a positive c into [c, 5c] lies in [1, 5]. */
  lemma ScaledBounds(a: real, c: real, total: real)
    requires 0.0 < c && a * c == total
    requires c <= total && total <= 5.0 * c
    ensures 1.0 <= a <= 5.0
  {
  }
}
