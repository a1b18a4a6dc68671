/** The two read queries over the reviews table: the `is_active` (and
    `product_id`) filter, and the ordering by `comment_date`, newest first. */
module Query {
  import opened Wrappers
  import opened Reviews

  /** The WHERE clause of the listing and averaging queries: the row is
      active and, when a product is given, belongs to it. */
  predicate Matches(r: Review, product: Option<int>)
  {
    r.isActive && (product.None? || r.productId == product.value)
  }

  /** The rows of the table that match, in storage order. */
  function Select(rows: seq<Review>, product: Option<int>): (out: seq<Review>)
    ensures forall r :: r in out <==> r in rows && Matches(r, product)
    ensures |out| <= |rows|
    ensures UniqueIds(rows) ==> UniqueIds(out)
  {
    if rows == [] then []
    else
      var rest := Select(rows[1..], product);
      assert forall r :: r in rows ==> r == rows[0] || r in rows[1..];
      if Matches(rows[0], product) then
        assert UniqueIds(rows) ==> UniqueIds([rows[0]] + rest) by {
          if UniqueIds(rows) {
            UniqueTail(rows);
            UniqueCons(rows[0], rest);
          }
        }
        [rows[0]] + rest
      else
        assert UniqueIds(rows) ==> UniqueIds(rest) by {
          if UniqueIds(rows) {
            UniqueTail(rows);
          }
        }
        rest
  }

  /** Filtering distributes over the concatenation of two row sequences. */
  lemma {:induction false} SelectAppend(a: seq<Review>, b: seq<Review>, product: Option<int>)
    ensures Select(a + b, product) == Select(a, product) + Select(b, product)
  {
    if a == [] {
      assert a + b == b;
    } else {
      assert (a + b)[1..] == a[1..] + b;
      SelectAppend(a[1..], b, product);
    }
  }

  /** Ordered by `comment_date` descending. */
  predicate NewestFirst(rows: seq<Review>)
  {
    forall i, j :: 0 <= i < j < |rows| ==> rows[i].commentDate >= rows[j].commentDate
  }

  /** A record no newer than the head of a newest-first sequence can lead it. */
  lemma NewestFirstCons(r: Review, rows: seq<Review>)
    requires NewestFirst(rows)
    requires forall x :: x in rows ==> x.commentDate <= r.commentDate
    ensures NewestFirst([r] + rows)
  {
    var out := [r] + rows;
    forall i, j | 0 <= i < j < |out|
      ensures out[i].commentDate >= out[j].commentDate
    {
      assert out[j] == rows[j - 1];
      if i > 0 {
        assert out[i] == rows[i - 1];
      }
    }
  }

  /** The head of a newest-first sequence can lead any ordered sequence made
      of a record younger than it and rows of the tail. */
  lemma HeadLeadsInsert(r: Review, rows: seq<Review>, rest: seq<Review>)
    requires rows != [] && NewestFirst(rows) && r.commentDate < rows[0].commentDate
    requires NewestFirst(rest)
    requires forall x :: x in rest ==> x == r || x in rows[1..]
    ensures NewestFirst([rows[0]] + rest)
  {
    forall x | x in rows[1..]
      ensures x.commentDate <= rows[0].commentDate
    {
      var k :| 0 <= k < |rows[1..]| && rows[1..][k] == x;
      assert rows[k + 1] == x;
    }
    NewestFirstCons(rows[0], rest);
  }

  /** In a keyed table, the head's id is not among a sequence made of the
      tail's rows and a record with a fresh id. */
  lemma HeadKeysInsert(r: Review, rows: seq<Review>, rest: seq<Review>)
    requires rows != [] && UniqueIds(rows) && forall x :: x in rows ==> x.id != r.id
    requires forall x :: x in rest ==> x == r || x in rows[1..]
    requires UniqueIds(rest)
    ensures UniqueIds([rows[0]] + rest)
  {
    UniqueTail(rows);
    assert rows[0] in rows;
    UniqueCons(rows[0], rest);
  }

  /** Putting the head back in front of a sequence holding the tail's rows
      and `r` gives the rows and `r`, counted with multiplicity. */
  lemma HeadJoinsInsert(r: Review, rows: seq<Review>, rest: seq<Review>)
    requires rows != []
    requires multiset(rest) == multiset(rows[1..]) + multiset{r}
    ensures multiset([rows[0]] + rest) == multiset(rows) + multiset{r}
    ensures forall x :: x in [rows[0]] + rest <==> x == r || x in rows
  {
    assert rows == [rows[0]] + rows[1..];
    var out := [rows[0]] + rest;
    forall x
      ensures x in out <==> x == r || x in rows
    {
      assert x in out <==> x in multiset(out);
      assert x in rows <==> x in multiset(rows);
    }
  }

  /** Places `r` into an already newest-first sequence. */
  function InsertByDate(r: Review, rows: seq<Review>): (out: seq<Review>)
    requires NewestFirst(rows)
    ensures NewestFirst(out)
    ensures multiset(out) == multiset(rows) + multiset{r}
    ensures forall x :: x in out <==> x == r || x in rows
    ensures UniqueIds(rows) && (forall x :: x in rows ==> x.id != r.id) ==> UniqueIds(out)
  {
    if rows == [] || r.commentDate >= rows[0].commentDate then
      assert UniqueIds(rows) && (forall x :: x in rows ==> x.id != r.id) ==> UniqueIds([r] + rows) by {
        if UniqueIds(rows) && (forall x :: x in rows ==> x.id != r.id) {
          UniqueCons(r, rows);
        }
      }
      NewestFirstCons(r, rows);
      [r] + rows
    else
      var rest := InsertByDate(r, rows[1..]);
      HeadLeadsInsert(r, rows, rest);
      HeadJoinsInsert(r, rows, rest);
      assert UniqueIds(rows) && (forall x :: x in rows ==> x.id != r.id) ==> UniqueIds([rows[0]] + rest) by {
        if UniqueIds(rows) && (forall x :: x in rows ==> x.id != r.id) {
          UniqueTail(rows);
          HeadKeysInsert(r, rows, rest);
        }
      }
      [rows[0]] + rest
  }

  /** `ORDER BY comment_date DESC`: a newest-first permutation of the rows.
      Rows with equal dates may come in any order, as in SQL. */
  function SortNewestFirst(rows: seq<Review>): (out: seq<Review>)
    ensures NewestFirst(out)
    ensures multiset(out) == multiset(rows)
    ensures forall x :: x in out <==> x in rows
    ensures UniqueIds(rows) ==> UniqueIds(out)
  {
    if rows == [] then []
    else
      var rest := SortNewestFirst(rows[1..]);
      assert rows == [rows[0]] + rows[1..];
      InsertByDate(rows[0], rest)
  }
}
