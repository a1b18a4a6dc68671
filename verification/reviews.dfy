/** The `reviews` table: one record per review, soft-deleted through its
    `isActive` flag rather than erased. */
module Reviews {
  import opened Wrappers

  /** One row of the table. `comment` is the only nullable column; `grade`,
      `userId` and `productId` are mandatory integers. `commentDate` is the
      creation timestamp, an abstract clock reading. */
  datatype Review = Review(
    id: int,
    comment: Option<string>,
    commentDate: nat,
    grade: int,
    isActive: bool,
    userId: int,
    productId: int)

  /** The primary-key constraint: no two rows share an id. */
  predicate UniqueIds(rows: seq<Review>)
  {
    forall i, j :: 0 <= i < j < |rows| ==> rows[i].id != rows[j].id
  }

  /** The key the table hands out for the next insert: one more than the
      largest stored id, starting from 1. */
  function NextId(rows: seq<Review>): (id: int)
    ensures 1 <= id
    ensures forall r :: r in rows ==> r.id < id
    ensures id == 1 || exists r :: r in rows && r.id == id - 1
  {
    if rows == [] then 1
    else
      var rest := NextId(rows[1..]);
      assert forall r :: r in rows[1..] ==> r in rows;
      assert forall r :: r in rows ==> r == rows[0] || r in rows[1..];
      if rows[0].id < rest then rest else rows[0].id + 1
  }

  /** The tail of a keyed table is keyed, and its head's id is not in it. */
  lemma UniqueTail(rows: seq<Review>)
    requires rows != [] && UniqueIds(rows)
    ensures UniqueIds(rows[1..])
    ensures forall r :: r in rows[1..] ==> r.id != rows[0].id
  {
    forall r | r in rows[1..]
      ensures r.id != rows[0].id
    {
      var j :| 0 <= j < |rows[1..]| && rows[1..][j] == r;
      assert rows[j + 1] == r;
    }
  }

  /** A record whose id is not among a keyed table's ids can lead it. */
  lemma UniqueCons(r: Review, rows: seq<Review>)
    requires UniqueIds(rows)
    requires forall x :: x in rows ==> x.id != r.id
    ensures UniqueIds([r] + rows)
  {
    var out := [r] + rows;
    forall i, j | 0 <= i < j < |out|
      ensures out[i].id != out[j].id
    {
      assert out[j] == rows[j - 1];
      if i > 0 {
        assert out[i] == rows[i - 1];
      }
    }
  }

  /** A record whose id is not among a keyed table's ids can be appended. */
  lemma UniqueSnoc(rows: seq<Review>, r: Review)
    requires UniqueIds(rows)
    requires forall x :: x in rows ==> x.id != r.id
    ensures UniqueIds(rows + [r])
  {
    var out := rows + [r];
    forall i, j | 0 <= i < j < |out|
      ensures out[i].id != out[j].id
    {
      assert out[i] == rows[i];
      if j < |rows| {
        assert out[j] == rows[j];
      }
    }
  }
}
