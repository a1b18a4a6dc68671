/** Properties of the review service that relate several calls or several
    states: the store invariant is kept, the rating moves by exactly the
    grade added or removed, soft delete is not idempotent, and the stored
    rating agrees with the product's listing. */
module ServiceLemmas {
  import opened Wrappers
  import opened Reviews
  import opened Query
  import opened Rating
  import opened ReviewService

  /** The tally of a product's active reviews, as SQL `avg` sees it. */
  function ProductTally(rows: seq<Review>, pid: int): Tally
  {
    RowTally(Select(rows, Some(pid)))
  }

  /** What one row adds to a product's tally. */
  function RowShare(r: Review, pid: int): Tally
  {
    if Matches(r, Some(pid)) then Tally(1, r.grade) else Tally(0, 0)
  }

  /** Appending a row adds its grade to its own product's tally only. */
  lemma {:induction false} TallyAfterAppend(rows: seq<Review>, c: Review, pid: int)
    ensures ProductTally(rows + [c], pid) ==
      Plus(ProductTally(rows, pid), RowShare(c, pid))
  {
    SelectAppend(rows, [c], Some(pid));
    assert [c][1..] == [];
    var single := Select([c], Some(pid));
    RowTallyAppend(Select(rows, Some(pid)), single);
    if Matches(c, Some(pid)) {
      assert single == [c];
      assert [c][1..] == [];
    } else {
      assert single == [];
    }
  }

  /** Deactivating an id none of whose rows counts for `pid` leaves the
      product's active reviews as they were. */
  lemma {:induction false} SelectDeactivateOther(rows: seq<Review>, id: int, pid: int)
    requires forall r :: r in rows && r.id == id ==> !Matches(r, Some(pid))
    ensures Select(Deactivate(rows, id), Some(pid)) == Select(rows, Some(pid))
  {
    if rows != [] {
      assert forall r :: r in rows[1..] ==> r in rows;
      SelectDeactivateOther(rows[1..], id, pid);
      assert Deactivate(rows, id)[1..] == Deactivate(rows[1..], id);
    }
  }

  /** Deactivating an id that no row carries changes nothing. */
  lemma DeactivateAbsent(rows: seq<Review>, id: int)
    requires forall r :: r in rows ==> r.id != id
    ensures Deactivate(rows, id) == rows
  {
  }

  /** A product's tally splits into the first row's share and the rest's. */
  lemma TallyCons(rows: seq<Review>, pid: int)
    requires rows != []
    ensures ProductTally(rows, pid) == Plus(RowShare(rows[0], pid), ProductTally(rows[1..], pid))
  {
    if Matches(rows[0], Some(pid)) {
      RowTallyAppend([rows[0]], Select(rows[1..], Some(pid)));
    }
  }

  /** In a keyed table, deactivating the first row's id touches that row only. */
  lemma DeactivateHead(rows: seq<Review>)
    requires UniqueIds(rows) && rows != []
    ensures Deactivate(rows, rows[0].id) == [rows[0].(isActive := false)] + rows[1..]
  {
    UniqueTail(rows);
    DeactivateAbsent(rows[1..], rows[0].id);
  }

  /** Deactivating the first row of a keyed table, when it is active,
      removes exactly its grade from its product's tally. */
  lemma TallyAfterDeactivateHead(rows: seq<Review>)
    requires UniqueIds(rows)
    requires rows != [] && rows[0].isActive
    ensures Plus(ProductTally(Deactivate(rows, rows[0].id), rows[0].productId), Tally(1, rows[0].grade))
      == ProductTally(rows, rows[0].productId)
  {
    DeactivateHead(rows);
    TallyDropActive(rows);
  }

  /** Marking the first row inactive removes its share from its product. */
  lemma TallyDropActive(rows: seq<Review>)
    requires rows != [] && rows[0].isActive
    ensures ProductTally(rows, rows[0].productId)
      == Plus(Tally(1, rows[0].grade), ProductTally([rows[0].(isActive := false)] + rows[1..], rows[0].productId))
  {
    var pid := rows[0].productId;
    var out := [rows[0].(isActive := false)] + rows[1..];
    assert out[0] == rows[0].(isActive := false);
    assert out[1..] == rows[1..];
    TallyCons(out, pid);
    TallyCons(rows, pid);
    var rest := ProductTally(rows[1..], pid);
    assert RowShare(out[0], pid) == Tally(0, 0);
    assert ProductTally(out, pid) == rest;
    assert RowShare(rows[0], pid) == Tally(1, rows[0].grade);
  }

  /** In a keyed table, deactivating the active row at position i removes
      exactly its grade from its product's tally. */
  lemma {:induction false} TallyAfterDeactivate(rows: seq<Review>, i: nat)
    requires UniqueIds(rows)
    requires i < |rows| && rows[i].isActive
    ensures Plus(ProductTally(Deactivate(rows, rows[i].id), rows[i].productId), Tally(1, rows[i].grade))
      == ProductTally(rows, rows[i].productId)
  {
    if i == 0 {
      TallyAfterDeactivateHead(rows);
    } else {
      var id, pid := rows[i].id, rows[i].productId;
      var out := Deactivate(rows, id);
      UniqueTail(rows);
      assert rows[1..][i - 1] == rows[i];
      TallyAfterDeactivate(rows[1..], i - 1);
      assert out[0] == rows[0];
      assert out[1..] == Deactivate(rows[1..], id);
      TallyCons(out, pid);
      TallyCons(rows, pid);
    }
  }

  /** Appending a review leaves every other product's mean grade as it was. */
  lemma MeanGradeAfterAppend(rows: seq<Review>, c: Review, q: int)
    requires q != c.productId
    ensures MeanGrade(rows + [c], q) == MeanGrade(rows, q)
  {
    TallyAfterAppend(rows, c, q);
    assert RowShare(c, q) == Tally(0, 0);
  }

  /** Appending a keyed, in-range row for a stored product, and re-rating
      that product alone, keeps the store consistent. */
  lemma AppendKeepsValid(s: Store, c: Review, s': Store)
    requires Valid(s)
    requires s'.reviews == s.reviews + [c]
    requires forall x :: x in s.reviews ==> x.id != c.id
    requires GradeAccepted(c.grade) && c.productId in s.products
    requires s'.products.Keys == s.products.Keys
    requires forall q :: q in s.products && q != c.productId ==> s'.products[q] == s.products[q]
    requires s'.products[c.productId].rating == MeanGrade(s'.reviews, c.productId)
    ensures Valid(s')
  {
    UniqueSnoc(s.reviews, c);
    assert forall r :: r in s'.reviews ==> r in s.reviews || r == c;
    forall q | q in s'.products
      ensures s'.products[q].rating == MeanGrade(s'.reviews, q)
    {
      if q != c.productId {
        MeanGradeAfterAppend(s.reviews, c, q);
      }
    }
  }

  /** A successful create keeps the store consistent. */
  lemma CreateKeepsValid(s: Store, caller: Caller, input: ReviewCreate, now: nat)
    requires Valid(s)
    requires Create(s, caller, input, now).Success?
    ensures Valid(Create(s, caller, input, now).value.0)
  {
    var (s', created) := Create(s, caller, input, now).value;
    AppendKeepsValid(s, created, s');
  }

  /** Deactivation keeps every row's id, grade and product. */
  lemma DeactivateKeepsColumns(rows: seq<Review>, id: int, products: map<int, Product>)
    requires UniqueIds(rows) && GradesInRange(rows)
    requires forall r :: r in rows ==> r.productId in products
    ensures UniqueIds(Deactivate(rows, id)) && GradesInRange(Deactivate(rows, id))
    ensures forall r :: r in Deactivate(rows, id) ==> r.productId in products
  {
    var out := Deactivate(rows, id);
    forall r | r in out
      ensures r.productId in products && 1 <= r.grade <= 5
    {
      var k :| 0 <= k < |out| && out[k] == r;
      assert rows[k] in rows;
    }
  }

  /** In a keyed table, the row at position i is the only one with its id. */
  lemma OnlyRowWithId(rows: seq<Review>, i: nat)
    requires UniqueIds(rows) && i < |rows|
    ensures forall r :: r in rows && r.id == rows[i].id ==> r == rows[i]
  {
    forall r | r in rows && r.id == rows[i].id
      ensures r == rows[i]
    {
      var k :| 0 <= k < |rows| && rows[k] == r;
      assert k == i;
    }
  }

  /** In a keyed table, soft-deleting the row at position i leaves the mean
      grade of every product other than its own as it was. */
  lemma MeanGradeAfterDeactivateOther(rows: seq<Review>, i: nat, q: int)
    requires UniqueIds(rows) && i < |rows|
    requires q != rows[i].productId
    ensures MeanGrade(Deactivate(rows, rows[i].id), q) == MeanGrade(rows, q)
  {
    OnlyRowWithId(rows, i);
    SelectDeactivateOther(rows, rows[i].id, q);
  }

  /** Soft-deleting the row at position i of a consistent store, and
      re-rating its product alone, keeps the store consistent. */
  lemma DeactivateKeepsValid(s: Store, i: nat, s': Store)
    requires Valid(s) && i < |s.reviews|
    requires s'.reviews == Deactivate(s.reviews, s.reviews[i].id)
    requires s'.products.Keys == s.products.Keys
    requires forall q :: q in s.products && q != s.reviews[i].productId ==> s'.products[q] == s.products[q]
    requires s'.products[s.reviews[i].productId].rating == MeanGrade(s'.reviews, s.reviews[i].productId)
    ensures Valid(s')
  {
    DeactivateKeepsColumns(s.reviews, s.reviews[i].id, s.products);
    forall q | q in s'.products
      ensures s'.products[q].rating == MeanGrade(s'.reviews, q)
    {
      if q != s.reviews[i].productId {
        MeanGradeAfterDeactivateOther(s.reviews, i, q);
      }
    }
  }

  /** A successful delete keeps the store consistent. */
  lemma DeleteKeepsValid(s: Store, caller: Caller, reviewId: int)
    requires Valid(s)
    requires Delete(s, caller, reviewId).Success?
    ensures Valid(Delete(s, caller, reviewId).value)
  {
    var s' := Delete(s, caller, reviewId).value;
    var i := FindActive(s.reviews, reviewId).value;
    assert s.reviews[i] in s.reviews;
    DeactivateKeepsValid(s, i, s');
  }

  /** A successful create moves the product's rating to the mean of the
      previous grades together with the new one. */
  lemma CreateRating(s: Store, caller: Caller, input: ReviewCreate, now: nat)
    requires Create(s, caller, input, now).Success?
    ensures Create(s, caller, input, now).value.0.products[input.productId].rating
      == Average(Tally(ProductTally(s.reviews, input.productId).count + 1,
                       ProductTally(s.reviews, input.productId).total + input.grade))
  {
    var result := Create(s, caller, input, now).value;
    var created := result.1;
    assert result.0.reviews == s.reviews + [created];
    assert Matches(created, Some(input.productId));
    TallyAfterAppend(s.reviews, created, input.productId);
    var before := ProductTally(s.reviews, input.productId);
    assert ProductTally(result.0.reviews, input.productId) == Tally(before.count + 1, before.total + input.grade);
    assert result.0.products[input.productId].rating == MeanGrade(result.0.reviews, input.productId);
  }

  /** In a keyed table, the active row with a given id is the one found. */
  lemma FindActiveKeyed(rows: seq<Review>, i: nat)
    requires UniqueIds(rows)
    requires i < |rows| && rows[i].isActive
    ensures FindActive(rows, rows[i].id) == Some(i)
  {
    var k := FindActive(rows, rows[i].id);
    assert k.Some?;
  }

  /** With ids a primary key, an admin's delete of the active review at
      position i succeeds and takes its grade out of its product's average,
      leaving 0 when it was the product's last active review. */
  lemma DeleteRating(s: Store, caller: Caller, i: nat)
    requires UniqueIds(s.reviews)
    requires caller.role == AdminRole
    requires i < |s.reviews| && s.reviews[i].isActive
    requires s.reviews[i].productId in s.products
    ensures Delete(s, caller, s.reviews[i].id).Success?
    ensures ProductTally(s.reviews, s.reviews[i].productId).count >= 1
    ensures Delete(s, caller, s.reviews[i].id).value.products[s.reviews[i].productId].rating
      == Average(Tally(ProductTally(s.reviews, s.reviews[i].productId).count - 1,
                       ProductTally(s.reviews, s.reviews[i].productId).total - s.reviews[i].grade))
  {
    var pid := s.reviews[i].productId;
    FindActiveKeyed(s.reviews, i);
    TallyAfterDeactivate(s.reviews, i);
    var rows := Deactivate(s.reviews, s.reviews[i].id);
    var before := ProductTally(s.reviews, pid);
    var after := ProductTally(rows, pid);
    assert after == Tally(before.count - 1, before.total - s.reviews[i].grade);
    assert Delete(s, caller, s.reviews[i].id).value.products[pid].rating == MeanGrade(rows, pid) == Average(after);
  }

  /** Soft delete is not idempotent: deleting the same id again is NotFound. */
  lemma DeleteTwice(s: Store, caller: Caller, reviewId: int)
    requires Delete(s, caller, reviewId).Success?
    ensures Delete(Delete(s, caller, reviewId).value, caller, reviewId) == Failure(NotFound)
  {
  }

  /** A created review is listed, both among all reviews and among its
      product's reviews. */
  lemma CreatedIsListed(s: Store, caller: Caller, input: ReviewCreate, now: nat)
    requires Create(s, caller, input, now).Success?
    ensures
      var (s', created) := Create(s, caller, input, now).value;
      && created in ListAll(s')
      && ListByProduct(s', input.productId).Success?
      && created in ListByProduct(s', input.productId).value
  {
  }

  /** A deleted review disappears from both listings, yet its record is
      still stored. */
  lemma DeletedIsUnlisted(s: Store, caller: Caller, reviewId: int, pid: int)
    requires Delete(s, caller, reviewId).Success?
    ensures
      var s' := Delete(s, caller, reviewId).value;
      && (forall r :: r in ListAll(s') ==> r.id != reviewId)
      && (ListByProduct(s', pid).Success? ==> forall r :: r in ListByProduct(s', pid).value ==> r.id != reviewId)
      && exists r :: r in s'.reviews && r.id == reviewId && !r.isActive
  {
    var s' := Delete(s, caller, reviewId).value;
    var i := FindActive(s.reviews, reviewId).value;
    assert s'.reviews[i] in s'.reviews;
    forall r | r in s'.reviews && r.id == reviewId
      ensures !r.isActive
    {
      var k :| 0 <= k < |s'.reviews| && s'.reviews[k] == r;
    }
  }

  /** In a consistent store the rating a product carries is the average of
      the grades its review listing shows, and it is 0 exactly when that
      listing is empty, otherwise between 1 and 5. */
  lemma RatingMatchesListing(s: Store, pid: int)
    requires Valid(s)
    requires ListByProduct(s, pid).Success?
    ensures s.products[pid].rating == Average(RowTally(ListByProduct(s, pid).value))
    ensures s.products[pid].rating == 0.0 <==> ListByProduct(s, pid).value == []
    ensures ListByProduct(s, pid).value != [] ==> 1.0 <= s.products[pid].rating <= 5.0
  {
    RowTallySort(Select(s.reviews, Some(pid)));
  }
}
