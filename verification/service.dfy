/** The review service: two queries and two guarded updates over a store
    holding the reviews table and the products' `isActive` and `rating`
    columns. The caller's identity and role, and the clock reading used as
    the creation time, are parameters. */
module ReviewService {
  import opened Wrappers
  import opened Reviews
  import opened Query
  import opened Rating

  /** The product columns the service reads or writes. */
  datatype Product = Product(isActive: bool, rating: real)

  /** The persistent state: review rows in storage order, products by id. */
  datatype Store = Store(reviews: seq<Review>, products: map<int, Product>)

  /** The authenticated caller: a user id and the role string on its record. */
  datatype Caller = Caller(id: int, role: string)

  /** The body of a create request. */
  datatype ReviewCreate = ReviewCreate(productId: int, comment: Option<string>, grade: int)

  /** The errors the service raises (HTTP 403, 404 and 422). */
  datatype Error = Forbidden | NotFound | Unprocessable

  const BuyerRole := "buyer"
  const AdminRole := "admin"

  /** The product exists and is active. */
  predicate ProductAvailable(s: Store, pid: int)
  {
    pid in s.products && s.products[pid].isActive
  }

  predicate GradeAccepted(grade: int)
  {
    1 <= grade <= 5
  }

  /** Some stored row with this id is still active. */
  predicate HasActive(rows: seq<Review>, id: int)
  {
    exists r :: r in rows && r.id == id && r.isActive
  }

  /** The consistency the service maintains: ids are a primary key, grades
      lie in 1..5, every review names a stored product, and every product's
      rating is the mean grade of its active reviews. */
  predicate Valid(s: Store)
  {
    && UniqueIds(s.reviews)
    && GradesInRange(s.reviews)
    && (forall r :: r in s.reviews ==> r.productId in s.products)
    && (forall pid :: pid in s.products ==> s.products[pid].rating == MeanGrade(s.reviews, pid))
  }

  /** List all: every active review, in storage order. */
  function ListAll(s: Store): (rs: seq<Review>)
    ensures forall r :: r in rs <==> r in s.reviews && r.isActive
    ensures UniqueIds(s.reviews) ==> UniqueIds(rs)
  {
    Select(s.reviews, None)
  }

  /** List by product: NotFound unless the product exists and is active;
      otherwise its active reviews, newest first. */
  function ListByProduct(s: Store, pid: int): (r: Result<seq<Review>, Error>)
    ensures r.Failure? <==> !ProductAvailable(s, pid)
    ensures r.Failure? ==> r.error == NotFound
    ensures r.Success? ==> forall x :: x in r.value <==> x in s.reviews && x.isActive && x.productId == pid
    ensures r.Success? ==> NewestFirst(r.value)
    ensures r.Success? && UniqueIds(s.reviews) ==> UniqueIds(r.value)
  {
    if !ProductAvailable(s, pid) then Failure(NotFound)
    else Success(SortNewestFirst(Select(s.reviews, Some(pid))))
  }

  /** Stores the recomputed rating on product `pid`. The product is fetched
      by primary key only, so an inactive product is updated too; a missing
      one leaves the products unchanged. */
  function Rerate(products: map<int, Product>, rows: seq<Review>, pid: int): (out: map<int, Product>)
    ensures out.Keys == products.Keys
    ensures forall q :: q in products && q != pid ==> out[q] == products[q]
    ensures pid in products ==> out[pid] == products[pid].(rating := MeanGrade(rows, pid))
  {
    if pid in products then products[pid := products[pid].(rating := MeanGrade(rows, pid))]
    else products
  }

  /** Create: the role, product and grade guards fire in that order; on
      success a new active review owned by the caller is appended and the
      product's rating is recomputed. */
  function Create(s: Store, caller: Caller, input: ReviewCreate, now: nat): (r: Result<(Store, Review), Error>)
    ensures r == Failure(Forbidden) <==> caller.role != BuyerRole
    ensures r == Failure(NotFound) <==>
      caller.role == BuyerRole && !ProductAvailable(s, input.productId)
    ensures r == Failure(Unprocessable) <==>
      caller.role == BuyerRole && ProductAvailable(s, input.productId) && !GradeAccepted(input.grade)
    ensures r.Success? ==>
      var created := r.value.1;
      && created.isActive
      && created.userId == caller.id
      && created.comment == input.comment
      && created.grade == input.grade
      && created.productId == input.productId
      && created.commentDate == now
      && (forall x :: x in s.reviews ==> x.id != created.id)
    ensures r.Success? ==> r.value.0.reviews == s.reviews + [r.value.1]
    ensures r.Success? ==>
      var s' := r.value.0;
      && s'.products.Keys == s.products.Keys
      && (forall q :: q in s.products && q != input.productId ==> s'.products[q] == s.products[q])
      && s'.products[input.productId].isActive
      && s'.products[input.productId].rating == MeanGrade(s'.reviews, input.productId)
  {
    if caller.role != BuyerRole then Failure(Forbidden)
    else if !ProductAvailable(s, input.productId) then Failure(NotFound)
    else if !GradeAccepted(input.grade) then Failure(Unprocessable)
    else
      // The ORM fills `is_active` and `comment_date` from their column
      // defaults: true and the time of the insert.
      var created := Review(NextId(s.reviews), input.comment, now, input.grade,
                            true, caller.id, input.productId);
      var rows := s.reviews + [created];
      Success((Store(rows, Rerate(s.products, rows, input.productId)), created))
  }

  /** Position i holds an active row with this id and no earlier row does:
      the row `.first()` returns from the lookup. */
  predicate FirstActiveAt(rows: seq<Review>, id: int, i: int)
  {
    && 0 <= i < |rows| && rows[i].id == id && rows[i].isActive
    && forall k :: 0 <= k < i ==> !(rows[k].id == id && rows[k].isActive)
  }

  /** The lookup `select ... where id == id and is_active` followed by
      `.first()`: the position of the first active row with this id. */
  function FindActive(rows: seq<Review>, id: int): (i: Option<nat>)
    ensures i.Some? ==> FirstActiveAt(rows, id, i.value)
    ensures i.None? <==> !HasActive(rows, id)
  {
    if rows == [] then None
    else if rows[0].id == id && rows[0].isActive then Some(0)
    else
      assert forall r :: r in rows ==> r == rows[0] || r in rows[1..];
      match FindActive(rows[1..], id)
      case None => None
      case Some(k) => Some(k + 1)
  }

  /** The soft-delete UPDATE: every row with this id becomes inactive. */
  function Deactivate(rows: seq<Review>, id: int): (out: seq<Review>)
    ensures |out| == |rows|
    ensures forall i :: 0 <= i < |rows| && rows[i].id != id ==> out[i] == rows[i]
    ensures forall i :: 0 <= i < |rows| && rows[i].id == id ==> out[i] == rows[i].(isActive := false)
  {
    if rows == [] then []
    else
      var head := if rows[0].id == id then rows[0].(isActive := false) else rows[0];
      [head] + Deactivate(rows[1..], id)
  }

  /** Delete: the role guard, then the existence guard; on success the
      review's row is kept but marked inactive and its product re-rated. */
  function Delete(s: Store, caller: Caller, reviewId: int): (r: Result<Store, Error>)
    ensures r == Failure(Forbidden) <==> caller.role != AdminRole
    ensures r == Failure(NotFound) <==> caller.role == AdminRole && !HasActive(s.reviews, reviewId)
    ensures r.Success? ==> |r.value.reviews| == |s.reviews|
    ensures r.Success? ==>
      forall i :: 0 <= i < |s.reviews| && s.reviews[i].id != reviewId ==> r.value.reviews[i] == s.reviews[i]
    ensures r.Success? ==>
      forall i :: 0 <= i < |s.reviews| && s.reviews[i].id == reviewId ==>
        r.value.reviews[i] == s.reviews[i].(isActive := false)
    ensures r.Success? ==> r.value.products.Keys == s.products.Keys
    ensures r.Success? ==>
      forall i | FirstActiveAt(s.reviews, reviewId, i) ::
        var pid := s.reviews[i].productId;
        && (forall q :: q in s.products && q != pid ==> r.value.products[q] == s.products[q])
        && (pid in s.products ==>
              r.value.products[pid] == s.products[pid].(rating := MeanGrade(r.value.reviews, pid)))
  {
    if caller.role != AdminRole then Failure(Forbidden)
    else
      match FindActive(s.reviews, reviewId)
      case None => Failure(NotFound)
      case Some(i) =>
        assert forall j | FirstActiveAt(s.reviews, reviewId, j) :: j == i;
        var pid := s.reviews[i].productId;
        var rows := Deactivate(s.reviews, reviewId);
        Success(Store(rows, Rerate(s.products, rows, pid)))
  }
}
