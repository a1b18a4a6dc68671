/** Sequences of requests served one after another: what holds of every
    reachable store, and the worked example of a product's rating moving as
    reviews are added and removed. */
module History {
  import opened Wrappers
  import opened Reviews
  import opened Query
  import opened Rating
  import opened ReviewService
  import opened ServiceLemmas

  /** A state-changing request, with the caller and clock reading it carries. */
  datatype Request =
    | CreateRequest(caller: Caller, input: ReviewCreate, now: nat)
    | DeleteRequest(caller: Caller, reviewId: int)

  /** The store after serving one request; a request that fails leaves it as
      it was. */
  function Step(s: Store, req: Request): Store
  {
    match req
    case CreateRequest(caller, input, now) =>
      (match Create(s, caller, input, now)
       case Success(created) => created.0
       case Failure(_) => s)
    case DeleteRequest(caller, reviewId) =>
      (match Delete(s, caller, reviewId)
       case Success(s') => s'
       case Failure(_) => s)
  }

  /** The store after serving the requests in order. */
  function Run(s: Store, reqs: seq<Request>): Store
    decreases |reqs|
  {
    if reqs == [] then s else Run(Step(s, reqs[0]), reqs[1..])
  }

  /** How a store may evolve: no review row is erased or moved; in a kept row
      only `isActive` may change, and only from true to false (so
      `commentDate`, `grade` and ownership never change); the set of products
      and their `isActive` flags stay as they were. */
  predicate Evolves(s: Store, s': Store)
  {
    && |s.reviews| <= |s'.reviews|
    && (forall i :: 0 <= i < |s.reviews| ==>
          && s'.reviews[i] == s.reviews[i].(isActive := s'.reviews[i].isActive)
          && (s'.reviews[i].isActive ==> s.reviews[i].isActive))
    && s'.products.Keys == s.products.Keys
    && (forall p :: p in s.products ==> s'.products[p].isActive == s.products[p].isActive)
  }

  lemma EvolvesTransitive(s1: Store, s2: Store, s3: Store)
    requires Evolves(s1, s2) && Evolves(s2, s3)
    ensures Evolves(s1, s3)
  {
  }

  /** Every request serves as an evolution of the store, adding at most one
      row. */
  lemma StepEvolves(s: Store, req: Request)
    ensures Evolves(s, Step(s, req))
    ensures |Step(s, req).reviews| <= |s.reviews| + 1
  {
    match req
    case CreateRequest(caller, input, now) =>
      if Create(s, caller, input, now).Success? {
        var s' := Create(s, caller, input, now).value.0;
        assert forall i :: 0 <= i < |s.reviews| ==> s'.reviews[i] == s.reviews[i];
      }
    case DeleteRequest(caller, reviewId) =>
  }

  /** Any sequence of requests only ever soft-deletes: records are never
      erased, edited or reactivated. */
  lemma {:induction false} RunEvolves(s: Store, reqs: seq<Request>)
    ensures Evolves(s, Run(s, reqs))
    decreases |reqs|
  {
    if reqs != [] {
      StepEvolves(s, reqs[0]);
      RunEvolves(Step(s, reqs[0]), reqs[1..]);
      EvolvesTransitive(s, Step(s, reqs[0]), Run(s, reqs));
    }
  }

  /** Any sequence of requests keeps the store consistent; in particular
      every product's rating stays the mean grade of its active reviews. */
  lemma {:induction false} RunKeepsValid(s: Store, reqs: seq<Request>)
    requires Valid(s)
    ensures Valid(Run(s, reqs))
    decreases |reqs|
  {
    if reqs != [] {
      match reqs[0] {
      case CreateRequest(caller, input, now) =>
        if Create(s, caller, input, now).Success? {
          CreateKeepsValid(s, caller, input, now);
        }
      case DeleteRequest(caller, reviewId) =>
        if Delete(s, caller, reviewId).Success? {
          DeleteKeepsValid(s, caller, reviewId);
        }
      }
      RunKeepsValid(Step(s, reqs[0]), reqs[1..]);
    }
  }

  /** An empty reviews table with active products rated 0 is consistent. */
  lemma EmptyStoreValid(products: map<int, Product>)
    requires forall p :: p in products ==> products[p].rating == 0.0
    ensures Valid(Store([], products))
  {
  }

  /** The worked example. Product 7 starts active with rating 0; buyer 1
      rates it 4, buyer 2 rates it 2, then an admin deletes the first review. */
  const First := Review(1, None, 100, 4, true, 1, 7)
  const Second := Review(2, None, 200, 2, true, 2, 7)
  const Start := Store([], map[7 := Product(true, 0.0)])
  const AfterFirst := Store([First], map[7 := Product(true, 4.0)])
  const AfterSecond := Store([First, Second], map[7 := Product(true, 3.0)])
  const AfterDelete := Store([First.(isActive := false), Second], map[7 := Product(true, 2.0)])

  lemma SingleTally(r: Review, pid: int)
    requires Matches(r, Some(pid))
    ensures ProductTally([r], pid) == Tally(1, r.grade)
  {
    TallyAfterAppend([], r, pid);
    assert [] + [r] == [r];
  }

  /** Buyer 1's review with grade 4 gets id 1 and sets the rating to 4. */
  lemma ExampleFirst()
    ensures Create(Start, Caller(1, BuyerRole), ReviewCreate(7, None, 4), 100) == Success((AfterFirst, First))
  {
    var caller, input := Caller(1, BuyerRole), ReviewCreate(7, None, 4);
    var (s1, r1) := Create(Start, caller, input, 100).value;
    assert NextId([]) == 1;
    assert r1 == First;
    assert s1.reviews == [] + [First] == [First];
    SingleTally(First, 7);
    assert MeanGrade([First], 7) == Average(Tally(1, 4)) == 4.0;
    assert s1.products == AfterFirst.products;
  }

  /** Buyer 2's review with grade 2 gets id 2 and sets the rating to 3. */
  lemma ExampleSecond()
    ensures Create(AfterFirst, Caller(2, BuyerRole), ReviewCreate(7, None, 2), 200) == Success((AfterSecond, Second))
  {
    var caller, input := Caller(2, BuyerRole), ReviewCreate(7, None, 2);
    CreateRating(AfterFirst, caller, input, 200);
    SingleTally(First, 7);
    assert Average(Tally(2, 6)) == 3.0;
    var (s2, r2) := Create(AfterFirst, caller, input, 200).value;
    assert NextId([First]) == 2;
    assert r2 == Second;
    assert [First] + [Second] == [First, Second];
    assert s2.products == AfterSecond.products;
  }

  /** Product 7's tally once both reviews are in. */
  lemma ExampleSecondTally()
    ensures ProductTally(AfterSecond.reviews, 7) == Tally(2, 6)
  {
    SingleTally(First, 7);
    TallyAfterAppend([First], Second, 7);
    assert [First] + [Second] == AfterSecond.reviews;
  }

  /** The store after both reviews is consistent. */
  lemma ExampleSecondValid()
    ensures Valid(AfterSecond)
  {
    ExampleSecondTally();
    assert Average(Tally(2, 6)) == 3.0;
  }

  /** The admin's delete of review 1 brings the rating to the mean of the
      remaining grade. Stated for a store and caller equal to the example's,
      so that the verifier reasons about `Delete` through its contract rather
      than by evaluating it on constants. */
  lemma ExampleDeleteRating(s: Store, admin: Caller)
    requires s == AfterSecond && admin == Caller(3, AdminRole)
    ensures Delete(s, admin, 1).Success?
    ensures Delete(s, admin, 1).value.products[7].rating == Average(Tally(1, 2))
  {
    assert UniqueIds(s.reviews) && s.reviews[0] == First;
    DeleteRating(s, admin, 0);
    ExampleSecondTally();
  }

  /** The three averages the example passes through. */
  lemma ExampleAverages()
    ensures Average(Tally(1, 4)) == 4.0
    ensures Average(Tally(2, 6)) == 3.0
    ensures Average(Tally(1, 2)) == 2.0
  {
  }

  /** The admin's delete of review 1 keeps its row, inactive, and leaves
      rating 2. */
  lemma ExampleDelete()
    ensures Delete(AfterSecond, Caller(3, AdminRole), 1) == Success(AfterDelete)
  {
    ExampleDeleteRating(AfterSecond, Caller(3, AdminRole));
    ExampleAverages();
    var s3 := Delete(AfterSecond, Caller(3, AdminRole), 1).value;
    assert s3.reviews == AfterDelete.reviews;
    assert s3.products == AfterDelete.products;
  }

  /** In the final store, product 7's listing shows only the second review,
      while the first review's record is still stored, inactive. */
  lemma ExampleListing()
    ensures ListByProduct(AfterDelete, 7) == Success([Second])
    ensures ListAll(AfterDelete) == [Second]
  {
    var rows := AfterDelete.reviews;
    assert rows[1..] == [Second];
    assert [Second][1..] == [];
    assert Select(rows, Some(7)) == [Second];
    assert Select(rows, None) == [Second];
  }
}
