# Product review service — Dafny model

This project models the review endpoints of a small shop backend
(`app/routers/reviews.py`) and the `Review` record they store
(`app/models/reviews.py`). The store is abstracted into one immutable value:

- the `reviews` table, as a sequence of `Review` rows in storage (insertion)
  order;
- the products, as a map from product id to the two columns the service
  uses, `isActive` and `rating`.

There are four operations:

- **List all** (`ReviewService.ListAll`) returns every active review.
- **List by product** (`ReviewService.ListByProduct`) fails with `NotFound`
  unless the product exists and is active. Otherwise it returns that
  product's active reviews, newest first.
- **Create** (`ReviewService.Create`) checks three guards in the source's
  order: role `"buyer"` (Forbidden), product present and active (NotFound),
  grade in 1..5 (Unprocessable). On success it appends an active review
  owned by the caller and recomputes the product's rating.
- **Delete** (`ReviewService.Delete`) checks the role `"admin"` (Forbidden),
  then that an active review with that id exists (NotFound). On success it
  soft-deletes the review: every row with that id gets `isActive = false`,
  and the row stays stored. It then recomputes the rating of the review's
  product. That product is looked up by primary key only, so an inactive
  product is re-rated too.

The rating is the exact rational mean of the grades of a product's active
reviews, or 0 when it has none (`Rating.MeanGrade`). The caller's id and role
and the clock reading used as `comment_date` are plain parameters.

`ReviewService.Valid` is the store invariant the operations maintain:

- ids are a primary key;
- grades lie in 1..5;
- every review names a stored product;
- every product's rating equals the mean grade of its active reviews.

`History` serves request sequences. It proves that the invariant holds after
any sequence of requests. It also proves that records only ever lose their
`isActive` flag: no row is erased or edited, and no row is reactivated. A
worked example is included: grades 4 and then 2 give ratings 4 and 3, and
deleting the first review gives rating 2.

Files: `wrappers.dfy` (Option/Result), `reviews.dfy` (the record, key
allocation), `query.dfy` (the WHERE filter and ORDER BY), `rating.dfy`
(tallies and averages), `service.dfy` (the four operations), `service_lemmas.dfy`
(cross-call properties), `history.dfy` (request sequences, example).

## Model

| member | source | states |
|---|---|---|
| `Reviews.NextId` | app/models/reviews.py:11 | The id given to a new review is greater than every stored id, so the primary key stays unique. It is at least 1, and it is either 1 or one more than a stored id: the largest id plus one, or 1 when that would not be positive |
| `Query.Select` | app/routers/reviews.py:51-55 | The filter keeps exactly the rows that are active and, when a product is given, belong to it; it never lengthens the table and keeps ids distinct |
| `Query.SortNewestFirst` | app/routers/reviews.py:56 | The result is a permutation of its input (same multiset), ordered by `comment_date` non-increasing, with ids still distinct |
| `Rating.RowTally` | app/routers/reviews.py:104-108 | The tally counts every selected row; with grades in 1..5 the grade sum lies between the count and five times the count |
| `Rating.Average` | app/routers/reviews.py:109 | With at least one row the average times the count is the grade sum; with none it is 0, replacing SQL's NULL |
| `Rating.MeanGrade` | app/routers/reviews.py:104-109 | The rating a product should carry: 0 when it has no active review (the `or 0.0` for SQL's NULL). With grades in 1..5 it is 0 exactly then, and otherwise lies in [1, 5] |
| `Rating.RowTallySort` | app/routers/reviews.py:56 | Ordering a product's reviews by date does not change their count or grade sum |
| `ReviewService.ListAll` | app/routers/reviews.py:25-30 | A review is listed iff it is stored and active, so no inactive review is ever listed; with unique ids, no review is listed twice |
| `ReviewService.ListByProduct` | app/routers/reviews.py:40-59 | NotFound iff the product is missing or inactive (the only error). Otherwise the list holds exactly the product's stored active reviews, newest first, with no duplicate id |
| `ReviewService.Rerate` | app/routers/reviews.py:150-151 | The product is fetched by primary key alone, active or not, and only its rating changes, to the mean grade over the given table. Every other product, and the set of products, stays as it was |
| `ReviewService.Create` | app/routers/reviews.py:72-114 | Forbidden iff the role is not "buyer". NotFound iff buyer and product missing or inactive, whatever the grade. Unprocessable iff both pass but the grade is outside 1..5. Success: one new row is appended with a fresh id, active, the caller as owner, the given comment, grade and product, and `now` as date; earlier rows unchanged; only that product's rating changes, to the mean of its active grades |
| `ReviewService.FindActive` | app/routers/reviews.py:130-136 | The lookup returns the first position holding an active row with the id, as `.first()` does, and returns nothing iff no such row exists |
| `ReviewService.Deactivate` | app/routers/reviews.py:139 | The UPDATE keeps the table length; rows with another id are unchanged; rows with this id only lose `isActive` |
| `ReviewService.Delete` | app/routers/reviews.py:126-153 | Forbidden iff the role is not "admin". NotFound iff admin and no active row has the id. Success: same rows, only those with the id changed and only to inactive; product set unchanged; only the product of the first active row with the id (the row the lookup returns) is re-rated, active or not |
| `ServiceLemmas.TallyAfterAppend` | app/routers/reviews.py:104-108 | Appending a review adds one to its own product's count and its grade to the sum, and leaves every other product's tally unchanged |
| `ServiceLemmas.SelectDeactivateOther` | app/routers/reviews.py:139 | Soft-deleting an id that has no active review of a product leaves that product's active reviews unchanged |
| `ServiceLemmas.TallyAfterDeactivate` | app/routers/reviews.py:144-149 | With unique ids, soft-deleting an active review takes exactly one from its product's count and its grade from the sum |
| `ServiceLemmas.MeanGradeAfterAppend` | app/routers/reviews.py:104-108 | Adding a review leaves the mean grade of every other product as it was, so a create need re-rate only its own product |
| `ServiceLemmas.MeanGradeAfterDeactivateOther` | app/routers/reviews.py:139-147 | In a keyed table, soft-deleting a review leaves the mean grade of every other product as it was, so a delete need re-rate only that review's product |
| `ServiceLemmas.CreateKeepsValid` | app/routers/reviews.py:92-112 | A successful create keeps the store invariant: unique ids, grades in 1..5, existing products, and every rating equal to its product's mean |
| `ServiceLemmas.DeleteKeepsValid` | app/routers/reviews.py:139-152 | A successful delete keeps the same store invariant, including the ratings of products it does not touch |
| `ServiceLemmas.CreateRating` | app/routers/reviews.py:104-111 | After a create, the product's rating is (previous sum + grade) / (previous count + 1) |
| `ServiceLemmas.DeleteRating` | app/routers/reviews.py:144-151 | In a keyed table, an admin's delete of an active review succeeds. The product's rating becomes (sum − grade) / (count − 1), or 0 when that review was the product's last |
| `ServiceLemmas.DeleteTwice` | app/routers/reviews.py:129-136 | Soft delete is not idempotent: deleting the same id again right after a successful delete yields NotFound |
| `ServiceLemmas.CreatedIsListed` | app/routers/reviews.py:92-101 | A created review appears in the full listing and in its product's listing |
| `ServiceLemmas.DeletedIsUnlisted` | app/routers/reviews.py:138-141 | After a delete, no listing contains the id, yet a record with that id is still stored, inactive |
| `ServiceLemmas.RatingMatchesListing` | app/routers/reviews.py:104-111 | In a consistent store, a product's stored rating is the average of the grades its listing shows. It is 0 iff the listing is empty, and otherwise in [1, 5] |
| `History.RunKeepsValid` | app/routers/reviews.py:62-153 | After any sequence of create and delete requests, failed ones included, the store invariant holds. So every product's rating is the mean grade of its active reviews |
| `History.StepEvolves` | app/routers/reviews.py:92-139 | A single request appends at most one row (the insert at lines 92-101) and otherwise changes stored reviews only by clearing `isActive` (the UPDATE at line 139). Products and their `isActive` flags stay |
| `History.RunEvolves` | app/routers/reviews.py:92-139 | Across any request sequence, no review is erased or moved. In a stored review only `isActive` changes, only from true to false; `comment_date`, grade, owner and product stay fixed. The only writes are the insert at lines 92-101 and the UPDATE at line 139 |
| `History.ExampleFirst` | app/routers/reviews.py:92-111 | In the worked example, buyer 1's grade-4 review gets id 1 and sets the rating of product 7 from 0 to 4 |
| `History.ExampleSecond` | app/routers/reviews.py:92-111 | Buyer 2's grade-2 review then gets id 2 and moves the rating to 3 |
| `History.ExampleDelete` | app/routers/reviews.py:139-151 | The admin's delete of review 1 keeps its row, now inactive, and moves the rating to 2 |
| `History.ExampleListing` | app/routers/reviews.py:51-59 | Afterwards both listings show only the second review |

## Left out

- HTTP routing, status codes, response models and the delete's
  `{"message": "Review deleted"}` body are not modelled. Errors are the
  `Error` datatype, and a successful delete returns the new store.
- The database session is not modelled: no `commit`, `refresh` or query
  building. Each operation is one atomic step. The source commits twice
  (the review first, the rating second), so a failure between the commits
  leaves a stale rating. That failure is not modelled.
- Concurrent requests, and the lost updates on `rating` they allow, are not
  modelled; requests are served one at a time.
- Authentication and the session provider are not part of this model. The
  caller is a `(id, role)` parameter, and the role is compared as a string,
  as in the source.
- `datetime.now` is the `now: nat` parameter of `Create`.
- SQL `avg` on floating point or numeric is modelled with exact `real`
  division.
- The request schemas and the Product and User models are not part of this
  model. Only the product columns `is_active` and `rating` are modelled.
  The guards of `ReviewService.Create` follow the handler's order. Any field
  validation the request schema might do before the handler runs is not
  part of this model.
- Key allocation by the database is modelled as one more than the largest
  stored id. A database sequence can skip values; any fresh id would do.
- `ReviewService.Delete`: if the review's product row is missing, the source
  raises after the soft delete is committed. The model instead returns
  success and leaves the products unchanged. The foreign key makes this case
  unreachable (`Valid` requires every review's product to exist).
- `ReviewService.ListAll`: returns rows in storage order. SQL promises no
  order here, so this is one allowed outcome. Rows with equal `comment_date`
  may likewise come out of `ListByProduct` in any order.
- The reviews table is a sequence of rows, not a map keyed by id. The
  primary key is the `UniqueIds` invariant. The UPDATE acts on every row
  with the id; the lookup takes the first active one, as `.first()` does.
- `comment` is a nullable column (app/models/reviews.py:12), so the model
  uses `Option<string>`.
