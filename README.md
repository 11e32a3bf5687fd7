# category-service write orchestration, in Dafny

This project models the core of a Go category service that keeps categories in
a Postgres table (through gorm) and mirrors every create, update and delete to
a separate book service over gRPC. Each write runs inside a store transaction.
The local change is staged first. The book service is then called with the new
state. The transaction commits only if that call succeeded, so a failed mirror
undoes the local change.

Modules, one per source component:

- `Domain` (domain.dfy): the `Category` row (primary key, unique name,
  timestamps, `deletedAt` soft-delete marker), the error kinds, and the table
  invariants that the schema enforces.
- `Listing` (listing.dfy): what the list query returns. It gives the live rows,
  newest `created_at` first, cut by LIMIT/OFFSET after the page and limit are
  clamped. It also proves that the listing holds each live row once and as many
  rows as the count.
- `Repository` (repository.dfy): the `CategoryRepository` interface as a class.
  Writes are allowed only while a transaction handle is held. Reads use the
  ambient handle. `Transaction(fn)` is split at the call of `fn` into
  `BeginTransaction` and `EndTransaction`: the first takes a snapshot, and the
  second restores it when `fn` returned an error. Also here: soft delete,
  upsert, and lemmas about lookups and deletion.
- `BookService` (grpcservice.dfy): the book service client as an oracle. Its
  answers to the next calls are given in advance. It keeps a ghost log of the
  calls and a ghost view of what the remote side holds. It also records the
  local store's rows at the moment of each call, which fixes the order of
  staging and mirroring.
- `Usecase` (usecase.dfy): the use cases. Each write's transaction body is its
  own method (`...InTransaction`), and the public method wraps it in
  begin/end. Also here: the page-count arithmetic with Go's truncating
  division, and the agreement invariant between store and book service.
- `Scenarios` (scenarios.dfy): short client runs from an empty store.

Time is a counter that every store write advances. Ties in `created_at` are
broken by the higher key, so the listing is a single fixed sequence.

The two repository files disagree. The interface
(internal/repository/repository.go) has writes that take `tx` and declares
`Transaction`. The gorm implementation takes a `ctx`, writes through its own
handle and has no `Transaction` method. The model follows the interface,
because that is what the use cases call. The gorm behaviour it gives each
method is soft delete, default scopes that skip deleted rows, and
update-or-insert on save.

Unlike what one might expect of such a service, the code does the
following, and the model keeps it:

- No use case checks that a name is non-empty.
- The `unique` constraint on `name` covers soft-deleted rows too. Re-creating
  a deleted category's name therefore fails with a unique violation.
- Deleting a missing or already deleted key is not an error. The book service
  is still asked to delete it.
- Errors reach the caller as the store or client produced them. They are not
  translated into not-found, conflict or remote kinds.

## Model

| member | source | states |
|---|---|---|
| `Listing.ClampLimit` | internal/repository/category_repository.go:26-28 | a limit of 1 or more is kept as it is, and a limit below 1 becomes 10 |
| `Listing.ClampPage` | internal/repository/category_repository.go:23-25 | a page of 1 or more is kept as it is, and a page below 1 becomes 1 |
| `Listing.Offset` | internal/repository/category_repository.go:35 | after clamping, the offset is `(page-1)*limit` and is never negative |
| `Listing.Window` | internal/repository/category_repository.go:37 | LIMIT/OFFSET gives exactly the rows at positions offset, offset+1, … of the ordered rows, at most `limit` of them, and fewer only at the end |
| `Listing.InsertSorted` | internal/repository/category_repository.go:37 | placing a row into a newest-first sequence of rows with other keys keeps it newest first |
| `Listing.SortSorted` | internal/repository/category_repository.go:37 | ordering rows with distinct keys by `created_at DESC` gives a newest-first permutation of them |
| `Listing.LiveBelowMembers` | pkg/shared/domain/Category.go:14 | the rows the default scope lets through are exactly the rows whose `deletedAt` is unset |
| `Listing.OrderedSpec` | internal/repository/category_repository.go:37 | the ordered listing holds every live row exactly once, newest first, with distinct keys |
| `Listing.CountMatchesListing` | internal/repository/category_repository.go:30 | the count of live rows equals the length of the full listing |
| `Listing.PageSpec` | internal/repository/category_repository.go:37 | a page holds at most the clamped limit of rows, all of them live and unchanged from the table, newest first |
| `Repository.LookupAfterSoftDelete` | internal/repository/category_repository.go:61-63 | after a soft delete the deleted key is not found, every other lookup is unchanged, and the row is kept with its name |
| `Repository.SoftDeleteIdempotent` | internal/repository/category_repository.go:61-63 | deleting an already deleted row changes nothing, and the first `deletedAt` stays |
| `Repository.SoftDeletedNotListed` | pkg/shared/domain/Category.go:14 | a soft-deleted row appears on no page of the listing |
| `Repository.LookupIffListed` | internal/repository/category_repository.go:46-55 | a key is found exactly when its row is in the listing, and the row found is the listed one |
| `Repository.DeletedNameStaysTaken` | pkg/shared/domain/Category.go:11 | after a soft delete the row's name still blocks a save of that name under any other key |
| `Repository.UpsertKeepsTableOk` | internal/repository/category_repository.go:57-59 | a save that passes the name check keeps keys unique and in range and keeps names unique |
| `Repository.SoftDeleteKeepsTableOk` | internal/repository/category_repository.go:61-63 | a soft delete keeps the table invariant |
| `Repository.CategoryRepository.BeginTransaction` | internal/repository/repository.go:15 | opening a transaction records the rows as they are, so that they can be restored |
| `Repository.CategoryRepository.EndTransaction` | internal/usecase/category_usecase.go:46 | `Transaction` returns `fn`'s error; on nil the staged rows are committed, otherwise the rows at BEGIN are restored; the key sequence and the clock are not rolled back |
| `Repository.CategoryRepository.SaveCategory` | internal/repository/category_repository.go:57-59 | only inside a transaction; a zero key inserts under the next sequence value with both timestamps set to now; a non-zero key overwrites that row with `updatedAt` = now; a name held by another row fails with a unique violation and changes no row |
| `Repository.CategoryRepository.DeleteCategory` | internal/repository/category_repository.go:61-63 | only inside a transaction; sets `deletedAt` on the live row under the key, leaves every other row as it is, and never reports an error |
| `Repository.CategoryRepository.GetCategoryByID` | internal/repository/category_repository.go:46-55 | returns the row under the key when it is live, otherwise a not-found error |
| `Repository.CategoryRepository.GetAllCategories` | internal/repository/category_repository.go:19-44 | a count or query failure gives no rows, total 0 and the error; otherwise total is the number of live rows whatever the page and limit, and the rows are the clamped page of the newest-first listing: at most `limit` of them, all live, newest first |
| `BookService.BookClient.SaveCategory` | internal/grpcservice/book_service.go:25-35 | the call is appended to the ghost call log, and the store's rows at that moment to the ghost record of what each call saw; it returns an error exactly when the service does not accept it; only an accepted call changes what the service holds |
| `BookService.BookClient.DeleteCategory` | internal/grpcservice/book_service.go:37-48 | the call is appended to the ghost call log, and the store's rows at that moment to the ghost record of what each call saw; it returns an error exactly when the service does not accept it; an accepted call makes the service forget the key |
| `Usecase.GoDiv` | internal/usecase/category_usecase.go:67 | Go's integer `/` truncates toward zero: the remainder is smaller than the divisor and has the sign of the dividend |
| `Usecase.TotalPagesIsCeiling` | internal/usecase/category_usecase.go:67 | for a limit of 1 or more, `TotalPages` is the ceiling of total / limit, and it is 0 exactly when there are no rows |
| `Usecase.TotalPagesExamples` | internal/usecase/category_usecase.go:67 | 23 rows with limit 10 make 3 pages; 0 rows make 0 pages; 20 rows make 2 pages |
| `Usecase.NegativeLimitMisreportsPages` | internal/usecase/category_usecase.go:67 | with limit -1 the store serves pages of 10, so 23 rows make 3 pages, but `TotalPages` reports -21 |
| `Usecase.EveryRowOnSomePage` | internal/usecase/category_usecase.go:62-68 | with the page count taken over the clamped limit, every live row is on some page from 1 to that count |
| `Usecase.MirroredSaveKeepsConsistent` | internal/usecase/category_usecase.go:34-44 | when a row is saved and the book service accepts the same key and name, the store and the service still agree |
| `Usecase.MirroredDeleteKeepsConsistent` | internal/usecase/category_usecase.go:117-125 | when a soft delete is followed by an accepted remote delete, the store and the service still agree, even if the key was missing or already deleted |
| `Usecase.CategoryUsecase.CreateInTransaction` | internal/usecase/category_usecase.go:29-47 | the book service is called while the store already holds the inserted row: the rows the call sees are the old rows plus the new row, with the assigned key and the requested name; a failed insert makes no call; the body's error is the insert's or the call's |
| `Usecase.CategoryUsecase.CreateCategory` | internal/usecase/category_usecase.go:27-54 | on success the new row is stored and found under a fresh key with the requested name; on a unique violation no call is made; on a remote failure the insert is rolled back; every failure leaves the rows as before; the clock advances by one and is not rolled back, so a later create gets a later `created_at`; the book service holds the new name exactly on success; the one call it makes sees the store with the new row already staged; the phases run staged, mirrored, then committed or rolled back; store and book service stay in agreement |
| `Usecase.CategoryUsecase.UpdateInTransaction` | internal/usecase/category_usecase.go:83-106 | an unknown or deleted key fails before any save or call; otherwise the renamed row (or the same name if none is given) is saved in full, and the book service is called while the store already holds it |
| `Usecase.CategoryUsecase.UpdateCategory` | internal/usecase/category_usecase.go:81-113 | on success the row has the requested name, or the old one if none was given, and is the stored row; an unknown key returns not-found with no call and no clock step; any call made sees the store with the renamed row already staged; any failure leaves the rows as before; the book service holds the new name exactly on success; store and book service stay in agreement |
| `Usecase.CategoryUsecase.DeleteInTransaction` | internal/usecase/category_usecase.go:116-128 | the remote delete is sent with the same key while the store already holds the soft-deleted rows, even for a missing or deleted row |
| `Usecase.CategoryUsecase.DeleteCategory` | internal/usecase/category_usecase.go:115-135 | it succeeds exactly when the book service accepts; then the row is soft-deleted; the remote call sees the soft delete already staged; a remote failure rolls the soft delete back; the clock advances by one either way; the book service forgets the key exactly on success; store and book service stay in agreement |
| `Usecase.CategoryUsecase.GetCategoryByID` | internal/usecase/category_usecase.go:73-79 | a pure read with no remote call: the live row under the key, or not-found |
| `Usecase.CategoryUsecase.GetAllCategories` | internal/usecase/category_usecase.go:56-71 | a pure read: a store failure is returned as it is; otherwise the page and total come from the store, `Page` and `Limit` are echoed from the request, and for a positive limit `TotalPages` is the ceiling of total / limit |

## Findings

| source | as written | input that shows it | evidently intended | confidence | as-written member | corrected member |
|---|---|---|---|---|---|---|
| internal/usecase/category_usecase.go:67 | `TotalPages` divides by the request's `Limit`, while the store has replaced a limit below 1 with 10 | `Limit = -1` with 23 live rows: the store serves pages of 10 rows (3 pages), but the response says `TotalPages = -21`; `Limit = 0` is an integer division by zero | divide by the limit the store used (`PageCount`), so that every row lies on pages 1..TotalPages | medium, not executed | `Usecase.NegativeLimitMisreportsPages` | `Usecase.EveryRowOnSomePage` |

`Usecase.CategoryUsecase.GetAllCategories` keeps the as-written `TotalPages`,
because it models the code. `PageCount` and `EveryRowOnSomePage` state the
corrected page count and what it guarantees.

## Left out

- HTTP transport (internal/delivery/http/category_handler.go), process wiring (main.go), configuration (config/config.go), the database connection (pkg/database/database.go) and token handling (pkg/token, internal/domain/token.go) are not part of this model.
- Concurrency, isolation levels and context cancellation are out of scope. The model is sequential, and the ambient read in `UpdateCategory` therefore sees the same rows that the transaction would.
- Real timestamps are replaced by a counter. Ties in `created_at` are broken by the higher key, an order that Postgres does not promise.
- The remote-ack ambiguity is a documented residual risk, not modelled behaviour. The model treats a failed book service call as one the service did not apply. A call that was applied but whose reply was lost would leave the service holding a row that the store rolled back. A silently retried call could also be applied twice, since there is no idempotency key.
- The book client's response body (`Success: false` and the message, set on error) is not modelled. Only the error is.
- Backend failures other than a unique violation on save and a failing count or select in the listing are not modelled. This covers lost connections on lookup, save or delete, a failing commit, and a panic inside `fn`.
- `log.Println` output is not modelled.
- Integer widths are not modelled: the `int`/`int64` page arithmetic, the `uint` to `int64` key conversion, and the possible overflow of `(page-1)*limit`.
- Repository.CategoryRepository.SaveCategory: requires a non-zero key to be one the key sequence has already issued. gorm would also upsert an arbitrary larger key, which Postgres would later collide with; that case is not modelled.
- Usecase.CategoryUsecase.GetAllCategories: requires `req.limit != 0`, because the source divides by the unclamped limit, and a limit of 0 is a Go runtime panic.
