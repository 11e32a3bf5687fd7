/**
 * The category use cases (internal/usecase/category_usecase.go): every write
 * stages a local change inside a store transaction, mirrors the new state to
 * the book service, and commits only if the book service accepted it.
 */
module Usecase {
  import opened Domain
  import opened Listing
  import opened Repository
  import opened BookService

  datatype CreateCategoryRequest = CreateCategoryRequest(name: string)

  /** `name` is None when the request leaves the name as it is. */
  datatype UpdateCategoryRequest = UpdateCategoryRequest(id: nat, name: Option<string>)

  datatype PaginationRequest = PaginationRequest(page: int, limit: int)

  datatype PaginatedResponse = PaginatedResponse(
    data: seq<Category>,
    total: int,
    page: int,
    limit: int,
    totalPages: int)

  /**
   * The phases of one write, in the order they happen: the local change is
   * staged, the book service is called with the staged state, and the
   * transaction is then committed or rolled back.
   */
  datatype Phase =
    | Staged(rows: Table)
    | Mirrored(call: RemoteCall, accepted: bool)
    | Committed
    | RolledBack

  // ---------------------------------------------------------------------------
  // Page count arithmetic (category_usecase.go:67).

  function Abs(x: int): nat {
    if x < 0 then -x else x
  }

  /** The quotient of Go's `/` on integers, which truncates toward zero. */
  function Truncated(a: int, b: int): int
    requires b != 0
  {
    if a >= 0 && b > 0 then a / b
    else if a >= 0 then -(a / -b)
    else if b > 0 then -(-a / b)
    else -a / -b
  }

  lemma EuclideanRemainder(x: int, m: int)
    requires x >= 0 && m > 0
    ensures 0 <= x - (x / m) * m < m
  {
  }

  lemma RemainderNonNegDivisorPos(a: int, b: int)
    requires a >= 0 && b > 0
    ensures 0 <= a - Truncated(a, b) * b < b
  {
    EuclideanRemainder(a, b);
  }

  lemma RemainderNonNegDivisorNeg(a: int, b: int)
    requires a >= 0 && b < 0
    ensures 0 <= a - Truncated(a, b) * b < -b
  {
    var m := -b;
    var q := a / m;
    EuclideanRemainder(a, m);
    assert Truncated(a, b) == -q;
    assert -q * b == q * m;
  }

  lemma RemainderNegDivisorPos(a: int, b: int)
    requires a < 0 && b > 0
    ensures -b < a - Truncated(a, b) * b <= 0
  {
    var x := -a;
    var q := x / b;
    EuclideanRemainder(x, b);
    assert Truncated(a, b) == -q;
    assert -q * b == -(q * b);
  }

  lemma RemainderNegDivisorNeg(a: int, b: int)
    requires a < 0 && b < 0
    ensures b < a - Truncated(a, b) * b <= 0
  {
    var x, m := -a, -b;
    var q := x / m;
    EuclideanRemainder(x, m);
    assert Truncated(a, b) == q;
    assert q * b == -(q * m);
  }

  /** Truncated division leaves a remainder smaller than the divisor, with the sign of the dividend. */
  lemma TruncatedRemainder(a: int, b: int)
    requires b != 0
    ensures Abs(a - Truncated(a, b) * b) < Abs(b)
    ensures a - Truncated(a, b) * b == 0 || (a - Truncated(a, b) * b > 0) == (a > 0)
  {
    if a >= 0 && b > 0 {
      assert a == 0 ==> Truncated(a, b) == 0;
      RemainderNonNegDivisorPos(a, b);
    } else if a >= 0 {
      RemainderNonNegDivisorNeg(a, b);
    } else if b > 0 {
      RemainderNegDivisorPos(a, b);
    } else {
      RemainderNegDivisorNeg(a, b);
    }
  }

  /** Go's `/` on integers. */
  function GoDiv(a: int, b: int): (q: int)
    requires b != 0
    ensures Abs(a - q * b) < Abs(b)
    ensures a - q * b == 0 || (a - q * b > 0) == (a > 0)
  {
    TruncatedRemainder(a, b);
    Truncated(a, b)
  }

  /** TotalPages as the use case computes it, with the request's own, unclamped limit. */
  function TotalPages(total: int, limit: int): int
    requires limit != 0
  {
    GoDiv(total + limit - 1, limit)
  }

  /** For a positive limit, TotalPages is the ceiling of total / limit. */
  lemma TotalPagesIsCeiling(total: nat, limit: int)
    requires limit >= 1
    ensures TotalPages(total, limit) >= 0
    ensures TotalPages(total, limit) * limit >= total
    ensures (TotalPages(total, limit) - 1) * limit < total
    ensures TotalPages(total, limit) == 0 <==> total == 0
  {
    var q := TotalPages(total, limit);
    var a := total + limit - 1;
    var r := a - q * limit;
    assert 0 <= r < limit;
    assert q * limit == a - r;
    assert (q - 1) * limit == a - r - limit;
  }

  lemma TotalPagesExamples()
    ensures TotalPages(23, 10) == 3
    ensures TotalPages(0, 10) == 0
    ensures TotalPages(20, 10) == 2
  {
    assert Truncated(32, 10) == 3;
    assert Truncated(9, 10) == 0;
    assert Truncated(29, 10) == 2;
  }

  /**
   * The number of pages for the page size the store actually uses. This is the
   * corrected form of TotalPages: it divides by the clamped limit.
   */
  function PageCount(total: int, limit: int): int {
    TotalPages(total, ClampLimit(limit))
  }

  /**
   * A negative request limit makes the store serve pages of 10 rows, while
   * TotalPages divides by the negative limit: 23 rows make 3 pages, but the
   * response reports -21.
   */
  lemma NegativeLimitMisreportsPages()
    ensures ClampLimit(-1) == 10
    ensures PageCount(23, -1) == 3
    ensures TotalPages(23, -1) == -21
  {
    TotalPagesIsCeiling(23, 10);
  }

  lemma MulMonotone(a: int, b: int, l: int)
    requires l >= 1 && a <= b
    ensures a * l <= b * l
  {
  }

  lemma WindowContains(s: seq<Category>, offset: nat, limit: nat, k: nat)
    requires offset <= k < offset + limit && k < |s|
    ensures s[k] in Window(s, offset, limit)
  {
    assert Window(s, offset, limit)[k - offset] == s[k];
  }

  lemma DivBounds(k: nat, l: int)
    requires l >= 1
    ensures 0 <= (k / l) * l <= k < (k / l) * l + l
  {
  }

  /** The row at position `k` of the listing is on page k / limit + 1. */
  lemma RowOnPage(t: Table, n: nat, k: nat, limit: int)
    requires k < |Ordered(t, n)|
    ensures Ordered(t, n)[k] in PageOf(t, n, k / ClampLimit(limit) + 1, limit)
  {
    var l := ClampLimit(limit);
    var d := k / l;
    DivBounds(k, l);
    assert Offset(d + 1, limit) == d * l;
    WindowContains(Ordered(t, n), d * l, l, k);
  }

  /** Position `k` of a listing of `total` rows falls on a page no later than PageCount. */
  lemma PageWithinCount(k: nat, total: nat, limit: int)
    requires k < total
    ensures 1 <= k / ClampLimit(limit) + 1 <= PageCount(total, limit)
  {
    var l := ClampLimit(limit);
    var pages := PageCount(total, limit);
    TotalPagesIsCeiling(total, l);
    DivBounds(k, l);
    if pages < k / l + 1 {
      MulMonotone(pages, k / l, l);
      assert false;
    }
  }

  /**
   * Every live row sits on one of pages 1..PageCount when pages are read with
   * the same limit: paging through the listing misses nothing.
   */
  lemma EveryRowOnSomePage(t: Table, n: nat, c: Category, limit: int)
    requires WellKeyed(t)
    requires forall k | k in t :: k < n
    requires c.id in t && t[c.id] == c && c.Live()
    ensures exists page | 1 <= page <= PageCount(|LiveIds(t)|, limit) :: c in PageOf(t, n, page, limit)
  {
    OrderedSpec(t, n);
    CountMatchesListing(t, n);
    var o := Ordered(t, n);
    var k :| 0 <= k < |o| && o[k] == c;
    RowOnPage(t, n, k, limit);
    PageWithinCount(k, |o|, limit);
  }

  // ---------------------------------------------------------------------------
  // Agreement between the store and the book service.

  /**
   * The book service holds exactly the live categories, each under its current
   * name. Every successful write keeps this; every failed one changes neither
   * side (in the model, a rejected call is one the service did not apply).
   */
  ghost predicate Consistent(t: Table, m: map<nat, string>) {
    && (forall id | id in m :: id in t && t[id].Live() && t[id].name == m[id])
    && (forall id | id in t && t[id].Live() :: id in m)
  }

  lemma MirroredSaveKeepsConsistent(t: Table, m: map<nat, string>, row: Category)
    requires Consistent(t, m) && row.Live()
    ensures Consistent(t[row.id := row], m[row.id := row.name])
  {
  }

  lemma MirroredDeleteKeepsConsistent(t: Table, m: map<nat, string>, id: nat, now: Time)
    requires Consistent(t, m)
    ensures Consistent(SoftDeleted(t, id, now), m - {id})
  {
  }

  // ---------------------------------------------------------------------------
  // The shape of a save-then-mirror write (create and update).

  /** The row an update writes: the loaded row, renamed when a name is given, stamped `now`. */
  function Renamed(existing: Category, name: Option<string>, now: Time): Category {
    existing.(name := name.GetOr(existing.name), updatedAt := now)
  }

  /** The result of saving `row` and mirroring it: the name check decides first, then the book service. */
  function SaveOutcome(conflict: bool, accepted: bool, row: Category): Result<Category> {
    if conflict then Failure(UniqueViolation)
    else if accepted then Success(row)
    else Failure(RemoteFailed)
  }

  /** The phases of saving and mirroring: a failed save rolls back without calling the book service. */
  function SavePhases(conflict: bool, staged: Table, call: RemoteCall, accepted: bool): seq<Phase> {
    if conflict then [RolledBack]
    else [Staged(staged), Mirrored(call, accepted), if accepted then Committed else RolledBack]
  }

  class CategoryUsecase {
    const repo: CategoryRepository
    const bookClient: BookClient
    /** The phases of every write so far. */
    ghost var history: seq<Phase>

    /** Between operations no transaction is open. */
    /** Between operations no transaction is open; the book service observes this use case's store. */
    ghost predicate Valid()
      reads this, repo, bookClient
    {
      repo.Valid() && !repo.InTransaction() && bookClient.store == repo
    }

    constructor (repo: CategoryRepository, bookClient: BookClient)
      requires repo.Valid() && !repo.InTransaction() && bookClient.store == repo
      ensures Valid() && this.repo == repo && this.bookClient == bookClient && history == []
    {
      this.repo := repo;
      this.bookClient := bookClient;
      history := [];
    }

    // -------------------------------------------------------------------------
    // Create (category_usecase.go:27-54).

    /**
     * The function CreateCategory passes to Transaction: insert the row, then
     * mirror it. No book service call follows a failed insert.
     */
    method CreateInTransaction(req: CreateCategoryRequest) returns (category: Option<Category>, fnErr: Option<Error>)
      requires repo.Valid() && repo.InTransaction() && bookClient.store == repo
      modifies this, repo, bookClient
      ensures bookClient.store == repo
      ensures bookClient.replies == if bookClient.calls == old(bookClient.calls) then old(bookClient.replies) else Rest(old(bookClient.replies))
      ensures repo.Valid() && repo.InTransaction() && repo.tx == old(repo.tx)
      ensures repo.nextId == old(repo.nextId) + 1
      ensures repo.clock == old(repo.clock) + 1
      ensures var row := Category(old(repo.nextId), req.name, old(repo.clock), old(repo.clock), None);
        if NameTaken(old(repo.rows), req.name, row.id) then
          && fnErr == Some(UniqueViolation)
          && repo.rows == old(repo.rows)
          && bookClient.calls == old(bookClient.calls)
          && bookClient.seen == old(bookClient.seen)
          && bookClient.mirror == old(bookClient.mirror)
          && history == old(history)
        else
          && fnErr == (if old(bookClient.Accepts()) then None else Some(RemoteFailed))
          && category == Some(row)
          && repo.rows == old(repo.rows)[row.id := row]
          && bookClient.calls == old(bookClient.calls) + [SaveCall(row.id, row.name)]
          && bookClient.seen == old(bookClient.seen) + [old(repo.rows)[row.id := row]]
          && bookClient.mirror == (if fnErr.None? then old(bookClient.mirror)[row.id := row.name] else old(bookClient.mirror))
          && history == old(history) + [Staged(repo.rows), Mirrored(SaveCall(row.id, row.name), fnErr.None?)]
    {
      category := None;
      var saved, err := repo.SaveCategory(Category(0, req.name, 0, 0, None));
      if err.Some? {
        return category, err;
      }
      category := Some(saved);
      history := history + [Staged(repo.rows)];
      err := bookClient.SaveCategory(saved.id, saved.name);
      history := history + [Mirrored(SaveCall(saved.id, saved.name), err.None?)];
      fnErr := err;
    }

    /**
     * Inserts a row named `req.name` under the next key, then mirrors it. A
     * name held by any row, deleted or not, fails the insert before the book
     * service is called; a failed mirror rolls the insert back. The name is not
     * checked otherwise.
     */
    method CreateCategory(req: CreateCategoryRequest) returns (r: Result<Category>)
      requires Valid()
      modifies this, repo, bookClient
      ensures bookClient.replies == if bookClient.calls == old(bookClient.calls) then old(bookClient.replies) else Rest(old(bookClient.replies))
      ensures Valid()
      ensures var row := Category(old(repo.nextId), req.name, old(repo.clock), old(repo.clock), None);
        var conflict := NameTaken(old(repo.rows), req.name, row.id);
        && r == SaveOutcome(conflict, old(bookClient.Accepts()), row)
        && bookClient.calls == old(bookClient.calls) + (if conflict then [] else [SaveCall(row.id, req.name)])
        && bookClient.seen == old(bookClient.seen) + (if conflict then [] else [old(repo.rows)[row.id := row]])
        && history == old(history) +
             SavePhases(conflict, old(repo.rows)[row.id := row], SaveCall(row.id, req.name), old(bookClient.Accepts()))
      ensures repo.rows == if r.Success? then old(repo.rows)[r.value.id := r.value] else old(repo.rows)
      ensures r.Success? ==> r.value.id !in old(repo.rows) && Lookup(repo.rows, r.value.id) == Success(r.value)
      ensures repo.nextId == old(repo.nextId) + 1
      ensures repo.clock == old(repo.clock) + 1
      ensures bookClient.mirror == if r.Success? then old(bookClient.mirror)[r.value.id := req.name] else old(bookClient.mirror)
      ensures Consistent(old(repo.rows), old(bookClient.mirror)) ==> Consistent(repo.rows, bookClient.mirror)
    {
      ghost var rows0, mirror0 := repo.rows, bookClient.mirror;
      repo.BeginTransaction();
      var category, fnErr := CreateInTransaction(req);
      var err := repo.EndTransaction(fnErr);
      history := history + [if err.None? then Committed else RolledBack];
      if err.Some? {
        return Failure(err.value);
      }
      if Consistent(rows0, mirror0) {
        MirroredSaveKeepsConsistent(rows0, mirror0, category.value);
      }
      r := Success(category.value);
    }

    // -------------------------------------------------------------------------
    // Update (category_usecase.go:81-113).

    /**
     * The function UpdateCategory passes to Transaction: load the live row (on
     * the ambient handle, not through `tx`), rename it when a name is given,
     * save the full record, then mirror it.
     */
    method UpdateInTransaction(req: UpdateCategoryRequest) returns (category: Option<Category>, fnErr: Option<Error>)
      requires repo.Valid() && repo.InTransaction() && bookClient.store == repo
      modifies this, repo, bookClient
      ensures bookClient.store == repo
      ensures bookClient.replies == if bookClient.calls == old(bookClient.calls) then old(bookClient.replies) else Rest(old(bookClient.replies))
      ensures repo.Valid() && repo.InTransaction() && repo.tx == old(repo.tx)
      ensures repo.nextId == old(repo.nextId)
      ensures repo.clock == old(repo.clock) + (if req.id in LiveIds(old(repo.rows)) then 1 else 0)
      ensures req.id !in LiveIds(old(repo.rows)) ==>
        && fnErr == Some(RecordNotFound)
        && repo.rows == old(repo.rows)
        && repo.clock == old(repo.clock)
        && bookClient.calls == old(bookClient.calls)
        && bookClient.seen == old(bookClient.seen)
        && bookClient.mirror == old(bookClient.mirror)
        && history == old(history)
      ensures req.id in LiveIds(old(repo.rows)) ==>
        var row := Renamed(old(repo.rows)[req.id], req.name, old(repo.clock));
        if NameTaken(old(repo.rows), row.name, req.id) then
          && fnErr == Some(UniqueViolation)
          && repo.rows == old(repo.rows)
          && bookClient.calls == old(bookClient.calls)
          && bookClient.seen == old(bookClient.seen)
          && bookClient.mirror == old(bookClient.mirror)
          && history == old(history)
        else
          && fnErr == (if old(bookClient.Accepts()) then None else Some(RemoteFailed))
          && category == Some(row)
          && repo.rows == old(repo.rows)[req.id := row]
          && bookClient.calls == old(bookClient.calls) + [SaveCall(req.id, row.name)]
          && bookClient.seen == old(bookClient.seen) + [old(repo.rows)[req.id := row]]
          && bookClient.mirror == (if fnErr.None? then old(bookClient.mirror)[req.id := row.name] else old(bookClient.mirror))
          && history == old(history) + [Staged(repo.rows), Mirrored(SaveCall(req.id, row.name), fnErr.None?)]
    {
      category := None;
      var existing := repo.GetCategoryByID(req.id);
      if existing.Failure? {
        return category, Some(existing.error);
      }
      var record := existing.value;
      if req.name.Some? {
        record := record.(name := req.name.value);
      }
      var saved, err := repo.SaveCategory(record);
      if err.Some? {
        return category, err;
      }
      category := Some(saved);
      history := history + [Staged(repo.rows)];
      err := bookClient.SaveCategory(saved.id, saved.name);
      history := history + [Mirrored(SaveCall(saved.id, saved.name), err.None?)];
      fnErr := err;
    }

    /**
     * Renames the live row under `req.id` when a name is given, saves the full
     * record and mirrors it. An unknown or deleted key fails before any write
     * or call; a request without a name still saves and mirrors the unchanged
     * record.
     */
    method UpdateCategory(req: UpdateCategoryRequest) returns (r: Result<Category>)
      requires Valid()
      modifies this, repo, bookClient
      ensures bookClient.replies == if bookClient.calls == old(bookClient.calls) then old(bookClient.replies) else Rest(old(bookClient.replies))
      ensures Valid()
      ensures req.id !in LiveIds(old(repo.rows)) ==>
        && r == Failure(RecordNotFound)
        && bookClient.calls == old(bookClient.calls)
        && bookClient.seen == old(bookClient.seen)
        && history == old(history) + [RolledBack]
      ensures req.id in LiveIds(old(repo.rows)) ==>
        var row := Renamed(old(repo.rows)[req.id], req.name, old(repo.clock));
        var conflict := NameTaken(old(repo.rows), row.name, req.id);
        && r == SaveOutcome(conflict, old(bookClient.Accepts()), row)
        && bookClient.calls == old(bookClient.calls) + (if conflict then [] else [SaveCall(req.id, row.name)])
        && bookClient.seen == old(bookClient.seen) + (if conflict then [] else [old(repo.rows)[req.id := row]])
        && history == old(history) +
             SavePhases(conflict, old(repo.rows)[req.id := row], SaveCall(req.id, row.name), old(bookClient.Accepts()))
      ensures repo.rows == if r.Success? then old(repo.rows)[req.id := r.value] else old(repo.rows)
      ensures repo.nextId == old(repo.nextId)
      ensures repo.clock == old(repo.clock) + (if req.id in LiveIds(old(repo.rows)) then 1 else 0)
      ensures bookClient.mirror == if r.Success? then old(bookClient.mirror)[req.id := r.value.name] else old(bookClient.mirror)
      ensures Consistent(old(repo.rows), old(bookClient.mirror)) ==> Consistent(repo.rows, bookClient.mirror)
    {
      ghost var rows0, mirror0 := repo.rows, bookClient.mirror;
      repo.BeginTransaction();
      var category, fnErr := UpdateInTransaction(req);
      var err := repo.EndTransaction(fnErr);
      history := history + [if err.None? then Committed else RolledBack];
      if err.Some? {
        return Failure(err.value);
      }
      if Consistent(rows0, mirror0) {
        MirroredSaveKeepsConsistent(rows0, mirror0, category.value);
      }
      r := Success(category.value);
    }

    // -------------------------------------------------------------------------
    // Delete (category_usecase.go:115-135).

    /** The function DeleteCategory passes to Transaction: soft-delete, then retract. */
    method DeleteInTransaction(id: nat) returns (fnErr: Option<Error>)
      requires repo.Valid() && repo.InTransaction() && bookClient.store == repo
      modifies this, repo, bookClient
      ensures bookClient.store == repo
      ensures bookClient.replies == if bookClient.calls == old(bookClient.calls) then old(bookClient.replies) else Rest(old(bookClient.replies))
      ensures repo.Valid() && repo.InTransaction() && repo.tx == old(repo.tx)
      ensures repo.nextId == old(repo.nextId)
      ensures repo.clock == old(repo.clock) + 1
      ensures repo.rows == SoftDeleted(old(repo.rows), id, old(repo.clock))
      ensures fnErr == if old(bookClient.Accepts()) then None else Some(RemoteFailed)
      ensures bookClient.calls == old(bookClient.calls) + [DeleteCall(id)]
      ensures bookClient.seen == old(bookClient.seen) + [SoftDeleted(old(repo.rows), id, old(repo.clock))]
      ensures bookClient.mirror == if fnErr.None? then old(bookClient.mirror) - {id} else old(bookClient.mirror)
      ensures history == old(history) + [Staged(repo.rows), Mirrored(DeleteCall(id), fnErr.None?)]
    {
      fnErr := repo.DeleteCategory(id);
      if fnErr.None? {
        history := history + [Staged(repo.rows)];
        fnErr := bookClient.DeleteCategory(id);
        history := history + [Mirrored(DeleteCall(id), fnErr.None?)];
      }
    }

    /**
     * Soft-deletes the row under `id`, then retracts it from the book service.
     * A missing or already deleted row is no error and the retraction is still
     * sent; a failed retraction rolls the soft delete back.
     */
    method DeleteCategory(id: nat) returns (err: Option<Error>)
      requires Valid()
      modifies this, repo, bookClient
      ensures bookClient.replies == if bookClient.calls == old(bookClient.calls) then old(bookClient.replies) else Rest(old(bookClient.replies))
      ensures Valid()
      ensures err == if old(bookClient.Accepts()) then None else Some(RemoteFailed)
      ensures repo.rows == if err.None? then SoftDeleted(old(repo.rows), id, old(repo.clock)) else old(repo.rows)
      ensures bookClient.calls == old(bookClient.calls) + [DeleteCall(id)]
      ensures bookClient.seen == old(bookClient.seen) + [SoftDeleted(old(repo.rows), id, old(repo.clock))]
      ensures history == old(history) +
        [Staged(SoftDeleted(old(repo.rows), id, old(repo.clock))), Mirrored(DeleteCall(id), err.None?),
         if err.None? then Committed else RolledBack]
      ensures repo.nextId == old(repo.nextId)
      ensures repo.clock == old(repo.clock) + 1
      ensures bookClient.mirror == if err.None? then old(bookClient.mirror) - {id} else old(bookClient.mirror)
      ensures Consistent(old(repo.rows), old(bookClient.mirror)) ==> Consistent(repo.rows, bookClient.mirror)
    {
      ghost var rows0, mirror0, clock0 := repo.rows, bookClient.mirror, repo.clock;
      repo.BeginTransaction();
      var fnErr := DeleteInTransaction(id);
      err := repo.EndTransaction(fnErr);
      history := history + [if err.None? then Committed else RolledBack];
      if err.None? && Consistent(rows0, mirror0) {
        MirroredDeleteKeepsConsistent(rows0, mirror0, id, clock0);
      }
    }

    // -------------------------------------------------------------------------
    // Reads (category_usecase.go:56-79): no transaction, no book service call.

    /** The live row under `id`. */
    method GetCategoryByID(id: nat) returns (r: Result<Category>)
      requires Valid()
      ensures r == Lookup(repo.rows, id)
      ensures r.Success? ==> r.value.id == id && r.value.Live()
    {
      r := repo.GetCategoryByID(id);
    }

    /**
     * The requested page and the live-row total, with Page and Limit echoed
     * from the request and TotalPages computed from the request's own limit.
     * A limit of 0 is a division by zero in the source.
     */
    method GetAllCategories(req: PaginationRequest, backend: Backend) returns (r: Result<PaginatedResponse>)
      requires Valid()
      requires req.limit != 0
      ensures r.Failure? <==> backend != Available
      ensures r.Failure? ==> r == Failure(QueryFailed)
      ensures r.Success? ==>
        && r.value.data == PageOf(repo.rows, repo.nextId, req.page, req.limit)
        && r.value.total == |LiveIds(repo.rows)|
        && r.value.page == req.page
        && r.value.limit == req.limit
        && r.value.totalPages == TotalPages(r.value.total, req.limit)
      ensures r.Success? && req.limit >= 1 ==>
        && r.value.totalPages * req.limit >= r.value.total
        && (r.value.totalPages - 1) * req.limit < r.value.total
        && |r.value.data| <= req.limit
    {
      var categories, totalRows, err := repo.GetAllCategories(req.page, req.limit, backend);
      if err.Some? {
        return Failure(err.value);
      }
      if req.limit >= 1 {
        TotalPagesIsCeiling(totalRows, req.limit);
      }
      r := Success(PaginatedResponse(categories, totalRows, req.page, req.limit, TotalPages(totalRows, req.limit)));
    }
  }
}
