/**
 * The category store: the CategoryRepository interface
 * (internal/repository/repository.go:9-16) with the behaviour of its gorm
 * implementation (internal/repository/category_repository.go).
 *
 * The two files disagree: the interface's writes take a transaction handle and
 * it declares Transaction(fn); the implementation's methods take a context,
 * write through the ambient handle and have no Transaction. The model follows
 * the interface, which is what the use cases call.
 */
module Repository {
  import opened Domain
  import opened Listing

  /** The live row under `id`, as `First(&category, id)` finds it. */
  function Lookup(t: Table, id: nat): Result<Category> {
    if id in t && t[id].Live() then Success(t[id]) else Failure(RecordNotFound)
  }

  /**
   * The table after `DELETE` on a soft-deletable model: the row under `id`, if
   * it is still live, gets `deletedAt := now`; a missing or already deleted row
   * matches nothing.
   */
  function SoftDeleted(t: Table, id: nat, now: Time): Table {
    if id in t && t[id].Live() then t[id := t[id].(deletedAt := Some(now))] else t
  }

  /** The table invariant: keys assigned below `nextId`, rows under their own key, names unique. */
  ghost predicate TableOk(t: Table, nextId: nat) {
    && WellKeyed(t)
    && NamesUnique(t)
    && (forall id | id in t :: id < nextId)
  }

  // ---------------------------------------------------------------------------
  // Properties of the table operations.

  /**
   * Soft deletion hides exactly the row deleted: lookups of it fail, every other
   * lookup is unchanged, and the row itself is kept with its name.
   */
  lemma LookupAfterSoftDelete(t: Table, id: nat, now: Time, k: nat)
    ensures Lookup(SoftDeleted(t, id, now), id) == Failure(RecordNotFound)
    ensures k != id ==> Lookup(SoftDeleted(t, id, now), k) == Lookup(t, k)
    ensures SoftDeleted(t, id, now).Keys == t.Keys
    ensures id in t ==> SoftDeleted(t, id, now)[id].name == t[id].name
  {
  }

  /** Deleting twice is deleting once: the first timestamp stays. */
  lemma SoftDeleteIdempotent(t: Table, id: nat, now: Time, later: Time)
    ensures SoftDeleted(SoftDeleted(t, id, now), id, later) == SoftDeleted(t, id, now)
  {
  }

  /** A soft-deleted row appears on no page of the listing. */
  lemma SoftDeletedNotListed(t: Table, n: nat, id: nat, now: Time, page: int, limit: int)
    requires WellKeyed(t)
    ensures forall c | c in PageOf(SoftDeleted(t, id, now), n, page, limit) :: c.id != id
  {
    var t' := SoftDeleted(t, id, now);
    PageSpec(t', n, page, limit);
  }

  /** A key can be looked up exactly when its row is in the listing. */
  lemma LookupIffListed(t: Table, n: nat, id: nat)
    requires WellKeyed(t)
    requires forall k | k in t :: k < n
    ensures Lookup(t, id).Success? <==> exists c | c in Ordered(t, n) :: c.id == id
    ensures Lookup(t, id).Success? ==> Lookup(t, id).value in Ordered(t, n)
  {
    OrderedSpec(t, n);
  }

  /**
   * The unique constraint does not look at deletedAt: after a soft delete the
   * name still blocks a write of that name under any other key.
   */
  lemma {:induction false} DeletedNameStaysTaken(t: Table, id: nat, now: Time, other: nat)
    requires id in t && other != id
    ensures NameTaken(SoftDeleted(t, id, now), t[id].name, other)
  {
    var t' := SoftDeleted(t, id, now);
    assert id in t' && t'[id].name == t[id].name;
  }

  /** A write that passes the name check keeps the table invariant. */
  lemma UpsertKeepsTableOk(t: Table, nextId: nat, row: Category)
    requires TableOk(t, nextId)
    requires 0 < row.id < nextId
    requires !NameTaken(t, row.name, row.id)
    ensures TableOk(t[row.id := row], nextId)
  {
  }

  /** Soft deletion keeps the table invariant. */
  lemma SoftDeleteKeepsTableOk(t: Table, nextId: nat, id: nat, now: Time)
    requires TableOk(t, nextId)
    ensures TableOk(SoftDeleted(t, id, now), nextId)
  {
  }

  /** Which failure the backend injects into a listing (the database is outside the model). */
  datatype Backend = Available | CountFails | QueryFails

  /**
   * The store. `rows` is the categories table, `nextId` the key sequence,
   * `clock` the time source. `tx` is Some(rows at BEGIN) while a transaction is
   * open: writes are staged in `rows` and undone by restoring that snapshot.
   */
  class CategoryRepository {
    var rows: Table
    var nextId: nat
    var clock: Time
    var tx: Option<Table>

    ghost predicate Valid()
      reads this
    {
      && nextId >= 1
      && TableOk(rows, nextId)
      && (tx.Some? ==> TableOk(tx.value, nextId))
    }

    /** A transaction handle is held: the only state in which writes are allowed. */
    predicate InTransaction()
      reads this
    {
      tx.Some?
    }

    constructor ()
      ensures Valid() && !InTransaction()
      ensures rows == map[] && nextId == 1 && clock == 0
    {
      rows, nextId, clock, tx := map[], 1, 0, None;
    }

    // -------------------------------------------------------------------------
    // Transaction(fn) (internal/repository/repository.go:15), split at the call
    // of fn: BeginTransaction opens the handle, the caller runs fn's body, and
    // EndTransaction receives fn's error, commits on None and rolls back
    // otherwise. The key sequence and the clock are not transactional.

    method BeginTransaction()
      requires Valid() && !InTransaction()
      modifies this`tx
      ensures Valid() && InTransaction()
      ensures tx == Some(rows)
    {
      tx := Some(rows);
    }

    method EndTransaction(fnErr: Option<Error>) returns (err: Option<Error>)
      requires Valid() && InTransaction()
      modifies this`rows, this`tx
      ensures Valid() && !InTransaction()
      ensures err == fnErr
      ensures rows == if fnErr.None? then old(rows) else old(tx.value)
    {
      if fnErr.Some? {
        rows := tx.value;
      }
      tx := None;
      err := fnErr;
    }

    // -------------------------------------------------------------------------
    // Writes: only through the transaction handle (repository.go:10,13).

    /**
     * Save(category): a zero key inserts under the next key of the sequence,
     * stamping both timestamps; a non-zero key overwrites that row, stamping
     * updatedAt. A name held by another row fails the write, which changes no
     * row (the sequence value of a failed insert is still used up). `saved` is
     * the record as written, as gorm fills the caller's struct.
     */
    method SaveCategory(c: Category) returns (saved: Category, err: Option<Error>)
      requires Valid() && InTransaction()
      requires c.id < nextId
      modifies this`rows, this`nextId, this`clock
      ensures Valid() && InTransaction()
      ensures clock == old(clock) + 1
      ensures c.id == 0 ==> saved == c.(id := old(nextId), createdAt := old(clock), updatedAt := old(clock))
      ensures c.id == 0 ==> nextId == old(nextId) + 1
      ensures c.id != 0 ==> saved == c.(updatedAt := old(clock)) && nextId == old(nextId)
      ensures err == if NameTaken(old(rows), c.name, saved.id) then Some(UniqueViolation) else None
      ensures rows == if err.None? then old(rows)[saved.id := saved] else old(rows)
    {
      var now := clock;
      clock := clock + 1;
      if c.id == 0 {
        saved := c.(id := nextId, createdAt := now, updatedAt := now);
        nextId := nextId + 1;
      } else {
        saved := c.(updatedAt := now);
      }
      if NameTaken(rows, saved.name, saved.id) {
        err := Some(UniqueViolation);
      } else {
        UpsertKeepsTableOk(rows, nextId, saved);
        rows := rows[saved.id := saved];
        err := None;
      }
    }

    /**
     * Delete(id): soft-deletes the live row under `id`. A missing or already
     * deleted row is not an error.
     */
    method DeleteCategory(id: nat) returns (err: Option<Error>)
      requires Valid() && InTransaction()
      modifies this`rows, this`clock
      ensures Valid() && InTransaction()
      ensures err == None
      ensures clock == old(clock) + 1
      ensures rows == SoftDeleted(old(rows), id, old(clock))
    {
      SoftDeleteKeepsTableOk(rows, nextId, id, clock);
      rows := SoftDeleted(rows, id, clock);
      clock := clock + 1;
      err := None;
    }

    // -------------------------------------------------------------------------
    // Reads: on the ambient handle, no transaction (repository.go:11-12).
    // They read `rows`, which while a transaction is open holds the staged
    // rows, where a separate connection would see the committed `tx.value`.
    // No use case reads after staging a change, so the two agree wherever the
    // model calls them.

    method GetCategoryByID(id: nat) returns (r: Result<Category>)
      requires Valid()
      ensures r == Lookup(rows, id)
      ensures r.Success? ==> r.value.id == id && r.value.Live() && r.value.name == rows[id].name
      ensures r.Failure? <==> id !in LiveIds(rows)
    {
      if id in rows && rows[id].deletedAt.None? {
        r := Success(rows[id]);
      } else {
        r := Failure(RecordNotFound);
      }
    }

    /**
     * GetAllCategories(page, limit): clamps both, counts the live rows, then
     * reads LIMIT limit OFFSET (page-1)*limit of the live rows newest first.
     * A failing count or select yields no rows, a zero total and the error.
     */
    method GetAllCategories(page: int, limit: int, backend: Backend)
      returns (items: seq<Category>, total: int, err: Option<Error>)
      requires Valid()
      ensures err.Some? <==> backend != Available
      ensures err.Some? ==> err == Some(QueryFailed) && items == [] && total == 0
      ensures err.None? ==> total == |LiveIds(rows)| && total == |Ordered(rows, nextId)|
      ensures err.None? ==> items == PageOf(rows, nextId, page, limit)
      ensures |items| <= ClampLimit(limit) && |items| <= total
      ensures forall c | c in items :: c.id in rows && rows[c.id] == c && c.Live()
      ensures NewestFirst(items)
    {
      var p, l := page, limit;
      if p < 1 {
        p := 1;
      }
      if l < 1 {
        l := 10;
      }
      if backend == CountFails {
        return [], 0, Some(QueryFailed);
      }
      total := |LiveIds(rows)|;
      var offset := (p - 1) * l;
      if backend == QueryFails {
        return [], 0, Some(QueryFailed);
      }
      CountMatchesListing(rows, nextId);
      PageSpec(rows, nextId, page, limit);
      items := Window(Ordered(rows, nextId), offset, l);
      err := None;
    }
  }
}
