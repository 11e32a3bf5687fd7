/**
 * The Category record (pkg/shared/domain/Category.go) and the error kinds the
 * store and the book service surface to the use cases.
 */
module Domain {

  datatype Option<T> = None | Some(value: T) {
    function GetOr(default: T): T {
      match this
      case Some(v) => v
      case None => default
    }
  }

  /** Errors as the use cases see them. */
  datatype Error =
    | RecordNotFound   // a lookup found no live row with that key
    | UniqueViolation  // a write would give two rows the same name
    | QueryFailed      // the backend failed a count or a select
    | RemoteFailed     // the book service call returned an error

  datatype Result<T> = Success(value: T) | Failure(error: Error)

  /** Time is a counter that only moves forward. */
  type Time = nat

  /**
   * One row of the categories table. `id` is the primary key (0 means "not yet
   * assigned"); `deletedAt` is the soft-delete marker.
   */
  datatype Category = Category(
    id: nat,
    name: string,
    createdAt: Time,
    updatedAt: Time,
    deletedAt: Option<Time>)
  {
    /** A row is visible to lookups, listings and counts until it is soft-deleted. */
    predicate Live() {
      deletedAt.None?
    }
  }

  /** The table, keyed by primary key. */
  type Table = map<nat, Category>

  /** Every row sits under its own primary key, and keys are assigned from 1 upwards. */
  ghost predicate WellKeyed(t: Table) {
    forall id | id in t :: id > 0 && t[id].id == id
  }

  /** The `unique` constraint on name: it ranges over every row, soft-deleted ones included. */
  ghost predicate NamesUnique(t: Table) {
    forall a, b | a in t && b in t && t[a].name == t[b].name :: a == b
  }

  /** Some row other than `id` already carries `name`, live or not. */
  predicate NameTaken(t: Table, name: string, id: nat) {
    exists k | k in t :: k != id && t[k].name == name
  }

  /** The keys of the rows that are not soft-deleted. */
  function LiveIds(t: Table): set<nat> {
    set id | id in t && t[id].Live()
  }
}
