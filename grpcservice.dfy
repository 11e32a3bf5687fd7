/**
 * The book service as the use cases reach it through BookGRPCClient
 * (internal/grpcservice/book_service.go). The network and the remote program
 * are outside the model: the service is an oracle whose answers to the next
 * calls are given in advance, together with a ghost log of the calls, a
 * ghost view of the categories the service holds, and a ghost record of the
 * local store's rows at the moment of each call.
 */
module BookService {
  import opened Domain
  import opened Repository

  /** The two RPCs of the book service. */
  datatype RemoteCall =
    | SaveCall(categoryId: nat, name: string)
    | DeleteCall(categoryId: nat)

  /** The answers left after one call has used the first. */
  function Rest(replies: seq<bool>): seq<bool> {
    if replies == [] then [] else replies[1..]
  }

  class BookClient {
    /** Whether the service accepts each of the next calls; with none left it is unreachable. */
    var replies: seq<bool>
    /** Every call issued, in order. */
    ghost var calls: seq<RemoteCall>
    /** The name the book service holds for each category it knows. */
    ghost var mirror: map<nat, string>
    /** The local store, whose uncommitted rows are what a call is made against. */
    ghost var store: CategoryRepository?
    /** The store's rows at the moment of each call, in order. */
    ghost var seen: seq<Table>

    constructor (replies: seq<bool>, ghost store: CategoryRepository?)
      ensures this.replies == replies && calls == [] && mirror == map[]
      ensures this.store == store && seen == []
    {
      this.replies := replies;
      calls := [];
      mirror := map[];
      this.store := store;
      seen := [];
    }

    /** The service accepts the next call. */
    predicate Accepts()
      reads this
    {
      |replies| > 0 && replies[0]
    }

    /**
     * SaveCategory(categoryID, name): an accepted call makes the service hold
     * `name` for `id`; a rejected or failed one returns the error and, in the
     * model, leaves the service as it was.
     */
    method SaveCategory(id: nat, name: string) returns (err: Option<Error>)
      requires store != null
      modifies this
      ensures err == if old(Accepts()) then None else Some(RemoteFailed)
      ensures replies == Rest(old(replies))
      ensures calls == old(calls) + [SaveCall(id, name)]
      ensures store == old(store) && seen == old(seen) + [store.rows]
      ensures mirror == if err.None? then old(mirror)[id := name] else old(mirror)
    {
      var ok := Accepts();
      if replies != [] {
        replies := replies[1..];
      }
      calls := calls + [SaveCall(id, name)];
      seen := seen + [store.rows];
      if ok {
        mirror := mirror[id := name];
        err := None;
      } else {
        err := Some(RemoteFailed);
      }
    }

    /** DeleteCategory(categoryID): an accepted call makes the service forget `id`. */
    method DeleteCategory(id: nat) returns (err: Option<Error>)
      requires store != null
      modifies this
      ensures err == if old(Accepts()) then None else Some(RemoteFailed)
      ensures replies == Rest(old(replies))
      ensures calls == old(calls) + [DeleteCall(id)]
      ensures store == old(store) && seen == old(seen) + [store.rows]
      ensures mirror == if err.None? then old(mirror) - {id} else old(mirror)
    {
      var ok := Accepts();
      if replies != [] {
        replies := replies[1..];
      }
      calls := calls + [DeleteCall(id)];
      seen := seen + [store.rows];
      if ok {
        mirror := mirror - {id};
        err := None;
      } else {
        err := Some(RemoteFailed);
      }
    }
  }
}
