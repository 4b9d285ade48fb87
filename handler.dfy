/**
 * The graph operation handler: each operation makes one call on the store
 * and hands its result or its fault back unchanged. The handler holds no
 * state of its own besides the store it was given.
 */
module Handler {
  import opened Wrappers
  import opened Models
  import opened Collection
  import opened Reachability
  import opened Storage

  class GraphOperationHandler {
    const storage: JsonStorageStrategy

    constructor (storage: JsonStorageStrategy)
      ensures this.storage == storage
    {
      this.storage := storage;
    }

    /** `HandleCreateAsync`: exactly a store save; a storage fault reaches the caller. */
    method HandleCreate(graph: Graph, writeOk: bool) returns (out: Outcome<StorageError>)
      modifies storage
      ensures Upserts(storage, graph, writeOk, out)
      ensures out.Fail? <==> !writeOk
    {
      out := storage.SaveGraph(graph, writeOk);
    }

    /**
     * `HandleGetAsync`: the store's lookup result unchanged; absence is a
     * `None` result, not a fault.
     */
    method HandleGet(id: Guid) returns (r: Option<Graph>)
      ensures r == Lookup(storage.Loaded(), id)
      ensures r.None? <==> !HasId(storage.Loaded(), id)
    {
      r := storage.GetGraph(id);
    }

    /**
     * `HandleUpdateAsync`: the same store save as create, with no check that
     * the identity already exists, so updating an absent identity creates it.
     */
    method HandleUpdate(graph: Graph, writeOk: bool) returns (out: Outcome<StorageError>)
      modifies storage
      ensures Upserts(storage, graph, writeOk, out)
      ensures out.Fail? <==> !writeOk
      ensures writeOk && !HasId(old(storage.Loaded()), graph.id) ==>
                storage.Loaded() == old(storage.Loaded()) + [graph]
    {
      out := storage.SaveGraph(graph, writeOk);
    }

    /** `HandleDeleteAsync`: exactly a store delete; an absent identity is not a fault. */
    method HandleDelete(id: Guid, writeOk: bool) returns (out: Outcome<StorageError>)
      modifies storage
      ensures Removes(storage, id, writeOk, out)
      ensures out.Fail? <==> !writeOk
      ensures writeOk && !HasId(old(storage.Loaded()), id) ==> storage.Loaded() == old(storage.Loaded())
    {
      out := storage.DeleteGraph(id, writeOk);
      if writeOk && !HasId(old(storage.Loaded()), id) {
        RemoveAllAbsent(old(storage.Loaded()), id);
      }
    }

    /** `HandleGetDescendantsAsync`: the store's descendant set unchanged; empty is a normal result. */
    method HandleGetDescendants(nodeId: Guid) returns (r: set<nat>)
      ensures r == DescendantsSpec(storage.Loaded(), nodeId)
    {
      r := storage.GetDescendants(nodeId);
    }
  }
}
