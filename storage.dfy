/**
 * The JSON-file document store. Every public operation loads the whole
 * collection, computes on it, and (for the updates) writes the whole
 * collection back; the store's mutual exclusion makes each operation one
 * atomic step, so each is modelled as one method call.
 *
 * The file is modelled by two fields: `stored`, the collection the file
 * holds, and `decodable`, whether the file's text currently decodes. Loading
 * an undecodable file yields an empty collection. Whether a write succeeds
 * is decided by the environment and passed in as `writeOk`.
 */
module Storage {
  import opened Wrappers
  import opened Models
  import opened Collection
  import opened Reachability

  /** The fault a failed write raises (`SaveGraphsAsync` rethrows it). */
  datatype StorageError = WriteFailed

  class JsonStorageStrategy {
    /** The collection held by `graphs.json`. */
    var stored: seq<Graph>
    /** Whether the file's content decodes to a collection. */
    var decodable: bool

    /** The file is created holding an empty collection. */
    constructor ()
      ensures stored == [] && decodable
    {
      stored := [];
      decodable := true;
    }

    /** What a load returns: the stored collection, or an empty one if decoding fails. */
    function Loaded(): seq<Graph>
      reads this
    {
      if decodable then stored else []
    }

    /** `LoadGraphsAsync`: a decoding failure degrades to an empty collection. */
    method LoadGraphs() returns (gs: seq<Graph>)
      ensures gs == Loaded()
    {
      if decodable {
        gs := stored;
      } else {
        gs := [];
      }
    }

    /**
     * `SaveGraphsAsync`: overwrites the file with `gs`; a failed write changes
     * nothing and the fault is returned to the caller.
     */
    method SaveGraphs(gs: seq<Graph>, writeOk: bool) returns (out: Outcome<StorageError>)
      modifies this
      ensures writeOk ==> out == Pass && stored == gs && decodable
      ensures !writeOk ==> out == Fail(WriteFailed) && stored == old(stored) && decodable == old(decodable)
    {
      if writeOk {
        stored, decodable := gs, true;
        out := Pass;
      } else {
        out := Fail(WriteFailed);
      }
    }

    /** `GetGraphAsync`: the first loaded graph with identity `id`, or None. */
    method GetGraph(id: Guid) returns (r: Option<Graph>)
      ensures r == Lookup(Loaded(), id)
      ensures r.None? <==> !HasId(Loaded(), id)
      ensures r.Some? ==> r.value in Loaded() && r.value.id == id
    {
      var graphs := LoadGraphs();
      r := Lookup(graphs, id);
    }

    /** `GetAllGraphsAsync`: the whole loaded collection. */
    method GetAllGraphs() returns (gs: seq<Graph>)
      ensures gs == Loaded()
    {
      gs := LoadGraphs();
    }

    /** `SaveGraphAsync`: upsert by identity, then persist. */
    method SaveGraph(graph: Graph, writeOk: bool) returns (out: Outcome<StorageError>)
      modifies this
      ensures Upserts(this, graph, writeOk, out)
      ensures writeOk ==> Lookup(Loaded(), graph.id) == Some(graph)
      ensures UniqueIds(old(Loaded())) ==> UniqueIds(Loaded())
    {
      var graphs := LoadGraphs();
      var existingIndex := FindIndex(graphs, graph.id);
      if existingIndex != -1 {
        graphs := graphs[existingIndex := graph];
      } else {
        graphs := graphs + [graph];
      }
      out := SaveGraphs(graphs, writeOk);
      LookupAfterUpsert(old(Loaded()), graph);
      if UniqueIds(old(Loaded())) {
        UpsertKeepsUnique(old(Loaded()), graph);
      }
    }

    /** `DeleteGraphAsync`: remove every graph with identity `id`, then persist. */
    method DeleteGraph(id: Guid, writeOk: bool) returns (out: Outcome<StorageError>)
      modifies this
      ensures Removes(this, id, writeOk, out)
      ensures writeOk ==> Lookup(Loaded(), id) == None
      ensures UniqueIds(old(Loaded())) ==> UniqueIds(Loaded())
    {
      var graphs := LoadGraphs();
      graphs := RemoveAll(graphs, id);
      out := SaveGraphs(graphs, writeOk);
      if UniqueIds(old(Loaded())) {
        RemoveAllKeepsUnique(old(Loaded()), id);
      }
    }

    /**
     * `GetDescendantsAsync`: the positions, in the loaded collection, of the
     * graphs reached from `nodeId`. The store is not modified.
     */
    method GetDescendants(nodeId: Guid) returns (r: set<nat>)
      ensures r == DescendantsSpec(Loaded(), nodeId)
      ensures forall i :: i in r ==> i < |Loaded()|
    {
      var allGraphs := LoadGraphs();
      r := Descendants(allGraphs, nodeId);
    }
  }

  /**
   * The effect of saving `g`: on a successful write the file holds the loaded
   * collection with `g` upserted; on a failed write the fault is reported and
   * the file is as it was.
   */
  twostate predicate Upserts(s: JsonStorageStrategy, g: Graph, writeOk: bool, new out: Outcome<StorageError>)
    reads s
  {
    if writeOk then out == Pass && s.decodable && s.stored == Upserted(old(s.Loaded()), g)
    else out == Fail(WriteFailed) && s.stored == old(s.stored) && s.decodable == old(s.decodable)
  }

  /**
   * The effect of deleting `id`: on a successful write the file holds the
   * loaded collection without identity `id`; on a failed write the fault is
   * reported and the file is as it was.
   */
  twostate predicate Removes(s: JsonStorageStrategy, id: Guid, writeOk: bool, new out: Outcome<StorageError>)
    reads s
  {
    if writeOk then out == Pass && s.decodable && s.stored == RemoveAll(old(s.Loaded()), id)
    else out == Fail(WriteFailed) && s.stored == old(s.stored) && s.decodable == old(s.decodable)
  }
}
