# ServiceB graph store, modelled in Dafny

ServiceB stores directed-graph documents in one JSON file and answers
create, get, update, delete and "descendants" requests about them. This
project models its core:

- the document store `JsonStorageStrategy`, which reloads the whole collection
  of graph documents, changes it, and writes all of it back on every
  operation;
- the descendants traversal inside it, a depth-first closure over node
  identities across all stored documents, with a visited set;
- the operation handler `GraphOperationHandler`, which delegates each request
  to one store call and passes faults on.

Files:

- `wrappers.dfy` (`Wrappers`): `Option` for the C# `null` result and `Outcome` for a call that may throw.
- `models.dfy` (`Models`): `Node`, `Edge` and `Graph` records. Identities (`Guid`) are `int`, and only equality is used on them.
  The C# `Label` is called `text` because `label` is a Dafny keyword.
- `collection.dfy` (`Collection`): the list operations the store applies to a loaded collection (`FirstOrDefault`,
  `FindIndex`, replace-at-index or `Add`, `RemoveAll`) as functions, with lemmas about upsert and delete.
- `reachability.dfy` (`Reachability`): the traversal as a recursive method with nested loops, proved to terminate
  and to compute exactly the reachability closure. `DescendantsSpec` is the specification it is proved against.
- `storage.dfy` (`Storage`): the class `JsonStorageStrategy`. The field `stored` is the collection the file holds.
  The field `decodable` says whether the file currently decodes.
- `handler.dfy` (`Handler`): the class `GraphOperationHandler`, which holds a reference to the store and nothing else.

Modelling decisions:

- **Atomic steps.** The store's semaphore serialises each load-compute-persist cycle, so each public store
  operation is one method call on the class.
- **Load failure.** A load of an undecodable file yields an empty collection (`Loaded()`).
- **Write outcome.** Whether the write succeeds is a `writeOk` parameter supplied by the environment. A failed
  write leaves both fields unchanged and returns `Fail(WriteFailed)`, which the handler hands back unchanged.
  This is how the model states "rethrown, never swallowed".
- **Descendant results are positions.** The result of the descendants query is a set of positions in the loaded
  snapshot. In C#, two loaded records are never equal, because `Graph` record equality compares the `Edges`
  lists by reference. So the `HashSet<Graph>` holds one entry per matching stored document, which a set of
  positions captures exactly.
- **Save and delete effects.** `Upserts` and `Removes` are two-state predicates: they state the effect of a save
  and of a delete. The store method and the handler methods are all specified by the same predicate, so
  `HandleCreate`, `HandleUpdate` and `SaveGraph` provably have one and the same effect.
- **Reachability.** A step goes from `u` to `v` when some document has an edge whose source is `u` and an edge
  whose target is `v`. This reflects that the source recurses into the targets of *all* edges of a collected
  document, not only those leaving `u`. `Reaches(all, seed, v)` means that a chain of such steps leads from
  `seed` to `v`.

## Model

| member | source | states |
|---|---|---|
| `Collection.FindIndex` | ServiceB/Services/JsonStorageStrategy.cs:55 | the result is -1 exactly when no document has the identity; otherwise it is the position of the first document with that identity |
| `Collection.Lookup` | ServiceB/Services/JsonStorageStrategy.cs:28 | `FirstOrDefault`: None exactly when no document has the identity; otherwise the first document carrying it |
| `Collection.LookupIsFindIndex` | ServiceB/Services/JsonStorageStrategy.cs:28 | the lookup and `FindIndex` pick the same document, so get and save agree on which entry an identity denotes |
| `Collection.Upserted` | ServiceB/Services/JsonStorageStrategy.cs:55-64 | if the identity is present, its first entry is replaced at its index, with length and every other position unchanged; otherwise the graph is appended and all earlier entries are kept |
| `Collection.LookupAfterUpsert` | ServiceB/Services/JsonStorageStrategy.cs:54-66 | after saving `g`, looking up `g.id` returns `g` |
| `Collection.UpsertCount` | ServiceB/Services/JsonStorageStrategy.cs:55-64 | a save never duplicates an identity: it occurs as often as before, or exactly once if it was absent |
| `Collection.UpsertKeepsUnique` | ServiceB/Services/JsonStorageStrategy.cs:55-64 | if identities were unique before a save, they are unique afterwards |
| `Collection.UpsertKeepsOthers` | ServiceB/Services/JsonStorageStrategy.cs:55-64 | a save leaves the lookup of every other identity unchanged |
| `Collection.TwoSavesBothKept` | ServiceB/Services/JsonStorageStrategy.cs:54-66 | two saves of different identities, one after the other, leave both graphs retrievable (no lost update) |
| `Collection.RemoveAll` | ServiceB/Services/JsonStorageStrategy.cs:80 | the identity is gone afterwards; a document survives exactly when its identity differs; the length falls by the number of documents removed |
| `Collection.RemoveAllAbsent` | ServiceB/Services/JsonStorageStrategy.cs:80 | deleting an absent identity leaves the collection unchanged |
| `Collection.RemoveAllIdempotent` | ServiceB/Services/JsonStorageStrategy.cs:80 | deleting twice equals deleting once |
| `Collection.RemoveAllAppend` | ServiceB/Services/JsonStorageStrategy.cs:80 | removal distributes over concatenation, so the survivors keep their original order |
| `Collection.LookupAfterRemoveAll` | ServiceB/Services/JsonStorageStrategy.cs:80 | after a delete, looking the identity up returns None |
| `Collection.RemoveAllKeepsOthers` | ServiceB/Services/JsonStorageStrategy.cs:80 | a delete leaves the lookup of every other identity unchanged |
| `Collection.RemoveAllKeepsUnique` | ServiceB/Services/JsonStorageStrategy.cs:80 | a delete keeps identities unique |
| `Reachability.TraverseDescendants` | ServiceB/Services/JsonStorageStrategy.cs:98-116 | terminates on every collection, cycles and self-loops included; the visited set only grows and contains the current node; every visited identity is reachable from the seed; every newly visited identity is closed in the returned set; the graphs newly collected are exactly those with an edge from a newly visited identity |
| `Reachability.Descendants` | ServiceB/Services/JsonStorageStrategy.cs:94-119 | the result is exactly `DescendantsSpec`: the positions of the loaded graphs that have an edge whose source is reachable from the seed; every position is inside the snapshot |
| `Reachability.WalkStaysInClosed` | ServiceB/Services/JsonStorageStrategy.cs:100-114 | a chain of traversal steps starting in a closed set stays in it |
| `Reachability.ReachesIsLeastClosed` | ServiceB/Services/JsonStorageStrategy.cs:100-114 | the reachable identities are the least set that contains the seed and is closed under "all edge targets of any graph with an edge from a reached node" |
| `Reachability.NoOutgoingEdgesNoDescendants` | ServiceB/Services/JsonStorageStrategy.cs:105-106 | a seed that is the source of no edge anywhere has no descendants |
| `Reachability.SeedEdgesAreDescendants` | ServiceB/Services/JsonStorageStrategy.cs:103-110 | every graph with an edge from the seed is a descendant, including the owner of a self-loop |
| `Reachability.ChainExample` | ServiceB/Services/JsonStorageStrategy.cs:94-119 | for G1 (edge N1 to N2) and G2 (edge N2 to N3), the descendants of N1 are both graphs and N3 has none |
| `Reachability.CycleExample` | ServiceB/Services/JsonStorageStrategy.cs:94-119 | for a two-graph cycle A to B to A, the descendants of A are both graphs |
| `Storage.JsonStorageStrategy.constructor` | ServiceB/Services/JsonStorageStrategy.cs:13-20 | the store starts with a decodable file holding the empty collection |
| `Storage.JsonStorageStrategy.LoadGraphs` | ServiceB/Services/JsonStorageStrategy.cs:127-143 | a load returns the stored collection, or an empty one when the file does not decode |
| `Storage.JsonStorageStrategy.SaveGraphs` | ServiceB/Services/JsonStorageStrategy.cs:145-162 | a successful write replaces the file with the collection; a failed write changes nothing and returns the fault |
| `Storage.JsonStorageStrategy.GetGraph` | ServiceB/Services/JsonStorageStrategy.cs:22-34 | returns the lookup in the loaded collection: None exactly when the identity is absent, else a loaded graph with that identity |
| `Storage.JsonStorageStrategy.GetAllGraphs` | ServiceB/Services/JsonStorageStrategy.cs:36-47 | returns the whole loaded collection |
| `Storage.JsonStorageStrategy.SaveGraph` | ServiceB/Services/JsonStorageStrategy.cs:49-72 | on success the file holds the loaded collection with the graph upserted, and a lookup of its identity returns it; on failure nothing changes and the fault is returned; unique identities stay unique |
| `Storage.JsonStorageStrategy.DeleteGraph` | ServiceB/Services/JsonStorageStrategy.cs:74-87 | on success the file holds the loaded collection without the identity, and a lookup returns None; on failure nothing changes and the fault is returned; unique identities stay unique |
| `Storage.JsonStorageStrategy.GetDescendants` | ServiceB/Services/JsonStorageStrategy.cs:89-125 | returns `DescendantsSpec` of the loaded collection, with positions inside it; the store is not modified |
| `Handler.GraphOperationHandler.constructor` | ServiceB/Services/GraphOperationHandler.cs:11-18 | the handler holds the given store and no other state |
| `Handler.GraphOperationHandler.HandleCreate` | ServiceB/Services/GraphOperationHandler.cs:19-32 | exactly the effect of a store save (`Upserts`); it fails exactly when the write fails |
| `Handler.GraphOperationHandler.HandleGet` | ServiceB/Services/GraphOperationHandler.cs:34-55 | returns the store's lookup unchanged; absence is a None result, not a fault |
| `Handler.GraphOperationHandler.HandleUpdate` | ServiceB/Services/GraphOperationHandler.cs:56-69 | the same effect as create (`Upserts`), with no existence check; updating an absent identity appends the graph |
| `Handler.GraphOperationHandler.HandleDelete` | ServiceB/Services/GraphOperationHandler.cs:70-83 | exactly the effect of a store delete (`Removes`); deleting an absent identity succeeds and leaves the collection unchanged |
| `Handler.GraphOperationHandler.HandleGetDescendants` | ServiceB/Services/GraphOperationHandler.cs:84-98 | returns the store's descendant set unchanged; an empty set is a normal result |

## Left out

- JSON encoding and decoding and file I/O (`File.ReadAllTextAsync`, `JsonSerializer`): the file is the pair of fields
  `stored` and `decodable`. A decode failure is `decodable == false`, and a write's success is the `writeOk` parameter.
- A failed write is modelled as changing nothing. A real write that fails halfway could leave a truncated file; that
  is a property of the file system, which is not part of this model.
- The constructor's "create the file only if it is missing" check: the model always starts from an empty collection.
- `SemaphoreSlim` and async/await: they only serialise whole operations, which the model treats as atomic calls.
  Concurrent interleavings are not modelled.
- Logging everywhere, and the logger reference held by the handler: observability only.
- ServiceB/Services/WebSocketMessageHandler.cs and ServiceB/Program.cs: message decoding, identity parsing and
  WebSocket transport run on library code that is not part of this model. The dispatcher also has no
  descendants action, so none is modelled at the protocol level.
- Decoded records are assumed non-null with non-null edge lists. In the source, a null graph, edge list or edge
  makes the lookups (ServiceB/Services/JsonStorageStrategy.cs:28, 55, 80) and the traversal filter (line 106) throw,
  and the handler rethrows the fault. The model's only fault is a failed write, so its get and descendants
  operations never fail.
- `Reachability.TraverseDescendants`: the model ignores recursion depth. The source recurses once per newly visited
  node, so a long enough chain of first visits may exhaust the stack and end the process instead of returning.
- `Reachability.Descendants` and the store's `GetDescendants` return positions in the loaded snapshot, not the graph
  records themselves; the record at position `i` is `Loaded()[i]`.
- Edge and node `Label` values and edge identities are carried but never inspected, as in the source.
