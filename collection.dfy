/**
 * Pure queries and updates over an ordered collection of graph documents:
 * the list operations (`FirstOrDefault`, `FindIndex`, indexed replace, `Add`,
 * `RemoveAll`) that the store applies to the collection it has just loaded.
 */
module Collection {
  import opened Wrappers
  import opened Models

  /** Some document in `gs` carries identity `id`. */
  predicate HasId(gs: seq<Graph>, id: Guid) {
    exists j :: 0 <= j < |gs| && gs[j].id == id
  }

  /** No identity occurs twice: the store's intended key invariant. */
  ghost predicate UniqueIds(gs: seq<Graph>) {
    forall i, j :: 0 <= i < j < |gs| ==> gs[i].id != gs[j].id
  }

  /** Number of documents in `gs` that carry identity `id`. */
  function CountId(gs: seq<Graph>, id: Guid): nat {
    if |gs| == 0 then 0
    else (if gs[0].id == id then 1 else 0) + CountId(gs[1..], id)
  }

  /** `FindIndex`: position of the first document with identity `id`, or -1. */
  function FindIndex(gs: seq<Graph>, id: Guid): (r: int)
    ensures -1 <= r < |gs|
    ensures r == -1 <==> !HasId(gs, id)
    ensures r >= 0 ==> gs[r].id == id && forall j :: 0 <= j < r ==> gs[j].id != id
  {
    if |gs| == 0 then -1
    else if gs[0].id == id then 0
    else
      var k := FindIndex(gs[1..], id);
      if k == -1 then -1 else k + 1
  }

  /** `FirstOrDefault`: the first document with identity `id`, or None. */
  function Lookup(gs: seq<Graph>, id: Guid): (r: Option<Graph>)
    ensures r.None? <==> !HasId(gs, id)
    ensures r.Some? ==> exists k :: 0 <= k < |gs| && gs[k] == r.value && gs[k].id == id &&
                                    forall j :: 0 <= j < k ==> gs[j].id != id
  {
    if |gs| == 0 then None
    else if gs[0].id == id then Some(gs[0])
    else
      var r := Lookup(gs[1..], id);
      assert r.Some? ==> exists k :: 1 <= k < |gs| && gs[k] == r.value && gs[k].id == id &&
                                     forall j :: 0 <= j < k ==> gs[j].id != id by {
        if r.Some? {
          var k :| 0 <= k < |gs[1..]| && gs[1..][k] == r.value && gs[1..][k].id == id &&
                   forall j :: 0 <= j < k ==> gs[1..][j].id != id;
          assert forall j :: 0 <= j < k + 1 ==> gs[j].id != id by {
            forall j | 0 <= j < k + 1 ensures gs[j].id != id {
              if j > 0 { assert gs[j] == gs[1..][j - 1]; }
            }
          }
        }
      }
      r
  }

  /**
   * The collection after saving `g`: the first document with `g.id` is
   * replaced in place, or `g` is appended when there is none.
   */
  function Upserted(gs: seq<Graph>, g: Graph): (r: seq<Graph>)
    ensures HasId(gs, g.id) ==>
              |r| == |gs| && r[FindIndex(gs, g.id)] == g &&
              forall j :: 0 <= j < |gs| && j != FindIndex(gs, g.id) ==> r[j] == gs[j]
    ensures !HasId(gs, g.id) ==> |r| == |gs| + 1 && r[|gs|] == g && r[..|gs|] == gs
  {
    var k := FindIndex(gs, g.id);
    if k != -1 then gs[k := g] else gs + [g]
  }

  /**
   * `RemoveAll`: the documents of `gs` whose identity is not `id`, in their
   * original order.
   */
  function RemoveAll(gs: seq<Graph>, id: Guid): (r: seq<Graph>)
    ensures !HasId(r, id)
    ensures forall x :: x in r <==> x in gs && x.id != id
    ensures |r| + CountId(gs, id) == |gs|
  {
    if |gs| == 0 then []
    else (if gs[0].id == id then [] else [gs[0]]) + RemoveAll(gs[1..], id)
  }

  // ---------------------------------------------------------------------
  // Lookup and FindIndex agree
  // ---------------------------------------------------------------------

  /** The two searches of the store find the same document. */
  lemma LookupIsFindIndex(gs: seq<Graph>, id: Guid)
    ensures Lookup(gs, id) == if FindIndex(gs, id) == -1 then None else Some(gs[FindIndex(gs, id)])
  {
  }

  // ---------------------------------------------------------------------
  // Upsert
  // ---------------------------------------------------------------------

  /** After saving `g`, looking up `g.id` yields `g`. */
  lemma LookupAfterUpsert(gs: seq<Graph>, g: Graph)
    ensures Lookup(Upserted(gs, g), g.id) == Some(g)
  {
  }

  /** Replacing an element by one with the same identity keeps every count. */
  lemma {:induction false} CountAfterReplace(gs: seq<Graph>, k: nat, x: Graph, id: Guid)
    requires k < |gs| && gs[k].id == x.id
    ensures CountId(gs[k := x], id) == CountId(gs, id)
  {
    if k > 0 {
      assert gs[k := x][1..] == gs[1..][k - 1 := x];
      CountAfterReplace(gs[1..], k - 1, x, id);
    } else {
      assert gs[k := x][1..] == gs[1..];
    }
  }

  /** Appending one element adds one to its identity's count. */
  lemma {:induction false} CountAfterAppend(gs: seq<Graph>, x: Graph, id: Guid)
    ensures CountId(gs + [x], id) == CountId(gs, id) + (if x.id == id then 1 else 0)
  {
    if |gs| > 0 {
      assert (gs + [x])[1..] == gs[1..] + [x];
      CountAfterAppend(gs[1..], x, id);
    }
  }

  /** The count is zero exactly when the identity is absent. */
  lemma {:induction false} CountZeroIffAbsent(gs: seq<Graph>, id: Guid)
    ensures CountId(gs, id) == 0 <==> !HasId(gs, id)
  {
    if |gs| > 0 {
      CountZeroIffAbsent(gs[1..], id);
      if gs[0].id != id && HasId(gs, id) {
        var j :| 0 <= j < |gs| && gs[j].id == id;
        assert gs[1..][j - 1].id == id;
      }
    }
  }

  /**
   * Saving never duplicates an identity: afterwards `g.id` occurs exactly as
   * often as before, or once if it was absent.
   */
  lemma UpsertCount(gs: seq<Graph>, g: Graph)
    ensures CountId(Upserted(gs, g), g.id) == if CountId(gs, g.id) == 0 then 1 else CountId(gs, g.id)
  {
    CountZeroIffAbsent(gs, g.id);
    var k := FindIndex(gs, g.id);
    if k != -1 {
      CountAfterReplace(gs, k, g, g.id);
    } else {
      CountAfterAppend(gs, g, g.id);
    }
  }

  /** Saving into a collection with unique identities keeps them unique. */
  lemma UpsertKeepsUnique(gs: seq<Graph>, g: Graph)
    requires UniqueIds(gs)
    ensures UniqueIds(Upserted(gs, g))
  {
  }

  /** Saving only ever touches the entry with the saved identity. */
  lemma UpsertKeepsOthers(gs: seq<Graph>, g: Graph, id: Guid)
    requires id != g.id
    ensures Lookup(Upserted(gs, g), id) == Lookup(gs, id)
  {
    var r := Upserted(gs, g);
    var k := FindIndex(gs, id);
    assert forall j :: 0 <= j < |gs| && gs[j].id != g.id ==> r[j] == gs[j];
    if k != -1 {
      assert r[k] == gs[k];
      assert FindIndex(r, id) == k;
    } else {
      assert forall j :: 0 <= j < |r| ==> r[j].id != id by {
        forall j | 0 <= j < |r| ensures r[j].id != id {
          if j < |gs| {
            if HasId(gs, g.id) { assert j != FindIndex(gs, g.id) ==> r[j] == gs[j]; }
            else { assert r[j] == r[..|gs|][j]; }
          }
        }
      }
    }
    LookupIsFindIndex(gs, id);
    LookupIsFindIndex(r, id);
  }

  /**
   * Two saves of different identities, one after the other, leave both
   * graphs retrievable: the later save does not lose the earlier one.
   */
  lemma TwoSavesBothKept(gs: seq<Graph>, g1: Graph, g2: Graph)
    requires g1.id != g2.id
    ensures Lookup(Upserted(Upserted(gs, g1), g2), g1.id) == Some(g1)
    ensures Lookup(Upserted(Upserted(gs, g1), g2), g2.id) == Some(g2)
  {
    LookupAfterUpsert(gs, g1);
    UpsertKeepsOthers(Upserted(gs, g1), g2, g1.id);
    LookupAfterUpsert(Upserted(gs, g1), g2);
  }

  // ---------------------------------------------------------------------
  // RemoveAll
  // ---------------------------------------------------------------------

  /** Removing an absent identity leaves the collection unchanged. */
  lemma {:induction false} RemoveAllAbsent(gs: seq<Graph>, id: Guid)
    requires !HasId(gs, id)
    ensures RemoveAll(gs, id) == gs
  {
    if |gs| > 0 {
      RemoveAllAbsent(gs[1..], id);
      assert gs == [gs[0]] + gs[1..];
    }
  }

  /** Deleting twice is the same as deleting once. */
  lemma RemoveAllIdempotent(gs: seq<Graph>, id: Guid)
    ensures RemoveAll(RemoveAll(gs, id), id) == RemoveAll(gs, id)
  {
    RemoveAllAbsent(RemoveAll(gs, id), id);
  }

  /** Removal works piecewise, so the survivors keep their relative order. */
  lemma {:induction false} RemoveAllAppend(xs: seq<Graph>, ys: seq<Graph>, id: Guid)
    ensures RemoveAll(xs + ys, id) == RemoveAll(xs, id) + RemoveAll(ys, id)
  {
    if |xs| == 0 {
      assert xs + ys == ys;
    } else {
      assert (xs + ys)[1..] == xs[1..] + ys;
      RemoveAllAppend(xs[1..], ys, id);
    }
  }

  /** After a delete, looking the identity up finds nothing. */
  lemma LookupAfterRemoveAll(gs: seq<Graph>, id: Guid)
    ensures Lookup(RemoveAll(gs, id), id) == None
  {
  }

  /** Deleting one identity leaves the lookup of every other identity as it was. */
  lemma {:induction false} RemoveAllKeepsOthers(gs: seq<Graph>, id: Guid, other: Guid)
    requires other != id
    ensures Lookup(RemoveAll(gs, id), other) == Lookup(gs, other)
  {
    if |gs| > 0 {
      RemoveAllKeepsOthers(gs[1..], id, other);
      if gs[0].id == id {
        assert RemoveAll(gs, id) == RemoveAll(gs[1..], id);
      } else {
        var r := RemoveAll(gs, id);
        assert r == [gs[0]] + RemoveAll(gs[1..], id);
        assert r[0] == gs[0] && r[1..] == RemoveAll(gs[1..], id);
      }
    }
  }

  /** Deleting keeps identities unique. */
  lemma {:induction false} RemoveAllKeepsUnique(gs: seq<Graph>, id: Guid)
    requires UniqueIds(gs)
    ensures UniqueIds(RemoveAll(gs, id))
  {
    if |gs| > 0 {
      UniqueSplit(gs);
      RemoveAllKeepsUnique(gs[1..], id);
      if gs[0].id != id {
        UniqueCons(gs[0], RemoveAll(gs[1..], id));
      }
    }
  }

  lemma UniqueSplit(gs: seq<Graph>)
    requires |gs| > 0 && UniqueIds(gs)
    ensures UniqueIds(gs[1..])
    ensures forall x :: x in gs[1..] ==> x.id != gs[0].id
  {
  }

  lemma UniqueCons(x: Graph, rest: seq<Graph>)
    requires UniqueIds(rest)
    requires forall y :: y in rest ==> y.id != x.id
    ensures UniqueIds([x] + rest)
  {
  }
}
