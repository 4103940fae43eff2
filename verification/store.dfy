/**
 * The vector store as the core sees it: a map from entry id to entry, where
 * `upsert` inserts or overwrites every record of a batch. Embeddings are
 * opaque values; nearest-neighbour ranking is not modelled.
 */
module VectorStore {
  import opened Wrappers

  /** An embedding; its coordinates are never inspected by the core. */
  datatype Vector = Vector(coordinates: seq<real>)

  /**
   * The metadata dictionary of an entry. A field is None when the dictionary
   * lacks that key, which entries written by other code may do.
   */
  datatype Metadata = Metadata(
    sourceId: Option<string>,
    title: Option<string>,
    page: Option<int>,
    url: Option<string>,
    kind: Option<string>)

  /** The default the core reports for a missing `source_id` or `title`. */
  const Unknown := "Unknown"

  datatype Entry = Entry(document: string, embedding: Vector, metadata: Metadata)

  /** One element of an upsert call: the id with its document, embedding and metadata. */
  datatype Record = Record(id: string, entry: Entry)

  type Batch = seq<Record>

  type Store = map<string, Entry>

  ghost predicate DistinctIds(batch: Batch) {
    forall i, j :: 0 <= i < j < |batch| ==> batch[i].id != batch[j].id
  }

  /** The ids of a batch, as a set. */
  function IdSet(batch: Batch): set<string> {
    set i | 0 <= i < |batch| :: batch[i].id
  }

  /** The records of a batch keyed by id; a later record overrides an earlier one. */
  function BatchMap(batch: Batch): (m: map<string, Entry>)
    ensures m.Keys == IdSet(batch)
    decreases |batch|
  {
    if |batch| == 0 then map[]
    else
      var init := batch[..|batch| - 1];
      var last := batch[|batch| - 1];
      IdSetSnoc(batch);
      BatchMap(init)[last.id := last.entry]
  }

  lemma {:induction false} IdSetSnoc(batch: Batch)
    requires |batch| > 0
    ensures IdSet(batch) == IdSet(batch[..|batch| - 1]) + {batch[|batch| - 1].id}
  {
    var init := batch[..|batch| - 1];
    assert forall i :: 0 <= i < |init| ==> init[i] == batch[i];
  }

  /** With distinct ids, every record of the batch is what the map holds under its id. */
  lemma {:induction false} BatchMapHolds(batch: Batch)
    ensures DistinctIds(batch) ==> forall i :: 0 <= i < |batch| ==> BatchMap(batch)[batch[i].id] == batch[i].entry
  {
    if DistinctIds(batch) {
      forall i | 0 <= i < |batch|
        ensures BatchMap(batch)[batch[i].id] == batch[i].entry
      {
        BatchMapAt(batch, i);
      }
    }
  }

  lemma {:induction false} BatchMapAt(batch: Batch, i: nat)
    requires DistinctIds(batch) && i < |batch|
    ensures BatchMap(batch)[batch[i].id] == batch[i].entry
    decreases |batch|
  {
    var init := batch[..|batch| - 1];
    var last := batch[|batch| - 1];
    assert BatchMap(batch) == BatchMap(init)[last.id := last.entry];
    if i < |init| {
      assert init[i] == batch[i];
      assert DistinctIds(init);
      BatchMapAt(init, i);
    }
  }

  /** A batch of distinct ids adds exactly as many keys as it has records. */
  lemma {:induction false} BatchMapSize(batch: Batch)
    requires DistinctIds(batch)
    ensures |BatchMap(batch)| == |batch|
    decreases |batch|
  {
    if |batch| > 0 {
      var init := batch[..|batch| - 1];
      assert DistinctIds(init);
      BatchMapSize(init);
      var last := batch[|batch| - 1];
      assert last.id !in IdSet(init);
    }
  }

  /** `collection.upsert`: every record of the batch is inserted or overwrites the entry under its id. */
  function Upsert(store: Store, batch: Batch): (s: Store)
    ensures s.Keys == store.Keys + IdSet(batch)
    ensures forall id :: id in store && id !in IdSet(batch) ==> s[id] == store[id]
    ensures DistinctIds(batch) ==> forall i :: 0 <= i < |batch| ==> s[batch[i].id] == batch[i].entry
  {
    BatchMapHolds(batch);
    store + BatchMap(batch)
  }

  /**
   * One upsert call that may raise: when the store accepts the batch its
   * records are written and its size counted; otherwise nothing changes and
   * nothing is counted.
   */
  function Submit(store: Store, batch: Batch, accepts: Batch -> bool): (Store, nat) {
    if accepts(batch) then (Upsert(store, batch), |batch|) else (store, 0)
  }

  /** Submits the batches in order. */
  function SubmitAll(store: Store, batches: seq<Batch>, accepts: Batch -> bool): Store
    decreases |batches|
  {
    if |batches| == 0 then store
    else SubmitAll(Submit(store, batches[0], accepts).0, batches[1..], accepts)
  }

  /** The number of records in the accepted batches. */
  function StoredCount(batches: seq<Batch>, accepts: Batch -> bool): nat
    decreases |batches|
  {
    if |batches| == 0 then 0
    else Submit(map[], batches[0], accepts).1 + StoredCount(batches[1..], accepts)
  }

  /** What the accepted batches write, later ones overriding earlier ones. */
  function Written(batches: seq<Batch>, accepts: Batch -> bool): map<string, Entry>
    decreases |batches|
  {
    if |batches| == 0 then map[]
    else
      var first := if accepts(batches[0]) then BatchMap(batches[0]) else map[];
      first + Written(batches[1..], accepts)
  }

  lemma {:induction false} OverrideAssociative(a: Store, b: Store, c: Store)
    ensures (a + b) + c == a + (b + c)
  {
    var l, r := (a + b) + c, a + (b + c);
    assert l.Keys == r.Keys;
    forall k | k in l
      ensures l[k] == r[k]
    {
    }
  }

  /** Submitting batches overlays what they write on the store: entries they do not touch stay as they were. */
  lemma {:induction false} SubmitAllOverlays(store: Store, batches: seq<Batch>, accepts: Batch -> bool)
    ensures SubmitAll(store, batches, accepts) == store + Written(batches, accepts)
    decreases |batches|
  {
    if |batches| > 0 {
      var first := if accepts(batches[0]) then BatchMap(batches[0]) else map[];
      var rest := Written(batches[1..], accepts);
      SubmitAllOverlays(store + first, batches[1..], accepts);
      assert Submit(store, batches[0], accepts).0 == store + first;
      OverrideAssociative(store, first, rest);
    }
  }

  /** Submitting the same batches a second time changes nothing: upsert overwrites by id. */
  lemma {:induction false} SubmitAllIdempotent(store: Store, batches: seq<Batch>, accepts: Batch -> bool)
    ensures SubmitAll(SubmitAll(store, batches, accepts), batches, accepts) == SubmitAll(store, batches, accepts)
  {
    var w := Written(batches, accepts);
    SubmitAllOverlays(store, batches, accepts);
    SubmitAllOverlays(store + w, batches, accepts);
    OverrideAssociative(store, w, w);
    assert w + w == w;
  }

  /** Running two lists of batches one after the other is running their concatenation. */
  lemma {:induction false} SubmitAllAppend(store: Store, a: seq<Batch>, b: seq<Batch>, accepts: Batch -> bool)
    ensures SubmitAll(store, a + b, accepts) == SubmitAll(SubmitAll(store, a, accepts), b, accepts)
    ensures StoredCount(a + b, accepts) == StoredCount(a, accepts) + StoredCount(b, accepts)
    decreases |a|
  {
    if |a| == 0 {
      assert a + b == b;
    } else {
      assert (a + b)[1..] == a[1..] + b;
      SubmitAllAppend(Submit(store, a[0], accepts).0, a[1..], b, accepts);
    }
  }

  /** Submitting batches none of which carries `id` leaves the entry under `id` as it was. */
  lemma {:induction false} SubmitAllKeeps(store: Store, batches: seq<Batch>, accepts: Batch -> bool, id: string)
    requires id in store
    requires forall t, m :: 0 <= t < |batches| && 0 <= m < |batches[t]| ==> batches[t][m].id != id
    ensures id in SubmitAll(store, batches, accepts)
    ensures SubmitAll(store, batches, accepts)[id] == store[id]
    decreases |batches|
  {
    if |batches| > 0 {
      var next := Submit(store, batches[0], accepts).0;
      assert id !in IdSet(batches[0]);
      assert id in next && next[id] == store[id];
      assert forall t, m :: 0 <= t < |batches[1..]| && 0 <= m < |batches[1..][t]| ==> batches[1..][t][m].id != id by {
        assert forall t :: 0 <= t < |batches[1..]| ==> batches[1..][t] == batches[t + 1];
      }
      SubmitAllKeeps(next, batches[1..], accepts, id);
    }
  }

  /**
   * A record of an accepted batch of distinct ids is in the store after all
   * the submissions, provided no later batch carries its id.
   */
  lemma {:induction false} SubmitAllWrites(store: Store, batches: seq<Batch>, accepts: Batch -> bool, t: nat, m: nat)
    requires t < |batches| && m < |batches[t]|
    requires accepts(batches[t]) && DistinctIds(batches[t])
    requires forall u, n :: t < u < |batches| && 0 <= n < |batches[u]| ==> batches[u][n].id != batches[t][m].id
    ensures batches[t][m].id in SubmitAll(store, batches, accepts)
    ensures SubmitAll(store, batches, accepts)[batches[t][m].id] == batches[t][m].entry
    decreases |batches|
  {
    var next := Submit(store, batches[0], accepts).0;
    var rest := batches[1..];
    assert forall u :: 0 <= u < |rest| ==> rest[u] == batches[u + 1];
    if t == 0 {
      assert next == Upsert(store, batches[0]);
      SubmitAllKeeps(next, rest, accepts, batches[0][m].id);
    } else {
      assert rest[t - 1] == batches[t];
      SubmitAllWrites(next, rest, accepts, t - 1, m);
    }
  }
}
