/**
 * `query_physics_db`: the nearest-neighbour query itself belongs to the store
 * and is an input here (the response it produced, or None when embedding the
 * question or querying raised). What is modelled is how the response is
 * turned into hits: the first query's lists are zipped, each hit takes its
 * metadata fields with defaults, and an exception part-way keeps the hits
 * built so far.
 */
module Retrieval {
  import opened Wrappers
  import opened VectorStore
  import opened Discovery
  import opened Chunker
  import Github
  import Ingest

  /**
   * The response of a query with one question embedding. Each field is one
   * list per question embedding; None stands for a missing key or a None
   * value. A metadata entry is None when the stored entry has no metadata.
   */
  datatype QueryResponse = QueryResponse(
    documents: Option<seq<seq<string>>>,
    metadatas: Option<seq<seq<Option<Metadata>>>>,
    distances: Option<seq<seq<real>>>)

  /** One formatted hit: `{text, source_id, title, page, url, distance}`. */
  datatype Hit = Hit(text: string, sourceId: string, title: string, page: int, url: string, distance: real)

  /** `meta.get(key, default)` for each field. */
  function HitOf(document: string, metadata: Metadata, distance: real): Hit {
    Hit(document,
        metadata.sourceId.GetOr(Unknown),
        metadata.title.GetOr(Unknown),
        metadata.page.GetOr(0),
        metadata.url.GetOr(""),
        distance)
  }

  function Min(a: nat, b: nat): nat {
    if a <= b then a else b
  }

  /**
   * The formatting loop over `zip(documents, metadatas, distances)`: it stops
   * at the shortest list, and a None metadata raises, which ends the loop
   * with the hits appended so far. The result is exactly the hits of the
   * longest prefix of the zip without a None metadata.
   */
  function FormatHits(docs: seq<string>, metas: seq<Option<Metadata>>, dists: seq<real>): (hits: seq<Hit>)
    ensures |hits| <= Min(Min(|docs|, |metas|), |dists|)
    ensures forall k :: 0 <= k < |hits| ==>
      metas[k].Some? && hits[k] == HitOf(docs[k], metas[k].value, dists[k])
    ensures |hits| < Min(Min(|docs|, |metas|), |dists|) ==> metas[|hits|].None?
    decreases |docs|
  {
    if |docs| == 0 || |metas| == 0 || |dists| == 0 then []
    else if metas[0].None? then []
    else
      var rest := FormatHits(docs[1..], metas[1..], dists[1..]);
      [HitOf(docs[0], metas[0].value, dists[0])] + rest
  }

  /**
   * The formatting step of `query_physics_db`: no response, a falsy document
   * list, or a missing metadata or distance list (which raises before the
   * loop) gives no hit; otherwise the first query's lists are formatted.
   */
  function QueryPhysicsDb(response: Option<QueryResponse>): (hits: seq<Hit>)
    ensures response.None? ==> hits == []
    ensures hits != [] ==>
      && response.Some?
      && response.value.documents.Some? && response.value.documents.value != []
      && response.value.metadatas.Some? && response.value.metadatas.value != []
      && response.value.distances.Some? && response.value.distances.value != []
  {
    if response.None? then []
    else
      var q := response.value;
      if q.documents.None? || q.documents.value == [] then []
      else if q.metadatas.None? || q.metadatas.value == [] then []
      else if q.distances.None? || q.distances.value == [] then []
      else FormatHits(q.documents.value[0], q.metadatas.value[0], q.distances.value[0])
  }

  /**
   * The response the store gives when its ranking picks the entries `ids`
   * with the given distances: the documents and metadata stored under them.
   */
  function StoreResponse(store: Store, ids: seq<string>, dists: seq<real>): QueryResponse
    requires forall k :: 0 <= k < |ids| ==> ids[k] in store
  {
    QueryResponse(
      Some([seq(|ids|, k requires 0 <= k < |ids| => store[ids[k]].document)]),
      Some([seq(|ids|, k requires 0 <= k < |ids| => Some(store[ids[k]].metadata))]),
      Some([dists]))
  }

  /**
   * Querying the store: whatever entries the ranking picks, every one with a
   * distance becomes a hit, in ranking order, carrying the stored document
   * and the stored metadata with the defaults filled in.
   */
  lemma {:induction false} QueryStore(store: Store, ids: seq<string>, dists: seq<real>)
    requires forall k :: 0 <= k < |ids| ==> ids[k] in store
    requires |dists| == |ids|
    ensures |QueryPhysicsDb(Some(StoreResponse(store, ids, dists)))| == |ids|
    ensures forall k :: 0 <= k < |ids| ==>
      QueryPhysicsDb(Some(StoreResponse(store, ids, dists)))[k] == HitOf(store[ids[k]].document, store[ids[k]].metadata, dists[k])
  {
  }

  /**
   * What the crawl writes, the query reads back: a hit on paper chunk `k`
   * reports the chunk's text and page and the paper's id, title and PDF URL,
   * none of them replaced by a default.
   */
  lemma {:induction false} PaperChunkHit(p: Paper, chunks: seq<Chunk>, embed: string -> Vector, k: int, distance: real)
    requires 0 <= k < |chunks|
    ensures HitOf(Ingest.PaperBatch(p, chunks, embed)[k].entry.document, Ingest.PaperBatch(p, chunks, embed)[k].entry.metadata, distance) ==
      Hit(chunks[k].text, p.paperId, p.title, chunks[k].page, p.pdfUrl, distance)
  {
  }

  /**
   * A hit on a GitHub entry of the crawl reports page 0, the repository URL
   * and the paper's title followed by " - GitHub README" or " - Dependencies".
   */
  lemma {:induction false} GithubHit(p: Paper, repoUrl: string, context: Github.GithubContext, embed: string -> Vector, k: int, distance: real)
    requires 0 <= k < |Ingest.GithubBatch(p, repoUrl, context, embed)|
    ensures GithubHitOf(p, repoUrl, HitOf(Ingest.GithubBatch(p, repoUrl, context, embed)[k].entry.document,
                                         Ingest.GithubBatch(p, repoUrl, context, embed)[k].entry.metadata, distance))
  {
    Ingest.GithubBatchSpec(p, repoUrl, context, embed);
  }

  /** What a hit on one of the paper's GitHub entries reports. */
  ghost predicate GithubHitOf(p: Paper, repoUrl: string, h: Hit) {
    && h.sourceId == p.paperId
    && h.page == 0
    && h.url == repoUrl
    && (h.title == p.title + Ingest.ReadmeTitleSuffix || h.title == p.title + Ingest.RequirementsTitleSuffix)
  }
}
