/**
 * `get_reference`: the title and URL of a paper, from the in-process cache
 * when it knows the paper, otherwise from the metadata of one stored entry
 * whose `source_id` is the paper id. The store lookup (`collection.get` with
 * a `source_id` filter and limit 1) is an input: the metadata rows it
 * returned, or None when it raised.
 */
module References {
  import opened Wrappers
  import opened VectorStore
  import opened Discovery
  import Ingest
  import Github

  datatype Reference = Reference(title: string, url: string)

  /** A row's reference: `meta.get("title", "Unknown")`, `meta.get("url", "")`. */
  function RowReference(meta: Metadata): Reference {
    Reference(meta.title.GetOr(Unknown), meta.url.GetOr(""))
  }

  /**
   * `get_reference(paper_id)`: a cached paper is answered from the cache and
   * the store is not consulted; otherwise the first returned row answers,
   * and a failed lookup, no row, or a row without metadata (which raises)
   * gives None.
   */
  function GetReference(cache: Cache, paperId: string, rows: Option<seq<Option<Metadata>>>): (r: Option<Reference>)
    ensures paperId in cache ==> r == Some(Reference(cache[paperId].title, cache[paperId].url))
    ensures r.Some? <==> paperId in cache || (rows.Some? && rows.value != [] && rows.value[0].Some?)
  {
    if paperId in cache then
      var cached := cache[paperId];
      Some(Reference(cached.title, cached.url))
    else if rows.Some? && rows.value != [] then
      var meta := rows.value[0];
      if meta.None? then None else Some(RowReference(meta.value))
    else None
  }

  /** The store holds an entry whose metadata names the paper as its source. */
  ghost predicate StoredFor(store: Store, paperId: string, id: string) {
    id in store && store[id].metadata.sourceId == Some(paperId)
  }

  /**
   * The rows a `source_id` lookup with limit 1 can return: at most one, the
   * metadata of an entry of that paper, and none only when there is no such
   * entry. Which matching entry comes back is the store's choice.
   */
  ghost predicate LookupRows(store: Store, paperId: string, rows: seq<Option<Metadata>>) {
    && |rows| <= 1
    && (rows == [] <==> forall id :: id in store ==> store[id].metadata.sourceId != Some(paperId))
    && (forall k :: 0 <= k < |rows| ==> exists id :: StoredFor(store, paperId, id) && rows[k] == Some(store[id].metadata))
  }

  /**
   * For a paper the cache does not know, a reference is found exactly when
   * the store holds an entry of that paper, and it is that entry's title and
   * URL (with "Unknown" and "" for absent fields).
   */
  lemma {:induction false} StoreFallback(cache: Cache, store: Store, paperId: string, rows: seq<Option<Metadata>>)
    requires paperId !in cache
    requires LookupRows(store, paperId, rows)
    ensures GetReference(cache, paperId, Some(rows)).Some? <==> exists id :: StoredFor(store, paperId, id)
    ensures GetReference(cache, paperId, Some(rows)).Some? ==>
      exists id :: StoredFor(store, paperId, id) && GetReference(cache, paperId, Some(rows)).value == RowReference(store[id].metadata)
  {
    if rows != [] {
      var id :| StoredFor(store, paperId, id) && rows[0] == Some(store[id].metadata);
      assert GetReference(cache, paperId, Some(rows)) == Some(RowReference(store[id].metadata));
    } else {
      assert forall id :: !StoredFor(store, paperId, id);
    }
  }

  /**
   * After a crawl, every discovered paper resolves through the cache, whatever
   * the store lookup would say, to the title and PDF URL of the last search
   * result with its id.
   */
  lemma {:induction false} ReferenceAfterCrawl(kb: Ingest.KnowledgeBase, results: seq<ArxivResult>, env: Ingest.Collaborators,
                            i: int, rows: Option<seq<Option<Metadata>>>)
    requires 0 <= i < |results|
    requires forall j :: i < j < |results| ==> results[j].shortId != results[i].shortId
    ensures GetReference(Ingest.CrawlPhysicsKnowledge(kb, results, env).0.cache, results[i].shortId, rows) ==
      Some(Reference(results[i].title, results[i].pdfUrl))
  {
    var papers := SearchArxiv(kb.cache, results).0;
    Ingest.CrawlOutcome(kb, results, env);
    assert LastWithId(papers, i);
    RememberLatest(kb.cache, papers, i);
  }

  /**
   * The store fallback does not prefer the paper's own chunks: when the entry
   * the lookup returns is a README chunk, the reference is the README's title
   * and the repository URL rather than the paper's PDF.
   */
  lemma {:induction false} ReadmeReference(cache: Cache, p: Paper, repoUrl: string, context: Github.GithubContext, embed: string -> Vector, k: int)
    requires p.paperId !in cache
    requires 0 <= k < |Ingest.ReadmeWindows(context)|
    requires k < |Ingest.GithubBatch(p, repoUrl, context, embed)|
    ensures GetReference(cache, p.paperId, Some([Some(Ingest.GithubBatch(p, repoUrl, context, embed)[k].entry.metadata)])) ==
      Some(Reference(p.title + Ingest.ReadmeTitleSuffix, repoUrl))
  {
    Ingest.GithubBatchSpec(p, repoUrl, context, embed);
  }
}
