/**
 * `search_arxiv` once the arXiv client has produced its results: each result
 * becomes a paper descriptor whose `repo_url` is the first GitHub URL in the
 * abstract, and the in-process reference cache records the paper's title and
 * PDF URL under its short id. The search itself is an input: `results` are
 * what the client yielded, in order (only the ones yielded before an error,
 * since a descriptor and its cache entry are produced together).
 */
module Discovery {
  import opened Wrappers
  import Github

  /** One result of the arXiv client. */
  datatype ArxivResult = ArxivResult(shortId: string, title: string, pdfUrl: string, summary: string)

  /** A paper descriptor as `search_arxiv` returns it. */
  datatype Paper = Paper(paperId: string, title: string, pdfUrl: string, summary: string, repoUrl: Option<string>)

  /** The cached metadata of a paper: its title, PDF URL, abstract and repository URL. */
  datatype CachedPaper = CachedPaper(title: string, url: string, summary: string, repoUrl: Option<string>)

  type Cache = map<string, CachedPaper>

  /** The descriptor of one result; its repository URL is found in the abstract. */
  function Describe(r: ArxivResult): Paper {
    Paper(r.shortId, r.title, r.pdfUrl, r.summary, Github.FindRepoUrl(r.summary))
  }

  function CacheEntry(p: Paper): CachedPaper {
    CachedPaper(p.title, p.pdfUrl, p.summary, p.repoUrl)
  }

  /** `papers[i]` is the last paper in the list with its id. */
  ghost predicate LastWithId(papers: seq<Paper>, i: int) {
    0 <= i < |papers| && forall j :: i < j < |papers| ==> papers[j].paperId != papers[i].paperId
  }

  function PaperIds(papers: seq<Paper>): set<string> {
    set i | 0 <= i < |papers| :: papers[i].paperId
  }

  /** The cache after recording the papers in order. */
  function Remember(cache: Cache, papers: seq<Paper>): Cache
    decreases |papers|
  {
    if |papers| == 0 then cache
    else
      var last := papers[|papers| - 1];
      Remember(cache, papers[..|papers| - 1])[last.paperId := CacheEntry(last)]
  }

  /** The cache holds the ids it held before and the ids of the papers. */
  lemma {:induction false} RememberKeys(cache: Cache, papers: seq<Paper>)
    ensures Remember(cache, papers).Keys == cache.Keys + PaperIds(papers)
    decreases |papers|
  {
    if |papers| > 0 {
      var init := papers[..|papers| - 1];
      RememberKeys(cache, init);
      assert forall i :: 0 <= i < |init| ==> init[i] == papers[i];
      assert PaperIds(papers) == PaperIds(init) + {papers[|papers| - 1].paperId};
    }
  }

  /** Every listed id maps to the entry of the last paper with that id: the latest title and PDF URL win. */
  lemma {:induction false} RememberLatest(cache: Cache, papers: seq<Paper>, i: int)
    requires LastWithId(papers, i)
    ensures papers[i].paperId in Remember(cache, papers)
    ensures Remember(cache, papers)[papers[i].paperId] == CacheEntry(papers[i])
    decreases |papers|
  {
    var init := papers[..|papers| - 1];
    if i < |init| {
      assert LastWithId(init, i);
      RememberLatest(cache, init, i);
    }
  }

  /** An id no paper carries keeps its cached entry. */
  lemma {:induction false} RememberOthers(cache: Cache, papers: seq<Paper>, id: string)
    requires id in cache
    requires forall i :: 0 <= i < |papers| ==> papers[i].paperId != id
    ensures id in Remember(cache, papers) && Remember(cache, papers)[id] == cache[id]
    decreases |papers|
  {
    if |papers| > 0 {
      RememberOthers(cache, papers[..|papers| - 1], id);
    }
  }

  /** Recording papers overlays their entries on the cache. */
  lemma {:induction false} RememberOverlays(cache: Cache, papers: seq<Paper>)
    ensures Remember(cache, papers) == cache + Remember(map[], papers)
    decreases |papers|
  {
    if |papers| > 0 {
      var init := papers[..|papers| - 1];
      var last := papers[|papers| - 1];
      RememberOverlays(cache, init);
      var m := Remember(map[], init);
      assert (cache + m)[last.paperId := CacheEntry(last)] == cache + m[last.paperId := CacheEntry(last)];
    }
  }

  /** Recording the same papers twice leaves the cache as recording them once. */
  lemma {:induction false} RememberIdempotent(cache: Cache, papers: seq<Paper>)
    ensures Remember(Remember(cache, papers), papers) == Remember(cache, papers)
  {
    var m := Remember(map[], papers);
    RememberOverlays(cache, papers);
    RememberOverlays(cache + m, papers);
    assert (cache + m) + m == cache + m;
  }

  /**
   * `search_arxiv`: one descriptor per result, in the client's order, and the
   * cache updated with every one of them.
   */
  function SearchArxiv(cache: Cache, results: seq<ArxivResult>): (r: (seq<Paper>, Cache))
    ensures |r.0| == |results|
    ensures forall i :: 0 <= i < |results| ==>
              && r.0[i].paperId == results[i].shortId
              && r.0[i].title == results[i].title
              && r.0[i].pdfUrl == results[i].pdfUrl
              && r.0[i].repoUrl == Github.FindRepoUrl(results[i].summary)
    ensures r.1 == Remember(cache, r.0)
  {
    var papers := seq(|results|, i requires 0 <= i < |results| => Describe(results[i]));
    (papers, Remember(cache, papers))
  }
}
