# phys-expert knowledge base, modelled in Dafny

This project models the core of `physics_knowledge_db.py`. That module builds a
physics knowledge base: it searches arXiv for papers, chunks each PDF into
500-word pieces, and fetches the README and `requirements.txt` of a GitHub
repository named in the abstract. All of these go into a vector store under
deterministic ids. The knowledge base then answers queries and looks up
references.

The model is pure and functional. The outside world enters as parameters:

- the arXiv results that a search yielded;
- the page texts extracted from a PDF;
- the outcome of each HTTP GET;
- the embedding of a document;
- whether an upsert call succeeds;
- the response of a store query.

The store itself is a `map<string, Entry>`. The whitespace of `str.split()` and `str.strip()` is the set of characters for which Python's `str.isspace()` holds.

| file | module | what it holds |
|---|---|---|
| `wrappers.dfy` | `Wrappers` | `Option` |
| `text.dfy` | `Text` | `str.split()`, `" ".join`, `str.split("/")`, `str.replace(p, "")`, decimal integers |
| `chunker.dfy` | `Chunker` | the page and word-window loop of `read_paper` |
| `chunk_ids.dfy` | `ChunkIds` | the id scheme and a parser that reads ids back |
| `github.dfy` | `Github` | `GITHUB_PATTERN`, `fetch_github_context` |
| `store.dfy` | `VectorStore` | entries, metadata, upsert as map override |
| `discovery.dfy` | `Discovery` | `search_arxiv`: descriptors and the reference cache |
| `ingest.dfy` | `Ingest` | `crawl_physics_knowledge` |
| `retrieval.dfy` | `Retrieval` | the result mapping of `query_physics_db` |
| `reference.dfy` | `References` | `get_reference` |

Central facts proved:

- The chunker neither loses nor reorders words. Every chunk holds 1 to 500
  words, and every chunk of a page except its last holds exactly 500.
- Each id parses back to its paper and category, so the id scheme is
  injective: records of different papers, or of different parts of one paper,
  never overwrite each other.
- Upsert overwrites by id, so submitting the same calls again changes nothing.
  Re-running a crawl therefore leaves the knowledge base and the count
  unchanged.
- The branch order of the GitHub fetch is `main`, then `master`.
- Every record of an accepted upsert call is still in the store, under its id,
  after the whole crawl, as long as no later paper has the same paper id.
- Each crawled paper chunk and GitHub entry, when a query returns it, gives a
  hit with the values the crawl wrote; no default is filled in. After a crawl,
  every discovered paper's reference comes from the cache.

## Model

| member | source | states |
|---|---|---|
| Text.BlankIffNoWords | physics_knowledge_db.py:147-149 | a page or chunk text fails the `strip()` test exactly when `split()` finds no word in it |
| Text.Split | physics_knowledge_db.py:149 | `str.split()`; `SplitAllWords`, `BlankIffNoWords` and `SplitJoinWords` state what it yields |
| Text.JoinWords | physics_knowledge_db.py:153 | `" ".join(words)`; `SplitJoinWords` states that splitting undoes it |
| Text.SplitAllWords | physics_knowledge_db.py:149 | every piece `split()` produces is a non-empty run of non-whitespace characters |
| Text.SplitJoinWords | physics_knowledge_db.py:150-153 | joining words with single spaces and splitting the result again gives back exactly those words |
| Text.SplitOn | physics_knowledge_db.py:196-197 | `split("/")` yields at least one part, no part contains `/`, and there is a single part exactly when the string has no `/` |
| Text.JoinSplitOn | physics_knowledge_db.py:196 | splitting on `/` and joining the parts with `/` restores the string, so no character is lost |
| Text.RemoveAll | physics_knowledge_db.py:196 | `str.replace(pat, "")`, scanning left to right without overlap, never lengthens the string; `RemoveAllUnchanged` states when it changes it |
| Text.RemoveAllUnchanged | physics_knowledge_db.py:196 | `str.replace(pat, "")` leaves the string as it is exactly when `pat` does not occur in it, and otherwise makes it strictly shorter |
| Text.NatToString | physics_knowledge_db.py:285 | the decimal text of `str(i)` is a non-empty run of digits; `ParseNatToString` states that it reads back as `i` |
| Text.ParseNatToString | physics_knowledge_db.py:285 | the decimal text of an index reads back as that index |
| Chunker.Windows | physics_knowledge_db.py:151-152 | the windows `words[i:i + size]` concatenate back to the word list, hold 1 to `size` words each, all but the last hold exactly `size`, and they contain only genuine words |
| Chunker.WindowCount | physics_knowledge_db.py:151 | the number of windows is the least `n` with `n * size >= len(words)` |
| Chunker.WindowChunksKeepAll | physics_knowledge_db.py:155-159 | no window of genuine words is dropped by the `strip()` filter: each gives one chunk, tagged with the page, carrying that window's words |
| Chunker.WindowChunks | physics_knowledge_db.py:151-159 | the windows of a page become chunks tagged with the page, blank ones dropped; `WindowChunksKeepAll` states that none of genuine words is dropped |
| Chunker.ChunkPage | physics_knowledge_db.py:144-159 | the chunks of one page; `ChunkPageShape` and `ChunkPageWords` state them |
| Chunker.ChunkPages | physics_knowledge_db.py:143-159 | the chunks of all pages in page order; `ChunkPagesShape` and `ChunkPagesWords` state them |
| Chunker.ChunkPageShape | physics_knowledge_db.py:144-159 | a blank page yields no chunk; otherwise every chunk carries the 1-based page number and 1 to `chunk_size` words, and every chunk except the page's last carries exactly `chunk_size` |
| Chunker.ChunkPageWords | physics_knowledge_db.py:147-159 | the chunks of a page carry the page's words, in order, and there are exactly `ceil(words / chunk_size)` of them |
| Chunker.ChunkPagesShape | physics_knowledge_db.py:143-159 | over the whole document, page numbers lie in `1..pages` in non-decreasing order, and every chunk holds 1 to `chunk_size` words |
| Chunker.ChunkPagesWords | physics_knowledge_db.py:143-159 | the document's chunks carry all words of all pages, in page order |
| Chunker.ReadPaper | physics_knowledge_db.py:113-175 | the chunking of `read_paper`, given the extracted pages; its properties are stated by `ChunkPagesShape`, `ChunkPagesWords` and `ReadPaperEmpty` |
| Chunker.ReadPaperEmpty | physics_knowledge_db.py:113-175 | `read_paper` returns no chunk exactly when `chunk_size` is not positive or every page is blank |
| ChunkIds.ChunkId | physics_knowledge_db.py:285-355 | the three id formats `{paper_id}_chunk_{k}`, `{paper_id}_github_readme_{k}` and `{paper_id}_github_requirements`; `ParseChunkIdRoundTrip` and `ChunkIdInjective` state that it is injective |
| ChunkIds.ParseChunkIdRoundTrip | physics_knowledge_db.py:285 | every id the crawl builds (paper chunk, README chunk, requirements) parses back to its paper id and category |
| ChunkIds.ChunkIdInjective | physics_knowledge_db.py:285-355 | two ids are equal exactly when they name the same paper and the same category and index, so entries of different papers or parts never overwrite each other |
| Github.MatchAt | physics_knowledge_db.py:20 | a match of the pattern starting at a given position is a substring there of the form `https://github.com/{user}/{repo}` with both names non-empty runs of ASCII `[\w\-]` characters |
| Github.SearchFrom | physics_knowledge_db.py:83 | `re.search` from a position: a result is the match at the leftmost matching position, and no result means no position matches |
| Github.FindRepoUrl | physics_knowledge_db.py:20 | the abstract search returns a well-formed `https://github.com/{user}/{repo}` found at the leftmost position where the pattern matches, or nothing when no position matches |
| Github.UserAndRepo | physics_knowledge_db.py:196-200 | user and repository are missing exactly when no `/` remains once every `https://github.com/` is removed |
| Github.RepoUrlRewrite | physics_knowledge_db.py:196-200 | for a URL of the pattern's shape, the rewrite recovers exactly the two names |
| Github.RawBase | physics_knowledge_db.py:201 | the raw base `https://raw.githubusercontent.com/{user}/{repo}`; `FoundUrlFetchesMainFirst` states the first request built from it |
| Github.ReadmeUrl | physics_knowledge_db.py:206 | `{raw_base}/{branch}/README.md`; `FetchBranchOrder` states the order in which these are requested |
| Github.RequirementsUrl | physics_knowledge_db.py:215 | `{raw_base}/{branch}/requirements.txt`; `FetchBranchOrder` and `TryBranchesFirst` state that it is requested only on the branch whose README was served |
| Github.TryBranches | physics_knowledge_db.py:205-229 | the branch loop with its `break`; `TryBranchesFirst` and `TryBranchesNone` state its outcome |
| Github.TryBranchesFirst | physics_knowledge_db.py:205-227 | the first branch whose README answers 200 supplies the README and the requirements; only its requirements URL is requested, and no later branch is consulted |
| Github.TryBranchesNone | physics_knowledge_db.py:205-229 | when no branch serves a README, every README URL is requested and both texts stay empty |
| Github.FetchGithubContext | physics_knowledge_db.py:187-234 | an empty URL, or one without a second path part, gives empty texts with no request; non-empty requirements always come from the branch whose README was served, with status 200 |
| Github.FetchBranchOrder | physics_knowledge_db.py:205-227 | the exact request sequence in each of the three cases: `main` serves, only `master` serves, neither serves |
| Github.FoundUrlFetchesMainFirst | physics_knowledge_db.py:196-208 | every URL found in an abstract passes the rewrite, and the first request is the `main` README under its raw base |
| VectorStore.Upsert | physics_knowledge_db.py:303-308 | the store gains exactly the batch's ids, ids outside the batch keep their entries, and each id of a distinct-id batch holds that record's entry |
| VectorStore.Submit | physics_knowledge_db.py:302-313 | one upsert call inside its `try`, which either writes and counts the whole batch or does nothing; `SubmitAllOverlays` and `Ingest.AllUpsertsFail` state its effect in sequence |
| VectorStore.SubmitAll | physics_knowledge_db.py:301-372 | the store after a sequence of upsert calls; `SubmitAllOverlays`, `SubmitAllWrites`, `SubmitAllKeeps` and `SubmitAllIdempotent` state it |
| VectorStore.StoredCount | physics_knowledge_db.py:301-369 | the count `total_chunks` adds up over the accepted calls; `SubmitAllAppend` and `PaperCount` state it |
| VectorStore.SubmitAllWrites | physics_knowledge_db.py:301-369 | a record of an accepted batch with distinct ids is in the store after all submissions when no later batch carries its id |
| VectorStore.SubmitAllKeeps | physics_knowledge_db.py:301-369 | submissions that never carry an id leave the entry under that id as it was |
| VectorStore.BatchMapSize | physics_knowledge_db.py:303-308 | a batch with distinct ids adds as many keys as it has records |
| VectorStore.SubmitAllOverlays | physics_knowledge_db.py:301-376 | a sequence of upsert calls, each of which may fail, overlays what the accepted calls write on the old store |
| VectorStore.SubmitAllIdempotent | physics_knowledge_db.py:303-308 | repeating the same upsert calls changes nothing |
| VectorStore.SubmitAllAppend | physics_knowledge_db.py:301-376 | running two call lists one after the other equals running their concatenation, and the counts add up |
| Discovery.Describe | physics_knowledge_db.py:83-92 | the descriptor of one result; `SearchArxiv` states its fields |
| Discovery.Remember | physics_knowledge_db.py:96-101 | the cache assignments of the result loop; `RememberKeys`, `RememberLatest`, `RememberOthers` and `RememberIdempotent` state their effect |
| Discovery.SearchArxiv | physics_knowledge_db.py:83-101 | there is one descriptor per result, in order, with the result's id, title, PDF URL and the abstract's repository URL, and the cache records all of them |
| Discovery.RememberKeys | physics_knowledge_db.py:96-101 | the cache afterwards knows exactly the old ids plus the ids of the found papers |
| Discovery.RememberLatest | physics_knowledge_db.py:96-101 | each found id maps to the entry of the last paper with that id |
| Discovery.RememberOthers | physics_knowledge_db.py:96-101 | cached ids that were not found again keep their entries |
| Discovery.RememberIdempotent | physics_knowledge_db.py:96-101 | recording the same papers twice gives the same cache as recording them once |
| Ingest.PaperBatch | physics_knowledge_db.py:279-295 | the paper upsert call; `PaperBatchIds` and `PaperBatchEntries` state its ids and entries |
| Ingest.PaperBatchIds | physics_knowledge_db.py:283-295 | there is one record per chunk; chunk `k` is stored under exactly `{paper_id}_chunk_{k}`, which parses back to chunk `k` of this paper; the batch's ids are pairwise distinct |
| Ingest.PaperBatchEntries | physics_knowledge_db.py:283-295 | every paper entry is `paper_content` with the paper's id, title and PDF URL, a page in `1..pages` and its own embedding, and the documents carry the PDF's words in page order |
| Ingest.ReadmeRecords | physics_knowledge_db.py:330-343 | the README records of the window loop; `ReadmeRecordsSpec` and `ReadmePart` state them |
| Ingest.ReadmeRecordsSpec | physics_knowledge_db.py:330-343 | each README window gives exactly one record, under `_github_readme_{start + k}`, with the README metadata |
| Ingest.ReadmePart | physics_knowledge_db.py:325-343 | the README entries number one per 500-word window; entry `k` is stored under exactly `{paper_id}_github_readme_{k}`, which parses back to README chunk `k`; together they carry the README's words in order |
| Ingest.RequirementsRecords | physics_knowledge_db.py:345-355 | the requirements record; `RequirementsPart` states it |
| Ingest.RequirementsPart | physics_knowledge_db.py:345-355 | a non-empty `requirements.txt`, whatever its length, gives exactly one record: its id is exactly `{paper_id}_github_requirements`, its text is prefixed with "Dependencies and requirements: ", and its title ends in " - Dependencies"; an empty one gives none |
| Ingest.GithubBatch | physics_knowledge_db.py:318-355 | the GitHub upsert call; `GithubBatchSpec` and `GithubBatchDistinct` state it |
| Ingest.GithubBatchSpec | physics_knowledge_db.py:318-355 | every GitHub entry is `implementation_details` on page 0 with the repository URL; README entries are titled "{title} - GitHub README"; non-empty requirements, whatever their length, give exactly one last entry under `_github_requirements` with the prefixed text |
| Ingest.GithubBatchDistinct | physics_knowledge_db.py:343-355 | the ids of one GitHub upsert call are pairwise distinct |
| Ingest.SkippedPaper | physics_knowledge_db.py:271-275 | a paper yields no chunk exactly when every extracted page is blank; it then makes no upsert call, GitHub included, and changes neither the store nor the count |
| Ingest.IngestPaper | physics_knowledge_db.py:271-372 | one iteration of the paper loop; `SkippedPaper`, `IngestPaperWrites` and `PaperCount` state its effect |
| Ingest.PaperBatches | physics_knowledge_db.py:271-372 | the upsert calls the loop body makes for one paper; `PaperBatchesShape` and `PaperCount` state them |
| Ingest.PaperBatchesShape | physics_knowledge_db.py:271-372 | a paper makes at most two upsert calls; the paper upsert comes first, and without a repository URL it is the only call and carries only paper content; a second call happens exactly when the paper has chunks, names a repository and has a non-empty GitHub batch, and it is that batch |
| Ingest.PaperCount | physics_knowledge_db.py:301-369 | when its upserts succeed, a paper adds its chunk count, plus one per README window and one for a non-empty `requirements.txt` when it names a repository; a paper without chunks adds 0 |
| Ingest.CrawlPapers | physics_knowledge_db.py:262-372 | the paper loop; `CrawlPapersSubmits` and `CrawlRetains` state what it does |
| Ingest.CrawlPapersSubmits | physics_knowledge_db.py:261-379 | the paper loop applies all of its upsert calls in order, and the count is the total size of the calls that succeeded |
| Ingest.CrawlRetains | physics_knowledge_db.py:262-372 | every record of an accepted upsert call of a paper is in the store after the loop, under its id, when no later paper has the same paper id |
| Ingest.CrawlKeepsRecords | physics_knowledge_db.py:236-379 | after a crawl, every record of an accepted upsert call of a discovered paper is in the store under its id, when no later discovered paper has the same id |
| Ingest.AllUpsertsFail | physics_knowledge_db.py:301-376 | when every upsert call fails, the store is unchanged and the count is 0 |
| Ingest.CrawlPhysicsKnowledge | physics_knowledge_db.py:236-379 | `crawl_physics_knowledge` given the search results; `CrawlOutcome`, `CrawlKeepsRecords` and `CrawlIdempotent` state its effect |
| Ingest.CrawlOutcome | physics_knowledge_db.py:236-379 | after a crawl, the cache records the found papers, the store has received the accepted calls, and the count is their size; with no paper found, nothing changes and the count is 0 |
| Ingest.CrawlIdempotent | physics_knowledge_db.py:236-379 | crawling again with the same results and collaborators leaves the knowledge base, its size and the count as after the first crawl |
| Retrieval.HitOf | physics_knowledge_db.py:413-419 | one hit, each metadata field with its default; `PaperChunkHit` and `GithubHit` state it on crawled entries |
| Retrieval.FormatHits | physics_knowledge_db.py:411-419 | the hits are exactly the formatted triples of the longest prefix of `zip(...)` without a missing metadata; they stop at the shortest list, or at the first missing metadata, which raises |
| Retrieval.QueryPhysicsDb | physics_knowledge_db.py:393-427 | a failed query, an empty document list, or a missing metadata or distance list gives no hit |
| Retrieval.QueryStore | physics_knowledge_db.py:399-419 | every entry the ranking picks becomes one hit, in ranking order, with its stored document and metadata |
| Retrieval.PaperChunkHit | physics_knowledge_db.py:411-419 | a hit on a crawled paper chunk reports the chunk's text and page and the paper's id, title and PDF URL, with no default substituted |
| Retrieval.GithubHit | physics_knowledge_db.py:411-419 | a hit on a crawled GitHub entry reports the paper id, page 0, the repository URL, and a title suffixed with " - GitHub README" or " - Dependencies" |
| References.RowReference | physics_knowledge_db.py:456-460 | the reference read from a store row, with the defaults `"Unknown"` and `""`; `StoreFallback` and `ReadmeReference` state it |
| References.GetReference | physics_knowledge_db.py:439-465 | a cached paper is answered from the cache; otherwise there is a reference exactly when the lookup returned a first row that has metadata |
| References.StoreFallback | physics_knowledge_db.py:446-465 | for an uncached paper, a reference exists exactly when the store holds an entry of that paper, and it is that entry's title and URL |
| References.ReferenceAfterCrawl | physics_knowledge_db.py:439-444 | after a crawl, every found paper resolves through the cache to the title and PDF URL of its last search result, whatever the store holds |
| References.ReadmeReference | physics_knowledge_db.py:452-460 | when the store lookup returns a README entry, the reference is the README title and the repository URL, not the paper's PDF |

## Left out

**Collaborators supplied as parameters**

- The arXiv client is out of scope: the query, `max_results`, sorting and the network. The model takes the results that the client yielded, in order. An error part-way through is represented by the results yielded before it.
- PDF download and text extraction are out of scope: `requests`, the temporary file and `fitz`. The model takes the page texts. A failed download or parse yields no page. A failure part-way through yields the pages read before it.
- Embeddings are an opaque total function of the document. In the crawl, `encode` is called outside the `try`, so a failing embedding model would abort the whole crawl. That failure is not modelled.
- The vector store's ranking, distances and `n_results` limit are not modelled. The entries a query returns, and the single row a `source_id` lookup returns, are inputs. Both are constrained only by the store's contents.

**Code not modelled**

- These are not part of this model: `__init__`, `get_collection_stats`, every `print`, `mcp_server.py`, `demo_workflow.py` and `test_run.py`.
- HTTP timeouts are not modelled; a request that raises is `RequestFailed`. An exception other than `RequestException` inside `fetch_github_context` would leave the texts fetched so far. The model has no such failure.
- Metadata values are typed, so a `page` that is not an integer cannot arise.

**Simplifications**

- Github.FindRepoUrl: `\w` is taken as ASCII letters, digits and `_`. Python's `re` also matches other Unicode letters and digits.

**Code followed where comments or docstrings say otherwise**

- The URL rewrite removes every occurrence of `https://github.com/`, not only a leading prefix. An empty user or repository name is possible, exactly as in the code.
- The crawl's count is the number of records sent in successful upsert calls. It is not the number of new store entries, since upsert overwrites existing ids.
- The store fallback of `get_reference` returns the first matching entry of any kind. That may be a README or requirements entry, whose title carries a suffix and whose URL is the repository's. This is stated by `References.ReadmeReference`.
