/**
 * `crawl_physics_knowledge`: for each discovered paper, read and chunk the PDF,
 * upsert the chunks under deterministic ids, then, when the paper names a
 * repository, fetch its README and requirements and upsert those too. The
 * collaborators (PDF reader, network, embedding model, store) are
 * parameters; the result is the new knowledge base and the number of
 * records the successful upserts carried.
 */
module Ingest {
  import opened Wrappers
  import opened Text
  import opened Chunker
  import opened ChunkIds
  import opened VectorStore
  import opened Discovery
  import Github

  /** Words per README chunk. */
  const ReadmeChunkSize := 500

  const PaperContent := "paper_content"
  const ImplementationDetails := "implementation_details"
  const ReadmeTitleSuffix := " - GitHub README"
  const RequirementsTitleSuffix := " - Dependencies"
  const RequirementsPrefix := "Dependencies and requirements: "

  /**
   * The crawl's collaborators, as functions of their inputs: the page texts the
   * PDF reader extracts from a URL (empty when download or parsing failed), the
   * outcome of a GET request, the embedding of a document, and whether an
   * upsert call succeeds.
   */
  datatype Collaborators = Collaborators(
    extract: string -> seq<string>,
    http: string -> Github.HttpOutcome,
    embed: string -> Vector,
    accepts: Batch -> bool)

  /** The persistent store and the in-process reference cache. */
  datatype KnowledgeBase = KnowledgeBase(store: Store, cache: Cache)

  function PaperMetadata(p: Paper, page: int): Metadata {
    Metadata(Some(p.paperId), Some(p.title), Some(page), Some(p.pdfUrl), Some(PaperContent))
  }

  function GithubMetadata(p: Paper, titleSuffix: string, repoUrl: string): Metadata {
    Metadata(Some(p.paperId), Some(p.title + titleSuffix), Some(0), Some(repoUrl), Some(ImplementationDetails))
  }

  /** A record whose embedding is computed from its own document, one vector per document. */
  function MakeRecord(id: string, text: string, metadata: Metadata, embed: string -> Vector): Record {
    Record(id, Entry(text, embed(text), metadata))
  }

  /** The paper batch: chunk `k` under `{paper_id}_chunk_{k}`. */
  function PaperBatch(p: Paper, chunks: seq<Chunk>, embed: string -> Vector): Batch {
    seq(|chunks|, k requires 0 <= k < |chunks| =>
      MakeRecord(ChunkId(p.paperId, PaperChunk(k)), chunks[k].text, PaperMetadata(p, chunks[k].page), embed))
  }

  /** README window number `index`, stored under `{paper_id}_github_readme_{index}`. */
  function ReadmeRecord(p: Paper, repoUrl: string, window: seq<string>, index: nat, embed: string -> Vector): Record {
    MakeRecord(ChunkId(p.paperId, ReadmeChunk(index)), JoinWords(window), GithubMetadata(p, ReadmeTitleSuffix, repoUrl), embed)
  }

  /** The README records: window number `start + k` is kept when its joined text is not blank. */
  function ReadmeRecords(p: Paper, repoUrl: string, windows: seq<seq<string>>, start: nat, embed: string -> Vector): Batch
    decreases |windows|
  {
    if |windows| == 0 then []
    else
      (if Blank(JoinWords(windows[0])) then [] else [ReadmeRecord(p, repoUrl, windows[0], start, embed)])
      + ReadmeRecords(p, repoUrl, windows[1..], start + 1, embed)
  }

  /** The requirements record, whatever the length of the file. */
  function RequirementsRecords(p: Paper, repoUrl: string, requirements: string, embed: string -> Vector): Batch {
    if requirements == "" then []
    else [MakeRecord(ChunkId(p.paperId, Requirements), RequirementsPrefix + requirements,
                     GithubMetadata(p, RequirementsTitleSuffix, repoUrl), embed)]
  }

  /** The README windows of a fetched context (none when the README is empty). */
  function ReadmeWindows(context: Github.GithubContext): seq<seq<string>> {
    if context.readme == "" then [] else Windows(Split(context.readme), ReadmeChunkSize)
  }

  /** The GitHub batch: README chunks, then the requirements record. */
  function GithubBatch(p: Paper, repoUrl: string, context: Github.GithubContext, embed: string -> Vector): Batch {
    ReadmeRecords(p, repoUrl, ReadmeWindows(context), 0, embed) + RequirementsRecords(p, repoUrl, context.requirements, embed)
  }

  /** `if repo_url:` */
  predicate HasRepo(p: Paper) {
    p.repoUrl.Some? && p.repoUrl.value != ""
  }

  /** The chunks of a paper's PDF, with the default chunk size. */
  function PaperChunks(p: Paper, env: Collaborators): seq<Chunk> {
    ReadPaper(env.extract(p.pdfUrl), DefaultChunkSize)
  }

  /** The GitHub context fetched for a paper that names a repository. */
  function PaperContext(p: Paper, env: Collaborators): Github.GithubContext
    requires HasRepo(p)
  {
    Github.FetchGithubContext(p.repoUrl.value, env.http).context
  }

  /** The GitHub batch built for a paper that names a repository. */
  function PaperGithubBatch(p: Paper, env: Collaborators): Batch
    requires HasRepo(p)
  {
    GithubBatch(p, p.repoUrl.value, PaperContext(p, env), env.embed)
  }

  /**
   * The upsert calls the crawl makes for one paper, in order: none when the
   * PDF gave no chunk (the paper is skipped, GitHub included); otherwise the
   * paper batch, then the GitHub batch when the paper names a repository and
   * the fetch produced something.
   */
  function PaperBatches(p: Paper, env: Collaborators): seq<Batch> {
    var chunks := PaperChunks(p, env);
    if |chunks| == 0 then []
    else
      var paperBatch := PaperBatch(p, chunks, env.embed);
      if !HasRepo(p) then [paperBatch]
      else
        var github := PaperGithubBatch(p, env);
        if |github| == 0 then [paperBatch] else [paperBatch, github]
  }

  /** One iteration of the paper loop: the store after its upserts and the records they stored. */
  function IngestPaper(store: Store, p: Paper, env: Collaborators): (Store, nat) {
    var batches := PaperBatches(p, env);
    (SubmitAll(store, batches, env.accepts), StoredCount(batches, env.accepts))
  }

  /** The paper loop: papers in discovery order, the stored counts summed. */
  function CrawlPapers(store: Store, papers: seq<Paper>, env: Collaborators): (Store, nat)
    decreases |papers|
  {
    if |papers| == 0 then (store, 0)
    else
      var first := IngestPaper(store, papers[0], env);
      var rest := CrawlPapers(first.0, papers[1..], env);
      (rest.0, first.1 + rest.1)
  }

  /**
   * `crawl_physics_knowledge(topic, max_papers)` given what the arXiv search
   * yielded for the topic: the search updates the cache, no paper means a
   * count of 0, otherwise every paper is ingested in order.
   */
  function CrawlPhysicsKnowledge(kb: KnowledgeBase, results: seq<ArxivResult>, env: Collaborators): (KnowledgeBase, nat) {
    var found := SearchArxiv(kb.cache, results);
    if |found.0| == 0 then (KnowledgeBase(kb.store, found.1), 0)
    else
      var crawled := CrawlPapers(kb.store, found.0, env);
      (KnowledgeBase(crawled.0, found.1), crawled.1)
  }

  // ---------------------------------------------------------------------------
  // Ids and metadata of the batches
  // ---------------------------------------------------------------------------

  /** The words of a batch's documents, record after record. */
  function BatchWords(b: Batch): seq<string> {
    if |b| == 0 then [] else Split(b[0].entry.document) + BatchWords(b[1..])
  }

  /**
   * Paper chunk `k` is stored under `{paper_id}_chunk_{k}`, an id that reads
   * back as chunk `k` of this paper, so the ids are pairwise distinct.
   */
  lemma {:induction false} PaperBatchIds(p: Paper, chunks: seq<Chunk>, embed: string -> Vector)
    ensures |PaperBatch(p, chunks, embed)| == |chunks|
    ensures forall k :: 0 <= k < |chunks| ==>
      PaperBatch(p, chunks, embed)[k].id == p.paperId + "_chunk_" + NatToString(k)
    ensures forall k :: 0 <= k < |chunks| ==>
      ParseChunkId(PaperBatch(p, chunks, embed)[k].id) == Some((p.paperId, PaperChunk(k)))
    ensures DistinctIds(PaperBatch(p, chunks, embed))
  {
    var b := PaperBatch(p, chunks, embed);
    forall k | 0 <= k < |chunks|
      ensures ParseChunkId(b[k].id) == Some((p.paperId, PaperChunk(k)))
    {
      ParseChunkIdRoundTrip(p.paperId, PaperChunk(k));
    }
  }

  /** A batch whose documents are the texts of the chunks carries the chunks' words. */
  lemma {:induction false} BatchWordsOfChunks(b: Batch, chunks: seq<Chunk>)
    requires |b| == |chunks|
    requires forall k :: 0 <= k < |b| ==> b[k].entry.document == chunks[k].text
    ensures BatchWords(b) == ChunkWords(chunks)
    decreases |b|
  {
    if |b| > 0 {
      BatchWordsOfChunks(b[1..], chunks[1..]);
    }
  }

  /** A batch whose documents split into the given word lists carries their concatenation. */
  lemma {:induction false} BatchWordsOfWindows(b: Batch, windows: seq<seq<string>>)
    requires |b| == |windows|
    requires forall k :: 0 <= k < |b| ==> Split(b[k].entry.document) == windows[k]
    ensures BatchWords(b) == Flatten(windows)
    decreases |b|
  {
    if |b| > 0 {
      BatchWordsOfWindows(b[1..], windows[1..]);
    }
  }

  /**
   * Every paper entry is `paper_content` of this paper with its title, PDF URL
   * and the page number of its chunk, between 1 and the number of extracted
   * pages; its embedding is that of its own document; and the documents
   * together carry the PDF's words in page order.
   */
  lemma {:induction false} PaperBatchEntries(p: Paper, env: Collaborators)
    ensures var pages := env.extract(p.pdfUrl);
      var b := PaperBatch(p, PaperChunks(p, env), env.embed);
      && (forall k :: 0 <= k < |b| ==>
            && b[k].entry.metadata.sourceId == Some(p.paperId)
            && b[k].entry.metadata.title == Some(p.title)
            && b[k].entry.metadata.url == Some(p.pdfUrl)
            && b[k].entry.metadata.kind == Some(PaperContent)
            && b[k].entry.metadata.page.Some?
            && 1 <= b[k].entry.metadata.page.value <= |pages|
            && b[k].entry.embedding == env.embed(b[k].entry.document))
      && BatchWords(b) == PageWords(pages)
  {
    var pages := env.extract(p.pdfUrl);
    var chunks := PaperChunks(p, env);
    ChunkPagesShape(pages, DefaultChunkSize);
    ChunkPagesWords(pages, DefaultChunkSize);
    BatchWordsOfChunks(PaperBatch(p, chunks, env.embed), chunks);
  }

  /** A window of genuine words joins into a text that is not blank. */
  lemma {:induction false} WindowNotBlank(window: seq<string>)
    requires |window| > 0 && AllWords(window)
    ensures !Blank(JoinWords(window))
  {
    SplitJoinWords(window);
    BlankIffNoWords(JoinWords(window));
  }

  /** README windows of genuine words each give one record, `{paper_id}_github_readme_{start + k}`. */
  lemma {:induction false} ReadmeRecordsSpec(p: Paper, repoUrl: string, windows: seq<seq<string>>, start: nat, embed: string -> Vector)
    requires forall i :: 0 <= i < |windows| ==> |windows[i]| > 0 && AllWords(windows[i])
    ensures |ReadmeRecords(p, repoUrl, windows, start, embed)| == |windows|
    ensures forall k :: 0 <= k < |windows| ==>
      ReadmeRecords(p, repoUrl, windows, start, embed)[k] == ReadmeRecord(p, repoUrl, windows[k], start + k, embed)
    decreases |windows|
  {
    if |windows| > 0 {
      WindowNotBlank(windows[0]);
      var rest := ReadmeRecords(p, repoUrl, windows[1..], start + 1, embed);
      ReadmeRecordsSpec(p, repoUrl, windows[1..], start + 1, embed);
      var r := ReadmeRecords(p, repoUrl, windows, start, embed);
      assert r == [ReadmeRecord(p, repoUrl, windows[0], start, embed)] + rest;
      forall k | 1 <= k < |windows|
        ensures r[k] == ReadmeRecord(p, repoUrl, windows[k], start + k, embed)
      {
        assert r[k] == rest[k - 1];
        assert windows[1..][k - 1] == windows[k];
      }
    }
  }

  /** README windows are windows of genuine words. */
  lemma {:induction false} ReadmeWindowsShape(context: Github.GithubContext)
    ensures forall i :: 0 <= i < |ReadmeWindows(context)| ==>
      1 <= |ReadmeWindows(context)[i]| <= ReadmeChunkSize && AllWords(ReadmeWindows(context)[i])
    ensures Flatten(ReadmeWindows(context)) == Split(context.readme)
    ensures |ReadmeWindows(context)| * ReadmeChunkSize - ReadmeChunkSize < |Split(context.readme)|
    ensures |Split(context.readme)| <= |ReadmeWindows(context)| * ReadmeChunkSize
  {
    var words := Split(context.readme);
    if context.readme != "" {
      assert ReadmeWindows(context) == Windows(words, ReadmeChunkSize);
      SplitAllWords(context.readme);
      WindowCount(words, ReadmeChunkSize);
    } else {
      assert words == [] by {
        assert SpaceLength(context.readme) == 0;
      }
      assert ReadmeWindows(context) == [];
    }
  }

  /** What every entry of a paper's GitHub batch shares: the paper, page 0, the repository URL, the kind, its own embedding. */
  ghost predicate GithubEntry(p: Paper, repoUrl: string, embed: string -> Vector, r: Record) {
    && r.entry.metadata.sourceId == Some(p.paperId)
    && r.entry.metadata.page == Some(0)
    && r.entry.metadata.url == Some(repoUrl)
    && r.entry.metadata.kind == Some(ImplementationDetails)
    && r.entry.embedding == embed(r.entry.document)
  }

  /** README entry `k` of a paper: its id is `{paper_id}_github_readme_{k}`, read back as README chunk `k`, and it is titled "{title} - GitHub README". */
  ghost predicate ReadmeEntry(p: Paper, repoUrl: string, embed: string -> Vector, k: nat, r: Record) {
    && r.id == p.paperId + "_github_readme_" + NatToString(k)
    && ParseChunkId(r.id) == Some((p.paperId, ReadmeChunk(k)))
    && r.entry.metadata == GithubMetadata(p, ReadmeTitleSuffix, repoUrl)
    && GithubEntry(p, repoUrl, embed, r)
  }

  /**
   * The README part of the GitHub batch: one entry per 500-word window, ids
   * `{paper_id}_github_readme_0 .. _{m-1}`, titles ending in " - GitHub README",
   * carrying the README's words in order.
   */
  lemma {:induction false} ReadmePart(p: Paper, repoUrl: string, context: Github.GithubContext, embed: string -> Vector)
    ensures |ReadmeRecords(p, repoUrl, ReadmeWindows(context), 0, embed)| == |ReadmeWindows(context)|
    ensures forall k :: 0 <= k < |ReadmeWindows(context)| ==>
      ReadmeEntry(p, repoUrl, embed, k, ReadmeRecords(p, repoUrl, ReadmeWindows(context), 0, embed)[k])
    ensures BatchWords(ReadmeRecords(p, repoUrl, ReadmeWindows(context), 0, embed)) == Split(context.readme)
  {
    var ws := ReadmeWindows(context);
    ReadmeWindowsShape(context);
    ReadmeRecordsSpec(p, repoUrl, ws, 0, embed);
    var r := ReadmeRecords(p, repoUrl, ws, 0, embed);
    ReadmeEntries(p, repoUrl, ws, embed, r);
    ReadmeWords(ws, r);
  }

  lemma {:induction false} ReadmeEntries(p: Paper, repoUrl: string, ws: seq<seq<string>>, embed: string -> Vector, r: Batch)
    requires |r| == |ws|
    requires forall k :: 0 <= k < |ws| ==> r[k] == ReadmeRecord(p, repoUrl, ws[k], k, embed)
    ensures forall k :: 0 <= k < |ws| ==> ReadmeEntry(p, repoUrl, embed, k, r[k])
  {
    forall k | 0 <= k < |ws|
      ensures ReadmeEntry(p, repoUrl, embed, k, r[k])
    {
      ParseChunkIdRoundTrip(p.paperId, ReadmeChunk(k));
    }
  }

  lemma {:induction false} ReadmeWords(ws: seq<seq<string>>, r: Batch)
    requires |r| == |ws|
    requires forall k :: 0 <= k < |ws| ==> r[k].entry.document == JoinWords(ws[k])
    requires forall i :: 0 <= i < |ws| ==> AllWords(ws[i])
    ensures BatchWords(r) == Flatten(ws)
  {
    forall k | 0 <= k < |r|
      ensures Split(r[k].entry.document) == ws[k]
    {
      SplitJoinWords(ws[k]);
    }
    BatchWordsOfWindows(r, ws);
  }

  /** The requirements entry of a paper: its id `{paper_id}_github_requirements`, its prefixed text, and the title "{title} - Dependencies". */
  ghost predicate RequirementsEntry(p: Paper, repoUrl: string, requirements: string, embed: string -> Vector, r: Record) {
    && r.id == p.paperId + "_github_requirements"
    && ParseChunkId(r.id) == Some((p.paperId, Requirements))
    && r.entry.document == RequirementsPrefix + requirements
    && r.entry.metadata.title == Some(p.title + RequirementsTitleSuffix)
    && GithubEntry(p, repoUrl, embed, r)
  }

  lemma {:induction false} RequirementsPart(p: Paper, repoUrl: string, requirements: string, embed: string -> Vector)
    ensures |RequirementsRecords(p, repoUrl, requirements, embed)| == if requirements == "" then 0 else 1
    ensures requirements != "" ==> RequirementsEntry(p, repoUrl, requirements, embed, RequirementsRecords(p, repoUrl, requirements, embed)[0])
  {
    ParseChunkIdRoundTrip(p.paperId, Requirements);
  }

  /**
   * The GitHub batch of a fetched context: every entry is
   * `implementation_details` of this paper on page 0 with the repository URL;
   * the README gives one entry per window, titled "{title} - GitHub README";
   * a non-empty requirements text, whatever its length, gives exactly one more
   * entry, the last, under `{paper_id}_github_requirements`, titled
   * "{title} - Dependencies". All ids are distinct.
   */
  lemma {:induction false} GithubBatchSpec(p: Paper, repoUrl: string, context: Github.GithubContext, embed: string -> Vector)
    ensures |GithubBatch(p, repoUrl, context, embed)| == |ReadmeWindows(context)| + (if context.requirements == "" then 0 else 1)
    ensures forall k :: 0 <= k < |GithubBatch(p, repoUrl, context, embed)| ==> GithubEntry(p, repoUrl, embed, GithubBatch(p, repoUrl, context, embed)[k])
    ensures forall k :: 0 <= k < |ReadmeWindows(context)| ==> ReadmeEntry(p, repoUrl, embed, k, GithubBatch(p, repoUrl, context, embed)[k])
    ensures context.requirements != "" ==>
      RequirementsEntry(p, repoUrl, context.requirements, embed, GithubBatch(p, repoUrl, context, embed)[|ReadmeWindows(context)|])
  {
    var readme := ReadmeRecords(p, repoUrl, ReadmeWindows(context), 0, embed);
    var reqs := RequirementsRecords(p, repoUrl, context.requirements, embed);
    var b := GithubBatch(p, repoUrl, context, embed);
    var w := |ReadmeWindows(context)|;
    ReadmePart(p, repoUrl, context, embed);
    RequirementsPart(p, repoUrl, context.requirements, embed);
    GithubBatchParts(readme, reqs, b);
    forall k | 0 <= k < w
      ensures ReadmeEntry(p, repoUrl, embed, k, b[k]) && GithubEntry(p, repoUrl, embed, b[k])
    {
      ReadmeEntryIsGithub(p, repoUrl, embed, k, b[k]);
    }
    forall k | w <= k < |b|
      ensures GithubEntry(p, repoUrl, embed, b[k])
    {
      assert b[k] == reqs[k - w];
    }
  }

  lemma {:induction false} ReadmeEntryIsGithub(p: Paper, repoUrl: string, embed: string -> Vector, k: nat, r: Record)
    requires ReadmeEntry(p, repoUrl, embed, k, r)
    ensures GithubEntry(p, repoUrl, embed, r)
  {
  }

  /** The records of a concatenation, by position. */
  lemma {:induction false} GithubBatchParts(readme: Batch, reqs: Batch, b: Batch)
    requires b == readme + reqs
    ensures |b| == |readme| + |reqs|
    ensures forall k :: 0 <= k < |readme| ==> b[k] == readme[k]
    ensures forall k :: 0 <= k < |reqs| ==> b[|readme| + k] == reqs[k]
  {
  }

  /** The ids of a GitHub batch are pairwise distinct, as one upsert call requires. */
  lemma {:induction false} GithubBatchDistinct(p: Paper, repoUrl: string, context: Github.GithubContext, embed: string -> Vector)
    ensures DistinctIds(GithubBatch(p, repoUrl, context, embed))
  {
    var b := GithubBatch(p, repoUrl, context, embed);
    var m := |ReadmeWindows(context)|;
    GithubBatchSpec(p, repoUrl, context, embed);
    forall i, j | 0 <= i < j < |b|
      ensures b[i].id != b[j].id
    {
      assert ParseChunkId(b[i].id) != ParseChunkId(b[j].id);
    }
  }

  /** Every id of the batch reads back as an entry of paper `paperId`. */
  ghost predicate OwnedBy(paperId: string, b: Batch) {
    forall m :: 0 <= m < |b| ==> ParseChunkId(b[m].id).Some? && ParseChunkId(b[m].id).value.0 == paperId
  }

  /** The GitHub batch belongs to its paper, and none of its ids reads back as a paper chunk. */
  lemma {:induction false} GithubBatchOwned(p: Paper, repoUrl: string, context: Github.GithubContext, embed: string -> Vector)
    ensures OwnedBy(p.paperId, GithubBatch(p, repoUrl, context, embed))
    ensures forall m :: 0 <= m < |GithubBatch(p, repoUrl, context, embed)| ==>
      !ParseChunkId(GithubBatch(p, repoUrl, context, embed)[m].id).value.1.PaperChunk?
  {
    var b := GithubBatch(p, repoUrl, context, embed);
    var w := |ReadmeWindows(context)|;
    GithubBatchSpec(p, repoUrl, context, embed);
    forall m | 0 <= m < |b|
      ensures ParseChunkId(b[m].id).Some? && ParseChunkId(b[m].id).value.0 == p.paperId
      ensures !ParseChunkId(b[m].id).value.1.PaperChunk?
    {
      if m < w {
        assert ReadmeEntry(p, repoUrl, embed, m, b[m]);
      } else {
        assert RequirementsEntry(p, repoUrl, context.requirements, embed, b[w]);
      }
    }
  }

  // ---------------------------------------------------------------------------
  // The upsert calls of one paper
  // ---------------------------------------------------------------------------

  /**
   * A paper whose PDF gave no chunk (failed download, no page with text) makes
   * no upsert call, GitHub included, and leaves the store and the count as
   * they were; this happens exactly when every extracted page is blank.
   */
  lemma {:induction false} SkippedPaper(store: Store, p: Paper, env: Collaborators)
    ensures PaperChunks(p, env) == [] <==> forall i :: 0 <= i < |env.extract(p.pdfUrl)| ==> Blank(env.extract(p.pdfUrl)[i])
    ensures PaperChunks(p, env) == [] ==> PaperBatches(p, env) == [] && IngestPaper(store, p, env) == (store, 0)
  {
    ReadPaperEmpty(env.extract(p.pdfUrl), DefaultChunkSize);
  }

  /**
   * A paper makes at most two upsert calls. A paper with chunks makes the
   * paper upsert first; without a repository URL that is its only call and no
   * GitHub entry is produced. There is a second call exactly when the paper
   * has chunks, names a repository and its GitHub batch is not empty, and that
   * call is the GitHub batch.
   */
  lemma {:induction false} PaperBatchesShape(p: Paper, env: Collaborators)
    ensures |PaperBatches(p, env)| <= 2
    ensures |PaperChunks(p, env)| > 0 ==>
      |PaperBatches(p, env)| >= 1 && PaperBatches(p, env)[0] == PaperBatch(p, PaperChunks(p, env), env.embed)
    ensures !HasRepo(p) ==> |PaperBatches(p, env)| <= 1
    ensures forall i, k :: 0 <= i < |PaperBatches(p, env)| && 0 <= k < |PaperBatches(p, env)[i]| && !HasRepo(p) ==>
      PaperBatches(p, env)[i][k].entry.metadata.kind == Some(PaperContent)
    ensures |PaperBatches(p, env)| == 2 <==>
      |PaperChunks(p, env)| > 0 && HasRepo(p) && |PaperGithubBatch(p, env)| > 0
    ensures |PaperBatches(p, env)| == 2 ==> PaperBatches(p, env)[1] == PaperGithubBatch(p, env)
  {
  }

  /** One per README window and one for a non-empty requirements file, when the paper names a repository. */
  function GithubCount(p: Paper, env: Collaborators): nat {
    if !HasRepo(p) then 0
    else |ReadmeWindows(PaperContext(p, env))| + (if PaperContext(p, env).requirements == "" then 0 else 1)
  }

  /**
   * The count one paper adds when its upserts succeed: its chunks, plus, when
   * it names a repository, one per README window and one for a non-empty
   * requirements file.
   */
  lemma {:induction false} PaperCount(p: Paper, env: Collaborators)
    requires forall t :: 0 <= t < |PaperBatches(p, env)| ==> env.accepts(PaperBatches(p, env)[t])
    ensures StoredCount(PaperBatches(p, env), env.accepts) ==
      (if |PaperChunks(p, env)| == 0 then 0
       else |PaperChunks(p, env)| + GithubCount(p, env))
  {
    var chunks := PaperChunks(p, env);
    var bs := PaperBatches(p, env);
    if |chunks| > 0 {
      PaperBatchIds(p, chunks, env.embed);
      assert StoredCount(bs, env.accepts) == |bs[0]| + StoredCount(bs[1..], env.accepts);
      if HasRepo(p) {
        GithubBatchSpec(p, p.repoUrl.value, PaperContext(p, env), env.embed);
        if |PaperGithubBatch(p, env)| > 0 {
          assert bs[1..] == [PaperGithubBatch(p, env)];
          assert StoredCount(bs[1..], env.accepts) == |PaperGithubBatch(p, env)| + StoredCount(bs[2..], env.accepts);
        }
      }
    }
  }

  // ---------------------------------------------------------------------------
  // The crawl
  // ---------------------------------------------------------------------------

  /** Every upsert call of the paper loop, in order. */
  function Attempted(papers: seq<Paper>, env: Collaborators): seq<Batch>
    decreases |papers|
  {
    if |papers| == 0 then [] else PaperBatches(papers[0], env) + Attempted(papers[1..], env)
  }

  /**
   * The paper loop applies its upsert calls in order, and its count is the
   * total size of exactly the calls that succeeded: a failed call adds 0 and
   * the loop goes on.
   */
  lemma {:induction false} CrawlPapersSubmits(store: Store, papers: seq<Paper>, env: Collaborators)
    ensures CrawlPapers(store, papers, env) ==
      (SubmitAll(store, Attempted(papers, env), env.accepts), StoredCount(Attempted(papers, env), env.accepts))
  {
    CrawlPapersStore(store, papers, env);
    CrawlPapersCount(store, papers, env);
  }

  lemma {:induction false} CrawlPapersStore(store: Store, papers: seq<Paper>, env: Collaborators)
    ensures CrawlPapers(store, papers, env).0 == SubmitAll(store, Attempted(papers, env), env.accepts)
    decreases |papers|
  {
    if |papers| > 0 {
      var first := PaperBatches(papers[0], env);
      var rest := Attempted(papers[1..], env);
      var afterFirst := SubmitAll(store, first, env.accepts);
      assert CrawlPapers(store, papers, env).0 == CrawlPapers(afterFirst, papers[1..], env).0;
      CrawlPapersStore(afterFirst, papers[1..], env);
      assert Attempted(papers, env) == first + rest;
      SubmitAllAppend(store, first, rest, env.accepts);
    }
  }

  lemma {:induction false} CrawlPapersCount(store: Store, papers: seq<Paper>, env: Collaborators)
    ensures CrawlPapers(store, papers, env).1 == StoredCount(Attempted(papers, env), env.accepts)
    decreases |papers|
  {
    if |papers| > 0 {
      var first := PaperBatches(papers[0], env);
      var rest := Attempted(papers[1..], env);
      var afterFirst := SubmitAll(store, first, env.accepts);
      assert CrawlPapers(store, papers, env).1 == StoredCount(first, env.accepts) + CrawlPapers(afterFirst, papers[1..], env).1;
      CrawlPapersCount(afterFirst, papers[1..], env);
      assert Attempted(papers, env) == first + rest;
      SubmitAllAppend(store, first, rest, env.accepts);
    }
  }

  /**
   * The upsert calls of one paper belong to it, each has distinct ids, and the
   * paper call and the GitHub call share no id.
   */
  lemma {:induction false} PaperBatchesOwned(p: Paper, env: Collaborators)
    ensures forall t :: 0 <= t < |PaperBatches(p, env)| ==>
      OwnedBy(p.paperId, PaperBatches(p, env)[t]) && DistinctIds(PaperBatches(p, env)[t])
    ensures forall u, n, m :: 0 < u < |PaperBatches(p, env)| && 0 <= n < |PaperBatches(p, env)[u]| && 0 <= m < |PaperBatches(p, env)[0]| ==>
      PaperBatches(p, env)[u][n].id != PaperBatches(p, env)[0][m].id
  {
    var chunks := PaperChunks(p, env);
    var bs := PaperBatches(p, env);
    PaperBatchesShape(p, env);
    if |chunks| > 0 {
      PaperBatchIds(p, chunks, env.embed);
      assert OwnedBy(p.paperId, bs[0]);
      if |bs| == 2 {
        GithubBatchApart(p, env);
      }
    }
  }

  /** The GitHub batch of a paper belongs to it, has distinct ids and shares none with its paper batch. */
  lemma {:induction false} GithubBatchApart(p: Paper, env: Collaborators)
    requires HasRepo(p)
    ensures OwnedBy(p.paperId, PaperGithubBatch(p, env)) && DistinctIds(PaperGithubBatch(p, env))
    ensures forall n, m :: 0 <= n < |PaperGithubBatch(p, env)| && 0 <= m < |PaperChunks(p, env)| ==>
      PaperGithubBatch(p, env)[n].id != PaperBatch(p, PaperChunks(p, env), env.embed)[m].id
  {
    var g := PaperGithubBatch(p, env);
    var chunks := PaperChunks(p, env);
    var b := PaperBatch(p, chunks, env.embed);
    GithubBatchOwned(p, p.repoUrl.value, PaperContext(p, env), env.embed);
    GithubBatchDistinct(p, p.repoUrl.value, PaperContext(p, env), env.embed);
    PaperBatchIds(p, chunks, env.embed);
    forall n, m | 0 <= n < |g| && 0 <= m < |chunks|
      ensures g[n].id != b[m].id
    {
      assert ParseChunkId(b[m].id) == Some((p.paperId, PaperChunk(m)));
    }
  }

  /** Papers other than the owner of `id` never write `id`. */
  lemma {:induction false} CrawlPapersKeeps(store: Store, papers: seq<Paper>, env: Collaborators, id: string)
    requires id in store && ParseChunkId(id).Some?
    requires forall j :: 0 <= j < |papers| ==> papers[j].paperId != ParseChunkId(id).value.0
    ensures id in CrawlPapers(store, papers, env).0
    ensures CrawlPapers(store, papers, env).0[id] == store[id]
    decreases |papers|
  {
    if |papers| > 0 {
      var bs: seq<Batch> := PaperBatches(papers[0], env);
      PaperBatchesOwned(papers[0], env);
      forall t: int, m: int | 0 <= t < |bs| && 0 <= m < |bs[t]|
        ensures bs[t][m].id != id
      {
        assert OwnedBy(papers[0].paperId, bs[t]);
      }
      SubmitAllKeeps(store, bs, env.accepts, id);
      var next := IngestPaper(store, papers[0], env).0;
      assert forall j :: 0 <= j < |papers[1..]| ==> papers[1..][j] == papers[j + 1];
      CrawlPapersKeeps(next, papers[1..], env, id);
      CrawlPapersStep(store, papers, env);
    }
  }

  /**
   * What the paper loop writes stays written: every record of an accepted
   * upsert call of paper `p`, found at position `i`, is in the store after the
   * loop under its id, when no later paper has the same paper id.
   */
  lemma {:induction false} CrawlRetains(store: Store, papers: seq<Paper>, env: Collaborators, i: nat, p: Paper, t: nat, m: nat)
    requires i < |papers| && papers[i] == p
    requires forall j :: i < j < |papers| ==> papers[j].paperId != p.paperId
    requires t < |PaperBatches(p, env)| && env.accepts(PaperBatches(p, env)[t])
    requires m < |PaperBatches(p, env)[t]|
    ensures PaperBatches(p, env)[t][m].id in CrawlPapers(store, papers, env).0
    ensures CrawlPapers(store, papers, env).0[PaperBatches(p, env)[t][m].id] == PaperBatches(p, env)[t][m].entry
    decreases |papers|
  {
    if i == 0 {
      CrawlRetainsFirst(store, papers, env, p, t, m);
    } else {
      var later := papers[1..];
      assert later[i - 1] == p;
      assert forall j :: i - 1 < j < |later| ==> later[j].paperId != p.paperId by {
        assert forall j :: 0 <= j < |later| ==> later[j] == papers[j + 1];
      }
      CrawlPapersStep(store, papers, env);
      CrawlRetains(IngestPaper(store, papers[0], env).0, later, env, i - 1, p, t, m);
    }
  }

  /**
   * The crawl as a whole keeps what it writes: after `crawl_physics_knowledge`,
   * every record of an accepted upsert call of a discovered paper is in the
   * store under its id, when no later discovered paper has the same id.
   */
  lemma {:induction false} CrawlKeepsRecords(kb: KnowledgeBase, results: seq<ArxivResult>, env: Collaborators,
                                             i: nat, p: Paper, t: nat, m: nat)
    requires i < |SearchArxiv(kb.cache, results).0| && SearchArxiv(kb.cache, results).0[i] == p
    requires forall j :: i < j < |SearchArxiv(kb.cache, results).0| ==> SearchArxiv(kb.cache, results).0[j].paperId != p.paperId
    requires t < |PaperBatches(p, env)| && env.accepts(PaperBatches(p, env)[t])
    requires m < |PaperBatches(p, env)[t]|
    ensures PaperBatches(p, env)[t][m].id in CrawlPhysicsKnowledge(kb, results, env).0.store
    ensures CrawlPhysicsKnowledge(kb, results, env).0.store[PaperBatches(p, env)[t][m].id] == PaperBatches(p, env)[t][m].entry
  {
    var papers := SearchArxiv(kb.cache, results).0;
    assert CrawlPhysicsKnowledge(kb, results, env).0.store == CrawlPapers(kb.store, papers, env).0;
    CrawlRetains(kb.store, papers, env, i, p, t, m);
  }

  /** The store after the paper loop is the store the later papers leave after the first one. */
  lemma {:induction false} CrawlPapersStep(store: Store, papers: seq<Paper>, env: Collaborators)
    requires |papers| > 0
    ensures CrawlPapers(store, papers, env).0 == CrawlPapers(IngestPaper(store, papers[0], env).0, papers[1..], env).0
  {
  }

  /** A record of an accepted call of a paper is in the store after that paper, and its id is the paper's. */
  lemma {:induction false} IngestPaperWrites(store: Store, p: Paper, env: Collaborators, t: nat, m: nat)
    requires t < |PaperBatches(p, env)| && env.accepts(PaperBatches(p, env)[t])
    requires m < |PaperBatches(p, env)[t]|
    ensures PaperBatches(p, env)[t][m].id in IngestPaper(store, p, env).0
    ensures IngestPaper(store, p, env).0[PaperBatches(p, env)[t][m].id] == PaperBatches(p, env)[t][m].entry
    ensures ParseChunkId(PaperBatches(p, env)[t][m].id).Some?
    ensures ParseChunkId(PaperBatches(p, env)[t][m].id).value.0 == p.paperId
  {
    var bs: seq<Batch> := PaperBatches(p, env);
    PaperBatchesOwned(p, env);
    assert OwnedBy(p.paperId, bs[t]);
    SubmitAllWrites(store, bs, env.accepts, t, m);
  }

  /** The case of the first paper: its own calls write the record, and no later paper touches it. */
  lemma {:induction false} CrawlRetainsFirst(store: Store, papers: seq<Paper>, env: Collaborators, p: Paper, t: nat, m: nat)
    requires 0 < |papers| && papers[0] == p
    requires forall j :: 0 < j < |papers| ==> papers[j].paperId != p.paperId
    requires t < |PaperBatches(p, env)| && env.accepts(PaperBatches(p, env)[t])
    requires m < |PaperBatches(p, env)[t]|
    ensures PaperBatches(p, env)[t][m].id in CrawlPapers(store, papers, env).0
    ensures CrawlPapers(store, papers, env).0[PaperBatches(p, env)[t][m].id] == PaperBatches(p, env)[t][m].entry
  {
    var r: Record := PaperBatches(p, env)[t][m];
    var next := IngestPaper(store, p, env).0;
    IngestPaperWrites(store, p, env, t, m);
    var later := papers[1..];
    assert forall j :: 0 <= j < |later| ==> later[j].paperId != ParseChunkId(r.id).value.0 by {
      assert forall j :: 0 <= j < |later| ==> later[j] == papers[j + 1];
    }
    CrawlPapersKeeps(next, later, env, r.id);
    CrawlPapersStep(store, papers, env);
  }

  /** When every upsert call fails the store is untouched and the count is 0. */
  lemma {:induction false} AllUpsertsFail(store: Store, batches: seq<Batch>, accepts: Batch -> bool)
    requires forall i :: 0 <= i < |batches| ==> !accepts(batches[i])
    ensures SubmitAll(store, batches, accepts) == store && StoredCount(batches, accepts) == 0
    decreases |batches|
  {
    if |batches| > 0 {
      AllUpsertsFail(store, batches[1..], accepts);
    }
  }

  /**
   * The crawl's outcome: the cache records every discovered paper, the store
   * receives the accepted upsert calls in order, and the returned count is the
   * total size of the accepted calls; with no paper discovered nothing changes
   * and the count is 0.
   */
  lemma {:induction false} CrawlOutcome(kb: KnowledgeBase, results: seq<ArxivResult>, env: Collaborators)
    ensures CrawlPhysicsKnowledge(kb, results, env).0.cache == Remember(kb.cache, SearchArxiv(kb.cache, results).0)
    ensures CrawlPhysicsKnowledge(kb, results, env).0.store ==
      SubmitAll(kb.store, Attempted(SearchArxiv(kb.cache, results).0, env), env.accepts)
    ensures CrawlPhysicsKnowledge(kb, results, env).1 == StoredCount(Attempted(SearchArxiv(kb.cache, results).0, env), env.accepts)
    ensures results == [] ==> CrawlPhysicsKnowledge(kb, results, env) == (kb, 0)
  {
    var papers := SearchArxiv(kb.cache, results).0;
    CrawlPapersSubmits(kb.store, papers, env);
  }

  /**
   * Re-running the crawl with the same discovery results and collaborators
   * leaves the knowledge base exactly as the first run left it, so the store
   * gains no entry, and returns the same count: the ids are the same, so every upsert
   * overwrites what the first run wrote.
   */
  lemma {:induction false} CrawlIdempotent(kb: KnowledgeBase, results: seq<ArxivResult>, env: Collaborators)
    ensures CrawlPhysicsKnowledge(CrawlPhysicsKnowledge(kb, results, env).0, results, env) == CrawlPhysicsKnowledge(kb, results, env)
  {
    var papers := SearchArxiv(kb.cache, results).0;
    var kb1 := CrawlPhysicsKnowledge(kb, results, env).0;
    assert SearchArxiv(kb1.cache, results).0 == papers;
    CrawlOutcome(kb, results, env);
    CrawlOutcome(kb1, results, env);
    RememberIdempotent(kb.cache, papers);
    SubmitAllIdempotent(kb.store, Attempted(papers, env), env.accepts);
  }
}
