/**
 * The deterministic entry ids of the crawl: `{paper_id}_chunk_{k}` for paper
 * chunks, `{paper_id}_github_readme_{k}` for README chunks and
 * `{paper_id}_github_requirements` for the requirements file. Because an id can
 * be parsed back into the paper id and the category, no two distinct
 * (paper, category, index) triples share an id; re-ingesting a paper therefore
 * overwrites its entries and never collides with another paper's.
 */
module ChunkIds {
  import opened Wrappers
  import opened Text

  /** What an id names within a paper: the k-th paper chunk, the k-th README chunk, or the requirements file. */
  datatype Category = PaperChunk(index: nat) | ReadmeChunk(index: nat) | Requirements

  const ChunkInfix := "_chunk_"
  const ReadmeInfix := "_github_readme_"
  const RequirementsSuffix := "_github_requirements"

  /** The id under which the crawl stores the entry of `category` for paper `paperId`. */
  function ChunkId(paperId: string, category: Category): string {
    match category
    case PaperChunk(k) => paperId + ChunkInfix + NatToString(k)
    case ReadmeChunk(k) => paperId + ReadmeInfix + NatToString(k)
    case Requirements => paperId + RequirementsSuffix
  }

  /**
   * Reads an id back into its paper id and category, from the right. An index
   * with leading zeros is read too, although the crawl never builds one, so
   * the lemmas about the crawl's batches state each id's exact text as well.
   */
  function ParseChunkId(id: string): Option<(string, Category)> {
    if EndsWith(id, RequirementsSuffix) then Some((id[..|id| - |RequirementsSuffix|], Requirements))
    else
      var n := DigitSuffixLength(id);
      if n == 0 then None
      else
        var head := id[..|id| - n];
        var index := ParseNat(id[|id| - n..]);
        if EndsWith(head, ChunkInfix) then Some((head[..|head| - |ChunkInfix|], PaperChunk(index)))
        else if EndsWith(head, ReadmeInfix) then Some((head[..|head| - |ReadmeInfix|], ReadmeChunk(index)))
        else None
  }

  lemma {:induction false} IndexedIdParts(paperId: string, infix: string, k: nat)
    requires |infix| > 0 && infix[|infix| - 1] == '_'
    ensures var head := paperId + infix;
      var digits := NatToString(k);
      var id := head + digits;
      && DigitSuffixLength(id) == |digits|
      && id[..|id| - |digits|] == head
      && id[|id| - |digits|..] == digits
      && ParseNat(digits) == k
      && !EndsWith(id, RequirementsSuffix)
  {
    var head := paperId + infix;
    var digits := NatToString(k);
    var id := head + digits;
    assert head[|head| - 1] == '_';
    DigitSuffixOf(head, digits);
    EndsWithAppend(head, digits);
    ParseNatToString(k);
    assert id[|id| - 1] == digits[|digits| - 1];
    MismatchNotEndsWith(id, RequirementsSuffix, |RequirementsSuffix| - 1);
  }

  /** Parsing an id gives back the paper id and category it was built from. */
  lemma {:induction false} ParseChunkIdRoundTrip(paperId: string, category: Category)
    ensures ParseChunkId(ChunkId(paperId, category)) == Some((paperId, category))
  {
    match category
    case PaperChunk(k) =>
      IndexedIdParts(paperId, ChunkInfix, k);
      EndsWithAppend(paperId, ChunkInfix);
    case ReadmeChunk(k) =>
      IndexedIdParts(paperId, ReadmeInfix, k);
      EndsWithAppend(paperId, ReadmeInfix);
      var head := paperId + ReadmeInfix;
      assert head[|head| - |ChunkInfix|] == 'r';
      MismatchNotEndsWith(head, ChunkInfix, 0);
    case Requirements =>
      EndsWithAppend(paperId, RequirementsSuffix);
  }

  /** Two ids coincide exactly when they name the same category of the same paper. */
  lemma {:induction false} ChunkIdInjective(p1: string, c1: Category, p2: string, c2: Category)
    ensures ChunkId(p1, c1) == ChunkId(p2, c2) <==> p1 == p2 && c1 == c2
  {
    ParseChunkIdRoundTrip(p1, c1);
    ParseChunkIdRoundTrip(p2, c2);
  }
}
