/**
 * The word chunker of `read_paper` (and of the README ingestion, which repeats
 * the same loop): every page is split on whitespace, cut into consecutive
 * windows of `chunk_size` words, each window re-joined with single spaces and
 * tagged with the page's 1-based number.
 */
module Chunker {
  import opened Text

  /** `chunk_size` default of `read_paper`, the value the crawl uses. */
  const DefaultChunkSize := 500

  /** A chunk of text and the page it came from (1-based; 0 for non-paged text). */
  datatype Chunk = Chunk(text: string, page: int)

  /**
   * `[words[i:i + size] for i in range(0, len(words), size)]`: consecutive,
   * non-overlapping windows covering the words in order.
   */
  function Windows(words: seq<string>, size: int): (ws: seq<seq<string>>)
    requires size > 0
    ensures Flatten(ws) == words
    ensures forall i :: 0 <= i < |ws| ==> 1 <= |ws[i]| <= size
    ensures forall i :: 0 <= i < |ws| - 1 ==> |ws[i]| == size
    ensures AllWords(words) ==> forall i :: 0 <= i < |ws| ==> AllWords(ws[i])
    decreases |words|
  {
    if |words| == 0 then []
    else if |words| <= size then
      assert Flatten([words]) == words + Flatten([words][1..]);
      [words]
    else
      var rest := Windows(words[size..], size);
      assert Flatten([words[..size]] + rest) == words[..size] + Flatten(rest) by {
        assert ([words[..size]] + rest)[1..] == rest;
      }
      assert words == words[..size] + words[size..];
      [words[..size]] + rest
  }

  /**
   * The number of windows is the word count divided by the window size,
   * rounded up: `size` words per window are not enough for one window fewer.
   */
  lemma {:induction false} WindowCount(words: seq<string>, size: int)
    requires size > 0
    ensures |Windows(words, size)| * size - size < |words| <= |Windows(words, size)| * size
    decreases |words|
  {
    if |words| > size {
      var m := |Windows(words[size..], size)|;
      assert |Windows(words, size)| == m + 1 by {
        assert Windows(words, size) == [words[..size]] + Windows(words[size..], size);
      }
      WindowCount(words[size..], size);
      MulSucc(m, size);
    }
  }

  lemma {:induction false} MulSucc(m: int, size: int)
    ensures (m + 1) * size == m * size + size
  {
  }

  /**
   * The chunks built from one page's windows: a window becomes a chunk tagged
   * `page` when its joined text is not blank (the `chunk_text.strip()` test).
   */
  function WindowChunks(windows: seq<seq<string>>, page: int): seq<Chunk> {
    if |windows| == 0 then []
    else
      var text := JoinWords(windows[0]);
      (if Blank(text) then [] else [Chunk(text, page)]) + WindowChunks(windows[1..], page)
  }

  /** The chunks of one page, `pageIndex` counting from 0 as `range(len(doc))` does. */
  function ChunkPage(text: string, pageIndex: nat, chunkSize: int): seq<Chunk>
    requires chunkSize > 0
  {
    if Blank(text) then [] else WindowChunks(Windows(Split(text), chunkSize), pageIndex + 1)
  }

  /** The chunks of all pages, in page order. */
  function ChunkPages(pages: seq<string>, chunkSize: int): seq<Chunk>
    requires chunkSize > 0
    decreases |pages|
  {
    if |pages| == 0 then []
    else ChunkPages(pages[..|pages| - 1], chunkSize) + ChunkPage(pages[|pages| - 1], |pages| - 1, chunkSize)
  }

  /**
   * `read_paper` applied to the page texts the PDF reader extracted (an empty
   * sequence when the download or the parse failed). A non-positive
   * `chunk_size` yields nothing: a zero step makes `range` raise on the first
   * non-blank page, which the catch-all handler turns into the empty list
   * gathered so far, and a negative step gives an empty range.
   */
  function ReadPaper(pages: seq<string>, chunkSize: int): seq<Chunk> {
    if chunkSize <= 0 then [] else ChunkPages(pages, chunkSize)
  }

  // ---------------------------------------------------------------------------
  // Words carried by chunks
  // ---------------------------------------------------------------------------

  /** The words of the chunks, chunk after chunk. */
  function ChunkWords(cs: seq<Chunk>): seq<string> {
    if |cs| == 0 then [] else Split(cs[0].text) + ChunkWords(cs[1..])
  }

  /** The words of the pages, page after page. */
  function PageWords(pages: seq<string>): seq<string>
    decreases |pages|
  {
    if |pages| == 0 then [] else PageWords(pages[..|pages| - 1]) + Split(pages[|pages| - 1])
  }

  lemma {:induction false} ChunkWordsAppend(a: seq<Chunk>, b: seq<Chunk>)
    ensures ChunkWords(a + b) == ChunkWords(a) + ChunkWords(b)
    decreases |a|
  {
    if |a| == 0 {
      assert a + b == b;
    } else {
      assert (a + b)[1..] == a[1..] + b;
      ChunkWordsAppend(a[1..], b);
    }
  }

  /** Windows of genuine words are never blank, so every window becomes exactly one chunk. */
  lemma {:induction false} WindowChunksKeepAll(windows: seq<seq<string>>, page: int)
    requires forall i :: 0 <= i < |windows| ==> |windows[i]| > 0 && AllWords(windows[i])
    ensures |WindowChunks(windows, page)| == |windows|
    ensures forall i :: 0 <= i < |windows| ==>
      WindowChunks(windows, page)[i] == Chunk(JoinWords(windows[i]), page)
    ensures ChunkWords(WindowChunks(windows, page)) == Flatten(windows)
    decreases |windows|
  {
    if |windows| > 0 {
      var text := JoinWords(windows[0]);
      SplitJoinWords(windows[0]);
      BlankIffNoWords(text);
      WindowChunksKeepAll(windows[1..], page);
      var cs := WindowChunks(windows, page);
      assert cs == [Chunk(text, page)] + WindowChunks(windows[1..], page);
      assert cs[1..] == WindowChunks(windows[1..], page);
    }
  }

  /**
   * One page: a blank page yields no chunk; otherwise every chunk carries the
   * 1-based page number and between 1 and `chunkSize` words, and every chunk
   * but the last exactly `chunkSize`.
   */
  lemma {:induction false} ChunkPageShape(text: string, pageIndex: nat, chunkSize: int)
    requires chunkSize > 0
    ensures Blank(text) ==> ChunkPage(text, pageIndex, chunkSize) == []
    ensures forall i :: 0 <= i < |ChunkPage(text, pageIndex, chunkSize)| ==>
      ChunkPage(text, pageIndex, chunkSize)[i].page == pageIndex + 1
    ensures forall i :: 0 <= i < |ChunkPage(text, pageIndex, chunkSize)| ==>
      1 <= |Split(ChunkPage(text, pageIndex, chunkSize)[i].text)| <= chunkSize
    ensures forall i :: 0 <= i < |ChunkPage(text, pageIndex, chunkSize)| - 1 ==>
      |Split(ChunkPage(text, pageIndex, chunkSize)[i].text)| == chunkSize
  {
    if !Blank(text) {
      SplitAllWords(text);
      var ws := Windows(Split(text), chunkSize);
      WindowChunksKeepAll(ws, pageIndex + 1);
      forall i | 0 <= i < |ws|
        ensures Split(JoinWords(ws[i])) == ws[i]
      {
        SplitJoinWords(ws[i]);
      }
    }
  }

  /**
   * One page: the chunks' words are the page's words, and there are as many
   * chunks as `chunkSize`-word windows needed to hold them.
   */
  lemma {:induction false} ChunkPageWords(text: string, pageIndex: nat, chunkSize: int)
    requires chunkSize > 0
    ensures ChunkWords(ChunkPage(text, pageIndex, chunkSize)) == Split(text)
    ensures |ChunkPage(text, pageIndex, chunkSize)| * chunkSize - chunkSize < |Split(text)|
    ensures |Split(text)| <= |ChunkPage(text, pageIndex, chunkSize)| * chunkSize
  {
    var words := Split(text);
    BlankIffNoWords(text);
    WindowCount(words, chunkSize);
    if !Blank(text) {
      SplitAllWords(text);
      WindowChunksKeepAll(Windows(words, chunkSize), pageIndex + 1);
    }
  }

  /** Every chunk carries a page number in `1..pageCount`, in non-decreasing order, and 1 to `chunkSize` words. */
  ghost predicate WellTagged(cs: seq<Chunk>, pageCount: int, chunkSize: int) {
    && (forall i :: 0 <= i < |cs| ==> 1 <= cs[i].page <= pageCount)
    && (forall i, j :: 0 <= i <= j < |cs| ==> cs[i].page <= cs[j].page)
    && (forall i :: 0 <= i < |cs| ==> 1 <= |Split(cs[i].text)| <= chunkSize)
  }

  lemma {:induction false} WellTaggedAppend(a: seq<Chunk>, b: seq<Chunk>, page: int, chunkSize: int)
    requires WellTagged(a, page - 1, chunkSize)
    requires forall i :: 0 <= i < |b| ==> b[i].page == page && 1 <= |Split(b[i].text)| <= chunkSize
    requires page >= 1
    ensures WellTagged(a + b, page, chunkSize)
  {
    var cs := a + b;
    assert forall i :: 0 <= i < |a| ==> cs[i] == a[i];
    assert forall i :: |a| <= i < |cs| ==> cs[i] == b[i - |a|];
  }

  /**
   * The whole document: every chunk is tagged with the number of an extracted
   * page, page numbers never decrease, and each chunk holds between 1 and
   * `chunkSize` words.
   */
  lemma {:induction false} ChunkPagesShape(pages: seq<string>, chunkSize: int)
    requires chunkSize > 0
    ensures WellTagged(ChunkPages(pages, chunkSize), |pages|, chunkSize)
    decreases |pages|
  {
    if |pages| > 0 {
      var init := pages[..|pages| - 1];
      ChunkPagesShape(init, chunkSize);
      ChunkPageShape(pages[|pages| - 1], |pages| - 1, chunkSize);
      WellTaggedAppend(ChunkPages(init, chunkSize), ChunkPage(pages[|pages| - 1], |pages| - 1, chunkSize), |pages|, chunkSize);
    }
  }

  /**
   * The chunks' words are exactly the pages' words in page order: none lost,
   * duplicated or reordered.
   */
  lemma {:induction false} ChunkPagesWords(pages: seq<string>, chunkSize: int)
    requires chunkSize > 0
    ensures ChunkWords(ChunkPages(pages, chunkSize)) == PageWords(pages)
    decreases |pages|
  {
    if |pages| > 0 {
      var init := pages[..|pages| - 1];
      ChunkPagesWords(init, chunkSize);
      ChunkPageWords(pages[|pages| - 1], |pages| - 1, chunkSize);
      ChunkWordsAppend(ChunkPages(init, chunkSize), ChunkPage(pages[|pages| - 1], |pages| - 1, chunkSize));
    }
  }

  /** `read_paper` yields nothing exactly when `chunk_size` is not positive or every page is blank. */
  lemma {:induction false} ReadPaperEmpty(pages: seq<string>, chunkSize: int)
    ensures ReadPaper(pages, chunkSize) == [] <==>
      chunkSize <= 0 || forall i :: 0 <= i < |pages| ==> Blank(pages[i])
    decreases |pages|
  {
    if chunkSize > 0 && |pages| > 0 {
      var init := pages[..|pages| - 1];
      ReadPaperEmpty(init, chunkSize);
      ChunkPageWords(pages[|pages| - 1], |pages| - 1, chunkSize);
      BlankIffNoWords(pages[|pages| - 1]);
      assert forall i :: 0 <= i < |init| ==> init[i] == pages[i];
      var b := ChunkPage(pages[|pages| - 1], |pages| - 1, chunkSize);
      assert b == [] <==> Blank(pages[|pages| - 1]) by {
        if b == [] { assert ChunkWords(b) == []; }
      }
    }
  }
}
