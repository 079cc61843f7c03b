/** `text_processor.py`: keeping the non-blank paragraphs of a converted document, joining
    them into the document text, and cutting a paragraph list into overlapping windows.
    The PDF-to-DOCX conversion and the DOCX reader are outside the model: the paragraph
    texts they produce are the input here. */
module TextProcessor {
  import opened Seqs
  import opened Text

  /** `paragraph.text.strip()` is truthy. */
  predicate NonBlank(paragraph: string) {
    Strip(paragraph) != ""
  }

  /** A paragraph is kept exactly when it has a character that is not whitespace. */
  lemma NonBlankIff(paragraph: string)
    ensures NonBlank(paragraph) <==> exists k :: 0 <= k < |paragraph| && !IsSpace(paragraph[k])
  {
    StripEmptyIffBlank(paragraph);
  }

  /** The loop of `read_document_paragraphs` over the document's paragraph texts:
      append each paragraph, unstripped, whose stripped text is non-empty. */
  method ReadDocumentParagraphs(documentParagraphs: seq<string>) returns (paragraphs: seq<string>)
    ensures paragraphs == Filter(documentParagraphs, NonBlank)
  {
    paragraphs := [];
    var i := 0;
    while i < |documentParagraphs|
      invariant 0 <= i <= |documentParagraphs|
      invariant paragraphs == Filter(documentParagraphs[..i], NonBlank)
    {
      var paragraph := documentParagraphs[i];
      assert documentParagraphs[..i + 1][..i] == documentParagraphs[..i];
      if Strip(paragraph) != "" {
        paragraphs := paragraphs + [paragraph];
      }
      i := i + 1;
    }
    assert documentParagraphs[..i] == documentParagraphs;
  }

  /** The text of the kept paragraphs is empty exactly when no paragraph was kept. */
  lemma {:induction false} KeptTextEmptyIff(paragraphs: seq<string>)
    requires forall k :: 0 <= k < |paragraphs| ==> NonBlank(paragraphs[k])
    ensures Join(" ", paragraphs) == "" <==> paragraphs == []
  {
    if paragraphs != [] {
      assert paragraphs[0] != "";
      if |paragraphs| > 1 {
        assert Join(" ", paragraphs) == paragraphs[0] + " " + Join(" ", paragraphs[1..]);
      }
    }
  }

  /** `extract_text_from_pdf` after the conversion: the kept paragraphs and their
      space-separated text. */
  method ExtractTextFromPdf(documentParagraphs: seq<string>) returns (pdfText: string, paragraphs: seq<string>)
    ensures paragraphs == Filter(documentParagraphs, NonBlank)
    ensures pdfText == Join(" ", paragraphs)
    ensures pdfText == "" <==> paragraphs == []
  {
    paragraphs := ReadDocumentParagraphs(documentParagraphs);
    pdfText := Join(" ", paragraphs);
    KeptTextEmptyIff(paragraphs);
  }

  /** A window of the paragraph list: the paragraphs at indices `lo` to `hi - 1`. */
  datatype Window = Window(lo: nat, hi: nat)

  /** The windows `get_chunks` takes from `start_idx == start` on, over `n` paragraphs:
      full windows while `start + size <= n`, stepping by `step`, then exactly one
      trailing window over what is left (empty when nothing is; a start past the end
      leaves nothing, as Python's slicing does). */
  function WindowsFrom(start: nat, n: nat, size: nat, step: nat): (w: seq<Window>)
    requires 1 <= size && 1 <= step
    ensures |w| >= 1
    ensures forall j :: 0 <= j < |w| ==> w[j].lo <= w[j].hi <= n
    decreases n - start
  {
    if start + size <= n then [Window(start, start + size)] + WindowsFrom(start + step, n, size, step)
    else [Window(if start <= n then start else n, n)]
  }

  /** The windows of `get_chunks(paragraphs, chunk_size, overlap_size)` for `n` paragraphs. */
  function Windows(n: nat, chunkSize: nat, overlapSize: int): seq<Window>
    requires 1 <= chunkSize && overlapSize < chunkSize
  {
    WindowsFrom(0, n, chunkSize, chunkSize - overlapSize)
  }

  /** `" ".join(paragraphs[lo:hi])` for each window. */
  function ChunkTexts(paragraphs: seq<string>, windows: seq<Window>): (r: seq<string>)
    requires forall j :: 0 <= j < |windows| ==> windows[j].lo <= windows[j].hi <= |paragraphs|
    ensures |r| == |windows|
  {
    seq(|windows|, j requires 0 <= j < |windows| => Join(" ", paragraphs[windows[j].lo..windows[j].hi]))
  }

  /** One more window adds its chunk at the end. */
  lemma ChunkTextsAppend(paragraphs: seq<string>, windows: seq<Window>, w: Window)
    requires forall j :: 0 <= j < |windows| ==> windows[j].lo <= windows[j].hi <= |paragraphs|
    requires w.lo <= w.hi <= |paragraphs|
    ensures ChunkTexts(paragraphs, windows + [w]) ==
      ChunkTexts(paragraphs, windows) + [Join(" ", paragraphs[w.lo..w.hi])]
  {
  }

  /** `get_chunks`: the `while ... else` loop that emits the full windows and then always
      one trailing chunk. The loop terminates because each step advances `start_idx`. */
  method GetChunks(paragraphs: seq<string>, chunkSize: int, overlapSize: int) returns (chunks: seq<string>)
    requires 1 <= chunkSize && overlapSize < chunkSize
    ensures chunks == ChunkTexts(paragraphs, Windows(|paragraphs|, chunkSize, overlapSize))
  {
    var n := |paragraphs|;
    var step := chunkSize - overlapSize;
    chunks := [];
    var startIdx := 0;
    ghost var done: seq<Window> := [];
    while startIdx + chunkSize <= n
      invariant 0 <= startIdx
      invariant |chunks| == |done|
      invariant forall j :: 0 <= j < |done| ==> done[j].lo <= done[j].hi <= n
      invariant chunks == ChunkTexts(paragraphs, done)
      invariant Windows(n, chunkSize, overlapSize) == done + WindowsFrom(startIdx, n, chunkSize, step)
      decreases n - startIdx
    {
      var endIdx := startIdx + chunkSize;
      var chunk := Join(" ", paragraphs[startIdx..endIdx]);
      ghost var later := WindowsFrom(startIdx + step, n, chunkSize, step);
      assert WindowsFrom(startIdx, n, chunkSize, step) == [Window(startIdx, endIdx)] + later;
      assert done + ([Window(startIdx, endIdx)] + later) == (done + [Window(startIdx, endIdx)]) + later;
      ChunkTextsAppend(paragraphs, done, Window(startIdx, endIdx));
      chunks := chunks + [chunk];
      done := done + [Window(startIdx, endIdx)];
      startIdx := startIdx + step;
    }
    var rest := if startIdx <= n then paragraphs[startIdx..] else [];
    var trailing := Window(if startIdx <= n then startIdx else n, n);
    assert WindowsFrom(startIdx, n, chunkSize, step) == [trailing];
    assert rest == paragraphs[trailing.lo..trailing.hi];
    ChunkTextsAppend(paragraphs, done, trailing);
    chunks := chunks + [Join(" ", rest)];
    done := done + [trailing];
  }

  /** `w` tiles the paragraphs from `start` to `n`: every window but the last has `size`
      paragraphs and the next one starts `step` later; the last one ends at `n` and is
      shorter than `size`. */
  ghost predicate Tiled(w: seq<Window>, start: nat, n: nat, size: nat, step: nat) {
    && |w| >= 1
    && w[0].lo == start
    && w[|w| - 1].hi == n
    && w[|w| - 1].lo <= n < w[|w| - 1].lo + size
    && forall j :: 0 <= j < |w| - 1 ==> w[j].hi == w[j].lo + size && w[j + 1].lo == w[j].lo + step
  }

  /** With a step no larger than the window size, the windows tile the paragraphs. */
  lemma {:induction false} WindowsFromTiled(start: nat, n: nat, size: nat, step: nat)
    requires 1 <= step <= size && start <= n
    ensures Tiled(WindowsFrom(start, n, size, step), start, n, size, step)
    decreases n - start
  {
    if start + size <= n {
      WindowsFromTiled(start + step, n, size, step);
      var rest := WindowsFrom(start + step, n, size, step);
      var w := [Window(start, start + size)] + rest;
      assert forall j :: 1 <= j < |w| ==> w[j] == rest[j - 1];
    }
  }

  /** Paragraph `i` lies in one of the windows `w`. */
  ghost predicate Covered(w: seq<Window>, i: nat) {
    exists j :: 0 <= j < |w| && w[j].lo <= i < w[j].hi
  }

  /** Tiling windows cover every paragraph index from `start` to `n`. */
  lemma {:induction false} TiledCovers(w: seq<Window>, start: nat, n: nat, size: nat, step: nat)
    requires 1 <= step <= size && Tiled(w, start, n, size, step)
    ensures forall i: nat :: start <= i < n ==> Covered(w, i)
    decreases |w|
  {
    if |w| == 1 {
      forall i: nat | start <= i < n ensures Covered(w, i) {
        assert w[0].lo <= i < w[0].hi;
      }
    } else {
      var rest := w[1..];
      assert forall j :: 0 <= j < |rest| ==> rest[j] == w[j + 1];
      TiledCovers(rest, w[1].lo, n, size, step);
      forall i: nat | start <= i < n ensures Covered(w, i) {
        if i < w[0].hi {
          assert w[0].lo <= i < w[0].hi;
        } else {
          assert Covered(rest, i);
          var j :| 0 <= j < |rest| && rest[j].lo <= i < rest[j].hi;
          assert w[j + 1] == rest[j];
        }
      }
    }
  }

  /** Tiling windows start at `start`, `start + step`, `start + 2 * step`, ... */
  lemma {:induction false} TiledStarts(w: seq<Window>, start: nat, n: nat, size: nat, step: nat, j: nat)
    requires Tiled(w, start, n, size, step) && j < |w|
    ensures w[j].lo == start + j * step
  {
    if j > 0 {
      TiledStarts(w, start, n, size, step, j - 1);
      assert (j - 1) * step + step == j * step;
    }
  }

  /** The shape of `get_chunks`' windows for `0 <= overlap_size < chunk_size`: window `j`
      starts at `j * (chunk_size - overlap_size)`; every window but the last has
      `chunk_size` paragraphs and shares exactly `overlap_size` of them with the next one;
      the last ends at the end of the list and is shorter than `chunk_size`; and every
      paragraph is in some window. */
  lemma WindowsShape(n: nat, chunkSize: nat, overlapSize: int)
    requires 0 <= overlapSize < chunkSize
    ensures var w := Windows(n, chunkSize, overlapSize);
      && |w| >= 1
      && (forall j :: 0 <= j < |w| ==> w[j].lo == j * (chunkSize - overlapSize))
      && (forall j :: 0 <= j < |w| - 1 ==>
            w[j].hi - w[j].lo == chunkSize && w[j + 1].lo == w[j].hi - overlapSize)
      && w[|w| - 1].hi == n && w[|w| - 1].hi - w[|w| - 1].lo < chunkSize
      && (forall i: nat :: i < n ==> Covered(w, i))
  {
    var step := chunkSize - overlapSize;
    var w := Windows(n, chunkSize, overlapSize);
    WindowsFromTiled(0, n, chunkSize, step);
    TiledCovers(w, 0, n, chunkSize, step);
    forall j | 0 <= j < |w| ensures w[j].lo == j * step {
      TiledStarts(w, 0, n, chunkSize, step, j);
    }
  }

  /** Integer division by `d` drops by one when `d` is taken off a number of at least `d`. */
  lemma DivStep(x: int, d: int)
    requires 1 <= d <= x
    ensures (x - d) / d == x / d - 1
  {
    var q, r := (x - d) / d, (x - d) % d;
    assert x == (q + 1) * d + r;
    DivUnique(x, d, q + 1, r);
  }

  /** A quotient is determined by any quotient-remainder decomposition. */
  lemma DivUnique(y: int, d: int, q: int, r: int)
    requires 0 <= r < d && y == q * d + r
    ensures y / d == q
  {
    var q', r' := y / d, y % d;
    assert y == q' * d + r' && 0 <= r' < d;
    if q' < q {
      MulMono(q' + 1, q, d);
    } else if q < q' {
      MulMono(q + 1, q', d);
    }
  }

  lemma MulMono(a: int, b: int, d: int)
    requires a <= b && 0 <= d
    ensures a * d <= b * d
  {
    assert b * d - a * d == (b - a) * d;
  }

  /** The number of windows from `start`. */
  lemma {:induction false} WindowsFromCount(start: nat, n: nat, size: nat, step: nat)
    requires 1 <= size && 1 <= step
    ensures |WindowsFrom(start, n, size, step)| ==
      if start + size <= n then (n - size - start) / step + 2 else 1
    decreases n - start
  {
    if start + size <= n {
      WindowsFromCount(start + step, n, size, step);
      var x := n - size - start;
      if start + step + size <= n {
        DivStep(x, step);
        assert n - size - (start + step) == x - step;
      } else {
        assert 0 <= x < step;
      }
    }
  }

  /** `get_chunks` returns `k + 1` chunks: `k` full windows, where
      `k == (n - chunk_size) / (chunk_size - overlap_size) + 1` when there are at least
      `chunk_size` paragraphs and `k == 0` otherwise, plus the trailing one. */
  lemma ChunkCount(n: nat, chunkSize: nat, overlapSize: int)
    requires 1 <= chunkSize && overlapSize < chunkSize
    ensures |Windows(n, chunkSize, overlapSize)| ==
      (if n >= chunkSize then (n - chunkSize) / (chunkSize - overlapSize) + 1 else 0) + 1
  {
    WindowsFromCount(0, n, chunkSize, chunkSize - overlapSize);
  }

  /** With no paragraphs, `get_chunks` returns one empty chunk. */
  lemma NoParagraphsOneEmptyChunk(chunkSize: nat, overlapSize: int)
    requires 1 <= chunkSize && overlapSize < chunkSize
    ensures ChunkTexts([], Windows(0, chunkSize, overlapSize)) == [""]
  {
    assert Windows(0, chunkSize, overlapSize) == [Window(0, 0)];
  }

  /** Without overlap and with a multiple of `chunk_size` paragraphs, the trailing chunk
      is empty: the loop stops exactly at the end of the list. */
  lemma TrailingEmptyOnExactFit(n: nat, chunkSize: nat)
    requires 1 <= chunkSize && n % chunkSize == 0
    ensures var w := Windows(n, chunkSize, 0);
      w[|w| - 1].lo == w[|w| - 1].hi == n
  {
    WindowsShape(n, chunkSize, 0);
    ChunkCount(n, chunkSize, 0);
    var w := Windows(n, chunkSize, 0);
    if n >= chunkSize {
      DivStep(n, chunkSize);
      assert |w| - 1 == n / chunkSize;
    }
    assert w[|w| - 1].lo == (|w| - 1) * chunkSize;
  }

  /** With the defaults (10 paragraphs, overlap 2) and 25 paragraphs, full windows start at
      0 and 8 and the trailing chunk starts at 16: three chunks. */
  lemma DefaultWindowsOf25(n: nat, chunkSize: nat, overlapSize: int)
    requires n == 25 && chunkSize == 10 && overlapSize == 2
    ensures Windows(n, chunkSize, overlapSize) == [Window(0, 10), Window(8, 18), Window(16, 25)]
  {
    assert WindowsFrom(16, 25, 10, 8) == [Window(16, 25)];
    assert WindowsFrom(8, 25, 10, 8) == [Window(8, 18), Window(16, 25)];
  }
}
