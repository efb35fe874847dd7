/** The document utilities of the upload service: `chunk_text`, the
    sliding-window word chunker, and `extract_text_from_file`, which turns a
    stored `.txt` or `.pdf` file into one string. Reading the file and
    PyMuPDF's page extraction are foreign calls; their results are
    parameters here. */
module Utils {
  import opened PyBuiltins

  /** Defaults of `chunk_text`'s parameters (also the values the upload
      endpoint passes). */
  const DefaultChunkSize: int := 500
  const DefaultOverlap: int := 50

  /** The exceptions the utilities raise. Both are Python `ValueError`s:
      `range()` raises the first when its step is zero, and
      `extract_text_from_file` raises the second for a path that is neither
      `.txt` nor `.pdf`. */
  datatype Error = RangeStepZero | UnsupportedFileType

  /** The message each `ValueError` carries. */
  function Message(e: Error): string
  {
    match e
    case RangeStepZero => "range() arg 3 must not be zero"
    case UnsupportedFileType => "Unsupported file type for text extraction."
  }

  /** A value, or the exception raised instead of returning one. */
  datatype Result<T> = Success(value: T) | Failure(error: Error)

  // =====================================================================
  // chunk_text
  // =====================================================================

  /** `words[start:start + chunkSize]`: the words of the window that starts
      at `start`. */
  function Window<T>(words: seq<T>, start: int, chunkSize: int): seq<T>
  {
    Slice(words, start, start + chunkSize)
  }

  /** The windows the loop visits, for the start positions `start`,
      `start + step`, ... below `|words|`. */
  function WindowsFrom<T>(words: seq<T>, chunkSize: int, step: int, start: nat): seq<seq<T>>
    requires step > 0
    decreases |words| - start
  {
    if start >= |words| then []
    else [Window(words, start, chunkSize)] + WindowsFrom(words, chunkSize, step, start + step)
  }

  /** Each window joined with single spaces, in order. */
  function JoinEach(windows: seq<seq<string>>): (chunks: seq<string>)
    ensures |chunks| == |windows|
  {
    if windows == [] then [] else [JoinWords(windows[0])] + JoinEach(windows[1..])
  }

  /** Chunk `k` is window `k` joined. */
  lemma {:induction false} JoinEachAt(windows: seq<seq<string>>, k: nat)
    requires k < |windows|
    ensures JoinEach(windows)[k] == JoinWords(windows[k])
    decreases k
  {
    if k > 0 {
      JoinEachAt(windows[1..], k - 1);
    }
  }

  /** What `chunk_text(text, chunkSize, overlap)` returns or raises.
      `range(0, n, step)` raises for a zero step, is empty for a negative
      one (as `n` is never negative), and otherwise yields
      `0, step, 2*step, ...` below `n`. */
  function Chunks(text: string, chunkSize: int, overlap: int): Result<seq<string>>
  {
    var words := Split(text);
    var step := chunkSize - overlap;
    if step == 0 then Failure(RangeStepZero)
    else if step < 0 then Success([])
    else Success(JoinEach(WindowsFrom(words, chunkSize, step, 0)))
  }

  /** `chunk_text`: split the text into words, then append one joined window
      per start position of `range(0, len(words), chunk_size - overlap)`. */
  method ChunkText(text: string, chunkSize: int := DefaultChunkSize, overlap: int := DefaultOverlap)
    returns (r: Result<seq<string>>)
    ensures r == Chunks(text, chunkSize, overlap)
  {
    var words := Split(text);
    var step := chunkSize - overlap;
    if step == 0 {
      return Failure(RangeStepZero);
    }
    if step < 0 {
      return Success([]);
    }
    var chunks: seq<string> := [];
    var i: nat := 0;
    ghost var all := JoinEach(WindowsFrom(words, chunkSize, step, 0));
    while i < |words|
      invariant chunks + JoinEach(WindowsFrom(words, chunkSize, step, i)) == all
      decreases |words| - i
    {
      var chunk := JoinWords(Slice(words, i, i + chunkSize));
      ChunkStep(chunks, words, chunkSize, step, i, all);
      chunks := chunks + [chunk];
      i := i + step;
    }
    LoopDone(chunks, words, chunkSize, step, i, all);
    return Success(chunks);
  }

  /** `chunk_text` raises exactly when `overlap == chunkSize` (the step of
      `range` is zero), and the exception is that ValueError, with its
      message; an overlap larger than the chunk size gives no chunks at all,
      whatever the text. */
  lemma ChunkErrors(text: string, chunkSize: int, overlap: int)
    ensures Chunks(text, chunkSize, overlap).Failure? <==> overlap == chunkSize
    ensures Chunks(text, chunkSize, overlap).Failure? ==>
              && Chunks(text, chunkSize, overlap).error == RangeStepZero
              && Message(Chunks(text, chunkSize, overlap).error) == "range() arg 3 must not be zero"
    ensures overlap > chunkSize ==> Chunks(text, chunkSize, overlap) == Success([])
  {
  }

  /** One step of the loop: the chunks from `start` on are the chunk at
      `start` followed by the chunks from `start + step` on, so appending the
      chunk at `start` keeps the loop invariant. */
  lemma ChunkStep(chunks: seq<string>, words: seq<string>, chunkSize: int, step: int, start: nat,
                  all: seq<string>)
    requires step > 0 && start < |words|
    requires chunks + JoinEach(WindowsFrom(words, chunkSize, step, start)) == all
    ensures (chunks + [JoinWords(Slice(words, start, start + chunkSize))])
            + JoinEach(WindowsFrom(words, chunkSize, step, start + step)) == all
  {
    var rest := WindowsFrom(words, chunkSize, step, start + step);
    var w := Window(words, start, chunkSize);
    assert WindowsFrom(words, chunkSize, step, start) == [w] + rest;
    assert ([w] + rest)[1..] == rest;
    assert JoinEach([w] + rest) == [JoinWords(w)] + JoinEach(rest);
    AppendAssoc(chunks, [JoinWords(w)], JoinEach(rest));
  }

  /** When the loop stops, the chunks built are all of them. */
  lemma LoopDone(chunks: seq<string>, words: seq<string>, chunkSize: int, step: int, start: nat,
                 all: seq<string>)
    requires step > 0 && start >= |words|
    requires chunks + JoinEach(WindowsFrom(words, chunkSize, step, start)) == all
    ensures chunks == all
  {
    assert WindowsFrom(words, chunkSize, step, start) == [];
    assert chunks + JoinEach([]) == chunks;
  }

  lemma AppendAssoc<T>(a: seq<T>, b: seq<T>, c: seq<T>)
    ensures a + (b + c) == (a + b) + c
  {
  }

  /** `ceil(m / d)` for a positive divisor, zero for `m <= 0`. */
  function CeilDiv(m: int, d: int): nat
    requires d > 0
    decreases m
  {
    if m <= 0 then 0 else 1 + CeilDiv(m - d, d)
  }

  /** CeilDiv is the ceiling: the least `q` with `m <= q * d`. */
  lemma {:induction false} CeilDivIsCeiling(m: int, d: int)
    requires d > 0 && m > 0
    ensures (CeilDiv(m, d) - 1) * d < m <= CeilDiv(m, d) * d
    decreases m
  {
    if m - d > 0 {
      CeilDivIsCeiling(m - d, d);
      var q := CeilDiv(m - d, d);
      assert CeilDiv(m, d) == q + 1;
      assert (q + 1) * d == q * d + d;
    }
  }

  /** `range(start, n, step)` has `ceil((n - start) / step)` elements. */
  lemma {:induction false} WindowsFromCount<T>(words: seq<T>, chunkSize: int, step: int, start: nat)
    requires step > 0
    ensures |WindowsFrom(words, chunkSize, step, start)| == CeilDiv(|words| - start, step)
    decreases |words| - start
  {
    if start < |words| {
      WindowsFromCount(words, chunkSize, step, start + step);
    }
  }

  /** The start of window `k` of the windows from `start`: `k` steps on. */
  function Offset(start: int, step: int, k: nat): int
    decreases k
  {
    if k == 0 then start else Offset(start + step, step, k - 1)
  }

  lemma {:induction false} OffsetIsProduct(start: int, step: int, k: nat)
    ensures Offset(start, step, k) == start + k * step
    decreases k
  {
    if k > 0 {
      OffsetIsProduct(start + step, step, k - 1);
    }
  }

  /** Window `k` of the windows from `start` starts `k` steps on, inside the
      list. */
  lemma {:induction false} WindowsFromAt<T>(words: seq<T>, chunkSize: int, step: int, start: nat, k: nat)
    requires step > 0
    requires k < |WindowsFrom(words, chunkSize, step, start)|
    ensures Offset(start, step, k) < |words|
    ensures WindowsFrom(words, chunkSize, step, start)[k] == Window(words, Offset(start, step, k), chunkSize)
    decreases k
  {
    if k > 0 {
      WindowsFromAt(words, chunkSize, step, start + step, k - 1);
    }
  }

  /** With a positive step, `chunk_text` returns exactly `ceil(n / step)`
      chunks for `n` words; so empty or all-whitespace text gives `[]`. */
  lemma ChunkCount(text: string, chunkSize: int, overlap: int)
    requires chunkSize - overlap > 0
    ensures Chunks(text, chunkSize, overlap).Success?
    ensures |Chunks(text, chunkSize, overlap).value| == CeilDiv(|Split(text)|, chunkSize - overlap)
  {
    WindowsFromCount(Split(text), chunkSize, chunkSize - overlap, 0);
  }

  /** For text with words, the `q` chunks start below `n` and `q` steps
      reach `n`: `(q - 1) * step < n <= q * step`. */
  lemma ChunkCountBounds(text: string, chunkSize: int, overlap: int)
    requires chunkSize - overlap > 0 && |Split(text)| > 0
    ensures (|Chunks(text, chunkSize, overlap).value| - 1) * (chunkSize - overlap) < |Split(text)|
    ensures |Split(text)| <= |Chunks(text, chunkSize, overlap).value| * (chunkSize - overlap)
  {
    ChunkCount(text, chunkSize, overlap);
    CountBounds(|Chunks(text, chunkSize, overlap).value|, |Split(text)|, chunkSize - overlap);
  }

  /** A count equal to `CeilDiv(n, step)` brackets `n` between multiples of
      the step. */
  lemma CountBounds(q: int, n: int, step: int)
    requires step > 0 && n > 0 && q == CeilDiv(n, step)
    ensures (q - 1) * step < n <= q * step
  {
    CeilDivIsCeiling(n, step);
  }

  /** Text with no words (empty, or whitespace only) gives no chunks, and
      text with words gives at least one, whenever the step is not zero. */
  lemma NoChunksIffBlank(text: string, chunkSize: int, overlap: int)
    requires chunkSize - overlap > 0
    ensures Chunks(text, chunkSize, overlap) == Success([]) <==> AllSpace(text)
  {
    SplitEmptyIff(text);
    ChunkCount(text, chunkSize, overlap);
  }

  /** Arithmetic facts about the start offset `k * step` of window `k`. */
  lemma StartFacts(k: nat, step: int)
    requires step > 0
    ensures 0 <= k * step < (k + 1) * step == k * step + step
  {
  }

  /** Exactly one chunk comes out iff there are words and they all fit in the
      first step, which is not the same as fewer words than `chunkSize`. */
  lemma SingleChunkIff(text: string, chunkSize: int, overlap: int)
    requires chunkSize - overlap > 0
    ensures |Chunks(text, chunkSize, overlap).value| == 1 <==> 0 < |Split(text)| <= chunkSize - overlap
  {
    ChunkCount(text, chunkSize, overlap);
    CeilDivOne(|Split(text)|, chunkSize - overlap);
  }

  /** `ceil(m / d)` is one exactly for `0 < m <= d`. */
  lemma CeilDivOne(m: int, d: int)
    requires d > 0
    ensures CeilDiv(m, d) == 1 <==> 0 < m <= d
  {
    if m > 0 && m - d > 0 {
      assert CeilDiv(m - d, d) >= 1;
    }
  }

  /** The words of the window at `start`: `words[start:start + chunkSize]`
      is a non-empty run of at most `chunkSize` words, joining them and
      splitting again gives them back, and the run is full-size when it
      fits. */
  lemma {:induction false} WindowWords(words: seq<string>, start: int, chunkSize: int)
    requires AllWords(words) && 0 <= start < |words| && 0 < chunkSize
    ensures var stop := if start + chunkSize <= |words| then start + chunkSize else |words|;
            var chunk := JoinWords(Window(words, start, chunkSize));
            && Window(words, start, chunkSize) == words[start..stop]
            && Split(chunk) == words[start..stop]
            && chunk != ""
  {
    var w := Window(words, start, chunkSize);
    assert AllWords(w) by {
      forall i | 0 <= i < |w| ensures IsWord(w[i]) {
        assert w[i] == words[start + i];
      }
    }
    SplitJoin(w);
    JoinNonEmpty(w);
  }

  /** Splitting chunk `k` again gives back its window of words,
      `words[k * step:k * step + chunkSize]`. */
  lemma ChunkWords(text: string, chunkSize: int, overlap: int, k: nat)
    requires 0 < chunkSize && overlap < chunkSize
    requires k < |Chunks(text, chunkSize, overlap).value|
    ensures var words, step := Split(text), chunkSize - overlap;
            var stop := if k * step + chunkSize <= |words| then k * step + chunkSize else |words|;
            && 0 <= k * step < |words|
            && Split(Chunks(text, chunkSize, overlap).value[k]) == words[k * step..stop]
  {
    ChunkIsJoinedWindow(text, chunkSize, overlap, k);
    WindowWords(Split(text), k * (chunkSize - overlap), chunkSize);
  }

  /** Chunk `k` is `' '.join` of the window that starts at `k * step`. */
  lemma ChunkIsJoinedWindow(text: string, chunkSize: int, overlap: int, k: nat)
    requires overlap < chunkSize
    requires k < |Chunks(text, chunkSize, overlap).value|
    ensures var words, step := Split(text), chunkSize - overlap;
            && 0 <= k * step < |words|
            && Chunks(text, chunkSize, overlap).value[k] == JoinWords(Window(words, k * step, chunkSize))
  {
    StartFacts(k, chunkSize - overlap);
    WindowsFromAt(Split(text), chunkSize, chunkSize - overlap, 0, k);
    OffsetIsProduct(0, chunkSize - overlap, k);
    JoinEachAt(WindowsFrom(Split(text), chunkSize, chunkSize - overlap, 0), k);
  }

  /** Chunk `k` is the window of words `[k * step, min(k * step + chunkSize, n))`
      joined by single spaces; splitting it again gives that window back. It
      is non-empty, holds at most `chunkSize` words, and holds exactly
      `chunkSize` when the window fits in the text. */
  lemma ChunkAt(text: string, chunkSize: int, overlap: int, k: nat)
    requires 0 < chunkSize && overlap < chunkSize
    requires k < |Chunks(text, chunkSize, overlap).value|
    ensures var words, step := Split(text), chunkSize - overlap;
            var stop := if k * step + chunkSize <= |words| then k * step + chunkSize else |words|;
            var chunk := Chunks(text, chunkSize, overlap).value[k];
            && 0 <= k * step < |words|
            && chunk == JoinWords(words[k * step..stop])
            && Split(chunk) == words[k * step..stop]
            && chunk != ""
            && 1 <= |Split(chunk)| <= chunkSize
            && (k * step + chunkSize <= |words| ==> |Split(chunk)| == chunkSize)
  {
    ChunkIsJoinedWindow(text, chunkSize, overlap, k);
    WindowWords(Split(text), k * (chunkSize - overlap), chunkSize);
  }

  /** Two windows `chunkSize - overlap` words apart, the first of them full:
      the last `overlap` words of the first are the first words of the
      second. */
  lemma WindowsOverlap<T>(words: seq<T>, s: nat, t: int, chunkSize: int, overlap: int, stop: int)
    requires 0 <= overlap < chunkSize && t == s + (chunkSize - overlap) && s + chunkSize <= |words|
    requires stop == if t + chunkSize <= |words| then t + chunkSize else |words|
    ensures overlap <= |words[t..stop]|
    ensures words[s..s + chunkSize][chunkSize - overlap..] == words[t..stop][..overlap]
  {
    var a, b := words[s..s + chunkSize][chunkSize - overlap..], words[t..stop][..overlap];
    assert |a| == |b|;
    forall i | 0 <= i < |a| ensures a[i] == b[i] {
      assert a[i] == words[t + i];
    }
  }

  /** Neighbouring chunks: chunk `k + 1` starts `step` words after chunk `k`,
      inside the text, and when chunk `k` is full its last `overlap` words are
      the first `overlap` words of chunk `k + 1`. */
  lemma Neighbours(text: string, chunkSize: int, overlap: int, k: nat)
    requires 0 <= overlap < chunkSize
    requires k + 1 < |Chunks(text, chunkSize, overlap).value|
    ensures var words, step := Split(text), chunkSize - overlap;
            var cs := Chunks(text, chunkSize, overlap).value;
            && (k + 1) * step == k * step + step < |words|
            && (k * step + chunkSize <= |words| ==>
                  && |Split(cs[k])| == chunkSize
                  && overlap <= |Split(cs[k + 1])|
                  && Split(cs[k])[chunkSize - overlap..] == Split(cs[k + 1])[..overlap])
  {
    StartFacts(k, chunkSize - overlap);
    ChunkWords(text, chunkSize, overlap, k);
    ChunkWords(text, chunkSize, overlap, k + 1);
    if k * (chunkSize - overlap) + chunkSize <= |Split(text)| {
      WindowsOverlap(Split(text), k * (chunkSize - overlap), (k + 1) * (chunkSize - overlap), chunkSize, overlap,
                     if (k + 1) * (chunkSize - overlap) + chunkSize <= |Split(text)|
                     then (k + 1) * (chunkSize - overlap) + chunkSize else |Split(text)|);
    }
  }

  /** Each position `j` at or after `start` and before the end lies within
      `step` words after the start of some window. */
  lemma {:induction false} WindowsFromCover<T>(words: seq<T>, chunkSize: int, step: int, start: nat, j: int)
    returns (k: nat)
    requires step > 0 && start <= j < |words|
    ensures k < |WindowsFrom(words, chunkSize, step, start)|
    ensures start + k * step <= j < start + k * step + step
    decreases j - start
  {
    if j < start + step {
      k := 0;
    } else {
      var k' := WindowsFromCover(words, chunkSize, step, start + step, j);
      k := k' + 1;
      StartFacts(k', step);
    }
  }

  /** A position within `step` words of a window's start lies in that window,
      when windows are at least `step` words long. */
  lemma WindowHolds<T>(words: seq<T>, s: int, chunkSize: int, step: int, j: int)
    requires 0 < step <= chunkSize && 0 <= s <= j < s + step && j < |words|
    ensures var stop := if s + chunkSize <= |words| then s + chunkSize else |words|;
            && j < stop
            && words[s..stop][j - s] == words[j]
  {
  }

  /** Every word of the text lies in some chunk, at the position its start
      offset predicts, when `0 <= overlap < chunkSize`. */
  lemma Coverage(text: string, chunkSize: int, overlap: int, j: nat)
    requires 0 <= overlap < chunkSize
    requires j < |Split(text)|
    ensures var cs, step := Chunks(text, chunkSize, overlap).value, chunkSize - overlap;
            exists k :: 0 <= k < |cs| && k * step <= j < k * step + |Split(cs[k])|
                        && Split(cs[k])[j - k * step] == Split(text)[j]
  {
    var k := WindowsFromCover(Split(text), chunkSize, chunkSize - overlap, 0, j);
    ChunkWords(text, chunkSize, overlap, k);
    WindowHolds(Split(text), k * (chunkSize - overlap), chunkSize, chunkSize - overlap, j);
  }

  /** The defaults on a 1200-word text give 3 chunks, of words 0-500, 450-950
      and 900-1200. */
  lemma DefaultExample1200(text: string)
    requires |Split(text)| == 1200
    ensures var cs := Chunks(text, DefaultChunkSize, DefaultOverlap).value;
            && |cs| == 3
            && Split(cs[0]) == Split(text)[0..500]
            && Split(cs[1]) == Split(text)[450..950]
            && Split(cs[2]) == Split(text)[900..1200]
  {
    ChunkCountBounds(text, DefaultChunkSize, DefaultOverlap);
    ChunkWords(text, DefaultChunkSize, DefaultOverlap, 0);
    ChunkWords(text, DefaultChunkSize, DefaultOverlap, 1);
    ChunkWords(text, DefaultChunkSize, DefaultOverlap, 2);
  }

  /** On a 480-word text the defaults give 2 chunks, though 480 is below the
      chunk size: all the words, then again the last 30 of them. */
  lemma DefaultExample480(text: string)
    requires |Split(text)| == 480
    ensures var cs := Chunks(text, DefaultChunkSize, DefaultOverlap).value;
            && |cs| == 2
            && Split(cs[0]) == Split(text)
            && Split(cs[1]) == Split(text)[450..480]
  {
    ChunkCountBounds(text, DefaultChunkSize, DefaultOverlap);
    ChunkWords(text, DefaultChunkSize, DefaultOverlap, 0);
    ChunkWords(text, DefaultChunkSize, DefaultOverlap, 1);
    assert Split(text)[0..480] == Split(text);
  }

  // =====================================================================
  // extract_text_from_file
  // =====================================================================

  /** What `extract_text_from_file(path)` returns or raises. `contents` is
      what reading the file in text mode yields and `pages` is the text
      PyMuPDF extracts from each page, in page order. */
  function Extracted(path: string, contents: string, pages: seq<string>): Result<string>
  {
    if EndsWith(path, ".txt") then Success(contents)
    else if EndsWith(path, ".pdf") then Success(Concat(pages))
    else Failure(UnsupportedFileType)
  }

  /** `extract_text_from_file`: dispatch on the suffix; for a PDF, append the
      pages' text one page at a time. */
  method ExtractTextFromFile(path: string, contents: string, pages: seq<string>) returns (r: Result<string>)
    ensures r == Extracted(path, contents, pages)
  {
    if EndsWith(path, ".txt") {
      return Success(contents);
    } else if EndsWith(path, ".pdf") {
      var text := "";
      for i := 0 to |pages|
        invariant text == Concat(pages[..i])
      {
        assert pages[..i + 1][..i] == pages[..i];
        text := text + pages[i];
      }
      assert pages[..|pages|] == pages;
      return Success(text);
    } else {
      return Failure(UnsupportedFileType);
    }
  }

  /** No path ends in both accepted suffixes. */
  lemma SuffixesExclusive(path: string)
    ensures !(EndsWith(path, ".txt") && EndsWith(path, ".pdf"))
  {
  }

  /** Extraction succeeds exactly for `.txt` and `.pdf` paths; a text file
      gives its contents, a PDF its pages in order (no pages give ""), and
      any other path raises ValueError with the unsupported-type message. The
      order in which the two suffixes are tested does not matter. */
  lemma ExtractDispatch(path: string, contents: string, pages: seq<string>)
    ensures var r := Extracted(path, contents, pages);
            && (r.Success? <==> EndsWith(path, ".txt") || EndsWith(path, ".pdf"))
            && (EndsWith(path, ".txt") ==> r == Success(contents))
            && (EndsWith(path, ".pdf") ==> r == Success(Concat(pages)))
            && (EndsWith(path, ".pdf") && pages == [] ==> r == Success(""))
            && (r.Failure? ==> r.error == UnsupportedFileType)
            && (r.Failure? ==> Message(r.error) == "Unsupported file type for text extraction.")
            && r == (if EndsWith(path, ".pdf") then Success(Concat(pages))
                     else if EndsWith(path, ".txt") then Success(contents)
                     else Failure(UnsupportedFileType))
  {
    SuffixesExclusive(path);
  }

  /** The text of a PDF is its pages in page order: the text of page `i`
      comes right after that of pages `0 .. i - 1` and right before that of
      the pages after it. */
  lemma PdfPageOrder(pages: seq<string>, i: nat)
    requires i < |pages|
    ensures Concat(pages) == Concat(pages[..i]) + pages[i] + Concat(pages[i + 1..])
  {
    var front := pages[..i + 1];
    assert Concat(front) == Concat(pages[..i]) + pages[i] by {
      assert front[..|front| - 1] == pages[..i];
      assert front[|front| - 1] == pages[i];
    }
    TakeDrop(pages, i + 1);
    ConcatAppend(front, pages[i + 1..]);
  }
}
