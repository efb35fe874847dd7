# Document utilities of the document upload service

The service's `/upload` endpoint (`app/main.py`) saves the uploaded file. It
then turns the file into one string (`extract_text_from_file`) and cuts that
string into overlapping windows of words (`chunk_text`, with
`chunk_size=500, overlap=50`). It answers with a message, the first 300
characters of the text and the number of chunks. This project models the two
utilities, from `app/utils.py`, in Dafny and proves what they return.

- `pybuiltins.dfy` (module `PyBuiltins`) writes out the Python built-ins the
  utilities rely on, as functions over sequences:
  - `str.split()` with no separator, splitting on every character
    `str.isspace` accepts;
  - `' '.join`;
  - `str.endswith`;
  - list slicing `a[i:j]`, with negative and out-of-range bounds;
  - repeated `+=` on strings.

  It proves that joining words and splitting again gives the words back, and
  that `split` loses only whitespace.
- `utils.dfy` (module `Utils`) holds the two utilities.
  - `ChunkText` is a loop over `range(0, len(words), chunk_size - overlap)`,
    proved equal to the function `Chunks`, which defines what `chunk_text`
    returns or raises.
  - `ExtractTextFromFile` is a dispatch on the file suffix plus a loop that
    appends the pages' text, proved equal to the function `Extracted`.
  - Lemmas state what `chunk_text` promises: how many chunks there are, which
    words each chunk holds, how neighbouring chunks overlap, and that every
    word is in some chunk. Other lemmas cover the error cases and the default
    parameters.

The ValueErrors the utilities raise are modelled as the `Failure` side of a
`Result`.

### Behaviour of the code worth knowing

- **Degenerate step.** `chunk_text` does not check `overlap < chunk_size`.
  - Equal values make `range` raise ValueError("range() arg 3 must not be
    zero").
  - A larger overlap gives a negative step and an empty range, so the result
    is `[]`.

  `ChunkErrors` states both cases.
- **One chunk.** Fewer than `chunk_size` words does not mean one chunk.
  - Exactly one chunk comes out iff `0 < n <= chunk_size - overlap`
    (`SingleChunkIff`).
  - With the defaults, a 480-word text gives 2 chunks: all the words, then
    words 450-480 again (`DefaultExample480`).
  - A chunk is its words joined by single spaces, not a piece of the
    original text.
- **Unsupported file.** A path ending in neither `.txt` nor `.pdf` raises
  ValueError("Unsupported file type for text extraction.").

## Model

| member | source | states |
|---|---|---|
| `Utils.ChunkText` | app/utils.py:7-18 | The result is exactly `Chunks(text, chunkSize, overlap)`: the ValueError of a zero `range` step, `[]` for a negative step, otherwise one `' '.join(words[i:i+chunkSize])` for each `i` in `range(0, len(words), step)`, in order. |
| `Utils.ChunkErrors` | app/utils.py:14 | `chunk_text` raises exactly when `overlap == chunk_size`, and what it raises is the zero-step ValueError, with the message "range() arg 3 must not be zero". Whenever `overlap > chunk_size` it returns `[]`. |
| `Utils.ChunkCount` | app/utils.py:11-16 | With a positive step, the result is a success holding `ceil(n / step)` chunks for `n` words. |
| `Utils.ChunkCountBounds` | app/utils.py:11-16 | For text with words and a positive step, the `q` chunks satisfy `(q - 1) * step < n <= q * step`. |
| `Utils.NoChunksIffBlank` | app/utils.py:11-14 | With a positive step, the result is `[]` iff the text is empty or all whitespace. |
| `Utils.SingleChunkIff` | app/utils.py:14 | Exactly one chunk comes out iff `0 < n <= chunk_size - overlap`. |
| `Utils.ChunkAt` | app/utils.py:14-16 | Chunk `k` is `' '.join(words[k*step : k*step+chunk_size])`, with its start inside the text. Splitting it gives that window back. It is non-empty and holds 1 to `chunk_size` words. It holds exactly `chunk_size` words when the window fits. |
| `Utils.ChunkWords` | app/utils.py:14-16 | Splitting chunk `k` gives back exactly the words `words[k*step : min(k*step+chunk_size, n)]`. |
| `Utils.ChunkIsJoinedWindow` | app/utils.py:14-16 | Chunk `k` is the window slice at start `k*step` joined by spaces, and that start is below `n`. |
| `Utils.Neighbours` | app/utils.py:14-16 | Chunk `k+1` starts `step` words after chunk `k`, inside the text. When chunk `k` is full, its last `overlap` words are the first `overlap` words of chunk `k+1`. |
| `Utils.Coverage` | app/utils.py:11-16 | With `0 <= overlap < chunk_size`, every word `j` of the text is in some chunk `k`, at position `j - k*step`. |
| `Utils.DefaultExample1200` | app/utils.py:7-16 | With the defaults, 1200 words give 3 chunks, of words 0-500, 450-950 and 900-1200. |
| `Utils.DefaultExample480` | app/utils.py:7-16 | With the defaults, 480 words give 2 chunks: all the words, then words 450-480 again. |
| `Utils.WindowsFromCount` | app/utils.py:14 | The loop visits `ceil((n - start) / step)` start positions. |
| `Utils.WindowsFromAt` | app/utils.py:14-15 | The `k`-th visited window starts `k` steps after the first, inside the list, and is the slice at that start. |
| `Utils.WindowsFromCover` | app/utils.py:14 | Every position lies within one step after the start of some visited window. |
| `Utils.WindowWords` | app/utils.py:15-16 | A window that starts inside the list is `words[start:min(start+chunk_size, n)]`. Joining it and splitting again gives it back, and the joined chunk is non-empty. |
| `Utils.WindowsOverlap` | app/utils.py:15 | Two windows `chunk_size - overlap` apart, the first full, share `overlap` words: the tail of the first is the head of the second. |
| `Utils.CeilDivIsCeiling` | app/utils.py:14 | `CeilDiv(m, d)` is the least `q` with `m <= q * d`. |
| `Utils.CeilDivOne` | app/utils.py:14 | `ceil(m / d)` is one exactly for `0 < m <= d`. |
| `Utils.Message` | app/utils.py:14-37 | The messages of the two ValueErrors: "range() arg 3 must not be zero" for a zero `range` step (line 14) and "Unsupported file type for text extraction." (line 37). |
| `Utils.ExtractTextFromFile` | app/utils.py:21-37 | The result is exactly `Extracted(path, contents, pages)`: the contents for `.txt`, the pages' texts appended in order for `.pdf`, and the unsupported-type ValueError otherwise. |
| `Utils.ExtractDispatch` | app/utils.py:25-37 | Extraction succeeds iff the path ends in `.txt` or `.pdf`. A `.txt` path gives its contents and a `.pdf` path its pages concatenated (`""` with no pages). The only failure is the unsupported-type error, with the message "Unsupported file type for text extraction.". Testing `.pdf` before `.txt` gives the same result. |
| `Utils.SuffixesExclusive` | app/utils.py:25-29 | No path ends in both `.txt` and `.pdf`. |
| `Utils.PdfPageOrder` | app/utils.py:29-34 | In a PDF's text, page `i` comes right after pages `0..i-1` and right before the pages after it. |
| `PyBuiltins.IsSpace` | app/utils.py:11 | The separators of `str.split()`, i.e. `str.isspace`: U+0009 to U+000D, U+001C to U+001F, U+0020, U+0085, U+00A0, U+1680, U+2000 to U+200A, U+2028, U+2029, U+202F, U+205F and U+3000. |
| `PyBuiltins.Split` | app/utils.py:11 | `text.split()` yields non-empty words with no whitespace in them, and no more words than characters. |
| `PyBuiltins.SplitJoin` | app/utils.py:11-16 | Splitting `' '.join(ws)` gives back `ws` whenever `ws` are words. |
| `PyBuiltins.JoinWords` | app/utils.py:16 | `' '.join(ws)`: `""` for no strings, the string itself for one, otherwise the first string, a space, then the join of the rest. |
| `PyBuiltins.JoinWordsLayout` | app/utils.py:16 | `' '.join(ws)` has the length of all the strings together plus `len(ws) - 1`, starts with the first string and ends with the last; no strings give `""`. |
| `PyBuiltins.JoinNonEmpty` | app/utils.py:16 | `' '.join` of a non-empty list of words is non-empty. |
| `PyBuiltins.SplitEmptyIff` | app/utils.py:11 | `text.split()` is empty iff the text is all whitespace. |
| `PyBuiltins.SplitKeepsNonSpace` | app/utils.py:11 | The words of `text.split()`, concatenated, are exactly the text's non-whitespace characters in order. |
| `PyBuiltins.EndsWith` | app/utils.py:25-29 | `s.endswith(suffix)`: the suffix is no longer than `s` and equals the last `len(suffix)` characters of `s`. |
| `PyBuiltins.EndsWithIff` | app/utils.py:25-29 | `s.endswith(suffix)` holds exactly when `s` is some prefix of itself followed by `suffix`. |
| `PyBuiltins.Concat` | app/utils.py:30-33 | The text that `text = ""` followed by `text += page` for each page builds: `""` for no pages, else starting with the first page and ending with the last. |
| `PyBuiltins.ConcatAppend` | app/utils.py:30-33 | Appending the pages of `a` and then those of `b` gives the text of `a` followed by the text of `b`. |
| `PyBuiltins.ConcatCons` | app/utils.py:30-33 | The text of the pages is the first page followed by the text of the others. |
| `PyBuiltins.Slice` | app/utils.py:15 | `a[i:j]` is no longer than `a`, and is `a[i..min(j, len(a))]` for `0 <= i <= len(a)` and `i <= j`. |
| `PyBuiltins.SliceBound` | app/utils.py:15 | A slice bound becomes a position within `[0, len(a)]`, and a non-negative bound is clamped to `len(a)`. |

## Left out

- Reading the file: `open(file_path, "r", encoding="utf-8").read()` is
  represented by its result, the `contents` parameter. UTF-8 decoding,
  universal-newline translation and the errors of a missing or unreadable
  file are not modelled.
- PyMuPDF: `fitz.open` and `page.get_text()` are represented by their
  results, the `pages` parameter, in page order. Errors from opening a
  corrupt PDF are not modelled.
- `str.isspace` is written out as a fixed set of characters. Python's
  strings are sequences of code points, and Dafny's `char` stands in for one.
- `app/main.py` (the `/upload` endpoint: its own suffix check, saving the
  file, mapping exceptions to HTTP 400 and 500 responses) and
  `app/frontend.py` are not part of this model.
- Integer width is not an issue: Python integers are unbounded, and so are
  Dafny's.
