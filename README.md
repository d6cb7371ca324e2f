# simple_rag ingestion and answer post-processing, in Dafny

simple_rag is a small retrieval-augmented question-answering tool. `ingest.py`
cuts PDF documents into page-range units and indexes each one. `answer_en.py`
and `answer_fr.py` ask a language model for the keywords of a question, search
the index, and pack the hits into the prompt of the answering call.

This project models the logic between those service calls:

- **Page text** (`pages.dfy`, module `Pages`).
  - `extract_text_from_pages` removes page-number footers (`\n\d+\n`) from
    each page and concatenates the pages in the order given.
  - Half-open page ranges (`Chapter`) and their laws.
- **Table-of-contents segmentation** (`toc.dfy`, module `Toc`).
  - `chapters_from_toc` is a scan keeping an optional open start. It is
    proved equal to a recursive reference definition (`Chapters`).
  - The level fallback of `ingest_file` tries level 3, then level 2, then
    level 1.
- **Token budget** (`budget.dfy`, module `Budget`).
  - The split test `len/4 > 8000` and the block count `ceil(len/4/8000)`.
  - The block boundaries `floor(start + (end-start)/nb*i)` of
    `divide_per_chunck`.
  - These floating-point expressions are modelled exactly over the
    integers, and lemmas relate them to the real-number formulas.
- **Ingestion** (`ingest.dfy`, module `Ingest`).
  - `divide_per_chunck` and the chapter and fixed-window loops of
    `ingest_file`.
  - Each `index_content` call becomes one `Unit(page, text)` appended to the
    output, in call order.
- **String operations** (`text.dfy`, module `Text`).
  - Python's `str.split(sep)` with a one-character separator.
  - `str.strip()` over the characters `str.isspace()` accepts.
- **Answer post-processing** (`answer.dfy`, module `Answer`).
  - The keyword-reply parsing of `answer_keywords`.
  - The greedy context packing of `answer_generate`. The English and French
    scripts differ only in the per-hit line, selected by a `Language`
    parameter.

External inputs become parameters:

- The PDF's page text is a function from page number to string. The read
  `doc[page_num - 1]` is folded into that function.
- The table of contents is a sequence of `TocEntry(level, title, page)`.
- The language model's reply is a string.
- `LLM_NB_TOKENS` is an integer.
- Search hits are `Hit(document, page, content)` records.

Behaviour of the code worth noting:

- A chapter still open at the end of the table closes at `num_pages`
  (ingest.py:70-71). Because pages are read as `doc[page_num - 1]`, the
  range `[start, num_pages)` leaves out the document's last page. Level-1
  entries on pages 1, 10 and 20 of a 30-page document give `(1,10), (10,20),
  (20,30)` (`Toc.ThreeChapters`).
- `ingest_file` has no failure handling. The fixed windows are used exactly
  when the table is empty or the chosen level gives no chapter
  (ingest.py:85-103). The text of an indexing result plays no part.
- The keyword sentinel is a containment test on the unstripped single piece:
  `"Windows 10"` is dropped like `"0"` (answer_en.py:28).

## Model

| member | source | states |
|---|---|---|
| Pages.StripFooters | ingest.py:50 | removing page-number lines never lengthens a page; a page with no newline, or with no digit, is unchanged |
| Pages.StripFootersNotIdempotent | ingest.py:50 | matches are removed left to right without overlap, so stripping is not idempotent: `"\n\n1\n2\n"` becomes `"\n2\n"`, which strips again to `""` |
| Pages.ExtractTextFromPages | ingest.py:46-52 | the loop's text is `PagesText`: each listed page footer-stripped, concatenated in list order |
| Pages.PagesTextAppend | ingest.py:48-51 | extraction of two page lists one after the other is the concatenation of their extractions |
| Pages.PagesTextLength | ingest.py:49-51 | the extracted text is at most as long as the raw pages together |
| Pages.PagesTextSplit | ingest.py:46-52 | the text of `[a, c)` is the text of `[a, b)` followed by that of `[b, c)` |
| Pages.ContiguousPages | ingest.py:54-57 | ranges laid end to end list every page from the first start to the last end once, in increasing order |
| Pages.ContiguousText | ingest.py:46-52 | extracting contiguous ranges one by one gives the text of the whole span |
| Toc.ChaptersFromToc | ingest.py:59-73 | the scan returns exactly the reference segmentation `Chapters` |
| Toc.ChapterStarts | ingest.py:63-68 | one chapter per entry at the level, in table order, each starting at its entry's page |
| Toc.ChapterOfEntry | ingest.py:64-68 | the entry at index `i` gives chapter number `Rank(i)`; its end is the close point of the entries after it |
| Toc.CloseAtFirst | ingest.py:64-65 | a chapter ends at the page of the first later entry at the level or shallower, or at `num_pages` when there is none |
| Toc.DeeperEntriesIgnored | ingest.py:64-67 | dropping the entries deeper than the level leaves the chapters unchanged |
| Toc.SingleLevelContiguous | ingest.py:63-71 | when every entry is at the level: one chapter per entry, each ending where the next starts, the last ending at `num_pages` |
| Toc.ThreeChapters | ingest.py:63-71 | pages 1, 10, 20 with 30 pages give `(1,10), (10,20), (20,30)` |
| Toc.SelectChapters | ingest.py:86-92 | level 3 if non-empty and starting by page 8; else level 2 under the same test; else level 1 unconditionally |
| Toc.SelectChaptersEmpty | ingest.py:86-94 | the fallback is empty exactly when levels 3 and 2 fail the test and the table has no level-1 entry |
| Toc.SelectChaptersFromToc | ingest.py:86-92 | whichever level wins, its first chapter starts at the page of some table entry |
| Budget.NeedsSplit | ingest.py:97 | a text (a chapter here, a window at line 110) is split exactly when it needs at least two blocks of `BlockCount` |
| Budget.NeedsSplitIsTokenTest | ingest.py:97 | the integer test `len > 32000` is the source's `len/4 > 8000` on reals |
| Budget.BlockCount | ingest.py:98 | the block count is the least `b` with `b * 32000 >= len`, i.e. `ceil(len/4/8000)` |
| Budget.SplitMeansSeveralBlocks | ingest.py:97-98 | a text over budget is split into at least two blocks |
| Budget.DoublingAddsBlocks | ingest.py:97-98 | beyond the budget, doubling the text raises the block count |
| Budget.Boundary | ingest.py:118-119 | boundary `i` of `nb` over `[start, end)` is `start + floor((end-start)*i/nb)`; boundary 0 is `start` and boundary `nb` is `end` |
| Budget.BoundaryIsFloor | ingest.py:118-119 | the integer boundary is the floor of the real `start + (end-start)/nb*i` |
| Budget.BoundaryMonotone | ingest.py:117-119 | boundary 0 is `start`, boundary `nb` is `end`, and boundaries never decrease in between |
| Budget.BoundaryBelowEnd | ingest.py:117-118 | over a non-empty range every block starts before `end`, so no unit is anchored at `end` |
| Budget.Blocks | ingest.py:117-119 | the `range(0, nb_block)` loop visits exactly `nb` blocks, block `i` running from boundary `i` to boundary `i+1` |
| Budget.BlocksPartition | ingest.py:117-119 | for the exact boundaries, the blocks start at `start`, end at `end`, are laid end to end and list every page of `[start, end)` once, in order |
| Budget.BlockSizes | ingest.py:117-119 | each block holds `(end-start)/nb` pages or one more |
| Budget.EmptyBlockExample | ingest.py:117-119 | more blocks than pages leaves some empty: three blocks over two pages give `(0,0), (0,1), (1,2)` |
| Ingest.DividePerChunk | ingest.py:116-121 | the loop emits one unit per block, anchored at the block's first page, carrying its extracted text |
| Ingest.RangeUnits | ingest.py:96-100 | one range gives at least one unit, and the first is anchored at the range's start whether or not it is split |
| Ingest.IngestRange | ingest.py:96-100 | one range becomes one unit within budget, else the units of `BlockCount` blocks |
| Ingest.RangeUnitsShape | ingest.py:96-100 | a range gives one unit within budget, else `BlockCount` units; every unit of a non-empty range is anchored at one of its pages; an empty or inverted range (table pages going backwards) gives one unit with no text |
| Ingest.RangeUnitsText | ingest.py:96-100 | for the exact boundaries, split or not, the units' texts concatenate to the range's text: nothing lost or repeated |
| Ingest.WindowsFrom | ingest.py:104-107 | `range(page, num_pages, step)` with clamped ends is empty exactly when `page >= num_pages`; otherwise its first window starts at `page` and its last ends at `num_pages` |
| Ingest.Windows | ingest.py:104-107 | the no-table windows are empty exactly when the document has no page; otherwise they start at 0 and end at `num_pages` |
| Ingest.FixedWindowUnits | ingest.py:103-113 | the window loop emits the units of `range(0, num_pages, step)` with each end clamped to `num_pages` |
| Ingest.WindowsFromShape | ingest.py:104-107 | windows start at `page + k*step`, hold between 1 and `step` pages, lie end to end and end at `num_pages` |
| Ingest.FixedWindowsCover | ingest.py:104-107 | fixed windows start at `0, step, 2*step, ...`, hold at most `step` pages each, and cover `[0, num_pages)` end to end |
| Ingest.TwelvePagesInFives | ingest.py:104-107 | 12 pages in steps of 5 give `(0,5), (5,10), (10,12)` |
| Ingest.FixedWindowText | ingest.py:103-113 | without a table every page's text is indexed once, in page order |
| Ingest.FileRanges | ingest.py:85-107 | the ranges worked through are empty exactly when the document has no page and the table is empty or yields no chapter |
| Ingest.ChooseChapters | ingest.py:86-92 | the three calls and their tests compute `SelectChapters` |
| Ingest.ChapterUnits | ingest.py:95-100 | the chapter loop emits the units of each chapter in order |
| Ingest.IngestFile | ingest.py:76-113 | the units are those of the chosen chapters when the table and the choice are non-empty, else those of the fixed windows |
| Ingest.IngestFileText | ingest.py:76-113 | on either path the indexed texts are the extracted texts of its ranges; with an empty table, every page from 0 to `num_pages` |
| Ingest.FlatTocText | ingest.py:85-101 | a sorted level-1-only table starting by page 8 gives contiguous chapters whose indexed text is the span from the first entry to `num_pages` |
| Text.Split | answer_en.py:26 | `str.split` gives one more piece than there are separators, and no piece holds one |
| Text.JoinSplit | answer_en.py:26 | joining the pieces with the separator gives back the reply |
| Text.SplitJoin | answer_en.py:26 | splitting a join of separator-free pieces gives back the pieces |
| Text.Strip | answer_en.py:31 | `strip` keeps a slice, removes only whitespace around it, and leaves no whitespace at either end |
| Text.StripIdempotent | answer_en.py:31 | stripping twice is stripping once |
| Answer.ParseKeywords | answer_en.py:26-31 | a single piece containing `0` gives `[]`; otherwise one keyword per comma-separated piece, in order, each stripped; a reply with a comma is never `[]` |
| Answer.KeywordsClean | answer_fr.py:26-31 | every keyword is free of commas and has no whitespace at either end |
| Answer.SingleKeywordWithZeroIsDropped | answer_en.py:28-29 | the replies `"0"` and `"Windows 10"` both give no keywords |
| Answer.DecimalRoundTrip | answer_en.py:37 | the page number as written in a hit line reads back as the same integer |
| Answer.DocContext | answer_en.py:37 | each hit line, English or French (answer_fr.py line 37), ends with a newline and is longer than the hit's title and content together |
| Answer.EnglishLine | answer_en.py:37 | the English line opens with `Document title : ` and the title, ends with the content and a newline, and has the fields' length plus 36 |
| Answer.FrenchLine | answer_fr.py:37 | the French line opens with `Titre du document : ` and the title, ends with the content and a newline, and has the fields' length plus 40 |
| Answer.Decisions | answer_en.py:36-39 | one take-or-skip decision per hit line |
| Answer.Chosen | answer_en.py:36-39 | the taken lines, in order; empty exactly when no taken line has text |
| Answer.FitsIsTokenTest | answer_en.py:38 | the integer test `len < 4*nb_tokens` is the source's `len/4 < nb_tokens` on reals |
| Answer.BuildContext | answer_en.py:35-39 | the context is the in-order concatenation of the hit lines the greedy test takes, and is empty or shorter than `4*LLM_NB_TOKENS` |
| Answer.DecisionsGreedy | answer_fr.py:36-39 | a line is taken exactly when, added to the lines already taken, it stays under the budget |
| Answer.SkippedHitDoesNotStopPacking | answer_en.py:36-39 | a line too long for the budget is skipped and a later short line is still taken, so the context need not be a prefix |

## Left out

- Elasticsearch (`index_content`, index creation and deletion, `es.ping`): each indexing call is modelled only as one `Unit(page, text)` appended to the output. The file name and the empty URL field are the same for every unit and are not kept.
- The sentence-embedding model: its output is floating point from a foreign library.
- PDF access (`fitz.open`, `doc.get_toc()`, `get_text`): page text is an uninterpreted function and the table of contents an input sequence. A missing table (`None`) takes the same path as an empty one and is modelled as `[]`.
- The page-index convention: the source reads `doc[page_num - 1]`, so the fixed-window path's page 0 reads the last page. Page numbers stay abstract; the model does not claim 1-based coverage of the document.
- `\d` in the footer pattern is modelled as the ASCII digits; Python's regular expressions also accept other Unicode decimal digits.
- Float rounding: `len/4`, `ceil` and `floor(start + (end-start)/nb*i)` are modelled exactly over the integers, and the block lemmas hold for those exact boundaries. In double arithmetic `(end-start)/nb*i` can round just below an integer at everyday sizes: `60/11*11` is `59.99999999999999`, so with `start=1, end=61, nb_block=11` (a 60-page chapter of 320,001 to 352,000 characters) the last `page_end` is 60 and page 60 is never indexed; `(0, 15, 11)` gives 14 and `(0, 1, 49)` gives 0 likewise. The model does not capture this loss.
- Budget.BlocksPartition, Ingest.RangeUnitsText: state the partition and the lossless split for the exact boundaries only; the rounded boundaries of the source can drop the last page of a split range, as above.
- Out-of-range pages: `doc[page_num - 1]` raises `IndexError` for a page beyond the document (a table entry pointing past `num_pages + 1`, ingest.py:49). The page text is a total function, so the model reads some text there instead of failing.
- Ingest.IngestFile: requires `step > 0`. Python raises on a zero step and yields no windows for a negative one; neither is modelled. Ingest.FixedWindowUnits has the same requirement.
- The language-model calls, the prompt wording and the returned answer of `answer_keywords` and `answer_generate`: the reply is a string input and only the code around the calls is modelled.
- search.py and the `main` functions (argument checks, directory walk, printing, exit codes): command-line I/O and a query built for the search engine.
