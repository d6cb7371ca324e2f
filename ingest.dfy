/** The units `ingest_file` hands to `index_content` (ingest.py). Indexing itself
    (embedding, the search-engine call) is external: each call is modelled as
    appending one `Unit` to the output, in call order. */
module Ingest {
  import opened Pages
  import opened Toc
  import opened Budget

  /** One `index_content` call: the page the unit is anchored at and its text.
      The file name is the same for every unit of a document and is left out. */
  datatype Unit = Unit(page: int, text: string)

  /** All unit texts, one after another. */
  function Texts(units: seq<Unit>): string {
    if units == [] then "" else units[0].text + Texts(units[1..])
  }

  lemma {:induction false} TextsAppend(xs: seq<Unit>, ys: seq<Unit>)
    ensures Texts(xs + ys) == Texts(xs) + Texts(ys)
  {
    if xs == [] {
      assert xs + ys == ys;
    } else {
      assert (xs + ys)[1..] == xs[1..] + ys;
      TextsAppend(xs[1..], ys);
    }
  }

  /** The units `divide_per_chunck` emits, one per block, anchored at the block's first page. */
  function BlockUnits(pageText: int -> string, rs: seq<Chapter>): seq<Unit> {
    if rs == [] then []
    else [Unit(rs[0].start, PagesText(pageText, Range(rs[0].start, rs[0].end)))] + BlockUnits(pageText, rs[1..])
  }

  /** `divide_per_chunck`: extract and emit each of the `nbBlock` blocks of `[start, end)`. */
  method DividePerChunk(pageText: int -> string, start: int, end: int, nbBlock: int) returns (units: seq<Unit>)
    ensures units == BlockUnits(pageText, Blocks(start, end, nbBlock))
  {
    units := [];
    ghost var blocks := Blocks(start, end, nbBlock);
    var i := 0;
    while i < nbBlock
      invariant 0 <= i <= |blocks|
      invariant units + BlockUnits(pageText, blocks[i..]) == BlockUnits(pageText, blocks)
    {
      var pageStart := Boundary(start, end, nbBlock, i);
      var pageEnd := Boundary(start, end, nbBlock, i + 1);
      var text := ExtractTextFromPages(pageText, Range(pageStart, pageEnd));
      ghost var before := units;
      units := units + [Unit(pageStart, text)];
      BlockStep(before, units, pageText, blocks, i, start, end, nbBlock);
      i := i + 1;
    }
    BlocksDone(units, pageText, blocks, i);
  }

  /** One block keeps the loop invariant of the block loop. */
  lemma BlockStep(emitted: seq<Unit>, after: seq<Unit>, pageText: int -> string, blocks: seq<Chapter>, i: int,
                  start: int, end: int, nbBlock: int)
    requires 0 <= i < nbBlock && blocks == Blocks(start, end, nbBlock)
    requires after == emitted + [Unit(Boundary(start, end, nbBlock, i),
                                      PagesText(pageText, Range(Boundary(start, end, nbBlock, i), Boundary(start, end, nbBlock, i + 1))))]
    requires emitted + BlockUnits(pageText, blocks[i..]) == BlockUnits(pageText, blocks)
    ensures after + BlockUnits(pageText, blocks[i + 1..]) == BlockUnits(pageText, blocks)
  {
    assert blocks[i..][0] == blocks[i] && blocks[i..][1..] == blocks[i + 1..];
    ConcatAssoc(emitted, after[|emitted|..], BlockUnits(pageText, blocks[i + 1..]));
    assert after == emitted + after[|emitted|..];
  }

  lemma BlocksDone(emitted: seq<Unit>, pageText: int -> string, blocks: seq<Chapter>, i: int)
    requires i == |blocks|
    requires emitted + BlockUnits(pageText, blocks[i..]) == BlockUnits(pageText, blocks)
    ensures emitted == BlockUnits(pageText, blocks)
  {
    assert blocks[i..] == [];
    assert emitted + [] == emitted;
  }

  /** What one chapter or window becomes: a single unit within the budget,
      otherwise one unit per block of a page-count split. */
  function RangeUnits(pageText: int -> string, start: int, end: int): (units: seq<Unit>)
    ensures |units| >= 1 && units[0].page == start
  {
    var text := PagesText(pageText, Range(start, end));
    if NeedsSplit(|text|) then BlockUnits(pageText, Blocks(start, end, BlockCount(|text|)))
    else [Unit(start, text)]
  }

  /** The body shared by the chapter loop and the window loop of `ingest_file`. */
  method IngestRange(pageText: int -> string, start: int, end: int) returns (units: seq<Unit>)
    ensures units == RangeUnits(pageText, start, end)
  {
    var text := ExtractTextFromPages(pageText, Range(start, end));
    if NeedsSplit(|text|) {
      units := DividePerChunk(pageText, start, end, BlockCount(|text|));
    } else {
      units := [Unit(start, text)];
    }
  }

  /** The units of a sequence of chapters or windows, in order. */
  function UnitsOver(pageText: int -> string, rs: seq<Chapter>): seq<Unit> {
    if rs == [] then [] else RangeUnits(pageText, rs[0].start, rs[0].end) + UnitsOver(pageText, rs[1..])
  }

  /** The fixed windows from `page` on: `range(page, numPages, step)`, each
      window's end clamped to `numPages`. */
  function WindowsFrom(page: int, numPages: int, step: int): (ws: seq<Chapter>)
    requires step > 0
    decreases numPages - page
    ensures ws != [] <==> page < numPages
    ensures ws != [] ==> ws[0].start == page && ws[|ws| - 1].end == numPages
  {
    if page >= numPages then []
    else [Chapter(page, if page + step > numPages then numPages else page + step)]
         + WindowsFrom(page + step, numPages, step)
  }

  /** The windows of the no-table path: `range(0, num_pages, step)`, clamped. */
  function Windows(numPages: int, step: int): (ws: seq<Chapter>)
    requires step > 0
    ensures ws != [] <==> numPages > 0
    ensures ws != [] ==> ws[0].start == 0 && ws[|ws| - 1].end == numPages
  {
    WindowsFrom(0, numPages, step)
  }

  /** The no-table-of-contents path of `ingest_file`. */
  method FixedWindowUnits(pageText: int -> string, numPages: int, step: int) returns (units: seq<Unit>)
    requires step > 0
    ensures units == UnitsOver(pageText, Windows(numPages, step))
  {
    units := [];
    var page := 0;
    while page < numPages
      invariant units + UnitsOver(pageText, WindowsFrom(page, numPages, step)) == UnitsOver(pageText, Windows(numPages, step))
      decreases numPages - page
    {
      var pageEnd := page + step;
      if pageEnd > numPages {
        pageEnd := numPages;
      }
      var windowUnits := IngestRange(pageText, page, pageEnd);
      ghost var before, windowStart := units, page;
      units := units + windowUnits;
      page := page + step;
      WindowStep(before, windowUnits, units, pageText, windowStart, pageEnd, page, numPages, step);
    }
    WindowsDone(units, pageText, page, numPages, step);
  }

  lemma WindowsDone(emitted: seq<Unit>, pageText: int -> string, page: int, numPages: int, step: int)
    requires step > 0 && page >= numPages
    requires emitted + UnitsOver(pageText, WindowsFrom(page, numPages, step)) == UnitsOver(pageText, Windows(numPages, step))
    ensures emitted == UnitsOver(pageText, Windows(numPages, step))
  {
    assert emitted + [] == emitted;
  }

  /** One window keeps the loop invariant of the window loop. */
  lemma WindowStep(emitted: seq<Unit>, window: seq<Unit>, after: seq<Unit>, pageText: int -> string,
                   page: int, pageEnd: int, next: int, numPages: int, step: int)
    requires step > 0 && page < numPages
    requires pageEnd == if page + step > numPages then numPages else page + step
    requires window == RangeUnits(pageText, page, pageEnd)
    requires after == emitted + window && next == page + step
    requires emitted + UnitsOver(pageText, WindowsFrom(page, numPages, step)) == UnitsOver(pageText, Windows(numPages, step))
    ensures after + UnitsOver(pageText, WindowsFrom(next, numPages, step)) == UnitsOver(pageText, Windows(numPages, step))
  {
    var ws := WindowsFrom(page, numPages, step);
    assert ws[0] == Chapter(page, pageEnd) && ws[1..] == WindowsFrom(page + step, numPages, step);
    ConcatAssoc(emitted, window, UnitsOver(pageText, ws[1..]));
  }

  /** One chapter or window keeps the loop invariant of a loop over `rs`. */
  lemma OverStep(emitted: seq<Unit>, range: seq<Unit>, after: seq<Unit>, pageText: int -> string, rs: seq<Chapter>, j: nat)
    requires j < |rs| && range == RangeUnits(pageText, rs[j].start, rs[j].end) && after == emitted + range
    requires emitted + UnitsOver(pageText, rs[j..]) == UnitsOver(pageText, rs)
    ensures after + UnitsOver(pageText, rs[j + 1..]) == UnitsOver(pageText, rs)
  {
    assert rs[j..][0] == rs[j] && rs[j..][1..] == rs[j + 1..];
    ConcatAssoc(emitted, range, UnitsOver(pageText, rs[j + 1..]));
  }

  /** The page ranges `ingest_file` works through: the chapters the fallback
      chose, or the fixed windows when the table of contents is empty or no
      level yields a chapter. */
  function FileRanges(toc: seq<TocEntry>, numPages: int, step: int): (rs: seq<Chapter>)
    requires step > 0
    ensures rs == [] <==> numPages <= 0 && (|toc| == 0 || SelectChapters(toc, numPages) == [])
  {
    if |toc| > 0 && |SelectChapters(toc, numPages)| > 0 then SelectChapters(toc, numPages)
    else Windows(numPages, step)
  }

  /** The level fallback of `ingest_file`, calling `chapters_from_toc` at level
      3, then 2, then 1. */
  method ChooseChapters(toc: seq<TocEntry>, numPages: int) returns (chapters: seq<Chapter>)
    ensures chapters == SelectChapters(toc, numPages)
  {
    chapters := ChaptersFromToc(toc, numPages, 3);
    if |chapters| == 0 || chapters[0].start > 8 {
      chapters := ChaptersFromToc(toc, numPages, 2);
    }
    if |chapters| == 0 || chapters[0].start > 8 {
      chapters := ChaptersFromToc(toc, numPages, 1);
    }
  }

  /** The chapter loop of `ingest_file`. */
  method ChapterUnits(pageText: int -> string, chapters: seq<Chapter>) returns (units: seq<Unit>)
    ensures units == UnitsOver(pageText, chapters)
  {
    units := [];
    for j := 0 to |chapters|
      invariant units + UnitsOver(pageText, chapters[j..]) == UnitsOver(pageText, chapters)
    {
      var chapterUnits := IngestRange(pageText, chapters[j].start, chapters[j].end);
      ghost var before := units;
      units := units + chapterUnits;
      OverStep(before, chapterUnits, units, pageText, chapters, j);
    }
    OverDone(units, pageText, chapters);
  }

  lemma OverDone(emitted: seq<Unit>, pageText: int -> string, rs: seq<Chapter>)
    requires emitted + UnitsOver(pageText, rs[|rs|..]) == UnitsOver(pageText, rs)
    ensures emitted == UnitsOver(pageText, rs)
  {
    assert rs[|rs|..] == [];
  }

  /** `ingest_file`: the units indexed for one document, in call order. */
  method IngestFile(toc: seq<TocEntry>, numPages: int, pageText: int -> string, step: int) returns (units: seq<Unit>)
    requires step > 0
    ensures units == UnitsOver(pageText, FileRanges(toc, numPages, step))
  {
    units := [];
    var withToc := false;
    if |toc| > 0 {
      var chapters := ChooseChapters(toc, numPages);
      if |chapters| > 0 {
        units := ChapterUnits(pageText, chapters);
        withToc := true;
      }
    }
    if !withToc {
      units := FixedWindowUnits(pageText, numPages, step);
    }
  }

  /** Splitting a block list loses and repeats no text. */
  lemma {:induction false} BlockUnitsText(pageText: int -> string, rs: seq<Chapter>)
    ensures Texts(BlockUnits(pageText, rs)) == RangesText(pageText, rs)
  {
    if rs != [] {
      BlockUnitsText(pageText, rs[1..]);
    }
  }

  /** Whether or not a range is split, its units' texts concatenate to the
      range's text: subdivision loses and repeats nothing. */
  lemma RangeUnitsText(pageText: int -> string, start: int, end: int)
    ensures Texts(RangeUnits(pageText, start, end)) == PagesText(pageText, Range(start, end))
  {
    var text := PagesText(pageText, Range(start, end));
    if NeedsSplit(|text|) {
      EmptyRangeText(pageText, start, end);
      var nb := BlockCount(|text|);
      BlocksPartition(start, end, nb);
      BlockUnitsText(pageText, Blocks(start, end, nb));
      ContiguousText(pageText, Blocks(start, end, nb));
    }
  }

  /** One index call when within budget; otherwise `BlockCount` calls, at least
      two. Every unit of a non-empty range is anchored at one of its pages; an
      empty or inverted range (a table whose pages go backwards) is one unit
      with no text. */
  lemma RangeUnitsShape(pageText: int -> string, start: int, end: int)
    ensures var text := PagesText(pageText, Range(start, end));
            |RangeUnits(pageText, start, end)| == if NeedsSplit(|text|) then BlockCount(|text|) else 1
    ensures start < end ==> forall u :: u in RangeUnits(pageText, start, end) ==> start <= u.page < end
    ensures end <= start ==> RangeUnits(pageText, start, end) == [Unit(start, "")]
  {
    var text := PagesText(pageText, Range(start, end));
    EmptyRangeText(pageText, start, end);
    if NeedsSplit(|text|) {
      var nb := BlockCount(|text|);
      var rs := Blocks(start, end, nb);
      BlockUnitsShape(pageText, rs);
      forall k | 0 <= k < nb
        ensures start <= rs[k].start < end
      {
        BoundaryMonotone(start, end, nb, k, k);
        BoundaryBelowEnd(start, end, nb, k);
      }
    }
  }

  lemma {:induction false} BlockUnitsShape(pageText: int -> string, rs: seq<Chapter>)
    ensures |BlockUnits(pageText, rs)| == |rs|
    ensures forall k :: 0 <= k < |rs| ==> BlockUnits(pageText, rs)[k].page == rs[k].start
  {
    if rs != [] {
      BlockUnitsShape(pageText, rs[1..]);
    }
  }

  /** The units of a list of ranges carry exactly the ranges' text. */
  lemma {:induction false} UnitsOverText(pageText: int -> string, rs: seq<Chapter>)
    ensures Texts(UnitsOver(pageText, rs)) == RangesText(pageText, rs)
  {
    if rs != [] {
      UnitsOverText(pageText, rs[1..]);
      TextsAppend(RangeUnits(pageText, rs[0].start, rs[0].end), UnitsOver(pageText, rs[1..]));
      RangeUnitsText(pageText, rs[0].start, rs[0].end);
    }
  }

  /** Window `k` from `page` starts at `page + k * step`, holds between one and
      `step` pages, and the windows are laid end to end up to `numPages`. */
  lemma WindowsFromShape(page: int, numPages: int, step: int)
    requires step > 0
    ensures forall k :: 0 <= k < |WindowsFrom(page, numPages, step)| ==>
              WindowsFrom(page, numPages, step)[k].start == page + k * step
    ensures forall k :: 0 <= k < |WindowsFrom(page, numPages, step)| ==>
              0 < WindowsFrom(page, numPages, step)[k].end - WindowsFrom(page, numPages, step)[k].start <= step
    ensures Contiguous(WindowsFrom(page, numPages, step))
    ensures page < numPages <==> |WindowsFrom(page, numPages, step)| > 0
    ensures page < numPages ==>
              WindowsFrom(page, numPages, step)[|WindowsFrom(page, numPages, step)| - 1].end == numPages
  {
    WindowsFromStarts(page, numPages, step);
    WindowsFromLayout(page, numPages, step);
  }

  lemma {:induction false} WindowsFromStarts(page: int, numPages: int, step: int)
    requires step > 0
    decreases numPages - page
    ensures forall k :: 0 <= k < |WindowsFrom(page, numPages, step)| ==>
              WindowsFrom(page, numPages, step)[k].start == page + k * step
  {
    if page < numPages {
      var ws := WindowsFrom(page, numPages, step);
      var rest := WindowsFrom(page + step, numPages, step);
      WindowsFromStarts(page + step, numPages, step);
      assert ws[1..] == rest;
      forall k | 1 <= k < |ws|
        ensures ws[k].start == page + k * step
      {
        assert ws[k] == rest[k - 1];
        assert (k - 1) * step + step == k * step;
      }
    }
  }

  lemma {:induction false} WindowsFromLayout(page: int, numPages: int, step: int)
    requires step > 0
    decreases numPages - page
    ensures forall k :: 0 <= k < |WindowsFrom(page, numPages, step)| ==>
              0 < WindowsFrom(page, numPages, step)[k].end - WindowsFrom(page, numPages, step)[k].start <= step
    ensures Contiguous(WindowsFrom(page, numPages, step))
    ensures page < numPages <==> |WindowsFrom(page, numPages, step)| > 0
    ensures page < numPages ==>
              WindowsFrom(page, numPages, step)[|WindowsFrom(page, numPages, step)| - 1].end == numPages
  {
    if page < numPages {
      var ws := WindowsFrom(page, numPages, step);
      var rest := WindowsFrom(page + step, numPages, step);
      WindowsFromLayout(page + step, numPages, step);
      assert ws[1..] == rest;
      forall k | 1 <= k < |ws|
        ensures ws[k] == rest[k - 1]
      {
      }
      if rest != [] {
        assert ws[0].end == page + step == rest[0].start;
      }
    }
  }

  /** Fixed windows start at `0, step, 2 * step, ...`, each holds at most `step`
      pages, and together they cover `[0, numPages)` end to end. */
  lemma FixedWindowsCover(numPages: int, step: int)
    requires step > 0 && numPages > 0
    ensures forall k :: 0 <= k < |Windows(numPages, step)| ==> Windows(numPages, step)[k].start == k * step
    ensures forall k :: 0 <= k < |Windows(numPages, step)| ==>
              Windows(numPages, step)[k].end - Windows(numPages, step)[k].start <= step
    ensures Contiguous(Windows(numPages, step))
    ensures Windows(numPages, step)[0].start == 0
    ensures Windows(numPages, step)[|Windows(numPages, step)| - 1].end == numPages
    ensures RangesPages(Windows(numPages, step)) == Range(0, numPages)
  {
    WindowsFromShape(0, numPages, step);
    ContiguousPages(Windows(numPages, step));
  }

  /** A 12-page document in windows of 5 pages. */
  lemma TwelvePagesInFives()
    ensures Windows(12, 5) == [Chapter(0, 5), Chapter(5, 10), Chapter(10, 12)]
  {
  }

  /** Without a table of contents every page's text is indexed exactly once, in order. */
  lemma FixedWindowText(pageText: int -> string, numPages: int, step: int)
    requires step > 0
    ensures Texts(UnitsOver(pageText, Windows(numPages, step))) == PagesText(pageText, Range(0, numPages))
  {
    UnitsOverText(pageText, Windows(numPages, step));
    if numPages > 0 {
      FixedWindowsCover(numPages, step);
      ContiguousText(pageText, Windows(numPages, step));
    }
  }

  /** Whatever path `ingest_file` takes, the indexed texts are the extracted
      texts of its ranges, in order; with an empty table of contents that is the
      text of every page from 0 to `numPages`. */
  lemma IngestFileText(toc: seq<TocEntry>, numPages: int, pageText: int -> string, step: int)
    requires step > 0
    ensures Texts(UnitsOver(pageText, FileRanges(toc, numPages, step))) == RangesText(pageText, FileRanges(toc, numPages, step))
    ensures toc == [] ==>
              Texts(UnitsOver(pageText, FileRanges(toc, numPages, step))) == PagesText(pageText, Range(0, numPages))
  {
    UnitsOverText(pageText, FileRanges(toc, numPages, step));
    if toc == [] {
      FixedWindowText(pageText, numPages, step);
    }
  }

  predicate PagesSorted(toc: seq<TocEntry>) {
    forall j :: 0 <= j < |toc| - 1 ==> toc[j].page <= toc[j + 1].page
  }

  /** A table of contents of level-1 entries only, in page order, starting by
      page 8 and within the document: the chapters cover `[first page, numPages)`
      end to end and the indexed text is exactly that span's text. */
  lemma FlatTocText(toc: seq<TocEntry>, numPages: int, pageText: int -> string, step: int)
    requires step > 0 && toc != [] && SingleLevel(toc, 1) && PagesSorted(toc)
    requires toc[0].page <= 8 && toc[|toc| - 1].page <= numPages
    ensures FileRanges(toc, numPages, step) == Chapters(toc, numPages, 1)
    ensures Contiguous(FileRanges(toc, numPages, step))
    ensures Texts(UnitsOver(pageText, FileRanges(toc, numPages, step))) == PagesText(pageText, Range(toc[0].page, numPages))
  {
    FlatTocChapters(toc, numPages, step);
    FlatChaptersContiguous(toc, numPages);
    var cs := Chapters(toc, numPages, 1);
    UnitsOverText(pageText, cs);
    ContiguousText(pageText, cs);
  }

  /** With only level-1 entries, levels 3 and 2 yield nothing and level 1 is kept. */
  lemma FlatTocChapters(toc: seq<TocEntry>, numPages: int, step: int)
    requires step > 0 && toc != [] && SingleLevel(toc, 1) && toc[0].page <= 8
    ensures FileRanges(toc, numPages, step) == Chapters(toc, numPages, 1)
  {
    ChapterStarts(toc, numPages, 3);
    ChapterStarts(toc, numPages, 2);
    NoneAtOtherLevel(toc, 1, 3);
    NoneAtOtherLevel(toc, 1, 2);
    SingleLevelContiguous(toc, numPages, 1);
  }

  /** Sorted level-1 chapters ending within the document are laid end to end
      from the first entry's page to `numPages`. */
  lemma FlatChaptersContiguous(toc: seq<TocEntry>, numPages: int)
    requires toc != [] && SingleLevel(toc, 1) && PagesSorted(toc) && toc[|toc| - 1].page <= numPages
    ensures var cs := Chapters(toc, numPages, 1);
            Contiguous(cs) && |cs| == |toc| && cs[0].start == toc[0].page && cs[|cs| - 1].end == numPages
  {
    SingleLevelContiguous(toc, numPages, 1);
    var cs := Chapters(toc, numPages, 1);
    forall k | 0 <= k < |cs|
      ensures cs[k].start <= cs[k].end
    {
      if k < |cs| - 1 {
        assert cs[k].end == cs[k + 1].start == toc[k + 1].page;
      }
    }
  }

  lemma {:induction false} NoneAtOtherLevel(toc: seq<TocEntry>, level: int, other: int)
    requires SingleLevel(toc, level) && other != level
    ensures AtLevel(toc, other) == []
  {
    if toc != [] {
      NoneAtOtherLevel(toc[1..], level, other);
    }
  }
}
