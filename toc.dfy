/** Chapter segmentation from a table of contents (ingest.py, `chapters_from_toc`)
    and the level fallback of `ingest_file`. */
module Toc {
  import opened Pages

  /** One table-of-contents entry `[level, title, page]`, in document order. */
  datatype TocEntry = TocEntry(level: int, title: string, page: int)

  /** The entries at exactly `level`, in order: the ones that open a chapter. */
  function AtLevel(toc: seq<TocEntry>, level: int): seq<TocEntry> {
    if toc == [] then []
    else (if toc[0].level == level then [toc[0]] else []) + AtLevel(toc[1..], level)
  }

  /** The entries at `level` or shallower: the only ones that matter at `level`. */
  function Shallow(toc: seq<TocEntry>, level: int): seq<TocEntry> {
    if toc == [] then []
    else (if toc[0].level <= level then [toc[0]] else []) + Shallow(toc[1..], level)
  }

  /** Where a chapter opened just before `rest` ends: the page of the first
      entry of `rest` at `level` or shallower, or `numPages` if there is none. */
  function CloseAt(rest: seq<TocEntry>, numPages: int, level: int): int {
    if rest == [] then numPages
    else if rest[0].level <= level then rest[0].page
    else CloseAt(rest[1..], numPages, level)
  }

  /** `CloseAt` is the page of the first entry at `level` or shallower, and
      `numPages` when every entry is deeper. */
  lemma {:induction false} CloseAtFirst(rest: seq<TocEntry>, numPages: int, level: int, j: int)
    requires -1 <= j < |rest|
    requires forall k :: 0 <= k < j ==> rest[k].level > level
    requires j == -1 ==> forall k :: 0 <= k < |rest| ==> rest[k].level > level
    requires j >= 0 ==> rest[j].level <= level
    ensures CloseAt(rest, numPages, level) == if j == -1 then numPages else rest[j].page
  {
    if rest != [] && j != 0 {
      CloseAtFirst(rest[1..], numPages, level, if j == -1 then -1 else j - 1);
    }
  }

  /** Reference segmentation: one chapter per entry at `level`, in order, from
      that entry's page to where the next entry at `level` or shallower starts. */
  function Chapters(toc: seq<TocEntry>, numPages: int, level: int): seq<Chapter> {
    if toc == [] then []
    else
      (if toc[0].level == level then [Chapter(toc[0].page, CloseAt(toc[1..], numPages, level))] else [])
      + Chapters(toc[1..], numPages, level)
  }

  /** The chapter still open before `rest`, as it will be emitted. */
  function Pending(start: Option, rest: seq<TocEntry>, numPages: int, level: int): seq<Chapter> {
    match start
    case None => []
    case Some(s) => [Chapter(s, CloseAt(rest, numPages, level))]
  }

  datatype Option = None | Some(value: int)

  /** `chapters_from_toc`: one scan keeping an optional open start. */
  method ChaptersFromToc(toc: seq<TocEntry>, numPages: int, level: int) returns (chapters: seq<Chapter>)
    ensures chapters == Chapters(toc, numPages, level)
  {
    chapters := [];
    var start := None;
    for i := 0 to |toc|
      invariant chapters + Remaining(start, toc[i..], numPages, level) == Chapters(toc, numPages, level)
    {
      var title := toc[i];
      ScanStep(chapters, start, toc, i, numPages, level);
      ghost var before, openStart := chapters, start;
      if title.level <= level && start != None {
        chapters := chapters + [Chapter(start.value, title.page)];
        start := None;
      }
      if title.level == level {
        start := Some(title.page);
      }
      assert chapters == before + Closed(openStart, title, level) && start == Next(openStart, title, level);
    }
    assert toc[|toc|..] == [];
    assert Remaining(start, [], numPages, level) == Pending(start, [], numPages, level);
    if start != None {
      chapters := chapters + [Chapter(start.value, numPages)];
    }
  }

  /** The chapter an entry closes: the open one, when the entry is at `level` or shallower. */
  function Closed(start: Option, e: TocEntry, level: int): seq<Chapter> {
    if e.level <= level && start != None then [Chapter(start.value, e.page)] else []
  }

  /** The open start after an entry: its own page when it is at `level`, none
      when it is shallower, unchanged when it is deeper. */
  function Next(start: Option, e: TocEntry, level: int): Option {
    if e.level == level then Some(e.page) else if e.level <= level then None else start
  }

  /** One entry of the scan keeps the loop invariant: what was emitted, what
      the entry closes and what remains after it make up the whole. */
  lemma ScanStep(emitted: seq<Chapter>, start: Option, toc: seq<TocEntry>, i: nat, numPages: int, level: int)
    requires i < |toc|
    requires emitted + Remaining(start, toc[i..], numPages, level) == Chapters(toc, numPages, level)
    ensures emitted + Closed(start, toc[i], level) + Remaining(Next(start, toc[i], level), toc[i + 1..], numPages, level)
            == Chapters(toc, numPages, level)
  {
    var closed, rest := Closed(start, toc[i], level), Remaining(Next(start, toc[i], level), toc[i + 1..], numPages, level);
    RemainingStep(start, toc, i, numPages, level);
    ConcatAssoc(emitted, closed, rest);
  }

  lemma RemainingStep(start: Option, toc: seq<TocEntry>, i: nat, numPages: int, level: int)
    requires i < |toc|
    ensures Remaining(start, toc[i..], numPages, level)
            == Closed(start, toc[i], level) + Remaining(Next(start, toc[i], level), toc[i + 1..], numPages, level)
  {
    assert toc[i..][1..] == toc[i + 1..];
  }

  /** What the scan will still emit from here: the open chapter, then the chapters of `rest`. */
  function Remaining(start: Option, rest: seq<TocEntry>, numPages: int, level: int): seq<Chapter> {
    Pending(start, rest, numPages, level) + Chapters(rest, numPages, level)
  }

  /** One chapter per entry at `level`, in table order, starting at its page. */
  lemma {:induction false} ChapterStarts(toc: seq<TocEntry>, numPages: int, level: int)
    ensures |Chapters(toc, numPages, level)| == |AtLevel(toc, level)|
    ensures forall k :: 0 <= k < |AtLevel(toc, level)| ==>
              Chapters(toc, numPages, level)[k].start == AtLevel(toc, level)[k].page
  {
    if toc != [] {
      ChapterStarts(toc[1..], numPages, level);
    }
  }

  /** Number of entries at `level` strictly before index `i`. */
  function Rank(toc: seq<TocEntry>, i: nat, level: int): nat
    requires i <= |toc|
  {
    |AtLevel(toc[..i], level)|
  }

  /** The entry at index `i`, if it is at `level`, yields the chapter at position
      `Rank(toc, i, level)`, which runs from its page to the close point after it. */
  lemma {:induction false} ChapterOfEntry(toc: seq<TocEntry>, numPages: int, level: int, i: nat)
    requires i < |toc| && toc[i].level == level
    ensures Rank(toc, i, level) < |Chapters(toc, numPages, level)|
    ensures Chapters(toc, numPages, level)[Rank(toc, i, level)]
            == Chapter(toc[i].page, CloseAt(toc[i + 1..], numPages, level))
  {
    if i == 0 {
      assert toc[..0] == [];
    } else {
      assert toc[1..][..i - 1] == toc[1..i];
      assert toc[..i][1..] == toc[1..i];
      assert toc[1..][i - 1 + 1..] == toc[i + 1..];
      ChapterOfEntry(toc[1..], numPages, level, i - 1);
    }
  }

  lemma {:induction false} CloseAtShallow(rest: seq<TocEntry>, numPages: int, level: int)
    ensures CloseAt(Shallow(rest, level), numPages, level) == CloseAt(rest, numPages, level)
  {
    if rest != [] {
      CloseAtShallow(rest[1..], numPages, level);
      if rest[0].level <= level {
        assert Shallow(rest, level) == [rest[0]] + Shallow(rest[1..], level);
      } else {
        assert Shallow(rest, level) == Shallow(rest[1..], level);
      }
    }
  }

  /** Every entry `AtLevel` keeps is an entry of the table at that level. */
  lemma {:induction false} AtLevelFromToc(toc: seq<TocEntry>, level: int)
    ensures forall k :: 0 <= k < |AtLevel(toc, level)| ==>
              AtLevel(toc, level)[k] in toc && AtLevel(toc, level)[k].level == level
  {
    if toc != [] {
      AtLevelFromToc(toc[1..], level);
    }
  }

  /** Entries deeper than `level` neither open nor close a chapter: dropping them
      leaves the segmentation unchanged. */
  lemma {:induction false} DeeperEntriesIgnored(toc: seq<TocEntry>, numPages: int, level: int)
    ensures Chapters(Shallow(toc, level), numPages, level) == Chapters(toc, numPages, level)
  {
    if toc != [] {
      DeeperEntriesIgnored(toc[1..], numPages, level);
      CloseAtShallow(toc[1..], numPages, level);
      if toc[0].level <= level {
        assert Shallow(toc, level) == [toc[0]] + Shallow(toc[1..], level);
        assert Shallow(toc, level)[1..] == Shallow(toc[1..], level);
      } else {
        assert Shallow(toc, level) == Shallow(toc[1..], level);
      }
    }
  }

  predicate SingleLevel(toc: seq<TocEntry>, level: int) {
    forall j :: 0 <= j < |toc| ==> toc[j].level == level
  }

  /** With every entry at `level`, chapter `k` starts at entry `k`'s page, each
      chapter ends where the next starts, and the last ends at `numPages`. */
  lemma {:induction false} SingleLevelContiguous(toc: seq<TocEntry>, numPages: int, level: int)
    requires SingleLevel(toc, level)
    ensures |Chapters(toc, numPages, level)| == |toc|
    ensures forall k :: 0 <= k < |toc| ==> Chapters(toc, numPages, level)[k].start == toc[k].page
    ensures forall k :: 0 <= k < |toc| - 1 ==>
              Chapters(toc, numPages, level)[k].end == Chapters(toc, numPages, level)[k + 1].start
    ensures |toc| > 0 ==> Chapters(toc, numPages, level)[|toc| - 1].end == numPages
  {
    if toc != [] {
      SingleLevelContiguous(toc[1..], numPages, level);
      var cs := Chapters(toc, numPages, level);
      assert cs == [Chapter(toc[0].page, CloseAt(toc[1..], numPages, level))] + Chapters(toc[1..], numPages, level);
    }
  }

  /** Level-1 entries on pages 1, 10 and 20 of a 30-page document. */
  lemma ThreeChapters()
    ensures Chapters([TocEntry(1, "A", 1), TocEntry(1, "B", 10), TocEntry(1, "C", 20)], 30, 1)
            == [Chapter(1, 10), Chapter(10, 20), Chapter(20, 30)]
  {
    var toc := [TocEntry(1, "A", 1), TocEntry(1, "B", 10), TocEntry(1, "C", 20)];
    SingleLevelContiguous(toc, 30, 1);
  }

  /** A segmentation is kept when it is non-empty and starts by page 8. */
  predicate Acceptable(cs: seq<Chapter>) {
    |cs| > 0 && cs[0].start <= 8
  }

  /** The fallback of `ingest_file`: level 3, else level 2, else level 1. */
  function SelectChapters(toc: seq<TocEntry>, numPages: int): (cs: seq<Chapter>)
    ensures Acceptable(Chapters(toc, numPages, 3)) ==> cs == Chapters(toc, numPages, 3)
    ensures !Acceptable(Chapters(toc, numPages, 3)) && Acceptable(Chapters(toc, numPages, 2)) ==>
              cs == Chapters(toc, numPages, 2)
    ensures !Acceptable(Chapters(toc, numPages, 3)) && !Acceptable(Chapters(toc, numPages, 2)) ==>
              cs == Chapters(toc, numPages, 1)
  {
    var c3 := Chapters(toc, numPages, 3);
    var c2 := if !Acceptable(c3) then Chapters(toc, numPages, 2) else c3;
    if !Acceptable(c2) then Chapters(toc, numPages, 1) else c2
  }

  /** The fallback yields nothing exactly when neither level 3 nor level 2 is
      acceptable and the table has no level-1 entry. */
  lemma SelectChaptersEmpty(toc: seq<TocEntry>, numPages: int)
    ensures SelectChapters(toc, numPages) == [] <==>
              !Acceptable(Chapters(toc, numPages, 3)) && !Acceptable(Chapters(toc, numPages, 2))
              && AtLevel(toc, 1) == []
  {
    ChapterStarts(toc, numPages, 1);
  }

  /** Whatever level wins, its first chapter starts at a page of the table. */
  lemma SelectChaptersFromToc(toc: seq<TocEntry>, numPages: int)
    requires SelectChapters(toc, numPages) != []
    ensures exists j :: 0 <= j < |toc| && SelectChapters(toc, numPages)[0].start == toc[j].page
  {
    var cs := SelectChapters(toc, numPages);
    var level := if cs == Chapters(toc, numPages, 3) then 3 else if cs == Chapters(toc, numPages, 2) then 2 else 1;
    assert cs == Chapters(toc, numPages, level);
    ChapterStarts(toc, numPages, level);
    AtLevelFromToc(toc, level);
    var e := AtLevel(toc, level)[0];
    var j :| 0 <= j < |toc| && toc[j] == e;
  }
}
