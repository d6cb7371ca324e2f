/** Page ranges and page-text extraction (ingest.py, `extract_text_from_pages`).
    The PDF itself is abstract: `pageText(p)` is the raw text the reader returns
    for page number `p` (the source reads `doc[p - 1]`; that shift is folded into
    the function, so page numbers stay uninterpreted here). */
module Pages {

  /** The source's `Chapter` record: a half-open page range `[start, end)`.
      Fixed windows and sub-blocks are the same pair of bounds. */
  datatype Chapter = Chapter(start: int, end: int)

  /** Python's `range(a, b)`. */
  function Range(a: int, b: int): (r: seq<int>)
    decreases b - a
    ensures |r| == if a < b then b - a else 0
    ensures forall k :: 0 <= k < |r| ==> r[k] == a + k
  {
    if a >= b then [] else [a] + Range(a + 1, b)
  }

  lemma RangeSplit(a: int, b: int, c: int)
    requires a <= b <= c
    ensures Range(a, c) == Range(a, b) + Range(b, c)
  {
    assert forall k :: 0 <= k < c - a ==> Range(a, c)[k] == (Range(a, b) + Range(b, c))[k];
  }

  /** The regular-expression class `\d`, restricted to ASCII digits. */
  predicate IsDigit(c: char) {
    '0' <= c <= '9'
  }

  /** Length of the run of digits that starts `s`. */
  function DigitRun(s: string): (n: nat)
    ensures n <= |s|
    ensures forall k :: 0 <= k < n ==> IsDigit(s[k])
    ensures n < |s| ==> !IsDigit(s[n])
  {
    if s != [] && IsDigit(s[0]) then 1 + DigitRun(s[1..]) else 0
  }

  /** Length of a match of the pattern `\n\d+\n` anchored at the start of `s`,
      if there is one. `\d+` is greedy and backtracking cannot help: a shorter
      run would leave a digit where the closing newline must be. */
  function FooterAt(s: string): (m: nat)
    ensures m == 0 || 3 <= m <= |s|
    ensures m > 0 ==> s[0] == '\n' && s[m - 1] == '\n'
    ensures m > 0 ==> forall k :: 1 <= k < m - 1 ==> IsDigit(s[k])
    ensures m == 0 && 2 <= |s| && s[0] == '\n' && IsDigit(s[1]) ==>
              forall j :: 2 <= j < |s| && s[j] == '\n' ==> exists k :: 1 <= k < j && !IsDigit(s[k])
  {
    if s != [] && s[0] == '\n' then
      var n := DigitRun(s[1..]);
      if n >= 1 && n + 1 < |s| && s[n + 1] == '\n' then n + 2 else 0
    else 0
  }

  /** `re.sub(r'\n\d+\n', '', s)`: matches are removed left to right and do not overlap. */
  function StripFooters(s: string): (r: string)
    decreases |s|
    ensures |r| <= |s|
    ensures '\n' !in s ==> r == s
    ensures (forall k :: 0 <= k < |s| ==> !IsDigit(s[k])) ==> r == s
  {
    if s == [] then []
    else
      var m := FooterAt(s);
      if m > 0 then StripFooters(s[m..]) else [s[0]] + StripFooters(s[1..])
  }

  /** Removing page-number lines is not idempotent: the second newline of a
      removed match can no longer open a later one. */
  lemma StripFootersNotIdempotent()
    ensures StripFooters("\n\n1\n2\n") == "\n2\n"
    ensures StripFooters("\n2\n") == ""
  {
    assert StripFooters("\n") == "\n" by { assert FooterAt("\n") == 0; }
    assert StripFooters("2\n") == "2\n" by { assert "2\n"[1..] == "\n"; }
    assert StripFooters("\n1\n2\n") == "2\n" by {
      assert DigitRun("1\n2\n") == 1;
      assert "\n1\n2\n"[3..] == "2\n";
    }
    assert StripFooters("\n\n1\n2\n") == "\n2\n" by {
      assert FooterAt("\n\n1\n2\n") == 0;
      assert "\n\n1\n2\n"[1..] == "\n1\n2\n";
    }
    assert StripFooters("\n2\n") == "" by {
      assert DigitRun("2\n") == 1;
      assert "\n2\n"[3..] == "";
    }
  }

  /** The text `extract_text_from_pages` returns: each page stripped, then
      concatenated in the order given. */
  function PagesText(pageText: int -> string, pages: seq<int>): string {
    if pages == [] then "" else StripFooters(pageText(pages[0])) + PagesText(pageText, pages[1..])
  }

  method ExtractTextFromPages(pageText: int -> string, pageNumbers: seq<int>) returns (text: string)
    ensures text == PagesText(pageText, pageNumbers)
  {
    text := "";
    for i := 0 to |pageNumbers|
      invariant text + PagesText(pageText, pageNumbers[i..]) == PagesText(pageText, pageNumbers)
    {
      var pageTextStripped := StripFooters(pageText(pageNumbers[i]));
      ghost var before := text;
      text := text + pageTextStripped;
      PageStep(before, text, pageText, pageNumbers, i);
    }
    assert pageNumbers[|pageNumbers|..] == [];
    assert text + "" == text;
  }

  /** One page keeps the loop invariant of the extraction loop. */
  lemma PageStep(done: string, after: string, pageText: int -> string, pages: seq<int>, i: int)
    requires 0 <= i < |pages| && after == done + StripFooters(pageText(pages[i]))
    requires done + PagesText(pageText, pages[i..]) == PagesText(pageText, pages)
    ensures after + PagesText(pageText, pages[i + 1..]) == PagesText(pageText, pages)
  {
    assert pages[i..][1..] == pages[i + 1..];
    ConcatAssoc(done, StripFooters(pageText(pages[i])), PagesText(pageText, pages[i + 1..]));
  }

  /** Extraction is a homomorphism from page lists to strings. */
  lemma {:induction false} PagesTextAppend(pageText: int -> string, xs: seq<int>, ys: seq<int>)
    ensures PagesText(pageText, xs + ys) == PagesText(pageText, xs) + PagesText(pageText, ys)
  {
    if xs != [] {
      assert (xs + ys)[1..] == xs[1..] + ys;
      PagesTextAppend(pageText, xs[1..], ys);
    } else {
      assert xs + ys == ys;
    }
  }

  /** Extraction never adds text: the result is at most as long as the raw pages. */
  lemma {:induction false} PagesTextLength(pageText: int -> string, pages: seq<int>)
    ensures |PagesText(pageText, pages)| <= RawLength(pageText, pages)
  {
    if pages != [] {
      PagesTextLength(pageText, pages[1..]);
    }
  }

  function RawLength(pageText: int -> string, pages: seq<int>): nat {
    if pages == [] then 0 else |pageText(pages[0])| + RawLength(pageText, pages[1..])
  }

  /** The text of `[a, c)` is the text of `[a, b)` followed by that of `[b, c)`. */
  lemma PagesTextSplit(pageText: int -> string, a: int, b: int, c: int)
    requires a <= b <= c
    ensures PagesText(pageText, Range(a, c)) == PagesText(pageText, Range(a, b)) + PagesText(pageText, Range(b, c))
  {
    RangeSplit(a, b, c);
    PagesTextAppend(pageText, Range(a, b), Range(b, c));
  }

  /** An empty or inverted range has no text. */
  lemma EmptyRangeText(pageText: int -> string, a: int, b: int)
    ensures b <= a ==> PagesText(pageText, Range(a, b)) == ""
  {
  }

  /** Concatenation regrouped, stated apart so that loop steps need not rediscover it. */
  lemma ConcatAssoc<T>(a: seq<T>, b: seq<T>, c: seq<T>)
    ensures a + b + c == a + (b + c)
  {
  }

  /** Ranges laid end to end: each is non-inverted and ends where the next starts. */
  predicate Contiguous(rs: seq<Chapter>) {
    && (forall k :: 0 <= k < |rs| ==> rs[k].start <= rs[k].end)
    && (forall k :: 0 <= k < |rs| - 1 ==> rs[k].end == rs[k + 1].start)
  }

  /** The pages of each range, one range after another. */
  function RangesPages(rs: seq<Chapter>): seq<int> {
    if rs == [] then [] else Range(rs[0].start, rs[0].end) + RangesPages(rs[1..])
  }

  /** The extracted text of each range, one range after another. */
  function RangesText(pageText: int -> string, rs: seq<Chapter>): string {
    if rs == [] then "" else PagesText(pageText, Range(rs[0].start, rs[0].end)) + RangesText(pageText, rs[1..])
  }

  /** Contiguous ranges partition the span from the first start to the last end:
      every page in it once, in increasing order. */
  lemma {:induction false} ContiguousPages(rs: seq<Chapter>)
    requires Contiguous(rs) && |rs| > 0
    ensures RangesPages(rs) == Range(rs[0].start, rs[|rs| - 1].end)
  {
    if |rs| == 1 {
      assert RangesPages(rs[1..]) == [];
    } else {
      assert Contiguous(rs[1..]);
      ContiguousPages(rs[1..]);
      assert rs[0].end == rs[1].start;
      assert rs[1].start <= rs[|rs| - 1].end by {
        ContiguousOrdered(rs[1..]);
      }
      RangeSplit(rs[0].start, rs[0].end, rs[|rs| - 1].end);
    }
  }

  lemma {:induction false} ContiguousOrdered(rs: seq<Chapter>)
    requires Contiguous(rs) && |rs| > 0
    ensures rs[0].start <= rs[|rs| - 1].end
  {
    if |rs| > 1 {
      assert Contiguous(rs[1..]);
      ContiguousOrdered(rs[1..]);
    }
  }

  /** Extracting range by range gives the same text as extracting the whole span. */
  lemma {:induction false} RangesTextIsPagesText(pageText: int -> string, rs: seq<Chapter>)
    ensures RangesText(pageText, rs) == PagesText(pageText, RangesPages(rs))
  {
    if rs != [] {
      RangesTextIsPagesText(pageText, rs[1..]);
      PagesTextAppend(pageText, Range(rs[0].start, rs[0].end), RangesPages(rs[1..]));
    }
  }

  /** Hence the text of contiguous ranges is the text of the span they cover. */
  lemma ContiguousText(pageText: int -> string, rs: seq<Chapter>)
    requires Contiguous(rs) && |rs| > 0
    ensures RangesText(pageText, rs) == PagesText(pageText, Range(rs[0].start, rs[|rs| - 1].end))
  {
    RangesTextIsPagesText(pageText, rs);
    ContiguousPages(rs);
  }
}
