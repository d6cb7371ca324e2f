/** The post-processing of the language-model calls in answer_en.py and
    answer_fr.py: parsing the keyword reply (`answer_keywords`) and packing the
    search hits into the answer prompt's context (`answer_generate`). Both
    scripts share this code line for line; only the per-hit line differs. The
    model's reply is a plain string input and `LLM_NB_TOKENS` an integer input. */
module Answer {
  import opened Text

  /** The reply's keywords: the comma-separated pieces, each stripped, unless the
      reply is a single piece containing a `0` (the "no keyword" answer). */
  function ParseKeywords(reply: string): (keywords: seq<string>)
    ensures ',' !in reply && '0' in reply ==> keywords == []
    ensures !(',' !in reply && '0' in reply) ==>
              |keywords| == Count(reply, ',') + 1
              && forall i :: 0 <= i < |keywords| ==> keywords[i] == Strip(Split(reply, ',')[i])
    ensures ',' in reply ==> keywords != []
  {
    var pieces := Split(reply, ',');
    SplitShape(reply, ',');
    if |pieces| == 0 || (|pieces| == 1 && '0' in pieces[0]) then []
    else seq(|pieces|, i requires 0 <= i < |pieces| => Strip(pieces[i]))
  }

  lemma SplitShape(s: string, sep: char)
    ensures sep !in s ==> Split(s, sep) == [s]
    ensures sep in s ==> |Split(s, sep)| >= 2
  {
    if sep !in s {
      NoSeparator(s, sep);
    } else {
      CountPositive(s, sep);
    }
  }

  lemma {:induction false} CountPositive(s: string, c: char)
    requires c in s
    ensures Count(s, c) > 0
  {
    if s[0] != c {
      assert c in s[1..] by {
        var k :| 0 <= k < |s| && s[k] == c;
        assert s[1..][k - 1] == c;
      }
      CountPositive(s[1..], c);
    }
  }

  /** Every keyword is clean: no comma and no surrounding whitespace. */
  lemma KeywordsClean(reply: string)
    ensures forall i :: 0 <= i < |ParseKeywords(reply)| ==>
              ',' !in ParseKeywords(reply)[i]
              && (ParseKeywords(reply)[i] == [] || !IsSpace(ParseKeywords(reply)[i][0]))
              && (ParseKeywords(reply)[i] == [] || !IsSpace(ParseKeywords(reply)[i][|ParseKeywords(reply)[i]| - 1]))
  {
    var ks := ParseKeywords(reply);
    var pieces := Split(reply, ',');
    forall i | 0 <= i < |ks|
      ensures ',' !in ks[i]
    {
      StripKeepsOut(pieces[i], ',');
    }
  }

  /** The sentinel test is a containment test: a single keyword holding the
      digit 0 is dropped like the literal reply `0`. */
  lemma SingleKeywordWithZeroIsDropped()
    ensures ParseKeywords("0") == []
    ensures ParseKeywords("Windows 10") == []
  {
    var reply := "Windows 10";
    assert reply[9] == '0';
    assert ',' !in reply by {
      forall k | 0 <= k < |reply|
        ensures reply[k] != ','
      {
      }
    }
  }

  /** One search hit as `answer_generate` reads it. */
  datatype Hit = Hit(document: string, page: int, content: string)

  /** Which script: the two differ only in the per-hit line. */
  datatype Language = English | French

  function DigitChar(d: int): char
    requires 0 <= d < 10
  {
    ('0' as int + d) as char
  }

  /** Python's `str(n)` for an integer. */
  function DecimalString(n: int): (r: string)
    decreases if n < 0 then 1 - n else n
    ensures |r| >= 1
    ensures n >= 0 ==> forall k :: 0 <= k < |r| ==> '0' <= r[k] <= '9'
    ensures n < 0 ==> r[0] == '-'
  {
    if n < 0 then "-" + DecimalString(-n)
    else if n < 10 then [DigitChar(n)]
    else DecimalString(n / 10) + [DigitChar(n % 10)]
  }

  function ParseDecimal(s: string): int {
    if s == [] then 0
    else if s[0] == '-' then -ParseDecimal(s[1..])
    else ParseDigits(s)
  }

  function ParseDigits(s: string): int {
    if s == [] then 0 else 10 * ParseDigits(s[..|s| - 1]) + (s[|s| - 1] as int - '0' as int)
  }

  /** The page number can be read back from its rendering. */
  lemma {:induction false} DecimalRoundTrip(n: int)
    decreases if n < 0 then 1 - n else n
    ensures ParseDecimal(DecimalString(n)) == n
  {
    if n < 0 {
      DecimalRoundTrip(-n);
      assert DecimalString(n)[1..] == DecimalString(-n);
    } else {
      DigitsRoundTrip(n);
    }
  }

  lemma {:induction false} DigitsRoundTrip(n: nat)
    ensures ParseDigits(DecimalString(n)) == n
  {
    var s := DecimalString(n);
    if n >= 10 {
      DigitsRoundTrip(n / 10);
      assert s[..|s| - 1] == DecimalString(n / 10);
      assert s[|s| - 1] as int - '0' as int == n % 10;
    } else {
      assert s[..0] == [];
    }
  }

  /** `"Document title : {document}, Page : {page}, Text : {content}\n"` in
      answer_en.py and `"Titre du document : ..., Texte : ...\n"` in answer_fr.py. */
  function DocContext(lang: Language, hit: Hit): (line: string)
    ensures |line| > |hit.document| + |hit.content| && line[|line| - 1] == '\n'
  {
    var labels := Labels(lang);
    labels.0 + hit.document + ", Page : " + DecimalString(hit.page) + labels.1 + hit.content + "\n"
  }

  function Labels(lang: Language): (string, string) {
    match lang
    case English => ("Document title : ", ", Text : ")
    case French => ("Titre du document : ", ", Texte : ")
  }

  /** The English line opens with its label and the title, closes with the
      content and a newline, and its length is the fields' plus 36. */
  lemma EnglishLine(hit: Hit)
    ensures var line := DocContext(English, hit);
            && line[..17 + |hit.document|] == "Document title : " + hit.document
            && line[|line| - |hit.content| - 1..] == hit.content + "\n"
            && |line| == |hit.document| + |DecimalString(hit.page)| + |hit.content| + 36
  {
    var line := DocContext(English, hit);
    var head := "Document title : " + hit.document;
    var middle := ", Page : " + DecimalString(hit.page) + ", Text : ";
    var tail := hit.content + "\n";
    assert line == head + middle + tail;
    assert |"Document title : "| == 17 && |", Page : "| == 9 && |", Text : "| == 9;
    assert (head + middle + tail)[..|head|] == head;
    assert (head + middle + tail)[|head + middle|..] == tail;
  }

  /** The French line opens with its label and the title, closes with the
      content and a newline, and its length is the fields' plus 40. */
  lemma FrenchLine(hit: Hit)
    ensures var line := DocContext(French, hit);
            && line[..20 + |hit.document|] == "Titre du document : " + hit.document
            && line[|line| - |hit.content| - 1..] == hit.content + "\n"
            && |line| == |hit.document| + |DecimalString(hit.page)| + |hit.content| + 40
  {
    var line := DocContext(French, hit);
    var head := "Titre du document : " + hit.document;
    var middle := ", Page : " + DecimalString(hit.page) + ", Texte : ";
    var tail := hit.content + "\n";
    assert line == head + middle + tail;
    assert |"Titre du document : "| == 20 && |", Page : "| == 9 && |", Texte : "| == 10;
    assert (head + middle + tail)[..|head|] == head;
    assert (head + middle + tail)[|head + middle|..] == tail;
  }

  function Lines(lang: Language, hits: seq<Hit>): (lines: seq<string>)
    ensures |lines| == |hits|
  {
    seq(|hits|, i requires 0 <= i < |hits| => DocContext(lang, hits[i]))
  }

  /** The greedy decisions of the packing loop: line `i` is taken when the text
      taken so far (`used` characters) plus the line stays under `limit`. */
  function Decisions(used: nat, lines: seq<string>, limit: int): (taken: seq<bool>)
    decreases |lines|
    ensures |taken| == |lines|
  {
    if lines == [] then []
    else
      var take := used + |lines[0]| < limit;
      [take] + Decisions(if take then used + |lines[0]| else used, lines[1..], limit)
  }

  /** No flagged line has any text, read from the back like `Chosen`. */
  predicate NothingTaken(lines: seq<string>, taken: seq<bool>)
    requires |taken| == |lines|
  {
    lines == []
    || ((!taken[|lines| - 1] || lines[|lines| - 1] == "") && NothingTaken(lines[..|lines| - 1], taken[..|lines| - 1]))
  }

  /** The lines whose flag is set, concatenated in order. */
  function Chosen(lines: seq<string>, taken: seq<bool>): (context: string)
    requires |taken| == |lines|
    ensures context == "" <==> NothingTaken(lines, taken)
  {
    if lines == [] then ""
    else Chosen(lines[..|lines| - 1], taken[..|lines| - 1]) + (if taken[|lines| - 1] then lines[|lines| - 1] else "")
  }

  /** The budget test on estimated tokens is the integer test on characters. */
  lemma FitsIsTokenTest(contextLength: nat, lineLength: nat, nbTokens: int)
    ensures (contextLength + lineLength) < 4 * nbTokens
            <==> ((contextLength + lineLength) as real) / 4.0 < nbTokens as real
  {
  }

  /** The loop of `answer_generate`: each hit's line is appended when the
      estimated tokens of the context with it stay under `nbTokens`; a line that
      does not fit is skipped and the loop goes on. */
  method BuildContext(lang: Language, hits: seq<Hit>, nbTokens: int) returns (context: string)
    ensures context == Chosen(Lines(lang, hits), Decisions(0, Lines(lang, hits), 4 * nbTokens))
    ensures context == "" || |context| < 4 * nbTokens
  {
    ghost var lines := Lines(lang, hits);
    ghost var taken := Decisions(0, lines, 4 * nbTokens);
    context := "";
    for i := 0 to |hits|
      invariant context == Chosen(lines[..i], taken[..i])
      invariant taken[i..] == Decisions(|context|, lines[i..], 4 * nbTokens)
      invariant context == "" || |context| < 4 * nbTokens
    {
      var docContext := DocContext(lang, hits[i]);
      PackStep(lines, taken, 4 * nbTokens, i, context, docContext);
      if (|context| + |docContext|) < 4 * nbTokens {
        context := context + docContext;
      }
    }
    assert lines[..|hits|] == lines && taken[..|hits|] == taken;
  }

  /** One turn of the packing loop keeps both loop invariants. */
  lemma PackStep(lines: seq<string>, taken: seq<bool>, limit: int, i: nat, context: string, line: string)
    requires i < |lines| == |taken| && line == lines[i]
    requires context == Chosen(lines[..i], taken[..i])
    requires taken[i..] == Decisions(|context|, lines[i..], limit)
    ensures var next := if |context| + |line| < limit then context + line else context;
            && next == Chosen(lines[..i + 1], taken[..i + 1])
            && taken[i + 1..] == Decisions(|next|, lines[i + 1..], limit)
  {
    DecisionsStep(|context|, lines, limit, taken, i);
    ChosenSnoc(lines, taken, i);
  }

  /** One step of the decisions, read at position `i`. */
  lemma DecisionsStep(used: nat, lines: seq<string>, limit: int, taken: seq<bool>, i: nat)
    requires i < |lines| == |taken|
    requires taken[i..] == Decisions(used, lines[i..], limit)
    ensures taken[i] == (used + |lines[i]| < limit)
    ensures taken[i + 1..] == Decisions(if taken[i] then used + |lines[i]| else used, lines[i + 1..], limit)
  {
    assert lines[i..][0] == lines[i] && lines[i..][1..] == lines[i + 1..];
    assert taken[i..][0] == taken[i] && taken[i..][1..] == taken[i + 1..];
  }

  /** `Chosen` grows by at most one line per position. */
  lemma ChosenSnoc(lines: seq<string>, taken: seq<bool>, i: nat)
    requires i < |lines| == |taken|
    ensures Chosen(lines[..i + 1], taken[..i + 1])
            == Chosen(lines[..i], taken[..i]) + (if taken[i] then lines[i] else "")
  {
    assert lines[..i + 1][..i] == lines[..i] && taken[..i + 1][..i] == taken[..i];
  }

  /** Greedy characterisation: a line is taken exactly when it fits on top of
      the lines taken before it. */
  lemma {:induction false} DecisionsGreedy(used: nat, lines: seq<string>, limit: int, i: nat)
    requires i < |lines|
    decreases i
    ensures Decisions(used, lines, limit)[i]
            <==> used + |Chosen(lines[..i], Decisions(used, lines, limit)[..i])| + |lines[i]| < limit
  {
    var taken := Decisions(used, lines, limit);
    var take := used + |lines[0]| < limit;
    var used' := if take then used + |lines[0]| else used;
    if i > 0 {
      DecisionsGreedy(used', lines[1..], limit, i - 1);
      ChosenCons(lines[..i], taken[..i]);
      assert lines[..i][1..] == lines[1..][..i - 1];
      assert taken[..i][1..] == Decisions(used', lines[1..], limit)[..i - 1];
    }
  }

  /** `Chosen` read from the front. */
  lemma {:induction false} ChosenCons(lines: seq<string>, taken: seq<bool>)
    requires |taken| == |lines| > 0
    ensures Chosen(lines, taken) == (if taken[0] then lines[0] else "") + Chosen(lines[1..], taken[1..])
  {
    if |lines| > 1 {
      var n := |lines|;
      ChosenCons(lines[..n - 1], taken[..n - 1]);
      assert lines[..n - 1][1..] == lines[1..][..n - 2];
      assert taken[..n - 1][1..] == taken[1..][..n - 2];
    } else {
      assert lines[..0] == [] && lines[1..] == [];
    }
  }

  /** A long hit that does not fit is skipped and a later short one is still
      taken, so the context need not be a prefix of the hit lines. */
  lemma SkippedHitDoesNotStopPacking()
    ensures Chosen(["abcdef", "ab"], Decisions(0, ["abcdef", "ab"], 4)) == "ab"
  {
    var lines := ["abcdef", "ab"];
    assert Decisions(0, lines, 4) == [false, true] by {
      assert lines[1..] == ["ab"];
    }
    assert lines[..1] == ["abcdef"];
  }
}
