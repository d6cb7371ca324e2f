/** The token budget of ingest.py: when a unit is split, into how many blocks,
    and the page boundaries of `divide_per_chunck`. The source's floating-point
    expressions are modelled exactly over the integers. */
module Budget {
  import opened Pages

  /** Characters per estimated token (`len(text) / 4`). */
  const CharsPerToken: nat := 4
  /** Estimated tokens allowed in one unit. */
  const TokenBudget: nat := 8000
  /** The budget in characters. */
  const CharBudget: nat := CharsPerToken * TokenBudget

  /** `len(text) / 4 > 8000`: exactly the lengths that need more than one block. */
  predicate NeedsSplit(textLength: nat)
    ensures NeedsSplit(textLength) <==> BlockCount(textLength) >= 2
  {
    textLength > CharBudget
  }

  /** The integer test is the source's test on the estimated token count. */
  lemma NeedsSplitIsTokenTest(textLength: nat)
    ensures NeedsSplit(textLength) <==> (textLength as real) / 4.0 > 8000.0
  {
  }

  /** `ceil(len(text) / 4 / 8000)`: the fewest blocks of `CharBudget` characters
      that hold the text. */
  function BlockCount(textLength: nat): (b: nat)
    ensures b * CharBudget >= textLength
    ensures textLength > 0 ==> (b - 1) * CharBudget < textLength
    ensures textLength == 0 ==> b == 0
  {
    (textLength + CharBudget - 1) / CharBudget
  }

  /** A text that needs splitting is split into at least two blocks. */
  lemma SplitMeansSeveralBlocks(textLength: nat)
    requires NeedsSplit(textLength)
    ensures BlockCount(textLength) >= 2
  {
  }

  /** Beyond the budget, doubling the text raises the block count. */
  lemma DoublingAddsBlocks(textLength: nat)
    requires NeedsSplit(textLength)
    ensures BlockCount(2 * textLength) > BlockCount(textLength)
  {
    var b, b2 := BlockCount(textLength), BlockCount(2 * textLength);
    assert (b - 1) * CharBudget < textLength;
    assert b2 * CharBudget >= 2 * textLength > 2 * (b - 1) * CharBudget;
  }

  /** Boundary `i` of `divide_per_chunck`: `floor(start + (end - start) / nb * i)`.
      With a positive divisor Dafny's `/` rounds down for either sign, as `floor` does. */
  function Boundary(start: int, end: int, nb: int, i: int): (b: int)
    requires nb > 0
    ensures i == 0 ==> b == start
    ensures i == nb ==> b == end
  {
    DivUnique((end - start) * 0, nb, 0, 0);
    DivUnique((end - start) * nb, nb, end - start, 0);
    start + ((end - start) * i) / nb
  }

  lemma MulSign(t: int, nb: int)
    requires nb > 0
    ensures t >= 1 ==> t * nb >= nb
    ensures t <= -1 ==> t * nb <= -nb
  {
    if t >= 1 {
      assert t * nb == (t - 1) * nb + nb;
    } else if t <= -1 {
      assert t * nb == (t + 1) * nb - nb;
    }
  }

  /** Quotient and remainder are unique. */
  lemma DivUnique(x: int, nb: int, q: int, r: int)
    requires nb > 0 && 0 <= r < nb && x == q * nb + r
    ensures x / nb == q
  {
    var q', r' := x / nb, x % nb;
    assert x == q' * nb + r';
    assert q * nb - q' * nb == (q - q') * nb;
    MulSign(q - q', nb);
  }

  /** Boundary `i` is the floor of the exact real boundary. */
  lemma BoundaryIsFloor(start: int, end: int, nb: int, i: int)
    requires nb > 0
    ensures Boundary(start, end, nb, i) as real <= start as real + ((end - start) as real / nb as real) * i as real
    ensures start as real + ((end - start) as real / nb as real) * i as real < Boundary(start, end, nb, i) as real + 1.0
  {
    var x := (end - start) * i;
    var q, r := x / nb, x % nb;
    assert x == q * nb + r;
    var exact := ((end - start) as real / nb as real) * i as real;
    assert exact == x as real / nb as real;
    assert x as real == q as real * nb as real + r as real;
    assert x as real / nb as real == q as real + r as real / nb as real;
  }

  lemma {:induction false} DivMonotone(a: int, b: int, nb: int)
    requires nb > 0 && a <= b
    ensures a / nb <= b / nb
  {
    var qa, qb := a / nb, b / nb;
    assert a == qa * nb + a % nb && b == qb * nb + b % nb;
    assert qa * nb - qb * nb == (qa - qb) * nb;
    MulSign(qa - qb, nb);
  }

  lemma MulMonotone(d: int, i: int, j: int)
    requires d >= 0 && i <= j
    ensures d * i <= d * j
  {
    assert d * j - d * i == d * (j - i);
  }

  /** A quotient below `d` when the dividend is below `d * nb`. */
  lemma DivBelow(x: int, nb: int, d: int)
    requires nb > 0 && x < d * nb
    ensures x / nb < d
  {
    var q := x / nb;
    assert x == q * nb + x % nb;
    assert q * nb - d * nb == (q - d) * nb;
    MulSign(q - d, nb);
  }

  /** Every block but an empty range's starts before `end`. */
  lemma BoundaryBelowEnd(start: int, end: int, nb: int, i: int)
    requires nb > 0 && start < end && 0 <= i < nb
    ensures Boundary(start, end, nb, i) < end
  {
    var d := end - start;
    BoundaryMonotone(start, end, nb, i, nb - 1);
    assert d * (nb - 1) < d * nb by {
      assert d * nb - d * (nb - 1) == d;
    }
    DivBelow(d * (nb - 1), nb, d);
  }

  /** Boundaries start at `start`, end at `end` and never decrease in between. */
  lemma BoundaryMonotone(start: int, end: int, nb: int, i: int, j: int)
    requires nb > 0 && start <= end && 0 <= i <= j <= nb
    ensures Boundary(start, end, nb, 0) == start
    ensures Boundary(start, end, nb, nb) == end
    ensures start <= Boundary(start, end, nb, i) <= Boundary(start, end, nb, j) <= end
  {
    var d := end - start;
    MulMonotone(d, 0, i);
    MulMonotone(d, i, j);
    MulMonotone(d, j, nb);
    DivMonotone(d * 0, d * i, nb);
    DivMonotone(d * i, d * j, nb);
    DivMonotone(d * j, d * nb, nb);
  }

  /** The `nb` page ranges `divide_per_chunck` visits, in order. */
  function Blocks(start: int, end: int, nb: int): (rs: seq<Chapter>)
    ensures |rs| == if nb > 0 then nb else 0
  {
    if nb <= 0 then []
    else seq(nb, i requires 0 <= i < nb => Chapter(Boundary(start, end, nb, i), Boundary(start, end, nb, i + 1)))
  }

  /** The blocks partition `[start, end)`: the first starts at `start`, the last
      ends at `end`, each ends where the next starts, none is inverted (some may
      be empty when there are more blocks than pages), and together they hold
      every page of the range once, in order. */
  lemma BlocksPartition(start: int, end: int, nb: int)
    requires nb > 0 && start <= end
    ensures Blocks(start, end, nb)[0].start == start
    ensures Blocks(start, end, nb)[nb - 1].end == end
    ensures Contiguous(Blocks(start, end, nb))
    ensures RangesPages(Blocks(start, end, nb)) == Range(start, end)
  {
    var rs := Blocks(start, end, nb);
    BoundaryMonotone(start, end, nb, 0, 0);
    forall k | 0 <= k < nb
      ensures rs[k].start <= rs[k].end
    {
      BoundaryMonotone(start, end, nb, k, k + 1);
    }
    ContiguousPages(rs);
  }

  /** The split is by page count and near-equal: each block holds
      `(end - start) / nb` pages or one more. */
  lemma BlockSizes(start: int, end: int, nb: int, i: int)
    requires nb > 0 && start <= end && 0 <= i < nb
    ensures var size := Blocks(start, end, nb)[i].end - Blocks(start, end, nb)[i].start;
            (end - start) / nb <= size <= (end - start) / nb + 1
  {
    var d := end - start;
    BoundaryStep(d, nb, i);
    assert Blocks(start, end, nb)[i].end - Blocks(start, end, nb)[i].start == (d * (i + 1)) / nb - (d * i) / nb;
  }

  lemma BoundaryStep(d: int, nb: int, i: int)
    requires nb > 0
    ensures d / nb <= (d * (i + 1)) / nb - (d * i) / nb <= d / nb + 1
  {
    var a := d * i;
    var qa, ra := a / nb, a % nb;
    var qd, rd := d / nb, d % nb;
    assert d * (i + 1) == a + d;
    assert a + d == (qa + qd) * nb + (ra + rd) by {
      assert a == qa * nb + ra && d == qd * nb + rd;
      assert (qa + qd) * nb == qa * nb + qd * nb;
    }
    if ra + rd < nb {
      DivUnique(a + d, nb, qa + qd, ra + rd);
    } else {
      assert a + d == (qa + qd + 1) * nb + (ra + rd - nb) by {
        assert (qa + qd + 1) * nb == (qa + qd) * nb + nb;
      }
      DivUnique(a + d, nb, qa + qd + 1, ra + rd - nb);
    }
  }

  /** More blocks than pages leave some blocks empty: three blocks over two pages. */
  lemma EmptyBlockExample()
    ensures Blocks(0, 2, 3) == [Chapter(0, 0), Chapter(0, 1), Chapter(1, 2)]
  {
    var rs := Blocks(0, 2, 3);
    assert rs[0] == Chapter(0, 0) && rs[1] == Chapter(0, 1) && rs[2] == Chapter(1, 2);
  }
}
