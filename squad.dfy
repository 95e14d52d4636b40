/** Span-extraction scoring in token-index space (farm/metrics.py, squad_EM,
    squad_f1, squad). Scores compare start/end token indices, not answer
    text, so they are not the official SQuAD numbers. Ratios are exact reals. */
module Squad {

  import opened Results

  // ---------------------------------------------------------------------------
  // Input layout: even list entries hold start indices, odd entries end indices

  /** `xs[::2]` */
  function Evens<T>(xs: seq<T>): (r: seq<T>)
    ensures |r| == (|xs| + 1) / 2
    ensures forall i :: 0 <= i < |r| ==> r[i] == xs[2 * i]
  {
    if |xs| <= 1 then xs
    else [xs[0]] + Evens(xs[2..])
  }

  /** `xs[1::2]` */
  function Odds<T>(xs: seq<T>): (r: seq<T>)
    ensures |r| == |xs| / 2
    ensures forall i :: 0 <= i < |r| ==> r[i] == xs[2 * i + 1]
  {
    if xs == [] then [] else Evens(xs[1..])
  }

  /** `torch.cat`: the chunks one after another. */
  function Concat(chunks: seq<seq<int>>): (r: seq<int>)
    ensures r == [] <==> forall k :: 0 <= k < |chunks| ==> chunks[k] == []
  {
    if chunks == [] then [] else chunks[0] + Concat(chunks[1..])
  }

  /** Concatenation does not depend on where the chunks are split. */
  lemma {:induction false} ConcatSplit(a: seq<seq<int>>, b: seq<seq<int>>)
    ensures Concat(a + b) == Concat(a) + Concat(b)
  {
    if a == [] {
      assert a + b == b;
    } else {
      assert (a + b)[1..] == a[1..] + b;
      ConcatSplit(a[1..], b);
    }
  }

  /** The four per-example index columns. */
  datatype Spans = Spans(predStart: seq<int>, predEnd: seq<int>, labelStart: seq<int>, labelEnd: seq<int>)

  function Unpack(preds: seq<seq<int>>, labels: seq<seq<int>>): (r: Spans)
    ensures |preds| == 2 ==> r.predStart == preds[0] && r.predEnd == preds[1]
    ensures |labels| == 2 ==> r.labelStart == labels[0] && r.labelEnd == labels[1]
  {
    Spans(Concat(Evens(preds)), Concat(Odds(preds)), Concat(Evens(labels)), Concat(Odds(labels)))
  }

  /** The number of examples, taken from the gold start column. */
  function Count(c: Spans): nat { |c.labelStart| }

  /** The shape assertion of both scorers. */
  predicate CountsAgree(c: Spans) { |c.labelStart| == |c.predStart| }

  /** What squad_EM reads: an end index is only looked at where the starts
      agree, since `and` short-circuits. */
  predicate EndsReadableForEM(c: Spans)
  {
    && CountsAgree(c)
    && forall i :: 0 <= i < |c.predStart| && c.predStart[i] == c.labelStart[i] ==>
         i < |c.predEnd| && i < |c.labelEnd|
  }

  /** What squad_F1 reads: every end index of every example. */
  predicate EndsPresent(c: Spans)
  {
    CountsAgree(c) && Count(c) <= |c.predEnd| && Count(c) <= |c.labelEnd|
  }

  // ---------------------------------------------------------------------------
  // Exact match

  predicate ExactAt(c: Spans, i: nat)
    requires EndsReadableForEM(c) && i < Count(c)
  {
    c.predStart[i] == c.labelStart[i] && c.predEnd[i] == c.labelEnd[i]
  }

  /** The number of exactly matched examples among the first `k`. */
  function Matches(c: Spans, k: nat): (m: nat)
    requires EndsReadableForEM(c) && k <= Count(c)
    ensures m <= k
  {
    if k == 0 then 0
    else Matches(c, k - 1) + if ExactAt(c, k - 1) then 1 else 0
  }

  function ExactMatch(c: Spans): (r: real)
    requires EndsReadableForEM(c) && Count(c) > 0
    ensures 0.0 <= r <= 1.0
  {
    FractionExtremes(Matches(c, Count(c)), Count(c));
    Matches(c, Count(c)) as real / Count(c) as real
  }

  lemma {:induction false} MatchesAllIff(c: Spans, k: nat)
    requires EndsReadableForEM(c) && k <= Count(c)
    ensures Matches(c, k) == k <==> forall i :: 0 <= i < k ==> ExactAt(c, i)
    ensures Matches(c, k) == 0 <==> forall i :: 0 <= i < k ==> !ExactAt(c, i)
  {
    if k > 0 {
      MatchesAllIff(c, k - 1);
    }
  }

  /** The exact-match rate lies in [0,1]; it is 1 exactly when every example
      matches and 0 exactly when none does. */
  lemma ExactMatchBounds(c: Spans)
    requires EndsReadableForEM(c) && Count(c) > 0
    ensures 0.0 <= ExactMatch(c) <= 1.0
    ensures ExactMatch(c) == 1.0 <==> forall i :: 0 <= i < Count(c) ==> ExactAt(c, i)
    ensures ExactMatch(c) == 0.0 <==> forall i :: 0 <= i < Count(c) ==> !ExactAt(c, i)
  {
    MatchesAllIff(c, Count(c));
    FractionExtremes(Matches(c, Count(c)), Count(c));
  }

  /** squad_EM: counts the exact matches in a loop. */
  method SquadEM(preds: seq<seq<int>>, labels: seq<seq<int>>) returns (em: real)
    requires |preds| >= 2 && |labels| >= 2
    requires EndsReadableForEM(Unpack(preds, labels)) && Count(Unpack(preds, labels)) > 0
    ensures em == ExactMatch(Unpack(preds, labels))
  {
    var predStart := Concat(Evens(preds));
    var predEnd := Concat(Odds(preds));
    var labelStart := Concat(Evens(labels));
    var labelEnd := Concat(Odds(labels));
    ghost var c := Spans(predStart, predEnd, labelStart, labelEnd);
    var numTotal := |labelStart|;
    var numCorrect := 0;
    for i := 0 to numTotal
      invariant numCorrect == Matches(c, i)
    {
      if predStart[i] == labelStart[i] && predEnd[i] == labelEnd[i] {
        numCorrect := numCorrect + 1;
      }
    }
    em := numCorrect as real / numTotal as real;
  }

  // ---------------------------------------------------------------------------
  // Overlap of half-open token ranges

  /** `set(range(a, b))` */
  function IndexRange(a: int, b: int): set<int>
    decreases b - a
  {
    if a < b then IndexRange(a, b - 1) + {b - 1} else {}
  }

  function Length(a: int, b: int): nat
  {
    if a < b then b - a else 0
  }

  function Overlap(ps: int, pe: int, ls: int, le: int): nat
  {
    var lo := if ps < ls then ls else ps;
    var hi := if pe < le then pe else le;
    Length(lo, hi)
  }

  /** `set(range(a, b))` holds exactly the integers from a up to but excluding b,
      and has `Length(a, b)` of them. */
  lemma {:induction false} IndexRangeContents(a: int, b: int)
    ensures forall x :: x in IndexRange(a, b) <==> a <= x < b
    ensures |IndexRange(a, b)| == Length(a, b)
    decreases b - a
  {
    if a < b {
      IndexRangeContents(a, b - 1);
    }
  }

  /** The arithmetic overlap is the number of token positions the two ranges
      share, which is what the source computes with sets. */
  lemma OverlapIsSharedTokens(ps: int, pe: int, ls: int, le: int)
    ensures |IndexRange(ls, le) * IndexRange(ps, pe)| == Overlap(ps, pe, ls, le)
    ensures |IndexRange(ps, pe)| == Length(ps, pe) && |IndexRange(ls, le)| == Length(ls, le)
  {
    var lo := if ps < ls then ls else ps;
    var hi := if pe < le then pe else le;
    IndexRangeContents(lo, hi);
    IndexRangeContents(ps, pe);
    IndexRangeContents(ls, le);
    forall x ensures x in IndexRange(ls, le) * IndexRange(ps, pe) <==> x in IndexRange(lo, hi) {
    }
    assert IndexRange(ls, le) * IndexRange(ps, pe) == IndexRange(lo, hi);
  }

  // ---------------------------------------------------------------------------
  // Per-example precision, recall and F1

  datatype Scores = Scores(precision: real, recall: real, f1: real)

  /** A (start, end) pair that marks "no answer". */
  predicate NoAnswer(start: int, end: int) { start + end <= 0 }

  function ExampleScores(ps: int, pe: int, ls: int, le: int): Scores
  {
    if NoAnswer(ps, pe) || NoAnswer(ls, le) then
      var agree := if pe == le then 1.0 else 0.0;
      Scores(agree, agree, agree)
    else
      var numSame := Overlap(ps, pe, ls, le);
      if numSame == 0 then Scores(0.0, 0.0, 0.0)
      else
        var precision := numSame as real / Length(ps, pe) as real;
        var recall := numSame as real / Length(ls, le) as real;
        Scores(precision, recall, (2.0 * precision * recall) / (precision + recall))
  }

  /** With a no-answer marker on either side, all three scores are 1 when the
      end indices agree and 0 otherwise. */
  lemma NoAnswerScores(ps: int, pe: int, ls: int, le: int)
    requires NoAnswer(ps, pe) || NoAnswer(ls, le)
    ensures var s := ExampleScores(ps, pe, ls, le);
      s.precision == s.recall == s.f1 == (if pe == le then 1.0 else 0.0)
  {
  }

  lemma MulNonneg(x: real, y: real)
    requires x >= 0.0 && y >= 0.0
    ensures x * y >= 0.0
  {
  }

  lemma DivAtLeast(a: real, b: real, d: real)
    requires d > 0.0 && b * d <= a
    ensures b <= a / d
  {
    var q := a / d;
    assert q * d == a;
    if q < b {
      assert (b - q) * d > 0.0;
    }
  }

  lemma DivAtMost(a: real, b: real, d: real)
    requires d > 0.0 && a <= b * d
    ensures a / d <= b
  {
    var q := a / d;
    assert q * d == a;
    if q > b {
      assert (q - b) * d > 0.0;
    }
  }

  /** The harmonic mean of two scores in (0,1] lies in (0,1], between them. */
  lemma HarmonicMeanBounds(p: real, r: real)
    requires 0.0 < p <= 1.0 && 0.0 < r <= 1.0
    ensures var f := (2.0 * p * r) / (p + r);
      0.0 < f <= 1.0 && (p <= r ==> p <= f <= r) && (r <= p ==> r <= f <= p)
  {
    var d := p + r;
    var a := 2.0 * p * r;
    MulNonneg(r, 1.0 - p);
    MulNonneg(p, 1.0 - r);
    assert a <= 1.0 * d;
    DivAtMost(a, 1.0, d);
    assert p * r > 0.0;
    DivAtLeast(a, 0.0, d);
    assert a / d != 0.0 by {
      assert (a / d) * d == a;
    }
    if p <= r {
      MulNonneg(p, r - p);
      MulNonneg(r, r - p);
      DivAtLeast(a, p, d);
      DivAtMost(a, r, d);
    } else {
      MulNonneg(r, p - r);
      MulNonneg(p, p - r);
      DivAtLeast(a, r, d);
      DivAtMost(a, p, d);
    }
  }

  /** Outside the no-answer branch, ranges that share no token score 0 throughout. */
  lemma DisjointScoresZero(ps: int, pe: int, ls: int, le: int)
    requires !NoAnswer(ps, pe) && !NoAnswer(ls, le) && Overlap(ps, pe, ls, le) == 0
    ensures ExampleScores(ps, pe, ls, le) == Scores(0.0, 0.0, 0.0)
  {
  }

  /** Outside the no-answer branch, with a shared token: precision and recall
      are the overlap over the length of the predicted and of the gold range
      (both lengths positive), both in (0,1], and F1 is their harmonic mean,
      in (0,1] and between them. */
  lemma OverlapScores(ps: int, pe: int, ls: int, le: int)
    requires !NoAnswer(ps, pe) && !NoAnswer(ls, le) && Overlap(ps, pe, ls, le) > 0
    ensures Length(ps, pe) > 0 && Length(ls, le) > 0
    ensures var s := ExampleScores(ps, pe, ls, le);
      && s.precision == Overlap(ps, pe, ls, le) as real / Length(ps, pe) as real
      && s.recall == Overlap(ps, pe, ls, le) as real / Length(ls, le) as real
      && 0.0 < s.precision <= 1.0 && 0.0 < s.recall <= 1.0
      && s.f1 * (s.precision + s.recall) == 2.0 * s.precision * s.recall
      && 0.0 < s.f1 <= 1.0
      && (s.precision <= s.recall ==> s.precision <= s.f1 <= s.recall)
      && (s.recall <= s.precision ==> s.recall <= s.f1 <= s.precision)
  {
    var n := Overlap(ps, pe, ls, le);
    var lp, ll := Length(ps, pe), Length(ls, le);
    assert 0 < n <= lp && n <= ll;
    var p := n as real / lp as real;
    var r := n as real / ll as real;
    RatioInUnitRange(n, lp);
    RatioInUnitRange(n, ll);
    assert ExampleScores(ps, pe, ls, le) == Scores(p, r, (2.0 * p * r) / (p + r));
    HarmonicMeanBounds(p, r);
    assert ((2.0 * p * r) / (p + r)) * (p + r) == 2.0 * p * r;
  }

  /** A count m out of n > 0 gives a fraction in [0,1] that is 1 exactly when
      m == n and 0 exactly when m == 0. */
  lemma FractionExtremes(m: nat, n: nat)
    requires 0 < n && m <= n
    ensures 0.0 <= m as real / n as real <= 1.0
    ensures m as real / n as real == 1.0 <==> m == n
    ensures m as real / n as real == 0.0 <==> m == 0
  {
    var q := m as real / n as real;
    assert q * n as real == m as real;
    if m > 0 {
      RatioInUnitRange(m, n);
    }
    if q == 1.0 {
      assert m as real == n as real;
    }
    if q == 0.0 {
      assert m as real == 0.0;
    }
  }

  lemma RatioInUnitRange(n: nat, len: nat)
    requires 0 < n <= len
    ensures 0.0 < n as real / len as real <= 1.0
  {
    DivAtMost(n as real, 1.0, len as real);
    var q := n as real / len as real;
    assert q * len as real == n as real;
    if q <= 0.0 {
      MulNonneg(-q, len as real);
    }
  }

  /** Every per-example score lies in [0,1]. */
  lemma ExampleScoresInUnitRange(ps: int, pe: int, ls: int, le: int)
    ensures var s := ExampleScores(ps, pe, ls, le);
      0.0 <= s.precision <= 1.0 && 0.0 <= s.recall <= 1.0 && 0.0 <= s.f1 <= 1.0
  {
    if !NoAnswer(ps, pe) && !NoAnswer(ls, le) && Overlap(ps, pe, ls, le) > 0 {
      OverlapScores(ps, pe, ls, le);
    }
  }

  /** Exchanging prediction and gold exchanges precision and recall and keeps F1. */
  lemma ScoresSymmetric(ps: int, pe: int, ls: int, le: int)
    ensures var s := ExampleScores(ps, pe, ls, le);
      ExampleScores(ls, le, ps, pe) == Scores(s.recall, s.precision, s.f1)
  {
    var s := ExampleScores(ps, pe, ls, le);
    if !NoAnswer(ps, pe) && !NoAnswer(ls, le) && Overlap(ps, pe, ls, le) > 0 {
      var t := ExampleScores(ls, le, ps, pe);
      assert 2.0 * t.precision * t.recall == 2.0 * s.precision * s.recall;
    }
  }

  /** Prediction [2,5) against gold [3,5). */
  lemma ScoresExample()
    ensures ExampleScores(2, 5, 3, 5) == Scores(2.0 / 3.0, 1.0, 0.8)
  {
    assert Overlap(2, 5, 3, 5) == 2;
  }

  /** A prediction equal to the gold span scores 1 when the span is a no-answer
      marker or non-empty. */
  lemma SelfScoresOne(s: int, e: int)
    requires NoAnswer(s, e) || s < e
    ensures ExampleScores(s, e, s, e) == Scores(1.0, 1.0, 1.0)
  {
    if !NoAnswer(s, e) {
      var n := Overlap(s, e, s, e);
      assert n == Length(s, e) == e - s;
      assert n as real / n as real == 1.0;
    }
  }

  /** A prediction equal to a gold span that is empty (end <= start) but not
      a no-answer marker scores 0, although it is an exact match. */
  lemma EmptySpanScoresZero(s: int, e: int)
    requires !NoAnswer(s, e) && e <= s
    ensures ExampleScores(s, e, s, e) == Scores(0.0, 0.0, 0.0)
  {
  }

  // ---------------------------------------------------------------------------
  // Means over all examples

  function ScoresAt(c: Spans, i: nat): Scores
    requires EndsPresent(c) && i < Count(c)
  {
    ExampleScores(c.predStart[i], c.predEnd[i], c.labelStart[i], c.labelEnd[i])
  }

  datatype Component = Precision | Recall | F1

  function Pick(s: Scores, which: Component): real
  {
    match which
    case Precision => s.precision
    case Recall => s.recall
    case F1 => s.f1
  }

  /** One of the three score lists, for the first `k` examples. */
  function Column(c: Spans, k: nat, which: Component): (col: seq<real>)
    requires EndsPresent(c) && k <= Count(c)
    ensures |col| == k
  {
    if k == 0 then []
    else Column(c, k - 1, which) + [Pick(ScoresAt(c, k - 1), which)]
  }

  function Sum(xs: seq<real>): real
  {
    if xs == [] then 0.0 else Sum(xs[..|xs| - 1]) + xs[|xs| - 1]
  }

  function Mean(xs: seq<real>): real
    requires |xs| > 0
  {
    Sum(xs) / |xs| as real
  }

  lemma {:induction false} SumBounds(xs: seq<real>)
    requires forall i :: 0 <= i < |xs| ==> 0.0 <= xs[i] <= 1.0
    ensures 0.0 <= Sum(xs) <= |xs| as real
    ensures Sum(xs) == |xs| as real <==> forall i :: 0 <= i < |xs| ==> xs[i] == 1.0
  {
    if xs != [] {
      var k := |xs| - 1;
      SumBounds(xs[..k]);
      if Sum(xs) == |xs| as real {
        assert xs[k] == 1.0 && Sum(xs[..k]) == k as real;
        forall i | 0 <= i < |xs| ensures xs[i] == 1.0 {
          if i < k { assert xs[..k][i] == xs[i]; }
        }
      }
      if forall i :: 0 <= i < |xs| ==> xs[i] == 1.0 {
        assert forall i :: 0 <= i < k ==> xs[..k][i] == 1.0;
      }
    }
  }

  /** A mean of scores in [0,1] lies in [0,1], and is 1 exactly when every score is 1. */
  lemma MeanBounds(xs: seq<real>)
    requires |xs| > 0 && forall i :: 0 <= i < |xs| ==> 0.0 <= xs[i] <= 1.0
    ensures 0.0 <= Mean(xs) <= 1.0
    ensures Mean(xs) == 1.0 <==> forall i :: 0 <= i < |xs| ==> xs[i] == 1.0
  {
    SumBounds(xs);
    assert Mean(xs) * |xs| as real == Sum(xs);
  }

  lemma ColumnInUnitRange(c: Spans, k: nat, which: Component)
    requires EndsPresent(c) && k <= Count(c)
    ensures forall i :: 0 <= i < k ==> 0.0 <= Column(c, k, which)[i] <= 1.0
  {
    forall i | 0 <= i < k ensures 0.0 <= Column(c, k, which)[i] <= 1.0 {
      ColumnAt(c, k, which, i);
      ExampleScoresInUnitRange(c.predStart[i], c.predEnd[i], c.labelStart[i], c.labelEnd[i]);
    }
  }

  lemma {:induction false} ColumnAt(c: Spans, k: nat, which: Component, i: nat)
    requires EndsPresent(c) && i < k <= Count(c)
    ensures Column(c, k, which)[i] == Pick(ScoresAt(c, i), which)
  {
    if i < k - 1 {
      ColumnAt(c, k - 1, which, i);
    }
  }

  /** squad_f1's result: the mean precision, recall and F1, in that order. */
  function F1Means(c: Spans): Scores
    requires EndsPresent(c) && Count(c) > 0
  {
    var n := Count(c);
    Scores(Mean(Column(c, n, Precision)), Mean(Column(c, n, Recall)), Mean(Column(c, n, F1)))
  }

  /** Each of the three means lies in [0,1]. */
  lemma F1MeansInUnitRange(c: Spans)
    requires EndsPresent(c) && Count(c) > 0
    ensures var m := F1Means(c);
      0.0 <= m.precision <= 1.0 && 0.0 <= m.recall <= 1.0 && 0.0 <= m.f1 <= 1.0
  {
    var n := Count(c);
    ColumnInUnitRange(c, n, Precision);
    ColumnInUnitRange(c, n, Recall);
    ColumnInUnitRange(c, n, F1);
    MeanBounds(Column(c, n, Precision));
    MeanBounds(Column(c, n, Recall));
    MeanBounds(Column(c, n, F1));
  }

  /** Predicting every gold span exactly, with no empty non-marker span among
      them, gives exact match 1 and precision, recall and F1 all 1. */
  lemma PerfectPredictionScoresOne(c: Spans)
    requires EndsPresent(c) && Count(c) > 0
    requires c.predStart[..Count(c)] == c.labelStart && c.predEnd[..Count(c)] == c.labelEnd[..Count(c)]
    requires forall i :: 0 <= i < Count(c) ==> NoAnswer(c.labelStart[i], c.labelEnd[i]) || c.labelStart[i] < c.labelEnd[i]
    ensures ExactMatch(c) == 1.0
    ensures F1Means(c) == Scores(1.0, 1.0, 1.0)
  {
    var n := Count(c);
    forall i | 0 <= i < n ensures ExactAt(c, i) && ScoresAt(c, i) == Scores(1.0, 1.0, 1.0) {
      assert c.predStart[..n][i] == c.labelStart[i];
      assert c.predEnd[..n][i] == c.labelEnd[..n][i];
      SelfScoresOne(c.labelStart[i], c.labelEnd[i]);
    }
    ExactMatchBounds(c);
    forall which | which in {Precision, Recall, F1}
      ensures Mean(Column(c, n, which)) == 1.0
    {
      ColumnInUnitRange(c, n, which);
      forall i | 0 <= i < n ensures Column(c, n, which)[i] == 1.0 {
        ColumnAt(c, n, which, i);
      }
      MeanBounds(Column(c, n, which));
    }
  }

  /** The body of squad_f1's loop: one example's precision, recall and F1,
      computed on the token sets as the source does. */
  method ScoreExample(ps: int, pe: int, ls: int, le: int) returns (precision: real, recall: real, f1: real)
    ensures Scores(precision, recall, f1) == ExampleScores(ps, pe, ls, le)
  {
    if (ps + pe) <= 0 || (ls + le) <= 0 {
      var agree := if pe == le then 1.0 else 0.0;
      precision, recall, f1 := agree, agree, agree;
    } else {
      var predRange := IndexRange(ps, pe);
      var trueRange := IndexRange(ls, le);
      var numSame := |trueRange * predRange|;
      OverlapIsSharedTokens(ps, pe, ls, le);
      if numSame == 0 {
        precision, recall, f1 := 0.0, 0.0, 0.0;
      } else {
        precision := numSame as real / |predRange| as real;
        recall := numSame as real / |trueRange| as real;
        RatioInUnitRange(numSame, |predRange|);
        RatioInUnitRange(numSame, |trueRange|);
        f1 := (2.0 * precision * recall) / (precision + recall);
      }
    }
  }

  /** squad_f1: builds the three score lists in a loop, then takes their means. */
  method SquadF1(preds: seq<seq<int>>, labels: seq<seq<int>>) returns (precision: real, recall: real, f1: real)
    requires |preds| >= 2 && |labels| >= 2
    requires EndsPresent(Unpack(preds, labels)) && Count(Unpack(preds, labels)) > 0
    ensures Scores(precision, recall, f1) == F1Means(Unpack(preds, labels))
  {
    var predStart := Concat(Evens(preds));
    var predEnd := Concat(Odds(preds));
    var labelStart := Concat(Evens(labels));
    var labelEnd := Concat(Odds(labels));
    ghost var c := Spans(predStart, predEnd, labelStart, labelEnd);
    var numTotal := |labelStart|;
    var f1Scores: seq<real> := [];
    var precScores: seq<real> := [];
    var recallScores: seq<real> := [];
    for i := 0 to numTotal
      invariant precScores == Column(c, i, Precision)
      invariant recallScores == Column(c, i, Recall)
      invariant f1Scores == Column(c, i, F1)
    {
      var p, r, f := ScoreExample(predStart[i], predEnd[i], labelStart[i], labelEnd[i]);
      f1Scores := f1Scores + [f];
      precScores := precScores + [p];
      recallScores := recallScores + [r];
    }
    precision, recall, f1 := Mean(precScores), Mean(recallScores), Mean(f1Scores);
  }

  // ---------------------------------------------------------------------------
  // squad: both scores, or the exception the source raises first

  datatype SquadError =
    | EmptyConcat      // torch.cat of an empty list (fewer than two entries)
    | CountMismatch    // the assertion that both start columns have one entry per example
    | ZeroDivision     // no examples: squad_EM divides by zero
    | MissingEnd       // an end column shorter than the start columns: IndexError

  datatype SquadResult = SquadResult(em: real, f1: Scores)

  function SquadScores(preds: seq<seq<int>>, labels: seq<seq<int>>): (r: Result<SquadResult, SquadError>)
    ensures r.Ok? <==> |preds| >= 2 && |labels| >= 2
                       && EndsPresent(Unpack(preds, labels)) && Count(Unpack(preds, labels)) > 0
  {
    if |preds| < 2 || |labels| < 2 then Err(EmptyConcat)
    else
      var c := Unpack(preds, labels);
      if !CountsAgree(c) then Err(CountMismatch)
      else if Count(c) == 0 then Err(ZeroDivision)
      else if !EndsPresent(c) then Err(MissingEnd)
      else Ok(SquadResult(ExactMatch(c), F1Means(c)))
  }

  /** Whenever squad returns, the exact-match rate and the three F1 means lie in [0,1]. */
  lemma SquadScoresInUnitRange(preds: seq<seq<int>>, labels: seq<seq<int>>)
    requires SquadScores(preds, labels).Ok?
    ensures var v := SquadScores(preds, labels).value;
      && 0.0 <= v.em <= 1.0
      && 0.0 <= v.f1.precision <= 1.0 && 0.0 <= v.f1.recall <= 1.0 && 0.0 <= v.f1.f1 <= 1.0
  {
    var c := Unpack(preds, labels);
    ExactMatchBounds(c);
    F1MeansInUnitRange(c);
  }

}
