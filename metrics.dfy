/** The metric dispatcher and classification accuracy (farm/metrics.py,
    compute_metrics and simple_accuracy). Metrics computed by sklearn, scipy
    and seqeval are opaque: they are the fields of a `Library` value. */
module Metrics {

  import opened Results
  import Bio
  import Squad

  /** One entry of a prediction or label list. */
  datatype Value =
    | Scalar(n: int)                 // a class id
    | Label(s: string)               // a class given by its name
    | Real(x: real)                  // a real-valued score or target
    | TagSeq(tags: seq<string>)      // one sentence of BIO tags
    | IndexChunk(indices: seq<int>)  // one tensor of start or end token indices

  /** One entry of a result mapping. */
  datatype Score =
    | Number(x: real)
    | NaN                                                // the mean of an empty array
    | Triple(precision: real, recall: real, f1: real)

  /** The library routines the module calls, each with its arguments in the
      order the source passes them. */
  datatype Library = Library(
    matthews: (seq<Value>, seq<Value>) -> real,  // matthews_corrcoef(labels, preds)
    f1Macro: (seq<Value>, seq<Value>) -> real,   // f1_score(y_true=labels, y_pred=preds, average="macro")
    pearson: (seq<Value>, seq<Value>) -> real,   // pearsonr(preds, labels)[0]
    spearman: (seq<Value>, seq<Value>) -> real,  // spearmanr(preds, labels)[0]
    seqF1: (seq<Value>, seq<Value>) -> real)     // seqeval f1_score(labels, preds)

  /** The exceptions compute_metrics lets escape. */
  datatype MetricError =
    | LengthMismatch                        // assert len(preds) == len(labels)
    | UnknownMetric(name: string)           // KeyError(metric)
    | AccAndF1Fails                         // acc_and_f1 always raises: TypeError (dict + float) whenever its f1_score returns
    | WrongKind                             // entries of a shape the metric cannot read
    | InvalidTag                            // the assertion of the BIO repair
    | SquadFailure(reason: Squad.SquadError)

  const MetricNames: set<string> :=
    {"mcc", "acc", "acc_f1", "pear_spear", "seq_f1", "postprocessed_seq_f1", "f1_macro", "squad"}

  // ---------------------------------------------------------------------------
  // simple_accuracy

  /** The number of positions among the first `k` where prediction equals label. */
  function CountEqual<T(==)>(preds: seq<T>, labels: seq<T>, k: nat): (m: nat)
    requires |preds| == |labels| && k <= |preds|
    ensures m <= k
  {
    if k == 0 then 0
    else CountEqual(preds, labels, k - 1) + if preds[k - 1] == labels[k - 1] then 1 else 0
  }

  lemma {:induction false} CountEqualIff<T>(preds: seq<T>, labels: seq<T>, k: nat)
    requires |preds| == |labels| && k <= |preds|
    ensures CountEqual(preds, labels, k) == k <==> forall i :: 0 <= i < k ==> preds[i] == labels[i]
    ensures CountEqual(preds, labels, k) == 0 <==> forall i :: 0 <= i < k ==> preds[i] != labels[i]
  {
    if k > 0 {
      CountEqualIff(preds, labels, k - 1);
    }
  }

  /** The mean of the elementwise comparison; NaN for empty input. */
  function SimpleAccuracy<T(==)>(preds: seq<T>, labels: seq<T>): (r: Score)
    requires |preds| == |labels|
    ensures r.Number? <==> |preds| > 0
    ensures r.NaN? <==> |preds| == 0
  {
    if |preds| == 0 then NaN
    else Number(CountEqual(preds, labels, |preds|) as real / |preds| as real)
  }

  /** Accuracy lies in [0,1]; it is 1 exactly when the predictions equal the
      labels, and 0 exactly when they differ at every position. */
  lemma AccuracyBounds<T>(preds: seq<T>, labels: seq<T>)
    requires |preds| == |labels| > 0
    ensures SimpleAccuracy(preds, labels).Number?
    ensures var acc := SimpleAccuracy(preds, labels).x;
      && 0.0 <= acc <= 1.0
      && (acc == 1.0 <==> preds == labels)
      && (acc == 0.0 <==> forall i :: 0 <= i < |preds| ==> preds[i] != labels[i])
  {
    var n := |preds|;
    CountEqualIff(preds, labels, n);
    Squad.FractionExtremes(CountEqual(preds, labels, n), n);
    if CountEqual(preds, labels, n) == n {
      assert preds == labels;
    }
  }

  // ---------------------------------------------------------------------------
  // Reading the entries a metric expects

  /** All entries are class ids, or all are class names, or all are real
      scores: the entries numpy compares elementwise in `simple_accuracy`. */
  predicate OneScalarKind(xs: seq<Value>)
  {
    || (forall i :: 0 <= i < |xs| ==> xs[i].Scalar?)
    || (forall i :: 0 <= i < |xs| ==> xs[i].Label?)
    || (forall i :: 0 <= i < |xs| ==> xs[i].Real?)
  }

  predicate AllTagSeqs(xs: seq<Value>) { forall i :: 0 <= i < |xs| ==> xs[i].TagSeq? }

  predicate AllChunks(xs: seq<Value>) { forall i :: 0 <= i < |xs| ==> xs[i].IndexChunk? }

  function TagsOf(xs: seq<Value>): (r: seq<seq<string>>)
    requires AllTagSeqs(xs)
    ensures |r| == |xs| && forall i :: 0 <= i < |xs| ==> r[i] == xs[i].tags
  {
    seq(|xs|, i requires 0 <= i < |xs| => xs[i].tags)
  }

  function ChunksOf(xs: seq<Value>): (r: seq<seq<int>>)
    requires AllChunks(xs)
    ensures |r| == |xs| && forall i :: 0 <= i < |xs| ==> r[i] == xs[i].indices
  {
    seq(|xs|, i requires 0 <= i < |xs| => xs[i].indices)
  }

  function AsTagValues(sents: seq<seq<string>>): (r: seq<Value>)
    ensures AllTagSeqs(r) && TagsOf(r) == sents
  {
    seq(|sents|, i requires 0 <= i < |sents| => TagSeq(sents[i]))
  }

  // ---------------------------------------------------------------------------
  // The metrics compute_metrics dispatches to

  function PearsonAndSpearman(preds: seq<Value>, labels: seq<Value>, lib: Library): (r: map<string, Score>)
    ensures r.Keys == {"pearson", "spearmanr", "corr"}
    ensures r["pearson"].Number? && r["spearmanr"].Number? && r["corr"].Number?
    ensures r["corr"].x == (r["pearson"].x + r["spearmanr"].x) / 2.0
  {
    var pearsonCorr := lib.pearson(preds, labels);
    var spearmanCorr := lib.spearman(preds, labels);
    map["pearson" := Number(pearsonCorr), "spearmanr" := Number(spearmanCorr),
        "corr" := Number((pearsonCorr + spearmanCorr) / 2.0)]
  }

  /** Every cleaned sentence consists of valid tags. */
  predicate CleansToTags(sents: seq<seq<string>>)
  {
    forall i :: 0 <= i < |sents| ==> Bio.AllTags(Bio.CleanSentence(sents[i]))
  }

  /** postprocessed_seq_f1_score: sentinels to "O", BIO repair, then seqeval.
      This is the pure counterpart of `Bio.PostprocessPredictions`, which
      builds the same cleaned and repaired sentences in fresh arrays. */
  function PostprocessedSeqF1(preds: seq<Value>, labels: seq<Value>, lib: Library): (r: Result<map<string, Score>, MetricError>)
    ensures !AllTagSeqs(preds) ==> r == Err(WrongKind)
    ensures r.Ok? ==> r.value.Keys == {"f1_seq_p"} && r.value["f1_seq_p"].Number?
  {
    if !AllTagSeqs(preds) then Err(WrongKind)
    else
      var cleaned := Bio.CleanSentinels(TagsOf(preds));
      if !CleansToTags(TagsOf(preds)) then Err(InvalidTag)
      else Ok(map["f1_seq_p" := Number(lib.seqF1(labels, AsTagValues(Bio.RepairedAll(cleaned))))])
  }

  /** On tag sequences, post-processed scoring fails exactly when some token is
      neither a tag nor a sentinel; when it succeeds, seqeval is given, for
      each sentence, a well-formed sequence of the same length that differs
      from the cleaned input only where an "I-" tag became "O". */
  lemma PostprocessedScoresRepairedTags(preds: seq<Value>, labels: seq<Value>, lib: Library)
    requires AllTagSeqs(preds)
    ensures var r := PostprocessedSeqF1(preds, labels, lib);
      && (r.Ok? <==> forall i, j :: 0 <= i < |preds| && 0 <= j < |preds[i].tags| ==>
                       Bio.IsTag(preds[i].tags[j]) || Bio.IsSentinel(preds[i].tags[j]))
      && (r.Err? ==> r.error == InvalidTag)
      && (r.Ok? ==> exists fixed: seq<seq<string>> ::
            && r.value == map["f1_seq_p" := Number(lib.seqF1(labels, AsTagValues(fixed)))]
            && |fixed| == |preds|
            && forall i :: 0 <= i < |fixed| ==>
                 && |fixed[i]| == |preds[i].tags|
                 && Bio.WellFormed(fixed[i])
                 && fixed[i] == Bio.Repaired(Bio.CleanSentence(preds[i].tags)))
  {
    var sents := TagsOf(preds);
    forall i | 0 <= i < |preds| {
      Bio.CleanedAreTags(sents[i]);
    }
    if CleansToTags(sents) {
      var fixed := Bio.RepairedAll(Bio.CleanSentinels(sents));
      forall i | 0 <= i < |fixed| ensures Bio.WellFormed(fixed[i]) {
        Bio.RepairedWellFormed(Bio.CleanSentence(sents[i]));
      }
    } else {
      var i :| 0 <= i < |preds| && !Bio.AllTags(Bio.CleanSentence(sents[i]));
      var j :| 0 <= j < |sents[i]| && !(Bio.IsTag(sents[i][j]) || Bio.IsSentinel(sents[i][j]));
    }
  }

  /** squad: both span scores, or the exception raised on the way. */
  function SquadMetric(preds: seq<Value>, labels: seq<Value>): (r: Result<map<string, Score>, MetricError>)
    ensures !AllChunks(preds) || !AllChunks(labels) ==> r == Err(WrongKind)
    ensures r.Ok? ==> r.value.Keys == {"EM", "f1"} && r.value["EM"].Number? && r.value["f1"].Triple?
  {
    if !AllChunks(preds) || !AllChunks(labels) then Err(WrongKind)
    else
      match Squad.SquadScores(ChunksOf(preds), ChunksOf(labels))
      case Err(e) => Err(SquadFailure(e))
      case Ok(s) => Ok(map["EM" := Number(s.em), "f1" := Triple(s.f1.precision, s.f1.recall, s.f1.f1)])
  }

  // ---------------------------------------------------------------------------
  // compute_metrics

  function ComputeMetrics(metric: string, preds: seq<Value>, labels: seq<Value>, lib: Library): (r: Result<map<string, Score>, MetricError>)
    ensures |preds| != |labels| ==> r == Err(LengthMismatch)
    ensures |preds| == |labels| ==> (r == Err(UnknownMetric(metric)) <==> metric !in MetricNames)
    ensures |preds| == |labels| && metric == "acc_f1" ==> r == Err(AccAndF1Fails)
  {
    if |preds| != |labels| then Err(LengthMismatch)
    else if metric == "mcc" then Ok(map["mcc" := Number(lib.matthews(labels, preds))])
    else if metric == "acc" then
      if OneScalarKind(preds + labels) then Ok(map["acc" := SimpleAccuracy(preds, labels)])
      else Err(WrongKind)
    else if metric == "acc_f1" then Err(AccAndF1Fails)
    else if metric == "pear_spear" then Ok(PearsonAndSpearman(preds, labels, lib))
    else if metric == "seq_f1" then Ok(map["seq_f1" := Number(lib.seqF1(labels, preds))])
    else if metric == "postprocessed_seq_f1" then PostprocessedSeqF1(preds, labels, lib)
    else if metric == "f1_macro" then Ok(map["f1_macro" := Number(lib.f1Macro(labels, preds))])
    else if metric == "squad" then SquadMetric(preds, labels)
    else Err(UnknownMetric(metric))
  }

  /** "acc" on class ids, class names or real scores yields the fraction of
      equal positions: a value in [0,1] that is 1 exactly when predictions
      equal labels; empty input yields NaN. */
  lemma AccMetricIsFraction(preds: seq<Value>, labels: seq<Value>, lib: Library)
    requires |preds| == |labels| && OneScalarKind(preds + labels)
    ensures var r := ComputeMetrics("acc", preds, labels, lib);
      && r.Ok? && r.value.Keys == {"acc"}
      && (|preds| == 0 ==> r.value["acc"] == NaN)
      && (|preds| > 0 ==>
            && r.value["acc"].Number?
            && 0.0 <= r.value["acc"].x <= 1.0
            && (r.value["acc"].x == 1.0 <==> preds == labels)
            && (r.value["acc"].x == 0.0 <==> forall i :: 0 <= i < |preds| ==> preds[i] != labels[i]))
  {
    if |preds| > 0 {
      AccuracyBounds(preds, labels);
    }
  }

  /** Class names are compared like class ids: one agreement out of two. */
  lemma AccOnClassNamesExample(lib: Library)
    ensures ComputeMetrics("acc", [Label("a"), Label("b")], [Label("a"), Label("c")], lib)
            == Ok(map["acc" := Number(0.5)])
  {
    var preds, labels := [Label("a"), Label("b")], [Label("a"), Label("c")];
    assert OneScalarKind(preds + labels);
    assert CountEqual(preds, labels, 1) == 1;
    assert CountEqual(preds, labels, 2) == 1;
  }

  /** "squad" on index chunks succeeds exactly when the chunk lists can be
      concatenated, both start columns have the same positive length and
      both end columns cover it; it then yields an exact-match rate and a
      (precision, recall, F1) triple, all in [0,1]. */
  lemma SquadMetricInUnitRange(preds: seq<Value>, labels: seq<Value>, lib: Library)
    requires |preds| == |labels| && AllChunks(preds) && AllChunks(labels)
    ensures var r := ComputeMetrics("squad", preds, labels, lib);
      var c := Squad.Unpack(ChunksOf(preds), ChunksOf(labels));
      && (r.Ok? <==> |preds| >= 2 && Squad.EndsPresent(c) && Squad.Count(c) > 0)
      && (r.Ok? ==>
            && r.value.Keys == {"EM", "f1"}
            && r.value["EM"].Number? && 0.0 <= r.value["EM"].x <= 1.0
            && r.value["f1"].Triple?
            && 0.0 <= r.value["f1"].precision <= 1.0
            && 0.0 <= r.value["f1"].recall <= 1.0
            && 0.0 <= r.value["f1"].f1 <= 1.0)
  {
    var r := Squad.SquadScores(ChunksOf(preds), ChunksOf(labels));
    if r.Ok? {
      Squad.SquadScoresInUnitRange(ChunksOf(preds), ChunksOf(labels));
    }
  }

}
