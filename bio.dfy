/** BIO tag repair for sequence labelling (farm/metrics.py).

    A tag is "O", "B-<class>" or "I-<class>". Each sentence is scanned left to
    right by a two-state automaton; an "I-C" tag survives only while the
    automaton is active with class C, every other "I-" tag is overwritten with
    "O". The specification is the pure function `Repaired`; the methods do the
    same work in place on arrays, as `_correct_bio_encodings` does on lists. */
module Bio {

  // ---------------------------------------------------------------------------
  // Tags

  predicate IsBegin(t: string) { |t| >= 2 && t[0] == 'B' && t[1] == '-' }

  predicate IsInside(t: string) { |t| >= 2 && t[0] == 'I' && t[1] == '-' }

  /** The only tags the repair accepts; any other string trips its `assert False`. */
  predicate IsTag(t: string) { IsBegin(t) || t == "O" || IsInside(t) }

  predicate AllTags(s: seq<string>) { forall j :: 0 <= j < |s| ==> IsTag(s[j]) }

  function ClassOf(t: string): string
    requires |t| >= 2
  {
    t[2..]
  }

  /** `prev` is an entity tag ("B-c" or "I-c") of class `c`, so an "I-c" may follow it. */
  predicate Continues(prev: string, c: string)
  {
    (IsBegin(prev) || IsInside(prev)) && ClassOf(prev) == c
  }

  /** No "I-" tag is orphaned: each one directly follows a "B-" or "I-" tag of its class. */
  predicate WellFormed(s: seq<string>)
  {
    forall j :: 0 <= j < |s| && IsInside(s[j]) ==> 0 < j && Continues(s[j - 1], ClassOf(s[j]))
  }

  // ---------------------------------------------------------------------------
  // The automaton: `label_started` / `label_class` of the source

  datatype Automaton = Inactive | Active(cls: string)

  /** The state after reading tag `t` in state `st`. */
  function Next(st: Automaton, t: string): (r: Automaton)
    requires IsTag(t)
    ensures r == Inactive || (t != "O" && r == Active(ClassOf(t)))
    ensures IsBegin(t) ==> r.Active?
    ensures t == "O" ==> r == Inactive
  {
    if IsBegin(t) then Active(ClassOf(t))
    else if t == "O" then Inactive
    else if st == Active(ClassOf(t)) then st
    else Inactive
  }

  /** The tag left at the position of `t` when it is read in state `st`. */
  function Emit(st: Automaton, t: string): (r: string)
    requires IsTag(t)
    ensures r == t || (IsInside(t) && r == "O")
  {
    if IsBegin(t) || t == "O" then t
    else if st == Active(ClassOf(t)) then t
    else "O"
  }

  /** The state an output tag leaves the automaton in. */
  function StateOf(t: string): Automaton
    requires IsTag(t)
  {
    if t == "O" then Inactive else Active(ClassOf(t))
  }

  /** The state after reading the whole of `p` from the inactive state. */
  function StateAfter(p: seq<string>): (r: Automaton)
    requires AllTags(p)
    ensures p == [] ==> r == Inactive
    ensures r.Active? ==> p != [] && p[|p| - 1] != "O" && r.cls == ClassOf(p[|p| - 1])
  {
    if p == [] then Inactive
    else Next(StateAfter(p[..|p| - 1]), p[|p| - 1])
  }

  /** One sentence after repair. */
  function Repaired(s: seq<string>): (r: seq<string>)
    requires AllTags(s)
    ensures |r| == |s|
    ensures forall j :: 0 <= j < |s| ==> r[j] == s[j] || (IsInside(s[j]) && r[j] == "O")
    ensures AllTags(r)
  {
    if s == [] then []
    else
      var k := |s| - 1;
      Repaired(s[..k]) + [Emit(StateAfter(s[..k]), s[k])]
  }

  // ---------------------------------------------------------------------------
  // Properties of the repair

  lemma {:induction false} RepairedAt(s: seq<string>, j: nat)
    requires AllTags(s) && j < |s|
    ensures Repaired(s)[j] == Emit(StateAfter(s[..j]), s[j])
  {
    var k := |s| - 1;
    if j < k {
      RepairedAt(s[..k], j);
      assert s[..k][..j] == s[..j];
    } else {
      assert s[..k] == s[..j];
    }
  }

  /** The automaton's state is a function of the last tag written. */
  lemma StateFollowsOutput(s: seq<string>, j: nat)
    requires AllTags(s) && 0 < j <= |s|
    ensures StateAfter(s[..j]) == StateOf(Repaired(s)[j - 1])
  {
    assert s[..j][..j - 1] == s[..j - 1];
    RepairedAt(s, j - 1);
  }

  /** An "I-C" tag is kept exactly when the tag written just before it is
      "B-C" or a kept "I-C"; otherwise it becomes "O". */
  lemma KeptIff(s: seq<string>, j: nat)
    requires AllTags(s) && j < |s| && IsInside(s[j])
    ensures Repaired(s)[j] == s[j] <==> (0 < j && Continues(Repaired(s)[j - 1], ClassOf(s[j])))
    ensures Repaired(s)[j] != s[j] ==> Repaired(s)[j] == "O"
  {
    RepairedAt(s, j);
    if j > 0 {
      StateFollowsOutput(s, j);
    }
  }

  /** "B-" and "O" tags pass through unchanged. */
  lemma BeginAndOutsideKept(s: seq<string>, j: nat)
    requires AllTags(s) && j < |s| && (IsBegin(s[j]) || s[j] == "O")
    ensures Repaired(s)[j] == s[j]
  {
    RepairedAt(s, j);
  }

  /** After repair no "I-" tag is orphaned. */
  lemma RepairedWellFormed(s: seq<string>)
    requires AllTags(s)
    ensures WellFormed(Repaired(s))
  {
    var r := Repaired(s);
    forall j | 0 <= j < |r| && IsInside(r[j])
      ensures 0 < j && Continues(r[j - 1], ClassOf(r[j]))
    {
      assert r[j] == s[j];
      KeptIff(s, j);
    }
  }

  lemma WellFormedPrefix(s: seq<string>, k: nat)
    requires WellFormed(s) && k <= |s|
    ensures WellFormed(s[..k])
  {
  }

  /** Once the prefix is left unchanged, the last tag of a well-formed
      sentence is written back as it is. */
  lemma LastTagKept(s: seq<string>)
    requires AllTags(s) && WellFormed(s) && s != []
    requires Repaired(s[..|s| - 1]) == s[..|s| - 1]
    ensures Emit(StateAfter(s[..|s| - 1]), s[|s| - 1]) == s[|s| - 1]
  {
    var k := |s| - 1;
    if IsInside(s[k]) {
      StateFollowsOutput(s[..k], k);
      assert s[..k][..k] == s[..k];
    }
  }

  /** A sentence with no orphaned "I-" tag is left as it is. */
  lemma {:induction false} WellFormedIsFixed(s: seq<string>)
    requires AllTags(s) && WellFormed(s)
    ensures Repaired(s) == s
  {
    if s != [] {
      var k := |s| - 1;
      WellFormedPrefix(s, k);
      WellFormedIsFixed(s[..k]);
      LastTagKept(s);
      calc {
        Repaired(s);
        Repaired(s[..k]) + [Emit(StateAfter(s[..k]), s[k])];
        s[..k] + [s[k]];
        s;
      }
    }
  }

  /** Repair leaves a sentence unchanged exactly when it is well formed. */
  lemma RepairIsIdentityIff(s: seq<string>)
    requires AllTags(s)
    ensures Repaired(s) == s <==> WellFormed(s)
  {
    RepairedWellFormed(s);
    if WellFormed(s) {
      WellFormedIsFixed(s);
    }
  }

  /** Repairing twice is the same as repairing once. */
  lemma RepairIdempotent(s: seq<string>)
    requires AllTags(s)
    ensures Repaired(Repaired(s)) == Repaired(s)
  {
    RepairedWellFormed(s);
    WellFormedIsFixed(Repaired(s));
  }

  lemma RepairExample()
    ensures Repaired(["O", "I-PER", "B-PER", "I-PER", "I-LOC"]) == ["O", "O", "B-PER", "I-PER", "O"]
  {
    var s := ["O", "I-PER", "B-PER", "I-PER", "I-LOC"];
    var st0 := StateAfter(s[..0]);
    assert st0 == Inactive;
    var st1 := StateAfter(s[..1]);
    assert s[..1][..0] == s[..0];
    assert st1 == Next(st0, "O") == Inactive;
    var st2 := StateAfter(s[..2]);
    assert s[..2][..1] == s[..1];
    assert st2 == Next(st1, "I-PER") == Inactive;
    var st3 := StateAfter(s[..3]);
    assert s[..3][..2] == s[..2];
    assert st3 == Next(st2, "B-PER") == Active("PER");
    var st4 := StateAfter(s[..4]);
    assert s[..4][..3] == s[..3];
    assert st4 == Next(st3, "I-PER") == Active("PER");
    RepairedAt(s, 0);
    RepairedAt(s, 1);
    RepairedAt(s, 2);
    RepairedAt(s, 3);
    RepairedAt(s, 4);
  }

  // ---------------------------------------------------------------------------
  // In-place repair, as `_correct_bio_encodings` does it

  /** The inner loop: repairs one sentence in place. */
  method CorrectSentence(tags: array<string>)
    requires AllTags(tags[..])
    modifies tags
    ensures tags[..] == Repaired(old(tags[..]))
  {
    ghost var orig := tags[..];
    var labelStarted := false;
    var labelClass := "";
    for i := 0 to tags.Length
      invariant tags[..i] == Repaired(orig[..i])
      invariant forall k :: i <= k < tags.Length ==> tags[k] == orig[k]
      invariant (if labelStarted then Active(labelClass) else Inactive) == StateAfter(orig[..i])
    {
      var tag := tags[i];
      assert tag == orig[i];
      assert orig[..i + 1][..i] == orig[..i];
      if IsBegin(tag) {
        labelStarted := true;
        labelClass := ClassOf(tag);
      } else if tag == "O" {
        labelStarted := false;
        labelClass := "";
      } else if IsInside(tag) {
        if !labelStarted || ClassOf(tag) != labelClass {
          tags[i] := "O";
          labelStarted := false;
          labelClass := "";
        }
      } else {
        assert false;
      }
    }
    assert orig[..tags.Length] == orig;
  }

  /** The contents of every sentence array, in list order. */
  ghost function Contents(ps: seq<array<string>>): (r: seq<seq<string>>)
    reads set j | 0 <= j < |ps| :: ps[j]
    ensures |r| == |ps| && forall j :: 0 <= j < |ps| ==> r[j] == ps[j][..]
  {
    seq(|ps|, j requires 0 <= j < |ps| reads set k | 0 <= k < |ps| :: ps[k] => ps[j][..])
  }

  /** The first `i` sentences of the list have been repaired: an array that
      occurs among them holds the repair of its original contents, any other
      array still holds its original contents. */
  ghost predicate RepairedBefore(ps: seq<array<string>>, orig: seq<seq<string>>, i: nat)
    reads set k | 0 <= k < |ps| :: ps[k]
  {
    && |orig| == |ps| && i <= |ps|
    && (forall j :: 0 <= j < |orig| ==> AllTags(orig[j]))
    && forall j :: 0 <= j < |ps| ==>
         ps[j][..] == if ps[j] in ps[..i] then Repaired(orig[j]) else orig[j]
  }

  /** One pass of the outer loop: repairs sentence `i` in place. */
  method CorrectNext(predictions: seq<array<string>>, i: nat, ghost orig: seq<seq<string>>)
    requires i < |predictions| && RepairedBefore(predictions, orig, i)
    modifies predictions[i]
    ensures RepairedBefore(predictions, orig, i + 1)
  {
    var sent := predictions[i];
    ghost var before := Contents(predictions);
    CorrectSentence(sent);
    assert predictions[..i + 1] == predictions[..i] + [sent];
    forall j | 0 <= j < |predictions|
      ensures predictions[j][..] == if predictions[j] in predictions[..i + 1] then Repaired(orig[j]) else orig[j]
    {
      if predictions[j] != sent {
        assert predictions[j][..] == before[j];
      } else if sent in predictions[..i] {
        RepairIdempotent(orig[j]);
      }
    }
  }

  /** The outer loop: repairs every sentence in place and returns the same
      list. A sentence that appears twice in the list is repaired twice,
      which by idempotence changes nothing further. */
  method CorrectBioEncodings(predictions: seq<array<string>>) returns (r: seq<array<string>>)
    requires forall i :: 0 <= i < |predictions| ==> AllTags(predictions[i][..])
    modifies set i | 0 <= i < |predictions| :: predictions[i]
    ensures r == predictions
    ensures forall i :: 0 <= i < |predictions| ==>
      predictions[i][..] == Repaired(old(predictions[i][..]))
  {
    ghost var orig := Contents(predictions);
    assert predictions[..0] == [];
    for i := 0 to |predictions|
      invariant RepairedBefore(predictions, orig, i)
    {
      CorrectNext(predictions, i, orig);
    }
    assert predictions[..|predictions|] == predictions;
    r := predictions;
  }

  // ---------------------------------------------------------------------------
  // Post-processing of predictions before scoring

  /** The padding and sub-word placeholders that are scored as "O". */
  predicate IsSentinel(t: string) { t == "X" || t == "[PAD]" }

  function Desentinel(t: string): string
  {
    if IsSentinel(t) then "O" else t
  }

  function CleanSentence(s: seq<string>): (r: seq<string>)
    ensures |r| == |s|
    ensures forall j :: 0 <= j < |s| ==> (IsSentinel(s[j]) ==> r[j] == "O") && (!IsSentinel(s[j]) ==> r[j] == s[j])
  {
    seq(|s|, j requires 0 <= j < |s| => Desentinel(s[j]))
  }

  /** Every sentinel token becomes "O"; every other token and every
      sentence length is kept. */
  function CleanSentinels(preds: seq<seq<string>>): (r: seq<seq<string>>)
    ensures |r| == |preds|
    ensures forall i :: 0 <= i < |r| ==> r[i] == CleanSentence(preds[i])
  {
    seq(|preds|, i requires 0 <= i < |preds| => CleanSentence(preds[i]))
  }

  /** Cleaning yields valid tags exactly when every token is a tag or a sentinel. */
  lemma CleanedAreTags(s: seq<string>)
    ensures AllTags(CleanSentence(s)) <==> forall j :: 0 <= j < |s| ==> IsTag(s[j]) || IsSentinel(s[j])
  {
    var c := CleanSentence(s);
    if AllTags(c) {
      forall j | 0 <= j < |s| ensures IsTag(s[j]) || IsSentinel(s[j]) {
        assert IsTag(c[j]);
      }
    }
  }

  /** Cleaning twice is cleaning once. */
  lemma CleanIdempotent(s: seq<string>)
    ensures CleanSentence(CleanSentence(s)) == CleanSentence(s)
  {
  }

  function RepairedAll(sents: seq<seq<string>>): (r: seq<seq<string>>)
    requires forall i :: 0 <= i < |sents| ==> AllTags(sents[i])
    ensures |r| == |sents|
    ensures forall i :: 0 <= i < |r| ==> r[i] == Repaired(sents[i])
  {
    seq(|sents|, i requires 0 <= i < |sents| => Repaired(sents[i]))
  }

  /** The preprocessing of `postprocessed_seq_f1_score`: fresh lists with the
      sentinels mapped to "O", then repaired in place. The caller's lists are
      copied before the repair and never written. */
  method PostprocessPredictions(preds: seq<array<string>>) returns (fixed: seq<array<string>>)
    requires forall i :: 0 <= i < |preds| ==> AllTags(CleanSentence(preds[i][..]))
    ensures |fixed| == |preds|
    ensures forall i :: 0 <= i < |fixed| ==> fresh(fixed[i])
    ensures forall i :: 0 <= i < |preds| ==> preds[i][..] == old(preds[i][..])
    ensures forall i :: 0 <= i < |fixed| ==> fixed[i][..] == Repaired(CleanSentence(preds[i][..]))
  {
    var copies: seq<array<string>> := [];
    for i := 0 to |preds|
      invariant |copies| == i
      invariant forall k :: 0 <= k < i ==> fresh(copies[k]) && copies[k][..] == CleanSentence(preds[k][..])
    {
      var sent := CleanSentence(preds[i][..]);
      var copy := new string[|sent|](j requires 0 <= j < |sent| => sent[j]);
      copies := copies + [copy];
    }
    fixed := CorrectBioEncodings(copies);
  }

}
