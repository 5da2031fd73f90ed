/** The post-processing in `analyze_sentiment` (src/api/api.py): pick the
    best-scoring entry of the classifier's full score list, relabel it, and
    build the label-to-score dictionary. The classifier call itself is left
    out; its per-class list is the input. */
module Api {
  import opened Wrappers

  /** The module-level `label_map`. */
  const LabelMap: map<string, string> :=
    map["LABEL_0" := "negative", "LABEL_1" := "neutral", "LABEL_2" := "positive"]

  /** One `{"label": ..., "score": ...}` entry of the classifier output. */
  type Entry = (string, real)

  /** The response dictionary. */
  datatype Analysis = Analysis(input: string, sentiment: string, scores: map<string, real>)

  /** `rs[k]` holds the maximal score and no earlier entry reaches it: the
      entry `max(..., key=score)` returns. */
  ghost predicate FirstMax(rs: seq<Entry>, k: int) {
    && 0 <= k < |rs|
    && (forall j :: 0 <= j < |rs| ==> rs[j].1 <= rs[k].1)
    && (forall j :: 0 <= j < k ==> rs[j].1 < rs[k].1)
  }

  /** `max(...)` over an empty list raises. */
  datatype AnalyzeError = EmptyResult

  /** `label_map.get(raw, raw)`: a generic label becomes a canonical name and
      every other label is kept as it is. */
  function Relabel(raw: string): (r: string)
    ensures raw in LabelMap ==> r in {"negative", "neutral", "positive"}
    ensures raw !in LabelMap ==> r == raw
  {
    if raw in LabelMap then LabelMap[raw] else raw
  }

  /** The three generic labels become the canonical names; every other raw
      label passes through unchanged, never coerced to "neutral". */
  lemma RelabelCases(raw: string)
    ensures raw == "LABEL_0" ==> Relabel(raw) == "negative"
    ensures raw == "LABEL_1" ==> Relabel(raw) == "neutral"
    ensures raw == "LABEL_2" ==> Relabel(raw) == "positive"
    ensures raw !in {"LABEL_0", "LABEL_1", "LABEL_2"} ==> Relabel(raw) == raw
  {
  }

  /** `max(result, key=score)`: scanning left to right, a later entry replaces
      the best only when strictly greater, so the first maximum wins. */
  function BestIndex(rs: seq<Entry>): (k: nat)
    requires |rs| > 0
    ensures FirstMax(rs, k)
  {
    if |rs| == 1 then 0
    else
      var k := BestIndex(rs[..|rs| - 1]);
      if rs[|rs| - 1].1 > rs[k].1 then |rs| - 1 else k
  }

  /** Only one position is a first maximum, so `BestIndex` is determined by
      its contract. */
  lemma BestIndexUnique(rs: seq<Entry>, i: nat)
    requires FirstMax(rs, i)
    ensures BestIndex(rs) == i
  {
  }

  /** `rs[j]` is the last entry whose key is its own. */
  ghost predicate LastWithKey(rs: seq<Entry>, key: string -> string, j: int) {
    0 <= j < |rs| && forall j' :: j < j' < |rs| ==> key(rs[j'].0) != key(rs[j].0)
  }

  /** The keys of the entries. */
  ghost function Keys(rs: seq<Entry>, key: string -> string): (ks: set<string>)
    ensures forall j :: 0 <= j < |rs| ==> key(rs[j].0) in ks
  {
    set j | 0 <= j < |rs| :: key(rs[j].0)
  }

  /** The dictionary comprehension `{key(r.label): r.score for r in rs}`: one
      entry per distinct key, holding the score of the last entry with that
      key. */
  function ScoresBy(rs: seq<Entry>, key: string -> string): (m: map<string, real>)
    ensures m.Keys == Keys(rs, key)
  {
    if |rs| == 0 then map[]
    else
      KeysSnoc(rs, key);
      ScoresBy(rs[..|rs| - 1], key)[key(rs[|rs| - 1].0) := rs[|rs| - 1].1]
  }

  /** Each key holds the score of the last entry carrying it. */
  lemma {:induction false} ScoresLastWins(rs: seq<Entry>, key: string -> string, j: int)
    requires LastWithKey(rs, key, j)
    ensures ScoresBy(rs, key)[key(rs[j].0)] == rs[j].1
  {
    if j < |rs| - 1 {
      var init := rs[..|rs| - 1];
      assert init[j] == rs[j];
      assert LastWithKey(init, key, j);
      ScoresLastWins(init, key, j);
    }
  }

  lemma KeysSnoc(rs: seq<Entry>, key: string -> string)
    requires |rs| > 0
    ensures Keys(rs, key) == Keys(rs[..|rs| - 1], key) + {key(rs[|rs| - 1].0)}
  {
    var init := rs[..|rs| - 1];
    forall l | l in Keys(rs, key) ensures l in Keys(init, key) + {key(rs[|rs| - 1].0)} {
      var j :| 0 <= j < |rs| && key(rs[j].0) == l;
      if j < |rs| - 1 {
        assert init[j] == rs[j];
      }
    }
    forall l | l in Keys(init, key) ensures l in Keys(rs, key) {
      var j :| 0 <= j < |init| && key(init[j].0) == l;
      assert rs[j] == init[j];
    }
  }

  /** `analyze_sentiment` after the classifier call: the input is echoed, the
      sentiment is the relabelled first maximum, and it is always a key of the
      scores. */
  function Analyze(text: string, rs: seq<Entry>): (r: Result<Analysis, AnalyzeError>)
    ensures r.Failure? <==> |rs| == 0
    ensures r.Success? ==> r.value.input == text
    ensures r.Success? ==> exists k :: FirstMax(rs, k) && r.value.sentiment == Relabel(rs[k].0)
    ensures r.Success? ==> r.value.sentiment in r.value.scores
    ensures r.Success? ==> r.value.scores.Keys == Keys(rs, Relabel)
  {
    if |rs| == 0 then Failure(EmptyResult)
    else
      var best := BestIndex(rs);
      Success(Analysis(text, Relabel(rs[best].0), ScoresBy(rs, Relabel)))
  }

  /** Each key of the response's scores holds the score of the last entry
      that relabels to it. */
  lemma AnalyzeLastWins(text: string, rs: seq<Entry>, j: int)
    requires LastWithKey(rs, Relabel, j)
    ensures Analyze(text, rs).Success?
    ensures Analyze(text, rs).value.scores[Relabel(rs[j].0)] == rs[j].1
  {
    ScoresLastWins(rs, Relabel, j);
  }

  /** When the relabelled labels are distinct, the score reported for the
      sentiment is the maximal score. */
  lemma SentimentScoreIsMax(text: string, rs: seq<Entry>)
    requires |rs| > 0
    requires forall i, j :: 0 <= i < j < |rs| ==> Relabel(rs[i].0) != Relabel(rs[j].0)
    ensures Analyze(text, rs).value.scores[Analyze(text, rs).value.sentiment] == rs[BestIndex(rs)].1
    ensures forall j :: 0 <= j < |rs| ==> rs[j].1 <= Analyze(text, rs).value.scores[Analyze(text, rs).value.sentiment]
  {
    assert LastWithKey(rs, Relabel, BestIndex(rs));
    ScoresLastWins(rs, Relabel, BestIndex(rs));
  }

  /** When two entries relabel to the same key, the later score is kept, even
      if that key is the sentiment: here "LABEL_2" wins with 0.9 but the
      reported "positive" score is 0.05. */
  lemma CollidingLabelsKeepLater()
    ensures Analyze("t", [("LABEL_2", 0.9), ("positive", 0.05)])
      == Success(Analysis("t", "positive", map["positive" := 0.05]))
  {
    var rs: seq<Entry> := [("LABEL_2", 0.9), ("positive", 0.05)];
    assert BestIndex(rs) == 0;
    assert Relabel("LABEL_2") == "positive";
    assert Relabel("positive") == "positive";
    assert rs[..1] == [("LABEL_2", 0.9)];
    assert rs[..1][..0] == [];
    assert ScoresBy(rs[..1], Relabel) == map["positive" := 0.9];
    assert ScoresBy(rs, Relabel) == map["positive" := 0.9]["positive" := 0.05];
    assert map["positive" := 0.9]["positive" := 0.05] == map["positive" := 0.05];
  }

  /** The usual case: the three generic labels, the best one in the middle. */
  lemma TypicalAnalysis()
    ensures Analyze("ok", [("LABEL_0", 0.1), ("LABEL_1", 0.7), ("LABEL_2", 0.2)])
      == Success(Analysis("ok", "neutral", map["negative" := 0.1, "neutral" := 0.7, "positive" := 0.2]))
  {
    var rs: seq<Entry> := [("LABEL_0", 0.1), ("LABEL_1", 0.7), ("LABEL_2", 0.2)];
    BestIndexUnique(rs, 1);
    assert Relabel("LABEL_0") == "negative";
    assert Relabel("LABEL_1") == "neutral";
    assert Relabel("LABEL_2") == "positive";
    assert rs[..2] == [("LABEL_0", 0.1), ("LABEL_1", 0.7)];
    assert rs[..2][..1] == [("LABEL_0", 0.1)];
    assert rs[..2][..1][..0] == [];
    assert ScoresBy(rs[..2][..1], Relabel) == map["negative" := 0.1];
    assert ScoresBy(rs[..2], Relabel) == map["negative" := 0.1, "neutral" := 0.7];
  }
}
