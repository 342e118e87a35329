/** Fuzzy resolution of free-text manufacturer and model mentions to index keys
    (Backend/app/Agent.py, `_fuzzy_match_manufacturer`, `_fuzzy_match_model`).
    `fuzz.ratio` is not modelled: callers pass the similarity measure, which only has to
    return an integer from 0 to 100. */
module Resolver {
  import opened Options
  import opened Text
  import opened Catalog

  /** A similarity score in the range `fuzz.ratio` returns. */
  type Ratio = r: int | 0 <= r <= 100

  type Similarity = (string, string) -> Ratio

  /** A manufacturer is accepted only above this score. */
  const ManufacturerThreshold: nat := 70

  /** Model names are shorter and noisier, so they are accepted above a lower score. */
  const ModelThreshold: nat := 60

  /** Both sides are lower-cased before comparing. */
  function Score(sim: Similarity, query: string, candidate: string): Ratio {
    sim(Lower(query), Lower(candidate))
  }

  /** No candidate scores above the threshold. */
  ghost predicate NoneAbove(sim: Similarity, query: string, cands: seq<string>, threshold: nat) {
    forall j :: 0 <= j < |cands| ==> Score(sim, query, cands[j]) <= threshold
  }

  /** `x` is the first candidate with the maximal score, and that score is above the threshold. */
  ghost predicate IsFirstBest(sim: Similarity, query: string, cands: seq<string>, x: string, threshold: nat) {
    exists i :: 0 <= i < |cands| && cands[i] == x
      && Score(sim, query, x) > threshold
      && (forall j :: 0 <= j < |cands| ==> Score(sim, query, cands[j]) <= Score(sim, query, x))
      && (forall j :: 0 <= j < i ==> Score(sim, query, cands[j]) < Score(sim, query, x))
  }

  /** The loop's `(best_match, best_score)` after some candidates have been scanned. */
  datatype Best = Best(found: Option<string>, score: int)

  /** The scanning loop: a candidate replaces the best so far only when it scores strictly
      higher and above the threshold. */
  function Scan(sim: Similarity, query: string, cands: seq<string>, threshold: nat): (b: Best)
    ensures b.found.None? ==> b.score == 0 && NoneAbove(sim, query, cands, threshold)
    ensures b.found.Some? ==> b.score == Score(sim, query, b.found.value)
    ensures b.found.Some? ==> IsFirstBest(sim, query, cands, b.found.value, threshold)
  {
    if |cands| == 0 then Best(None, 0)
    else
      var p := cands[..|cands| - 1];
      var c := cands[|cands| - 1];
      var b := Scan(sim, query, p, threshold);
      var s := Score(sim, query, c);
      assert cands == p + [c];
      if s > b.score && s > threshold then
        NewBest(sim, query, p, c, b, threshold);
        Best(Some(c), s)
      else
        KeepBest(sim, query, p, c, b, threshold);
        b
  }

  /** A candidate scoring strictly above the best so far and the threshold is the first best
      of the longer list. */
  lemma NewBest(sim: Similarity, query: string, p: seq<string>, c: string, b: Best, threshold: nat)
    requires b.found.None? ==> b.score == 0 && NoneAbove(sim, query, p, threshold)
    requires b.found.Some? ==> b.score == Score(sim, query, b.found.value)
    requires b.found.Some? ==> IsFirstBest(sim, query, p, b.found.value, threshold)
    requires Score(sim, query, c) > b.score && Score(sim, query, c) > threshold
    ensures IsFirstBest(sim, query, p + [c], c, threshold)
  {
    var cands := p + [c];
    var s := Score(sim, query, c);
    assert forall j :: 0 <= j < |p| ==> cands[j] == p[j];
    assert forall j :: 0 <= j < |p| ==> Score(sim, query, p[j]) < s;
    assert cands[|p|] == c;
  }

  /** A candidate that does not beat the best so far leaves it the first best. */
  lemma KeepBest(sim: Similarity, query: string, p: seq<string>, c: string, b: Best, threshold: nat)
    requires b.found.None? ==> b.score == 0 && NoneAbove(sim, query, p, threshold)
    requires b.found.Some? ==> b.score == Score(sim, query, b.found.value)
    requires b.found.Some? ==> IsFirstBest(sim, query, p, b.found.value, threshold)
    requires !(Score(sim, query, c) > b.score && Score(sim, query, c) > threshold)
    ensures b.found.None? ==> NoneAbove(sim, query, p + [c], threshold)
    ensures b.found.Some? ==> IsFirstBest(sim, query, p + [c], b.found.value, threshold)
  {
    var cands := p + [c];
    assert forall j :: 0 <= j < |p| ==> cands[j] == p[j];
    if b.found.Some? {
      var i :| 0 <= i < |p| && p[i] == b.found.value
        && Score(sim, query, b.found.value) > threshold
        && (forall j :: 0 <= j < |p| ==> Score(sim, query, p[j]) <= Score(sim, query, b.found.value))
        && (forall j :: 0 <= j < i ==> Score(sim, query, p[j]) < Score(sim, query, b.found.value));
      assert cands[i] == b.found.value;
    }
  }

  /** At most one candidate is the first best one. */
  lemma FirstBestIsUnique(sim: Similarity, query: string, cands: seq<string>, x: string, y: string, threshold: nat)
    requires IsFirstBest(sim, query, cands, x, threshold)
    requires IsFirstBest(sim, query, cands, y, threshold)
    ensures x == y
  {
    var i :| 0 <= i < |cands| && cands[i] == x
      && (forall j :: 0 <= j < |cands| ==> Score(sim, query, cands[j]) <= Score(sim, query, x))
      && (forall j :: 0 <= j < i ==> Score(sim, query, cands[j]) < Score(sim, query, x));
    var k :| 0 <= k < |cands| && cands[k] == y
      && (forall j :: 0 <= j < |cands| ==> Score(sim, query, cands[j]) <= Score(sim, query, y))
      && (forall j :: 0 <= j < k ==> Score(sim, query, cands[j]) < Score(sim, query, y));
    assert Score(sim, query, x) == Score(sim, query, y);
    assert i >= k || Score(sim, query, x) < Score(sim, query, y);
    assert k >= i || Score(sim, query, y) < Score(sim, query, x);
  }

  /** `_fuzzy_match_manufacturer`: nothing for an empty mention; otherwise the first index key
      with the highest score if that score exceeds 70, and nothing if no key does. */
  function ResolveManufacturer(idx: Index, sim: Similarity, query: string): (r: Option<string>)
    ensures query == "" ==> r == None
    ensures r.Some? ==> query != "" && IsFirstBest(sim, query, idx.keys, r.value, ManufacturerThreshold)
    ensures r.None? && query != "" ==> NoneAbove(sim, query, idx.keys, ManufacturerThreshold)
  {
    if query == "" then None else Scan(sim, query, idx.keys, ManufacturerThreshold).found
  }

  /** `_fuzzy_match_model`: nothing when the mention or the manufacturer is empty or the
      manufacturer is not an index key; otherwise the first model registered under that
      manufacturer with the highest score if that score exceeds 60. */
  function ResolveModel(idx: Index, sim: Similarity, query: string, manufacturer: Option<string>): (r: Option<string>)
    ensures query == "" || manufacturer.None? || manufacturer.value == "" || manufacturer.value !in idx.models ==>
      r == None
    ensures r.Some? ==>
      && manufacturer.Some? && manufacturer.value in idx.models
      && IsFirstBest(sim, query, idx.models[manufacturer.value], r.value, ModelThreshold)
    ensures (r.None? && query != "" && manufacturer.Some? && manufacturer.value != ""
             && manufacturer.value in idx.models) ==>
      NoneAbove(sim, query, idx.models[manufacturer.value], ModelThreshold)
  {
    if query == "" || manufacturer.None? || manufacturer.value == "" then None
    else if manufacturer.value !in idx.models then None
    else Scan(sim, query, idx.models[manufacturer.value], ModelThreshold).found
  }
}
