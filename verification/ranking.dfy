/** Dealer ranking (Backend/app/Agent.py, `_rank_dealers`): every filtered row gets a
    weighted score, the rows are sorted by descending score and the first five are kept. */
module Ranking {
  import opened Options
  import opened Seqs
  import opened Text
  import opened Catalog
  import opened Sorting

  const TopCount: nat := 5

  /** Midpoint of the listed price bounds. */
  function AveragePrice(v: Vehicle): real {
    (v.lowerBound + v.upperBound) / 2.0
  }

  /** The price score divides by `1 + average / 100000`, which is zero only for an average
      of exactly -100000. */
  predicate Priceable(v: Vehicle) {
    1.0 + AveragePrice(v) / 100000.0 != 0.0
  }

  function PriceScore(v: Vehicle): real
    requires Priceable(v)
  {
    1.0 / (1.0 + AveragePrice(v) / 100000.0)
  }

  /** 1.0 when the intent's `location` (a truthy string) occurs in the dealer's city, both
      lower-cased; 0.5 otherwise. */
  function LocationScore(location: Option<string>, v: Vehicle): (r: real)
    ensures r == 1.0 <==> location.Some? && location.value != "" && Contains(Lower(v.dealer.city), Lower(location.value))
    ensures r == 1.0 || r == 0.5
  {
    if location.Some? && location.value != "" && Contains(Lower(v.dealer.city), Lower(location.value)) then 1.0 else 0.5
  }

  /** 1.0 for a contact longer than ten characters, 0.5 otherwise. */
  function ContactScore(v: Vehicle): real {
    if |v.dealer.contact| > 10 then 1.0 else 0.5
  }

  /** 1.0 for a seller name longer than three characters, 0.5 otherwise. */
  function NameScore(v: Vehicle): real {
    if |v.dealer.seller| > 3 then 1.0 else 0.5
  }

  /** The fixed recency score every row gets. */
  const UpdateScore: real := 0.7

  /** The weighted sum: price 30%, location 25%, contact 20%, name 15%, recency 10%. The
      part that does not depend on the price lies between 0.37 (every other factor at 0.5)
      and 0.67 (every other factor at 1.0). */
  function Score(location: Option<string>, v: Vehicle): (r: real)
    requires Priceable(v)
    ensures 0.37 <= r - PriceScore(v) * 0.3 <= 0.67
  {
    PriceScore(v) * 0.3 + LocationScore(location, v) * 0.25 + ContactScore(v) * 0.2
      + NameScore(v) * 0.15 + UpdateScore * 0.1
  }

  /** The sort key; rows that cannot be priced never reach the sort and get 0. */
  function ScoreKey(location: Option<string>): Vehicle -> real {
    (v: Vehicle) => if Priceable(v) then Score(location, v) else 0.0
  }

  /** Every row can be priced. */
  predicate AllPriceable(rows: seq<Vehicle>) {
    forall i :: 0 <= i < |rows| ==> Priceable(rows[i])
  }

  /** `_rank_dealers`. `None` stands for the `ZeroDivisionError` the scoring loop raises on a
      row whose average price is -100000; an empty input returns before the loop. */
  function Rank(rows: seq<Vehicle>, location: Option<string>): (r: Option<seq<Vehicle>>)
    ensures r.None? <==> !AllPriceable(rows)
    ensures r.Some? ==> |r.value| == Min(TopCount, |rows|)
    ensures r.Some? ==> SortedDesc(r.value, ScoreKey(location))
    ensures r.Some? ==> multiset(r.value) <= multiset(rows)
  {
    if |rows| == 0 then Some([])
    else if !AllPriceable(rows) then None
    else
      var sorted := SortDesc(rows, ScoreKey(location));
      var top := Take(sorted, TopCount);
      assert sorted == top + sorted[|top|..];
      Some(top)
  }

  /** Sorting and truncating keeps, for each score, the first rows carrying it. */
  lemma {:induction false} WithKeyOfPrefix<T>(s: seq<T>, key: T -> real, k: real, n: nat)
    requires n <= |s|
    ensures IsPrefix(WithKey(s[..n], key, k), WithKey(s, key, k))
    decreases |s|
  {
    if n < |s| {
      var p := s[..|s| - 1];
      assert p[..n] == s[..n];
      WithKeyOfPrefix(p, key, k, n);
    } else {
      assert s[..n] == s;
    }
  }

  /** In a sorted sequence, everything after position `n` has a key no larger than anything
      before it. */
  lemma SortedTailIsNoHigher<T>(s: seq<T>, key: T -> real, n: nat, x: T, j: int)
    requires SortedDesc(s, key) && n <= |s|
    requires x in multiset(s[n..])
    requires 0 <= j < n
    ensures key(x) <= key(s[j])
  {
    var m :| 0 <= m < |s[n..]| && s[n..][m] == x;
    assert s[n + m] == x;
  }

  /** The rows cut by truncation are the tail of the sorted rows. */
  lemma CutIsTail<T>(s: seq<T>, n: nat, x: T)
    requires n <= |s|
    requires x in multiset(s) - multiset(s[..n])
    ensures x in multiset(s[n..])
  {
    assert s == s[..n] + s[n..];
    assert multiset(s) == multiset(s[..n]) + multiset(s[n..]);
  }

  /** No row left out of the top five scores higher than a row kept. */
  lemma RankKeepsTheBest(rows: seq<Vehicle>, location: Option<string>, x: Vehicle, j: int)
    requires Rank(rows, location).Some?
    requires x in multiset(rows) - multiset(Rank(rows, location).value)
    requires 0 <= j < |Rank(rows, location).value|
    ensures ScoreKey(location)(x) <= ScoreKey(location)(Rank(rows, location).value[j])
  {
    var key := ScoreKey(location);
    var sorted := SortDesc(rows, key);
    var n := Min(TopCount, |sorted|);
    assert Rank(rows, location).value == sorted[..n];
    CutIsTail(sorted, n, x);
    SortedTailIsNoHigher(sorted, key, n, x, j);
  }

  /** Five rows or fewer all come back, reordered. */
  lemma RankOfFewKeepsAll(rows: seq<Vehicle>, location: Option<string>)
    requires |rows| <= TopCount && AllPriceable(rows)
    ensures Rank(rows, location).Some?
    ensures multiset(Rank(rows, location).value) == multiset(rows)
  {
    if |rows| > 0 {
      var sorted := SortDesc(rows, ScoreKey(location));
      assert Take(sorted, TopCount) == sorted;
    }
  }

  /** Rows with equal scores keep their catalogue order: for every score, the ranked rows
      carrying it are the first rows carrying it in the input. */
  lemma RankIsStable(rows: seq<Vehicle>, location: Option<string>, k: real)
    requires Rank(rows, location).Some?
    ensures IsPrefix(WithKey(Rank(rows, location).value, ScoreKey(location), k), WithKey(rows, ScoreKey(location), k))
  {
    var key := ScoreKey(location);
    if |rows| > 0 {
      var sorted := SortDesc(rows, key);
      SortIsStable(rows, key, k);
      WithKeyOfPrefix(sorted, key, k, Min(TopCount, |sorted|));
    }
  }

  /** With non-negative price bounds every score lies in (0.37, 0.97]. */
  lemma ScoreBounds(location: Option<string>, v: Vehicle)
    requires v.lowerBound >= 0.0 && v.upperBound >= 0.0
    ensures Priceable(v)
    ensures 0.37 < Score(location, v) <= 0.97
  {
    var d := 1.0 + AveragePrice(v) / 100000.0;
    assert d >= 1.0;
    assert 0.0 < PriceScore(v) <= 1.0 by {
      assert PriceScore(v) * d == 1.0;
    }
  }

  /** Dividing one by a larger positive number gives less. */
  lemma ReciprocalDecreases(da: real, db: real)
    requires 0.0 < da < db
    ensures 1.0 / da > 1.0 / db
  {
    var x := 1.0 / da;
    var y := 1.0 / db;
    assert x * da == 1.0;
    assert y * db == 1.0;
    assert y > 0.0;
    assert y * da < y * db;
    assert (x - y) * da > 0.0;
  }

  /** Of two rows that differ only in price, the cheaper one (non-negative averages) scores
      strictly higher. */
  lemma CheaperScoresHigher(location: Option<string>, a: Vehicle, b: Vehicle)
    requires a.dealer == b.dealer
    requires 0.0 <= AveragePrice(a) < AveragePrice(b)
    ensures Priceable(a) && Priceable(b)
    ensures Score(location, a) > Score(location, b)
  {
    var da := 1.0 + AveragePrice(a) / 100000.0;
    var db := 1.0 + AveragePrice(b) / 100000.0;
    assert 1.0 <= da < db;
    ReciprocalDecreases(da, db);
    assert PriceScore(a) > PriceScore(b);
  }

  /** A dealer whose city contains the searched location scores exactly 0.125 more than it
      would for a search without a location; every other dealer scores the same as without. */
  lemma LocationBonus(location: Option<string>, v: Vehicle)
    requires Priceable(v)
    ensures location.Some? && location.value != "" && Contains(Lower(v.dealer.city), Lower(location.value)) ==>
      Score(location, v) == Score(None, v) + 0.125
    ensures !(location.Some? && location.value != "" && Contains(Lower(v.dealer.city), Lower(location.value))) ==>
      Score(location, v) == Score(None, v)
  {
  }
}
