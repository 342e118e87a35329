/** The comparison reply (Backend/app/Agent.py, `_handle_comparison_query` item splitting and
    `_generate_comparison_response`): each compared item becomes a price-inquiry intent, and
    the best result for each is priced against the other. */
module Comparison {
  import opened Options
  import opened Seqs
  import opened Text
  import opened Catalog
  import opened IntentRecord
  import opened Sorting

  /** One compared item and the best-ranked vehicle found for it, if any. */
  datatype Found = Found(item: string, data: Option<Vehicle>)

  /** One compared item with the price of its best vehicle. */
  datatype Priced = Priced(item: string, price: real)

  /** Renders an amount the way `:,.2f` does; number formatting is not modelled. */
  type Money = real -> string

  const Clarification := "I need information about at least two cars to make a comparison. Could you please specify which cars you'd like to compare?"
  // The two fixed replies are written in two pieces only to keep each literal short for the
  // verifier; the text is the source's.
  const InsufficientData := "I couldn't find sufficient data " + "to compare these vehicles."
  const NoPrices := "I couldn't find price information " + "for both vehicles to make a comparison."

  /** The intent one compared item is looked up with: its first word is the manufacturer,
      its second (if any) the model; region, city and year come from the outer intent. */
  function ItemIntent(item: string, outer: Intent): (r: Intent)
    ensures r.intent == Some(PriceInquiry) && r.priceRange == None
    ensures r.location == None && r.comparisonItems == None
    ensures r.region == outer.region && r.city == outer.city && r.year == outer.year
    ensures r.manufacturer.None? <==> NoneIn(Lower(item), NonSpace)
    ensures r.manufacturer.Some? ==> |r.manufacturer.value| > 0 && AllIn(r.manufacturer.value, NonSpace)
    ensures r.model.Some? ==> r.manufacturer.Some? && |r.model.value| > 0 && AllIn(r.model.value, NonSpace)
  {
    var parts := Split(Lower(item));
    if |parts| >= 2 then
      Intent(Some(PriceInquiry), Some(parts[0]), Some(parts[1]), outer.region, outer.city, None, outer.year, None, None)
    else
      Intent(Some(PriceInquiry), if |parts| > 0 then Some(parts[0]) else None, None,
        outer.region, outer.city, None, outer.year, None, None)
  }

  /** A word: non-empty and free of whitespace. */
  predicate IsWord(w: string) {
    |w| > 0 && AllIn(w, NonSpace)
  }

  lemma LowerOfWord(w: string)
    requires IsWord(w)
    ensures IsWord(Lower(w))
  {
  }

  /** An item written as words separated by single spaces is looked up with its first word,
      lower-cased, as the manufacturer and its second word, if any, as the model; an item
      of no words names no manufacturer. */
  lemma ItemOfWords(ws: seq<string>, outer: Intent)
    requires forall j :: 0 <= j < |ws| ==> IsWord(ws[j])
    ensures ItemIntent(Join(ws, " "), outer).manufacturer == (if |ws| > 0 then Some(Lower(ws[0])) else None)
    ensures ItemIntent(Join(ws, " "), outer).model == (if |ws| >= 2 then Some(Lower(ws[1])) else None)
  {
    SplitOfLoweredWords(ws);
  }

  /** Words joined with single spaces split back into the same words, lower-cased. */
  lemma SplitOfLoweredWords(ws: seq<string>)
    requires forall j :: 0 <= j < |ws| ==> IsWord(ws[j])
    ensures Split(Lower(Join(ws, " "))) == LowerAll(ws)
  {
    LowerJoinedBySpaces(ws);
    WordsOfLoweredJoin(ws);
  }

  lemma WordsOfLoweredJoin(ws: seq<string>)
    requires forall j :: 0 <= j < |ws| ==> IsWord(ws[j])
    ensures Runs(Join(LowerAll(ws), " "), NonSpace) == LowerAll(ws)
  {
    LoweredWords(ws);
    SpaceIsNoWord();
    RunsOfJoin(LowerAll(ws), " ", NonSpace);
  }

  lemma SpaceIsNoWord()
    ensures NoneIn(" ", NonSpace)
  {
    assert IsSpace(" "[0]);
  }

  lemma LowerJoinedBySpaces(ws: seq<string>)
    ensures Lower(Join(ws, " ")) == Join(LowerAll(ws), " ")
  {
    LowerOfJoin(ws, " ");
    assert Lower(" ") == " ";
  }

  lemma LoweredWords(ws: seq<string>)
    requires forall j :: 0 <= j < |ws| ==> IsWord(ws[j])
    ensures forall j :: 0 <= j < |ws| ==> IsWord(LowerAll(ws)[j])
  {
    forall j | 0 <= j < |ws|
      ensures IsWord(LowerAll(ws)[j])
    {
      LowerOfWord(ws[j]);
    }
  }

  /** The car names memory remembers split back into what was searched: "Manufacturer Model"
      gives the lower-cased manufacturer and model. */
  lemma ItemOfMentionWithModel(m: string, mo: string, outer: Intent)
    requires IsWord(m) && IsWord(mo)
    ensures ItemIntent(Title(m) + " " + Title(mo), outer).manufacturer == Some(Lower(m))
    ensures ItemIntent(Title(m) + " " + Title(mo), outer).model == Some(Lower(mo))
  {
    var item := Title(m) + " " + Title(mo);
    LowerOfConcat(Title(m) + " ", Title(mo));
    LowerOfConcat(Title(m), " ");
    LowerOfTitle(m);
    LowerOfTitle(mo);
    assert Lower(" ") == " ";
    LowerOfWord(m);
    LowerOfWord(mo);
    var words := [Lower(m), Lower(mo)];
    assert Join(words, " ") == Lower(m) + " " + Lower(mo) by {
      assert words[1..] == [Lower(mo)];
    }
    assert NoneIn(" ", NonSpace) by {
      assert IsSpace(" "[0]);
    }
    RunsOfJoin(words, " ", NonSpace);
  }

  /** A manufacturer remembered without a model comes back as that manufacturer alone. */
  lemma ItemOfMentionWithoutModel(m: string, outer: Intent)
    requires IsWord(m)
    ensures ItemIntent(Title(m), outer).manufacturer == Some(Lower(m))
    ensures ItemIntent(Title(m), outer).model == None
  {
    LowerOfTitle(m);
    LowerOfWord(m);
    RunsOfJoin([Lower(m)], " ", NonSpace) by {
      assert IsSpace(" "[0]);
    }
  }

  /** The priced form of one result, when it carries a vehicle. */
  function PriceOf(f: Found): (r: Option<Priced>)
    ensures r.Some? <==> f.data.Some?
  {
    if f.data.Some? then Some(Priced(f.item, f.data.value.price)) else None
  }

  /** `x` is the priced form of one of the results. */
  ghost predicate PricedFrom(results: seq<Found>, x: Priced) {
    exists j :: 0 <= j < |results| && PriceOf(results[j]) == Some(x)
  }

  /** The results that carry a vehicle, with its price, in order. */
  function PricesOf(results: seq<Found>): (r: seq<Priced>)
    ensures |r| <= |results|
    ensures (forall j :: 0 <= j < |results| ==> results[j].data.Some?) ==> |r| == |results|
    ensures forall i :: 0 <= i < |r| ==> PricedFrom(results, r[i])
    ensures (forall j :: 0 <= j < |results| ==> results[j].data.Some?) ==>
      forall i :: 0 <= i < |r| ==> r[i] == PriceOf(results[i]).value
  {
    if |results| == 0 then []
    else
      var p := results[..|results| - 1];
      var last := results[|results| - 1];
      var r := PricesOf(p) + (if last.data.Some? then [PriceOf(last).value] else []);
      PricesAppend(results, p, last, PricesOf(p), r);
      r
  }

  /** One more result extends the priced list by its price, when it has one. */
  lemma PricesAppend(results: seq<Found>, p: seq<Found>, last: Found, rest: seq<Priced>, r: seq<Priced>)
    requires results == p + [last]
    requires |rest| <= |p|
    requires (forall j :: 0 <= j < |p| ==> p[j].data.Some?) ==>
      |rest| == |p| && forall i :: 0 <= i < |rest| ==> rest[i] == PriceOf(p[i]).value
    requires forall i :: 0 <= i < |rest| ==> PricedFrom(p, rest[i])
    requires r == rest + (if last.data.Some? then [PriceOf(last).value] else [])
    ensures |r| <= |results|
    ensures (forall j :: 0 <= j < |results| ==> results[j].data.Some?) ==> |r| == |results|
    ensures forall i :: 0 <= i < |r| ==> PricedFrom(results, r[i])
    ensures (forall j :: 0 <= j < |results| ==> results[j].data.Some?) ==>
      forall i :: 0 <= i < |r| ==> r[i] == PriceOf(results[i]).value
  {
    if forall j :: 0 <= j < |results| ==> results[j].data.Some? {
      assert forall j :: 0 <= j < |p| ==> p[j].data.Some? by {
        forall j | 0 <= j < |p| ensures p[j].data.Some? {
          assert p[j] == results[j];
        }
      }
      assert last.data.Some? by {
        assert last == results[|results| - 1];
      }
      forall i | 0 <= i < |r|
        ensures r[i] == PriceOf(results[i]).value
      {
        if i < |rest| {
          assert results[i] == p[i];
        }
      }
    }
    forall i | 0 <= i < |r|
      ensures PricedFrom(results, r[i])
    {
      if i < |rest| {
        var j :| 0 <= j < |p| && PriceOf(p[j]) == Some(rest[i]);
        assert results[j] == p[j];
      } else {
        assert PriceOf(results[|results| - 1]) == Some(r[i]);
      }
    }
  }

  /** Sorting by ascending price is sorting by descending negated price. */
  function PriceKey(p: Priced): real {
    -p.price
  }

  /** `prices.sort(key=price)`: a stable ascending sort by price. */
  function CheaperFirst(prices: seq<Priced>): (r: seq<Priced>)
    ensures |r| == |prices| && multiset(r) == multiset(prices)
    ensures forall i, j :: 0 <= i < j < |r| ==> r[i].price <= r[j].price
  {
    var r := SortDesc(prices, PriceKey);
    assert forall i, j :: 0 <= i < j < |r| ==> PriceKey(r[i]) >= PriceKey(r[j]);
    r
  }

  /** A query that asks which is cheaper gets the one-line answer. */
  predicate AsksWhichIsCheaper(query: string) {
    Contains(Lower(query), "cheaper") || Contains(Lower(query), "less expensive")
  }

  function OneLine(cheaper: Priced, dearer: Priced, money: Money): string {
    "The **" + cheaper.item + "** is cheaper at $" + money(cheaper.price) + ", which is $"
      + money(dearer.price - cheaper.price) + " less than the " + dearer.item + " at $" + money(dearer.price) + "."
  }

  function Bullets(cheaper: Priced, dearer: Priced, money: Money): string {
    "**Comparison Results:**\n\n        \U{2022} **" + cheaper.item + "**: $" + money(cheaper.price)
      + "\n        \U{2022} **" + dearer.item + "**: $" + money(dearer.price)
      + "\n\n        The " + cheaper.item + " is $" + money(dearer.price - cheaper.price)
      + " less expensive than the " + dearer.item + ".\n        "
  }

  /** `_generate_comparison_response`: fixed messages when fewer than two results or prices
      exist; otherwise the cheapest two, cheaper first, in the form the query asks for. */
  function ComparisonResponse(results: seq<Found>, query: string, money: Money): (r: string)
    ensures |results| < 2 ==> r == InsufficientData
    ensures |results| >= 2 && |PricesOf(results)| < 2 ==> r == NoPrices
    ensures |results| >= 2 && |PricesOf(results)| >= 2 ==>
      var s := CheaperFirst(PricesOf(results));
      r == (if AsksWhichIsCheaper(query) then OneLine(s[0], s[1], money) else Bullets(s[0], s[1], money))
  {
    if |results| < 2 then InsufficientData
    else
      var prices := PricesOf(results);
      if |prices| < 2 then NoPrices
      else
        var s := CheaperFirst(prices);
        if AsksWhichIsCheaper(query) then OneLine(s[0], s[1], money) else Bullets(s[0], s[1], money)
  }

  /** The item named cheaper costs no more than any compared price, so the stated difference
      is never negative. */
  lemma CheaperComesFirst(prices: seq<Priced>, k: int)
    requires |prices| >= 2 && 0 <= k < |prices|
    ensures CheaperFirst(prices)[0].price <= prices[k].price
    ensures CheaperFirst(prices)[1].price - CheaperFirst(prices)[0].price >= 0.0
    ensures CheaperFirst(prices)[0] in prices && CheaperFirst(prices)[1] in prices
  {
    var s := CheaperFirst(prices);
    assert prices[k] in multiset(s);
    var m :| 0 <= m < |s| && s[m] == prices[k];
    assert s[0] in multiset(prices) && s[1] in multiset(prices);
  }

  /** Two results at the same price keep their order: the first item is named cheaper. */
  lemma TieKeepsFirstItem(a: Priced, b: Priced)
    requires a.price <= b.price
    ensures CheaperFirst([a, b]) == [a, b]
  {
    SortOfTwo(a, b);
    InsertAtEnd([a], b, PriceKey);
  }

  /** A strictly cheaper second item is named first. */
  lemma CheaperSecondGoesFirst(a: Priced, b: Priced)
    requires a.price > b.price
    ensures CheaperFirst([a, b]) == [b, a]
  {
    SortOfTwo(a, b);
    InsertBeforeLast([a], b, PriceKey);
    assert [a][..0] == [];
    InsertAtEnd([], b, PriceKey);
  }

  /** Of two prices, the lower comes first, and the first on a tie. */
  lemma CheaperOfTwo(a: Priced, b: Priced)
    ensures CheaperFirst([a, b]) == if a.price <= b.price then [a, b] else [b, a]
  {
    if a.price <= b.price {
      TieKeepsFirstItem(a, b);
    } else {
      CheaperSecondGoesFirst(a, b);
    }
  }

  lemma SortOfTwo(a: Priced, b: Priced)
    ensures SortedDesc([a], PriceKey)
    ensures SortDesc([a, b], PriceKey) == Insert([a], b, PriceKey)
  {
    SortOfOne(a);
    assert [a, b][..1] == [a];
  }

  lemma SortOfOne(a: Priced)
    ensures SortDesc([a], PriceKey) == [a]
  {
    assert [a][..0] == [];
    InsertAtEnd([], a, PriceKey);
  }

  /** Two results that both carry a vehicle are priced in order. */
  lemma PricesOfTwo(f: Found, g: Found)
    requires f.data.Some? && g.data.Some?
    ensures PricesOf([f, g]) == [Priced(f.item, f.data.value.price), Priced(g.item, g.data.value.price)]
  {
    assert |PricesOf([f, g])| == 2;
  }

  /** Two results that both carry a vehicle are compared by those vehicles' prices, the
      cheaper named first and the first item on a tie. */
  lemma TwoPricesCompared(f: Found, g: Found, query: string, money: Money)
    requires f.data.Some? && g.data.Some?
    ensures var px := Priced(f.item, f.data.value.price);
      var py := Priced(g.item, g.data.value.price);
      var c := if px.price <= py.price then px else py;
      var d := if px.price <= py.price then py else px;
      ComparisonResponse([f, g], query, money)
      == (if AsksWhichIsCheaper(query) then OneLine(c, d, money) else Bullets(c, d, money))
  {
    PricesOfTwo(f, g);
    CheaperOfTwo(Priced(f.item, f.data.value.price), Priced(g.item, g.data.value.price));
  }

  /** The reply is one of the two fixed messages exactly when fewer than two results carry a
      price. */
  lemma ComparisonFallsBack(results: seq<Found>, query: string, money: Money)
    ensures var r := ComparisonResponse(results, query, money);
      (r == InsufficientData || r == NoPrices) <==> |PricesOf(results)| < 2
  {
    var prices := PricesOf(results);
    if |prices| >= 2 {
      var s := CheaperFirst(prices);
      ComparedRepliesAreNotFixed(s[0], s[1], money);
    }
  }

  /** A reply that compares two prices is neither fixed message. */
  lemma ComparedRepliesAreNotFixed(c: Priced, d: Priced, money: Money)
    ensures OneLine(c, d, money) != InsufficientData && OneLine(c, d, money) != NoPrices
    ensures Bullets(c, d, money) != InsufficientData && Bullets(c, d, money) != NoPrices
  {
    assert OneLine(c, d, money)[0] == 'T';
    var head := "**Comparison Results:**\n\n        \U{2022} **";
    assert Bullets(c, d, money)[0] == head[0] == '*';
    assert InsufficientData[0] == 'I' && NoPrices[0] == 'I';
  }

  /** With two or more prices the reply names the cheapest priced item first and the next
      cheapest second, two distinct results, in the form the query asks for. */
  lemma ComparisonNamesTwoCheapest(results: seq<Found>, query: string, money: Money)
    requires |PricesOf(results)| >= 2
    ensures var prices := PricesOf(results);
      exists c: Priced, d: Priced ::
        && TwoCheapest(prices, c, d)
        && ComparisonResponse(results, query, money)
           == (if AsksWhichIsCheaper(query) then OneLine(c, d, money) else Bullets(c, d, money))
  {
    var prices := PricesOf(results);
    var s := CheaperFirst(prices);
    var text := ComparisonResponse(results, query, money);
    SortedHeadIsTwoCheapest(prices);
    assert text == (if AsksWhichIsCheaper(query) then OneLine(s[0], s[1], money) else Bullets(s[0], s[1], money));
    assert TwoCheapest(prices, s[0], s[1]);
  }

  /** `c` and `d` are two distinct entries of `prices`: `c` at the lowest price, `d` at the
      lowest price among the rest. */
  ghost predicate TwoCheapest(prices: seq<Priced>, c: Priced, d: Priced) {
    && multiset{c, d} <= multiset(prices)
    && (forall k :: 0 <= k < |prices| ==> c.price <= prices[k].price)
    && (forall x :: x in multiset(prices) - multiset{c} ==> d.price <= x.price)
  }

  lemma SortedHeadIsTwoCheapest(prices: seq<Priced>)
    requires |prices| >= 2
    ensures TwoCheapest(prices, CheaperFirst(prices)[0], CheaperFirst(prices)[1])
  {
    var s := CheaperFirst(prices);
    assert s == [s[0], s[1]] + s[2..];
    forall k | 0 <= k < |prices|
      ensures s[0].price <= prices[k].price
    {
      CheaperComesFirst(prices, k);
    }
    SecondIsCheapestOfRest(prices);
  }

  lemma SecondIsCheapestOfRest(prices: seq<Priced>)
    requires |prices| >= 2
    ensures forall x :: x in multiset(prices) - multiset{CheaperFirst(prices)[0]} ==>
      CheaperFirst(prices)[1].price <= x.price
  {
    SecondOfAscending(CheaperFirst(prices));
  }

  /** In a list by ascending price, the second entry is no dearer than anything but the first. */
  lemma SecondOfAscending(s: seq<Priced>)
    requires |s| >= 2
    requires forall i, j :: 0 <= i < j < |s| ==> s[i].price <= s[j].price
    ensures forall x :: x in multiset(s) - multiset{s[0]} ==> s[1].price <= x.price
  {
    var rest := s[1..];
    assert s == [s[0]] + rest;
    assert multiset(s) - multiset{s[0]} == multiset(rest);
    forall x: Priced | x in multiset(rest)
      ensures s[1].price <= x.price
    {
      assert x in rest;
      var m :| 0 <= m < |rest| && rest[m] == x;
      assert s[m + 1] == x;
    }
  }
}
