/** One assistant turn (Backend/app/Agent.py, `CarAssistant.process_query_with_memory` and
    `_handle_comparison_query`): extract the intent, filter, rank, synthesize a reply with
    the language model, and record the exchange. */
module Agent {
  import opened Options
  import opened Seqs
  import opened Text
  import opened Sorting
  import opened Catalog
  import opened Resolver
  import opened IntentRecord
  import opened Filter
  import opened Ranking
  import opened Memory
  import opened Extraction
  import opened Comparison

  /** The loaded catalogue, its manufacturer index, and the string similarity in use. */
  datatype Assistant = Assistant(catalog: seq<Vehicle>, index: Index, sim: Similarity)

  /** The constructor builds the index from the (already normalised) rows. */
  function NewAssistant(catalog: seq<Vehicle>, sim: Similarity): (a: Assistant)
    ensures a.catalog == catalog && a.index == BuildIndex(catalog)
  {
    Assistant(catalog, BuildIndex(catalog), sim)
  }

  /** A reply, or the exception that escaped. */
  datatype Outcome = Answer(text: string) | Raised

  /** What a turn produces: the reply and the memory afterwards. */
  datatype Turn = Turn(reply: Outcome, memory: Memory)

  /** The reply-writing model: (query, intent, ranked vehicles, conversation context) to a
      reply, or `None` when the call fails. */
  type Writer = (string, Intent, seq<Vehicle>, string) -> Option<string>

  const ErrorApology := "I apologize, but I encountered an error while processing your request. Please try rephrasing your question."
  const WriterApology := "I apologize, but I'm having trouble processing your request right now. Please try again later."

  /** Filter then rank for one intent; `None` when ranking divides by zero. */
  function Candidates(a: Assistant, intent: Intent): Option<seq<Vehicle>> {
    Rank(FilterData(a.catalog, a.index, a.sim, intent), intent.location)
  }

  /** Filtering then ranking raises exactly when some catalogue row meeting the criteria
      cannot be priced; otherwise it yields at most five rows, each a catalogue row meeting
      every criterion, by descending score, and every matching row when there are at most
      five. */
  lemma CandidatesAreAdmittedRows(a: Assistant, intent: Intent)
    ensures var c := CriteriaOf(a.index, a.sim, intent);
      Candidates(a, intent).None? <==>
        exists i :: 0 <= i < |a.catalog| && Admits(c, a.catalog[i]) && !Priceable(a.catalog[i])
    ensures var c := CriteriaOf(a.index, a.sim, intent);
      var r := Candidates(a, intent);
      r.Some? ==>
        && |r.value| <= TopCount
        && SortedDesc(r.value, ScoreKey(intent.location))
        && (forall k :: 0 <= k < |r.value| ==> r.value[k] in a.catalog && Admits(c, r.value[k]))
    ensures Candidates(a, intent).Some? && |FilterData(a.catalog, a.index, a.sim, intent)| <= TopCount ==>
      multiset(Candidates(a, intent).value) == multiset(FilterData(a.catalog, a.index, a.sim, intent))
  {
    var c := CriteriaOf(a.index, a.sim, intent);
    var f := FilterData(a.catalog, a.index, a.sim, intent);
    FilteredRowsRank(a.catalog, c, f, intent.location);
  }

  /** What ranking makes of any subsequence of the catalogue holding exactly the rows a
      set of criteria admits. */
  lemma FilteredRowsRank(catalog: seq<Vehicle>, c: Criteria, f: seq<Vehicle>, location: Option<string>)
    requires IsSubsequence(f, catalog)
    requires forall i :: 0 <= i < |f| ==> Admits(c, f[i])
    requires forall i :: 0 <= i < |catalog| && Admits(c, catalog[i]) ==> catalog[i] in f
    ensures Rank(f, location).None? <==>
      exists i :: 0 <= i < |catalog| && Admits(c, catalog[i]) && !Priceable(catalog[i])
    ensures var r := Rank(f, location);
      r.Some? ==> forall k :: 0 <= k < |r.value| ==> r.value[k] in catalog && Admits(c, r.value[k])
    ensures Rank(f, location).Some? && |f| <= TopCount ==>
      multiset(Rank(f, location).value) == multiset(f)
  {
    var r := Rank(f, location);
    SubsequenceMembers(f, catalog);
    if i :| 0 <= i < |catalog| && Admits(c, catalog[i]) && !Priceable(catalog[i]) {
      var k :| 0 <= k < |f| && f[k] == catalog[i];
    }
    if !AllPriceable(f) {
      var k :| 0 <= k < |f| && !Priceable(f[k]);
      var i :| 0 <= i < |catalog| && catalog[i] == f[k];
    }
    if r.Some? {
      forall k | 0 <= k < |r.value|
        ensures r.value[k] in catalog && Admits(c, r.value[k])
      {
        assert r.value[k] in multiset(f);
      }
      if |f| <= TopCount {
        RankOfFewKeepsAll(f, location);
      }
    }
  }

  /** A catalogue whose every row can be priced never makes ranking raise. */
  lemma PriceableCatalogRanks(a: Assistant, intent: Intent)
    requires AllPriceable(a.catalog)
    ensures Candidates(a, intent).Some?
    ensures |Candidates(a, intent).value| <= TopCount
  {
    var f := FilterData(a.catalog, a.index, a.sim, intent);
    SubsequenceMembers(f, a.catalog);
    forall i | 0 <= i < |f|
      ensures Priceable(f[i])
    {
      var j :| 0 <= j < |a.catalog| && a.catalog[j] == f[i];
    }
  }

  /** The rest of the `try` block once ranking is done: a raising ranking yields the error
      apology and leaves memory untouched; otherwise the reply is the writer's text, or its
      apology when the call fails, and the exchange is recorded with the intent and the
      number of vehicles ranked. */
  function Respond(mem: Memory, query: string, intent: Intent, ranked: Option<seq<Vehicle>>, writer: Writer): (t: Turn)
    ensures t.reply.Answer?
    ensures ranked.None? ==> t == Turn(Answer(ErrorApology), mem)
    ensures ranked.Some? ==>
      && (writer(query, intent, ranked.value, ConversationContext(mem)) == Some(t.reply.text)
          || (writer(query, intent, ranked.value, ConversationContext(mem)).None? && t.reply.text == WriterApology))
      && t.memory == Add(mem, Exchange(query, t.reply.text, Some(intent), |ranked.value|))
    ensures ranked.Some? && |ranked.value| > 0 ==> t.memory.lastContext == Some(ContextOf(intent))
    ensures !(ranked.Some? && |ranked.value| > 0) ==> t.memory.lastContext == mem.lastContext
    ensures ranked.Some? && mem.maxHistory >= 1 ==>
      t.memory.history[|t.memory.history| - 1] == Exchange(query, t.reply.text, Some(intent), |ranked.value|)
  {
    match ranked
    case None => Turn(Answer(ErrorApology), mem)
    case Some(top) =>
      var written := writer(query, intent, top, ConversationContext(mem));
      var reply := if written.Some? then written.value else WriterApology;
      Turn(Answer(reply), Add(mem, Exchange(query, reply, Some(intent), |top|)))
  }

  /** `process_query_with_memory`: extract the intent, filter and rank, then respond. */
  function ProcessQuery(a: Assistant, mem: Memory, query: string, model: Oracle, writer: Writer): (t: Turn)
    ensures t.reply.Answer?
    ensures Candidates(a, ExtractIntent(query, mem, model)).None? ==>
      t == Turn(Answer(ErrorApology), mem)
    ensures Candidates(a, ExtractIntent(query, mem, model)).Some? ==>
      var intent := ExtractIntent(query, mem, model);
      var top := Candidates(a, intent).value;
      t.memory == Add(mem, Exchange(query, t.reply.text, Some(intent), |top|)) && |top| <= TopCount
  {
    var intent := ExtractIntent(query, mem, model);
    Respond(mem, query, intent, Candidates(a, intent), writer)
  }

  /** A successful turn is the newest exchange in memory afterwards, and a turn that ranked
      some vehicles becomes the search context the next follow-up is enhanced with. */
  lemma TurnIsRecorded(a: Assistant, mem: Memory, query: string, model: Oracle, writer: Writer)
    requires mem.maxHistory >= 1
    requires AllPriceable(a.catalog)
    ensures var t := ProcessQuery(a, mem, query, model, writer);
      && |t.memory.history| > 0
      && t.memory.history[|t.memory.history| - 1].query == query
      && t.memory.history[|t.memory.history| - 1].response == t.reply.text
  {
    var intent := ExtractIntent(query, mem, model);
    PriceableCatalogRanks(a, intent);
    var t := ProcessQuery(a, mem, query, model, writer);
    var e := Exchange(query, t.reply.text, Some(intent), |Candidates(a, intent).value|);
    assert t.memory == Add(mem, e);
    assert t.memory.history[|t.memory.history| - 1] == e;
  }

  /** A car remembered from one turn, named back in a comparison, is looked up with the
      manufacturer and model that turn searched for (lower-cased), as long as each is a
      single word. */
  lemma MentionedCarIsLookedUp(i: Intent, outer: Intent)
    requires Truthy(i.manufacturer) && IsWord(i.manufacturer.value)
    requires Truthy(i.model) ==> IsWord(i.model.value)
    ensures MentionOf(Some(i)).Some?
    ensures ItemIntent(MentionOf(Some(i)).value, outer).manufacturer == Some(Lower(i.manufacturer.value))
    ensures ItemIntent(MentionOf(Some(i)).value, outer).model ==
      (if Truthy(i.model) then Some(Lower(i.model.value)) else None)
  {
    if Truthy(i.model) {
      ItemOfMentionWithModel(i.manufacturer.value, i.model.value, outer);
    } else {
      ItemOfMentionWithoutModel(i.manufacturer.value, outer);
    }
  }

  /** The items to compare: the intent's own when it names two or more, else the two
      recent cars from memory, else none (the caller asks for clarification). */
  function ItemsToCompare(intent: Intent, mem: Memory): (r: Option<seq<string>>)
    ensures r.Some? ==> |r.value| >= 2
    ensures intent.comparisonItems.Some? && |intent.comparisonItems.value| >= 2 ==> r == intent.comparisonItems
    ensures !(intent.comparisonItems.Some? && |intent.comparisonItems.value| >= 2) && r.Some? ==>
      r.value == CarsForComparison(mem)
    ensures r.None? <==>
      (intent.comparisonItems.None? || |intent.comparisonItems.value| < 2) && |CarsForComparison(mem)| < 2
  {
    if intent.comparisonItems.Some? && |intent.comparisonItems.value| >= 2 then intent.comparisonItems
    else
      var recent := CarsForComparison(mem);
      if |recent| >= 2 then Some(recent) else None
  }

  /** How each compared item is ranked: item text to the ranked vehicles, or `None` when
      ranking raises. */
  type ItemRanks = string -> Option<seq<Vehicle>>

  /** The handler's item ranking: filter and rank with the item's own intent. */
  function ItemRanking(a: Assistant, outer: Intent): ItemRanks {
    item => Candidates(a, ItemIntent(item, outer))
  }

  /** `rank` yields at least one vehicle for `item`. */
  ghost predicate RanksSome(rank: ItemRanks, item: string) {
    rank(item).Some? && |rank(item).value| > 0
  }

  /** `f` is the result kept for its item: the first vehicle `rank` yields for it. */
  ghost predicate FirstRanked(rank: ItemRanks, f: Found) {
    RanksSome(rank, f.item) && f.data == Some(rank(f.item).value[0])
  }

  /** The items the results are for, in order. */
  function Names(fs: seq<Found>): (r: seq<string>)
    ensures |r| == |fs|
    ensures forall k :: 0 <= k < |fs| ==> r[k] == fs[k].item
  {
    if |fs| == 0 then [] else [fs[0].item] + Names(fs[1..])
  }

  /** The lookup loop of `_handle_comparison_query`: every item is ranked; an item whose
      ranking yields a vehicle contributes that item with the first-ranked vehicle; `None`
      when ranking raises for one of them. */
  function LookUp(rank: ItemRanks, items: seq<string>): (r: Option<seq<Found>>)
    ensures r.None? <==> exists i :: 0 <= i < |items| && rank(items[i]).None?
    ensures r.Some? ==> |r.value| <= |items|
  {
    if |items| == 0 then Some([])
    else
      var tail := items[1..];
      assert forall i :: 0 < i < |items| ==> items[i] == tail[i - 1];
      match rank(items[0])
      case None => None
      case Some(top) =>
        match LookUp(rank, tail)
        case None => None
        case Some(rest) => Some((if |top| > 0 then [Found(items[0], Some(top[0]))] else []) + rest)
  }

  /** One step of the lookup loop: the first item's result, if its ranking is non-empty,
      followed by the rest's. */
  lemma LookUpStep(rank: ItemRanks, items: seq<string>)
    requires |items| > 0 && LookUp(rank, items).Some?
    ensures rank(items[0]).Some?
    ensures LookUp(rank, items[1..]).Some?
    ensures var top := rank(items[0]).value;
      LookUp(rank, items).value
      == (if |top| > 0 then [Found(items[0], Some(top[0]))] else []) + LookUp(rank, items[1..]).value
  {
  }

  /** Every looked-up result holds its item's first-ranked vehicle. */
  lemma {:induction false} LookUpKeepsFirstRanked(rank: ItemRanks, items: seq<string>)
    requires LookUp(rank, items).Some?
    ensures forall k :: 0 <= k < |LookUp(rank, items).value| ==> FirstRanked(rank, LookUp(rank, items).value[k])
  {
    if |items| > 0 {
      LookUpStep(rank, items);
      LookUpKeepsFirstRanked(rank, items[1..]);
      var top := rank(items[0]).value;
      var head := if |top| > 0 then [Found(items[0], Some(top[0]))] else [];
      AllOfConcat(head, LookUp(rank, items[1..]).value, f => FirstRanked(rank, f));
    }
  }

  /** The results follow the item order. */
  lemma {:induction false} LookUpFollowsItems(rank: ItemRanks, items: seq<string>)
    requires LookUp(rank, items).Some?
    ensures IsSubsequence(Names(LookUp(rank, items).value), items)
  {
    if |items| > 0 {
      LookUpStep(rank, items);
      LookUpFollowsItems(rank, items[1..]);
      var top := rank(items[0]).value;
      var rest := LookUp(rank, items[1..]).value;
      assert items == [items[0]] + items[1..];
      SubsequenceOfCons(items[0], Names(rest), items[1..]);
      if |top| > 0 {
        var f := Found(items[0], Some(top[0]));
        assert LookUp(rank, items).value == [f] + rest;
        NamesOfCons(f, rest);
      } else {
        assert LookUp(rank, items).value == rest;
      }
    }
  }

  lemma NamesOfCons(f: Found, rest: seq<Found>)
    ensures Names([f] + rest) == [f.item] + Names(rest)
  {
    assert ([f] + rest)[1..] == rest;
  }

  /** Every item whose ranking yields a vehicle has its result. */
  lemma {:induction false} LookUpCoversRankedItems(rank: ItemRanks, items: seq<string>)
    requires LookUp(rank, items).Some?
    ensures forall i :: 0 <= i < |items| && RanksSome(rank, items[i]) ==> items[i] in Names(LookUp(rank, items).value)
  {
    if |items| > 0 {
      var tail := items[1..];
      LookUpStep(rank, items);
      LookUpCoversRankedItems(rank, tail);
      var top := rank(items[0]).value;
      var head := if |top| > 0 then [Found(items[0], Some(top[0]))] else [];
      var rest := LookUp(rank, tail).value;
      var r := LookUp(rank, items).value;
      forall i | 0 <= i < |items| && RanksSome(rank, items[i])
        ensures items[i] in Names(r)
      {
        if i == 0 {
          assert Names(r)[0] == items[0];
        } else {
          assert items[i] == tail[i - 1];
          var k :| 0 <= k < |Names(rest)| && Names(rest)[k] == tail[i - 1];
          assert Names(r)[|head| + k] == Names(rest)[k];
        }
      }
    }
  }

  /** Two items whose rankings each yield a vehicle are looked up as those two vehicles. */
  lemma LookUpOfTwoRanked(rank: ItemRanks, x: string, y: string)
    requires RanksSome(rank, x) && RanksSome(rank, y)
    ensures LookUp(rank, [x, y])
      == Some([Found(x, Some(rank(x).value[0])), Found(y, Some(rank(y).value[0]))])
  {
    var fx := Found(x, Some(rank(x).value[0]));
    var fy := Found(y, Some(rank(y).value[0]));
    assert LookUp(rank, [y]) == Some([fy]) by {
      assert [y][1..] == [];
      assert LookUp(rank, []) == Some([]);
      assert [fy] + [] == [fy];
    }
    assert [x, y][1..] == [y];
    assert [fx] + [fy] == [fx, fy];
  }

  /** `_handle_comparison_query` with the evident intent of its result check, for any item
      ranking: an item counts when its ranking is non-empty, with the first-ranked vehicle as
      its data. */
  function HandleComparisonWith(rank: ItemRanks, intent: Intent, mem: Memory, query: string, money: Money): (t: Turn)
    ensures ItemsToCompare(intent, mem).None? ==> t == Turn(Answer(Clarification), mem)
    ensures t.reply.Raised? <==>
      ItemsToCompare(intent, mem).Some? && LookUp(rank, Take(ItemsToCompare(intent, mem).value, 2)).None?
    ensures t.reply.Raised? ==> t.memory == mem
    ensures ItemsToCompare(intent, mem).Some? && LookUp(rank, Take(ItemsToCompare(intent, mem).value, 2)).Some? ==>
      var results := LookUp(rank, Take(ItemsToCompare(intent, mem).value, 2)).value;
      && t.reply == Answer(ComparisonResponse(results, query, money))
      && t.memory == Add(mem, Exchange(query, t.reply.text, Some(intent), |results|))
      && |results| <= 2
  {
    var items := ItemsToCompare(intent, mem);
    if items.None? then Turn(Answer(Clarification), mem)
    else
      var found := LookUp(rank, Take(items.value, 2));
      if found.None? then Turn(Raised, mem)
      else
        var text := ComparisonResponse(found.value, query, money);
        Turn(Answer(text), Add(mem, Exchange(query, text, Some(intent), |found.value|)))
  }

  /** The corrected handler with the assistant's own ranking of each item. */
  function HandleComparison(a: Assistant, intent: Intent, mem: Memory, query: string, money: Money): Turn {
    HandleComparisonWith(ItemRanking(a, intent), intent, mem, query, money)
  }

  /** `_handle_comparison_query` as written: after the early exit, the first item's ranking
      is a list, and reading `.empty` on it raises `AttributeError`. */
  function HandleComparisonAsWritten(a: Assistant, intent: Intent, mem: Memory, query: string, money: Money): (t: Turn)
    ensures t.memory == mem
    ensures t.reply.Answer? <==> ItemsToCompare(intent, mem).None?
    ensures t.reply.Answer? ==> t.reply.text == Clarification
  {
    match ItemsToCompare(intent, mem)
    case None => Turn(Answer(Clarification), mem)
    case Some(items) => Turn(Raised, mem)
  }

  /** As written, the handler never compares anything: its only answer is the clarification
      request, whatever the catalogue holds. */
  lemma AsWrittenNeverCompares(a: Assistant, mem: Memory, query: string, money: Money)
    ensures var intent := OnlyKind(ComparisonIntent).(comparisonItems := Some(["toyota camry", "honda accord"]));
      HandleComparisonAsWritten(a, intent, mem, query, money).reply == Raised
  {
  }

  /** With a priceable catalogue the corrected handler always answers. */
  lemma CorrectedComparisonAnswers(a: Assistant, intent: Intent, mem: Memory, query: string, money: Money)
    requires AllPriceable(a.catalog)
    ensures HandleComparison(a, intent, mem, query, money).reply.Answer?
  {
    match ItemsToCompare(intent, mem)
    case None =>
    case Some(items) =>
      LookUpAnswers(a, Take(items, 2), intent);
  }

  /** On a priceable catalogue no item's ranking raises. */
  lemma LookUpAnswers(a: Assistant, items: seq<string>, outer: Intent)
    requires AllPriceable(a.catalog)
    ensures LookUp(ItemRanking(a, outer), items).Some?
  {
    forall i | 0 <= i < |items|
      ensures ItemRanking(a, outer)(items[i]).Some?
    {
      PriceableCatalogRanks(a, ItemIntent(items[i], outer));
    }
  }

  /** When the first two items to compare each rank a vehicle, the reply compares those two
      vehicles' prices and names the cheaper item first (the first item on a tie), and the
      turn is recorded with two results. */
  lemma TwoRankedItemsAreCompared(rank: ItemRanks, intent: Intent, mem: Memory, query: string, money: Money)
    requires ItemsToCompare(intent, mem).Some?
    requires RanksSome(rank, ItemsToCompare(intent, mem).value[0])
    requires RanksSome(rank, ItemsToCompare(intent, mem).value[1])
    ensures var items := ItemsToCompare(intent, mem).value;
      var px := Priced(items[0], rank(items[0]).value[0].price);
      var py := Priced(items[1], rank(items[1]).value[0].price);
      var c := if px.price <= py.price then px else py;
      var d := if px.price <= py.price then py else px;
      var t := HandleComparisonWith(rank, intent, mem, query, money);
      && t.reply == Answer(if AsksWhichIsCheaper(query) then OneLine(c, d, money) else Bullets(c, d, money))
      && t.memory == Add(mem, Exchange(query, t.reply.text, Some(intent), 2))
  {
    var items := ItemsToCompare(intent, mem).value;
    TakeTwo(items);
    LookUpOfTwoRanked(rank, items[0], items[1]);
    TwoPricesCompared(Found(items[0], Some(rank(items[0]).value[0])), Found(items[1], Some(rank(items[1]).value[0])), query, money);
  }
}
