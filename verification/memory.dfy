/** Conversation memory (Backend/app/MemoryUpdate.py, `ConversationMemory`): a bounded
    history of exchanges, the context of the last successful search, and the views the
    assistant derives from them. */
module Memory {
  import opened Options
  import opened Seqs
  import opened Text
  import opened IntentRecord

  /** One user/assistant turn. `intent` is `None` for an empty (falsy) intent dictionary;
      the timestamp is not modelled. */
  datatype Exchange = Exchange(query: string, response: string, intent: Option<Intent>, vehiclesFound: int)

  /** The five intent fields remembered after a search that found vehicles. */
  datatype SearchContext = SearchContext(
    manufacturer: Option<string>,
    model: Option<string>,
    location: Option<string>,
    priceRange: Option<string>,
    intent: Option<string>)

  /** `lastContext` is `None` for the empty dictionary the memory starts with. */
  datatype Memory = Memory(maxHistory: int, history: seq<Exchange>, lastContext: Option<SearchContext>)

  const DefaultMaxHistory: int := 10

  function NewMemory(maxHistory: int): (m: Memory)
    ensures m.history == [] && m.lastContext == None && m.maxHistory == maxHistory
  {
    Memory(maxHistory, [], None)
  }

  function ContextOf(i: Intent): SearchContext {
    SearchContext(i.manufacturer, i.model, i.location, i.priceRange, i.intent)
  }

  /** `add_exchange`: append, trim with `history[-maxHistory:]` when too long, and remember
      the search context when the intent is non-empty and found vehicles. */
  function Add(m: Memory, e: Exchange): (r: Memory)
    ensures r.maxHistory == m.maxHistory
    ensures |r.history| <= |m.history| + 1
    ensures r.history == (m.history + [e])[|m.history| + 1 - |r.history|..]
    ensures m.maxHistory >= 1 ==> |r.history| == Min(m.maxHistory, |m.history| + 1)
    ensures m.maxHistory >= 1 ==> r.history[|r.history| - 1] == e
    ensures m.maxHistory == 0 ==> r.history == m.history + [e]
    ensures e.intent.Some? && e.vehiclesFound > 0 ==> r.lastContext == Some(ContextOf(e.intent.value))
    ensures !(e.intent.Some? && e.vehiclesFound > 0) ==> r.lastContext == m.lastContext
  {
    var h := m.history + [e];
    var kept := if |h| > m.maxHistory then SliceFrom(h, -m.maxHistory) else h;
    var ctx := if e.intent.Some? && e.vehiclesFound > 0 then Some(ContextOf(e.intent.value)) else m.lastContext;
    Memory(m.maxHistory, kept, ctx)
  }

  /** The memory after recording `es` one after another. */
  function Replay(m: Memory, es: seq<Exchange>): Memory {
    if |es| == 0 then m else Add(Replay(m, es[..|es| - 1]), es[|es| - 1])
  }

  /** Recording the last exchange of `es` on top of the newest `k` before it keeps the
      newest `k` of `es`. */
  lemma AddToNewest(es: seq<Exchange>, m: Memory)
    requires |es| > 0
    requires m.maxHistory >= 1 && m.history == Newest(es[..|es| - 1], m.maxHistory)
    ensures Add(m, es[|es| - 1]).history == Newest(es, m.maxHistory)
  {
    var h := m.history + [es[|es| - 1]];
    assert Add(m, es[|es| - 1]).history == if |h| > m.maxHistory then SliceFrom(h, -m.maxHistory) else h;
    NewestSnoc(es, m.maxHistory);
  }

  /** With a bound of at least one, the history is always the newest `maxHistory` exchanges
      recorded: the oldest ones are the ones dropped. */
  lemma {:induction false} ReplayKeepsNewest(maxHistory: int, es: seq<Exchange>)
    requires maxHistory >= 1
    ensures Replay(NewMemory(maxHistory), es).history == Newest(es, maxHistory)
    ensures Replay(NewMemory(maxHistory), es).maxHistory == maxHistory
  {
    if |es| > 0 {
      ReplayKeepsNewest(maxHistory, es[..|es| - 1]);
      AddToNewest(es, Replay(NewMemory(maxHistory), es[..|es| - 1]));
    }
  }

  /** Header line plus one block per exchange. */
  const ContextHeader := "Previous conversation:\n"

  /** One exchange in the conversation context; the response is cut to 200 characters. */
  function Block(e: Exchange): string {
    "\nUser: " + e.query + "\nAssistant: " + Take(e.response, 200) + "...\n"
  }

  function Blocks(es: seq<Exchange>): string {
    if |es| == 0 then "" else Blocks(es[..|es| - 1]) + Block(es[|es| - 1])
  }

  /** `get_conversation_context`: empty for an empty history, otherwise the header and the
      last five exchanges. */
  function ConversationContext(m: Memory): (r: string)
    ensures r == "" <==> m.history == []
    ensures m.history != [] ==> StartsWith(r, ContextHeader)
  {
    if |m.history| == 0 then "" else ContextHeader + Blocks(SliceFrom(m.history, -5))
  }

  /** Only the last five exchanges reach the context. */
  lemma ContextSeesLastFive(m: Memory)
    ensures ConversationContext(m) == ConversationContext(m.(history := Newest(m.history, 5)))
  {
    var h := m.history;
    var n := Newest(h, 5);
    if |h| > 0 {
      assert SliceFrom(n, -5) == n;
    }
  }

  /** A response's characters past the 200th never reach the context. */
  lemma ResponsesAreCut(e: Exchange)
    ensures Block(e) == Block(e.(response := Take(e.response, 200)))
  {
  }

  /** The car an intent mentions: "Manufacturer Model" title-cased, or the manufacturer
      alone; nothing without a manufacturer. */
  function MentionOf(intent: Option<Intent>): (r: Option<string>)
    ensures r.Some? <==> intent.Some? && Truthy(intent.value.manufacturer)
  {
    if intent.Some? && Truthy(intent.value.manufacturer) then
      var i := intent.value;
      if Truthy(i.model) then Some(Title(i.manufacturer.value) + " " + Title(i.model.value))
      else Some(Title(i.manufacturer.value))
    else None
  }

  /** Up to letter case, a mention is the manufacturer, then a space and the model when
      there is one. */
  lemma MentionText(i: Intent)
    requires Truthy(i.manufacturer)
    ensures Truthy(i.model) ==>
      Lower(MentionOf(Some(i)).value) == Lower(i.manufacturer.value) + " " + Lower(i.model.value)
    ensures !Truthy(i.model) ==> Lower(MentionOf(Some(i)).value) == Lower(i.manufacturer.value)
  {
    var make := Title(i.manufacturer.value);
    LowerOfTitle(i.manufacturer.value);
    if Truthy(i.model) {
      var name := Title(i.model.value);
      LowerOfTitle(i.model.value);
      LowerOfConcat(make + " ", name);
      LowerOfConcat(make, " ");
    }
  }

  /** Some exchange of `es` mentions car `x`. */
  ghost predicate Mentioned(es: seq<Exchange>, x: string) {
    exists j :: 0 <= j < |es| && MentionOf(es[j].intent) == Some(x)
  }

  /** The mentions of `es`, newest first, repeats included. */
  function MentionsNewestFirst(es: seq<Exchange>): (r: seq<string>)
    ensures forall x :: x in r <==> Mentioned(es, x)
  {
    if |es| == 0 then []
    else
      var p := es[..|es| - 1];
      var m := MentionOf(es[|es| - 1].intent);
      var rest := MentionsNewestFirst(p);
      MentionedOfSnoc(p, es[|es| - 1]);
      assert es == p + [es[|es| - 1]];
      (if m.Some? then [m.value] else []) + rest
  }

  lemma MentionedOfSnoc(p: seq<Exchange>, e: Exchange)
    ensures forall x :: Mentioned(p + [e], x) <==> Mentioned(p, x) || MentionOf(e.intent) == Some(x)
  {
    forall x | Mentioned(p, x)
      ensures Mentioned(p + [e], x)
    {
      var j :| 0 <= j < |p| && MentionOf(p[j].intent) == Some(x);
      assert (p + [e])[j] == p[j];
    }
    forall x | MentionOf(e.intent) == Some(x)
      ensures Mentioned(p + [e], x)
    {
      assert (p + [e])[|p|] == e;
    }
    forall x | Mentioned(p + [e], x)
      ensures Mentioned(p, x) || MentionOf(e.intent) == Some(x)
    {
      var j :| 0 <= j < |p| + 1 && MentionOf((p + [e])[j].intent) == Some(x);
      if j < |p| {
        assert (p + [e])[j] == p[j];
      }
    }
  }

  /** Deduplication keeps exactly the elements. */
  lemma DedupSameElements<T>(s: seq<T>)
    ensures forall x :: x in Dedup(s) <==> x in s
  {
    var d := Dedup(s);
    forall x | x in d
      ensures x in s
    {
      var i :| 0 <= i < |d| && d[i] == x;
    }
    forall x | x in s
      ensures x in d
    {
      var i :| 0 <= i < |s| && s[i] == x;
    }
  }

  /** The last `limit` exchanges, by Python's `history[-limit:]`. */
  function Window(m: Memory, limit: int): seq<Exchange> {
    SliceFrom(m.history, -limit)
  }

  /** `get_recently_mentioned_cars`: the distinct cars mentioned in the window, newest
      first. */
  function RecentlyMentioned(m: Memory, limit: int): (r: seq<string>)
    ensures NoDup(r)
    ensures forall x :: x in r <==> Mentioned(Window(m, limit), x)
  {
    var all := MentionsNewestFirst(Window(m, limit));
    DedupSameElements(all);
    Dedup(all)
  }

  /** The position of the newest exchange of `es` that mentions `x`. */
  ghost function LastMention(es: seq<Exchange>, x: string): (j: nat)
    requires Mentioned(es, x)
    ensures j < |es| && MentionOf(es[j].intent) == Some(x)
    ensures forall k :: j < k < |es| ==> MentionOf(es[k].intent) != Some(x)
  {
    var p := es[..|es| - 1];
    var e := es[|es| - 1];
    if MentionOf(e.intent) == Some(x) then |es| - 1
    else
      MentionedBefore(es, x);
      LastMention(p, x)
  }

  /** A car the newest exchange does not mention keeps its newest mention among the older
      exchanges. */
  lemma LastMentionStep(es: seq<Exchange>, x: string)
    requires Mentioned(es, x) && MentionOf(es[|es| - 1].intent) != Some(x)
    ensures Mentioned(es[..|es| - 1], x)
    ensures LastMention(es, x) == LastMention(es[..|es| - 1], x)
  {
    MentionedBefore(es, x);
  }

  lemma MentionedBefore(es: seq<Exchange>, x: string)
    requires Mentioned(es, x) && MentionOf(es[|es| - 1].intent) != Some(x)
    ensures Mentioned(es[..|es| - 1], x)
  {
    var p := es[..|es| - 1];
    var j :| 0 <= j < |es| && MentionOf(es[j].intent) == Some(x);
    assert j != |es| - 1;
    assert p[j] == es[j];
  }

  /** ... and its place in the older exchanges' mentions, one further down when the newest
      exchange mentions another car. */
  lemma MentionStep(es: seq<Exchange>, x: string)
    requires Mentioned(es, x) && MentionOf(es[|es| - 1].intent) != Some(x)
    ensures Mentioned(es[..|es| - 1], x)
    ensures x in MentionsNewestFirst(es) && x in MentionsNewestFirst(es[..|es| - 1])
    ensures LastMention(es, x) == LastMention(es[..|es| - 1], x)
    ensures FirstIndex(MentionsNewestFirst(es), x) == FirstIndex(MentionsNewestFirst(es[..|es| - 1]), x)
      + (if MentionOf(es[|es| - 1].intent).Some? then 1 else 0)
  {
    LastMentionStep(es, x);
    var m := MentionOf(es[|es| - 1].intent);
    var newest := if m.Some? then [m.value] else [];
    var rest := MentionsNewestFirst(es[..|es| - 1]);
    assert MentionsNewestFirst(es) == newest + rest;
    FirstIndexAfter(newest, rest, x);
  }

  /** Of two different cars, the one whose newest mention is newer is listed first. */
  lemma {:induction false} MentionOrder(es: seq<Exchange>, x: string, y: string)
    requires Mentioned(es, x) && Mentioned(es, y) && x != y
    ensures x in MentionsNewestFirst(es) && y in MentionsNewestFirst(es)
    ensures FirstIndex(MentionsNewestFirst(es), x) < FirstIndex(MentionsNewestFirst(es), y)
      <==> LastMention(es, x) > LastMention(es, y)
    decreases |es|
  {
    var m := MentionOf(es[|es| - 1].intent);
    if m == Some(x) {
      assert MentionsNewestFirst(es)[0] == x;
      assert LastMention(es, x) == |es| - 1;
    } else if m == Some(y) {
      assert MentionsNewestFirst(es)[0] == y;
      assert LastMention(es, y) == |es| - 1;
    } else {
      MentionStep(es, x);
      MentionStep(es, y);
      MentionOrder(es[..|es| - 1], x, y);
    }
  }

  /** `get_recently_mentioned_cars` lists the cars newest first: of any two listed cars, the
      earlier one was mentioned more recently. */
  lemma RecentlyMentionedNewestFirst(m: Memory, limit: int)
    ensures forall i, j :: 0 <= i < j < |RecentlyMentioned(m, limit)| ==>
      LastMention(Window(m, limit), RecentlyMentioned(m, limit)[i])
        > LastMention(Window(m, limit), RecentlyMentioned(m, limit)[j])
  {
    var w := Window(m, limit);
    var all := MentionsNewestFirst(w);
    var r := RecentlyMentioned(m, limit);
    assert r == Dedup(all);
    DedupKeepsFirstOccurrenceOrder(all);
    forall i, j | 0 <= i < j < |r|
      ensures LastMention(w, r[i]) > LastMention(w, r[j])
    {
      MentionOrder(w, r[i], r[j]);
    }
  }

  /** The newest exchange that mentions a car puts it first. */
  lemma NewestMentionFirst(m: Memory, limit: int)
    requires |Window(m, limit)| > 0
    requires MentionOf(Window(m, limit)[|Window(m, limit)| - 1].intent).Some?
    ensures RecentlyMentioned(m, limit)[0] == MentionOf(Window(m, limit)[|Window(m, limit)| - 1].intent).value
  {
    var w := Window(m, limit);
    var x := MentionOf(w[|w| - 1].intent).value;
    var all := MentionsNewestFirst(w);
    assert all[0] == x;
    DedupPrefix(all, 1);
    assert all[..1] == [x];
    DedupOfSingleton(x);
  }

  /** Deduplicating a prefix gives a prefix of the deduplicated whole. */
  lemma {:induction false} DedupPrefix<T>(s: seq<T>, n: nat)
    requires n <= |s|
    ensures IsPrefix(Dedup(s[..n]), Dedup(s))
    decreases |s|
  {
    if n < |s| {
      var p := s[..|s| - 1];
      assert p[..n] == s[..n];
      DedupPrefix(p, n);
    } else {
      assert s[..n] == s;
    }
  }

  /** The mentions of a suffix of `es` are a prefix of the mentions of `es`. */
  lemma {:induction false} MentionsOfSuffix(es: seq<Exchange>, k: nat)
    requires k <= |es|
    ensures IsPrefix(MentionsNewestFirst(es[k..]), MentionsNewestFirst(es))
    decreases |es|
  {
    if k < |es| {
      var p := es[..|es| - 1];
      assert es[k..][..|es| - k - 1] == p[k..];
      assert es[k..][|es| - k - 1] == es[|es| - 1];
      MentionsOfSuffix(p, k);
    }
  }

  /** `get_cars_for_comparison`: the two newest distinct cars of the last ten exchanges. */
  function CarsForComparison(m: Memory): (r: seq<string>)
    ensures |r| <= 2
    ensures |r| == Min(2, |RecentlyMentioned(m, 10)|)
    ensures IsPrefix(r, RecentlyMentioned(m, 10))
  {
    var cars := RecentlyMentioned(m, 10);
    if |cars| >= 2 then Take(cars, 2) else cars
  }

  /** The cars picked for a comparison were mentioned more recently than every other car of
      the last ten exchanges. */
  lemma ComparisonPicksNewestCars(m: Memory, x: string, c: string)
    requires Mentioned(Window(m, 10), x) && x !in CarsForComparison(m)
    requires c in CarsForComparison(m)
    ensures LastMention(Window(m, 10), c) > LastMention(Window(m, 10), x)
  {
    PicksAreNewest(m, 10, CarsForComparison(m), x, c);
  }

  /** A prefix of the cars mentioned in the window, newest first, holds the most recently
      mentioned ones. */
  lemma PicksAreNewest(m: Memory, limit: int, cars: seq<string>, x: string, c: string)
    requires IsPrefix(cars, RecentlyMentioned(m, limit))
    requires Mentioned(Window(m, limit), x) && x !in cars && c in cars
    ensures LastMention(Window(m, limit), c) > LastMention(Window(m, limit), x)
  {
    RecentlyMentionedNewestFirst(m, limit);
    PrefixIsNewer(RecentlyMentioned(m, limit), cars, Window(m, limit), x, c);
  }

  /** In a list of mentioned cars ordered newest first, a car of a prefix was mentioned more
      recently than any car past it. */
  lemma PrefixIsNewer(r: seq<string>, cars: seq<string>, es: seq<Exchange>, x: string, c: string)
    requires forall y :: y in r <==> Mentioned(es, y)
    requires forall i, j :: 0 <= i < j < |r| ==> LastMention(es, r[i]) > LastMention(es, r[j])
    requires IsPrefix(cars, r)
    requires x in r && x !in cars && c in cars
    ensures LastMention(es, c) > LastMention(es, x)
  {
    var k :| 0 <= k < |r| && r[k] == x;
    var i :| 0 <= i < |cars| && cars[i] == c;
    assert r[i] == c;
    assert k >= |cars|;
  }

  /** `has_recent_car_searches`: two distinct cars among the last five exchanges. */
  predicate HasRecentCarSearches(m: Memory) {
    |RecentlyMentioned(m, 5)| >= 2
  }

  /** Recent car searches exist exactly when the last five exchanges mention two different
      cars. */
  lemma RecentSearchesMeanTwoCars(m: Memory)
    ensures HasRecentCarSearches(m) <==>
      exists x, y :: x != y && Mentioned(Window(m, 5), x) && Mentioned(Window(m, 5), y)
  {
    TwoDistinctListed(RecentlyMentioned(m, 5), Window(m, 5));
  }

  /** Whenever recent car searches exist, two cars are available for comparison. */
  lemma RecentSearchesGiveTwoCars(m: Memory)
    requires HasRecentCarSearches(m)
    ensures |CarsForComparison(m)| == 2
  {
    WiderWindowListsMore(m, 5, 10);
  }

  /** A wider window lists at least the cars a narrower one does. */
  lemma WiderWindowListsMore(m: Memory, small: int, big: int)
    requires 1 <= small <= big
    ensures |RecentlyMentioned(m, small)| <= |RecentlyMentioned(m, big)|
  {
    var wb := Window(m, big);
    var ws := Window(m, small);
    var k := |wb| - |ws|;
    assert ws == wb[k..];
    MentionsOfSuffix(wb, k);
    var a := MentionsNewestFirst(wb);
    var b := MentionsNewestFirst(ws);
    assert a[..|b|] == b;
    DedupPrefix(a, |b|);
  }

  /** A repeat-free list of exactly the mentioned cars has two entries exactly when two
      different cars are mentioned. */
  lemma TwoDistinctListed(r: seq<string>, es: seq<Exchange>)
    requires NoDup(r)
    requires forall x :: x in r <==> Mentioned(es, x)
    ensures |r| >= 2 <==> exists x, y :: x != y && Mentioned(es, x) && Mentioned(es, y)
  {
    if |r| >= 2 {
      assert r[0] in r && r[1] in r;
    } else {
      forall x, y | Mentioned(es, x) && Mentioned(es, y)
        ensures x == y
      {
        assert x in r && y in r;
      }
    }
  }

  const FollowUpIndicators: seq<string> := [
    "what about", "how about", "and", "also", "too", "as well",
    "which one", "which is", "compare", "cheaper", "better",
    "that one", "this one", "those", "these", "them",
    "similar", "alternative", "instead", "other"]

  const ComparisonIndicators: seq<string> := [
    "which is cheaper", "which is better", "which one is", "compare",
    "vs", "versus", "difference between", "cheaper", "more expensive",
    "better", "worse", "which should i", "which would you"]

  /** `detect_follow_up_query`: a cue phrase in the lower-cased query, and only once there is
      a history to follow up on. */
  predicate DetectFollowUp(m: Memory, query: string) {
    m.history != [] && ContainsAny(Lower(query), FollowUpIndicators)
  }

  /** `detect_comparison_query`: a comparison phrase in the lower-cased query. */
  predicate DetectComparison(query: string) {
    ContainsAny(Lower(query), ComparisonIndicators)
  }

  /** A phrase found in `q` is still found once text is put around it. */
  lemma ContainsWithin(a: string, q: string, b: string, w: string)
    requires Contains(q, w)
    ensures Contains(a + q + b, w)
  {
    var i :| 0 <= i <= |q| && OccursAt(q, w, i);
    assert (a + q + b)[|a| + i..|a| + i + |w|] == q[i..i + |w|];
    assert OccursAt(a + q + b, w, |a| + i);
  }

  /** A phrase from `ws` in `q` is still found in the lower-cased `q` with text around it. */
  lemma CueWithin(p: string, q: string, s: string, ws: seq<string>)
    requires ContainsAny(Lower(q), ws)
    ensures ContainsAny(Lower(p + q + s), ws)
  {
    LowerOfConcat(p, q);
    LowerOfConcat(p + q, s);
    var j :| 0 <= j < |ws| && Contains(Lower(q), ws[j]);
    ContainsWithin(Lower(p), Lower(q), Lower(s), ws[j]);
  }

  /** Adding text around a query never removes a cue: a comparison or follow-up query stays
      one when it is quoted inside a longer text, such as the enhanced query. */
  lemma CuesSurviveContext(m: Memory, p: string, q: string, s: string)
    ensures DetectComparison(q) ==> DetectComparison(p + q + s)
    ensures DetectFollowUp(m, q) ==> DetectFollowUp(m, p + q + s)
  {
    if DetectComparison(q) {
      CueWithin(p, q, s, ComparisonIndicators);
    }
    if DetectFollowUp(m, q) {
      CueWithin(p, q, s, FollowUpIndicators);
    }
  }

  /** Both detectors look at the lower-cased query only. */
  lemma DetectorsIgnoreCase(m: Memory, query: string)
    ensures DetectFollowUp(m, query) == DetectFollowUp(m, Lower(query))
    ensures DetectComparison(query) == DetectComparison(Lower(query))
  {
    LowerIsIdempotent(query);
  }

  /** Substring matching makes "and" fire inside other words: asking about a Land Cruiser
      after any earlier exchange counts as a follow-up. */
  lemma LandCruiserIsFollowUp(m: Memory)
    requires m.history != []
    ensures DetectFollowUp(m, "land cruiser")
  {
    assert Lower("land cruiser") == "land cruiser";
    assert OccursAt("land cruiser", "and", 1);
    assert FollowUpIndicators[2] == "and";
  }

  /** The "Previously searched ..." phrases for the truthy fields of a search context. */
  function ContextParts(c: SearchContext): (r: seq<string>)
    ensures |r| == 0 <==> !Truthy(c.manufacturer) && !Truthy(c.model) && !Truthy(c.location) && !Truthy(c.priceRange)
  {
    (if Truthy(c.manufacturer) then ["Previously searched manufacturer: " + c.manufacturer.value] else [])
    + (if Truthy(c.model) then ["Previously searched model: " + c.model.value] else [])
    + (if Truthy(c.location) then ["Previously searched location: " + c.location.value] else [])
    + (if Truthy(c.priceRange) then ["Previously searched price range: " + c.priceRange.value] else [])
  }

  /** `enhance_query_with_context`: a follow-up query after a remembered search with some
      truthy field is prefixed with that context; any other query is returned as it is. */
  function EnhanceQuery(m: Memory, query: string): (r: string)
    ensures EndsWith(r, query)
    ensures r != query <==> DetectFollowUp(m, query) && m.lastContext.Some? && |ContextParts(m.lastContext.value)| > 0
    ensures r != query ==> StartsWith(r, "Context: ")
  {
    if !DetectFollowUp(m, query) || m.lastContext.None? then query
    else
      var parts := ContextParts(m.lastContext.value);
      if |parts| == 0 then query
      else
        var prefix := "Context: " + Join(parts, "; ") + ". Current query: ";
        assert (prefix + query)[..9] == prefix[..9];
        prefix + query
  }

  /** `get_last_search_results` */
  function LastSearchResults(m: Memory): Option<SearchContext> {
    m.lastContext
  }

  /** `clear_history` */
  function Clear(m: Memory): (r: Memory)
    ensures r.history == [] && r.lastContext == None
    ensures r.maxHistory == m.maxHistory
  {
    m.(history := [], lastContext := None)
  }

  /** After clearing, every view is empty again and no query is a follow-up or gets
      enhanced. */
  lemma ClearForgets(m: Memory, query: string, limit: int)
    ensures LastSearchResults(Clear(m)) == None
    ensures ConversationContext(Clear(m)) == ""
    ensures RecentlyMentioned(Clear(m), limit) == []
    ensures !DetectFollowUp(Clear(m), query)
    ensures EnhanceQuery(Clear(m), query) == query
  {
  }

  /** A search that found vehicles is what the next follow-up query is enhanced with. */
  lemma SuccessfulSearchIsRemembered(m: Memory, e: Exchange)
    requires e.intent.Some? && e.vehiclesFound > 0
    ensures LastSearchResults(Add(m, e)) == Some(ContextOf(e.intent.value))
  {
  }

  /** A turn that found nothing, or had an empty intent, leaves the last search results as
      they were. */
  lemma FailedSearchKeepsLastResults(m: Memory, e: Exchange)
    requires !(e.intent.Some? && e.vehiclesFound > 0)
    ensures LastSearchResults(Add(m, e)) == LastSearchResults(m)
  {
  }
}
