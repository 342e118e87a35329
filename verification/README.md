# Car assistant query pipeline in Dafny

This project models the query-understanding and ranking core of a car-dealership assistant
backend, and proves properties of the model. The backend answers questions about vehicle
listings by combining a catalogue of rows with a hosted language model.

The modelled core:

- **Catalogue and manufacturer index.** `catalog.dfy` holds the rows and the
  manufacturer-to-models index.
- **Fuzzy entity resolution.** `resolver.dfy` resolves a free-text mention to the first
  best-scoring index key above a threshold: 70 for manufacturers, 60 for models.
- **Price-range parsing.** `price_range.dfy` reads digit runs and applies keyword
  precedence.
- **Filter engine.** `filter.dfy` narrows the catalogue by manufacturer, then model, then
  year, then price bounds.
- **Weighted ranking.** `ranking.dfy` scores each row, and `sorting.dfy` supplies the stable
  descending sort before the top five are kept.
- **Intent extraction.** `extraction.dfy` covers validation of the model's reply, the
  comparison backfill, and the keyword fallback classifier.
- **Comparison reply.** `comparison.dfy` splits items into manufacturer and model, picks
  the cheaper of two, and holds the fixed messages.
- **Conversation memory.** `memory.dfy` holds the bounded history, the last search context,
  the context text, the recently mentioned cars, the follow-up and comparison cues, query
  enhancement, and clearing.
- **One assistant turn.** `agent.dfy` runs extract, filter, rank, write and record, and
  holds the comparison handler.
- **Shared definitions.** `options.dfy`, `seqs.dfy`, `text.dfy` and `intent_record.dfy`
  hold the option type, sequence helpers, ASCII string operations and the intent record.

The two language-model calls are parameters of type `Oracle` and `Writer`:

- An `Oracle` either fails or returns a JSON object. A failure leads to the fallback
  classifier.
- A `Writer` either fails or returns a reply text. A failure leads to the fixed apology.

`fuzz.ratio` is a parameter of type `Similarity`, which returns an integer from 0 to 100.
Scores are exact `real`s.

Facts of the source that the model keeps:

- **Acceptance threshold.** A manufacturer is accepted only with a score strictly above 70
  (Backend/app/Agent.py:262), and a model only strictly above 60 (Backend/app/Agent.py:281).
- **Empty keys.** A missing catalogue value is filled with `""` (Backend/app/Agent.py:78), so
  the index can hold an empty key. A resolved key filters only when it is truthy
  (Backend/app/Agent.py:318 and 326); see `Filter.KeyFilter`.
- **Year filter.** Only the intent's year is lower-cased (Backend/app/Agent.py:338). The
  row's year is matched as it is (Backend/app/Agent.py:339).
- **Mentioned cars.** A turn that named only a manufacturer is mentioned as that
  manufacturer (Backend/app/MemoryUpdate.py:103-106), so the cars offered for comparison
  can be bare manufacturers.
- **Score range.** The price score is `1 / (1 + average / 100000)`
  (Backend/app/Agent.py:366-367). It exceeds 1 for a negative average, so a score lies in
  [0, 1] only when the price bounds are non-negative; see `Ranking.ScoreBounds`.
- **Location score.** Ranking reads a `location` key (Backend/app/Agent.py:372-374) that is
  not among the keys the reply is validated for (Backend/app/Agent.py:173). An intent
  without that key scores 0.5 on location for every row; see `Ranking.LocationBonus`.
- **Zero price bound.** A parsed price bound of 0 is dropped by the truthiness tests at
  Backend/app/Agent.py:346 and 348; see `Filter.ZeroBoundIsIgnored`.
- **Zero history bound.** `max_history = 0` keeps the whole history, because
  `history[-0:]` is the whole list (Backend/app/MemoryUpdate.py:29-30); see `Memory.Add`.
- **Substring cues.** The cue "and" (Backend/app/MemoryUpdate.py:126) matches inside other
  words, such as "land cruiser"; see `Memory.LandCruiserIsFollowUp`.
- **Unreachable handler.** `_handle_comparison_query` (Backend/app/Agent.py:534) is never
  called from `process_query_with_memory` (Backend/app/Agent.py:497-532).
  `Agent.ProcessQuery` therefore runs the generic path for every intent.
- **Raising handler.** The comparison handler as written raises past its early exit
  (Backend/app/Agent.py:578); see Findings.

## Model

| member | source | states |
|---|---|---|
| Seqs.Dedup | Backend/app/Agent.py:87-99 | the result has no duplicates and holds exactly the elements of the input |
| Seqs.DedupKeepsFirstOccurrenceOrder | Backend/app/Agent.py:87-99 | the distinct elements are listed in the order of their first occurrence |
| Catalog.ModelsUnder | Backend/app/Agent.py:87-99 | a model is listed under a manufacturer exactly when some row pairs them |
| Catalog.AddRowKeepsDescription | Backend/app/Agent.py:90-97 | one loop iteration turns the index of a prefix into the index of the prefix plus one row |
| Catalog.BuildIndex | Backend/app/Agent.py:87-99 | the built index's keys are the distinct manufacturers in first-appearance order, and each manufacturer's list is the distinct models under it in first-appearance order; neither the key list nor any model list repeats an entry |
| Catalog.IndexCoversCatalog | Backend/app/Agent.py:87-99 | every row's model is listed under the row's manufacturer |
| Catalog.IndexIsSound | Backend/app/Agent.py:87-99 | every listed model comes from some row with that manufacturer |
| Resolver.Scan | Backend/app/Agent.py:257-264 | with no candidate above the threshold it finds nothing at score 0; otherwise it finds the first candidate of maximal score, which is above the threshold |
| Resolver.FirstBestIsUnique | Backend/app/Agent.py:260-264 | the first best candidate is unique, so resolution is a function of the candidate order |
| Resolver.ResolveManufacturer | Backend/app/Agent.py:252-266 | an empty mention gives nothing; a result is the first index key of maximal score and scores above 70; no result means no key scores above 70 |
| Resolver.ResolveModel | Backend/app/Agent.py:268-285 | nothing for an empty mention or a missing or unknown manufacturer; a result is the first model under that manufacturer of maximal score and scores above 60; no result means no such model scores above 60 |
| PriceRange.RemoveCommas | Backend/app/Agent.py:293 | no comma remains and the text has digits exactly when the input had them |
| PriceRange.RemoveCommasOfConcat | Backend/app/Agent.py:293 | removing commas works piece by piece, so every other character is kept in its order |
| PriceRange.Numbers | Backend/app/Agent.py:293-299 | the text yields no numbers exactly when it contains no digit; which numbers it yields is fixed for every text by PriceRange.NumbersOfSeparated and PriceRange.NumbersOfNumeral |
| PriceRange.NumbersIgnoreCommas | Backend/app/Agent.py:293-299 | a comma inside the text changes no number: the text reads as if it were not there |
| PriceRange.NumbersOfSeparated | Backend/app/Agent.py:293-299 | any character that is neither a digit nor a comma separates numbers: the numbers of the text are those before it followed by those after it |
| PriceRange.NumbersOfNumeral | Backend/app/Agent.py:293-299 | a digit string on its own is exactly one number, its decimal value |
| PriceRange.ParsePriceRange | Backend/app/Agent.py:287-309 | no bounds exactly for text without digits; "under"/"below" gives only an upper bound; then "over"/"above" gives only a lower bound; then "between" with two or more numbers gives both bounds; otherwise only an upper bound; a lower bound is the smallest number and an upper bound the largest |
| PriceRange.ParseUnder | Backend/app/Agent.py:301-302 | "under N" parses to the upper bound N |
| PriceRange.ParseOver | Backend/app/Agent.py:303-304 | "over N" parses to the lower bound N |
| PriceRange.ParseBare | Backend/app/Agent.py:308-309 | a bare number parses to an upper bound |
| PriceRange.ParseBetween | Backend/app/Agent.py:305-306 | "between A and B" parses to the smaller and the larger of A and B |
| PriceRange.ParseUnderThousands | Backend/app/Agent.py:287-303 | "under N,000" parses to the upper bound N × 1000 alone, as in "under 50,000" to 50000 |
| Filter.CriteriaOf | Backend/app/Agent.py:314-349 | the manufacturer criterion is the resolved key of a truthy mention, and never the empty key; otherwise nothing scores above 70 or the best key is empty; a model criterion needs both a manufacturer and a model and is never empty; the year criterion is the lower-cased year; price criteria are the parsed non-zero bounds |
| Filter.UnresolvedModelScoresLow | Backend/app/Agent.py:268-285 | with a resolved manufacturer and truthy mentions, a missing model criterion means no model under that manufacturer scores above 60, or the best one is the empty model name |
| Filter.PassesAllStagesIsAdmits | Backend/app/Agent.py:314-349 | passing the five steps in order is the same as meeting every present criterion |
| Filter.Select | Backend/app/Agent.py:311-352 | an order-preserving subsequence of the rows whose members pass, containing every row that passes |
| Filter.SelectKeepsEveryCopy | Backend/app/Agent.py:311-352 | every copy of a row that passes the steps is kept, and no copy of any other row |
| Filter.SelectTwice | Backend/app/Agent.py:311-352 | filtering by one list of steps and then another equals filtering once by both lists |
| Filter.StagedIsOnePass | Backend/app/Agent.py:311-352 | narrowing step by step keeps exactly the rows that pass all steps at once |
| Filter.FilterData | Backend/app/Agent.py:311-352 | an order-preserving subsequence of the catalogue that keeps exactly the rows meeting every criterion |
| Filter.FilterKeepsEveryCopy | Backend/app/Agent.py:311-352 | each catalogue row occurs in the result exactly as often as in the catalogue when it meets every criterion, and not at all otherwise |
| Filter.NoConstraintKeepsCatalog | Backend/app/Agent.py:311-352 | with no manufacturer, year or price range the catalogue comes back unchanged |
| Filter.EmptyKeyKeepsCatalog | Backend/app/Agent.py:316-327 | a manufacturer that resolves to the empty key (a missing catalogue value filled with "") filters nothing: with no year or price range the catalogue comes back unchanged |
| Filter.ZeroBoundIsIgnored | Backend/app/Agent.py:344-349 | the price range "under 0" filters exactly like no price range |
| Sorting.Insert | Backend/app/Agent.py:420 | inserting into a sorted list keeps it sorted and adds exactly one element |
| Sorting.InsertIsStable | Backend/app/Agent.py:420 | the inserted element goes after the elements that already share its key |
| Sorting.SortDesc | Backend/app/Agent.py:420 | the result is sorted by non-increasing key and is a permutation of the input |
| Sorting.SortIsStable | Backend/app/Agent.py:420 | for every key, the elements carrying it keep their input order |
| Ranking.Rank | Backend/app/Agent.py:354-421 | raises exactly when some row's price score divides by zero; otherwise min(5, n) rows from the input, sorted by non-increasing score, and nothing for no rows |
| Ranking.Score | Backend/app/Agent.py:364-391 | the part of a score that does not depend on the price lies between 0.37 and 0.67 |
| Ranking.LocationBonus | Backend/app/Agent.py:370-375 | a dealer whose lower-cased city contains the truthy searched location scores exactly 0.125 more than for a search without a location; any other dealer scores the same as without |
| Ranking.RankKeepsTheBest | Backend/app/Agent.py:420-421 | no row cut from the top five scores higher than a row kept |
| Ranking.RankOfFewKeepsAll | Backend/app/Agent.py:420-421 | five rows or fewer all come back |
| Ranking.RankIsStable | Backend/app/Agent.py:420-421 | rows with equal scores keep their catalogue order, and the kept ones are the first of them |
| Ranking.WithKeyOfPrefix | Backend/app/Agent.py:421 | truncation keeps, for each score, a prefix of the rows carrying it |
| Ranking.ScoreBounds | Backend/app/Agent.py:364-391 | with non-negative price bounds every score lies in (0.37, 0.97] |
| Ranking.CheaperScoresHigher | Backend/app/Agent.py:365-368 | of two rows at the same dealer, the cheaper one scores strictly higher |
| Extraction.FillKeys | Backend/app/Agent.py:174-176 | every listed key is present afterwards, missing ones as null, and existing entries are unchanged |
| Extraction.Validate | Backend/app/Agent.py:173-180 | the seven required keys and `comparison_items` are present, added ones as null, and nothing the model sent is changed or dropped |
| Extraction.Backfill | Backend/app/Agent.py:183-186 | the keys and every value but `comparison_items` are unchanged; `comparison_items` changes only from falsy to the recent cars on a comparison reply, and ends up truthy exactly when it was or the reply is a comparison and recent cars exist |
| Extraction.ComparisonReplyGetsRecentCars | Backend/app/Agent.py:172-186 | a comparison reply without items ends up as a comparison intent over the recent cars |
| Extraction.ReplyItemsAreKept | Backend/app/Agent.py:172-186 | items the model names are kept as they are |
| Extraction.ToIntent | Backend/app/Agent.py:172-187 | each string key lands in its own field as that string, absent for null or a list; the items are kept exactly when they are a list |
| Extraction.Fallback | Backend/app/Agent.py:212-249 | a comparison cue gives "comparison" with the recent cars or no items; otherwise a price keyword gives "price_inquiry"; otherwise "general_info"; no entity is filled in, and only a comparison carries items |
| Extraction.HowMuchIsPriceInquiry | Backend/app/Agent.py:234-237 | the fallback reads "how much" as a price inquiry and nothing else |
| Extraction.CheaperIsComparison | Backend/app/Agent.py:216-229 | any query saying "cheaper" falls back to a comparison |
| Extraction.ExtractIntent | Backend/app/Agent.py:101-196 | a failed or undecodable reply gives the fallback intent; for a decoded reply every string field is the reply's own string under that key, a non-empty item list is kept, a comparison without items gets the recent cars when there are any, and any other items are the reply's own list |
| Extraction.FromReply | Backend/app/Agent.py:172-187 | a decoded reply after validation and backfill: each string key is the reply's own string, a non-empty item list is kept, a comparison without items gets the recent cars, and any non-empty items are either those cars or the reply's own list |
| Extraction.FailedReplyNamesNoEntity | Backend/app/Agent.py:191-196 | after a failed call no manufacturer or model is ever set |
| Comparison.ItemIntent | Backend/app/Agent.py:550-572 | a price inquiry whose manufacturer is the item's first word and whose model is its second word, if any; region, city and year come from the outer intent; no manufacturer for a blank item |
| Comparison.ItemOfWords | Backend/app/Agent.py:550-572 | an item made of whitespace-free words joined by spaces is looked up with its first word, lower-cased, as manufacturer and its second, lower-cased, as model |
| Comparison.ItemOfMentionWithModel | Backend/app/Agent.py:552-557 | a remembered "Manufacturer Model" name splits back into the lower-cased manufacturer and model |
| Comparison.ItemOfMentionWithoutModel | Backend/app/Agent.py:563-567 | a remembered manufacturer alone comes back as that manufacturer with no model |
| Comparison.PricesOf | Backend/app/Agent.py:600-609 | each priced entry comes from a result with data; when every result carries data, the i-th entry is the i-th result's item and price |
| Comparison.CheaperFirst | Backend/app/Agent.py:615 | a permutation of the prices in non-decreasing price order |
| Comparison.ComparisonFallsBack | Backend/app/Agent.py:593-612 | the reply is one of the two fixed "could not compare" messages exactly when fewer than two results carry a price |
| Comparison.ComparisonNamesTwoCheapest | Backend/app/Agent.py:611-633 | with two or more priced results the reply names two of them, the cheapest first and the cheapest of the rest second, in the one-line form exactly when the query says "cheaper" or "less expensive" |
| Comparison.TwoPricesCompared | Backend/app/Agent.py:614-633 | for two results with vehicles, the reply names the cheaper one first (the first on a tie) and the dearer second |
| Comparison.CheaperComesFirst | Backend/app/Agent.py:615-620 | the item named cheaper costs no more than any compared item, so the stated difference is never negative |
| Comparison.TieKeepsFirstItem | Backend/app/Agent.py:615-618 | at equal prices the first item is named cheaper |
| Comparison.CheaperOfTwo | Backend/app/Agent.py:615-618 | sorting two prices puts the cheaper first and keeps their order on a tie |
| Agent.NewAssistant | Backend/app/Agent.py:40-50 | the assistant's index is the index built from its catalogue |
| Agent.PriceableCatalogRanks | Backend/app/Agent.py:517-520 | ranking never raises on a catalogue whose rows can all be priced, and returns at most five rows |
| Agent.CandidatesAreAdmittedRows | Backend/app/Agent.py:516-519 | filtering then ranking raises exactly when some matching catalogue row cannot be priced; otherwise at most five rows, each a catalogue row meeting every criterion, by non-increasing score, and all matching rows when there are at most five |
| Agent.Respond | Backend/app/Agent.py:519-532 | a raising ranking gives the error apology with memory untouched; otherwise the reply is the writer's text, or its apology when the call fails, and the exchange is recorded with the intent and the number of ranked vehicles; the intent becomes the last search context exactly when vehicles were ranked, otherwise the old context stays; with a bound of one or more the newest exchange is this turn |
| Agent.ProcessQuery | Backend/app/Agent.py:497-532 | every turn answers; a raising ranking gives the error apology with memory untouched; otherwise the exchange is recorded with the intent and the number of ranked vehicles |
| Agent.TurnIsRecorded | Backend/app/Agent.py:520-528 | after a turn the newest exchange in memory is this query and this reply |
| Agent.ItemsToCompare | Backend/app/Agent.py:537-546 | the intent's items when there are two or more, else two recent cars; nothing exactly when neither source offers two |
| Agent.MentionedCarIsLookedUp | Backend/app/Agent.py:550-572 | a car remembered from a turn whose manufacturer and model are single words is looked up with that manufacturer and model, lower-cased, and no model when the turn had none |
| Agent.LookUp | Backend/app/Agent.py:550-581 | nothing exactly when ranking raises for some item; otherwise at most one result per item |
| Agent.LookUpKeepsFirstRanked | Backend/app/Agent.py:574-583 | every result is an item whose ranking is non-empty, with its first-ranked vehicle as data |
| Agent.LookUpFollowsItems | Backend/app/Agent.py:550-583 | the results' items are a subsequence of the items, in their order |
| Agent.LookUpCoversRankedItems | Backend/app/Agent.py:550-583 | every item whose ranking is non-empty has a result |
| Agent.HandleComparisonWith | Backend/app/Agent.py:534-591 | with too few items the clarification is returned and memory is untouched; it raises exactly when ranking raises for one of the first two items, leaving memory untouched; otherwise the reply compares the looked-up results and the turn is recorded with at most two results |
| Agent.TwoRankedItemsAreCompared | Backend/app/Agent.py:550-591 | when the first two items each rank a vehicle, the reply compares those two vehicles' prices, cheaper first (the first item on a tie), and the turn is recorded with two results |
| Agent.HandleComparisonAsWritten | Backend/app/Agent.py:534-591 | the only answer is the clarification request; past the early exit the handler raises; memory is never touched |
| Agent.CorrectedComparisonAnswers | Backend/app/Agent.py:550-591 | on a priceable catalogue the corrected handler always answers |
| Memory.NewMemory | Backend/app/MemoryUpdate.py:11-14 | a new memory has no history and no search context |
| Memory.Add | Backend/app/MemoryUpdate.py:16-40 | the history is a suffix of the old history plus the new exchange; with a bound of one or more it holds min(bound, n + 1) entries ending with the new one; a bound of 0 keeps everything; the search context is replaced exactly when the intent is non-empty and vehicles were found |
| Memory.AddToNewest | Backend/app/MemoryUpdate.py:26-30 | recording one more exchange on top of the newest k keeps the newest k |
| Memory.ReplayKeepsNewest | Backend/app/MemoryUpdate.py:26-30 | after any sequence of exchanges the history is the newest `max_history` of them: the oldest are dropped first |
| Memory.SuccessfulSearchIsRemembered | Backend/app/MemoryUpdate.py:33-40 | a search that found vehicles becomes the last search results |
| Memory.FailedSearchKeepsLastResults | Backend/app/MemoryUpdate.py:169-171 | a turn that found nothing, or had an empty intent, leaves the last search results as they were |
| Memory.ConversationContext | Backend/app/MemoryUpdate.py:42-52 | empty exactly for an empty history; otherwise it starts with the header |
| Memory.ContextSeesLastFive | Backend/app/MemoryUpdate.py:48 | only the last five exchanges reach the context |
| Memory.ResponsesAreCut | Backend/app/MemoryUpdate.py:50 | characters of a response past the 200th never reach the context |
| Memory.MentionOf | Backend/app/MemoryUpdate.py:94-106 | an exchange mentions a car exactly when its intent is non-empty and has a truthy manufacturer |
| Memory.MentionText | Backend/app/MemoryUpdate.py:99-105 | a mention, lower-cased, is the lower-cased manufacturer, followed by a space and the lower-cased model when the model is truthy |
| Memory.MentionsNewestFirst | Backend/app/MemoryUpdate.py:93-106 | a car is listed exactly when some exchange mentions it |
| Memory.MentionOrder | Backend/app/MemoryUpdate.py:93-106 | of two different mentioned cars, the one listed first is the one whose newest mention is newer |
| Memory.RecentlyMentioned | Backend/app/MemoryUpdate.py:86-108 | no repeats, and a car is listed exactly when some exchange in the last `limit` mentions it |
| Memory.RecentlyMentionedNewestFirst | Backend/app/MemoryUpdate.py:86-108 | of any two listed cars, the earlier one was last mentioned by a newer exchange |
| Memory.NewestMentionFirst | Backend/app/MemoryUpdate.py:93-106 | the newest exchange's car comes first |
| Memory.DedupPrefix | Backend/app/MemoryUpdate.py:101-106 | de-duplicating a prefix gives a prefix of the de-duplicated whole |
| Memory.MentionsOfSuffix | Backend/app/MemoryUpdate.py:93 | a shorter window's mentions are a prefix of a longer window's mentions |
| Memory.CarsForComparison | Backend/app/MemoryUpdate.py:110-118 | at most two cars, and they are the first of the recently mentioned cars over the last ten exchanges |
| Memory.ComparisonPicksNewestCars | Backend/app/MemoryUpdate.py:110-118 | the cars offered for comparison were last mentioned more recently than every other car of the last ten exchanges |
| Memory.RecentSearchesGiveTwoCars | Backend/app/MemoryUpdate.py:173-176 | whenever recent car searches exist, two cars are available for comparison |
| Memory.RecentSearchesMeanTwoCars | Backend/app/MemoryUpdate.py:173-176 | recent car searches exist exactly when the last five exchanges mention two different cars |
| Memory.DetectorsIgnoreCase | Backend/app/MemoryUpdate.py:120-144 | both cue detectors depend only on the lower-cased query |
| Memory.CuesSurviveContext | Backend/app/MemoryUpdate.py:120-144 | text put around a query never removes a comparison or follow-up cue from it |
| Memory.LandCruiserIsFollowUp | Backend/app/MemoryUpdate.py:125-133 | "land cruiser" counts as a follow-up once there is any history, because "and" occurs inside it |
| Memory.ContextParts | Backend/app/MemoryUpdate.py:152-160 | no parts exactly when no remembered field is truthy |
| Memory.EnhanceQuery | Backend/app/MemoryUpdate.py:146-167 | the result always ends with the query, starts with "Context: " when enhanced, and differs from the query exactly for a follow-up after a remembered search with some truthy field |
| Memory.Clear | Backend/app/MemoryUpdate.py:178-181 | no history and no search context; the bound is kept |
| Memory.ClearForgets | Backend/app/MemoryUpdate.py:169-181 | after clearing, the last search results, the context and the mentioned cars are empty, and no query is a follow-up or gets enhanced |
| Text.RunsOfJoin | Backend/app/Agent.py:552 | splitting words joined by whitespace returns the words |
| Text.RunsOfSeparated | Backend/app/Agent.py:293 | a character outside the class ends every run, so the runs on either side of it are found independently and listed in order |
| Text.ValueOfNatToString | Backend/app/Agent.py:293-299 | reading a written numeral back gives the number |

## Left out

- Language-model calls (Backend/app/Agent.py:153-170 and 479-494) are the parameters
  `Oracle` and `Writer`. The prompts and the request parameters are not modelled.
- `_extract_json_from_response` (Backend/app/Agent.py:198-210) and `json.loads` are not
  modelled. A reply is either a decoded object or `Unparsable`. A decoded value that is not
  an object also counts as `Unparsable`, because reading it raises inside the `try`.
- JSON values are read as null, a string or a list of strings. A string in
  `comparison_items` is read as no items; the source would keep it.
- Extraction.StringField: a truthy number, boolean, list or object under `manufacturer`,
  `model`, `price_range`, `year` or `location` is read as absent. The source keeps the raw
  value, and what happens to it depends on the key:
  - `price_range` and `year`: `.replace` (Backend/app/Agent.py:293) and `.lower()`
    (Backend/app/Agent.py:338) always raise `AttributeError`. The turn returns the error
    apology and leaves memory untouched (Backend/app/Agent.py:530-532).
  - `manufacturer`: `.lower()` (Backend/app/Agent.py:261) raises as soon as the index holds
    one manufacturer, with the same outcome. Only an empty catalogue lets the turn answer.
  - `model`: `.lower()` (Backend/app/Agent.py:280) runs only when the manufacturer is truthy
    and resolves (Backend/app/Agent.py:270-274). Otherwise nothing raises, the turn answers,
    and the raw value is recorded with the exchange (Backend/app/MemoryUpdate.py:16-26).
  - `location`: `.lower()` (Backend/app/Agent.py:373) runs only inside the row loop. With no
    filtered row, Backend/app/Agent.py:356-357 return `[]` and the turn answers.
- Memory.MentionOf: a recorded non-string `manufacturer` or `model` (from a turn above that
  answered) breaks later turns that list recent cars, for as long as the exchange is among
  the last ten. `.title()` raises at Backend/app/MemoryUpdate.py:100 or 104. Inside the
  extraction's `try` (the backfill at Backend/app/Agent.py:184) the reply falls back
  (Backend/app/Agent.py:194-196). The fallback's own call (Backend/app/Agent.py:221, for a
  query with a comparison cue) is outside that `try`, so the turn ends in the error apology.
  The model reads such a value as absent: it mentions the bare manufacturer, or no car.
- CSV loading and pandas coercion (Backend/app/Agent.py:52-85) are not modelled. Rows arrive
  already normalised. A contact is held as its string form.
- Prices are `real`, not floating point. Parsed numbers are naturals, as `float` of a digit
  run is exact for the values involved.
- `fuzz.ratio` (fuzzywuzzy) is the `Similarity` parameter. Its algorithm is not part of
  this model.
- Case mapping, title-casing and digit recognition cover ASCII only. Python's `str.lower`,
  `str.title` and `\d` cover all of Unicode.
- Filter.CriteriaOf: the year is matched as a literal substring. pandas `str.contains`
  treats the year as a regular expression by default.
- Ranking.Rank: the sort key gives 0 to a row that cannot be priced. Such a row never
  reaches the sort, because ranking raises first. Whether Python raises or numpy yields
  infinity depends on the column's dtype. The model takes the raising reading.
- Number formatting (`:,.2f`, `:,.0f`) is the `Money` parameter. Timestamps, logging and
  the per-vehicle context JSON for the writer are not modelled.
- `get_recent_interactions` and `get_conversation_summary` (Backend/app/MemoryUpdate.py:54-84,
  183-199) are debugging views. Nothing in the pipeline reads them.
- Backend/app/AgentService.py and the Flask, authentication, forecasting, chart and image
  modules are not part of this model.
- Comparison.ComparisonResponse: in the corrected handler every result carries a vehicle.
  The "price information" message is therefore unreachable there. It is modelled for
  results without data.

## Findings

| source | as written | input that shows it | evidently intended | confidence | as-written member | corrected member |
|---|---|---|---|---|---|---|
| Backend/app/Agent.py:578-581 | `top_vehicles.empty` and `top_vehicles.iloc[0]` are read on the Python list that `_rank_dealers` returns, and later `.get('price', 0)` is called on a `VehicleInfo`; each raises `AttributeError` | a comparison intent naming two items, such as `["toyota camry", "honda accord"]` (`Agent.AsWrittenNeverCompares`) | an item counts when its ranking is non-empty, with the first-ranked vehicle and its `price` as data | high; not executed | Agent.HandleComparisonAsWritten | Agent.HandleComparisonWith |
