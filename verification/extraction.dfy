/** Intent extraction (Backend/app/Agent.py, `_extract_query_intent_with_memory` and
    `_create_fallback_intent`). The language model is a parameter: it sees the enhanced
    query and the conversation context and either fails or replies with a JSON object. */
module Extraction {
  import opened Options
  import opened Text
  import opened IntentRecord
  import opened Memory

  /** The JSON values the reply's fields are read as. */
  datatype Json = JNull | JString(s: string) | JList(items: seq<string>)

  /** What one call to the model yields: no answer (any exception from the client), a reply
      that does not decode as JSON, or a decoded object. */
  datatype Reply = Unavailable | Unparsable | Object(fields: map<string, Json>)

  /** The model, as seen by the assistant: (enhanced query, conversation context) to reply. */
  type Oracle = (string, string) -> Reply

  /** Python truthiness of a JSON value. */
  predicate TruthyJson(j: Json) {
    match j
    case JNull => false
    case JString(s) => s != ""
    case JList(items) => |items| > 0
  }

  const RequiredKeys: seq<string> := ["intent", "manufacturer", "model", "region", "city", "price_range", "year"]
  const ItemsKey := "comparison_items"

  /** A key the validation step guarantees. */
  predicate Guaranteed(k: string) {
    k in RequiredKeys || k == ItemsKey
  }

  /** Adds a null under `k` unless the object already has `k`. */
  function FillKey(f: map<string, Json>, k: string): (r: map<string, Json>)
    ensures k in r
    ensures forall x :: x in f ==> x in r && r[x] == f[x]
    ensures forall x :: x in r ==> x in f || x == k
  {
    if k in f then f else f[k := JNull]
  }

  function FillKeys(f: map<string, Json>, ks: seq<string>): (r: map<string, Json>)
    ensures forall i :: 0 <= i < |ks| ==> ks[i] in r
    ensures forall x :: x in f ==> x in r && r[x] == f[x]
    ensures forall x :: x in r ==> x in f || x in ks
    ensures forall x :: x in r && x !in f ==> r[x] == JNull
  {
    if |ks| == 0 then f
    else
      var p := ks[..|ks| - 1];
      var r := FillKey(FillKeys(f, p), ks[|ks| - 1]);
      assert forall x :: x in p ==> x in ks;
      r
  }

  /** The validation loop: every required key and `comparison_items` is present afterwards,
      missing ones as null, and nothing the model sent is changed or dropped. */
  function Validate(f: map<string, Json>): (r: map<string, Json>)
    ensures forall k :: Guaranteed(k) ==> k in r
    ensures forall k :: k in f ==> k in r && r[k] == f[k]
    ensures forall k :: k in r ==> k in f || Guaranteed(k)
    ensures forall k :: k in r && k !in f ==> r[k] == JNull
    ensures "intent" in r && ItemsKey in r
  {
    var ks := RequiredKeys + [ItemsKey];
    var r := FillKeys(f, ks);
    assert forall k :: Guaranteed(k) ==> k in ks;
    assert ks[0] == "intent" && ks[7] == ItemsKey;
    r
  }

  /** A comparison reply without items borrows the cars of recent exchanges, when there are
      any; every other reply is left alone. Only `comparison_items` can change, and only from
      falsy to the recent cars. */
  function Backfill(v: map<string, Json>, recent: seq<string>): (r: map<string, Json>)
    requires "intent" in v && ItemsKey in v
    ensures r.Keys == v.Keys
    ensures forall k :: k in v && k != ItemsKey ==> r[k] == v[k]
    ensures r[ItemsKey] != v[ItemsKey] ==>
      v["intent"] == JString(ComparisonIntent) && !TruthyJson(v[ItemsKey]) && r[ItemsKey] == JList(recent)
    ensures TruthyJson(r[ItemsKey]) <==>
      TruthyJson(v[ItemsKey]) || (v["intent"] == JString(ComparisonIntent) && |recent| > 0)
  {
    if v["intent"] == JString(ComparisonIntent) && !TruthyJson(v[ItemsKey]) then
      if |recent| > 0 then v[ItemsKey := JList(recent)] else v
    else v
  }

  /** Reads one field as an optional string; null (or a list) is absent. */
  function StringField(f: map<string, Json>, k: string): (r: Option<string>)
    ensures r.Some? <==> k in f && f[k].JString?
    ensures r.Some? ==> f[k] == JString(r.value)
  {
    if k in f && f[k].JString? then Some(f[k].s) else None
  }

  function ItemsField(f: map<string, Json>): (r: Option<seq<string>>)
    ensures r.Some? <==> ItemsKey in f && f[ItemsKey].JList?
  {
    if ItemsKey in f && f[ItemsKey].JList? then Some(f[ItemsKey].items) else None
  }

  /** The keys read as plain strings: the required keys but `comparison_items`, and `location`. */
  const StringKeys: seq<string> := RequiredKeys + ["location"]

  /** The intent field a string key is read into. */
  function FieldOf(i: Intent, k: string): Option<string> {
    match k
    case "intent" => i.intent
    case "manufacturer" => i.manufacturer
    case "model" => i.model
    case "region" => i.region
    case "city" => i.city
    case "price_range" => i.priceRange
    case "year" => i.year
    case "location" => i.location
    case _ => None
  }

  /** The validated dictionary as an intent record: every string key lands in its own field,
      and the items are kept when they are a list. */
  function ToIntent(f: map<string, Json>): (r: Intent)
    ensures forall k :: k in StringKeys ==> FieldOf(r, k) == StringField(f, k)
    ensures r.comparisonItems.Some? <==> ItemsKey in f && f[ItemsKey].JList?
    ensures r.comparisonItems.Some? ==> f[ItemsKey] == JList(r.comparisonItems.value)
  {
    Intent(StringField(f, "intent"), StringField(f, "manufacturer"), StringField(f, "model"),
      StringField(f, "region"), StringField(f, "city"), StringField(f, "price_range"),
      StringField(f, "year"), StringField(f, "location"), ItemsField(f))
  }

  const PriceKeywords: seq<string> := ["price", "cost", "how much", "expensive"]

  /** `_create_fallback_intent`: a comparison cue gives a comparison over the recent cars (or
      none); otherwise a price keyword gives a price inquiry; otherwise general information.
      No entity is ever filled in. */
  function Fallback(query: string, mem: Memory): (r: Intent)
    ensures r.manufacturer == None && r.model == None && r.region == None && r.city == None
    ensures r.priceRange == None && r.year == None && r.location == None
    ensures r.intent == Some(ComparisonIntent) <==> DetectComparison(query)
    ensures r.intent == Some(PriceInquiry) <==> !DetectComparison(query) && ContainsAny(Lower(query), PriceKeywords)
    ensures r.intent == Some(GeneralInfo) <==> !DetectComparison(query) && !ContainsAny(Lower(query), PriceKeywords)
    ensures r.comparisonItems.Some? ==> r.comparisonItems.value == CarsForComparison(mem) && |r.comparisonItems.value| > 0
    ensures DetectComparison(query) && |CarsForComparison(mem)| > 0 ==> r.comparisonItems.Some?
    ensures !DetectComparison(query) ==> r.comparisonItems == None
  {
    if DetectComparison(query) then
      var recent := CarsForComparison(mem);
      OnlyKind(ComparisonIntent).(comparisonItems := if |recent| > 0 then Some(recent) else None)
    else if ContainsAny(Lower(query), PriceKeywords) then
      OnlyKind(PriceInquiry)
    else
      OnlyKind(GeneralInfo)
  }

  /** The one model call: the enhanced query and the conversation context. */
  function Ask(query: string, mem: Memory, model: Oracle): Reply {
    model(EnhanceQuery(mem, query), ConversationContext(mem))
  }

  /** `_extract_query_intent_with_memory`: ask the model with the enhanced query and the
      conversation context; fall back on failure; otherwise validate and backfill. A decoded
      reply's string fields are taken as they are; its items are kept when it sends a
      non-empty list, and a comparison without items gets the recent cars. */
  function ExtractIntent(query: string, mem: Memory, model: Oracle): (r: Intent)
    ensures !Ask(query, mem, model).Object? ==> r == Fallback(query, mem)
    ensures Ask(query, mem, model).Object? ==>
      forall k :: k in StringKeys ==> FieldOf(r, k) == StringField(Ask(query, mem, model).fields, k)
    ensures Ask(query, mem, model).Object? && ItemsKey in Ask(query, mem, model).fields
      && TruthyJson(Ask(query, mem, model).fields[ItemsKey]) && Ask(query, mem, model).fields[ItemsKey].JList?
      ==> r.comparisonItems == Some(Ask(query, mem, model).fields[ItemsKey].items)
    ensures Ask(query, mem, model).Object? && r.intent == Some(ComparisonIntent)
      && (ItemsKey !in Ask(query, mem, model).fields || !TruthyJson(Ask(query, mem, model).fields[ItemsKey]))
      && |CarsForComparison(mem)| > 0
      ==> r.comparisonItems == Some(CarsForComparison(mem))
    ensures Ask(query, mem, model).Object? && r.comparisonItems.Some? && |r.comparisonItems.value| > 0 ==>
      r.comparisonItems.value == CarsForComparison(mem)
      || (ItemsKey in Ask(query, mem, model).fields
          && Ask(query, mem, model).fields[ItemsKey] == JList(r.comparisonItems.value))
  {
    var reply := Ask(query, mem, model);
    if reply.Object? then FromReply(reply.fields, CarsForComparison(mem))
    else Fallback(query, mem)
  }

  /** A decoded reply validated, backfilled with the recent cars and read as an intent. */
  function FromReply(f: map<string, Json>, recent: seq<string>): (r: Intent)
    ensures forall k :: k in StringKeys ==> FieldOf(r, k) == StringField(f, k)
    ensures ItemsKey in f && TruthyJson(f[ItemsKey]) && f[ItemsKey].JList? ==>
      r.comparisonItems == Some(f[ItemsKey].items)
    ensures r.intent == Some(ComparisonIntent) && (ItemsKey !in f || !TruthyJson(f[ItemsKey])) && |recent| > 0
      ==> r.comparisonItems == Some(recent)
    ensures r.comparisonItems.Some? && |r.comparisonItems.value| > 0 ==>
      r.comparisonItems.value == recent || (ItemsKey in f && f[ItemsKey] == JList(r.comparisonItems.value))
  {
    var v := Validate(f);
    var b := Backfill(v, recent);
    assert forall k :: k in StringKeys ==> k != ItemsKey && StringField(b, k) == StringField(f, k);
    ToIntent(b)
  }

  /** A word with a character the text lacks does not occur in it. */
  lemma AbsentCharRulesOut(s: string, w: string, j: int)
    requires 0 <= j < |w| && w[j] !in s
    ensures !Contains(s, w)
  {
    if Contains(s, w) {
      ContainedCharsOccur(s, w, j);
    }
  }

  /** "how much" alone contains no comparison phrase: every phrase has a letter it lacks. */
  lemma HowMuchIsNoComparison()
    ensures !DetectComparison("how much")
  {
    var q := "how much";
    assert Lower(q) == q;
    forall j | 0 <= j < |ComparisonIndicators|
      ensures !Contains(q, ComparisonIndicators[j])
    {
      var w := ComparisonIndicators[j];
      var k := if j == 3 then 3 else if j == 4 || j == 5 || j == 6 || j == 9 then 0 else 2;
      assert w[k] !in q;
      AbsentCharRulesOut(q, w, k);
    }
  }

  /** The fallback reads "how much" as a price inquiry. */
  lemma HowMuchIsPriceInquiry(mem: Memory)
    ensures Fallback("how much", mem) == OnlyKind(PriceInquiry)
  {
    HowMuchIsNoComparison();
    assert Lower("how much") == "how much";
    assert OccursAt("how much", PriceKeywords[2], 0);
  }

  /** Any query saying "cheaper" falls back to a comparison. */
  lemma CheaperIsComparison(query: string, mem: Memory)
    requires Contains(Lower(query), "cheaper")
    ensures Fallback(query, mem).intent == Some(ComparisonIntent)
  {
    assert ComparisonIndicators[7] == "cheaper";
  }

  /** A reply that is not an object is never trusted: the result is the keyword fallback,
      which names no entity. */
  lemma FailedReplyNamesNoEntity(query: string, mem: Memory, model: Oracle)
    requires !Ask(query, mem, model).Object?
    ensures ExtractIntent(query, mem, model).manufacturer == None
    ensures ExtractIntent(query, mem, model).model == None
  {
  }

  /** A comparison reply without items gets the recent cars, when there are any. */
  lemma ComparisonReplyGetsRecentCars(f: map<string, Json>, recent: seq<string>)
    requires "intent" in f && f["intent"] == JString(ComparisonIntent)
    requires ItemsKey !in f || !TruthyJson(f[ItemsKey])
    requires |recent| > 0
    ensures ToIntent(Backfill(Validate(f), recent)).comparisonItems == Some(recent)
    ensures ToIntent(Backfill(Validate(f), recent)).intent == Some(ComparisonIntent)
  {
    var v := Validate(f);
    assert !TruthyJson(v[ItemsKey]);
  }

  /** A reply that names its items keeps them. */
  lemma ReplyItemsAreKept(f: map<string, Json>, recent: seq<string>, items: seq<string>)
    requires ItemsKey in f && f[ItemsKey] == JList(items) && |items| > 0
    ensures ToIntent(Backfill(Validate(f), recent)).comparisonItems == Some(items)
  {
  }
}
