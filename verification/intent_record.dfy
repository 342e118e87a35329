/** The intent record: the structured reading of one user query. */
module IntentRecord {
  import opened Options

  /** Python truthiness of an optional string: present and non-empty. */
  predicate Truthy(o: Option<string>) {
    o.Some? && o.value != ""
  }

  /** The intent dictionary with one optional field per key. `location` is a key the
      extraction schema never asks for; only a language-model reply that happens to carry it
      can set it. */
  datatype Intent = Intent(
    intent: Option<string>,
    manufacturer: Option<string>,
    model: Option<string>,
    region: Option<string>,
    city: Option<string>,
    priceRange: Option<string>,
    year: Option<string>,
    location: Option<string>,
    comparisonItems: Option<seq<string>>)

  const PriceInquiry := "price_inquiry"
  const DealerSearch := "dealer_search"
  const ComparisonIntent := "comparison"
  const GeneralInfo := "general_info"

  /** An intent naming only its kind, every other field null. */
  function OnlyKind(kind: string): Intent {
    Intent(Some(kind), None, None, None, None, None, None, None, None)
  }
}
