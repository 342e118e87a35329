/** The catalogue rows the assistant reads and the manufacturer index built from them
    (Backend/app/Agent.py, `DealerInfo`, `VehicleInfo`, `_create_manufacturer_index`). */
module Catalog {
  import opened Options
  import opened Seqs

  datatype Dealer = Dealer(seller: string, region: string, city: string, contact: string)

  /** One catalogue row after loading: manufacturer, model, city, region and origin are
      lower-cased and trimmed, the seller is title-cased, the prices are numbers. */
  datatype Vehicle = Vehicle(
    manufacturer: string,
    model: string,
    year: string,
    lowerBound: real,
    upperBound: real,
    price: real,
    mileage: string,
    fuel: string,
    gearbox: string,
    origin: string,
    dealer: Dealer)

  /** The manufacturer index: a Python dict, so its keys keep insertion order. */
  datatype Index = Index(keys: seq<string>, models: map<string, seq<string>>)

  /** The manufacturer column, in row order. */
  function Manufacturers(rows: seq<Vehicle>): (r: seq<string>)
    ensures |r| == |rows|
    ensures forall i :: 0 <= i < |rows| ==> r[i] == rows[i].manufacturer
  {
    if |rows| == 0 then [] else Manufacturers(rows[..|rows| - 1]) + [rows[|rows| - 1].manufacturer]
  }

  /** The model column of the rows whose manufacturer is `m`, in row order. */
  function ModelsUnder(rows: seq<Vehicle>, m: string): (r: seq<string>)
    ensures forall x :: x in r <==> exists i :: 0 <= i < |rows| && rows[i].manufacturer == m && rows[i].model == x
  {
    if |rows| == 0 then []
    else
      var last := rows[|rows| - 1];
      ModelsUnder(rows[..|rows| - 1], m) + (if last.manufacturer == m then [last.model] else [])
  }

  /** One iteration of the index-building loop. */
  function AddRow(idx: Index, v: Vehicle): Index {
    if v.manufacturer in idx.models then
      Index(idx.keys, idx.models[v.manufacturer := AddIfAbsent(idx.models[v.manufacturer], v.model)])
    else
      Index(idx.keys + [v.manufacturer], idx.models[v.manufacturer := [v.model]])
  }

  lemma {:induction false} ModelsUnderAbsent(rows: seq<Vehicle>, m: string)
    requires m !in Manufacturers(rows)
    ensures ModelsUnder(rows, m) == []
  {
    if |rows| > 0 {
      var p := rows[..|rows| - 1];
      assert Manufacturers(rows) == Manufacturers(p) + [rows[|rows| - 1].manufacturer];
      ModelsUnderAbsent(p, m);
    }
  }

  /** The index built from `rows` lists the distinct manufacturers and, per manufacturer,
      the distinct models, each in order of first appearance. */
  ghost predicate Describes(idx: Index, rows: seq<Vehicle>) {
    && idx.keys == Dedup(Manufacturers(rows))
    && (forall m :: m in idx.models <==> m in Manufacturers(rows))
    && (forall m :: m in idx.models ==> idx.models[m] == Dedup(ModelsUnder(rows, m)))
  }

  lemma AddRowKeys(p: seq<Vehicle>, v: Vehicle, before: Index)
    requires Describes(before, p)
    ensures AddRow(before, v).keys == Dedup(Manufacturers(p + [v]))
    ensures forall m :: m in AddRow(before, v).models <==> m in Manufacturers(p + [v])
  {
    var rows := p + [v];
    assert rows[..|rows| - 1] == p;
    assert Manufacturers(rows) == Manufacturers(p) + [v.manufacturer];
    DedupSnoc(Manufacturers(p), v.manufacturer);
  }

  lemma AddRowModels(p: seq<Vehicle>, v: Vehicle, before: Index)
    requires Describes(before, p)
    ensures forall m :: m in AddRow(before, v).models ==>
      AddRow(before, v).models[m] == Dedup(ModelsUnder(p + [v], m))
  {
    var rows := p + [v];
    var after := AddRow(before, v);
    assert rows[..|rows| - 1] == p;
    forall m | m in after.models
      ensures after.models[m] == Dedup(ModelsUnder(rows, m))
    {
      var mu := ModelsUnder(rows, m);
      if m != v.manufacturer {
        assert mu == ModelsUnder(p, m);
      } else if v.manufacturer in before.models {
        assert mu == ModelsUnder(p, m) + [v.model];
        assert mu[..|mu| - 1] == ModelsUnder(p, m);
      } else {
        ModelsUnderAbsent(p, m);
        assert mu == [v.model];
        DedupOfSingleton(v.model);
      }
    }
  }

  /** One loop iteration turns the index of a prefix into the index of one more row. */
  lemma AddRowKeepsDescription(p: seq<Vehicle>, v: Vehicle, before: Index)
    requires Describes(before, p)
    ensures Describes(AddRow(before, v), p + [v])
  {
    AddRowKeys(p, v, before);
    AddRowModels(p, v, before);
  }

  /** `_create_manufacturer_index`: one `AddRow` per catalogue row, in row order. The
      result lists the distinct manufacturers in order of first appearance and, under
      each, the distinct models in order of first appearance. */
  function BuildIndex(rows: seq<Vehicle>): (r: Index)
    ensures Describes(r, rows)
    ensures NoDup(r.keys)
    ensures forall m :: m in r.models ==> NoDup(r.models[m])
  {
    if |rows| == 0 then
      assert Manufacturers(rows) == [];
      Index([], map[])
    else
      var p := rows[..|rows| - 1];
      var v := rows[|rows| - 1];
      assert rows == p + [v];
      AddRowKeepsDescription(p, v, BuildIndex(p));
      AddRow(BuildIndex(p), v)
  }

  /** Looks a manufacturer up in the index. */
  function ModelsOf(idx: Index, m: string): Option<seq<string>> {
    if m in idx.models then Some(idx.models[m]) else None
  }

  /** Every catalogue row's model is listed under its manufacturer. */
  lemma IndexCoversCatalog(rows: seq<Vehicle>, i: int)
    requires 0 <= i < |rows|
    ensures ModelsOf(BuildIndex(rows), rows[i].manufacturer).Some?
    ensures rows[i].model in ModelsOf(BuildIndex(rows), rows[i].manufacturer).value
  {
    var m := rows[i].manufacturer;
    assert Manufacturers(rows)[i] == m;
    var mu := ModelsUnder(rows, m);
    assert rows[i].model in mu;
    var j :| 0 <= j < |mu| && mu[j] == rows[i].model;
    assert mu[j] in Dedup(mu);
  }

  /** Every listed model was seen under its manufacturer in some row. */
  lemma IndexIsSound(rows: seq<Vehicle>, m: string, x: string)
    requires m in BuildIndex(rows).models && x in BuildIndex(rows).models[m]
    ensures exists i :: 0 <= i < |rows| && rows[i].manufacturer == m && rows[i].model == x
  {
    DescribedIsSound(BuildIndex(rows), rows, m, x);
  }

  lemma DescribedIsSound(idx: Index, rows: seq<Vehicle>, m: string, x: string)
    requires Describes(idx, rows)
    requires m in idx.models && x in idx.models[m]
    ensures exists i :: 0 <= i < |rows| && rows[i].manufacturer == m && rows[i].model == x
  {
    var d := idx.models[m];
    var j :| 0 <= j < |d| && d[j] == x;
    assert d[j] in ModelsUnder(rows, m);
  }
}
