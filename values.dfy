/** Values as the browser sees them after JSON.parse: record cells and records. */
module Values {

  datatype Option<T> = None | Some(value: T)

  /** A record cell. `null` and a missing key behave identically in every use
      (`== null`, `!value`, `escapeHtml`), so both are `Null`. A JSON number is
      kept as the text that `String(value)` gives for it. */
  datatype Value = Null | Str(s: string) | Num(text: string)

  /** `String(value)`. */
  function AsString(v: Value): string
  {
    match v
    case Null => "null"
    case Str(s) => s
    case Num(t) => t
  }

  /** `value == null ? '' : String(value)`, the text a cell is displayed with. */
  function CellString(v: Value): string
  {
    if v.Null? then "" else AsString(v)
  }

  /** JavaScript falsiness of a cell: null, the empty string, 0 and NaN. */
  predicate Falsy(v: Value)
  {
    v.Null? || v == Str("") || v == Num("0") || v == Num("NaN")
  }

  /** A record is one JSON object: its own properties, listed in the order
      `Object.keys` gives them. A parsed object never repeats a name
      (`DistinctNames`). */
  datatype Record = Record(fields: seq<(string, Value)>)
  {
    /** `record[col]`: the value of the first property with that name, `Null` if absent. */
    function Get(col: string): (v: Value)
      ensures v != Null ==> exists i :: 0 <= i < |fields| && fields[i] == (col, v)
      decreases |fields|
    {
      if fields == [] then Null
      else if fields[0].0 == col then fields[0].1
      else Record(fields[1..]).Get(col)
    }

    /** `Object.keys(record)`. */
    function Keys(): (ks: seq<string>)
      ensures |ks| == |fields|
      ensures forall i :: 0 <= i < |fields| ==> ks[i] == fields[i].0
    {
      seq(|fields|, i requires 0 <= i < |fields| => fields[i].0)
    }
  }

  /** The names of a record's properties are pairwise different. */
  predicate DistinctNames(r: Record)
  {
    forall i, j :: 0 <= i < j < |r.fields| ==> r.fields[i].0 != r.fields[j].0
  }

  /** `record[col]` finds the first property named `col`. */
  lemma {:induction false} GetFirst(r: Record, col: string, i: nat)
    requires i < |r.fields| && r.fields[i].0 == col
    requires forall j :: 0 <= j < i ==> r.fields[j].0 != col
    ensures r.Get(col) == r.fields[i].1
    decreases i
  {
    if i > 0 {
      var rest := Record(r.fields[1..]);
      forall j | 0 <= j < i - 1 ensures rest.fields[j].0 != col {
        assert rest.fields[j] == r.fields[j + 1];
      }
      GetFirst(rest, col, i - 1);
    }
  }

  /** A name no property has reads as `Null`. */
  lemma {:induction false} GetAbsent(r: Record, col: string)
    requires forall i :: 0 <= i < |r.fields| ==> r.fields[i].0 != col
    ensures r.Get(col) == Null
    decreases |r.fields|
  {
    if r.fields != [] {
      var rest := Record(r.fields[1..]);
      forall i | 0 <= i < |rest.fields| ensures rest.fields[i].0 != col {
        assert rest.fields[i] == r.fields[i + 1];
      }
      GetAbsent(rest, col);
    }
  }

  /** Reading a record back by its own keys gives each property's value. */
  lemma KeysGet(r: Record, i: nat)
    requires DistinctNames(r) && i < |r.fields|
    ensures r.Get(r.Keys()[i]) == r.fields[i].1
  {
    GetFirst(r, r.fields[i].0, i);
  }
}
