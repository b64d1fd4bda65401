/** Rows of the record store and the bits of Python value semantics the
    matcher relies on: `dict.get`, truthiness of an optional string, and
    the `a or b or c` operator. */
module Records {

  datatype Option<+T> = None | Some(value: T)

  /** One row of a table, or the `raw_json` mapping of a shipment. */
  type Row = map<string, string>

  /** `row.get(key)`: None when the key is absent. */
  function Get(row: Row, key: string): Option<string>
  {
    if key in row then Some(row[key]) else None
  }

  /** Python truthiness of an optional string: neither None nor "". */
  predicate Truthy(v: Option<string>)
  {
    v.Some? && v.value != ""
  }

  /** `v or ""` */
  function OrEmpty(v: Option<string>): (r: string)
    ensures Truthy(v) ==> r == v.value
    ensures !Truthy(v) ==> r == ""
  {
    match v
    case Some(s) => s
    case None => ""
  }

  /** `vals[0] or vals[1] or ... or vals[n-1]`: the first truthy operand,
      or the last operand when none is truthy. */
  function OrChain(vals: seq<Option<string>>): (r: Option<string>)
    requires |vals| > 0
    ensures Truthy(r) <==> exists k :: 0 <= k < |vals| && Truthy(vals[k])
    ensures Truthy(r) ==> exists k :: 0 <= k < |vals| && r == vals[k] &&
                                      forall j :: 0 <= j < k ==> !Truthy(vals[j])
    ensures !Truthy(r) ==> r == vals[|vals| - 1]
  {
    if |vals| == 1 || Truthy(vals[0]) then vals[0]
    else
      var rest := OrChain(vals[1..]);
      assert forall k :: 1 <= k < |vals| ==> vals[k] == vals[1..][k - 1];
      rest
  }

  /** `[row.get(k) for k in keys]` */
  function Lookups(row: Row, keys: seq<string>): (r: seq<Option<string>>)
    ensures |r| == |keys|
    ensures forall k :: 0 <= k < |keys| ==> r[k] == Get(row, keys[k])
  {
    seq(|keys|, k requires 0 <= k < |keys| => Get(row, keys[k]))
  }

  /** The store's `eq(key, value)` filter: the column is present and equal. */
  predicate FieldEquals(row: Row, key: string, value: string)
  {
    key in row && row[key] == value
  }

  /** An equality filter that the query only adds when `value` is truthy
      (`if value: q = q.eq(key, value)`). */
  predicate OptionalFilter(row: Row, key: string, value: Option<string>)
  {
    Truthy(value) ==> FieldEquals(row, key, value.value)
  }
}
