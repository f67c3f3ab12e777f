/**
 * The JSON values `serde_json` produces, as far as the conversions of
 * src/stats.rs and src/matches.rs look at them.
 */
module Json {
  import Sets
  import Wrappers
  import opened Shared

  /** The negative integers that fit in an i64. */
  type NegI64 = i: int | -I64_LIMIT <= i < 0 witness -1

  /**
   * `serde_json::Number`: a non-negative integer that fits u64, a negative one
   * that fits i64, or a float (any other number literal is stored as a float).
   */
  datatype Number = PosInt(u: u64) | NegInt(i: NegI64) | Float

  datatype Value =
    | Null
    | Bool(b: bool)
    | Number(n: Number)
    | String(s: string)
    | Array(items: seq<Value>)
    | Object(fields: map<string, Value>)

  /** `Number::as_u64`: the value of a u64 number, none for a negative integer or a float. */
  function AsU64(n: Number): (r: Wrappers.Option<nat>)
    ensures r.Some? <==> n.PosInt?
    ensures n.PosInt? ==> r == Wrappers.Some(n.u)
    ensures r.Some? ==> r.value < U64_LIMIT
  {
    match n
    case PosInt(u) => Wrappers.Some(u)
    case _ => Wrappers.None
  }

  /**
   * The `filter_map` over flattened fields: keeps exactly the entries whose
   * value is a JSON string, under the same key and with that string.
   */
  function StringValued(fields: map<string, Value>): (r: map<string, string>)
    ensures forall k :: k in r <==> k in fields && fields[k].String?
    ensures forall k :: k in r ==> r[k] == fields[k].s
  {
    map k | k in fields && fields[k].String? :: fields[k].s
  }

  /** The filter never adds entries, and drops one exactly when some value is not a string. */
  lemma StringValuedSize(fields: map<string, Value>)
    ensures |StringValued(fields)| <= |fields|
    ensures |StringValued(fields)| == |fields| <==> forall k :: k in fields ==> fields[k].String?
  {
    var r := StringValued(fields);
    Sets.SubsetSize(r.Keys, fields.Keys);
    if exists k :: k in fields && !fields[k].String? {
      var k :| k in fields && !fields[k].String?;
      Sets.SubsetSize(r.Keys, fields.Keys - {k});
    } else {
      assert r.Keys == fields.Keys;
    }
  }
}
