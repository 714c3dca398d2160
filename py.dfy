/**
 * The Python values the corpus scripts handle: dataset rows are dictionaries
 * from column names to values, and the few exceptions the scripts can raise
 * are results rather than control flow.
 */
module Py {

  /** A column value: Python's None, a str or an int. */
  datatype Value = VNone | VStr(s: string) | VInt(i: int)

  /** One dataset row (a Python dict keyed by column name). */
  type Record = map<string, Value>

  /** The exceptions the modelled code can raise. */
  datatype Error =
    | KeyError(key: string)   // `d[k]` with `k` absent
    | TypeError               // a comparison or call on a value of the wrong type
    | AttributeError          // a str method called on a non-str value

  datatype Result<T> = Ok(value: T) | Err(error: Error)

  datatype Option<T> = None | Some(value: T)

  /** Python's truthiness: None, "" and 0 are false. */
  predicate Truthy(v: Value) {
    match v
    case VNone => false
    case VStr(s) => s != ""
    case VInt(i) => i != 0
  }

  /** `d.get(k, default)` */
  function Get(d: Record, k: string, default: Value): (v: Value)
    ensures k in d ==> v == d[k]
    ensures k !in d ==> v == default
  {
    if k in d then d[k] else default
  }

  /** `d[k]` */
  function Index(d: Record, k: string): (r: Result<Value>)
    ensures r.Ok? <==> k in d
    ensures r.Ok? ==> r.value == d[k]
    ensures r.Err? ==> r.error == KeyError(k)
  {
    if k in d then Ok(d[k]) else Err(KeyError(k))
  }

  /** A value used where a str is needed: any other value makes a str method raise. */
  function AsStr(v: Value): (r: Result<string>)
    ensures r.Ok? <==> v.VStr?
    ensures r.Ok? ==> r.value == v.s
    ensures r.Err? ==> r.error == AttributeError
  {
    if v.VStr? then Ok(v.s) else Err(AttributeError)
  }
}
