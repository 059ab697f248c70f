/**
  The Python values that flow through the codec: what `json.load` or
  `yaml.safe_load` can return and what pydicom's `to_json_dict` builds.
  A Python `int` or `float` is a `Num`; a `dict` is an `Obj` holding its
  items in insertion order.

  The operations below are Python's own `k in x`, `x[k]`, `for v in x` and
  `x.items()` as the codec applies them, with the exception each one raises
  on a value of the wrong kind.
 */
module PyJson {
  import opened Wrappers
  import opened PyDict

  datatype Json =
    | Null
    | Bool(b: bool)
    | Num(x: real)
    | Str(s: string)
    | List(items: seq<Json>)
    | Obj(fields: seq<(string, Json)>)

  type Fields = Dict<Json>

  /** The Python exceptions the codec can raise. */
  datatype PyError =
    | KeyError(key: string)
    | TypeError
    | AttributeError
    | FileNotFoundError(path: string)

  /** Python's `needle in hay` on two strings. */
  predicate IsSubstring(needle: string, hay: string) {
    needle <= hay || (hay != [] && IsSubstring(needle, hay[1..]))
  }

  /** The values `k in x` accepts; on any other value it raises `TypeError`. */
  predicate IsContainer(x: Json) {
    x.Obj? || x.List? || x.Str?
  }

  /**
    `k in x` for a string `k` and a container `x`: key membership for a
    dict, element membership for a list, substring search for a string.
   */
  predicate Has(x: Json, k: string)
    requires IsContainer(x)
    ensures x.Obj? ==> (Has(x, k) <==> k in Keys(x.fields))
  {
    match x
    case Obj(fs) => k in Keys(fs)
    case List(xs) => Str(k) in xs
    case Str(s) => IsSubstring(k, s)
  }

  /**
    `x[k]` for a string `k`: only a dict can be indexed by a string; a
    missing key raises `KeyError`.
   */
  function GetItem(x: Json, k: string): (r: Result<Json, PyError>)
    ensures r.Ok? <==> x.Obj? && k in Keys(x.fields)
    ensures r.Ok? ==> Get(x.fields, k) == Some(r.value)
    ensures x.Obj? && k !in Keys(x.fields) ==> r == Err(KeyError(k))
  {
    match x
    case Obj(fs) =>
      (match Get(fs, k)
       case Some(v) => Ok(v)
       case None => Err(KeyError(k)))
    case _ => Err(TypeError)
  }

  /**
    The values `for v in x` visits: the elements of a list, the
    one-character strings of a string, the keys of a dict; anything else is
    not iterable.
   */
  function Iterate(x: Json): (r: Result<seq<Json>, PyError>)
    ensures r.Err? <==> !(x.List? || x.Str? || x.Obj?)
    ensures r.Err? ==> r.error == TypeError
    ensures x.List? ==> r == Ok(x.items)
    ensures x.Str? ==> |r.value| == |x.s| && forall i :: 0 <= i < |x.s| ==> r.value[i] == Str([x.s[i]])
    ensures x.Obj? ==> |r.value| == |x.fields| && forall i :: 0 <= i < |x.fields| ==> r.value[i] == Str(x.fields[i].0)
    ensures r.Ok? ==> (|r.value| == 0 <==> x in {List([]), Str([]), Obj([])})
  {
    match x
    case List(xs) => Ok(xs)
    case Str(s) => Ok(seq(|s|, i requires 0 <= i < |s| => Str([s[i]])))
    case Obj(fs) => Ok(seq(|fs|, i requires 0 <= i < |fs| => Str(fs[i].0)))
    case _ => Err(TypeError)
  }

  /** `x.items()` (and `x.get(...)`): only a dict has these methods. */
  function AsDict(x: Json): (r: Result<Fields, PyError>)
    ensures r.Ok? <==> x.Obj?
    ensures r.Ok? ==> r.value == x.fields
    ensures r.Err? ==> r.error == AttributeError
  {
    if x.Obj? then Ok(x.fields) else Err(AttributeError)
  }
}
