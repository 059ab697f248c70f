/**
  The dataset ⇄ readable-document codec of `dicom_tools/_dicom_dump.py`.

  `ToReadable` and `FromReadable` specify the two conversion loops
  (`_json_dict_to_readable`, `_readable_to_json_dict`) as folds over the
  first `n` items of the input dict, with Python's dict assignment and
  the exceptions Python raises on values of the wrong kind;
  `JsonDictToReadable` and `ReadableToJsonDict` are the loops themselves,
  proved to compute those folds.
 */
module Dump {
  import opened Wrappers
  import opened PyDict
  import opened PyJson
  import opened Tags

  /** The keyword flags `skip_binary` and `skip_nonstd` of every conversion. */
  datatype Policy = Policy(skipBinary: bool, skipNonstd: bool)

  /** The default flags, which the recursive calls for sequence items always use. */
  const Defaults: Policy := Policy(false, false)

  /** The fixed flags the `file_meta` section is converted with, in both directions. */
  const FileMetaPolicy: Policy := Policy(false, true)

  /** The value representation of a sequence element. */
  const SqVr: Json := Str("SQ")

  /** Whether the encoder keeps the element under JSON-model key `tag`: not when it has no keyword and `skip_nonstd` is set. */
  predicate KeptBy(d: Dictionary, tag: string, policy: Policy) {
    !(d.keywordFor(tag) == "" && policy.skipNonstd)
  }

  /** Whether the decoder keeps the entry under readable key `key`: not when it names no tag and `skip_nonstd` is set. */
  predicate ResolvedBy(d: Dictionary, key: string, policy: Policy) {
    !(policy.skipNonstd && !d.resolves(key))
  }

  /**
    `_flatten_list`: a list holding exactly one element that is not itself a
    list collapses to that element; every other value is returned as is.
   */
  function FlattenList(value: Json): (r: Json)
    ensures r != value <==> value.List? && |value.items| == 1 && !value.items[0].List?
    ensures r != value ==> value == List([r]) && !r.List?
  {
    if value.List? && |value.items| == 1 && !value.items[0].List? then value.items[0] else value
  }

  /** The decoder's `if not isinstance(value, list): value = [value]`. */
  function Wrap(value: Json): (r: Json)
    ensures r.List?
    ensures r != value ==> r == List([value]) && !value.List?
  {
    if value.List? then value else List([value])
  }

  /** Collapsing is undone by wrapping: every list survives the trip unchanged. */
  lemma WrapFlattenList(v: Json)
    requires v.List?
    ensures Wrap(FlattenList(v)) == v
  {
  }

  /**
    The converse holds only for values that are not lists: a bare scalar
    wrapped and flattened is itself, while a one-element list of a list
    is not collapsed at all.
   */
  lemma FlattenListWrap(v: Json)
    ensures FlattenList(Wrap(v)) == v <==> !v.List? || |v.items| != 1 || v.items[0].List?
  {
  }

  /** The field names of a readable entry and of a JSON-model element are pairwise distinct. */
  lemma FieldNamesDiffer()
    ensures "tag" != "vr" && "tag" != "value" && "tag" != "binary" && "tag" != "uri"
    ensures "vr" != "value" && "vr" != "binary" && "vr" != "uri"
    ensures "value" != "binary" && "value" != "uri" && "binary" != "uri"
    ensures "Value" != "InlineBinary" && "Value" != "BulkDataURI" && "InlineBinary" != "BulkDataURI"
    ensures "vr" != "Value" && "vr" != "InlineBinary" && "vr" != "BulkDataURI"
  {
    assert "tag"[0] != "vr"[0] && "tag"[0] != "value"[0] && "tag"[0] != "binary"[0] && "tag"[0] != "uri"[0];
    assert |"vr"| != |"value"| && "vr"[0] != "binary"[0] && "vr"[0] != "uri"[0];
    assert "value"[0] != "binary"[0] && "value"[0] != "uri"[0] && "binary"[0] != "uri"[0];
    assert "Value"[0] != "InlineBinary"[0] && "Value"[0] != "BulkDataURI"[0] && "InlineBinary"[0] != "BulkDataURI"[0];
    assert "vr"[0] != "Value"[0] && "vr"[0] != "InlineBinary"[0] && "vr"[0] != "BulkDataURI"[0];
  }

  // ---------------------------------------------------------------------
  // Encoder: `_json_dict_to_readable`
  // ---------------------------------------------------------------------

  /**
    The loop of `_json_dict_to_readable` after its first `n` items: the
    readable dict built so far, or the exception that ended the loop.
   */
  function ToReadable(d: Dictionary, dct: Fields, n: nat, policy: Policy): Result<Fields, PyError>
    requires n <= |dct|
    decreases Obj(dct), 2, n
  {
    if n == 0 then Ok([])
    else
      var ret :- ToReadable(d, dct, n - 1, policy);
      ReadableStep(d, dct[n - 1].0, dct[n - 1].1, ret, policy)
  }

  /** One pass of the loop body, on the item `tag: elm`, with `ret` built so far. */
  function ReadableStep(d: Dictionary, tag: string, elm: Json, ret: Fields, policy: Policy): Result<Fields, PyError>
    decreases elm, 2, 0
  {
    var vr :- GetItem(elm, "vr");
    if !KeptBy(d, tag, policy) then Ok(ret)
    else
      var data :- ReadableElement(d, tag, elm, vr, policy.skipBinary);
      Ok(Put(ret, NameOf(d, tag), Obj(data)))
  }

  /** The readable entry (`data`) of element `elm` under JSON-model key `tag`. */
  function ReadableElement(d: Dictionary, tag: string, elm: Json, vr: Json, skipBinary: bool): Result<Fields, PyError>
    requires elm.Obj?
    decreases elm, 1, 0
  {
    var value :- ReadableValue(d, elm, vr);
    var binary := CopyAs(elm.fields, "InlineBinary", "binary", !skipBinary);
    var uri := CopyAs(elm.fields, "BulkDataURI", "uri", true);
    Ok([("tag", Str("0x" + tag)), ("vr", vr)] + value + binary + uri)
  }

  /** `if key in elm and enabled: data[name] = elm[key]`, on a dict `elm`, as the one field it adds. */
  function CopyAs(fields: Fields, key: string, name: string, enabled: bool): Fields {
    if key in Keys(fields) && enabled then [(name, At(fields, key))] else []
  }

  /** The `value` field of a readable entry: absent without `Value`, recursive for SQ, else collapsed. */
  function ReadableValue(d: Dictionary, elm: Json, vr: Json): Result<Fields, PyError>
    requires elm.Obj?
    decreases elm, 0, 0
  {
    if "Value" !in Keys(elm.fields) then Ok([])
    else
      var value := elm.fields[IndexOf(elm.fields, "Value")].1;
      if vr == SqVr then
        var items :- Iterate(value);
        var readable :- ReadableItems(d, value, items, |items|);
        Ok([("value", List(readable))])
      else
        Ok([("value", FlattenList(value))])
  }

  /** `[_json_dict_to_readable(v) for v in value]` after its first `n` items. */
  function ReadableItems(d: Dictionary, value: Json, items: seq<Json>, n: nat): Result<seq<Json>, PyError>
    requires Iterate(value) == Ok(items) && n <= |items|
    decreases value, 2, n
  {
    if n == 0 then Ok([])
    else
      var done :- ReadableItems(d, value, items, n - 1);
      var fields :- AsDict(items[n - 1]);
      assert value.List? && items[n - 1] == value.items[n - 1];
      var readable :- ToReadable(d, fields, |fields|, Defaults);
      Ok(done + [Obj(readable)])
  }

  // ---------------------------------------------------------------------
  // Decoder: `_readable_to_json_dict`
  // ---------------------------------------------------------------------

  /**
    The loop of `_readable_to_json_dict` after its first `n` items: the
    JSON-model dict built so far, or the exception that ended the loop.
   */
  function FromReadable(d: Dictionary, dct: Fields, n: nat, policy: Policy): Result<Fields, PyError>
    requires n <= |dct|
    decreases Obj(dct), 2, n
  {
    if n == 0 then Ok([])
    else
      var ret :- FromReadable(d, dct, n - 1, policy);
      JsonStep(d, dct[n - 1].0, dct[n - 1].1, ret, policy)
  }

  /** One pass of the loop body, on the item `key: elm`, with `ret` built so far. */
  function JsonStep(d: Dictionary, key: string, elm: Json, ret: Fields, policy: Policy): Result<Fields, PyError>
    decreases elm, 2, 0
  {
    if !ResolvedBy(d, key, policy) then Ok(ret)
    else
      var data :- JsonElement(d, elm, policy.skipBinary);
      Ok(Put(ret, key, Obj(data)))
  }

  /** The JSON-model element (`data`) rebuilt from readable entry `elm`. */
  function JsonElement(d: Dictionary, elm: Json, skipBinary: bool): Result<Fields, PyError>
    decreases elm, 1, 0
  {
    if !IsContainer(elm) then Err(TypeError)  // `"vr" in elm` on a value that is no container
    else
      var vr :- CopyField(elm, "vr", "vr", true);
      var value :- if Has(elm, "value") then JsonValue(d, elm, vr) else Ok([]);
      var binary :- CopyField(elm, "binary", "InlineBinary", !skipBinary);
      var uri :- CopyField(elm, "uri", "BulkDataURI", true);
      Ok(vr + value + binary + uri)
  }

  /** `if key in elm and enabled: data[name] = elm[key]`, as the one field it adds. */
  function CopyField(elm: Json, key: string, name: string, enabled: bool): Result<Fields, PyError>
    requires IsContainer(elm)
  {
    if Has(elm, key) && enabled then
      var v :- GetItem(elm, key);
      Ok([(name, v)])
    else Ok([])
  }

  /**
    The `Value` field rebuilt from `elm["value"]`, given the `vr` field
    already copied into `data` (empty when the entry had none).
   */
  function JsonValue(d: Dictionary, elm: Json, vr: Fields): (r: Result<Fields, PyError>)
    ensures r.Ok? ==> |r.value| == 1 && r.value[0].0 == "Value"
    decreases elm, 0, 0
  {
    var found :- GetItem(elm, "value");
    var value := elm.fields[IndexOf(elm.fields, "value")].1;
    if vr != [] && vr[0].1 == SqVr then
      var items :- Iterate(value);
      var decoded :- JsonItems(d, value, items, |items|);
      Ok([("Value", List(decoded))])
    else
      Ok([("Value", Wrap(value))])
  }

  /** `[_readable_to_json_dict(v) for v in value]` after its first `n` items. */
  function JsonItems(d: Dictionary, value: Json, items: seq<Json>, n: nat): Result<seq<Json>, PyError>
    requires Iterate(value) == Ok(items) && n <= |items|
    decreases value, 2, n
  {
    if n == 0 then Ok([])
    else
      var done :- JsonItems(d, value, items, n - 1);
      var fields :- AsDict(items[n - 1]);
      assert value.List? && items[n - 1] == value.items[n - 1];
      var decoded :- FromReadable(d, fields, |fields|, Defaults);
      Ok(done + [Obj(decoded)])
  }

  // ---------------------------------------------------------------------
  // An exception ends the loop: once a prefix fails, every longer one
  // fails with the same exception.
  // ---------------------------------------------------------------------

  lemma ToReadableStuck(d: Dictionary, dct: Fields, i: nat, n: nat, policy: Policy)
    requires i <= n <= |dct| && ToReadable(d, dct, i, policy).Err?
    ensures ToReadable(d, dct, n, policy) == ToReadable(d, dct, i, policy)
    decreases n
  {
    if n > i {
      ToReadableStuck(d, dct, i, n - 1, policy);
    }
  }

  /** Pass `i` carries the loop from `i` items to `i + 1`. */
  lemma ToReadableNext(d: Dictionary, dct: Fields, i: nat, n: nat, ret: Fields, policy: Policy)
    requires n == i + 1 <= |dct| && ToReadable(d, dct, i, policy) == Ok(ret)
    ensures ToReadable(d, dct, n, policy) == ReadableStep(d, dct[i].0, dct[i].1, ret, policy)
  {
  }

  /** An exception in pass `i` is what the whole loop raises. */
  lemma ToReadableStops(d: Dictionary, dct: Fields, i: nat, ret: Fields, policy: Policy)
    requires i < |dct| && ToReadable(d, dct, i, policy) == Ok(ret)
    requires ReadableStep(d, dct[i].0, dct[i].1, ret, policy).Err?
    ensures ToReadable(d, dct, |dct|, policy) == ReadableStep(d, dct[i].0, dct[i].1, ret, policy)
  {
    ToReadableStuck(d, dct, i + 1, |dct|, policy);
  }

  /** Item `j` of a sequence that is a dict carries the list from `j` items to `n = j + 1`. */
  lemma ReadableItemsNext(d: Dictionary, value: Json, items: seq<Json>, j: nat, n: nat, done: seq<Json>)
    requires Iterate(value) == Ok(items) && n == j + 1 <= |items| && ReadableItems(d, value, items, j) == Ok(done)
    requires items[j].Obj? && ToReadable(d, items[j].fields, |items[j].fields|, Defaults).Ok?
    ensures ReadableItems(d, value, items, n)
            == Ok(done + [Obj(ToReadable(d, items[j].fields, |items[j].fields|, Defaults).value)])
  {
  }

  lemma ReadableItemsStuck(d: Dictionary, value: Json, items: seq<Json>, j: nat, n: nat)
    requires Iterate(value) == Ok(items) && j <= n <= |items| && ReadableItems(d, value, items, j).Err?
    ensures ReadableItems(d, value, items, n) == ReadableItems(d, value, items, j)
    decreases n
  {
    if n > j {
      ReadableItemsStuck(d, value, items, j, n - 1);
    }
  }

  lemma FromReadableStuck(d: Dictionary, dct: Fields, i: nat, n: nat, policy: Policy)
    requires i <= n <= |dct| && FromReadable(d, dct, i, policy).Err?
    ensures FromReadable(d, dct, n, policy) == FromReadable(d, dct, i, policy)
    decreases n
  {
    if n > i {
      FromReadableStuck(d, dct, i, n - 1, policy);
    }
  }

  /** Pass `i` carries the loop from `i` items to `i + 1`. */
  lemma FromReadableNext(d: Dictionary, dct: Fields, i: nat, n: nat, ret: Fields, policy: Policy)
    requires n == i + 1 <= |dct| && FromReadable(d, dct, i, policy) == Ok(ret)
    ensures FromReadable(d, dct, n, policy) == JsonStep(d, dct[i].0, dct[i].1, ret, policy)
  {
  }

  /** An exception in pass `i` is what the whole loop raises. */
  lemma FromReadableStops(d: Dictionary, dct: Fields, i: nat, ret: Fields, policy: Policy)
    requires i < |dct| && FromReadable(d, dct, i, policy) == Ok(ret)
    requires JsonStep(d, dct[i].0, dct[i].1, ret, policy).Err?
    ensures FromReadable(d, dct, |dct|, policy) == JsonStep(d, dct[i].0, dct[i].1, ret, policy)
  {
    FromReadableStuck(d, dct, i + 1, |dct|, policy);
  }

  lemma JsonItemsStuck(d: Dictionary, value: Json, items: seq<Json>, j: nat, n: nat)
    requires Iterate(value) == Ok(items) && j <= n <= |items| && JsonItems(d, value, items, j).Err?
    ensures JsonItems(d, value, items, n) == JsonItems(d, value, items, j)
    decreases n
  {
    if n > j {
      JsonItemsStuck(d, value, items, j, n - 1);
    }
  }

  // ---------------------------------------------------------------------
  // The two loops
  // ---------------------------------------------------------------------

  /**
    `_json_dict_to_readable(dct, skip_binary, skip_nonstd)`: the entries
    of `dct` in order, each renamed to its keyword (or "0x" and its key)
    and rebuilt as `{tag, vr, value?, binary?, uri?}`, sequence items
    converted by recursive calls with the default flags.
   */
  method JsonDictToReadable(d: Dictionary, dct: Fields, policy: Policy) returns (r: Result<Fields, PyError>)
    ensures r == ToReadable(d, dct, |dct|, policy)
    decreases Obj(dct), 2
  {
    var ret: Fields := [];
    for i := 0 to |dct|
      invariant ToReadable(d, dct, i, policy) == Ok(ret)
    {
      var next := ReadableEntry(d, dct, i, ret, policy);
      ToReadableNext(d, dct, i, i + 1, ret, policy);
      if next.Err? {
        ToReadableStops(d, dct, i, ret, policy);
        return Err(next.error);
      }
      ret := next.value;
    }
    return Ok(ret);
  }

  /** One pass of the loop: `dct`'s `i`-th element added to `ret` under its name, or skipped. */
  method ReadableEntry(d: Dictionary, dct: Fields, i: nat, ret: Fields, policy: Policy) returns (r: Result<Fields, PyError>)
    requires i < |dct|
    ensures r == ReadableStep(d, dct[i].0, dct[i].1, ret, policy)
    decreases Obj(dct), 1
  {
    var tag, elm := dct[i].0, dct[i].1;
    var vr :- GetItem(elm, "vr");
    var keyword := d.keywordFor(tag);
    if keyword == "" && policy.skipNonstd {
      return Ok(ret);
    }
    var data :- ReadableData(d, tag, elm, vr, policy.skipBinary);
    var name := if keyword != "" then keyword else "0x" + tag;
    assert name == NameOf(d, tag);
    return Ok(Put(ret, name, Obj(data)));
  }

  /**
    The loop body's `data` dict for element `elm`, filled field by field;
    every field it receives is new, so each assignment appends.
   */
  method ReadableData(d: Dictionary, tag: string, elm: Json, vr: Json, skipBinary: bool)
    returns (r: Result<Fields, PyError>)
    requires elm.Obj?
    ensures r == ReadableElement(d, tag, elm, vr, skipBinary)
    decreases elm, 1
  {
    var data: Fields := [("tag", Str("0x" + tag)), ("vr", vr)];
    ghost var valueField: Fields := [];
    if "Value" in Keys(elm.fields) {
      var value := At(elm.fields, "Value");
      if vr == SqVr {
        var items := Iterate(value);
        if items.Err? {
          return Err(items.error);
        }
        var readable := ReadableList(d, value, items.value);
        if readable.Err? {
          return Err(readable.error);
        }
        assert ReadableValue(d, elm, vr) == Ok([("value", List(readable.value))]);
        value := List(readable.value);
      } else {
        assert ReadableValue(d, elm, vr) == Ok([("value", FlattenList(value))]);
        value := FlattenList(value);
      }
      data := data + [("value", value)];
      valueField := [("value", value)];
    }
    assert ReadableValue(d, elm, vr) == Ok(valueField);
    ghost var binaryField: Fields := [];
    if "InlineBinary" in Keys(elm.fields) && !skipBinary {
      data := data + [("binary", At(elm.fields, "InlineBinary"))];
      binaryField := [("binary", At(elm.fields, "InlineBinary"))];
    }
    assert binaryField == CopyAs(elm.fields, "InlineBinary", "binary", !skipBinary);
    ghost var uriField: Fields := [];
    if "BulkDataURI" in Keys(elm.fields) {
      data := data + [("uri", At(elm.fields, "BulkDataURI"))];
      uriField := [("uri", At(elm.fields, "BulkDataURI"))];
    }
    assert uriField == CopyAs(elm.fields, "BulkDataURI", "uri", true);
    assert data == [("tag", Str("0x" + tag)), ("vr", vr)] + valueField + binaryField + uriField;
    return Ok(data);
  }

  /** `[_json_dict_to_readable(v) for v in value]`, given what iterating `value` yields. */
  method ReadableList(d: Dictionary, value: Json, items: seq<Json>) returns (r: Result<seq<Json>, PyError>)
    requires Iterate(value) == Ok(items)
    ensures r == ReadableItems(d, value, items, |items|)
    decreases value, 0
  {
    var readable: seq<Json> := [];
    for j := 0 to |items|
      invariant ReadableItems(d, value, items, j) == Ok(readable)
    {
      var fields := AsDict(items[j]);
      if fields.Err? {
        ReadableItemsStuck(d, value, items, j + 1, |items|);
        return Err(fields.error);
      }
      assert value.List? && items[j] == value.items[j] && Obj(fields.value) == items[j];
      var sub := JsonDictToReadable(d, fields.value, Defaults);
      if sub.Err? {
        ReadableItemsStuck(d, value, items, j + 1, |items|);
        return Err(sub.error);
      }
      readable := readable + [Obj(sub.value)];
    }
    return Ok(readable);
  }

  /** One pass of the loop: `dct`'s `i`-th entry added to `ret`, or skipped. */
  method JsonEntry(d: Dictionary, dct: Fields, i: nat, ret: Fields, policy: Policy) returns (r: Result<Fields, PyError>)
    requires i < |dct|
    ensures r == JsonStep(d, dct[i].0, dct[i].1, ret, policy)
    decreases Obj(dct), 1
  {
    var key, elm := dct[i].0, dct[i].1;
    if policy.skipNonstd && !d.resolves(key) {
      return Ok(ret);
    }
    var data :- JsonData(d, elm, policy.skipBinary);
    return Ok(Put(ret, key, Obj(data)));
  }

  /** The loop body's `data` dict for readable entry `elm`, filled field by field. */
  method JsonData(d: Dictionary, elm: Json, skipBinary: bool) returns (r: Result<Fields, PyError>)
    ensures r == JsonElement(d, elm, skipBinary)
    decreases elm, 1
  {
    if !IsContainer(elm) {
      return Err(TypeError);
    }
    var data :- CopyField(elm, "vr", "vr", true);
    ghost var vrField := data;
    ghost var valueField: Fields := [];
    if Has(elm, "value") {
      var value :- JsonValueField(d, elm, data);
      data := data + value;
      valueField := value;
    }
    var binary :- CopyField(elm, "binary", "InlineBinary", !skipBinary);
    var uri :- CopyField(elm, "uri", "BulkDataURI", true);
    assert data + binary + uri == vrField + valueField + binary + uri;
    return Ok(data + binary + uri);
  }

  /** The `Value` field of the `data` dict, given the `vr` field copied before it. */
  method JsonValueField(d: Dictionary, elm: Json, vr: Fields) returns (r: Result<Fields, PyError>)
    ensures r == JsonValue(d, elm, vr)
    decreases elm, 0
  {
    var found := GetItem(elm, "value");
    if found.Err? {
      return Err(found.error);
    }
    var value := At(elm.fields, "value");
    if vr != [] && vr[0].1 == SqVr {
      var items := Iterate(value);
      if items.Err? {
        return Err(items.error);
      }
      var decoded := JsonList(d, value, items.value);
      if decoded.Err? {
        return Err(decoded.error);
      }
      return Ok([("Value", List(decoded.value))]);
    }
    return Ok([("Value", Wrap(value))]);
  }

  /** `[_readable_to_json_dict(v) for v in value]`, given what iterating `value` yields. */
  method JsonList(d: Dictionary, value: Json, items: seq<Json>) returns (r: Result<seq<Json>, PyError>)
    requires Iterate(value) == Ok(items)
    ensures r == JsonItems(d, value, items, |items|)
    decreases value, 0
  {
    var decoded: seq<Json> := [];
    for j := 0 to |items|
      invariant JsonItems(d, value, items, j) == Ok(decoded)
    {
      var fields := AsDict(items[j]);
      if fields.Err? {
        JsonItemsStuck(d, value, items, j + 1, |items|);
        return Err(fields.error);
      }
      assert value.List? && items[j] == value.items[j] && Obj(fields.value) == items[j];
      var sub := ReadableToJsonDict(d, fields.value, Defaults);
      if sub.Err? {
        JsonItemsStuck(d, value, items, j + 1, |items|);
        return Err(sub.error);
      }
      decoded := decoded + [Obj(sub.value)];
    }
    return Ok(decoded);
  }

  /**
    `_readable_to_json_dict(dct, skip_binary, skip_nonstd)`: the entries of
    `dct` in order under their readable keys, each rebuilt as
    `{vr?, Value?, InlineBinary?, BulkDataURI?}`; with `skip_nonstd`, an
    entry whose key does not resolve to a tag is passed over.
   */
  method ReadableToJsonDict(d: Dictionary, dct: Fields, policy: Policy) returns (r: Result<Fields, PyError>)
    ensures r == FromReadable(d, dct, |dct|, policy)
    decreases Obj(dct), 2
  {
    var ret: Fields := [];
    var i := 0;
    while i < |dct|
      invariant i <= |dct| && FromReadable(d, dct, i, policy) == Ok(ret)
    {
      var next := JsonEntry(d, dct, i, ret, policy);
      FromReadableNext(d, dct, i, i + 1, ret, policy);
      if next.Err? {
        FromReadableStops(d, dct, i, ret, policy);
        return next;
      }
      ret := next.value;
      i := i + 1;
    }
    return Ok(ret);
  }


}
