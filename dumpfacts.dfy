/**
  What the two conversions of `dicom_tools/_dicom_dump.py` promise about
  any input they accept, whatever its shape: which keys the output holds,
  which fields each entry carries, and which flags the recursive calls
  for sequence items use.
 */
module DumpFacts {
  import opened Wrappers
  import opened PyDict
  import opened PyJson
  import opened Tags
  import opened Dump

  // ---------------------------------------------------------------------
  // Encoder
  // ---------------------------------------------------------------------

  /**
    When `_json_dict_to_readable` succeeds on the first `n` items, every
    item (kept or not) is a dict with a `vr`, and the readable keys are
    exactly the readable names of the kept items: an item is dropped iff
    it has no keyword and `skip_nonstd` is set.
   */
  lemma EncodedKeys(d: Dictionary, dct: Fields, n: nat, policy: Policy, r: Fields)
    requires n <= |dct| && ToReadable(d, dct, n, policy) == Ok(r)
    ensures forall i :: 0 <= i < n ==> dct[i].1.Obj? && "vr" in Keys(dct[i].1.fields)
    ensures forall k :: k in Keys(r) <==>
              exists i :: 0 <= i < n && KeptBy(d, dct[i].0, policy) && NameOf(d, dct[i].0) == k
  {
    EncodedVr(d, dct, n, policy);
    EncodedKeysFold(d, dct, n, policy);
  }

  /** Every item before one the loop got past was a dict with a `vr`. */
  lemma {:induction false} EncodedVr(d: Dictionary, dct: Fields, n: nat, policy: Policy)
    requires n <= |dct| && ToReadable(d, dct, n, policy).Ok?
    ensures forall i :: 0 <= i < n ==> dct[i].1.Obj? && "vr" in Keys(dct[i].1.fields)
  {
    if n > 0 {
      var i := n - 1;
      var prev := ToReadableLast(d, dct, i, n, policy, ToReadable(d, dct, n, policy).value);
      EncodedVr(d, dct, i, policy);
      forall j | 0 <= j < n ensures dct[j].1.Obj? && "vr" in Keys(dct[j].1.fields) {
        if j < i {
          assert dct[j].1.Obj? && "vr" in Keys(dct[j].1.fields);
        } else {
          assert j == i;
        }
      }
    }
  }

  lemma {:induction false} EncodedKeysFold(d: Dictionary, dct: Fields, n: nat, policy: Policy)
    requires n <= |dct|
    ensures ToReadable(d, dct, n, policy).Ok? ==>
              forall k :: k in Keys(ToReadable(d, dct, n, policy).value) <==>
                exists i :: 0 <= i < n && KeptBy(d, dct[i].0, policy) && NameOf(d, dct[i].0) == k
  {
    if n > 0 && ToReadable(d, dct, n, policy).Ok? {
      var i := n - 1;
      var prev := ToReadableLast(d, dct, i, n, policy, ToReadable(d, dct, n, policy).value);
      EncodedKeysFold(d, dct, i, policy);
      EncodedKeysStep(d, dct, i, n, policy, prev, ToReadable(d, dct, n, policy).value);
    }
  }

  lemma EncodedKeysStep(d: Dictionary, dct: Fields, m: nat, n: nat, policy: Policy, prev: Fields, r: Fields)
    requires n == m + 1 <= |dct|
    requires forall k :: k in Keys(prev) <==>
               exists i :: 0 <= i < m && KeptBy(d, dct[i].0, policy) && NameOf(d, dct[i].0) == k
    requires !KeptBy(d, dct[m].0, policy) ==> r == prev
    requires KeptBy(d, dct[m].0, policy) ==> forall k :: k in Keys(r) <==> k == NameOf(d, dct[m].0) || k in Keys(prev)
    ensures forall k :: k in Keys(r) <==>
              exists i :: 0 <= i < n && KeptBy(d, dct[i].0, policy) && NameOf(d, dct[i].0) == k
  {
    forall k ensures k in Keys(r) ==>
                       exists i :: 0 <= i < n && KeptBy(d, dct[i].0, policy) && NameOf(d, dct[i].0) == k {
      if k in Keys(r) && !(KeptBy(d, dct[m].0, policy) && NameOf(d, dct[m].0) == k) {
        assert k in Keys(prev);
      }
    }
  }

  /**
    A loop that succeeds after `n = i + 1` items succeeded after `i`, and
    then read `vr` of item `i` and added its readable name if it kept it.
   */
  lemma ToReadableLast(d: Dictionary, dct: Fields, i: nat, n: nat, policy: Policy, r: Fields) returns (prev: Fields)
    requires n == i + 1 <= |dct| && ToReadable(d, dct, n, policy) == Ok(r)
    ensures ToReadable(d, dct, i, policy) == Ok(prev)
    ensures dct[i].1.Obj? && "vr" in Keys(dct[i].1.fields)
    ensures !KeptBy(d, dct[i].0, policy) ==> r == prev
    ensures KeptBy(d, dct[i].0, policy) ==> forall k :: k in Keys(r) <==> k == NameOf(d, dct[i].0) || k in Keys(prev)
  {
    prev := ToReadable(d, dct, i, policy).value;
    ReadableStepKeys(d, dct[i].0, dct[i].1, prev, policy, r);
  }

  /** A successful pass reads `vr` of every item, and adds the readable name of a kept one. */
  lemma ReadableStepKeys(d: Dictionary, tag: string, elm: Json, prev: Fields, policy: Policy, r: Fields)
    requires ReadableStep(d, tag, elm, prev, policy) == Ok(r)
    ensures elm.Obj? && "vr" in Keys(elm.fields)
    ensures !KeptBy(d, tag, policy) ==> r == prev
    ensures KeptBy(d, tag, policy) ==> forall k :: k in Keys(r) <==> k == NameOf(d, tag) || k in Keys(prev)
  {
    if KeptBy(d, tag, policy) {
      var data := ReadableElement(d, tag, elm, GetItem(elm, "vr").value, policy.skipBinary).value;
      PutKeys(prev, NameOf(d, tag), Obj(data));
    }
  }

  /**
    A readable entry starts with `tag` (`"0x"` and the JSON-model key) and
    `vr`; it has `value` iff the element has `Value`, `binary` iff it has
    `InlineBinary` and `skip_binary` is off, `uri` iff it has
    `BulkDataURI`, and no other field. Binary data and URIs are copied as
    they are, and a non-sequence value is collapsed by `_flatten_list`.
   */
  lemma EncodedEntry(d: Dictionary, tag: string, elm: Json, vr: Json, skipBinary: bool, r: Fields)
    requires elm.Obj? && ReadableElement(d, tag, elm, vr, skipBinary) == Ok(r)
    ensures |r| >= 2 && r[0] == ("tag", Str("0x" + tag)) && r[1] == ("vr", vr)
    ensures forall k :: k in Keys(r) ==> k == "tag" || k == "vr" || k == "value" || k == "binary" || k == "uri"
    ensures "value" in Keys(r) <==> "Value" in Keys(elm.fields)
    ensures "binary" in Keys(r) <==> "InlineBinary" in Keys(elm.fields) && !skipBinary
    ensures "uri" in Keys(r) <==> "BulkDataURI" in Keys(elm.fields)
    ensures "binary" in Keys(r) ==> Get(r, "binary") == Get(elm.fields, "InlineBinary")
    ensures "uri" in Keys(r) ==> Get(r, "uri") == Get(elm.fields, "BulkDataURI")
    ensures "Value" in Keys(elm.fields) && vr != SqVr ==> Get(r, "value") == Some(FlattenList(At(elm.fields, "Value")))
  {
    var value := ReadableElementParts(d, tag, elm, vr, skipBinary, r);
    ReadableFields(Str("0x" + tag), vr, value, CopyAs(elm.fields, "InlineBinary", "binary", !skipBinary),
                   CopyAs(elm.fields, "BulkDataURI", "uri", true));
  }

  /** The parts a readable entry is assembled from. */
  lemma ReadableElementParts(d: Dictionary, tag: string, elm: Json, vr: Json, skipBinary: bool, r: Fields)
    returns (value: Fields)
    requires elm.Obj? && ReadableElement(d, tag, elm, vr, skipBinary) == Ok(r)
    ensures r == [("tag", Str("0x" + tag)), ("vr", vr)] + value
                 + CopyAs(elm.fields, "InlineBinary", "binary", !skipBinary) + CopyAs(elm.fields, "BulkDataURI", "uri", true)
    ensures |value| <= 1 && (value != [] <==> "Value" in Keys(elm.fields)) && (value != [] ==> value[0].0 == "value")
    ensures "Value" in Keys(elm.fields) && vr != SqVr ==> value == [("value", FlattenList(At(elm.fields, "Value")))]
  {
    value := ReadableValue(d, elm, vr).value;
  }

  /** Lookups in an entry made of `tag`, `vr` and at most one each of `value`, `binary` and `uri`. */
  lemma ReadableFields(tag: Json, vr: Json, value: Fields, binary: Fields, uri: Fields)
    requires |value| <= 1 && (value != [] ==> value[0].0 == "value")
    requires |binary| <= 1 && (binary != [] ==> binary[0].0 == "binary")
    requires |uri| <= 1 && (uri != [] ==> uri[0].0 == "uri")
    ensures forall k :: k in Keys([("tag", tag), ("vr", vr)] + value + binary + uri) ==>
              k == "tag" || k == "vr" || k == "value" || k == "binary" || k == "uri"
    ensures "value" in Keys([("tag", tag), ("vr", vr)] + value + binary + uri) <==> value != []
    ensures "binary" in Keys([("tag", tag), ("vr", vr)] + value + binary + uri) <==> binary != []
    ensures "uri" in Keys([("tag", tag), ("vr", vr)] + value + binary + uri) <==> uri != []
    ensures Get([("tag", tag), ("vr", vr)] + value + binary + uri, "value") == if value == [] then None else Some(value[0].1)
    ensures Get([("tag", tag), ("vr", vr)] + value + binary + uri, "binary") == if binary == [] then None else Some(binary[0].1)
    ensures Get([("tag", tag), ("vr", vr)] + value + binary + uri, "uri") == if uri == [] then None else Some(uri[0].1)
  {
    var head := [("tag", tag), ("vr", vr)];
    FieldNamesDiffer();
    assert Keys(head) == ["tag", "vr"];
    AppendOptional(head, value, "value");
    AppendOptional(head + value, binary, "binary");
    AppendOptional(head + value + binary, uri, "uri");
    forall k | k in Keys(head + value + binary + uri)
      ensures k == "tag" || k == "vr" || k == "value" || k == "binary" || k == "uri"
    {
      assert k in Keys(head + value + binary) || (uri != [] && k == "uri");
      assert k in Keys(head + value) || (binary != [] && k == "binary") || (uri != [] && k == "uri");
    }
  }

  /**
    The items of a sequence keep their count and order, and each is
    converted by a recursive call with the default flags, so nested items
    are never filtered.
   */
  lemma EncodedItems(d: Dictionary, value: Json, items: seq<Json>, n: nat, rs: seq<Json>)
    requires Iterate(value) == Ok(items) && n <= |items| && ReadableItems(d, value, items, n) == Ok(rs)
    ensures |rs| == n
    ensures forall j :: 0 <= j < n ==>
              (items[j].Obj? && rs[j].Obj? && ToReadable(d, items[j].fields, |items[j].fields|, Defaults) == Ok(rs[j].fields))
  {
    EncodedItemsFold(d, value, items, n);
  }

  lemma {:induction false} EncodedItemsFold(d: Dictionary, value: Json, items: seq<Json>, n: nat)
    requires Iterate(value) == Ok(items) && n <= |items|
    ensures ReadableItems(d, value, items, n).Ok? ==> |ReadableItems(d, value, items, n).value| == n
    ensures ReadableItems(d, value, items, n).Ok? ==>
              forall j :: 0 <= j < n ==>
                (items[j].Obj? && ReadableItems(d, value, items, n).value[j].Obj? &&
                 ToReadable(d, items[j].fields, |items[j].fields|, Defaults) == Ok(ReadableItems(d, value, items, n).value[j].fields))
  {
    if n > 0 && ReadableItems(d, value, items, n).Ok? {
      EncodedItemsFold(d, value, items, n - 1);
    }
  }

  /**
    A non-sequence element whose value is a list: the encoder collapses a
    one-element list to its scalar, and the decoder wraps it back, so the
    element comes back as it was.
   */
  lemma ValueRoundTrip(d: Dictionary, tag: string, vr: Json, v: Json, skipBinary: bool)
    requires v.List? && vr != SqVr
    ensures ReadableElement(d, tag, Obj([("vr", vr), ("Value", v)]), vr, skipBinary)
            == Ok([("tag", Str("0x" + tag)), ("vr", vr), ("value", FlattenList(v))])
    ensures JsonElement(d, Obj([("tag", Str("0x" + tag)), ("vr", vr), ("value", FlattenList(v))]), skipBinary)
            == Ok([("vr", vr), ("Value", v)])
  {
    EncodeValueField(d, tag, vr, v, skipBinary);
    DecodeValueField(d, tag, vr, FlattenList(v), skipBinary);
  }

  lemma EncodeValueField(d: Dictionary, tag: string, vr: Json, v: Json, skipBinary: bool)
    requires vr != SqVr
    ensures ReadableElement(d, tag, Obj([("vr", vr), ("Value", v)]), vr, skipBinary)
            == Ok([("tag", Str("0x" + tag)), ("vr", vr), ("value", FlattenList(v))])
  {
    var fs := [("vr", vr), ("Value", v)];
    FieldNamesDiffer();
    assert Keys(fs) == ["vr", "Value"];
    FindPositional(fs, "Value", 1);
    assert ReadableValue(d, Obj(fs), vr) == Ok([("value", FlattenList(v))]);
    assert CopyAs(fs, "InlineBinary", "binary", !skipBinary) == [];
    assert CopyAs(fs, "BulkDataURI", "uri", true) == [];
    assert [("tag", Str("0x" + tag)), ("vr", vr)] + [("value", FlattenList(v))] + [] + []
           == [("tag", Str("0x" + tag)), ("vr", vr), ("value", FlattenList(v))];
  }

  lemma DecodeValueField(d: Dictionary, tag: string, vr: Json, value: Json, skipBinary: bool)
    requires vr != SqVr
    ensures JsonElement(d, Obj([("tag", Str("0x" + tag)), ("vr", vr), ("value", value)]), skipBinary)
            == Ok([("vr", vr), ("Value", Wrap(value))])
  {
    var fs := [("tag", Str("0x" + tag)), ("vr", vr), ("value", value)];
    FieldNamesDiffer();
    assert Keys(fs) == ["tag", "vr", "value"];
    FindPositional(fs, "vr", 1);
    FindPositional(fs, "value", 2);
    assert CopyField(Obj(fs), "vr", "vr", true) == Ok([("vr", vr)]);
    assert JsonValue(d, Obj(fs), [("vr", vr)]) == Ok([("Value", Wrap(value))]);
    assert CopyField(Obj(fs), "binary", "InlineBinary", !skipBinary) == Ok([]);
    assert CopyField(Obj(fs), "uri", "BulkDataURI", true) == Ok([]);
    assert [("vr", vr)] + [("Value", Wrap(value))] + [] + [] == [("vr", vr), ("Value", Wrap(value))];
  }

  // ---------------------------------------------------------------------
  // Decoder
  // ---------------------------------------------------------------------

  /**
    When `_readable_to_json_dict` succeeds on the first `n` items, its keys
    are exactly the readable keys of those items, unchanged, except the
    ones dropped because `skip_nonstd` is set and they name no tag.
   */
  lemma DecodedKeys(d: Dictionary, dct: Fields, n: nat, policy: Policy, r: Fields)
    requires n <= |dct| && FromReadable(d, dct, n, policy) == Ok(r)
    ensures forall k :: k in Keys(r) <==> exists i :: 0 <= i < n && dct[i].0 == k && ResolvedBy(d, k, policy)
  {
    DecodedKeysFold(d, dct, n, policy);
  }

  lemma {:induction false} DecodedKeysFold(d: Dictionary, dct: Fields, n: nat, policy: Policy)
    requires n <= |dct|
    ensures FromReadable(d, dct, n, policy).Ok? ==>
              forall k :: k in Keys(FromReadable(d, dct, n, policy).value) <==>
                exists i :: 0 <= i < n && dct[i].0 == k && ResolvedBy(d, k, policy)
  {
    if n > 0 && FromReadable(d, dct, n, policy).Ok? {
      var prev := FromReadableLast(d, dct, n, policy, FromReadable(d, dct, n, policy).value);
      DecodedKeysFold(d, dct, n - 1, policy);
      DecodedKeysStep(d, dct, n, policy, prev, FromReadable(d, dct, n, policy).value);
    }
  }

  lemma DecodedKeysStep(d: Dictionary, dct: Fields, n: nat, policy: Policy, prev: Fields, r: Fields)
    requires 0 < n <= |dct|
    requires forall k :: k in Keys(prev) <==> exists i :: 0 <= i < n - 1 && dct[i].0 == k && ResolvedBy(d, k, policy)
    requires !ResolvedBy(d, dct[n - 1].0, policy) ==> r == prev
    requires ResolvedBy(d, dct[n - 1].0, policy) ==> forall k :: k in Keys(r) <==> k == dct[n - 1].0 || k in Keys(prev)
    ensures forall k :: k in Keys(r) <==> exists i :: 0 <= i < n && dct[i].0 == k && ResolvedBy(d, k, policy)
  {
    forall k ensures k in Keys(r) ==> exists i :: 0 <= i < n && dct[i].0 == k && ResolvedBy(d, k, policy) {
      if k in Keys(r) && !(dct[n - 1].0 == k && ResolvedBy(d, k, policy)) {
        assert k in Keys(prev);
      }
    }
  }

  /**
    A loop that succeeds after `n` items succeeded after `n - 1`, and
    then added the key of item `n - 1` unless it skipped it.
   */
  lemma FromReadableLast(d: Dictionary, dct: Fields, n: nat, policy: Policy, r: Fields) returns (prev: Fields)
    requires 0 < n <= |dct| && FromReadable(d, dct, n, policy) == Ok(r)
    ensures FromReadable(d, dct, n - 1, policy) == Ok(prev)
    ensures !ResolvedBy(d, dct[n - 1].0, policy) ==> r == prev
    ensures ResolvedBy(d, dct[n - 1].0, policy) ==> forall k :: k in Keys(r) <==> k == dct[n - 1].0 || k in Keys(prev)
  {
    prev := FromReadable(d, dct, n - 1, policy).value;
    JsonStepKeys(d, dct[n - 1].0, dct[n - 1].1, prev, policy, r);
  }

  /** A successful pass adds the item's own key, unless the key is skipped. */
  lemma JsonStepKeys(d: Dictionary, key: string, elm: Json, prev: Fields, policy: Policy, r: Fields)
    requires JsonStep(d, key, elm, prev, policy) == Ok(r)
    ensures !ResolvedBy(d, key, policy) ==> r == prev
    ensures ResolvedBy(d, key, policy) ==> forall k :: k in Keys(r) <==> k == key || k in Keys(prev)
  {
    if ResolvedBy(d, key, policy) {
      var data := JsonElement(d, elm, policy.skipBinary).value;
      PutKeys(prev, key, Obj(data));
    }
  }

  /**
    A rebuilt JSON-model element holds only `vr`, `Value`, `InlineBinary`
    and `BulkDataURI` (the readable `tag` is discarded): `vr` iff the entry
    has one, `Value` iff it has `value`, `InlineBinary` iff it has `binary`
    and `skip_binary` is off, `BulkDataURI` iff it has `uri`. Fields are
    copied as they are, and a non-sequence value is wrapped into a list.
   */
  lemma DecodedEntry(d: Dictionary, elm: Json, skipBinary: bool, r: Fields)
    requires JsonElement(d, elm, skipBinary) == Ok(r)
    ensures IsContainer(elm)
    ensures forall k :: k in Keys(r) ==> k == "vr" || k == "Value" || k == "InlineBinary" || k == "BulkDataURI"
    ensures "vr" in Keys(r) <==> Has(elm, "vr")
    ensures "Value" in Keys(r) <==> Has(elm, "value")
    ensures "InlineBinary" in Keys(r) <==> Has(elm, "binary") && !skipBinary
    ensures "BulkDataURI" in Keys(r) <==> Has(elm, "uri")
    ensures r != [] ==> elm.Obj?
    ensures "vr" in Keys(r) ==> Get(r, "vr") == Get(elm.fields, "vr")
    ensures "InlineBinary" in Keys(r) ==> Get(r, "InlineBinary") == Get(elm.fields, "binary")
    ensures "BulkDataURI" in Keys(r) ==> Get(r, "BulkDataURI") == Get(elm.fields, "uri")
    ensures "Value" in Keys(r) && Get(r, "vr") != Some(SqVr) ==> Get(r, "Value") == Some(Wrap(At(elm.fields, "value")))
  {
    var vr, value, binary, uri := JsonElementParts(d, elm, skipBinary, r);
    ModelFields(vr, value, binary, uri);
  }

  /** The parts a JSON-model element is assembled from. */
  lemma JsonElementParts(d: Dictionary, elm: Json, skipBinary: bool, r: Fields)
    returns (vr: Fields, value: Fields, binary: Fields, uri: Fields)
    requires JsonElement(d, elm, skipBinary) == Ok(r)
    ensures IsContainer(elm) && r == vr + value + binary + uri
    ensures |vr| <= 1 && (vr != [] <==> Has(elm, "vr")) && (vr != [] ==> vr[0].0 == "vr")
    ensures |value| <= 1 && (value != [] <==> Has(elm, "value")) && (value != [] ==> value[0].0 == "Value")
    ensures |binary| <= 1 && (binary != [] <==> Has(elm, "binary") && !skipBinary) && (binary != [] ==> binary[0].0 == "InlineBinary")
    ensures |uri| <= 1 && (uri != [] <==> Has(elm, "uri")) && (uri != [] ==> uri[0].0 == "BulkDataURI")
    ensures r != [] ==> elm.Obj?
    ensures vr != [] ==> Get(elm.fields, "vr") == Some(vr[0].1)
    ensures binary != [] ==> Get(elm.fields, "binary") == Some(binary[0].1)
    ensures uri != [] ==> Get(elm.fields, "uri") == Some(uri[0].1)
    ensures value != [] && (vr == [] || vr[0].1 != SqVr) ==> value[0].1 == Wrap(At(elm.fields, "value"))
  {
    vr := CopyField(elm, "vr", "vr", true).value;
    CopyFieldOk(elm, "vr", "vr", true, vr);
    value := (if Has(elm, "value") then JsonValue(d, elm, vr) else Ok([])).value;
    binary := CopyField(elm, "binary", "InlineBinary", !skipBinary).value;
    CopyFieldOk(elm, "binary", "InlineBinary", !skipBinary, binary);
    uri := CopyField(elm, "uri", "BulkDataURI", true).value;
    CopyFieldOk(elm, "uri", "BulkDataURI", true, uri);
  }

  /** `if key in elm and enabled: data[name] = elm[key]` adds at most the one field, copied from a dict. */
  lemma CopyFieldOk(elm: Json, key: string, name: string, enabled: bool, f: Fields)
    requires IsContainer(elm) && CopyField(elm, key, name, enabled) == Ok(f)
    ensures |f| <= 1 && (f != [] <==> Has(elm, key) && enabled)
    ensures f != [] ==> f[0].0 == name && elm.Obj? && Get(elm.fields, key) == Some(f[0].1)
  {
  }

  /** Lookups in an element made of at most one each of `vr`, `Value`, `InlineBinary` and `BulkDataURI`. */
  lemma ModelFields(vr: Fields, value: Fields, binary: Fields, uri: Fields)
    requires |vr| <= 1 && (vr != [] ==> vr[0].0 == "vr")
    requires |value| <= 1 && (value != [] ==> value[0].0 == "Value")
    requires |binary| <= 1 && (binary != [] ==> binary[0].0 == "InlineBinary")
    requires |uri| <= 1 && (uri != [] ==> uri[0].0 == "BulkDataURI")
    ensures forall k :: k in Keys(vr + value + binary + uri) ==>
              k == "vr" || k == "Value" || k == "InlineBinary" || k == "BulkDataURI"
    ensures "vr" in Keys(vr + value + binary + uri) <==> vr != []
    ensures "Value" in Keys(vr + value + binary + uri) <==> value != []
    ensures "InlineBinary" in Keys(vr + value + binary + uri) <==> binary != []
    ensures "BulkDataURI" in Keys(vr + value + binary + uri) <==> uri != []
    ensures Get(vr + value + binary + uri, "vr") == if vr == [] then None else Some(vr[0].1)
    ensures Get(vr + value + binary + uri, "Value") == if value == [] then None else Some(value[0].1)
    ensures Get(vr + value + binary + uri, "InlineBinary") == if binary == [] then None else Some(binary[0].1)
    ensures Get(vr + value + binary + uri, "BulkDataURI") == if uri == [] then None else Some(uri[0].1)
  {
    FieldNamesDiffer();
    ModelKeys(vr, value, binary, uri);
    forall k | k in Keys(vr + value + binary + uri)
      ensures k == "vr" || k == "Value" || k == "InlineBinary" || k == "BulkDataURI"
    {
      assert k in Keys(vr) || k in Keys(value) || k in Keys(binary) || k in Keys(uri);
    }
    ModelGet(vr, value, binary, uri, "vr", vr);
    ModelGet(vr, value, binary, uri, "Value", value);
    ModelGet(vr, value, binary, uri, "InlineBinary", binary);
    ModelGet(vr, value, binary, uri, "BulkDataURI", uri);
  }

  lemma ModelKeys(vr: Fields, value: Fields, binary: Fields, uri: Fields)
    requires |vr| <= 1 && (vr != [] ==> vr[0].0 == "vr")
    requires |value| <= 1 && (value != [] ==> value[0].0 == "Value")
    requires |binary| <= 1 && (binary != [] ==> binary[0].0 == "InlineBinary")
    requires |uri| <= 1 && (uri != [] ==> uri[0].0 == "BulkDataURI")
    ensures Keys(vr + value + binary + uri) == Keys(vr) + Keys(value) + Keys(binary) + Keys(uri)
    ensures Keys(vr) == if vr == [] then [] else ["vr"]
    ensures Keys(value) == if value == [] then [] else ["Value"]
    ensures Keys(binary) == if binary == [] then [] else ["InlineBinary"]
    ensures Keys(uri) == if uri == [] then [] else ["BulkDataURI"]
  {
    KeysConcat(vr, value);
    KeysConcat(vr + value, binary);
    KeysConcat(vr + value + binary, uri);
  }

  /** The one part that can hold key `k` decides the lookup of `k`. */
  lemma ModelGet(vr: Fields, value: Fields, binary: Fields, uri: Fields, k: string, part: Fields)
    requires |vr| <= 1 && (vr != [] ==> vr[0].0 == "vr")
    requires |value| <= 1 && (value != [] ==> value[0].0 == "Value")
    requires |binary| <= 1 && (binary != [] ==> binary[0].0 == "InlineBinary")
    requires |uri| <= 1 && (uri != [] ==> uri[0].0 == "BulkDataURI")
    requires (k == "vr" && part == vr) || (k == "Value" && part == value)
             || (k == "InlineBinary" && part == binary) || (k == "BulkDataURI" && part == uri)
    ensures Get(vr + value + binary + uri, k) == if part == [] then None else Some(part[0].1)
  {
    FieldNamesDiffer();
    ModelKeys(vr, value, binary, uri);
    KeysConcat(vr, value);
    KeysConcat(vr + value, binary);
    GetConcat(vr + value + binary, uri, k);
    GetConcat(vr + value, binary, k);
    GetConcat(vr, value, k);
  }

  /** An entry without `vr`, `value`, `binary` and `uri` is no error: it becomes an empty element. */
  lemma BareEntry(d: Dictionary, fs: Fields, skipBinary: bool)
    requires "vr" !in Keys(fs) && "value" !in Keys(fs) && "binary" !in Keys(fs) && "uri" !in Keys(fs)
    ensures JsonElement(d, Obj(fs), skipBinary) == Ok([])
  {
    assert CopyField(Obj(fs), "vr", "vr", true) == Ok([]);
    assert CopyField(Obj(fs), "binary", "InlineBinary", !skipBinary) == Ok([]);
    assert CopyField(Obj(fs), "uri", "BulkDataURI", true) == Ok([]);
    assert !Has(Obj(fs), "value");
    var none: Fields := [];
    assert none + none + none + none == none;
  }

  /** Decoded sequence items keep their count and order and use the default flags. */
  lemma DecodedItems(d: Dictionary, value: Json, items: seq<Json>, n: nat, rs: seq<Json>)
    requires Iterate(value) == Ok(items) && n <= |items| && JsonItems(d, value, items, n) == Ok(rs)
    ensures |rs| == n
    ensures forall j :: 0 <= j < n ==>
              (items[j].Obj? && rs[j].Obj? && FromReadable(d, items[j].fields, |items[j].fields|, Defaults) == Ok(rs[j].fields))
  {
    DecodedItemsFold(d, value, items, n);
  }

  lemma {:induction false} DecodedItemsFold(d: Dictionary, value: Json, items: seq<Json>, n: nat)
    requires Iterate(value) == Ok(items) && n <= |items|
    ensures JsonItems(d, value, items, n).Ok? ==> |JsonItems(d, value, items, n).value| == n
    ensures JsonItems(d, value, items, n).Ok? ==>
              forall j :: 0 <= j < n ==>
                (items[j].Obj? && JsonItems(d, value, items, n).value[j].Obj? &&
                 FromReadable(d, items[j].fields, |items[j].fields|, Defaults) == Ok(JsonItems(d, value, items, n).value[j].fields))
  {
    if n > 0 && JsonItems(d, value, items, n).Ok? {
      DecodedItemsFold(d, value, items, n - 1);
    }
  }
}
