/**
  What the codec of `dicom_tools/_dicom_dump.py` does to the output of
  pydicom's `to_json_dict`, stated on the typed `Dataset`:

  - `Document` is the readable dict `_json_dict_to_readable` produces,
    written directly over the elements (`EncodeDocument`);
  - `Restored` is the JSON-model dict `_readable_to_json_dict` rebuilds
    from it (`DecodeDocument`);
  - `RoundTrip`: with no filtering the trip renames each key to its
    readable name and changes nothing else; the flags drop exactly the
    entries and the binary payloads they name.
 */
module DumpProofs {
  import opened Wrappers
  import opened PyDict
  import opened PyJson
  import opened Tags
  import opened DicomJson
  import opened Dump

  // ---------------------------------------------------------------------
  // Which datasets the theorems are about
  // ---------------------------------------------------------------------

  /**
    A dataset as pydicom renders it, whose readable names are distinct at
    every level: nested items appear exactly under SQ and an SQ element
    carries no plain values. Distinct names imply distinct keys.
   */
  predicate Encodable(d: Dictionary, ds: Dataset)
    decreases ds, 1
  {
    && (forall i, j :: 0 <= i < j < |ds.elements| ==> NameOf(d, ds.elements[i].0) != NameOf(d, ds.elements[j].0))
    && forall i :: 0 <= i < |ds.elements| ==> ElementEncodable(d, ds.elements[i].1)
  }

  predicate ElementEncodable(d: Dictionary, e: Element)
    decreases e, 0
  {
    match e.payload
    case Values(_) => e.vr != SQ
    case Items(items) => e.vr == SQ && forall j :: 0 <= j < |items| ==> Encodable(d, items[j])
    case _ => true
  }

  // ---------------------------------------------------------------------
  // The readable document, directly
  // ---------------------------------------------------------------------

  /**
    The readable dict of the first `n` elements of `ds`: one entry per
    kept element, in order, under its readable name.
   */
  function Document(d: Dictionary, ds: Dataset, n: nat, policy: Policy): Fields
    requires n <= |ds.elements|
    decreases ds, 2, n
  {
    if n == 0 then []
    else
      var prev := Document(d, ds, n - 1, policy);
      var (tag, e) := ds.elements[n - 1];
      if KeptBy(d, tag, policy) then prev + [(NameOf(d, tag), Obj(Entry(d, tag, e, policy.skipBinary)))]
      else prev
  }

  /** The whole readable dict of `ds`. */
  function FullDocument(d: Dictionary, ds: Dataset, policy: Policy): Fields
    decreases ds, 3
  {
    Document(d, ds, |ds.elements|, policy)
  }

  /**
    The readable entry of element `e`: its `tag` and `vr`, then the one
    field its payload calls for.
   */
  function Entry(d: Dictionary, tag: string, e: Element, skipBinary: bool): Fields
    decreases e, 2, 0
  {
    [("tag", Str("0x" + tag)), ("vr", Str(e.vr))] + EntryBody(d, e, skipBinary)
  }

  function EntryBody(d: Dictionary, e: Element, skipBinary: bool): Fields
    decreases e, 1, 0
  {
    match e.payload
    case NoValue => []
    case Values(vs) => [("value", FlattenList(List(vs)))]
    case Items(items) => [("value", List(ItemDocuments(d, e, |items|)))]
    case InlineBinary(b) => if skipBinary then [] else [("binary", Str(b))]
    case BulkDataURI(u) => [("uri", Str(u))]
  }

  /** The readable dicts of the first `m` items of SQ element `e`, with the default flags. */
  function ItemDocuments(d: Dictionary, e: Element, m: nat): (docs: seq<Json>)
    requires e.payload.Items? && m <= |e.payload.items|
    decreases e, 0, m
    ensures |docs| == m
    ensures forall j :: 0 <= j < m ==> docs[j] == Obj(FullDocument(d, e.payload.items[j], Defaults))
  {
    if m == 0 then []
    else ItemDocuments(d, e, m - 1) + [Obj(FullDocument(d, e.payload.items[m - 1], Defaults))]
  }

  // ---------------------------------------------------------------------
  // Small facts about field lists
  // ---------------------------------------------------------------------

  /**
    The one-field list `[(name, v)]` when `body` is the one field `(key, v)`
    and `enabled` holds; otherwise empty.
   */
  function Relabel(body: Fields, key: string, name: string, enabled: bool): Fields {
    if body != [] && body[0].0 == key && enabled then [(name, body[0].1)] else []
  }

  /** An element object is its `vr` field followed by its payload's field. */
  lemma ElementFields(e: Element)
    ensures ElementToJson(e).fields == [("vr", Str(e.vr))] + PayloadFields(e.payload)
  {
  }

  lemma ConcatAssoc(a: Fields, b: Fields, c: Fields, e: Fields)
    ensures a + b + c + e == a + (b + c + e)
  {
  }

  /** The `i`-th field is found by its key when no earlier field has that key. */
  lemma GetAt(fs: Fields, i: nat)
    requires i < |fs| && forall j :: 0 <= j < i ==> fs[j].0 != fs[i].0
    ensures fs[i].0 in Keys(fs) && Get(fs, fs[i].0) == Some(fs[i].1) && IndexOf(fs, fs[i].0) == i
  {
    FindPositional(fs, fs[i].0, i);
  }

  // ---------------------------------------------------------------------
  // Encoding
  // ---------------------------------------------------------------------

  /** No later element's name is a key of the document built so far. */
  lemma {:induction false} DocumentFresh(d: Dictionary, ds: Dataset, n: nat, policy: Policy, i: nat)
    requires Encodable(d, ds) && n <= i < |ds.elements|
    ensures NameOf(d, ds.elements[i].0) !in Keys(Document(d, ds, n, policy))
  {
    if n > 0 {
      var m := n - 1;
      DocumentFresh(d, ds, m, policy, i);
      DocumentNext(d, ds, m, n, policy);
      assert NameOf(d, ds.elements[m].0) != NameOf(d, ds.elements[i].0);
    }
  }

  /** The encoder builds `Document` from what pydicom produces. */
  lemma {:induction false} EncodeDocument(d: Dictionary, ds: Dataset, n: nat, policy: Policy)
    requires Encodable(d, ds) && n <= |ds.elements|
    ensures ToReadable(d, ToJsonDict(ds), n, policy) == Ok(Document(d, ds, n, policy))
    decreases ds, 2, n, 2
  {
    if n > 0 {
      var i := n - 1;
      EncodeDocument(d, ds, i, policy);
      EncodeStep(d, ds, i, n, policy);
    }
  }

  /** The encoder's pass over element `i`, the `n`-th. */
  lemma EncodeStep(d: Dictionary, ds: Dataset, i: nat, n: nat, policy: Policy)
    requires Encodable(d, ds) && n == i + 1 <= |ds.elements|
    requires ToReadable(d, ToJsonDict(ds), i, policy) == Ok(Document(d, ds, i, policy))
    ensures ToReadable(d, ToJsonDict(ds), n, policy) == Ok(Document(d, ds, n, policy))
    decreases ds, 2, n, 1
  {
    var dct, prev := ToJsonDict(ds), Document(d, ds, i, policy);
    ToJsonDictAt(ds, i);
    ToReadableNext(d, dct, i, n, prev, policy);
    EncodePass(d, ds, i, n, policy);
  }

  /** The loop body turns the object of element `i` into the next document. */
  lemma EncodePass(d: Dictionary, ds: Dataset, i: nat, n: nat, policy: Policy)
    requires Encodable(d, ds) && n == i + 1 <= |ds.elements|
    ensures ReadableStep(d, ds.elements[i].0, ElementToJson(ds.elements[i].1), Document(d, ds, i, policy), policy)
            == Ok(Document(d, ds, n, policy))
    decreases ds, 2, n, 0
  {
    var tag, e := ds.elements[i].0, ds.elements[i].1;
    DocumentNext(d, ds, i, n, policy);
    GetAt(ElementToJson(e).fields, 0);
    if KeptBy(d, tag, policy) {
      DocumentFresh(d, ds, i, policy, i);
      AppendEncoded(Document(d, ds, i, policy), NameOf(d, tag), Obj(Entry(d, tag, e, policy.skipBinary)));
      EncodeElement(d, tag, e, policy.skipBinary);
    }
  }

  /** Item `i` of the rendered dict is element `i`'s key and object. */
  lemma ToJsonDictAt(ds: Dataset, i: nat)
    requires i < |ds.elements|
    ensures ToJsonDict(ds)[i] == (ds.elements[i].0, ElementToJson(ds.elements[i].1))
  {
  }

  /** Assigning a new key appends it. */
  lemma AppendEncoded(prev: Fields, name: string, entry: Json)
    requires name !in Keys(prev)
    ensures Put(prev, name, entry) == prev + [(name, entry)]
  {
  }

  /** `CopyAs` on an element object: present exactly when the payload is that field. */
  lemma CopyAsPayload(e: Element, key: string, name: string, enabled: bool)
    requires key == "InlineBinary" || key == "BulkDataURI"
    ensures CopyAs(ElementToJson(e).fields, key, name, enabled) == Relabel(PayloadFields(e.payload), key, name, enabled)
  {
    var fs := ElementToJson(e).fields;
    var body := PayloadFields(e.payload);
    ElementFields(e);
    assert "vr"[0] != key[0];
    if body == [] {
      assert Keys(fs) == ["vr"];
      assert key !in Keys(fs);
    } else {
      assert fs == [("vr", Str(e.vr)), body[0]];
      assert Keys(fs) == ["vr", body[0].0];
      if body[0].0 == key {
        GetAt(fs, 1);
        assert At(fs, key) == body[0].1;
      } else {
        assert key !in Keys(fs);
      }
    }
  }

  /** One element object becomes its readable entry. */
  lemma EncodeElement(d: Dictionary, tag: string, e: Element, skipBinary: bool)
    requires ElementEncodable(d, e)
    ensures ReadableElement(d, tag, ElementToJson(e), Str(e.vr), skipBinary) == Ok(Entry(d, tag, e, skipBinary))
    decreases e, 1, 0
  {
    FieldNamesDiffer();
    var elm := ElementToJson(e);
    var vr := Str(e.vr);
    CopyAsPayload(e, "InlineBinary", "binary", !skipBinary);
    CopyAsPayload(e, "BulkDataURI", "uri", true);
    var value := EncodeValue(d, e);
    var binary := CopyAs(elm.fields, "InlineBinary", "binary", !skipBinary);
    var uri := CopyAs(elm.fields, "BulkDataURI", "uri", true);
    EntryBodyParts(d, e, skipBinary);
    var head := [("tag", Str("0x" + tag)), ("vr", vr)];
    assert ReadableElement(d, tag, elm, vr, skipBinary) == Ok(head + value + binary + uri);
    ConcatAssoc(head, value, binary, uri);
  }

  /** An entry's body is its `value`, `binary` and `uri` parts, at most one of them present. */
  lemma EntryBodyParts(d: Dictionary, e: Element, skipBinary: bool)
    ensures EntryBody(d, e, skipBinary)
            == (if e.payload.Values? || e.payload.Items? then EntryBody(d, e, false) else [])
               + Relabel(PayloadFields(e.payload), "InlineBinary", "binary", !skipBinary)
               + Relabel(PayloadFields(e.payload), "BulkDataURI", "uri", true)
  {
    FieldNamesDiffer();
  }

  /** The `value` part of `Entry`, which `ReadableValue` yields on the element object. */
  lemma EncodeValue(d: Dictionary, e: Element) returns (value: Fields)
    requires ElementEncodable(d, e)
    ensures ReadableValue(d, ElementToJson(e), Str(e.vr)) == Ok(value)
    ensures value == if e.payload.Values? || e.payload.Items? then EntryBody(d, e, false) else []
    decreases e, 0, |ElementToJson(e).fields| + 1 + (if e.payload.Items? then |e.payload.items| else 0)
  {
    FieldNamesDiffer();
    var elm := ElementToJson(e);
    var vr := Str(e.vr);
    var body := PayloadFields(e.payload);
    ElementFields(e);
    assert Keys(elm.fields) == ["vr"] + Keys(body);
    match e.payload
    case Values(vs) =>
      GetAt(elm.fields, 1);
      value := [("value", FlattenList(List(vs)))];
    case Items(items) =>
      GetAt(elm.fields, 1);
      EncodeItems(d, e, |items|);
      value := [("value", List(ItemDocuments(d, e, |items|)))];
    case _ =>
      value := [];
  }

  /** The `Value` of an SQ element object: its items as JSON-model dicts. */
  function ItemsJson(e: Element): (value: Json)
    requires e.payload.Items?
    ensures value.List? && |value.items| == |e.payload.items|
    ensures forall j :: 0 <= j < |value.items| ==> value.items[j] == Obj(ToJsonDict(e.payload.items[j]))
    ensures ElementToJson(e).fields == [("vr", Str(e.vr)), ("Value", value)]
  {
    PayloadFields(e.payload)[0].1
  }

  /** The items of an SQ element become their readable dicts, in order. */
  lemma {:induction false} EncodeItems(d: Dictionary, e: Element, m: nat)
    requires ElementEncodable(d, e) && e.payload.Items? && m <= |e.payload.items|
    ensures ReadableItems(d, ItemsJson(e), ItemsJson(e).items, m) == Ok(ItemDocuments(d, e, m))
    decreases e, 0, m
  {
    if m > 0 {
      var j := m - 1;
      EncodeItems(d, e, j);
      var item := e.payload.items[j];
      EncodeDocument(d, item, |item.elements|, Defaults);
      assert ItemsJson(e).items[j] == Obj(ToJsonDict(item));
      ReadableItemsNext(d, ItemsJson(e), ItemsJson(e).items, j, m, ItemDocuments(d, e, j));
    }
  }

  // ---------------------------------------------------------------------
  // Decoding
  // ---------------------------------------------------------------------

  /**
    The JSON-model elements the decoder rebuilds from the readable dict of
    the first `n` elements of `ds`, encoded with flags `enc` and decoded
    with flags `dec`: the entries both directions keep, under their
    readable names, with nested items renamed the same way and an
    inline binary payload gone when either direction skips binaries.
   */
  function Restored(d: Dictionary, ds: Dataset, n: nat, enc: Policy, dec: Policy): seq<(string, Element)>
    requires n <= |ds.elements|
    decreases ds, 2, n
  {
    if n == 0 then []
    else
      var prev := Restored(d, ds, n - 1, enc, dec);
      var (tag, e) := ds.elements[n - 1];
      if KeptBy(d, tag, enc) && ResolvedBy(d, NameOf(d, tag), dec)
      then prev + [(NameOf(d, tag), RestoredElement(d, e, enc.skipBinary || dec.skipBinary))]
      else prev
  }

  /** `ds` with every key, at every level, replaced by its readable name. */
  function Renamed(d: Dictionary, ds: Dataset): Dataset
    decreases ds, 3, 0
  {
    Dataset(Restored(d, ds, |ds.elements|, Defaults, Defaults))
  }

  /** One element as the decoder rebuilds it. */
  function RestoredElement(d: Dictionary, e: Element, dropBinary: bool): Element
    decreases e, 1, 0
  {
    match e.payload
    case Items(items) => Element(e.vr, Items(RenamedItems(d, e, |items|)))
    case InlineBinary(_) => if dropBinary then Element(e.vr, NoValue) else e
    case _ => e
  }

  /** The first `m` items of SQ element `e`, renamed. */
  function RenamedItems(d: Dictionary, e: Element, m: nat): (items: seq<Dataset>)
    requires e.payload.Items? && m <= |e.payload.items|
    decreases e, 0, m
    ensures |items| == m
    ensures forall j :: 0 <= j < m ==> items[j] == Renamed(d, e.payload.items[j])
  {
    if m == 0 then [] else RenamedItems(d, e, m - 1) + [Renamed(d, e.payload.items[m - 1])]
  }

  /** The first `m` renamed items of SQ element `e`, as JSON-model dicts. */
  function RenamedItemsJson(d: Dictionary, e: Element, m: nat): (js: seq<Json>)
    requires e.payload.Items? && m <= |e.payload.items|
    decreases m
    ensures |js| == m
    ensures forall j :: 0 <= j < m ==> js[j] == Obj(ToJsonDict(Renamed(d, e.payload.items[j])))
  {
    if m == 0 then [] else RenamedItemsJson(d, e, m - 1) + [Obj(ToJsonDict(Renamed(d, e.payload.items[m - 1])))]
  }

  /** `_readable_to_json_dict` only looks at the items before the one it is on. */
  lemma {:induction false} FromReadablePrefix(d: Dictionary, a: Fields, c: Fields, k: nat, policy: Policy)
    requires k <= |a| && k <= |c| && a[..k] == c[..k]
    ensures FromReadable(d, c, k, policy) == FromReadable(d, a, k, policy)
  {
    if k > 0 {
      var j := k - 1;
      assert a[..j] == a[..k][..j] && c[..j] == c[..k][..j];
      assert a[j] == a[..k][j] && c[j] == c[..k][j];
      FromReadablePrefix(d, a, c, j, policy);
      FromReadableSame(d, a, c, j, k, policy);
    }
  }

  /** One more pass over equal items keeps two runs of the loop equal. */
  lemma FromReadableSame(d: Dictionary, a: Fields, c: Fields, j: nat, k: nat, policy: Policy)
    requires k == j + 1 <= |a| && k <= |c| && a[j] == c[j]
    requires FromReadable(d, c, j, policy) == FromReadable(d, a, j, policy)
    ensures FromReadable(d, c, k, policy) == FromReadable(d, a, k, policy)
  {
    if FromReadable(d, a, j, policy).Err? {
      FromReadableStuck(d, a, j, k, policy);
      FromReadableStuck(d, c, j, k, policy);
    } else {
      var ret := FromReadable(d, a, j, policy).value;
      FromReadableNext(d, a, j, k, ret, policy);
      FromReadableNext(d, c, j, k, ret, policy);
    }
  }

  /** Rendering a dataset extended by one element extends its dict by one item. */
  lemma ToJsonDictSnoc(els: seq<(string, Element)>, x: (string, Element))
    ensures ToJsonDict(Dataset(els + [x])) == ToJsonDict(Dataset(els)) + [(x.0, ElementToJson(x.1))]
  {
    var l := ToJsonDict(Dataset(els + [x]));
    var r := ToJsonDict(Dataset(els)) + [(x.0, ElementToJson(x.1))];
    assert |l| == |r|;
    forall i | 0 <= i < |l| ensures l[i] == r[i] {
      if i < |els| {
        assert (els + [x])[i] == els[i];
      }
    }
  }

  /** No later element's name is a key of what the decoder has rebuilt so far. */
  lemma {:induction false} RestoredFresh(d: Dictionary, ds: Dataset, n: nat, enc: Policy, dec: Policy, i: nat)
    requires Encodable(d, ds) && n <= i < |ds.elements|
    ensures NameOf(d, ds.elements[i].0) !in Keys(Restored(d, ds, n, enc, dec))
  {
    if n > 0 {
      var m := n - 1;
      RestoredFresh(d, ds, m, enc, dec, i);
      RestoredNext(d, ds, m, n, enc, dec);
      assert NameOf(d, ds.elements[m].0) != NameOf(d, ds.elements[i].0);
    }
  }

  /** `_readable_to_json_dict` over all of `doc`. */
  function Decoded(d: Dictionary, doc: Fields, dec: Policy): Result<Fields, PyError> {
    FromReadable(d, doc, |doc|, dec)
  }

  /** The decoder rebuilds `Restored` from the readable dict `Document`. */
  lemma {:induction false} DecodeDocument(d: Dictionary, ds: Dataset, n: nat, enc: Policy, dec: Policy)
    requires Encodable(d, ds) && n <= |ds.elements|
    ensures Decoded(d, Document(d, ds, n, enc), dec) == Ok(ToJsonDict(Dataset(Restored(d, ds, n, enc, dec))))
    decreases ds, 2, n, 2
  {
    if n > 0 {
      var i := n - 1;
      DecodeDocument(d, ds, i, enc, dec);
      if KeptBy(d, ds.elements[i].0, enc) {
        DecodeStep(d, ds, i, n, enc, dec);
      } else {
        DocumentNext(d, ds, i, n, enc);
        RestoredNext(d, ds, i, n, enc, dec);
      }
    }
  }

  /** The decoder's pass over the entry of element `i`, the `n`-th. */
  lemma DecodeStep(d: Dictionary, ds: Dataset, i: nat, n: nat, enc: Policy, dec: Policy)
    requires Encodable(d, ds) && n == i + 1 <= |ds.elements| && KeptBy(d, ds.elements[i].0, enc)
    requires Decoded(d, Document(d, ds, i, enc), dec) == Ok(ToJsonDict(Dataset(Restored(d, ds, i, enc, dec))))
    ensures Decoded(d, Document(d, ds, n, enc), dec) == Ok(ToJsonDict(Dataset(Restored(d, ds, n, enc, dec))))
    decreases ds, 2, n, 1
  {
    var tag := ds.elements[i].0;
    var prev := Document(d, ds, i, enc);
    var entry := Obj(Entry(d, tag, ds.elements[i].1, enc.skipBinary));
    DocumentNext(d, ds, i, n, enc);
    if ResolvedBy(d, NameOf(d, tag), dec) {
      DecodeKept(d, ds, i, n, enc, dec);
    } else {
      RestoredNext(d, ds, i, n, enc, dec);
      SkipDecoded(d, prev, NameOf(d, tag), entry, ToJsonDict(Dataset(Restored(d, ds, i, enc, dec))), dec);
    }
  }

  /** The decoder's pass over the entry of element `i`, the `n`-th, when it keeps that entry. */
  lemma DecodeKept(d: Dictionary, ds: Dataset, i: nat, n: nat, enc: Policy, dec: Policy)
    requires Encodable(d, ds) && n == i + 1 <= |ds.elements| && KeptBy(d, ds.elements[i].0, enc)
    requires ResolvedBy(d, NameOf(d, ds.elements[i].0), dec)
    requires Decoded(d, Document(d, ds, i, enc), dec) == Ok(ToJsonDict(Dataset(Restored(d, ds, i, enc, dec))))
    ensures Decoded(d, Document(d, ds, i, enc)
                       + [(NameOf(d, ds.elements[i].0), Obj(Entry(d, ds.elements[i].0, ds.elements[i].1, enc.skipBinary)))], dec)
            == Ok(ToJsonDict(Dataset(Restored(d, ds, n, enc, dec))))
    decreases ds, 2, n, 0
  {
    var tag, e := ds.elements[i].0, ds.elements[i].1;
    RestoredNext(d, ds, i, n, enc, dec);
    DecodeEntry(d, tag, e, enc.skipBinary, dec.skipBinary);
    RestoredFresh(d, ds, i, enc, dec, i);
    AppendDecoded(d, Document(d, ds, i, enc), NameOf(d, tag), Obj(Entry(d, tag, e, enc.skipBinary)),
                  Restored(d, ds, i, enc, dec), RestoredElement(d, e, enc.skipBinary || dec.skipBinary), dec);
  }

  /** Element `i` adds its entry to the readable dict of the first `n = i + 1` elements when it is kept. */
  lemma DocumentNext(d: Dictionary, ds: Dataset, i: nat, n: nat, policy: Policy)
    requires n == i + 1 <= |ds.elements|
    ensures Document(d, ds, n, policy)
            == if KeptBy(d, ds.elements[i].0, policy)
               then Document(d, ds, i, policy)
                    + [(NameOf(d, ds.elements[i].0), Obj(Entry(d, ds.elements[i].0, ds.elements[i].1, policy.skipBinary)))]
               else Document(d, ds, i, policy)
  {
  }

  /** Element `i` adds its rebuilt element to `Restored` when both directions keep it. */
  lemma RestoredNext(d: Dictionary, ds: Dataset, i: nat, n: nat, enc: Policy, dec: Policy)
    requires n == i + 1 <= |ds.elements|
    ensures Restored(d, ds, n, enc, dec)
            == if KeptBy(d, ds.elements[i].0, enc) && ResolvedBy(d, NameOf(d, ds.elements[i].0), dec)
               then Restored(d, ds, i, enc, dec)
                    + [(NameOf(d, ds.elements[i].0), RestoredElement(d, ds.elements[i].1, enc.skipBinary || dec.skipBinary))]
               else Restored(d, ds, i, enc, dec)
  {
  }

  /** A readable dict extended by an entry the decoder keeps. */
  lemma AppendDecoded(d: Dictionary, prev: Fields, name: string, entry: Json,
                      els: seq<(string, Element)>, restored: Element, dec: Policy)
    requires Decoded(d, prev, dec) == Ok(ToJsonDict(Dataset(els)))
    requires name !in Keys(els) && ResolvedBy(d, name, dec)
    requires JsonElement(d, entry, dec.skipBinary) == Ok(ElementToJson(restored).fields)
    ensures Decoded(d, prev + [(name, entry)], dec) == Ok(ToJsonDict(Dataset(els + [(name, restored)])))
  {
    var ret := ToJsonDict(Dataset(els));
    DecodedSnoc(d, prev, name, entry, ret, dec);
    assert JsonStep(d, name, entry, ret, dec) == Ok(Put(ret, name, ElementToJson(restored)));
    ToJsonDictSnoc(els, (name, restored));
  }

  /** A readable dict extended by an entry the decoder skips. */
  lemma SkipDecoded(d: Dictionary, prev: Fields, name: string, entry: Json, ret: Fields, dec: Policy)
    requires Decoded(d, prev, dec) == Ok(ret) && !ResolvedBy(d, name, dec)
    ensures Decoded(d, prev + [(name, entry)], dec) == Ok(ret)
  {
    DecodedSnoc(d, prev, name, entry, ret, dec);
  }

  /** Decoding a readable dict extended by one entry is one more pass of the loop. */
  lemma DecodedSnoc(d: Dictionary, prev: Fields, name: string, entry: Json, ret: Fields, dec: Policy)
    requires Decoded(d, prev, dec) == Ok(ret)
    ensures Decoded(d, prev + [(name, entry)], dec) == JsonStep(d, name, entry, ret, dec)
  {
    var doc := prev + [(name, entry)];
    assert doc[..|prev|] == prev[..|prev|];
    FromReadablePrefix(d, prev, doc, |prev|, dec);
    assert doc[|prev|] == (name, entry);
    FromReadableNext(d, doc, |prev|, |doc|, ret, dec);
  }

  /** `CopyField` on a dict: the field under its new name, when present and enabled. */
  lemma CopyFieldObj(fs: Fields, key: string, name: string, enabled: bool)
    ensures CopyField(Obj(fs), key, name, enabled)
            == if key in Keys(fs) && enabled then Ok([(name, At(fs, key))]) else Ok([])
  {
  }

  /** The fields of an entry: `tag`, `vr`, then at most one more, each found by its key. */
  lemma EntryLookup(d: Dictionary, tag: string, e: Element, skipBinary: bool)
    ensures |EntryBody(d, e, skipBinary)| <= 1
    ensures Keys(Entry(d, tag, e, skipBinary)) == ["tag", "vr"] + Keys(EntryBody(d, e, skipBinary))
    ensures At(Entry(d, tag, e, skipBinary), "vr") == Str(e.vr)
    ensures EntryBody(d, e, skipBinary) != [] ==>
              EntryBody(d, e, skipBinary)[0].0 == (if e.payload.Values? || e.payload.Items? then "value"
                                                   else if e.payload.InlineBinary? then "binary" else "uri")
    ensures EntryBody(d, e, skipBinary) != [] ==>
              At(Entry(d, tag, e, skipBinary), EntryBody(d, e, skipBinary)[0].0) == EntryBody(d, e, skipBinary)[0].1
  {
    FieldNamesDiffer();
    var fs := Entry(d, tag, e, skipBinary);
    var body := EntryBody(d, e, skipBinary);
    assert Keys(fs) == ["tag", "vr"] + Keys(body);
    GetAt(fs, 1);
    if body != [] {
      GetAt(fs, 2);
    }
  }

  /** The readable entry of an element becomes its JSON-model object again. */
  lemma DecodeEntry(d: Dictionary, tag: string, e: Element, skipBinaryEnc: bool, skipBinaryDec: bool)
    requires ElementEncodable(d, e)
    ensures JsonElement(d, Obj(Entry(d, tag, e, skipBinaryEnc)), skipBinaryDec)
            == Ok(ElementToJson(RestoredElement(d, e, skipBinaryEnc || skipBinaryDec)).fields)
    decreases e, 1, 0
  {
    var fs := Entry(d, tag, e, skipBinaryEnc);
    EntryLookup(d, tag, e, skipBinaryEnc);
    CopyFieldObj(fs, "vr", "vr", true);
    var vr := [("vr", Str(e.vr))];
    var value := DecodeValue(d, tag, e, skipBinaryEnc);
    var binary := CopyFieldEntry(d, tag, e, skipBinaryEnc, "binary", "InlineBinary", !skipBinaryDec);
    var uri := CopyFieldEntry(d, tag, e, skipBinaryEnc, "uri", "BulkDataURI", true);
    JsonElementOk(d, Obj(fs), skipBinaryDec, vr, value, binary, uri);
    RestoredBody(d, e, skipBinaryEnc, skipBinaryDec);
    ElementFields(RestoredElement(d, e, skipBinaryEnc || skipBinaryDec));
    ConcatAssoc(vr, value, binary, uri);
  }

  /** `JsonElement` assembled from the results of its four steps. */
  lemma JsonElementOk(d: Dictionary, elm: Json, skipBinary: bool, vr: Fields, value: Fields, binary: Fields, uri: Fields)
    requires IsContainer(elm)
    requires CopyField(elm, "vr", "vr", true) == Ok(vr)
    requires (if Has(elm, "value") then JsonValue(d, elm, vr) else Ok([])) == Ok(value)
    requires CopyField(elm, "binary", "InlineBinary", !skipBinary) == Ok(binary)
    requires CopyField(elm, "uri", "BulkDataURI", true) == Ok(uri)
    ensures JsonElement(d, elm, skipBinary) == Ok(vr + value + binary + uri)
  {
  }

  /** `CopyField` on an entry: present exactly when the entry's body is that field. */
  lemma CopyFieldEntry(d: Dictionary, tag: string, e: Element, skipBinary: bool, key: string, name: string, enabled: bool)
    returns (field: Fields)
    requires key == "binary" || key == "uri"
    ensures CopyField(Obj(Entry(d, tag, e, skipBinary)), key, name, enabled) == Ok(field)
    ensures field == Relabel(EntryBody(d, e, skipBinary), key, name, enabled)
  {
    var fs := Entry(d, tag, e, skipBinary);
    var body := EntryBody(d, e, skipBinary);
    EntryLookup(d, tag, e, skipBinary);
    CopyFieldObj(fs, key, name, enabled);
    assert "tag"[0] != key[0] && "vr"[0] != key[0];
    if body == [] {
      assert Keys(fs) == ["tag", "vr"];
    } else {
      assert Keys(fs) == ["tag", "vr", body[0].0];
    }
    field := if body != [] && body[0].0 == key && enabled then [(name, body[0].1)] else [];
  }

  /** The payload field of a restored element, as the three parts the decoder copies. */
  lemma RestoredBody(d: Dictionary, e: Element, skipBinaryEnc: bool, skipBinaryDec: bool)
    ensures PayloadFields(RestoredElement(d, e, skipBinaryEnc || skipBinaryDec).payload)
            == (if e.payload.Values? || e.payload.Items? then PayloadFields(RestoredElement(d, e, false).payload) else [])
               + Relabel(EntryBody(d, e, skipBinaryEnc), "binary", "InlineBinary", !skipBinaryDec)
               + Relabel(EntryBody(d, e, skipBinaryEnc), "uri", "BulkDataURI", true)
  {
    FieldNamesDiffer();
  }

  /** The `Value` field the decoder rebuilds from an entry's `value`. */
  lemma DecodeValue(d: Dictionary, tag: string, e: Element, skipBinary: bool) returns (value: Fields)
    requires ElementEncodable(d, e)
    ensures (if Has(Obj(Entry(d, tag, e, skipBinary)), "value")
             then JsonValue(d, Obj(Entry(d, tag, e, skipBinary)), [("vr", Str(e.vr))]) else Ok([])) == Ok(value)
    ensures value == if e.payload.Values? || e.payload.Items? then PayloadFields(RestoredElement(d, e, false).payload) else []
    decreases e, 0, (if e.payload.Items? then |e.payload.items| else 0) + 2
  {
    var fs := Entry(d, tag, e, skipBinary);
    EntryLookup(d, tag, e, skipBinary);
    if e.payload.Values? {
      value := DecodeValues(d, tag, e, skipBinary);
    } else if e.payload.Items? {
      value := DecodeSq(d, tag, e, skipBinary);
      RenamedPayload(d, e);
    } else {
      FieldNamesDiffer();
      assert "value" !in Keys(fs);
      value := [];
    }
  }

  /** The `value` of a plain element decodes to its values, wrapped back into a list. */
  lemma DecodeValues(d: Dictionary, tag: string, e: Element, skipBinary: bool) returns (value: Fields)
    requires ElementEncodable(d, e) && e.payload.Values?
    ensures "value" in Keys(Entry(d, tag, e, skipBinary))
    ensures JsonValue(d, Obj(Entry(d, tag, e, skipBinary)), [("vr", Str(e.vr))]) == Ok(value)
    ensures value == [("Value", List(e.payload.values))]
  {
    var fs := Entry(d, tag, e, skipBinary);
    EntryLookup(d, tag, e, skipBinary);
    WrapFlattenList(List(e.payload.values));
    assert Str(e.vr) != SqVr;
    value := [("Value", List(e.payload.values))];
  }

  /** The `value` of an SQ element decodes to its renamed items. */
  lemma DecodeSq(d: Dictionary, tag: string, e: Element, skipBinary: bool) returns (value: Fields)
    requires ElementEncodable(d, e) && e.payload.Items?
    ensures "value" in Keys(Entry(d, tag, e, skipBinary))
    ensures JsonValue(d, Obj(Entry(d, tag, e, skipBinary)), [("vr", Str(e.vr))]) == Ok(value)
    ensures value == [("Value", List(RenamedItemsJson(d, e, |e.payload.items|)))]
    decreases e, 0, |e.payload.items| + 1
  {
    var fs := Entry(d, tag, e, skipBinary);
    var docs := ItemDocuments(d, e, |e.payload.items|);
    EntryLookup(d, tag, e, skipBinary);
    assert EntryBody(d, e, skipBinary) == [("value", List(docs))];
    assert fs[IndexOf(fs, "value")].1 == At(fs, "value") == List(docs);
    assert GetItem(Obj(fs), "value").Ok? && Str(e.vr) == SqVr;
    DecodeItems(d, e, |e.payload.items|);
    assert JsonItems(d, List(docs), docs, |docs|) == Ok(RenamedItemsJson(d, e, |e.payload.items|));
    value := [("Value", List(RenamedItemsJson(d, e, |e.payload.items|)))];
  }

  /** The payload of a renamed SQ element, as a JSON-model list. */
  lemma RenamedPayload(d: Dictionary, e: Element)
    requires e.payload.Items?
    ensures PayloadFields(RestoredElement(d, e, false).payload)
            == [("Value", List(RenamedItemsJson(d, e, |e.payload.items|)))]
  {
    var its := RenamedItems(d, e, |e.payload.items|);
    assert seq(|its|, j requires 0 <= j < |its| => Obj(ToJsonDict(its[j])))
        == RenamedItemsJson(d, e, |e.payload.items|);
  }

  /** The readable items of an SQ element decode to its renamed items. */
  lemma {:induction false} DecodeItems(d: Dictionary, e: Element, m: nat)
    requires ElementEncodable(d, e) && e.payload.Items? && m <= |e.payload.items|
    ensures JsonItems(d, List(ItemDocuments(d, e, |e.payload.items|)), ItemDocuments(d, e, |e.payload.items|), m)
            == Ok(RenamedItemsJson(d, e, m))
    decreases e, 0, m
  {
    if m > 0 {
      DecodeItems(d, e, m - 1);
      var item := e.payload.items[m - 1];
      DecodeDocument(d, item, |item.elements|, Defaults, Defaults);
    }
  }

  // ---------------------------------------------------------------------
  // The round trip
  // ---------------------------------------------------------------------

  /**
    Encoding what pydicom produces never fails and yields `FullDocument`;
    decoding that yields the JSON-model dict of `Restored`: the elements
    both directions keep, under their readable names.
   */
  lemma RoundTrip(d: Dictionary, ds: Dataset, enc: Policy, dec: Policy)
    requires Encodable(d, ds)
    ensures ToReadable(d, ToJsonDict(ds), |ToJsonDict(ds)|, enc) == Ok(FullDocument(d, ds, enc))
    ensures Decoded(d, FullDocument(d, ds, enc), dec) == Ok(ToJsonDict(Dataset(Restored(d, ds, |ds.elements|, enc, dec))))
  {
    EncodeDocument(d, ds, |ds.elements|, enc);
    DecodeDocument(d, ds, |ds.elements|, enc, dec);
  }

  /** With the default flags in both directions, the trip only renames keys. */
  lemma RoundTripDefaults(d: Dictionary, ds: Dataset)
    requires Encodable(d, ds)
    ensures Decoded(d, FullDocument(d, ds, Defaults), Defaults) == Ok(ToJsonDict(Renamed(d, ds)))
  {
    RoundTrip(d, ds, Defaults, Defaults);
  }

  /** With the default flags every element is restored, in order, under its readable name. */
  lemma {:induction false} RestoredDefaults(d: Dictionary, ds: Dataset, n: nat)
    requires n <= |ds.elements|
    ensures |Restored(d, ds, n, Defaults, Defaults)| == n
    ensures forall i :: 0 <= i < n ==> Restored(d, ds, n, Defaults, Defaults)[i]
                                       == (NameOf(d, ds.elements[i].0), RestoredElement(d, ds.elements[i].1, false))
  {
    if n > 0 {
      RestoredDefaults(d, ds, n - 1);
    }
  }

  /**
    `Renamed` changes keys only: the same number of elements in the same
    order, each under the readable name of its key, with the same `vr` and
    the same payload, except that the items of a sequence are renamed the
    same way.
   */
  lemma RenamedShape(d: Dictionary, ds: Dataset)
    ensures |Renamed(d, ds).elements| == |ds.elements|
    ensures forall i :: 0 <= i < |ds.elements| ==> Renamed(d, ds).elements[i].0 == NameOf(d, ds.elements[i].0)
    ensures forall i :: 0 <= i < |ds.elements| ==> Renamed(d, ds).elements[i].1.vr == ds.elements[i].1.vr
    ensures forall i :: 0 <= i < |ds.elements| && !ds.elements[i].1.payload.Items? ==>
              Renamed(d, ds).elements[i].1 == ds.elements[i].1
    ensures forall i :: 0 <= i < |ds.elements| && ds.elements[i].1.payload.Items? ==>
              Renamed(d, ds).elements[i].1.payload
              == Items(seq(|ds.elements[i].1.payload.items|, j requires 0 <= j < |ds.elements[i].1.payload.items| =>
                             Renamed(d, ds.elements[i].1.payload.items[j])))
  {
    RestoredDefaults(d, ds, |ds.elements|);
  }

  /**
    The filtering is exact: an element is restored iff the encoder keeps
    it (it has a keyword or `skip_nonstd` is off) and the decoder keeps its
    readable name (it names a tag or `skip_nonstd` is off).
   */
  lemma {:induction false} RestoredKeys(d: Dictionary, ds: Dataset, n: nat, enc: Policy, dec: Policy)
    requires n <= |ds.elements|
    ensures forall k :: k in Keys(Restored(d, ds, n, enc, dec)) <==>
              exists i :: 0 <= i < n && KeptBy(d, ds.elements[i].0, enc)
                          && ResolvedBy(d, NameOf(d, ds.elements[i].0), dec) && NameOf(d, ds.elements[i].0) == k
  {
    if n > 0 {
      RestoredKeys(d, ds, n - 1, enc, dec);
      var tag := ds.elements[n - 1].0;
      var prev := Restored(d, ds, n - 1, enc, dec);
      var r := Restored(d, ds, n, enc, dec);
      if KeptBy(d, tag, enc) && ResolvedBy(d, NameOf(d, tag), dec) {
        KeysConcat(prev, [(NameOf(d, tag), RestoredElement(d, ds.elements[n - 1].1, enc.skipBinary || dec.skipBinary))]);
        assert Keys(r) == Keys(prev) + [NameOf(d, tag)];
      } else {
        assert r == prev;
      }
      forall i | 0 <= i < n && KeptBy(d, ds.elements[i].0, enc) && ResolvedBy(d, NameOf(d, ds.elements[i].0), dec)
        ensures NameOf(d, ds.elements[i].0) in Keys(r)
      {
        if i < n - 1 {
          assert NameOf(d, ds.elements[i].0) in Keys(prev);
        }
      }
      forall k | k in Keys(r)
        ensures exists i :: 0 <= i < n && KeptBy(d, ds.elements[i].0, enc)
                            && ResolvedBy(d, NameOf(d, ds.elements[i].0), dec) && NameOf(d, ds.elements[i].0) == k
      {
        if !(KeptBy(d, tag, enc) && ResolvedBy(d, NameOf(d, tag), dec) && NameOf(d, tag) == k) {
          assert k in Keys(prev);
        }
      }
    }
  }

  /** When either direction skips binaries, no restored element at the top level holds inline binary data. */
  lemma {:induction false} RestoredNoBinary(d: Dictionary, ds: Dataset, n: nat, enc: Policy, dec: Policy)
    requires n <= |ds.elements| && (enc.skipBinary || dec.skipBinary)
    ensures forall i :: 0 <= i < |Restored(d, ds, n, enc, dec)| ==> !Restored(d, ds, n, enc, dec)[i].1.payload.InlineBinary?
  {
    if n > 0 {
      RestoredNoBinary(d, ds, n - 1, enc, dec);
    }
  }
}
