/**
  The DICOM JSON Model (DICOM PS3.18, Annex F) in the shape pydicom's
  `Dataset.to_json_dict` produces and `Dataset.from_json` consumes: a dict
  from a tag key to an element object whose first field is `vr`, followed
  by at most one of `Value`, `InlineBinary` or `BulkDataURI`.

  The typed `Dataset` below is that output before it is rendered as a
  Python value; `ToJsonDict` renders it. The codec itself works on the
  rendered `Json` values; the typed view is what the round-trip theorems
  quantify over.
 */
module DicomJson {
  import opened PyDict
  import opened PyJson

  /** What an element carries besides its value representation. */
  datatype Payload =
    | NoValue                         // an empty element: only `vr`
    | Values(values: seq<Json>)       // `Value` of a non-sequence element
    | Items(items: seq<Dataset>)      // `Value` of an SQ element: its nested datasets
    | InlineBinary(base64: string)    // `InlineBinary`
    | BulkDataURI(uri: string)        // `BulkDataURI`

  datatype Element = Element(vr: string, payload: Payload)

  /** Elements keyed by the JSON-model tag key, in the order of the dict. */
  datatype Dataset = Dataset(elements: seq<(string, Element)>)

  const SQ: string := "SQ"

  /** `to_json_dict()`: the dataset as the Python dict the codec receives. */
  function ToJsonDict(ds: Dataset): (fs: Fields)
    decreases ds, 2
    ensures |fs| == |ds.elements|
    ensures forall i :: 0 <= i < |fs| ==> fs[i].0 == ds.elements[i].0
    ensures Keys(fs) == Keys(ds.elements)
  {
    var fs := seq(|ds.elements|, i requires 0 <= i < |ds.elements| =>
                (ds.elements[i].0, ElementToJson(ds.elements[i].1)));
    assert Keys(fs) == Keys(ds.elements);
    fs
  }

  /** One element object: `vr` first, then the field its payload calls for. */
  function ElementToJson(e: Element): (j: Json)
    decreases e, 1
    ensures j.Obj? && |j.fields| >= 1 && j.fields[0] == ("vr", Str(e.vr))
    ensures ("Value" in Keys(j.fields)) <==> (e.payload.Values? || e.payload.Items?)
  {
    var body := PayloadFields(e.payload);
    var fs := [("vr", Str(e.vr))] + body;
    assert Keys(fs) == ["vr"] + Keys(body);
    Obj(fs)
  }

  /** The field an element object carries after `vr`: none, or exactly one. */
  function PayloadFields(p: Payload): (body: Fields)
    decreases p, 0
    ensures p.NoValue? <==> body == []
    ensures body != [] ==> |body| == 1 && Keys(body) == [body[0].0]
    ensures body != [] ==> body[0].0 == (if p.InlineBinary? then "InlineBinary"
                                         else if p.BulkDataURI? then "BulkDataURI" else "Value")
  {
    match p
    case NoValue => []
    case Values(vs) => [("Value", List(vs))]
    case Items(items) => [("Value", List(seq(|items|, j requires 0 <= j < |items| => Obj(ToJsonDict(items[j])))))]
    case InlineBinary(b) => [("InlineBinary", Str(b))]
    case BulkDataURI(u) => [("BulkDataURI", Str(u))]
  }
}
