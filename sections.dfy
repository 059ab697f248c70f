/**
  The dump document of `dicom_tools/_dicom_dump.py`: the dict with an
  `info` text, the readable `file_meta` section and the readable `data`
  section (`_to_dump_dict`), and its disassembly into the two JSON-model
  dicts that pydicom's `from_json` receives (`_from_dump_dict`).

  pydicom's `to_json_dict` and `from_json` are outside the model: the
  encoder receives the two JSON-model dicts it would produce, and the
  decoder returns the two dicts it would be given.
 */
module DumpSections {
  import opened Wrappers
  import opened PyDict
  import opened PyJson
  import opened Tags
  import opened Dump

  /** The fixed text `_to_dump_dict` stores under `info`. */
  const Info: string :=
    "This file was created by package dicom_tools. It can be read as a DICOM dataset using "
    + "from_yaml() or from_json(). An element can be addressed using its keyword string or "
    + "hexadecimal representation. Example: the element (0008, 0060) can be addressed by "
    + "Modality or 0x00080060. The only required element field is 'vr' (value representation). "
    + "Other relevant fields are 'value', 'binary' or 'uri', but they are optional. If not "
    + "provided,the value is set to None."

  /**
    The document `_to_dump_dict` returns for a dataset whose file meta
    information and body render as `meta` and `data`: exactly the sections
    `info`, `file_meta` and `data`, in that order; `file_meta` converted
    with the fixed file-meta flags, `data` with the caller's.
   */
  function DumpDict(d: Dictionary, meta: Fields, data: Fields, policy: Policy): (r: Result<Fields, PyError>)
    ensures r.Ok? <==> ToReadable(d, meta, |meta|, FileMetaPolicy).Ok? && ToReadable(d, data, |data|, policy).Ok?
    ensures r.Ok? ==> Keys(r.value) == ["info", "file_meta", "data"]
    ensures r.Ok? ==> Get(r.value, "info") == Some(Str(Info))
    ensures r.Ok? ==> Get(r.value, "file_meta") == Some(Obj(ToReadable(d, meta, |meta|, FileMetaPolicy).value))
    ensures r.Ok? ==> Get(r.value, "data") == Some(Obj(ToReadable(d, data, |data|, policy).value))
    ensures r.Err? ==> r.error == (if ToReadable(d, meta, |meta|, FileMetaPolicy).Err?
                                   then ToReadable(d, meta, |meta|, FileMetaPolicy).error
                                   else ToReadable(d, data, |data|, policy).error)
  {
    var fileMeta :- ToReadable(d, meta, |meta|, FileMetaPolicy);
    var readable :- ToReadable(d, data, |data|, policy);
    SectionsGet(Str(Info), Obj(fileMeta), Obj(readable));
    Ok([("info", Str(Info)), ("file_meta", Obj(fileMeta)), ("data", Obj(readable))])
  }

  /** The three section keys, assigned in this order into an empty dict. */
  lemma SectionsPut(info: Json, meta: Json, data: Json)
    ensures Put(Put(Put([], "info", info), "file_meta", meta), "data", data)
            == [("info", info), ("file_meta", meta), ("data", data)]
  {
    SectionKeysDiffer();
    var one := Put([], "info", info);
    assert Keys(one) == ["info"];
    var two := Put(one, "file_meta", meta);
    assert two == [("info", info), ("file_meta", meta)];
    assert Keys(two) == ["info", "file_meta"];
  }

  /** Looking up each section of the three-section document. */
  lemma SectionsGet(info: Json, meta: Json, data: Json)
    ensures Keys([("info", info), ("file_meta", meta), ("data", data)]) == ["info", "file_meta", "data"]
    ensures Get([("info", info), ("file_meta", meta), ("data", data)], "info") == Some(info)
    ensures Get([("info", info), ("file_meta", meta), ("data", data)], "file_meta") == Some(meta)
    ensures Get([("info", info), ("file_meta", meta), ("data", data)], "data") == Some(data)
  {
    SectionKeysDiffer();
    var dct := [("info", info), ("file_meta", meta), ("data", data)];
    FindPositional(dct, "info", 0);
    FindPositional(dct, "file_meta", 1);
    FindPositional(dct, "data", 2);
  }

  lemma SectionKeysDiffer()
    ensures "info" != "file_meta" && "info" != "data" && "file_meta" != "data"
  {
    assert "info"[0] != "file_meta"[0] && "info"[0] != "data"[0] && "file_meta"[0] != "data"[0];
  }

  /** `_to_dump_dict`: the document filled in section by section. */
  method ToDumpDict(d: Dictionary, meta: Fields, data: Fields, policy: Policy) returns (r: Result<Fields, PyError>)
    ensures r == DumpDict(d, meta, data, policy)
  {
    var dct: Fields := Put([], "info", Str(Info));
    var fileMeta := JsonDictToReadable(d, meta, FileMetaPolicy);
    if fileMeta.Err? {
      return Err(fileMeta.error);
    }
    dct := Put(dct, "file_meta", Obj(fileMeta.value));
    var readable := JsonDictToReadable(d, data, policy);
    if readable.Err? {
      return Err(readable.error);
    }
    dct := Put(dct, "data", Obj(readable.value));
    SectionsPut(Str(Info), Obj(fileMeta.value), Obj(readable.value));
    return Ok(dct);
  }

  /**
    The section `dct.get(key, {})` hands to `_readable_to_json_dict`: an
    absent section reads as the empty dict; a present one must be a dict.
   */
  function Section(sections: Fields, key: string): (r: Result<Fields, PyError>)
    ensures key !in Keys(sections) ==> r == Ok([])
    ensures key in Keys(sections) ==> (r.Ok? <==> At(sections, key).Obj?)
    ensures r.Ok? && key in Keys(sections) ==> Obj(r.value) == At(sections, key)
  {
    AsDict(GetOr(sections, key, Obj([])))
  }

  /**
    One section of a document read from a file, decoded: an absent section
    decodes to the empty dict, a section that is no dict raises
    `AttributeError`, and a dict section is decoded with the flags given.
   */
  function DecodedSection(d: Dictionary, sections: Fields, key: string, policy: Policy): (r: Result<Fields, PyError>)
    ensures key !in Keys(sections) ==> r == Ok([])
    ensures key in Keys(sections) && !At(sections, key).Obj? ==> r == Err(AttributeError)
    ensures key in Keys(sections) && At(sections, key).Obj? ==>
              r == FromReadable(d, At(sections, key).fields, |At(sections, key).fields|, policy)
  {
    var section :- Section(sections, key);
    FromReadable(d, section, |section|, policy)
  }

  /**
    What `_from_dump_dict` passes to pydicom for a document `dump` read
    from a file: the JSON-model dicts of the body and of the file meta
    information, decoded in that order (the body with the caller's flags,
    the file meta with the fixed file-meta flags whatever the caller's are).
    It fails iff the document is no dict or a section fails, and then with
    the exception of the body if the body fails.
   */
  function FromDump(d: Dictionary, dump: Json, policy: Policy): (r: Result<(Fields, Fields), PyError>)
    ensures !dump.Obj? ==> r == Err(AttributeError)
    ensures r.Ok? <==> dump.Obj? && DecodedSection(d, dump.fields, "data", policy).Ok?
                                 && DecodedSection(d, dump.fields, "file_meta", FileMetaPolicy).Ok?
    ensures r.Ok? ==> r.value == (DecodedSection(d, dump.fields, "data", policy).value,
                                  DecodedSection(d, dump.fields, "file_meta", FileMetaPolicy).value)
    ensures dump.Obj? && DecodedSection(d, dump.fields, "data", policy).Err? ==>
              r == Err(DecodedSection(d, dump.fields, "data", policy).error)
    ensures dump.Obj? && DecodedSection(d, dump.fields, "data", policy).Ok? ==>
              (r.Err? <==> DecodedSection(d, dump.fields, "file_meta", FileMetaPolicy).Err?)
    ensures r.Err? && dump.Obj? && DecodedSection(d, dump.fields, "data", policy).Ok? ==>
              r.error == DecodedSection(d, dump.fields, "file_meta", FileMetaPolicy).error
  {
    var sections :- AsDict(dump);
    var dataJson :- DecodedSection(d, sections, "data", policy);
    var metaJson :- DecodedSection(d, sections, "file_meta", FileMetaPolicy);
    Ok((dataJson, metaJson))
  }

  /** `_from_dump_dict` up to the two `from_json` calls. */
  method FromDumpDict(d: Dictionary, dump: Json, policy: Policy) returns (r: Result<(Fields, Fields), PyError>)
    ensures r == FromDump(d, dump, policy)
  {
    var sections :- AsDict(dump);
    var data :- Section(sections, "data");
    var dataJson :- ReadableToJsonDict(d, data, policy);
    var meta :- Section(sections, "file_meta");
    var metaJson :- ReadableToJsonDict(d, meta, FileMetaPolicy);
    return Ok((dataJson, metaJson));
  }

  /** A document without `data` and `file_meta` sections decodes to two empty dicts. */
  lemma MissingSections(d: Dictionary, sections: Fields, policy: Policy)
    requires "data" !in Keys(sections) && "file_meta" !in Keys(sections)
    ensures FromDump(d, Obj(sections), policy) == Ok(([], []))
  {
  }
}
