/**
  The whole trip of `dicom_tools/_dicom_dump.py`: a dataset dumped to a
  document (`_to_dump_dict`), written, read back and disassembled
  (`_from_dump_dict`) hands pydicom the JSON-model dicts of the elements
  both directions keep, under their readable names.
 */
module DumpRoundTrip {
  import opened Wrappers
  import opened PyDict
  import opened PyJson
  import opened Tags
  import opened DicomJson
  import opened Dump
  import opened DumpSections
  import opened DumpFiles
  import opened DumpProofs

  /** The document dumped for a dataset with file meta information `meta` and body `data`. */
  function DumpDocument(d: Dictionary, meta: Dataset, data: Dataset, enc: Policy): Fields {
    [("info", Str(Info)), ("file_meta", Obj(FullDocument(d, meta, FileMetaPolicy))), ("data", Obj(FullDocument(d, data, enc)))]
  }

  /**
    Dumping never fails on what pydicom produces, and reading the document
    back yields the restored body and the restored file meta information;
    the file meta is filtered with the fixed file-meta flags both ways.
   */
  lemma DumpDictRoundTrip(d: Dictionary, meta: Dataset, data: Dataset, enc: Policy, dec: Policy)
    requires Encodable(d, meta) && Encodable(d, data)
    ensures DumpDict(d, ToJsonDict(meta), ToJsonDict(data), enc) == Ok(DumpDocument(d, meta, data, enc))
    ensures FromDump(d, Obj(DumpDocument(d, meta, data, enc)), dec)
            == Ok((ToJsonDict(Dataset(Restored(d, data, |data.elements|, enc, dec))),
                   ToJsonDict(Dataset(Restored(d, meta, |meta.elements|, FileMetaPolicy, FileMetaPolicy)))))
  {
    RoundTrip(d, meta, FileMetaPolicy, FileMetaPolicy);
    RoundTrip(d, data, enc, dec);
    SectionsGet(Str(Info), Obj(FullDocument(d, meta, FileMetaPolicy)), Obj(FullDocument(d, data, enc)));
  }

  /**
    `_dump_to_file` followed by `_load_from_file` on the same path, with a
    serialiser its parser inverts: the written file loads back as the
    restored body and file meta information.
   */
  lemma FileRoundTrip(files: map<string, string>, path: string, d: Dictionary, meta: Dataset, data: Dataset,
                      writer: Fields -> string, reader: string -> Result<Json, PyError>, enc: Policy, dec: Policy)
    requires Encodable(d, meta) && Encodable(d, data)
    requires reader(writer(DumpDocument(d, meta, data, enc))) == Ok(Obj(DumpDocument(d, meta, data, enc)))
    ensures Written(files, path, DumpDict(d, ToJsonDict(meta), ToJsonDict(data), enc), writer).0 == Ok(true)
    ensures Load(Written(files, path, DumpDict(d, ToJsonDict(meta), ToJsonDict(data), enc), writer).1, path, d, reader, dec)
            == Ok((ToJsonDict(Dataset(Restored(d, data, |data.elements|, enc, dec))),
                   ToJsonDict(Dataset(Restored(d, meta, |meta.elements|, FileMetaPolicy, FileMetaPolicy)))))
  {
    DumpDictRoundTrip(d, meta, data, enc, dec);
    DumpThenLoad(files, path, d, DumpDocument(d, meta, data, enc), writer, reader, dec);
  }

  /** With the default flags the body comes back with every element, only renamed. */
  lemma DefaultsRoundTrip(d: Dictionary, meta: Dataset, data: Dataset)
    requires Encodable(d, meta) && Encodable(d, data)
    ensures FromDump(d, Obj(DumpDocument(d, meta, data, Defaults)), Defaults).Ok?
    ensures FromDump(d, Obj(DumpDocument(d, meta, data, Defaults)), Defaults).value.0 == ToJsonDict(Renamed(d, data))
  {
    DumpDictRoundTrip(d, meta, data, Defaults, Defaults);
  }
}
