# dicom-tools: the readable dump codec and the inventory rules, in Dafny

This project models two parts of the `dicom_tools` package.

**The readable dump of a DICOM dataset** (`dicom_tools/_dicom_dump.py`).
`dump_to_json` / `dump_to_yaml` turn pydicom's JSON model of a dataset
(`to_json_dict`) into a document with three sections: `info`, `file_meta`
and `data`. In that document every element is listed under its keyword
(or `0x` and its tag) as `{tag, vr, value?, binary?, uri?}`. `from_json` /
`from_yaml` take the document apart again into the two JSON-model dicts
that pydicom's `from_json` receives. The model covers:

- the tag rendering `_tag_to_str`;
- `_flatten_list` and its inverse, the decoder's list wrapping;
- the two conversion loops, recursive for sequence (SQ) items, with
  `skip_binary` and `skip_nonstd`;
- the assembly and disassembly of the document;
- the suffix guard of `_dump_to_file` and the existence guard of
  `_load_from_file`.

Python values are the `PyJson.Json` tree. A dict is an ordered sequence of
items (`PyDict`), and `d[k] = v` keeps an existing key in its place. The
exceptions Python raises on values of the wrong kind are modelled as
`Result` errors: `KeyError`, `TypeError`, `AttributeError` and
`FileNotFoundError`.

Each conversion loop appears twice:

- a specification, written as a fold over the first `n` items
  (`Dump.ToReadable`, `Dump.FromReadable`);
- the loop itself, as a method proved to compute that fold
  (`Dump.JsonDictToReadable`, `Dump.ReadableToJsonDict`).

Facts about each direction on any input are in `DumpFacts`. The round
trip, over datasets whose readable names are distinct at every level, is
in `DumpProofs` and `DumpRoundTrip`.

**The inventory rules of `create_dataset_summary`**
(`dicom_tools/_dicom_io.py`). The model covers the helpers nested in that
function:

- `_clean_string`;
- `_extract_key`;
- the `_extract_time` cascade over four date/time sources;
- `_col_fmt`;
- the `size` column;
- the grouping of the sorted file list into series by parent folder,
  the truncation to `n_series_max` series, and the `n_files` and
  `n_series` counts.

The grouping loop (`Inventory.GroupBySeries`) is proved against a
definition stated without the loop (`Inventory.Groups`):

- one group per series, in the order of its first file;
- each group holds the files of that series, in their order.

## Model

| member | source | states |
|---|---|---|
| Tags.NameOf | dicom_tools/_dicom_dump.py:39-59 | the readable name of a tag key is its keyword when it has one, else "0x" and the key |
| Tags.TagToStr | dicom_tools/_dicom_dump.py:20-22 | ten characters: "0x" and eight lower-case hex digits, the group's four then the element's four |
| Tags.TagToStrRoundTrip | dicom_tools/_dicom_dump.py:20-22 | reading the eight digits back gives the tag: the rendering is lossless |
| Tags.TagToStrInjective | dicom_tools/_dicom_dump.py:20-22 | distinct tags render differently |
| Tags.TagToStrModality | dicom_tools/_dicom_dump.py:100-101 | tag (0008,0060) renders as 0x00080060, the example in the info text |
| PyDict.Put | dicom_tools/_dicom_dump.py:60 | `d[k] = v`: an existing key keeps its position and length, a new key is appended; afterwards `k` maps to `v` and every other key is unchanged |
| PyDict.PutExisting | dicom_tools/_dicom_dump.py:60 | assigning to a present key replaces its item where it stands |
| PyDict.PutIsDict | dicom_tools/_dicom_dump.py:60 | assignment keeps keys distinct |
| PyDict.PutKeys | dicom_tools/_dicom_dump.py:60 | after assignment the keys are the old keys and `k` |
| PyDict.Find | dicom_tools/_dicom_dump.py:48 | the position found holds the key and no earlier one does; none iff the key is absent |
| PyDict.GetConcat | dicom_tools/_dicom_dump.py:55-60 | a lookup in `a + b` finds the key in `a` first, else in `b` |
| PyJson.Has | dicom_tools/_dicom_dump.py:75-87 | `k in x` on a dict is key membership |
| PyJson.GetItem | dicom_tools/_dicom_dump.py:38 | `x[k]` succeeds iff `x` is a dict holding `k`, and yields its value; a missing key raises KeyError |
| PyJson.Iterate | dicom_tools/_dicom_dump.py:51 | iterating a list yields its elements, a string its one-character strings, a dict its keys; anything else raises TypeError |
| PyJson.AsDict | dicom_tools/_dicom_dump.py:37 | `.items()` works exactly on a dict, else AttributeError |
| DicomJson.ToJsonDict | dicom_tools/_dicom_dump.py:106-109 | the JSON-model dict has one item per element, under the element's key, in order |
| DicomJson.ElementToJson | dicom_tools/_dicom_dump.py:106-109 | an element object starts with `vr` and has `Value` iff it carries values or sequence items |
| DicomJson.PayloadFields | dicom_tools/_dicom_dump.py:106-109 | after `vr` an element object has no further field or exactly one of Value, InlineBinary and BulkDataURI |
| Dump.FlattenList | dicom_tools/_dicom_dump.py:25-30 | the value changes iff it is a one-element list whose element is not a list, and then becomes that element |
| Dump.Wrap | dicom_tools/_dicom_dump.py:82-83 | the result is a list; a non-list becomes the one-element list of it |
| Dump.WrapFlattenList | dicom_tools/_dicom_dump.py:53-83 | wrapping undoes flattening for every list value |
| Dump.FlattenListWrap | dicom_tools/_dicom_dump.py:53-83 | flattening undoes wrapping iff the value is not a one-element list of a non-list |
| Dump.JsonValue | dicom_tools/_dicom_dump.py:77-84 | a decoded value field is exactly one `Value` item |
| Dump.JsonDictToReadable | dicom_tools/_dicom_dump.py:33-61 | the loop returns the fold `ToReadable` over all items, including the exception that stops it |
| Dump.ReadableEntry | dicom_tools/_dicom_dump.py:38-60 | one pass: read `vr`, skip a non-standard tag under `skip_nonstd`, else store the entry under its readable name |
| Dump.ReadableData | dicom_tools/_dicom_dump.py:42-58 | the entry built field by field is `tag`, `vr`, then optional `value`, `binary` and `uri` |
| Dump.ReadableList | dicom_tools/_dicom_dump.py:51 | the sequence items are converted in order, each with default flags; a non-dict item raises |
| Dump.ReadableToJsonDict | dicom_tools/_dicom_dump.py:64-90 | the loop returns the fold `FromReadable` over all items, including the exception that stops it |
| Dump.JsonEntry | dicom_tools/_dicom_dump.py:68-89 | one pass: skip a key that names no tag under `skip_nonstd`, else store the rebuilt element under the same key |
| Dump.JsonData | dicom_tools/_dicom_dump.py:69-88 | the element built field by field is optional `vr`, `Value`, `InlineBinary` and `BulkDataURI`; a non-container entry raises TypeError |
| Dump.JsonValueField | dicom_tools/_dicom_dump.py:77-84 | SQ values are decoded item by item, every other value is wrapped into a list |
| Dump.JsonList | dicom_tools/_dicom_dump.py:81 | the readable sequence items are decoded in order, each with default flags |
| Dump.ToReadableStops | dicom_tools/_dicom_dump.py:37-60 | an exception in one pass is what the whole encoder raises |
| Dump.FromReadableStops | dicom_tools/_dicom_dump.py:68-89 | an exception in one pass is what the whole decoder raises |
| Dump.ToReadableStuck | dicom_tools/_dicom_dump.py:37-60 | once the encoder has raised, later items change nothing |
| Dump.FromReadableStuck | dicom_tools/_dicom_dump.py:68-89 | once the decoder has raised, later items change nothing |
| DumpFacts.EncodedKeys | dicom_tools/_dicom_dump.py:37-60 | on success every input item was a dict with `vr`, and the output keys are exactly the readable names of the kept items (dropped iff no keyword and `skip_nonstd`) |
| DumpFacts.EncodedVr | dicom_tools/_dicom_dump.py:38 | an encoder that got past an item read its `vr`: every earlier item is a dict with `vr` |
| DumpFacts.ReadableStepKeys | dicom_tools/_dicom_dump.py:38-60 | a successful pass adds exactly the readable name of a kept item and nothing for a skipped one |
| DumpFacts.EncodedEntry | dicom_tools/_dicom_dump.py:43-58 | a readable entry starts with `tag` and `vr`; it has `value` iff `Value`, `binary` iff `InlineBinary` and not `skip_binary`, `uri` iff `BulkDataURI`; copies are exact and plain values are flattened |
| DumpFacts.EncodedItems | dicom_tools/_dicom_dump.py:49-51 | converted sequence items keep their count and order, each converted with the default flags |
| DumpFacts.ValueRoundTrip | dicom_tools/_dicom_dump.py:48-84 | a non-SQ element with a list value is rebuilt as it was by encoding then decoding |
| DumpFacts.EncodeValueField | dicom_tools/_dicom_dump.py:52-54 | a non-SQ element `{vr, Value}` encodes to `{tag, vr, value}` with the value flattened |
| DumpFacts.DecodeValueField | dicom_tools/_dicom_dump.py:77-84 | a non-SQ entry `{tag, vr, value}` decodes to `{vr, Value}` with the value wrapped |
| DumpFacts.DecodedKeys | dicom_tools/_dicom_dump.py:68-89 | on success the output keys are exactly the input keys, unchanged, minus those that name no tag under `skip_nonstd` |
| DumpFacts.JsonStepKeys | dicom_tools/_dicom_dump.py:68-89 | a successful pass adds exactly the item's own key, or nothing when it is skipped |
| DumpFacts.DecodedEntry | dicom_tools/_dicom_dump.py:69-88 | a rebuilt element holds only `vr`, `Value`, `InlineBinary`, `BulkDataURI`, each iff its readable counterpart is present (binary also needs `skip_binary` off); copies are exact and plain values are wrapped |
| DumpFacts.CopyFieldOk | dicom_tools/_dicom_dump.py:85-88 | a conditional copy adds at most the one field, present iff the key is there and enabled, copied from a dict |
| DumpFacts.BareEntry | dicom_tools/_dicom_dump.py:75-89 | an entry without `vr`, `value`, `binary` and `uri` is no error and becomes an empty element |
| DumpFacts.DecodedItems | dicom_tools/_dicom_dump.py:79-81 | decoded sequence items keep their count and order, each decoded with the default flags |
| DumpProofs.EncodeDocument | dicom_tools/_dicom_dump.py:33-61 | on an `Encodable` rendering (readable names distinct at every level) the encoder never raises and builds `Document`: kept elements, in order, under their readable names |
| DumpProofs.EncodeElement | dicom_tools/_dicom_dump.py:43-58 | one element object becomes its readable entry |
| DumpProofs.EncodeItems | dicom_tools/_dicom_dump.py:49-51 | the items of an SQ element become their readable dicts, in order |
| DumpProofs.DocumentFresh | dicom_tools/_dicom_dump.py:59-60 | no later element's readable name is already a key, so each assignment appends |
| DumpProofs.DecodeDocument | dicom_tools/_dicom_dump.py:64-90 | the decoder never raises on `Document` and rebuilds the JSON-model dict of `Restored` |
| DumpProofs.DecodeEntry | dicom_tools/_dicom_dump.py:69-88 | the readable entry of an element decodes to the element object again, binary dropped if either direction skips it |
| DumpProofs.DecodeValues | dicom_tools/_dicom_dump.py:82-84 | the `value` of a plain element decodes to its value list, wrapped back |
| DumpProofs.DecodeSq | dicom_tools/_dicom_dump.py:79-81 | the `value` of an SQ element decodes to its items under readable names |
| DumpProofs.DecodeItems | dicom_tools/_dicom_dump.py:79-81 | the readable items of an SQ element decode to its renamed items, in order |
| DumpProofs.FromReadablePrefix | dicom_tools/_dicom_dump.py:68-89 | the decoder after `k` items depends only on the first `k` items |
| DumpProofs.RoundTrip | dicom_tools/_dicom_dump.py:33-90 | encode then decode never raises and yields the elements both directions keep, renamed |
| DumpProofs.RoundTripDefaults | dicom_tools/_dicom_dump.py:33-90 | with the default flags the trip only renames keys, at every level |
| DumpProofs.RestoredDefaults | dicom_tools/_dicom_dump.py:33-90 | with the default flags every element comes back, in order, under its readable name |
| DumpProofs.RenamedShape | dicom_tools/_dicom_dump.py:59-60 | renaming keeps the element count, order, `vr` and plain payloads, and renames the keys |
| DumpProofs.RestoredKeys | dicom_tools/_dicom_dump.py:40-74 | an element comes back iff the encoder keeps its tag and the decoder resolves its readable name |
| DumpProofs.RestoredNoBinary | dicom_tools/_dicom_dump.py:55-86 | when either direction skips binaries, no restored top-level element holds inline binary data |
| DumpSections.DumpDict | dicom_tools/_dicom_dump.py:93-112 | the document is exactly `info`, `file_meta`, `data` in that order, with the fixed text and the two readable sections (file meta with fixed flags); it fails iff a section fails, with that section's exception |
| DumpSections.SectionsPut | dicom_tools/_dicom_dump.py:96-111 | the three assignments into an empty dict give the three sections in order |
| DumpSections.ToDumpDict | dicom_tools/_dicom_dump.py:93-112 | the method builds exactly `DumpDict` |
| DumpSections.Section | dicom_tools/_dicom_dump.py:119-123 | `dct.get(key, {})`: an absent section is the empty dict; a present one must be a dict |
| DumpSections.DecodedSection | dicom_tools/_dicom_dump.py:119-125 | an absent section decodes to the empty dict, a non-dict section raises AttributeError, a dict section is decoded with the given flags |
| DumpSections.FromDump | dicom_tools/_dicom_dump.py:115-127 | a non-dict document raises AttributeError; otherwise it succeeds iff both sections decode, giving `data` decoded with the caller's flags and `file_meta` with the fixed file-meta flags; a `data` error wins over a `file_meta` error |
| DumpSections.FromDumpDict | dicom_tools/_dicom_dump.py:115-127 | the method computes `FromDump`: `data` with the caller's flags, then `file_meta` with the fixed flags |
| DumpSections.MissingSections | dicom_tools/_dicom_dump.py:118-125 | a document without `data` and `file_meta` decodes to two empty dicts |
| DumpFiles.SuffixMatches | dicom_tools/_dicom_dump.py:137 | the test on the lower-cased suffix |
| DumpFiles.Load | dicom_tools/_dicom_dump.py:150-164 | a missing file raises FileNotFoundError, a parse error propagates, otherwise the document is taken apart |
| DumpFiles.Written | dicom_tools/_dicom_dump.py:141-147 | only `path` changes; it holds the serialised document, or stays empty when building the document raised |
| DumpFiles.Disk.DumpToFile | dicom_tools/_dicom_dump.py:130-147 | a path with the wrong suffix gives False and leaves the files alone; otherwise the files become `Written` |
| DumpFiles.Disk.Write | dicom_tools/_dicom_dump.py:141-147 | opens (empties) the file, builds the document, writes it, reports that the file exists |
| DumpFiles.Disk.LoadFromFile | dicom_tools/_dicom_dump.py:150-164 | the method computes `Load` on the current files |
| DumpFiles.DumpThenLoad | dicom_tools/_dicom_dump.py:142-164 | a document written with a serialiser its parser inverts loads back as its decoding |
| DumpFiles.UpperCaseSuffix | dicom_tools/_dicom_dump.py:137 | `dir/scan.JSON` passes the `.json` test |
| DumpFiles.OtherSuffix | dicom_tools/_dicom_dump.py:137-140 | `dir/tmp.xyz` passes neither test |
| DumpRoundTrip.DumpDictRoundTrip | dicom_tools/_dicom_dump.py:93-127 | for `Encodable` body and file meta, dumping never fails and the document decodes to the restored body and file meta |
| DumpRoundTrip.FileRoundTrip | dicom_tools/_dicom_dump.py:130-164 | dump to a file, then load it: the write succeeds and the load yields the restored body and file meta |
| DumpRoundTrip.DefaultsRoundTrip | dicom_tools/_dicom_dump.py:115-127 | with the default flags the body comes back with every element, only renamed |
| PyPath.Name | dicom_tools/_dicom_io.py:357 | `Path.name` holds no separator |
| PyPath.Parent | dicom_tools/_dicom_io.py:357 | `Path.parent` is a prefix of the path |
| PyPath.ParentName | dicom_tools/_dicom_io.py:357 | the parent of `dir/series/file` is named `series` |
| PyPath.NameSuffix | dicom_tools/_dicom_dump.py:137 | the suffix is empty or runs from the last dot to the end, that dot neither first nor last in the name |
| PyPath.Suffix | dicom_tools/_dicom_dump.py:137 | empty, or a dot and at least one more character, no further dot and no separator, ending the path (trailing separators ignored) and shorter than its last component |
| PyPath.PlainNameSuffix | dicom_tools/_dicom_dump.py:137 | the suffix of `dir/stem.ext` is `.ext` |
| PyPath.HiddenName | dicom_tools/_dicom_dump.py:137 | a name such as `.json` has no suffix |
| PyPath.Lower | dicom_tools/_dicom_dump.py:137 | lower-casing keeps the length and maps each ASCII letter to lower case |
| Inventory.Clean | dicom_tools/_dicom_io.py:334-337 | the result holds no quote, newline or semicolon, and is shorter by the number of quotes |
| Inventory.CleanValue | dicom_tools/_dicom_io.py:334-337 | a non-string is returned unchanged; a string is cleaned |
| Inventory.CleanPerCharacter | dicom_tools/_dicom_io.py:337 | the three passes equal one per-character rewrite |
| Inventory.CleanUnchanged | dicom_tools/_dicom_io.py:337 | an already clean string is unchanged |
| Inventory.CleanIdempotent | dicom_tools/_dicom_io.py:334-337 | cleaning twice equals cleaning once |
| Inventory.ColFmt | dicom_tools/_dicom_io.py:409-410 | same length, first character lower-cased, rest unchanged; the empty string stays empty |
| Inventory.ColFmtIdempotent | dicom_tools/_dicom_io.py:409-410 | formatting twice equals formatting once |
| Inventory.ColFmtManufacturer | dicom_tools/_dicom_io.py:409-412 | the columns for Manufacturer and ManufacturerModelName are manufacturer and manufacturerModelName |
| Inventory.ExtractKey | dicom_tools/_dicom_io.py:338-346 | missing or None gives the default; a string is cleaned; any other value is returned as is |
| Inventory.ExtractTime | dicom_tools/_dicom_io.py:307-327 | "N/A" with the epoch iff no source offers both keywords |
| Inventory.ExtractTimeFirst | dicom_tools/_dicom_io.py:307-322 | the first source offering both keywords decides the pair and the name |
| Inventory.TimeSourceNamesDiffer | dicom_tools/_dicom_io.py:310-326 | the four names and "N/A" all differ |
| Inventory.Size | dicom_tools/_dicom_io.py:395-397 | "N/A" iff Columns or Rows is missing, else the pair `[columns, rows]` |
| Inventory.AddFile | dicom_tools/_dicom_io.py:357-358 | the file is appended to its series' list, created if absent; other series are unchanged |
| Inventory.GroupsKeys | dicom_tools/_dicom_io.py:355-358 | groups are keyed by series in the order of their first file |
| Inventory.SeriesOrderMembers | dicom_tools/_dicom_io.py:355-358 | each series is listed once, and exactly the series of the files are listed |
| Inventory.InSeriesMembers | dicom_tools/_dicom_io.py:356-358 | every file lands in its parent-folder group, and a group holds only files of its series |
| Inventory.SeriesOrderHas | dicom_tools/_dicom_io.py:355-358 | a series is listed iff it has a file, so no group is empty |
| Inventory.GroupsGet | dicom_tools/_dicom_io.py:355-358 | looking up a series gives exactly its files in file order |
| Inventory.GroupsStep | dicom_tools/_dicom_io.py:356-358 | one loop pass carries the grouping of `n` files to that of `n + 1` |
| Inventory.GroupsFileCount | dicom_tools/_dicom_io.py:369 | without truncation the groups hold every file exactly once |
| Inventory.AddFileCount | dicom_tools/_dicom_io.py:358-369 | adding a file to its group adds one to the count |
| Inventory.Truncated | dicom_tools/_dicom_io.py:359-364 | with a positive `n_series_max` the first that many groups are kept, else all of them |
| Inventory.FileCountPrefix | dicom_tools/_dicom_io.py:359-369 | keeping fewer groups never counts more files |
| Inventory.GroupBySeries | dicom_tools/_dicom_io.py:354-370 | the loop builds the reference grouping, truncated; `n_files` is the sum of group sizes, `n_series` the group count |
| Inventory.SummaryCounts | dicom_tools/_dicom_io.py:359-370 | the truncation gives all groups or exactly `n_series_max`; `n_files` is at most the file count, equal to it when nothing was cut |

## Left out

- Serialisation: `json.dump`, `yaml.safe_dump`, `json.load` and `yaml.safe_load` are `writer` and `reader` parameters. The YAML representer registered by `dump_to_yaml` is not part of this model.
- `dump_to_json`, `dump_to_yaml`, `from_json` and `from_yaml` only fix the suffix and the serialiser. `DumpFiles.Disk.DumpToFile` and `DumpFiles.Disk.LoadFromFile` take both as arguments.
- pydicom is left out. `keyword_for_tag` and `Tag(key)` form the `Tags.Dictionary` parameter. `to_json_dict` output is the typed `DicomJson.Dataset`. `Dataset.from_json` and `FileMetaDataset.from_json` are not modelled: decoding stops at the two JSON-model dicts they would receive.
- DumpFiles.Disk.LoadFromFile: returns the two JSON-model dicts, not a pydicom `Dataset`, because `from_json` is outside the model.
- DumpFiles.Disk.DumpToFile: `ensure_out_dir` (creating the parent folder) is not modelled. The file system is a map from path to contents. `path.is_file()` after a write is therefore always true.
- Logging (`_logger.error`, `_logger.warning`) and the `warn` flag of `_extract_key` produce no value and are left out.
- PyPath.Lower: lower-cases ASCII letters only. Python's `str.lower` also folds other Unicode letters, which matters for no suffix the codec compares against.
- Inventory.ColFmt: lower-cases an ASCII first letter only. For an extra tag starting with another capital letter Python's `s[0].lower()` folds it too, and for some letters (such as 'İ') returns two characters, so the `|r| == |s|` clause then does not describe `_col_fmt`. DICOM keywords are ASCII.
- PyPath.Name and PyPath.Parent: they follow POSIX paths without normalisation (no `.`/`..` or repeated-separator handling). Only `name` of a `parent` is used.
- Inventory.ExtractTime: returns the chosen date and time values unparsed. `_canonical_datetime` and `datetime.strptime` are not modelled, nor is the exception they raise on a malformed date.
- The rest of `create_dataset_summary` is left out: globbing and sorting the folder (the sorted file list is the input of `Inventory.GroupBySeries`), `dcmread`, the progress bar, the pandas table, its sort and the `caseId` column.
- `extra_tags.append(...)` inside the per-series loop mutates the caller's default list on every row. That side effect is not modelled; `Inventory.ColFmt` covers the column names.
- DumpProofs.RoundTrip: the trip is stated for datasets whose readable names are distinct at every level (`DumpProofs.Encodable`). When two tags share a keyword, or a keyword collides with a `0x` name, the later entry overwrites the earlier one. Such datasets are not covered by this lemma.
- DumpProofs.EncodeDocument: "the encoder never raises and builds `Document`" is proved only for `Encodable` datasets, for the same reason; for a rendering with two tags sharing a readable name neither the absence of an exception nor the output is stated.
- DumpRoundTrip.DumpDictRoundTrip: needs `Encodable` body and file meta, so "dumping never fails" is not proved for datasets whose tags share a readable name.
- DumpProofs.DecodeDocument, DumpProofs.RoundTripDefaults, DumpRoundTrip.FileRoundTrip and DumpRoundTrip.DefaultsRoundTrip carry the same `Encodable` hypothesis.
- Dump.JsonStep / Dump.ResolvedBy: whether `Tag(key)` accepts a document key is the boolean `Tags.Dictionary.resolves`, and every failure of `Tag(key)` is modelled as the `KeyError` the loop catches, so the entry is skipped. An exception of another type raised by `Tag(key)` would leave `_readable_to_json_dict`; the model does not capture that case, because which exceptions pydicom's `Tag` raises is not part of this model.
- A missing `vr` is not an error for the decoder (`DumpFacts.BareEntry`), as the code has it; it fails later in pydicom's `from_json`, which is not modelled.
- The `file_meta` section is always converted with `skip_binary=False` and `skip_nonstd=True` (`Dump.FileMetaPolicy`), in both directions, whatever the caller passes.
