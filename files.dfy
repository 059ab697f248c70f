/**
  The file boundary of `dicom_tools/_dicom_dump.py`: `_dump_to_file`
  writes a dump document only to a path with the expected suffix, and
  `_load_from_file` reads one only from a path that is an existing file.

  The file system is a map from path to file contents. The serialiser
  (`json.dump`, `yaml.safe_dump`) and the parser (`json.load`,
  `yaml.safe_load`) are parameters; so are pydicom's two JSON-model dicts
  of the dataset being dumped.
 */
module DumpFiles {
  import opened Wrappers
  import opened PyDict
  import opened PyJson
  import opened Tags
  import opened PyPath
  import opened Dump
  import opened DumpSections

  /** The suffix `dump_to_json` asks for. */
  const JsonSuffix: string := ".json"

  /** The suffix `dump_to_yaml` asks for. */
  const YamlSuffix: string := ".yaml"

  /** The test `_dump_to_file` applies before writing anything. */
  predicate SuffixMatches(path: string, suffix: string) {
    Lower(Suffix(path)) == suffix
  }

  /** What `_load_from_file` returns, given the files on disk. */
  function Load(files: map<string, string>, path: string, d: Dictionary,
                reader: string -> Result<Json, PyError>, policy: Policy): (r: Result<(Fields, Fields), PyError>)
    ensures path !in files ==> r == Err(FileNotFoundError(path))
    ensures path in files && reader(files[path]).Err? ==> r == Err(reader(files[path]).error)
    ensures path in files && reader(files[path]).Ok? ==> r == FromDump(d, reader(files[path]).value, policy)
  {
    if path !in files then Err(FileNotFoundError(path))
    else
      var dump :- reader(files[path]);
      FromDump(d, dump, policy)
  }

  /** The result of writing document `dump` to `path`, and the files afterwards. */
  function Written(files: map<string, string>, path: string, dump: Result<Fields, PyError>,
                   writer: Fields -> string): (r: (Result<bool, PyError>, map<string, string>))
    ensures path in r.1 && r.1.Keys == files.Keys + {path}
    ensures forall p :: p in files && p != path ==> r.1[p] == files[p]
    ensures dump.Ok? ==> r.0 == Ok(true) && r.1[path] == writer(dump.value)
    ensures dump.Err? ==> r.0 == Err(dump.error) && r.1[path] == ""
  {
    match dump
    case Ok(dct) => (Ok(true), files[path := writer(dct)])
    case Err(e) => (Err(e), files[path := ""])
  }

  /** The files a program sees: regular files by path, with their contents. */
  class Disk {
    var files: map<string, string>

    constructor(files: map<string, string>)
      ensures this.files == files
    {
      this.files := files;
    }

    /**
      `_dump_to_file`: on a path without the expected (lower-cased)
      suffix, `Ok(false)` and nothing written; otherwise the document
      written as `Write` does.
     */
    method DumpToFile(path: string, d: Dictionary, meta: Fields, data: Fields,
                      writer: Fields -> string, suffix: string, policy: Policy)
      returns (r: Result<bool, PyError>)
      modifies this
      ensures !SuffixMatches(path, suffix) ==> r == Ok(false) && files == old(files)
      ensures SuffixMatches(path, suffix) ==> (r, files) == Written(old(files), path, DumpDict(d, meta, data, policy), writer)
    {
      if !SuffixMatches(path, suffix) {
        return Ok(false);
      }
      r := Write(path, d, meta, data, writer, policy);
    }

    /**
      The file is opened for writing (created or emptied) before the
      document is built, so an exception while building it leaves the
      file empty; on success the file holds the serialised document.
     */
    method Write(path: string, d: Dictionary, meta: Fields, data: Fields,
                 writer: Fields -> string, policy: Policy)
      returns (r: Result<bool, PyError>)
      modifies this
      ensures (r, files) == Written(old(files), path, DumpDict(d, meta, data, policy), writer)
    {
      files := files[path := ""];
      var dct := ToDumpDict(d, meta, data, policy);
      if dct.Err? {
        return Err(dct.error);
      }
      files := files[path := writer(dct.value)];
      assert files == old(files)[path := writer(dct.value)];
      return Ok(path in files);
    }

    /** `_load_from_file`: `FileNotFoundError` unless `path` is a file. */
    method LoadFromFile(path: string, d: Dictionary, reader: string -> Result<Json, PyError>, policy: Policy)
      returns (r: Result<(Fields, Fields), PyError>)
      ensures r == Load(files, path, d, reader, policy)
    {
      if path !in files {
        return Err(FileNotFoundError(path));
      }
      var dump :- reader(files[path]);
      r := FromDumpDict(d, dump, policy);
    }
  }

  /** A dump written by a serialiser its parser inverts loads back as its decoded document. */
  lemma DumpThenLoad(files: map<string, string>, path: string, d: Dictionary, dct: Fields,
                     writer: Fields -> string, reader: string -> Result<Json, PyError>, policy: Policy)
    requires reader(writer(dct)) == Ok(Obj(dct))
    ensures Load(files[path := writer(dct)], path, d, reader, policy) == FromDump(d, Obj(dct), policy)
  {
  }

  /** The suffix test is case-insensitive in the path. */
  lemma UpperCaseSuffix(dir: string)
    ensures SuffixMatches(dir + "/" + "scan" + "." + "JSON", JsonSuffix)
  {
    PlainNameSuffix(dir, "scan", "JSON");
    LowerJson();
  }

  lemma LowerJson()
    ensures Lower(".JSON") == ".json"
  {
    var l := Lower(".JSON");
    assert l[0] == '.' && l[1] == 'j' && l[2] == 's' && l[3] == 'o' && l[4] == 'n';
  }

  /** A path with another suffix is refused. */
  lemma OtherSuffix(dir: string)
    ensures !SuffixMatches(dir + "/" + "tmp" + "." + "xyz", JsonSuffix)
    ensures !SuffixMatches(dir + "/" + "tmp" + "." + "xyz", YamlSuffix)
  {
    PlainNameSuffix(dir, "tmp", "xyz");
    assert Lower(".xyz")[1] == 'x';
  }
}
