/**
  The rules `create_dataset_summary` in `dicom_tools/_dicom_io.py` applies
  while it builds the inventory table of a folder of DICOM files: how a
  header value is cleaned and looked up, which date and time a row
  carries, how an extra column is named, how the image size is reported,
  and how the files are grouped into series, one row per series.

  A header as `dcmread` returns it is a dict from keyword to value; a
  keyword whose element is empty maps to `None`.
 */
module Inventory {
  import opened Wrappers
  import opened PyDict
  import opened PyJson
  import opened PyPath

  /** The placeholder for a missing value. */
  const NA: string := "N/A"

  // ---------------------------------------------------------------------
  // _clean_string
  // ---------------------------------------------------------------------

  /** `s.count(c)`. */
  function Count(s: string, c: char): (n: nat)
    ensures n <= |s|
    ensures n == 0 <==> c !in s
  {
    if s == [] then 0 else Count(s[..|s| - 1], c) + (if s[|s| - 1] == c then 1 else 0)
  }

  /** `s.replace(c, "")`. */
  function Remove(s: string, c: char): (r: string)
    ensures c !in r
    ensures |r| == |s| - Count(s, c)
    ensures forall x :: x != c ==> (x in r <==> x in s)
  {
    if s == [] then [] else Remove(s[..|s| - 1], c) + (if s[|s| - 1] == c then [] else [s[|s| - 1]])
  }

  /** `s.replace(c, sub)` for one-character `c` and `sub`. */
  function Replace(s: string, c: char, sub: char): (r: string)
    ensures |r| == |s|
    ensures forall i :: 0 <= i < |s| ==> r[i] == (if s[i] == c then sub else s[i])
  {
    seq(|s|, i requires 0 <= i < |s| => if s[i] == c then sub else s[i])
  }

  /**
    `_clean_string` on a string: double quotes removed, newlines and
    semicolons each replaced by one underscore.
   */
  function Clean(s: string): (r: string)
    ensures '"' !in r && '\n' !in r && ';' !in r
    ensures |r| == |s| - Count(s, '"')
  {
    Replace(Replace(Remove(s, '"'), '\n', '_'), ';', '_')
  }

  /** `_clean_string`: anything but a string is returned as it is. */
  function CleanValue(v: Json): (r: Json)
    ensures !v.Str? ==> r == v
    ensures v.Str? ==> r.Str? && '"' !in r.s && '\n' !in r.s && ';' !in r.s
    ensures v.Str? ==> |r.s| == |v.s| - Count(v.s, '"')
  {
    if v.Str? then Str(Clean(v.s)) else v
  }

  /** The same cleaning done one character at a time. */
  function CleanEach(s: string): string {
    if s == [] then []
    else CleanEach(s[..|s| - 1]) + (if s[|s| - 1] == '"' then []
                                    else if s[|s| - 1] == '\n' || s[|s| - 1] == ';' then "_"
                                    else [s[|s| - 1]])
  }

  /** The three passes of `_clean_string` act on each character independently. */
  lemma {:induction false} CleanPerCharacter(s: string)
    ensures Clean(s) == CleanEach(s)
  {
    if s != [] {
      var init, last := s[..|s| - 1], s[|s| - 1];
      CleanPerCharacter(init);
      assert Remove(s, '"') == Remove(init, '"') + (if last == '"' then [] else [last]);
      ReplaceConcat(Remove(init, '"'), if last == '"' then [] else [last], '\n', '_');
      ReplaceConcat(Replace(Remove(init, '"'), '\n', '_'),
                    Replace(if last == '"' then [] else [last], '\n', '_'), ';', '_');
    }
  }

  lemma ReplaceConcat(a: string, b: string, c: char, sub: char)
    ensures Replace(a + b, c, sub) == Replace(a, c, sub) + Replace(b, c, sub)
  {
  }

  /** A string without quotes, newlines or semicolons is already clean. */
  lemma {:induction false} CleanUnchanged(s: string)
    requires '"' !in s && '\n' !in s && ';' !in s
    ensures Clean(s) == s
  {
    CleanPerCharacter(s);
    CleanEachUnchanged(s);
  }

  lemma {:induction false} CleanEachUnchanged(s: string)
    requires '"' !in s && '\n' !in s && ';' !in s
    ensures CleanEach(s) == s
  {
    if s != [] {
      assert s[|s| - 1] in s;
      CleanEachUnchanged(s[..|s| - 1]);
    }
  }

  /** Cleaning twice is cleaning once. */
  lemma CleanIdempotent(v: Json)
    ensures CleanValue(CleanValue(v)) == CleanValue(v)
  {
    if v.Str? {
      CleanUnchanged(Clean(v.s));
    }
  }

  // ---------------------------------------------------------------------
  // _col_fmt
  // ---------------------------------------------------------------------

  /** `_col_fmt`: the column name of an extra tag, its first letter lower-cased. */
  function ColFmt(s: string): (r: string)
    ensures |r| == |s|
    ensures forall i :: 1 <= i < |s| ==> r[i] == s[i]
    ensures s != [] ==> r[0] == LowerChar(s[0])
  {
    if s == [] then s else [LowerChar(s[0])] + s[1..]
  }

  /** Formatting a column name twice is formatting it once. */
  lemma ColFmtIdempotent(s: string)
    ensures ColFmt(ColFmt(s)) == ColFmt(s)
  {
    if s != [] {
      assert ColFmt(ColFmt(s))[0] == ColFmt(s)[0];
    }
  }

  /** The column names of the two extra tags asked for by name. */
  lemma ColFmtManufacturer()
    ensures ColFmt("Manufacturer") == "manufacturer"
    ensures ColFmt("ManufacturerModelName") == "manufacturerModelName"
  {
    assert ColFmt("Manufacturer")[0] == 'm';
    assert ColFmt("ManufacturerModelName")[0] == 'm';
  }

  // ---------------------------------------------------------------------
  // _extract_key
  // ---------------------------------------------------------------------

  /** Whether `dataset.get(key, None)` is something other than `None`. */
  predicate Given(ds: Dict<Json>, key: string) {
    Get(ds, key).Some? && Get(ds, key).value != Null
  }

  /**
    `_extract_key`: the value under `key`, or `default` when there is none;
    a string, whichever it is, comes back cleaned.
   */
  function ExtractKey(ds: Dict<Json>, key: string, default: Json): (r: Json)
    ensures !Given(ds, key) ==> r == CleanValue(default)
    ensures Given(ds, key) && !At(ds, key).Str? ==> r == At(ds, key)
    ensures Given(ds, key) && At(ds, key).Str? ==> r == Str(Clean(At(ds, key).s))
  {
    var value := if Given(ds, key) then Get(ds, key).value else default;
    CleanValue(value)
  }

  // ---------------------------------------------------------------------
  // _extract_time
  // ---------------------------------------------------------------------

  /** The date and time of a row: a date/time pair to parse, or the epoch. */
  datatype Stamp = DateTime(date: Json, time: Json) | Epoch

  /** A source of the date and time: its date keyword, its time keyword, the name it reports. */
  datatype TimeSource = TimeSource(date: string, time: string, name: string)

  /** The sources `_extract_time` tries, in the order it tries them. */
  const TimeSources: seq<TimeSource> := [
    TimeSource("AcquisitionDate", "AcquisitionTime", "AcquisitionDateTime"),
    TimeSource("StudyDate", "StudyTime", "StudyDateTime"),
    TimeSource("InstanceCreationDate", "InstanceCreationTime", "InstanceCreationDateTime"),
    TimeSource("SeriesDate", "SeriesTime", "SeriesDateTime")
  ]

  /** Both keywords of `src` are in the dataset (whatever their values). */
  predicate Offers(ds: Dict<Json>, src: TimeSource) {
    src.date in Keys(ds) && src.time in Keys(ds)
  }

  function StampOf(ds: Dict<Json>, src: TimeSource): Stamp
    requires Offers(ds, src)
  {
    DateTime(At(ds, src.date), At(ds, src.time))
  }

  /**
    `_extract_time`, up to parsing the pair it picks: the first source
    whose two keywords are both present, else the epoch and `"N/A"`.
   */
  function ExtractTime(ds: Dict<Json>): (r: (Stamp, string))
    ensures r.1 == NA <==> forall i :: 0 <= i < |TimeSources| ==> !Offers(ds, TimeSources[i])
    ensures r.1 == NA ==> r.0 == Epoch
  {
    TimeSourceNamesDiffer();
    if Offers(ds, TimeSources[0]) then (StampOf(ds, TimeSources[0]), TimeSources[0].name)
    else if Offers(ds, TimeSources[1]) then (StampOf(ds, TimeSources[1]), TimeSources[1].name)
    else if Offers(ds, TimeSources[2]) then (StampOf(ds, TimeSources[2]), TimeSources[2].name)
    else if Offers(ds, TimeSources[3]) then (StampOf(ds, TimeSources[3]), TimeSources[3].name)
    else (Epoch, NA)
  }

  /** The first source that offers both keywords decides the stamp and the name. */
  lemma ExtractTimeFirst(ds: Dict<Json>, i: nat)
    requires i < |TimeSources| && Offers(ds, TimeSources[i])
    requires forall j :: 0 <= j < i ==> !Offers(ds, TimeSources[j])
    ensures ExtractTime(ds) == (StampOf(ds, TimeSources[i]), TimeSources[i].name)
  {
    if i > 0 {
      assert !Offers(ds, TimeSources[0]);
    }
    if i > 1 {
      assert !Offers(ds, TimeSources[1]);
    }
    if i > 2 {
      assert !Offers(ds, TimeSources[2]);
    }
  }

  /** The names a row's date and time can carry are all different. */
  lemma TimeSourceNamesDiffer()
    ensures forall i :: 0 <= i < |TimeSources| ==> TimeSources[i].name != NA
    ensures forall i, j :: 0 <= i < j < |TimeSources| ==> TimeSources[i].name != TimeSources[j].name
  {
    assert NA[0] == 'N';
    assert TimeSources[0].name[0] == 'A' && TimeSources[2].name[0] == 'I';
    assert TimeSources[1].name[1] == 't' && TimeSources[3].name[1] == 'e';
  }

  // ---------------------------------------------------------------------
  // size
  // ---------------------------------------------------------------------

  /**
    The `size` of a row: `[columns, rows]` when the header gives both,
    `"N/A"` when it lacks either.
   */
  function Size(ds: Dict<Json>): (r: Json)
    ensures r == Str(NA) <==> !Given(ds, "Columns") || !Given(ds, "Rows")
    ensures r != Str(NA) ==> r == List([CleanValue(At(ds, "Columns")), CleanValue(At(ds, "Rows"))])
  {
    var cols := ExtractKey(ds, "Columns", Null);
    var rows := ExtractKey(ds, "Rows", Null);
    if cols == Null || rows == Null then Str(NA) else List([cols, rows])
  }

  // ---------------------------------------------------------------------
  // Series grouping
  // ---------------------------------------------------------------------

  /** The series a file belongs to: the name of the folder holding it. */
  function SeriesId(file: string): string {
    Name(Parent(file))
  }

  /** `files_per_series[series_id].append(f)` on a `defaultdict(list)`. */
  function AddFile(groups: Dict<seq<string>>, file: string, series: string -> string): (r: Dict<seq<string>>)
    ensures Get(r, series(file)) == Some(GetOr(groups, series(file), []) + [file])
    ensures forall k :: k != series(file) ==> Get(r, k) == Get(groups, k)
  {
    Put(groups, series(file), GetOr(groups, series(file), []) + [file])
  }

  /** The first `n` files that lie in series `k`, in their order. */
  function InSeries(files: seq<string>, n: nat, k: string, series: string -> string): seq<string>
    requires n <= |files|
  {
    if n == 0 then []
    else InSeries(files, n - 1, k, series) + (if series(files[n - 1]) == k then [files[n - 1]] else [])
  }

  /** The series of the first `n` files, each once, in the order of its first file. */
  function SeriesOrder(files: seq<string>, n: nat, series: string -> string): seq<string>
    requires n <= |files|
  {
    if n == 0 then []
    else
      var ks := SeriesOrder(files, n - 1, series);
      if series(files[n - 1]) in ks then ks else ks + [series(files[n - 1])]
  }

  /**
    What the grouping loop builds from the first `n` files, stated without
    the loop: one entry per series, in the order of its first file, holding
    the files of that series in their order.
   */
  function Groups(files: seq<string>, n: nat, series: string -> string): Dict<seq<string>>
    requires n <= |files|
  {
    var ks := SeriesOrder(files, n, series);
    seq(|ks|, j requires 0 <= j < |ks| => (ks[j], InSeries(files, n, ks[j], series)))
  }

  /** The groups are keyed by the series in the order of their first file. */
  lemma GroupsKeys(files: seq<string>, n: nat, series: string -> string)
    requires n <= |files|
    ensures Keys(Groups(files, n, series)) == SeriesOrder(files, n, series)
  {
    assert Keys(Groups(files, n, series)) == SeriesOrder(files, n, series);
  }

  /** Each series is listed once, and exactly the series of the files are listed. */
  lemma {:induction false} SeriesOrderMembers(files: seq<string>, n: nat, series: string -> string)
    requires n <= |files|
    ensures Distinct(SeriesOrder(files, n, series))
    ensures forall k :: k in SeriesOrder(files, n, series) <==> exists i :: 0 <= i < n && series(files[i]) == k
  {
    if n > 0 {
      SeriesOrderMembers(files, n - 1, series);
      forall k | k in SeriesOrder(files, n, series) ensures exists i :: 0 <= i < n && series(files[i]) == k {
        if k != series(files[n - 1]) {
          assert k in SeriesOrder(files, n - 1, series);
        }
      }
      forall i | 0 <= i < n ensures series(files[i]) in SeriesOrder(files, n, series) {
        if i < n - 1 {
          assert series(files[i]) in SeriesOrder(files, n - 1, series);
        }
      }
    }
  }

  /** A group holds only files of its own series, and every file of that series. */
  lemma {:induction false} InSeriesMembers(files: seq<string>, n: nat, k: string, series: string -> string)
    requires n <= |files|
    ensures forall f :: f in InSeries(files, n, k, series) ==> series(f) == k
    ensures forall i :: 0 <= i < n && series(files[i]) == k ==> files[i] in InSeries(files, n, k, series)
  {
    if n > 0 {
      InSeriesMembers(files, n - 1, k, series);
    }
  }

  /** A series is listed exactly when one of its files has come, so no group is empty. */
  lemma {:induction false} SeriesOrderHas(files: seq<string>, n: nat, series: string -> string, k: string)
    requires n <= |files|
    ensures k in SeriesOrder(files, n, series) <==> InSeries(files, n, k, series) != []
  {
    if n > 0 {
      SeriesOrderHas(files, n - 1, series, k);
    }
  }

  /** Looking a series up in the groups gives exactly its files, and nothing for a series without files. */
  lemma GroupsGet(files: seq<string>, n: nat, series: string -> string, k: string)
    requires n <= |files|
    ensures IsDict(Groups(files, n, series))
    ensures Get(Groups(files, n, series), k) == if InSeries(files, n, k, series) == [] then None else Some(InSeries(files, n, k, series))
    ensures GetOr(Groups(files, n, series), k, []) == InSeries(files, n, k, series)
  {
    var g := Groups(files, n, series);
    var ks := SeriesOrder(files, n, series);
    GroupsKeys(files, n, series);
    SeriesOrderMembers(files, n, series);
    SeriesOrderHas(files, n, series, k);
    if k in ks {
      var j :| 0 <= j < |ks| && ks[j] == k;
      FindPositional(g, k, j);
    }
  }

  /** The loop body keeps the groups equal to their reference definition. */
  lemma GroupsStep(files: seq<string>, n: nat, series: string -> string)
    requires n < |files|
    ensures Groups(files, n + 1, series) == AddFile(Groups(files, n, series), files[n], series)
  {
    var g := Groups(files, n, series);
    var f := files[n];
    var id := series(f);
    var ks := SeriesOrder(files, n, series);
    var next := Groups(files, n + 1, series);
    GroupsGet(files, n, series, id);
    GroupsKeys(files, n, series);
    var v := InSeries(files, n, id, series) + [f];
    assert AddFile(g, f, series) == Put(g, id, v);
    SeriesOrderMembers(files, n, series);
    if id in ks {
      PutExisting(g, id, v);
      var i := IndexOf(g, id);
      assert SeriesOrder(files, n + 1, series) == ks;
      forall j | 0 <= j < |g| ensures next[j] == g[i := (id, v)][j] {
        assert next[j] == (ks[j], InSeries(files, n + 1, ks[j], series));
        assert g[j] == (ks[j], InSeries(files, n, ks[j], series));
        if j != i {
          assert ks[j] != id;
          assert InSeries(files, n + 1, ks[j], series) == InSeries(files, n, ks[j], series);
        } else {
          assert InSeries(files, n + 1, id, series) == v;
        }
      }
    } else {
      assert SeriesOrder(files, n + 1, series) == ks + [id];
      SeriesOrderHas(files, n, series, id);
      forall j | 0 <= j < |next| ensures next[j] == (g + [(id, v)])[j] {
        if j < |ks| {
          assert next[j] == (ks[j], InSeries(files, n + 1, ks[j], series));
          assert g[j] == (ks[j], InSeries(files, n, ks[j], series));
          assert ks[j] != id;
          assert InSeries(files, n + 1, ks[j], series) == InSeries(files, n, ks[j], series);
        } else {
          assert next[j] == (id, InSeries(files, n + 1, id, series));
          assert InSeries(files, n + 1, id, series) == v;
        }
      }
    }
  }

  /** The number of files over all groups: `sum(map(len, files_per_series.values()))`. */
  function FileCount(groups: Dict<seq<string>>): nat {
    if groups == [] then 0 else FileCount(groups[..|groups| - 1]) + |groups[|groups| - 1].1|
  }

  /** Without truncation every file is counted once. */
  lemma {:induction false} GroupsFileCount(files: seq<string>, n: nat, series: string -> string)
    requires n <= |files|
    ensures FileCount(Groups(files, n, series)) == n
  {
    if n > 0 {
      GroupsFileCount(files, n - 1, series);
      GroupsCountStep(files, n - 1, series);
    }
  }

  /** One more file adds one to the count of the groups. */
  lemma GroupsCountStep(files: seq<string>, n: nat, series: string -> string)
    requires n < |files|
    ensures FileCount(Groups(files, n + 1, series)) == FileCount(Groups(files, n, series)) + 1
  {
    GroupsStep(files, n, series);
    AddFileCount(Groups(files, n, series), Groups(files, n + 1, series), files[n], series);
  }

  /** Appending a file to its group adds one to the count. */
  lemma AddFileCount(groups: Dict<seq<string>>, next: Dict<seq<string>>, f: string, series: string -> string)
    requires next == AddFile(groups, f, series)
    ensures FileCount(next) == FileCount(groups) + 1
  {
    var id := series(f);
    if id in Keys(groups) {
      var i := IndexOf(groups, id);
      PutExisting(groups, id, groups[i].1 + [f]);
      assert AddFile(groups, f, series) == groups[i := (id, groups[i].1 + [f])];
      FileCountUpdate(groups, i, groups[i].1 + [f]);
    } else {
      assert AddFile(groups, f, series)[..|groups|] == groups;
    }
  }

  /** Replacing the files of one group changes the count by the difference. */
  lemma {:induction false} FileCountUpdate(groups: Dict<seq<string>>, i: nat, fs: seq<string>)
    requires i < |groups|
    ensures FileCount(groups[i := (groups[i].0, fs)]) == FileCount(groups) - |groups[i].1| + |fs|
  {
    var last := |groups| - 1;
    var updated := groups[i := (groups[i].0, fs)];
    if i == last {
      assert updated[..last] == groups[..last];
    } else {
      FileCountUpdate(groups[..last], i, fs);
      assert updated[..last] == groups[..last][i := (groups[i].0, fs)];
    }
  }

  /**
    The groups kept: with `n_series_max` a positive number, the first
    `n_series_max` of them (`islice`); otherwise all.
   */
  function Truncated(groups: Dict<seq<string>>, nSeriesMax: Option<int>): (r: Dict<seq<string>>)
    ensures |r| == if nSeriesMax.Some? && 0 < nSeriesMax.value < |groups| then nSeriesMax.value else |groups|
    ensures r == groups[..|r|]
  {
    if nSeriesMax.Some? && nSeriesMax.value > 0 && nSeriesMax.value < |groups| then groups[..nSeriesMax.value]
    else groups
  }

  /** Keeping fewer groups never counts more files. */
  lemma {:induction false} FileCountPrefix(groups: Dict<seq<string>>, m: nat)
    requires m <= |groups|
    ensures FileCount(groups[..m]) <= FileCount(groups)
  {
    if m < |groups| {
      FileCountPrefix(groups[..|groups| - 1], m);
      assert groups[..|groups| - 1][..m] == groups[..m];
    } else {
      assert groups[..m] == groups;
    }
  }

  /**
    `files_per_series`, `n_files` and `n_series` as the summary computes
    them from the sorted list of files.
   */
  method GroupBySeries(files: seq<string>, nSeriesMax: Option<int>)
    returns (groups: Dict<seq<string>>, nFiles: nat, nSeries: nat)
    ensures groups == Truncated(Groups(files, |files|, SeriesId), nSeriesMax)
    ensures nFiles == FileCount(groups) && nSeries == |groups|
  {
    groups := [];
    for i := 0 to |files|
      invariant groups == Groups(files, i, SeriesId)
    {
      GroupsStep(files, i, SeriesId);
      var id := SeriesId(files[i]);
      var sofar := if id in Keys(groups) then At(groups, id) else [];
      DefaultLookup(groups, id);
      groups := Put(groups, id, sofar + [files[i]]);
    }
    if nSeriesMax.Some? && nSeriesMax.value > 0 && nSeriesMax.value < |groups| {
      groups := groups[..nSeriesMax.value];
    }
    nFiles := FileCount(groups);
    nSeries := |groups|;
  }

  /** A `defaultdict(list)` lookup: the list under `k`, or a fresh empty one. */
  lemma DefaultLookup(groups: Dict<seq<string>>, k: string)
    ensures (if k in Keys(groups) then At(groups, k) else []) == GetOr(groups, k, [])
  {
  }

  /**
    The summary's bookkeeping: `n_series` groups, at most `n_series_max`
    of them when that is positive, holding `n_files` files, all of them
    when nothing was cut.
   */
  lemma SummaryCounts(files: seq<string>, nSeriesMax: Option<int>, series: string -> string)
    ensures |Truncated(Groups(files, |files|, series), nSeriesMax)| == |SeriesOrder(files, |files|, series)|
            || (nSeriesMax.Some? && |Truncated(Groups(files, |files|, series), nSeriesMax)| == nSeriesMax.value)
    ensures FileCount(Truncated(Groups(files, |files|, series), nSeriesMax)) <= |files|
    ensures (nSeriesMax.None? || nSeriesMax.value <= 0 || nSeriesMax.value >= |SeriesOrder(files, |files|, series)|) ==>
              FileCount(Truncated(Groups(files, |files|, series), nSeriesMax)) == |files|
  {
    var g := Groups(files, |files|, series);
    GroupsFileCount(files, |files|, series);
    FileCountPrefix(g, |Truncated(g, nSeriesMax)|);
  }
}
