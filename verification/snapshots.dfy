/**
  File naming of the HTTP snapshot store (server.ts): every POST stores the
  request body as `<name>-<timestamp>.json`, where the timestamp is the ISO
  time of the request with `:` and `.` replaced by `-`; the response and the
  listing name a snapshot by its file name with the first ".json" removed;
  GET and DELETE look a snapshot up as `<id>.json`.

  The clock and the directory are inputs: `iso` is the value of
  `new Date().toISOString()`, and the data directory is a sequence of entry
  names (as `readdirSync` returns them) or, for GET and DELETE, a map from
  file name to file content.
 */
module Snapshots {
  import opened Wrappers
  import opened Strings
  import opened Sorting

  const JsonExt: string := ".json"

  // ---------------------------------------------------------------------
  // Timestamp and file name of a POST
  // ---------------------------------------------------------------------

  /** `iso.replace(/[:.]/g, "-")`. */
  function SanitiseTimestamp(iso: string): (r: string)
    ensures |r| == |iso|
    ensures ':' !in r && '.' !in r
    ensures forall i :: 0 <= i < |iso| && iso[i] != ':' && iso[i] != '.' ==> r[i] == iso[i]
    ensures forall i :: 0 <= i < |iso| && (iso[i] == ':' || iso[i] == '.') ==> r[i] == '-'
  {
    if iso == [] then []
    else
      var c := if iso[0] == ':' || iso[0] == '.' then '-' else iso[0];
      [c] + SanitiseTimestamp(iso[1..])
  }

  /** `${name}-${timestamp}.json`. */
  function StoredFilename(name: string, timestamp: string): (r: string)
    ensures |r| == |name| + 1 + |timestamp| + |JsonExt|
    ensures StartsWith(r, name) && r[|name|] == '-' && EndsWith(r, JsonExt)
    ensures r[|name| + 1..|r| - |JsonExt|] == timestamp
  {
    var r := name + "-" + timestamp + JsonExt;
    assert r[..|name|] == name;
    assert r[|name| + 1..|r| - |JsonExt|] == timestamp;
    r
  }

  /** `f.replace(".json", "")`: the id under which a file is reported. */
  function StripFirstJson(f: string): (r: string)
    ensures !Contains(f, JsonExt) ==> r == f
    ensures Contains(f, JsonExt) ==> |r| == |f| - |JsonExt|
  {
    if IndexOf(f, JsonExt).Some? then
      ReplaceFirstLength(f, JsonExt, "");
      ReplaceFirst(f, JsonExt, "")
    else ReplaceFirst(f, JsonExt, "")
  }

  /** `${id}.json`: the file GET and DELETE look for. */
  function LookupFilename(id: string): (r: string)
    ensures StartsWith(r, id) && EndsWith(r, JsonExt) && |r| == |id| + |JsonExt|
  {
    var r := id + JsonExt;
    assert r[..|id|] == id;
    r
  }

  /** The lookup name of an id loses exactly its extension again when the extension is stripped. */
  lemma LookupStripsBack(id: string)
    ensures StripExtension(LookupFilename(id)) == id
  {
    assert LookupFilename(id)[..|id|] == id;
  }

  /** What a POST stores and answers: the file written, and the `filename` and `timestamp` fields of the response. */
  datatype SaveReceipt = SaveReceipt(storedAs: string, filename: string, timestamp: string)

  /**
    In `<name>-<timestamp>.json` with a sanitised timestamp, the first ".json"
    is the one in `name` if there is one, and the extension otherwise.
   */
  lemma {:induction false} FirstJsonOfStoredFilename(name: string, timestamp: string)
    requires '.' !in timestamp
    ensures !Contains(name, JsonExt) ==> StripFirstJson(StoredFilename(name, timestamp)) == name + "-" + timestamp
    ensures Contains(name, JsonExt) ==>
      StripFirstJson(StoredFilename(name, timestamp)) == StripFirstJson(name) + "-" + timestamp + JsonExt
  {
    var s := StoredFilename(name, timestamp);
    if Contains(name, JsonExt) {
      assert s == name + ("-" + timestamp + JsonExt);
      ReplaceFirstInPrefix(name, "-" + timestamp + JsonExt, JsonExt, "");
    } else {
      var e := |name| + 1 + |timestamp|;
      assert s[e..e + 5] == JsonExt;
      forall j | 0 <= j < e ensures !OccursAt(s, JsonExt, j) {
        NoJsonBeforeExtension(name, timestamp, j);
      }
      ReplaceFirstAt(s, JsonExt, "", e);
      assert s[..e] == name + "-" + timestamp;
    }
  }

  /** Before the extension, `<name>-<timestamp>.json` holds no ".json" unless `name` does. */
  lemma NoJsonBeforeExtension(name: string, timestamp: string, j: nat)
    requires '.' !in timestamp && !Contains(name, JsonExt)
    requires j < |name| + 1 + |timestamp|
    ensures !OccursAt(StoredFilename(name, timestamp), JsonExt, j)
  {
    var s := StoredFilename(name, timestamp);
    var w := s[j..j + 5];
    if j + 5 <= |name| {
      assert w == name[j..j + 5];
      assert !OccursAt(name, JsonExt, j);
    } else if j <= |name| {
      assert w[|name| - j] == s[|name|] == '-';
      assert '-' !in JsonExt;
    } else {
      assert w[0] == s[j] == timestamp[j - |name| - 1];
      assert JsonExt[0] == '.';
    }
  }

  /** The POST handlers for `/api/data/:name` and `/api/health`. */
  function SaveSnapshot(name: string, iso: string): (r: SaveReceipt)
    ensures r.timestamp == SanitiseTimestamp(iso)
    ensures r.storedAs == name + "-" + r.timestamp + JsonExt
    ensures !Contains(name, JsonExt) ==> r.filename == name + "-" + r.timestamp
    ensures Contains(name, JsonExt) ==> r.filename == StripFirstJson(name) + "-" + r.timestamp + JsonExt
    ensures !Contains(name, JsonExt) ==> LookupFilename(r.filename) == r.storedAs
  {
    var timestamp := SanitiseTimestamp(iso);
    var filename := StoredFilename(name, timestamp);
    FirstJsonOfStoredFilename(name, timestamp);
    SaveReceipt(filename, StripFirstJson(filename), timestamp)
  }

  /** `POST /api/health`: the same as POST `/api/data/health`. */
  function SaveHealth(iso: string): (r: SaveReceipt)
    ensures r.timestamp == SanitiseTimestamp(iso)
    ensures r.filename == "health-" + r.timestamp
    ensures r.storedAs == r.filename + JsonExt
  {
    assert !Contains("health", JsonExt) by {
      forall i ensures !OccursAt("health", JsonExt, i) {
        if 0 <= i && i + 5 <= 6 { assert "health"[i..i + 5][0] == "health"[i]; }
      }
    }
    SaveSnapshot("health", iso)
  }

  /** A GET of the id `POST /api/health` answered serves the health record it stored. */
  lemma SavedHealthIsFetchable(files: map<string, string>, iso: string, content: string)
    requires content != ""
    ensures var r := SaveHealth(iso);
      GetSnapshot(files[r.storedAs := content], r.filename) == Found(content)
  {
  }

  // ---------------------------------------------------------------------
  // GET and DELETE of one snapshot
  // ---------------------------------------------------------------------

  datatype Fetched = Found(content: string) | NotFound

  /**
    `GET /api/data/:name`: reads `<name>.json`; a missing file and an empty
    one (whose content is falsy) are both answered "Not found".
   */
  function GetSnapshot(files: map<string, string>, id: string): (r: Fetched)
    ensures r.Found? <==> LookupFilename(id) in files && files[LookupFilename(id)] != ""
    ensures r.Found? ==> r.content == files[id + JsonExt]
  {
    var f := LookupFilename(id);
    if f in files && files[f] != "" then Found(files[f]) else NotFound
  }

  /** `DELETE /api/data/:name`: removes `<name>.json` if it exists; reports whether it did. */
  function DeleteSnapshot(files: map<string, string>, id: string): (r: (map<string, string>, bool))
    ensures r.1 <==> id + JsonExt in files
    ensures r.0.Keys == files.Keys - {id + JsonExt}
    ensures forall f :: f in r.0 ==> r.0[f] == files[f]
  {
    var f := LookupFilename(id);
    if f in files then (files - {f}, true) else (files, false)
  }

  /**
    A snapshot stored by a POST whose name holds no ".json" is served back,
    unchanged, by a GET of the `filename` the POST answered.
   */
  lemma SavedSnapshotIsFetchable(files: map<string, string>, name: string, iso: string, content: string)
    requires !Contains(name, JsonExt)
    requires content != ""
    ensures var r := SaveSnapshot(name, iso);
      GetSnapshot(files[r.storedAs := content], r.filename) == Found(content)
  {
  }

  /** The same id, given to DELETE, removes exactly that file. */
  lemma SavedSnapshotIsDeletable(files: map<string, string>, name: string, iso: string, content: string)
    requires !Contains(name, JsonExt)
    ensures var r := SaveSnapshot(name, iso);
      DeleteSnapshot(files[r.storedAs := content], r.filename) == (files - {r.storedAs}, true)
  {
    var r := SaveSnapshot(name, iso);
    var d := DeleteSnapshot(files[r.storedAs := content], r.filename);
    assert d.0 == files - {r.storedAs};
  }

  // ---------------------------------------------------------------------
  // The listing
  // ---------------------------------------------------------------------

  /** `entries.filter((f) => f.endsWith(".json"))`. */
  function JsonEntries(entries: seq<string>): (r: seq<string>)
    ensures forall x :: multiset(r)[x] == if EndsWith(x, JsonExt) then multiset(entries)[x] else 0
  {
    if entries == [] then []
    else
      assert entries == [entries[0]] + entries[1..];
      (if EndsWith(entries[0], JsonExt) then [entries[0]] else []) + JsonEntries(entries[1..])
  }

  /** `s.map(f)`. */
  function Map(f: string -> string, s: seq<string>): (r: seq<string>)
    ensures |r| == |s|
  {
    if s == [] then [] else [f(s[0])] + Map(f, s[1..])
  }

  lemma {:induction false} MapAt(f: string -> string, s: seq<string>, k: nat)
    requires k < |s|
    ensures Map(f, s)[k] == f(s[k])
    decreases k
  {
    if k > 0 {
      MapAt(f, s[1..], k - 1);
    }
  }

  lemma MapCons(f: string -> string, s: seq<string>)
    requires s != []
    ensures multiset(Map(f, s)) == multiset{f(s[0])} + multiset(Map(f, s[1..]))
  {
    assert Map(f, s) == [f(s[0])] + Map(f, s[1..]);
  }

  /** Taking the element at `k` out of `s` takes its image out of the mapped multiset. */
  lemma {:induction false} MapWithout(f: string -> string, s: seq<string>, k: nat)
    requires k < |s|
    ensures multiset(Map(f, s)) == multiset(Map(f, s[..k] + s[k + 1..])) + multiset{f(s[k])}
    decreases k
  {
    var t := s[..k] + s[k + 1..];
    MapCons(f, s);
    if k == 0 {
      assert t == s[1..];
    } else {
      var tail := s[1..];
      assert t[0] == s[0] && tail[k - 1] == s[k];
      assert t[1..] == tail[..k - 1] + tail[k..];
      MapWithout(f, tail, k - 1);
      MapCons(f, t);
      MultisetRotate(multiset(Map(f, s)), multiset(Map(f, tail)), multiset(Map(f, t[1..])), multiset(Map(f, t)), f(s[0]), f(s[k]));
    }
  }

  lemma MultisetRotate(whole: multiset<string>, rest: multiset<string>, core: multiset<string>, part: multiset<string>, x: string, y: string)
    requires whole == multiset{x} + rest && rest == core + multiset{y} && part == multiset{x} + core
    ensures whole == part + multiset{y}
  {
  }

  lemma MultisetWithout(s: seq<string>, k: nat)
    requires k < |s|
    ensures multiset(s[..k] + s[k + 1..]) == multiset(s) - multiset{s[k]}
  {
    assert s == s[..k] + ([s[k]] + s[k + 1..]);
  }

  /** Mapping a function over a sequence depends only on its multiset. */
  lemma {:induction false} MapPermutation(f: string -> string, a: seq<string>, b: seq<string>)
    requires multiset(a) == multiset(b)
    ensures multiset(Map(f, a)) == multiset(Map(f, b))
    decreases |a|
  {
    if a == [] {
      assert |b| == |multiset(b)| == 0;
    } else {
      assert a[0] in multiset(b);
      var k :| 0 <= k < |b| && b[k] == a[0];
      MultisetWithout(b, k);
      MultisetOfTail(a);
      MapPermutation(f, a[1..], b[..k] + b[k + 1..]);
      MapCons(f, a);
      MapWithout(f, b, k);
    }
  }

  /** The ids the listing is made of, before sorting. */
  function ListedIds(entries: seq<string>): seq<string> {
    Map(StripFirstJson, JsonEntries(entries))
  }

  /**
    `listFiles()`: the ".json" entries, each with its first ".json" removed,
    sorted and then reversed.
   */
  function ListFiles(entries: seq<string>): (r: seq<string>)
    ensures Descending(r)
    ensures multiset(r) == multiset(ListedIds(entries))
    ensures |r| == |JsonEntries(entries)|
  {
    var r := SortDescending(ListedIds(entries));
    assert |r| == |multiset(r)|;
    r
  }

  /**
    The listing is the one non-increasing arrangement of the stripped
    ".json" entries: any sequence with those elements in non-increasing
    order is it, and it is one.
   */
  lemma ListFilesCharacterised(entries: seq<string>, out: seq<string>)
    ensures out == ListFiles(entries) <==> Descending(out) && multiset(out) == multiset(ListedIds(entries))
  {
    if Descending(out) && multiset(out) == multiset(ListedIds(entries)) {
      DescendingUnique(out, ListFiles(entries));
    }
  }

  /** Directories with the same entries have the same ".json" entries. */
  lemma JsonEntriesPermutation(a: seq<string>, b: seq<string>)
    requires multiset(a) == multiset(b)
    ensures multiset(JsonEntries(a)) == multiset(JsonEntries(b))
  {
    assert forall x :: multiset(JsonEntries(a))[x] == multiset(JsonEntries(b))[x];
  }

  /** The listing depends only on the multiset of the stripped ".json" entries. */
  lemma SameIdsSameListing(a: seq<string>, b: seq<string>)
    requires multiset(JsonEntries(a)) == multiset(JsonEntries(b))
    ensures ListFiles(a) == ListFiles(b)
  {
    MapPermutation(StripFirstJson, JsonEntries(a), JsonEntries(b));
    DescendingUnique(ListFiles(a), ListFiles(b));
  }

  /** The order in which the directory returns its entries does not matter. */
  lemma ListFilesIgnoresDirectoryOrder(a: seq<string>, b: seq<string>)
    requires multiset(a) == multiset(b)
    ensures ListFiles(a) == ListFiles(b)
  {
    JsonEntriesPermutation(a, b);
    SameIdsSameListing(a, b);
  }

  /** Entries without the ".json" extension never reach the listing. */
  lemma ListFilesSkipsOtherEntries(entries: seq<string>, x: string)
    requires !EndsWith(x, JsonExt)
    ensures ListFiles(entries + [x]) == ListFiles(entries)
  {
    var e := entries + [x];
    assert multiset(e) == multiset(entries) + multiset{x};
    assert forall y :: multiset(JsonEntries(e))[y] == multiset(JsonEntries(entries))[y];
    SameIdsSameListing(e, entries);
  }

  // ---------------------------------------------------------------------
  // Ids of names that contain ".json"
  // ---------------------------------------------------------------------

  /** The name "a.json" holds ".json" at index 1, and stripping it leaves "a". */
  lemma JsonNamedExample()
    ensures Contains("a.json", JsonExt) && StripFirstJson("a.json") == "a"
  {
    var name := "a.json";
    assert name[1..6] == JsonExt;
    assert OccursAt(name, JsonExt, 1);
    assert !OccursAt(name, JsonExt, 0) by { assert name[0..5][0] == 'a'; }
    IndexOfIsFirst(name, JsonExt, 1);
  }

  /**
    As written, the id a POST answers is not the id of the stored file when
    the name itself contains ".json": for the name "a.json" the file is
    `a.json-<timestamp>.json`, the answered id is `a-<timestamp>.json`, and a
    GET of that id looks for `a-<timestamp>.json.json`, which is not it.
   */
  lemma SavedJsonNamedSnapshotNotFetchable(iso: string, content: string)
    ensures var r := SaveSnapshot("a.json", iso);
      && r.filename == "a-" + r.timestamp + JsonExt
      && LookupFilename(r.filename) != r.storedAs
      && GetSnapshot(map[r.storedAs := content], r.filename) == NotFound
  {
    var r := SaveSnapshot("a.json", iso);
    JsonNamedSaveId(iso);
    JsonNamedIdDiffers(r.timestamp);
    var m := map[r.storedAs := content];
    assert LookupFilename(r.filename) !in m;
  }

  lemma JsonNamedSaveId(iso: string)
    ensures SaveSnapshot("a.json", iso).filename == "a-" + SaveSnapshot("a.json", iso).timestamp + JsonExt
  {
    var r := SaveSnapshot("a.json", iso);
    JsonNamedExample();
    assert r.filename == "a" + "-" + r.timestamp + JsonExt;
    assert "a" + "-" == "a-";
  }

  lemma JsonNamedIdDiffers(ts: string)
    ensures LookupFilename("a-" + ts + JsonExt) != "a.json" + "-" + ts + JsonExt
  {
    assert LookupFilename("a-" + ts + JsonExt)[1] == '-';
  }

  /** A directory holding one ".json" file lists just that file's id. */
  lemma ListFilesSingle(f: string)
    requires EndsWith(f, JsonExt)
    ensures ListFiles([f]) == [StripFirstJson(f)]
  {
    assert JsonEntries([f]) == [f] by {
      assert JsonEntries([f]) == [f] + JsonEntries([]);
    }
    assert ListedIds([f]) == [StripFirstJson(f)];
    ListFilesCharacterised([f], [StripFirstJson(f)]);
  }

  /**
    The same for the listing: a directory holding only the file that POST
    stored for "a.json" lists it under the answered id, and a GET of that id
    does not find the file.
   */
  lemma ListedJsonNamedEntryNotFetchable(iso: string)
    ensures var r := SaveSnapshot("a.json", iso);
      && ListFiles([r.storedAs]) == [r.filename]
      && LookupFilename(r.filename) !in [r.storedAs]
  {
    var r := SaveSnapshot("a.json", iso);
    assert EndsWith(r.storedAs, JsonExt);
    ListFilesSingle(r.storedAs);
    SavedJsonNamedSnapshotNotFetchable(iso, "");
  }

  /** What the id evidently should be: the file name without its ".json" extension. */
  function StripExtension(f: string): (r: string)
    ensures EndsWith(f, JsonExt) ==> LookupFilename(r) == f
    ensures !EndsWith(f, JsonExt) ==> r == f
  {
    if EndsWith(f, JsonExt) then f[..|f| - |JsonExt|] else f
  }

  /** POST with the extension stripped: its id always finds the stored file. */
  function SaveSnapshotIntended(name: string, iso: string): (r: SaveReceipt)
    ensures r.timestamp == SanitiseTimestamp(iso)
    ensures r.storedAs == name + "-" + r.timestamp + JsonExt
    ensures r.filename == name + "-" + r.timestamp
    ensures LookupFilename(r.filename) == r.storedAs
  {
    var timestamp := SanitiseTimestamp(iso);
    var filename := StoredFilename(name, timestamp);
    SaveReceipt(filename, StripExtension(filename), timestamp)
  }

  /** The listing with the extension stripped: every listed id names a file of the directory. */
  function ListFilesIntended(entries: seq<string>): (r: seq<string>)
    ensures Descending(r)
    ensures multiset(r) == multiset(Map(StripExtension, JsonEntries(entries)))
    ensures forall id :: id in r ==> LookupFilename(id) in entries && EndsWith(LookupFilename(id), JsonExt)
  {
    var js := JsonEntries(entries);
    var r := SortDescending(Map(StripExtension, js));
    forall id | id in r ensures LookupFilename(id) in entries && EndsWith(LookupFilename(id), JsonExt) {
      assert id in multiset(Map(StripExtension, js));
      var k :| 0 <= k < |js| && Map(StripExtension, js)[k] == id;
      MapAt(StripExtension, js, k);
      assert js[k] in multiset(js);
      assert multiset(entries)[js[k]] > 0;
    }
    r
  }

  /** For every snapshot a POST stores, a GET of the intended id serves it back. */
  lemma IntendedSnapshotIsFetchable(files: map<string, string>, name: string, iso: string, content: string)
    requires content != ""
    ensures var r := SaveSnapshotIntended(name, iso);
      GetSnapshot(files[r.storedAs := content], r.filename) == Found(content)
  {
  }
}
