/**
 * CouchbasePeerManager: the adapter that presents Couchbase Lite databases to
 * a Stetho debugging client as the tables of its Database domain. The
 * manager's two settings (the application package name and whether metadata
 * properties are shown) are fixed at construction, so they are parameters
 * here; the storage engine and the directory listing are inputs.
 */
module PeerManager {
  import opened Wrappers
  import opened JavaStrings
  import opened DocIds
  import opened TreeMaps

  /** The extension of a Couchbase Lite database directory. */
  const CBLITE_EXTENSION: string := ".cblite2"

  /** The two columns of every document table. */
  const COLUMN_NAMES: seq<string> := ["key", "value"]

  // ---------------------------------------------------------------------------
  // Database enumeration

  /** The entries of a directory listing that end with the database extension, in listing order. */
  function DatabaseFiles(files: seq<string>): seq<string> {
    if files == [] then []
    else
      var last := files[|files| - 1];
      DatabaseFiles(files[..|files| - 1]) + (if EndsWith(last, CBLITE_EXTENSION) then [last] else [])
  }

  /**
   * `getAllDatabaseNames`: `files` is the listing of the application's files
   * directory, None when `listFiles()` returns null. Each database file gives
   * its name with every occurrence of the extension removed.
   */
  method GetAllDatabaseNames(files: Option<seq<string>>) returns (names: seq<string>)
    ensures files.None? ==> names == []
    ensures files.Some? ==> |names| == |DatabaseFiles(files.value)|
    ensures files.Some? ==> forall i :: 0 <= i < |names| ==>
              names[i] == RemoveAll(DatabaseFiles(files.value)[i], CBLITE_EXTENSION)
  {
    if files.None? {
      return [];
    }
    var fs := files.value;
    names := [];
    var i := 0;
    while i < |fs|
      invariant 0 <= i <= |fs|
      invariant |names| == |DatabaseFiles(fs[..i])|
      invariant forall j :: 0 <= j < |names| ==> names[j] == RemoveAll(DatabaseFiles(fs[..i])[j], CBLITE_EXTENSION)
    {
      var fileName := fs[i];
      assert fs[..i + 1][..i] == fs[..i];
      if EndsWith(fileName, CBLITE_EXTENSION) {
        names := names + [RemoveAll(fileName, CBLITE_EXTENSION)];
      }
      i := i + 1;
    }
    assert fs[..i] == fs;
  }

  /** Each database file of the listing is taken as often as it is listed, and no other entry is taken. */
  lemma {:induction false} DatabaseFilesCount(files: seq<string>, f: string)
    ensures multiset(DatabaseFiles(files))[f] == if EndsWith(f, CBLITE_EXTENSION) then multiset(files)[f] else 0
    decreases |files|
  {
    if files != [] {
      var init, last := files[..|files| - 1], files[|files| - 1];
      assert files == init + [last];
      DatabaseFilesCount(init, f);
    }
  }

  /** The database files keep the order of the listing: they sit at increasing positions of it. */
  lemma {:induction false} DatabaseFilesInOrder(files: seq<string>) returns (pos: seq<nat>)
    ensures |pos| == |DatabaseFiles(files)|
    ensures forall i :: 0 <= i < |pos| ==> pos[i] < |files| && DatabaseFiles(files)[i] == files[pos[i]]
    ensures forall i, j :: 0 <= i < j < |pos| ==> pos[i] < pos[j]
    decreases |files|
  {
    if files == [] {
      pos := [];
    } else {
      var n := |files| - 1;
      var init := files[..n];
      var p := DatabaseFilesInOrder(init);
      if EndsWith(files[n], CBLITE_EXTENSION) {
        pos := p + [n];
      } else {
        pos := p;
      }
    }
  }

  /** A file named `name.cblite2`, where `name` holds no `.cblite2`, gives the database `name`. */
  lemma DatabaseNameOf(name: string)
    requires forall i :: !OccursAt(name, CBLITE_EXTENSION, i)
    ensures EndsWith(name + CBLITE_EXTENSION, CBLITE_EXTENSION)
    ensures RemoveAll(name + CBLITE_EXTENSION, CBLITE_EXTENSION) == name
  {
    assert (name + CBLITE_EXTENSION)[|name|..] == CBLITE_EXTENSION;
    RemoveAllTrailing(name, CBLITE_EXTENSION);
  }

  /** The database `a.cblite2` (directory `a.cblite2.cblite2`) is listed under the name `a`. */
  lemma DoubleExtensionName()
    ensures RemoveAll("a.cblite2.cblite2", CBLITE_EXTENSION) == "a"
  {
    var s := "a.cblite2.cblite2";
    assert !(CBLITE_EXTENSION <= s);
    assert s[1..] == CBLITE_EXTENSION + CBLITE_EXTENSION;
    assert CBLITE_EXTENSION <= s[1..];
    assert s[1..][|CBLITE_EXTENSION|..] == CBLITE_EXTENSION;
    assert CBLITE_EXTENSION[|CBLITE_EXTENSION|..] == [];
  }

  // ---------------------------------------------------------------------------
  // Peer setup

  datatype DatabaseObject = DatabaseObject(id: string, name: string, domain: string, version: string)

  /** The parameters of one `Database.addDatabase` notification. */
  datatype AddDatabaseEvent = AddDatabaseEvent(database: DatabaseObject)

  /**
   * `setupPeer`: the `Database.addDatabase` events sent to a newly registered
   * peer, in the order they are sent.
   */
  method SetupPeer(packageName: string, files: Option<seq<string>>) returns (events: seq<AddDatabaseEvent>)
    ensures files.None? ==> events == []
    ensures files.Some? ==> |events| == |DatabaseFiles(files.value)|
    ensures files.Some? ==> forall i :: 0 <= i < |events| ==>
              var name := RemoveAll(DatabaseFiles(files.value)[i], CBLITE_EXTENSION);
              events[i] == AddDatabaseEvent(DatabaseObject(name, name, packageName, "N/A"))
  {
    var potentialDatabases := GetAllDatabaseNames(files);
    events := [];
    for i := 0 to |potentialDatabases|
      invariant |events| == i
      invariant forall j :: 0 <= j < i ==>
                  events[j] == AddDatabaseEvent(DatabaseObject(potentialDatabases[j], potentialDatabases[j], packageName, "N/A"))
    {
      var database := potentialDatabases[i];
      var databaseParams := DatabaseObject(database, database, packageName, "N/A");
      events := events + [AddDatabaseEvent(databaseParams)];
    }
  }

  // ---------------------------------------------------------------------------
  // Document ids

  /** What opening the database and running the id/type query gave. */
  datatype QueryOutcome = OpenFailed | QueryFailed | Rows(rows: seq<Row>)

  /** The display identifiers of a sequence of rows. */
  function DisplayIds(rows: seq<Row>): set<string> {
    set r | r in rows :: Encode(r)
  }

  /**
   * `getAllDocumentIds`: the distinct display identifiers of the rows, in an
   * unspecified order (they pass through a HashSet); empty when opening or
   * querying failed. `closes` counts the calls to `close()`.
   */
  method GetAllDocumentIds(outcome: QueryOutcome) returns (ids: seq<string>, ghost closes: nat)
    ensures outcome.Rows? ==> forall x :: x in ids <==> x in DisplayIds(outcome.rows)
    ensures !outcome.Rows? ==> ids == []
    ensures forall i, j :: 0 <= i < j < |ids| ==> ids[i] != ids[j]
    ensures closes == if outcome.OpenFailed? then 0 else 1
  {
    closes := 0;
    if outcome.OpenFailed? {
      ids := [];
      return;
    }
    if outcome.QueryFailed? {
      ids := [];
      closes := closes + 1;
      return;
    }
    var results := outcome.rows;
    var docIds: set<string> := {};
    for i := 0 to |results|
      invariant docIds == DisplayIds(results[..i])
    {
      assert results[..i + 1] == results[..i] + [results[i]];
      docIds := docIds + {Encode(results[i])};
    }
    assert results[..|results|] == results;
    ids := [];
    var pending := docIds;
    while pending != {}
      invariant pending <= docIds
      invariant forall x :: x in ids <==> x in docIds - pending
      invariant forall a, b :: 0 <= a < b < |ids| ==> ids[a] != ids[b]
      decreases pending
    {
      var x :| x in pending;
      assert x !in ids;
      ids := ids + [x];
      pending := pending - {x};
    }
    closes := closes + 1;
  }

  // ---------------------------------------------------------------------------
  // Documents as tables

  /**
   * The map `getDocument` returns: the properties of the document the display
   * identifier decodes to, each value rendered by `show` (String.valueOf);
   * empty when the database does not open, `replaceFirst` throws, or there is
   * no such document (its `toMap()` is then called on null).
   */
  function DocumentMap<V>(db: Option<map<string, map<string, V>>>, docId: string, show: V -> string,
                          replaceFirstPattern: (string, string) -> Option<string>): map<string, string>
  {
    if db.None? then map[]
    else
      match Decode(docId, replaceFirstPattern)
      case None => map[]
      case Some(id) =>
        if id in db.value then Rendered(db.value[id], db.value[id].Keys, show) else map[]
  }

  /** The properties `ks` of `doc`, rendered by `show`. */
  function Rendered<V>(doc: map<string, V>, ks: set<string>, show: V -> string): map<string, string>
    requires ks <= doc.Keys
  {
    map k | k in ks :: show(doc[k])
  }

  lemma RenderedAdd<V>(doc: map<string, V>, ks: set<string>, key: string, show: V -> string)
    requires ks <= doc.Keys && key in doc
    ensures Rendered(doc, ks + {key}, show) == Rendered(doc, ks, show)[key := show(doc[key])]
  {
  }

  /**
   * `getDocument`: the document's properties copied one by one, in the
   * unspecified order of its own map, into a TreeMap. `closes` counts the
   * calls to `close()`.
   */
  method GetDocument<V>(db: Option<map<string, map<string, V>>>, docId: string, show: V -> string,
                        replaceFirstPattern: (string, string) -> Option<string>)
    returns (returnedMap: seq<Entry>, ghost closes: nat)
    ensures Sorted(returnedMap)
    ensures ToMap(returnedMap) == DocumentMap(db, docId, show, replaceFirstPattern)
    ensures closes == if db.Some? then 1 else 0
  {
    closes := 0;
    if db.None? {
      returnedMap := [];
      return;
    }
    var database := db.value;
    var id := Decode(docId, replaceFirstPattern);
    if id.None? || id.value !in database {
      returnedMap := [];
      closes := closes + 1;
      return;
    }
    var doc := database[id.value];
    returnedMap := [];
    var pending := doc.Keys;
    ghost var copied: set<string> := {};
    while pending != {}
      invariant copied + pending == doc.Keys && copied !! pending
      invariant Sorted(returnedMap)
      invariant ToMap(returnedMap) == Rendered(doc, copied, show)
      decreases pending
    {
      var key :| key in pending;
      PutSorted(returnedMap, key, show(doc[key]));
      PutToMap(returnedMap, key, show(doc[key]));
      RenderedAdd(doc, copied, key, show);
      returnedMap := Put(returnedMap, key, show(doc[key]));
      pending := pending - {key};
      copied := copied + {key};
    }
    assert copied == doc.Keys;
    closes := closes + 1;
  }

  /** `key.substring(0, 1).equals("_")` for a non-empty key: a metadata property such as `_id` or `_rev`. */
  predicate IsMetadataKey(key: string) {
    |key| > 0 && key[0] == '_'
  }

  /** A property that appears in the table. */
  predicate Shown(key: string, showMetadata: bool) {
    showMetadata || !IsMetadataKey(key)
  }

  /** The entries that appear in the table, in order. */
  function Kept(es: seq<Entry>, showMetadata: bool): seq<Entry> {
    if es == [] then []
    else (if Shown(es[0].0, showMetadata) then [es[0]] else []) + Kept(es[1..], showMetadata)
  }

  /** The part of a map that appears in the table. */
  function KeptMap(m: map<string, string>, showMetadata: bool): map<string, string> {
    map k | k in m && Shown(k, showMetadata) :: m[k]
  }

  /** Rows laid out as `[key1, value1, key2, value2, ...]`. */
  function Flatten(rows: seq<Entry>): (flat: seq<string>)
    ensures |flat| == 2 * |rows|
  {
    if rows == [] then [] else [rows[0].0, rows[0].1] + Flatten(rows[1..])
  }

  /** The rows of a flat `[key, value, ...]` list. */
  function Unflatten(flat: seq<string>): seq<Entry>
    requires |flat| % 2 == 0
  {
    if flat == [] then [] else [(flat[0], flat[1])] + Unflatten(flat[2..])
  }

  /**
   * `values` is the table of `m`: an even number of cells whose pairs are the
   * entries of `m`, keys strictly ascending.
   */
  predicate IsTable(values: seq<string>, m: map<string, string>) {
    |values| % 2 == 0 && Sorted(Unflatten(values)) && ToMap(Unflatten(values)) == m
  }

  datatype ExecuteSQLResponse = ExecuteSQLResponse(columnNames: Option<seq<string>>, values: Option<seq<string>>)

  /** The exception `executeSQL` lets through: `substring(0, 1)` of an empty key. */
  datatype SqlError = StringIndexOutOfBounds

  /**
   * `executeSQL`: find the quoted display identifier in the query, load the
   * document it names and lay its properties out as a key/value table,
   * leaving out metadata properties unless `showMetadata` is set.
   */
  method ExecuteSQL<V>(showMetadata: bool, query: string, db: Option<map<string, map<string, V>>>, show: V -> string,
                       replaceFirstPattern: (string, string) -> Option<string>)
    returns (r: Result<ExecuteSQLResponse, SqlError>)
    ensures FindQuoted(query).None? ==> r == Ok(ExecuteSQLResponse(None, None))
    ensures FindQuoted(query).Some? ==>
              var m := DocumentMap(db, FindQuoted(query).value, show, replaceFirstPattern);
              && (r.Ok? <==> showMetadata || "" !in m)
              && (r.Ok? ==> r.value.columnNames == Some(COLUMN_NAMES) && r.value.values.Some?
                            && IsTable(r.value.values.value, KeptMap(m, showMetadata)))
    ensures FindQuoted(query).Some? && DocumentMap(db, FindQuoted(query).value, show, replaceFirstPattern) == map[] ==>
              r == Ok(ExecuteSQLResponse(Some(COLUMN_NAMES), Some([])))
  {
    var found := FindQuoted(query);
    if found.None? {
      return Ok(ExecuteSQLResponse(None, None));
    }
    var docId := found.value;
    var entries, closes := GetDocument(db, docId, show, replaceFirstPattern);
    var table := TableOf(entries, showMetadata);
    if table.Err? {
      return Err(table.error);
    }
    TableOfMap(entries, showMetadata);
    return Ok(ExecuteSQLResponse(Some(COLUMN_NAMES), Some(table.value)));
  }

  /**
   * The loop of `executeSQL` over the TreeMap: each shown entry adds its key
   * and value to the table; with metadata hidden, an empty key makes
   * `substring(0, 1)` throw.
   */
  method TableOf(entries: seq<Entry>, showMetadata: bool) returns (r: Result<seq<string>, SqlError>)
    ensures r.Ok? <==> showMetadata || "" !in Keys(entries)
    ensures r.Ok? ==> r.value == Flatten(Kept(entries, showMetadata))
  {
    var values: seq<string> := [];
    var i := 0;
    while i < |entries|
      invariant 0 <= i <= |entries|
      invariant values == Flatten(Kept(entries[..i], showMetadata))
      invariant showMetadata || forall j :: 0 <= j < i ==> entries[j].0 != ""
    {
      var (key, value) := entries[i];
      KeptStep(entries, i, showMetadata);
      if !showMetadata {
        assert |key| >= 1 ==> key[..1] == [key[0]];
        if |key| < 1 {
          KeysAt(entries, i);
          return Err(StringIndexOutOfBounds);
        }
        if key[..1] == "_" {
          assert !Shown(key, showMetadata);
          assert Kept(entries[..i + 1], showMetadata) == Kept(entries[..i], showMetadata);
          i := i + 1;
          continue;
        }
      }
      assert Shown(key, showMetadata);
      assert Kept(entries[..i + 1], showMetadata) == Kept(entries[..i], showMetadata) + [(key, value)];
      FlattenAppend(Kept(entries[..i], showMetadata), (key, value));
      values := values + [key, value];
      i := i + 1;
    }
    assert entries[..i] == entries;
    if !showMetadata && "" in Keys(entries) {
      var j := KeyIndex(entries, "");
    }
    return Ok(values);
  }

  /** One more entry of the TreeMap is either kept or skipped. */
  lemma KeptStep(es: seq<Entry>, i: int, showMetadata: bool)
    requires 0 <= i < |es|
    ensures Kept(es[..i + 1], showMetadata) == Kept(es[..i], showMetadata) + (if Shown(es[i].0, showMetadata) then [es[i]] else [])
  {
    assert es[..i + 1] == es[..i] + [es[i]];
    KeptAppend(es[..i], es[i], showMetadata);
  }

  lemma {:induction false} KeptAppend(es: seq<Entry>, e: Entry, showMetadata: bool)
    ensures Kept(es + [e], showMetadata) == Kept(es, showMetadata) + (if Shown(e.0, showMetadata) then [e] else [])
    decreases |es|
  {
    if es != [] {
      assert (es + [e])[1..] == es[1..] + [e];
      KeptAppend(es[1..], e, showMetadata);
    }
  }

  lemma {:induction false} FlattenAppend(rows: seq<Entry>, e: Entry)
    ensures Flatten(rows + [e]) == Flatten(rows) + [e.0, e.1]
    decreases |rows|
  {
    if rows != [] {
      assert (rows + [e])[1..] == rows[1..] + [e];
      FlattenAppend(rows[1..], e);
    }
  }

  lemma {:induction false} UnflattenFlatten(rows: seq<Entry>)
    ensures Unflatten(Flatten(rows)) == rows
    decreases |rows|
  {
    if rows != [] {
      var flat := Flatten(rows);
      assert flat[2..] == Flatten(rows[1..]);
      UnflattenFlatten(rows[1..]);
    }
  }

  lemma {:induction false} FlattenUnflatten(flat: seq<string>)
    requires |flat| % 2 == 0
    ensures Flatten(Unflatten(flat)) == flat
    decreases |flat|
  {
    if flat != [] {
      FlattenUnflatten(flat[2..]);
    }
  }

  /** Leaving out entries leaves no key that was not there. */
  lemma {:induction false} KeptKeys(es: seq<Entry>, showMetadata: bool)
    ensures Keys(Kept(es, showMetadata)) <= Keys(es)
    decreases |es|
  {
    if es != [] {
      KeptKeys(es[1..], showMetadata);
      var k := Kept(es, showMetadata);
      if Shown(es[0].0, showMetadata) {
        assert k[1..] == Kept(es[1..], showMetadata);
      } else {
        assert k == Kept(es[1..], showMetadata);
      }
    }
  }

  /** Leaving out entries keeps the others in key order. */
  lemma {:induction false} KeptSorted(es: seq<Entry>, showMetadata: bool)
    requires Sorted(es)
    ensures Sorted(Kept(es, showMetadata))
    decreases |es|
  {
    if es != [] {
      KeptSorted(es[1..], showMetadata);
      KeptKeys(es[1..], showMetadata);
      var k := Kept(es, showMetadata);
      if Shown(es[0].0, showMetadata) {
        assert k[1..] == Kept(es[1..], showMetadata);
      } else {
        assert k == Kept(es[1..], showMetadata);
      }
    }
  }

  /** Leaving out entries leaves out exactly the hidden keys of the map. */
  lemma {:induction false} KeptToMap(es: seq<Entry>, showMetadata: bool)
    requires Sorted(es)
    ensures ToMap(Kept(es, showMetadata)) == KeptMap(ToMap(es), showMetadata)
    decreases |es|
  {
    if es != [] {
      var e := es[0];
      var m := ToMap(es[1..]);
      KeptToMap(es[1..], showMetadata);
      var k := Kept(es, showMetadata);
      if Shown(e.0, showMetadata) {
        assert k == [e] + Kept(es[1..], showMetadata);
        assert k[1..] == Kept(es[1..], showMetadata);
        KeptMapUpdate(m, e.0, e.1, showMetadata);
      } else {
        assert k == Kept(es[1..], showMetadata);
        LessIrreflexive(e.0);
        assert e.0 !in m;
        KeptMapUpdate(m, e.0, e.1, showMetadata);
      }
    }
  }

  lemma KeptMapUpdate(m: map<string, string>, k: string, v: string, showMetadata: bool)
    ensures KeptMap(m[k := v], showMetadata) ==
              if Shown(k, showMetadata) then KeptMap(m, showMetadata)[k := v] else KeptMap(m, showMetadata) - {k}
  {
  }

  /** The flattened kept entries of a TreeMap are the table of the kept part of its map. */
  lemma KeptTable(es: seq<Entry>, showMetadata: bool)
    requires Sorted(es)
    ensures IsTable(Flatten(Kept(es, showMetadata)), KeptMap(ToMap(es), showMetadata))
  {
    KeptSorted(es, showMetadata);
    KeptToMap(es, showMetadata);
    UnflattenFlatten(Kept(es, showMetadata));
  }

  /** The table built from a whole TreeMap, and the empty table of an empty one. */
  lemma TableOfMap(es: seq<Entry>, showMetadata: bool)
    requires Sorted(es)
    ensures IsTable(Flatten(Kept(es, showMetadata)), KeptMap(ToMap(es), showMetadata))
    ensures ToMap(es) == map[] ==> Flatten(Kept(es, showMetadata)) == []
  {
    KeptTable(es, showMetadata);
    if es != [] {
      KeysAt(es, 0);
    }
  }

  lemma {:induction false} UnflattenAt(flat: seq<string>, i: int)
    requires |flat| % 2 == 0 && 0 <= i < |flat| / 2
    ensures |Unflatten(flat)| == |flat| / 2
    ensures Unflatten(flat)[i] == (flat[2 * i], flat[2 * i + 1])
    decreases i
  {
    if i > 0 {
      UnflattenAt(flat[2..], i - 1);
    } else {
      UnflattenLength(flat);
    }
  }

  lemma {:induction false} UnflattenLength(flat: seq<string>)
    requires |flat| % 2 == 0
    ensures |Unflatten(flat)| == |flat| / 2
    decreases |flat|
  {
    if flat != [] {
      UnflattenLength(flat[2..]);
    }
  }

  /** Cell `2i` of a table is a key of the map and cell `2i + 1` its value. */
  lemma TableCells(values: seq<string>, m: map<string, string>, i: int)
    requires IsTable(values, m) && 0 <= i < |values| / 2
    ensures values[2 * i] in m && values[2 * i + 1] == m[values[2 * i]]
  {
    UnflattenAt(values, i);
    ToMapAt(Unflatten(values), i);
  }

  /** The keys of a table strictly ascend, so no key appears twice. */
  lemma TableAscending(values: seq<string>, m: map<string, string>, i: int, j: int)
    requires IsTable(values, m) && 0 <= i < j < |values| / 2
    ensures Less(values[2 * i], values[2 * j])
    ensures values[2 * i] != values[2 * j]
  {
    UnflattenAt(values, i);
    UnflattenAt(values, j);
    SortedAt(Unflatten(values), i, j);
    LessIrreflexive(values[2 * i]);
  }

  /** Every key of the map has its row in the table. */
  lemma TableRowOf(values: seq<string>, m: map<string, string>, k: string) returns (i: nat)
    requires IsTable(values, m) && k in m
    ensures i < |values| / 2 && values[2 * i] == k && values[2 * i + 1] == m[k]
  {
    var rows := Unflatten(values);
    i := KeyIndex(rows, k);
    UnflattenLength(values);
    UnflattenAt(values, i);
    ToMapAt(rows, i);
  }

  /** With metadata hidden, no key of the table starts with `_`. */
  lemma TableHidesMetadata(values: seq<string>, m: map<string, string>, i: int)
    requires IsTable(values, KeptMap(m, false)) && 0 <= i < |values| / 2
    ensures !IsMetadataKey(values[2 * i])
  {
    TableCells(values, KeptMap(m, false), i);
  }

  /** With metadata shown, every property of the document has its row. */
  lemma TableShowsAll(values: seq<string>, m: map<string, string>, k: string) returns (i: nat)
    requires IsTable(values, KeptMap(m, true)) && k in m
    ensures i < |values| / 2 && values[2 * i] == k && values[2 * i + 1] == m[k]
  {
    assert k in KeptMap(m, true);
    i := TableRowOf(values, KeptMap(m, true), k);
  }

  /**
   * A map has exactly one table: the cells do not depend on the order in which
   * the document's properties were copied into the TreeMap.
   */
  lemma TableUnique(v1: seq<string>, v2: seq<string>, m: map<string, string>)
    requires IsTable(v1, m) && IsTable(v2, m)
    ensures v1 == v2
  {
    SortedUnique(Unflatten(v1), Unflatten(v2));
    FlattenUnflatten(v1);
    FlattenUnflatten(v2);
  }
}
