# Stetho-Couchbase peer manager, modelled in Dafny

This project models `CouchbasePeerManager`, the adapter through which a Stetho
debugging client sees Couchbase Lite databases as if they were the SQL
databases of Stetho's Database domain. The model has three parts.

- **Enumerating databases.** Every entry of the application's files directory
  that ends in `.cblite2` is a database. Its name is the entry name with that
  extension removed. A peer is sent one `Database.addDatabase` event per
  database.
- **Listing document ids.** Every row `(id, type)` of the id/type query gives
  a display identifier: the bare id, or `<type>::id` when the document has a
  type. The identifiers are collected into a set, so each appears once.
- **Answering a query.** The first double-quoted substring of the query is
  taken as a display identifier. A `<type>::` prefix is stripped off it, and
  the document with the resulting id is loaded. Its properties pass through a
  TreeMap and come out as a flat `[key, value, key, value, …]` table, with
  `_`-prefixed metadata keys left out unless metadata is shown.

Files:

- `wrappers.dfy`: module `Wrappers`, with `Option` for Java's nulls and
  `Result` for exceptions.
- `java_strings.dfy`: module `JavaStrings`. It covers `String.endsWith`,
  `String.replace(target, "")`, `replaceFirst` with a pattern that only
  matches itself, the line terminators Java's regex `.` refuses, and the
  `compareTo` order with its order lemmas.
- `doc_ids.dfy`: module `DocIds`. It covers the display-identifier encoding
  and the two fixed regular expressions: `DOC_PATTERN` (`"(.*?)"` with
  `find`) and `DOC_ID_PATTERN` (`^(<.+>::).+` with `matches`). Each is
  written as a string function and given a declarative description of what
  it matches. The module also proves the encode/decode round trip, in both
  directions.
- `tree_maps.dfy`: module `TreeMaps`. A `TreeMap<String, String>` is modelled
  as its entries in iteration order, with `put` as `Put`.
- `peer_manager.dfy`: module `PeerManager`. It holds the operations
  `getAllDatabaseNames`, `setupPeer`, `getAllDocumentIds`, `getDocument` and
  `executeSQL`. Each is a method with the source's loop, proved against
  specification functions, and lemmas state the properties of the tables.

Inputs that stand for code outside the core:

- The directory listing is `Option<seq<string>>`; None is `listFiles()`
  returning null.
- The id/type query is a `QueryOutcome`: the database does not open, the
  query throws, or a sequence of rows.
- A database is `Option<map<id, document>>`, where None means
  `new Database(...)` threw. A document is a `map<string, V>`.
- `String.valueOf` on property values is the parameter `show: V -> string`.
- `replaceFirst` with a pattern that holds regex metacharacters is the
  parameter `replaceFirstPattern`, which answers None when Java would throw.
- The `close()` calls in the `finally` blocks are counted in a ghost
  out-parameter `closes`.

Behaviour of the code worth noting:

- An untyped document whose own id matches `<.+>::.+` (such as `<a>::b`) does
  not decode to itself. The greedy group is stripped, so it decodes to `b`
  (`DecodeEncodeUntyped`).
- A document that cannot be opened, decoded or found gives an empty table.
  `getDocument` catches the exceptions of its `try` block and returns an
  empty map (`ExecuteSQL`, last ensures).
- With metadata hidden, a property with an empty name makes
  `substring(0, 1)` throw out of `executeSQL`.
- `String.replace` removes every occurrence of the extension, not only the
  trailing one. The directory `a.cblite2.cblite2` is listed as `a`
  (`DoubleExtensionName`).
- Database names come out as a list in listing order.

## Model

| member | source | states |
|---|---|---|
| PeerManager.GetAllDatabaseNames | stetho-couchbase/src/main/java/com/robotpajamas/stetho/couchbase/CouchbasePeerManager.java:87-101 | a null listing gives no names; otherwise one name per entry ending in `.cblite2`, in listing order, each being that entry with every `.cblite2` removed |
| PeerManager.DatabaseFilesCount | stetho-couchbase/src/main/java/com/robotpajamas/stetho/couchbase/CouchbasePeerManager.java:91-96 | an entry ending in `.cblite2` is taken exactly as often as it is listed; any other entry never |
| PeerManager.DatabaseFilesInOrder | stetho-couchbase/src/main/java/com/robotpajamas/stetho/couchbase/CouchbasePeerManager.java:91-96 | the taken entries sit at strictly increasing positions of the listing |
| PeerManager.DatabaseNameOf | stetho-couchbase/src/main/java/com/robotpajamas/stetho/couchbase/CouchbasePeerManager.java:93-94 | `name.cblite2`, with no `.cblite2` inside `name`, is a database file and gives exactly `name` |
| PeerManager.DoubleExtensionName | stetho-couchbase/src/main/java/com/robotpajamas/stetho/couchbase/CouchbasePeerManager.java:94 | `replace` removes every occurrence: `a.cblite2.cblite2` gives `a` |
| JavaStrings.RemoveAll | stetho-couchbase/src/main/java/com/robotpajamas/stetho/couchbase/CouchbasePeerManager.java:94 | removing occurrences never lengthens a name, and shortens it by the target's length at least when it starts with the target |
| JavaStrings.RemoveAllAbsent | stetho-couchbase/src/main/java/com/robotpajamas/stetho/couchbase/CouchbasePeerManager.java:94 | a name without the target is left as it is |
| JavaStrings.RemoveAllTrailing | stetho-couchbase/src/main/java/com/robotpajamas/stetho/couchbase/CouchbasePeerManager.java:94 | for a target whose first character does not recur in it, `replace` takes a trailing occurrence off exactly |
| PeerManager.SetupPeer | stetho-couchbase/src/main/java/com/robotpajamas/stetho/couchbase/CouchbasePeerManager.java:71-85 | one `Database.addDatabase` event per discovered database, in order, with id = name = the database name, domain = the package name, version `N/A` |
| PeerManager.GetAllDocumentIds | stetho-couchbase/src/main/java/com/robotpajamas/stetho/couchbase/CouchbasePeerManager.java:103-131 | the result holds exactly the display ids of the rows, each once; any failure gives the empty list; the database is closed once whenever it was opened and never otherwise |
| DocIds.Encode | stetho-couchbase/src/main/java/com/robotpajamas/stetho/couchbase/CouchbasePeerManager.java:117-120 | the display id ends with the raw id, and is longer by the type's length plus the four characters of `<`, `>::` exactly when there is a type |
| DocIds.CloseQuote | stetho-couchbase/src/main/java/com/robotpajamas/stetho/couchbase/CouchbasePeerManager.java:41 | the lazy `.*?"` ends at the first quote after the opening one, and fails if a line terminator comes first |
| DocIds.CloseUnique | stetho-couchbase/src/main/java/com/robotpajamas/stetho/couchbase/CouchbasePeerManager.java:41 | the lazy group ends at the first closing quote, so a match is fixed by where it starts |
| DocIds.FindFrom | stetho-couchbase/src/main/java/com/robotpajamas/stetho/couchbase/CouchbasePeerManager.java:138-139 | `find` reports the leftmost start at which `"(.*?)"` matches, or that there is none |
| DocIds.FindQuoted | stetho-couchbase/src/main/java/com/robotpajamas/stetho/couchbase/CouchbasePeerManager.java:138-143 | no doc id exactly when no quote pair without a line terminator exists; otherwise the text between the leftmost such quote and the next quote |
| DocIds.ExtractQuoted | stetho-couchbase/src/main/java/com/robotpajamas/stetho/couchbase/CouchbasePeerManager.java:138-143 | a display id placed between the first two quotes of a query is read back unchanged |
| DocIds.LastSplit | stetho-couchbase/src/main/java/com/robotpajamas/stetho/couchbase/CouchbasePeerManager.java:42 | the greedy `.+` picks the last `>::` that leaves at least one character on each side |
| DocIds.DocIdPrefix | stetho-couchbase/src/main/java/com/robotpajamas/stetho/couchbase/CouchbasePeerManager.java:175-177 | `matches` succeeds exactly when the whole id is `<`, then at least one character, then `>::`, then at least one character, with no line terminator; group 1 is the longest such prefix |
| JavaStrings.RemoveFirst | stetho-couchbase/src/main/java/com/robotpajamas/stetho/couchbase/CouchbasePeerManager.java:177 | `replaceFirst` of a pattern that only matches itself leaves a string without an occurrence unchanged, and otherwise removes exactly one occurrence |
| JavaStrings.RemoveFirstAt | stetho-couchbase/src/main/java/com/robotpajamas/stetho/couchbase/CouchbasePeerManager.java:177 | the occurrence removed is the leftmost one |
| DocIds.Decode | stetho-couchbase/src/main/java/com/robotpajamas/stetho/couchbase/CouchbasePeerManager.java:175-178 | an id that does not match `<.+>::.+` is looked up as it is; one whose group 1 has no regex metacharacter is looked up with group 1 cut off its front |
| DocIds.DecodeLiteral | stetho-couchbase/src/main/java/com/robotpajamas/stetho/couchbase/CouchbasePeerManager.java:175-178 | a metacharacter-free id that matches loses exactly its greedy group 1 |
| DocIds.TypedPrefix | stetho-couchbase/src/main/java/com/robotpajamas/stetho/couchbase/CouchbasePeerManager.java:175-177 | under the round-trip conditions, group 1 of `<T>::id` is exactly `<T>::` |
| DocIds.DecodeEncodeTyped | stetho-couchbase/src/main/java/com/robotpajamas/stetho/couchbase/CouchbasePeerManager.java:175-178 | `<T>::id` decodes to `id` when T and id are non-empty, neither has a line terminator, T has no regex metacharacter, and id has no `>::` followed by more text |
| DocIds.DecodeEncodeTypedOnlyIf | stetho-couchbase/src/main/java/com/robotpajamas/stetho/couchbase/CouchbasePeerManager.java:175-178 | for metacharacter-free T and id, `<T>::id` decoding to `id` implies each of those conditions |
| DocIds.DecodeEncodeTypedIff | stetho-couchbase/src/main/java/com/robotpajamas/stetho/couchbase/CouchbasePeerManager.java:115-121 | for metacharacter-free T and id, the typed encoding of line 120 round-trips through lines 175-178 exactly under those conditions |
| DocIds.DecodeEncodeUntyped | stetho-couchbase/src/main/java/com/robotpajamas/stetho/couchbase/CouchbasePeerManager.java:117-118 | an untyped row's display id is its raw id, and decodes to itself exactly when it does not match `<.+>::.+` |
| TreeMaps.Put | stetho-couchbase/src/main/java/com/robotpajamas/stetho/couchbase/CouchbasePeerManager.java:182 | `put` adds its key to the keys and no other |
| TreeMaps.PutSorted | stetho-couchbase/src/main/java/com/robotpajamas/stetho/couchbase/CouchbasePeerManager.java:182 | `put` keeps the entries in strictly ascending key order |
| TreeMaps.PutToMap | stetho-couchbase/src/main/java/com/robotpajamas/stetho/couchbase/CouchbasePeerManager.java:182 | `put(k, v)` changes the map at `k` to `v` and nowhere else |
| TreeMaps.SortedAt | stetho-couchbase/src/main/java/com/robotpajamas/stetho/couchbase/CouchbasePeerManager.java:180 | a TreeMap iterates its keys in strictly ascending order |
| TreeMaps.ToMapAt | stetho-couchbase/src/main/java/com/robotpajamas/stetho/couchbase/CouchbasePeerManager.java:180 | each entry met while iterating a TreeMap carries the value the map holds for its key |
| TreeMaps.SortedUnique | stetho-couchbase/src/main/java/com/robotpajamas/stetho/couchbase/CouchbasePeerManager.java:180-183 | the iteration order of the TreeMap depends only on its contents, not on the order of the puts |
| JavaStrings.LessTransitive | stetho-couchbase/src/main/java/com/robotpajamas/stetho/couchbase/CouchbasePeerManager.java:180 | the key order is transitive |
| JavaStrings.LessTotal | stetho-couchbase/src/main/java/com/robotpajamas/stetho/couchbase/CouchbasePeerManager.java:180 | any two distinct keys are ordered |
| JavaStrings.LessIrreflexive | stetho-couchbase/src/main/java/com/robotpajamas/stetho/couchbase/CouchbasePeerManager.java:180 | no key comes before itself |
| JavaStrings.LessAsymmetric | stetho-couchbase/src/main/java/com/robotpajamas/stetho/couchbase/CouchbasePeerManager.java:180 | two keys are never ordered both ways |
| PeerManager.GetDocument | stetho-couchbase/src/main/java/com/robotpajamas/stetho/couchbase/CouchbasePeerManager.java:170-192 | the returned TreeMap is sorted and holds the decoded document's properties with their rendered values; it is empty when the database, the pattern or the document fails; the database is closed once exactly when it was opened |
| PeerManager.ExecuteSQL | stetho-couchbase/src/main/java/com/robotpajamas/stetho/couchbase/CouchbasePeerManager.java:133-167 | no quoted id leaves both fields unset. Otherwise it fails exactly when metadata is hidden and the document has an empty property name. When it succeeds, the columns are `key`, `value` and the values are the table of the shown properties. A failed load gives an empty table |
| PeerManager.TableOf | stetho-couchbase/src/main/java/com/robotpajamas/stetho/couchbase/CouchbasePeerManager.java:153-161 | the loop yields the key and value of each shown TreeMap entry, in TreeMap order. It throws exactly when metadata is hidden and some key is empty |
| PeerManager.TableOfMap | stetho-couchbase/src/main/java/com/robotpajamas/stetho/couchbase/CouchbasePeerManager.java:152-161 | the cells built from a whole TreeMap are the table of the shown part of its contents; an empty map gives no cells |
| PeerManager.KeptTable | stetho-couchbase/src/main/java/com/robotpajamas/stetho/couchbase/CouchbasePeerManager.java:154-161 | appending the pairs of the shown entries of a TreeMap gives the table of the shown part of its map |
| PeerManager.KeptSorted | stetho-couchbase/src/main/java/com/robotpajamas/stetho/couchbase/CouchbasePeerManager.java:154-158 | skipping metadata entries keeps the remaining keys in order |
| PeerManager.KeptToMap | stetho-couchbase/src/main/java/com/robotpajamas/stetho/couchbase/CouchbasePeerManager.java:154-158 | skipping metadata entries leaves out exactly the metadata keys |
| PeerManager.UnflattenFlatten | stetho-couchbase/src/main/java/com/robotpajamas/stetho/couchbase/CouchbasePeerManager.java:159-160 | the flat `[k1, v1, k2, v2, …]` list gives back its pairs |
| PeerManager.TableCells | stetho-couchbase/src/main/java/com/robotpajamas/stetho/couchbase/CouchbasePeerManager.java:159-160 | `values[2i]` is a property name and `values[2i+1]` that property's rendered value |
| PeerManager.TableAscending | stetho-couchbase/src/main/java/com/robotpajamas/stetho/couchbase/CouchbasePeerManager.java:180-183 | the keys of the table strictly ascend, so none appears twice |
| PeerManager.TableRowOf | stetho-couchbase/src/main/java/com/robotpajamas/stetho/couchbase/CouchbasePeerManager.java:154-161 | every shown property has its row in the table |
| PeerManager.TableHidesMetadata | stetho-couchbase/src/main/java/com/robotpajamas/stetho/couchbase/CouchbasePeerManager.java:156-158 | with metadata hidden, no key of the table starts with `_` |
| PeerManager.TableShowsAll | stetho-couchbase/src/main/java/com/robotpajamas/stetho/couchbase/CouchbasePeerManager.java:156-160 | with metadata shown, every property of the document has its row |
| PeerManager.TableUnique | stetho-couchbase/src/main/java/com/robotpajamas/stetho/couchbase/CouchbasePeerManager.java:180-183 | a document has exactly one table, whatever order its properties were copied in |

## Left out

- Couchbase Lite itself is not modelled: `new Database`, the `QueryBuilder` query and `getDocument(...).toMap()` are foreign library calls, and the model takes their outcomes as inputs. `close()` is only counted, in a ghost out-parameter.
- A `close()` that throws is not modelled: the model takes every `close()` to succeed. In the source such an exception leaves the `finally` blocks. In `getAllDocumentIds` (lines 126-129) it replaces the returned list. In `getDocument` (lines 187-190) it leaves through the `throws CouchbaseLiteException` of line 170, and `executeSQL` rethrows it as an `IOException` (lines 149-151).
- The `expiration` ordering of the id query is not modelled, because the ids pass through a HashSet and the result order is unspecified anyway.
- `String.valueOf` on arbitrary property values (nested maps, lists, numbers) is the parameter `show`, because it is Java's `toString` of library objects.
- DocIds.Decode: when group 1 of `DOC_ID_PATTERN` holds a regex metacharacter, `replaceFirst` compiles it as a general Java regular expression. That case is the parameter `replaceFirstPattern`, because general regex semantics is not modelled. This is also why the round-trip lemmas require the type (and, for the converse, the id) to be free of metacharacters.
- DocIds.DecodeEncodeTyped: holds only for types without regex metacharacters, because otherwise group 1 goes through `replaceFirstPattern`.
- DocIds.DecodeEncodeTypedOnlyIf: stated only for a type and an id without regex metacharacters, for the same reason.
- DocIds.DecodeEncodeTypedIff: stated only for a type and an id without regex metacharacters, for the same reason.
- DocIds.DecodeEncodeUntyped: stated only for ids without regex metacharacters, for the same reason.
- The metacharacter set is conservative: it includes `]` and `}`, which Java treats literally outside a class. Groups containing them go to `replaceFirstPattern` as well.
- Strings are sequences of Unicode scalar values, while Java strings are UTF-16. `compareTo` orders by UTF-16 code units, so the TreeMap order of keys containing characters above U+FFFF may differ from `Less`.
- The console output `CLog.writeToConsole(... new JSONObject(map).toString(4))` is observability I/O with JSON pretty-printing. It is not modelled, and neither is the `Timber` logging.
- The `PeerRegistrationListener` wiring in the constructor and `peer.invokeMethod` are JSON-RPC transport. `SetupPeer` returns the events in sending order instead of sending them.
- The sample application (`MainApplication`) is not modelled: it only initialises Stetho and seeds sample data.
