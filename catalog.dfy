/**
 * CatalogManager's bookkeeping: the table names and tables, the index names
 * (per table) and indexes, and the catalog metadata that records on which
 * page each table's and each index's metadata lives.
 *
 * The operations are first given as functions from a catalog state to an
 * outcome (new state, status code, and the page handed to DeletePage, if
 * any); the class CatalogManager then performs them on its fields, writes
 * the new metadata pages, and is proved to reach exactly the state the
 * functions describe. The ids the catalog metadata hands out
 * (GetNextTableId, GetNextIndexId) and the page the buffer pool allocates
 * (NewPage) are parameters.
 */
module Catalog {
  import opened Common
  import opened Bytes
  import opened SortedMap
  import Disk
  import ColumnCodec
  import SchemaCodec
  import TableMeta
  import IndexMeta
  import CatalogMetaCodec

  type Name = seq<byte>

  datatype State = State(
    tableNames: map<Name, u32>,
    tables: map<u32, TableMeta.TableMetadata>,
    indexNames: map<Name, map<Name, u32>>,
    indexes: map<u32, IndexMeta.IndexMetadata>,
    meta: CatalogMetaCodec.CatalogMeta)

  /** What an operation leaves behind: the new state, the status it returns, and the page it deletes. */
  datatype Outcome = Outcome(state: State, status: DbErr, freed: Option<i32>)

  /** The empty catalog a fresh database starts from. */
  function Empty(): (s: State)
    ensures s.tableNames == map[] && s.indexNames == map[] && s.meta.tableMetaPages == []
  {
    State(map[], map[], map[], map[], CatalogMetaCodec.CatalogMeta([], []))
  }

  /** The table a name leads to is there (what GetTable, DropTable and CreateIndex dereference). */
  predicate TableKnown(s: State, name: Name)
  {
    name in s.tableNames ==> s.tableNames[name] in s.tables
  }

  /** Index name `i` is filed under table `t`. */
  predicate Filed(names: map<Name, map<Name, u32>>, t: Name, i: Name)
  {
    t in names && i in names[t]
  }

  /** Every index filed under table `t` is there (what GetIndex, DropIndex and GetTableIndexes dereference). */
  predicate IndexesKnown(s: State, t: Name)
  {
    t in s.indexNames ==> forall i :: i in s.indexNames[t] ==> s.indexNames[t][i] in s.indexes
  }

  /** Every table name leads to a table of that name and id, and every table is named. */
  ghost predicate NamesMatch(names: map<Name, u32>, tables: map<u32, TableMeta.TableMetadata>)
  {
    (forall n :: n in names ==> names[n] in tables && tables[names[n]].name == n && tables[names[n]].tableId == names[n])
    && (forall id :: id in tables ==> tables[id].name in names && names[tables[id].name] == id)
  }

  /** No table keeps an empty map of index names. */
  ghost predicate NoEmptyFiling(names: map<Name, map<Name, u32>>)
  {
    forall t :: t in names ==> |names[t]| > 0
  }

  /** Every filed index exists. */
  ghost predicate FiledExist(names: map<Name, map<Name, u32>>, indexes: map<u32, IndexMeta.IndexMetadata>)
  {
    forall t, i :: Filed(names, t, i) ==> names[t][i] in indexes
  }

  /** No two filings share an index id. */
  ghost predicate FilingsDistinct(names: map<Name, map<Name, u32>>)
  {
    forall t, i, t', i' :: Filed(names, t, i) && Filed(names, t', i') && names[t][i] == names[t'][i'] ==> t == t' && i == i'
  }

  ghost predicate Filings(names: map<Name, map<Name, u32>>, indexes: map<u32, IndexMeta.IndexMetadata>)
  {
    NoEmptyFiling(names) && FiledExist(names, indexes) && FilingsDistinct(names)
  }

  /** The catalog metadata's page map is ordered and has exactly the ids of `m`. */
  ghost predicate Tracks<T>(m: map<u32, T>, ps: seq<(u32, i32)>)
  {
    Ordered(ps) && forall id: u32 :: id in m <==> Find(ps, id).Some?
  }

  ghost predicate Consistent(s: State)
  {
    NamesMatch(s.tableNames, s.tables) && Tracks(s.tables, s.meta.tableMetaPages)
    && Filings(s.indexNames, s.indexes) && Tracks(s.indexes, s.meta.indexMetaPages)
  }

  /** The index-name maps after filing `i` under `t` with `id`: a new map for a table that had none. */
  function FileIndex(names: map<Name, map<Name, u32>>, t: Name, i: Name, id: u32): map<Name, map<Name, u32>>
  {
    var filed: map<Name, u32> := if t in names then names[t][i := id] else map[i := id];
    names[t := filed]
  }

  /** The index-name maps after unfiling `i` from `t`: the table's map goes when `i` was its last name. */
  function UnfileIndex(names: map<Name, map<Name, u32>>, t: Name, i: Name): map<Name, map<Name, u32>>
    requires Filed(names, t, i)
  {
    if |names[t]| == 1 then names - {t} else names[t := names[t] - {i}]
  }

  /** A lookup in the catalog's `std::map` of pages; `operator[]` yields 0 for a missing id. */
  function PageOf(ps: seq<(u32, i32)>, id: u32): (p: i32)
    ensures Find(ps, id).Some? ==> p == Find(ps, id).value
    ensures Find(ps, id).None? ==> p == 0
  {
    match Find(ps, id)
    case Some(p) => p
    case None => 0
  }

  // ---------------------------------------------------------------- tables

  /**
   * CreateTable: refuses a name already in use; otherwise files the name
   * under the new id, adds the table (its root page is the page its
   * metadata is written to) and records that page in the catalog metadata.
   */
  function TableCreated(s: State, name: Name, schema: SchemaCodec.Schema, id: u32, page: i32): (r: Outcome)
    ensures r.freed.None?
    ensures r.status == DB_TABLE_ALREADY_EXIST <==> name in s.tableNames
    ensures r.status == DB_SUCCESS <==> name !in s.tableNames
    ensures r.status != DB_SUCCESS ==> r.state == s
  {
    if name in s.tableNames then Outcome(s, DB_TABLE_ALREADY_EXIST, None)
    else
      var t := TableMeta.Create(id, name, page, schema);
      var tables := if id in s.tables then s.tables else s.tables[id := t];
      Outcome(s.(tableNames := s.tableNames[name := id], tables := tables,
                 meta := s.meta.(tableMetaPages := Insert(s.meta.tableMetaPages, id, page))),
              DB_SUCCESS, None)
  }

  /** GetTable by name. */
  function GetTable(s: State, name: Name): (r: Result<TableMeta.TableMetadata>)
    requires TableKnown(s, name)
    ensures r.Err? <==> name !in s.tableNames
    ensures r.Err? ==> r.error == DB_TABLE_NOT_EXIST
    ensures r.Ok? ==> r.value in s.tables.Values
  {
    if name !in s.tableNames then Err(DB_TABLE_NOT_EXIST) else Ok(s.tables[s.tableNames[name]])
  }

  /** GetTable by id. */
  function GetTableById(s: State, id: u32): (r: Result<TableMeta.TableMetadata>)
    ensures r.Err? <==> id !in s.tables
    ensures r.Err? ==> r.error == DB_TABLE_NOT_EXIST
  {
    if id !in s.tables then Err(DB_TABLE_NOT_EXIST) else Ok(s.tables[id])
  }

  /** GetTables: every table, in no particular order; DB_FAILED when there is none. */
  function GetTables(s: State): (r: Result<set<TableMeta.TableMetadata>>)
    ensures r.Err? <==> |s.tables| == 0
    ensures r.Err? ==> r.error == DB_FAILED
    ensures r.Ok? ==> forall id :: id in s.tables ==> s.tables[id] in r.value
  {
    if |s.tables| == 0 then Err(DB_FAILED) else Ok(s.tables.Values)
  }

  /**
   * DropTable: refuses an unknown name; otherwise removes the name, the
   * table and its metadata-page entry, and deletes the page the catalog
   * metadata recorded for it.
   */
  function TableDropped(s: State, name: Name): (r: Outcome)
    requires TableKnown(s, name)
    ensures r.status == DB_TABLE_NOT_EXIST <==> name !in s.tableNames
    ensures r.status == DB_SUCCESS <==> name in s.tableNames
    ensures r.status != DB_SUCCESS ==> r.state == s && r.freed.None?
    ensures r.status == DB_SUCCESS ==> name !in r.state.tableNames && s.tableNames[name] !in r.state.tables
  {
    if name !in s.tableNames then Outcome(s, DB_TABLE_NOT_EXIST, None)
    else
      var id := s.tableNames[name];
      var page := PageOf(s.meta.tableMetaPages, id);
      Outcome(s.(tableNames := s.tableNames - {name}, tables := s.tables - {id},
                 meta := s.meta.(tableMetaPages := Erase(s.meta.tableMetaPages, id))),
              DB_SUCCESS, Some(page))
  }

  // ---------------------------------------------------------------- indexes

  /** Schema::GetColumnIndex: the position of the first column with the name. */
  function ColumnIndex(cols: seq<ColumnCodec.Column>, name: Name): (r: Option<nat>)
    ensures r.Some? ==> r.value < |cols| && cols[r.value].name == name
    ensures r.Some? ==> forall k :: 0 <= k < r.value ==> cols[k].name != name
    ensures r.None? <==> forall k :: 0 <= k < |cols| ==> cols[k].name != name
  {
    if cols == [] then None
    else if cols[0].name == name then Some(0)
    else match ColumnIndex(cols[1..], name)
      case None => None
      case Some(k) => Some(k + 1)
  }

  /**
   * The key map CreateIndex builds: each key's column position as a
   * `uint32_t`, or nothing as soon as a key names no column.
   */
  function KeyMap(cols: seq<ColumnCodec.Column>, keys: seq<Name>): (r: Option<seq<u32>>)
    ensures r.Some? <==> forall j :: 0 <= j < |keys| ==> ColumnIndex(cols, keys[j]).Some?
    ensures r.Some? ==> |r.value| == |keys|
    ensures r.Some? ==> forall j :: 0 <= j < |keys| ==> r.value[j] == ColumnIndex(cols, keys[j]).value % U32_LIMIT
  {
    if keys == [] then Some([])
    else match ColumnIndex(cols, keys[0])
      case None => None
      case Some(k) =>
        match KeyMap(cols, keys[1..])
        case None => None
        case Some(rest) => Some([k % U32_LIMIT] + rest)
  }

  /**
   * CreateIndex: refuses an unknown table, then a key naming no column of
   * the table, then an index name already filed under the table; otherwise
   * files the name under the new id (starting the table's map if it had
   * none), adds the index and records its metadata page.
   */
  function IndexCreated(s: State, table: Name, index: Name, keys: seq<Name>, id: u32, page: i32): (r: Outcome)
    requires TableKnown(s, table)
    ensures r.freed.None?
    ensures r.status == DB_TABLE_NOT_EXIST <==> table !in s.tableNames
    ensures r.status == DB_COLUMN_NAME_NOT_EXIST <==>
      table in s.tableNames && KeyMap(s.tables[s.tableNames[table]].schema.columns, keys).None?
    ensures r.status == DB_INDEX_ALREADY_EXIST <==>
      table in s.tableNames && KeyMap(s.tables[s.tableNames[table]].schema.columns, keys).Some? && Filed(s.indexNames, table, index)
    ensures r.status != DB_SUCCESS ==> r.state == s
  {
    if table !in s.tableNames then Outcome(s, DB_TABLE_NOT_EXIST, None)
    else
      var tableId := s.tableNames[table];
      match KeyMap(s.tables[tableId].schema.columns, keys)
      case None => Outcome(s, DB_COLUMN_NAME_NOT_EXIST, None)
      case Some(keyMap) =>
        if Filed(s.indexNames, table, index) then Outcome(s, DB_INDEX_ALREADY_EXIST, None)
        else
          var m := IndexMeta.Create(id, index, tableId, keyMap);
          var indexes := if id in s.indexes then s.indexes else s.indexes[id := m];
          Outcome(s.(indexNames := FileIndex(s.indexNames, table, index, id), indexes := indexes,
                     meta := s.meta.(indexMetaPages := Insert(s.meta.indexMetaPages, id, page))),
                  DB_SUCCESS, None)
  }

  /** GetIndex: DB_INDEX_NOT_FOUND unless the index name is filed under the table. */
  function GetIndex(s: State, table: Name, index: Name): (r: Result<IndexMeta.IndexMetadata>)
    requires IndexesKnown(s, table)
    ensures r.Err? <==> !Filed(s.indexNames, table, index)
    ensures r.Err? ==> r.error == DB_INDEX_NOT_FOUND
    ensures r.Ok? ==> r.value in s.indexes.Values
  {
    if !Filed(s.indexNames, table, index) then Err(DB_INDEX_NOT_FOUND) else Ok(s.indexes[s.indexNames[table][index]])
  }

  /**
   * DropIndex: refuses a table with no index, then an index name not filed
   * under it; otherwise unfiles the name (dropping the table's map when it
   * was the last), removes the index and its metadata-page entry, and
   * deletes the page the catalog metadata recorded for it.
   */
  function IndexDropped(s: State, table: Name, index: Name): (r: Outcome)
    requires IndexesKnown(s, table)
    ensures r.status == DB_TABLE_NOT_EXIST <==> table !in s.indexNames
    ensures r.status == DB_INDEX_NOT_FOUND <==> table in s.indexNames && index !in s.indexNames[table]
    ensures r.status != DB_SUCCESS ==> r.state == s && r.freed.None?
    ensures r.status == DB_SUCCESS ==> !Filed(r.state.indexNames, table, index) && s.indexNames[table][index] !in r.state.indexes
  {
    if table !in s.indexNames then Outcome(s, DB_TABLE_NOT_EXIST, None)
    else if index !in s.indexNames[table] then Outcome(s, DB_INDEX_NOT_FOUND, None)
    else
      var id := s.indexNames[table][index];
      var page := PageOf(s.meta.indexMetaPages, id);
      Outcome(s.(indexNames := UnfileIndex(s.indexNames, table, index), indexes := s.indexes - {id},
                 meta := s.meta.(indexMetaPages := Erase(s.meta.indexMetaPages, id))),
              DB_SUCCESS, Some(page))
  }

  /** GetTableIndexes: every index filed under the table; DB_INDEX_NOT_FOUND when it has none. */
  function GetTableIndexes(s: State, table: Name): (r: Result<set<IndexMeta.IndexMetadata>>)
    requires IndexesKnown(s, table)
    ensures r.Err? <==> table !in s.indexNames
    ensures r.Err? ==> r.error == DB_INDEX_NOT_FOUND
    ensures r.Ok? ==> forall i :: i in s.indexNames[table] ==> GetIndex(s, table, i) == Ok(s.indexes[s.indexNames[table][i]])
  {
    if table !in s.indexNames then Err(DB_INDEX_NOT_FOUND)
    else
      var names := s.indexNames[table];
      Ok(set i | i in names :: s.indexes[names[i]])
  }

  // ---------------------------------------------------------------- properties

  /** Removing a key just added to a map without it gives the map back. */
  lemma RemoveAdded<K, V>(m: map<K, V>, k: K, v: V)
    requires k !in m
    ensures m[k := v] - {k} == m
  {
  }

  /** Adding a new key to a map adds one to its size. */
  lemma CardAdd<K, V>(m: map<K, V>, k: K, v: V)
    requires k !in m
    ensures |m[k := v]| == |m| + 1
  {
  }

  /** Removing a key of a map takes one from its size. */
  lemma CardRemove<K, V>(m: map<K, V>, k: K)
    requires k in m
    ensures |m - {k}| == |m| - 1
  {
  }

  /** Storing a key's own value leaves a map as it was. */
  lemma UpdateSame<K, V>(m: map<K, V>, k: K)
    requires k in m
    ensures m[k := m[k]] == m
  {
  }

  /** The empty catalog is consistent. */
  lemma EmptyConsistent()
    ensures Consistent(Empty())
  {
  }

  /** Inserting a fresh id into a tracked map and its page map keeps them in step, and records the page. */
  lemma InsertTracks<T>(m: map<u32, T>, ps: seq<(u32, i32)>, id: u32, page: i32, v: T)
    requires Tracks(m, ps) && id !in m
    ensures Tracks(m[id := v], Insert(ps, id, page)) && Find(Insert(ps, id, page), id) == Some(page)
  {
    InsertOrdered(ps, id, page);
    FindInsert(ps, id, page, id);
    forall j: u32 ensures j in m[id := v] <==> Find(Insert(ps, id, page), j).Some? {
      FindInsert(ps, id, page, j);
    }
  }

  /** Erasing an id from a tracked map and its page map keeps them in step. */
  lemma EraseTracks<T>(m: map<u32, T>, ps: seq<(u32, i32)>, id: u32)
    requires Tracks(m, ps)
    ensures Tracks(m - {id}, Erase(ps, id)) && Find(Erase(ps, id), id).None?
  {
    EraseOrdered(ps, id);
    forall j: u32 ensures j in m - {id} <==> Find(Erase(ps, id), j).Some? {
      FindErase(ps, id, j);
    }
  }

  /** Naming a new table keeps names and tables matched. */
  lemma NamesMatchInsert(names: map<Name, u32>, tables: map<u32, TableMeta.TableMetadata>, t: TableMeta.TableMetadata)
    requires NamesMatch(names, tables) && t.name !in names && t.tableId !in tables
    ensures NamesMatch(names[t.name := t.tableId], tables[t.tableId := t])
  {
  }

  /** Removing a name and its table keeps names and tables matched. */
  lemma NamesMatchRemove(names: map<Name, u32>, tables: map<u32, TableMeta.TableMetadata>, name: Name)
    requires NamesMatch(names, tables) && name in names
    ensures NamesMatch(names - {name}, tables - {names[name]})
  {
  }

  /** After filing `i` under `t`, every other filing is as it was. */
  lemma FileIndexOther(names: map<Name, map<Name, u32>>, t: Name, i: Name, id: u32, u: Name, j: Name)
    requires Filed(FileIndex(names, t, i, id), u, j) && (u, j) != (t, i)
    ensures Filed(names, u, j) && FileIndex(names, t, i, id)[u][j] == names[u][j]
  {
  }

  /** Filing `i` under `t` keeps every filing there was. */
  lemma FileKeeps(names: map<Name, map<Name, u32>>, t: Name, i: Name, id: u32, u: Name, j: Name)
    requires Filed(names, u, j) && !Filed(names, t, i)
    ensures Filed(FileIndex(names, t, i, id), u, j) && FileIndex(names, t, i, id)[u][j] == names[u][j]
  {
  }

  /** After unfiling `i` from `t`, every remaining filing is one of the old ones. */
  lemma UnfileIndexOther(names: map<Name, map<Name, u32>>, t: Name, i: Name, u: Name, j: Name)
    requires Filed(names, t, i) && Filed(UnfileIndex(names, t, i), u, j)
    ensures Filed(names, u, j) && UnfileIndex(names, t, i)[u][j] == names[u][j] && (u, j) != (t, i)
  {
  }

  /** Unfiling one index leaves every other filing in place. */
  lemma UnfileKeeps(names: map<Name, map<Name, u32>>, t: Name, i: Name, u: Name, j: Name)
    requires Filed(names, t, i) && Filed(names, u, j) && (u, j) != (t, i)
    ensures Filed(UnfileIndex(names, t, i), u, j) && UnfileIndex(names, t, i)[u][j] == names[u][j]
  {
    if u == t {
      CardRemove(names[t], i);
      assert j in names[t] - {i};
    }
  }

  /** Filing a new index under a fresh id keeps the filings sound. */
  lemma FilingsInsert(names: map<Name, map<Name, u32>>, indexes: map<u32, IndexMeta.IndexMetadata>,
                      t: Name, i: Name, id: u32, m: IndexMeta.IndexMetadata)
    requires Filings(names, indexes) && id !in indexes && !Filed(names, t, i)
    ensures Filings(FileIndex(names, t, i, id), indexes[id := m])
  {
    FileNoEmpty(names, t, i, id);
    FileExist(names, indexes, t, i, id, m);
    FileDistinct(names, indexes, t, i, id);
  }

  lemma FileNoEmpty(names: map<Name, map<Name, u32>>, t: Name, i: Name, id: u32)
    requires NoEmptyFiling(names)
    ensures NoEmptyFiling(FileIndex(names, t, i, id))
  {
    var names' := FileIndex(names, t, i, id);
    assert i in names'[t];
  }

  lemma FileExist(names: map<Name, map<Name, u32>>, indexes: map<u32, IndexMeta.IndexMetadata>,
                  t: Name, i: Name, id: u32, m: IndexMeta.IndexMetadata)
    requires FiledExist(names, indexes)
    ensures FiledExist(FileIndex(names, t, i, id), indexes[id := m])
  {
    var names' := FileIndex(names, t, i, id);
    forall u, j | Filed(names', u, j) ensures names'[u][j] in indexes[id := m] {
      if (u, j) != (t, i) {
        FileIndexOther(names, t, i, id, u, j);
      }
    }
  }

  lemma FileDistinct(names: map<Name, map<Name, u32>>, indexes: map<u32, IndexMeta.IndexMetadata>, t: Name, i: Name, id: u32)
    requires FiledExist(names, indexes) && FilingsDistinct(names) && id !in indexes
    ensures FilingsDistinct(FileIndex(names, t, i, id))
  {
    var names' := FileIndex(names, t, i, id);
    forall u, j, u', j' | Filed(names', u, j) && Filed(names', u', j') && names'[u][j] == names'[u'][j']
      ensures u == u' && j == j'
    {
      if (u, j) != (t, i) {
        FileIndexOther(names, t, i, id, u, j);
      }
      if (u', j') != (t, i) {
        FileIndexOther(names, t, i, id, u', j');
      }
    }
  }

  /** Unfiling an index and removing it keeps the filings sound. */
  lemma FilingsRemove(names: map<Name, map<Name, u32>>, indexes: map<u32, IndexMeta.IndexMetadata>, t: Name, i: Name)
    requires Filings(names, indexes) && Filed(names, t, i)
    ensures Filings(UnfileIndex(names, t, i), indexes - {names[t][i]})
  {
    UnfileNoEmpty(names, t, i);
    UnfileExist(names, indexes, t, i);
    UnfileDistinct(names, t, i);
  }

  lemma UnfileNoEmpty(names: map<Name, map<Name, u32>>, t: Name, i: Name)
    requires NoEmptyFiling(names) && Filed(names, t, i)
    ensures NoEmptyFiling(UnfileIndex(names, t, i))
  {
    CardRemove(names[t], i);
  }

  lemma UnfileExist(names: map<Name, map<Name, u32>>, indexes: map<u32, IndexMeta.IndexMetadata>, t: Name, i: Name)
    requires FiledExist(names, indexes) && FilingsDistinct(names) && Filed(names, t, i)
    ensures FiledExist(UnfileIndex(names, t, i), indexes - {names[t][i]})
  {
    var names' := UnfileIndex(names, t, i);
    forall u, j | Filed(names', u, j) ensures names'[u][j] in indexes - {names[t][i]} {
      UnfileIndexOther(names, t, i, u, j);
    }
  }

  lemma UnfileDistinct(names: map<Name, map<Name, u32>>, t: Name, i: Name)
    requires FilingsDistinct(names) && Filed(names, t, i)
    ensures FilingsDistinct(UnfileIndex(names, t, i))
  {
    var names' := UnfileIndex(names, t, i);
    forall u, j, u', j' | Filed(names', u, j) && Filed(names', u', j') && names'[u][j] == names'[u'][j']
      ensures u == u' && j == j'
    {
      UnfileIndexOther(names, t, i, u, j);
      UnfileIndexOther(names, t, i, u', j');
    }
  }

  /** Unfiling an index just filed under a name the table did not have gives the maps back. */
  lemma UnfileFile(names: map<Name, map<Name, u32>>, t: Name, i: Name, id: u32)
    requires NoEmptyFiling(names) && !Filed(names, t, i)
    ensures Filed(FileIndex(names, t, i, id), t, i) && UnfileIndex(FileIndex(names, t, i, id), t, i) == names
  {
    if t in names {
      CardAdd(names[t], i, id);
      RemoveAdded(names[t], i, id);
      UpdateSame(names, t);
    } else {
      RemoveAdded(names, t, map[i := id]);
    }
  }

  /** When every filed index exists, every table's filed indexes are known. */
  lemma KnownFromExist(s: State, t: Name)
    requires FiledExist(s.indexNames, s.indexes)
    ensures IndexesKnown(s, t)
  {
    if t in s.indexNames {
      assert forall i :: i in s.indexNames[t] ==> Filed(s.indexNames, t, i);
    }
  }

  /** A consistent catalog knows the tables its names lead to and the indexes filed under each table. */
  lemma ConsistentKnown(s: State, name: Name)
    requires Consistent(s)
    ensures TableKnown(s, name) && IndexesKnown(s, name)
  {
    KnownFromExist(s, name);
  }

  /** Creating a table under an unused id keeps the catalog consistent. */
  lemma CreateTableKeepsConsistent(s: State, name: Name, schema: SchemaCodec.Schema, id: u32, page: i32)
    requires Consistent(s) && id !in s.tables
    ensures Consistent(TableCreated(s, name, schema, id, page).state)
  {
    if name !in s.tableNames {
      var t := TableMeta.Create(id, name, page, schema);
      NamesMatchInsert(s.tableNames, s.tables, t);
      InsertTracks(s.tables, s.meta.tableMetaPages, id, page, t);
    }
  }

  /**
   * After a successful CreateTable, GetTable by the name and by the new id
   * both find the new table, its metadata page is recorded, and every other
   * name finds what it found before.
   */
  lemma CreateTableThenGet(s: State, name: Name, schema: SchemaCodec.Schema, id: u32, page: i32)
    requires Consistent(s) && name !in s.tableNames && id !in s.tables
    ensures var s' := TableCreated(s, name, schema, id, page).state;
      && TableKnown(s', name)
      && GetTable(s', name) == Ok(TableMeta.TableMetadata(id, name, page, schema))
      && GetTableById(s', id) == Ok(TableMeta.TableMetadata(id, name, page, schema))
      && Find(s'.meta.tableMetaPages, id) == Some(page)
      && forall n :: n != name && TableKnown(s, n) ==> TableKnown(s', n) && GetTable(s', n) == GetTable(s, n)
  {
    InsertTracks(s.tables, s.meta.tableMetaPages, id, page, TableMeta.Create(id, name, page, schema));
  }

  /** Dropping a table just created under a fresh id restores the catalog and deletes the new table's page. */
  lemma DropTableUndoesCreate(s: State, name: Name, schema: SchemaCodec.Schema, id: u32, page: i32)
    requires Consistent(s) && name !in s.tableNames && id !in s.tables
    ensures var s' := TableCreated(s, name, schema, id, page).state;
      TableKnown(s', name) && TableDropped(s', name) == Outcome(s, DB_SUCCESS, Some(page))
  {
    var ps := s.meta.tableMetaPages;
    InsertTracks(s.tables, ps, id, page, TableMeta.Create(id, name, page, schema));
    EraseInsert(ps, id, page);
    RemoveAdded(s.tableNames, name, id);
    RemoveAdded(s.tables, id, TableMeta.Create(id, name, page, schema));
  }

  /** Dropping a table keeps the catalog consistent. */
  lemma DropTableKeepsConsistent(s: State, name: Name)
    requires Consistent(s)
    ensures Consistent(TableDropped(s, name).state)
  {
    if name in s.tableNames {
      NamesMatchRemove(s.tableNames, s.tables, name);
      EraseTracks(s.tables, s.meta.tableMetaPages, s.tableNames[name]);
    }
  }

  /**
   * After a successful DropTable, neither the name nor the id finds the
   * table, its metadata-page entry is gone and the page deleted is the one
   * recorded for it; every other name finds what it found before.
   */
  lemma DropTableThenGet(s: State, name: Name)
    requires Consistent(s) && name in s.tableNames
    ensures var r := TableDropped(s, name); var id := s.tableNames[name];
      && GetTable(r.state, name) == Err(DB_TABLE_NOT_EXIST)
      && GetTableById(r.state, id) == Err(DB_TABLE_NOT_EXIST)
      && Find(r.state.meta.tableMetaPages, id).None?
      && r.freed == Find(s.meta.tableMetaPages, id)
  {
    EraseTracks(s.tables, s.meta.tableMetaPages, s.tableNames[name]);
  }

  /** DropTable leaves what GetTable finds under every other name as it was. */
  lemma DropTableKeepsOthers(s: State, name: Name, n: Name)
    requires NamesMatch(s.tableNames, s.tables) && n != name
    ensures TableKnown(TableDropped(s, name).state, n) && GetTable(TableDropped(s, name).state, n) == GetTable(s, n)
  {
    if name in s.tableNames && n in s.tableNames {
      assert s.tables[s.tableNames[n]].name != s.tables[s.tableNames[name]].name;
    }
  }

  /** GetTables lists exactly the tables GetTable finds by their names. */
  lemma TablesListed(s: State)
    requires Consistent(s) && s.tables != map[]
    ensures GetTables(s).Ok?
    ensures forall x :: x in GetTables(s).value <==> x.name in s.tableNames && GetTable(s, x.name) == Ok(x)
  {
    var id :| id in s.tables;
    assert |s.tables| != 0;
  }

  /** Creating an index under an unused id keeps the catalog consistent. */
  lemma CreateIndexKeepsConsistent(s: State, table: Name, index: Name, keys: seq<Name>, id: u32, page: i32)
    requires Consistent(s) && id !in s.indexes
    ensures Consistent(IndexCreated(s, table, index, keys, id, page).state)
  {
    ConsistentKnown(s, table);
    var r := IndexCreated(s, table, index, keys, id, page);
    if r.status == DB_SUCCESS {
      var m := r.state.indexes[id];
      FilingsInsert(s.indexNames, s.indexes, table, index, id, m);
      InsertTracks(s.indexes, s.meta.indexMetaPages, id, page, m);
    }
  }

  /**
   * After a successful CreateIndex, GetIndex finds the new index, filed
   * with the table's id and the key map, and its metadata page is recorded.
   */
  lemma CreateIndexThenGet(s: State, table: Name, index: Name, keys: seq<Name>, id: u32, page: i32)
    requires Consistent(s) && id !in s.indexes
    requires IndexCreated(s, table, index, keys, id, page).status == DB_SUCCESS
    ensures var s' := IndexCreated(s, table, index, keys, id, page).state;
      var keyMap := KeyMap(s.tables[s.tableNames[table]].schema.columns, keys);
      && IndexesKnown(s', table)
      && keyMap.Some?
      && GetIndex(s', table, index) == Ok(IndexMeta.IndexMetadata(id, index, s.tableNames[table], keyMap.value))
      && Find(s'.meta.indexMetaPages, id) == Some(page)
  {
    ConsistentKnown(s, table);
    var s' := IndexCreated(s, table, index, keys, id, page).state;
    assert IndexesKnown(s', table) by {
      FileExist(s.indexNames, s.indexes, table, index, id, s'.indexes[id]);
      KnownFromExist(s', table);
    }
    assert Find(s'.meta.indexMetaPages, id) == Some(page) by {
      FindInsert(s.meta.indexMetaPages, id, page, id);
    }
  }

  /** CreateIndex leaves what GetIndex finds under every other filing as it was. */
  lemma CreateIndexKeepsOthers(s: State, table: Name, index: Name, keys: seq<Name>, id: u32, page: i32, t: Name, i: Name)
    requires Consistent(s) && id !in s.indexes && (t, i) != (table, index)
    ensures var s' := IndexCreated(s, table, index, keys, id, page).state;
      IndexesKnown(s', t) && GetIndex(s', t, i) == GetIndex(s, t, i)
  {
    ConsistentKnown(s, table);
    ConsistentKnown(s, t);
    var r := IndexCreated(s, table, index, keys, id, page);
    if r.status == DB_SUCCESS {
      var m := r.state.indexes[id];
      FileExist(s.indexNames, s.indexes, table, index, id, m);
      KnownFromExist(r.state, t);
      if Filed(r.state.indexNames, t, i) {
        FileIndexOther(s.indexNames, table, index, id, t, i);
      }
      if Filed(s.indexNames, t, i) {
        FileKeeps(s.indexNames, table, index, id, t, i);
      }
    }
  }

  /** Dropping an index just created under a fresh id restores the catalog and deletes the new index's page. */
  lemma DropIndexUndoesCreate(s: State, table: Name, index: Name, keys: seq<Name>, id: u32, page: i32)
    requires Consistent(s) && id !in s.indexes
    requires IndexCreated(s, table, index, keys, id, page).status == DB_SUCCESS
    ensures var s' := IndexCreated(s, table, index, keys, id, page).state;
      IndexesKnown(s', table) && IndexDropped(s', table, index) == Outcome(s, DB_SUCCESS, Some(page))
  {
    var r := IndexCreated(s, table, index, keys, id, page);
    var ps := s.meta.indexMetaPages;
    ConsistentKnown(s, table);
    CreateIndexKeepsConsistent(s, table, index, keys, id, page);
    ConsistentKnown(r.state, table);
    InsertTracks(s.indexes, ps, id, page, r.state.indexes[id]);
    EraseInsert(ps, id, page);
    UnfileFile(s.indexNames, table, index, id);
    RemoveAdded(s.indexes, id, r.state.indexes[id]);
  }

  /** Dropping an index keeps the catalog consistent. */
  lemma DropIndexKeepsConsistent(s: State, table: Name, index: Name)
    requires Consistent(s)
    ensures Consistent(IndexDropped(s, table, index).state)
  {
    ConsistentKnown(s, table);
    if Filed(s.indexNames, table, index) {
      FilingsRemove(s.indexNames, s.indexes, table, index);
      EraseTracks(s.indexes, s.meta.indexMetaPages, s.indexNames[table][index]);
    }
  }

  /**
   * After a successful DropIndex, GetIndex no longer finds the index, its
   * metadata-page entry is gone and the page deleted is the one recorded
   * for it.
   */
  lemma DropIndexThenGet(s: State, table: Name, index: Name)
    requires Consistent(s) && Filed(s.indexNames, table, index)
    ensures var r := IndexDropped(s, table, index); var id := s.indexNames[table][index];
      && IndexesKnown(s, table)
      && IndexesKnown(r.state, table)
      && GetIndex(r.state, table, index) == Err(DB_INDEX_NOT_FOUND)
      && Find(r.state.meta.indexMetaPages, id).None?
      && r.freed == Find(s.meta.indexMetaPages, id)
  {
    var r := IndexDropped(s, table, index);
    ConsistentKnown(s, table);
    DropIndexKeepsConsistent(s, table, index);
    ConsistentKnown(r.state, table);
    EraseTracks(s.indexes, s.meta.indexMetaPages, s.indexNames[table][index]);
  }

  /** DropIndex leaves what GetIndex finds under every other filing as it was. */
  lemma DropIndexKeepsOthers(s: State, table: Name, index: Name, t: Name, i: Name)
    requires Consistent(s) && (t, i) != (table, index)
    ensures var s' := IndexDropped(s, table, index).state;
      IndexesKnown(s, table) && IndexesKnown(s', t) && GetIndex(s', t, i) == GetIndex(s, t, i)
  {
    var r := IndexDropped(s, table, index);
    ConsistentKnown(s, table);
    DropIndexKeepsConsistent(s, table, index);
    ConsistentKnown(r.state, t);
    ConsistentKnown(s, t);
    if r.status == DB_SUCCESS {
      var id := s.indexNames[table][index];
      if Filed(r.state.indexNames, t, i) {
        UnfileIndexOther(s.indexNames, table, index, t, i);
      }
      if Filed(s.indexNames, t, i) {
        UnfileKeeps(s.indexNames, table, index, t, i);
        assert s.indexNames[t][i] != id;
        assert r.state.indexes[s.indexNames[t][i]] == s.indexes[s.indexNames[t][i]];
      }
    }
  }

  /** GetTableIndexes lists exactly the indexes GetIndex finds under the table's filings. */
  lemma TableIndexesListed(s: State, table: Name)
    requires Consistent(s) && table in s.indexNames
    ensures IndexesKnown(s, table) && GetTableIndexes(s, table).Ok?
    ensures forall x :: x in GetTableIndexes(s, table).value <==>
      exists i :: i in s.indexNames[table] && GetIndex(s, table, i) == Ok(x)
  {
    ConsistentKnown(s, table);
  }

  // ---------------------------------------------------------------- the manager

  /**
   * The catalog manager: its four name and id maps and the catalog
   * metadata, with the catalog metadata page it rewrites after every
   * change. Table and index handles (heaps, B+ trees) are not kept; the
   * metadata records stand for them.
   */
  class CatalogManager {
    var tableNames: map<Name, u32>
    var tables: map<u32, TableMeta.TableMetadata>
    var indexNames: map<Name, map<Name, u32>>
    var indexes: map<u32, IndexMeta.IndexMetadata>
    var meta: CatalogMetaCodec.CatalogMeta
    const metaPage: array<byte>

    /** The manager's maps and metadata as a catalog state. */
    function Model(): State
      reads this
    {
      State(tableNames, tables, indexNames, indexes, meta)
    }

    /** The catalog metadata is well formed and fits its page. */
    ghost predicate Valid()
      reads this
    {
      metaPage.Length == Disk.PAGE_SIZE && CatalogMetaCodec.Valid(meta) && CatalogMetaCodec.Size(meta) <= metaPage.Length
    }

    /** A new database's catalog: every map empty. */
    constructor(page: array<byte>)
      requires page.Length == Disk.PAGE_SIZE
      ensures Valid() && Model() == Empty() && metaPage == page
    {
      tableNames, tables, indexNames, indexes := map[], map[], map[], map[];
      meta := CatalogMetaCodec.CatalogMeta([], []);
      metaPage := page;
    }

    /** Writes the catalog metadata to its page, where it reads back. */
    method Persist()
      requires CatalogMetaCodec.Valid(meta) && metaPage.Length == Disk.PAGE_SIZE && CatalogMetaCodec.Size(meta) <= metaPage.Length
      modifies metaPage
      ensures metaPage[..] == CatalogMetaCodec.Written(old(metaPage[..]), 0, meta)
      ensures CatalogMetaCodec.Decode(metaPage[..], 0) == Some(meta)
    {
      CatalogMetaCodec.SerializeTo(metaPage, 0, meta);
      CatalogMetaCodec.RoundTrip(old(metaPage[..]), 0, meta);
    }

    /**
     * CreateTable with the id GetNextTableId hands out and the page NewPage
     * allocates, whose bytes are `pageData`: the table's metadata goes to
     * that page, the catalog metadata to its own page.
     */
    method CreateTable(name: Name, schema: SchemaCodec.Schema, id: u32, page: i32, pageData: array<byte>)
      returns (status: DbErr, info: Option<TableMeta.TableMetadata>)
      requires Valid() && pageData != metaPage
      requires TableMeta.Encodable(TableMeta.Create(id, name, page, schema))
      requires TableMeta.Size(TableMeta.Create(id, name, page, schema)) <= pageData.Length
      requires CatalogMetaCodec.Size(meta) + 8 <= metaPage.Length
      modifies this, metaPage, pageData
      ensures Valid()
      ensures Model() == TableCreated(old(Model()), name, schema, id, page).state
      ensures status == TableCreated(old(Model()), name, schema, id, page).status
      ensures info.Some? <==> status == DB_SUCCESS
      ensures info.Some? ==> info.value == TableMeta.Create(id, name, page, schema)
      ensures info.Some? ==> pageData[..] == TableMeta.Written(old(pageData[..]), 0, info.value)
      ensures status == DB_SUCCESS ==> metaPage[..] == CatalogMetaCodec.Written(old(metaPage[..]), 0, meta)
      ensures status == DB_SUCCESS ==> CatalogMetaCodec.Decode(metaPage[..], 0) == Some(meta)
      ensures status != DB_SUCCESS ==> unchanged(metaPage) && unchanged(pageData)
    {
      if name in tableNames {
        return DB_TABLE_ALREADY_EXIST, None;
      }
      ghost var s := Model();
      InsertSize(meta.tableMetaPages, id, page);
      InsertOrdered(meta.tableMetaPages, id, page);
      tableNames := tableNames[name := id];
      var t := TableMeta.Create(id, name, page, schema);
      if id !in tables {
        tables := tables[id := t];
      }
      meta := meta.(tableMetaPages := Insert(meta.tableMetaPages, id, page));
      assert Model() == TableCreated(s, name, schema, id, page).state;
      var _ := TableMeta.SerializeTo(pageData, 0, t);
      Persist();
      status, info := DB_SUCCESS, Some(t);
    }

    /** DropTable; `freed` is the page handed to DeletePage. */
    method DropTable(name: Name) returns (status: DbErr, freed: Option<i32>)
      requires Valid() && TableKnown(Model(), name)
      modifies this, metaPage
      ensures Valid()
      ensures Model() == TableDropped(old(Model()), name).state
      ensures status == TableDropped(old(Model()), name).status && freed == TableDropped(old(Model()), name).freed
      ensures status == DB_SUCCESS ==> metaPage[..] == CatalogMetaCodec.Written(old(metaPage[..]), 0, meta)
      ensures status == DB_SUCCESS ==> CatalogMetaCodec.Decode(metaPage[..], 0) == Some(meta)
      ensures status != DB_SUCCESS ==> unchanged(metaPage)
    {
      if name !in tableNames {
        return DB_TABLE_NOT_EXIST, None;
      }
      ghost var s := Model();
      var id := tableNames[name];
      tableNames := tableNames - {name};
      tables := tables - {id};
      var page := PageOf(meta.tableMetaPages, id);
      freed := Some(page);
      EraseSize(meta.tableMetaPages, id);
      EraseOrdered(meta.tableMetaPages, id);
      meta := meta.(tableMetaPages := Erase(meta.tableMetaPages, id));
      assert Model() == TableDropped(s, name).state;
      Persist();
      status := DB_SUCCESS;
    }

    /**
     * CreateIndex with the id GetNextIndexId hands out and the page NewPage
     * allocates, whose bytes are `pageData`: the key columns are looked up
     * one by one, then the index's metadata goes to that page and the
     * catalog metadata to its own page.
     */
    method CreateIndex(table: Name, index: Name, keys: seq<Name>, id: u32, page: i32, pageData: array<byte>)
      returns (status: DbErr, info: Option<IndexMeta.IndexMetadata>)
      requires Valid() && TableKnown(Model(), table) && pageData != metaPage
      requires |index| < U64_LIMIT && |keys| < U32_LIMIT && 28 + |index| + 4 * |keys| <= pageData.Length
      requires CatalogMetaCodec.Size(meta) + 8 <= metaPage.Length
      modifies this, metaPage, pageData
      ensures Valid()
      ensures Model() == IndexCreated(old(Model()), table, index, keys, id, page).state
      ensures status == IndexCreated(old(Model()), table, index, keys, id, page).status
      ensures info.Some? <==> status == DB_SUCCESS
      ensures info.Some? ==> info.value == IndexMeta.Create(id, index, old(tableNames)[table],
        KeyMap(old(tables)[old(tableNames)[table]].schema.columns, keys).value)
      ensures info.Some? ==> pageData[..] == IndexMeta.Written(old(pageData[..]), 0, info.value)
      ensures status == DB_SUCCESS ==> metaPage[..] == CatalogMetaCodec.Written(old(metaPage[..]), 0, meta)
      ensures status == DB_SUCCESS ==> CatalogMetaCodec.Decode(metaPage[..], 0) == Some(meta)
      ensures status != DB_SUCCESS ==> unchanged(metaPage) && unchanged(pageData)
    {
      if table !in tableNames {
        return DB_TABLE_NOT_EXIST, None;
      }
      var tableId := tableNames[table];
      var found := KeyColumns(tables[tableId].schema.columns, keys);
      if found.None? {
        return DB_COLUMN_NAME_NOT_EXIST, None;
      }
      var keyMap := found.value;
      if table in indexNames && index in indexNames[table] {
        return DB_INDEX_ALREADY_EXIST, None;
      }
      ghost var s := Model();
      InsertSize(meta.indexMetaPages, id, page);
      InsertOrdered(meta.indexMetaPages, id, page);
      indexNames := FileIndex(indexNames, table, index, id);
      var m := IndexMeta.Create(id, index, tableId, keyMap);
      if id !in indexes {
        indexes := indexes[id := m];
      }
      meta := meta.(indexMetaPages := Insert(meta.indexMetaPages, id, page));
      assert Model() == IndexCreated(s, table, index, keys, id, page).state;
      var _ := IndexMeta.SerializeTo(pageData, 0, m);
      Persist();
      status, info := DB_SUCCESS, Some(m);
    }

    /** CreateIndex's loop over the keys: each key's column position, stopping at the first key that names no column. */
    static method KeyColumns(cols: seq<ColumnCodec.Column>, keys: seq<Name>) returns (r: Option<seq<u32>>)
      ensures r == KeyMap(cols, keys)
    {
      var keyMap: seq<u32> := [];
      var k := 0;
      while k < |keys|
        invariant 0 <= k <= |keys| && |keyMap| == k
        invariant forall j :: 0 <= j < k ==> ColumnIndex(cols, keys[j]).Some? && keyMap[j] == ColumnIndex(cols, keys[j]).value % U32_LIMIT
      {
        var column := ColumnIndex(cols, keys[k]);
        if column.None? {
          return None;
        }
        keyMap := keyMap + [column.value % U32_LIMIT];
        k := k + 1;
      }
      ghost var expected := KeyMap(cols, keys);
      assert forall j :: 0 <= j < |keys| ==> expected.value[j] == keyMap[j];
      assert expected.value == keyMap;
      return Some(keyMap);
    }

    /** DropIndex; `freed` is the page handed to DeletePage. */
    method DropIndex(table: Name, index: Name) returns (status: DbErr, freed: Option<i32>)
      requires Valid() && IndexesKnown(Model(), table)
      modifies this, metaPage
      ensures Valid()
      ensures Model() == IndexDropped(old(Model()), table, index).state
      ensures status == IndexDropped(old(Model()), table, index).status
      ensures freed == IndexDropped(old(Model()), table, index).freed
      ensures status == DB_SUCCESS ==> metaPage[..] == CatalogMetaCodec.Written(old(metaPage[..]), 0, meta)
      ensures status == DB_SUCCESS ==> CatalogMetaCodec.Decode(metaPage[..], 0) == Some(meta)
      ensures status != DB_SUCCESS ==> unchanged(metaPage)
    {
      if table !in indexNames {
        return DB_TABLE_NOT_EXIST, None;
      }
      if index !in indexNames[table] {
        return DB_INDEX_NOT_FOUND, None;
      }
      ghost var s := Model();
      var id := indexNames[table][index];
      indexNames := UnfileIndex(indexNames, table, index);
      indexes := indexes - {id};
      var page := PageOf(meta.indexMetaPages, id);
      freed := Some(page);
      EraseSize(meta.indexMetaPages, id);
      EraseOrdered(meta.indexMetaPages, id);
      meta := meta.(indexMetaPages := Erase(meta.indexMetaPages, id));
      assert Model() == IndexDropped(s, table, index).state;
      Persist();
      status := DB_SUCCESS;
    }
  }
}
