/**
 * The table catalogue (`TableManagerImpl`): the tables known by name, the
 * tables each transaction created, and the chain of stored table records
 * that starts at the boot pointer and runs through each table's `nextUid`.
 * A new table is prepended to the chain: its record points at the old
 * first table and the boot pointer moves to it.
 *
 * The stored table and column records are seen through `records`: the
 * payloads the super transaction reads from the version manager, by uid.
 * The boot file is the single cell `boot`. `begin`, `commit` and `abort`
 * go to the version manager model.
 */
module TableManager {
  import opened Bytes
  import opened Outcomes
  import opened FieldRules
  import opened TableRules
  import SqlParser
  import Executor
  import Transactions
  import Visibility
  import TransactionManager
  import LockTable
  import VersionManager

  /** A table as `loadTable` and `createTable` build it. */
  datatype LoadedTable = LoadedTable(uid: I64, name: string, nextUid: I64, fields: seq<Field>)

  type Records = map<I64, seq<Byte>>

  // ---------------------------------------------------------------------
  // Loading the catalogue.

  /**
   * `Field.loadField` for each column uid, in order. A uid with no record
   * reads as null, which `parseSelf` dereferences.
   */
  function LoadFields(records: Records, uids: seq<I64>): (r: Result<seq<Field>>)
    ensures r.Ok? ==> |r.value| == |uids|
  {
    if |uids| == 0 then Ok([])
    else if uids[0] !in records then Err(NullPointer)
    else
      var f := ParseField(records[uids[0]]);
      if f.Err? then Err(f.error)
      else
        var rest := LoadFields(records, uids[1..]);
        if rest.Err? then rest else Ok([f.value] + rest.value)
  }

  /** `Table.loadTable`: the table record at `uid`, then its columns. */
  function LoadTable(records: Records, uid: I64): (r: Result<LoadedTable>)
  {
    if uid !in records then Err(NullPointer)
    else
      var t := ParseTable(records[uid]);
      if t.Err? then Err(t.error)
      else
        var fs := LoadFields(records, t.value.fieldUids);
        if fs.Err? then Err(fs.error)
        else Ok(LoadedTable(uid, t.value.name, t.value.nextUid, fs.value))
  }

  /**
   * The loop of `loadTables`: the tables of the chain from `uid` until uid
   * 0, in chain order. `fuel` bounds the walk, which in the original loops
   * forever on a cyclic chain.
   */
  function LoadChain(records: Records, uid: I64, fuel: nat): (r: Result<seq<LoadedTable>>)
    decreases fuel
  {
    if uid == 0 then Ok([])
    else if fuel == 0 then Err(OutOfSteps)
    else
      var t := LoadTable(records, uid);
      if t.Err? then Err(t.error)
      else
        var rest := LoadChain(records, t.value.nextUid, fuel - 1);
        if rest.Err? then rest else Ok([t.value] + rest.value)
  }

  /** The loaded chain starts at `uid`, each table links to the next one, and the last links to 0. */
  lemma {:induction false} ChainLinks(records: Records, uid: I64, fuel: nat)
    requires LoadChain(records, uid, fuel).Ok?
    ensures var ts := LoadChain(records, uid, fuel).value;
            && (|ts| == 0 <==> uid == 0)
            && (|ts| > 0 ==> ts[0].uid == uid && ts[|ts| - 1].nextUid == 0)
            && (forall i :: 0 <= i < |ts| - 1 ==> ts[i].nextUid == ts[i + 1].uid)
            && (forall i :: 0 <= i < |ts| ==> ts[i].uid in records && ts[i].uid != 0)
    decreases fuel
  {
    if uid != 0 {
      var t := LoadTable(records, uid).value;
      var rest := LoadChain(records, t.nextUid, fuel - 1).value;
      ChainLinks(records, t.nextUid, fuel - 1);
      var ts := [t] + rest;
      assert LoadChain(records, uid, fuel).value == ts;
      assert forall i :: 1 <= i < |ts| ==> ts[i] == rest[i - 1];
    }
  }

  /** `tableCache.put` for each table in turn: a later table of the same name replaces an earlier one. */
  function Catalog(ts: seq<LoadedTable>): (c: map<string, LoadedTable>)
  {
    if |ts| == 0 then map[]
    else Catalog(ts[..|ts| - 1])[ts[|ts| - 1].name := ts[|ts| - 1]]
  }

  /** The catalogue holds exactly the names of the tables put into it. */
  lemma {:induction false} CatalogNames(ts: seq<LoadedTable>)
    ensures forall n :: n in Catalog(ts) <==> exists i :: 0 <= i < |ts| && ts[i].name == n
    ensures forall n :: n in Catalog(ts) ==> Catalog(ts)[n] in ts && Catalog(ts)[n].name == n
  {
    if |ts| > 0 {
      var pre := ts[..|ts| - 1];
      CatalogNames(pre);
      assert forall i :: 0 <= i < |pre| ==> pre[i] == ts[i];
    }
  }

  /** Putting a table of a new name first is the same as adding it to the catalogue. */
  lemma {:induction false} CatalogPrepend(t: LoadedTable, ts: seq<LoadedTable>)
    requires t.name !in Catalog(ts)
    ensures Catalog([t] + ts) == Catalog(ts)[t.name := t]
  {
    if |ts| > 0 {
      var pre, last := ts[..|ts| - 1], ts[|ts| - 1];
      assert ([t] + ts)[..|ts|] == [t] + pre;
      assert Catalog(ts) == Catalog(pre)[last.name := last];
      CatalogPrepend(t, pre);
    }
  }

  // ---------------------------------------------------------------------
  // Reading does not depend on records it does not reach.

  /** `b` holds every record of `a` unchanged. */
  predicate Extends(a: Records, b: Records)
  {
    forall u :: u in a ==> u in b && b[u] == a[u]
  }

  lemma {:induction false} LoadFieldsExtends(a: Records, b: Records, uids: seq<I64>)
    requires Extends(a, b) && LoadFields(a, uids).Ok?
    ensures LoadFields(b, uids) == LoadFields(a, uids)
  {
    if |uids| > 0 {
      LoadFieldsExtends(a, b, uids[1..]);
    }
  }

  /** A chain that loads from some records loads the same from any records that extend them. */
  lemma {:induction false} LoadChainExtends(a: Records, b: Records, uid: I64, fuel: nat)
    requires Extends(a, b) && LoadChain(a, uid, fuel).Ok?
    ensures LoadChain(b, uid, fuel) == LoadChain(a, uid, fuel)
    decreases fuel
  {
    if uid != 0 {
      LoadTableExtends(a, b, uid);
      LoadChainExtends(a, b, LoadTable(a, uid).value.nextUid, fuel - 1);
    }
  }

  lemma LoadTableExtends(a: Records, b: Records, uid: I64)
    requires Extends(a, b) && LoadTable(a, uid).Ok?
    ensures LoadTable(b, uid) == LoadTable(a, uid)
  {
    LoadFieldsExtends(a, b, ParseTable(a[uid]).value.fieldUids);
  }

  // ---------------------------------------------------------------------
  // Creating a table.

  /**
   * The columns `createTable` makes, in order, up to the first column
   * whose type `typeCheck` rejects. A column is indexed when its name is
   * among the index names; `trees` are the trees `BTree.create` made.
   */
  function Columns(names: seq<string>, types: seq<string>, index: seq<string>, trees: seq<I64>): (fs: seq<Field>)
    requires |types| == |names| == |trees|
    ensures |fs| <= |names|
  {
    if |names| == 0 then []
    else
      var f := CreateField(names[0], types[0], names[0] in index, trees[0]);
      if f.Err? then [] else [f.value] + Columns(names[1..], types[1..], index, trees[1..])
  }

  /** Every column made is the one `createField` gives, and making stops exactly at the first rejected type. */
  lemma {:induction false} ColumnsMade(names: seq<string>, types: seq<string>, index: seq<string>, trees: seq<I64>)
    requires |types| == |names| == |trees|
    ensures var fs := Columns(names, types, index, trees);
            && (forall i :: 0 <= i < |fs| ==> CreateField(names[i], types[i], names[i] in index, trees[i]) == Ok(fs[i]))
            && (|fs| < |names| ==> CreateField(names[|fs|], types[|fs|], names[|fs|] in index, trees[|fs|]).Err?)
  {
    if |names| > 0 && CreateField(names[0], types[0], names[0] in index, trees[0]).Ok? {
      ColumnsMade(names[1..], types[1..], index, trees[1..]);
    }
  }

  /** The column records stored one after the other, `fs[i]` at `uids[i]`. */
  function StoreFields(records: Records, uids: seq<I64>, fs: seq<Field>): Records
    requires |fs| <= |uids|
  {
    if |fs| == 0 then records
    else StoreFields(records, uids, fs[..|fs| - 1])[uids[|fs| - 1] := FieldToBytes(fs[|fs| - 1])]
  }

  /** Distinct new uids: none is 0 or already holds a record. */
  predicate FreshUids(records: Records, fieldUids: seq<I64>, uid: I64)
  {
    && uid != 0 && uid !in records
    && (forall i :: 0 <= i < |fieldUids| ==> fieldUids[i] !in records && fieldUids[i] != uid)
    && (forall i, j :: 0 <= i < j < |fieldUids| ==> fieldUids[i] != fieldUids[j])
  }

  /** Storing new column records keeps every old record and puts each column at its uid. */
  lemma {:induction false} StoreFieldsAt(records: Records, uids: seq<I64>, fs: seq<Field>)
    requires |fs| <= |uids|
    requires forall i, j :: 0 <= i < j < |uids| ==> uids[i] != uids[j]
    requires forall i :: 0 <= i < |uids| ==> uids[i] !in records
    ensures Extends(records, StoreFields(records, uids, fs))
    ensures forall i :: 0 <= i < |fs| ==>
              uids[i] in StoreFields(records, uids, fs) && StoreFields(records, uids, fs)[uids[i]] == FieldToBytes(fs[i])
  {
    if |fs| > 0 {
      var n := |fs| - 1;
      var prev := StoreFields(records, uids, fs[..n]);
      StoreFieldsAt(records, uids, fs[..n]);
      var now := prev[uids[n] := FieldToBytes(fs[n])];
      assert StoreFields(records, uids, fs) == now;
      forall i | 0 <= i < |fs|
        ensures uids[i] in now && now[uids[i]] == FieldToBytes(fs[i])
      {
        if i < n {
          assert fs[..n][i] == fs[i];
          assert uids[i] != uids[n];
        }
      }
    }
  }

  /** Columns stored in their stored form load back as they were. */
  lemma {:induction false} LoadStoredFields(records: Records, uids: seq<I64>, fs: seq<Field>)
    requires |uids| == |fs|
    requires forall i :: 0 <= i < |uids| ==> uids[i] in records && records[uids[i]] == FieldToBytes(fs[i])
    requires forall i :: 0 <= i < |fs| ==> Storable(fs[i].name) && Storable(fs[i].fieldType)
    ensures LoadFields(records, uids) == Ok(fs)
  {
    if |uids| > 0 {
      FieldRoundTrip(fs[0]);
      LoadStoredFields(records, uids[1..], fs[1..]);
      assert [fs[0]] + fs[1..] == fs;
    }
  }

  /** A type `typeCheck` accepts is one the string codec keeps intact. */
  lemma AcceptedTypesStorable(t: string)
    requires t in FIELD_TYPES
    ensures Storable(t)
  {
  }

  /** The records after `create`: its columns, then the table record pointing at the old first table. */
  function Stored(records: Records, t: LoadedTable, fieldUids: seq<I64>): Records
    requires |fieldUids| == |t.fields|
  {
    StoreFields(records, fieldUids, t.fields)[t.uid := TableToBytes(TableRecord(t.name, t.nextUid, fieldUids))]
  }

  /** The stored records keep the old ones, and the new table record loads back as the table. */
  lemma StoredTableLoads(records: Records, t: LoadedTable, fieldUids: seq<I64>)
    requires |fieldUids| == |t.fields| && FreshUids(records, fieldUids, t.uid)
    requires Storable(t.name)
    requires forall i :: 0 <= i < |t.fields| ==> Storable(t.fields[i].name) && t.fields[i].fieldType in FIELD_TYPES
    ensures Extends(records, Stored(records, t, fieldUids))
    ensures LoadTable(Stored(records, t, fieldUids), t.uid) == Ok(t)
  {
    var after := Stored(records, t, fieldUids);
    StoreFieldsAt(records, fieldUids, t.fields);
    forall i | 0 <= i < |fieldUids|
      ensures fieldUids[i] in after && after[fieldUids[i]] == FieldToBytes(t.fields[i])
      ensures Storable(t.fields[i].fieldType)
    {
      AcceptedTypesStorable(t.fields[i].fieldType);
    }
    LoadStoredFields(after, fieldUids, t.fields);
    TableRoundTrip(TableRecord(t.name, t.nextUid, fieldUids));
  }

  /**
   * A table created on a catalogue that loads is the first table the
   * stored chain loads after it, in front of all the old ones, and
   * reloading gives the catalogue the creation left in memory.
   */
  lemma CreateThenLoad(records: Records, fuel: nat, ts: seq<LoadedTable>, t: LoadedTable, fieldUids: seq<I64>)
    requires LoadChain(records, t.nextUid, fuel) == Ok(ts)
    requires t.name !in Catalog(ts)
    requires |fieldUids| == |t.fields| && FreshUids(records, fieldUids, t.uid)
    requires Storable(t.name)
    requires forall i :: 0 <= i < |t.fields| ==> Storable(t.fields[i].name) && t.fields[i].fieldType in FIELD_TYPES
    ensures LoadChain(Stored(records, t, fieldUids), t.uid, fuel + 1) == Ok([t] + ts)
    ensures Catalog([t] + ts) == Catalog(ts)[t.name := t]
  {
    var after := Stored(records, t, fieldUids);
    StoredTableLoads(records, t, fieldUids);
    LoadChainExtends(records, after, t.nextUid, fuel);
    CatalogPrepend(t, ts);
  }

  // ---------------------------------------------------------------------
  // The other rules of the table manager.

  /** `begin`: a repeatable-read request runs at level 1, any other at level 0. */
  function Level(repeatableRead: bool): (l: I32)
  {
    if repeatableRead then Visibility.REPEATABLE_READ else Visibility.READ_COMMITTED
  }

  /**
   * The transaction `begin` registers takes a snapshot exactly when
   * repeatable read was asked for, and reads by the matching rule.
   */
  lemma LevelMeaning(repeatableRead: bool, xid: I64, active: set<I64>, committed: I64 -> bool, xmin: I64, xmax: I64)
    ensures var t := Transactions.NewTransaction(xid, Level(repeatableRead), Some(active));
            && (t.snapshot.Some? <==> repeatableRead)
            && Visibility.IsVisible(committed, t, xmin, xmax) ==
               (if repeatableRead then Visibility.RepeatableRead(committed, t, xmin, xmax)
                else Visibility.ReadCommitted(committed, t, xmin, xmax))
  {
  }

  /** The table a row statement names. `insert` and `read` report a missing table; `update` and `delete` dereference it as null. */
  function Target(tableCache: map<string, LoadedTable>, stat: SqlParser.Statement): (r: Result<LoadedTable>)
    requires stat.Insert? || stat.Select? || stat.Update? || stat.Delete?
    ensures r.Ok? <==> stat.tableName in tableCache
    ensures r.Ok? ==> r.value == tableCache[stat.tableName] && r.value in tableCache.Values
    ensures r.Err? && (stat.Insert? || stat.Select?) ==> r.error == TableNotFound
    ensures r.Err? && (stat.Update? || stat.Delete?) ==> r.error == NullPointer
  {
    if stat.tableName in tableCache then Ok(tableCache[stat.tableName])
    else if stat.Insert? || stat.Select? then Err(TableNotFound)
    else Err(NullPointer)
  }

  /** The tables `xid` created, in order (none when it created none). */
  function CreatedBy(xidTableCache: map<I64, seq<LoadedTable>>, xid: I64): seq<LoadedTable>
  {
    if xid in xidTableCache then xidTableCache[xid] else []
  }

  /** `order` lists each name of the catalogue once: the iteration order of the map. */
  ghost predicate ListsOnce(order: seq<string>, tableCache: map<string, LoadedTable>)
  {
    && (forall n :: n in tableCache <==> n in order)
    && (forall i, j :: 0 <= i < j < |order| ==> order[i] != order[j])
  }

  /** `show`: every table of the catalogue, then the tables `xid` created. */
  function ShowList(order: seq<string>, tableCache: map<string, LoadedTable>, created: seq<LoadedTable>): (ts: seq<LoadedTable>)
    requires forall i :: 0 <= i < |order| ==> order[i] in tableCache
  {
    seq(|order|, i requires 0 <= i < |order| => tableCache[order[i]]) + created
  }

  /**
   * `show` lists the catalogue once each, then what `xid` created, so a
   * table `xid` created (and that is still in the catalogue) is listed twice.
   */
  lemma ShowListsCreatedTwice(order: seq<string>, tableCache: map<string, LoadedTable>, created: seq<LoadedTable>, t: LoadedTable)
    requires ListsOnce(order, tableCache)
    requires t in created && t.name in tableCache && tableCache[t.name] == t
    ensures var ts := ShowList(order, tableCache, created);
            |ts| == |tableCache| + |created| &&
            exists i, j :: 0 <= i < |order| <= j < |ts| && ts[i] == t && ts[j] == t
  {
    var ts := ShowList(order, tableCache, created);
    var i :| 0 <= i < |order| && order[i] == t.name;
    var k :| 0 <= k < |created| && created[k] == t;
    assert ts[i] == t && ts[|order| + k] == t;
    assert order == order[..|order|];
    assert |order| == |tableCache| by { ListedCount(order, tableCache); }
  }

  /** A list of distinct names that covers a map's keys has the map's size. */
  lemma ListedCount(order: seq<string>, m: map<string, LoadedTable>)
    requires ListsOnce(order, m)
    ensures |order| == |m|
  {
    DistinctCount(order);
    assert m.Keys == set x | x in order;
  }

  /** A list without repeats has as many elements as the set of its elements. */
  lemma {:induction false} DistinctCount(order: seq<string>)
    requires forall i, j :: 0 <= i < j < |order| ==> order[i] != order[j]
    ensures |set x | x in order| == |order|
  {
    if |order| > 0 {
      var rest, last := order[..|order| - 1], order[|order| - 1];
      DistinctCount(rest);
      assert (set x | x in order) == (set x | x in rest) + {last};
      assert forall j :: 0 <= j < |rest| ==> rest[j] == order[j] != last;
      assert last !in rest;
    }
  }

  /** The text a reply is sent as: one byte per character, which UTF-8 gives for ASCII. */
  function Text(s: string): seq<Byte>
  {
    CharsToBytes(s)
  }

  // ---------------------------------------------------------------------
  // The table manager.

  class TableManagerImpl {
    const vm: VersionManager.VersionManagerImpl
    /** The table and column records the super transaction reads, by uid. */
    var records: Records
    /** The boot file: the uid of the first table of the chain, 0 when there is none. */
    var boot: I64
    var tableCache: map<string, LoadedTable>
    var xidTableCache: map<I64, seq<LoadedTable>>

    constructor (vm: VersionManager.VersionManagerImpl, records: Records, boot: I64)
      ensures this.vm == vm && this.records == records && this.boot == boot
      ensures tableCache == map[] && xidTableCache == map[]
    {
      this.vm := vm;
      this.records := records;
      this.boot := boot;
      tableCache := map[];
      xidTableCache := map[];
    }

    /**
     * `loadTables`: the chain from the boot pointer, put into the
     * catalogue by name. `fuel` bounds the walk.
     */
    method LoadTables(fuel: nat) returns (r: Result<()>)
      requires tableCache == map[]
      modifies this`tableCache
      ensures var c := LoadChain(records, boot, fuel);
              && (r.Ok? <==> c.Ok?)
              && (r.Err? ==> r.error == c.error)
              && (r.Ok? ==> tableCache == Catalog(c.value))
    {
      var uid := boot;
      var steps := fuel;
      ghost var done: seq<LoadedTable> := [];
      PrefixedEmpty(LoadChain(records, boot, fuel));
      while uid != 0
        invariant LoadChain(records, boot, fuel) == Prefixed(done, LoadChain(records, uid, steps))
        invariant tableCache == Catalog(done)
        decreases steps
      {
        if steps == 0 {
          return Err(OutOfSteps);
        }
        var t := LoadStep(uid, steps, done);
        if t.Err? {
          return Err(t.error);
        }
        done := done + [t.value];
        uid := t.value.nextUid;
        steps := steps - 1;
      }
      PrefixedEmpty(Ok(done));
      r := Ok(());
    }

    /** One table of `loadTables`: loaded and put into the catalogue. */
    method LoadStep(uid: I64, steps: nat, ghost done: seq<LoadedTable>) returns (t: Result<LoadedTable>)
      requires uid != 0 && steps > 0 && tableCache == Catalog(done)
      modifies this`tableCache
      ensures t.Err? ==> Prefixed(done, LoadChain(records, uid, steps)) == Err(t.error)
      ensures t.Ok? ==> Prefixed(done, LoadChain(records, uid, steps)) == Prefixed(done + [t.value], LoadChain(records, t.value.nextUid, steps - 1))
      ensures t.Ok? ==> tableCache == Catalog(done + [t.value])
    {
      t := LoadTable(records, uid);
      if t.Ok? {
        WalkStep(records, done, uid, steps, t.value);
        CatalogSnoc(done, t.value);
        tableCache := tableCache[t.value.name := t.value];
      }
    }

    /**
     * `begin`: the version manager begins a transaction at the level the
     * statement asks for.
     */
    method Begin(stat: SqlParser.Statement) returns (res: Executor.BeginRes)
      requires stat.Begin?
      requires vm.Valid() && vm.tm.Valid()
      requires TransactionManager.XID_HEADER_LENGTH + vm.tm.xidCounter + 1 < TWO_63
      modifies vm.tm, vm`active
      ensures vm.Valid() && vm.tm.Valid()
      ensures res.xid == old(vm.tm.xidCounter) + 1 && res.xid !in old(vm.active)
      ensures vm.active == old(vm.active)[res.xid := Transactions.NewTransaction(res.xid, Level(stat.repeatableRead), Some(old(vm.active).Keys))]
      ensures res.result == Text("begin")
    {
      var xid := vm.Begin(Level(stat.repeatableRead));
      res := Executor.BeginRes(xid, Text("begin"));
    }

    /** `commit`: the version manager commits `xid`; its error is passed on. */
    method Commit(xid: I64) returns (r: Result<seq<Byte>>)
      requires vm.Valid()
      modifies vm`active, vm.locks, vm.tm`file
      ensures vm.Valid()
      ensures xid !in old(vm.active) ==> r == Err(Panic) && unchanged(vm, vm.tm, vm.locks)
      ensures xid in old(vm.active) && old(vm.active[xid].err).Some? ==>
        r == Err(old(vm.active[xid].err).value) && unchanged(vm, vm.tm, vm.locks)
      ensures xid in old(vm.active) && old(vm.active[xid].err).None? ==>
        && r == Ok(Text("commit"))
        && vm.active == old(vm.active) - {xid}
        && vm.locks.State() == LockTable.Release(old(vm.locks.State()), xid, true)
        && vm.tm.file == WriteAt(old(vm.tm.file), TransactionManager.XidPosition(xid), [TransactionManager.FIELD_TRAN_COMMITTED])
    {
      var c := vm.Commit(xid);
      if c.Err? {
        return Err(c.error);
      }
      r := Ok(Text("commit"));
    }

    /** `abort`: the version manager aborts `xid` manually. */
    method Abort(xid: I64) returns (r: Result<seq<Byte>>)
      requires vm.Valid()
      modifies vm`active, vm`rollbacks, vm.locks, vm.tm`file
      ensures vm.Valid()
      ensures xid !in vm.active
      ensures r.Ok? <==> old(xid in vm.active)
      ensures r.Ok? ==> r.value == Text("rollback")
      ensures old(xid in vm.active) && !old(vm.active[xid].autoAborted) ==>
        vm.tm.file == WriteAt(old(vm.tm.file), TransactionManager.XidPosition(xid), [TransactionManager.FIELD_TRAN_ROLLBACK])
    {
      var a := vm.Abort(xid);
      if a.Err? {
        return Err(a.error);
      }
      r := Ok(Text("rollback"));
    }

    /** `show`: the catalogue's tables in map order, then those `xid` created. */
    method Show(xid: I64, order: seq<string>) returns (ts: seq<LoadedTable>)
      requires ListsOnce(order, tableCache)
      ensures ts == ShowList(order, tableCache, CreatedBy(xidTableCache, xid))
    {
      var cache := tableCache;
      ts := [];
      var i := 0;
      while i < |order|
        invariant 0 <= i <= |order|
        invariant ts == seq(i, k requires 0 <= k < i => cache[order[k]])
      {
        ts := ts + [cache[order[i]]];
        i := i + 1;
      }
      ts := ts + CreatedBy(xidTableCache, xid);
    }

    /**
     * `create`: a name already in the catalogue is refused and nothing
     * changes. Otherwise the columns are made and stored one by one; a
     * rejected column type stops the creation with the columns before it
     * stored. Once all are made, the table record is stored pointing at
     * the old first table, the boot pointer moves to it, and it enters the
     * catalogue and `xid`'s list. `trees`, `fieldUids` and `uid` are the
     * uids the B+ tree and the data manager hand out.
     */
    method Create(xid: I64, stat: SqlParser.Statement, trees: seq<I64>, fieldUids: seq<I64>, uid: I64) returns (r: Result<seq<Byte>>)
      requires stat.Create?
      requires |stat.fieldTypes| == |stat.fieldNames| == |trees| == |fieldUids|
      requires FreshUids(records, fieldUids, uid)
      modifies this`records, this`boot, this`tableCache, this`xidTableCache
      ensures stat.tableName in old(tableCache) ==> r == Err(DuplicatedTable) && unchanged(this)
      ensures stat.tableName !in old(tableCache) ==>
        var cols := Columns(stat.fieldNames, stat.fieldTypes, stat.index, trees);
        |cols| < |fieldUids| ==>
          && r == Err(InvalidField)
          && records == StoreFields(old(records), fieldUids, cols)
          && boot == old(boot) && tableCache == old(tableCache) && xidTableCache == old(xidTableCache)
      ensures stat.tableName !in old(tableCache) ==>
        var cols := Columns(stat.fieldNames, stat.fieldTypes, stat.index, trees);
        var t := LoadedTable(uid, stat.tableName, old(boot), cols);
        |cols| == |fieldUids| ==>
          && r == Ok(Text("create " + stat.tableName))
          && records == Stored(old(records), t, fieldUids)
          && boot == uid
          && tableCache == old(tableCache)[t.name := t]
          && xidTableCache == old(xidTableCache)[xid := CreatedBy(old(xidTableCache), xid) + [t]]
    {
      if stat.tableName in tableCache {
        return Err(DuplicatedTable);
      }
      var made := MakeColumns(stat.fieldNames, stat.fieldTypes, stat.index, trees, fieldUids);
      if made.Err? {
        return Err(made.error);
      }
      Link(xid, LoadedTable(uid, stat.tableName, boot, made.value), fieldUids);
      r := Ok(Text("create " + stat.tableName));
    }

    /** The end of `create`: the table record is stored and put first in the chain and in the catalogue. */
    method Link(xid: I64, t: LoadedTable, fieldUids: seq<I64>)
      modifies this`records, this`boot, this`tableCache, this`xidTableCache
      ensures records == old(records)[t.uid := TableToBytes(TableRecord(t.name, t.nextUid, fieldUids))]
      ensures boot == t.uid
      ensures tableCache == old(tableCache)[t.name := t]
      ensures xidTableCache == old(xidTableCache)[xid := CreatedBy(old(xidTableCache), xid) + [t]]
    {
      records := records[t.uid := TableToBytes(TableRecord(t.name, t.nextUid, fieldUids))];
      boot := t.uid;
      tableCache := tableCache[t.name := t];
      xidTableCache := xidTableCache[xid := CreatedBy(xidTableCache, xid) + [t]];
    }

    /**
     * The column loop of `createTable`: each column is made and its record
     * stored, until a column's type is rejected.
     */
    method MakeColumns(names: seq<string>, types: seq<string>, index: seq<string>, trees: seq<I64>, fieldUids: seq<I64>)
      returns (r: Result<seq<Field>>)
      requires |types| == |names| == |trees| == |fieldUids|
      modifies this`records
      ensures var cols := Columns(names, types, index, trees);
              && (r.Ok? <==> |cols| == |fieldUids|)
              && (r.Ok? ==> r.value == cols)
              && (r.Err? ==> r.error == InvalidField)
              && records == StoreFields(old(records), fieldUids, cols)
    {
      ghost var cols := Columns(names, types, index, trees);
      var fields: seq<Field> := [];
      var i := 0;
      while i < |names|
        invariant 0 <= i <= |names| && i <= |cols|
        invariant fields == cols[..i]
        invariant records == StoreFields(old(records), fieldUids, fields)
      {
        var f := CreateField(names[i], types[i], names[i] in index, trees[i]);
        ColumnAt(names, types, index, trees, i);
        if f.Err? {
          assert cols[..i] == cols;
          return Err(f.error);
        }
        StoreFieldsSnoc(old(records), fieldUids, fields, f.value);
        assert cols[..i + 1] == fields + [f.value];
        records := records[fieldUids[i] := FieldToBytes(f.value)];
        fields := fields + [f.value];
        i := i + 1;
      }
      r := Ok(fields);
    }
  }

  /** The loaded tables `done` in front of the rest of the walk, or the walk's failure. */
  function Prefixed(done: seq<LoadedTable>, rest: Result<seq<LoadedTable>>): Result<seq<LoadedTable>>
  {
    if rest.Err? then rest else Ok(done + rest.value)
  }

  lemma PrefixedEmpty(c: Result<seq<LoadedTable>>)
    ensures Prefixed([], c) == c
    ensures c.Ok? ==> Prefixed(c.value, Ok([])) == c
  {
    if c.Ok? {
      assert [] + c.value == c.value + [] == c.value;
    }
  }

  /** One table of the walk: it moves from the rest of the chain to the loaded part. */
  lemma WalkStep(records: Records, done: seq<LoadedTable>, uid: I64, steps: nat, t: LoadedTable)
    requires uid != 0 && steps > 0 && LoadTable(records, uid) == Ok(t)
    ensures Prefixed(done, LoadChain(records, uid, steps)) == Prefixed(done + [t], LoadChain(records, t.nextUid, steps - 1))
  {
    PrefixedSnoc(done, t, LoadChain(records, t.nextUid, steps - 1));
  }

  lemma CatalogSnoc(done: seq<LoadedTable>, t: LoadedTable)
    ensures Catalog(done + [t]) == Catalog(done)[t.name := t]
  {
    assert (done + [t])[..|done|] == done;
  }

  /** Column `i` of `Columns`, when the columns before it were made. */
  lemma ColumnAt(names: seq<string>, types: seq<string>, index: seq<string>, trees: seq<I64>, i: nat)
    requires |types| == |names| == |trees| && i < |names|
    requires i <= |Columns(names, types, index, trees)|
    ensures var f := CreateField(names[i], types[i], names[i] in index, trees[i]);
            var cols := Columns(names, types, index, trees);
            (f.Err? ==> i == |cols|) && (f.Ok? ==> i < |cols| && cols[i] == f.value)
  {
    ColumnsMade(names, types, index, trees);
  }

  lemma StoreFieldsSnoc(records: Records, uids: seq<I64>, fs: seq<Field>, f: Field)
    requires |fs| < |uids|
    ensures StoreFields(records, uids, fs + [f]) == StoreFields(records, uids, fs)[uids[|fs|] := FieldToBytes(f)]
  {
    assert (fs + [f])[..|fs|] == fs;
  }

  lemma PrefixedSnoc(done: seq<LoadedTable>, t: LoadedTable, rest: Result<seq<LoadedTable>>)
    ensures Prefixed(done, if rest.Err? then rest else Ok([t] + rest.value)) == Prefixed(done + [t], rest)
  {
    if rest.Ok? {
      assert done + ([t] + rest.value) == (done + [t]) + rest.value;
    }
  }

  /** `TableManager.create`: the boot file starts at 0, so the catalogue starts empty. */
  method CreateManager(vm: VersionManager.VersionManagerImpl, records: Records) returns (tbm: TableManagerImpl)
    ensures fresh(tbm) && tbm.vm == vm && tbm.records == records && tbm.boot == 0
    ensures tbm.tableCache == map[] && tbm.xidTableCache == map[]
  {
    tbm := new TableManagerImpl(vm, records, 0);
    var _ := tbm.LoadTables(0);
  }

  /** `TableManager.open`: the catalogue is the chain the boot file points at. */
  method OpenManager(vm: VersionManager.VersionManagerImpl, records: Records, boot: I64, fuel: nat) returns (r: Result<TableManagerImpl>)
    ensures var c := LoadChain(records, boot, fuel);
            && (r.Ok? <==> c.Ok?)
            && (r.Err? ==> r.error == c.error)
            && (r.Ok? ==> fresh(r.value) && r.value.vm == vm && r.value.records == records && r.value.boot == boot &&
                          r.value.tableCache == Catalog(c.value) && r.value.xidTableCache == map[])
  {
    var tbm := new TableManagerImpl(vm, records, boot);
    var l := tbm.LoadTables(fuel);
    if l.Err? {
      return Err(l.error);
    }
    r := Ok(tbm);
  }
}
