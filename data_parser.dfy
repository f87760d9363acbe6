/** The lineage index of `src/utils/dataParser.js`: lineage rows folded into
    an ordered map from each target field key (`db.table.column`) to its
    record, the sorted list of every table key seen, and the two queries
    the graph engine makes of it. */
module DataParser {
  import opened Wrappers
  import opened Strings
  import opened Sorting
  import opened OrderedMaps

  /** One lineage row: a target column fed by a source column, with the
      optional provenance tags `union_branch` and `sql_file`. */
  datatype Row = Row(
    targetTableDb: string, targetTableName: string, targetColumn: string,
    sourceDb: string, sourceTableName: string, sourceColumn: string,
    unionBranch: Option<string>, sqlFile: Option<string>)

  datatype UpstreamRef = UpstreamRef(
    database: string, table: string, column: string,
    tableKey: string, fieldKey: string,
    unionBranch: Option<string>, sqlFile: Option<string>)

  datatype Record = Record(
    database: string, table: string, column: string, tableKey: string,
    upstreams: seq<UpstreamRef>)

  /** The `lineageMap`: field key to record, in first-seen key order. */
  type LineageMap = OrderedMap<Record>

  /** An element of `getTableFields`' result: the record together with its key. */
  datatype FieldEntry = FieldEntry(key: string, record: Record)

  function TargetTableKey(row: Row): string
  {
    row.targetTableDb + "." + row.targetTableName
  }

  function SourceTableKey(row: Row): string
  {
    row.sourceDb + "." + row.sourceTableName
  }

  function TargetFieldKey(row: Row): string
  {
    TargetTableKey(row) + "." + row.targetColumn
  }

  /** The upstream entry a row contributes to its target's record. */
  function UpstreamOf(row: Row): UpstreamRef
  {
    UpstreamRef(row.sourceDb, row.sourceTableName, row.sourceColumn,
                SourceTableKey(row), SourceTableKey(row) + "." + row.sourceColumn,
                row.unionBranch, row.sqlFile)
  }

  /** The record created for the first row bearing a target key. */
  function NewRecord(row: Row): Record
  {
    Record(row.targetTableDb, row.targetTableName, row.targetColumn, TargetTableKey(row), [])
  }

  /** One step of the fold: create the record if absent, then push the upstream. */
  function IndexStep(m: LineageMap, row: Row): LineageMap
  {
    var k := TargetFieldKey(row);
    var rec := if k in m.values then m.values[k] else NewRecord(row);
    m.Set(k, rec.(upstreams := rec.upstreams + [UpstreamOf(row)]))
  }

  /** The map that folding `rows` in order produces. */
  function Index(rows: seq<Row>): LineageMap
  {
    if |rows| == 0 then Empty()
    else IndexStep(Index(rows[..|rows| - 1]), rows[|rows| - 1])
  }

  /** The target field key of every row, in row order. */
  function TargetKeys(rows: seq<Row>): seq<string>
  {
    seq(|rows|, i requires 0 <= i < |rows| => TargetFieldKey(rows[i]))
  }

  /** The upstream entries of the rows whose target key is `k`, in row order. */
  function UpstreamsFor(rows: seq<Row>, k: string): seq<UpstreamRef>
  {
    if |rows| == 0 then []
    else
      var last := rows[|rows| - 1];
      UpstreamsFor(rows[..|rows| - 1], k) + if TargetFieldKey(last) == k then [UpstreamOf(last)] else []
  }

  /** Every table key in the order the loop adds them to `tablesSet`:
      the target's, then the source's, row by row. */
  function TableKeysSeen(rows: seq<Row>): seq<string>
  {
    if |rows| == 0 then []
    else
      var last := rows[|rows| - 1];
      TableKeysSeen(rows[..|rows| - 1]) + [TargetTableKey(last), SourceTableKey(last)]
  }

  /** `set.add(x)` on a set kept as its insertion-ordered elements. */
  function AddToSet(s: seq<string>, x: string): seq<string>
  {
    if x in s then s else s + [x]
  }

  function Identity(s: string): string
  {
    s
  }

  function Column(e: FieldEntry): string
  {
    e.record.column
  }

  /** `parseLineageData`: one pass over the rows building the map and the
      table set, then the table keys sorted. */
  method ParseLineageData(rows: seq<Row>) returns (lineageMap: LineageMap, tables: seq<string>)
    ensures lineageMap == Index(rows)
    ensures forall i, j :: 0 <= i < j < |tables| ==> Less(tables[i], tables[j])
    ensures forall t :: t in tables <==> t in TableKeysSeen(rows)
  {
    lineageMap := Empty();
    var tablesSet: seq<string> := [];
    var i := 0;
    while i < |rows|
      invariant 0 <= i <= |rows|
      invariant lineageMap == Index(rows[..i])
      invariant tablesSet == Dedup(TableKeysSeen(rows[..i]))
    {
      var row := rows[i];
      ghost var before := lineageMap;
      var targetTableKey := row.targetTableDb + "." + row.targetTableName;
      var sourceTableKey := row.sourceDb + "." + row.sourceTableName;
      tablesSet := AddToSet(tablesSet, targetTableKey);
      tablesSet := AddToSet(tablesSet, sourceTableKey);
      var fieldKey := targetTableKey + "." + row.targetColumn;
      if fieldKey !in lineageMap.values {
        lineageMap := lineageMap.Set(fieldKey, Record(row.targetTableDb, row.targetTableName,
                                                      row.targetColumn, targetTableKey, []));
      }
      var rec := lineageMap.values[fieldKey];
      var upstream := UpstreamRef(row.sourceDb, row.sourceTableName, row.sourceColumn,
                                  sourceTableKey, sourceTableKey + "." + row.sourceColumn,
                                  row.unionBranch, row.sqlFile);
      lineageMap := lineageMap.Set(fieldKey, rec.(upstreams := rec.upstreams + [upstream]));
      assert lineageMap == IndexStep(before, row) by {
        if fieldKey !in before.values {
          SetTwice(before, fieldKey, NewRecord(row), rec.(upstreams := rec.upstreams + [upstream]));
        }
      }
      assert rows[..i + 1][..i] == rows[..i];
      assert tablesSet == Dedup(TableKeysSeen(rows[..i + 1])) by {
        DedupTwo(TableKeysSeen(rows[..i]), targetTableKey, sourceTableKey);
      }
      i := i + 1;
    }
    assert rows[..i] == rows;
    tables := SortBy(tablesSet, Identity);
    SortedTableKeys(TableKeysSeen(rows));
  }

  lemma SetTwice<V>(m: OrderedMap<V>, k: string, a: V, b: V)
    ensures m.Set(k, a).Set(k, b) == m.Set(k, b)
  {
  }

  lemma DedupTwo(s: seq<string>, x: string, y: string)
    ensures Dedup(s + [x, y]) == AddToSet(AddToSet(Dedup(s), x), y)
  {
    assert (s + [x, y])[..|s| + 1] == s + [x];
    assert (s + [x])[..|s|] == s;
  }

  /** Sorting the insertion-ordered table set gives every table key once,
      in strictly ascending order. */
  lemma SortedTableKeys(s: seq<string>)
    ensures forall i, j :: 0 <= i < j < |SortBy(Dedup(s), Identity)| ==>
              Less(SortBy(Dedup(s), Identity)[i], SortBy(Dedup(s), Identity)[j])
    ensures forall t :: t in SortBy(Dedup(s), Identity) <==> t in s
  {
    var d := Dedup(s);
    var r := SortBy(d, Identity);
    DedupProperties(s);
    SortBySorted(d, Identity);
    SortByPermutation(d, Identity);
    DistinctPermutation(d, r);
    forall t
      ensures t in r <==> t in s
    {
      assert t in r <==> t in multiset(r);
      assert t in d <==> t in multiset(d);
    }
    forall i, j | 0 <= i < j < |r|
      ensures Less(r[i], r[j])
    {
      assert LessEq(Identity(r[i]), Identity(r[j]));
    }
  }

  /** `getTableFields` before sorting: the entries with table key `t`, in
      map iteration order over `keys`. */
  function EntriesOf(m: LineageMap, keys: seq<string>, t: string): seq<FieldEntry>
    requires forall k | k in keys :: k in m.values
  {
    if |keys| == 0 then []
    else
      var k := keys[|keys| - 1];
      EntriesOf(m, keys[..|keys| - 1], t) +
      if m.values[k].tableKey == t then [FieldEntry(k, m.values[k])] else []
  }

  /** What `getTableFields(lineageMap, t)` returns. */
  function TableFields(m: LineageMap, t: string): seq<FieldEntry>
    requires m.Valid()
  {
    SortBy(EntriesOf(m, m.keys, t), Column)
  }

  /** `getTableFields`: collect the matching entries in map order, then sort
      them by column. */
  method GetTableFields(m: LineageMap, t: string) returns (fields: seq<FieldEntry>)
    requires m.Valid()
    ensures fields == TableFields(m, t)
  {
    fields := [];
    var i := 0;
    while i < |m.keys|
      invariant 0 <= i <= |m.keys|
      invariant fields == EntriesOf(m, m.keys[..i], t)
    {
      var fieldKey := m.keys[i];
      var fieldData := m.values[fieldKey];
      if fieldData.tableKey == t {
        fields := fields + [FieldEntry(fieldKey, fieldData)];
      }
      assert m.keys[..i + 1][..i] == m.keys[..i];
      i := i + 1;
    }
    assert m.keys[..i] == m.keys;
    fields := SortBy(fields, Column);
  }

  /** `getFieldUpstreams`: the record's upstreams, or none for a key
      without a record. */
  function GetFieldUpstreams(m: LineageMap, k: string): seq<UpstreamRef>
  {
    if k in m.values then m.values[k].upstreams else []
  }

  /** Folding keeps the map well formed. */
  lemma {:induction false} IndexValid(rows: seq<Row>)
    ensures Index(rows).Valid()
  {
    if |rows| > 0 {
      IndexValid(rows[..|rows| - 1]);
    }
  }

  lemma {:induction false} IndexDomain(rows: seq<Row>)
    ensures forall k :: k in Index(rows).values <==> k in TargetKeys(rows)
  {
    if |rows| > 0 {
      var init := rows[..|rows| - 1];
      var last := rows[|rows| - 1];
      IndexDomain(init);
      assert Index(rows) == IndexStep(Index(init), last);
      assert TargetKeys(rows) == TargetKeys(init) + [TargetFieldKey(last)];
    }
  }

  lemma {:induction false} IndexKeyOrder(rows: seq<Row>)
    ensures Index(rows).keys == Dedup(TargetKeys(rows))
  {
    if |rows| > 0 {
      var init := rows[..|rows| - 1];
      var last := rows[|rows| - 1];
      var k := TargetFieldKey(last);
      var d := Dedup(TargetKeys(init));
      IndexKeyOrder(init);
      IndexDomain(init);
      DedupProperties(TargetKeys(init));
      assert TargetKeys(rows)[..|rows| - 1] == TargetKeys(init);
      assert TargetKeys(rows)[|rows| - 1] == k;
      assert Dedup(TargetKeys(rows)) == if k in d then d else d + [k];
      assert k in Index(init).values <==> k in d;
      assert Index(rows).keys == if k in Index(init).values then Index(init).keys else Index(init).keys + [k];
    }
  }

  /** The map's keys are the distinct target keys of the rows, in order of
      first appearance. */
  lemma IndexKeys(rows: seq<Row>)
    ensures Index(rows).keys == Dedup(TargetKeys(rows))
    ensures forall k :: k in Index(rows).values <==> k in TargetKeys(rows)
  {
    IndexKeyOrder(rows);
    IndexDomain(rows);
  }

  /** A record's upstreams are one entry per row bearing its key, in row
      order; a key no row bears has no record. */
  lemma {:induction false} IndexUpstreams(rows: seq<Row>, k: string)
    ensures k in Index(rows).values ==> Index(rows).values[k].upstreams == UpstreamsFor(rows, k)
    ensures k !in Index(rows).values ==> UpstreamsFor(rows, k) == []
  {
    if |rows| > 0 {
      IndexUpstreams(rows[..|rows| - 1], k);
    }
  }

  /** A record's database, table, column and table key come from the first
      row bearing its key. */
  lemma {:induction false} IndexHeader(rows: seq<Row>, i: nat)
    requires i < |rows|
    requires forall j :: 0 <= j < i ==> TargetFieldKey(rows[j]) != TargetFieldKey(rows[i])
    ensures TargetFieldKey(rows[i]) in Index(rows).values
    ensures var r := Index(rows).values[TargetFieldKey(rows[i])];
      && r.database == rows[i].targetTableDb
      && r.table == rows[i].targetTableName
      && r.column == rows[i].targetColumn
      && r.tableKey == rows[i].targetTableDb + "." + rows[i].targetTableName
  {
    var init := rows[..|rows| - 1];
    var last := rows[|rows| - 1];
    var k := TargetFieldKey(rows[i]);
    assert Index(rows) == IndexStep(Index(init), last);
    if i == |rows| - 1 {
      IndexKeys(init);
      assert k !in TargetKeys(init);
    } else {
      assert init[i] == rows[i];
      assert forall j :: 0 <= j < i ==> init[j] == rows[j];
      IndexHeader(init, i);
      var r0 := Index(init).values[k];
      assert Index(rows).values[k] == if TargetFieldKey(last) == k then r0.(upstreams := r0.upstreams + [UpstreamOf(last)]) else r0;
    }
  }

  /** Every record has at least one upstream. */
  lemma {:induction false} RecordsNonEmpty(rows: seq<Row>)
    ensures forall k :: k in Index(rows).values ==> |Index(rows).values[k].upstreams| > 0
  {
    if |rows| > 0 {
      RecordsNonEmpty(rows[..|rows| - 1]);
    }
  }

  /** Every upstream entry's table key joins its database and table, and its
      field key joins that table key and its column. */
  lemma {:induction false} UpstreamKeysWellFormed(rows: seq<Row>)
    ensures forall k, u :: k in Index(rows).values && u in Index(rows).values[k].upstreams ==>
      u.tableKey == u.database + "." + u.table && u.fieldKey == u.tableKey + "." + u.column
  {
    if |rows| > 0 {
      UpstreamKeysWellFormed(rows[..|rows| - 1]);
    }
  }

  /** The entries of `UpstreamsFor` are built from rows bearing the key,
      provenance tags included. */
  lemma {:induction false} UpstreamsForFromRows(rows: seq<Row>, k: string)
    ensures forall u :: u in UpstreamsFor(rows, k) ==>
      exists row :: row in rows && TargetFieldKey(row) == k && u == UpstreamOf(row)
  {
    if |rows| > 0 {
      var init := rows[..|rows| - 1];
      UpstreamsForFromRows(init, k);
      forall u | u in UpstreamsFor(rows, k)
        ensures exists row :: row in rows && TargetFieldKey(row) == k && u == UpstreamOf(row)
      {
        if u in UpstreamsFor(init, k) {
          var row :| row in init && TargetFieldKey(row) == k && u == UpstreamOf(row);
          assert row in rows;
        } else {
          assert rows[|rows| - 1] in rows;
        }
      }
    }
  }

  /** `getFieldUpstreams` on the built index yields the upstreams of the rows
      bearing the key, and nothing for a key no row targets. */
  lemma {:induction false} FieldUpstreamsOfIndex(rows: seq<Row>, k: string)
    ensures GetFieldUpstreams(Index(rows), k) == UpstreamsFor(rows, k)
    ensures (forall i :: 0 <= i < |rows| ==> TargetFieldKey(rows[i]) != k) ==>
      GetFieldUpstreams(Index(rows), k) == []
  {
    IndexUpstreams(rows, k);
    IndexKeys(rows);
  }

  lemma {:induction false} EntriesOfMembers(m: LineageMap, keys: seq<string>, t: string)
    requires forall k | k in keys :: k in m.values
    ensures forall e :: e in EntriesOf(m, keys, t) <==>
      e.key in keys && e.record == m.values[e.key] && e.record.tableKey == t
    ensures Distinct(keys) ==> Distinct(EntriesOf(m, keys, t))
  {
    if |keys| > 0 {
      var init := keys[..|keys| - 1];
      EntriesOfMembers(m, init, t);
      assert keys == init + [keys[|keys| - 1]];
    }
  }

  /** `getTableFields(m, t)` holds exactly the records whose table key is
      `t`, each once and with its own key. */
  lemma TableFieldsMembers(m: LineageMap, t: string)
    requires m.Valid()
    ensures forall e :: e in TableFields(m, t) <==>
      e.key in m.values && e.record == m.values[e.key] && e.record.tableKey == t
    ensures forall i, j :: 0 <= i < j < |TableFields(m, t)| ==>
      TableFields(m, t)[i].key != TableFields(m, t)[j].key
  {
    var raw := EntriesOf(m, m.keys, t);
    EntriesOfMembers(m, m.keys, t);
    SortByPermutation(raw, Column);
    var r := TableFields(m, t);
    forall e
      ensures e in r <==> e in raw
    {
      assert e in r <==> e in multiset(r);
    }
    DistinctPermutation(raw, r);
  }

  /** `getTableFields(m, t)` is ordered by column, and entries with equal
      columns keep the map's insertion order. */
  lemma TableFieldsOrdered(m: LineageMap, t: string)
    requires m.Valid()
    ensures SortedBy(TableFields(m, t), Column)
    ensures forall c :: WithKey(TableFields(m, t), Column, c) == WithKey(EntriesOf(m, m.keys, t), Column, c)
  {
    SortBySorted(EntriesOf(m, m.keys, t), Column);
    forall c
      ensures WithKey(TableFields(m, t), Column, c) == WithKey(EntriesOf(m, m.keys, t), Column, c)
    {
      SortByStable(EntriesOf(m, m.keys, t), Column, c);
    }
  }
}
