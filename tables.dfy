/** Columnar tables as pyarrow builds, writes and reads them: a list of column
    names, one value sequence per column, and a row count. */
module Tables {
  import opened Json
  import opened Records

  datatype Table = Table(names: seq<string>, columns: seq<seq<Json>>, numRows: nat) {
    /** Every Arrow table: one column per name, every column `numRows` long. */
    predicate Valid() {
      |names| == |columns| && forall j :: 0 <= j < |columns| ==> |columns[j]| == numRows
    }
  }

  /** The table `save_to_parquet` builds from `data`: for each key of
      `DESIRED_KEYS`, the column `[obj.get(key) for obj in data]`. */
  function ToTable(data: seq<Record>): (t: Table)
    ensures t.Valid() && t.names == DesiredKeys && t.numRows == |data|
  {
    Table(DesiredKeys,
          seq(|DesiredKeys|, j requires 0 <= j < |DesiredKeys| =>
            seq(|data|, i requires 0 <= i < |data| => Get(data[i], DesiredKeys[j]))),
          |data|)
  }

  /** The position of the first column called `k`. */
  function IndexOf(names: seq<string>, k: string): (j: nat)
    requires k in names
    ensures j < |names| && names[j] == k
    ensures forall i :: 0 <= i < j ==> names[i] != k
  {
    if names[0] == k then 0 else 1 + IndexOf(names[1..], k)
  }

  /** Row `i` of a table, read back as a record keyed by column name. */
  function RecordAt(t: Table, i: nat): Record
    requires t.Valid() && i < t.numRows
  {
    map k | k in t.names :: t.columns[IndexOf(t.names, k)][i]
  }

  /** The rows of a table, in order, as records. */
  function ReadRecords(t: Table): seq<Record>
    requires t.Valid()
  {
    seq(t.numRows, i requires 0 <= i < t.numRows => RecordAt(t, i))
  }

  lemma RecordAtToTable(data: seq<Record>, i: nat)
    requires i < |data| && IsProjected(data[i])
    ensures RecordAt(ToTable(data), i) == data[i]
  {
    var t := ToTable(data);
    var r := RecordAt(t, i);
    assert r.Keys == data[i].Keys by {
      assert forall k :: k in r <==> k in DesiredKeys;
    }
    forall k | k in r ensures r[k] == data[i][k] {
      var j := IndexOf(DesiredKeys, k);
      assert r[k] == t.columns[j][i];
    }
  }

  /** Writing projected records as a table and reading the rows back gives
      the records again, in order. */
  lemma {:induction false} ReadBack(data: seq<Record>)
    requires AllProjected(data)
    ensures ReadRecords(ToTable(data)) == data
  {
    forall i | 0 <= i < |data| ensures ReadRecords(ToTable(data))[i] == data[i] {
      RecordAtToTable(data, i);
    }
  }

  predicate AllValid(ts: seq<Table>) {
    forall i :: 0 <= i < |ts| ==> ts[i].Valid()
  }

  /** What `pa.concat_tables` demands: every table has the column list of the first. */
  predicate SameSchema(ts: seq<Table>) {
    forall i :: 0 <= i < |ts| ==> ts[i].Valid() && ts[i].names == ts[0].names
  }

  function TotalRows(ts: seq<Table>): nat {
    if ts == [] then 0 else TotalRows(ts[..|ts| - 1]) + ts[|ts| - 1].numRows
  }

  /** The records of all tables, table after table. */
  function AllRecords(ts: seq<Table>): seq<Record>
    requires AllValid(ts)
  {
    if ts == [] then [] else AllRecords(ts[..|ts| - 1]) + ReadRecords(ts[|ts| - 1])
  }

  /** Two tables with the same columns, the rows of `b` after those of `a`. */
  function Append(a: Table, b: Table): (t: Table)
    requires a.Valid() && b.Valid() && a.names == b.names
    ensures t.Valid() && t.names == a.names && t.numRows == a.numRows + b.numRows
  {
    Table(a.names,
          seq(|a.columns|, j requires 0 <= j < |a.columns| => a.columns[j] + b.columns[j]),
          a.numRows + b.numRows)
  }

  lemma AppendRecords(a: Table, b: Table)
    requires a.Valid() && b.Valid() && a.names == b.names
    ensures ReadRecords(Append(a, b)) == ReadRecords(a) + ReadRecords(b)
  {
    var t := Append(a, b);
    var lhs, rhs := ReadRecords(t), ReadRecords(a) + ReadRecords(b);
    forall i | 0 <= i < t.numRows ensures lhs[i] == rhs[i] {
      if i < a.numRows {
        assert RecordAt(t, i) == RecordAt(a, i);
      } else {
        assert RecordAt(t, i) == RecordAt(b, i - a.numRows);
      }
    }
  }

  /** `pa.concat_tables(tables)`. */
  function ConcatTables(ts: seq<Table>): (t: Table)
    requires ts != [] && SameSchema(ts)
    ensures t.Valid() && t.names == ts[0].names && t.numRows == TotalRows(ts)
  {
    if |ts| == 1 then ts[0]
    else
      var init := ts[..|ts| - 1];
      assert init[0] == ts[0];
      Append(ConcatTables(init), ts[|ts| - 1])
  }

  /** Concatenation keeps every row of every table, table by table, each in its own order. */
  lemma {:induction false} ConcatRecords(ts: seq<Table>)
    requires ts != [] && SameSchema(ts)
    ensures ReadRecords(ConcatTables(ts)) == AllRecords(ts)
  {
    var last := ts[|ts| - 1];
    var init := ts[..|ts| - 1];
    if |ts| == 1 {
      assert init == [];
      calc {
        AllRecords(ts);
        AllRecords(init) + ReadRecords(last);
        [] + ReadRecords(last);
        ReadRecords(ConcatTables(ts));
      }
    } else {
      assert init[0] == ts[0];
      assert SameSchema(init) by {
        forall i | 0 <= i < |init| ensures init[i].Valid() && init[i].names == init[0].names {
          assert init[i] == ts[i];
        }
      }
      var c := ConcatTables(init);
      calc {
        ReadRecords(ConcatTables(ts));
        ReadRecords(Append(c, last));
        { AppendRecords(c, last); }
        ReadRecords(c) + ReadRecords(last);
        { ConcatRecords(init); }
        AllRecords(init) + ReadRecords(last);
        AllRecords(ts);
      }
    }
  }
}
