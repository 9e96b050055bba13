/** The record builder of `excelToJson`: every data row zipped with the header
    row into a key/value record, with all-empty records dropped. */
module Records {
  import opened Seqs

  type Row = seq<string>

  /** A row object: header text to cell text. */
  type Record = map<string, string>

  /** The value `row[j] || ''` assigns: the cell when the row has one there,
      the empty string past its end. (An empty cell is '' either way.) */
  function Cell(row: Row, j: nat): (v: string)
    ensures j >= |row| ==> v == ""
  {
    if j < |row| then row[j] else ""
  }

  /** Column j is the last column titled headers[j], so its cell is the one
      the record keeps under that title. */
  predicate IsLastTitle(headers: seq<string>, j: nat)
    requires j < |headers|
  {
    forall i :: j < i < |headers| ==> headers[i] != headers[j]
  }

  /** The position of the last column titled k. */
  function LastIndex(headers: seq<string>, k: string): (j: nat)
    requires k in headers
    ensures j < |headers| && headers[j] == k
    ensures IsLastTitle(headers, j)
    decreases |headers|
  {
    var n := |headers| - 1;
    if headers[n] == k then n
    else
      assert k in headers[..n] by {
        var i :| 0 <= i < |headers| && headers[i] == k;
        assert headers[..n][i] == k;
      }
      LastIndex(headers[..n], k)
  }

  /** The record a row yields: one key per distinct header, holding the cell
      of the last column with that header, because a later assignment to the
      same key overwrites an earlier one. */
  function RecordOf(headers: seq<string>, row: Row): (r: Record)
    ensures r.Keys == set k | k in headers
  {
    map k | k in headers :: Cell(row, LastIndex(headers, k))
  }

  /** The value under headers[j] is the cell at j (`''` past the end of the
      row) whenever no later column has the same header. */
  lemma RecordValues(headers: seq<string>, row: Row)
    ensures forall j :: 0 <= j < |headers| && IsLastTitle(headers, j) ==>
      headers[j] in RecordOf(headers, row) && RecordOf(headers, row)[headers[j]] == Cell(row, j)
  {
  }

  /** `Object.values(rowObject).some(val => val !== '')`. */
  predicate HasContent(record: Record)
    ensures HasContent(record) <==> exists k :: k in record && record[k] != ""
  {
    assert (exists v :: v in record.Values && v != "") ==> exists k :: k in record && record[k] != "" by {
      if exists v :: v in record.Values && v != "" {
        var v :| v in record.Values && v != "";
        var k :| k in record && record[k] == v;
      }
    }
    assert (exists k :: k in record && record[k] != "") ==> exists v :: v in record.Values && v != "" by {
      if exists k :: k in record && record[k] != "" {
        var k :| k in record && record[k] != "";
        assert record[k] in record.Values;
      }
    }
    exists v :: v in record.Values && v != ""
  }

  /** The record of every data row, in row order. */
  function RowRecords(headers: seq<string>, rows: seq<Row>): (records: seq<Record>)
    ensures |records| == |rows|
    ensures forall i :: 0 <= i < |rows| ==> records[i] == RecordOf(headers, rows[i])
  {
    seq(|rows|, i requires 0 <= i < |rows| => RecordOf(headers, rows[i]))
  }

  /** The records kept from the data rows: those with content, in row order. */
  function Kept(headers: seq<string>, rows: seq<Row>): (records: seq<Record>)
    ensures |records| <= |rows|
    ensures forall k :: 0 <= k < |records| ==> HasContent(records[k])
  {
    Filter(RowRecords(headers, rows), HasContent)
  }

  /** One more header column: the record gains, or overwrites, that key with
      the cell at the new column. */
  lemma RecordOfExtend(headers: seq<string>, k: string, row: Row)
    ensures RecordOf(headers + [k], row) == RecordOf(headers, row)[k := Cell(row, |headers|)]
  {
  }

  /** The nested loops of excelToJson: for each data row `data[i]`, i >= 1,
      assign every header its cell, then append the row object when some
      value in it is non-empty. */
  method BuildRecords(headers: seq<string>, data: seq<Row>) returns (result: seq<Record>)
    ensures |data| <= 1 ==> result == []
    ensures |data| >= 1 ==> result == Kept(headers, data[1..])
  {
    result := [];
    if |data| == 0 {
      return;
    }
    var i := 1;
    while i < |data|
      invariant 1 <= i <= |data|
      invariant result == Kept(headers, data[1..i])
    {
      var row := data[i];
      var rowObject: Record := map[];
      for j := 0 to |headers|
        invariant rowObject == RecordOf(headers[..j], row)
      {
        RecordOfExtend(headers[..j], headers[j], row);
        assert headers[..j + 1] == headers[..j] + [headers[j]];
        rowObject := rowObject[headers[j] := Cell(row, j)];
      }
      assert headers[..|headers|] == headers;
      if HasContent(rowObject) {
        result := result + [rowObject];
      }
      SliceExtend(data, 1, i);
      KeptSnoc(headers, data[1..i], row);
      i := i + 1;
    }
    assert data[1..i] == data[1..];
  }

  lemma SliceExtend<T>(s: seq<T>, lo: nat, hi: nat)
    requires lo <= hi < |s|
    ensures s[lo..hi + 1] == s[lo..hi] + [s[hi]]
  {
  }

  /** One more data row: its record is appended exactly when it has content. */
  lemma KeptSnoc(headers: seq<string>, rows: seq<Row>, row: Row)
    ensures Kept(headers, rows + [row]) ==
      if HasContent(RecordOf(headers, row)) then Kept(headers, rows) + [RecordOf(headers, row)]
      else Kept(headers, rows)
  {
    var record := RecordOf(headers, row);
    assert RowRecords(headers, rows + [row]) == RowRecords(headers, rows) + [record];
    FilterSnoc(RowRecords(headers, rows), record, HasContent);
  }

  /** The kept records are exactly the records of the rows with content, in
      the order of those rows: idx lists their positions among the data rows. */
  lemma KeptSelectsContentRows(headers: seq<string>, rows: seq<Row>) returns (idx: seq<nat>)
    ensures |idx| == |Kept(headers, rows)|
    ensures forall k :: 0 <= k < |idx| ==> idx[k] < |rows| && Kept(headers, rows)[k] == RecordOf(headers, rows[idx[k]])
    ensures forall k, l :: 0 <= k < l < |idx| ==> idx[k] < idx[l]
    ensures forall i :: 0 <= i < |rows| ==> (i in idx <==> HasContent(RecordOf(headers, rows[i])))
  {
    idx := FilterSelects(RowRecords(headers, rows), HasContent);
  }

  /** Order preservation, compositionally: the records of two blocks of rows
      are the records of the first block followed by those of the second. */
  lemma {:induction false} KeptAppend(headers: seq<string>, a: seq<Row>, b: seq<Row>)
    ensures Kept(headers, a + b) == Kept(headers, a) + Kept(headers, b)
  {
    var ra, rb := RowRecords(headers, a), RowRecords(headers, b);
    forall i | 0 <= i < |a + b|
      ensures RowRecords(headers, a + b)[i] == (ra + rb)[i]
    {
      if i < |a| {
        assert (a + b)[i] == a[i];
      } else {
        assert (a + b)[i] == b[i - |a|];
      }
    }
    assert RowRecords(headers, a + b) == RowRecords(headers, a) + RowRecords(headers, b);
    FilterAppend(RowRecords(headers, a), RowRecords(headers, b), HasContent);
  }

  /** A record has content exactly when some column that is the last of its
      title has a non-empty cell: the test runs after duplicates overwrote. */
  lemma HasContentIff(headers: seq<string>, row: Row)
    ensures HasContent(RecordOf(headers, row)) <==>
      exists j :: 0 <= j < |headers| && IsLastTitle(headers, j) && Cell(row, j) != ""
  {
    var r := RecordOf(headers, row);
    if HasContent(r) {
      var v :| v in r.Values && v != "";
      var k :| k in r && r[k] == v;
      assert k in headers;
      var j := LastIndex(headers, k);
      assert headers[j] == k && IsLastTitle(headers, j);
      assert r[headers[j]] == Cell(row, j);
      assert Cell(row, j) != "";
    }
    if exists j :: 0 <= j < |headers| && IsLastTitle(headers, j) && Cell(row, j) != "" {
      var j :| 0 <= j < |headers| && IsLastTitle(headers, j) && Cell(row, j) != "";
      assert headers[j] in r;
      assert r[headers[j]] in r.Values && r[headers[j]] != "";
    }
  }

  /** With distinct headers, a row is kept exactly when one of its first
      |headers| cells is non-empty. */
  lemma DistinctHeadersHasContent(headers: seq<string>, row: Row)
    requires forall i, j :: 0 <= i < j < |headers| ==> headers[i] != headers[j]
    ensures HasContent(RecordOf(headers, row)) <==>
      exists j :: 0 <= j < |headers| && j < |row| && row[j] != ""
  {
    HasContentIff(headers, row);
    forall j | 0 <= j < |headers|
      ensures IsLastTitle(headers, j) && (Cell(row, j) != "" <==> j < |row| && row[j] != "")
    {
    }
  }

  /** Cells past the end of the header row never reach the record. */
  lemma IgnoresExtraCells(headers: seq<string>, row: Row, extra: Row)
    requires |headers| <= |row|
    ensures RecordOf(headers, row + extra) == RecordOf(headers, row)
  {
  }

  /** A cell hidden by a later column with the same header does not matter:
      blanking it changes neither the record nor whether the row is kept. */
  lemma ShadowedCellIgnored(headers: seq<string>, row: Row, j: nat)
    requires j < |headers| && j < |row| && !IsLastTitle(headers, j)
    ensures RecordOf(headers, row[j := ""]) == RecordOf(headers, row)
  {
  }

  /** A row with a value only under a header that a later empty column
      repeats is dropped: with headers [a, a], the row [x, ''] leaves
      {a: ''} and no record. */
  lemma DuplicateHeaderDropsRow()
    ensures RecordOf(["a", "a"], ["x", ""]) == map["a" := ""]
    ensures Kept(["a", "a"], [["x", ""]]) == []
  {
  }

  /** Two data rows, the second all empty: only the first is kept. */
  lemma BlankRowDropped()
    ensures Kept(["Name", "Age"], [["John", "25"], ["", ""]]) == [map["Name" := "John", "Age" := "25"]]
  {
    var headers := ["Name", "Age"];
    var rows := [["John", "25"], ["", ""]];
    var first := RecordOf(headers, rows[0]);
    var second := RecordOf(headers, rows[1]);
    assert IsLastTitle(headers, 0) && IsLastTitle(headers, 1);
    assert first == map["Name" := "John", "Age" := "25"];
    assert second == map["Name" := "", "Age" := ""];
    assert first["Name"] in first.Values;
    assert !HasContent(second);
    assert rows[..1] == [rows[0]];
    assert rows[..1][..0] == [];
  }

  /** A row shorter than the header row: the missing cell becomes ''. */
  lemma ShortRowPadded()
    ensures Kept(["Name", "Age", "City"], [["Jane", "30"]]) == [map["Name" := "Jane", "Age" := "30", "City" := ""]]
  {
    var headers := ["Name", "Age", "City"];
    var rows := [["Jane", "30"]];
    var record := RecordOf(headers, rows[0]);
    assert IsLastTitle(headers, 0) && IsLastTitle(headers, 1) && IsLastTitle(headers, 2);
    assert record == map["Name" := "Jane", "Age" := "30", "City" := ""];
    assert record["Name"] in record.Values;
    assert rows[..0] == [];
  }
}
