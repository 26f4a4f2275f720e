/** The table model behind the `Spreadsheet` component: the row objects of one sheet,
    the ordered column keys and the column display names, with the editing
    operations of the component's handlers. */
module Table {
  import opened Collections
  import opened Text

  /** One row's cells: column key to cell text. */
  type Cells = map<string, string>

  /** A row object (`RowData`). Row objects are shared between the arrays that hold
      them: copying a table copies references, and the cell edit changes a row object
      in place, so every array holding that row sees the change. */
  class RowData {
    var cells: Cells

    constructor (cells: Cells)
      ensures this.cells == cells
    {
      this.cells := cells;
    }
  }

  /** The cells currently held by a sequence of row objects. */
  function Snapshot(rows: seq<RowData>): (r: seq<Cells>)
    reads rows
    ensures |r| == |rows|
    ensures forall i :: 0 <= i < |rows| ==> r[i] == rows[i].cells
    decreases |rows|
  {
    if rows == [] then [] else [rows[0].cells] + Snapshot(rows[1..])
  }

  /** Every row has exactly the column keys as its key set. */
  predicate Consistent(data: seq<Cells>, keys: seq<string>) {
    forall i :: 0 <= i < |data| ==> data[i].Keys == Elements(keys)
  }

  /** The label "Column n" used both as a generated key and as a default name. */
  function ColumnLabel(n: nat): (s: string)
    ensures |s| > 7 && s[..7] == "Column " && ParseNat(s[7..]) == Some(n)
    ensures s[7] == '0' ==> n == 0
  {
    ParseNatToString(n);
    var s := "Column " + NatToString(n);
    assert s[7..] == NatToString(n);
    s
  }

  lemma ColumnLabelInjective(m: nat, n: nat)
    requires ColumnLabel(m) == ColumnLabel(n)
    ensures m == n
  {
    assert NatToString(m) == ColumnLabel(m)[7..];
    assert NatToString(n) == ColumnLabel(n)[7..];
    NatToStringInjective(m, n);
  }

  /** The key a new column gets: computed from the current number of columns, so it
      is not necessarily fresh. */
  function NextColumnKey(keys: seq<string>): (k: string)
    ensures |k| > 7 && k[..7] == "Column " && k[7] != '0' && ParseNat(k[7..]) == Some(|keys| + 1)
  {
    ColumnLabel(|keys| + 1)
  }

  /** Every row spread into a copy with `key` set to the empty string. */
  function WithColumn(data: seq<Cells>, key: string): (r: seq<Cells>)
    ensures |r| == |data|
    ensures forall i :: 0 <= i < |r| ==> r[i].Keys == data[i].Keys + {key} && r[i][key] == ""
    ensures forall i, c :: 0 <= i < |r| && c in data[i] && c != key ==> r[i][c] == data[i][c]
  {
    seq(|data|, i requires 0 <= i < |data| => data[i][key := ""])
  }

  /** Every row copied without `key`. */
  function WithoutColumn(data: seq<Cells>, key: string): (r: seq<Cells>)
    ensures |r| == |data|
    ensures forall i :: 0 <= i < |r| ==> r[i].Keys == data[i].Keys - {key}
    ensures forall i, c :: 0 <= i < |r| && c in r[i] ==> r[i][c] == data[i][c]
  {
    seq(|data|, i requires 0 <= i < |data| => data[i] - {key})
  }

  /** The column keys without every occurrence of `key`, the others in their order. */
  function WithoutKey(keys: seq<string>, key: string): (r: seq<string>)
    ensures Elements(r) == Elements(keys) - {key}
    ensures Distinct(keys) ==> Distinct(r)
  {
    var keep := (c: string) => c != key;
    FilterMembers(keys, keep);
    FilterDistinctWhenDistinct(keys, keep);
    Filter(keys, keep)
  }

  lemma FilterDistinctWhenDistinct(keys: seq<string>, keep: string -> bool)
    ensures Distinct(keys) ==> Distinct(Filter(keys, keep))
  {
    if Distinct(keys) {
      FilterDistinct(keys, keep);
    }
  }

  /** Deleting a key treats the keys before and after any split point separately, so
      the remaining keys keep their order, repeated keys or not. */
  lemma WithoutKeyKeepsOrder(a: seq<string>, b: seq<string>, key: string)
    ensures WithoutKey(a + b, key) == WithoutKey(a, key) + WithoutKey(b, key)
  {
    FilterConcat(a, b, (c: string) => c != key);
  }

  /** With distinct keys, deleting a present key removes exactly its one position. */
  lemma WithoutKeyRemovesPosition(keys: seq<string>, i: nat)
    requires Distinct(keys) && i < |keys|
    ensures WithoutKey(keys, keys[i]) == keys[..i] + keys[i + 1..]
  {
    FilterDropsOne(keys, i, (c: string) => c != keys[i]);
  }

  /** Adding a column keeps every row's key set equal to the column keys. */
  lemma AddColumnKeepsConsistent(data: seq<Cells>, keys: seq<string>, key: string)
    requires Consistent(data, keys)
    ensures Consistent(WithColumn(data, key), keys + [key])
  {
    assert Elements(keys + [key]) == Elements(keys) + {key};
  }

  /** Deleting a column keeps every row's key set equal to the column keys. */
  lemma DeleteColumnKeepsConsistent(data: seq<Cells>, keys: seq<string>, key: string)
    requires Consistent(data, keys)
    ensures Consistent(WithoutColumn(data, key), WithoutKey(keys, key))
  {
  }

  /** Distinct column keys stay distinct after adding a column exactly when the
      generated key is not already a column key. */
  lemma AddColumnDistinctIff(keys: seq<string>)
    requires Distinct(keys)
    ensures Distinct(keys + [NextColumnKey(keys)]) <==> NextColumnKey(keys) !in keys
  {
    var k := NextColumnKey(keys);
    var s := keys + [k];
    if k in keys {
      var i :| 0 <= i < |keys| && keys[i] == k;
      assert s[i] == s[|keys|];
    }
  }

  /** The template sheet's columns A, B, C: adding a column gives "Column 4", deleting
      "B" leaves [A, C, Column 4], and the next added column is again "Column 4". It
      duplicates a key and resets every existing cell of that column to "". */
  lemma AddColumnCollidesAfterDelete(x: string)
    ensures NextColumnKey(["A", "B", "C"]) == "Column 4"
    ensures WithoutKey(["A", "B", "C", "Column 4"], "B") == ["A", "C", "Column 4"]
    ensures NextColumnKey(["A", "C", "Column 4"]) == "Column 4"
    ensures !Distinct(["A", "C", "Column 4"] + ["Column 4"])
    ensures WithColumn([map["A" := "", "C" := "", "Column 4" := x]], "Column 4")[0]["Column 4"] == ""
  {
    assert NatToString(4) == "4";
    var keys1 := ["A", "B", "C", "Column 4"];
    assert Distinct(keys1);
    WithoutKeyRemovesPosition(keys1, 1);
    assert keys1[..1] + keys1[2..] == ["A", "C", "Column 4"];
    var keys2 := ["A", "C", "Column 4"] + ["Column 4"];
    assert keys2[2] == keys2[3];
  }

  /** No later position before `end` holds the same key as position `p`. */
  predicate LastBefore(keys: seq<string>, p: nat, end: nat)
    requires p < end <= |keys|
  {
    forall q :: p < q < end ==> keys[q] != keys[p]
  }

  /** The name map after the forEach has visited the first `i` positions. */
  ghost function NamesUpTo(keys: seq<string>, i: nat): map<string, string>
    requires i <= |keys|
  {
    if i == 0 then map[] else NamesUpTo(keys, i - 1)[keys[i - 1] := ColumnLabel(i)]
  }

  /** After `i` positions the names cover exactly the first `i` keys. */
  lemma {:induction false} NamesUpToKeys(keys: seq<string>, i: nat)
    requires i <= |keys|
    ensures NamesUpTo(keys, i).Keys == Elements(keys[..i])
  {
    if i > 0 {
      NamesUpToKeys(keys, i - 1);
      ElementsSnoc(keys, i - 1);
    }
  }

  /** After `i` positions, a key whose last occurrence so far is at `p` is named
      "Column p+1". */
  lemma {:induction false} NamesUpToLabels(keys: seq<string>, i: nat, p: nat)
    requires p < i <= |keys| && LastBefore(keys, p, i)
    ensures keys[p] in NamesUpTo(keys, i) && NamesUpTo(keys, i)[keys[p]] == ColumnLabel(p + 1)
  {
    if p < i - 1 {
      assert keys[i - 1] != keys[p];
      NamesUpToLabels(keys, i - 1, p);
    }
  }

  /** The forEach at the derivation: `names[keys[i]] = "Column " + (i + 1)` for each
      position in turn, so a key that occurs twice keeps the label of its last
      position. */
  method DefaultNames(keys: seq<string>) returns (names: map<string, string>)
    ensures names.Keys == Elements(keys)
    ensures forall p :: 0 <= p < |keys| && LastBefore(keys, p, |keys|) ==> names[keys[p]] == ColumnLabel(p + 1)
  {
    names := map[];
    var i := 0;
    while i < |keys|
      invariant 0 <= i <= |keys|
      invariant names == NamesUpTo(keys, i)
    {
      names := names[keys[i] := ColumnLabel(i + 1)];
      i := i + 1;
    }
    NamesUpToKeys(keys, i);
    assert keys[..i] == keys;
    forall p | 0 <= p < |keys| && LastBefore(keys, p, |keys|)
      ensures names[keys[p]] == ColumnLabel(p + 1)
    {
      NamesUpToLabels(keys, i, p);
    }
  }

  /** The header text: the display name when it is set and non-empty, else the key. */
  function HeaderLabel(names: map<string, string>, key: string): (shown: string)
    ensures shown == key || (key in names && shown == names[key])
    ensures key in names && names[key] != "" ==> shown == names[key]
    ensures key != "" ==> shown != ""
  {
    if key in names && names[key] != "" then names[key] else key
  }

  /** A renamed header shows its new name, or its key when the name was cleared. */
  lemma RenamedHeaderLabel(names: map<string, string>, key: string, newName: string)
    ensures HeaderLabel(names[key := newName], key) == if newName == "" then key else newName
  {
  }

  /** The state of one `Spreadsheet` component. */
  class Spreadsheet {
    var tableData: seq<RowData>
    var columnKeys: seq<string>
    var columnNames: map<string, string>

    /** The rows of one table are pairwise different objects. */
    ghost predicate Valid()
      reads this
    {
      Distinct(tableData)
    }

    /** The cells the table currently shows. */
    ghost function Data(): seq<Cells>
      reads this, tableData
    {
      Snapshot(tableData)
    }

    ghost predicate ColumnsConsistent()
      reads this, tableData
    {
      Consistent(Data(), columnKeys)
    }

    /** The table starts from the rows it is given, with no columns and no names. */
    constructor (data: seq<RowData>)
      requires Distinct(data)
      ensures Valid()
      ensures tableData == data && columnKeys == [] && columnNames == map[]
    {
      tableData := data;
      columnKeys := [];
      columnNames := map[];
    }

    /** Derivation on new incoming rows: keys from the first row, in the order the
        runtime enumerates them (`keyOrder`), each named "Column i+1" by position.
        Nothing changes when there are no rows; the shown rows never change here. */
    method Derive(data: seq<RowData>, keyOrder: seq<string>)
      requires Valid()
      requires |data| > 0 ==> Distinct(keyOrder) && Elements(keyOrder) == data[0].cells.Keys
      modifies this
      ensures Valid() && tableData == old(tableData)
      ensures |data| == 0 ==> columnKeys == old(columnKeys) && columnNames == old(columnNames)
      ensures |data| > 0 ==> columnKeys == keyOrder && columnNames.Keys == Elements(keyOrder)
      ensures |data| > 0 ==> forall i :: 0 <= i < |keyOrder| ==> columnNames[keyOrder[i]] == ColumnLabel(i + 1)
      ensures |data| > 0 && data == tableData && (forall i :: 0 <= i < |data| ==> data[i].cells.Keys == data[0].cells.Keys)
              ==> ColumnsConsistent()
    {
      if |data| > 0 {
        var keys := keyOrder;
        columnKeys := keys;
        var nameMap := DefaultNames(keys);
        assert forall p :: 0 <= p < |keys| ==> LastBefore(keys, p, |keys|);
        columnNames := nameMap;
      }
    }

    /** Renaming a header changes only its display name. */
    method RenameHeader(key: string, newName: string)
      modifies this
      ensures columnNames == old(columnNames)[key := newName]
      ensures columnKeys == old(columnKeys) && tableData == old(tableData) && Data() == old(Data())
    {
      columnNames := columnNames[key := newName];
    }

    /** The cell edit: a copy of the row array, then the row object at `rowIndex` is
        changed in place. Only that one cell changes. The result is what is passed on
        to the sheet store. */
    method EditCell(rowIndex: nat, key: string, newValue: string) returns (updated: seq<RowData>)
      requires Valid() && rowIndex < |tableData|
      modifies this, tableData[rowIndex]
      ensures Valid() && tableData == old(tableData) && updated == tableData
      ensures columnKeys == old(columnKeys) && columnNames == old(columnNames)
      ensures tableData[rowIndex].cells == old(tableData[rowIndex].cells)[key := newValue]
      ensures Data() == old(Data())[rowIndex := old(Data())[rowIndex][key := newValue]]
      ensures key in columnKeys && old(ColumnsConsistent()) ==> ColumnsConsistent()
    {
      var newData := tableData;
      var row := newData[rowIndex];
      row.cells := row.cells[key := newValue];
      tableData := newData;
      updated := newData;
      assert forall j :: 0 <= j < |tableData| && j != rowIndex ==> tableData[j] != row;
    }

    /** A new row object mapping every column key to "" is appended; the existing rows
        are the same objects with the same cells. */
    method AddRow() returns (updated: seq<RowData>)
      requires Valid()
      modifies this
      ensures Valid() && updated == tableData
      ensures columnKeys == old(columnKeys) && columnNames == old(columnNames)
      ensures |tableData| == |old(tableData)| + 1 && tableData[..|old(tableData)|] == old(tableData)
      ensures fresh(tableData[|old(tableData)|])
      ensures Data()[..|old(tableData)|] == old(Data())
      ensures Data()[|old(tableData)|].Keys == Elements(columnKeys)
      ensures forall k :: k in Data()[|old(tableData)|] ==> Data()[|old(tableData)|][k] == ""
      ensures old(ColumnsConsistent()) ==> ColumnsConsistent()
    {
      var newRow := new RowData(map[]);
      var i := 0;
      while i < |columnKeys|
        modifies newRow
        invariant 0 <= i <= |columnKeys|
        invariant newRow.cells.Keys == Elements(columnKeys[..i])
        invariant forall k :: k in newRow.cells ==> newRow.cells[k] == ""
      {
        ElementsSnoc(columnKeys, i);
        newRow.cells := newRow.cells[columnKeys[i] := ""];
        i := i + 1;
      }
      assert columnKeys[..i] == columnKeys;
      var newData := tableData + [newRow];
      tableData := newData;
      updated := newData;
      assert forall j :: 0 <= j < |old(tableData)| ==> old(tableData)[j] != newRow;
    }

    /** A new column under the key "Column n+1" (n the current column count): every
        row is replaced by a fresh copy with that key set to "", the key is appended
        and registered as its own display name. When the key already exists it is
        appended a second time and that column's cells are reset to "". */
    method AddColumn() returns (updated: seq<RowData>)
      requires Valid()
      modifies this
      ensures Valid() && updated == tableData
      ensures columnKeys == old(columnKeys) + [NextColumnKey(old(columnKeys))]
      ensures columnNames == old(columnNames)[NextColumnKey(old(columnKeys)) := NextColumnKey(old(columnKeys))]
      ensures Data() == WithColumn(old(Data()), NextColumnKey(old(columnKeys)))
      ensures forall i :: 0 <= i < |tableData| ==> fresh(tableData[i])
      ensures old(ColumnsConsistent()) ==> ColumnsConsistent()
    {
      var newKey := NextColumnKey(columnKeys);
      ghost var before := Data();
      var newData := FreshRows(WithColumn(Snapshot(tableData), newKey));
      if Consistent(before, columnKeys) {
        AddColumnKeepsConsistent(before, columnKeys, newKey);
      }
      tableData := newData;
      columnKeys := columnKeys + [newKey];
      columnNames := columnNames[newKey := newKey];
      updated := newData;
    }

    /** Deleting a row splices it out of a copy of the array; the rows after it move
        down one position. An index past the end removes nothing. */
    method DeleteRow(rowIndex: nat) returns (updated: seq<RowData>)
      requires Valid()
      modifies this
      ensures Valid() && updated == tableData
      ensures columnKeys == old(columnKeys) && columnNames == old(columnNames)
      ensures tableData == if rowIndex < |old(tableData)| then old(tableData)[..rowIndex] + old(tableData)[rowIndex + 1..]
                           else old(tableData)
      ensures rowIndex < |old(tableData)| ==> Data() == old(Data())[..rowIndex] + old(Data())[rowIndex + 1..]
      ensures forall j :: rowIndex <= j < |tableData| ==> Data()[j] == old(Data())[j + 1]
      ensures old(ColumnsConsistent()) ==> ColumnsConsistent()
    {
      var newData := tableData;
      if rowIndex < |newData| {
        newData := newData[..rowIndex] + newData[rowIndex + 1..];
      }
      tableData := newData;
      updated := newData;
    }

    /** Deleting a column removes every occurrence of its key from the column keys,
        replaces every row by a fresh copy without the key, and forgets its name. */
    method DeleteColumn(key: string) returns (updated: seq<RowData>)
      requires Valid()
      modifies this
      ensures Valid() && updated == tableData
      ensures columnKeys == WithoutKey(old(columnKeys), key)
      ensures columnNames == old(columnNames) - {key}
      ensures Data() == WithoutColumn(old(Data()), key)
      ensures forall i :: 0 <= i < |tableData| ==> fresh(tableData[i])
      ensures old(ColumnsConsistent()) ==> ColumnsConsistent()
    {
      var newColumns := WithoutKey(columnKeys, key);
      ghost var before := Data();
      var newData := FreshRows(WithoutColumn(Snapshot(tableData), key));
      if Consistent(before, columnKeys) {
        DeleteColumnKeepsConsistent(before, columnKeys, key);
      }
      columnKeys := newColumns;
      columnNames := columnNames - {key};
      tableData := newData;
      updated := newData;
    }
  }

  /** `Array.prototype.map` building a new row object per row: fresh, pairwise
      different objects holding the given cells. */
  method FreshRows(data: seq<Cells>) returns (rows: seq<RowData>)
    ensures Distinct(rows) && Snapshot(rows) == data
    ensures forall i :: 0 <= i < |rows| ==> fresh(rows[i])
  {
    rows := [];
    var i := 0;
    while i < |data|
      invariant 0 <= i <= |data| && |rows| == i
      invariant Distinct(rows)
      invariant forall j :: 0 <= j < i ==> fresh(rows[j]) && rows[j].cells == data[j]
    {
      var row := new RowData(data[i]);
      rows := rows + [row];
      i := i + 1;
    }
  }
}
