/** The sheet store of the `App` component: the ordered sheets (each an array of row
    objects) and the index of the active one, with the handlers that create, delete,
    write back, select and name the export of sheets. */
module App {
  import opened Collections
  import opened Text
  import opened Table

  /** The cells of the single row of the initial sheet template. */
  const TemplateCells: Cells := map["A" := "", "B" := "", "C" := ""]

  class SheetStore {
    /** The template `[{ A: '', B: '', C: '' }]`: one array with one row object, which
        every new sheet reuses (the same objects, not a copy). */
    const initialSheet: seq<RowData>
    var sheets: seq<seq<RowData>>
    var activeSheet: nat

    /** There is always a sheet, and the active index names one of them. */
    ghost predicate Valid()
      reads this
    {
      1 <= |sheets| && activeSheet < |sheets| && |initialSheet| == 1
    }

    constructor ()
      ensures Valid()
      ensures sheets == [initialSheet] && activeSheet == 0
      ensures fresh(initialSheet[0]) && initialSheet[0].cells == TemplateCells
    {
      var row := new RowData(TemplateCells);
      initialSheet := [row];
      sheets := [initialSheet];
      activeSheet := 0;
    }

    /** Appends the template and makes it active: the new index is the old count. */
    method NewSheet()
      requires Valid()
      modifies this
      ensures Valid()
      ensures sheets == old(sheets) + [initialSheet]
      ensures activeSheet == |old(sheets)| == |sheets| - 1
    {
      var count := |sheets|;
      sheets := sheets + [initialSheet];
      activeSheet := count;
    }

    /** With more than one sheet, removes the active one (the others keep their order)
        and moves to the previous index, or to 0. With one sheet nothing happens. */
    method DeleteSheet()
      requires Valid()
      modifies this
      ensures Valid()
      ensures |old(sheets)| == 1 ==> sheets == old(sheets) && activeSheet == old(activeSheet)
      ensures |old(sheets)| > 1 ==>
                && sheets == old(sheets)[..old(activeSheet)] + old(sheets)[old(activeSheet) + 1..]
                && activeSheet == if old(activeSheet) > 0 then old(activeSheet) - 1 else 0
    {
      if |sheets| > 1 {
        var newSheets := WithoutIndex(sheets, activeSheet);
        sheets := newSheets;
        activeSheet := if activeSheet - 1 > 0 then activeSheet - 1 else 0;
      }
    }

    /** The write-back from the table: a copy of the array with the active position
        replaced. The count and every other sheet stay as they were. */
    method Update(newData: seq<RowData>)
      requires Valid()
      modifies this
      ensures Valid() && activeSheet == old(activeSheet)
      ensures sheets == old(sheets)[activeSheet := newData]
    {
      var updatedSheets := sheets;
      updatedSheets := updatedSheets[activeSheet := newData];
      sheets := updatedSheets;
    }

    /** Selecting the sheet button at `index`; buttons exist only for existing sheets. */
    method Select(index: nat)
      requires Valid() && index < |sheets|
      modifies this
      ensures Valid() && sheets == old(sheets) && activeSheet == index
    {
      activeSheet := index;
    }

    /** The download name "sheet-<n>.json", n the 1-based position of the active
        sheet: the number read back from the name is that position. */
    function ExportFileName(): (name: string)
      reads this
      ensures |name| > 11 && name[..6] == "sheet-" && name[6] != '0' && name[|name| - 5..] == ".json"
      ensures ParseNat(name[6..|name| - 5]) == Some(activeSheet + 1)
    {
      var number := NatToString(activeSheet + 1);
      ParseNatToString(activeSheet + 1);
      var name := "sheet-" + number + ".json";
      assert name[6..|name| - 5] == number;
      name
    }
  }

  /** The row objects of the template are shared. A cell edit changes the first
      sheet's row object in place; while that sheet still holds the template's row
      object, the edit therefore shows up in the next sheet created, which is not
      blank. After an add-column or delete-column the sheet's rows are fresh copies
      and later edits no longer reach the template. */
  method TemplateEditReachesNewSheet() returns (store: SheetStore)
    ensures store.Valid() && |store.sheets| == 2 && store.activeSheet == 1
    ensures store.sheets[1] == store.initialSheet == store.sheets[0]
    ensures store.sheets[1][0].cells == TemplateCells["A" := "edited"]
  {
    store := new SheetStore();
    var view := new Spreadsheet(store.sheets[store.activeSheet]);
    var updated := view.EditCell(0, "A", "edited");
    store.Update(updated);
    store.NewSheet();
  }
}
