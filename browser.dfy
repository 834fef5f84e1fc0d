/** The state of the service list page in servisy_data.js and the operations
    that change it: loading the data set, grouping it, switching tabs and
    filtering. Rendering into the document is not modelled; each operation that
    renders returns instead the groups it would render. */
module Browser {
  import opened Values
  import opened Text
  import opened Classify
  import opened Grouping
  import opened Filter

  /** `COLUMN_LABELS`: built-in labels of the overview columns. */
  function ColumnLabel(col: string): (name: Option<string>)
    ensures name.Some? <==> col in DisplayColumnsOrder
    ensures name.Some? ==> name.value != ""
  {
    if col == "KAM" then Some("Číslo smlouvy")
    else if col == "Likvidace" then Some("IČ")
    else if col == "KAPU" then Some("Název servisu")
    else None
  }

  /** The page's tagging of a record: its tab from `classifyType`, its key from
      the overview columns. */
  function TagFor(decompose: char -> string): Record -> Tag
  {
    (r: Record) => Tag(ClassifyType(r, decompose), GroupKey(r))
  }

  /** A header cell that names its column: not missing and not blank after `trim`. */
  predicate Labelled(v: Value)
  {
    !v.Null? && Trim(AsString(v)) != ""
  }

  /** The display names the header row gives the columns `cols`. */
  function DisplayNames(headerRow: Record, cols: seq<string>): map<string, Value>
  {
    if cols == [] then map[]
    else
      var names := DisplayNames(headerRow, cols[..|cols| - 1]);
      var col := cols[|cols| - 1];
      if Labelled(headerRow.Get(col)) then names[col := headerRow.Get(col)] else names
  }

  /** A column has a display name exactly when it is one of `cols` and its header
      cell is labelled, and the name is that cell. */
  lemma {:induction false} DisplayNamesIff(headerRow: Record, cols: seq<string>, col: string)
    ensures col in DisplayNames(headerRow, cols) <==> col in cols && Labelled(headerRow.Get(col))
    ensures col in DisplayNames(headerRow, cols) ==> DisplayNames(headerRow, cols)[col] == headerRow.Get(col)
  {
    if cols != [] {
      var pre := cols[..|cols| - 1];
      var last := cols[|cols| - 1];
      DisplayNamesIff(headerRow, pre, col);
      assert col in cols <==> col in pre || col == last by {
        assert cols == pre + [last];
      }
    }
  }

  /** The columns of `order` that occur in `allColumns`, in the order of `order`. */
  function Present(order: seq<string>, allColumns: seq<string>): (r: seq<string>)
    ensures |r| <= |order|
    ensures forall c :: c in r <==> c in order && c in allColumns
    ensures Subsequence(r, order)
  {
    if order == [] then []
    else
      var rest := Present(order[1..], allColumns);
      if order[0] in allColumns then
        assert ([order[0]] + rest)[1..] == rest;
        [order[0]] + rest
      else
        rest
  }

  /** The overview columns: those of `DISPLAY_COLUMNS_ORDER` that the data has,
      or the first three data columns when it has none of them. */
  function VisibleColumns(allColumns: seq<string>): (visible: seq<string>)
    ensures |visible| <= 3
    ensures forall c :: c in visible ==> c in allColumns
    ensures forall c :: c in DisplayColumnsOrder && c in allColumns ==> c in visible
    ensures (exists c :: c in DisplayColumnsOrder && c in allColumns) ==> forall c :: c in visible ==> c in DisplayColumnsOrder
    ensures (forall c :: c in DisplayColumnsOrder ==> c !in allColumns) ==> visible == allColumns[..if |allColumns| < 3 then |allColumns| else 3]
    ensures (exists c :: c in DisplayColumnsOrder && c in allColumns) ==>
      visible == Present(DisplayColumnsOrder, allColumns) && Subsequence(visible, DisplayColumnsOrder)
  {
    var preferred := Present(DisplayColumnsOrder, allColumns);
    assert preferred != [] ==> preferred[0] in preferred;
    if preferred == [] then allColumns[..if |allColumns| < 3 then |allColumns| else 3] else preferred
  }

  /** `mapsByType` of `buildGroupsFromRawRecords`: one map per tab from a key
      to the index in `gs` of the group with that tab and key, for every group. */
  predicate IndexedBy(maps: map<Category, map<string, int>>, gs: seq<Group>)
  {
    (forall c: Category :: c in maps)
    && (forall c, k :: c in maps && k in maps[c] ==> 0 <= maps[c][k] < |gs| && TagOf(gs[maps[c][k]]) == Tag(c, k))
    && (forall j :: 0 <= j < |gs| ==> gs[j].category in maps && gs[j].key in maps[gs[j].category])
  }

  /** The five empty maps `buildGroupsFromRawRecords` starts from. */
  lemma IndexedInitially()
    ensures IndexedBy(map[Auta := map[], Bus := map[], Moto := map[], Skla := map[], Pdr := map[]], [])
  {
    var maps: map<Category, map<string, int>> := map[Auta := map[], Bus := map[], Moto := map[], Skla := map[], Pdr := map[]];
    forall c: Category ensures c in maps {
      match c
      case Auta =>
      case Bus =>
      case Moto =>
      case Skla =>
      case Pdr =>
    }
  }

  predicate TagsDistinct(gs: seq<Group>)
  {
    forall i, j :: 0 <= i < j < |gs| ==> TagOf(gs[i]) != TagOf(gs[j])
  }

  /** Looking a key up in the tab's map finds the same group as searching the list. */
  lemma IndexedFind(maps: map<Category, map<string, int>>, gs: seq<Group>, t: Tag)
    requires IndexedBy(maps, gs) && TagsDistinct(gs)
    ensures t.key in maps[t.category] ==> FindTag(gs, t) == maps[t.category][t.key]
    ensures t.key !in maps[t.category] ==> FindTag(gs, t) == |gs|
  {
    if t.key in maps[t.category] {
      var idx := maps[t.category][t.key];
      assert TagOf(gs[idx]) == t;
    } else {
      forall j | 0 <= j < |gs| ensures TagOf(gs[j]) != t {
        assert gs[j].key in maps[gs[j].category];
      }
    }
  }

  /** Opening a new group keeps the maps in step. */
  lemma IndexedAppend(maps: map<Category, map<string, int>>, gs: seq<Group>, g: Group)
    requires IndexedBy(maps, gs)
    ensures IndexedBy(maps[g.category := maps[g.category][g.key := |gs|]], gs + [g])
  {
    IndexedAppendMaps(maps, gs, g);
    IndexedAppendGroups(maps, gs, g);
  }

  lemma IndexedAppendMaps(maps: map<Category, map<string, int>>, gs: seq<Group>, g: Group)
    requires IndexedBy(maps, gs)
    ensures var maps' := maps[g.category := maps[g.category][g.key := |gs|]];
      forall c, k :: c in maps' && k in maps'[c] ==> 0 <= maps'[c][k] < |gs + [g]| && TagOf((gs + [g])[maps'[c][k]]) == Tag(c, k)
  {
    var maps' := maps[g.category := maps[g.category][g.key := |gs|]];
    var gs' := gs + [g];
    forall c, k | c in maps' && k in maps'[c]
      ensures 0 <= maps'[c][k] < |gs'| && TagOf(gs'[maps'[c][k]]) == Tag(c, k)
    {
      if c != g.category || k != g.key {
        assert maps'[c][k] == maps[c][k];
        assert gs'[maps[c][k]] == gs[maps[c][k]];
      }
    }
  }

  lemma IndexedAppendGroups(maps: map<Category, map<string, int>>, gs: seq<Group>, g: Group)
    requires IndexedBy(maps, gs)
    ensures var maps' := maps[g.category := maps[g.category][g.key := |gs|]];
      forall j :: 0 <= j < |gs + [g]| ==> (gs + [g])[j].category in maps' && (gs + [g])[j].key in maps'[(gs + [g])[j].category]
  {
    var maps' := maps[g.category := maps[g.category][g.key := |gs|]];
    var gs' := gs + [g];
    forall j | 0 <= j < |gs'|
      ensures gs'[j].category in maps' && gs'[j].key in maps'[gs'[j].category]
    {
      if j < |gs| {
        assert gs'[j] == gs[j];
      }
    }
  }

  /** Appending a record to a group changes no tag, so the maps stay in step. */
  lemma IndexedUpdate(maps: map<Category, map<string, int>>, gs: seq<Group>, i: nat, r: Record)
    requires IndexedBy(maps, gs) && i < |gs|
    ensures IndexedBy(maps, gs[i := gs[i].(records := gs[i].records + [r])])
  {
    var gs' := gs[i := gs[i].(records := gs[i].records + [r])];
    assert forall j :: 0 <= j < |gs| ==> TagOf(gs'[j]) == TagOf(gs[j]);
  }

  lemma GroupedDistinct(rs: seq<Record>, tag: Record -> Tag)
    ensures TagsDistinct(Grouped(rs, tag))
  {
    GroupedTagsDistinct(rs, tag);
  }

  /** The page: the module-level variables of servisy_data.js. */
  class Page {
    var rawRecords: seq<Record>
    var groupedRecords: seq<Group>
    var columns: seq<string>
    var allColumns: seq<string>
    var columnDisplayNames: map<string, Value>
    var currentTypeFilter: string
    var currentSearchTerm: string
    /** Unicode canonical decomposition, which `normalize('NFD')` applies. */
    const decompose: char -> string

    /** Every display name comes from a labelled header cell. */
    predicate Valid()
      reads this
    {
      forall col :: col in columnDisplayNames ==> Labelled(columnDisplayNames[col])
    }

    constructor(decompose: char -> string)
      ensures Valid()
      ensures this.decompose == decompose
      ensures rawRecords == [] && groupedRecords == [] && columns == [] && allColumns == []
      ensures columnDisplayNames == map[]
      ensures currentTypeFilter == "auta" && currentSearchTerm == ""
    {
      this.decompose := decompose;
      rawRecords := [];
      groupedRecords := [];
      columns := [];
      allColumns := [];
      columnDisplayNames := map[];
      currentTypeFilter := "auta";
      currentSearchTerm := "";
    }

    /** `getDetailLabel(col)`: the header row's name for the column, else its
        built-in label, else the column name itself. */
    function GetDetailLabel(col: string): (name: Value)
      reads this
      ensures col in columnDisplayNames ==> name == columnDisplayNames[col]
      ensures col !in columnDisplayNames && col in DisplayColumnsOrder ==> name == Str(ColumnLabel(col).value)
      ensures col !in columnDisplayNames && col !in DisplayColumnsOrder ==> name == Str(col)
      ensures Valid() ==> !name.Null?
    {
      if col in columnDisplayNames then columnDisplayNames[col]
      else if ColumnLabel(col).Some? then Str(ColumnLabel(col).value)
      else Str(col)
    }

    /** The `then (json => ...)` step of `loadData` once the data set has been
        fetched: `data` is `json.data` and `metaColumns` is `json.meta.columns`,
        each already `[]` when it is not an array. `searchInput` is the search
        box's value, `None` when the page has no search box. */
    method LoadData(data: seq<Record>, metaColumns: seq<string>, searchInput: Option<string>) returns (shown: seq<Group>)
      requires Valid()
      modifies this
      ensures Valid()
      ensures rawRecords == data
      ensures allColumns == (if metaColumns != [] && data != [] then metaColumns else if data != [] then data[0].Keys() else [])
      ensures data != [] && IsLegendRow(data[0]) ==> columnDisplayNames == DisplayNames(data[0], allColumns)
      ensures !(data != [] && IsLegendRow(data[0])) ==> columnDisplayNames == old(columnDisplayNames)
      ensures columns == VisibleColumns(allColumns)
      ensures groupedRecords == Grouped(Kept(data), TagFor(decompose))
      ensures currentTypeFilter == old(currentTypeFilter)
      ensures searchInput.None? ==> currentSearchTerm == old(currentSearchTerm) && shown == groupedRecords
      ensures searchInput.Some? ==>
        currentSearchTerm == Trim(searchInput.value) &&
        shown == Shown(groupedRecords, currentTypeFilter, currentSearchTerm, allColumns, decompose)
    {
      LoadColumns(data, metaColumns);
      BuildGroupsFromRawRecords();
      shown := ApplyFilter(searchInput);
    }

    /** The column resolution of `loadData`: the records, all columns, their
        display names and the overview columns. */
    method LoadColumns(data: seq<Record>, metaColumns: seq<string>)
      requires Valid()
      modifies this`rawRecords, this`allColumns, this`columnDisplayNames, this`columns
      ensures Valid()
      ensures rawRecords == data
      ensures allColumns == (if metaColumns != [] && data != [] then metaColumns else if data != [] then data[0].Keys() else [])
      ensures data != [] && IsLegendRow(data[0]) ==> columnDisplayNames == DisplayNames(data[0], allColumns)
      ensures !(data != [] && IsLegendRow(data[0])) ==> columnDisplayNames == old(columnDisplayNames)
      ensures columns == VisibleColumns(allColumns)
    {
      rawRecords := data;
      allColumns := if metaColumns != [] && data != [] then metaColumns else if data != [] then data[0].Keys() else [];
      LoadDisplayNames();
      columns := VisibleColumns(allColumns);
    }

    /** The display names of the columns, taken from a legend row at index 0 of
        the data set; without one the previous names stay. */
    method LoadDisplayNames()
      requires Valid()
      modifies this`columnDisplayNames
      ensures Valid()
      ensures rawRecords != [] && IsLegendRow(rawRecords[0]) ==> columnDisplayNames == DisplayNames(rawRecords[0], allColumns)
      ensures !(rawRecords != [] && IsLegendRow(rawRecords[0])) ==> columnDisplayNames == old(columnDisplayNames)
    {
      if |rawRecords| > 0 && IsLegendRow(rawRecords[0]) {
        columnDisplayNames := HarvestDisplayNames(rawRecords[0], allColumns);
      }
    }

    /** The `allColumns.forEach` that collects the header row's names. */
    static method HarvestDisplayNames(headerRow: Record, cols: seq<string>) returns (names: map<string, Value>)
      ensures names == DisplayNames(headerRow, cols)
      ensures forall col :: col in names ==> Labelled(names[col])
    {
      names := map[];
      for i := 0 to |cols|
        invariant names == DisplayNames(headerRow, cols[..i])
      {
        assert cols[..i + 1][..i] == cols[..i];
        var headerVal := headerRow.Get(cols[i]);
        if headerVal != Null && Trim(AsString(headerVal)) != "" {
          names := names[cols[i] := headerVal];
        }
      }
      assert cols[..|cols|] == cols;
      forall col | col in names ensures Labelled(names[col]) {
        DisplayNamesIff(headerRow, cols, col);
      }
    }

    /** `buildGroupsFromRawRecords()`. */
    method BuildGroupsFromRawRecords()
      modifies this`groupedRecords
      ensures groupedRecords == Grouped(Kept(rawRecords), TagFor(decompose))
    {
      var raw := rawRecords;
      var tag := TagFor(decompose);
      var mapsByType: map<Category, map<string, int>> :=
        map[Auta := map[], Bus := map[], Moto := map[], Skla := map[], Pdr := map[]];
      var groups: seq<Group> := [];
      IndexedInitially();
      for index := 0 to |raw|
        invariant groups == Grouped(Kept(raw[..index]), tag)
        invariant IndexedBy(mapsByType, groups)
      {
        var record := raw[index];
        KeptStep(raw, index);
        if !(IsLegendRow(record) && index == 0) {
          var category := ClassifyType(record, decompose);
          var key := GroupKey(record);
          assert tag(record) == Tag(category, key);
          GroupedSnoc(Kept(raw[..index]), record, tag);
          GroupedDistinct(Kept(raw[..index]), tag);
          IndexedFind(mapsByType, groups, Tag(category, key));
          var typeMap := mapsByType[category];
          if key !in typeMap {
            var group := Group(key, category, record, [record]);
            IndexedAppend(mapsByType, groups, group);
            mapsByType := mapsByType[category := typeMap[key := |groups|]];
            groups := groups + [group];
          } else {
            var i := typeMap[key];
            IndexedUpdate(mapsByType, groups, i, record);
            groups := groups[i := groups[i].(records := groups[i].records + [record])];
          }
        }
      }
      assert raw[..|raw|] == raw;
      groupedRecords := groups;
    }

    /** `applyFilter()`: the groups it renders. */
    method ApplyFilter(searchInput: Option<string>) returns (shown: seq<Group>)
      modifies this`currentSearchTerm
      ensures searchInput.None? ==> currentSearchTerm == old(currentSearchTerm) && shown == groupedRecords
      ensures searchInput.Some? ==>
        currentSearchTerm == Trim(searchInput.value) &&
        shown == Shown(groupedRecords, currentTypeFilter, currentSearchTerm, allColumns, decompose)
    {
      if searchInput.None? {
        return groupedRecords;
      }
      currentSearchTerm := Trim(searchInput.value);
      var normalizedSearchTerm := Fold(currentSearchTerm, decompose);
      var selected := SelectorCategory(currentTypeFilter);
      var base := OfTab(groupedRecords, selected);
      if normalizedSearchTerm == "" {
        return base;
      }
      var searchWords := Words(normalizedSearchTerm);
      shown := Matching(base, allColumns, searchWords, decompose);
    }

    /** A click on a tab button: its `data-type`, or `auta` when the attribute
        is missing or empty, becomes the type filter, and the list is filtered again. */
    method SelectTab(dataType: Option<string>, searchInput: Option<string>) returns (shown: seq<Group>)
      modifies this`currentTypeFilter, this`currentSearchTerm
      ensures currentTypeFilter == if dataType.None? || dataType.value == "" then "auta" else dataType.value
      ensures searchInput.None? ==> currentSearchTerm == old(currentSearchTerm) && shown == groupedRecords
      ensures searchInput.Some? ==>
        currentSearchTerm == Trim(searchInput.value) &&
        shown == Shown(groupedRecords, currentTypeFilter, currentSearchTerm, allColumns, decompose)
    {
      currentTypeFilter := if dataType.None? || dataType.value == "" then "auta" else dataType.value;
      shown := ApplyFilter(searchInput);
    }
  }
}
