/**
 * `transform_nodes`: checks the column names a caller passes, and on a deep
 * copy of the node table derives a string `label` column, a `color` column
 * by dictionary lookup, renames the hover column to `title`, and returns one
 * attribute record per node id.
 */
module Nodes {
  import opened Wrappers
  import opened Frames
  import opened Checks

  datatype NodeArgs = NodeArgs(id: Option<string>, labelColumn: Option<string>, style: Style)

  /** One node's attributes, keyed by pyvis' attribute names. */
  type Record = map<string, Value>

  /** The names checked against the table, in order (the `None`s dropped). */
  function Requested(a: NodeArgs): seq<string>
  {
    OptList(a.id) + OptList(a.labelColumn) + OptList(a.style.color) + OptList(a.style.hover)
  }

  /** The attribute names every record holds: `cols` after the id, at the end of the call. */
  function AttributeNames(a: NodeArgs): seq<string>
  {
    LabelKeys(a) + a.style.ColorKeys() + a.style.TitleKeys()
  }

  function LabelKeys(a: NodeArgs): seq<string>
  {
    if a.labelColumn.Some? then ["label"] else []
  }

  /** Every name the caller passes is a column of the table. */
  predicate AllFound(t: Table, a: NodeArgs)
  {
    forall n :: n in Requested(a) ==> t.Has(n)
  }

  lemma Found(t: Table, a: NodeArgs)
    requires AllFound(t, a)
    ensures a.id.Some? ==> t.Has(a.id.value)
    ensures a.labelColumn.Some? ==> t.Has(a.labelColumn.value)
    ensures a.style.color.Some? ==> t.Has(a.style.color.value)
    ensures a.style.hover.Some? ==> t.Has(a.style.hover.value)
  {
    assert a.id.Some? ==> a.id.value in Requested(a);
    assert a.labelColumn.Some? ==> a.labelColumn.value in Requested(a);
    assert a.style.color.Some? ==> a.style.color.value in Requested(a);
    assert a.style.hover.Some? ==> a.style.hover.value in Requested(a);
  }

  /**
   * The inputs this model covers: a table with distinct column names, an id
   * column that is none of the derived attribute columns and holds no value
   * twice, and no second `title` column once the hover column is renamed.
   */
  predicate Supported(t: Table, a: NodeArgs)
  {
    && t.Valid()
    && (a.id.Some? ==> a.id.value !in AttributeNames(a))
    && (a.style.Moves() ==> !t.Has("title"))
    && (a.id.Some? && t.Has(a.id.value) ==> Distinct(t.Get(a.id.value)))
  }

  /** `temp['label'] = temp[label].astype(str)`, when a label column is given. */
  function Labelled(t: Table, a: NodeArgs): (u: Table)
    requires t.Valid() && (a.labelColumn.Some? ==> t.Has(a.labelColumn.value))
    ensures u.Valid() && forall m :: t.Has(m) ==> u.Has(m)
  {
    if a.labelColumn.Some? then
      AssignFacts(t, "label", StrCells(t.Get(a.labelColumn.value)));
      t.Assign("label", StrCells(t.Get(a.labelColumn.value)))
    else t
  }

  lemma LabelledFacts(t: Table, a: NodeArgs)
    requires t.Valid() && (a.labelColumn.Some? ==> t.Has(a.labelColumn.value))
    ensures var u := Labelled(t, a);
      && u.Valid() && u.rows == t.rows
      && (forall m :: u.Has(m) <==> t.Has(m) || (a.labelColumn.Some? && m == "label"))
      && (forall m :: t.Has(m) && !(a.labelColumn.Some? && m == "label") ==> u.Get(m) == t.Get(m))
      && (a.labelColumn.Some? ==> u.Has("label") && u.Get("label") == StrCells(t.Get(a.labelColumn.value)))
  {
    if a.labelColumn.Some? {
      AssignFacts(t, "label", StrCells(t.Get(a.labelColumn.value)));
    }
  }

  /** The copy `temp` just before the final selection. */
  function Prepared(t: Table, a: NodeArgs): Table
    requires t.Valid() && AllFound(t, a)
  {
    Found(t, a);
    Shown(Painted(Labelled(t, a), a.style), a.style)
  }

  /**
   * The column the colours are looked up from: the label column's strings
   * when the colour column is `label` itself and a label is derived,
   * otherwise the colour column as given.
   */
  function ColorSource(t: Table, a: NodeArgs): seq<Value>
    requires a.style.color.Some? && t.Has(a.style.color.value)
    requires a.labelColumn.Some? ==> t.Has(a.labelColumn.value)
  {
    if a.labelColumn.Some? && a.style.color.value == "label" then StrCells(t.Get(a.labelColumn.value))
    else t.Get(a.style.color.value)
  }

  /** A hover column renamed to `title` that is also a selected column makes the selection fail. */
  predicate NodeClash(a: NodeArgs)
  {
    var st := a.style;
    && st.Moves()
    && (|| (a.id.Some? && st.hover.value == a.id.value)
        || (a.labelColumn.Some? && st.hover.value == "label")
        || (st.Colored() && st.hover.value == "color"))
  }

  lemma PreparedValid(t: Table, a: NodeArgs)
    requires t.Valid() && AllFound(t, a) && (a.style.Moves() ==> !t.Has("title"))
    ensures Prepared(t, a).Valid() && Prepared(t, a).rows == t.rows
  {
    Found(t, a);
    LabelledFacts(t, a);
    var u := Labelled(t, a);
    PaintedFacts(u, a.style);
    ShownValid(Painted(u, a.style), a.style);
  }

  /** Which names the prepared copy holds: the derived ones are added, the hover column becomes `title`. */
  lemma PreparedHas(t: Table, a: NodeArgs, m: string)
    requires t.Valid() && AllFound(t, a)
    ensures var st := a.style;
      Prepared(t, a).Has(m) <==>
        || ((t.Has(m) || (a.labelColumn.Some? && m == "label") || (st.Colored() && m == "color"))
            && !(st.Moves() && m == st.hover.value))
        || (st.hover.Some? && m == "title")
  {
    Found(t, a);
    LabelledFacts(t, a);
    var u := Labelled(t, a);
    PaintedFacts(u, a.style);
    ShownNames(Painted(u, a.style), a.style);
  }

  /** A column the call neither derives nor renames keeps its cells. */
  lemma PreparedKeeps(t: Table, a: NodeArgs, m: string)
    requires t.Valid() && AllFound(t, a) && (a.style.Moves() ==> !t.Has("title"))
    requires t.Has(m) && !(a.labelColumn.Some? && m == "label") && !(a.style.Colored() && m == "color")
    requires !(a.style.Moves() && m == a.style.hover.value)
    ensures Prepared(t, a).Has(m) && Prepared(t, a).Get(m) == t.Get(m)
  {
    Found(t, a);
    LabelledFacts(t, a);
    var u := Labelled(t, a);
    PaintedFacts(u, a.style);
    ShownValid(Painted(u, a.style), a.style);
  }

  /** The `label` column holds the label column's values as strings. */
  lemma PreparedLabel(t: Table, a: NodeArgs)
    requires t.Valid() && AllFound(t, a) && (a.style.Moves() ==> !t.Has("title"))
    requires a.labelColumn.Some? && !(a.style.Moves() && a.style.hover.value == "label")
    ensures t.Has(a.labelColumn.value)
    ensures Prepared(t, a).Has("label") && Prepared(t, a).Get("label") == StrCells(t.Get(a.labelColumn.value))
  {
    Found(t, a);
    LabelledFacts(t, a);
    var u := Labelled(t, a);
    PaintedFacts(u, a.style);
    ShownValid(Painted(u, a.style), a.style);
  }

  /** The `color` column holds the colours looked up from the colour source. */
  lemma PreparedColor(t: Table, a: NodeArgs)
    requires t.Valid() && AllFound(t, a) && (a.style.Moves() ==> !t.Has("title"))
    requires a.style.Colored() && !(a.style.Moves() && a.style.hover.value == "color")
    ensures t.Has(a.style.color.value) && (a.labelColumn.Some? ==> t.Has(a.labelColumn.value))
    ensures Prepared(t, a).Has("color")
    ensures Prepared(t, a).Get("color") == MapCells(ColorSource(t, a), a.style.colorMap.value)
  {
    Found(t, a);
    LabelledFacts(t, a);
    var u := Labelled(t, a);
    PaintedFacts(u, a.style);
    ShownValid(Painted(u, a.style), a.style);
  }

  /** The `title` column holds the hover column's cells, unless the hover column is a derived one. */
  lemma PreparedTitle(t: Table, a: NodeArgs)
    requires t.Valid() && AllFound(t, a) && (a.style.Moves() ==> !t.Has("title"))
    requires a.style.hover.Some?
    requires !(a.labelColumn.Some? && a.style.hover.value == "label")
    requires !(a.style.Colored() && a.style.hover.value == "color")
    ensures t.Has(a.style.hover.value)
    ensures Prepared(t, a).Has("title") && Prepared(t, a).Get("title") == t.Get(a.style.hover.value)
  {
    Found(t, a);
    LabelledFacts(t, a);
    var u := Labelled(t, a);
    PaintedFacts(u, a.style);
    ShownValid(Painted(u, a.style), a.style);
  }

  /** A table holds every selected name exactly when it holds each of them. */
  lemma SelectedNamesPresent(u: Table, id: string, a: NodeArgs)
    ensures u.HasAll([id] + AttributeNames(a)) <==>
      && u.Has(id)
      && (a.labelColumn.Some? ==> u.Has("label"))
      && (a.style.Colored() ==> u.Has("color"))
      && (a.style.hover.Some? ==> u.Has("title"))
  {
    var keys := [id] + AttributeNames(a);
    assert id in keys;
    assert a.labelColumn.Some? ==> "label" in keys;
    assert a.style.Colored() ==> "color" in keys;
    assert a.style.hover.Some? ==> "title" in keys;
    assert forall key :: key in keys ==>
      || key == id || (a.labelColumn.Some? && key == "label")
      || (a.style.Colored() && key == "color") || (a.style.hover.Some? && key == "title");
  }

  /** The selection from the prepared copy succeeds exactly when no column clashes with the hover rename. */
  lemma PreparedCovers(t: Table, a: NodeArgs)
    requires Supported(t, a) && AllFound(t, a) && a.id.Some?
    ensures Prepared(t, a).HasAll([a.id.value] + AttributeNames(a)) <==> !NodeClash(a)
  {
    Found(t, a);
    var id := a.id.value;
    assert a.style.hover.Some? ==> id != "title" by {
      assert a.style.hover.Some? ==> "title" in AttributeNames(a);
    }
    PreparedHas(t, a, id);
    PreparedHas(t, a, "label");
    PreparedHas(t, a, "color");
    PreparedHas(t, a, "title");
    SelectedNamesPresent(Prepared(t, a), id, a);
  }

  /** One row of `temp[cols].set_index(id)`: each remaining column's name with the row's cell. */
  function RowRecord(cols: seq<Column>, i: nat): Record
    requires forall k :: 0 <= k < |cols| ==> i < |cols[k].cells|
  {
    if cols == [] then map[]
    else RowRecord(cols[1..], i)[cols[0].name := cols[0].cells[i]]
  }

  /** A row's record has exactly the column names as keys. */
  lemma {:induction false} RowRecordKeys(cols: seq<Column>, i: nat)
    requires forall k :: 0 <= k < |cols| ==> i < |cols[k].cells|
    ensures forall n :: n in RowRecord(cols, i) <==> n in NamesOf(cols)
  {
    if cols != [] {
      RowRecordKeys(cols[1..], i);
      NamesTail(cols);
    }
  }

  /** With distinct names, a row's record holds each column's cell of that row. */
  lemma {:induction false} RowRecordAt(cols: seq<Column>, i: nat, k: nat)
    requires forall j :: 0 <= j < |cols| ==> i < |cols[j].cells|
    requires Distinct(NamesOf(cols)) && k < |cols|
    ensures cols[k].name in RowRecord(cols, i) && RowRecord(cols, i)[cols[k].name] == cols[k].cells[i]
  {
    if k > 0 {
      NamesTail(cols);
      assert cols[1..][k - 1] == cols[k];
      assert cols[k].name in NamesOf(cols[1..]) by {
        assert NamesOf(cols[1..])[k - 1] == cols[k].name;
      }
      RowRecordAt(cols[1..], i, k - 1);
    }
  }

  /** `.to_dict(orient='index')` over the first `n` rows: each id maps to its row's record. */
  function IndexRows(s: Table, n: nat): map<Value, Record>
    requires s.Rectangular() && |s.columns| >= 1 && n <= s.rows
  {
    if n == 0 then map[]
    else
      assert forall k :: 0 <= k < |s.columns[1..]| ==> s.columns[1..][k] == s.columns[k + 1];
      IndexRows(s, n - 1)[s.columns[0].cells[n - 1] := RowRecord(s.columns[1..], n - 1)]
  }

  /** `temp[cols].set_index(id).to_dict(orient='index')`, the id being the first column. */
  function IndexBy(s: Table): map<Value, Record>
    requires s.Rectangular() && |s.columns| >= 1
  {
    IndexRows(s, s.rows)
  }

  /** The ids indexed are exactly the values of the id column. */
  lemma {:induction false} IndexRowsKeys(s: Table, n: nat)
    requires s.Rectangular() && |s.columns| >= 1 && n <= s.rows
    ensures forall v :: v in IndexRows(s, n) <==> v in s.columns[0].cells[..n]
  {
    if n > 0 {
      IndexRowsKeys(s, n - 1);
      assert s.columns[0].cells[..n] == s.columns[0].cells[..n - 1] + [s.columns[0].cells[n - 1]];
    }
  }

  /** With distinct ids, each row's id maps to that row's record. */
  lemma {:induction false} IndexRowsAt(s: Table, n: nat, i: nat)
    requires s.Rectangular() && |s.columns| >= 1 && n <= s.rows && i < n
    requires Distinct(s.columns[0].cells)
    ensures forall k :: 0 <= k < |s.columns[1..]| ==> i < |s.columns[1..][k].cells|
    ensures s.columns[0].cells[i] in IndexRows(s, n)
    ensures IndexRows(s, n)[s.columns[0].cells[i]] == RowRecord(s.columns[1..], i)
  {
    assert forall k :: 0 <= k < |s.columns[1..]| ==> s.columns[1..][k] == s.columns[k + 1];
    if i < n - 1 {
      IndexRowsAt(s, n - 1, i);
    }
  }

  /** The record indexed by a row's id holds that row's cell of every other column. */
  lemma IndexByAt(s: Table, i: nat)
    requires s.Rectangular() && |s.columns| >= 1 && Distinct(s.Names()) && Distinct(s.columns[0].cells)
    requires i < s.rows
    ensures s.columns[0].cells[i] in IndexBy(s)
    ensures forall k :: 1 <= k < |s.columns| ==>
      && s.columns[k].name in IndexBy(s)[s.columns[0].cells[i]]
      && IndexBy(s)[s.columns[0].cells[i]][s.columns[k].name] == s.columns[k].cells[i]
  {
    IndexRowsAt(s, s.rows, i);
    NamesTail(s.columns);
    var tail := s.columns[1..];
    forall k | 1 <= k < |s.columns|
      ensures s.columns[k].name in RowRecord(tail, i) && RowRecord(tail, i)[s.columns[k].name] == s.columns[k].cells[i]
    {
      assert tail[k - 1] == s.columns[k];
      RowRecordAt(tail, i, k - 1);
    }
  }

  /** The id followed by the attribute names repeats no name. */
  lemma KeysDistinct(id: string, a: NodeArgs)
    requires id !in AttributeNames(a)
    ensures Distinct([id] + AttributeNames(a))
  {
    var keys := [id] + AttributeNames(a);
    forall i, j | 0 <= i < j < |keys|
      ensures keys[i] != keys[j]
    {
      assert keys[j] in AttributeNames(a);
    }
  }

  /** The shape of a successful selection: the id column first, then one column per attribute. */
  lemma SelectedShape(t: Table, a: NodeArgs)
    requires Supported(t, a) && AllFound(t, a) && a.id.Some? && !NodeClash(a)
    ensures var keys := [a.id.value] + AttributeNames(a); var sel := Prepared(t, a).Select(keys);
      && sel.Some?
      && sel.value.Rectangular() && sel.value.rows == t.rows
      && sel.value.Names() == keys && Distinct(keys)
      && |sel.value.columns| == |keys|
      && t.Has(a.id.value)
      && sel.value.columns[0].cells == t.Get(a.id.value)
      && Distinct(sel.value.columns[0].cells)
      && forall k :: 0 <= k < |keys| ==> sel.value.columns[k] == Column(keys[k], Prepared(t, a).Get(keys[k]))
  {
    Found(t, a);
    var id := a.id.value;
    var keys := [id] + AttributeNames(a);
    var p := Prepared(t, a);
    PreparedValid(t, a);
    PreparedCovers(t, a);
    SelectFacts(p, keys);
    KeysDistinct(id, a);
    assert p.Get(id) == t.Get(id) by {
      assert a.labelColumn.Some? ==> "label" in AttributeNames(a);
      assert a.style.Colored() ==> "color" in AttributeNames(a);
      PreparedKeeps(t, a, id);
    }
  }

  /** The whole call, as a value: the records, or the exception raised. */
  function Records(t: Table, a: NodeArgs): Result<map<Value, Record>, Error>
    requires Supported(t, a)
  {
    match FirstMissing(t, Requested(a))
    case Some(c) => Err(ColumnNotFound(c))
    case None =>
      match a.style.PairingError()
      case Some(e) => Err(e)
      case None =>
        if a.id.None? then Err(KeyNotFound)
        else
          match Prepared(t, a).Select([a.id.value] + AttributeNames(a))
          case None => Err(KeyNotFound)
          case Some(s) =>
            assert !NodeClash(a) by {
              PreparedCovers(t, a);
            }
            SelectedShape(t, a);
            Ok(IndexBy(s))
  }

  /**
   * The names are checked in the order id, label, color, hover, and the first
   * absent one is reported, whatever else the call is given.
   */
  lemma FirstMissingReported(t: Table, a: NodeArgs, k: nat)
    requires Supported(t, a) && k < |Requested(a)| && !t.Has(Requested(a)[k])
    requires forall j :: 0 <= j < k ==> t.Has(Requested(a)[j])
    ensures Records(t, a) == Err(ColumnNotFound(Requested(a)[k]))
  {
    FirstMissingAt(t, Requested(a), k);
  }

  /** Once the names are found, exactly one of `color` and `color_map` is a TypeError. */
  lemma PairingCheck(t: Table, a: NodeArgs)
    requires Supported(t, a) && AllFound(t, a)
    ensures Records(t, a) == Err(ColorWithoutMap) <==> a.style.color.Some? && a.style.colorMap.None?
    ensures Records(t, a) == Err(MapWithoutColor) <==> a.style.color.None? && a.style.colorMap.Some?
  {
  }

  /** A call that passes the checks fails with a KeyError exactly when the selection does. */
  lemma Proceeds(t: Table, a: NodeArgs)
    requires Supported(t, a) && AllFound(t, a) && a.style.PairingError().None?
    ensures a.id.None? ==> Records(t, a) == Err(KeyNotFound)
    ensures a.id.Some? && Prepared(t, a).Select([a.id.value] + AttributeNames(a)).None? ==>
      Records(t, a) == Err(KeyNotFound)
    ensures a.id.Some? && Prepared(t, a).Select([a.id.value] + AttributeNames(a)).Some? ==> !NodeClash(a)
  {
    if a.id.Some? {
      PreparedCovers(t, a);
    }
  }

  /** A call that passes the checks and the selection returns the selected rows indexed by id. */
  lemma Delivers(t: Table, a: NodeArgs)
    requires Supported(t, a) && AllFound(t, a) && a.style.PairingError().None? && a.id.Some? && !NodeClash(a)
    ensures var sel := Prepared(t, a).Select([a.id.value] + AttributeNames(a));
      && sel.Some? && sel.value.Rectangular() && |sel.value.columns| >= 1
      && Distinct(sel.value.Names()) && Distinct(sel.value.columns[0].cells)
    ensures Records(t, a) == Ok(IndexBy(Prepared(t, a).Select([a.id.value] + AttributeNames(a)).value))
  {
    SelectedShape(t, a);
  }

  /** `transform_nodes(nodes_df, ...)`: the caller's DataFrame object is only read. */
  method TransformNodes(nodes: Frame, a: NodeArgs) returns (r: Result<map<Value, Record>, Error>)
    requires Supported(nodes.Value(), a)
    ensures r == Records(nodes.Value(), a)
  {
    var t := nodes.Value();
    var st := a.style;
    var missing := FindMissing(t, Requested(a));
    if missing.Some? {
      return Err(ColumnNotFound(missing.value));
    }
    assert AllFound(t, a);
    assert a.labelColumn.Some? ==> t.Has(a.labelColumn.value) by {
      Found(t, a);
    }
    var temp := t;
    var attrs: seq<string> := [];
    if a.labelColumn.Some? {
      temp := temp.Assign("label", StrCells(temp.Get(a.labelColumn.value)));
      attrs := attrs + ["label"];
    }
    assert temp == Labelled(t, a) && attrs == LabelKeys(a);
    assert Labelled(t, a).Valid() && (st.Colored() ==> Labelled(t, a).Has(st.color.value)) by {
      Found(t, a);
      LabelledFacts(t, a);
    }
    if st.color.Some? && st.colorMap.Some? {
      temp := temp.Assign("color", MapCells(temp.Get(st.color.value), st.colorMap.value));
      attrs := attrs + ["color"];
      assert attrs == LabelKeys(a) + st.ColorKeys();
    } else if st.color.Some? && st.colorMap.None? {
      PairingCheck(t, a);
      return Err(ColorWithoutMap);
    } else if st.color.None? && st.colorMap.Some? {
      PairingCheck(t, a);
      return Err(MapWithoutColor);
    }
    assert temp == Painted(Labelled(t, a), st);
    assert attrs == LabelKeys(a) + st.ColorKeys();
    if st.hover.Some? {
      temp := temp.Rename(st.hover.value, "title");
      attrs := attrs + ["title"];
    }
    assert attrs == AttributeNames(a);
    assert temp == Prepared(t, a);
    Proceeds(t, a);
    if a.id.None? {
      return Err(KeyNotFound);
    }
    var selected := temp.Select([a.id.value] + attrs);
    if selected.None? {
      return Err(KeyNotFound);
    }
    Delivers(t, a);
    return Ok(IndexBy(selected.value));
  }

  /** A name the caller passes that is not a column is reported. */
  lemma ColumnCheck(t: Table, a: NodeArgs)
    requires Supported(t, a)
    ensures var r := Records(t, a);
      && ((r.Err? && r.error.ColumnNotFound?) <==> !AllFound(t, a))
      && (r.Err? && r.error.ColumnNotFound? ==> r.error.column in Requested(a) && !t.Has(r.error.column))
  {
    if AllFound(t, a) {
      if a.style.PairingError().None? {
        Proceeds(t, a);
        if a.id.Some? && Prepared(t, a).Select([a.id.value] + AttributeNames(a)).Some? {
          Delivers(t, a);
        }
      }
    }
  }

  /** When the checks pass, the call fails only for a missing id or a hover clash, with a KeyError. */
  lemma SelectionCheck(t: Table, a: NodeArgs)
    requires Supported(t, a) && AllFound(t, a) && a.style.PairingError().None?
    ensures var r := Records(t, a);
      && (r.Ok? <==> a.id.Some? && !NodeClash(a))
      && (r.Err? ==> r.error == KeyNotFound)
  {
    Proceeds(t, a);
    if a.id.Some? {
      PreparedCovers(t, a);
      if !NodeClash(a) {
        Delivers(t, a);
      }
    }
  }

  /** A successful call passed every check. */
  lemma Succeeded(t: Table, a: NodeArgs)
    requires Supported(t, a) && Records(t, a).Ok?
    ensures AllFound(t, a) && a.style.PairingError().None? && a.id.Some? && !NodeClash(a)
  {
    ColumnCheck(t, a);
    if AllFound(t, a) {
      PairingCheck(t, a);
      SelectionCheck(t, a);
    }
  }

  /** The indexed selection maps each row's id to that row's cells of the prepared copy. */
  lemma SelectedRow(t: Table, a: NodeArgs, i: nat)
    requires Supported(t, a) && AllFound(t, a) && a.id.Some? && !NodeClash(a) && i < t.rows
    ensures var sel := Prepared(t, a).Select([a.id.value] + AttributeNames(a));
      && sel.Some? && sel.value.Rectangular() && |sel.value.columns| >= 1
      && Distinct(sel.value.Names()) && Distinct(sel.value.columns[0].cells)
    ensures t.Has(a.id.value) && |t.Get(a.id.value)| == t.rows
    ensures forall n :: n in AttributeNames(a) ==> Prepared(t, a).Has(n) && |Prepared(t, a).Get(n)| == t.rows
    ensures var r := IndexBy(Prepared(t, a).Select([a.id.value] + AttributeNames(a)).value);
      && t.Get(a.id.value)[i] in r
      && forall n :: n in AttributeNames(a) ==> n in r[t.Get(a.id.value)[i]] && r[t.Get(a.id.value)[i]][n] == Prepared(t, a).Get(n)[i]
  {
    SelectedShape(t, a);
    var attrs := AttributeNames(a);
    var keys := [a.id.value] + attrs;
    var p := Prepared(t, a);
    var sel := p.Select(keys).value;
    var id := sel.columns[0].cells[i];
    assert id == t.Get(a.id.value)[i];
    IndexByAt(sel, i);
    var rec := IndexBy(sel)[id];
    forall n | n in attrs
      ensures p.Has(n) && |p.Get(n)| == t.rows && n in rec && rec[n] == p.Get(n)[i]
    {
      var k :| 0 <= k < |attrs| && attrs[k] == n;
      assert keys[k + 1] == n;
      assert sel.columns[k + 1] == Column(n, p.Get(n));
    }
  }

  /** Every row's record holds, under each attribute name, that row's cell of the prepared copy. */
  lemma RowAt(t: Table, a: NodeArgs, i: nat)
    requires Supported(t, a) && Records(t, a).Ok? && i < t.rows
    ensures AllFound(t, a) && a.id.Some? && t.Has(a.id.value) && |t.Get(a.id.value)| == t.rows
    ensures !NodeClash(a)
    ensures forall n :: n in AttributeNames(a) ==> Prepared(t, a).Has(n) && |Prepared(t, a).Get(n)| == t.rows
    ensures var m := Records(t, a).value;
      && t.Get(a.id.value)[i] in m
      && forall n :: n in AttributeNames(a) ==> n in m[t.Get(a.id.value)[i]] && m[t.Get(a.id.value)[i]][n] == Prepared(t, a).Get(n)[i]
  {
    Succeeded(t, a);
    Delivers(t, a);
    SelectedRow(t, a, i);
  }

  /** The successful selection's records have the id column's values as keys, one per row. */
  lemma SelectedKeys(t: Table, a: NodeArgs)
    requires Supported(t, a) && AllFound(t, a) && a.id.Some? && !NodeClash(a)
    ensures var sel := Prepared(t, a).Select([a.id.value] + AttributeNames(a));
      && sel.Some? && sel.value.Rectangular() && |sel.value.columns| >= 1
    ensures t.Has(a.id.value)
    ensures var m := IndexBy(Prepared(t, a).Select([a.id.value] + AttributeNames(a)).value);
      && (forall v :: v in m <==> v in t.Get(a.id.value))
      && |m| == t.rows
      && forall v :: v in m ==> forall n :: n in m[v] <==> n in AttributeNames(a)
  {
    SelectedShape(t, a);
    var keys := [a.id.value] + AttributeNames(a);
    var sel := Prepared(t, a).Select(keys).value;
    var ids := sel.columns[0].cells;
    var m := IndexBy(sel);
    IndexRowsKeys(sel, sel.rows);
    assert ids[..sel.rows] == ids;
    assert m.Keys == (set v | v in ids);
    DistinctCard(ids);
    assert NamesOf(sel.columns[1..]) == AttributeNames(a) by {
      NamesTail(sel.columns);
    }
    forall v | v in m
      ensures forall n :: n in m[v] <==> n in AttributeNames(a)
    {
      var i :| 0 <= i < |ids| && ids[i] == v;
      IndexRowsAt(sel, sel.rows, i);
      RowRecordKeys(sel.columns[1..], i);
    }
  }

  /**
   * One entry per node: the keys are exactly the id column's values, as many
   * as rows, and every record's keys are exactly the requested attributes.
   */
  lemma RecordKeys(t: Table, a: NodeArgs)
    requires Supported(t, a) && Records(t, a).Ok?
    ensures a.id.Some? && t.Has(a.id.value)
    ensures var m := Records(t, a).value;
      && (forall v :: v in m <==> v in t.Get(a.id.value))
      && |m| == t.rows
      && forall v :: v in m ==> forall n :: n in m[v] <==> n in AttributeNames(a)
  {
    Succeeded(t, a);
    Delivers(t, a);
    SelectedKeys(t, a);
  }

  /** Each node's `label` is the string form of its label column's value. */
  lemma LabelField(t: Table, a: NodeArgs)
    requires Supported(t, a) && Records(t, a).Ok? && a.labelColumn.Some?
    ensures a.id.Some? && t.Has(a.id.value) && t.Has(a.labelColumn.value)
    ensures forall i :: 0 <= i < t.rows ==>
      && t.Get(a.id.value)[i] in Records(t, a).value
      && "label" in Records(t, a).value[t.Get(a.id.value)[i]]
      && Records(t, a).value[t.Get(a.id.value)[i]]["label"] == Text(ToStr(t.Get(a.labelColumn.value)[i]))
  {
    Succeeded(t, a);
    Found(t, a);
    PreparedLabel(t, a);
    assert "label" in AttributeNames(a);
    forall i | 0 <= i < t.rows
      ensures && t.Get(a.id.value)[i] in Records(t, a).value
              && "label" in Records(t, a).value[t.Get(a.id.value)[i]]
              && Records(t, a).value[t.Get(a.id.value)[i]]["label"] == Text(ToStr(t.Get(a.labelColumn.value)[i]))
    {
      RowAt(t, a, i);
    }
  }

  /**
   * Each node's `color` is what the map gives its colour column's value
   * (NaN for a value the map lacks); the colour column `label` means the
   * derived string labels when a label column is given.
   */
  lemma ColorField(t: Table, a: NodeArgs)
    requires Supported(t, a) && Records(t, a).Ok? && a.style.Colored()
    ensures a.id.Some? && t.Has(a.id.value) && t.Has(a.style.color.value)
    ensures a.labelColumn.Some? ==> t.Has(a.labelColumn.value)
    ensures |ColorSource(t, a)| == t.rows
    ensures forall i :: 0 <= i < t.rows ==>
      && t.Get(a.id.value)[i] in Records(t, a).value
      && "color" in Records(t, a).value[t.Get(a.id.value)[i]]
      && Records(t, a).value[t.Get(a.id.value)[i]]["color"] == Lookup(a.style.colorMap.value, ColorSource(t, a)[i])
  {
    Succeeded(t, a);
    Found(t, a);
    PreparedColor(t, a);
    assert "color" in AttributeNames(a);
    forall i | 0 <= i < t.rows
      ensures && t.Get(a.id.value)[i] in Records(t, a).value
              && "color" in Records(t, a).value[t.Get(a.id.value)[i]]
              && Records(t, a).value[t.Get(a.id.value)[i]]["color"] == Lookup(a.style.colorMap.value, ColorSource(t, a)[i])
    {
      RowAt(t, a, i);
    }
  }

  /** Each node's `title` is its hover column's value, unchanged. */
  lemma TitleField(t: Table, a: NodeArgs)
    requires Supported(t, a) && Records(t, a).Ok? && a.style.hover.Some?
    ensures a.id.Some? && t.Has(a.id.value) && t.Has(a.style.hover.value)
    ensures forall i :: 0 <= i < t.rows ==>
      && t.Get(a.id.value)[i] in Records(t, a).value
      && "title" in Records(t, a).value[t.Get(a.id.value)[i]]
      && Records(t, a).value[t.Get(a.id.value)[i]]["title"] == t.Get(a.style.hover.value)[i]
  {
    Succeeded(t, a);
    Found(t, a);
    PreparedTitle(t, a);
    assert "title" in AttributeNames(a);
    forall i | 0 <= i < t.rows
      ensures && t.Get(a.id.value)[i] in Records(t, a).value
              && "title" in Records(t, a).value[t.Get(a.id.value)[i]]
              && Records(t, a).value[t.Get(a.id.value)[i]]["title"] == t.Get(a.style.hover.value)[i]
    {
      RowAt(t, a, i);
    }
  }

  /** With only an id, the call succeeds and every node's record is empty. */
  lemma NoOptions(t: Table, a: NodeArgs)
    requires Supported(t, a) && a.id.Some? && t.Has(a.id.value)
    requires a.labelColumn.None? && a.style == Style(None, None, None)
    ensures Records(t, a).Ok?
    ensures forall v :: v in Records(t, a).value <==> v in t.Get(a.id.value)
    ensures forall v :: v in Records(t, a).value ==> Records(t, a).value[v] == map[]
  {
    assert AllFound(t, a);
    SelectionCheck(t, a);
    RecordKeys(t, a);
  }
}
