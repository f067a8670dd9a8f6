/**
 * `transform_edges`: checks the column names a caller passes, derives a
 * `color` column by dictionary lookup (in the caller's own table), renames
 * the hover column to `title`, and returns the columns
 * `[source, target] (+ color) (+ title)`.
 */
module Edges {
  import opened Wrappers
  import opened Frames
  import opened Checks

  datatype EdgeArgs = EdgeArgs(source: string, target: string, style: Style)

  /** What a call returns, and what the caller's table holds after it. */
  datatype Outcome = Outcome(result: Result<Table, Error>, caller: Table)

  /** The names checked against the table, in order (the `None`s dropped). */
  function Requested(a: EdgeArgs): seq<string>
  {
    [a.source, a.target] + OptList(a.style.color) + OptList(a.style.hover)
  }

  /** The column names the call selects: `cols` at the end of the call. */
  function OutputNames(a: EdgeArgs): seq<string>
  {
    [a.source, a.target] + a.style.ColorKeys() + a.style.TitleKeys()
  }


  /** Every name the caller passes is a column of the table. */
  predicate AllFound(t: Table, a: EdgeArgs)
  {
    forall n :: n in Requested(a) ==> t.Has(n)
  }

  lemma Found(t: Table, a: EdgeArgs)
    requires AllFound(t, a)
    ensures t.Has(a.source) && t.Has(a.target)
    ensures a.style.color.Some? ==> t.Has(a.style.color.value)
    ensures a.style.hover.Some? ==> t.Has(a.style.hover.value)
  {
    assert a.source in Requested(a) && a.target in Requested(a);
    assert a.style.color.Some? ==> a.style.color.value in Requested(a);
    assert a.style.hover.Some? ==> a.style.hover.value in Requested(a);
  }

  /** The whole call, as a value: the result and the caller's table afterwards. */
  function Transform(t: Table, a: EdgeArgs): Outcome
    requires t.Valid()
  {
    match FirstMissing(t, Requested(a))
    case Some(c) => Outcome(Err(ColumnNotFound(c)), t)
    case None =>
      match a.style.PairingError()
      case Some(e) => Outcome(Err(e), t)
      case None =>
        assert a.style.color.Some? ==> a.style.color.value in Requested(a);
        var after := Painted(t, a.style);
        match Shown(after, a.style).Select(OutputNames(a))
        case Some(s) => Outcome(Ok(s), after)
        case None => Outcome(Err(KeyNotFound), after)
  }

  /** `transform_edges(edges_df, ...)` on a caller's DataFrame object. */
  method TransformEdges(edges: Frame, a: EdgeArgs) returns (r: Result<Table, Error>)
    requires edges.Value().Valid()
    modifies edges
    ensures Outcome(r, edges.Value()) == Transform(old(edges.Value()), a)
  {
    var t := edges.Value();
    var st := a.style;
    var requested := Requested(a);
    var missing := FindMissing(t, requested);
    if missing.Some? {
      return Err(ColumnNotFound(missing.value));
    }
    var cols := [a.source, a.target];
    if st.color.Some? && st.colorMap.Some? {
      assert st.color.value in requested;
      edges.Assign("color", MapCells(t.Get(st.color.value), st.colorMap.value));
      cols := cols + ["color"];
    } else if st.color.Some? && st.colorMap.None? {
      return Err(ColorWithoutMap);
    } else if st.color.None? && st.colorMap.Some? {
      return Err(MapWithoutColor);
    }
    assert edges.Value() == Painted(t, st);
    var shown := edges.Value();
    if st.hover.Some? {
      shown := shown.Rename(st.hover.value, "title");
      cols := cols + ["title"];
    }
    assert cols == OutputNames(a) && shown == Shown(Painted(t, st), st);
    Proceeds(t, a);
    var selected := shown.Select(cols);
    if selected.None? {
      return Err(KeyNotFound);
    }
    return Ok(selected.value);
  }

  /** A name the caller passes that is not a column is reported, and the table is left alone. */
  lemma ColumnCheck(t: Table, a: EdgeArgs)
    requires t.Valid()
    ensures var o := Transform(t, a);
      && ((o.result.Err? && o.result.error.ColumnNotFound?) <==> !AllFound(t, a))
      && (o.result.Err? && o.result.error.ColumnNotFound? ==>
            o.result.error.column in Requested(a) && !t.Has(o.result.error.column) && o.caller == t)
  {
    if AllFound(t, a) {
      Found(t, a);
    }
  }

  /**
   * The names are checked in the order source, target, color, hover, and the
   * first absent one is reported, whatever `color_map` holds.
   */
  lemma FirstMissingReported(t: Table, a: EdgeArgs, k: nat)
    requires t.Valid() && k < |Requested(a)| && !t.Has(Requested(a)[k])
    requires forall j :: 0 <= j < k ==> t.Has(Requested(a)[j])
    ensures Transform(t, a) == Outcome(Err(ColumnNotFound(Requested(a)[k])), t)
  {
    FirstMissingAt(t, Requested(a), k);
  }

  /** Once the names are found, exactly one of `color` and `color_map` is a TypeError. */
  lemma PairingCheck(t: Table, a: EdgeArgs)
    requires t.Valid() && AllFound(t, a)
    ensures var o := Transform(t, a); var st := a.style;
      && (o.result == Err(ColorWithoutMap) <==> st.color.Some? && st.colorMap.None?)
      && (o.result == Err(MapWithoutColor) <==> st.color.None? && st.colorMap.Some?)
      && (st.color.Some? != st.colorMap.Some? ==> o.caller == t)
  {
    Found(t, a);
  }

  /**
   * The hover column is renamed before the selection, so the selection fails
   * exactly when the hover column is also one of the other selected columns.
   */
  predicate HoverClash(a: EdgeArgs)
  {
    var st := a.style;
    && st.Moves()
    && (st.hover.value == a.source || st.hover.value == a.target || (st.Colored() && st.hover.value == "color"))
  }

  /** No second column may end up called `title` (pandas would then keep both). */
  predicate TitleFree(t: Table, a: EdgeArgs)
  {
    a.style.Moves() ==> !t.Has("title")
  }

  /** A call that passes the checks paints the caller's table and selects from the renamed copy. */
  lemma Proceeds(t: Table, a: EdgeArgs)
    requires t.Valid() && AllFound(t, a) && a.style.PairingError().None?
    ensures a.style.Colored() ==> t.Has(a.style.color.value)
    ensures var shown := Shown(Painted(t, a.style), a.style);
      Transform(t, a) == Outcome(
        if shown.Select(OutputNames(a)).Some? then Ok(shown.Select(OutputNames(a)).value) else Err(KeyNotFound),
        Painted(t, a.style))
  {
    Found(t, a);
  }

  /** A table holds every selected name exactly when it holds each of them. */
  lemma OutputNamesPresent(u: Table, a: EdgeArgs)
    ensures u.HasAll(OutputNames(a)) <==>
      && u.Has(a.source) && u.Has(a.target)
      && (a.style.Colored() ==> u.Has("color"))
      && (a.style.hover.Some? ==> u.Has("title"))
  {
    var keys := OutputNames(a);
    assert a.source in keys && a.target in keys;
    assert a.style.Colored() ==> "color" in keys;
    assert a.style.hover.Some? ==> "title" in keys;
    assert forall key :: key in keys ==>
      || key == a.source || key == a.target
      || (a.style.Colored() && key == "color") || (a.style.hover.Some? && key == "title");
  }

  lemma ShownCovers(t: Table, a: EdgeArgs)
    requires t.Valid() && AllFound(t, a)
    ensures a.style.Colored() ==> t.Has(a.style.color.value)
    ensures Shown(Painted(t, a.style), a.style).HasAll(OutputNames(a)) <==> !HoverClash(a)
  {
    Found(t, a);
    var st := a.style;
    var after := Painted(t, st);
    var shown := Shown(after, st);
    assert && after.Has(a.source) && after.Has(a.target) && (st.Colored() ==> after.Has("color"))
           && (st.hover.Some? ==> after.Has(st.hover.value)) by {
      PaintedFacts(t, st);
    }
    OutputNamesPresent(shown, a);
    if st.hover.Some? {
      RenameNames(after, st.hover.value, "title");
    }
  }

  /** When the checks pass, the call fails only on a hover clash, with a KeyError. */
  lemma SelectionCheck(t: Table, a: EdgeArgs)
    requires t.Valid() && AllFound(t, a) && a.style.PairingError().None?
    ensures var o := Transform(t, a);
      && (o.result.Ok? <==> !HoverClash(a))
      && (o.result.Err? ==> o.result.error == KeyNotFound)
  {
    Proceeds(t, a);
    ShownCovers(t, a);
  }

  /** With no styling options the call returns the source and target columns unchanged. */
  lemma NoOptions(t: Table, a: EdgeArgs)
    requires t.Valid() && t.Has(a.source) && t.Has(a.target)
    requires a.style == Style(None, None, None)
    ensures Transform(t, a)
         == Outcome(Ok(Table(t.rows, [Column(a.source, t.Get(a.source)), Column(a.target, t.Get(a.target))])), t)
  {
    assert AllFound(t, a);
    Proceeds(t, a);
    SelectFacts(t, OutputNames(a));
    assert t.Select(OutputNames(a)).value.columns
        == [Column(a.source, t.Get(a.source)), Column(a.target, t.Get(a.target))];
  }

  /** A successful call passed every check. */
  lemma Succeeded(t: Table, a: EdgeArgs)
    requires t.Valid() && Transform(t, a).result.Ok?
    ensures AllFound(t, a) && a.style.PairingError().None? && !HoverClash(a)
  {
    SelectionCheck(t, a);
  }

  /** What the selection returns from the renamed table when no column clashes. */
  lemma SelectedColumns(t: Table, a: EdgeArgs)
    requires t.Valid() && AllFound(t, a) && TitleFree(t, a) && !HoverClash(a)
    ensures a.style.Colored() ==> t.Has(a.style.color.value)
    ensures var after := Painted(t, a.style); var sel := Shown(after, a.style).Select(OutputNames(a));
      && sel.Some?
      && sel.value.Names() == OutputNames(a)
      && sel.value.rows == t.rows && sel.value.Rectangular()
      && after.Has(a.source) && after.Has(a.target)
      && sel.value.columns[0] == Column(a.source, after.Get(a.source))
      && sel.value.columns[1] == Column(a.target, after.Get(a.target))
  {
    Found(t, a);
    var st := a.style;
    var after := Painted(t, st);
    var shown := Shown(after, st);
    var keys := OutputNames(a);
    PaintedFacts(t, st);
    ShownValid(after, st);
    assert forall key :: key in keys ==> shown.Has(key) by {
      ShownCovers(t, a);
    }
    SelectFacts(shown, keys);
    assert keys[0] == a.source && keys[1] == a.target;
  }

  /**
   * The result holds exactly the columns `[source, target] (+ color) (+ title)`,
   * one per name and one cell per row, the first two as the caller's table holds them.
   */
  lemma OutputColumns(t: Table, a: EdgeArgs)
    requires t.Valid() && TitleFree(t, a) && Transform(t, a).result.Ok?
    ensures var o := Transform(t, a); var r := o.result.value;
      && r.Names() == OutputNames(a)
      && r.rows == t.rows && r.Rectangular()
      && o.caller.Has(a.source) && o.caller.Has(a.target)
      && r.columns[0] == Column(a.source, o.caller.Get(a.source))
      && r.columns[1] == Column(a.target, o.caller.Get(a.target))
  {
    Succeeded(t, a);
    Proceeds(t, a);
    SelectedColumns(t, a);
  }

  /**
   * Every `color` column of the result holds, row by row, the colour the map
   * gives the row's value in the `color` column; a value the map lacks gives NaN.
   */
  lemma ColorColumn(t: Table, a: EdgeArgs)
    requires t.Valid() && a.style.Colored() && Transform(t, a).result.Ok?
    ensures t.Has(a.style.color.value)
    ensures "color" in Transform(t, a).result.value.Names()
    ensures forall c :: c in Transform(t, a).result.value.columns && c.name == "color" ==>
      && |c.cells| == t.rows
      && forall i :: 0 <= i < t.rows ==>
           c.cells[i] == Lookup(a.style.colorMap.value, t.Get(a.style.color.value)[i])
  {
    var st := a.style;
    Succeeded(t, a);
    Proceeds(t, a);
    PaintedFacts(t, st);
    var after := Painted(t, st);
    var shown := Shown(after, st);
    ShownNames(after, st);
    var r := Transform(t, a).result.value;
    SelectSub(shown, OutputNames(a));
    assert "color" in OutputNames(a);
    forall c | c in r.columns && c.name == "color"
      ensures c.cells == after.Get("color")
    {
      assert c in after.columns;
      ColumnUnique(after, c);
    }
  }

  /** Every `title` column of the result holds the hover column's cells, row by row. */
  lemma HoverColumn(t: Table, a: EdgeArgs)
    requires t.Valid() && a.style.hover.Some? && TitleFree(t, a) && Transform(t, a).result.Ok?
    ensures t.Has(a.style.hover.value)
    ensures "title" in Transform(t, a).result.value.Names()
    ensures forall c :: c in Transform(t, a).result.value.columns && c.name == "title" ==>
      c.cells == t.Get(a.style.hover.value)
  {
    var st := a.style;
    var h := st.hover.value;
    Succeeded(t, a);
    Found(t, a);
    OutputColumns(t, a);
    Proceeds(t, a);
    PaintedFacts(t, st);
    var after := Painted(t, st);
    ShownValid(after, st);
    var shown := Shown(after, st);
    var r := Transform(t, a).result.value;
    SelectSub(shown, OutputNames(a));
    assert OutputNames(a)[|OutputNames(a)| - 1] == "title";
    assert after.Get(h) == t.Get(h);
    forall c | c in r.columns && c.name == "title"
      ensures c.cells == t.Get(h)
    {
      ColumnUnique(shown, c);
    }
  }

  /**
   * The caller's table changes only when the call derives a colour column:
   * then `color` holds the looked-up colours and every other column is as it was.
   */
  lemma CallerTable(t: Table, a: EdgeArgs)
    requires t.Valid()
    ensures var o := Transform(t, a); var st := a.style;
      && (!(st.Colored() && AllFound(t, a)) ==> o.caller == t)
      && (st.Colored() && AllFound(t, a) ==>
            && t.Has(st.color.value)
            && o.caller.Valid() && o.caller.rows == t.rows
            && o.caller.Names() == (if t.Has("color") then t.Names() else t.Names() + ["color"])
            && o.caller.Has("color") && |o.caller.Get("color")| == t.rows
            && (forall i :: 0 <= i < t.rows ==>
                  o.caller.Get("color")[i] == Lookup(st.colorMap.value, t.Get(st.color.value)[i]))
            && (forall m :: m != "color" && t.Has(m) ==> o.caller.Has(m) && o.caller.Get(m) == t.Get(m)))
  {
    var st := a.style;
    if st.Colored() && AllFound(t, a) {
      Proceeds(t, a);
      AssignFacts(t, "color", MapCells(t.Get(st.color.value), st.colorMap.value));
    } else if st.Colored() {
      assert FirstMissing(t, Requested(a)).Some?;
    }
  }
}
