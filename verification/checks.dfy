/**
 * The argument checks that `transform_edges` and `transform_nodes` share:
 * every column the caller names must exist, and `color` and `color_map`
 * must come together.
 */
module Checks {
  import opened Wrappers
  import opened Frames

  /** The exceptions a transformation raises. */
  datatype Error =
    | ColumnNotFound(column: string)  // the failed assertion 'Column "..." not found'
    | ColorWithoutMap                 // TypeError: `color` passed without `color_map`
    | MapWithoutColor                 // TypeError: `color_map` passed without `color`
    | KeyNotFound                     // pandas' KeyError from the final column selection

  /** The first of `names`, in the order they are checked, that is not a column of `t`. */
  function FirstMissing(t: Table, names: seq<string>): (r: Option<string>)
    ensures r.None? <==> forall n :: n in names ==> t.Has(n)
    ensures r.Some? ==> r.value in names && !t.Has(r.value)
  {
    if names == [] then None
    else if !t.Has(names[0]) then Some(names[0])
    else FirstMissing(t, names[1..])
  }

  /** The check stops at the first absent name: every name before it is present. */
  lemma {:induction false} FirstMissingAt(t: Table, names: seq<string>, k: nat)
    requires k < |names| && !t.Has(names[k])
    requires forall j :: 0 <= j < k ==> t.Has(names[j])
    ensures FirstMissing(t, names) == Some(names[k])
  {
    if k > 0 {
      assert t.Has(names[0]);
      FirstMissingAt(t, names[1..], k - 1);
    }
  }

  /** The loop `for col in cols_usr: assert col in df.columns`, stopping at the first failure. */
  method FindMissing(t: Table, names: seq<string>) returns (r: Option<string>)
    ensures r == FirstMissing(t, names)
  {
    for i := 0 to |names|
      invariant forall j :: 0 <= j < i ==> t.Has(names[j])
    {
      if !t.Has(names[i]) {
        FirstMissingAt(t, names, i);
        return Some(names[i]);
      }
    }
    return None;
  }

  /**
   * The styling arguments both transformations take: the column to colour
   * by and its dictionary, and the column shown on hover.
   */
  datatype Style = Style(color: Option<string>, colorMap: Option<Palette>, hover: Option<string>) {

    /** Both `color` and `color_map` are given, so a `color` column is derived. */
    predicate Colored()
    {
      color.Some? && colorMap.Some?
    }

    /** The hover column is renamed to `title` under a new name. */
    predicate Moves()
    {
      hover.Some? && hover.value != "title"
    }

    /** The TypeError raised when exactly one of `color` and `color_map` is given. */
    function PairingError(): Option<Error>
    {
      if color.Some? && colorMap.None? then Some(ColorWithoutMap)
      else if color.None? && colorMap.Some? then Some(MapWithoutColor)
      else None
    }

    /** The names this style appends to the selected columns. */
    function ColorKeys(): seq<string>
    {
      if Colored() then ["color"] else []
    }

    function TitleKeys(): seq<string>
    {
      if hover.Some? then ["title"] else []
    }
  }

  /** `df['color'] = df[color].map(color_map)`, when both are given. */
  function Painted(t: Table, st: Style): Table
    requires t.Valid() && (st.Colored() ==> t.Has(st.color.value))
  {
    if st.Colored() then t.Assign("color", MapCells(t.Get(st.color.value), st.colorMap.value)) else t
  }

  /** `df.rename(columns={hover: 'title'})`, when hover is given. */
  function Shown(t: Table, st: Style): Table
  {
    if st.hover.Some? then t.Rename(st.hover.value, "title") else t
  }

  lemma PaintedFacts(t: Table, st: Style)
    requires t.Valid() && (st.Colored() ==> t.Has(st.color.value))
    ensures var u := Painted(t, st);
      && u.Valid() && u.rows == t.rows
      && (forall m :: u.Has(m) <==> t.Has(m) || (st.Colored() && m == "color"))
      && (forall m :: t.Has(m) && !(st.Colored() && m == "color") ==> u.Get(m) == t.Get(m))
      && (st.Colored() ==> u.Has("color") && u.Get("color") == MapCells(t.Get(st.color.value), st.colorMap.value))
  {
    if st.Colored() {
      AssignFacts(t, "color", MapCells(t.Get(st.color.value), st.colorMap.value));
    }
  }

  lemma ShownNames(t: Table, st: Style)
    requires t.Rectangular()
    ensures var u := Shown(t, st);
      && u.Rectangular() && u.rows == t.rows
      && (st.hover.None? ==> u == t)
      && (st.hover.Some? ==> forall m :: u.Has(m) <==> (t.Has(m) && m != st.hover.value) || (m == "title" && t.Has(st.hover.value)))
      && (forall c :: c in u.columns && c.name != "title" ==> c in t.columns)
  {
    if st.hover.Some? {
      RenameNames(t, st.hover.value, "title");
    }
  }

  lemma ShownValid(t: Table, st: Style)
    requires t.Valid() && (st.hover.Some? ==> t.Has(st.hover.value)) && (st.Moves() ==> !t.Has("title"))
    ensures var u := Shown(t, st);
      && u.Valid() && u.rows == t.rows
      && (!st.Moves() ==> u == t)
      && (forall m :: t.Has(m) && !(st.Moves() && m == st.hover.value) ==> u.Has(m) && u.Get(m) == t.Get(m))
      && (st.Moves() ==> u.Has("title") && u.Get("title") == t.Get(st.hover.value))
  {
    if st.hover.Some? {
      var h := st.hover.value;
      if h == "title" {
        assert t.Rename(h, h).columns == t.columns;
      } else {
        RenameFacts(t, h, "title");
      }
    }
  }
}
