/** Option and Result, for optional arguments and for the errors a call raises. */
module Wrappers {

  datatype Option<+T> = None | Some(value: T)

  datatype Result<+T, +E> = Ok(value: T) | Err(error: E)

  /** The one-element list of a present name, the empty list of an absent one. */
  function OptList<T>(o: Option<T>): seq<T>
  {
    if o.Some? then [o.value] else []
  }
}

/**
 * The part of a pandas DataFrame that the transformation relies on: an
 * ordered list of named columns, each holding one cell per row. Column names
 * may repeat in a table that results from a selection or a rename; the
 * tables a caller passes in have distinct names (`Valid`).
 */
module Frames {
  import opened Wrappers

  /** A cell. `Missing` stands for pandas' NaN. */
  datatype Value = Missing | Text(s: string) | Int(i: int)

  /** A dictionary from raw cell values to colours. */
  type Palette = map<Value, Value>

  /** Python's `str()` of a cell, as `Series.astype(str)` applies it. */
  function ToStr(v: Value): string
  {
    match v
    case Missing => "nan"
    case Text(s) => s
    case Int(i) => if i < 0 then "-" + Decimal(-i) else Decimal(i)
  }

  function Decimal(n: nat): string
  {
    if n < 10 then ["0123456789"[n]] else Decimal(n / 10) + ["0123456789"[n % 10]]
  }

  /** `Series.map(dict)` on one cell: a key the dictionary lacks gives NaN. */
  function Lookup(palette: Palette, v: Value): Value
  {
    if v in palette then palette[v] else Missing
  }

  /** `Series.map(dict)` on a whole column. */
  function MapCells(cells: seq<Value>, palette: Palette): seq<Value>
  {
    seq(|cells|, i requires 0 <= i < |cells| => Lookup(palette, cells[i]))
  }

  /** `Series.astype(str)`. */
  function StrCells(cells: seq<Value>): seq<Value>
  {
    seq(|cells|, i requires 0 <= i < |cells| => Text(ToStr(cells[i])))
  }

  datatype Column = Column(name: string, cells: seq<Value>)

  function NamesOf(cols: seq<Column>): seq<string>
  {
    seq(|cols|, k requires 0 <= k < |cols| => cols[k].name)
  }

  predicate Distinct<T(==)>(s: seq<T>)
  {
    forall i, j :: 0 <= i < j < |s| ==> s[i] != s[j]
  }

  /** A sequence without repeats has as many distinct elements as entries. */
  lemma {:induction false} DistinctCard<T>(s: seq<T>)
    requires Distinct(s)
    ensures |(set x | x in s)| == |s|
  {
    if s != [] {
      var tail := s[1..];
      forall i, j | 0 <= i < j < |tail|
        ensures tail[i] != tail[j]
      {
        assert tail[i] == s[i + 1] && tail[j] == s[j + 1];
      }
      DistinctCard(tail);
      assert (set x | x in s) == {s[0]} + (set x | x in tail);
      assert s[0] !in (set x | x in tail) by {
        forall k | 0 <= k < |tail|
          ensures tail[k] != s[0]
        {
          assert tail[k] == s[k + 1];
        }
      }
    }
  }

  /** The index of the first column called `name`. */
  function Position(cols: seq<Column>, name: string): (k: nat)
    requires name in NamesOf(cols)
    ensures k < |cols| && cols[k].name == name
    ensures forall j :: 0 <= j < k ==> cols[j].name != name
  {
    if cols[0].name == name then 0
    else
      assert NamesOf(cols) == [cols[0].name] + NamesOf(cols[1..]);
      Position(cols[1..], name) + 1
  }

  /** The columns called `key`, in table order. */
  function Matching(cols: seq<Column>, key: string): seq<Column>
  {
    if cols == [] then []
    else (if cols[0].name == key then [cols[0]] else []) + Matching(cols[1..], key)
  }

  /** `df[keys]`: for each key in turn, every column of that name. */
  function Gather(cols: seq<Column>, keys: seq<string>): seq<Column>
  {
    if keys == [] then [] else Matching(cols, keys[0]) + Gather(cols, keys[1..])
  }

  datatype Table = Table(rows: nat, columns: seq<Column>) {

    /** Every column holds one cell per row. */
    predicate Rectangular()
    {
      forall k :: 0 <= k < |columns| ==> |columns[k].cells| == rows
    }

    predicate Valid()
    {
      Rectangular() && Distinct(Names())
    }

    function Names(): seq<string>
    {
      NamesOf(columns)
    }

    /** `name in df.columns` */
    predicate Has(name: string)
    {
      name in Names()
    }

    /** `df[name]` */
    function Get(name: string): seq<Value>
      requires Has(name)
    {
      columns[Position(columns, name)].cells
    }

    /** `df[name] = cells`: replaces the column in place, or appends it. */
    function Assign(name: string, cells: seq<Value>): Table
    {
      if Has(name) then Table(rows, columns[Position(columns, name) := Column(name, cells)])
      else Table(rows, columns + [Column(name, cells)])
    }

    predicate HasAll(keys: seq<string>)
      ensures HasAll(keys) <==> forall key :: key in keys ==> Has(key)
    {
      keys == [] || (Has(keys[0]) && HasAll(keys[1..]))
    }

    /** `df.rename(columns={from: to})`: every column called `from` is renamed. */
    function Rename(from: string, to: string): Table
    {
      Table(rows, seq(|columns|, k requires 0 <= k < |columns| =>
        if columns[k].name == from then Column(to, columns[k].cells) else columns[k]))
    }

    /** `df[keys]`, or `None` for the KeyError pandas raises on an absent key. */
    function Select(keys: seq<string>): Option<Table>
    {
      if HasAll(keys) then Some(Table(rows, Gather(columns, keys)))
      else None
    }
  }

  /** A column of a table with distinct names is the one `Get` finds. */
  lemma ColumnUnique(t: Table, c: Column)
    requires t.Valid() && c in t.columns
    ensures t.Has(c.name) && t.Get(c.name) == c.cells
  {
    var k :| 0 <= k < |t.columns| && t.columns[k] == c;
    assert t.Names()[k] == c.name;
    var p := Position(t.columns, c.name);
    assert t.Names()[p] == t.Names()[k];
  }

  /** Assigning a column keeps a table valid, sets that column, and leaves every other one. */
  lemma AssignFacts(t: Table, name: string, cells: seq<Value>)
    requires t.Valid() && |cells| == t.rows
    ensures var u := t.Assign(name, cells);
      && u.Valid() && u.rows == t.rows
      && u.Names() == (if t.Has(name) then t.Names() else t.Names() + [name])
      && u.Has(name) && u.Get(name) == cells
      && (forall m :: m != name ==> (u.Has(m) <==> t.Has(m)))
      && (forall m :: m != name && t.Has(m) ==> u.Has(m) && u.Get(m) == t.Get(m))
  {
    var u := t.Assign(name, cells);
    if t.Has(name) {
      var p := Position(t.columns, name);
      assert u.Names() == t.Names()[p := name];
      assert u.Names() == t.Names();
      assert u.columns[p] == Column(name, cells);
    } else {
      assert u.Names() == t.Names() + [name];
      assert u.columns[|t.columns|] == Column(name, cells);
      forall i, j | 0 <= i < j < |u.columns|
        ensures u.Names()[i] != u.Names()[j]
      {
        if j < |t.columns| {
          assert u.Names()[i] == t.Names()[i] && u.Names()[j] == t.Names()[j];
        } else {
          assert u.Names()[i] == t.Names()[i];
        }
      }
    }
    assert Column(name, cells) in u.columns;
    ColumnUnique(u, Column(name, cells));
    forall m | m != name && t.Has(m)
      ensures u.Has(m) && u.Get(m) == t.Get(m)
    {
      var q := Position(t.columns, m);
      var c := t.columns[q];
      assert u.columns[q] == c;
      ColumnUnique(u, c);
    }
  }

  /** Which names a renamed table holds, whether or not its names stay distinct. */
  lemma RenameNames(t: Table, from: string, to: string)
    requires t.Rectangular()
    ensures var u := t.Rename(from, to);
      && u.Rectangular() && u.rows == t.rows
      && (forall m :: u.Has(m) <==> (t.Has(m) && m != from) || (m == to && t.Has(from)))
      && (forall c :: c in u.columns && c.name != to ==> c in t.columns && c.name != from)
  {
    var u := t.Rename(from, to);
    forall m
      ensures u.Has(m) <==> (t.Has(m) && m != from) || (m == to && t.Has(from))
    {
      if t.Has(m) && m != from {
        var k :| 0 <= k < |t.columns| && t.Names()[k] == m;
        assert u.Names()[k] == m;
      }
      if m == to && t.Has(from) {
        var k :| 0 <= k < |t.columns| && t.Names()[k] == from;
        assert u.Names()[k] == m;
      }
      if u.Has(m) {
        var k :| 0 <= k < |u.columns| && u.Names()[k] == m;
        assert t.Names()[k] == t.columns[k].name;
      }
    }
  }

  /** Renaming a present column to a free name moves its cells to the new name. */
  lemma RenameFacts(t: Table, from: string, to: string)
    requires t.Valid() && t.Has(from) && (to == from || !t.Has(to))
    ensures var u := t.Rename(from, to);
      && u.Valid() && u.rows == t.rows
      && u.Has(to) && u.Get(to) == t.Get(from)
      && (forall m :: m != from && m != to && t.Has(m) ==> u.Has(m) && u.Get(m) == t.Get(m))
  {
    var u := t.Rename(from, to);
    RenameNames(t, from, to);
    forall i, j | 0 <= i < j < |u.columns|
      ensures u.Names()[i] != u.Names()[j]
    {
      assert t.Names()[i] != t.Names()[j];
      assert t.Names()[i] in t.Names() && t.Names()[j] in t.Names();
    }
    var p := Position(t.columns, from);
    assert u.columns[p] == Column(to, t.Get(from));
    ColumnUnique(u, u.columns[p]);
    forall m | m != from && m != to && t.Has(m)
      ensures u.Get(m) == t.Get(m)
    {
      var q := Position(t.columns, m);
      assert u.columns[q] == t.columns[q];
      ColumnUnique(u, u.columns[q]);
    }
  }

  lemma NamesTail(cols: seq<Column>)
    requires cols != []
    ensures NamesOf(cols) == [cols[0].name] + NamesOf(cols[1..])
    ensures Distinct(NamesOf(cols)) ==> Distinct(NamesOf(cols[1..])) && cols[0].name !in NamesOf(cols[1..])
  {
    var tail := NamesOf(cols[1..]);
    assert NamesOf(cols) == [cols[0].name] + tail;
    if Distinct(NamesOf(cols)) {
      forall i, j | 0 <= i < j < |tail|
        ensures tail[i] != tail[j]
      {
        assert NamesOf(cols)[i + 1] != NamesOf(cols)[j + 1];
      }
      forall k | 0 <= k < |tail|
        ensures tail[k] != cols[0].name
      {
        assert NamesOf(cols)[0] != NamesOf(cols)[k + 1];
      }
    }
  }

  lemma {:induction false} MatchingUnique(cols: seq<Column>, key: string)
    requires Distinct(NamesOf(cols)) && key in NamesOf(cols)
    ensures Matching(cols, key) == [cols[Position(cols, key)]]
  {
    NamesTail(cols);
    if cols[0].name == key {
      MatchingAbsent(cols[1..], key);
    } else {
      MatchingUnique(cols[1..], key);
    }
  }

  lemma {:induction false} MatchingAbsent(cols: seq<Column>, key: string)
    requires key !in NamesOf(cols)
    ensures Matching(cols, key) == []
  {
    if cols != [] {
      NamesTail(cols);
      MatchingAbsent(cols[1..], key);
    }
  }

  lemma {:induction false} MatchingSub(cols: seq<Column>, key: string)
    ensures forall c :: c in Matching(cols, key) ==> c in cols && c.name == key
  {
    if cols != [] {
      MatchingSub(cols[1..], key);
    }
  }

  lemma {:induction false} GatherSub(cols: seq<Column>, keys: seq<string>)
    ensures forall c :: c in Gather(cols, keys) ==> c in cols && c.name in keys
  {
    if keys != [] {
      MatchingSub(cols, keys[0]);
      GatherSub(cols, keys[1..]);
    }
  }

  lemma {:induction false} GatherUnique(t: Table, keys: seq<string>)
    requires t.Valid() && forall key :: key in keys ==> t.Has(key)
    ensures Gather(t.columns, keys)
         == seq(|keys|, i requires 0 <= i < |keys| => Column(keys[i], t.Get(keys[i])))
  {
    if keys != [] {
      assert keys[0] in keys;
      MatchingUnique(t.columns, keys[0]);
      GatherUnique(t, keys[1..]);
    }
  }

  /** Selecting present keys from a table with distinct names gives one column per key. */
  lemma SelectFacts(t: Table, keys: seq<string>)
    requires t.Valid() && forall key :: key in keys ==> t.Has(key)
    ensures t.Select(keys).Some?
    ensures var s := t.Select(keys).value;
      && s.rows == t.rows && s.Rectangular()
      && s.Names() == keys
      && |s.columns| == |keys|
      && forall i :: 0 <= i < |keys| ==> s.columns[i] == Column(keys[i], t.Get(keys[i]))
  {
    GatherUnique(t, keys);
    var s := t.Select(keys).value;
    assert s.Names() == keys;
  }

  lemma NamesAppend(xs: seq<Column>, ys: seq<Column>)
    ensures NamesOf(xs + ys) == NamesOf(xs) + NamesOf(ys)
  {
  }

  /** A present key has at least one matching column. */
  lemma {:induction false} MatchingCovers(cols: seq<Column>, key: string)
    requires key in NamesOf(cols)
    ensures key in NamesOf(Matching(cols, key))
  {
    NamesTail(cols);
    if cols[0].name == key {
      assert NamesOf(Matching(cols, key))[0] == key;
    } else {
      MatchingCovers(cols[1..], key);
      assert Matching(cols, key) == Matching(cols[1..], key);
    }
  }

  /** Every selected key present among the columns names a gathered column. */
  lemma {:induction false} GatherCovers(cols: seq<Column>, keys: seq<string>)
    ensures forall key :: key in keys && key in NamesOf(cols) ==> key in NamesOf(Gather(cols, keys))
  {
    if keys != [] {
      if keys[0] in NamesOf(cols) {
        MatchingCovers(cols, keys[0]);
      }
      GatherCovers(cols, keys[1..]);
      NamesAppend(Matching(cols, keys[0]), Gather(cols, keys[1..]));
    }
  }

  /**
   * A selection succeeds exactly when every key is present; whatever it returns
   * comes from the table, bears a selected name, and every key is among its names.
   */
  lemma SelectSub(t: Table, keys: seq<string>)
    ensures t.Select(keys).Some? <==> forall key :: key in keys ==> t.Has(key)
    ensures t.Select(keys).Some? ==> var s := t.Select(keys).value;
      && s.rows == t.rows
      && (forall c :: c in s.columns ==> c in t.columns && c.name in keys)
      && (forall key :: key in keys ==> s.Has(key))
  {
    GatherSub(t.columns, keys);
    GatherCovers(t.columns, keys);
  }

  /**
   * A pandas DataFrame object: a caller's table that an assignment
   * `df[name] = ...` changes in place.
   */
  class Frame {
    var rows: nat
    var columns: seq<Column>

    function Value(): Table
      reads this
    {
      Table(rows, columns)
    }

    /** A DataFrame object holding the given table. */
    constructor (t: Table)
      ensures Value() == t
    {
      rows := t.rows;
      columns := t.columns;
    }

    /** `df[name] = cells` */
    method Assign(name: string, cells: seq<Value>)
      modifies this
      ensures Value() == old(Value()).Assign(name, cells)
    {
      if Value().Has(name) {
        columns := columns[Position(columns, name) := Column(name, cells)];
      } else {
        columns := columns + [Column(name, cells)];
      }
    }
  }
}
