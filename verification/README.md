# pyvis-multigraph, modelled in Dafny

pyvis-multigraph turns a graph held in two pandas tables into a networkx graph
whose attribute names are the ones pyvis displays: `color`, `label` and `title`.
This project models the table-shaping layer of `code/main.py` and proves what
it does:

- `transform_edges` checks the column names the caller passes. It requires
  `color` and `color_map` to come together, and derives a `color` column by
  dictionary lookup in the caller's own table. It then renames the hover column
  to `title` and returns the columns `[source, target] (+ color) (+ title)`.
- `transform_nodes` makes the same checks. On a deep copy of the node table it
  adds a string `label` column, derives `color` and renames the hover column to
  `title`. It returns one attribute record per node id.
- `nx_from_pandas` builds the edge attribute list from the transformed edge
  table. The model stops at the arguments `nx_from_pandas` passes to networkx.

Files:

- `frames.dfy` defines the DataFrame model. `Frames.Table` is an ordered list
  of named columns with one cell per row. `Frames.Frame` is a DataFrame object
  that `df[name] = ...` changes in place.
- `checks.dfy` holds what both transformations share: the column check, the
  colour/colour-map pairing, and the colour and hover steps (`Checks.Style`).
- `edges.dfy` models `transform_edges`. `Edges.TransformEdges` is proved
  against the pure `Edges.Transform`.
- `nodes.dfy` models `transform_nodes`. `Nodes.TransformNodes` is proved
  against the pure `Nodes.Records`.
- `graph.dfy` models `nx_from_pandas` up to its networkx calls:
  `Graph.NxFromPandas` is proved against `Graph.Build`.

Errors are values of `Checks.Error`:

- `ColumnNotFound(name)` is the failed `assert` on a missing column.
- `ColorWithoutMap` and `MapWithoutColor` are the two `TypeError`s.
- `KeyNotFound` is pandas' `KeyError` from the final `df[cols]`. It happens
  when the hover column is also a selected column, so the rename takes it
  away, or when `transform_nodes` is given no id.

Two consequences of the code are worth stating, since they decide what
reaches the graph:

- `nx_from_pandas` excludes only columns literally named `src` or `dst`
  from the edge attributes (code/main.py:249-251). So a source column called
  `from` is itself an edge attribute (`Graph.EndpointsAreAttributes`).
- `transform_edges` keeps only `[source, target] (+ color) (+ title)`
  (code/main.py:61-86). So a further column such as `weight` never reaches the
  graph. With no options and columns named `src`/`dst`, `edge_attr` is `None`
  (`Edges.NoOptions`, `Graph.OutputAttrs`).

## Model

| member | source | states |
|---|---|---|
| Checks.FirstMissing | code/main.py:53-58 | `None` exactly when every requested name is a column. Otherwise the name reported is one of the requested names and is not a column. |
| Checks.FirstMissingAt | code/main.py:57-58 | The check reports the first missing name in the order the names are given. |
| Checks.FindMissing | code/main.py:57-58 | The validation loop returns exactly what `FirstMissing` specifies. |
| Checks.PaintedFacts | code/main.py:68 | Deriving `color` gives a valid table with the same rows. `color` is added or replaced and holds the dictionary lookup of the colour column. Every other column is unchanged. |
| Checks.ShownNames | code/main.py:82 | After the rename the table has the hover column's name replaced by `title` and no other name changed. Every column not called `title` was already a column. |
| Checks.ShownValid | code/main.py:82 | When no other `title` exists, the renamed table is valid. `title` holds the hover column's cells and every other column keeps its cells. With hover `title` or no hover, nothing changes. |
| Frames.ToStr | code/main.py:135 | Python's `str()` of a cell: NaN gives `"nan"`, a string is itself, an integer is its decimal digits with a leading `-` when negative. |
| Frames.StrCells | code/main.py:135 | `astype(str)`: each cell becomes the string `ToStr` gives it, row by row. |
| Frames.Lookup | code/main.py:68 | `Series.map(dict)` on one cell: the dictionary's value for the cell, or NaN when the dictionary lacks it. |
| Frames.MapCells | code/main.py:68 | `Series.map(dict)` on a column: `Lookup` applied cell by cell, keeping the length. |
| Frames.Table.Assign | code/main.py:68 | `df[name] = cells`: an existing column of that name is replaced in place, otherwise the column is appended at the end. |
| Frames.Table.Rename | code/main.py:82 | `df.rename(columns={from: to})`: every column called `from` is renamed to `to`, in place in the column order; an absent `from` changes nothing. |
| Frames.Table.Select | code/main.py:86 | `df[keys]`: `None` (the KeyError) when a key is absent, otherwise for each key in turn every column of that name. |
| Frames.AssignFacts | code/main.py:68 | `df[name] = cells` keeps distinct names, appends a new name at the end, and stores the cells under the name. Every other column keeps its cells. |
| Frames.RenameFacts | code/main.py:82 | Renaming a present column to a free name keeps names distinct and moves the cells to the new name. Every other column is unchanged. |
| Frames.SelectFacts | code/main.py:86 | `df[keys]` over present keys returns exactly the keys as column names, in order, each with its cells. |
| Frames.SelectSub | code/main.py:86 | `df[keys]` succeeds exactly when every key is present. Every column returned is a column of the table bearing a selected name, and every key names a returned column. |
| Frames.Frame.Assign | code/main.py:68 | The caller's DataFrame object afterwards holds the table with the column assigned. |
| Edges.Transform | code/main.py:25-86 | The whole call as a value: the column check first, then the colour pairing, then `color` derived in the caller's table, the hover column renamed on a copy, and the selection. Returns the result and the caller's table afterwards. |
| Edges.TransformEdges | code/main.py:25-86 | The result and the caller's table afterwards are those of `Edges.Transform` on the table as it was. |
| Edges.ColumnCheck | code/main.py:53-58 | The call fails with `ColumnNotFound` exactly when a passed name is not a column. The name reported is a passed one that is missing, and the caller's table is left alone. |
| Edges.FirstMissingReported | code/main.py:53-58 | Names are checked in the order source, target, color, hover, before the colour pairing. The first missing one is reported. |
| Edges.PairingCheck | code/main.py:64-77 | Once the names are found, `color` without `color_map` and `color_map` without `color` are each the matching TypeError. Both or neither is not. The caller's table is untouched on these errors. |
| Edges.ShownCovers | code/main.py:80-86 | The renamed table holds every selected name exactly when the hover column is not also source, target or the derived `color`. |
| Edges.SelectionCheck | code/main.py:80-86 | Past the checks, the call succeeds exactly when there is no hover clash, and otherwise raises a KeyError. |
| Edges.Succeeded | code/main.py:53-86 | A successful call found every name, had a consistent colour pair and had no hover clash. |
| Edges.NoOptions | code/main.py:60-86 | With no colour and no hover, the result is the source and target columns with their cells unchanged. The caller's table is unchanged. |
| Edges.OutputColumns | code/main.py:61-86 | The result's columns are exactly `[source, target] (+ color) (+ title)` in that order, one cell per row. Source and target hold the caller's cells. |
| Edges.ColorColumn | code/main.py:68 | The result has a `color` column. Row by row, it holds `color_map[row[color]]`, or NaN for a key the map lacks. |
| Edges.HoverColumn | code/main.py:82 | The result has a `title` column holding the hover column's cells row by row. |
| Edges.CallerTable | code/main.py:68 | The caller's table changes only when the colour pair is given and every name is found. Then it gains or overwrites `color` with the looked-up colours, and every other column is unchanged. |
| Nodes.Labelled | code/main.py:133-136 | The copy with a `label` column holding the string form of the label column, when a label column is given. |
| Nodes.ColorSource | code/main.py:143 | The column the colours are looked up from: `temp[color]` is read after line 135. So when `color` is `label` and a label column is given, it is the already-overwritten string `label` column. Otherwise it is the caller's colour column. |
| Nodes.RowRecord | code/main.py:163-164 | One row of the selection without the id column, as a record from column name to that row's cell. |
| Nodes.IndexBy | code/main.py:163-164 | `set_index(id).to_dict(orient='index')`: each row's id value maps to that row's record. |
| Nodes.Records | code/main.py:90-165 | The whole call as a value: the column check, the colour pairing, `KeyNotFound` without an id, then the prepared copy selected by `[id] + attributes` (a KeyError when that fails), indexed by id. |
| Nodes.TransformNodes | code/main.py:90-165 | The result is `Nodes.Records` of the caller's table. The method has no `modifies` clause, so the caller's table is left unchanged. |
| Nodes.ColumnCheck | code/main.py:119-124 | The call fails with `ColumnNotFound` exactly when a passed name is not a column. The name reported is a passed one that is missing. |
| Nodes.FirstMissingReported | code/main.py:119-124 | Names are checked in the order id, label, color, hover, before anything else. The first missing one is reported. |
| Nodes.PairingCheck | code/main.py:139-152 | Once the names are found, exactly one of `color` and `color_map` is the matching TypeError. Both or neither is not. |
| Nodes.LabelledFacts | code/main.py:135 | The `label` column holds the string form of the label column. Every other column is unchanged. |
| Nodes.PreparedHas | code/main.py:127-158 | The copy holds the original names plus `label` and `color` when derived, with the renamed hover column replaced by `title`. |
| Nodes.PreparedKeeps | code/main.py:127-158 | A column neither derived nor renamed keeps its cells in the copy. |
| Nodes.PreparedLabel | code/main.py:133-136 | Unless renamed away, the copy's `label` is the string form of the label column. |
| Nodes.PreparedColor | code/main.py:139-144 | Unless renamed away, the copy's `color` is the lookup of the colour column. If that column is `label` and a label is derived, the lookup uses the derived strings. |
| Nodes.PreparedTitle | code/main.py:155-158 | The copy's `title` holds the hover column's cells. |
| Nodes.PreparedCovers | code/main.py:161-165 | The selection `[id] + attributes` succeeds exactly when the hover column is not the id, nor a derived `label` or `color`. |
| Nodes.SelectionCheck | code/main.py:155-165 | Past the checks, the call succeeds exactly when an id is given and there is no hover clash, and otherwise raises a KeyError. |
| Nodes.Succeeded | code/main.py:119-165 | A successful call found every name, had a consistent colour pair, had an id and had no hover clash. |
| Nodes.RowRecordKeys | code/main.py:161-165 | A row's record has exactly the selected column names, other than the id, as keys. |
| Nodes.RowRecordAt | code/main.py:161-165 | With distinct names, a row's record holds each column's cell of that row. |
| Nodes.IndexRowsKeys | code/main.py:163-164 | The indexed map's keys are exactly the id column's values. |
| Nodes.IndexRowsAt | code/main.py:163-164 | With distinct ids, each row's id maps to that row's record. |
| Nodes.RecordKeys | code/main.py:161-165 | One entry per node: the keys are exactly the id column's values, as many as rows. Every record's keys are exactly the requested subset of `label`, `color`, `title`. |
| Nodes.RowAt | code/main.py:161-165 | Each row's record holds, under each attribute name, that row's cell of the prepared copy. |
| Nodes.LabelField | code/main.py:135 | Each node's `label` is the string form of its label column's value. |
| Nodes.ColorField | code/main.py:143 | Each node's `color` is the map's colour for its colour column's value, or NaN for a value the map lacks. |
| Nodes.TitleField | code/main.py:157 | Each node's `title` is its hover column's value, unchanged. |
| Nodes.NoOptions | code/main.py:130-165 | With only an id, the call succeeds with one entry per id value, each record empty. |
| Graph.Kept | code/main.py:249-251 | The list comprehension: the names, in order, that are not `src` or `dst`. |
| Graph.EdgeAttrs | code/main.py:252 | The kept names, or `None` when none is kept. |
| Graph.Build | code/main.py:227-252 | The whole call up to networkx as a value: the edge transformation's error, or else the node transformation's error when nodes are given, or else the transformed edges, the endpoint names, `edge_attr` of the transformed columns and the node records. |
| Graph.KeptMembers | code/main.py:249-251 | A name is kept exactly when it is one of the columns and is not `src` or `dst`. |
| Graph.KeptAppend | code/main.py:249-251 | The filter keeps column order: filtering a concatenation gives the concatenation of the filtered parts. |
| Graph.KeptAll | code/main.py:249-251 | Names none of which is `src` or `dst` are all kept, in order. |
| Graph.EdgeAttrsNone | code/main.py:249-252 | `edge_attr` is `None` exactly when every column is `src` or `dst`. Otherwise it holds exactly the other names. |
| Graph.KeptOrder | code/main.py:249-251 | Over the transformed edge columns the filter only drops `src`/`dst` among source and target. `color` and `title` stay, in that order. |
| Graph.OutputAttrs | code/main.py:249-252 | `edge_attr` is `None` exactly when source and target are `src`/`dst` and neither colour nor hover is given. Otherwise it is the kept endpoints, then `color`, then `title`. |
| Graph.NxFromPandas | code/main.py:227-252 | The caller's edge table ends as `transform_edges` leaves it. The arguments handed to networkx are `Graph.Build`'s. |
| Graph.BuildErrors | code/main.py:227-246 | The call fails exactly when one of the transformations does, the edge error first. On success it passes the transformed edges and, when nodes are given, the node records. |
| Graph.BuildAttrs | code/main.py:249-252 | `edge_attr` is computed from the transformed edge columns `[source, target] (+ color) (+ title)`: `None` exactly in the all-excluded case, otherwise the non-`src`/`dst` names. |
| Graph.EndpointsAreAttributes | code/main.py:249-251 | A source and target not named `src` or `dst` are themselves edge attributes. |

## Left out

- The networkx calls `from_pandas_edgelist` and `set_node_attributes` (code/main.py:255-274) are outside this model. It stops at their arguments (`Graph.GraphInput`).
- The `isinstance` assertions (code/main.py:65, 81, 134, 140, 156) hold by typing: names are strings and `color_map` is a map.
- Under `python -O` the `assert`s vanish. The model always performs the column check.
- Error message texts are not modelled, only which error is raised and, for a missing column, its name.
- Cells are NaN, strings or integers. Floats, dates and other dtypes are not modelled. `str()` is modelled for these three kinds only.
- A column mixing integers and NaN stands for an object-dtype column, whose integers print as `1`. pandas stores the usual integer column with a NaN as float64, where `astype(str)` gives `"1.0"`. That case is a float column and is not modelled, so `Nodes.LabelField`'s string form applies only to object-dtype columns.
- Input tables have distinct column names (`Frames.Table.Valid`). Result tables may repeat a name, as pandas allows.
- Nodes.Records: the node model covers inputs satisfying `Nodes.Supported`. Behaviour outside it is not modelled. Supported requires that:
  - the id column holds no value twice, since pandas raises a ValueError for a non-unique index in `to_dict(orient='index')`;
  - the id is not named `label`, `color` or `title` while that attribute is derived;
  - no `title` column exists already when the hover column is renamed to it.
- Edges.OutputColumns: with a pre-existing `title` column and a hover column of another name, pandas keeps both `title` columns. `Edges.Transform` models that, but this lemma and `Edges.HoverColumn` are stated only for tables without such a column.
- Graph.NxFromPandas: the edge and node tables must be different objects. Passing the same DataFrame as both is not modelled.
- The first, discarded call to `transform_nodes` (code/main.py:239-246) is not modelled. It works on a copy and raises exactly when the second call does, so it has no effect of its own.
- The deep copy in `transform_nodes` is modelled as a table value. No other object can observe it.
- The multigraph TO-DO (code/main.py:14-16) is not implemented in the source and is not modelled.
