/**
 * `nx_from_pandas`: transforms the edge table (and the node table, when one
 * is given) and hands the results to networkx. The model stops at the
 * arguments of those calls: the transformed edges, the edge attribute names,
 * and the node records.
 */
module Graph {
  import opened Wrappers
  import opened Frames
  import opened Checks
  import opened Edges
  import opened Nodes

  /** The literal column names kept out of the edge attributes. */
  const Excluded: seq<string> := ["src", "dst"]

  /** `[col for col in names if col not in ['src', 'dst']]` */
  function Kept(names: seq<string>): seq<string>
  {
    if names == [] then []
    else (if names[0] in Excluded then [] else [names[0]]) + Kept(names[1..])
  }

  /** `edge_attr`: the kept names, or `None` when no name is left. */
  function EdgeAttrs(names: seq<string>): Option<seq<string>>
  {
    var kept := Kept(names);
    if |kept| > 0 then Some(kept) else None
  }

  /** A name is kept exactly when it is one of the names and not `src` or `dst`. */
  lemma {:induction false} KeptMembers(names: seq<string>)
    ensures forall n :: n in Kept(names) <==> n in names && n !in Excluded
  {
    if names != [] {
      KeptMembers(names[1..]);
      assert names == [names[0]] + names[1..];
    }
  }

  /** The filter keeps column order: filtering a concatenation concatenates the filtered parts. */
  lemma {:induction false} KeptAppend(xs: seq<string>, ys: seq<string>)
    ensures Kept(xs + ys) == Kept(xs) + Kept(ys)
  {
    if xs != [] {
      assert (xs + ys)[1..] == xs[1..] + ys;
      KeptAppend(xs[1..], ys);
    } else {
      assert xs + ys == ys;
    }
  }

  /** Names none of which is excluded are all kept, in order. */
  lemma {:induction false} KeptAll(names: seq<string>)
    requires forall n :: n in names ==> n !in Excluded
    ensures Kept(names) == names
  {
    if names != [] {
      assert names[0] in names;
      KeptAll(names[1..]);
      assert names == [names[0]] + names[1..];
    }
  }

  /** `edge_attr` is `None` exactly when every name is `src` or `dst`. */
  lemma EdgeAttrsNone(names: seq<string>)
    ensures EdgeAttrs(names).None? <==> forall n :: n in names ==> n in Excluded
    ensures EdgeAttrs(names).Some? ==> forall n :: n in EdgeAttrs(names).value <==> n in names && n !in Excluded
  {
    KeptMembers(names);
    if |Kept(names)| > 0 {
      assert Kept(names)[0] in Kept(names);
    }
    if !forall n :: n in names ==> n in Excluded {
      var n :| n in names && n !in Excluded;
      assert n in Kept(names);
    }
  }

  /** What `nx_from_pandas` hands to networkx. */
  datatype GraphInput = GraphInput(
    edges: Table,                       // `df` of `from_pandas_edgelist`
    source: string,
    target: string,
    edgeAttr: Option<seq<string>>,      // `edge_attr`
    nodeValues: Option<map<Value, Record>>)  // `values` of `set_node_attributes`, when nodes are given

  /** The whole call, as a value: the networkx arguments, or the exception raised. */
  function Build(t: Table, ea: EdgeArgs, nt: Option<Table>, na: NodeArgs): Result<GraphInput, Error>
    requires t.Valid()
    requires nt.Some? ==> Supported(nt.value, na)
  {
    match Transform(t, ea).result
    case Err(e) => Err(e)
    case Ok(et) =>
      if nt.None? then Ok(GraphInput(et, ea.source, ea.target, EdgeAttrs(et.Names()), None))
      else
        match Records(nt.value, na)
        case Err(e) => Err(e)
        case Ok(m) => Ok(GraphInput(et, ea.source, ea.target, EdgeAttrs(et.Names()), Some(m)))
  }

  /** `nx_from_pandas(edges_df, ..., nodes_df, ...)` up to the networkx calls. */
  method NxFromPandas(edges: Frame, ea: EdgeArgs, nodes: Frame?, na: NodeArgs) returns (r: Result<GraphInput, Error>)
    requires edges.Value().Valid()
    requires nodes != null ==> nodes != edges && Supported(nodes.Value(), na)
    modifies edges
    ensures edges.Value() == Transform(old(edges.Value()), ea).caller
    ensures r == Build(old(edges.Value()), ea, if nodes == null then None else Some(nodes.Value()), na)
  {
    var transformed := TransformEdges(edges, ea);
    if transformed.Err? {
      return Err(transformed.error);
    }
    var et := transformed.value;
    var attrs := EdgeAttrs(et.Names());
    if nodes == null {
      return Ok(GraphInput(et, ea.source, ea.target, attrs, None));
    }
    var records := TransformNodes(nodes, na);
    if records.Err? {
      return Err(records.error);
    }
    return Ok(GraphInput(et, ea.source, ea.target, attrs, Some(records.value)));
  }

  /** The call fails exactly when one of the transformations does, the edges' error first. */
  lemma BuildErrors(t: Table, ea: EdgeArgs, nt: Option<Table>, na: NodeArgs)
    requires t.Valid() && (nt.Some? ==> Supported(nt.value, na))
    ensures var r := Build(t, ea, nt, na); var e := Transform(t, ea).result;
      && (e.Err? ==> r == Err(e.error))
      && (e.Ok? && nt.Some? && Records(nt.value, na).Err? ==> r == Err(Records(nt.value, na).error))
      && (r.Ok? <==> e.Ok? && (nt.Some? ==> Records(nt.value, na).Ok?))
      && (r.Ok? ==> r.value.edges == e.value && (nt.Some? <==> r.value.nodeValues.Some?))
      && (r.Ok? && nt.Some? ==> r.value.nodeValues.value == Records(nt.value, na).value)
  {
  }

  /** Filtering the selected edge columns touches only the source and target names. */
  lemma KeptOrder(ea: EdgeArgs)
    ensures Kept(OutputNames(ea)) == Kept([ea.source, ea.target]) + ea.style.ColorKeys() + ea.style.TitleKeys()
  {
    var ends := [ea.source, ea.target];
    KeptAppend(ends + ea.style.ColorKeys(), ea.style.TitleKeys());
    KeptAppend(ends, ea.style.ColorKeys());
    KeptAll(ea.style.ColorKeys());
    KeptAll(ea.style.TitleKeys());
  }

  /** Which of the selected edge columns are attributes. */
  lemma OutputAttrs(ea: EdgeArgs)
    ensures var attrs := EdgeAttrs(OutputNames(ea));
      && (attrs.None? <==> ea.source in Excluded && ea.target in Excluded
                           && !ea.style.Colored() && ea.style.hover.None?)
      && (attrs.Some? ==> forall n :: n in attrs.value <==> n in OutputNames(ea) && n !in Excluded)
      && (attrs.Some? ==> attrs.value == Kept([ea.source, ea.target]) + ea.style.ColorKeys() + ea.style.TitleKeys())
  {
    var names := OutputNames(ea);
    assert Kept(names) == Kept([ea.source, ea.target]) + ea.style.ColorKeys() + ea.style.TitleKeys() by {
      KeptOrder(ea);
    }
    EdgeAttrsNone(names);
    assert ea.source in names && ea.target in names;
    assert ea.style.Colored() ==> "color" in names;
    assert ea.style.hover.Some? ==> "title" in names;
    assert forall n :: n in names ==>
      n == ea.source || n == ea.target || n == "color" || n == "title";
  }

  /**
   * The edge attributes are the transformed columns not named `src` or `dst`,
   * in column order: the colour and hover columns always, and the source and
   * target columns too unless they bear one of those two names.
   */
  lemma BuildAttrs(t: Table, ea: EdgeArgs, nt: Option<Table>, na: NodeArgs)
    requires t.Valid() && (nt.Some? ==> Supported(nt.value, na)) && TitleFree(t, ea)
    requires Build(t, ea, nt, na).Ok?
    ensures var attrs := Build(t, ea, nt, na).value.edgeAttr;
      && attrs == EdgeAttrs(OutputNames(ea))
      && (attrs.None? <==> ea.source in Excluded && ea.target in Excluded
                           && !ea.style.Colored() && ea.style.hover.None?)
      && (attrs.Some? ==> forall n :: n in attrs.value <==> n in OutputNames(ea) && n !in Excluded)
  {
    assert Build(t, ea, nt, na).value.edgeAttr == EdgeAttrs(OutputNames(ea)) by {
      BuildErrors(t, ea, nt, na);
      OutputColumns(t, ea);
    }
    OutputAttrs(ea);
  }

  /** With a source and target not named `src` or `dst`, both become edge attributes too. */
  lemma EndpointsAreAttributes(t: Table, ea: EdgeArgs, nt: Option<Table>, na: NodeArgs)
    requires t.Valid() && (nt.Some? ==> Supported(nt.value, na)) && TitleFree(t, ea)
    requires Build(t, ea, nt, na).Ok? && ea.source !in Excluded && ea.target !in Excluded
    ensures var attrs := Build(t, ea, nt, na).value.edgeAttr;
      attrs.Some? && ea.source in attrs.value && ea.target in attrs.value
  {
    BuildAttrs(t, ea, nt, na);
    assert ea.source in OutputNames(ea) && ea.target in OutputNames(ea);
  }
}
