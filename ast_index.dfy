/**
 * The declaration/reference index: a depth-first walk that records, for
 * every node of a given class, the path (node, attribute, node, attribute,
 * ...) taken from the root to reach it; and the grouping of consecutive
 * records that share a path into chunks.
 */
module AstIndex {
  import opened JavaAst
  import opened Wrappers

  /** One record of the walk: the path to a node, and the node. */
  datatype Entry = Entry(path: Path, node: Value)

  /** A run of consecutive records with one path. */
  datatype Chunk = Chunk(path: Path, nodes: seq<Value>)

  predicate HasAttr(n: Value, attr: string)
  {
    n.Node? && exists j :: 0 <= j < |n.fields| && n.fields[j].attr == attr
  }

  /** A path suffix alternates a node and the name of one of its attributes. */
  predicate Alternating(s: Path)
    decreases |s|
  {
    if s == [] then true
    else |s| >= 2 && s[0].Node? && s[1].Str? && HasAttr(s[0], s[1].s) && Alternating(s[2..])
  }

  /** The records of the walk below `path` are instances of `t`, on paths that extend `path`. */
  predicate Recorded(es: seq<Entry>, t: string, path: Path)
  {
    forall e :: e in es ==>
      && IsInstance(e.node, t)
      && |path| <= |e.path|
      && e.path[..|path|] == path
      && Alternating(e.path[|path|..])
  }

  /**
   * `_filter_ast_node(v, t, _path=path)`: None and scalars yield nothing, a
   * list yields its items' records on the same path, a node yields itself
   * when it is an instance of `t` and then, attribute by attribute, the
   * records below it with the node and the attribute name added to the path.
   */
  function Filter(v: Value, t: string, path: Path): (r: seq<Entry>)
    ensures Recorded(r, t, path)
    decreases v, 1
  {
    match v
    case List(_) => FilterItems(v, 0, t, path)
    case Node(_, _, _) => (if IsInstance(v, t) then [Entry(path, v)] else []) + FilterFields(v, 0, t, path)
    case _ => []
  }

  function FilterItems(v: Value, i: nat, t: string, path: Path): (r: seq<Entry>)
    requires v.List? && i <= |v.items|
    ensures Recorded(r, t, path)
    decreases v, 0, |v.items| - i
  {
    if i == |v.items| then [] else Filter(v.items[i], t, path) + FilterItems(v, i + 1, t, path)
  }

  function FilterFields(v: Value, i: nat, t: string, path: Path): (r: seq<Entry>)
    requires v.Node? && i <= |v.fields|
    ensures Recorded(r, t, path)
    decreases v, 0, |v.fields| - i
  {
    if i == |v.fields| then []
    else
      var below := path + [v, Str(v.fields[i].attr)];
      var here := Filter(v.fields[i].value, t, below);
      assert Recorded(here, t, path) by {
        forall e | e in here
          ensures e.path[..|path|] == path && Alternating(e.path[|path|..])
        {
          assert e.path[..|below|] == below;
          assert e.path[..|path|] == below[..|path|];
          assert e.path[|path|..] == [v, Str(v.fields[i].attr)] + e.path[|below|..];
        }
      }
      here + FilterFields(v, i + 1, t, path)
  }

  /** `filter_ast_node(v, t)` */
  function FilterAstNode(v: Value, t: string): seq<Entry>
  {
    Filter(v, t, [])
  }

  /** Every node in `v`, parents before children, attributes and list items in order. */
  function Subnodes(v: Value): seq<Value>
    decreases v, 1
  {
    match v
    case List(_) => SubnodesOfItems(v, 0)
    case Node(_, _, _) => [v] + SubnodesOfFields(v, 0)
    case _ => []
  }

  function SubnodesOfItems(v: Value, i: nat): seq<Value>
    requires v.List? && i <= |v.items|
    decreases v, 0, |v.items| - i
  {
    if i == |v.items| then [] else Subnodes(v.items[i]) + SubnodesOfItems(v, i + 1)
  }

  function SubnodesOfFields(v: Value, i: nat): seq<Value>
    requires v.Node? && i <= |v.fields|
    decreases v, 0, |v.fields| - i
  {
    if i == |v.fields| then [] else Subnodes(v.fields[i].value) + SubnodesOfFields(v, i + 1)
  }

  /** `[e.node for e in es]` */
  function NodesOf(es: seq<Entry>): (ns: seq<Value>)
    ensures |ns| == |es|
    ensures forall k :: 0 <= k < |es| ==> ns[k] == es[k].node
  {
    if es == [] then [] else [es[0].node] + NodesOf(es[1..])
  }

  /** The instances of `t` among `vs`, in order. */
  function Instances(vs: seq<Value>, t: string): seq<Value>
  {
    if vs == [] then [] else (if IsInstance(vs[0], t) then [vs[0]] else []) + Instances(vs[1..], t)
  }

  lemma {:induction false} InstancesAppend(a: seq<Value>, b: seq<Value>, t: string)
    ensures Instances(a + b, t) == Instances(a, t) + Instances(b, t)
  {
    if a == [] {
      assert a + b == b;
    } else {
      var head := if IsInstance(a[0], t) then [a[0]] else [];
      assert (a + b)[0] == a[0] && (a + b)[1..] == a[1..] + b;
      InstancesAppend(a[1..], b, t);
      assert Instances(a + b, t) == head + Instances(a[1..] + b, t);
      assert Instances(a, t) == head + Instances(a[1..], t);
    }
  }

  lemma {:induction false} NodesOfAppend(a: seq<Entry>, b: seq<Entry>)
    ensures NodesOf(a + b) == NodesOf(a) + NodesOf(b)
  {
  }

  /**
   * The walk yields exactly the nodes of `v` that are instances of `t`, in
   * depth-first order, whatever path it starts from.
   */
  lemma {:induction false} FilterFindsEveryInstance(v: Value, t: string, path: Path)
    ensures NodesOf(Filter(v, t, path)) == Instances(Subnodes(v), t)
    decreases v, 1
  {
    match v
    case List(_) => FilterItemsFindsEveryInstance(v, 0, t, path);
    case Node(_, _, _) =>
      FilterFieldsFindsEveryInstance(v, 0, t, path);
      NodesOfAppend(if IsInstance(v, t) then [Entry(path, v)] else [], FilterFields(v, 0, t, path));
      InstancesAppend([v], SubnodesOfFields(v, 0), t);
    case _ =>
  }

  lemma {:induction false} FilterItemsFindsEveryInstance(v: Value, i: nat, t: string, path: Path)
    requires v.List? && i <= |v.items|
    ensures NodesOf(FilterItems(v, i, t, path)) == Instances(SubnodesOfItems(v, i), t)
    decreases v, 0, |v.items| - i
  {
    if i < |v.items| {
      FilterFindsEveryInstance(v.items[i], t, path);
      FilterItemsFindsEveryInstance(v, i + 1, t, path);
      NodesOfAppend(Filter(v.items[i], t, path), FilterItems(v, i + 1, t, path));
      InstancesAppend(Subnodes(v.items[i]), SubnodesOfItems(v, i + 1), t);
    }
  }

  lemma {:induction false} FilterFieldsFindsEveryInstance(v: Value, i: nat, t: string, path: Path)
    requires v.Node? && i <= |v.fields|
    ensures NodesOf(FilterFields(v, i, t, path)) == Instances(SubnodesOfFields(v, i), t)
    decreases v, 0, |v.fields| - i
  {
    if i < |v.fields| {
      var below := path + [v, Str(v.fields[i].attr)];
      FilterFindsEveryInstance(v.fields[i].value, t, below);
      FilterFieldsFindsEveryInstance(v, i + 1, t, path);
      NodesOfAppend(Filter(v.fields[i].value, t, below), FilterFields(v, i + 1, t, path));
      InstancesAppend(Subnodes(v.fields[i].value), SubnodesOfFields(v, i + 1), t);
    }
  }

  /** A tree with no instance of `t` yields nothing. */
  lemma NoInstanceYieldsNothing(v: Value, t: string)
    requires forall n :: n in Subnodes(v) ==> !IsInstance(n, t)
    ensures FilterAstNode(v, t) == []
  {
    FilterFindsEveryInstance(v, t, []);
    NoInstances(Subnodes(v), t);
  }

  lemma {:induction false} NoInstances(vs: seq<Value>, t: string)
    requires forall n :: n in vs ==> !IsInstance(n, t)
    ensures Instances(vs, t) == []
  {
    if vs != [] {
      NoInstances(vs[1..], t);
    }
  }

  /** Each chunk's nodes, each paired with the chunk's path, in order. */
  function Expand(cs: seq<Chunk>): (es: seq<Entry>)
  {
    if cs == [] then []
    else Expand(cs[..|cs| - 1]) + Spread(cs[|cs| - 1])
  }

  function Spread(c: Chunk): (es: seq<Entry>)
    ensures |es| == |c.nodes|
    ensures forall k :: 0 <= k < |es| ==> es[k] == Entry(c.path, c.nodes[k])
  {
    seq(|c.nodes|, k requires 0 <= k < |c.nodes| => Entry(c.path, c.nodes[k]))
  }

  /** Where each chunk starts among the records it was built from. */
  function Starts(cs: seq<Chunk>): (s: seq<nat>)
    ensures |s| == |cs|
  {
    if cs == [] then [] else Starts(cs[..|cs| - 1]) + [|Expand(cs[..|cs| - 1])|]
  }

  lemma AppendChunk(cs: seq<Chunk>, c: Chunk)
    ensures Expand(cs + [c]) == Expand(cs) + Spread(c)
    ensures Starts(cs + [c]) == Starts(cs) + [|Expand(cs)|]
  {
    assert (cs + [c])[..|cs|] == cs;
  }

  predicate SameNodes(cs: seq<Chunk>, es: seq<Entry>)
  {
    |Expand(cs)| == |es| && forall k :: 0 <= k < |es| ==> Expand(cs)[k].node == es[k].node
  }

  predicate SamePaths(cs: seq<Chunk>, es: seq<Entry>)
  {
    |Expand(cs)| == |es| && forall k :: 0 <= k < |es| ==> SamePath(es[k].path, Expand(cs)[k].path)
  }

  predicate NoneEmpty(cs: seq<Chunk>)
  {
    forall i :: 0 <= i < |cs| ==> cs[i].nodes != []
  }

  predicate Separated(cs: seq<Chunk>)
  {
    forall i :: 0 < i < |cs| ==> !SamePath(cs[i].path, cs[i - 1].path)
  }

  predicate FirstPaths(cs: seq<Chunk>, es: seq<Entry>)
  {
    forall i :: 0 <= i < |cs| ==> Starts(cs)[i] < |es| && cs[i].path == es[Starts(cs)[i]].path
  }

  /** What a finished or partial run of the chunking loop has produced from `es`. */
  predicate ChunksOf(cs: seq<Chunk>, es: seq<Entry>)
  {
    SameNodes(cs, es) && SamePaths(cs, es) && NoneEmpty(cs) && Separated(cs) && FirstPaths(cs, es)
  }

  /**
   * The chunks of `es`, record by record: a record whose path is `==` to the
   * last chunk's path joins that chunk, any other record opens a chunk of
   * its own under its path.
   */
  function Group(es: seq<Entry>): seq<Chunk>
  {
    if es == [] then []
    else
      var g := Group(es[..|es| - 1]);
      var e := es[|es| - 1];
      if g == [] || !SamePath(e.path, g[|g| - 1].path) then g + [Chunk(e.path, [e.node])]
      else g[..|g| - 1] + [Chunk(g[|g| - 1].path, g[|g| - 1].nodes + [e.node])]
  }

  /**
   * The chunks hold the records' nodes in order, each record's path is `==`
   * to its chunk's path, no chunk is empty, neighbouring chunks have paths
   * that are not `==`, and each chunk keeps the path of its first record.
   */
  lemma {:induction false} GroupChunks(es: seq<Entry>)
    ensures ChunksOf(Group(es), es)
    ensures es == [] <==> Group(es) == []
  {
    if es != [] {
      var init, e := es[..|es| - 1], es[|es| - 1];
      assert es == init + [e];
      GroupChunks(init);
      var g := Group(init);
      if g == [] || !SamePath(e.path, g[|g| - 1].path) {
        StartChunk(g, init, e);
      } else {
        var c := g[|g| - 1];
        assert g == g[..|g| - 1] + [c];
        ExtendChunk(g[..|g| - 1], c, init, e);
      }
    }
  }

  /** `chunk_ast_nodes_by_path` */
  method ChunkByPath(entries: seq<Entry>) returns (chunks: seq<Chunk>)
    ensures chunks == Group(entries)
    ensures ChunksOf(chunks, entries)
    ensures NodesOf(Expand(chunks)) == NodesOf(entries)
  {
    chunks := [];
    var currPath: Option<Path> := None;
    var currChunk: seq<Value> := [];
    for i := 0 to |entries|
      invariant currPath.None? <==> i == 0
      invariant currPath.None? ==> currChunk == []
      invariant chunks + Open(currPath, currChunk) == Group(entries[..i])
    {
      var e := entries[i];
      assert entries[..i + 1][..i] == entries[..i];
      GroupChunks(entries[..i]);
      if currPath.None? || !SamePath(e.path, currPath.value) {
        if currPath.Some? {
          chunks := chunks + [Chunk(currPath.value, currChunk)];
        }
        currPath := Some(e.path);
        currChunk := [e.node];
      } else {
        currChunk := currChunk + [e.node];
      }
    }
    if currPath.Some? {
      chunks := chunks + [Chunk(currPath.value, currChunk)];
    }
    assert entries[..|entries|] == entries;
    GroupChunks(entries);
    NodesAgree(chunks, entries);
  }

  lemma NodesAgree(cs: seq<Chunk>, es: seq<Entry>)
    requires SameNodes(cs, es)
    ensures NodesOf(Expand(cs)) == NodesOf(es)
  {
  }

  /** The chunk still being filled, as a list of zero or one chunk. */
  function Open(p: Option<Path>, nodes: seq<Value>): seq<Chunk>
  {
    if p.Some? then [Chunk(p.value, nodes)] else []
  }

  lemma StartChunk(cs: seq<Chunk>, es: seq<Entry>, e: Entry)
    requires ChunksOf(cs, es)
    requires cs != [] ==> !SamePath(e.path, cs[|cs| - 1].path)
    ensures ChunksOf(cs + [Chunk(e.path, [e.node])], es + [e])
  {
    var c := Chunk(e.path, [e.node]);
    AppendChunk(cs, c);
    assert Spread(c) == [Entry(e.path, e.node)];
    SamePathReflexive(e.path);
    GrowNodes(cs, cs + [c], es, e, e.path);
    GrowPaths(cs, cs + [c], es, e, e.path);
    StartKeepsFirstPaths(cs, es, e);
  }

  lemma StartKeepsFirstPaths(cs: seq<Chunk>, es: seq<Entry>, e: Entry)
    requires FirstPaths(cs, es) && |Expand(cs)| == |es|
    ensures FirstPaths(cs + [Chunk(e.path, [e.node])], es + [e])
  {
    var cs' := cs + [Chunk(e.path, [e.node])];
    AppendChunk(cs, Chunk(e.path, [e.node]));
    forall i | 0 <= i < |cs'|
      ensures Starts(cs')[i] < |es + [e]| && cs'[i].path == (es + [e])[Starts(cs')[i]].path
    {
      if i < |cs| {
        assert Starts(cs')[i] == Starts(cs)[i] && cs'[i] == cs[i];
      }
    }
  }

  /** Adding one record with node `e.node` under path `p` keeps the nodes in step. */
  lemma GrowNodes(x: seq<Chunk>, x': seq<Chunk>, es: seq<Entry>, e: Entry, p: Path)
    requires SameNodes(x, es) && Expand(x') == Expand(x) + [Entry(p, e.node)]
    ensures SameNodes(x', es + [e])
  {
  }

  /** Adding one record under a path `==` to `e.path` keeps the paths in step. */
  lemma GrowPaths(x: seq<Chunk>, x': seq<Chunk>, es: seq<Entry>, e: Entry, p: Path)
    requires SamePaths(x, es) && Expand(x') == Expand(x) + [Entry(p, e.node)] && SamePath(e.path, p)
    ensures SamePaths(x', es + [e])
  {
  }

  lemma ExtendChunk(cs: seq<Chunk>, c: Chunk, es: seq<Entry>, e: Entry)
    requires ChunksOf(cs + [c], es)
    requires SamePath(e.path, c.path)
    ensures ChunksOf(cs + [Chunk(c.path, c.nodes + [e.node])], es + [e])
  {
    var c' := Chunk(c.path, c.nodes + [e.node]);
    ExtendExpands(cs, c, e.node);
    GrowNodes(cs + [c], cs + [c'], es, e, c.path);
    GrowPaths(cs + [c], cs + [c'], es, e, c.path);
    ExtendKeepsFirstPaths(cs, c, c', es, e);
    ExtendKeepsSeparated(cs, c, c');
    ExtendKeepsNoneEmpty(cs, c, c');
  }

  lemma ExtendExpands(cs: seq<Chunk>, c: Chunk, n: Value)
    ensures Expand(cs + [Chunk(c.path, c.nodes + [n])]) == Expand(cs + [c]) + [Entry(c.path, n)]
  {
    var c' := Chunk(c.path, c.nodes + [n]);
    AppendChunk(cs, c);
    AppendChunk(cs, c');
    assert Spread(c') == Spread(c) + [Entry(c.path, n)];
  }

  lemma ExtendKeepsNoneEmpty(cs: seq<Chunk>, c: Chunk, c': Chunk)
    requires NoneEmpty(cs + [c]) && c'.nodes != []
    ensures NoneEmpty(cs + [c'])
  {
    assert forall i :: 0 <= i < |cs| ==> (cs + [c'])[i] == (cs + [c])[i];
  }

  lemma ExtendKeepsFirstPaths(cs: seq<Chunk>, c: Chunk, c': Chunk, es: seq<Entry>, e: Entry)
    requires FirstPaths(cs + [c], es) && c'.path == c.path
    ensures FirstPaths(cs + [c'], es + [e])
  {
    AppendChunk(cs, c);
    AppendChunk(cs, c');
    var all, all' := cs + [c], cs + [c'];
    forall i | 0 <= i < |all'|
      ensures Starts(all')[i] < |es + [e]| && all'[i].path == (es + [e])[Starts(all')[i]].path
    {
      assert Starts(all')[i] == Starts(all)[i] && all'[i].path == all[i].path;
    }
  }

  lemma ExtendKeepsSeparated(cs: seq<Chunk>, c: Chunk, c': Chunk)
    requires Separated(cs + [c]) && c'.path == c.path
    ensures Separated(cs + [c'])
  {
    var all, all' := cs + [c], cs + [c'];
    forall i | 0 < i < |all'|
      ensures !SamePath(all'[i].path, all'[i - 1].path)
    {
      assert all'[i].path == all[i].path && all'[i - 1].path == all[i - 1].path;
    }
  }
}
