/** The CDP topology builder: the rows parsed from `show cdp neighbor detail` become the node
    and edge lists of a network diagram, with the local device as root node 1, one node and
    one edge per distinct neighbour, and repeated neighbours thickening their edge. */
module CdpTopology {
  import opened Wrappers
  import opened Text

  /** One parsed CDP row: column 0 is the local device (the prompt), column 1 the neighbour,
      columns 2, 3 and 6 its management address, platform and version, and columns 4 and 5
      the two ports of the link. */
  datatype CdpRow = CdpRow(localHost: string, remoteHost: string, mgmtIp: string,
                           platform: string, port4: string, port5: string, version: string)

  /** A diagram node; the root node has no title. */
  datatype Node = Node(id: int, labelText: string, title: Option<string>, group: string)

  /** A diagram edge (its constant `font` setting is not modelled). */
  datatype Edge = Edge(from: int, to: int, title: string, labelText: string, value: int)

  /** The script's state: the two lists, the hosts seen so far and the next node id. */
  datatype Topology = Topology(nodes: seq<Node>, edges: seq<Edge>, foundHosts: seq<string>,
                               counter: int)

  const Initial: Topology := Topology([], [], [], 1)

  /** Lines 100-101. */
  function NodeTitle(row: CdpRow): string {
    "<strong>Mgmt-IP:</strong><br>" + row.mgmtIp + "<br><br><strong>Platform</strong>:<br> "
      + row.platform + "<br><br><strong>Version:</strong><br> " + row.version
  }

  /** Line 110: columns 5 then 4. */
  function EdgeTitle(row: CdpRow): string {
    "from: " + row.port5 + "<br>to: " + row.port4
  }

  /** Line 134: columns 4 then 5, the other way round from line 110. */
  function ExtraTitle(row: CdpRow): string {
    "<hr>from: " + row.port4 + "<br>to: " + row.port5
  }

  /** Lines 124-127: the first node whose label contains the name as a substring. */
  function FirstLabelContaining(nodes: seq<Node>, name: string): (r: Option<nat>)
    ensures r.Some? ==>
      r.value < |nodes| && Contains(nodes[r.value].labelText, name)
      && forall j :: 0 <= j < r.value ==> !Contains(nodes[j].labelText, name)
    ensures r.None? ==> forall j :: 0 <= j < |nodes| ==> !Contains(nodes[j].labelText, name)
    decreases |nodes|
  {
    if nodes == [] then None
    else if Contains(nodes[0].labelText, name) then Some(0)
    else
      var rest := FirstLabelContaining(nodes[1..], name);
      if rest.None? then None else Some(rest.value + 1)
  }

  /** Lines 132-134 for one edge. */
  function BumpOne(e: Edge, id: int, extra: string): Edge {
    if e.to == id then e.(value := e.value + 10, title := e.title + extra) else e
  }

  /** Lines 131-134: every edge to node `id` gains 10 and the extra title. */
  function Bump(edges: seq<Edge>, id: int, extra: string): (r: seq<Edge>)
    ensures |r| == |edges|
    decreases |edges|
  {
    if edges == [] then []
    else Bump(edges[..|edges| - 1], id, extra) + [BumpOne(edges[|edges| - 1], id, extra)]
  }

  lemma {:induction false} BumpAt(edges: seq<Edge>, id: int, extra: string, j: nat)
    requires j < |edges|
    ensures Bump(edges, id, extra)[j] == BumpOne(edges[j], id, extra)
    decreases |edges|
  {
    if j < |edges| - 1 {
      BumpAt(edges[..|edges| - 1], id, extra, j);
    }
  }

  /** Lines 82-91: the root node, added before anything else. */
  function WithRoot(t: Topology, row: CdpRow): Topology {
    if |t.nodes| == 0
    then t.(nodes := [Node(t.counter, row.localHost, None, "root_device")], counter := t.counter + 1)
    else t
  }

  /** Lines 81-138 for one row. */
  function Step(t: Topology, row: CdpRow): Topology {
    var t1 := WithRoot(t, row);
    var remote := row.remoteHost;
    if remote !in t1.foundHosts then
      t1.(nodes := t1.nodes + [Node(t1.counter, remote, Some(NodeTitle(row)), "attached_device")],
          edges := t1.edges + [Edge(1, t1.counter, EdgeTitle(row), "", 0)],
          foundHosts := t1.foundHosts + [remote],
          counter := t1.counter + 1)
    else
      match FirstLabelContaining(t1.nodes, remote)
        case None => t1
        case Some(k) => t1.(edges := Bump(t1.edges, t1.nodes[k].id, ExtraTitle(row)))
  }

  /** All rows, in order. */
  function Build(rows: seq<CdpRow>): Topology
    decreases |rows|
  {
    if rows == [] then Initial else Step(Build(rows[..|rows| - 1]), rows[|rows| - 1])
  }

  /** Lines 80-138: the loop over the rows. */
  method BuildTopology(rows: seq<CdpRow>) returns (nodes: seq<Node>, edges: seq<Edge>, foundHosts: seq<string>)
    ensures Topology(nodes, edges, foundHosts, |nodes| + 1) == Build(rows)
  {
    nodes, edges, foundHosts := [], [], [];
    var counter := 1;
    var i := 0;
    while i < |rows|
      invariant 0 <= i <= |rows|
      invariant Topology(nodes, edges, foundHosts, counter) == Build(rows[..i])
    {
      assert rows[..i + 1][..i] == rows[..i];
      var e := rows[i];
      ghost var before := Topology(nodes, edges, foundHosts, counter);
      if |nodes| == 0 {
        var node := Node(counter, e.localHost, None, "root_device");
        counter := counter + 1;
        nodes := nodes + [node];
      }
      assert Topology(nodes, edges, foundHosts, counter) == WithRoot(before, e);
      var remoteNode := e.remoteHost;
      if remoteNode !in foundHosts {
        var node := Node(counter, remoteNode, Some(NodeTitle(e)), "attached_device");
        nodes := nodes + [node];
        var edge := Edge(1, counter, EdgeTitle(e), "", 0);
        edges := edges + [edge];
        foundHosts := foundHosts + [remoteNode];
        counter := counter + 1;
      } else {
        var currentNode := FindNode(nodes, remoteNode);
        if currentNode.Some? {
          edges := BumpLinks(edges, currentNode.value.id, ExtraTitle(e));
        }
      }
      i := i + 1;
    }
    assert rows[..i] == rows;
    BuildCounter(rows);
  }

  /** Lines 123-127: the loop over the nodes, left at the first label containing the name. */
  method FindNode(nodes: seq<Node>, remoteNode: string) returns (currentNode: Option<Node>)
    ensures currentNode.None? <==> FirstLabelContaining(nodes, remoteNode).None?
    ensures currentNode.Some? ==> currentNode.value == nodes[FirstLabelContaining(nodes, remoteNode).value]
  {
    currentNode := None;
    var k := 0;
    while k < |nodes|
      invariant 0 <= k <= |nodes|
      invariant forall j :: 0 <= j < k ==> !Contains(nodes[j].labelText, remoteNode)
    {
      if Contains(nodes[k].labelText, remoteNode) {
        currentNode := Some(nodes[k]);
        return;
      }
      k := k + 1;
    }
  }

  /** Lines 131-134: the edges updated in place, one at a time. */
  method BumpLinks(edges0: seq<Edge>, id: int, extra: string) returns (edges: seq<Edge>)
    ensures edges == Bump(edges0, id, extra)
  {
    edges := edges0;
    var j := 0;
    while j < |edges|
      invariant 0 <= j <= |edges| && |edges| == |edges0|
      invariant forall m :: 0 <= m < j ==> edges[m] == BumpOne(edges0[m], id, extra)
      invariant forall m :: j <= m < |edges| ==> edges[m] == edges0[m]
    {
      if edges[j].to == id {
        edges := edges[j := edges[j].(value := edges[j].value + 10, title := edges[j].title + extra)];
      }
      j := j + 1;
    }
    forall m | 0 <= m < |edges| ensures edges[m] == Bump(edges0, id, extra)[m] {
      BumpAt(edges0, id, extra, m);
    }
  }

  // ---------------------------------------------------------------------------------------
  // What the lists look like after any number of rows
  // ---------------------------------------------------------------------------------------

  /** The shape the lists keep: node ids 1, 2, 3, ... in list order and the counter one
      past the last; the root first and one attached node per found host, in order; one edge
      per found host from the root to that host's node, with a value that is a non-negative
      multiple of 10; no host found twice. Without rows, all lists are empty. */
  predicate Valid(t: Topology) {
    t.counter == |t.nodes| + 1
    && (forall i :: 0 <= i < |t.nodes| ==> t.nodes[i].id == i + 1)
    && (|t.nodes| == 0 ==> t.edges == [] && t.foundHosts == [])
    && (|t.nodes| > 0 ==>
         |t.nodes| == |t.foundHosts| + 1 && |t.edges| == |t.foundHosts|
         && t.nodes[0].group == "root_device" && t.nodes[0].title.None?)
    && (forall i :: 0 <= i < |t.foundHosts| ==>
         t.nodes[i + 1].labelText == t.foundHosts[i] && t.nodes[i + 1].group == "attached_device")
    && (forall i :: 0 <= i < |t.edges| ==>
         t.edges[i].from == 1 && t.edges[i].to == i + 2
         && t.edges[i].value >= 0 && t.edges[i].value % 10 == 0)
    && (forall i, j :: 0 <= i < j < |t.foundHosts| ==> t.foundHosts[i] != t.foundHosts[j])
  }

  lemma BumpValid(t: Topology, id: int, extra: string)
    requires Valid(t)
    ensures Valid(t.(edges := Bump(t.edges, id, extra)))
  {
    forall i | 0 <= i < |t.edges| ensures Bump(t.edges, id, extra)[i] == BumpOne(t.edges[i], id, extra) {
      BumpAt(t.edges, id, extra, i);
    }
  }

  /** Every row keeps the shape. */
  lemma StepValid(t: Topology, row: CdpRow)
    requires Valid(t)
    ensures Valid(Step(t, row))
  {
    var t1 := WithRoot(t, row);
    assert Valid(t1);
    if row.remoteHost !in t1.foundHosts {
      AddValid(t1, row);
    } else {
      match FirstLabelContaining(t1.nodes, row.remoteHost)
        case None =>
        case Some(k) => BumpValid(t1, t1.nodes[k].id, ExtraTitle(row));
    }
  }

  lemma AddValid(t: Topology, row: CdpRow)
    requires Valid(t) && |t.nodes| > 0 && row.remoteHost !in t.foundHosts
    ensures Valid(Step(t, row))
  {
    assert WithRoot(t, row) == t;
  }

  lemma {:induction false} BuildValid(rows: seq<CdpRow>)
    ensures Valid(Build(rows))
    decreases |rows|
  {
    if rows != [] {
      BuildValid(rows[..|rows| - 1]);
      StepValid(Build(rows[..|rows| - 1]), rows[|rows| - 1]);
    }
  }

  lemma BuildCounter(rows: seq<CdpRow>)
    ensures Build(rows).counter == |Build(rows).nodes| + 1
  {
    BuildValid(rows);
  }

  /** The first row's local device is node 1, the root, and stays first. */
  lemma {:induction false} RootIsFirstRowsDevice(rows: seq<CdpRow>)
    requires rows != []
    ensures |Build(rows).nodes| >= 1
    ensures Build(rows).nodes[0] == Node(1, rows[0].localHost, None, "root_device")
    decreases |rows|
  {
    var init := rows[..|rows| - 1];
    BuildValid(init);
    if init != [] {
      RootIsFirstRowsDevice(init);
      assert init[0] == rows[0];
    }
  }

  /** The hosts found are exactly the neighbour names of the rows. */
  lemma {:induction false} FoundHostsAreNeighbours(rows: seq<CdpRow>)
    ensures forall x :: x in Build(rows).foundHosts <==>
      exists i :: 0 <= i < |rows| && rows[i].remoteHost == x
    decreases |rows|
  {
    if rows != [] {
      var init := rows[..|rows| - 1];
      FoundHostsAreNeighbours(init);
      assert forall i :: 0 <= i < |init| ==> init[i] == rows[i];
    }
  }

  /** A neighbour seen before adds no node and no edge: only edges to the first node whose
      label contains its name change, each gaining 10 and the extra title; when that node is
      the root, nothing changes at all. */
  lemma RepeatedNeighbour(t: Topology, row: CdpRow)
    requires Valid(t) && row.remoteHost in t.foundHosts
    ensures var t' := Step(t, row);
      t'.nodes == t.nodes && t'.foundHosts == t.foundHosts && t'.counter == t.counter
      && |t'.edges| == |t.edges|
      && forall i :: 0 <= i < |t.edges| ==>
           t'.edges[i] == (match FirstLabelContaining(t.nodes, row.remoteHost)
                             case None => t.edges[i]
                             case Some(k) => BumpOne(t.edges[i], t.nodes[k].id, ExtraTitle(row)))
    ensures FirstLabelContaining(t.nodes, row.remoteHost) == Some(0) ==> Step(t, row) == t
  {
    assert |t.nodes| > 0;
    match FirstLabelContaining(t.nodes, row.remoteHost)
      case None =>
      case Some(k) =>
        forall i | 0 <= i < |t.edges|
          ensures Bump(t.edges, t.nodes[k].id, ExtraTitle(row))[i] == BumpOne(t.edges[i], t.nodes[k].id, ExtraTitle(row))
        {
          BumpAt(t.edges, t.nodes[k].id, ExtraTitle(row), i);
        }
  }

  /** A new neighbour adds one attached node with the next id and one edge of value 0 from
      the root to it. */
  lemma NewNeighbour(t: Topology, row: CdpRow)
    requires Valid(t) && row.remoteHost !in t.foundHosts
    ensures var t1 := WithRoot(t, row);
      var t' := Step(t, row);
      t'.nodes == t1.nodes + [Node(|t1.nodes| + 1, row.remoteHost, Some(NodeTitle(row)), "attached_device")]
      && t'.edges == t1.edges + [Edge(1, |t1.nodes| + 1, EdgeTitle(row), "", 0)]
      && t'.foundHosts == t.foundHosts + [row.remoteHost]
  {
  }
}
