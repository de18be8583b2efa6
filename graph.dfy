/** The diagram the canvas edits: nodes and edges as the editor keeps them
    (two ordered lists), the ids and labels it generates, and the pure list
    updates its callbacks hand to `setNodes` / `setEdges`. */
module Graph {
  import opened Wrappers
  import Decimal

  /** A flow-coordinate position, as the flow instance's projection returns it. */
  datatype Position = Position(x: real, y: real)

  /** A node: `id`, `data.label` (here `text`), `position` and `type`. */
  datatype Node = Node(id: string, text: string, position: Position, kind: string)

  /** An edge: `id`, `source`, `target`, the `markerEnd` type and the edge `type`. */
  datatype Edge = Edge(id: string, source: string, target: string, markerEnd: string, kind: string)

  const DefaultKind := "default"
  const ArrowClosed := "arrowclosed"
  const SmoothStep := "smoothstep"

  /** The id the generator gives for counter value `k`: `node_k`. */
  function NodeId(k: nat): string {
    "node_" + Decimal.NatToString(k)
  }

  /** The label `Node k`. */
  function NodeLabel(k: nat): string {
    "Node " + Decimal.NatToString(k)
  }

  /** Every id the generator has handed out once the counter reached `counter`. */
  ghost function IssuedIds(counter: nat): set<string> {
    set k: nat | k < counter :: NodeId(k)
  }

  /** The node created at module load, before any other id is drawn. */
  function DefaultNode(): Node {
    Node(NodeId(0), "Node 0", Position(250.0, 5.0), DefaultKind)
  }

  /** The node created by a double-click or a drag onto the pane when the
      generator hands out `node_k`: its label reads the counter after the
      increment, so it is `Node k+1`. */
  function NewNode(k: nat, position: Position): Node {
    Node(NodeId(k), NodeLabel(k + 1), position, DefaultKind)
  }

  /** The edge appended when a drag from `source` ends on the pane and creates `target`. */
  function ConnectEdge(source: string, target: string): Edge {
    Edge("e" + source + "-" + target, source, target, ArrowClosed, SmoothStep)
  }

  /** JavaScript's `x === selectedNodeId` for a string `x`: false when the slot is null. */
  predicate IsSelected(selected: Option<string>, id: string) {
    selected == Some(id)
  }

  predicate Touches(e: Edge, selected: Option<string>) {
    IsSelected(selected, e.source) || IsSelected(selected, e.target)
  }

  function NodeIds(nodes: seq<Node>): set<string> {
    set n | n in nodes :: n.id
  }

  /** Every edge ends at a node of the list. */
  ghost predicate TargetsPresent(nodes: seq<Node>, edges: seq<Edge>) {
    forall e :: e in edges ==> e.target in NodeIds(nodes)
  }

  /** Both ends of every edge are nodes of the list: no dangling edge. */
  ghost predicate EdgesClosed(nodes: seq<Node>, edges: seq<Edge>) {
    forall e :: e in edges ==> e.source in NodeIds(nodes) && e.target in NodeIds(nodes)
  }

  ghost predicate UniqueIds(nodes: seq<Node>) {
    forall i, j :: 0 <= i < j < |nodes| ==> nodes[i].id != nodes[j].id
  }

  // ---------------------------------------------------------------------
  // Id generation

  /** Two counter values give the same id exactly when they are equal, so
      successive ids are pairwise distinct. */
  lemma NodeIdInjective(a: nat, b: nat)
    ensures NodeId(a) == NodeId(b) <==> a == b
  {
    var p := "node_";
    if NodeId(a) == NodeId(b) {
      assert Decimal.NatToString(a) == NodeId(a)[|p|..];
      assert Decimal.NatToString(b) == NodeId(b)[|p|..];
    }
    Decimal.RenderingInjective(a, b);
  }

  /** The id drawn at counter value `c` is none of the ids drawn before. */
  lemma FreshId(c: nat)
    ensures NodeId(c) !in IssuedIds(c)
  {
    forall k: nat | k < c ensures NodeId(k) != NodeId(c) {
      NodeIdInjective(k, c);
    }
  }

  /** Drawing one id adds exactly that id to the issued ones. */
  lemma IssuedStep(c: nat)
    ensures IssuedIds(c + 1) == IssuedIds(c) + {NodeId(c)}
  {
  }

  /** The label of a created node is off by one from its id (`node_k` is
      labelled `Node k+1`), while the initial node `node_0` is labelled `Node 0`. */
  lemma LabelFollowsCounter(k: nat, position: Position)
    ensures NewNode(k, position).id == NodeId(k)
    ensures NewNode(k, position).text != NodeLabel(k)
    ensures DefaultNode().id == NodeId(0) && DefaultNode().text == NodeLabel(0)
  {
    Decimal.RenderingInjective(k, k + 1);
    var p := "Node ";
    assert NodeLabel(k)[|p|..] == Decimal.NatToString(k);
    assert NodeLabel(k + 1)[|p|..] == Decimal.NatToString(k + 1);
  }

  // ---------------------------------------------------------------------
  // Rename (the `map` in handleRename)

  /** Every node whose id equals the selection gets the new label; nothing
      else about any node, nor the length or order of the list, changes. */
  function Rename(nodes: seq<Node>, selected: Option<string>, newLabel: string): (r: seq<Node>)
    ensures |r| == |nodes|
    ensures forall i :: 0 <= i < |nodes| && IsSelected(selected, nodes[i].id) ==>
      r[i] == nodes[i].(text := newLabel)
    ensures forall i :: 0 <= i < |nodes| && !IsSelected(selected, nodes[i].id) ==>
      r[i] == nodes[i]
  {
    if nodes == [] then []
    else
      var n := nodes[0];
      [if IsSelected(selected, n.id) then n.(text := newLabel) else n] + Rename(nodes[1..], selected, newLabel)
  }

  /** Renaming never changes which ids are present. */
  lemma RenameKeepsIds(nodes: seq<Node>, selected: Option<string>, newLabel: string)
    ensures NodeIds(Rename(nodes, selected, newLabel)) == NodeIds(nodes)
  {
  }

  /** Two renames of the same selection: the later label wins. */
  lemma RenameLastWins(nodes: seq<Node>, selected: Option<string>, first: string, second: string)
    ensures Rename(Rename(nodes, selected, first), selected, second) == Rename(nodes, selected, second)
  {
  }

  /** With nothing selected, or a selection no node carries, renaming changes nothing. */
  lemma RenameUnmatched(nodes: seq<Node>, selected: Option<string>, newLabel: string)
    requires selected.None? || selected.value !in NodeIds(nodes)
    ensures Rename(nodes, selected, newLabel) == nodes
  {
  }

  // ---------------------------------------------------------------------
  // Delete (the two `filter`s in handleDelete)

  /** The nodes whose id is not the selection, in their original order. */
  function DeleteNodes(nodes: seq<Node>, selected: Option<string>): (r: seq<Node>)
    ensures forall n :: n in r <==> n in nodes && !IsSelected(selected, n.id)
    ensures |r| <= |nodes|
  {
    if nodes == [] then []
    else
      var rest := DeleteNodes(nodes[1..], selected);
      if IsSelected(selected, nodes[0].id) then rest else [nodes[0]] + rest
  }

  /** The edges touching neither end of the selection, in their original order. */
  function DropIncidentEdges(edges: seq<Edge>, selected: Option<string>): (r: seq<Edge>)
    ensures forall e :: e in r <==> e in edges && !Touches(e, selected)
    ensures |r| <= |edges|
  {
    if edges == [] then []
    else
      var rest := DropIncidentEdges(edges[1..], selected);
      if Touches(edges[0], selected) then rest else [edges[0]] + rest
  }

  /** Deletion keeps order: filtering a concatenation filters each part. */
  lemma {:induction false} DeleteNodesAppend(a: seq<Node>, b: seq<Node>, selected: Option<string>)
    ensures DeleteNodes(a + b, selected) == DeleteNodes(a, selected) + DeleteNodes(b, selected)
  {
    if a != [] {
      assert (a + b)[1..] == a[1..] + b;
      DeleteNodesAppend(a[1..], b, selected);
    } else {
      assert a + b == b;
    }
  }

  lemma {:induction false} DropIncidentEdgesAppend(a: seq<Edge>, b: seq<Edge>, selected: Option<string>)
    ensures DropIncidentEdges(a + b, selected) == DropIncidentEdges(a, selected) + DropIncidentEdges(b, selected)
  {
    if a != [] {
      assert (a + b)[1..] == a[1..] + b;
      DropIncidentEdgesAppend(a[1..], b, selected);
    } else {
      assert a + b == b;
    }
  }

  /** A list with no selected node is left exactly as it was. */
  lemma {:induction false} DeleteUnmatched(nodes: seq<Node>, selected: Option<string>)
    requires forall n :: n in nodes ==> !IsSelected(selected, n.id)
    ensures DeleteNodes(nodes, selected) == nodes
  {
    if nodes != [] {
      assert forall n :: n in nodes[1..] ==> n in nodes;
      DeleteUnmatched(nodes[1..], selected);
    }
  }

  /** After a delete no node carries the id and no edge refers to it; a
      graph without dangling edges stays without. */
  lemma DeleteKeepsEdgesClosed(nodes: seq<Node>, edges: seq<Edge>, selected: Option<string>)
    requires EdgesClosed(nodes, edges)
    ensures selected.Some? ==> selected.value !in NodeIds(DeleteNodes(nodes, selected))
    ensures forall e :: e in DropIncidentEdges(edges, selected) ==>
      Some(e.source) != selected && Some(e.target) != selected
    ensures EdgesClosed(DeleteNodes(nodes, selected), DropIncidentEdges(edges, selected))
  {
  }

  /** The same for the weaker invariant the editor keeps: every edge's target is present. */
  lemma DeleteKeepsTargetsPresent(nodes: seq<Node>, edges: seq<Edge>, selected: Option<string>)
    requires TargetsPresent(nodes, edges)
    ensures TargetsPresent(DeleteNodes(nodes, selected), DropIncidentEdges(edges, selected))
  {
  }

  // ---------------------------------------------------------------------
  // Appending nodes and edges

  /** Appending a node adds exactly its id and keeps every edge's ends. */
  lemma AppendNodeIds(nodes: seq<Node>, n: Node)
    ensures NodeIds(nodes + [n]) == NodeIds(nodes) + {n.id}
  {
  }

  /** A node appended under a freshly drawn id keeps ids unique, provided every
      id so far came from the generator. */
  lemma FreshAppendKeepsUnique(nodes: seq<Node>, c: nat, position: Position)
    requires UniqueIds(nodes)
    requires forall n :: n in nodes ==> n.id in IssuedIds(c)
    ensures UniqueIds(nodes + [NewNode(c, position)])
  {
    FreshId(c);
    var r := nodes + [NewNode(c, position)];
    forall i, j | 0 <= i < j < |r| ensures r[i].id != r[j].id {
      if j == |nodes| {
        assert r[i] in nodes;
      }
    }
  }

  /** A received node is appended without any check of its id: a node whose
      id is already present makes the ids no longer unique. */
  lemma AppendDuplicates(nodes: seq<Node>, n: Node)
    requires n.id in NodeIds(nodes)
    ensures !UniqueIds(nodes + [n])
  {
    var m :| m in nodes && m.id == n.id;
    var i :| 0 <= i < |nodes| && nodes[i] == m;
    var r := nodes + [n];
    assert r[i].id == r[|nodes|].id;
  }

  /** The reverse collision: a peer's node carrying the id this client's
      counter draws next is followed, at the next local creation, by a second
      node with the same id. */
  lemma PeerIdThenLocalDraw(nodes: seq<Node>, n: Node, c: nat, position: Position)
    requires n.id == NodeId(c)
    ensures !UniqueIds(nodes + [n] + [NewNode(c, position)])
  {
    var r := nodes + [n] + [NewNode(c, position)];
    assert r[|nodes|].id == r[|nodes| + 1].id;
  }

  /** A drag that ends on the pane appends a node and an edge from the drag's
      source to it; when the source is present, no edge dangles afterwards. */
  lemma ConnectKeepsEdgesClosed(nodes: seq<Node>, edges: seq<Edge>, source: string, n: Node)
    requires EdgesClosed(nodes, edges)
    requires source in NodeIds(nodes)
    ensures EdgesClosed(nodes + [n], edges + [ConnectEdge(source, n.id)])
  {
  }

  /** Whatever the drag's source, the new edge's target is the new node. */
  lemma ConnectKeepsTargetsPresent(nodes: seq<Node>, edges: seq<Edge>, source: string, n: Node)
    requires TargetsPresent(nodes, edges)
    ensures TargetsPresent(nodes + [n], edges + [ConnectEdge(source, n.id)])
  {
  }
}
