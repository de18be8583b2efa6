/** The editing state of the canvas component: the module-level id counter,
    the node and edge lists, whether the flow instance is initialised, the
    context menu, and the `selectedNodeId` / `connectingNodeId` slots. Each
    callback is a method; the list updates it performs are the functions of
    module Graph. */
module CanvasEditor {
  import opened Wrappers
  import opened Graph

  /** Where the context menu opens (the mouse's client coordinates). */
  datatype MenuAnchor = MenuAnchor(mouseX: real, mouseY: real)

  class Canvas {
    /** The module-level counter `id`: the next id drawn is `node_counter`. */
    var counter: nat
    var nodes: seq<Node>
    var edges: seq<Edge>
    /** `reactFlowInstance` is non-null. */
    var flowReady: bool
    var contextMenu: Option<MenuAnchor>
    var selectedNodeId: Option<string>
    var connectingNodeId: Option<string>

    /** The counter has moved past the initial node's id, and every edge ends
        at a node of the list whose id the generator has drawn. */
    ghost predicate Valid()
      reads this
    {
      1 <= counter &&
      TargetsPresent(nodes, edges) &&
      forall e :: e in edges ==> e.target in IssuedIds(counter)
    }

    /** Module load (the initial node draws `node_0`) followed by the first mount. */
    constructor ()
      ensures Valid()
      ensures counter == 1 && nodes == [DefaultNode()] && edges == []
      ensures !flowReady && contextMenu == None
      ensures selectedNodeId == None && connectingNodeId == None
    {
      counter := 0;
      nodes, edges := [], [];
      flowReady := false;
      contextMenu, selectedNodeId, connectingNodeId := None, None, None;
      new;
      var first := GetId();
      nodes := [Node(first, "Node 0", Position(250.0, 5.0), DefaultKind)];
    }

    /** A later mount of the component: its state starts afresh from the
        initial node, but the module-level counter keeps its value. */
    method Remount()
      modifies this`nodes, this`edges, this`flowReady, this`contextMenu,
               this`selectedNodeId, this`connectingNodeId
      requires Valid()
      ensures Valid()
      ensures nodes == [DefaultNode()] && edges == []
      ensures !flowReady && contextMenu == None
      ensures selectedNodeId == None && connectingNodeId == None
    {
      nodes, edges := [DefaultNode()], [];
      flowReady := false;
      contextMenu, selectedNodeId, connectingNodeId := None, None, None;
    }

    /** `getId`: the id `node_N` for the current counter value N, then N + 1.
        The id is none of those drawn before. */
    method GetId() returns (id: string)
      modifies this`counter
      ensures id == NodeId(old(counter)) && counter == old(counter) + 1
      ensures id !in IssuedIds(old(counter))
      ensures IssuedIds(counter) == IssuedIds(old(counter)) + {id}
    {
      id := NodeId(counter);
      FreshId(counter);
      IssuedStep(counter);
      counter := counter + 1;
    }

    /** `onInit`: the flow instance becomes available. */
    method OnInit()
      modifies this`flowReady
      ensures flowReady
    {
      flowReady := true;
    }

    /** Double-click at the projected `position`: with a flow instance, one
        node is appended under a fresh id and handed to the socket; without
        one, nothing happens. */
    method OnDoubleClick(position: Position) returns (sent: Option<Node>)
      modifies this`counter, this`nodes
      requires Valid()
      ensures Valid()
      ensures !flowReady ==> sent == None && counter == old(counter) && nodes == old(nodes)
      ensures flowReady ==>
        sent == Some(NewNode(old(counter), position)) &&
        counter == old(counter) + 1 &&
        nodes == old(nodes) + [NewNode(old(counter), position)] &&
        NodeId(old(counter)) !in IssuedIds(old(counter))
    {
      if !flowReady {
        return None;
      }
      var newId := GetId();
      var newNode := Node(newId, NodeLabel(counter), position, DefaultKind);
      AppendNodeIds(nodes, newNode);
      nodes := nodes + [newNode];
      sent := Some(newNode);
    }

    /** Right-click on a node: it becomes the selection and the menu opens there. */
    method OnNodeContextMenu(nodeId: string, mouseX: real, mouseY: real)
      modifies this`selectedNodeId, this`contextMenu
      ensures selectedNodeId == Some(nodeId)
      ensures contextMenu == Some(MenuAnchor(mouseX, mouseY))
    {
      selectedNodeId := Some(nodeId);
      contextMenu := Some(MenuAnchor(mouseX, mouseY));
    }

    /** The menu's Rename with the prompt's answer (`None` when cancelled): a
        non-empty answer relabels the selected nodes; the menu closes either way. */
    method HandleRename(answer: Option<string>)
      modifies this`nodes, this`contextMenu
      requires Valid()
      ensures Valid()
      ensures answer.Some? && answer.value != "" ==>
        nodes == Rename(old(nodes), selectedNodeId, answer.value)
      ensures answer.None? || answer.value == "" ==> nodes == old(nodes)
      ensures NodeIds(nodes) == NodeIds(old(nodes))
      ensures contextMenu == None
    {
      if answer.Some? && answer.value != "" {
        RenameKeepsIds(nodes, selectedNodeId, answer.value);
        nodes := Rename(nodes, selectedNodeId, answer.value);
      }
      contextMenu := None;
    }

    /** The menu's Delete: the selected nodes go, and with them every edge
        that starts or ends at the selection; the menu closes. The selection
        itself is left as it was. */
    method HandleDelete()
      modifies this`nodes, this`edges, this`contextMenu
      requires Valid()
      ensures Valid()
      ensures nodes == DeleteNodes(old(nodes), selectedNodeId)
      ensures edges == DropIncidentEdges(old(edges), selectedNodeId)
      ensures selectedNodeId.Some? ==> selectedNodeId.value !in NodeIds(nodes)
      ensures forall e :: e in edges ==> !Touches(e, selectedNodeId)
      ensures contextMenu == None
    {
      DeleteKeepsTargetsPresent(nodes, edges, selectedNodeId);
      nodes := DeleteNodes(nodes, selectedNodeId);
      edges := DropIncidentEdges(edges, selectedNodeId);
      contextMenu := None;
    }

    /** A connection drag starts from `nodeId` (null when the library gives none). */
    method OnConnectStart(nodeId: Option<string>)
      modifies this`connectingNodeId
      ensures connectingNodeId == nodeId
    {
      connectingNodeId := nodeId;
    }

    /** A connection drag ends. On the pane, with a flow instance and a
        non-empty drag source, one node is appended under a fresh id and one
        edge from the source to it; otherwise the lists are untouched. The
        drag source is cleared in every case. */
    method OnConnectEnd(targetIsPane: bool, position: Position)
      modifies this`counter, this`nodes, this`edges, this`connectingNodeId
      requires Valid()
      ensures Valid()
      ensures connectingNodeId == None
      ensures
        var go := targetIsPane && flowReady && old(connectingNodeId).Some? && old(connectingNodeId).value != "";
        (go ==>
          counter == old(counter) + 1 &&
          nodes == old(nodes) + [NewNode(old(counter), position)] &&
          edges == old(edges) + [ConnectEdge(old(connectingNodeId).value, NodeId(old(counter)))]) &&
        (!go ==> counter == old(counter) && nodes == old(nodes) && edges == old(edges))
    {
      if targetIsPane && flowReady && connectingNodeId.Some? && connectingNodeId.value != "" {
        var newNodeId := GetId();
        var newNode := Node(newNodeId, NodeLabel(counter), position, DefaultKind);
        var source := connectingNodeId.value;
        ConnectKeepsTargetsPresent(nodes, edges, source, newNode);
        nodes := nodes + [newNode];
        edges := edges + [ConnectEdge(source, newNodeId)];
      }
      connectingNodeId := None;
    }

    /** An `add-node` message from a peer: the node is appended as it is,
        with no check of its id against the ids present. */
    method OnPeerNode(node: Node)
      modifies this`nodes
      requires Valid()
      ensures Valid()
      ensures nodes == old(nodes) + [node]
      ensures |nodes| == |old(nodes)| + 1
    {
      AppendNodeIds(nodes, node);
      nodes := nodes + [node];
    }
  }
}
