# Collaborative canvas client: editor state and join form

This project is a Dafny model of the client side of a collaborative diagram
dashboard, as written in React. It covers two parts.

**The canvas editor** (`src/components/Canvas.jsx`). A diagram is an ordered
list of nodes (`id`, label, position, type) and an ordered list of edges
(`id`, `source`, `target`, marker, type). A module-level counter hands out
node ids `node_0`, `node_1`, …. Loading the module draws `node_0` for the
initial node, labelled `Node 0`. The component also keeps the flow instance,
the context menu, the selected node and the source node of a connection drag.
Its callbacks are modelled as methods of the class `CanvasEditor.Canvas`:

- double-click creates a node;
- right-click selects a node;
- the menu's Rename relabels the selection;
- the menu's Delete removes the selection and its incident edges;
- a connection drag that ends on the empty pane creates a node and an edge to it;
- an `add-node` message from a peer appends the received node.

The list updates these callbacks hand to `setNodes` and `setEdges` are pure
functions in module `Graph`, and the lemmas there state what they keep:

- drawn ids are fresh;
- a rename touches only the labels of the selected nodes, and the last rename wins;
- a delete keeps order and leaves no edge pointing at the deleted id;
- no edge dangles after a delete, nor after a connection whose source is present;
- a node received from a peer is appended without any check of its id.

The class invariant `Valid` says that every edge ends at a node that is
present and whose id was drawn by the generator.

**The join form** (`src/components/joinPage.jsx`), as the class
`JoinPage.JoinPage`. Joining is refused, with an error message, when the room
id or the username is blank after JavaScript's `trim`, so whitespace-only
input is refused too. Otherwise the form yields the route
`/Dashboard?room=<roomId>&user=<username>`, built from the untrimmed values.
"New room" sets the room id to characters 2 to 5 of a random token. The route
string is checked against a reader that works like `URLSearchParams.get`
on its query string (`JoinPage.QueryGet`). JavaScript's `trim` and
`substring` are modelled in module `JsText`.

Three facts about the code that the model keeps as they are:

- A join is refused for whitespace-only values, not only for empty ones
  (`JoinPage.JoinGuard`).
- Node ids come from a counter local to each client, and a peer's node is
  appended as it arrives, so ids can collide across clients
  (`Graph.AppendDuplicates`, `Graph.PeerIdThenLocalDraw`).
- The only synchronised event is `add-node`, which appends; nothing updates
  an existing node.

## Model

| member | source | states |
|---|---|---|
| `Decimal.NatToString` | src/components/Canvas.jsx:25 | The counter's decimal rendering in `node_${id++}` is non-empty and all digits, and starts with `0` only for zero. |
| `Decimal.ValueOfRendering` | src/components/Canvas.jsx:25 | Reading the rendered digits back gives the counter value (round trip). |
| `Decimal.RenderingInjective` | src/components/Canvas.jsx:25 | Two counter values render to the same digits exactly when they are equal. |
| `Graph.NodeIdInjective` | src/components/Canvas.jsx:24-25 | `node_a` equals `node_b` exactly when `a == b`, so successive ids are pairwise distinct. |
| `Graph.FreshId` | src/components/Canvas.jsx:24-25 | The id drawn at counter value N is none of the ids drawn at 0..N-1. |
| `Graph.IssuedStep` | src/components/Canvas.jsx:24-25 | One draw adds exactly `node_N` to the set of issued ids. |
| `Graph.LabelFollowsCounter` | src/components/Canvas.jsx:53-55 | A created node `node_k` is labelled `Node k+1`, not `Node k`, because the label reads the counter after the increment. The initial node `node_0` is labelled `Node 0`. |
| `Graph.Rename` | src/components/Canvas.jsx:78-84 | Same length and order. Each node whose id equals the selection gets the new label and keeps every other field. Every other node is unchanged. With a null selection nothing matches. |
| `Graph.RenameKeepsIds` | src/components/Canvas.jsx:78-84 | Renaming never changes the set of node ids. |
| `Graph.RenameLastWins` | src/components/Canvas.jsx:75-87 | Two renames of the same selection equal the second one alone (last rename wins). |
| `Graph.RenameUnmatched` | src/components/Canvas.jsx:78-84 | With no selection, or a selection no node carries, renaming leaves the list unchanged. |
| `Graph.DeleteNodes` | src/components/Canvas.jsx:90 | The result holds exactly the nodes whose id is not the selection, and is no longer than the input. |
| `Graph.DropIncidentEdges` | src/components/Canvas.jsx:91 | The result holds exactly the edges whose source and target both differ from the selection. |
| `Graph.DeleteNodesAppend` | src/components/Canvas.jsx:90 | Node deletion distributes over concatenation, so the kept nodes stay in their original order. |
| `Graph.DropIncidentEdgesAppend` | src/components/Canvas.jsx:91 | Edge removal distributes over concatenation, so the kept edges stay in their original order. |
| `Graph.DeleteUnmatched` | src/components/Canvas.jsx:90 | A list with no selected node is returned exactly as it was. |
| `Graph.DeleteKeepsEdgesClosed` | src/components/Canvas.jsx:89-93 | After a delete, no node carries the deleted id and no edge refers to it. A graph without dangling edges stays without. |
| `Graph.DeleteKeepsTargetsPresent` | src/components/Canvas.jsx:89-93 | If every edge's target was present before a delete, it is present after. |
| `Graph.AppendNodeIds` | src/components/Canvas.jsx:59 | Appending a node adds exactly its id to the set of node ids. |
| `Graph.FreshAppendKeepsUnique` | src/components/Canvas.jsx:53-59 | A node appended under a freshly drawn id keeps node ids unique, when every existing id came from the generator. |
| `Graph.AppendDuplicates` | src/components/Canvas.jsx:155-157 | A received node whose id is already present is still appended, and ids are no longer unique. |
| `Graph.PeerIdThenLocalDraw` | src/components/Canvas.jsx:155-157 | A peer's node carrying the id this client draws next is followed, at the next local creation, by a second node with that id, so ids are no longer unique. |
| `Graph.ConnectKeepsEdgesClosed` | src/components/Canvas.jsx:136-146 | The appended node and the edge from the drag's source to it leave no dangling edge, when the source is present. |
| `Graph.ConnectKeepsTargetsPresent` | src/components/Canvas.jsx:136-146 | Whatever the drag's source, the new edge's target is the appended node. |
| `CanvasEditor.Canvas.constructor` | src/components/Canvas.jsx:24-41 | After module load and the first mount, the counter is 1, the nodes are `[node_0 "Node 0" at (250, 5)]`, there are no edges, and every slot is null. |
| `CanvasEditor.Canvas.Remount` | src/components/Canvas.jsx:36-41 | A later mount resets the lists and slots to their initial values, but the module-level counter keeps its value. |
| `CanvasEditor.Canvas.GetId` | src/components/Canvas.jsx:24-25 | Returns `node_N` for the old counter N and increments the counter. The id is not among those issued before, and the issued set grows by exactly that id. |
| `CanvasEditor.Canvas.OnInit` | src/components/Canvas.jsx:176 | The flow instance becomes available. |
| `CanvasEditor.Canvas.OnDoubleClick` | src/components/Canvas.jsx:45-63 | Without a flow instance nothing changes and nothing is sent. With one, a single fresh node `node_N` labelled `Node N+1` is appended at the end, the existing nodes are kept, and that node is sent. Edges and slots are unchanged. |
| `CanvasEditor.Canvas.OnNodeContextMenu` | src/components/Canvas.jsx:66-73 | The right-clicked node becomes the selection, and the menu opens at the mouse position. |
| `CanvasEditor.Canvas.HandleRename` | src/components/Canvas.jsx:75-87 | A non-empty answer relabels exactly the selected nodes. An empty or cancelled answer leaves the nodes untouched. Node ids never change, and the menu closes in both cases. |
| `CanvasEditor.Canvas.HandleDelete` | src/components/Canvas.jsx:89-93 | Removes the selected nodes and every edge touching the selection, keeping the rest in order. No node keeps the id and no edge refers to it. The menu closes, and the selection is left as it was. |
| `CanvasEditor.Canvas.OnConnectStart` | src/components/Canvas.jsx:113-115 | The drag source becomes the given node id, or null. |
| `CanvasEditor.Canvas.OnConnectEnd` | src/components/Canvas.jsx:118-151 | On the pane, with a flow instance and a non-empty source, one fresh node and one edge `e<source>-<new id>` from the source to it are appended. Otherwise nodes, edges and counter are unchanged. The drag source is null afterwards in every case. |
| `CanvasEditor.Canvas.OnPeerNode` | src/components/Canvas.jsx:154-157 | The received node is appended as it is, so the node count grows by one. |
| `JsText.TrimStart` | src/components/joinPage.jsx:12 | Leading white space is removed: the result is a suffix, starts with a non-space, and everything cut off was white space. |
| `JsText.TrimEnd` | src/components/joinPage.jsx:12 | Trailing white space is removed: the result is a prefix, ends with a non-space, and everything cut off was white space. |
| `JsText.BlankIffAllSpace` | src/components/joinPage.jsx:12 | `!s.trim()` holds exactly when every character of `s` is white space, including when `s` is empty. |
| `JsText.SubstringSwap` | src/components/joinPage.jsx:19 | `substring` gives the same result whichever order its bounds are in. |
| `JsText.SubstringInRange` | src/components/joinPage.jsx:19 | With bounds in order and inside the string, `substring` is exactly that slice. |
| `JsText.SubstringClamps` | src/components/joinPage.jsx:19 | A bound below zero acts as zero, and a bound past the end acts as the string's length. |
| `JoinPage.JoinGuard` | src/components/joinPage.jsx:12-15 | A join is accepted exactly when both the room id and the username contain a non-space character. |
| `JoinPage.RouteRoundTrip` | src/components/joinPage.jsx:16 | Reading the route string's `room` and `user` parameters gives back the untrimmed room id and username. This holds when neither contains `&`, `#`, `%` or `+`, because the route is not URL-encoded. |
| `JoinPage.NewRoomIdShape` | src/components/joinPage.jsx:19-20 | The generated room id is the token's characters 2 to 5. That is 4 characters, fewer for a token shorter than 6, and none for a token of at most 2. |
| `JoinPage.NewRoomIdNotBlank` | src/components/joinPage.jsx:19-20 | A token whose third character is not white space gives a room id that the join guard accepts. |
| `JoinPage.JoinPage.constructor` | src/components/joinPage.jsx:6-8 | The room id, username and error message all start empty. |
| `JoinPage.JoinPage.OnRoomIdInput` | src/components/joinPage.jsx:28 | Typing sets the room id. |
| `JoinPage.JoinPage.OnUsernameInput` | src/components/joinPage.jsx:29 | Typing sets the username. |
| `JoinPage.JoinPage.JoinRoom` | src/components/joinPage.jsx:11-17 | Navigates exactly when both fields are non-blank, to `/Dashboard?room=` + roomId + `&user=` + username with the untrimmed values. Otherwise it sets the error message and does not navigate. The fields never change, and success leaves the message as it was. |
| `JoinPage.JoinPage.CreateNewRoom` | src/components/joinPage.jsx:18-22 | The room id becomes the token's characters 2 to 5, so at most 4 characters, and the error message is cleared. |

## Left out

- Socket traffic is not modelled: connecting, `emit`, and registering and removing the `add-node` listener. `OnDoubleClick` returns the node it would send. `OnPeerNode` is the list update a received node causes.
- The flow library is not modelled: `onConnect` with `addEdge`, the node and edge change handlers (dragging, moving, keyboard deletion), and the screen-to-flow projection. The projected position is an input of `OnDoubleClick` and `OnConnectEnd`. The edge's marker and line type are the strings `arrowclosed` and `smoothstep`.
- The browser is not modelled. The `prompt` answer is an input of `HandleRename`, with `None` for cancel. `OnConnectEnd` takes a boolean for whether the drag ended on the pane; the event object and its class list are left out. `preventDefault` and menu styling are left out too.
- `Math.random().toString(36)` is not modelled; the token is an input of `CreateNewRoom`.
- Navigation is not performed: `JoinRoom` returns the route instead.
- The dashboard page, the sidebar, routing and bootstrapping are not part of this model. The exception is that `JoinPage.QueryGet` stands in for the dashboard's `searchParams.get`.
- `JoinPage.QueryGet` does not model percent-decoding or decoding `+` as a space. `JoinPage.RouteRoundTrip` therefore requires values without `%` and `+`, and without `&` and `#`.
- JoinPage.RouteRoundTrip: is about the route string only. The browser's URL parsing between navigation and the dashboard is not modelled. That parsing strips spaces and control characters at the ends of the URL and removes tabs and line breaks, so a username ending in a space arrives without it.
- JavaScript numbers are not modelled. The counter is an unbounded natural number, so precision loss past 2^53 is left out. Positions are reals, not floating point.
- Strings are sequences of Unicode scalar values, not UTF-16 code units. For characters outside the Basic Multilingual Plane, `substring` indices would differ.
- `CanvasEditor.Canvas.Valid` requires only that every edge's target is present. The source of a drag is not checked against the node list, and the selection can be deleted between the start and end of a drag. So "both ends present" (`Graph.EdgesClosed`) is proved for each operation under its own precondition, not kept as a class invariant.
- Room registry, sessions, presence, relay and server-side validation are not part of this model. The code shown has only the client.
