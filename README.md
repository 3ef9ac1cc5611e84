# A verified model of the web-roscli graph browser core

web-roscli is a browser front end for looking at a running ROS 2 graph:
its nodes, its topics, and which nodes publish or subscribe to which
topics. A small Python backend asks ROS for names and endpoints and
serves them as JSON. The front end lists nodes and topics, draws a
force-directed graph, and keeps a history of the pages visited.

This project models the parts of that system that compute something, and
proves properties of them in Dafny:

- **Backend** (`backend.dfy`). Topic names are normalised: runs of `/`
  collapse to one and a leading `/` is added. The topic list and the topic
  reply are shaped from ROS results. The node list splits each name into
  namespace and node name and drops later duplicates by walking the names
  with a set of ids seen so far. The node lookup takes the first name whose
  last segment matches.
- **Journey store** (`journey_store.dfy`). A class `Store` holds the
  history list, at most 50 items, oldest first. Its methods `AddItem`,
  `ClearItems` and `RemoveItem` replace that list. Functions `Added` and
  `Removed` give the new list, and lemmas state what each action does.
- **Node graph** (`node_graph.dfy`). The method `BuildGraphData` builds
  the graph around one node with two loops, as the component does.
  Publisher topics are always pushed. A subscriber topic is pushed only
  when no node has its id yet.
- **Graph view rules** (`topic_graph.dfy`). Node and link colours, what a
  node click does, which legend entries show, and the tooltip label.
- **List pages** (`nodes_page.dfy`, `topics_page.dfy`). Id assignment and
  React keys, the case-insensitive search filter, the bold highlight, the
  topic heading, and clearing the detail when nothing is selected.
- **History panel** (`journey_history.dfy`). The route each history entry
  leads to, when the clear button or the empty text shows, and the remove
  button of row `i` calling `removeItem(i)` on the store.

Helper modules: `wrappers.dfy` (Option, Result), `text.dfy` (Python
`split`/`join` on one character, JavaScript `includes`, ASCII lower-casing,
decimal numerals), `lists.dfy` (`filter` and the sub-sequence relation),
`full_names.dfy` (the `namespace === '/' ? name : namespace/name` rule,
which the source repeats in three files), `routes.dfy` (the `/nodes?node=`
and `/topics?topic=` routes) and `api_types.dfy` (the JSON
records of frontend/app/types.ts and of the node reply).

`encodeURIComponent`, `decodeURIComponent`, `quote` and `unquote` are
function-typed parameters that the model does not interpret. The ROS
introspection calls are parameters too: lists of names, or functions from
a name to what ROS reports for it. `Date.now()` is a timestamp parameter.

Two consequences the proofs make visible:

- The nodes page requests a node's detail by its full name, and the
  backend matches a query against last name segments, which never hold
  `/`. So, on the decoded query, a node outside the root namespace is
  always answered "not found" (`NodesPage.DetailRequestOutsideRoot`).
- `get_node_list` treats `a` and `/a` as the same node, because both
  parse to namespace `/` and name `a`.

Two facts about the node graph that a reader might not expect:

- The central node's id is `namespace/name` even in the root namespace,
  which gives `//name` (`NodeGraph.CentralIdAtRoot`).
- Repeated publisher topics get one node each; only subscriber topics are
  checked against the nodes already present (`NodeGraph.PublisherNodesCount`).

## Model

| member | source | states |
|---|---|---|
| Backend.CollapseSlashes | backend/main.py:25 | The result has no two consecutive slashes, keeps the first character and is never longer than the input. |
| Backend.CollapseKeepsOtherChars | backend/main.py:25 | Collapsing slash runs changes nothing but slashes: deleting all `/` before and after gives the same text. |
| Backend.CollapseDoubledSlash | backend/main.py:25 | Doubling a slash anywhere changes nothing. With a name that has no `//` left unchanged, this fixes `re.sub(r'/+', '/', ...)`: every run of slashes becomes exactly one slash, in place. |
| Backend.NormalizeTopicName | backend/main.py:23-29 | Every normalised name starts with `/` and has no `//`. |
| Backend.NormalizeKeepsOtherChars | backend/main.py:23-29 | Normalising keeps all non-slash characters in order. |
| Backend.NormalizeFixedPoints | backend/main.py:23-29 | A name is left unchanged exactly when it starts with `/` and has no `//` (both directions). |
| Backend.NormalizeIdempotent | backend/main.py:23-29 | Normalising twice is the same as normalising once. |
| Backend.GetTopicList | backend/main.py:32-41 | One record per introspected topic, in order: the normalised name, the same types, and `quote` of the normalised name. |
| Backend.TopicListNamesNormal | backend/main.py:34-41 | Every listed topic name is already in normal form. |
| Backend.GetTopicInfo | backend/main.py:45-71 | The reply's topic is `normalize(unquote(arg))`, its encoded topic is `quote` of that, and publishers and subscribers map the ROS endpoints of that topic one-to-one, in order. |
| Backend.TopicInfoOfListedTopic | backend/main.py:36-56 | If `unquote` undoes `quote`, asking for a listed topic by its encoded name reports that same topic name. |
| Backend.ParseNodeNameShape | backend/main.py:87-88 | The node name holds no `/`. A name with `/` is the text before the last `/`, then `/`, then the node name; the namespace is that text, or `/` when it is empty. A name without `/` has namespace `/`. |
| Backend.NodeIdInjective | backend/main.py:89 | Two entries whose names hold no `/` have the same `namespace/name` id only if they are equal. |
| Backend.UniqueNodes | backend/main.py:82-98 | The node list as a function: parsed names, one kept only if its id is not among the ids kept so far. Its properties are stated by the `UniqueNodes...` lemmas below. |
| Backend.GetNodeList | backend/main.py:78-100 | The loop returns `UniqueNodes(names)`. It is no longer than the input, its ids are pairwise distinct, every input id appears, and the entries are in input order. |
| Backend.UniqueNodesDistinct | backend/main.py:82-98 | No two entries of the node list share an id. |
| Backend.UniqueNodesCover | backend/main.py:86-97 | The id of every introspected name appears in the node list. |
| Backend.UniqueNodesInOrder | backend/main.py:86-97 | The node list is a sub-sequence of the parsed names. |
| Backend.UniqueNodesFirstOccurrence | backend/main.py:92-97 | Each entry is parsed from some name, and no earlier name has the same id, so the first occurrence is kept. |
| Backend.SeenIds | backend/main.py:86-97 | An id is among the node list's ids exactly when some introspected name has it (both directions). |
| Backend.UniqueNodesAreFirstOccurrences | backend/main.py:82-98 | The node list equals the parsed names at exactly the indices whose id no earlier name has, in input order: first occurrences are kept, in the order they occur. |
| Backend.FindNode | backend/main.py:109 | A found name is in the list and its last segment is the query. Nothing is found exactly when no name's last segment is the query. |
| Backend.FindNodeFirst | backend/main.py:109 | The found name is the first name whose last segment matches. |
| Backend.GetNodeInfo | backend/main.py:104-128 | The node reply: the not-found error when no name's last segment is the query or the found name is empty, else the query, the found name's namespace and ROS's endpoints for that pair. Stated by `Backend.GetNodeInfoSpec` and `Backend.QueryWithSlashNotFound`. |
| Backend.GetNodeInfoSpec | backend/main.py:104-128 | An error is always the "Node q not found" message. A success reports the query and the namespace of the first matching name, with the endpoints ROS gives for them. No match means an error; a non-empty query with a match means a success. |
| Backend.QueryWithSlashNotFound | backend/main.py:109-111 | A query holding `/` is always answered with the not-found error. |
| JourneyStore.KeepLast | frontend/app/store/journeyStore.ts:26 | `slice(-n)` keeps the last `min(n, length)` elements, as a suffix. |
| JourneyStore.Added | frontend/app/store/journeyStore.ts:22-27 | The list after `addItem`: the stamped entry appended, then the last 50 kept. Stated by the `Added...` lemmas and `JourneyStore.AddsKeepLast`. |
| JourneyStore.Removed | frontend/app/store/journeyStore.ts:29-31 | The list after `removeItem`: every element whose position is not the index. Never longer than the input; stated exactly by `RemovedInRange` and `RemovedOutOfRange`. |
| JourneyStore.AddedShape | frontend/app/store/journeyStore.ts:22-27 | After `addItem` there are at most 50 items and the last one is the new entry with the given timestamp. |
| JourneyStore.AddedBelowCap | frontend/app/store/journeyStore.ts:23-26 | With fewer than 50 items nothing is evicted: the result is the old list plus the new item. |
| JourneyStore.AddedAtCap | frontend/app/store/journeyStore.ts:26 | With 50 items only the oldest is dropped, and the others keep their order. |
| JourneyStore.AddedTwiceKeepsBoth | frontend/app/store/journeyStore.ts:22-27 | No de-duplication: adding the same entry twice leaves two items, the last two. |
| JourneyStore.RemovedInRange | frontend/app/store/journeyStore.ts:29-31 | Removing index `i` in range gives `items[..i] + items[i+1..]`. |
| JourneyStore.RemovedOutOfRange | frontend/app/store/journeyStore.ts:29-31 | Removing a negative or too-large index leaves the list unchanged. |
| JourneyStore.ClearIdempotent | frontend/app/store/journeyStore.ts:28 | Clearing gives the empty list, and clearing again changes nothing. |
| JourneyStore.RunWithinCap | frontend/app/store/journeyStore.ts:21-31 | Starting from a list within the cap, any sequence of actions keeps at most 50 items. |
| JourneyStore.AddsKeepLast | frontend/app/store/journeyStore.ts:22-27 | A run of additions from the empty list holds the last 50 added items, in the order they were added. |
| JourneyStore.FiftyOneAdds | frontend/app/store/journeyStore.ts:26 | After 51 additions the first is gone and the other 50 remain, in order. |
| JourneyStore.Store.constructor | frontend/app/store/journeyStore.ts:21 | A new store is empty and within the cap. |
| JourneyStore.Store.AddItem | frontend/app/store/journeyStore.ts:22-27 | The new list is `Added(old list, entry, now)`, and the cap holds afterwards. |
| JourneyStore.Store.ClearItems | frontend/app/store/journeyStore.ts:28 | The new list is empty. |
| JourneyStore.Store.RemoveItem | frontend/app/store/journeyStore.ts:29-31 | In range, the new list is the old one without index `i`; out of range, it is unchanged. The cap holds afterwards. |
| NodeGraph.GraphNodes | frontend/app/components/NodeGraph.tsx:28-64 | The node list the builder produces: the central node, one topic node per publisher entry, then the subscriber pass. Stated by `GraphNodesPrefix`, `SharedTopicOnce` and `SubscriberOnlyTopicOnce`. |
| NodeGraph.AddSubscriberTopics | frontend/app/components/NodeGraph.tsx:55-64 | The subscriber pass: a topic node for each subscriber topic that no node has as id yet. Stated by `SubscriberPassAppends` and `SubscriberPassCounts`. |
| NodeGraph.BuildGraphData | frontend/app/components/NodeGraph.tsx:27-73 | The two loops return exactly `GraphNodes(info)` and `GraphLinks(info)`. The first node is the central node, then one topic node per publisher entry in order, and all later nodes are topics. There is one link per entry: first `central -> topic` with `publishes_to` for each publisher, then `topic -> central` with `subscribes_to` for each subscriber. Every link endpoint is a node id. |
| NodeGraph.GraphLinks | frontend/app/components/NodeGraph.tsx:47-69 | The link list the builder produces: one `publishes_to` link per publisher entry, then one `subscribes_to` link per subscriber entry. Stated by `NodeGraph.GraphDataShape`. |
| NodeGraph.GraphDataShape | frontend/app/components/NodeGraph.tsx:27-73 | The node graph's shape, stated for all inputs: node order and kinds, one link per entry with its ends and kind, and every link end a node id. |
| NodeGraph.GraphNodesPrefix | frontend/app/components/NodeGraph.tsx:28-46 | The central node is first, then one topic node per publisher entry in order, and every later node is a topic. |
| NodeGraph.LinkEndsPresent | frontend/app/components/NodeGraph.tsx:36-70 | The central id, every publisher topic and every subscriber topic is the id of some node. |
| NodeGraph.GraphLinksReferToNodes | frontend/app/components/NodeGraph.tsx:47-69 | Links of the builder's shape (one `central -> topic` per publisher entry, then one `topic -> central` per subscriber entry) all start and end at node ids. |
| NodeGraph.SubscriberPassAppends | frontend/app/components/NodeGraph.tsx:54-70 | The subscriber pass only appends, and what it appends are topic nodes of subscriber topics. |
| NodeGraph.SubscriberPassCounts | frontend/app/components/NodeGraph.tsx:55-64 | After the pass, an id already present keeps its count, an absent subscriber topic has exactly one node, and any other id has none. |
| NodeGraph.SubscriberTopicsPresent | frontend/app/components/NodeGraph.tsx:55-64 | Every subscriber topic ends up with a node. |
| NodeGraph.PublisherNodesCount | frontend/app/components/NodeGraph.tsx:40-46 | Publisher topics are not de-duplicated: a topic gets as many nodes as publisher entries naming it. |
| NodeGraph.SharedTopicOnce | frontend/app/components/NodeGraph.tsx:40-64 | A topic named by exactly one publisher entry has exactly one node, however often subscribers name it. |
| NodeGraph.SubscriberOnlyTopicOnce | frontend/app/components/NodeGraph.tsx:55-64 | A topic named only by subscribers has exactly one node, however often it repeats. |
| NodeGraph.CentralIdAtRoot | frontend/app/components/NodeGraph.tsx:28-35 | The root namespace gets no special case: the central id is `//name`. |
| NodeGraph.HandleNodeClick | frontend/app/components/NodeGraph.tsx:75-79 | A topic click opens `/topics?topic=` plus the encoded name; any other click does nothing. Stated by `NodeGraph.NodeGraphClicks`. |
| NodeGraph.NodeGraphClicks | frontend/app/components/NodeGraph.tsx:75-81 | The graph view passes every click to this handler. Clicking the central node does nothing. Clicking any other node opens `/topics?topic=` plus the encoded topic. |
| TopicGraph.NodeColor | frontend/app/components/TopicGraph.tsx:66-79 | The colour per node kind, grey in the `default:` branch. Stated by `TopicGraph.NodeColorsDistinct`. |
| TopicGraph.NodeColorsDistinct | frontend/app/components/TopicGraph.tsx:66-79 | The four kinds get pairwise distinct colours, and a node is grey exactly when it is of no known kind. |
| TopicGraph.LinkColor | frontend/app/components/TopicGraph.tsx:114-125 | The colour per link kind, grey in the `default:` branch. Stated by `TopicGraph.LinkColorByRole`. |
| TopicGraph.LinkColorByRole | frontend/app/components/TopicGraph.tsx:114-125 | `publishes`/`publishes_to` get exactly the publisher colour, `subscribes`/`subscribes_to` exactly the subscriber colour, and anything else grey. |
| TopicGraph.GraphNodeFullName | frontend/app/components/TopicGraph.tsx:89 | The bare name for namespace `/`, else namespace, `/`, name; a missing namespace prints as `undefined`. Stated by `TopicGraph.GraphNodeFullNameAgrees`. |
| TopicGraph.GraphNodeFullNameAgrees | frontend/app/components/TopicGraph.tsx:89 | For a node with a namespace, the click's full name is the common rule: the bare name for `/`, else `namespace/name`. |
| TopicGraph.HandleNodeClick | frontend/app/components/TopicGraph.tsx:85-92 | The click effect: the callback when given, otherwise navigation to the node page for non-topics and nothing for topics. Stated by `TopicGraph.HandleNodeClickCases`. |
| TopicGraph.HandleNodeClickCases | frontend/app/components/TopicGraph.tsx:85-92 | With a callback, a click only calls it. Without one, topics do nothing and any other node navigates to `/nodes?node=` plus the encoded full name. |
| TopicGraph.SomeOfKindExists | frontend/app/components/TopicGraph.tsx:173 | The `some` test holds exactly when some node has the kind. |
| TopicGraph.LegendEntries | frontend/app/components/TopicGraph.tsx:173-196 | The legend entries, in the order topic, publisher, subscriber, node, each present when some node has that kind. Stated by `TopicGraph.LegendShowsPresentKinds`. |
| TopicGraph.LegendShowsPresentKinds | frontend/app/components/TopicGraph.tsx:173-196 | A legend entry shows for a kind exactly when it is one of the four kinds and some node in the data has it. |
| TopicGraph.TooltipKindLabel | frontend/app/components/TopicGraph.tsx:210-213 | The tooltip's kind label, "Node" as the fallback. Stated by `TopicGraph.TooltipLabels`. |
| TopicGraph.TooltipLabels | frontend/app/components/TopicGraph.tsx:210-213 | Topic, publisher and subscriber get three distinct labels, and exactly the other kinds read "Node". |
| NodesPage.AssignIds | frontend/app/nodes/page.tsx:54-57 | Id assignment keeps length, order, names and namespaces, and sets `id = namespace/name-index`. |
| NodesPage.IndexRecoverable | frontend/app/nodes/page.tsx:56 | The index can be read back as the digits after the last `-` of the id. |
| NodesPage.AssignedIdsDistinct | frontend/app/nodes/page.tsx:53-57 | Assigned ids are pairwise distinct, whatever the names. |
| NodesPage.GetNodeKey | frontend/app/nodes/page.tsx:108-110 | The list key: the id when present and non-empty, else `namespace/name`. Stated by `AssignedKeysDistinct` and `KeyWithoutId`. |
| NodesPage.AssignedKeysDistinct | frontend/app/nodes/page.tsx:108-110 | The key of an assigned entry is its id, so the list keys are distinct. |
| NodesPage.KeyWithoutId | frontend/app/nodes/page.tsx:108-110 | An entry with no id, or an empty one, is keyed `namespace/name`. |
| NodesPage.FilteredNodes | frontend/app/nodes/page.tsx:100-105 | The filtered list is an order-preserving sub-list. It holds exactly the entries whose lower-cased full name contains the lower-cased query, each as often as in the list. |
| NodesPage.EmptyQueryKeepsAll | frontend/app/nodes/page.tsx:104 | An empty query keeps every entry. |
| NodesPage.SearchIgnoresQueryCase | frontend/app/nodes/page.tsx:104 | Lower-casing the query first changes nothing. |
| NodesPage.IsBold | frontend/app/nodes/page.tsx:139 | An entry is bold when a node is selected with the same name and namespace. Stated by `NodesPage.AtMostOneBold`. |
| NodesPage.AtMostOneBold | frontend/app/nodes/page.tsx:139 | Bold means same name and namespace. In the list built from the backend's node list, at most one entry is bold. |
| NodesPage.NodeInfoOnSelection | frontend/app/nodes/page.tsx:70-74 | The detail after a selection change: null with no selection, otherwise unchanged until the request answers. Stated by `NodesPage.ClearingSelectionClearsInfo`. |
| NodesPage.ClearingSelectionClearsInfo | frontend/app/nodes/page.tsx:71-74 | Clearing the selection sets the node detail to null. |
| NodesPage.DetailRequestOutsideRoot | frontend/app/nodes/page.tsx:81-86 | The detail request for a node outside the root namespace gets the backend's not-found error. |
| FullNames.FullNodeName | frontend/app/nodes/page.tsx:81-83 | The full node name: the bare name in namespace `/`, else `namespace/name`. The nodes page filter (line 101-103), the graph click and the history route use the same rule. Stated by `FullNames.FullNameOutsideRootHasSlash` and `JourneyHistory.ItemRouteCases`. |
| FullNames.FullNameOutsideRootHasSlash | frontend/app/nodes/page.tsx:81-83 | Outside the root namespace the full name holds a `/`. |
| TopicsPage.FilteredTopics | frontend/app/topics/page.tsx:88-90 | The filtered list is an order-preserving sub-list. It holds exactly the topics whose lower-cased name contains the lower-cased query, each as often as in the list. |
| TopicsPage.EmptyQueryKeepsAll | frontend/app/topics/page.tsx:88-90 | An empty query keeps every topic. |
| TopicsPage.SearchIgnoresQueryCase | frontend/app/topics/page.tsx:88-90 | Lower-casing the query first changes nothing. |
| TopicsPage.IsBold | frontend/app/topics/page.tsx:119 | A topic is bold when the selection equals its encoded name. Stated by `TopicsPage.BoldMeansSelected`. |
| TopicsPage.BoldMeansSelected | frontend/app/topics/page.tsx:119 | With no selection nothing is bold. Two bold topics share the encoded name. The selected topic is bold. |
| TopicsPage.TopicInfoOnSelection | frontend/app/topics/page.tsx:58-62 | The detail after a selection change: null when the selection is null or empty, otherwise unchanged until the request answers. Stated by `TopicsPage.ClearingSelectionClearsInfo`. |
| TopicsPage.ClearingSelectionClearsInfo | frontend/app/topics/page.tsx:59-62 | No selection, or the empty selection, sets the topic detail to null. |
| TopicsPage.ReplaceLeadingSlashes | frontend/app/topics/page.tsx:140 | `replace(/^\/+/, '/')`: a leading run of slashes becomes one slash. Stated by `TopicsPage.ReplaceLeadingSlashesShape`. |
| TopicsPage.ReplaceLeadingSlashesShape | frontend/app/topics/page.tsx:140 | The leading-slash replacement keeps whether the text starts with `/` and never leaves `//` in front. It keeps the rest of the text and is idempotent. |
| TopicsPage.Heading | frontend/app/topics/page.tsx:140 | The heading text: the reply's topic when truthy, else the decoded selection with its leading slashes collapsed. Stated by `TopicsPage.HeadingCases`. |
| TopicsPage.HeadingCases | frontend/app/topics/page.tsx:140 | The heading is the reply's topic when it is non-empty. Otherwise it is the decoded selection with its leading slashes collapsed, never starting with `//`. |
| TopicsPage.HeadingShowsBackendTopic | frontend/app/topics/page.tsx:140 | With the backend's reply shown, the heading is its normalised topic name. |
| JourneyHistory.ItemRoute | frontend/app/components/JourneyHistory.tsx:11-18 | The route a history entry opens when clicked. Stated by `ItemRouteCases`, `TopicRouteIgnoresNamespace` and `RouteTellsKind`. |
| JourneyHistory.ItemRouteCases | frontend/app/components/JourneyHistory.tsx:11-18 | A node entry routes to `/nodes?node=` plus the encoded full name: the bare name for `/`, else `namespace/name`. A topic entry routes to `/topics?topic=` plus the encoded name. |
| JourneyHistory.TopicRouteIgnoresNamespace | frontend/app/components/JourneyHistory.tsx:15-17 | Topic entries with the same name route to the same page, whatever their namespaces. |
| JourneyHistory.RouteTellsKind | frontend/app/components/JourneyHistory.tsx:11-18 | Equal routes come from entries of the same kind. |
| JourneyHistory.NodeRouteAgreesWithGraph | frontend/app/components/JourneyHistory.tsx:12-14 | A node entry leads where a callback-free graph click on the same node leads. |
| JourneyHistory.ShowsClearButton | frontend/app/components/JourneyHistory.tsx:28 | The clear button shows when there are items. Stated by `JourneyHistory.ClearOrEmpty`. |
| JourneyHistory.ShowsEmptyState | frontend/app/components/JourneyHistory.tsx:38-39 | The empty text shows when there are no items. Stated by `JourneyHistory.ClearOrEmpty`. |
| JourneyHistory.ClearOrEmpty | frontend/app/components/JourneyHistory.tsx:28-39 | Exactly one of the clear button and the empty text shows, and the empty text shows exactly when there are no items. |
| JourneyHistory.Rows | frontend/app/components/JourneyHistory.tsx:42 | Rows follow store order, and row `i` carries item `i` and remove index `i`. |
| JourneyHistory.RemoveButtonDeletesItsRow | frontend/app/components/JourneyHistory.tsx:61-62 | Row `i`'s remove button deletes exactly item `i`, leaving one item fewer. |
| JourneyHistory.PressRemove | frontend/app/components/JourneyHistory.tsx:62 | Pressing row `i`'s remove button on the store leaves the old list without item `i`. |
| JourneyHistory.PressClear | frontend/app/components/JourneyHistory.tsx:30 | Pressing "Clear History" empties the store, and the empty text then shows. |

## Left out

- Network and React plumbing: `fetch`, `useEffect`/`useState`, the loading and error flags and the try/except around requests. These are asynchronous I/O. The detail fetch's answer is not modelled, so a selection leaves the shown detail as it was.
- ROS and framework calls: rclpy setup, FastAPI routing, CORS and debug printing. The introspection results are parameters. The `except Exception` replies of `get_topic_info` and `get_node_info` are left out, because only the foreign calls can raise.
- URL encoding and decoding: these are uninterpreted function parameters. HTTP path decoding between the pages and the backend is not modelled. The nodes page sends `encodeURIComponent(fullName)` to `/nodes/{node_name}`, so `NodesPage.DetailRequestOutsideRoot` speaks of the decoded query. The topics page sends `encodeURIComponent(decodeURIComponent(selected))` to `/topics/{topic_name}` (frontend/app/topics/page.tsx:69-73), so `TopicsPage.HeadingShowsBackendTopic` hands the backend the value after that round trip and HTTP decoding, taken as the `selected` argument.
- `toLowerCase`: modelled on ASCII letters only. Unicode case mapping is not modelled.
- `CollapseSlashes`: the regular expression `/+` is modelled by a recursive function that drops a slash followed by another slash, not by a regex engine.
- Rendering: force-graph physics, canvas drawing, `zoomToFit`, `ResizeObserver`, hover coordinates, `nodeLabel` and the zoom threshold for labels. These are drawing and floating-point work.
- Persistence (the zustand `persist` middleware, browser storage) and `toLocaleTimeString`. `Date.now()` is a parameter.
- Markup-only files: frontend/app/page.tsx, frontend/app/layout.tsx, Navigation.tsx and SearchBar.tsx.
- Kind values outside the declared unions are one `OtherKind` / `OtherLink` variant, standing for the `default:` branches.
- `removeItem` with a non-integer index (which removes nothing in JavaScript) is not modelled: indices are integers.
