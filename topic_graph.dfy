/** The force-graph view (frontend/app/components/TopicGraph.tsx): the
    graph records it draws and its display rules — colours by kind, what a
    click does, which legend entries appear and the hover label. Drawing,
    layout and sizing are not modelled. */
module TopicGraph {
  import opened Routes
  import opened Wrappers
  import opened FullNames

  /** `'topic' | 'publisher' | 'subscriber' | 'node'`; `OtherKind` stands for
      any other value, which the `default:` branches handle. */
  datatype NodeType = TopicKind | PublisherKind | SubscriberKind | NodeKind | OtherKind

  datatype LinkType = Publishes | Subscribes | PublishesTo | SubscribesTo | OtherLink

  /** A drawn node; `namespace` is optional. */
  datatype GraphNode = GraphNode(id: string, name: string, kind: NodeType, namespace: Option<string>)

  datatype GraphLink = GraphLink(source: string, target: string, kind: LinkType)

  datatype GraphData = GraphData(nodes: seq<GraphNode>, links: seq<GraphLink>)

  // ---------------------------------------------------------------------
  // Colours

  const TopicColor: string := "#3b82f6"
  const PublisherColor: string := "#10b981"
  const SubscriberColor: string := "#f59e0b"
  const NodeColorValue: string := "#8b5cf6"
  const GrayColor: string := "#6b7280"

  predicate IsKnownKind(kind: NodeType)
  {
    !kind.OtherKind?
  }

  /** `nodeColor` */
  function NodeColor(node: GraphNode): string
  {
    match node.kind
    case TopicKind => TopicColor
    case PublisherKind => PublisherColor
    case SubscriberKind => SubscriberColor
    case NodeKind => NodeColorValue
    case OtherKind => GrayColor
  }

  /** The four kinds get four different colours, none of them grey;
      anything else is grey. */
  lemma NodeColorsDistinct(a: GraphNode, b: GraphNode)
    ensures IsKnownKind(a.kind) && IsKnownKind(b.kind) && a.kind != b.kind ==> NodeColor(a) != NodeColor(b)
    ensures NodeColor(a) == GrayColor <==> !IsKnownKind(a.kind)
  {
  }

  /** The `linkColor` callback. */
  function LinkColor(link: GraphLink): string
  {
    match link.kind
    case Publishes => PublisherColor
    case PublishesTo => PublisherColor
    case Subscribes => SubscriberColor
    case SubscribesTo => SubscriberColor
    case OtherLink => GrayColor
  }

  /** Publishing links share the publisher colour and subscribing links the
      subscriber colour, so each link is drawn like the role it stands for. */
  lemma LinkColorByRole(link: GraphLink)
    ensures link.kind.Publishes? || link.kind.PublishesTo? <==> LinkColor(link) == PublisherColor
    ensures link.kind.Subscribes? || link.kind.SubscribesTo? <==> LinkColor(link) == SubscriberColor
    ensures link.kind.OtherLink? <==> LinkColor(link) == GrayColor
  {
  }

  // ---------------------------------------------------------------------
  // Clicks

  /** JavaScript renders a missing namespace as "undefined" in a template string. */
  function NamespaceText(namespace: Option<string>): string
  {
    match namespace
    case Some(ns) => ns
    case None => "undefined"
  }

  /** `node.namespace === '/' ? node.name : `${node.namespace}/${node.name}`` */
  function GraphNodeFullName(node: GraphNode): string
  {
    if node.namespace == Some("/") then node.name else NamespaceText(node.namespace) + "/" + node.name
  }

  /** With a namespace this is the front end's common full-name rule. */
  lemma GraphNodeFullNameAgrees(node: GraphNode)
    requires node.namespace.Some?
    ensures GraphNodeFullName(node) == FullNodeName(node.namespace.value, node.name)
  {
  }

  /** What a click on a node does. */
  datatype ClickEffect = CallCallback(node: GraphNode) | Navigate(url: string) | NoEffect

  /** `handleNodeClick`: hand the node to the caller's `onNodeClick` when
      one is given; otherwise go to the node page for any node that is not
      a topic. `encode` is `encodeURIComponent`. */
  function HandleNodeClick(node: GraphNode, hasCallback: bool, encode: string -> string): ClickEffect
  {
    if hasCallback then CallCallback(node)
    else if node.kind != TopicKind then Navigate(NodesRoute + encode(GraphNodeFullName(node)))
    else NoEffect
  }

  /** With a callback, a click only calls it and never navigates; without
      one, topics do nothing and every other node navigates to its page. */
  lemma HandleNodeClickCases(node: GraphNode, hasCallback: bool, encode: string -> string)
    ensures hasCallback ==> HandleNodeClick(node, hasCallback, encode) == CallCallback(node)
    ensures !hasCallback && node.kind == TopicKind ==> HandleNodeClick(node, hasCallback, encode) == NoEffect
    ensures !hasCallback && node.kind != TopicKind ==>
      HandleNodeClick(node, hasCallback, encode).Navigate? &&
      HandleNodeClick(node, hasCallback, encode).url == NodesRoute + encode(GraphNodeFullName(node))
    ensures !hasCallback && node.namespace == Some("/") && node.kind != TopicKind ==>
      HandleNodeClick(node, hasCallback, encode) == Navigate(NodesRoute + encode(node.name))
  {
  }

  // ---------------------------------------------------------------------
  // Legend and tooltip

  /** `data.nodes.some(n => n.type === kind)` */
  function SomeOfKind(nodes: seq<GraphNode>, kind: NodeType): bool
  {
    if nodes == [] then false
    else nodes[0].kind == kind || SomeOfKind(nodes[1..], kind)
  }

  /** The legend entries shown, in the legend's order. */
  function LegendEntries(nodes: seq<GraphNode>): seq<NodeType>
  {
    (if SomeOfKind(nodes, TopicKind) then [TopicKind] else []) +
    (if SomeOfKind(nodes, PublisherKind) then [PublisherKind] else []) +
    (if SomeOfKind(nodes, SubscriberKind) then [SubscriberKind] else []) +
    (if SomeOfKind(nodes, NodeKind) then [NodeKind] else [])
  }

  lemma {:induction false} SomeOfKindExists(nodes: seq<GraphNode>, kind: NodeType)
    ensures SomeOfKind(nodes, kind) <==> exists i :: 0 <= i < |nodes| && nodes[i].kind == kind
  {
    if nodes != [] {
      SomeOfKindExists(nodes[1..], kind);
      if exists i :: 0 <= i < |nodes| && nodes[i].kind == kind {
        var i :| 0 <= i < |nodes| && nodes[i].kind == kind;
        if i > 0 {
          assert nodes[1..][i - 1] == nodes[i];
        }
      }
      if exists i :: 0 <= i < |nodes[1..]| && nodes[1..][i].kind == kind {
        var i :| 0 <= i < |nodes[1..]| && nodes[1..][i].kind == kind;
        assert nodes[i + 1] == nodes[1..][i];
      }
    }
  }

  /** A legend entry is shown for a kind exactly when the kind is one of the
      four and some node of the data has it. */
  lemma LegendShowsPresentKinds(nodes: seq<GraphNode>, kind: NodeType)
    ensures kind in LegendEntries(nodes) <==>
      IsKnownKind(kind) && exists i :: 0 <= i < |nodes| && nodes[i].kind == kind
  {
    SomeOfKindExists(nodes, kind);
  }

  /** The second line of the hover tooltip. */
  function TooltipKindLabel(kind: NodeType): string
  {
    if kind == TopicKind then "Topic"
    else if kind == PublisherKind then "Publisher"
    else if kind == SubscriberKind then "Subscriber"
    else "Node"
  }

  /** Topics, publishers and subscribers have labels of their own; every
      other kind reads "Node". */
  lemma TooltipLabels(a: NodeType, b: NodeType)
    ensures a != b && (a == TopicKind || a == PublisherKind || a == SubscriberKind)
                   && (b == TopicKind || b == PublisherKind || b == SubscriberKind)
      ==> TooltipKindLabel(a) != TooltipKindLabel(b)
    ensures (a == NodeKind || a == OtherKind) <==> TooltipKindLabel(a) == "Node"
  {
  }
}
