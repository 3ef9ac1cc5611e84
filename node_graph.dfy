/** The node-centred graph (frontend/app/components/NodeGraph.tsx): one
    node's publisher and subscriber topics turned into the nodes and links
    the graph view draws, and what a click on a node of that graph does. */
module NodeGraph {
  import opened Routes
  import opened Wrappers
  import opened TopicGraph

  /** A topic a node publishes or subscribes to. */
  datatype TopicRef = TopicRef(topic: string, topicType: string)

  /** The input of the node graph (its own shape, not the backend's reply). */
  datatype NodeInfo = NodeInfo(
    nodeName: string,
    nodeNamespace: string,
    publishers: seq<TopicRef>,
    subscribers: seq<TopicRef>)

  /** `${node_namespace}/${node_name}`, with no special case for `/`. */
  function CentralId(info: NodeInfo): string
  {
    info.nodeNamespace + "/" + info.nodeName
  }

  function CentralNode(info: NodeInfo): GraphNode
  {
    GraphNode(CentralId(info), info.nodeName, NodeKind, Some(info.nodeNamespace))
  }

  function TopicNode(topic: string): GraphNode
  {
    GraphNode(topic, topic, TopicKind, None)
  }

  /** `nodes.some(n => n.id === id)` */
  predicate HasNodeId(nodes: seq<GraphNode>, id: string)
  {
    exists k :: 0 <= k < |nodes| && nodes[k].id == id
  }

  /** How many nodes carry `id`. */
  function CountId(nodes: seq<GraphNode>, id: string): nat
  {
    if nodes == [] then 0
    else CountId(nodes[..|nodes| - 1], id) + (if nodes[|nodes| - 1].id == id then 1 else 0)
  }

  /** One topic node per publisher entry, in order. */
  function PublisherNodes(publishers: seq<TopicRef>): (r: seq<GraphNode>)
    ensures |r| == |publishers|
    ensures forall i :: 0 <= i < |r| ==> r[i] == TopicNode(publishers[i].topic)
  {
    seq(|publishers|, i requires 0 <= i < |publishers| => TopicNode(publishers[i].topic))
  }

  /** The subscriber pass: a topic node for each subscriber topic that no
      node has as its id yet. */
  function AddSubscriberTopics(nodes: seq<GraphNode>, subscribers: seq<TopicRef>): seq<GraphNode>
  {
    if subscribers == [] then nodes
    else
      var prev := AddSubscriberTopics(nodes, subscribers[..|subscribers| - 1]);
      var topic := subscribers[|subscribers| - 1].topic;
      if HasNodeId(prev, topic) then prev else prev + [TopicNode(topic)]
  }

  /** The nodes of the node graph: the central node, one topic node per
      publisher entry, then the subscriber pass. */
  function GraphNodes(info: NodeInfo): seq<GraphNode>
  {
    AddSubscriberTopics([CentralNode(info)] + PublisherNodes(info.publishers), info.subscribers)
  }

  /** Every link's source and target is the id of some node. */
  predicate LinksReferToNodes(data: GraphData)
  {
    forall l :: 0 <= l < |data.links| ==>
      HasNodeId(data.nodes, data.links[l].source) && HasNodeId(data.nodes, data.links[l].target)
  }

  predicate IsSubscriberTopic(subscribers: seq<TopicRef>, topic: string)
  {
    exists j :: 0 <= j < |subscribers| && subscribers[j].topic == topic
  }

  // ---------------------------------------------------------------------
  // The subscriber pass

  /** A topic is a subscriber topic of a non-empty list exactly when it is
      one of the list without its last entry, or that last entry's topic. */
  lemma IsSubscriberTopicLast(subscribers: seq<TopicRef>, id: string)
    requires subscribers != []
    ensures IsSubscriberTopic(subscribers, id) <==>
      IsSubscriberTopic(subscribers[..|subscribers| - 1], id) || subscribers[|subscribers| - 1].topic == id
  {
    var init := subscribers[..|subscribers| - 1];
    if IsSubscriberTopic(init, id) {
      var j :| 0 <= j < |init| && init[j].topic == id;
      assert subscribers[j] == init[j];
    }
    if IsSubscriberTopic(subscribers, id) && subscribers[|subscribers| - 1].topic != id {
      var j :| 0 <= j < |subscribers| && subscribers[j].topic == id;
      assert init[j] == subscribers[j];
    }
  }

  /** One step of the subscriber pass, on a prefix of the subscriber list. */
  lemma SubscriberPassStep(nodes: seq<GraphNode>, subscribers: seq<TopicRef>, j: nat)
    requires j < |subscribers|
    ensures AddSubscriberTopics(nodes, subscribers[..j + 1]) ==
      if HasNodeId(AddSubscriberTopics(nodes, subscribers[..j]), subscribers[j].topic)
      then AddSubscriberTopics(nodes, subscribers[..j])
      else AddSubscriberTopics(nodes, subscribers[..j]) + [TopicNode(subscribers[j].topic)]
  {
    assert subscribers[..j + 1][..j] == subscribers[..j];
  }

  /** The subscriber pass keeps the nodes it starts from, in front. */
  lemma {:induction false} SubscriberPassPrefix(nodes: seq<GraphNode>, subscribers: seq<TopicRef>)
    ensures |AddSubscriberTopics(nodes, subscribers)| >= |nodes|
    ensures forall k :: 0 <= k < |nodes| ==> AddSubscriberTopics(nodes, subscribers)[k] == nodes[k]
  {
    if subscribers != [] {
      SubscriberPassPrefix(nodes, subscribers[..|subscribers| - 1]);
    }
  }

  /** The subscriber pass only appends: the nodes it starts from stay in
      front, and everything after them is a topic node of a subscriber. */
  lemma {:induction false} SubscriberPassAppends(nodes: seq<GraphNode>, subscribers: seq<TopicRef>)
    ensures |AddSubscriberTopics(nodes, subscribers)| >= |nodes|
    ensures AddSubscriberTopics(nodes, subscribers)[..|nodes|] == nodes
    ensures forall k :: |nodes| <= k < |AddSubscriberTopics(nodes, subscribers)| ==>
      AddSubscriberTopics(nodes, subscribers)[k].kind == TopicKind &&
      IsSubscriberTopic(subscribers, AddSubscriberTopics(nodes, subscribers)[k].id)
  {
    SubscriberPassPrefix(nodes, subscribers);
    if subscribers != [] {
      var init := subscribers[..|subscribers| - 1];
      SubscriberPassAppends(nodes, init);
      var prev := AddSubscriberTopics(nodes, init);
      var r := AddSubscriberTopics(nodes, subscribers);
      forall k | |nodes| <= k < |r|
        ensures r[k].kind == TopicKind && IsSubscriberTopic(subscribers, r[k].id)
      {
        IsSubscriberTopicLast(subscribers, r[k].id);
        if k < |prev| {
          assert r[k] == prev[k];
        } else {
          assert r[k] == TopicNode(subscribers[|subscribers| - 1].topic);
        }
      }
    }
  }

  lemma CountIdAppend(nodes: seq<GraphNode>, node: GraphNode, id: string)
    ensures CountId(nodes + [node], id) == CountId(nodes, id) + (if node.id == id then 1 else 0)
  {
    assert (nodes + [node])[..|nodes|] == nodes;
  }

  lemma {:induction false} CountIdPositive(nodes: seq<GraphNode>, id: string)
    ensures CountId(nodes, id) > 0 <==> HasNodeId(nodes, id)
  {
    if nodes != [] {
      var init := nodes[..|nodes| - 1];
      CountIdPositive(init, id);
      if HasNodeId(init, id) {
        var k :| 0 <= k < |init| && init[k].id == id;
        assert nodes[k] == init[k];
      }
      if HasNodeId(nodes, id) && nodes[|nodes| - 1].id != id {
        var k :| 0 <= k < |nodes| && nodes[k].id == id;
        assert init[k] == nodes[k];
      }
    }
  }

  /** After the subscriber pass, an id that was already present keeps its
      count; a subscriber topic that was absent has exactly one node; any
      other id has none. */
  lemma {:induction false} SubscriberPassCounts(nodes: seq<GraphNode>, subscribers: seq<TopicRef>, id: string)
    ensures CountId(AddSubscriberTopics(nodes, subscribers), id) ==
      if HasNodeId(nodes, id) then CountId(nodes, id)
      else if IsSubscriberTopic(subscribers, id) then 1
      else 0
  {
    CountIdPositive(nodes, id);
    if subscribers != [] {
      var init := subscribers[..|subscribers| - 1];
      var topic := subscribers[|subscribers| - 1].topic;
      SubscriberPassCounts(nodes, init, id);
      IsSubscriberTopicLast(subscribers, id);
      var prev := AddSubscriberTopics(nodes, init);
      CountIdPositive(prev, id);
      if HasNodeId(prev, topic) {
        assert AddSubscriberTopics(nodes, subscribers) == prev;
      } else {
        assert AddSubscriberTopics(nodes, subscribers) == prev + [TopicNode(topic)];
        CountIdAppend(prev, TopicNode(topic), id);
      }
    }
  }

  /** Every subscriber topic ends up with a node. */
  lemma SubscriberTopicsPresent(nodes: seq<GraphNode>, subscribers: seq<TopicRef>, j: nat)
    requires j < |subscribers|
    ensures HasNodeId(AddSubscriberTopics(nodes, subscribers), subscribers[j].topic)
  {
    var id := subscribers[j].topic;
    SubscriberPassCounts(nodes, subscribers, id);
    CountIdPositive(nodes, id);
    CountIdPositive(AddSubscriberTopics(nodes, subscribers), id);
  }

  /** How many entries name `topic`. */
  function CountTopic(refs: seq<TopicRef>, topic: string): nat
  {
    if refs == [] then 0
    else CountTopic(refs[..|refs| - 1], topic) + (if refs[|refs| - 1].topic == topic then 1 else 0)
  }

  /** The publisher pass does not de-duplicate: a topic gets as many nodes
      as there are publisher entries naming it. */
  lemma {:induction false} PublisherNodesCount(publishers: seq<TopicRef>, id: string)
    ensures CountId(PublisherNodes(publishers), id) == CountTopic(publishers, id)
  {
    if publishers != [] {
      var init := publishers[..|publishers| - 1];
      PublisherNodesCount(init, id);
      assert PublisherNodes(publishers) == PublisherNodes(init) + [TopicNode(publishers[|publishers| - 1].topic)];
      CountIdAppend(PublisherNodes(init), TopicNode(publishers[|publishers| - 1].topic), id);
    }
  }

  // ---------------------------------------------------------------------
  // The builder

  /** The `graphData` memo: push the central node, then a topic node and a
      `publishes_to` link per publisher entry, then per subscriber entry a
      topic node if no node has that id yet and a `subscribes_to` link. */
  method BuildGraphData(info: NodeInfo) returns (data: GraphData)
    ensures data.nodes == GraphNodes(info)
    ensures data.links == GraphLinks(info)
    ensures |data.nodes| >= 1 + |info.publishers|
    ensures data.nodes[0] == CentralNode(info)
    ensures forall i :: 0 <= i < |info.publishers| ==> data.nodes[1 + i] == TopicNode(info.publishers[i].topic)
    ensures forall k :: 1 <= k < |data.nodes| ==> data.nodes[k].kind == TopicKind
    ensures |data.links| == |info.publishers| + |info.subscribers|
    ensures forall i :: 0 <= i < |info.publishers| ==>
      data.links[i] == GraphLink(CentralId(info), info.publishers[i].topic, PublishesTo)
    ensures forall j :: 0 <= j < |info.subscribers| ==>
      data.links[|info.publishers| + j] == GraphLink(info.subscribers[j].topic, CentralId(info), SubscribesTo)
    ensures LinksReferToNodes(data)
  {
    var publishers, subscribers := info.publishers, info.subscribers;
    var centralId := info.nodeNamespace + "/" + info.nodeName;
    var nodes := [GraphNode(centralId, info.nodeName, NodeKind, Some(info.nodeNamespace))];
    var links: seq<GraphLink> := [];

    for i := 0 to |publishers|
      invariant nodes == [CentralNode(info)] + PublisherNodes(publishers[..i])
      invariant links == PublisherLinks(centralId, publishers[..i])
    {
      var topicId := publishers[i].topic;
      PublisherStep(centralId, publishers, i);
      nodes := nodes + [GraphNode(topicId, publishers[i].topic, TopicKind, None)];
      links := links + [GraphLink(centralId, topicId, PublishesTo)];
    }
    assert publishers[..|publishers|] == publishers;

    ghost var base := nodes;
    for j := 0 to |subscribers|
      invariant nodes == AddSubscriberTopics(base, subscribers[..j])
      invariant links == PublisherLinks(centralId, publishers) + SubscriberLinks(centralId, subscribers[..j])
    {
      var topicId := subscribers[j].topic;
      SubscriberPassStep(base, subscribers, j);
      SubscriberLinksStep(centralId, subscribers, j);
      if !HasNodeId(nodes, topicId) {
        nodes := nodes + [GraphNode(topicId, subscribers[j].topic, TopicKind, None)];
      }
      links := links + [GraphLink(topicId, centralId, SubscribesTo)];
    }
    assert subscribers[..|subscribers|] == subscribers;

    data := GraphData(nodes, links);
    GraphDataShape(info);
  }

  /** One `publishes_to` link from the central node per publisher entry. */
  function PublisherLinks(centralId: string, publishers: seq<TopicRef>): (r: seq<GraphLink>)
    ensures |r| == |publishers|
    ensures forall i :: 0 <= i < |r| ==> r[i] == GraphLink(centralId, publishers[i].topic, PublishesTo)
  {
    seq(|publishers|, i requires 0 <= i < |publishers| => GraphLink(centralId, publishers[i].topic, PublishesTo))
  }

  /** One `subscribes_to` link to the central node per subscriber entry. */
  function SubscriberLinks(centralId: string, subscribers: seq<TopicRef>): (r: seq<GraphLink>)
    ensures |r| == |subscribers|
    ensures forall j :: 0 <= j < |r| ==> r[j] == GraphLink(subscribers[j].topic, centralId, SubscribesTo)
  {
    seq(|subscribers|, j requires 0 <= j < |subscribers| => GraphLink(subscribers[j].topic, centralId, SubscribesTo))
  }

  /** The links of the node graph: publisher links, then subscriber links. */
  function GraphLinks(info: NodeInfo): seq<GraphLink>
  {
    PublisherLinks(CentralId(info), info.publishers) + SubscriberLinks(CentralId(info), info.subscribers)
  }

  /** One step of the publisher pass, on a prefix of the publisher list. */
  lemma PublisherStep(centralId: string, publishers: seq<TopicRef>, i: nat)
    requires i < |publishers|
    ensures PublisherNodes(publishers[..i + 1]) == PublisherNodes(publishers[..i]) + [TopicNode(publishers[i].topic)]
    ensures PublisherLinks(centralId, publishers[..i + 1]) ==
      PublisherLinks(centralId, publishers[..i]) + [GraphLink(centralId, publishers[i].topic, PublishesTo)]
  {
  }

  /** One step of the subscriber links, on a prefix of the subscriber list. */
  lemma SubscriberLinksStep(centralId: string, subscribers: seq<TopicRef>, j: nat)
    requires j < |subscribers|
    ensures SubscriberLinks(centralId, subscribers[..j + 1]) ==
      SubscriberLinks(centralId, subscribers[..j]) + [GraphLink(subscribers[j].topic, centralId, SubscribesTo)]
  {
  }

  /** What the graph of one node looks like: the central node first, one
      topic node per publisher entry, then only topics; one link per entry,
      publisher links first; and every link end is a node id. */
  lemma GraphDataShape(info: NodeInfo)
    ensures |GraphNodes(info)| >= 1 + |info.publishers|
    ensures GraphNodes(info)[0] == CentralNode(info)
    ensures forall i :: 0 <= i < |info.publishers| ==> GraphNodes(info)[1 + i] == TopicNode(info.publishers[i].topic)
    ensures forall k :: 1 <= k < |GraphNodes(info)| ==> GraphNodes(info)[k].kind == TopicKind
    ensures |GraphLinks(info)| == |info.publishers| + |info.subscribers|
    ensures forall i :: 0 <= i < |info.publishers| ==>
      GraphLinks(info)[i] == GraphLink(CentralId(info), info.publishers[i].topic, PublishesTo)
    ensures forall j :: 0 <= j < |info.subscribers| ==>
      GraphLinks(info)[|info.publishers| + j] == GraphLink(info.subscribers[j].topic, CentralId(info), SubscribesTo)
    ensures LinksReferToNodes(GraphData(GraphNodes(info), GraphLinks(info)))
  {
    GraphNodesPrefix(info);
    var links := GraphLinks(info);
    forall j | 0 <= j < |info.subscribers|
      ensures links[|info.publishers| + j] == GraphLink(info.subscribers[j].topic, CentralId(info), SubscribesTo)
    {
      assert links[|info.publishers| + j] == SubscriberLinks(CentralId(info), info.subscribers)[j];
    }
    GraphLinksReferToNodes(info, links);
  }

  /** The links the builder makes, one per publisher entry and then one per
      subscriber entry, all start and end at nodes of `GraphNodes(info)`. */
  lemma GraphLinksReferToNodes(info: NodeInfo, links: seq<GraphLink>)
    requires |links| == |info.publishers| + |info.subscribers|
    requires forall i :: 0 <= i < |info.publishers| ==>
      links[i] == GraphLink(CentralId(info), info.publishers[i].topic, PublishesTo)
    requires forall j :: 0 <= j < |info.subscribers| ==>
      links[|info.publishers| + j] == GraphLink(info.subscribers[j].topic, CentralId(info), SubscribesTo)
    ensures LinksReferToNodes(GraphData(GraphNodes(info), links))
  {
    var nodes := GraphNodes(info);
    LinkEndsPresent(info);
    forall l | 0 <= l < |links|
      ensures HasNodeId(nodes, links[l].source) && HasNodeId(nodes, links[l].target)
    {
      if l >= |info.publishers| {
        assert links[l] == GraphLink(info.subscribers[l - |info.publishers|].topic, CentralId(info), SubscribesTo);
      } else {
        assert links[l] == GraphLink(CentralId(info), info.publishers[l].topic, PublishesTo);
      }
    }
  }

  /** The central node comes first, then the publisher topic nodes in
      order; every node after the first is a topic. */
  lemma GraphNodesPrefix(info: NodeInfo)
    ensures |GraphNodes(info)| >= 1 + |info.publishers|
    ensures GraphNodes(info)[0] == CentralNode(info)
    ensures forall i :: 0 <= i < |info.publishers| ==> GraphNodes(info)[1 + i] == TopicNode(info.publishers[i].topic)
    ensures forall k :: 1 <= k < |GraphNodes(info)| ==> GraphNodes(info)[k].kind == TopicKind
  {
    var publishers := PublisherNodes(info.publishers);
    var base := [CentralNode(info)] + publishers;
    var nodes := GraphNodes(info);
    SubscriberPassPrefix(base, info.subscribers);
    assert nodes[0] == base[0];
    forall i | 0 <= i < |info.publishers|
      ensures nodes[1 + i] == TopicNode(info.publishers[i].topic)
    {
      assert nodes[1 + i] == base[1 + i] == publishers[i];
    }
    forall k | 1 <= k < |nodes|
      ensures nodes[k].kind == TopicKind
    {
      if k < |base| {
        assert nodes[k] == publishers[k - 1];
      } else {
        SubscriberNodeShape(base, info.subscribers, k);
      }
    }
  }

  /** The central id, every publisher topic and every subscriber topic
      is the id of some node. */
  lemma LinkEndsPresent(info: NodeInfo)
    ensures HasNodeId(GraphNodes(info), CentralId(info))
    ensures forall i :: 0 <= i < |info.publishers| ==> HasNodeId(GraphNodes(info), info.publishers[i].topic)
    ensures forall j :: 0 <= j < |info.subscribers| ==> HasNodeId(GraphNodes(info), info.subscribers[j].topic)
  {
    var nodes := GraphNodes(info);
    GraphNodesPrefix(info);
    assert nodes[0].id == CentralId(info);
    forall i | 0 <= i < |info.publishers|
      ensures HasNodeId(nodes, info.publishers[i].topic)
    {
      assert nodes[1 + i].id == info.publishers[i].topic;
    }
    forall j | 0 <= j < |info.subscribers|
      ensures HasNodeId(nodes, info.subscribers[j].topic)
    {
      SubscriberTopicsPresent([CentralNode(info)] + PublisherNodes(info.publishers), info.subscribers, j);
    }
  }

  /** The central id is `namespace/name` even in the root namespace. */
  lemma CentralIdAtRoot(info: NodeInfo)
    requires info.nodeNamespace == "/"
    ensures CentralId(info) == "//" + info.nodeName
  {
  }

  /** A topic named by exactly one publisher entry has exactly one node,
      however often the subscriber list names it too. */
  lemma SharedTopicOnce(info: NodeInfo, topic: string)
    requires topic != CentralId(info)
    requires CountTopic(info.publishers, topic) == 1
    ensures CountId(GraphNodes(info), topic) == 1
  {
    var base := [CentralNode(info)] + PublisherNodes(info.publishers);
    PublisherNodesCount(info.publishers, topic);
    CountIdPositive(base, topic);
    assert CountId(base, topic) == CountId(PublisherNodes(info.publishers), topic) by {
      CountIdPrepend(CentralNode(info), PublisherNodes(info.publishers), topic);
    }
    SubscriberPassCounts(base, info.subscribers, topic);
  }

  /** A topic named only by subscribers gets exactly one node however many
      subscriber entries repeat it. */
  lemma SubscriberOnlyTopicOnce(info: NodeInfo, topic: string)
    requires topic != CentralId(info)
    requires CountTopic(info.publishers, topic) == 0
    requires IsSubscriberTopic(info.subscribers, topic)
    ensures CountId(GraphNodes(info), topic) == 1
  {
    var base := [CentralNode(info)] + PublisherNodes(info.publishers);
    PublisherNodesCount(info.publishers, topic);
    CountIdPrepend(CentralNode(info), PublisherNodes(info.publishers), topic);
    CountIdPositive(base, topic);
    SubscriberPassCounts(base, info.subscribers, topic);
  }

  lemma {:induction false} CountIdPrepend(node: GraphNode, nodes: seq<GraphNode>, id: string)
    ensures CountId([node] + nodes, id) == CountId(nodes, id) + (if node.id == id then 1 else 0)
  {
    if nodes != [] {
      var init := nodes[..|nodes| - 1];
      CountIdPrepend(node, init, id);
      assert ([node] + nodes)[..|nodes|] == [node] + init;
    } else {
      assert [node] + nodes == [node];
      assert CountId([node], id) == CountId([], id) + (if node.id == id then 1 else 0);
    }
  }

  // ---------------------------------------------------------------------
  // Clicks

  /** `handleNodeClick`: a topic goes to its topic page, any other node
      does nothing. `encode` is `encodeURIComponent`. */
  function HandleNodeClick(node: GraphNode, encode: string -> string): Option<string>
  {
    if node.kind == TopicKind then Some(TopicsRoute + encode(node.name)) else None
  }

  /** In the node graph, the central node does nothing when clicked and
      every other node opens the page of the topic it stands for; the graph
      view hands every click to this handler. */
  lemma NodeGraphClicks(info: NodeInfo, k: nat, encode: string -> string)
    requires k < |GraphNodes(info)|
    ensures TopicGraph.HandleNodeClick(GraphNodes(info)[k], true, encode) == CallCallback(GraphNodes(info)[k])
    ensures k == 0 ==> HandleNodeClick(GraphNodes(info)[k], encode) == None
    ensures k > 0 ==> HandleNodeClick(GraphNodes(info)[k], encode) == Some(TopicsRoute + encode(GraphNodes(info)[k].id))
  {
    var base := [CentralNode(info)] + PublisherNodes(info.publishers);
    SubscriberPassAppends(base, info.subscribers);
    var nodes := GraphNodes(info);
    assert nodes[..|base|][0] == nodes[0];
    if k > 0 {
      if k < |base| {
        assert nodes[..|base|][k] == nodes[k];
        assert nodes[k] == TopicNode(info.publishers[k - 1].topic);
      } else {
        SubscriberNodeShape(base, info.subscribers, k);
      }
    }
  }

  /** A node added by the subscriber pass is the topic node of its id. */
  lemma {:induction false} SubscriberNodeShape(nodes: seq<GraphNode>, subscribers: seq<TopicRef>, k: nat)
    requires |nodes| <= k < |AddSubscriberTopics(nodes, subscribers)|
    ensures AddSubscriberTopics(nodes, subscribers)[k] == TopicNode(AddSubscriberTopics(nodes, subscribers)[k].id)
  {
    var init := subscribers[..|subscribers| - 1];
    var prev := AddSubscriberTopics(nodes, init);
    if k < |prev| {
      SubscriberNodeShape(nodes, init, k);
    }
  }
}
