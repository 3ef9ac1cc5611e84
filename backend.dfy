/** The REST backend (backend/main.py): topic-name normalisation, the
    shaping of the ROS graph introspection results into JSON records, the
    de-duplicating node list and the node lookup. The introspection calls
    are parameters: sequences of names, or functions from a name to the
    endpoints ROS reports for it. */
module Backend {
  import opened Wrappers
  import opened Text
  import opened Lists
  import opened ApiTypes

  // =====================================================================
  // normalize_topic_name

  /** No two consecutive characters are both `/`. */
  predicate NoDoubleSlash(s: string)
  {
    forall i :: 0 <= i < |s| - 1 ==> !(s[i] == '/' && s[i + 1] == '/')
  }

  /** `re.sub(r'/+', '/', s)`: every maximal run of slashes becomes one
      slash. A slash followed by another slash is dropped. */
  function CollapseSlashes(s: string): (r: string)
    ensures |r| <= |s|
    ensures |s| > 0 ==> |r| > 0 && r[0] == s[0]
    ensures NoDoubleSlash(r)
  {
    if s == [] then ""
    else if |s| >= 2 && s[0] == '/' && s[1] == '/' then CollapseSlashes(s[1..])
    else [s[0]] + CollapseSlashes(s[1..])
  }

  /** Collapsing runs of slashes changes nothing but slashes. */
  lemma {:induction false} CollapseKeepsOtherChars(s: string)
    ensures DeleteAll(CollapseSlashes(s), '/') == DeleteAll(s, '/')
  {
    if s != [] {
      CollapseKeepsOtherChars(s[1..]);
      if !(|s| >= 2 && s[0] == '/' && s[1] == '/') {
        var rest := CollapseSlashes(s[1..]);
        assert ([s[0]] + rest)[1..] == rest;
      }
    }
  }

  /** A string without a double slash is left as it is. */
  lemma {:induction false} CollapseFixesSingleSlashes(s: string)
    requires NoDoubleSlash(s)
    ensures CollapseSlashes(s) == s
  {
    if s != [] {
      assert NoDoubleSlash(s[1..]) by {
        forall i | 0 <= i < |s[1..]| - 1
          ensures !(s[1..][i] == '/' && s[1..][i + 1] == '/')
        {
          assert s[1..][i] == s[i + 1] && s[1..][i + 1] == s[i + 2];
        }
      }
      CollapseFixesSingleSlashes(s[1..]);
      assert |s| >= 2 ==> !(s[0] == '/' && s[1] == '/');
      assert s == [s[0]] + s[1..];
    }
  }

  /** Doubling a slash anywhere makes no difference: with
      `CollapseFixesSingleSlashes`, this says that every run of slashes
      becomes exactly one slash, in place. */
  lemma {:induction false} CollapseDoubledSlash(p: string, q: string)
    ensures CollapseSlashes(p + "//" + q) == CollapseSlashes(p + "/" + q)
  {
    var doubled, single := p + "//" + q, p + "/" + q;
    if p == [] {
      assert doubled[1..] == single;
    } else {
      CollapseDoubledSlash(p[1..], q);
      assert doubled[1..] == p[1..] + "//" + q;
      assert single[1..] == p[1..] + "/" + q;
      assert doubled[0] == single[0] && doubled[1] == single[1];
    }
  }

  /** `normalize_topic_name`: collapse runs of slashes, then put a slash
      in front unless there already is one. */
  function NormalizeTopicName(name: string): (r: string)
    ensures StartsWith(r, "/")
    ensures NoDoubleSlash(r)
  {
    var collapsed := CollapseSlashes(name);
    if StartsWith(collapsed, "/") then collapsed
    else
      var r := "/" + collapsed;
      assert forall i :: 1 <= i < |r| ==> r[i] == collapsed[i - 1];
      r
  }

  /** Normalising only adds or removes slashes: deleting every slash from
      the input and from the output gives the same text. */
  lemma NormalizeKeepsOtherChars(name: string)
    ensures DeleteAll(NormalizeTopicName(name), '/') == DeleteAll(name, '/')
  {
    var collapsed := CollapseSlashes(name);
    CollapseKeepsOtherChars(name);
    if !StartsWith(collapsed, "/") {
      DeleteAllAppend("/", collapsed, '/');
    }
  }

  /** The names normalisation leaves alone are exactly those that start
      with one slash and have no double slash. */
  lemma NormalizeFixedPoints(name: string)
    ensures NormalizeTopicName(name) == name <==> StartsWith(name, "/") && NoDoubleSlash(name)
  {
    if StartsWith(name, "/") && NoDoubleSlash(name) {
      CollapseFixesSingleSlashes(name);
    }
  }

  /** Normalising twice is normalising once. */
  lemma NormalizeIdempotent(name: string)
    ensures NormalizeTopicName(NormalizeTopicName(name)) == NormalizeTopicName(name)
  {
    NormalizeFixedPoints(NormalizeTopicName(name));
  }

  // =====================================================================
  // get_topic_list and get_topic_info

  /** `GET /topics`: one record per introspected topic, in order, named by
      its normalised name and carrying `quote` of that name. */
  function GetTopicList(topicNamesAndTypes: seq<NamedTypes>, quote: string -> string): (r: seq<Topic>)
    ensures |r| == |topicNamesAndTypes|
    ensures forall i :: 0 <= i < |r| ==>
      r[i].name == NormalizeTopicName(topicNamesAndTypes[i].name) &&
      r[i].types == topicNamesAndTypes[i].types &&
      r[i].encodedName == quote(r[i].name)
  {
    seq(|topicNamesAndTypes|, i requires 0 <= i < |topicNamesAndTypes| =>
      Topic(NormalizeTopicName(topicNamesAndTypes[i].name),
            topicNamesAndTypes[i].types,
            quote(NormalizeTopicName(topicNamesAndTypes[i].name))))
  }

  /** Every listed topic name is already in normal form. */
  lemma TopicListNamesNormal(topicNamesAndTypes: seq<NamedTypes>, quote: string -> string, i: nat)
    requires i < |topicNamesAndTypes|
    ensures NormalizeTopicName(GetTopicList(topicNamesAndTypes, quote)[i].name)
         == GetTopicList(topicNamesAndTypes, quote)[i].name
  {
    NormalizeIdempotent(topicNamesAndTypes[i].name);
  }

  /** The part of a ROS endpoint record that the backend reports. */
  datatype EndpointInfo = EndpointInfo(nodeName: string, nodeNamespace: string, topicType: string)

  function EndpointRecord(info: EndpointInfo): TopicEndpoint
  {
    TopicEndpoint(info.nodeName, info.nodeNamespace, info.topicType)
  }

  /** `GET /topics/{topic_name}`: the topic is the normalised, decoded
      argument; the publisher and subscriber lists are the ROS endpoints
      of that topic, one record each, in order. */
  function GetTopicInfo(
    topicName: string,
    unquote: string -> string,
    quote: string -> string,
    publishersOf: string -> seq<EndpointInfo>,
    subscriptionsOf: string -> seq<EndpointInfo>): (r: TopicInfo)
    ensures r.topic == NormalizeTopicName(unquote(topicName))
    ensures r.encodedTopic == quote(r.topic)
    ensures |r.publishers| == |publishersOf(r.topic)|
    ensures forall i :: 0 <= i < |r.publishers| ==>
      r.publishers[i] == EndpointRecord(publishersOf(r.topic)[i])
    ensures |r.subscribers| == |subscriptionsOf(r.topic)|
    ensures forall i :: 0 <= i < |r.subscribers| ==>
      r.subscribers[i] == EndpointRecord(subscriptionsOf(r.topic)[i])
  {
    var decoded := NormalizeTopicName(unquote(topicName));
    var publishers := publishersOf(decoded);
    var subscriptions := subscriptionsOf(decoded);
    TopicInfo(
      decoded,
      quote(decoded),
      seq(|publishers|, i requires 0 <= i < |publishers| => EndpointRecord(publishers[i])),
      seq(|subscriptions|, i requires 0 <= i < |subscriptions| => EndpointRecord(subscriptions[i])))
  }

  /** Asking for a listed topic by its encoded name reports that very
      topic, provided `unquote` undoes `quote`. */
  lemma TopicInfoOfListedTopic(
    topicNamesAndTypes: seq<NamedTypes>, i: nat,
    unquote: string -> string, quote: string -> string,
    publishersOf: string -> seq<EndpointInfo>, subscriptionsOf: string -> seq<EndpointInfo>)
    requires i < |topicNamesAndTypes|
    requires forall x :: unquote(quote(x)) == x
    ensures GetTopicInfo(GetTopicList(topicNamesAndTypes, quote)[i].encodedName,
                         unquote, quote, publishersOf, subscriptionsOf).topic
         == GetTopicList(topicNamesAndTypes, quote)[i].name
  {
    TopicListNamesNormal(topicNamesAndTypes, quote, i);
  }

  // =====================================================================
  // get_node_list

  /** `name.split('/')[-1]` */
  function NodeNameOf(fullName: string): string
  {
    LastPiece(fullName, '/')
  }

  /** `'/'.join(name.split('/')[:-1]) or '/'` */
  function NamespaceOf(fullName: string): string
  {
    var ns := BeforeLastPiece(fullName, '/');
    if ns == "" then "/" else ns
  }

  function ParseNodeName(fullName: string): NodeSummary
  {
    NodeSummary(NodeNameOf(fullName), NamespaceOf(fullName))
  }

  /** `f"{namespace}/{node_name}"`, the key the node list de-duplicates on. */
  function NodeId(node: NodeSummary): string
  {
    node.namespace + "/" + node.name
  }

  /** The node name is the text after the last slash and holds no slash;
      the namespace is the text before the last slash, or `/` when that is
      empty or there is no slash at all. */
  lemma ParseNodeNameShape(fullName: string)
    ensures '/' !in ParseNodeName(fullName).name
    ensures '/' in fullName ==>
      fullName == BeforeLastPiece(fullName, '/') + "/" + ParseNodeName(fullName).name &&
      ParseNodeName(fullName).namespace ==
        (if BeforeLastPiece(fullName, '/') == "" then "/" else BeforeLastPiece(fullName, '/'))
    ensures '/' !in fullName ==> ParseNodeName(fullName) == NodeSummary(fullName, "/")
  {
    LastPieceShape(fullName, '/');
  }

  /** Node ids tell apart entries whose names hold no slash. */
  lemma NodeIdInjective(a: NodeSummary, b: NodeSummary)
    requires '/' !in a.name && '/' !in b.name
    requires NodeId(a) == NodeId(b)
    ensures a == b
  {
    LastSeparatorUnique(a.namespace, a.name, b.namespace, b.name, '/');
  }

  /** The ids of a node list. */
  function IdSet(nodes: seq<NodeSummary>): set<string>
  {
    if nodes == [] then {}
    else IdSet(nodes[..|nodes| - 1]) + {NodeId(nodes[|nodes| - 1])}
  }

  /** An id is in `IdSet(nodes)` exactly when some entry has it. */
  lemma {:induction false} IdSetMember(nodes: seq<NodeSummary>, id: string)
    ensures id in IdSet(nodes) <==> exists k :: 0 <= k < |nodes| && NodeId(nodes[k]) == id
  {
    if nodes != [] {
      var init := nodes[..|nodes| - 1];
      IdSetMember(init, id);
      if id in IdSet(init) {
        var k :| 0 <= k < |init| && NodeId(init[k]) == id;
        assert nodes[k] == init[k];
      }
      if exists k :: 0 <= k < |nodes| && NodeId(nodes[k]) == id {
        var k :| 0 <= k < |nodes| && NodeId(nodes[k]) == id;
        if k < |init| {
          assert init[k] == nodes[k];
        }
      }
    }
  }

  lemma IdSetAppend(nodes: seq<NodeSummary>, node: NodeSummary)
    ensures IdSet(nodes + [node]) == IdSet(nodes) + {NodeId(node)}
  {
    assert (nodes + [node])[..|nodes|] == nodes;
  }

  /** The introspected names parsed one by one. */
  function ParsedNames(nodeNames: seq<string>): (r: seq<NodeSummary>)
    ensures |r| == |nodeNames|
    ensures forall i :: 0 <= i < |r| ==> r[i] == ParseNodeName(nodeNames[i])
  {
    seq(|nodeNames|, i requires 0 <= i < |nodeNames| => ParseNodeName(nodeNames[i]))
  }

  /** What `GET /nodes` returns: the parsed names, each kept only if no
      earlier one had the same id. */
  function UniqueNodes(nodeNames: seq<string>): seq<NodeSummary>
  {
    if nodeNames == [] then []
    else
      var prev := UniqueNodes(nodeNames[..|nodeNames| - 1]);
      var node := ParseNodeName(nodeNames[|nodeNames| - 1]);
      if NodeId(node) in IdSet(prev) then prev else prev + [node]
  }

  /** `get_node_list`: walk the names, remembering the ids already seen. */
  method GetNodeList(nodeNames: seq<string>) returns (nodes: seq<NodeSummary>)
    ensures nodes == UniqueNodes(nodeNames)
    ensures |nodes| <= |nodeNames|
    ensures forall i, j :: 0 <= i < j < |nodes| ==> NodeId(nodes[i]) != NodeId(nodes[j])
    ensures forall i :: 0 <= i < |nodeNames| ==> NodeId(ParseNodeName(nodeNames[i])) in IdSet(nodes)
    ensures IsSubsequence(nodes, ParsedNames(nodeNames))
  {
    var uniqueNodes: set<string> := {};
    nodes := [];
    for i := 0 to |nodeNames|
      invariant nodes == UniqueNodes(nodeNames[..i])
      invariant uniqueNodes == IdSet(nodes)
    {
      var name := nodeNames[i];
      var nodeName := NodeNameOf(name);
      var namespace := NamespaceOf(name);
      var nodeId := namespace + "/" + nodeName;
      assert nodeNames[..i + 1][..i] == nodeNames[..i];
      assert nodeNames[..i + 1][i] == name;
      if nodeId !in uniqueNodes {
        IdSetAppend(nodes, NodeSummary(nodeName, namespace));
        uniqueNodes := uniqueNodes + {nodeId};
        nodes := nodes + [NodeSummary(nodeName, namespace)];
      }
    }
    assert nodeNames[..|nodeNames|] == nodeNames;
    UniqueNodesLength(nodeNames);
    UniqueNodesDistinct(nodeNames);
    UniqueNodesCover(nodeNames);
    UniqueNodesInOrder(nodeNames);
  }

  lemma {:induction false} UniqueNodesLength(nodeNames: seq<string>)
    ensures |UniqueNodes(nodeNames)| <= |nodeNames|
  {
    if nodeNames != [] {
      UniqueNodesLength(nodeNames[..|nodeNames| - 1]);
    }
  }

  /** The node list never holds two entries with the same id. */
  lemma {:induction false} UniqueNodesDistinct(nodeNames: seq<string>)
    ensures forall i, j :: 0 <= i < j < |UniqueNodes(nodeNames)| ==>
      NodeId(UniqueNodes(nodeNames)[i]) != NodeId(UniqueNodes(nodeNames)[j])
  {
    if nodeNames != [] {
      var init := nodeNames[..|nodeNames| - 1];
      UniqueNodesDistinct(init);
      IdSetMember(UniqueNodes(init), NodeId(ParseNodeName(nodeNames[|nodeNames| - 1])));
    }
  }

  /** Every introspected name's id is represented in the node list. */
  lemma {:induction false} UniqueNodesCover(nodeNames: seq<string>)
    ensures forall i :: 0 <= i < |nodeNames| ==> NodeId(ParseNodeName(nodeNames[i])) in IdSet(UniqueNodes(nodeNames))
  {
    if nodeNames != [] {
      var init := nodeNames[..|nodeNames| - 1];
      UniqueNodesCover(init);
      var prev := UniqueNodes(init);
      var last := ParseNodeName(nodeNames[|nodeNames| - 1]);
      var r := UniqueNodes(nodeNames);
      if NodeId(last) !in IdSet(prev) {
        IdSetAppend(prev, last);
      }
      assert IdSet(prev) <= IdSet(r) && NodeId(last) in IdSet(r);
      forall i | 0 <= i < |nodeNames|
        ensures NodeId(ParseNodeName(nodeNames[i])) in IdSet(r)
      {
        if i < |init| {
          assert nodeNames[i] == init[i];
        }
      }
    }
  }

  /** The node list keeps the parsed names in their input order. */
  lemma {:induction false} UniqueNodesInOrder(nodeNames: seq<string>)
    ensures IsSubsequence(UniqueNodes(nodeNames), ParsedNames(nodeNames))
  {
    if nodeNames != [] {
      var init := nodeNames[..|nodeNames| - 1];
      UniqueNodesInOrder(init);
      var parsed := ParsedNames(nodeNames);
      assert parsed[..|parsed| - 1] == ParsedNames(init);
      var r := UniqueNodes(nodeNames);
      if r != UniqueNodes(init) {
        assert r[..|r| - 1] == UniqueNodes(init);
      }
    }
  }

  /** Each entry of the node list is the first name with its id: it is
      parsed from some name, and no earlier name has the same id. */
  lemma {:induction false} UniqueNodesFirstOccurrence(nodeNames: seq<string>, k: nat)
    requires k < |UniqueNodes(nodeNames)|
    ensures exists i :: (0 <= i < |nodeNames| && UniqueNodes(nodeNames)[k] == ParseNodeName(nodeNames[i]) &&
      forall j :: 0 <= j < i ==> NodeId(ParseNodeName(nodeNames[j])) != NodeId(UniqueNodes(nodeNames)[k]))
  {
    var init := nodeNames[..|nodeNames| - 1];
    var prev := UniqueNodes(init);
    var r := UniqueNodes(nodeNames);
    if k < |prev| {
      assert r[k] == prev[k];
      UniqueNodesFirstOccurrence(init, k);
      var i :| 0 <= i < |init| && prev[k] == ParseNodeName(init[i]) &&
        forall j :: 0 <= j < i ==> NodeId(ParseNodeName(init[j])) != NodeId(prev[k]);
      assert nodeNames[i] == init[i];
      assert forall j :: 0 <= j < i ==> nodeNames[j] == init[j];
    } else {
      var i := |nodeNames| - 1;
      UniqueNodesCover(init);
      assert forall j :: 0 <= j < i ==> nodeNames[j] == init[j];
      assert r[k] == ParseNodeName(nodeNames[i]);
    }
  }

  /** An id is among the node list's ids exactly when some introspected
      name has it. */
  lemma SeenIds(nodeNames: seq<string>, id: string)
    ensures id in IdSet(UniqueNodes(nodeNames)) <==>
      exists i :: 0 <= i < |nodeNames| && NodeId(ParseNodeName(nodeNames[i])) == id
  {
    var r := UniqueNodes(nodeNames);
    UniqueNodesCover(nodeNames);
    IdSetMember(r, id);
    if id in IdSet(r) {
      var k :| 0 <= k < |r| && NodeId(r[k]) == id;
      UniqueNodesFirstOccurrence(nodeNames, k);
    }
  }

  /** No earlier name has the same id as name `i`. */
  predicate IsFirstOccurrence(nodeNames: seq<string>, i: nat)
    requires i < |nodeNames|
  {
    forall j :: 0 <= j < i ==> NodeId(ParseNodeName(nodeNames[j])) != NodeId(ParseNodeName(nodeNames[i]))
  }

  /** A reference definition that looks only at the input: the parsed
      names at exactly the indices whose id no earlier name has, in index
      order. */
  function FirstOccurrences(nodeNames: seq<string>): seq<NodeSummary>
  {
    if nodeNames == [] then []
    else
      FirstOccurrences(nodeNames[..|nodeNames| - 1]) +
      (if IsFirstOccurrence(nodeNames, |nodeNames| - 1) then [ParseNodeName(nodeNames[|nodeNames| - 1])] else [])
  }

  /** The node list is exactly the first occurrences of each id, in the
      order those first occurrences appear in the input. */
  lemma {:induction false} UniqueNodesAreFirstOccurrences(nodeNames: seq<string>)
    ensures UniqueNodes(nodeNames) == FirstOccurrences(nodeNames)
  {
    if nodeNames != [] {
      var n := |nodeNames| - 1;
      var init := nodeNames[..n];
      UniqueNodesAreFirstOccurrences(init);
      var id := NodeId(ParseNodeName(nodeNames[n]));
      SeenIds(init, id);
      assert forall j :: 0 <= j < n ==> init[j] == nodeNames[j];
      assert id in IdSet(UniqueNodes(init)) <==> !IsFirstOccurrence(nodeNames, n);
    }
  }

  // =====================================================================
  // get_node_info

  /** `next((name for name in node_names if name.split('/')[-1] == q), None)` */
  function FindNode(nodeNames: seq<string>, query: string): (r: Option<string>)
    ensures r.Some? ==> r.value in nodeNames && NodeNameOf(r.value) == query
    ensures r.None? <==> forall i :: 0 <= i < |nodeNames| ==> NodeNameOf(nodeNames[i]) != query
  {
    if nodeNames == [] then None
    else if NodeNameOf(nodeNames[0]) == query then Some(nodeNames[0])
    else
      assert forall i :: 1 <= i < |nodeNames| ==> nodeNames[i] == nodeNames[1..][i - 1];
      FindNode(nodeNames[1..], query)
  }

  /** The lookup returns the first matching name. */
  lemma {:induction false} FindNodeFirst(nodeNames: seq<string>, query: string)
    requires FindNode(nodeNames, query).Some?
    ensures exists i :: (0 <= i < |nodeNames| && nodeNames[i] == FindNode(nodeNames, query).value &&
      forall j :: 0 <= j < i ==> NodeNameOf(nodeNames[j]) != query)
  {
    if NodeNameOf(nodeNames[0]) != query {
      var rest := nodeNames[1..];
      FindNodeFirst(rest, query);
      var i :| 0 <= i < |rest| && rest[i] == FindNode(rest, query).value &&
        forall j :: 0 <= j < i ==> NodeNameOf(rest[j]) != query;
      assert nodeNames[i + 1] == rest[i];
      assert forall j :: 1 <= j < i + 1 ==> nodeNames[j] == rest[j - 1];
    }
  }

  /** What ROS reports for one node: its publishers, subscribers,
      services and clients with their types. */
  datatype NodeEndpoints = NodeEndpoints(
    publishers: seq<NamedTypes>,
    subscribers: seq<NamedTypes>,
    services: seq<NamedTypes>,
    clients: seq<NamedTypes>)

  function NotFoundMessage(query: string): string
  {
    "Node " + query + " not found"
  }

  /** `GET /nodes/{node_name}`: look the node up by the last segment of its
      name; a failed lookup, or an empty matching name (Python treats it as
      false), is the not-found error. */
  function GetNodeInfo(query: string, nodeNames: seq<string>, endpointsOf: (string, string) -> NodeEndpoints)
    : Result<NodeDetail, string>
  {
    match FindNode(nodeNames, query)
    case None => Err(NotFoundMessage(query))
    case Some(found) =>
      if found == "" then Err(NotFoundMessage(query))
      else
        var namespace := NamespaceOf(found);
        var e := endpointsOf(query, namespace);
        Ok(NodeDetail(query, namespace, e.publishers, e.subscribers, e.services, e.clients))
  }

  /** The node reply: found exactly when some name's last segment is the
      query (a non-empty query cannot match the empty name); then it is
      the first such name whose namespace is reported, with the endpoints
      ROS gives for the query in that namespace. Otherwise the error. */
  lemma GetNodeInfoSpec(query: string, nodeNames: seq<string>, endpointsOf: (string, string) -> NodeEndpoints)
    ensures var r := GetNodeInfo(query, nodeNames, endpointsOf);
      (r.Err? ==> r.error == NotFoundMessage(query)) &&
      (r.Ok? ==> exists i :: 0 <= i < |nodeNames| && NodeNameOf(nodeNames[i]) == query &&
                   (forall j :: 0 <= j < i ==> NodeNameOf(nodeNames[j]) != query) &&
                   r.value.node == query && r.value.namespace == NamespaceOf(nodeNames[i]) &&
                   r.value.publishes == endpointsOf(query, r.value.namespace).publishers &&
                   r.value.subscribes == endpointsOf(query, r.value.namespace).subscribers &&
                   r.value.services == endpointsOf(query, r.value.namespace).services &&
                   r.value.clients == endpointsOf(query, r.value.namespace).clients) &&
      ((forall i :: 0 <= i < |nodeNames| ==> NodeNameOf(nodeNames[i]) != query) ==> r.Err?) &&
      (query != "" && (exists i :: 0 <= i < |nodeNames| && NodeNameOf(nodeNames[i]) == query) ==> r.Ok?)
  {
    var found := FindNode(nodeNames, query);
    if found.Some? {
      FindNodeFirst(nodeNames, query);
      if query != "" {
        assert found.value != "" by {
          SplitNoSeparator("", '/');
        }
      }
    }
  }

  /** A query holding a slash is never found: last segments hold none. */
  lemma QueryWithSlashNotFound(query: string, nodeNames: seq<string>, endpointsOf: (string, string) -> NodeEndpoints)
    requires '/' in query
    ensures GetNodeInfo(query, nodeNames, endpointsOf) == Err(NotFoundMessage(query))
  {
    forall i | 0 <= i < |nodeNames|
      ensures NodeNameOf(nodeNames[i]) != query
    {
      LastPieceShape(nodeNames[i], '/');
    }
  }
}
