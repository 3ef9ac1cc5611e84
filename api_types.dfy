/** The JSON records that the backend returns and the front end reads:
    the shapes of frontend/app/types.ts and of the node detail reply. */
module ApiTypes {

  /** One entry of `GET /topics`. */
  datatype Topic = Topic(name: string, types: seq<string>, encodedName: string)

  /** A publisher or subscriber of a topic, as `GET /topics/{name}` lists it. */
  datatype TopicEndpoint = TopicEndpoint(nodeName: string, nodeNamespace: string, topicType: string)

  /** The reply of `GET /topics/{name}`. */
  datatype TopicInfo = TopicInfo(
    topic: string,
    encodedTopic: string,
    publishers: seq<TopicEndpoint>,
    subscribers: seq<TopicEndpoint>)

  /** One entry of `GET /nodes`. */
  datatype NodeSummary = NodeSummary(name: string, namespace: string)

  /** A topic or service name with its type names, as in `{"topic": t, "types": types}`. */
  datatype NamedTypes = NamedTypes(name: string, types: seq<string>)

  /** The reply of `GET /nodes/{name}`. */
  datatype NodeDetail = NodeDetail(
    node: string,
    namespace: string,
    publishes: seq<NamedTypes>,
    subscribes: seq<NamedTypes>,
    services: seq<NamedTypes>,
    clients: seq<NamedTypes>)
}
