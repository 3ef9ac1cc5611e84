/** The two page routes the front end navigates to; the encoded name is
    appended as the query value. */
module Routes {
  /** `/nodes?node=`: the node page, selecting a node by full name. */
  const NodesRoute: string := "/nodes?node="

  /** `/topics?topic=`: the topic page, selecting a topic by name. */
  const TopicsRoute: string := "/topics?topic="
}
