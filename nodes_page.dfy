/** The nodes page (frontend/app/nodes/page.tsx): the list entries it
    builds from `GET /nodes`, their React keys, the search filter, the
    selection highlight, and what clearing the selection does. Fetching
    and the loading and error flags are not modelled. */
module NodesPage {
  import opened Wrappers
  import opened Text
  import opened Lists
  import opened FullNames
  import opened ApiTypes
  import Backend

  /** A list entry; `id` is optional in the page's type. */
  datatype ListNode = ListNode(name: string, namespace: string, id: Option<string>)

  /** `${node.namespace}/${node.name}-${index}` */
  function IndexedId(node: NodeSummary, index: nat): string
  {
    node.namespace + "/" + node.name + "-" + NatToString(index)
  }

  /** `data.map((node, index) => ({ ...node, id: ... }))` */
  function AssignIds(data: seq<NodeSummary>): (r: seq<ListNode>)
    ensures |r| == |data|
    ensures forall i :: 0 <= i < |r| ==>
      r[i].name == data[i].name && r[i].namespace == data[i].namespace && r[i].id == Some(IndexedId(data[i], i))
  {
    seq(|data|, i requires 0 <= i < |data| => ListNode(data[i].name, data[i].namespace, Some(IndexedId(data[i], i))))
  }

  /** The index can be read back from an assigned id: it is the text
      after the last `-`. */
  lemma IndexRecoverable(node: NodeSummary, index: nat)
    ensures ParseDigits(LastPiece(IndexedId(node, index), '-')) == index
  {
    var digits := NatToString(index);
    assert forall k :: 0 <= k < |digits| ==> digits[k] != '-';
    assert '-' !in digits;
    LastPieceAfter(node.namespace + "/" + node.name, '-', digits);
    ParseNatToString(index);
  }

  /** The assigned ids are pairwise distinct, whatever the names. */
  lemma AssignedIdsDistinct(data: seq<NodeSummary>, i: nat, j: nat)
    requires i < j < |data|
    ensures AssignIds(data)[i].id != AssignIds(data)[j].id
  {
    IndexRecoverable(data[i], i);
    IndexRecoverable(data[j], j);
  }

  /** `getNodeKey`: the id when it is set and non-empty, else `namespace/name`. */
  function GetNodeKey(node: ListNode): string
  {
    match node.id
    case Some(id) => if id != "" then id else node.namespace + "/" + node.name
    case None => node.namespace + "/" + node.name
  }

  /** The keys of the assigned list are its ids, so they are distinct too. */
  lemma AssignedKeysDistinct(data: seq<NodeSummary>, i: nat, j: nat)
    requires i < j < |data|
    ensures GetNodeKey(AssignIds(data)[i]) == AssignIds(data)[i].id.value
    ensures GetNodeKey(AssignIds(data)[i]) != GetNodeKey(AssignIds(data)[j])
  {
    AssignedIdsDistinct(data, i, j);
  }

  /** A node without an id is keyed by `namespace/name`. */
  lemma KeyWithoutId(node: ListNode)
    requires node.id == None || node.id == Some("")
    ensures GetNodeKey(node) == node.namespace + "/" + node.name
  {
  }

  // ---------------------------------------------------------------------
  // Search filter

  /** The lower-cased full name includes the lower-cased query. */
  predicate NodeMatches(node: ListNode, query: string)
  {
    Includes(ToLower(FullNodeName(node.namespace, node.name)), ToLower(query))
  }

  /** `filteredNodes`: the entries that match, in list order, each as often
      as in the list. */
  function FilteredNodes(nodes: seq<ListNode>, query: string): (r: seq<ListNode>)
    ensures forall i :: 0 <= i < |r| ==> r[i] in nodes && NodeMatches(r[i], query)
    ensures forall i :: 0 <= i < |nodes| && NodeMatches(nodes[i], query) ==> nodes[i] in r
    ensures IsSubsequence(r, nodes)
    ensures forall n :: multiset(r)[n] == if NodeMatches(n, query) then multiset(nodes)[n] else 0
  {
    var p := (n: ListNode) => NodeMatches(n, query);
    FilterIsSubsequence(nodes, p);
    forall n ensures multiset(Filter(nodes, p))[n] == if NodeMatches(n, query) then multiset(nodes)[n] else 0 {
      FilterCounts(nodes, p, n);
    }
    Filter(nodes, p)
  }

  /** An empty query keeps every entry. */
  lemma EmptyQueryKeepsAll(nodes: seq<ListNode>)
    ensures FilteredNodes(nodes, "") == nodes
  {
    forall i | 0 <= i < |nodes|
      ensures NodeMatches(nodes[i], "")
    {
      IncludesEmpty(ToLower(FullNodeName(nodes[i].namespace, nodes[i].name)));
    }
    FilterKeepsAll(nodes, (n: ListNode) => NodeMatches(n, ""));
  }

  /** The search ignores the case of the query's ASCII letters. */
  lemma SearchIgnoresQueryCase(nodes: seq<ListNode>, query: string)
    ensures FilteredNodes(nodes, query) == FilteredNodes(nodes, ToLower(query))
  {
    ToLowerIdempotent(query);
    FilterSamePredicate(nodes, (n: ListNode) => NodeMatches(n, query), (n: ListNode) => NodeMatches(n, ToLower(query)));
  }

  // ---------------------------------------------------------------------
  // Selection

  /** The bold test: both name and namespace equal the selected node's. */
  predicate IsBold(selected: Option<ListNode>, node: ListNode)
  {
    selected.Some? && selected.value.name == node.name && selected.value.namespace == node.namespace
  }

  /** Entries listed from `GET /nodes` have distinct name-and-namespace
      pairs, so at most one of them is bold. */
  lemma AtMostOneBold(nodeNames: seq<string>, selected: Option<ListNode>, i: nat, j: nat)
    requires i < j < |AssignIds(Backend.UniqueNodes(nodeNames))|
    ensures !(IsBold(selected, AssignIds(Backend.UniqueNodes(nodeNames))[i]) &&
              IsBold(selected, AssignIds(Backend.UniqueNodes(nodeNames))[j]))
  {
    Backend.UniqueNodesDistinct(nodeNames);
  }

  /** The effect run on a selection change: no selection clears the shown
      detail; a selection keeps it until its fetch (not modelled) answers. */
  function NodeInfoOnSelection(selected: Option<ListNode>, current: Option<NodeDetail>): Option<NodeDetail>
  {
    if selected.None? then None else current
  }

  lemma ClearingSelectionClearsInfo(current: Option<NodeDetail>)
    ensures NodeInfoOnSelection(None, current) == None
  {
  }

  /** The detail request asks for the full name; the backend looks nodes up
      by their last segment, so outside the root namespace the request is
      always answered with the not-found error. */
  lemma DetailRequestOutsideRoot(node: ListNode, nodeNames: seq<string>, endpointsOf: (string, string) -> Backend.NodeEndpoints)
    requires node.namespace != "/"
    ensures Backend.GetNodeInfo(FullNodeName(node.namespace, node.name), nodeNames, endpointsOf)
         == Err(Backend.NotFoundMessage(FullNodeName(node.namespace, node.name)))
  {
    FullNameOutsideRootHasSlash(node.namespace, node.name);
    Backend.QueryWithSlashNotFound(FullNodeName(node.namespace, node.name), nodeNames, endpointsOf);
  }
}
