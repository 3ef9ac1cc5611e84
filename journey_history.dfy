/** The history panel (frontend/app/components/JourneyHistory.tsx): the
    route a history entry leads to, when the clear button and the empty
    text appear, and how each row's remove button reaches the store.
    Time formatting is not modelled. */
module JourneyHistory {
  import opened Routes
  import opened FullNames
  import opened JourneyStore
  import TopicGraph
  import opened Wrappers


  /** `handleItemClick`: a node entry goes to its node page by full name,
      a topic entry to its topic page by name. `encode` is
      `encodeURIComponent`. */
  function ItemRoute(item: JourneyItem, encode: string -> string): string
  {
    if item.itemType == NodeItem then NodesRoute + encode(FullNodeName(item.namespace, item.name))
    else TopicsRoute + encode(item.name)
  }

  /** A node in the root namespace is routed by its bare name, any other
      by `namespace/name`; a topic by its name whatever its namespace. */
  lemma ItemRouteCases(item: JourneyItem, encode: string -> string)
    ensures item.itemType == NodeItem && item.namespace == "/" ==> ItemRoute(item, encode) == NodesRoute + encode(item.name)
    ensures item.itemType == NodeItem && item.namespace != "/" ==>
      ItemRoute(item, encode) == NodesRoute + encode(item.namespace + "/" + item.name)
    ensures item.itemType == TopicItem ==> ItemRoute(item, encode) == TopicsRoute + encode(item.name)
  {
  }

  /** Two topic entries with the same name lead to the same page. */
  lemma TopicRouteIgnoresNamespace(a: JourneyItem, b: JourneyItem, encode: string -> string)
    requires a.itemType == TopicItem && b.itemType == TopicItem && a.name == b.name
    ensures ItemRoute(a, encode) == ItemRoute(b, encode)
  {
  }

  /** The route tells node entries from topic entries. */
  lemma RouteTellsKind(a: JourneyItem, b: JourneyItem, encode: string -> string)
    requires ItemRoute(a, encode) == ItemRoute(b, encode)
    ensures a.itemType == b.itemType
  {
    assert ItemRoute(a, encode)[1] == (if a.itemType == NodeItem then 'n' else 't');
    assert ItemRoute(b, encode)[1] == (if b.itemType == NodeItem then 'n' else 't');
  }

  /** A node entry leads where a click on the same node in the graph view
      (without a callback) leads. */
  lemma NodeRouteAgreesWithGraph(item: JourneyItem, node: TopicGraph.GraphNode, encode: string -> string)
    requires item.itemType == NodeItem
    requires node.kind != TopicGraph.TopicKind && node.name == item.name && node.namespace == Some(item.namespace)
    ensures TopicGraph.HandleNodeClick(node, false, encode) == TopicGraph.Navigate(ItemRoute(item, encode))
  {
  }

  /** The "Clear History" button: shown when there are items. */
  predicate ShowsClearButton(items: seq<JourneyItem>)
  {
    |items| > 0
  }

  /** The "No navigation history yet" text: shown when there are none. */
  predicate ShowsEmptyState(items: seq<JourneyItem>)
  {
    |items| == 0
  }

  /** Exactly one of the two is shown, and the empty text exactly when the
      list is empty. */
  lemma ClearOrEmpty(items: seq<JourneyItem>)
    ensures ShowsClearButton(items) != ShowsEmptyState(items)
    ensures ShowsEmptyState(items) <==> items == []
  {
  }

  /** A rendered row: its item and the index its remove button passes. */
  datatype HistoryRow = HistoryRow(item: JourneyItem, removeIndex: int)

  /** `items.map((item, index) => ...)` */
  function Rows(items: seq<JourneyItem>): (r: seq<HistoryRow>)
    ensures |r| == |items|
    ensures forall i :: 0 <= i < |r| ==> r[i].item == items[i] && r[i].removeIndex == i
  {
    seq(|items|, i requires 0 <= i < |items| => HistoryRow(items[i], i))
  }

  /** Row `i`'s remove button deletes exactly row `i`. */
  lemma RemoveButtonDeletesItsRow(items: seq<JourneyItem>, i: nat)
    requires i < |items|
    ensures Removed(items, Rows(items)[i].removeIndex) == items[..i] + items[i + 1..]
    ensures |Removed(items, Rows(items)[i].removeIndex)| == |items| - 1
  {
    RemovedInRange(items, i);
  }

  /** A press on row `row`'s remove button. */
  method PressRemove(store: Store, row: nat)
    requires store.Valid() && row < |store.items|
    modifies store
    ensures store.Valid()
    ensures store.items == old(store.items)[..row] + old(store.items)[row + 1..]
  {
    var rows := Rows(store.items);
    store.RemoveItem(rows[row].removeIndex);
  }

  /** A press on "Clear History". */
  method PressClear(store: Store)
    modifies store
    ensures store.Valid() && store.items == [] && ShowsEmptyState(store.items)
  {
    store.ClearItems();
  }
}
