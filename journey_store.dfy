/** The navigation-history store (frontend/app/store/journeyStore.ts): an
    ordered list of visited nodes and topics, oldest first, holding at most
    the last 50 entries. The functions below give the new list that each
    store action computes; the class `Store` holds the list and performs
    the actions in place. */
module JourneyStore {

  datatype ItemType = NodeItem | TopicItem

  /** What a caller passes to `addItem`: an item without its timestamp. */
  datatype JourneyEntry = JourneyEntry(itemType: ItemType, name: string, namespace: string)

  datatype JourneyItem = JourneyItem(itemType: ItemType, name: string, namespace: string, timestamp: int)

  /** The number of items the store keeps. */
  const MaxItems: nat := 50

  /** `{ ...entry, timestamp }` */
  function Stamp(entry: JourneyEntry, timestamp: int): JourneyItem
  {
    JourneyItem(entry.itemType, entry.name, entry.namespace, timestamp)
  }

  /** JavaScript `s.slice(-n)` for a positive `n`: the last `n` elements,
      or all of them when there are fewer. */
  function KeepLast<T>(s: seq<T>, n: nat): (r: seq<T>)
    requires n > 0
    ensures |r| == if |s| < n then |s| else n
    ensures r == s[|s| - |r|..]
  {
    if |s| <= n then s else s[|s| - n..]
  }

  /** The list after `addItem(entry)` at time `timestamp`. */
  function Added(items: seq<JourneyItem>, entry: JourneyEntry, timestamp: int): seq<JourneyItem>
  {
    KeepLast(items + [Stamp(entry, timestamp)], MaxItems)
  }

  /** `items.filter((_, i) => i !== index)`, walking from the end so that
      every element keeps its position. */
  function Removed(items: seq<JourneyItem>, index: int): (r: seq<JourneyItem>)
    ensures |r| <= |items|
  {
    if items == [] then []
    else
      Removed(items[..|items| - 1], index) +
      (if |items| - 1 != index then [items[|items| - 1]] else [])
  }

  // ---------------------------------------------------------------------
  // What each action does to the list

  /** `addItem` never leaves more than 50 items and puts the new item,
      with the timestamp it was given, last. */
  lemma AddedShape(items: seq<JourneyItem>, entry: JourneyEntry, timestamp: int)
    ensures |Added(items, entry, timestamp)| <= MaxItems
    ensures |Added(items, entry, timestamp)| > 0
    ensures Added(items, entry, timestamp)[|Added(items, entry, timestamp)| - 1] == Stamp(entry, timestamp)
  {
  }

  /** Below the cap nothing is evicted. */
  lemma AddedBelowCap(items: seq<JourneyItem>, entry: JourneyEntry, timestamp: int)
    requires |items| < MaxItems
    ensures Added(items, entry, timestamp) == items + [Stamp(entry, timestamp)]
  {
  }

  /** At the cap only the oldest item is evicted; the rest keep their order. */
  lemma AddedAtCap(items: seq<JourneyItem>, entry: JourneyEntry, timestamp: int)
    requires |items| == MaxItems
    ensures Added(items, entry, timestamp) == items[1..] + [Stamp(entry, timestamp)]
  {
    assert (items + [Stamp(entry, timestamp)])[1..] == items[1..] + [Stamp(entry, timestamp)];
  }

  /** No de-duplication: adding the same entry twice leaves it as the last two items. */
  lemma AddedTwiceKeepsBoth(items: seq<JourneyItem>, entry: JourneyEntry, t1: int, t2: int)
    ensures var r := Added(Added(items, entry, t1), entry, t2);
      |r| >= 2 && r[|r| - 2] == Stamp(entry, t1) && r[|r| - 1] == Stamp(entry, t2)
  {
    var once := Added(items, entry, t1);
    var twice := Added(once, entry, t2);
    assert once[|once| - 1] == Stamp(entry, t1);
    if |once| < MaxItems {
      assert twice == once + [Stamp(entry, t2)];
    } else {
      assert twice == once[1..] + [Stamp(entry, t2)];
    }
  }

  /** Removing an index in range deletes exactly that item. */
  lemma {:induction false} RemovedInRange(items: seq<JourneyItem>, index: int)
    requires 0 <= index < |items|
    ensures Removed(items, index) == items[..index] + items[index + 1..]
  {
    var init := items[..|items| - 1];
    if index == |items| - 1 {
      RemovedOutOfRange(init, index);
      assert init == items[..index] + items[index + 1..];
    } else {
      RemovedInRange(init, index);
      assert init[..index] == items[..index];
      assert init[index + 1..] + [items[|items| - 1]] == items[index + 1..];
    }
  }

  /** Removing an index outside the list leaves it unchanged. */
  lemma {:induction false} RemovedOutOfRange(items: seq<JourneyItem>, index: int)
    requires index < 0 || index >= |items|
    ensures Removed(items, index) == items
  {
    if items != [] {
      RemovedOutOfRange(items[..|items| - 1], index);
      assert items == items[..|items| - 1] + [items[|items| - 1]];
    }
  }

  /** Clearing an already cleared list changes nothing. */
  lemma ClearIdempotent(items: seq<JourneyItem>)
    ensures Step(Step(items, Clear), Clear) == Step(items, Clear) == []
  {
  }

  // ---------------------------------------------------------------------
  // Runs of actions from the initial empty list

  datatype Action = Add(entry: JourneyEntry, timestamp: int) | Clear | Remove(index: int)

  function Step(items: seq<JourneyItem>, action: Action): seq<JourneyItem>
  {
    match action
    case Add(entry, timestamp) => Added(items, entry, timestamp)
    case Clear => []
    case Remove(index) => Removed(items, index)
  }

  /** The list after performing `actions` in order, starting from `items`. */
  function Run(items: seq<JourneyItem>, actions: seq<Action>): seq<JourneyItem>
  {
    if actions == [] then items
    else Step(Run(items, actions[..|actions| - 1]), actions[|actions| - 1])
  }

  /** Whatever the actions, a list that starts within the cap stays within it. */
  lemma {:induction false} RunWithinCap(items: seq<JourneyItem>, actions: seq<Action>)
    requires |items| <= MaxItems
    ensures |Run(items, actions)| <= MaxItems
  {
    if actions != [] {
      RunWithinCap(items, actions[..|actions| - 1]);
    }
  }

  /** Stamps each entry with its own timestamp. */
  function StampAll(entries: seq<(JourneyEntry, int)>): (r: seq<JourneyItem>)
    ensures |r| == |entries|
    ensures forall i :: 0 <= i < |r| ==> r[i] == Stamp(entries[i].0, entries[i].1)
  {
    seq(|entries|, i requires 0 <= i < |entries| => Stamp(entries[i].0, entries[i].1))
  }

  function Adds(entries: seq<(JourneyEntry, int)>): (r: seq<Action>)
    ensures |r| == |entries|
    ensures forall i :: 0 <= i < |r| ==> r[i] == Add(entries[i].0, entries[i].1)
  {
    seq(|entries|, i requires 0 <= i < |entries| => Add(entries[i].0, entries[i].1))
  }

  /** A run of `addItem` calls from the empty list holds the last 50 of
      the added items, in the order they were added. */
  lemma {:induction false} AddsKeepLast(entries: seq<(JourneyEntry, int)>)
    ensures Run([], Adds(entries)) == KeepLast(StampAll(entries), MaxItems)
  {
    if entries != [] {
      var init := entries[..|entries| - 1];
      var last := entries[|entries| - 1];
      AddsKeepLast(init);
      assert Adds(entries)[..|entries| - 1] == Adds(init);
      var s := StampAll(init);
      assert StampAll(entries) == s + [Stamp(last.0, last.1)];
      KeepLastAppend(s, Stamp(last.0, last.1), MaxItems);
    }
  }

  lemma KeepLastAppend<T>(s: seq<T>, x: T, n: nat)
    requires n > 0
    ensures KeepLast(KeepLast(s, n) + [x], n) == KeepLast(s + [x], n)
  {
    if |s| > n {
      assert (s + [x])[|s| + 1 - n..] == s[|s| + 1 - n..] + [x];
      assert (s[|s| - n..] + [x])[1..] == s[|s| + 1 - n..] + [x];
    }
  }

  /** After 51 additions the first is gone and the other 50 remain in order. */
  lemma FiftyOneAdds(entries: seq<(JourneyEntry, int)>)
    requires |entries| == MaxItems + 1
    ensures Run([], Adds(entries)) == StampAll(entries)[1..]
  {
    AddsKeepLast(entries);
  }

  // ---------------------------------------------------------------------
  // The store itself

  class Store {
    /** The list of visited items, oldest first. */
    var items: seq<JourneyItem>

    ghost predicate Valid()
      reads this
    {
      |items| <= MaxItems
    }

    /** A fresh store, `items: []`. */
    constructor ()
      ensures Valid() && items == []
    {
      items := [];
    }

    /** `addItem(entry)`; `now` stands for `Date.now()`. */
    method AddItem(entry: JourneyEntry, now: int)
      modifies this
      ensures Valid()
      ensures items == Added(old(items), entry, now)
    {
      items := KeepLast(items + [Stamp(entry, now)], MaxItems);
    }

    /** `clearItems()` */
    method ClearItems()
      modifies this
      ensures Valid() && items == []
    {
      items := [];
    }

    /** `removeItem(index)`: drop the item at `index`, if there is one. */
    method RemoveItem(index: int)
      requires Valid()
      modifies this
      ensures Valid()
      ensures items == Removed(old(items), index)
      ensures 0 <= index < |old(items)| ==> items == old(items)[..index] + old(items)[index + 1..]
      ensures !(0 <= index < |old(items)|) ==> items == old(items)
    {
      ghost var was := items;
      items := Removed(items, index);
      if 0 <= index < |was| {
        RemovedInRange(was, index);
      } else {
        RemovedOutOfRange(was, index);
      }
    }
  }
}
