/** The topics page (frontend/app/topics/page.tsx): the search filter, the
    selection highlight, the detail heading and what clearing the selection
    does. Fetching and the loading and error flags are not modelled. */
module TopicsPage {
  import opened Wrappers
  import opened Text
  import opened Lists
  import opened ApiTypes
  import Backend

  // ---------------------------------------------------------------------
  // Search filter

  /** The lower-cased topic name includes the lower-cased query. */
  predicate TopicMatches(topic: Topic, query: string)
  {
    Includes(ToLower(topic.name), ToLower(query))
  }

  /** `filteredTopics`: the topics that match, in list order, each as
      often as in the list. */
  function FilteredTopics(topics: seq<Topic>, query: string): (r: seq<Topic>)
    ensures forall i :: 0 <= i < |r| ==> r[i] in topics && TopicMatches(r[i], query)
    ensures forall i :: 0 <= i < |topics| && TopicMatches(topics[i], query) ==> topics[i] in r
    ensures IsSubsequence(r, topics)
    ensures forall t :: multiset(r)[t] == if TopicMatches(t, query) then multiset(topics)[t] else 0
  {
    var p := (t: Topic) => TopicMatches(t, query);
    FilterIsSubsequence(topics, p);
    forall t ensures multiset(Filter(topics, p))[t] == if TopicMatches(t, query) then multiset(topics)[t] else 0 {
      FilterCounts(topics, p, t);
    }
    Filter(topics, p)
  }

  /** An empty query keeps every topic. */
  lemma EmptyQueryKeepsAll(topics: seq<Topic>)
    ensures FilteredTopics(topics, "") == topics
  {
    forall i | 0 <= i < |topics|
      ensures TopicMatches(topics[i], "")
    {
      IncludesEmpty(ToLower(topics[i].name));
    }
    FilterKeepsAll(topics, (t: Topic) => TopicMatches(t, ""));
  }

  /** The search ignores the case of the query's ASCII letters. */
  lemma SearchIgnoresQueryCase(topics: seq<Topic>, query: string)
    ensures FilteredTopics(topics, query) == FilteredTopics(topics, ToLower(query))
  {
    ToLowerIdempotent(query);
    FilterSamePredicate(topics, (t: Topic) => TopicMatches(t, query), (t: Topic) => TopicMatches(t, ToLower(query)));
  }

  // ---------------------------------------------------------------------
  // Selection

  /** `selectedTopic === topic.encoded_name` */
  predicate IsBold(selected: Option<string>, topic: Topic)
  {
    selected == Some(topic.encodedName)
  }

  /** Bold entries are exactly those whose encoded name is the selection;
      with no selection nothing is bold. */
  lemma BoldMeansSelected(selected: Option<string>, a: Topic, b: Topic)
    ensures selected == None ==> !IsBold(selected, a)
    ensures IsBold(selected, a) && IsBold(selected, b) ==> a.encodedName == b.encodedName
    ensures IsBold(Some(a.encodedName), a)
  {
  }

  /** `selectedTopic` is truthy: set and non-empty. */
  predicate HasSelection(selected: Option<string>)
  {
    selected.Some? && selected.value != ""
  }

  /** The effect run on a selection change: without a (truthy) selection the
      shown detail is cleared; otherwise it stays until the fetch (not
      modelled) answers. */
  function TopicInfoOnSelection(selected: Option<string>, current: Option<TopicInfo>): (r: Option<TopicInfo>)
  {
    if !HasSelection(selected) then None else current
  }

  /** Clearing the selection, or selecting the empty string, clears the detail. */
  lemma ClearingSelectionClearsInfo(current: Option<TopicInfo>)
    ensures TopicInfoOnSelection(None, current) == None
    ensures TopicInfoOnSelection(Some(""), current) == None
  {
  }

  // ---------------------------------------------------------------------
  // Heading

  /** The text after the leading run of slashes. */
  function DropLeadingSlashes(s: string): (r: string)
    ensures !StartsWith(r, "/")
    ensures |r| <= |s| && r == s[|s| - |r|..]
  {
    if s != [] && s[0] == '/' then DropLeadingSlashes(s[1..]) else s
  }

  /** `s.replace(/^\/+/, '/')`: a leading run of slashes becomes one slash. */
  function ReplaceLeadingSlashes(s: string): string
  {
    if StartsWith(s, "/") then "/" + DropLeadingSlashes(s) else s
  }

  /** The replacement keeps whether the text starts with a slash, never
      leaves two leading slashes, keeps the text after the leading run, and
      changes nothing the second time. */
  lemma ReplaceLeadingSlashesShape(s: string)
    ensures StartsWith(ReplaceLeadingSlashes(s), "/") <==> StartsWith(s, "/")
    ensures !StartsWith(ReplaceLeadingSlashes(s), "//")
    ensures DropLeadingSlashes(ReplaceLeadingSlashes(s)) == DropLeadingSlashes(s)
    ensures ReplaceLeadingSlashes(ReplaceLeadingSlashes(s)) == ReplaceLeadingSlashes(s)
  {
    var rest := DropLeadingSlashes(s);
    if StartsWith(s, "/") {
      var r := "/" + rest;
      assert r[1..] == rest;
    }
  }

  /** The heading: the reply's topic when it is non-empty, else the decoded
      selection with its leading slashes collapsed. `decode` is
      `decodeURIComponent`. */
  function Heading(info: Option<TopicInfo>, selected: string, decode: string -> string): string
  {
    if info.Some? && info.value.topic != "" then info.value.topic
    else ReplaceLeadingSlashes(decode(selected))
  }

  lemma HeadingCases(info: Option<TopicInfo>, selected: string, decode: string -> string)
    ensures info.Some? && info.value.topic != "" ==> Heading(info, selected, decode) == info.value.topic
    ensures (info.None? || info.value.topic == "") ==>
      Heading(info, selected, decode) == ReplaceLeadingSlashes(decode(selected)) &&
      !StartsWith(Heading(info, selected, decode), "//")
  {
    ReplaceLeadingSlashesShape(decode(selected));
  }

  /** Once the backend's reply is shown, the heading is its normalised topic
      name: that name is never empty. */
  lemma HeadingShowsBackendTopic(
    selected: string, decode: string -> string,
    unquote: string -> string, quote: string -> string,
    publishersOf: string -> seq<Backend.EndpointInfo>, subscriptionsOf: string -> seq<Backend.EndpointInfo>)
    ensures var reply := Backend.GetTopicInfo(selected, unquote, quote, publishersOf, subscriptionsOf);
      Heading(Some(reply), selected, decode) == reply.topic &&
      reply.topic == Backend.NormalizeTopicName(unquote(selected))
  {
  }
}
