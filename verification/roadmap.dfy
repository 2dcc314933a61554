/** The roadmap builder (src/components/learning-roadmap.tsx): groups
    resources into one node per main topic, grades each node's difficulty,
    orders the nodes (unfinished first, then easiest first) and gates each
    node on its predecessors. */
module Roadmap {
  import opened Text
  import opened Seqs
  import opened Sorting
  import opened Resources

  datatype Difficulty = Beginner | Intermediate | Advanced

  /** The score of a difficulty when averaging, which is also its rank when
      ordering nodes. */
  function DifficultyRank(d: Difficulty): nat {
    match d
    case Beginner => 0
    case Intermediate => 1
    case Advanced => 2
  }

  datatype RoadmapNode = RoadmapNode(
    title: string,
    description: string,
    resources: seq<Resource>,
    isCompleted: bool,
    difficulty: Difficulty,
    categories: seq<string>)

  // ---------------------------------------------------------------------
  // Difficulty of one resource: `getResourceDifficulty`

  const BeginnerIndicators: seq<string> :=
    ["basic", "introduction", "getting started", "fundamentals", "101"]

  const AdvancedIndicators: seq<string> :=
    ["advanced", "expert", "complex", "architecture", "optimization"]

  /** `${resource.notes}`: a null note is interpolated as the text "null". */
  function NotesText(notes: Option<string>): string {
    match notes
    case None => "null"
    case Some(n) => n
  }

  function DifficultyText(r: Resource): string {
    Lower(r.title + " " + NotesText(r.notes))
  }

  /** `terms.some((term) => text.includes(term))`: plain substring search,
      with no word boundaries. */
  predicate MentionsAny(text: string, terms: seq<string>) {
    exists i :: 0 <= i < |terms| && Contains(text, terms[i])
  }

  function ResourceDifficulty(r: Resource): Difficulty {
    var text := DifficultyText(r);
    if MentionsAny(text, AdvancedIndicators) then Advanced
    else if MentionsAny(text, BeginnerIndicators) then Beginner
    else Intermediate
  }

  /** The three outcomes, with advanced indicators taking precedence over
      beginner ones. */
  lemma ResourceDifficultyCases(r: Resource)
    ensures var text := DifficultyText(r);
      && (ResourceDifficulty(r) == Advanced <==> MentionsAny(text, AdvancedIndicators))
      && (ResourceDifficulty(r) == Beginner <==>
            !MentionsAny(text, AdvancedIndicators) && MentionsAny(text, BeginnerIndicators))
      && (ResourceDifficulty(r) == Intermediate <==>
            !MentionsAny(text, AdvancedIndicators) && !MentionsAny(text, BeginnerIndicators))
  {
  }

  /** An advanced indicator anywhere in the title or the notes, in any case,
      makes the resource advanced, whatever beginner indicators appear too. */
  lemma AdvancedIndicatorWins(r: Resource, i: nat)
    requires i < |AdvancedIndicators|
    requires Contains(Lower(r.title), AdvancedIndicators[i]) || Contains(Lower(NotesText(r.notes)), AdvancedIndicators[i])
    ensures ResourceDifficulty(r) == Advanced
  {
    LowerAppend(r.title + " ", NotesText(r.notes));
    LowerAppend(r.title, " ");
    if Contains(Lower(r.title), AdvancedIndicators[i]) {
      ContainsInAppend(Lower(r.title), Lower(" "), AdvancedIndicators[i]);
      ContainsInAppend(Lower(r.title) + Lower(" "), Lower(NotesText(r.notes)), AdvancedIndicators[i]);
    } else {
      ContainsInAppend(Lower(r.title) + Lower(" "), Lower(NotesText(r.notes)), AdvancedIndicators[i]);
    }
  }

  /** A null note reads exactly like a note whose text is "null". */
  lemma NullNotesReadAsNull(r: Resource)
    requires r.notes == None
    ensures ResourceDifficulty(r) == ResourceDifficulty(r.(notes := Some("null")))
  {
  }

  /** Indicators are matched as substrings: "complexity" contains "complex". */
  lemma SubstringIndicator(r: Resource)
    requires r.title == "Complexity theory" && r.notes == None
    ensures ResourceDifficulty(r) == Advanced
  {
    assert Lower(r.title) == "complexity theory";
    assert OccursAt(Lower(r.title), "complex", 0);
    AdvancedIndicatorWins(r, 2);
  }

  // ---------------------------------------------------------------------
  // Grouping: the `forEach` over resources that fills the `topics` map

  /** `resource.categories[0]` when it is truthy: a resource with no
      categories, or whose first category is the empty string, has no topic. */
  function MainTopic(r: Resource): Option<string> {
    if |r.categories| == 0 || r.categories[0] == "" then None else Some(r.categories[0])
  }

  /** The main topics of the resources, in input order, skipping resources
      that have none. */
  function MainTopics(rs: seq<Resource>): seq<string> {
    if rs == [] then []
    else
      MainTopics(rs[..|rs| - 1]) +
        match MainTopic(rs[|rs| - 1])
        case None => []
        case Some(t) => [t]
  }

  /** The keys of the `topics` map in insertion order: each main topic once,
      in order of first appearance. */
  function TopicOrder(rs: seq<Resource>): seq<string> {
    Dedup(MainTopics(rs))
  }

  function HasTopic(t: string): Resource -> bool {
    r => MainTopic(r) == Some(t)
  }

  /** The group of topic `t`: its resources in input order. */
  function ResourcesOf(rs: seq<Resource>, t: string): seq<Resource> {
    Filter(rs, HasTopic(t))
  }

  lemma ResourcesOfAppend(rs: seq<Resource>, r: Resource, t: string)
    ensures ResourcesOf(rs + [r], t) ==
              ResourcesOf(rs, t) + if MainTopic(r) == Some(t) then [r] else []
  {
    FilterAppend(rs, [r], HasTopic(t));
  }

  lemma {:induction false} MainTopicsMembers(rs: seq<Resource>)
    ensures forall t :: t in MainTopics(rs) <==> exists i :: 0 <= i < |rs| && MainTopic(rs[i]) == Some(t)
  {
    if rs != [] {
      var init := rs[..|rs| - 1];
      MainTopicsMembers(init);
      forall t | exists i :: 0 <= i < |rs| && MainTopic(rs[i]) == Some(t)
        ensures t in MainTopics(rs)
      {
        var i :| 0 <= i < |rs| && MainTopic(rs[i]) == Some(t);
        if i < |init| {
          assert MainTopic(init[i]) == Some(t);
        }
      }
      forall t | t in MainTopics(rs)
        ensures exists i :: 0 <= i < |rs| && MainTopic(rs[i]) == Some(t)
      {
        if t in MainTopics(init) {
          var i :| 0 <= i < |init| && MainTopic(init[i]) == Some(t);
          assert rs[i] == init[i];
        } else {
          assert MainTopic(rs[|rs| - 1]) == Some(t);
        }
      }
    }
  }

  /** Grouping partitions the resources that have a topic: topics are listed
      once each, exactly the main topics that occur; a resource belongs to
      the group of its main topic, as often as it occurs in the input, and
      to no other group; resources without a topic are in no group. */
  lemma GroupingPartitions(rs: seq<Resource>)
    ensures NoDuplicates(TopicOrder(rs))
    ensures forall t :: t in TopicOrder(rs) <==> exists i :: 0 <= i < |rs| && MainTopic(rs[i]) == Some(t)
    ensures forall t, r :: r in ResourcesOf(rs, t) <==> r in rs && MainTopic(r) == Some(t)
    ensures forall t, r :: MainTopic(r) == Some(t) ==> multiset(ResourcesOf(rs, t))[r] == multiset(rs)[r]
    ensures forall t :: t in TopicOrder(rs) ==> |ResourcesOf(rs, t)| > 0
  {
    DedupNoDuplicates(MainTopics(rs));
    DedupMembers(MainTopics(rs));
    MainTopicsMembers(rs);
    forall t
      ensures forall r :: r in ResourcesOf(rs, t) <==> r in rs && MainTopic(r) == Some(t)
    {
      FilterMembers(rs, HasTopic(t));
    }
    forall t, r | MainTopic(r) == Some(t)
      ensures multiset(ResourcesOf(rs, t))[r] == multiset(rs)[r]
    {
      FilterMultiplicity(rs, HasTopic(t), r);
    }
    forall t | t in TopicOrder(rs)
      ensures |ResourcesOf(rs, t)| > 0
    {
      var i :| 0 <= i < |rs| && MainTopic(rs[i]) == Some(t);
      assert rs[i] in ResourcesOf(rs, t);
    }
  }

  /** Topics are listed in order of first appearance among the resources'
      main topics, and reading further resources only appends topics. */
  lemma TopicsInFirstAppearanceOrder(rs: seq<Resource>, k: nat)
    requires k <= |rs|
    ensures forall t :: t in TopicOrder(rs) ==> t in MainTopics(rs)
    ensures forall i, j :: 0 <= i < j < |TopicOrder(rs)| ==>
              FirstIndex(MainTopics(rs), TopicOrder(rs)[i]) < FirstIndex(MainTopics(rs), TopicOrder(rs)[j])
    ensures TopicOrder(rs[..k]) <= TopicOrder(rs)
  {
    DedupFirstOccurrenceOrder(MainTopics(rs));
    MainTopicsPrefix(rs, k);
    var m := |MainTopics(rs[..k])|;
    assert MainTopics(rs)[..m] == MainTopics(rs[..k]);
    DedupPrefix(MainTopics(rs), m);
  }

  /** Reading one more resource adds its topic at the end, if it is new. */
  lemma TopicOrderAppend(rs: seq<Resource>, r: Resource)
    ensures TopicOrder(rs + [r]) ==
              match MainTopic(r)
              case None => TopicOrder(rs)
              case Some(t) => if t in TopicOrder(rs) then TopicOrder(rs) else TopicOrder(rs) + [t]
  {
    assert (rs + [r])[..|rs|] == rs;
    var m := MainTopics(rs);
    match MainTopic(r)
    case None =>
      assert MainTopics(rs + [r]) == m;
    case Some(t) =>
      assert MainTopics(rs + [r]) == m + [t];
      assert (m + [t])[..|m|] == m;
  }

  lemma {:induction false} MainTopicsPrefix(rs: seq<Resource>, k: nat)
    requires k <= |rs|
    ensures MainTopics(rs[..k]) <= MainTopics(rs)
  {
    if k < |rs| {
      MainTopicsPrefix(rs[..|rs| - 1], k);
      assert rs[..|rs| - 1][..k] == rs[..k];
    } else {
      assert rs[..k] == rs;
    }
  }

  // ---------------------------------------------------------------------
  // Node construction: the `.map` over the topics' entries

  /** `topic.charAt(0).toUpperCase() + topic.slice(1)`. */
  function Capitalize(s: string): (r: string)
    ensures |r| == |s|
    ensures s != [] ==> r[0] == UpperChar(s[0]) && r[1..] == s[1..]
  {
    if s == [] then [] else [UpperChar(s[0])] + s[1..]
  }

  predicate AllCompleted(group: seq<Resource>) {
    forall i :: 0 <= i < |group| ==> group[i].isCompleted
  }

  /** The sum of the resources' difficulty scores (the `reduce` over the difficulties in `groupResourcesByTopic`). */
  function DifficultyScore(group: seq<Resource>): (total: nat)
    ensures total <= 2 * |group|
  {
    if group == [] then 0
    else DifficultyRank(ResourceDifficulty(group[0])) + DifficultyScore(group[1..])
  }

  /** The average score compared with 1.5 and 0.5, in integers: with
      n resources and score sum s, s / n > 1.5 iff 2s > 3n, and s / n > 0.5
      iff 2s > n. An empty group gives 0 / 0, which is NaN in JavaScript and
      fails both comparisons; 2 * 0 > 0 fails as well, so it is beginner. */
  function NodeDifficulty(group: seq<Resource>): Difficulty {
    var total, n := DifficultyScore(group), |group|;
    if 2 * total > 3 * n then Advanced
    else if 2 * total > n then Intermediate
    else Beginner
  }

  /** The integer thresholds agree with the source's average. */
  lemma NodeDifficultyByAverage(group: seq<Resource>)
    requires |group| > 0
    ensures var average := DifficultyScore(group) as real / |group| as real;
      && (NodeDifficulty(group) == Advanced <==> average > 1.5)
      && (NodeDifficulty(group) == Intermediate <==> 0.5 < average <= 1.5)
      && (NodeDifficulty(group) == Beginner <==> average <= 0.5)
  {
    AverageThresholds(DifficultyScore(group), |group|);
  }

  lemma AverageThresholds(total: nat, n: nat)
    requires n > 0
    ensures total as real / n as real > 1.5 <==> 2 * total > 3 * n
    ensures total as real / n as real > 0.5 <==> 2 * total > n
  {
    AboveThreshold(total as real, n as real, 1.5);
    AboveThreshold(total as real, n as real, 0.5);
  }

  lemma AboveThreshold(s: real, n: real, c: real)
    requires n > 0.0
    ensures s / n > c <==> s > c * n
  {
    var a := s / n;
    assert a * n == s;
    if a > c {
      assert (a - c) * n > 0.0;
    } else {
      assert (c - a) * n >= 0.0;
    }
  }

  /** A group whose resources all share one difficulty is a node of that
      difficulty. */
  lemma {:induction false} UniformGroupDifficulty(group: seq<Resource>, d: Difficulty)
    requires |group| > 0
    requires forall i :: 0 <= i < |group| ==> ResourceDifficulty(group[i]) == d
    ensures NodeDifficulty(group) == d
  {
    UniformScore(group, d);
  }

  lemma {:induction false} UniformScore(group: seq<Resource>, d: Difficulty)
    requires forall i :: 0 <= i < |group| ==> ResourceDifficulty(group[i]) == d
    ensures DifficultyScore(group) == DifficultyRank(d) * |group|
  {
    if group != [] {
      UniformScore(group[1..], d);
    }
  }

  function MakeNode(topic: string, group: seq<Resource>): RoadmapNode {
    RoadmapNode(
      Capitalize(topic),
      "Resources related to " + topic,
      group,
      AllCompleted(group),
      NodeDifficulty(group),
      [topic])
  }

  /** The nodes before sorting, in the map's insertion order. */
  function TopicNodes(rs: seq<Resource>): seq<RoadmapNode> {
    var order := TopicOrder(rs);
    seq(|order|, k requires 0 <= k < |order| => MakeNode(order[k], ResourcesOf(rs, order[k])))
  }

  // ---------------------------------------------------------------------
  // Ordering: the `.sort` of the nodes in `groupResourcesByTopic`

  /** The comparator as written. */
  function CompareNodes(a: RoadmapNode, b: RoadmapNode): int {
    if a.isCompleted != b.isCompleted then (if a.isCompleted then 1 else -1)
    else DifficultyRank(a.difficulty) - DifficultyRank(b.difficulty)
  }

  /** A key whose difference has the comparator's sign. */
  function NodeKey(n: RoadmapNode): int {
    (if n.isCompleted then 3 else 0) + DifficultyRank(n.difficulty)
  }

  /** Sorting by the comparator is sorting by `NodeKey`: the comparator
      agrees in sign with the key difference. */
  lemma CompareNodesIsKeyOrder(a: RoadmapNode, b: RoadmapNode)
    ensures CompareNodes(a, b) < 0 <==> NodeKey(a) < NodeKey(b)
    ensures CompareNodes(a, b) == 0 <==> NodeKey(a) == NodeKey(b)
    ensures CompareNodes(a, b) > 0 <==> NodeKey(a) > NodeKey(b)
  {
  }

  /** `groupResourcesByTopic(resources)`. */
  function Roadmap(rs: seq<Resource>): seq<RoadmapNode> {
    SortBy(TopicNodes(rs), NodeKey)
  }

  /** `topics` holds, for each topic of `order`, the group of that topic
      within `rs`, and `order` lists the topics of `rs` as first seen. */
  ghost predicate GroupsOf(rs: seq<Resource>, order: seq<string>, topics: map<string, seq<Resource>>) {
    order == TopicOrder(rs) && GroupedAs(rs, order, topics)
  }

  /** `topics` has a key for each topic of `order`, holding its group in `rs`. */
  ghost predicate GroupedAs(rs: seq<Resource>, order: seq<string>, topics: map<string, seq<Resource>>) {
    && (forall t :: t in topics <==> t in order)
    && (forall t :: t in topics ==> topics[t] == ResourcesOf(rs, t))
  }

  /** A topic that has not been seen has an empty group. */
  lemma UnseenTopicHasNoGroup(rs: seq<Resource>, t: string)
    requires t !in TopicOrder(rs)
    ensures ResourcesOf(rs, t) == []
  {
    DedupMembers(MainTopics(rs));
    MainTopicsMembers(rs);
    assert forall i :: 0 <= i < |rs| ==> !HasTopic(t)(rs[i]);
    FilterNone(rs, HasTopic(t));
  }

  /** One step of the `forEach` on a resource without a topic: nothing changes. */
  lemma GroupsSkip(rs: seq<Resource>, order: seq<string>, topics: map<string, seq<Resource>>, r: Resource)
    requires GroupsOf(rs, order, topics) && MainTopic(r) == None
    ensures GroupsOf(rs + [r], order, topics)
  {
    TopicOrderAppend(rs, r);
    forall t
      ensures ResourcesOf(rs + [r], t) == ResourcesOf(rs, t)
    {
      ResourcesOfAppend(rs, r, t);
    }
  }

  /** One step of the `forEach` on a resource of a topic already seen:
      its group grows by the resource, the key order stays. */
  lemma GroupsAddSeen(rs: seq<Resource>, order: seq<string>, topics: map<string, seq<Resource>>, r: Resource, t: string)
    requires GroupsOf(rs, order, topics) && MainTopic(r) == Some(t) && t in topics
    ensures GroupsOf(rs + [r], order, topics[t := topics[t] + [r]])
  {
    TopicOrderAppend(rs, r);
    assert t in TopicOrder(rs);
    GroupedAddSeen(rs, order, topics, r, t);
  }

  /** One step of the `forEach` on a resource of a new topic: the topic gets
      a group of its own, added last in key order. */
  lemma GroupsAddNew(rs: seq<Resource>, order: seq<string>, topics: map<string, seq<Resource>>, r: Resource, t: string)
    requires GroupsOf(rs, order, topics) && MainTopic(r) == Some(t) && t !in topics
    ensures GroupsOf(rs + [r], order + [t], topics[t := [r]])
  {
    TopicOrderAppend(rs, r);
    assert t !in TopicOrder(rs);
    UnseenTopicHasNoGroup(rs, t);
    GroupedAddNew(rs, order, topics, r, t);
  }

  /** The groups of the topics other than `t` do not change. */
  lemma GroupsOthers(rs: seq<Resource>, topics: map<string, seq<Resource>>, r: Resource, t: string)
    requires forall u :: u in topics ==> topics[u] == ResourcesOf(rs, u)
    requires MainTopic(r) == Some(t)
    ensures forall u :: u in topics && u != t ==> topics[u] == ResourcesOf(rs + [r], u)
  {
    forall u | u in topics && u != t
      ensures topics[u] == ResourcesOf(rs + [r], u)
    {
      ResourcesOfAppend(rs, r, u);
    }
  }

  lemma GroupedAddSeen(rs: seq<Resource>, order: seq<string>, topics: map<string, seq<Resource>>, r: Resource, t: string)
    requires GroupedAs(rs, order, topics) && MainTopic(r) == Some(t) && t in topics
    ensures GroupedAs(rs + [r], order, topics[t := topics[t] + [r]])
  {
    var topics' := topics[t := topics[t] + [r]];
    ResourcesOfAppend(rs, r, t);
    GroupsOthers(rs, topics, r, t);
    forall u | u in topics'
      ensures topics'[u] == ResourcesOf(rs + [r], u)
    {
      if u != t {
        assert topics'[u] == topics[u];
      }
    }
  }

  lemma GroupedAddNew(rs: seq<Resource>, order: seq<string>, topics: map<string, seq<Resource>>, r: Resource, t: string)
    requires GroupedAs(rs, order, topics) && MainTopic(r) == Some(t) && t !in topics
    requires ResourcesOf(rs, t) == []
    ensures GroupedAs(rs + [r], order + [t], topics[t := [r]])
  {
    var topics' := topics[t := [r]];
    ResourcesOfAppend(rs, r, t);
    GroupsOthers(rs, topics, r, t);
    forall u | u in topics'
      ensures topics'[u] == ResourcesOf(rs + [r], u)
    {
      if u != t {
        assert topics'[u] == topics[u];
      }
    }
  }

  /** The `forEach` over the resources in `groupResourcesByTopic`: fills the `topics` map, whose key
      insertion order is returned as `order`. */
  method CollectTopics(resources: seq<Resource>) returns (order: seq<string>, topics: map<string, seq<Resource>>)
    ensures GroupsOf(resources, order, topics)
  {
    topics := map[];
    order := [];
    for i := 0 to |resources|
      invariant GroupsOf(resources[..i], order, topics)
    {
      var resource := resources[i];
      assert resources[..i + 1] == resources[..i] + [resource];
      match MainTopic(resource) {
        case None =>
          GroupsSkip(resources[..i], order, topics, resource);
        case Some(mainCategory) =>
          var existing := if mainCategory in topics then topics[mainCategory] else [];
          if mainCategory in topics {
            GroupsAddSeen(resources[..i], order, topics, resource, mainCategory);
          } else {
            GroupsAddNew(resources[..i], order, topics, resource, mainCategory);
            order := order + [mainCategory];
          }
          topics := topics[mainCategory := existing + [resource]];
      }
    }
    assert resources[..|resources|] == resources;
  }

  /** `groupResourcesByTopic(resources)`: collect the topics, make one node
      per topic, sort the nodes. */
  method GroupResourcesByTopic(resources: seq<Resource>) returns (roadmap: seq<RoadmapNode>)
    ensures roadmap == Roadmap(resources)
  {
    var order, topics := CollectTopics(resources);
    var nodes := seq(|order|, k requires 0 <= k < |order| => MakeNode(order[k], topics[order[k]]));
    assert nodes == TopicNodes(resources);
    roadmap := SortBy(nodes, NodeKey);
  }

  // ---------------------------------------------------------------------
  // What the roadmap is

  /** The topic a node was made for: its single category. */
  function NodeTopic(n: RoadmapNode): string {
    if |n.categories| > 0 then n.categories[0] else ""
  }

  /** Where a node's topic first appeared, as a position in `order`. */
  function Appearance(order: seq<string>, n: RoadmapNode): int {
    if NodeTopic(n) in order then FirstIndex(order, NodeTopic(n)) else -1
  }

  lemma TopicNodesFacts(rs: seq<Resource>)
    ensures |TopicNodes(rs)| == |TopicOrder(rs)|
    ensures forall k :: 0 <= k < |TopicNodes(rs)| ==>
              TopicNodes(rs)[k] == MakeNode(TopicOrder(rs)[k], ResourcesOf(rs, TopicOrder(rs)[k]))
    ensures forall k :: 0 <= k < |TopicNodes(rs)| ==> Appearance(TopicOrder(rs), TopicNodes(rs)[k]) == k
    ensures NoDuplicates(TopicNodes(rs))
  {
    var order, nodes := TopicOrder(rs), TopicNodes(rs);
    GroupingPartitions(rs);
    forall k | 0 <= k < |nodes|
      ensures Appearance(order, nodes[k]) == k
    {
      assert NodeTopic(nodes[k]) == order[k];
      FirstIndexUnique(order, order[k], k);
    }
  }

  /** Every node of the roadmap is the node of one topic: it holds that
      topic's whole group (never empty), its title is the capitalised topic,
      its description names the topic, its only category is the topic, it is
      completed exactly when all its resources are, and its difficulty is
      graded from its resources. */
  lemma RoadmapNodes(rs: seq<Resource>)
    ensures forall i :: 0 <= i < |Roadmap(rs)| ==>
      var n, t := Roadmap(rs)[i], NodeTopic(Roadmap(rs)[i]);
      && t in TopicOrder(rs)
      && n.categories == [t]
      && n.resources == ResourcesOf(rs, t)
      && |n.resources| > 0
      && n.title == Capitalize(t)
      && n.description == "Resources related to " + t
      && (n.isCompleted <==> forall k :: 0 <= k < |n.resources| ==> n.resources[k].isCompleted)
      && n.difficulty == NodeDifficulty(n.resources)
  {
    var nodes, roadmap := TopicNodes(rs), Roadmap(rs);
    TopicNodesFacts(rs);
    GroupingPartitions(rs);
    SortByMembers(nodes, NodeKey);
    forall i | 0 <= i < |roadmap|
      ensures NodeTopic(roadmap[i]) in TopicOrder(rs)
      ensures roadmap[i] == MakeNode(NodeTopic(roadmap[i]), ResourcesOf(rs, NodeTopic(roadmap[i])))
    {
      assert roadmap[i] in nodes;
    }
  }

  /** Each roadmap node is one of the unsorted nodes. */
  lemma RoadmapNodeOrigin(rs: seq<Resource>, i: nat) returns (k: nat)
    requires i < |Roadmap(rs)|
    ensures k < |TopicOrder(rs)| && Roadmap(rs)[i] == TopicNodes(rs)[k]
    ensures NodeTopic(Roadmap(rs)[i]) == TopicOrder(rs)[k]
  {
    var nodes := TopicNodes(rs);
    SortByMembers(nodes, NodeKey);
    assert Roadmap(rs)[i] in nodes;
    k :| 0 <= k < |nodes| && nodes[k] == Roadmap(rs)[i];
  }

  /** No topic is repeated or lost: the roadmap has one node for each main
      topic of the resources. */
  lemma RoadmapTopics(rs: seq<Resource>)
    ensures |Roadmap(rs)| == |TopicOrder(rs)|
    ensures forall i, j :: 0 <= i < j < |Roadmap(rs)| ==> NodeTopic(Roadmap(rs)[i]) != NodeTopic(Roadmap(rs)[j])
    ensures forall t :: t in TopicOrder(rs) <==> exists i :: 0 <= i < |Roadmap(rs)| && NodeTopic(Roadmap(rs)[i]) == t
  {
    TopicNodesFacts(rs);
    SortByMembers(TopicNodes(rs), NodeKey);
    RoadmapTopicsDistinct(rs);
    RoadmapTopicsCovered(rs);
  }

  lemma RoadmapTopicsDistinct(rs: seq<Resource>)
    ensures forall i, j :: 0 <= i < j < |Roadmap(rs)| ==> NodeTopic(Roadmap(rs)[i]) != NodeTopic(Roadmap(rs)[j])
  {
    var roadmap := Roadmap(rs);
    TopicNodesFacts(rs);
    DedupNoDuplicates(MainTopics(rs));
    PermutationNoDuplicates(TopicNodes(rs), roadmap);
    forall i, j | 0 <= i < j < |roadmap|
      ensures NodeTopic(roadmap[i]) != NodeTopic(roadmap[j])
    {
      var ki := RoadmapNodeOrigin(rs, i);
      var kj := RoadmapNodeOrigin(rs, j);
      assert roadmap[i] != roadmap[j];
    }
  }

  lemma RoadmapTopicsCovered(rs: seq<Resource>)
    ensures forall t :: t in TopicOrder(rs) <==> exists i :: 0 <= i < |Roadmap(rs)| && NodeTopic(Roadmap(rs)[i]) == t
  {
    forall i | 0 <= i < |Roadmap(rs)|
      ensures NodeTopic(Roadmap(rs)[i]) in TopicOrder(rs)
    {
      var k := RoadmapNodeOrigin(rs, i);
    }
    forall t | t in TopicOrder(rs)
      ensures exists i :: 0 <= i < |Roadmap(rs)| && NodeTopic(Roadmap(rs)[i]) == t
    {
      var i := TopicNode(rs, t);
    }
  }

  /** Each topic has a node in the roadmap. */
  lemma TopicNode(rs: seq<Resource>, t: string) returns (i: nat)
    requires t in TopicOrder(rs)
    ensures i < |Roadmap(rs)| && NodeTopic(Roadmap(rs)[i]) == t
  {
    var order, nodes, roadmap := TopicOrder(rs), TopicNodes(rs), Roadmap(rs);
    var k :| 0 <= k < |order| && order[k] == t;
    assert NodeTopic(nodes[k]) == t;
    SortByMembers(nodes, NodeKey);
    assert nodes[k] in roadmap;
    i :| 0 <= i < |roadmap| && roadmap[i] == nodes[k];
  }

  /** Unfinished nodes come first; among nodes of equal completion, easier
      nodes come first; among nodes of equal completion and difficulty, the
      topic that appeared first comes first. */
  lemma RoadmapOrder(rs: seq<Resource>)
    ensures var roadmap, order := Roadmap(rs), TopicOrder(rs);
      forall i, j :: 0 <= i < j < |roadmap| ==>
        && (roadmap[i].isCompleted ==> roadmap[j].isCompleted)
        && (roadmap[i].isCompleted == roadmap[j].isCompleted ==>
              DifficultyRank(roadmap[i].difficulty) <= DifficultyRank(roadmap[j].difficulty))
        && (roadmap[i].isCompleted == roadmap[j].isCompleted && roadmap[i].difficulty == roadmap[j].difficulty ==>
              Appearance(order, roadmap[i]) < Appearance(order, roadmap[j]))
  {
    var order, nodes := TopicOrder(rs), TopicNodes(rs);
    var tie := n => Appearance(order, n);
    TopicNodesFacts(rs);
    SortByKeepsTieOrder(nodes, NodeKey, tie);
  }

  // ---------------------------------------------------------------------
  // Gating: `isNodeLocked`

  /** A node lets later nodes through when it has no resources or at least
      one completed resource. */
  predicate LetsThrough(n: RoadmapNode) {
    |n.resources| == 0 || exists k :: 0 <= k < |n.resources| && n.resources[k].isCompleted
  }

  /** `isNodeLocked(index)`: the first node is open; any other is locked
      unless every node before it (`roadmap.slice(0, index)`) lets it
      through. */
  predicate IsNodeLocked(roadmap: seq<RoadmapNode>, index: nat) {
    if index == 0 then false
    else !(forall j :: 0 <= j < index && j < |roadmap| ==> LetsThrough(roadmap[j]))
  }

  /** The number of completed resources in a group. */
  function CompletedCount(group: seq<Resource>): (n: nat)
    ensures n <= |group|
    ensures n == 0 <==> forall k :: 0 <= k < |group| ==> !group[k].isCompleted
  {
    if group == [] then 0
    else (if group[0].isCompleted then 1 else 0) + CompletedCount(group[1..])
  }

  /** Locking spreads forward: once a node is locked, so is every later one. */
  lemma LockingIsMonotone(roadmap: seq<RoadmapNode>, i: nat, j: nat)
    requires i <= j && IsNodeLocked(roadmap, i)
    ensures IsNodeLocked(roadmap, j)
  {
  }

  /** In a built roadmap, node 0 is open and node i > 0 is locked exactly
      when some earlier node has no completed resource. */
  lemma RoadmapLocking(rs: seq<Resource>, i: nat)
    requires i <= |Roadmap(rs)|
    ensures !IsNodeLocked(Roadmap(rs), 0)
    ensures i > 0 ==>
      (IsNodeLocked(Roadmap(rs), i) <==>
         exists j :: 0 <= j < i && CompletedCount(Roadmap(rs)[j].resources) == 0)
  {
    RoadmapNodes(rs);
  }

  /** Since unfinished nodes come first, nothing is locked in a roadmap whose
      first node is completed. */
  lemma CompletedFirstNodeUnlocksAll(rs: seq<Resource>, i: nat)
    requires |Roadmap(rs)| > 0 && Roadmap(rs)[0].isCompleted
    ensures !IsNodeLocked(Roadmap(rs), i)
  {
    var roadmap := Roadmap(rs);
    RoadmapNodes(rs);
    RoadmapOrder(rs);
    forall j | 0 <= j < |roadmap|
      ensures LetsThrough(roadmap[j])
    {
      assert roadmap[j].isCompleted;
      assert roadmap[j].resources[0].isCompleted;
    }
  }
}
