/** The data behind the topic graph (`components/topic-graph.tsx`): each
    topic's ancestry path, the sort fraction of each topic within its
    level, and the node and edge elements handed to the graph library.
    Rendering is not part of this model. The locale-dependent string
    comparison is a parameter `rank`: paths are ordered by their rank,
    equal ranks comparing equal. */
module TopicGraph {
  import opened Text

  /** A topic as the graph receives it. */
  datatype TopicNode = TopicNode(
    id: string, name: string, level: int, parentTopicId: Option<string>, worksCount: Option<int>)

  /** `new Map(topics.map(t => [t.id, t]))`: each id to its last topic. */
  function TopicMap(topics: seq<TopicNode>): (m: map<string, TopicNode>)
    ensures forall id :: id in m <==> exists t :: t in topics && t.id == id
    ensures forall id :: id in m ==> m[id] in topics && m[id].id == id
  {
    if topics == [] then map[]
    else
      var last := topics[|topics| - 1];
      var m := TopicMap(topics[..|topics| - 1]);
      assert topics == topics[..|topics| - 1] + [last];
      m[last.id := last]
  }

  // ---------------------------------------------------------------------
  // buildAncestryPath
  // ---------------------------------------------------------------------

  /** The next topic up: the parent, when the topic names one (a
      non-empty id) and the map holds it. */
  function Parent(t: TopicNode, m: map<string, TopicNode>): (r: Option<TopicNode>)
    ensures r.Some? ==> t.parentTopicId.Some? && t.parentTopicId.value in m && r.value == m[t.parentTopicId.value]
  {
    if t.parentTopicId.Some? && t.parentTopicId.value != "" && t.parentTopicId.value in m
    then Some(m[t.parentTopicId.value]) else None
  }

  /** Following parents from `t` reaches a topic without one within `n`
      steps. */
  predicate EndsWithin(t: TopicNode, m: map<string, TopicNode>, n: nat)
    decreases n
  {
    Parent(t, m).None? || (n > 0 && EndsWithin(Parent(t, m).value, m, n - 1))
  }

  /** The names on the way up, outermost first, `t`'s own name last. */
  function PathNames(t: TopicNode, m: map<string, TopicNode>, n: nat): (r: seq<string>)
    requires EndsWithin(t, m, n)
    decreases n
  {
    match Parent(t, m)
    case None => [t.name]
    case Some(p) => PathNames(p, m, n - 1) + [t.name]
  }

  /** The path joined by `/`. */
  function AncestryPath(t: TopicNode, m: map<string, TopicNode>, n: nat): string
    requires EndsWithin(t, m, n)
  {
    Join(PathNames(t, m, n), "/")
  }

  /** The path does not depend on the bound, and more steps than needed
      do no harm. */
  lemma {:induction false} PathNamesBound(t: TopicNode, m: map<string, TopicNode>, n: nat, k: nat)
    requires EndsWithin(t, m, n) && n <= k
    ensures EndsWithin(t, m, k) && PathNames(t, m, k) == PathNames(t, m, n)
    decreases n
  {
    if Parent(t, m).Some? {
      PathNamesBound(Parent(t, m).value, m, n - 1, k - 1);
    }
  }

  /** The path starts at a topic without a parent in the map and ends
      with the topic's own name; when no name on the way contains `/`,
      splitting the path on `/` gives the names back. */
  lemma {:induction false} PathShape(t: TopicNode, m: map<string, TopicNode>, n: nat)
    requires EndsWithin(t, m, n)
    ensures var names := PathNames(t, m, n);
            && names != [] && names[|names| - 1] == t.name
            && (exists r :: Parent(r, m).None? && names[0] == r.name)
            && ((forall i :: 0 <= i < |names| ==> '/' !in names[i]) ==>
                  SplitChar(AncestryPath(t, m, n), '/') == names)
    decreases n
  {
    var names := PathNames(t, m, n);
    if Parent(t, m).Some? {
      var p := Parent(t, m).value;
      PathShape(p, m, n - 1);
      assert names == PathNames(p, m, n - 1) + [t.name];
      assert names[0] == PathNames(p, m, n - 1)[0];
    } else {
      assert Parent(t, m).None? && names[0] == t.name;
    }
    if forall i :: 0 <= i < |names| ==> '/' !in names[i] {
      JoinSplit(names, '/');
    }
  }

  /** A topic that is its own parent never reaches the top: the loop of
      the source would not end, so no bound admits it. */
  lemma {:induction false} SelfParentEndless(t: TopicNode, m: map<string, TopicNode>, n: nat)
    requires t.parentTopicId == Some(t.id) && t.id != "" && t.id in m && m[t.id] == t
    ensures !EndsWithin(t, m, n)
  {
    if n > 0 {
      SelfParentEndless(t, m, n - 1);
    }
  }

  /** `buildAncestryPath`: climbs from the topic through the map, putting
      each name in front, until a topic has no parent in the map. */
  method BuildAncestryPath(topic: TopicNode, m: map<string, TopicNode>, ghost n: nat) returns (path: string)
    requires EndsWithin(topic, m, n)
    ensures path == AncestryPath(topic, m, n)
  {
    var parts: seq<string> := [];
    var current: Option<TopicNode> := Some(topic);
    ghost var k := n;
    while current.Some?
      invariant current.Some? ==> EndsWithin(current.value, m, k)
      invariant PathNames(topic, m, n) == (if current.Some? then PathNames(current.value, m, k) else []) + parts
      decreases if current.Some? then k + 1 else 0
    {
      var next := Parent(current.value, m);
      parts := [current.value.name] + parts;
      if next.Some? {
        k := k - 1;
      }
      current := next;
    }
    assert [] + parts == parts;
    path := Join(parts, "/");
  }

  // ---------------------------------------------------------------------
  // buildElements
  // ---------------------------------------------------------------------

  /** Every topic's chain ends within `depth` steps, so every path is
      defined. */
  predicate AllEnd(topics: seq<TopicNode>, depth: nat) {
    forall t :: t in topics ==> EndsWithin(t, TopicMap(topics), depth)
  }

  /** The topics of one level, in input order. */
  function OfLevel(topics: seq<TopicNode>, level: int): seq<TopicNode> {
    Filter(topics, (t: TopicNode) => t.level == level)
  }

  /** Each level that occurs, with its topics in input order. */
  function OfLevels(topics: seq<TopicNode>): map<int, seq<TopicNode>> {
    map l | l in (set t | t in topics :: t.level) :: OfLevel(topics, l)
  }

  /** The grouping loop: the levels in order of first appearance, and for
      each the topics at that level in input order. */
  method GroupByLevel(topics: seq<TopicNode>) returns (byLevel: map<int, seq<TopicNode>>, levels: seq<int>)
    ensures forall l :: l in byLevel <==> l in levels
    ensures forall l :: l in byLevel <==> exists t :: t in topics && t.level == l
    ensures forall l :: l in byLevel ==> byLevel[l] == OfLevel(topics, l)
    ensures forall i, j :: 0 <= i < j < |levels| ==> levels[i] != levels[j]
  {
    byLevel, levels := map[], [];
    for n := 0 to |topics|
      invariant forall l :: l in byLevel <==> l in levels
      invariant forall l :: l in byLevel <==> exists t :: t in topics[..n] && t.level == l
      invariant forall l :: l in byLevel ==> byLevel[l] == OfLevel(topics[..n], l)
      invariant forall i, j :: 0 <= i < j < |levels| ==> levels[i] != levels[j]
    {
      var t := topics[n];
      assert topics[..n + 1] == topics[..n] + [t];
      forall l
        ensures OfLevel(topics[..n + 1], l) == OfLevel(topics[..n], l) + (if t.level == l then [t] else [])
      {
        FilterSnoc(topics[..n], t, (u: TopicNode) => u.level == l);
      }
      if t.level in byLevel {
        byLevel := byLevel[t.level := byLevel[t.level] + [t]];
      } else {
        assert OfLevel(topics[..n], t.level) == [] by {
          FilterHead(topics[..n], (u: TopicNode) => u.level == t.level);
        }
        byLevel := byLevel[t.level := [t]];
        levels := levels + [t.level];
      }
    }
    assert topics[..|topics|] == topics;
  }

  /** The grouping loop's map is the map of levels to their topics. */
  lemma GroupsAreOfLevels(topics: seq<TopicNode>, byLevel: map<int, seq<TopicNode>>)
    requires forall l :: l in byLevel <==> exists t :: t in topics && t.level == l
    requires forall l :: l in byLevel ==> byLevel[l] == OfLevel(topics, l)
    ensures byLevel == OfLevels(topics)
  {
    var o := OfLevels(topics);
    forall l
      ensures l in byLevel <==> l in o
    {
      if l in o {
        var t :| t in topics && t.level == l;
      }
    }
  }

  /** The sort key of a topic: the rank of its path. */
  function PathRank(rank: string -> int, m: map<string, TopicNode>, depth: nat): TopicNode -> int {
    (t: TopicNode) => rank(if EndsWithin(t, m, depth) then AncestryPath(t, m, depth) else "")
  }

  /** Position `i` of a group of `n` as a fraction: `i / max(n, 1)`. */
  function Fraction(i: nat, n: nat): real {
    (i as real) / (if n > 1 then n else 1) as real
  }

  /** A position inside the group gives a fraction in [0, 1). */
  lemma FractionRange(i: nat, n: nat)
    requires i < n
    ensures 0.0 <= Fraction(i, n) < 1.0
  {
    var d := (if n > 1 then n else 1) as real;
    assert (i as real) < d;
    assert (i as real) / d < 1.0 by {
      assert (i as real) / d * d == i as real;
    }
  }

  /** Some group puts the topic with this id at position `i`: the
      fraction is `i / max(n, 1)` for that group. */
  ghost predicate PlacedIn(f: real, id: string, byLevel: map<int, seq<TopicNode>>, key: TopicNode -> int) {
    exists l, i :: (l in byLevel && 0 <= i < |SortBy(byLevel[l], key)| && SortBy(byLevel[l], key)[i].id == id
                    && f == Fraction(i, |SortBy(byLevel[l], key)|))
  }

  /** Every fraction is in [0, 1) and is a position in some level's
      sorted group. */
  ghost predicate FractionsOk(fractions: map<string, real>, byLevel: map<int, seq<TopicNode>>, key: TopicNode -> int) {
    forall id :: id in fractions ==> 0.0 <= fractions[id] < 1.0 && PlacedIn(fractions[id], id, byLevel, key)
  }

  /** Recording the position of the `i`-th topic of a sorted group keeps
      the fractions well placed. */
  lemma FractionsOkSet(fractions: map<string, real>, byLevel: map<int, seq<TopicNode>>, key: TopicNode -> int,
                       l: int, i: nat)
    requires FractionsOk(fractions, byLevel, key)
    requires l in byLevel && i < |SortBy(byLevel[l], key)|
    ensures var g := SortBy(byLevel[l], key);
            FractionsOk(fractions[g[i].id := Fraction(i, |g|)], byLevel, key)
  {
    var g := SortBy(byLevel[l], key);
    FractionRange(i, |g|);
    assert PlacedIn(Fraction(i, |g|), g[i].id, byLevel, key);
  }

  /** Gives each topic of one level its position in the sorted group,
      keeping the fractions already given to other ids. */
  method PlaceGroup(fractions: map<string, real>, byLevel: map<int, seq<TopicNode>>, key: TopicNode -> int, l: int)
    returns (placed: map<string, real>)
    requires l in byLevel && FractionsOk(fractions, byLevel, key)
    ensures FractionsOk(placed, byLevel, key)
    ensures forall id :: id in fractions ==> id in placed
    ensures forall t :: t in byLevel[l] ==> t.id in placed
  {
    var group := SortBy(byLevel[l], key);
    placed := fractions;
    for i := 0 to |group|
      invariant FractionsOk(placed, byLevel, key)
      invariant forall id :: id in fractions ==> id in placed
      invariant forall j :: 0 <= j < i ==> group[j].id in placed
    {
      FractionsOkSet(placed, byLevel, key, l, i);
      placed := placed[group[i].id := Fraction(i, |group|)];
    }
    SortByPermutes(byLevel[l], key);
    forall t | t in byLevel[l]
      ensures t.id in placed
    {
      assert t in multiset(group);
    }
  }

  /** The fraction loop: each level's group sorted by path rank, each
      topic given its position as a fraction; every fraction is in
      [0, 1) and is a position in some level's sorted group. */
  method SortFractions(byLevel: map<int, seq<TopicNode>>, levels: seq<int>, key: TopicNode -> int)
    returns (fractions: map<string, real>)
    requires forall l :: l in levels ==> l in byLevel
    ensures FractionsOk(fractions, byLevel, key)
    ensures forall l, t :: l in levels && t in byLevel[l] ==> t.id in fractions
  {
    fractions := map[];
    for g := 0 to |levels|
      invariant FractionsOk(fractions, byLevel, key)
      invariant forall l, t :: l in levels[..g] && t in byLevel[l] ==> t.id in fractions
    {
      fractions := PlaceGroup(fractions, byLevel, key, levels[g]);
      assert levels[..g + 1] == levels[..g] + [levels[g]];
    }
    assert levels[..|levels|] == levels;
  }

  /** A node element; `caption` is the label shown. */
  datatype NodeData = NodeData(id: string, caption: string, level: int, worksCount: int, concentricValue: real)

  /** An edge element, from the parent to the child. */
  datatype EdgeData = EdgeData(id: string, source: string, target: string)

  /** The ring value: `3 - level + 1` plus the sort fraction (0 when the
      topic has none). */
  function Concentric(level: int, fraction: Option<real>): real {
    (3 - level + 1) as real + fraction.GetOr(0.0)
  }

  /** With fractions in [0, 1), a topic at a lower level always has a
      strictly larger ring value than one at a higher level. */
  lemma ConcentricOrder(l1: int, f1: Option<real>, l2: int, f2: Option<real>)
    requires l1 < l2
    requires f1.Some? ==> 0.0 <= f1.value < 1.0
    requires f2.Some? ==> 0.0 <= f2.value < 1.0
    ensures Concentric(l1, f1) > Concentric(l2, f2)
  {
  }

  /** The node of one topic. */
  function Node(t: TopicNode, fractions: map<string, real>): NodeData {
    NodeData(t.id, t.name, t.level, t.worksCount.GetOr(0),
             Concentric(t.level, if t.id in fractions then Some(fractions[t.id]) else None))
  }

  /** The nodes, one per topic, in order. */
  function Nodes(topics: seq<TopicNode>, fractions: map<string, real>): (nodes: seq<NodeData>)
    ensures |nodes| == |topics|
    ensures forall i :: 0 <= i < |topics| ==> nodes[i] == Node(topics[i], fractions)
  {
    seq(|topics|, i requires 0 <= i < |topics| => Node(topics[i], fractions))
  }

  /** With fractions in [0, 1), each node carries its topic's id, name,
      level and count (0 when unknown), its ring value lies in
      [4 - level, 5 - level), and a lower level always means a larger
      ring value. */
  lemma NodesFacts(topics: seq<TopicNode>, fractions: map<string, real>)
    requires forall id :: id in fractions ==> 0.0 <= fractions[id] < 1.0
    ensures var nodes := Nodes(topics, fractions);
            && (forall i :: 0 <= i < |topics| ==>
                  nodes[i].id == topics[i].id && nodes[i].caption == topics[i].name && nodes[i].level == topics[i].level
                  && nodes[i].worksCount == topics[i].worksCount.GetOr(0)
                  && ((3 - topics[i].level + 1) as real) <= nodes[i].concentricValue < ((3 - topics[i].level + 2) as real))
            && (forall i, j :: 0 <= i < |topics| && 0 <= j < |topics| && topics[i].level < topics[j].level ==>
                  nodes[i].concentricValue > nodes[j].concentricValue)
  {
    var nodes := Nodes(topics, fractions);
    forall i, j | 0 <= i < |topics| && 0 <= j < |topics| && topics[i].level < topics[j].level
      ensures nodes[i].concentricValue > nodes[j].concentricValue
    {
      ConcentricOrder(topics[i].level, if topics[i].id in fractions then Some(fractions[topics[i].id]) else None,
                      topics[j].level, if topics[j].id in fractions then Some(fractions[topics[j].id]) else None);
    }
  }

  /** Whether a topic gets an edge: it names a parent that is among the
      topics. */
  predicate HasEdge(t: TopicNode, ids: set<string>) {
    t.parentTopicId.Some? && t.parentTopicId.value != "" && t.parentTopicId.value in ids
  }

  /** The ids of the topics. */
  function TopicIds(topics: seq<TopicNode>): set<string> {
    set u | u in topics :: u.id
  }

  /** The edges, in topic order. */
  function Edges(topics: seq<TopicNode>): seq<EdgeData> {
    FilterMap(topics, (t: TopicNode) => EdgeOf(t, TopicIds(topics)))
  }

  function EdgeOf(t: TopicNode, ids: set<string>): Option<EdgeData> {
    if HasEdge(t, ids) then
      Some(EdgeData("e-" + t.parentTopicId.value + "-" + t.id, t.parentTopicId.value, t.id))
    else None
  }

  /** The elements of `buildElements`: one node per topic, in order, and
      the edges. `depth` bounds the parent chains, which must all end for
      the paths to exist. */
  method BuildElements(topics: seq<TopicNode>, rank: string -> int, depth: nat)
    returns (nodes: seq<NodeData>, edges: seq<EdgeData>)
    requires AllEnd(topics, depth)
    ensures exists fractions :: (FractionsOk(fractions, OfLevels(topics), PathRank(rank, TopicMap(topics), depth))
              && (forall t :: t in topics ==> t.id in fractions)
              && nodes == Nodes(topics, fractions))
    ensures edges == Edges(topics)
  {
    var m := TopicMap(topics);
    var byLevel, levels := GroupByLevel(topics);
    var fractions := SortFractions(byLevel, levels, PathRank(rank, m, depth));
    GroupsAreOfLevels(topics, byLevel);
    EveryTopicPlaced(topics, byLevel, levels, fractions);
    nodes := Nodes(topics, fractions);
    edges := Edges(topics);
  }

  /** Every topic is in the group of its level, so it gets a fraction. */
  lemma EveryTopicPlaced(topics: seq<TopicNode>, byLevel: map<int, seq<TopicNode>>, levels: seq<int>,
                         fractions: map<string, real>)
    requires forall l :: l in byLevel <==> l in levels
    requires forall l :: l in byLevel <==> exists t :: t in topics && t.level == l
    requires forall l :: l in byLevel ==> byLevel[l] == OfLevel(topics, l)
    requires forall l, t :: l in levels && t in byLevel[l] ==> t.id in fractions
    ensures forall t :: t in topics ==> t.id in fractions
  {
    forall t | t in topics
      ensures t.id in fractions
    {
      assert t.level in byLevel;
      FilterKeeps(topics, (u: TopicNode) => u.level == t.level);
      assert t in byLevel[t.level];
    }
  }

  /** One edge per topic whose parent is among the topics, in topic
      order, from that parent to the topic, with id `e-parent-child`;
      none for any other topic. */
  lemma EdgesExactly(topics: seq<TopicNode>)
    ensures var ids := TopicIds(topics);
            var edges := Edges(topics);
            && (forall t :: t in topics && HasEdge(t, ids) ==>
                  EdgeData("e-" + t.parentTopicId.value + "-" + t.id, t.parentTopicId.value, t.id) in edges)
            && (forall e :: e in edges ==>
                  exists t :: t in topics && HasEdge(t, ids) && e.source == t.parentTopicId.value && e.target == t.id
                    && e.id == "e-" + e.source + "-" + e.target)
            && |edges| <= |topics|
  {
    var ids := TopicIds(topics);
    var f := (t: TopicNode) => EdgeOf(t, ids);
    assert Edges(topics) == FilterMap(topics, f);
    FilterMapKeeps(topics, f);
    FilterMapFrom(topics, f);
    forall t | t in topics && HasEdge(t, ids)
      ensures f(t).value in FilterMap(topics, f)
    {
      var i :| 0 <= i < |topics| && topics[i] == t;
    }
  }
}
