/** `Measured::ConversionTableValidator` (and the builder's private copy of the
    same two methods): a depth-first walk over the units' declared targets that
    fails on the first edge leading back onto the current path. */
module TableValidator {
  import opened Common

  /** A unit as the walk sees it: its name and its declared target. */
  datatype Node = Node(name: string, target: Option<string>)

  /** Ruby's `[[:space:]]`: the Unicode White_Space characters. */
  predicate IsSpace(c: char) {
    c == ' ' || ('\t' <= c <= '\r') || c == '\U{0085}' || c == '\U{00A0}' || c == '\U{1680}'
    || ('\U{2000}' <= c <= '\U{200A}') || c == '\U{2028}' || c == '\U{2029}' || c == '\U{202F}'
    || c == '\U{205F}' || c == '\U{3000}'
  }

  /** `blank?` on a string. */
  predicate Blank(s: string) {
    forall i | 0 <= i < |s| :: IsSpace(s[i])
  }

  /** `present?` on an optional target name. */
  predicate Present(target: Option<string>) {
    target.Some? && !Blank(target.value)
  }

  /** Unit `i` contributes an edge of the graph. */
  predicate IsEdge(nodes: seq<Node>, i: int) {
    0 <= i < |nodes| && Present(nodes[i].target)
  }

  /** The graph `units.select(...).group_by(&:name)`: the names in order of
      first appearance, and for each name the indices of its units. */
  datatype Graph = Graph(keys: seq<string>, groups: map<string, seq<nat>>)

  function GroupByName(nodes: seq<Node>): (g: Graph)
    ensures forall n :: n in g.groups <==> n in g.keys
    ensures forall n | n in g.groups :: forall k {:trigger g.groups[n][k]} | 0 <= k < |g.groups[n]| ::
              IsEdge(nodes, g.groups[n][k]) && nodes[g.groups[n][k]].name == n
  {
    if nodes == [] then Graph([], map[])
    else
      var last := |nodes| - 1;
      var g := GroupByName(nodes[..last]);
      var u := nodes[last];
      if !Present(u.target) then g
      else if u.name in g.groups then Graph(g.keys, g.groups[u.name := g.groups[u.name] + [last]])
      else Graph(g.keys + [u.name], g.groups[u.name := [last]])
  }

  /** Each name is a key once. */
  lemma {:induction false} GroupKeysDistinct(nodes: seq<Node>)
    ensures Distinct(GroupByName(nodes).keys)
  {
    if nodes != [] {
      GroupKeysDistinct(nodes[..|nodes| - 1]);
    }
  }

  /** Every edge is in its name's group. */
  lemma {:induction false} GroupKeepsEdges(nodes: seq<Node>)
    ensures var g := GroupByName(nodes);
            forall i | IsEdge(nodes, i) :: nodes[i].name in g.groups && i in g.groups[nodes[i].name]
  {
    if nodes != [] {
      var last := |nodes| - 1;
      var prefix := nodes[..last];
      GroupKeepsEdges(prefix);
      assert forall i | 0 <= i < last :: IsEdge(prefix, i) == IsEdge(nodes, i);
    }
  }

  /** There are no keys exactly when no unit has an edge. */
  lemma {:induction false} GroupEmpty(nodes: seq<Node>)
    ensures GroupByName(nodes).keys == [] <==> forall i :: !IsEdge(nodes, i)
  {
    GroupKeepsEdges(nodes);
    if nodes != [] && forall i :: !IsEdge(nodes, i) {
      var last := |nodes| - 1;
      var prefix := nodes[..last];
      GroupEmpty(prefix);
      forall i ensures !IsEdge(prefix, i) {
        if 0 <= i < last {
          assert IsEdge(prefix, i) == IsEdge(nodes, i);
        }
      }
    }
  }

  /** The keys start with the name of the first unit that has an edge. */
  lemma {:induction false} GroupFirstKey(nodes: seq<Node>)
    ensures var g := GroupByName(nodes);
            g.keys != [] ==> exists i :: IsEdge(nodes, i) && nodes[i].name == g.keys[0]
                                         && forall j | 0 <= j < i :: !IsEdge(nodes, j)
  {
    if nodes != [] {
      var last := |nodes| - 1;
      var prefix := nodes[..last];
      var g := GroupByName(prefix);
      if g.keys != [] {
        GroupFirstKey(prefix);
        var i :| IsEdge(prefix, i) && prefix[i].name == g.keys[0] && forall j | 0 <= j < i :: !IsEdge(prefix, j);
        assert forall j | 0 <= j <= i :: IsEdge(prefix, j) == IsEdge(nodes, j);
        assert IsEdge(nodes, i) && nodes[i].name == GroupByName(nodes).keys[0];
      } else if GroupByName(nodes).keys != [] {
        GroupEmpty(prefix);
        assert forall j | 0 <= j < last :: IsEdge(prefix, j) == IsEdge(nodes, j);
        assert IsEdge(nodes, last) && nodes[last].name == GroupByName(nodes).keys[0];
      }
    }
  }

  /** The grouping keeps every edge, each name once, and starts with the name
      of the first unit that has an edge. */
  lemma GroupByNameFacts(nodes: seq<Node>)
    ensures var g := GroupByName(nodes);
            && Distinct(g.keys)
            && (forall i | IsEdge(nodes, i) :: nodes[i].name in g.groups && i in g.groups[nodes[i].name])
            && (g.keys == [] <==> forall i :: !IsEdge(nodes, i))
            && (g.keys != [] ==> exists i :: IsEdge(nodes, i) && nodes[i].name == g.keys[0]
                                             && forall j | 0 <= j < i :: !IsEdge(nodes, j))
  {
    GroupKeysDistinct(nodes);
    GroupKeepsEdges(nodes);
    GroupEmpty(nodes);
    GroupFirstKey(nodes);
  }

  /** Every name the walk can move to. */
  ghost function Targets(nodes: seq<Node>): set<string> {
    set i | 0 <= i < |nodes| && Present(nodes[i].target) :: nodes[i].target.value
  }

  lemma TargetsShrink(nodes: seq<Node>, visited: seq<string>, i: int)
    requires IsEdge(nodes, i) && nodes[i].target.value !in visited
    ensures |Targets(nodes) - set v | v in visited + [nodes[i].target.value]|
            < |Targets(nodes) - set v | v in visited|
  {
    var t := nodes[i].target.value;
    var before := Targets(nodes) - set v | v in visited;
    var after := Targets(nodes) - set v | v in visited + [t];
    assert t in Targets(nodes);
    assert before == after + {t};
  }

  /** `validate_acyclic_graph(graph, from:, visited:)`: None when the walk ends
      without error, Some(i) when unit i's edge raised CycleDetected. */
  function ValidateAcyclicGraph(nodes: seq<Node>, g: Graph, from: Option<string>, visited: seq<string>): Option<nat>
    requires g == GroupByName(nodes)
    decreases |Targets(nodes) - set v | v in visited|, 1
  {
    if from.Some? && from.value in g.groups then CheckEdges(nodes, g, g.groups[from.value], 0, visited)
    else None
  }

  /** The `each` over one group's edges, from position k on. */
  function CheckEdges(nodes: seq<Node>, g: Graph, edges: seq<nat>, k: nat, visited: seq<string>): Option<nat>
    requires g == GroupByName(nodes)
    requires k <= |edges| && forall j | 0 <= j < |edges| :: IsEdge(nodes, edges[j])
    decreases |Targets(nodes) - set v | v in visited|, 0, |edges| - k
  {
    if k == |edges| then None
    else
      var edge := edges[k];
      assert IsEdge(nodes, edges[k]);
      var adjacent := nodes[edge].target.value;
      if adjacent in visited then Some(edge)
      else
        TargetsShrink(nodes, visited, edge);
        var inner := ValidateAcyclicGraph(nodes, g, Some(adjacent), visited + [adjacent]);
        if inner.Some? then inner else CheckEdges(nodes, g, edges, k + 1, visited)
  }

  /** `validate_no_cycles(units)`: one walk, from the first name that has an edge. */
  function ValidateNoCycles(nodes: seq<Node>): Option<nat> {
    var g := GroupByName(nodes);
    ValidateAcyclicGraph(nodes, g, if g.keys == [] then None else Some(g.keys[0]), [])
  }

  /** A walk along declared edges: the indices of the units whose edges are taken. */
  ghost predicate IsWalk(nodes: seq<Node>, w: seq<nat>, a: string, b: string) {
    && (forall k | 0 <= k < |w| :: IsEdge(nodes, w[k]))
    && (if w == [] then a == b
        else
          && nodes[w[0]].name == a
          && nodes[w[|w| - 1]].target.value == b
          && forall k | 0 <= k < |w| - 1 :: nodes[w[k]].target.value == nodes[w[k + 1]].name)
  }

  /** The names a walk moves to, in order. */
  ghost function Visits(nodes: seq<Node>, w: seq<nat>): (r: seq<string>)
    requires forall k | 0 <= k < |w| :: IsEdge(nodes, w[k])
    ensures |r| == |w| && forall k | 0 <= k < |w| :: IsEdge(nodes, w[k]) && r[k] == nodes[w[k]].target.value
  {
    seq(|w|, k requires 0 <= k < |w| => assert IsEdge(nodes, w[k]); nodes[w[k]].target.value)
  }

  lemma WalkAppend(nodes: seq<Node>, p: seq<nat>, c: seq<nat>, a: string, b: string, d: string)
    requires IsWalk(nodes, p, a, b) && IsWalk(nodes, c, b, d)
    ensures IsWalk(nodes, p + c, a, d)
  {
    if p != [] && c != [] {
      var w := p + c;
      forall k | 0 <= k < |w| - 1 ensures nodes[w[k]].target.value == nodes[w[k + 1]].name {
        if k == |p| - 1 {
          assert w[k] == p[|p| - 1] && w[k + 1] == c[0];
        } else if k < |p| - 1 {
          assert w[k] == p[k] && w[k + 1] == p[k + 1];
        } else {
          assert w[k] == c[k - |p|] && w[k + 1] == c[k - |p| + 1];
        }
      }
    }
  }

  /** What a group's `each` returning nothing says about every edge in it. */
  lemma {:induction false} CheckEdgesPassed(nodes: seq<Node>, g: Graph, edges: seq<nat>, k: nat, visited: seq<string>, m: nat)
    requires g == GroupByName(nodes)
    requires k <= |edges| && forall j | 0 <= j < |edges| :: IsEdge(nodes, edges[j])
    requires CheckEdges(nodes, g, edges, k, visited).None?
    requires k <= m < |edges|
    ensures nodes[edges[m]].target.value !in visited
    ensures ValidateAcyclicGraph(nodes, g, Some(nodes[edges[m]].target.value),
                                 visited + [nodes[edges[m]].target.value]).None?
    decreases |edges| - k
  {
    if k < m {
      CheckEdgesPassed(nodes, g, edges, k + 1, visited, m);
    }
  }

  /** Dropping the first edge of a walk leaves a walk from that edge's target. */
  lemma WalkTail(nodes: seq<Node>, w: seq<nat>, a: string, b: string)
    requires IsWalk(nodes, w, a, b) && w != []
    ensures IsEdge(nodes, w[0]) && nodes[w[0]].name == a
    ensures IsWalk(nodes, w[1..], nodes[w[0]].target.value, b)
    ensures Visits(nodes, w) == [nodes[w[0]].target.value] + Visits(nodes, w[1..])
  {
    var rest := w[1..];
    if rest != [] {
      forall k | 0 <= k < |rest| - 1 ensures nodes[rest[k]].target.value == nodes[rest[k + 1]].name {
        assert rest[k] == w[k + 1] && rest[k + 1] == w[k + 2];
      }
    }
  }

  lemma DistinctCons(t: string, rest: seq<string>, visited: seq<string>)
    requires Distinct(rest) && forall x | x in rest :: x !in visited + [t]
    requires t !in visited
    ensures Distinct([t] + rest) && forall x | x in [t] + rest :: x !in visited
  {
    var s := [t] + rest;
    forall i, j | 0 <= i < j < |s| ensures s[i] != s[j] {
      assert s[j] == rest[j - 1] && rest[j - 1] in rest;
      if i > 0 {
        assert s[i] == rest[i - 1];
      }
    }
  }

  /** A walk that passes: every walk out of `from` moves to distinct names,
      none of them already on the path. */
  lemma {:induction false} PassedWalksDoNotRepeat(nodes: seq<Node>, g: Graph, from: string, visited: seq<string>, w: seq<nat>, b: string)
    requires g == GroupByName(nodes)
    requires IsWalk(nodes, w, from, b)
    ensures ValidateAcyclicGraph(nodes, g, Some(from), visited).None? ==>
              && Distinct(Visits(nodes, w))
              && forall x | x in Visits(nodes, w) :: x !in visited
    decreases |w|
  {
    if w != [] && ValidateAcyclicGraph(nodes, g, Some(from), visited).None? {
      var e := w[0];
      WalkTail(nodes, w, from, b);
      var t := nodes[e].target.value;
      GroupByNameFacts(nodes);
      assert from in g.groups && e in g.groups[from];
      var m :| 0 <= m < |g.groups[from]| && g.groups[from][m] == e;
      CheckEdgesPassed(nodes, g, g.groups[from], 0, visited, m);
      PassedWalksDoNotRepeat(nodes, g, t, visited + [t], w[1..], b);
      DistinctCons(t, Visits(nodes, w[1..]), visited);
    }
  }

  /** A cycle reachable from the first name with an edge is always reported. */
  lemma ReachableCycleIsReported(nodes: seq<Node>, p: seq<nat>, c: seq<nat>, n: string)
    requires GroupByName(nodes).keys != []
    requires IsWalk(nodes, p, GroupByName(nodes).keys[0], n)
    requires IsWalk(nodes, c, n, n) && c != []
    ensures ValidateNoCycles(nodes).Some?
  {
    var g := GroupByName(nodes);
    var start := g.keys[0];
    var w := p + c + c;
    WalkAppend(nodes, p, c, start, n, n);
    WalkAppend(nodes, p + c, c, start, n, n);
    PassedWalksDoNotRepeat(nodes, g, start, [], w, n);
    var vs := Visits(nodes, w);
    assert IsEdge(nodes, w[|p| + |c| - 1]) && IsEdge(nodes, w[|w| - 1]);
    assert w[|p| + |c| - 1] == c[|c| - 1];
    assert w[|w| - 1] == c[|c| - 1];
    assert vs[|p| + |c| - 1] == n == vs[|w| - 1];
    assert !Distinct(vs);
  }

  /** Walks from every visited name to `from`, extended by one edge to `t`,
      and the empty walk for `t` itself. */
  lemma ExtendWalks(nodes: seq<Node>, from: string, edge: nat, visited: seq<string>, walks: seq<seq<nat>>)
      returns (walks': seq<seq<nat>>)
    requires IsEdge(nodes, edge) && nodes[edge].name == from
    requires |walks| == |visited| && forall j | 0 <= j < |visited| :: IsWalk(nodes, walks[j], visited[j], from)
    ensures var t := nodes[edge].target.value;
            |walks'| == |visited + [t]| && forall j | 0 <= j < |walks'| :: IsWalk(nodes, walks'[j], (visited + [t])[j], t)
  {
    var t := nodes[edge].target.value;
    assert IsWalk(nodes, [edge], from, t);
    walks' := seq(|visited| + 1, j requires 0 <= j <= |visited| => if j < |visited| then walks[j] + [edge] else []);
    forall j | 0 <= j < |walks'| ensures IsWalk(nodes, walks'[j], (visited + [t])[j], t) {
      if j < |visited| {
        WalkAppend(nodes, walks[j], [edge], visited[j], from, t);
      }
    }
  }

  /** `CheckEdges` reports an edge only when a walk leads from its target back
      to its source, given walks from each visited name to `from`. */
  lemma {:induction false} CheckEdgesReportsCycle(nodes: seq<Node>, g: Graph, from: string, edges: seq<nat>, k: nat,
                                                  visited: seq<string>, walks: seq<seq<nat>>)
      returns (cycle: seq<nat>)
    requires g == GroupByName(nodes)
    requires from in g.groups && edges == g.groups[from] && k <= |edges|
    requires |walks| == |visited| && forall j | 0 <= j < |visited| :: IsWalk(nodes, walks[j], visited[j], from)
    requires CheckEdges(nodes, g, edges, k, visited).Some?
    ensures var i := CheckEdges(nodes, g, edges, k, visited).value;
            IsEdge(nodes, i) && cycle != [] && cycle[0] == i && IsWalk(nodes, cycle, nodes[i].name, nodes[i].name)
    decreases |Targets(nodes) - set v | v in visited|, 0, |edges| - k
  {
    var edge := edges[k];
    assert IsEdge(nodes, edges[k]) && nodes[edge].name == from;
    var t := nodes[edge].target.value;
    if t in visited {
      var j :| 0 <= j < |visited| && visited[j] == t;
      assert IsWalk(nodes, [edge], from, t);
      WalkAppend(nodes, [edge], walks[j], from, t, from);
      cycle := [edge] + walks[j];
    } else {
      TargetsShrink(nodes, visited, edge);
      if ValidateAcyclicGraph(nodes, g, Some(t), visited + [t]).Some? {
        var walks' := ExtendWalks(nodes, from, edge, visited, walks);
        cycle := CheckEdgesReportsCycle(nodes, g, t, g.groups[t], 0, visited + [t], walks');
      } else {
        cycle := CheckEdgesReportsCycle(nodes, g, from, edges, k + 1, visited, walks);
      }
    }
  }

  /** Soundness: a reported edge really closes a cycle of declared targets. */
  lemma ReportedCycleIsReal(nodes: seq<Node>) returns (cycle: seq<nat>)
    requires ValidateNoCycles(nodes).Some?
    ensures var i := ValidateNoCycles(nodes).value;
            IsEdge(nodes, i) && cycle != [] && cycle[0] == i && IsWalk(nodes, cycle, nodes[i].name, nodes[i].name)
  {
    var g := GroupByName(nodes);
    var start := g.keys[0];
    cycle := CheckEdgesReportsCycle(nodes, g, start, g.groups[start], 0, [], []);
  }

  /** With no declared target at all the walk has nowhere to start and passes. */
  lemma NoTargetsPass(nodes: seq<Node>)
    requires forall i | 0 <= i < |nodes| :: !Present(nodes[i].target)
    ensures ValidateNoCycles(nodes).None?
  {
    GroupByNameFacts(nodes);
  }

  /** Reaching a name that declares no target (a base unit) ends that branch
      of the walk without error. */
  lemma BaseUnitEndsBranch(nodes: seq<Node>, n: string, visited: seq<string>)
    requires forall i | IsEdge(nodes, i) :: nodes[i].name != n
    ensures ValidateAcyclicGraph(nodes, GroupByName(nodes), Some(n), visited).None?
  {
  }
}
