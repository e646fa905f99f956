/**
 * The bidirectional breadth-first search behind "how are these two nodes
 * related?" (src/pheasant/api/app.py).  Two parent maps grow level by level,
 * the smaller frontier is expanded, and the first meeting node is turned into
 * a path by walking both maps back.
 *
 * `Ball` and `Radii` speak only of sets of nodes, so what they say holds for
 * every order in which a neighbour set is iterated.
 */
module ShortestPath {

  import opened Options

  type Node = string
  type Edges = seq<(Node, Node)>
  type Adjacency = map<Node, set<Node>>
  type Parents = map<Node, Option<Node>>

  /** What a reader means by "related": an edge in either direction. */
  ghost predicate Linked(edges: Edges, a: Node, b: Node) {
    (a, b) in edges || (b, a) in edges
  }

  ghost predicate IsWalk(edges: Edges, w: seq<Node>) {
    && |w| >= 1
    && forall i :: 0 <= i < |w| - 1 ==> Linked(edges, w[i], w[i + 1])
  }

  /** A walk of `|w| - 1` hops from `s` to `t`. */
  ghost predicate Joins(edges: Edges, w: seq<Node>, s: Node, t: Node) {
    IsWalk(edges, w) && w[0] == s && w[|w| - 1] == t
  }

  ghost predicate NoDuplicates<T>(s: seq<T>) {
    forall i, j :: 0 <= i < j < |s| ==> s[i] != s[j]
  }

  ghost function Elements<T>(s: seq<T>): set<T> {
    set x | x in s
  }

  function Neighbours(adj: Adjacency, n: Node): set<Node> {
    if n in adj then adj[n] else {}
  }

  ghost predicate Represents(adj: Adjacency, edges: Edges) {
    forall a, b :: b in Neighbours(adj, a) <==> Linked(edges, a, b)
  }

  // ---------------------------------------------------------------- balls

  ghost function Around(adj: Adjacency, nodes: set<Node>): set<Node> {
    set n, m | n in nodes && m in Neighbours(adj, n) :: m
  }

  /** The nodes within `k` hops of `root`. */
  ghost function Ball(adj: Adjacency, root: Node, k: nat): set<Node> {
    if k == 0 then {root} else Ball(adj, root, k - 1) + Around(adj, Ball(adj, root, k - 1))
  }

  /** The nodes first reached at hop `k`: the frontier of a level. */
  ghost function Layer(adj: Adjacency, root: Node, k: nat): set<Node> {
    if k == 0 then {root} else Ball(adj, root, k) - Ball(adj, root, k - 1)
  }

  lemma LayerStep(adj: Adjacency, root: Node, k: nat)
    ensures Ball(adj, root, k + 1) == Ball(adj, root, k) + Around(adj, Layer(adj, root, k))
    ensures Layer(adj, root, k) <= Ball(adj, root, k)
  {
    if k > 0 {
      forall m | m in Around(adj, Ball(adj, root, k))
        ensures m in Ball(adj, root, k) + Around(adj, Layer(adj, root, k))
      {
        var n :| n in Ball(adj, root, k) && m in Neighbours(adj, n);
        if n in Ball(adj, root, k - 1) {
          assert m in Around(adj, Ball(adj, root, k - 1));
        }
      }
    }
  }

  lemma {:induction false} BallGrows(adj: Adjacency, root: Node, j: nat, k: nat)
    requires j <= k
    ensures Ball(adj, root, j) <= Ball(adj, root, k)
    decreases k
  {
    if j < k {
      BallGrows(adj, root, j, k - 1);
    }
  }

  /** Once a frontier is empty the ball never grows again. */
  lemma {:induction false} ExhaustedBall(adj: Adjacency, root: Node, j: nat, k: nat)
    requires j <= k && Layer(adj, root, j) == {}
    ensures Ball(adj, root, k) == Ball(adj, root, j)
    decreases k
  {
    if j < k {
      ExhaustedBall(adj, root, j, k - 1);
      LayerStep(adj, root, j);
      assert Around(adj, {}) == {};
    }
  }

  lemma {:induction false} WalkStaysInBall(edges: Edges, adj: Adjacency, w: seq<Node>, k: nat)
    requires Represents(adj, edges) && IsWalk(edges, w) && k < |w|
    ensures w[k] in Ball(adj, w[0], k)
  {
    if k > 0 {
      WalkStaysInBall(edges, adj, w, k - 1);
      assert Linked(edges, w[k - 1], w[k - 1 + 1]);
      assert w[k] in Neighbours(adj, w[k - 1]);
    }
  }

  lemma {:induction false} BallHasWalk(edges: Edges, adj: Adjacency, s: Node, k: nat, m: Node) returns (w: seq<Node>)
    requires Represents(adj, edges) && m in Ball(adj, s, k)
    ensures Joins(edges, w, s, m) && |w| - 1 <= k
  {
    if k == 0 {
      w := [s];
    } else if m in Ball(adj, s, k - 1) {
      w := BallHasWalk(edges, adj, s, k - 1, m);
    } else {
      var n :| n in Ball(adj, s, k - 1) && m in Neighbours(adj, n);
      var v := BallHasWalk(edges, adj, s, k - 1, n);
      w := v + [m];
      forall i | 0 <= i < |w| - 1
        ensures Linked(edges, w[i], w[i + 1])
      {
        if i + 1 < |v| {
          assert Linked(edges, v[i], v[i + 1]);
        }
      }
    }
  }

  /** A ball holds exactly the nodes that a walk of at most its radius reaches. */
  lemma BallExactly(edges: Edges, adj: Adjacency, s: Node, k: nat, m: Node)
    requires Represents(adj, edges)
    ensures m in Ball(adj, s, k) <==> exists w :: Joins(edges, w, s, m) && |w| - 1 <= k
  {
    if m in Ball(adj, s, k) {
      var w := BallHasWalk(edges, adj, s, k, m);
    }
    forall w | Joins(edges, w, s, m) && |w| - 1 <= k
      ensures m in Ball(adj, s, k)
    {
      WalkStaysInBall(edges, adj, w, |w| - 1);
      BallGrows(adj, s, |w| - 1, k);
    }
  }

  function Reverse<T>(s: seq<T>): (r: seq<T>)
    ensures |r| == |s|
    ensures forall i :: 0 <= i < |s| ==> r[i] == s[|s| - 1 - i]
  {
    if s == [] then [] else Reverse(s[1..]) + [s[0]]
  }

  lemma ReverseIsWalk(edges: Edges, w: seq<Node>)
    requires IsWalk(edges, w)
    ensures IsWalk(edges, Reverse(w))
    ensures Reverse(w)[0] == w[|w| - 1] && Reverse(w)[|w| - 1] == w[0]
  {
    var r := Reverse(w);
    forall i | 0 <= i < |r| - 1
      ensures Linked(edges, r[i], r[i + 1])
    {
      var j := |w| - 2 - i;
      assert Linked(edges, w[j], w[j + 1]);
    }
  }

  /** Every node of a walk is as close to each end as the walk says. */
  lemma WalkIsNearBothEnds(edges: Edges, adj: Adjacency, w: seq<Node>, k: nat)
    requires Represents(adj, edges) && IsWalk(edges, w) && k < |w|
    ensures w[k] in Ball(adj, w[0], k)
    ensures w[k] in Ball(adj, w[|w| - 1], |w| - 1 - k)
  {
    WalkStaysInBall(edges, adj, w, k);
    ReverseIsWalk(edges, w);
    var r := Reverse(w);
    assert r[|w| - 1 - k] == w[k];
    WalkStaysInBall(edges, adj, r, |w| - 1 - k);
  }

  /** A walk of at most `a + b` hops makes the two balls touch. */
  lemma ShortWalkMeets(edges: Edges, adj: Adjacency, w: seq<Node>, s: Node, t: Node, a: nat, b: nat)
    requires Represents(adj, edges) && Joins(edges, w, s, t)
    requires Ball(adj, s, a) !! Ball(adj, t, b)
    ensures |w| - 1 > a + b
  {
    if |w| - 1 <= a + b {
      var k := if a < |w| then a else |w| - 1;
      WalkIsNearBothEnds(edges, adj, w, k);
      BallGrows(adj, s, k, a);
      BallGrows(adj, t, |w| - 1 - k, b);
    }
  }

  /** A side that is exhausted without touching the other proves there is no walk at all. */
  lemma ExhaustedMeansNoWalk(edges: Edges, adj: Adjacency, s: Node, t: Node, a: nat, b: nat, w: seq<Node>)
    requires Represents(adj, edges)
    requires Ball(adj, s, a) !! Ball(adj, t, b)
    requires Layer(adj, s, a) == {} || Layer(adj, t, b) == {}
    ensures !Joins(edges, w, s, t)
  {
    if Joins(edges, w, s, t) {
      var far := a + b + |w|;
      if Layer(adj, s, a) == {} {
        ExhaustedBall(adj, s, a, far);
        ShortWalkMeets(edges, adj, w, s, t, far, b);
      } else {
        ExhaustedBall(adj, t, b, far);
        ShortWalkMeets(edges, adj, w, s, t, a, far);
      }
    }
  }

  /** A shortest walk repeats no node: otherwise cutting the loop out would shorten it. */
  lemma ShortestIsSimple(edges: Edges, w: seq<Node>, s: Node, t: Node)
    requires Joins(edges, w, s, t)
    requires forall v :: Joins(edges, v, s, t) ==> |w| <= |v|
    ensures NoDuplicates(w)
  {
    forall i, j | 0 <= i < j < |w|
      ensures w[i] != w[j]
    {
      if w[i] == w[j] {
        var v := w[..i] + w[j..];
        forall k | 0 <= k < |v| - 1
          ensures Linked(edges, v[k], v[k + 1])
        {
          if k + 1 < i {
            assert Linked(edges, w[k], w[k + 1]);
          } else if k + 1 == i {
            assert Linked(edges, w[k], w[k + 1]);
          } else {
            var q := k - i + j;
            assert Linked(edges, w[q], w[q + 1]);
          }
        }
        assert Joins(edges, v, s, t);
      }
    }
  }

  // ------------------------------------------------------ parent forests

  /** `rank` strictly decreases along parents, so every walk-back ends at `root`. */
  ghost predicate RankedTree(adj: Adjacency, root: Node, parents: Parents, rank: map<Node, nat>) {
    && parents.Keys == rank.Keys
    && root in parents && parents[root] == None && rank[root] == 0
    && forall n {:trigger parents[n]} :: n in parents && n != root ==>
         && parents[n].Some?
         && parents[n].value in parents
         && n in Neighbours(adj, parents[n].value)
         && rank[n] == rank[parents[n].value] + 1
  }

  /** One complete side of the search: everything within `k` hops, and its frontier. */
  ghost predicate Level(adj: Adjacency, root: Node, k: nat, frontier: seq<Node>, seen: Parents, rank: map<Node, nat>) {
    && RankedTree(adj, root, seen, rank)
    && seen.Keys == Ball(adj, root, k)
    && Elements(frontier) == Layer(adj, root, k) && NoDuplicates(frontier)
    && RanksAtMost(seen.Keys, rank, k)
    && RanksEqual(Elements(frontier), rank, k)
  }

  /** A side in the middle of being expanded: `reached` has been added around the `layer` of `ball`. */
  ghost predicate Expanding(adj: Adjacency, root: Node, k: nat, ball: set<Node>, layer: set<Node>,
                            next: seq<Node>, seen: Parents, rank: map<Node, nat>, reached: set<Node>)
  {
    && RankedTree(adj, root, seen, rank)
    && seen.Keys == ball + reached
    && Elements(next) == seen.Keys - ball && NoDuplicates(next)
    && RanksAtMost(ball, rank, k) && layer <= ball && RanksEqual(layer, rank, k)
    && RanksEqual(Elements(next), rank, k + 1)
  }

  ghost predicate RanksAtMost(nodes: set<Node>, rank: map<Node, nat>, k: nat) {
    forall n :: n in nodes ==> n in rank && rank[n] <= k
  }

  ghost predicate RanksEqual(nodes: set<Node>, rank: map<Node, nat>, k: nat) {
    forall n :: n in nodes ==> n in rank && rank[n] == k
  }

  lemma FinishedExpansion(adj: Adjacency, root: Node, k: nat, next: seq<Node>, seen: Parents, rank: map<Node, nat>)
    requires Expanding(adj, root, k, Ball(adj, root, k), Layer(adj, root, k), next, seen, rank,
                       Around(adj, Layer(adj, root, k)))
    ensures Level(adj, root, k + 1, next, seen, rank)
  {
    LayerStep(adj, root, k);
    var inner, outer := Ball(adj, root, k), Ball(adj, root, k + 1);
    assert seen.Keys == outer;
    assert Layer(adj, root, k + 1) == outer - inner;
  }

  /** The walk-back: `cursor`, its parent, and so on up to the root. */
  ghost function Climb(adj: Adjacency, root: Node, parents: Parents, rank: map<Node, nat>, cursor: Option<Node>): (p: seq<Node>)
    requires RankedTree(adj, root, parents, rank)
    requires cursor.Some? ==> cursor.value in parents
    ensures cursor.None? ==> p == []
    ensures cursor.Some? ==> |p| == rank[cursor.value] + 1 && p[0] == cursor.value && p[|p| - 1] == root
    decreases if cursor.Some? then rank[cursor.value] + 1 else 0
  {
    if cursor.None? then [] else
      [cursor.value] + Climb(adj, root, parents, rank, parents[cursor.value])
  }

  lemma {:induction false} ClimbIsWalk(edges: Edges, adj: Adjacency, root: Node, parents: Parents, rank: map<Node, nat>, n: Node)
    requires Represents(adj, edges)
    requires RankedTree(adj, root, parents, rank) && n in parents
    ensures IsWalk(edges, Climb(adj, root, parents, rank, Some(n)))
    decreases rank[n]
  {
    var p := Climb(adj, root, parents, rank, Some(n));
    if n != root {
      var up := parents[n].value;
      ClimbIsWalk(edges, adj, root, parents, rank, up);
      var q := Climb(adj, root, parents, rank, Some(up));
      assert p == [n] + q;
      assert Linked(edges, up, n);
      forall i | 0 <= i < |p| - 1
        ensures Linked(edges, p[i], p[i + 1])
      {
        if i > 0 {
          assert Linked(edges, q[i - 1], q[i - 1 + 1]);
        }
      }
    }
  }

  // ---------------------------------------------------------- the search

  lemma AddEdge(adj: Adjacency, edges: Edges, a: Node, b: Node)
    requires Represents(adj, edges)
    ensures var half := adj[a := Neighbours(adj, a) + {b}];
            Represents(half[b := Neighbours(half, b) + {a}], edges + [(a, b)])
  {
    var half := adj[a := Neighbours(adj, a) + {b}];
    var full := half[b := Neighbours(half, b) + {a}];
    forall x, y
      ensures y in Neighbours(full, x) <==> Linked(edges + [(a, b)], x, y)
    {
      assert y in Neighbours(adj, x) <==> Linked(edges, x, y);
      assert Linked(edges + [(a, b)], x, y) <==> Linked(edges, x, y) || (x, y) == (a, b) || (y, x) == (a, b);
    }
  }

  ghost function AdjacencyOf(edges: Edges): (adj: Adjacency)
    ensures Represents(adj, edges)
  {
    if edges == [] then map[] else
      var before := edges[..|edges| - 1];
      var adj := AdjacencyOf(before);
      var (a, b) := edges[|edges| - 1];
      AddEdge(adj, before, a, b);
      assert edges == before + [(a, b)];
      var half := adj[a := Neighbours(adj, a) + {b}];
      half[b := Neighbours(half, b) + {a}]
  }

  /** The adjacency dictionary, filled edge by edge in both directions. */
  method BuildAdjacency(edges: Edges) returns (adj: Adjacency)
    ensures adj == AdjacencyOf(edges)
    ensures Represents(adj, edges)
  {
    adj := map[];
    for i := 0 to |edges|
      invariant adj == AdjacencyOf(edges[..i])
    {
      var (a, b) := edges[i];
      assert edges[..i + 1][..i] == edges[..i];
      adj := adj[a := Neighbours(adj, a) + {b}];
      adj := adj[b := Neighbours(adj, b) + {a}];
    }
    assert edges[..|edges|] == edges;
  }

  lemma ClimbStep(adj: Adjacency, root: Node, parents: Parents, rank: map<Node, nat>, n: Node, trail: seq<Node>)
    requires RankedTree(adj, root, parents, rank) && n in parents
    ensures parents[n].Some? ==> parents[n].value in parents && rank[parents[n].value] < rank[n]
    ensures trail + Climb(adj, root, parents, rank, Some(n))
         == trail + [n] + Climb(adj, root, parents, rank, parents[n])
  {
  }

  /** One walk-back: follow parents until there is none. */
  method WalkBack(ghost adj: Adjacency, ghost root: Node, parents: Parents, ghost rank: map<Node, nat>, from: Option<Node>)
    returns (trail: seq<Node>)
    requires RankedTree(adj, root, parents, rank)
    requires from.Some? ==> from.value in parents
    ensures trail == Climb(adj, root, parents, rank, from)
  {
    trail := [];
    var cursor := from;
    ghost var up := Climb(adj, root, parents, rank, from);
    while cursor.Some?
      invariant cursor.Some? ==> cursor.value in parents
      invariant up == trail + Climb(adj, root, parents, rank, cursor)
      decreases if cursor.Some? then rank[cursor.value] + 1 else 0
    {
      ClimbStep(adj, root, parents, rank, cursor.value, trail);
      trail := trail + [cursor.value];
      cursor := parents[cursor.value];
    }
  }

  /** The path through `meeting`: up to the source reversed, then down to the target. */
  method JoinPaths(ghost adj: Adjacency, ghost s: Node, ghost t: Node, meeting: Node,
                   forward: Parents, backward: Parents,
                   ghost rankF: map<Node, nat>, ghost rankB: map<Node, nat>)
    returns (path: seq<Node>)
    requires RankedTree(adj, s, forward, rankF) && RankedTree(adj, t, backward, rankB)
    requires meeting in forward && meeting in backward
    ensures path == Reverse(Climb(adj, s, forward, rankF, Some(meeting)))
                    + Climb(adj, t, backward, rankB, backward[meeting])
  {
    var head := WalkBack(adj, s, forward, rankF, Some(meeting));
    head := Reverse(head);
    var tail := WalkBack(adj, t, backward, rankB, backward[meeting]);
    path := head + tail;
  }

  /** What a join yields: a walk whose hops are the two ranks added up. */
  lemma JoinedPathIsWalk(edges: Edges, adj: Adjacency, s: Node, t: Node, meeting: Node,
                         forward: Parents, backward: Parents, rankF: map<Node, nat>, rankB: map<Node, nat>)
    requires Represents(adj, edges)
    requires RankedTree(adj, s, forward, rankF) && RankedTree(adj, t, backward, rankB)
    requires meeting in forward && meeting in backward
    ensures var path := Reverse(Climb(adj, s, forward, rankF, Some(meeting)))
                        + Climb(adj, t, backward, rankB, backward[meeting]);
            Joins(edges, path, s, t) && |path| == rankF[meeting] + rankB[meeting] + 1
  {
    var up := Climb(adj, s, forward, rankF, Some(meeting));
    var down := Climb(adj, t, backward, rankB, Some(meeting));
    var rest := Climb(adj, t, backward, rankB, backward[meeting]);
    ClimbIsWalk(edges, adj, s, forward, rankF, meeting);
    ClimbIsWalk(edges, adj, t, backward, rankB, meeting);
    ReverseIsWalk(edges, up);
    assert down == [meeting] + rest;
    var head := Reverse(up);
    var path := head + rest;
    forall i | 0 <= i < |path| - 1
      ensures Linked(edges, path[i], path[i + 1])
    {
      if i + 1 < |head| {
        assert Linked(edges, head[i], head[i + 1]);
      } else {
        var j := i + 1 - |head|;
        assert Linked(edges, down[j], down[j + 1]);
        assert path[i] == down[j];
      }
    }
  }

  lemma TreeInsert(adj: Adjacency, root: Node, parents: Parents, rank: map<Node, nat>, n: Node, m: Node)
    requires RankedTree(adj, root, parents, rank)
    requires n in parents && m in Neighbours(adj, n) && m !in parents
    ensures RankedTree(adj, root, parents[m := Some(n)], rank[m := rank[n] + 1])
  {
    var parents', rank' := parents[m := Some(n)], rank[m := rank[n] + 1];
    assert parents'.Keys == parents.Keys + {m} == rank'.Keys;
    forall x | x in parents' && x != root
      ensures && parents'[x].Some? && parents'[x].value in parents'
              && x in Neighbours(adj, parents'[x].value)
              && rank'[x] == rank'[parents'[x].value] + 1
    {
      if x != m {
        assert x in parents;
      }
    }
  }

  /** One insertion `seen[m] = n` in the middle of a level. */
  lemma InsertStep(adj: Adjacency, root: Node, k: nat, ball: set<Node>, layer: set<Node>,
                   next: seq<Node>, seen: Parents, rank: map<Node, nat>, reached: set<Node>, n: Node, m: Node)
    requires Expanding(adj, root, k, ball, layer, next, seen, rank, reached)
    requires n in layer && m in Neighbours(adj, n) && m !in seen
    ensures Expanding(adj, root, k, ball, layer, next + [m], seen[m := Some(n)], rank[m := k + 1], reached + {m})
  {
    TreeInsert(adj, root, seen, rank, n, m);
    assert seen[m := Some(n)].Keys == seen.Keys + {m};
    assert m !in Elements(next);
    assert Elements(next + [m]) == Elements(next) + {m};
  }

  /** The inner loop: every neighbour of one frontier node, in any order. */
  method ExpandNode(adj: Adjacency, ghost root: Node, ghost k: nat, ghost ball: set<Node>, ghost layer: set<Node>, node: Node, other: Parents, ghost before: set<Node>,
                    seen0: Parents, next0: seq<Node>, ghost rank0: map<Node, nat>)
    returns (seen: Parents, next: seq<Node>, meeting: Option<Node>, ghost rank: map<Node, nat>)
    requires Expanding(adj, root, k, ball, layer, next0, seen0, rank0, before)
    requires node in layer
    requires seen0.Keys !! other.Keys
    ensures meeting.None? ==> seen.Keys == ball + before + Neighbours(adj, node) && seen.Keys !! other.Keys
    ensures meeting.None? ==> Expanding(adj, root, k, ball, layer, next, seen, rank, before + Neighbours(adj, node))
    ensures meeting.Some? ==>
              meeting.value in seen && meeting.value in other && meeting.value in Neighbours(adj, node)
    ensures meeting.Some? ==> RankedTree(adj, root, seen, rank) && rank[meeting.value] == k + 1
  {
    seen, next, rank, meeting := seen0, next0, rank0, None;
    var pending := Neighbours(adj, node);
    ghost var around, reached := pending, before;
    while pending != {}
      invariant pending <= around
      invariant reached + pending == before + around
      invariant Expanding(adj, root, k, ball, layer, next, seen, rank, reached)
      invariant seen.Keys !! other.Keys
      decreases pending
    {
      var neighbour :| neighbour in pending;
      pending := pending - {neighbour};
      if neighbour !in seen {
        InsertStep(adj, root, k, ball, layer, next, seen, rank, reached, node, neighbour);
        seen, rank := seen[neighbour := Some(node)], rank[neighbour := k + 1];
        if neighbour in other {
          return seen, next, Some(neighbour), rank;
        }
        next := next + [neighbour];
        assert seen.Keys !! other.Keys;
      } else {
        assert ball + reached == ball + (reached + {neighbour});
      }
      reached := reached + {neighbour};
    }
  }

  /** The two nested loops over the smaller frontier. */
  method ExpandLevel(adj: Adjacency, ghost root: Node, ghost k: nat, frontier: seq<Node>,
                     start: Parents, other: Parents, ghost rank0: map<Node, nat>)
    returns (seen: Parents, next: seq<Node>, meeting: Option<Node>, ghost rank: map<Node, nat>)
    requires Level(adj, root, k, frontier, start, rank0)
    requires start.Keys !! other.Keys
    ensures meeting.None? ==>
              && seen.Keys == Ball(adj, root, k + 1) && seen.Keys !! other.Keys
              && Elements(next) == Layer(adj, root, k + 1) && NoDuplicates(next)
    ensures meeting.None? ==> Level(adj, root, k + 1, next, seen, rank)
    ensures meeting.Some? ==>
              meeting.value in seen && meeting.value in other && meeting.value in Ball(adj, root, k + 1)
    ensures meeting.Some? ==> RankedTree(adj, root, seen, rank) && rank[meeting.value] == k + 1
  {
    seen, next, rank, meeting := start, [], rank0, None;
    LayerStep(adj, root, k);
    ghost var ball, layer := Ball(adj, root, k), Layer(adj, root, k);
    ghost var reached: set<Node> := {};
    assert Around(adj, Elements(frontier[..0])) == {};
    for i := 0 to |frontier|
      invariant reached == Around(adj, Elements(frontier[..i]))
      invariant Expanding(adj, root, k, ball, layer, next, seen, rank, reached)
      invariant seen.Keys !! other.Keys
      invariant meeting.None?
    {
      assert frontier[i] in Elements(frontier);
      AroundGrows(adj, frontier, i);
      seen, next, meeting, rank := ExpandNode(adj, root, k, ball, layer, frontier[i], other, reached, seen, next, rank);
      if meeting.Some? {
        assert meeting.value in Around(adj, layer);
        return;
      }
      reached := reached + Neighbours(adj, frontier[i]);
    }
    assert frontier[..|frontier|] == frontier;
    FinishedExpansion(adj, root, k, next, seen, rank);
  }

  lemma AroundGrows(adj: Adjacency, frontier: seq<Node>, i: nat)
    requires i < |frontier|
    ensures Around(adj, Elements(frontier[..i + 1]))
         == Around(adj, Elements(frontier[..i])) + Neighbours(adj, frontier[i])
  {
    assert frontier[..i + 1] == frontier[..i] + [frontier[i]];
    assert Elements(frontier[..i + 1]) == Elements(frontier[..i]) + {frontier[i]};
  }

  /** How large one side of the search is, level by level: its frontier, and all it has seen. */
  datatype Side = Side(rim: nat -> nat, seen: nat -> nat)

  ghost function SideOf(adj: Adjacency, root: Node): Side {
    Side((k: nat) => |Layer(adj, root, k)|, (k: nat) => |Ball(adj, root, k)|)
  }

  ghost predicate Measures(side: Side, adj: Adjacency, root: Node) {
    && (forall k: nat {:trigger Ball(adj, root, k)} :: side.seen(k) == |Ball(adj, root, k)|)
    && (forall k: nat {:trigger Layer(adj, root, k)} :: side.rim(k) == |Layer(adj, root, k)|)
  }

  /** How far the two sides reach. */
  datatype Reach = Reach(a: nat, b: nat)

  /** One more level: the smaller frontier is expanded. */
  ghost function Expanded(near: Side, far: Side, r: Reach): Reach {
    if near.rim(r.a) <= far.rim(r.b) then Reach(r.a + 1, r.b) else Reach(r.a, r.b + 1)
  }

  /** How far the two sides reach after `n` levels. */
  ghost function Radii(near: Side, far: Side, n: nat): (r: Reach)
    ensures r.a + r.b == n
  {
    if n == 0 then Reach(0, 0) else Expanded(near, far, Radii(near, far, n - 1))
  }

  ghost predicate Follows(near: Side, far: Side, radii: nat -> Reach) {
    && radii(0) == Reach(0, 0)
    && forall n: nat {:trigger Expanded(near, far, radii(n))} :: radii(n + 1) == Expanded(near, far, radii(n))
  }

  /** How many nodes both sides have seen when level `n` starts. */
  ghost function SeenAt(near: Side, far: Side, n: nat): nat {
    var r := Radii(near, far, n);
    near.seen(r.a) + far.seen(r.b)
  }

  lemma {:induction false} RadiiGrow(near: Side, far: Side, m: nat, n: nat)
    requires m <= n
    ensures Radii(near, far, m).a <= Radii(near, far, n).a && Radii(near, far, m).b <= Radii(near, far, n).b
    decreases n
  {
    if m < n {
      RadiiGrow(near, far, m, n - 1);
    }
  }

  /** The nodes seen only grow from level to level. */
  lemma SeenGrows(adj: Adjacency, near: Side, far: Side, s: Node, t: Node, m: nat, n: nat)
    requires Measures(near, adj, s) && Measures(far, adj, t) && m <= n
    ensures SeenAt(near, far, m) <= SeenAt(near, far, n)
  {
    var before, after := Radii(near, far, m), Radii(near, far, n);
    RadiiGrow(near, far, m, n);
    BallGrows(adj, s, before.a, after.a);
    BallGrows(adj, t, before.b, after.b);
    SubsetCounts(Ball(adj, s, before.a), Ball(adj, s, after.a));
    SubsetCounts(Ball(adj, t, before.b), Ball(adj, t, after.b));
  }

  lemma {:induction false} NoDuplicatesCounts(s: seq<Node>)
    requires NoDuplicates(s)
    ensures |Elements(s)| == |s|
  {
    if s != [] {
      var rest := s[..|s| - 1];
      NoDuplicatesCounts(rest);
      assert s == rest + [s[|s| - 1]];
      assert Elements(s) == Elements(rest) + {s[|s| - 1]};
    }
  }

  ghost predicate WithinReach(edges: Edges, s: Node, t: Node, hops: int) {
    exists w :: Joins(edges, w, s, t) && |w| - 1 <= hops
  }

  /** Fewest hops between two nodes, no repeated node, at most `hops` of them. */
  ghost predicate IsShortestPath(edges: Edges, path: seq<Node>, s: Node, t: Node, hops: int) {
    && Joins(edges, path, s, t)
    && NoDuplicates(path)
    && |path| - 1 <= hops
    && forall w :: Joins(edges, w, s, t) ==> |path| <= |w|
  }

  lemma ExhaustedIsOutOfReach(edges: Edges, adj: Adjacency, s: Node, t: Node, a: nat, b: nat, hops: int)
    requires Represents(adj, edges)
    requires Ball(adj, s, a) !! Ball(adj, t, b)
    requires Layer(adj, s, a) == {} || Layer(adj, t, b) == {} || a + b >= hops
    ensures !WithinReach(edges, s, t, hops)
  {
    forall w | Joins(edges, w, s, t)
      ensures |w| - 1 > hops
    {
      if a + b >= hops {
        ShortWalkMeets(edges, adj, w, s, t, a, b);
      } else {
        ExhaustedMeansNoWalk(edges, adj, s, t, a, b, w);
      }
    }
  }

  /** The first meeting node already lies on a shortest path. */
  lemma FirstMeetingIsShortest(edges: Edges, adj: Adjacency, s: Node, t: Node, meeting: Node, a: nat, b: nat,
                               forward: Parents, backward: Parents, rankF: map<Node, nat>, rankB: map<Node, nat>)
    requires Represents(adj, edges)
    requires RankedTree(adj, s, forward, rankF) && RankedTree(adj, t, backward, rankB)
    requires meeting in forward && meeting in backward
    requires Ball(adj, s, a) !! Ball(adj, t, b)
    requires rankF[meeting] + rankB[meeting] <= a + b + 1
    ensures var path := Reverse(Climb(adj, s, forward, rankF, Some(meeting)))
                        + Climb(adj, t, backward, rankB, backward[meeting]);
            IsShortestPath(edges, path, s, t, a + b + 1)
  {
    var path := Reverse(Climb(adj, s, forward, rankF, Some(meeting)))
                + Climb(adj, t, backward, rankB, backward[meeting]);
    JoinedPathIsWalk(edges, adj, s, t, meeting, forward, backward, rankF, rankB);
    OneMoreHopIsShortest(edges, adj, s, t, a, b, path);
  }

  /** A walk one hop longer than two balls that are apart is a shortest one. */
  lemma OneMoreHopIsShortest(edges: Edges, adj: Adjacency, s: Node, t: Node, a: nat, b: nat, path: seq<Node>)
    requires Represents(adj, edges) && Ball(adj, s, a) !! Ball(adj, t, b)
    requires Joins(edges, path, s, t) && |path| - 1 <= a + b + 1
    ensures IsShortestPath(edges, path, s, t, a + b + 1)
  {
    forall w | Joins(edges, w, s, t)
      ensures |path| <= |w|
    {
      ShortWalkMeets(edges, adj, w, s, t, a, b);
    }
    ShortestIsSimple(edges, path, s, t);
  }

  /** Both sides complete and still apart. */
  ghost predicate Apart(adj: Adjacency, s: Node, t: Node, a: nat, b: nat, front: seq<Node>, back: seq<Node>,
                        forward: Parents, backward: Parents, rankF: map<Node, nat>, rankB: map<Node, nat>)
  {
    && Level(adj, s, a, front, forward, rankF)
    && Level(adj, t, b, back, backward, rankB)
    && forward.Keys !! backward.Keys
  }

  datatype Outcome = Continue | GiveUp | Found(path: seq<Node>)

  function Answer(outcome: Outcome): Option<seq<Node>> {
    if outcome.Found? then Some(outcome.path) else None
  }

  /** What an expanded level yields: a path of the hops seen so far, or both sides complete and still apart. */
  ghost predicate Advanced(edges: Edges, adj: Adjacency, s: Node, t: Node, hops: nat, outcome: Outcome, a: nat, b: nat,
                           front: seq<Node>, back: seq<Node>, forward: Parents, backward: Parents,
                           rankF: map<Node, nat>, rankB: map<Node, nat>)
  {
    match outcome
    case Continue => Apart(adj, s, t, a, b, front, back, forward, backward, rankF, rankB)
    case Found(path) => IsShortestPath(edges, path, s, t, hops)
    case GiveUp => false
  }

  /** One level of the source's side: the next frontier, or a finished path. */
  method GrowForward(edges: Edges, adj: Adjacency, s: Node, ghost t: Node, ghost a: nat, ghost b: nat,
                     front: seq<Node>, ghost back: seq<Node>, forward: Parents, backward: Parents,
                     ghost rankF: map<Node, nat>, ghost rankB: map<Node, nat>)
    returns (front': seq<Node>, forward': Parents, ghost rankF': map<Node, nat>, outcome: Outcome)
    requires Represents(adj, edges)
    requires Apart(adj, s, t, a, b, front, back, forward, backward, rankF, rankB)
    ensures Advanced(edges, adj, s, t, a + b + 1, outcome, a + 1, b, front', back, forward', backward, rankF', rankB)
  {
    var meeting;
    forward', front', meeting, rankF' := ExpandLevel(adj, s, a, front, forward, backward, rankF);
    if meeting.None? {
      return front', forward', rankF', Continue;
    }
    FirstMeetingIsShortest(edges, adj, s, t, meeting.value, a, b, forward', backward, rankF', rankB);
    var path := JoinPaths(adj, s, t, meeting.value, forward', backward, rankF', rankB);
    outcome := Found(path);
  }

  /** The same for the target's side. */
  method GrowBackward(edges: Edges, adj: Adjacency, ghost s: Node, t: Node, ghost a: nat, ghost b: nat,
                      ghost front: seq<Node>, back: seq<Node>, forward: Parents, backward: Parents,
                      ghost rankF: map<Node, nat>, ghost rankB: map<Node, nat>)
    returns (back': seq<Node>, backward': Parents, ghost rankB': map<Node, nat>, outcome: Outcome)
    requires Represents(adj, edges)
    requires Apart(adj, s, t, a, b, front, back, forward, backward, rankF, rankB)
    ensures Advanced(edges, adj, s, t, a + b + 1, outcome, a, b + 1, front, back', forward, backward', rankF, rankB')
  {
    var meeting;
    backward', back', meeting, rankB' := ExpandLevel(adj, t, b, back, backward, forward, rankB);
    if meeting.None? {
      return back', backward', rankB', Continue;
    }
    FirstMeetingIsShortest(edges, adj, s, t, meeting.value, a, b, forward, backward', rankF, rankB');
    var path := JoinPaths(adj, s, t, meeting.value, forward, backward', rankF, rankB');
    outcome := Found(path);
  }

  /**
   * The search.  For distinct nodes it answers exactly when some shortest path
   * has at most `maxDepth` hops and, one hop before the two sides meet on it,
   * they have seen no more than `maxVisited` nodes; the answer is always a
   * shortest path.
   */
  method Search(edges: Edges, source: Node, target: Node, maxDepth: int, maxVisited: int)
    returns (r: Option<seq<Node>>)
    ensures source == target ==> r == Some([source])
    ensures source != target && r.Some? ==> IsShortestPath(edges, r.value, source, target, maxDepth)
    ensures source != target ==>
              (r.Some? <==> exists w :: Affordable(edges, SideOf(AdjacencyOf(edges), source), SideOf(AdjacencyOf(edges), target),
                                                   source, target, maxDepth, maxVisited, w))
    ensures source != target && r.Some? ==>
              exists a: nat, b: nat :: a + b + 1 == |r.value| - 1
                && |Ball(AdjacencyOf(edges), source, a)| + |Ball(AdjacencyOf(edges), target, b)| <= maxVisited
    ensures r.None? && WithinReach(edges, source, target, maxDepth) ==>
              exists a: nat, b: nat :: a + b < maxDepth
                && Ball(AdjacencyOf(edges), source, a) !! Ball(AdjacencyOf(edges), target, b)
                && |Ball(AdjacencyOf(edges), source, a)| + |Ball(AdjacencyOf(edges), target, b)| > maxVisited
  {
    if source == target {
      return Some([source]);
    }
    var adj := BuildAdjacency(edges);
    ghost var near, far := SideOf(adj, source), SideOf(adj, target);
    ghost var n, reach;
    r, n, reach := SearchFrom(edges, adj, source, target, maxDepth, maxVisited, near, far);
    assert near.seen(reach.a) == |Ball(adj, source, reach.a)| && far.seen(reach.b) == |Ball(adj, target, reach.b)|;
  }

  /** A shortest path within the depth whose search sees few enough nodes up to its last level. */
  ghost predicate Affordable(edges: Edges, near: Side, far: Side, s: Node, t: Node,
                             maxDepth: int, maxVisited: int, w: seq<Node>)
  {
    IsShortestPath(edges, w, s, t, maxDepth) && CheapEnough(near, far, |w| - 1, maxVisited)
  }

  /** The level that makes the last of so many hops starts with no more nodes seen than the cap. */
  ghost predicate CheapEnough(near: Side, far: Side, hops: int, maxVisited: int) {
    hops >= 1 && SeenAt(near, far, hops - 1) <= maxVisited
  }

  /** The body of the depth loop. */
  method SearchLevel(edges: Edges, adj: Adjacency, s: Node, t: Node, ghost a0: nat, ghost b0: nat, maxVisited: int,
                     front0: seq<Node>, back0: seq<Node>, forward0: Parents, backward0: Parents,
                     ghost rankF0: map<Node, nat>, ghost rankB0: map<Node, nat>)
    returns (outcome: Outcome, ghost a: nat, ghost b: nat, front: seq<Node>, back: seq<Node>,
             forward: Parents, backward: Parents, ghost rankF: map<Node, nat>, ghost rankB: map<Node, nat>)
    requires Represents(adj, edges)
    requires Apart(adj, s, t, a0, b0, front0, back0, forward0, backward0, rankF0, rankB0)
    ensures outcome.GiveUp? <==> front0 == [] || back0 == [] || |forward0| + |backward0| > maxVisited
    ensures !outcome.GiveUp? ==>
              && (if |front0| <= |back0| then a == a0 + 1 && b == b0 else a == a0 && b == b0 + 1)
              && Advanced(edges, adj, s, t, a0 + b0 + 1, outcome, a, b, front, back, forward, backward, rankF, rankB)
  {
    a, b, front, back, forward, backward, rankF, rankB := a0, b0, front0, back0, forward0, backward0, rankF0, rankB0;
    if front0 == [] || back0 == [] {
      outcome := GiveUp;
    } else if |forward0| + |backward0| > maxVisited {
      outcome := GiveUp;
    } else if |front0| <= |back0| {
      a := a0 + 1;
      front, forward, rankF, outcome := GrowForward(edges, adj, s, t, a0, b0, front0, back0, forward0, backward0, rankF0, rankB0);
    } else {
      b := b0 + 1;
      back, backward, rankB, outcome := GrowBackward(edges, adj, s, t, a0, b0, front0, back0, forward0, backward0, rankF0, rankB0);
    }
  }

  /** The nodes seen never get fewer from level `n` on. */
  ghost predicate GrowsFrom(near: Side, far: Side, n: nat) {
    forall k: nat :: n <= k ==> SeenAt(near, far, n) <= SeenAt(near, far, k)
  }

  ghost predicate LongerThan(edges: Edges, s: Node, t: Node, n: nat) {
    forall w :: Joins(edges, w, s, t) ==> |w| - 1 > n
  }

  /** Over the cap with the sides still apart: every shortest path needs this level and sees at least as much. */
  lemma OverCapIsUnaffordable(edges: Edges, near: Side, far: Side, s: Node, t: Node,
                              n: nat, maxDepth: int, maxVisited: int)
    requires LongerThan(edges, s, t, n) && GrowsFrom(near, far, n) && SeenAt(near, far, n) > maxVisited
    ensures forall w :: !Affordable(edges, near, far, s, t, maxDepth, maxVisited, w)
  {
    forall w | IsShortestPath(edges, w, s, t, maxDepth)
      ensures !CheapEnough(near, far, |w| - 1, maxVisited)
    {
      assert |w| - 1 > n;
    }
  }

  lemma ApartIsLonger(edges: Edges, adj: Adjacency, s: Node, t: Node, a: nat, b: nat, n: nat)
    requires Represents(adj, edges) && Ball(adj, s, a) !! Ball(adj, t, b) && n == a + b
    ensures LongerThan(edges, s, t, n)
  {
    forall w | Joins(edges, w, s, t)
      ensures |w| - 1 > n
    {
      ShortWalkMeets(edges, adj, w, s, t, a, b);
    }
  }

  lemma SeenOnlyGrows(adj: Adjacency, near: Side, far: Side, s: Node, t: Node, n: nat)
    requires Measures(near, adj, s) && Measures(far, adj, t)
    ensures GrowsFrom(near, far, n)
  {
    forall k: nat | n <= k
      ensures SeenAt(near, far, n) <= SeenAt(near, far, k)
    {
      SeenGrows(adj, near, far, s, t, n, k);
    }
  }

  /** Giving up over the cap is right ... */
  lemma GivingUpIsRight(edges: Edges, adj: Adjacency, near: Side, far: Side, s: Node, t: Node,
                        a: nat, b: nat, n: nat, maxDepth: int, maxVisited: int)
    requires Measures(near, adj, s) && Measures(far, adj, t)
    requires Represents(adj, edges) && Ball(adj, s, a) !! Ball(adj, t, b) && n == a + b
    requires SeenAt(near, far, n) > maxVisited
    ensures forall w :: !Affordable(edges, near, far, s, t, maxDepth, maxVisited, w)
  {
    ApartIsLonger(edges, adj, s, t, a, b, n);
    SeenOnlyGrows(adj, near, far, s, t, n);
    OverCapIsUnaffordable(edges, near, far, s, t, n, maxDepth, maxVisited);
  }

  /** ... and so is giving up when nothing is within reach. */
  lemma OutOfReachIsUnaffordable(edges: Edges, near: Side, far: Side, s: Node, t: Node,
                                 maxDepth: int, maxVisited: int)
    requires !WithinReach(edges, s, t, maxDepth)
    ensures forall w :: !Affordable(edges, near, far, s, t, maxDepth, maxVisited, w)
  {
  }

  /** Why the search ended as it did, `n` levels finished and the sides at `reach`. */
  ghost predicate Concluded(edges: Edges, adj: Adjacency, s: Node, t: Node, near: Side, far: Side,
                            maxDepth: int, maxVisited: int, n: nat, reach: Reach, r: Option<seq<Node>>)
  {
    && Ball(adj, s, reach.a) !! Ball(adj, t, reach.b)
    && (r.Some? ==> && IsShortestPath(edges, r.value, s, t, maxDepth)
                    && |r.value| - 1 == n + 1 && near.seen(reach.a) + far.seen(reach.b) <= maxVisited)
    && (r.None? ==> || !WithinReach(edges, s, t, maxDepth)
                    || (n < maxDepth && near.seen(reach.a) + far.seen(reach.b) > maxVisited))
  }

  lemma Conclude(edges: Edges, adj: Adjacency, s: Node, t: Node, near: Side, far: Side, maxDepth: int, maxVisited: int,
                 n: nat, reach: Reach, r: Option<seq<Node>>)
    requires Represents(adj, edges) && Ball(adj, s, reach.a) !! Ball(adj, t, reach.b) && n == reach.a + reach.b
    requires r.Some? ==> && n < maxDepth && IsShortestPath(edges, r.value, s, t, reach.a + reach.b + 1)
                         && near.seen(reach.a) + far.seen(reach.b) <= maxVisited
    requires r.None? ==> n >= maxDepth || !WithinReach(edges, s, t, maxDepth) || near.seen(reach.a) + far.seen(reach.b) > maxVisited
    ensures Concluded(edges, adj, s, t, near, far, maxDepth, maxVisited, n, reach, r)
  {
    if r.Some? {
      ShortWalkMeets(edges, adj, r.value, s, t, reach.a, reach.b);
    } else if n >= maxDepth {
      ExhaustedIsOutOfReach(edges, adj, s, t, reach.a, reach.b, maxDepth);
    }
  }

  lemma ApartBalls(adj: Adjacency, s: Node, t: Node, a: nat, b: nat, front: seq<Node>, back: seq<Node>,
                   forward: Parents, backward: Parents, rankF: map<Node, nat>, rankB: map<Node, nat>)
    requires Apart(adj, s, t, a, b, front, back, forward, backward, rankF, rankB)
    ensures Ball(adj, s, a) !! Ball(adj, t, b)
  {
  }

  /** `n` levels are finished, the sides are where the schedule puts them, and they are apart. */
  ghost predicate AtLevel(adj: Adjacency, s: Node, t: Node, radii: nat -> Reach, n: nat, reach: Reach,
                          front: seq<Node>, back: seq<Node>, forward: Parents, backward: Parents,
                          rankF: map<Node, nat>, rankB: map<Node, nat>)
  {
    && reach == radii(n) && n == reach.a + reach.b
    && Apart(adj, s, t, reach.a, reach.b, front, back, forward, backward, rankF, rankB)
  }

  lemma SearchStarts(adj: Adjacency, s: Node, t: Node, near: Side, far: Side, radii: nat -> Reach)
    requires s != t && Follows(near, far, radii)
    ensures AtLevel(adj, s, t, radii, 0, Reach(0, 0), [s], [t], map[s := None], map[t := None], map[s := 0], map[t := 0])
  {
    StartLevel(adj, s);
    StartLevel(adj, t);
  }

  lemma DepthUsedUp(edges: Edges, adj: Adjacency, s: Node, t: Node, near: Side, far: Side, radii: nat -> Reach, n: nat, reach: Reach,
                    maxDepth: int, maxVisited: int, front: seq<Node>, back: seq<Node>, forward: Parents, backward: Parents,
                    rankF: map<Node, nat>, rankB: map<Node, nat>)
    requires Represents(adj, edges) && n >= maxDepth
    requires AtLevel(adj, s, t, radii, n, reach, front, back, forward, backward, rankF, rankB)
    ensures n == reach.a + reach.b && reach == radii(n)
    ensures Concluded(edges, adj, s, t, near, far, maxDepth, maxVisited, n, reach, None)
  {
    Conclude(edges, adj, s, t, near, far, maxDepth, maxVisited, n, reach, None);
  }

  /** The depth loop; `n` levels were finished when the last one started, with the two sides at `radii(n)`. */
  method SearchLevels(edges: Edges, adj: Adjacency, source: Node, target: Node, maxDepth: int, maxVisited: int,
                      ghost near: Side, ghost far: Side, ghost radii: nat -> Reach)
    returns (r: Option<seq<Node>>, ghost n: nat, ghost reach: Reach)
    requires Represents(adj, edges) && source != target
    requires Measures(near, adj, source) && Measures(far, adj, target) && Follows(near, far, radii)
    ensures n == reach.a + reach.b && reach == radii(n)
    ensures Concluded(edges, adj, source, target, near, far, maxDepth, maxVisited, n, reach, r)
  {
    hide Apart;
    var forward: Parents, backward: Parents := map[source := None], map[target := None];
    var front, back := [source], [target];
    reach := Reach(0, 0);
    ghost var rankF: map<Node, nat>, rankB: map<Node, nat> := map[source := 0], map[target := 0];
    SearchStarts(adj, source, target, near, far, radii);
    var depth: nat := 0;
    while depth < maxDepth
      invariant AtLevel(adj, source, target, radii, depth, reach, front, back, forward, backward, rankF, rankB)
    {
      var outcome, front', back', forward', backward';
      ghost var a, b, rankF', rankB';
      outcome, a, b, front', back', forward', backward', rankF', rankB' :=
        SearchLevel(edges, adj, source, target, reach.a, reach.b, maxVisited, front, back, forward, backward, rankF, rankB);
      LevelEnds(edges, adj, source, target, near, far, radii, depth, reach, maxDepth, maxVisited,
                front, back, forward, backward, rankF, rankB, outcome, Reach(a, b),
                front', back', forward', backward', rankF', rankB');
      if !outcome.Continue? {
        return Answer(outcome), depth, reach;
      }
      front, back, forward, backward, rankF, rankB := front', back', forward', backward', rankF', rankB';
      reach, depth := Reach(a, b), depth + 1;
    }
    DepthUsedUp(edges, adj, source, target, near, far, radii, depth, reach, maxDepth, maxVisited,
                front, back, forward, backward, rankF, rankB);
    return None, depth, reach;
  }

  /** What a level that started with these collections, and ended like this, says about the whole search. */
  lemma LevelEnds(edges: Edges, adj: Adjacency, s: Node, t: Node, near: Side, far: Side, radii: nat -> Reach, n: nat, reach: Reach,
                  maxDepth: int, maxVisited: int, front: seq<Node>, back: seq<Node>, forward: Parents, backward: Parents,
                  rankF: map<Node, nat>, rankB: map<Node, nat>, outcome: Outcome, next: Reach, front': seq<Node>, back': seq<Node>,
                  forward': Parents, backward': Parents, rankF': map<Node, nat>, rankB': map<Node, nat>)
    requires Represents(adj, edges) && Measures(near, adj, s) && Measures(far, adj, t) && Follows(near, far, radii)
    requires AtLevel(adj, s, t, radii, n, reach, front, back, forward, backward, rankF, rankB) && n < maxDepth
    requires outcome.GiveUp? <==> front == [] || back == [] || |forward| + |backward| > maxVisited
    requires !outcome.GiveUp? ==>
               && (if |front| <= |back| then next.a == reach.a + 1 && next.b == reach.b else next.a == reach.a && next.b == reach.b + 1)
               && Advanced(edges, adj, s, t, reach.a + reach.b + 1, outcome, next.a, next.b, front', back', forward', backward', rankF', rankB')
    ensures outcome.Continue? ==> AtLevel(adj, s, t, radii, n + 1, next, front', back', forward', backward', rankF', rankB')
    ensures !outcome.Continue? ==> n == reach.a + reach.b && reach == radii(n)
    ensures !outcome.Continue? ==> Concluded(edges, adj, s, t, near, far, maxDepth, maxVisited, n, reach, Answer(outcome))
  {
    hide Level;
    LevelCounts(adj, s, reach.a, front, forward, rankF, near);
    LevelCounts(adj, t, reach.b, back, backward, rankB, far);
    ApartBalls(adj, s, t, reach.a, reach.b, front, back, forward, backward, rankF, rankB);
    if outcome.Continue? {
      NextReach(near, far, radii, n, |front|, |back|);
    } else {
      if front == [] || back == [] {
        ExhaustedIsOutOfReach(edges, adj, s, t, reach.a, reach.b, maxDepth);
      }
      Conclude(edges, adj, s, t, near, far, maxDepth, maxVisited, n, reach, Answer(outcome));
    }
  }

  lemma NextReach(near: Side, far: Side, radii: nat -> Reach, n: nat, front: nat, back: nat)
    requires Follows(near, far, radii) && front == near.rim(radii(n).a) && back == far.rim(radii(n).b)
    ensures radii(n + 1) == if front <= back then Reach(radii(n).a + 1, radii(n).b) else Reach(radii(n).a, radii(n).b + 1)
  {
    assert radii(n + 1) == Expanded(near, far, radii(n));
  }

  /** What the conclusion of the search means for its answer. */
  lemma ConclusionIsExact(edges: Edges, adj: Adjacency, near: Side, far: Side, s: Node, t: Node, maxDepth: int, maxVisited: int,
                          n: nat, reach: Reach, r: Option<seq<Node>>)
    requires Represents(adj, edges) && Measures(near, adj, s) && Measures(far, adj, t)
    requires n == reach.a + reach.b && SeenAt(near, far, n) == near.seen(reach.a) + far.seen(reach.b)
    requires Concluded(edges, adj, s, t, near, far, maxDepth, maxVisited, n, reach, r)
    ensures r.Some? <==> exists w :: Affordable(edges, near, far, s, t, maxDepth, maxVisited, w)
  {
    if r.Some? {
      FoundIsAffordable(edges, near, far, s, t, n, maxDepth, maxVisited, r.value);
    } else if WithinReach(edges, s, t, maxDepth) {
      GivingUpIsRight(edges, adj, near, far, s, t, reach.a, reach.b, n, maxDepth, maxVisited);
    } else {
      OutOfReachIsUnaffordable(edges, near, far, s, t, maxDepth, maxVisited);
    }
  }

  lemma RadiiFollow(near: Side, far: Side)
    ensures Follows(near, far, (n: nat) => Radii(near, far, n))
  {
  }

  method SearchFrom(edges: Edges, adj: Adjacency, source: Node, target: Node, maxDepth: int, maxVisited: int,
                    ghost near: Side, ghost far: Side)
    returns (r: Option<seq<Node>>, ghost n: nat, ghost reach: Reach)
    requires Represents(adj, edges) && source != target
    requires Measures(near, adj, source) && Measures(far, adj, target)
    ensures n == reach.a + reach.b && Concluded(edges, adj, source, target, near, far, maxDepth, maxVisited, n, reach, r)
    ensures r.Some? <==> exists w :: Affordable(edges, near, far, source, target, maxDepth, maxVisited, w)
  {
    RadiiFollow(near, far);
    r, n, reach := SearchLevels(edges, adj, source, target, maxDepth, maxVisited, near, far, (n: nat) => Radii(near, far, n));
    ConclusionIsExact(edges, adj, near, far, source, target, maxDepth, maxVisited, n, reach, r);
  }

  lemma FoundIsAffordable(edges: Edges, near: Side, far: Side, s: Node, t: Node,
                          n: nat, maxDepth: int, maxVisited: int, w: seq<Node>)
    requires IsShortestPath(edges, w, s, t, maxDepth) && |w| - 1 == n + 1 && SeenAt(near, far, n) <= maxVisited
    ensures exists w :: Affordable(edges, near, far, s, t, maxDepth, maxVisited, w)
  {
    assert Affordable(edges, near, far, s, t, maxDepth, maxVisited, w);
  }

  lemma StartLevel(adj: Adjacency, root: Node)
    ensures Level(adj, root, 0, [root], map[root := None], map[root := 0])
  {
  }

  lemma LevelCounts(adj: Adjacency, root: Node, k: nat, frontier: seq<Node>, seen: Parents, rank: map<Node, nat>, side: Side)
    requires Level(adj, root, k, frontier, seen, rank) && Measures(side, adj, root)
    ensures |seen| == side.seen(k) && |frontier| == side.rim(k)
    ensures frontier == [] <==> Layer(adj, root, k) == {}
  {
    NoDuplicatesCounts(frontier);
    assert |seen| == |seen.Keys|;
  }

  ghost function Vertices(edges: Edges): set<Node> {
    (set e | e in edges :: e.0) + (set e | e in edges :: e.1)
  }

  lemma {:induction false} BallWithin(edges: Edges, adj: Adjacency, root: Node, k: nat)
    requires Represents(adj, edges)
    ensures Ball(adj, root, k) <= Vertices(edges) + {root}
  {
    if k > 0 {
      BallWithin(edges, adj, root, k - 1);
      forall m | m in Around(adj, Ball(adj, root, k - 1))
        ensures m in Vertices(edges)
      {
        var n :| n in Ball(adj, root, k - 1) && m in Neighbours(adj, n);
        assert Linked(edges, n, m);
        if (n, m) in edges {
          assert (n, m).1 in Vertices(edges);
        } else {
          assert (m, n).0 in Vertices(edges);
        }
      }
    }
  }

  lemma SubsetCounts(small: set<Node>, big: set<Node>)
    requires small <= big
    ensures |small| <= |big|
  {
    assert big == small + (big - small);
  }

  lemma BallsCount(edges: Edges, adj: Adjacency, s: Node, t: Node, a: nat, b: nat)
    requires Represents(adj, edges) && Ball(adj, s, a) !! Ball(adj, t, b)
    ensures |Ball(adj, s, a)| + |Ball(adj, t, b)| <= |Vertices(edges) + {s, t}|
  {
    BallWithin(edges, adj, s, a);
    BallWithin(edges, adj, t, b);
    SubsetCounts(Ball(adj, s, a) + Ball(adj, t, b), Vertices(edges) + {s, t});
  }

  /** A graph with no more nodes than the cap is always searched to the end: every short enough pair has its answer. */
  lemma SmallGraphNeverCapped(edges: Edges, adj: Adjacency, near: Side, far: Side, s: Node, t: Node,
                              maxDepth: int, maxVisited: int, w: seq<Node>)
    requires Represents(adj, edges) && Measures(near, adj, s) && Measures(far, adj, t)
    requires s != t && |Vertices(edges) + {s, t}| <= maxVisited
    requires IsShortestPath(edges, w, s, t, maxDepth)
    ensures Affordable(edges, near, far, s, t, maxDepth, maxVisited, w)
  {
    var Reach(a, b) := Radii(near, far, |w| - 2);
    ShorterIsApart(edges, adj, s, t, w, a, b);
    BallsCount(edges, adj, s, t, a, b);
  }

  /** Below the distance the two balls have no node in common. */
  lemma ShorterIsApart(edges: Edges, adj: Adjacency, s: Node, t: Node, w: seq<Node>, a: nat, b: nat)
    requires Represents(adj, edges) && a + b < |w| - 1
    requires forall v :: Joins(edges, v, s, t) ==> |w| <= |v|
    ensures Ball(adj, s, a) !! Ball(adj, t, b)
  {
    if m :| m in Ball(adj, s, a) && m in Ball(adj, t, b) {
      var v := WalkThrough(edges, adj, s, t, a, b, m);
    }
  }

  lemma WalkThrough(edges: Edges, adj: Adjacency, s: Node, t: Node, a: nat, b: nat, m: Node) returns (v: seq<Node>)
    requires Represents(adj, edges) && m in Ball(adj, s, a) && m in Ball(adj, t, b)
    ensures Joins(edges, v, s, t) && |v| - 1 <= a + b
  {
    var up := BallHasWalk(edges, adj, s, a, m);
    var down := BallHasWalk(edges, adj, t, b, m);
    ReverseIsWalk(edges, down);
    JoinWalks(edges, up, Reverse(down));
    v := up + Reverse(down)[1..];
  }

  lemma JoinWalks(edges: Edges, u: seq<Node>, v: seq<Node>)
    requires IsWalk(edges, u) && IsWalk(edges, v) && u[|u| - 1] == v[0]
    ensures var w := u + v[1..]; IsWalk(edges, w) && w[0] == u[0] && w[|w| - 1] == v[|v| - 1] && |w| == |u| + |v| - 1
  {
    var w := u + v[1..];
    forall i | 0 <= i < |w| - 1
      ensures Linked(edges, w[i], w[i + 1])
    {
      if i + 1 < |u| {
        assert Linked(edges, u[i], u[i + 1]);
      } else {
        var j := i + 1 - |u|;
        assert Linked(edges, v[j], v[j + 1]);
      }
    }
  }
}
