/**
 Redundant transitive dependencies between packages (lib/check-redundant-deps.py).

 The search enumerates simple paths breadth-first and keeps the first path whose weakest
 edge is strongest. The theorems below say what that path is worth: it is a widest path,
 the shortest one among the widest, and an edge is reported exactly when deleting it
 changes no pair of packages' strength.
 */
module RedundantDeps {
  import opened Sequences

  type Pkg = string

  /** 1 = Suggest, 2 = Recommend, 3 = Dependency. */
  type Level = x: int | 1 <= x <= 3 witness 1

  type Graph = map<Pkg, map<Pkg, Level>>

  datatype Edge = Edge(from: Pkg, to: Pkg)

  /** An entry of the search queue. */
  datatype Item = Item(node: Pkg, path: seq<Pkg>, weakest: int)

  /** A line of the report. */
  datatype Report = Report(edge: Edge, level: int, strength: int, path: seq<Pkg>)

  predicate HasEdge(g: Graph, a: Pkg, b: Pkg) {
    a in g && b in g[a]
  }

  function LevelOf(g: Graph, a: Pkg, b: Pkg): int
    requires HasEdge(g, a, b)
  {
    g[a][b]
  }

  /** The graph without one edge. */
  function Without(g: Graph, e: Edge): Graph {
    if e.from in g then g[e.from := g[e.from] - {e.to}] else g
  }

  ghost predicate IsWalk(g: Graph, w: seq<Pkg>) {
    && |w| >= 1
    && forall i :: 0 <= i < |w| - 1 ==> HasEdge(g, w[i], w[i + 1])
  }

  ghost predicate WalkFrom(g: Graph, w: seq<Pkg>, u: Pkg, v: Pkg) {
    IsWalk(g, w) && w[0] == u && w[|w| - 1] == v
  }

  /** Every edge of the walk has at least level `s`. */
  ghost predicate Strong(g: Graph, w: seq<Pkg>, s: int)
    requires IsWalk(g, w)
  {
    forall i :: 0 <= i < |w| - 1 ==> LevelOf(g, w[i], w[i + 1]) >= s
  }

  /** The level of the weakest edge; 4, stronger than any edge, when there is none. */
  ghost function Strength(g: Graph, w: seq<Pkg>): int
    requires IsWalk(g, w)
    decreases |w|
  {
    if |w| == 1 then 4
    else Min(Strength(g, w[..|w| - 1]), LevelOf(g, w[|w| - 2], w[|w| - 1]))
  }

  /** Packages `v` can be reached from `u` along edges of level at least `s`. */
  ghost predicate Reaches(g: Graph, u: Pkg, v: Pkg, s: int) {
    exists w :: WalkFrom(g, w, u, v) && Strong(g, w, s)
  }

  /** `Strength` is the greatest `s` for which the walk is strong. */
  lemma {:induction false} StrengthMeaning(g: Graph, w: seq<Pkg>, s: int)
    requires IsWalk(g, w)
    ensures s <= 4 ==> (Strong(g, w, s) <==> s <= Strength(g, w))
    ensures 1 <= Strength(g, w) <= 4
    ensures |w| > 1 ==> Strength(g, w) <= 3
    decreases |w|
  {
    if |w| > 1 {
      var front := w[..|w| - 1];
      StrengthMeaning(g, front, s);
      assert HasEdge(g, w[|w| - 2], w[|w| - 1]);
      if s <= 4 && s <= Strength(g, w) {
        forall i | 0 <= i < |w| - 1
          ensures LevelOf(g, w[i], w[i + 1]) >= s
        {
          if i < |w| - 2 {
            assert front[i] == w[i] && front[i + 1] == w[i + 1];
          }
        }
      }
      if s <= 4 && Strong(g, w, s) {
        forall i | 0 <= i < |front| - 1
          ensures LevelOf(g, front[i], front[i + 1]) >= s
        {
          assert front[i] == w[i] && front[i + 1] == w[i + 1];
        }
        var last := |w| - 2;
        assert LevelOf(g, w[last], w[last + 1]) >= s;
      }
    }
  }

  /** Cutting the cycles out of a walk leaves a simple walk that is no weaker and no longer. */
  lemma {:induction false} CutCycles(g: Graph, w: seq<Pkg>, u: Pkg, v: Pkg, s: int) returns (p: seq<Pkg>)
    requires WalkFrom(g, w, u, v) && Strong(g, w, s)
    ensures WalkFrom(g, p, u, v) && Strong(g, p, s)
    ensures Distinct(p) && |p| <= |w|
    decreases |w|
  {
    if Distinct(w) {
      p := w;
    } else {
      var i, j :| 0 <= i < j < |w| && w[i] == w[j];
      var cut := w[..i] + w[j..];
      forall k | 0 <= k < |cut| - 1
        ensures HasEdge(g, cut[k], cut[k + 1]) && LevelOf(g, cut[k], cut[k + 1]) >= s
      {
        if k < i {
          assert cut[k] == w[k] && cut[k + 1] == w[k + 1];
        } else {
          var m := k - i + j;
          assert cut[k] == w[m] && cut[k + 1] == w[m + 1];
        }
      }
      p := CutCycles(g, cut, u, v, s);
    }
  }

  // ---------------------------------------------------------------- the search

  ghost function Nodes(g: Graph): set<Pkg> {
    g.Keys + set a, b | a in g && b in g[a] :: b
  }

  /** What the search looks for: a simple walk with at least one edge. */
  ghost predicate Candidate(g: Graph, p: seq<Pkg>, start: Pkg, target: Pkg) {
    WalkFrom(g, p, start, target) && Distinct(p) && |p| > 1
  }

  ghost predicate Honest(h: Graph, it: Item, start: Pkg) {
    && WalkFrom(h, it.path, start, it.node)
    && Distinct(it.path)
    && it.weakest == Strength(h, it.path)
  }

  /** Queued paths never get shorter, and differ by at most one edge: breadth-first order. */
  ghost predicate Layered(q: seq<Item>) {
    forall i, j :: 0 <= i <= j < |q| ==> |q[i].path| <= |q[j].path| <= |q[i].path| + 1
  }

  ghost predicate Covered(q: seq<Item>, p: seq<Pkg>) {
    exists k :: 0 <= k < |q| && q[k].path <= p
  }

  /** The best result so far is at least as good as the candidate `p`. */
  ghost predicate Beaten(h: Graph, p: seq<Pkg>, strength: int, best: seq<Pkg>)
    requires IsWalk(h, p)
  {
    Strength(h, p) < strength || (Strength(h, p) == strength && |best| <= |p|)
  }

  ghost predicate BestSoFar(h: Graph, start: Pkg, target: Pkg, strength: int, best: seq<Pkg>) {
    || (strength == 0 && best == [])
    || (Candidate(h, best, start, target) && strength == Strength(h, best) && strength > 0)
  }

  /** Bounds the work still caused by a path that `room` more nodes can extend. */
  ghost function Work(room: int, n: nat): nat
    decreases if room <= 0 then 0 else room
  {
    if room <= 0 then 1 else 1 + Times(n, Work(room - 1, n))
  }

  ghost function Times(k: nat, w: nat): nat {
    if k == 0 then 0 else w + Times(k - 1, w)
  }

  lemma {:induction false} TimesGrows(a: nat, b: nat, w: nat)
    requires a <= b
    ensures Times(a, w) <= Times(b, w)
  {
    if a < b {
      TimesGrows(a, b - 1, w);
    }
  }

  ghost function QueueWork(q: seq<Item>, n: nat): nat {
    if q == [] then 0 else Work(n - |q[0].path|, n) + QueueWork(q[1..], n)
  }

  lemma {:induction false} QueueWorkSnoc(q: seq<Item>, it: Item, n: nat)
    ensures QueueWork(q + [it], n) == QueueWork(q, n) + Work(n - |it.path|, n)
  {
    if q == [] {
      assert q + [it] == [it];
    } else {
      assert (q + [it])[1..] == q[1..] + [it];
      QueueWorkSnoc(q[1..], it, n);
    }
  }

  lemma WorkShrinks(room: int, n: nat, degree: nat)
    requires degree <= n && room > 0
    ensures Times(degree, Work(room - 1, n)) < Work(room, n)
  {
    TimesGrows(degree, n, Work(room - 1, n));
  }

  /** graph.get(node, {}) */
  function Neighbours(g: Graph, a: Pkg): set<Pkg> {
    if a in g then g[a].Keys else {}
  }

  lemma DegreeBound(g: Graph, a: Pkg)
    ensures |Neighbours(g, a)| <= |Nodes(g)|
  {
    SubsetSize(Neighbours(g, a), Nodes(g));
  }

  lemma WalkStaysInside(g: Graph, w: seq<Pkg>)
    requires IsWalk(g, w) && w[0] in g
    ensures forall x :: x in w ==> x in Nodes(g)
  {
    forall x | x in w
      ensures x in Nodes(g)
    {
      var i :| 0 <= i < |w| && w[i] == x;
      if i > 0 {
        assert HasEdge(g, w[i - 1], w[i - 1 + 1]);
      }
    }
  }

  /** A candidate that runs through a queued path takes one of its onward edges next. */
  lemma NextHop(h: Graph, it: Item, p: seq<Pkg>, start: Pkg, target: Pkg)
    requires Honest(h, it, start) && Candidate(h, p, start, target) && it.path <= p
    ensures it.node == target && |it.path| > 1 ==> p == it.path
    ensures it.node != target ==>
              |it.path| < |p| && HasEdge(h, it.node, p[|it.path|]) && p[|it.path|] !in it.path
  {
  }

  /** Removing the head of the queue uncovers only the candidates that run through it. */
  lemma CoveredRest(q: seq<Item>, p: seq<Pkg>)
    requires q != [] && Covered(q, p) && !(q[0].path <= p)
    ensures Covered(q[1..], p)
  {
  }

  /**
   The answer of the search: a widest walk of at least one edge that avoids `exclude`, simple,
   and shortest among the widest; nothing exactly when there is no such walk. A search from a
   package to itself finds nothing, because no neighbour already on the path is followed.
   */
  ghost predicate Widest(g: Graph, exclude: Edge, start: Pkg, target: Pkg, strength: int, path: seq<Pkg>) {
    var h := Without(g, exclude);
    if start == target || !exists w :: WalkFrom(h, w, start, target) then
      strength == 0 && path == []
    else
      && Candidate(h, path, start, target)
      && strength == Strength(h, path)
      && forall w :: WalkFrom(h, w, start, target) ==> Beaten(h, w, strength, path)
  }

  ghost predicate Queued(q: seq<Item>, path: seq<Pkg>) {
    exists k :: 0 <= k < |q| && q[k].path == path
  }

  lemma QueuedSnoc(q: seq<Item>, it: Item, path: seq<Pkg>)
    requires Queued(q, path) || it.path == path
    ensures Queued(q + [it], path)
  {
    if Queued(q, path) {
      var k :| 0 <= k < |q| && q[k].path == path;
      assert (q + [it])[k] == q[k];
    } else {
      assert (q + [it])[|q|] == it;
    }
  }

  /** The entries that expanding `it` has put behind `rest`. */
  ghost predicate Offspring(h: Graph, rest: seq<Item>, q: seq<Item>, it: Item, start: Pkg) {
    && rest <= q
    && forall k :: |rest| <= k < |q| ==> Honest(h, q[k], start) && |q[k].path| == |it.path| + 1
  }

  lemma PushOffspring(h: Graph, rest: seq<Item>, q: seq<Item>, it: Item, start: Pkg, b: Pkg)
    requires Offspring(h, rest, q, it, start) && Honest(h, it, start) && HasEdge(h, it.node, b) && b !in it.path
    ensures Offspring(h, rest, q + [Item(b, it.path + [b], Min(it.weakest, LevelOf(h, it.node, b)))], it, start)
  {
  }

  /** The cost of queueing one more neighbour is paid by the neighbour that is no longer left. */
  lemma OneFewer(left: set<Pkg>, b: Pkg, w: nat)
    requires b in left
    ensures Times(|left|, w) == Times(|left - {b}|, w) + w
  {
  }

  /** Every usable onward edge outside `left` has been followed. */
  ghost predicate Followed(h: Graph, q: seq<Item>, it: Item, left: set<Pkg>) {
    forall b :: HasEdge(h, it.node, b) && b !in it.path && b !in left ==> Queued(q, it.path + [b])
  }

  lemma FollowOne(h: Graph, q: seq<Item>, it: Item, left: set<Pkg>, next: Item)
    requires Followed(h, q, it, left) && next.path == it.path + [next.node]
    ensures Followed(h, q + [next], it, left - {next.node})
  {
    forall c | HasEdge(h, it.node, c) && c !in it.path && c !in left - {next.node}
      ensures Queued(q + [next], it.path + [c])
    {
      QueuedSnoc(q, next, it.path + [c]);
    }
  }

  /** A neighbour that is not followed is the excluded edge or already on the path. */
  lemma SkipOne(g: Graph, exclude: Edge, q: seq<Item>, it: Item, left: set<Pkg>, b: Pkg)
    requires Followed(Without(g, exclude), q, it, left)
    requires Edge(it.node, b) == exclude || b in it.path
    ensures Followed(Without(g, exclude), q, it, left - {b})
  {
  }

  /** The state of the loop over the neighbours, those in `left` still to come. */
  ghost predicate Expanding(g: Graph, exclude: Edge, it: Item, rest: seq<Item>, q: seq<Item>,
                            start: Pkg, left: set<Pkg>)
  {
    && Offspring(Without(g, exclude), rest, q, it, start)
    && Followed(Without(g, exclude), q, it, left)
    && var n := |Nodes(g)|;
      && (n == |it.path| ==> q == rest)
      && var w := Work(n - |it.path| - 1, n);
         QueueWork(q, n) + Times(|left|, w) <= QueueWork(rest, n) + Times(|Neighbours(g, it.node)|, w)
  }

  function Extended(g: Graph, it: Item, b: Pkg): Item
    requires HasEdge(g, it.node, b)
  {
    Item(b, it.path + [b], Min(it.weakest, g[it.node][b]))
  }

  lemma ExpandPush(g: Graph, exclude: Edge, it: Item, rest: seq<Item>, q: seq<Item>, start: Pkg, left: set<Pkg>, b: Pkg)
    requires HasEdge(g, it.node, b) && start in g && Honest(Without(g, exclude), it, start)
    requires Expanding(g, exclude, it, rest, q, start, left) && b in left
    requires Edge(it.node, b) != exclude && b !in it.path
    ensures Expanding(g, exclude, it, rest, q + [Extended(g, it, b)], start, left - {b})
  {
    var h, n, next := Without(g, exclude), |Nodes(g)|, Extended(g, it, b);
    HonestFits(g, exclude, it, start);
    OneFewer(left, b, Work(n - |it.path| - 1, n));
    PushOffspring(h, rest, q, it, start, b);
    QueueWorkSnoc(q, next, n);
    FollowOne(h, q, it, left, next);
  }

  lemma ExpandSkip(g: Graph, exclude: Edge, it: Item, rest: seq<Item>, q: seq<Item>, start: Pkg, left: set<Pkg>, b: Pkg)
    requires Expanding(g, exclude, it, rest, q, start, left) && b in left
    requires Edge(it.node, b) == exclude || b in it.path
    ensures Expanding(g, exclude, it, rest, q, start, left - {b})
  {
    OneFewer(left, b, Work(|Nodes(g)| - |it.path| - 1, |Nodes(g)|));
    SkipOne(g, exclude, q, it, left, b);
  }

  /** Once every neighbour is done, the queue stands for less work than with the dequeued path. */
  lemma ExpandDone(g: Graph, exclude: Edge, it: Item, rest: seq<Item>, q: seq<Item>, start: Pkg)
    requires start in g && Honest(Without(g, exclude), it, start)
    requires Expanding(g, exclude, it, rest, q, start, {})
    ensures QueueWork(q, |Nodes(g)|) < QueueWork(rest, |Nodes(g)|) + Work(|Nodes(g)| - |it.path|, |Nodes(g)|)
  {
    HonestFits(g, exclude, it, start);
    var room := |Nodes(g)| - |it.path|;
    if room > 0 {
      DegreeBound(g, it.node);
      WorkShrinks(room, |Nodes(g)|, |Neighbours(g, it.node)|);
    }
  }

  /** The loop over the neighbours of a dequeued path: every usable onward edge is queued once. */
  method Expand(g: Graph, exclude: Edge, it: Item, rest: seq<Item>, ghost start: Pkg) returns (q: seq<Item>)
    requires start in g
    requires Honest(Without(g, exclude), it, start)
    ensures Offspring(Without(g, exclude), rest, q, it, start)
    ensures Followed(Without(g, exclude), q, it, {})
    ensures QueueWork(q, |Nodes(g)|) < QueueWork(rest, |Nodes(g)|) + Work(|Nodes(g)| - |it.path|, |Nodes(g)|)
  {
    q := rest;
    var left := Neighbours(g, it.node);
    while left != {}
      invariant left <= Neighbours(g, it.node)
      invariant Expanding(g, exclude, it, rest, q, start, left)
    {
      var b :| b in left;
      if Edge(it.node, b) != exclude && b !in it.path {
        ExpandPush(g, exclude, it, rest, q, start, left, b);
        q := q + [Extended(g, it, b)];
      } else {
        ExpandSkip(g, exclude, it, rest, q, start, left, b);
      }
      left := left - {b};
    }
    ExpandDone(g, exclude, it, rest, q, start);
  }

  lemma HonestFits(g: Graph, exclude: Edge, it: Item, start: Pkg)
    requires start in g && Honest(Without(g, exclude), it, start)
    ensures |it.path| <= |Nodes(g)|
    ensures |it.path| == |Nodes(g)| ==> forall b :: b in Neighbours(g, it.node) ==> b in it.path
  {
    var h := Without(g, exclude);
    assert Nodes(h) <= Nodes(g);
    WalkStaysInside(h, it.path);
    DistinctFits(it.path, Nodes(g));
  }

  /** Once nothing is queued, the best candidate beats every walk. */
  lemma Conclude(g: Graph, exclude: Edge, start: Pkg, target: Pkg, strength: int, path: seq<Pkg>)
    requires BestSoFar(Without(g, exclude), start, target, strength, path)
    requires forall p :: Candidate(Without(g, exclude), p, start, target) ==>
               Beaten(Without(g, exclude), p, strength, path)
    ensures Widest(g, exclude, start, target, strength, path)
    ensures 0 <= strength <= 3
  {
    var h := Without(g, exclude);
    if strength > 0 {
      StrengthMeaning(h, path, 1);
    }
    if start != target {
      forall w | WalkFrom(h, w, start, target)
        ensures Beaten(h, w, strength, path) && strength > 0
      {
        StrengthMeaning(h, w, Strength(h, w));
        var p := CutCycles(h, w, start, target, Strength(h, w));
        StrengthMeaning(h, p, Strength(h, w));
        assert Candidate(h, p, start, target);
      }
    }
  }

  /** Every candidate is still to be found through the queue, or no better than what was found. */
  ghost predicate Accounted(h: Graph, q: seq<Item>, start: Pkg, target: Pkg, strength: int, path: seq<Pkg>) {
    forall p :: Candidate(h, p, start, target) ==> Covered(q, p) || Beaten(h, p, strength, path)
  }

  ghost predicate Orderly(h: Graph, q: seq<Item>, start: Pkg, path: seq<Pkg>) {
    && Layered(q)
    && forall k :: 0 <= k < |q| ==> Honest(h, q[k], start) && |path| <= |q[k].path|
  }

  /** The invariant of the search. */
  ghost predicate Searching(h: Graph, q: seq<Item>, start: Pkg, target: Pkg, strength: int, path: seq<Pkg>) {
    && Orderly(h, q, start, path)
    && BestSoFar(h, start, target, strength, path)
    && Accounted(h, q, start, target, strength, path)
  }

  /** Dequeuing a path that has arrived. */
  lemma Arrive(h: Graph, q: seq<Item>, start: Pkg, target: Pkg, strength: int, path: seq<Pkg>)
    requires q != [] && Searching(h, q, start, target, strength, path)
    requires q[0].node == target && |q[0].path| > 1
    ensures q[0].weakest > strength ==> Searching(h, q[1..], start, target, q[0].weakest, q[0].path)
    ensures q[0].weakest <= strength ==> Searching(h, q[1..], start, target, strength, path)
  {
    var better := q[0].weakest > strength;
    var strength', path' := if better then q[0].weakest else strength, if better then q[0].path else path;
    StrengthMeaning(h, q[0].path, 1);
    forall p | Candidate(h, p, start, target)
      ensures Covered(q[1..], p) || Beaten(h, p, strength', path')
    {
      if Covered(q, p) {
        if q[0].path <= p {
          NextHop(h, q[0], p, start, target);
        } else {
          CoveredRest(q, p);
        }
      }
    }
  }

  /** Dequeuing a path that is still on its way, and queueing its extensions, keeps breadth-first order. */
  lemma AdvanceInOrder(h: Graph, q: seq<Item>, q': seq<Item>, start: Pkg, path: seq<Pkg>)
    requires q != [] && Orderly(h, q, start, path) && Offspring(h, q[1..], q', q[0], start)
    ensures Orderly(h, q', start, path)
  {
  }

  /** ... and loses no candidate. */
  lemma AdvanceCovers(h: Graph, q: seq<Item>, q': seq<Item>, p: seq<Pkg>, start: Pkg, target: Pkg)
    requires q != [] && Honest(h, q[0], start) && Candidate(h, p, start, target) && Covered(q, p)
    requires !(q[0].node == target && |q[0].path| > 1)
    requires q[1..] <= q'
    requires Followed(h, q', q[0], {})
    ensures Covered(q', p)
  {
    if q[0].path <= p {
      NextHop(h, q[0], p, start, target);
      var hop := p[|q[0].path|];
      var k :| 0 <= k < |q'| && q'[k].path == q[0].path + [hop];
      assert q'[k].path <= p;
    } else {
      CoveredRest(q, p);
      var k :| 0 <= k < |q[1..]| && q[1..][k].path <= p;
      assert q'[k] == q[1..][k];
    }
  }

  lemma Advance(h: Graph, q: seq<Item>, q': seq<Item>, start: Pkg, target: Pkg, strength: int, path: seq<Pkg>)
    requires q != [] && Searching(h, q, start, target, strength, path)
    requires !(q[0].node == target && |q[0].path| > 1)
    requires Offspring(h, q[1..], q', q[0], start)
    requires Followed(h, q', q[0], {})
    ensures Searching(h, q', start, target, strength, path)
  {
    AdvanceInOrder(h, q, q', start, path);
    forall p | Candidate(h, p, start, target)
      ensures Covered(q', p) || Beaten(h, p, strength, path)
    {
      if Covered(q, p) {
        AdvanceCovers(h, q, q', p, start, target);
      }
    }
  }

  lemma Begin(h: Graph, start: Pkg, target: Pkg)
    ensures Searching(h, [Item(start, [start], 4)], start, target, 0, [])
  {
    var q := [Item(start, [start], 4)];
    forall p | Candidate(h, p, start, target)
      ensures Covered(q, p)
    {
      assert q[0].path <= p;
    }
  }

  lemma Stranded(g: Graph, exclude: Edge, start: Pkg, target: Pkg)
    requires start !in g
    ensures Widest(g, exclude, start, target, 0, [])
  {
    var h := Without(g, exclude);
    forall w | WalkFrom(h, w, start, target)
      ensures start == target
    {
      if |w| > 1 {
        assert HasEdge(h, w[0], w[0 + 1]);
      }
    }
  }

  /** One round of the search: the oldest path has arrived, or its extensions are queued. */
  method Round(g: Graph, exclude: Edge, start: Pkg, target: Pkg, q: seq<Item>, strength: int, path: seq<Pkg>)
    returns (q': seq<Item>, strength': int, path': seq<Pkg>)
    requires start in g && q != [] && Searching(Without(g, exclude), q, start, target, strength, path)
    ensures Searching(Without(g, exclude), q', start, target, strength', path')
    ensures QueueWork(q', |Nodes(g)|) < QueueWork(q, |Nodes(g)|)
  {
    var it := q[0];
    strength', path' := strength, path;
    if it.node == target && |it.path| > 1 {
      Arrive(Without(g, exclude), q, start, target, strength, path);
      if it.weakest > strength {
        strength', path' := it.weakest, it.path;
      }
      q' := q[1..];
    } else {
      q' := Expand(g, exclude, it, q[1..], start);
      Advance(Without(g, exclude), q, q', start, target, strength, path);
    }
  }

  method BestPath(start: Pkg, target: Pkg, g: Graph, exclude: Edge) returns (strength: int, path: seq<Pkg>)
    ensures Widest(g, exclude, start, target, strength, path)
    ensures 0 <= strength <= 3
  {
    if start !in g {
      Stranded(g, exclude, start, target);
      return 0, [];
    }
    var q := [Item(start, [start], 4)];
    strength, path := 0, [];
    Begin(Without(g, exclude), start, target);
    while q != []
      invariant Searching(Without(g, exclude), q, start, target, strength, path)
      decreases QueueWork(q, |Nodes(g)|)
    {
      q, strength, path := Round(g, exclude, start, target, q, strength, path);
    }
    Conclude(g, exclude, start, target, strength, path);
  }

  // ---------------------------------------------------------------- what "redundant" means

  /** Some other way round is at least as strong as the edge itself. */
  ghost predicate HasDetour(g: Graph, e: Edge)
    requires HasEdge(g, e.from, e.to)
  {
    Reaches(Without(g, e), e.from, e.to, LevelOf(g, e.from, e.to))
  }

  /** In `h`, every package still reaches every other one just as strongly as in `g`. */
  ghost predicate SameStrengths(g: Graph, h: Graph) {
    forall u, v, s :: Reaches(h, u, v, s) <==> Reaches(g, u, v, s)
  }

  ghost predicate Harmless(g: Graph, e: Edge) {
    SameStrengths(g, Without(g, e))
  }

  /** Every edge of `h` is an edge of `g` with the same level. */
  ghost predicate PartOf(h: Graph, g: Graph) {
    forall a, b :: HasEdge(h, a, b) ==> HasEdge(g, a, b) && LevelOf(h, a, b) == LevelOf(g, a, b)
  }

  /** For every edge of `g` there is a way in `h` that is as strong. */
  ghost predicate Bridged(g: Graph, h: Graph) {
    forall a, b :: HasEdge(g, a, b) ==> Reaches(h, a, b, LevelOf(g, a, b))
  }

  lemma JoinWalks(g: Graph, w: seq<Pkg>, d: seq<Pkg>, u: Pkg, m: Pkg, v: Pkg, s: int)
    requires WalkFrom(g, w, u, m) && Strong(g, w, s)
    requires WalkFrom(g, d, m, v) && Strong(g, d, s)
    ensures WalkFrom(g, w + d[1..], u, v) && Strong(g, w + d[1..], s)
  {
  }

  lemma EdgeReaches(g: Graph, a: Pkg, b: Pkg)
    requires HasEdge(g, a, b)
    ensures Reaches(g, a, b, LevelOf(g, a, b))
  {
    var w := [a, b];
    assert WalkFrom(g, w, a, b) && Strong(g, w, LevelOf(g, a, b));
  }

  lemma ReachesVia(g: Graph, u: Pkg, m: Pkg, v: Pkg, s: int)
    requires Reaches(g, u, m, s) && Reaches(g, m, v, s)
    ensures Reaches(g, u, v, s)
  {
    var w :| WalkFrom(g, w, u, m) && Strong(g, w, s);
    var d :| WalkFrom(g, d, m, v) && Strong(g, d, s);
    JoinWalks(g, w, d, u, m, v, s);
  }

  lemma WeakerReaches(g: Graph, u: Pkg, v: Pkg, s: int, t: int)
    requires Reaches(g, u, v, s) && t <= s
    ensures Reaches(g, u, v, t)
  {
  }

  /** Splices a way round into a walk at each of its steps. */
  lemma {:induction false} Reroute(h: Graph, w: seq<Pkg>, s: int)
    requires |w| >= 1 && forall i :: 0 <= i < |w| - 1 ==> Reaches(h, w[i], w[i + 1], s)
    ensures Reaches(h, w[0], w[|w| - 1], s)
    decreases |w|
  {
    if |w| == 1 {
      assert WalkFrom(h, w, w[0], w[0]) && Strong(h, w, s);
    } else {
      var k := |w| - 2;
      var front := w[..k + 1];
      assert forall i {:trigger front[i]} :: 0 <= i < k ==> Reaches(h, w[i], w[i + 1], s);
      Reroute(h, front, s);
      assert Reaches(h, w[k], w[k + 1], s);
      ReachesVia(h, w[0], w[k], w[k + 1], s);
    }
  }

  /** Taking edges away changes no strength if and only if there is a way round each of them. */
  lemma BridgedIffSame(g: Graph, h: Graph)
    requires PartOf(h, g)
    ensures Bridged(g, h) <==> SameStrengths(g, h)
  {
    if Bridged(g, h) {
      forall u, v, s
        ensures Reaches(h, u, v, s) <==> Reaches(g, u, v, s)
      {
        if Reaches(g, u, v, s) {
          var w :| WalkFrom(g, w, u, v) && Strong(g, w, s);
          forall i | 0 <= i < |w| - 1
            ensures Reaches(h, w[i], w[i + 1], s)
          {
            WeakerReaches(h, w[i], w[i + 1], LevelOf(g, w[i], w[i + 1]), s);
          }
          Reroute(h, w, s);
        }
        if Reaches(h, u, v, s) {
          var w :| WalkFrom(h, w, u, v) && Strong(h, w, s);
          assert WalkFrom(g, w, u, v) && Strong(g, w, s);
        }
      }
    }
    if SameStrengths(g, h) {
      forall a, b | HasEdge(g, a, b)
        ensures Reaches(h, a, b, LevelOf(g, a, b))
      {
        EdgeReaches(g, a, b);
      }
    }
  }

  /**
   The documented rule is exactly the right one: an edge has a detour through other edges of at
   least its level if and only if deleting it changes the strength between no two packages.
   */
  lemma DetourIffHarmless(g: Graph, e: Edge)
    requires HasEdge(g, e.from, e.to)
    ensures HasDetour(g, e) <==> Harmless(g, e)
  {
    var h := Without(g, e);
    BridgedIffSame(g, h);
    forall a, b | HasEdge(g, a, b) && Edge(a, b) != e
      ensures Reaches(h, a, b, LevelOf(g, a, b))
    {
      EdgeReaches(h, a, b);
    }
  }

  /** What the strength of the best path decides about the edge it was searched for. */
  lemma StrengthDecides(g: Graph, e: Edge, strength: int, path: seq<Pkg>)
    requires HasEdge(g, e.from, e.to)
    requires Widest(g, e, e.from, e.to, strength, path)
    ensures strength >= LevelOf(g, e.from, e.to) <==> e.from != e.to && HasDetour(g, e)
  {
    var h, level := Without(g, e), LevelOf(g, e.from, e.to);
    if strength >= level {
      StrengthMeaning(h, path, level);
      assert WalkFrom(h, path, e.from, e.to) && Strong(h, path, level);
    }
    if e.from != e.to && HasDetour(g, e) {
      var w :| WalkFrom(h, w, e.from, e.to) && Strong(h, w, level);
      StrengthMeaning(h, w, level);
      assert Beaten(h, w, strength, path);
    }
  }

  ghost predicate Reported(out: seq<Report>, e: Edge) {
    exists k :: 0 <= k < |out| && out[k].edge == e
  }

  ghost function ReportedEdges(out: seq<Report>): set<Edge> {
    set r | r in out :: r.edge
  }

  ghost predicate Passed(e: Edge, pkgs: set<Pkg>, pkg: Pkg, deps: set<Pkg>) {
    e.from !in pkgs && (e.from == pkg ==> e.to !in deps)
  }

  ghost predicate OncePerEdge(out: seq<Report>) {
    forall i, j :: 0 <= i < j < |out| ==> out[i].edge != out[j].edge
  }

  /** The edges of the report whose turn has come. */
  ghost predicate ReportExact(g: Graph, out: seq<Report>, pkgs: set<Pkg>, pkg: Pkg, deps: set<Pkg>) {
    && (forall k :: 0 <= k < |out| ==> ReportTrue(g, out[k]) && Passed(out[k].edge, pkgs, pkg, deps))
    && OncePerEdge(out)
    && forall a, b :: HasEdge(g, a, b) && Passed(Edge(a, b), pkgs, pkg, deps) && a != b && Harmless(g, Edge(a, b)) ==>
         Reported(out, Edge(a, b))
  }

  /** A line of the report names a harmless edge between two packages, and shows a widest way round it. */
  ghost predicate ReportTrue(g: Graph, r: Report) {
    && HasEdge(g, r.edge.from, r.edge.to) && r.edge.from != r.edge.to
    && Harmless(g, r.edge)
    && r.level == LevelOf(g, r.edge.from, r.edge.to) <= r.strength
    && Widest(g, r.edge, r.edge.from, r.edge.to, r.strength, r.path)
  }

  lemma ReportedSnoc(out: seq<Report>, r: Report, e: Edge)
    requires Reported(out, e) || r.edge == e
    ensures Reported(out + [r], e)
  {
    if Reported(out, e) {
      var k :| 0 <= k < |out| && out[k].edge == e;
      assert (out + [r])[k] == out[k];
    } else {
      assert (out + [r])[|out|] == r;
    }
  }

  /** What one decision does to the report. */
  ghost predicate Decided(g: Graph, e: Edge, out: seq<Report>, out': seq<Report>) {
    && (out' == out || (exists r: Report :: r.edge == e && ReportTrue(g, r) && out' == out + [r]))
    && (Reported(out', e) || e.from == e.to || !Harmless(g, e))
  }

  lemma EnterPackage(g: Graph, out: seq<Report>, pkgs: set<Pkg>, pkg: Pkg)
    requires pkg in pkgs && pkgs <= g.Keys && ReportExact(g, out, pkgs, "", {})
    ensures ReportExact(g, out, pkgs - {pkg}, pkg, g[pkg].Keys)
  {
  }

  lemma LeavePackage(g: Graph, out: seq<Report>, pkgs: set<Pkg>, pkg: Pkg)
    requires ReportExact(g, out, pkgs, pkg, {})
    ensures ReportExact(g, out, pkgs, "", {})
  {
  }

  lemma DecideOne(g: Graph, out: seq<Report>, out': seq<Report>, pkgs: set<Pkg>, pkg: Pkg, deps: set<Pkg>, dep: Pkg)
    requires ReportExact(g, out, pkgs, pkg, deps) && pkg !in pkgs && dep in deps
    requires Decided(g, Edge(pkg, dep), out, out')
    ensures ReportExact(g, out', pkgs, pkg, deps - {dep})
  {
    var e := Edge(pkg, dep);
    forall k | 0 <= k < |out'|
      ensures ReportTrue(g, out'[k]) && Passed(out'[k].edge, pkgs, pkg, deps - {dep})
      ensures k < |out| ==> out'[k] == out[k] && out[k].edge != e
    {
    }
    forall a, b | HasEdge(g, a, b) && Passed(Edge(a, b), pkgs, pkg, deps - {dep}) && a != b && Harmless(g, Edge(a, b))
      ensures Reported(out', Edge(a, b))
    {
      if Edge(a, b) != e {
        assert Passed(Edge(a, b), pkgs, pkg, deps);
        if out' != out {
          ReportedSnoc(out, out'[|out|], Edge(a, b));
        }
      }
    }
  }

  /**
   The decision loop: the report holds exactly the edges between two different packages whose
   deletion changes no strength, each with a widest replacement path. If the dependencies have no
   cycle, deleting all of them at once changes no strength either.
   */
  method FindRedundant(g: Graph) returns (out: seq<Report>)
    ensures forall k :: 0 <= k < |out| ==> ReportTrue(g, out[k])
    ensures forall a, b :: HasEdge(g, a, b) && a != b && Harmless(g, Edge(a, b)) ==> Reported(out, Edge(a, b))
    ensures OncePerEdge(out)
    ensures Acyclic(g) ==> HarmlessTogether(g, ReportedEdges(out))
  {
    out := [];
    var pkgs := g.Keys;
    while pkgs != {}
      invariant pkgs <= g.Keys
      invariant ReportExact(g, out, pkgs, "", {})
    {
      var pkg :| pkg in pkgs;
      EnterPackage(g, out, pkgs, pkg);
      pkgs := pkgs - {pkg};
      var deps := g[pkg].Keys;
      while deps != {}
        invariant deps <= g[pkg].Keys
        invariant ReportExact(g, out, pkgs, pkg, deps)
      {
        var dep :| dep in deps;
        var strength, path := BestPath(pkg, dep, g, Edge(pkg, dep));
        var out' := Decide(g, Edge(pkg, dep), strength, path, out);
        DecideOne(g, out, out', pkgs, pkg, deps, dep);
        out, deps := out', deps - {dep};
      }
      LeavePackage(g, out, pkgs, pkg);
    }
    if Acyclic(g) {
      AcyclicTogether(g, ReportedEdges(out));
    }
  }

  /** One line of the decision loop. */
  method Decide(g: Graph, e: Edge, strength: int, path: seq<Pkg>, out: seq<Report>) returns (out': seq<Report>)
    requires HasEdge(g, e.from, e.to) && Widest(g, e, e.from, e.to, strength, path)
    ensures Decided(g, e, out, out')
  {
    StrengthDecides(g, e, strength, path);
    DetourIffHarmless(g, e);
    out' := out;
    if strength >= g[e.from][e.to] {
      var r := Report(e, g[e.from][e.to], strength, path);
      out' := out + [r];
      ReportedSnoc(out, r, e);
    }
  }

  // ---------------------------------------------------------------- deleting several edges at once

  /** The graph without a set of edges. */
  ghost function Minus(g: Graph, es: set<Edge>): Graph {
    map a | a in g :: map b | b in g[a] && Edge(a, b) !in es :: g[a][b]
  }

  ghost predicate HarmlessTogether(g: Graph, es: set<Edge>) {
    SameStrengths(g, Minus(g, es))
  }

  /**
   Edges may be deleted together if and only if what is left still leads round each of them, at its
   level or above.
   */
  lemma TogetherIff(g: Graph, es: set<Edge>)
    ensures HarmlessTogether(g, es) <==>
            forall e :: e in es && HasEdge(g, e.from, e.to) ==>
              Reaches(Minus(g, es), e.from, e.to, LevelOf(g, e.from, e.to))
  {
    var h := Minus(g, es);
    BridgedIffSame(g, h);
    if forall e :: e in es && HasEdge(g, e.from, e.to) ==> Reaches(h, e.from, e.to, LevelOf(g, e.from, e.to)) {
      forall a, b | HasEdge(g, a, b)
        ensures Reaches(h, a, b, LevelOf(g, a, b))
      {
        if Edge(a, b) !in es {
          EdgeReaches(h, a, b);
        }
      }
    }
  }

  ghost predicate Acyclic(g: Graph) {
    forall w :: IsWalk(g, w) && |w| > 1 ==> w[0] != w[|w| - 1]
  }

  /** The packages on the ways from `a` to `b`. */
  ghost function Between(g: Graph, a: Pkg, b: Pkg): set<Pkg> {
    set x | x in Nodes(g) && Reaches(g, a, x, 1) && Reaches(g, x, b, 1)
  }

  lemma NoReturn(g: Graph, u: Pkg, v: Pkg)
    requires Acyclic(g) && Reaches(g, u, v, 1) && Reaches(g, v, u, 1)
    ensures u == v
  {
    var w :| WalkFrom(g, w, u, v) && Strong(g, w, 1);
    var d :| WalkFrom(g, d, v, u) && Strong(g, d, 1);
    JoinWalks(g, w, d, u, v, u, 1);
  }

  /** Both ends of a piece of a walk are reached from its start, and reach its end. */
  lemma PieceReaches(g: Graph, w: seq<Pkg>, i: nat)
    requires IsWalk(g, w) && i < |w|
    ensures Reaches(g, w[0], w[i], 1) && Reaches(g, w[i], w[|w| - 1], 1)
  {
    var head, tail := w[..i + 1], w[i..];
    forall k | 0 <= k < |tail| - 1
      ensures HasEdge(g, tail[k], tail[k + 1])
    {
      assert tail[k] == w[i + k] && tail[k + 1] == w[i + k + 1];
    }
    assert WalkFrom(g, head, w[0], w[i]) && Strong(g, head, 1);
    assert WalkFrom(g, tail, w[i], w[|w| - 1]) && Strong(g, tail, 1);
  }

  /** In an acyclic graph an edge on a way round lies strictly inside what the way leads round. */
  lemma BetweenShrinks(g: Graph, a: Pkg, b: Pkg, x: Pkg, y: Pkg)
    requires Acyclic(g) && HasEdge(g, a, b) && HasEdge(g, x, y) && Edge(x, y) != Edge(a, b)
    requires Reaches(g, a, x, 1) && Reaches(g, y, b, 1)
    ensures |Between(g, x, y)| < |Between(g, a, b)|
  {
    assert WalkFrom(g, [a], a, a) && WalkFrom(g, [b], b, b);
    assert Strong(g, [a], 1) && Strong(g, [b], 1);
    EdgeReaches(g, a, b);
    WeakerReaches(g, a, b, LevelOf(g, a, b), 1);
    assert a in Between(g, a, b) && b in Between(g, a, b);
    forall z | z in Between(g, x, y)
      ensures z in Between(g, a, b)
    {
      ReachesVia(g, a, x, z, 1);
      ReachesVia(g, z, y, b, 1);
    }
    if Between(g, x, y) == Between(g, a, b) {
      NoReturn(g, a, x);
      NoReturn(g, b, y);
    }
    SubsetSize(Between(g, x, y), Between(g, a, b));
  }

  /** In an acyclic graph, deleting edges that each have a detour leaves a way round every edge. */
  lemma {:induction false} StillBridged(g: Graph, es: set<Edge>, a: Pkg, b: Pkg)
    requires Acyclic(g) && HasEdge(g, a, b)
    requires forall e :: e in es && HasEdge(g, e.from, e.to) ==> HasDetour(g, e)
    ensures Reaches(Minus(g, es), a, b, LevelOf(g, a, b))
    decreases |Between(g, a, b)|
  {
    var e, h, level := Edge(a, b), Minus(g, es), LevelOf(g, a, b);
    if e !in es {
      EdgeReaches(h, a, b);
    } else {
      var d :| WalkFrom(Without(g, e), d, a, b) && Strong(Without(g, e), d, level);
      forall i | 0 <= i < |d| - 1
        ensures Reaches(h, d[i], d[i + 1], level)
      {
        DetourStep(g, e, d, i);
        StillBridged(g, es, d[i], d[i + 1]);
        WeakerReaches(h, d[i], d[i + 1], LevelOf(g, d[i], d[i + 1]), level);
      }
      Reroute(h, d, level);
    }
  }

  lemma DetourStep(g: Graph, e: Edge, d: seq<Pkg>, i: nat)
    requires Acyclic(g) && HasEdge(g, e.from, e.to) && i < |d| - 1
    requires WalkFrom(Without(g, e), d, e.from, e.to) && Strong(Without(g, e), d, LevelOf(g, e.from, e.to))
    ensures HasEdge(g, d[i], d[i + 1]) && LevelOf(g, d[i], d[i + 1]) >= LevelOf(g, e.from, e.to)
    ensures |Between(g, d[i], d[i + 1])| < |Between(g, e.from, e.to)|
  {
    assert HasEdge(Without(g, e), d[i], d[i + 1]);
    assert IsWalk(g, d);
    PieceReaches(g, d, i);
    PieceReaches(g, d, i + 1);
    BetweenShrinks(g, e.from, e.to, d[i], d[i + 1]);
  }

  /** In an acyclic graph, edges that are harmless one by one are harmless together. */
  lemma AcyclicTogether(g: Graph, es: set<Edge>)
    requires Acyclic(g) && forall e :: e in es && HasEdge(g, e.from, e.to) ==> Harmless(g, e)
    ensures HarmlessTogether(g, es)
  {
    forall e | e in es && HasEdge(g, e.from, e.to)
      ensures HasDetour(g, e)
    {
      DetourIffHarmless(g, e);
    }
    forall e | e in es && HasEdge(g, e.from, e.to)
      ensures Reaches(Minus(g, es), e.from, e.to, LevelOf(g, e.from, e.to))
    {
      StillBridged(g, es, e.from, e.to);
    }
    TogetherIff(g, es);
  }

  /** Two packages that need each other and share a third dependency. */
  function Mutual(): Graph {
    map["a" := map["b" := 3, "c" := 3], "b" := map["a" := 3, "c" := 3], "c" := map[]]
  }

  /**
   With cycles it need not be so: here both edges into "c" are harmless, and deleting both leaves
   "c" unreachable.
   */
  lemma NotAllAtOnce()
    ensures HasEdge(Mutual(), "a", "c") && Harmless(Mutual(), Edge("a", "c"))
    ensures HasEdge(Mutual(), "b", "c") && Harmless(Mutual(), Edge("b", "c"))
    ensures !HarmlessTogether(Mutual(), {Edge("a", "c"), Edge("b", "c")})
  {
    var g := Mutual();
    assert WalkFrom(Without(g, Edge("a", "c")), ["a", "b", "c"], "a", "c");
    assert WalkFrom(Without(g, Edge("b", "c")), ["b", "a", "c"], "b", "c");
    DetourIffHarmless(g, Edge("a", "c"));
    DetourIffHarmless(g, Edge("b", "c"));
    var es := {Edge("a", "c"), Edge("b", "c")};
    Cut(es);
    TogetherIff(g, es);
    assert Edge("a", "c") in es;
  }

  lemma Cut(es: set<Edge>)
    requires es == {Edge("a", "c"), Edge("b", "c")}
    ensures !Reaches(Minus(Mutual(), es), "a", "c", 3)
  {
    var none := Minus(Mutual(), es);
    forall w | IsWalk(none, w) && w[0] == "a"
      ensures w[|w| - 1] != "c"
    {
      if |w| > 1 {
        var k := |w| - 2;
        assert HasEdge(none, w[k], w[k + 1]);
      }
    }
  }
}
