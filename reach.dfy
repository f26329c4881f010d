/**
 * Reachability in a finite graph whose nodes are reference strings: the
 * least set of nodes that holds the seeds and every successor of its nodes,
 * computed by rounds (`Closure`) and characterised by chains of edges
 * (`ClosureIsReachability`).
 */
module Reach {
  /** A graph: the successors of each node that has any. */
  type Graph = map<string, set<string>>

  function Succ(g: Graph, x: string): set<string>
  {
    if x in g then g[x] else {}
  }

  /** Every node that is the successor of some node. */
  function Targets(g: Graph): (t: set<string>)
    ensures forall x :: Succ(g, x) <= t
  {
    set x, y | x in g && y in g[x] :: y
  }

  /** One round: the successors of the nodes of `seen`. */
  function Step(g: Graph, seen: set<string>): (r: set<string>)
    ensures r <= Targets(g)
    ensures forall x :: x in seen ==> Succ(g, x) <= r
    ensures forall y :: y in r ==> exists x :: x in seen && y in Succ(g, x)
  {
    set x, y | x in seen && y in Succ(g, x) :: y
  }

  /** The least superset of `seen` that holds the successors of its nodes. */
  function Closure(g: Graph, seen: set<string>): (c: set<string>)
    ensures seen <= c && c <= seen + Targets(g)
    ensures Step(g, c) <= c
    decreases |Targets(g) - seen|
  {
    var next := seen + Step(g, seen);
    if next == seen then seen
    else
      Shrinks(g, seen);
      Closure(g, next)
  }

  /** A round that adds a node leaves fewer targets unvisited. */
  lemma Shrinks(g: Graph, seen: set<string>)
    requires seen + Step(g, seen) != seen
    ensures |Targets(g) - (seen + Step(g, seen))| < |Targets(g) - seen|
  {
    var next := seen + Step(g, seen);
    var y :| y in Step(g, seen) && y !in seen;
    Fewer(Targets(g), seen, next, y);
  }

  /** Taking a larger set away from `t` leaves fewer elements when the extra element `y` belongs to `t`. */
  lemma Fewer(t: set<string>, s1: set<string>, s2: set<string>, y: string)
    requires s1 <= s2 && y in s2 && y !in s1 && y in t
    ensures |t - s2| < |t - s1|
  {
    var a, b := t - s2, t - s1;
    var rest := b - {y} - a;
    assert b - {y} == a + rest && a * rest == {};
    assert b == (b - {y}) + {y};
  }

  /** `Closure` lies inside every superset of `seen` that holds the successors of its nodes. */
  lemma {:induction false} ClosureLeast(g: Graph, seen: set<string>, s: set<string>)
    requires seen <= s && Step(g, s) <= s
    ensures Closure(g, seen) <= s
    decreases |Targets(g) - seen|
  {
    var next := seen + Step(g, seen);
    if next != seen {
      Shrinks(g, seen);
      assert Step(g, seen) <= Step(g, s);
      ClosureLeast(g, next, s);
    }
  }

  /** A path through `g` that starts at one of the seeds. */
  ghost predicate IsChain(g: Graph, seeds: set<string>, c: seq<string>)
  {
    |c| > 0 && c[0] in seeds && forall i :: 0 < i < |c| ==> c[i] in Succ(g, c[i - 1])
  }

  ghost predicate Reaches(g: Graph, seeds: set<string>, r: string)
  {
    exists c :: IsChain(g, seeds, c) && c[|c| - 1] == r
  }

  lemma {:induction false} ChainInClosure(g: Graph, seeds: set<string>, c: seq<string>)
    requires IsChain(g, seeds, c)
    ensures c[|c| - 1] in Closure(g, seeds)
    decreases |c|
  {
    if |c| > 1 {
      var front := c[..|c| - 1];
      assert IsChain(g, seeds, front) by {
        forall i | 0 < i < |front| ensures front[i] in Succ(g, front[i - 1]) {
          assert front[i] == c[i] && front[i - 1] == c[i - 1];
        }
      }
      ChainInClosure(g, seeds, front);
      assert Succ(g, c[|c| - 2]) <= Step(g, Closure(g, seeds));
    }
  }

  /** A chain extended by one edge is a chain. */
  lemma Extend(g: Graph, seeds: set<string>, c: seq<string>, y: string)
    requires IsChain(g, seeds, c) && y in Succ(g, c[|c| - 1])
    ensures IsChain(g, seeds, c + [y])
  {
    var c' := c + [y];
    forall i | 0 < i < |c'| ensures c'[i] in Succ(g, c'[i - 1]) {
      if i < |c| {
        assert c'[i] == c[i] && c'[i - 1] == c[i - 1];
      }
    }
  }

  /** The nodes `Closure` finds are exactly those at the end of a chain from a seed. */
  lemma ClosureIsReachability(g: Graph, seeds: set<string>, r: string)
    ensures r in Closure(g, seeds) <==> Reaches(g, seeds, r)
  {
    if Reaches(g, seeds, r) {
      var c :| IsChain(g, seeds, c) && c[|c| - 1] == r;
      ChainInClosure(g, seeds, c);
    }
    if r in Closure(g, seeds) {
      ClosureReached(g, seeds);
    }
  }

  lemma ClosureReached(g: Graph, seeds: set<string>)
    ensures forall r :: r in Closure(g, seeds) ==> Reaches(g, seeds, r)
  {
    var reached := set x | x in seeds + Targets(g) && Reaches(g, seeds, x);
    forall x | x in seeds ensures x in reached {
      assert IsChain(g, seeds, [x]);
    }
    forall y | y in Step(g, reached) ensures y in reached {
      ReachedStep(g, seeds, reached, y);
    }
    ClosureLeast(g, seeds, reached);
  }

  lemma ReachedStep(g: Graph, seeds: set<string>, reached: set<string>, y: string)
    requires forall x :: x in reached ==> Reaches(g, seeds, x)
    requires y in Step(g, reached)
    ensures y in Targets(g) && Reaches(g, seeds, y)
  {
    var x :| x in reached && y in Succ(g, x);
    var c :| IsChain(g, seeds, c) && c[|c| - 1] == x;
    Extend(g, seeds, c, y);
    assert (c + [y])[|c + [y]| - 1] == y;
  }

  /** More seeds and more edges reach more: every chain of the smaller graph is one of the larger. */
  lemma {:induction false} ReachesMonotone(g: Graph, seeds: set<string>, g': Graph, seeds': set<string>, r: string)
    requires seeds <= seeds' && forall x :: Succ(g, x) <= Succ(g', x)
    requires Reaches(g, seeds, r)
    ensures Reaches(g', seeds', r)
  {
    var c :| IsChain(g, seeds, c) && c[|c| - 1] == r;
    assert IsChain(g', seeds', c) by {
      forall i | 0 < i < |c| ensures c[i] in Succ(g', c[i - 1]) {
        assert c[i] in Succ(g, c[i - 1]);
      }
    }
  }

  /**
   * Two graphs that agree on the successors of every node the first
   * reaches reach the same nodes from the same seeds.
   */
  lemma {:induction false} ReachesAgree(g: Graph, g': Graph, seeds: set<string>, r: string)
    requires forall x :: Reaches(g, seeds, x) ==> Succ(g, x) == Succ(g', x)
    ensures Reaches(g, seeds, r) <==> Reaches(g', seeds, r)
  {
    if Reaches(g, seeds, r) {
      var c :| IsChain(g, seeds, c) && c[|c| - 1] == r;
      ChainTransfers(g, g', seeds, c);
    }
    if Reaches(g', seeds, r) {
      var c :| IsChain(g', seeds, c) && c[|c| - 1] == r;
      ChainTransfersBack(g, g', seeds, c);
    }
  }

  lemma {:induction false} ChainTransfers(g: Graph, g': Graph, seeds: set<string>, c: seq<string>)
    requires forall x :: Reaches(g, seeds, x) ==> Succ(g, x) == Succ(g', x)
    requires IsChain(g, seeds, c)
    ensures IsChain(g', seeds, c)
  {
    forall i | 0 < i < |c| ensures c[i] in Succ(g', c[i - 1]) {
      var front := c[..i];
      assert IsChain(g, seeds, front) by {
        forall j | 0 < j < |front| ensures front[j] in Succ(g, front[j - 1]) {
          assert front[j] == c[j] && front[j - 1] == c[j - 1];
        }
      }
      assert front[|front| - 1] == c[i - 1];
      assert Reaches(g, seeds, c[i - 1]);
    }
  }

  lemma {:induction false} ChainTransfersBack(g: Graph, g': Graph, seeds: set<string>, c: seq<string>)
    requires forall x :: Reaches(g, seeds, x) ==> Succ(g, x) == Succ(g', x)
    requires IsChain(g', seeds, c)
    ensures IsChain(g, seeds, c)
    decreases |c|
  {
    if |c| > 1 {
      var front := c[..|c| - 1];
      assert IsChain(g', seeds, front) by {
        forall j | 0 < j < |front| ensures front[j] in Succ(g', front[j - 1]) {
          assert front[j] == c[j] && front[j - 1] == c[j - 1];
        }
      }
      ChainTransfersBack(g, g', seeds, front);
      assert front[|front| - 1] == c[|c| - 2];
      assert Reaches(g, seeds, c[|c| - 2]);
      assert c == front + [c[|c| - 1]];
      Extend(g, seeds, front, c[|c| - 1]);
    }
  }
}
