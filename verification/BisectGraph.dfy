/**
 The commit graph a bisection looks at, and what a commit reaches in it.
 */
module BisectGraph {

  // commits are numbered so that parents come before children
  datatype Graph = Graph(allParents: seq<seq<nat>>, treesame: seq<bool>, uninteresting: seq<bool>,
                         firstParentOnly: bool)

  ghost predicate Dag(g: Graph) {
    && |g.treesame| == |g.uninteresting| == |g.allParents|
    && forall c, k :: 0 <= c < |g.allParents| && 0 <= k < |g.allParents[c]| ==> g.allParents[c][k] < c
  }

  ghost predicate IsCommit(g: Graph, c: nat) { Dag(g) && c < |g.allParents| }

  ghost predicate AllBelow(g: Graph, ps: seq<nat>, below: nat) {
    Dag(g) && forall k :: 0 <= k < |ps| ==> ps[k] < below && ps[k] < |g.allParents|
  }

  /** The parents the walk follows. */
  function Parents(g: Graph, c: nat): (ps: seq<nat>)
    requires IsCommit(g, c)
    ensures AllBelow(g, ps, c)
  {
    if g.firstParentOnly && |g.allParents[c]| > 1 then g.allParents[c][..1] else g.allParents[c]
  }

  ghost predicate InterestingParent(g: Graph, c: nat, p: nat)
    requires IsCommit(g, c)
  {
    p in Parents(g, c) && p < |g.uninteresting| && !g.uninteresting[p]
  }

  // ---- reachability ----

  /** What c reaches through interesting commits, itself included. */
  ghost function Reach(g: Graph, c: nat): set<nat>
    requires IsCommit(g, c)
    decreases c + 1, 0
  {
    {c} + ReachAny(g, Parents(g, c), c)
  }

  ghost function ReachAny(g: Graph, ps: seq<nat>, below: nat): set<nat>
    requires AllBelow(g, ps, below)
    decreases below, 1, |ps|
  {
    if ps == [] then {} else (if g.uninteresting[ps[0]] then {} else Reach(g, ps[0])) + ReachAny(g, ps[1..], below)
  }

  lemma {:induction false} ReachAnyHas(g: Graph, ps: seq<nat>, below: nat, p: nat)
    requires AllBelow(g, ps, below) && p in ps && IsCommit(g, p) && !g.uninteresting[p]
    ensures Reach(g, p) <= ReachAny(g, ps, below)
    decreases |ps|
  {
    if ps[0] != p {
      ReachAnyHas(g, ps[1..], below, p);
    }
  }

  lemma {:induction false} ReachAnyFrom(g: Graph, ps: seq<nat>, below: nat, x: nat) returns (p: nat)
    requires AllBelow(g, ps, below) && x in ReachAny(g, ps, below)
    ensures p in ps && IsCommit(g, p) && !g.uninteresting[p] && x in Reach(g, p)
    decreases |ps|
  {
    if !g.uninteresting[ps[0]] && x in Reach(g, ps[0]) {
      p := ps[0];
    } else {
      p := ReachAnyFrom(g, ps[1..], below, x);
    }
  }

  /** What an interesting parent reaches, its child reaches. */
  lemma ReachParent(g: Graph, c: nat, p: nat)
    requires IsCommit(g, c) && InterestingParent(g, c, p)
    ensures p < c && IsCommit(g, p) && Reach(g, p) <= Reach(g, c)
  {
    ReachAnyHas(g, Parents(g, c), c, p);
  }

  /** Everything reached has a number at most that of c. */
  lemma {:induction false} ReachBelow(g: Graph, c: nat, x: nat)
    requires IsCommit(g, c) && x in Reach(g, c)
    ensures x <= c && IsCommit(g, x)
    decreases c
  {
    if x != c {
      var p := ReachAnyFrom(g, Parents(g, c), c, x);
      ReachBelow(g, p, x);
    }
  }

  lemma {:induction false} ReachTransitive(g: Graph, c: nat, x: nat)
    requires IsCommit(g, c) && x in Reach(g, c)
    ensures IsCommit(g, x) && Reach(g, x) <= Reach(g, c)
    decreases c
  {
    if x != c {
      var p := ReachAnyFrom(g, Parents(g, c), c, x);
      ReachTransitive(g, p, x);
      ReachParent(g, c, p);
    }
  }

  /** s has the interesting parents of everything in t. */
  ghost predicate ClosedOver(g: Graph, t: set<nat>, s: set<nat>)
    requires Dag(g)
  {
    forall x, p :: x in t && IsCommit(g, x) && InterestingParent(g, x, p) ==> p in s
  }

  /** A set closed under interesting parents holds all its members reach. */
  lemma {:induction false} ReachLeast(g: Graph, c: nat, s: set<nat>, x: nat)
    requires IsCommit(g, c) && c in s && ClosedOver(g, s, s) && x in Reach(g, c)
    ensures x in s
    decreases c
  {
    if x != c {
      var p := ReachAnyFrom(g, Parents(g, c), c, x);
      assert InterestingParent(g, c, p);
      ReachLeast(g, p, s, x);
    }
  }

  // ---- weights ----

  ghost function Changing(g: Graph, s: set<nat>): set<nat>
    requires Dag(g)
  {
    set x | x in s && x < |g.treesame| && !g.treesame[x]
  }

  /** How many tree-changing commits there are in s. */
  ghost function Count(g: Graph, s: set<nat>): nat
    requires Dag(g)
  {
    |Changing(g, s)|
  }

  lemma CountAdd(g: Graph, s: set<nat>, x: nat)
    requires IsCommit(g, x) && x !in s
    ensures Count(g, s + {x}) == Count(g, s) + if g.treesame[x] then 0 else 1
  {
    assert Changing(g, s + {x}) == Changing(g, s) + if g.treesame[x] then {} else {x};
  }

  lemma {:induction false} SubsetSize(a: set<nat>, b: set<nat>)
    requires a <= b
    ensures |a| <= |b|
  {
    if a != {} {
      var x :| x in a;
      SubsetSize(a - {x}, b - {x});
    }
  }

  lemma CountSubset(g: Graph, s: set<nat>, t: set<nat>)
    requires Dag(g) && s <= t
    ensures Count(g, s) <= Count(g, t)
  {
    SubsetSize(Changing(g, s), Changing(g, t));
  }

  /** The number of tree-changing commits c reaches. */
  ghost function Weight(g: Graph, c: nat): nat
    requires IsCommit(g, c)
  {
    Count(g, Reach(g, c))
  }

  ghost function Self(g: Graph, c: nat): nat
    requires IsCommit(g, c)
  {
    if g.treesame[c] then 0 else 1
  }

  /** Without interesting parents a commit reaches only itself. */
  lemma WeightAlone(g: Graph, c: nat)
    requires IsCommit(g, c) && forall p :: !InterestingParent(g, c, p)
    ensures Weight(g, c) == Self(g, c)
  {
    forall x | x in Reach(g, c)
      ensures x == c
    {
      if x != c {
        var p := ReachAnyFrom(g, Parents(g, c), c, x);
        assert InterestingParent(g, c, p);
      }
    }
    assert Reach(g, c) == {} + {c};
    CountAdd(g, {}, c);
    assert Changing(g, {}) == {};
  }

  /** With one interesting parent it reaches one commit more than that. */
  lemma WeightSingle(g: Graph, c: nat, q: nat)
    requires IsCommit(g, c) && InterestingParent(g, c, q) && forall p :: InterestingParent(g, c, p) ==> p == q
    ensures q < c && IsCommit(g, q) && Weight(g, c) == Weight(g, q) + Self(g, c)
  {
    ReachParent(g, c, q);
    forall x | x in Reach(g, c)
      ensures x == c || x in Reach(g, q)
    {
      if x != c {
        var p := ReachAnyFrom(g, Parents(g, c), c, x);
        assert InterestingParent(g, c, p);
      }
    }
    if c in Reach(g, q) {
      ReachBelow(g, q, c);
    }
    assert Reach(g, c) == Reach(g, q) + {c};
    CountAdd(g, Reach(g, q), c);
  }

  // ---- interesting parents ----

  /** How many of the parents are interesting. */
  function Interesting(g: Graph, ps: seq<nat>): nat
    requires AllBelow(g, ps, |g.allParents|)
  {
    if ps == [] then 0 else Interesting(g, ps[..|ps| - 1]) + if g.uninteresting[ps[|ps| - 1]] then 0 else 1
  }

  function InterestingCount(g: Graph, c: nat): nat
    requires IsCommit(g, c)
  {
    Interesting(g, Parents(g, c))
  }

  lemma {:induction false} InterestingNone(g: Graph, ps: seq<nat>, p: nat)
    requires AllBelow(g, ps, |g.allParents|) && p in ps && p < |g.uninteresting| && !g.uninteresting[p]
    ensures Interesting(g, ps) > 0
  {
    if ps[|ps| - 1] != p {
      InterestingNone(g, ps[..|ps| - 1], p);
    }
  }

  lemma {:induction false} InterestingOne(g: Graph, ps: seq<nat>) returns (q: nat)
    requires AllBelow(g, ps, |g.allParents|) && Interesting(g, ps) == 1
    ensures q in ps && q < |g.uninteresting| && !g.uninteresting[q]
    ensures forall p :: p in ps && p < |g.uninteresting| && !g.uninteresting[p] ==> p == q
  {
    var rest, last := ps[..|ps| - 1], ps[|ps| - 1];
    if g.uninteresting[last] {
      q := InterestingOne(g, rest);
    } else {
      q := last;
      forall p | p in ps && p < |g.uninteresting| && !g.uninteresting[p]
        ensures p == q
      {
        if p != last {
          InterestingNone(g, rest, p);
        }
      }
    }
  }

  /** A commit with one interesting parent q. */
  lemma OnlyParent(g: Graph, c: nat) returns (q: nat)
    requires IsCommit(g, c) && InterestingCount(g, c) == 1
    ensures InterestingParent(g, c, q) && (forall p :: InterestingParent(g, c, p) ==> p == q)
    ensures q < c && IsCommit(g, q) && Weight(g, c) == Weight(g, q) + Self(g, c)
  {
    q := InterestingOne(g, Parents(g, c));
    WeightSingle(g, c, q);
  }

  lemma NoParent(g: Graph, c: nat)
    requires IsCommit(g, c) && InterestingCount(g, c) == 0
    ensures Weight(g, c) == Self(g, c)
  {
    forall p
      ensures !InterestingParent(g, c, p)
    {
      if InterestingParent(g, c, p) {
        InterestingNone(g, Parents(g, c), p);
      }
    }
    WeightAlone(g, c);
  }

  // ---- the list of suspects ----

  ghost function Elems(list: seq<nat>): set<nat> { set c | c in list }

  /** Distinct interesting commits, with every interesting parent of one of them. */
  ghost predicate ListOk(g: Graph, list: seq<nat>) {
    && Dag(g) && (forall c :: c in list ==> IsCommit(g, c) && !g.uninteresting[c])
    && (forall i, j :: 0 <= i < j < |list| ==> list[i] != list[j])
    && (forall c, p :: c in list && InterestingParent(g, c, p) ==> p in list)
  }

  /** The list holds all its commits reach, so no weight is larger than the number of tree-changing suspects. */
  lemma ReachInList(g: Graph, list: seq<nat>, c: nat)
    requires ListOk(g, list) && c in list
    ensures Reach(g, c) <= Elems(list) && Weight(g, c) <= Count(g, Elems(list))
  {
    forall x | x in Reach(g, c)
      ensures x in Elems(list)
    {
      ReachLeast(g, c, Elems(list), x);
    }
    CountSubset(g, Reach(g, c), Elems(list));
  }
}
