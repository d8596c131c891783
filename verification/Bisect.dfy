/**
 Finding the commit that halves the suspects (git/bisect.c).
 */
module Bisect {
  import opened BisectFill
  import opened BisectGraph

  // ---- counting by marks ----

  /** The walk from root has marked s beyond s0, and still has to look at the front of entry. */
  ghost predicate Walked(g: Graph, s0: set<nat>, s: set<nat>, root: nat, entry: seq<nat>)
    requires IsCommit(g, root)
  {
    && s0 <= s && AllBelow(g, entry, |g.allParents|)
    && (forall x :: x in s && x !in s0 ==> IsCommit(g, x) && x in Reach(g, root))
    && (forall x, p ::
        x in s && x !in s0 && IsCommit(g, x) && InterestingParent(g, x, p) ==> p in s || (entry != [] && p == entry[0]))
    && (entry != [] && !g.uninteresting[entry[0]] ==> entry[0] in Reach(g, root))
  }

  /** The parents of commit from the second to the p-th have been walked, too. */
  ghost predicate WalkedTo(g: Graph, s0: set<nat>, s: set<nat>, root: nat, commit: nat, p: nat)
    requires IsCommit(g, root) && IsCommit(g, commit)
  {
    var ps := g.allParents[commit];
    && s0 <= s && p <= |ps|
    && (forall x :: x in s && x !in s0 ==> IsCommit(g, x) && x in Reach(g, root))
    && (forall x, q :: x in s && x !in s0 && x != commit && IsCommit(g, x) && InterestingParent(g, x, q) ==> q in s)
    && (forall k :: 1 <= k < p && !g.uninteresting[ps[k]] ==> ps[k] in s)
    && commit in s && commit in Reach(g, root)
  }

  lemma BeginOthers(g: Graph, s0: set<nat>, s: set<nat>, root: nat, entry: seq<nat>)
    requires IsCommit(g, root) && Walked(g, s0, s, root, entry) && entry != [] && !g.uninteresting[entry[0]]
      && entry[0] !in s
    requires g.allParents[entry[0]] != []
    ensures WalkedTo(g, s0, s + {entry[0]}, root, entry[0], 1)
  {
  }

  lemma ParentReached(g: Graph, root: nat, commit: nat, q: nat)
    requires !g.firstParentOnly && IsCommit(g, root) && IsCommit(g, commit) && commit in Reach(g, root)
    requires q in g.allParents[commit] && q < |g.uninteresting| && !g.uninteresting[q]
    ensures IsCommit(g, q) && q in Reach(g, root) && Reach(g, q) <= Reach(g, root)
  {
    assert InterestingParent(g, commit, q);
    ReachParent(g, commit, q);
    ReachTransitive(g, root, commit);
  }

  lemma NextOther(g: Graph, s0: set<nat>, s: set<nat>, s': set<nat>, root: nat, commit: nat, p: nat)
    requires !g.firstParentOnly && IsCommit(g, root) && IsCommit(g, commit) && WalkedTo(g, s0, s, root, commit, p)
      && 1 <= p < |g.allParents[commit]|
    requires var q := g.allParents[commit][p];
      && IsCommit(g, q) && s <= s' && (!g.uninteresting[q] ==> q in s') && (g.uninteresting[q] ==> s' == s)
      && (forall x, r :: x in s' && x !in s && IsCommit(g, x) && InterestingParent(g, x, r) ==> r in s')
      && (forall x :: x in s' && x !in s ==> IsCommit(g, x) && x in Reach(g, q))
    ensures WalkedTo(g, s0, s', root, commit, p + 1)
  {
    var q := g.allParents[commit][p];
    if !g.uninteresting[q] {
      ParentReached(g, root, commit, q);
    }
  }

  lemma EndOthers(g: Graph, s0: set<nat>, s: set<nat>, root: nat, commit: nat)
    requires !g.firstParentOnly && IsCommit(g, root) && IsCommit(g, commit) && g.allParents[commit] != []
    requires WalkedTo(g, s0, s, root, commit, |g.allParents[commit]|)
    ensures Walked(g, s0, s, root, g.allParents[commit])
  {
    var ps := g.allParents[commit];
    if !g.uninteresting[ps[0]] {
      ParentReached(g, root, commit, ps[0]);
    }
  }

  // ---- weights ----

  ghost predicate WeightsFor(g: Graph, list: seq<nat>, w: seq<int>) {
    ListOk(g, list) && |w| == |g.allParents| && forall i :: 0 <= i < |list| ==> list[i] < |w|
  }

  /** Initialization has reached the n-th commit. */
  ghost predicate InitialTo(g: Graph, list: seq<nat>, w: seq<int>, n: nat) {
    && WeightsFor(g, list, w) && n <= |list|
    && (forall i :: 0 <= i < n ==> Initial(g, list[i], w[list[i]]))
    && (forall i :: n <= i < |list| ==> w[list[i]] == 0)
  }

  lemma InitialNext(g: Graph, list: seq<nat>, w: seq<int>, n: nat, v: int)
    requires InitialTo(g, list, w, n) && n < |list| && Initial(g, list[n], v)
    ensures InitialTo(g, list, w[list[n] := v], n + 1)
  {
  }

  /** The merges among the first n commits are counted. */
  ghost predicate MeasuredTo(g: Graph, list: seq<nat>, w: seq<int>, n: nat) {
    && WeightsFor(g, list, w) && n <= |list|
    && (forall i :: 0 <= i < n ==> Measured(g, list[i], w[list[i]]))
    && (forall i :: n <= i < |list| ==> Initial(g, list[i], w[list[i]]))
  }

  lemma MeasuredNext(g: Graph, list: seq<nat>, w: seq<int>, n: nat, v: int)
    requires MeasuredTo(g, list, w, n) && n < |list| && Measured(g, list[n], v)
    ensures MeasuredTo(g, list, w[list[n] := v], n + 1)
  {
  }

  lemma MeasuredIsExact(g: Graph, list: seq<nat>, w: seq<int>, n: nat)
    requires MeasuredTo(g, list, w, n)
    ensures Exact(g, list, w)
  {
    forall c | c in list && w[c] >= 0
      ensures w[c] == Weight(g, c)
    {
      var i :| 0 <= i < |list| && list[i] == c;
      assert if i < n then Measured(g, list[i], w[list[i]]) else Initial(g, list[i], w[list[i]]);
    }
  }

  /** Whatever weight is known is right. */
  ghost predicate Exact(g: Graph, list: seq<nat>, w: seq<int>)
    requires WeightsFor(g, list, w)
  {
    forall c :: c in list && w[c] >= 0 ==> w[c] == Weight(g, c)
  }

  /** The weight before any counting: -1 stands for one interesting parent, -2 for more. */
  ghost predicate Initial(g: Graph, c: nat, v: int)
    requires IsCommit(g, c)
  {
    if InterestingCount(g, c) == 0 then v == Weight(g, c) else if InterestingCount(g, c) == 1 then v == -1 else v == -2
  }

  /** The weight once the merges are counted. */
  ghost predicate Measured(g: Graph, c: nat, v: int)
    requires IsCommit(g, c)
  {
    if InterestingCount(g, c) == 1 then v == -1 else v == Weight(g, c)
  }

  /** What the counter counts: known commits that are tree-changing, and known merges whether they are or not. */
  ghost function Ticked(g: Graph, s: set<nat>, w: seq<int>): set<nat>
    requires Dag(g) && |w| == |g.allParents|
  {
    set c | c in s && IsCommit(g, c) && w[c] >= 0 && (!g.treesame[c] || InterestingCount(g, c) >= 2)
  }

  /** A weight becomes known, and nothing else changes. */
  lemma TickedSet(g: Graph, s: set<nat>, w: seq<int>, c: nat, v: int)
    requires Dag(g) && |w| == |g.allParents| && c in s && IsCommit(g, c) && w[c] < 0 && v >= 0
    ensures |Ticked(g, s, w[c := v])| == |Ticked(g, s, w)| + if !g.treesame[c] || InterestingCount(g, c) >= 2 then 1
      else 0
  {
    var t, t' := Ticked(g, s, w), Ticked(g, s, w[c := v]);
    if !g.treesame[c] || InterestingCount(g, c) >= 2 {
      assert t' == t + {c};
    } else {
      assert t' == t;
    }
  }

  lemma TickedSame(g: Graph, s: set<nat>, w: seq<int>, c: nat, v: int)
    requires Dag(g) && |w| == |g.allParents| && IsCommit(g, c) && c !in s
    ensures Ticked(g, s, w[c := v]) == Ticked(g, s, w)
  {
    assert forall x :: x in s && IsCommit(g, x) ==> w[c := v][x] == w[x];
  }

  lemma TickedNew(g: Graph, s: set<nat>, w: seq<int>, c: nat)
    requires Dag(g) && |w| == |g.allParents| && IsCommit(g, c) && c !in s
    ensures |Ticked(g, s + {c}, w)| == |Ticked(g, s, w)| + if w[c] >= 0
      && (!g.treesame[c] || InterestingCount(g, c) >= 2) then 1 else 0
  {
    var t, t' := Ticked(g, s, w), Ticked(g, s + {c}, w);
    if w[c] >= 0 && (!g.treesame[c] || InterestingCount(g, c) >= 2) {
      assert t' == t + {c};
    } else {
      assert t' == t;
    }
  }

  // ---- passes of the fill loop ----

  /** Only commits with one interesting parent are still open. */
  ghost predicate Filling(g: Graph, list: seq<nat>, w: seq<int>) {
    && WeightsFor(g, list, w) && Exact(g, list, w)
    && forall c :: c in list && w[c] < 0 ==> InterestingCount(g, c) == 1
  }

  lemma MeasuredIsFilling(g: Graph, list: seq<nat>, w: seq<int>)
    requires MeasuredTo(g, list, w, |list|)
    ensures Filling(g, list, w)
  {
    MeasuredIsExact(g, list, w, |list|);
    forall c | c in list && w[c] < 0
      ensures InterestingCount(g, c) == 1
    {
      var i :| 0 <= i < |list| && list[i] == c;
      assert Measured(g, list[i], w[list[i]]);
    }
  }

  lemma FillingSet(g: Graph, list: seq<nat>, w: seq<int>, c: nat, v: int)
    requires Filling(g, list, w) && c in list && v == Weight(g, c)
    ensures Filling(g, list, w[c := v])
  {
  }

  ghost predicate ParentOpen(g: Graph, c: nat, w: seq<int>)
    requires IsCommit(g, c) && |w| == |g.allParents|
  {
    forall p: nat :: InterestingParent(g, c, p) ==> w[p] < 0
  }

  /** After k passes and the first i commits of the next one, the weights of these rounds are known, and no others. */
  ghost predicate KnownTo(g: Graph, list: seq<nat>, w: seq<int>, k: nat, i: nat)
    requires WeightsFor(g, list, w)
  {
    forall c ::
      c in list ==> (w[c] >= 0 <==> Round(g, list, c) <= k || (Round(g, list, c) == k + 1 && Pos(list, c) < i))
  }

  /** No commit that was tested is halfway. */
  ghost predicate NoneHalfway(g: Graph, list: seq<nat>, w: seq<int>, nr: nat)
    requires WeightsFor(g, list, w)
  {
    forall c :: c in list && w[c] >= 0 && InterestingCount(g, c) >= 1 ==> !Halfway(g, c, nr)
  }

  ghost predicate PassedTo(g: Graph, list: seq<nat>, w: seq<int>, nr: nat, k: nat, i: nat) {
    Filling(g, list, w) && i <= |list| && KnownTo(g, list, w, k, i) && NoneHalfway(g, list, w, nr)
  }

  lemma PosAt(g: Graph, list: seq<nat>, i: nat)
    requires ListOk(g, list) && i < |list|
    ensures list[i] in list && Pos(list, list[i]) == i
    ensures forall c :: c in list ==> (Pos(list, c) < i + 1 <==> Pos(list, c) < i || c == list[i])
  {
  }

  lemma PassedKnown(g: Graph, list: seq<nat>, w: seq<int>, nr: nat, k: nat, i: nat)
    requires PassedTo(g, list, w, nr, k, i) && i < |list| && w[list[i]] >= 0
    ensures PassedTo(g, list, w, nr, k, i + 1)
  {
    PosAt(g, list, i);
  }

  /** A commit with a known parent is one of this round. */
  lemma RoundNow(g: Graph, list: seq<nat>, w: seq<int>, nr: nat, k: nat, i: nat, q: nat)
    requires PassedTo(g, list, w, nr, k, i) && i < |list| && w[list[i]] < 0 && InterestingParent(g, list[i], q)
      && w[q] >= 0
    ensures Round(g, list, list[i]) == k + 1
  {
    PosAt(g, list, i);
    assert q == Only(g, list[i]) && q in list;
  }

  lemma PassedSet(g: Graph, list: seq<nat>, w: seq<int>, nr: nat, k: nat, i: nat, v: int)
    requires PassedTo(g, list, w, nr, k, i) && i < |list| && v == Weight(g, list[i]) && Round(g, list, list[i]) == k + 1
    requires !Halfway(g, list[i], nr)
    ensures PassedTo(g, list, w[list[i] := v], nr, k, i + 1)
  {
    PosAt(g, list, i);
    FillingSet(g, list, w, list[i], v);
  }

  lemma PassedOpen(g: Graph, list: seq<nat>, w: seq<int>, nr: nat, k: nat, i: nat)
    requires PassedTo(g, list, w, nr, k, i) && i < |list| && w[list[i]] < 0 && ParentOpen(g, list[i], w)
    ensures PassedTo(g, list, w, nr, k, i + 1)
  {
    PosAt(g, list, i);
    var q := Only(g, list[i]);
    assert q in list && w[q] < 0;
    assert Round(g, list, list[i]) > k + 1;
  }

  lemma PassEnds(g: Graph, list: seq<nat>, w: seq<int>, nr: nat, k: nat)
    requires PassedTo(g, list, w, nr, k, |list|)
    ensures PassedTo(g, list, w, nr, k + 1, 0)
  {
  }

  lemma TickedIs(g: Graph, list: seq<nat>, w: seq<int>, k: nat)
    requires WeightsFor(g, list, w) && KnownTo(g, list, w, k, 0)
    ensures Ticked(g, Elems(list), w) == TickedBy(g, list, k)
  {
  }

  /** After k passes the counter stands at ticks, and never was large enough before. */
  ghost predicate Looping(g: Graph, list: seq<nat>, w: seq<int>, nr: nat, k: nat, ticks: int) {
    PassedTo(g, list, w, nr, k, 0) && ticks == |Ticked(g, Elems(list), w)| && TooFewBefore(g, list, k)
  }

  lemma MustGoOn(g: Graph, list: seq<nat>, w: seq<int>, nr: nat, k: nat, ticks: int)
    requires Looping(g, list, w, nr, k, ticks) && nr == Count(g, Elems(list)) && ticks < nr
    ensures k < |g.allParents| && k + 1 <= Passes(g, list) && TooFewBefore(g, list, k + 1)
  {
    TickedIs(g, list, w, k);
    GoesOn(g, list, k);
  }

  lemma MayStop(g: Graph, list: seq<nat>, w: seq<int>, nr: nat, k: nat, ticks: int)
    requires Looping(g, list, w, nr, k, ticks) && nr == Count(g, Elems(list)) && ticks >= nr
    ensures k == Passes(g, list)
  {
    TickedIs(g, list, w, k);
    PassesIs(g, list, k);
  }

  lemma EndsLater(g: Graph, list: seq<nat>, nr: nat, j: nat, k: nat, c: nat)
    requires ListOk(g, list) && EndsIt(g, list, nr, j, c) && j <= k
    ensures EndsIt(g, list, nr, k, c)
  {
  }

  /** Every tree-changing suspect has its weight. */
  ghost predicate Complete(g: Graph, list: seq<nat>, w: seq<int>)
    requires WeightsFor(g, list, w)
  {
    forall c :: c in list && !g.treesame[c] ==> w[c] >= 0
  }

  lemma AtMostOne(g: Graph, c: nat)
    requires IsCommit(g, c) && g.firstParentOnly
    ensures InterestingCount(g, c) <= 1
  {
    var ps := Parents(g, c);
    if ps != [] {
      assert ps[..0] == [] && Interesting(g, ps[..0]) == 0;
    }
  }

  /** Once the merges are counted, the fill loop begins. */
  lemma MeasuredIsPassed(g: Graph, list: seq<nat>, w: seq<int>, nr: nat)
    requires MeasuredTo(g, list, w, |list|) && NoneHalfway(g, list, w, nr)
    ensures PassedTo(g, list, w, nr, 0, 0)
  {
    MeasuredIsFilling(g, list, w);
    forall c | c in list
      ensures w[c] >= 0 <==> Round(g, list, c) <= 0
    {
      var i :| 0 <= i < |list| && list[i] == c;
      assert Measured(g, list[i], w[list[i]]);
    }
  }

  /**
     Among the tree-changing suspects with known weights none divides more evenly; the head of the list if there are
     none.
   */
  ghost predicate KnownBest(g: Graph, list: seq<nat>, w: seq<int>, best: int, nr: nat)
    requires WeightsFor(g, list, w) && (best >= 0 ==> best in list)
  {
    && (forall c :: c in list && !g.treesame[c] && w[c] >= 0 ==>
      best >= 0 && !g.treesame[best] && w[best] >= 0 && Score(w[c], nr) <= Score(w[best], nr))
    && ((forall c :: c in list && !g.treesame[c] ==> w[c] < 0) && list != [] ==> best == list[0])
  }

  lemma NoneEnds(g: Graph, list: seq<nat>, w: seq<int>, nr: nat, k: nat)
    requires PassedTo(g, list, w, nr, k, 0)
    ensures !HalfwayBy(g, list, nr, k)
  {
  }

  lemma ReadyIsKnown(g: Graph, list: seq<nat>, w: seq<int>, k: nat, c: nat)
    requires WeightsFor(g, list, w) && Exact(g, list, w) && KnownTo(g, list, w, k, 0) && c in list && !g.treesame[c]
    ensures Ready(g, list, k, c) <==> w[c] >= 0
    ensures w[c] >= 0 ==> w[c] == Weight(g, c)
  {
  }

  lemma KnownIsLate(g: Graph, list: seq<nat>, w: seq<int>, best: int, nr: nat, k: nat)
    requires WeightsFor(g, list, w) && Exact(g, list, w) && KnownTo(g, list, w, k, 0)
    requires (list == [] <==> best < 0) && (best >= 0 ==> best in list) && KnownBest(g, list, w, best, nr)
    ensures PickedLate(g, list, nr, k, best)
  {
    forall c | Ready(g, list, k, c)
      ensures best >= 0 && Ready(g, list, k, best) && Score(Weight(g, c), nr) <= Score(Weight(g, best), nr)
    {
      ReadyIsKnown(g, list, w, k, c);
      assert best >= 0;
      ReadyIsKnown(g, list, w, k, best);
    }
    if forall c :: !Ready(g, list, k, c) {
      forall c | c in list && !g.treesame[c]
        ensures w[c] < 0
      {
        ReadyIsKnown(g, list, w, k, c);
      }
    }
  }

  lemma KnownIsPicked(g: Graph, list: seq<nat>, w: seq<int>, best: int, nr: nat, k: nat)
    requires PassedTo(g, list, w, nr, k, 0) && (list == [] <==> best < 0) && (best >= 0 ==> best in list)
      && KnownBest(g, list, w, best, nr)
    ensures Picked(g, list, nr, k, best) && !HalfwayBy(g, list, nr, k)
  {
    NoneEnds(g, list, w, nr, k);
    KnownIsLate(g, list, w, best, nr, k);
  }

  /** The best of the first i suspects so far, and how evenly it divides. */
  ghost predicate BestTo(g: Graph, list: seq<nat>, w: seq<int>, nr: nat, best: int, distance: int, i: nat)
    requires WeightsFor(g, list, w)
  {
    && i <= |list| && distance >= -1 && (best >= 0 <==> list != [])
    && (if distance < 0 then list != [] ==> best == list[0]
        else best in list && !g.treesame[best] && w[best] >= 0 && Score(w[best], nr) == distance)
    && forall j :: 0 <= j < i ==> NoBetter(g, w, nr, list[j], distance)
  }

  ghost predicate NoBetter(g: Graph, w: seq<int>, nr: nat, c: nat, distance: int)
    requires IsCommit(g, c) && |w| == |g.allParents|
  {
    !g.treesame[c] && w[c] >= 0 ==> Score(w[c], nr) <= distance
  }

  lemma BestNext(g: Graph, list: seq<nat>, w: seq<int>, nr: nat, best: int, distance: int, i: nat, best': int,
                 distance': int)
    requires Filling(g, list, w) && nr == Count(g, Elems(list)) && BestTo(g, list, w, nr, best, distance, i)
      && i < |list|
    requires var p := list[i]; var d := Score(w[p], nr);
      if !g.treesame[p] && d > distance then best' == p && distance' == d else best' == best && distance' == distance
    ensures BestTo(g, list, w, nr, best', distance', i + 1)
  {
    var p := list[i];
    assert p in list;
    if w[p] >= 0 {
      ReachInList(g, list, p);
    }
    assert distance <= distance';
    forall j | 0 <= j < i + 1
      ensures NoBetter(g, w, nr, list[j], distance')
    {
      assert j < i ==> NoBetter(g, w, nr, list[j], distance);
    }
  }

  lemma BestIsKnown(g: Graph, list: seq<nat>, w: seq<int>, nr: nat, best: int, distance: int)
    requires Filling(g, list, w) && nr == Count(g, Elems(list)) && BestTo(g, list, w, nr, best, distance, |list|)
    ensures (best >= 0 ==> best in list) && KnownBest(g, list, w, best, nr)
  {
    forall c | c in list && !g.treesame[c] && w[c] >= 0
      ensures best >= 0 && !g.treesame[best] && w[best] >= 0 && Score(w[c], nr) <= Score(w[best], nr)
    {
      var j :| 0 <= j < |list| && list[j] == c;
      assert NoBetter(g, w, nr, list[j], distance);
      ReachInList(g, list, c);
    }
  }

  lemma EndedIsPicked(g: Graph, list: seq<nat>, best: int, nr: nat, j: nat, k: nat)
    requires ListOk(g, list) && best >= 0 && EndsIt(g, list, nr, j, best) && j <= k
    ensures Picked(g, list, nr, k, best) && HalfwayBy(g, list, nr, k) && EndsIt(g, list, nr, k, best)
  {
    assert EndsIt(g, list, nr, k, best);
  }

  lemma CompleteIsReady(g: Graph, list: seq<nat>, w: seq<int>, k: nat)
    requires WeightsFor(g, list, w) && KnownTo(g, list, w, k, 0)
    ensures Complete(g, list, w) <==> AllReady(g, list, k)
  {
    assert forall c :: c in list && !g.treesame[c] ==> (Ready(g, list, k, c) <==> w[c] >= 0);
  }

  class Bisection {
    const g: Graph
    var counted: set<nat>
    var weights: seq<int>

    constructor (g: Graph)
      ensures this.g == g && counted == {} && weights == []
    {
      this.g, counted, weights := g, {}, [];
    }

    /** All parents of a commit but the first. */
    method CountOthers(commit: nat, ps: seq<nat>, ghost s0: set<nat>, ghost root: nat) returns (nr: int)
      requires !g.firstParentOnly && IsCommit(g, root) && IsCommit(g, commit) && ps == g.allParents[commit] && ps != []
      requires WalkedTo(g, s0, counted, root, commit, 1)
      modifies this`counted
      ensures old(counted) <= counted && WalkedTo(g, s0, counted, root, commit, |ps|)
      ensures nr == Count(g, counted) - Count(g, old(counted))
      decreases commit, 1
    {
      nr := 0;
      var p := 1;
      while p < |ps|
        invariant 1 <= p <= |ps| && old(counted) <= counted && WalkedTo(g, s0, counted, root, commit, p)
        invariant nr == Count(g, counted) - Count(g, old(counted))
      {
        ghost var s := counted;
        assert ps[p] == ps[p..][0];
        var k := CountDistance(ps[p..]);
        nr := nr + k;
        NextOther(g, s0, s, counted, root, commit, p);
        p := p + 1;
      }
    }

    /** A commit and all it reaches through parents but the first. */
    method CountCommit(commit: nat, ghost entry: seq<nat>, ghost s0: set<nat>, ghost root: nat) returns (nr: int)
      requires !g.firstParentOnly && IsCommit(g, root) && Walked(g, s0, counted, root, entry)
      requires entry != [] && commit == entry[0] && !g.uninteresting[commit] && commit !in counted
      modifies this`counted
      ensures old(counted) <= counted && commit in counted && Walked(g, s0, counted, root, g.allParents[commit])
      ensures nr == Count(g, counted) - Count(g, old(counted))
      decreases commit, 2
    {
      CountAdd(g, counted, commit);
      nr := if g.treesame[commit] then 0 else 1;
      var ps := g.allParents[commit];
      if ps != [] {
        BeginOthers(g, s0, counted, root, entry);
        counted := counted + {commit};
        var k := CountOthers(commit, ps, s0, root);
        nr := nr + k;
        EndOthers(g, s0, counted, root, commit);
      } else {
        counted := counted + {commit};
      }
    }

    /** Marks what the first commit of the list reaches and is not marked yet; counts what is tree-changing of it. */
    method CountDistance(list: seq<nat>) returns (nr: int)
      requires AllBelow(g, list, |g.allParents|) && !g.firstParentOnly
      modifies this`counted
      ensures old(counted) <= counted
      ensures list != [] && !g.uninteresting[list[0]] ==> list[0] in counted
      ensures list == [] || g.uninteresting[list[0]] ==> counted == old(counted)
      ensures forall x, p ::
        x in counted && x !in old(counted) && IsCommit(g, x) && InterestingParent(g, x, p) ==> p in counted
      ensures forall x ::
        x in counted && x !in old(counted) ==>
          list != [] && IsCommit(g, list[0]) && IsCommit(g, x) && x in Reach(g, list[0])
      ensures nr == Count(g, counted) - Count(g, old(counted))
      decreases if list == [] then 0 else list[0] + 1, 0
    {
      nr := 0;
      if list == [] {
        return;
      }
      ghost var root := list[0];
      var entry := list;
      while entry != []
        invariant Walked(g, old(counted), counted, root, entry) && (entry != [] ==> entry[0] <= root)
        invariant if g.uninteresting[root] then entry == list && counted == old(counted)
          else entry == list || root in counted
        invariant nr == Count(g, counted) - Count(g, old(counted))
        decreases if entry == [] then 0 else entry[0] + 1
      {
        var commit := entry[0];
        if g.uninteresting[commit] || commit in counted {
          break;
        }
        var k := CountCommit(commit, entry, old(counted), root);
        nr := nr + k;
        entry := g.allParents[commit];
      }
    }

    method ClearDistance(list: seq<nat>)
      modifies this`counted
      ensures counted == old(counted) - Elems(list)
    {
      var i := 0;
      while i < |list|
        invariant 0 <= i <= |list| && counted == old(counted) - Elems(list[..i])
      {
        assert list[..i + 1] == list[..i] + [list[i]];
        counted := counted - {list[i]};
        i := i + 1;
      }
      assert list[..i] == list;
    }

    /** The weight of a merge, leaving no marks. */
    method MeasureMerge(c: nat, list: seq<nat>) returns (w: int)
      requires ListOk(g, list) && c in list && counted == {} && !g.firstParentOnly
      modifies this`counted
      ensures counted == {} && w == Weight(g, c)
    {
      w := CountDistance([c]);
      forall x
        ensures x in counted <==> x in Reach(g, c)
      {
        if x in Reach(g, c) {
          ReachLeast(g, c, counted, x);
        }
      }
      assert counted == Reach(g, c);
      assert Changing(g, {}) == {};
      ReachInList(g, list, c);
      ClearDistance(list);
    }

    method CountInterestingParents(c: nat) returns (n: nat)
      requires IsCommit(g, c)
      ensures n == InterestingCount(g, c)
    {
      n := 0;
      var ps := g.allParents[c];
      var i := 0;
      while i < |ps|
        invariant 0 <= i <= |Parents(g, c)| && n == Interesting(g, Parents(g, c)[..i])
        invariant i < |Parents(g, c)| || i == |ps|
      {
        assert Parents(g, c)[..i + 1][..i] == Parents(g, c)[..i];
        if !g.uninteresting[ps[i]] {
          n := n + 1;
        }
        i := i + 1;
        if g.firstParentOnly {
          break;
        }
      }
      assert Parents(g, c)[..i] == Parents(g, c);
    }

    method InitializeOne(p: nat, ticks: int, ghost list: seq<nat>, ghost n: nat) returns (ticks': int)
      requires InitialTo(g, list, weights, n) && n < |list| && p == list[n]
        && ticks == |Ticked(g, Elems(list[..n]), weights)|
      modifies this`weights
      ensures InitialTo(g, list, weights, n + 1) && ticks' == |Ticked(g, Elems(list[..n + 1]), weights)|
    {
      ticks' := ticks;
      ghost var done, w0 := Elems(list[..n]), weights;
      assert Elems(list[..n + 1]) == done + {p} by { assert list[..n + 1] == list[..n] + [p]; }
      var k := CountInterestingParents(p);
      if k == 0 {
        NoParent(g, p);
        if !g.treesame[p] {
          weights := weights[p := 1];
          ticks' := ticks + 1;
        }
      } else {
        weights := weights[p := if k == 1 then -1 else -2];
      }
      assert weights == w0[p := weights[p]];
      InitialNext(g, list, w0, n, weights[p]);
      TickedSame(g, done, w0, p, weights[p]);
      TickedNew(g, done, weights, p);
    }

    /** Sets the weights that need no counting. */
    method Initialize(list: seq<nat>) returns (ticks: int)
      requires InitialTo(g, list, weights, 0)
      modifies this`weights
      ensures InitialTo(g, list, weights, |list|) && ticks == |Ticked(g, Elems(list), weights)|
    {
      ticks := 0;
      var n := 0;
      assert Ticked(g, Elems(list[..0]), weights) == {};
      while n < |list|
        invariant 0 <= n <= |list| && InitialTo(g, list, weights, n) && ticks == |Ticked(g, Elems(list[..n]), weights)|
      {
        ticks := InitializeOne(list[n], ticks, list, n);
        n := n + 1;
      }
      assert list[..n] == list;
    }

    method ApproxHalfway(p: nat, nr: nat, list: seq<nat>) returns (half: bool)
      requires WeightsFor(g, list, weights) && p in list && weights[p] == Weight(g, p)
      ensures half <==> Halfway(g, p, nr)
    {
      if g.treesame[p] {
        return false;
      }
      var diff := 2 * weights[p] - nr;
      if -1 <= diff <= 1 {
        return true;
      }
      return Abs(diff) < nr / 1024;
    }

    /** The merges, one by one; stops at one that is good enough. */
    method CountMerges(list: seq<nat>, nr: nat, ticks0: int) returns (ticks: int, found: int)
      requires InitialTo(g, list, weights, |list|) && ticks0 == |Ticked(g, Elems(list), weights)| && counted == {}
      modifies this
      ensures WeightsFor(g, list, weights) && Exact(g, list, weights) && counted == {}
      ensures 0 <= found ==> EndsIt(g, list, nr, 0, found) && weights[found] == Weight(g, found)
      ensures found < 0 ==> PassedTo(g, list, weights, nr, 0, 0) && ticks == |Ticked(g, Elems(list), weights)|
    {
      ticks, found := ticks0, -1;
      var i := 0;
      while i < |list|
        invariant 0 <= i <= |list| && MeasuredTo(g, list, weights, i) && ticks == |Ticked(g, Elems(list), weights)|
          && counted == {}
        invariant NoneHalfway(g, list, weights, nr)
      {
        var p := list[i];
        ghost var w0 := weights;
        if weights[p] == -2 {
          assert !g.firstParentOnly by { if g.firstParentOnly { AtMostOne(g, p); } }
          var w := MeasureMerge(p, list);
          TickedSet(g, Elems(list), weights, p, w);
          weights := weights[p := w];
          MeasuredNext(g, list, w0, i, w);
          var half := ApproxHalfway(p, nr, list);
          if half {
            MeasuredIsExact(g, list, weights, i + 1);
            return ticks, p;
          }
          ticks := ticks + 1;
        } else {
          MeasuredNext(g, list, w0, i, w0[p]);
          assert w0[p := w0[p]] == w0;
        }
        i := i + 1;
      }
      MeasuredIsExact(g, list, weights, i);
      MeasuredIsPassed(g, list, weights, nr);
    }

    /** An interesting parent whose weight is known, or -1. */
    method KnownParent(p: nat) returns (q: int)
      requires IsCommit(g, p) && |weights| == |g.allParents|
      ensures q >= 0 ==> InterestingParent(g, p, q) && weights[q] >= 0
      ensures q < 0 ==> ParentOpen(g, p, weights)
    {
      var ps := g.allParents[p];
      var i := 0;
      while i < |ps|
        invariant 0 <= i <= |Parents(g, p)| && (i < |Parents(g, p)| || i == |ps| || i == 0)
        invariant forall k :: 0 <= k < i ==> g.uninteresting[ps[k]] || weights[ps[k]] < 0
      {
        if !g.uninteresting[ps[i]] && weights[ps[i]] >= 0 {
          assert Parents(g, p)[i] == ps[i];
          return ps[i];
        }
        i := i + 1;
        if g.firstParentOnly {
          break;
        }
      }
      assert i == |Parents(g, p)|;
      return -1;
    }

    /** One pass over the list; stops at a commit that is halfway. */
    method FillPass(list: seq<nat>, nr: nat, ticks0: int, ghost k: nat) returns (ticks: int, found: int)
      requires PassedTo(g, list, weights, nr, k, 0) && ticks0 == |Ticked(g, Elems(list), weights)|
      modifies this`weights
      ensures Filling(g, list, weights)
        && (0 <= found ==> EndsIt(g, list, nr, k + 1, found) && weights[found] == Weight(g, found))
      ensures found < 0 ==> PassedTo(g, list, weights, nr, k + 1, 0) && ticks == |Ticked(g, Elems(list), weights)|
    {
      ticks, found := ticks0, -1;
      var i := 0;
      while i < |list|
        invariant 0 <= i <= |list| && PassedTo(g, list, weights, nr, k, i) && ticks == |Ticked(g, Elems(list), weights)|
      {
        var p := list[i];
        if weights[p] >= 0 {
          PassedKnown(g, list, weights, nr, k, i);
        } else {
          var q := KnownParent(p);
          if q < 0 {
            PassedOpen(g, list, weights, nr, k, i);
          } else {
            var half;
            ticks, half := FillOne(p, q, nr, ticks, list, k, i);
            if half {
              return ticks, p;
            }
          }
        }
        i := i + 1;
      }
      PassEnds(g, list, weights, nr, k);
    }

    /** The weight of a commit from that of its only interesting parent. */
    method FillOne(p: nat, q: nat, nr: nat, ticks: int, list: seq<nat>, ghost k: nat, ghost i: nat)
      returns (ticks': int, half: bool)
      requires PassedTo(g, list, weights, nr, k, i) && i < |list| && p == list[i] && weights[p] < 0
      requires ticks == |Ticked(g, Elems(list), weights)| && InterestingParent(g, p, q) && weights[q] >= 0
      modifies this`weights
      ensures Filling(g, list, weights) && ticks' == |Ticked(g, Elems(list), weights)| && weights[p] == Weight(g, p)
      ensures if half then EndsIt(g, list, nr, k + 1, p) else PassedTo(g, list, weights, nr, k, i + 1)
    {
      ghost var w := weights;
      ghost var o := OnlyParent(g, p);
      assert p in list && q in list;
      var v := if g.treesame[p] then weights[q] else weights[q] + 1;
      RoundNow(g, list, w, nr, k, i, q);
      FillingSet(g, list, w, p, v);
      TickedSet(g, Elems(list), w, p, v);
      weights := weights[p := v];
      ticks' := if g.treesame[p] then ticks else ticks + 1;
      half := ApproxHalfway(p, nr, list);
      if !half {
        PassedSet(g, list, w, nr, k, i, v);
      }
    }

    /** Passes until enough weights are known. */
    method Fill(list: seq<nat>, nr: nat, ticks0: int) returns (found: int)
      requires PassedTo(g, list, weights, nr, 0, 0) && ticks0 == |Ticked(g, Elems(list), weights)|
        && nr == Count(g, Elems(list))
      modifies this`weights
      ensures Filling(g, list, weights)
      ensures 0 <= found ==> EndsIt(g, list, nr, Passes(g, list), found) && weights[found] == Weight(g, found)
      ensures found < 0 ==> PassedTo(g, list, weights, nr, Passes(g, list), 0)
    {
      var ticks := ticks0;
      ghost var k := 0;
      while ticks < nr
        invariant Looping(g, list, weights, nr, k, ticks)
        decreases |g.allParents| - k
      {
        MustGoOn(g, list, weights, nr, k, ticks);
        ticks, found := FillPass(list, nr, ticks, k);
        if found >= 0 {
          EndsLater(g, list, nr, k + 1, Passes(g, list), found);
          return;
        }
        k := k + 1;
      }
      MayStop(g, list, weights, nr, k, ticks);
      found := -1;
    }

    /** The most even known weight among the tree-changing commits. */
    method BestBisection(list: seq<nat>, nr: nat) returns (best: int)
      requires Filling(g, list, weights) && nr == Count(g, Elems(list))
      ensures list == [] <==> best < 0
      ensures best >= 0 ==> best in list
      ensures KnownBest(g, list, weights, best, nr)
    {
      best := if list == [] then -1 else list[0];
      var distance := -1;
      var i := 0;
      while i < |list|
        invariant 0 <= i <= |list| && BestTo(g, list, weights, nr, best, distance, i)
      {
        var p := list[i];
        ghost var b, d := best, distance;
        if !g.treesame[p] {
          var even := weights[p];
          if nr - even < even {
            even := nr - even;
          }
          if even > distance {
            best, distance := p, even;
          }
        }
        BestNext(g, list, weights, nr, b, d, i, best, distance);
        i := i + 1;
      }
      BestIsKnown(g, list, weights, nr, best, distance);
    }

    /** Fills in the weights and picks a commit; early if it was picked before all weights were looked at.
        What is picked, and when that is right, depends on the graph and the order of the list alone. */
    method DoFindBisection(list: seq<nat>, nr: nat) returns (best: int, ghost early: bool)
      requires counted == {} && InitialTo(g, list, weights, 0) && nr == Count(g, Elems(list))
      modifies this
      ensures counted == {} && WeightsFor(g, list, weights) && Exact(g, list, weights)
      ensures Picked(g, list, nr, Passes(g, list), best) && (early <==> HalfwayBy(g, list, nr, Passes(g, list)))
      ensures early ==> weights[best] == Weight(g, best)
      ensures !early ==> KnownTo(g, list, weights, Passes(g, list), 0)
      ensures !early ==> (Complete(g, list, weights) <==> AllReady(g, list, Passes(g, list)))
      ensures ParentsFirst(g, list) ==> (early || Complete(g, list, weights) <==> SeesEnough(g, list, nr))
    {
      early := true;
      var ticks := Initialize(list);
      assert ParentsFirst(g, list) ==>
        (SeesEnough(g, list, nr) <==>
         HalfwayBy(g, list, nr, Passes(g, list)) || AllReady(g, list, Passes(g, list))) by {
        if ParentsFirst(g, list) {
          SeesEnoughExactly(g, list, nr);
        }
      }
      ticks, best := CountMerges(list, nr, ticks);
      if best >= 0 {
        EndedIsPicked(g, list, best, nr, 0, Passes(g, list));
        return;
      }
      best := Fill(list, nr, ticks);
      if best >= 0 {
        EndedIsPicked(g, list, best, nr, Passes(g, list), Passes(g, list));
        return;
      }
      early := false;
      best := BestBisection(list, nr);
      KnownIsPicked(g, list, weights, best, nr, Passes(g, list));
      CompleteIsReady(g, list, weights, Passes(g, list));
    }

    /** Drops what is not suspect and reverses the rest, counting what changes the tree. */
    method Gather(commits: seq<nat>) returns (list: seq<nat>, all: nat)
      requires Suspects(g, commits)
      ensures ListOk(g, list) && list == Suspected(g, commits) && all == Count(g, Elems(list))
    {
      list, all := [], 0;
      assert Changing(g, {}) == {};
      var i := 0;
      while i < |commits|
        invariant 0 <= i <= |commits| && Gathered(g, commits, list, i) && all == Count(g, Elems(list))
      {
        var c := commits[i];
        GatheredNext(g, commits, list, i);
        if !g.uninteresting[c] {
          list := [c] + list;
          if !g.treesame[c] {
            all := all + 1;
          }
        }
        i := i + 1;
      }
      assert commits[..i] == commits;
    }

    /** Picks a commit from the suspects of a revision walk. It is the right choice exactly if one is in reach
        of the loop; with parents before children, and unless merges that change nothing mislead the counter,
        it is. */
    method FindBisection(commits: seq<nat>) returns (best: int, reaches: int, all: nat)
      requires counted == {} && Suspects(g, commits)
      modifies this
      ensures counted == {} && ListOk(g, Suspected(g, commits)) && all == Count(g, Elems(Suspected(g, commits)))
      ensures var list := Suspected(g, commits);
        && Picked(g, list, all, Passes(g, list), best)
        && (best >= 0 && Ready(g, list, Passes(g, list), best) ==> reaches == Weight(g, best))
        && ((best >= 0 && Chosen(g, list, best, all)) <==> Reachable(g, list, all, Passes(g, list)))
        && (ParentsFirst(g, list) ==>
            (Reachable(g, list, all, Passes(g, list)) <==> exists c :: InTime(g, list, all, c)))
        && (all > 0 && (NoTreesameMerge(g, list) || (ParentsFirst(g, list) && SeesEnough(g, list, all))) ==>
            best >= 0 && Chosen(g, list, best, all))
    {
      var suspects;
      suspects, all := Gather(commits);
      weights := seq(|g.allParents|, _ => 0);
      ghost var early;
      assert forall i :: 0 <= i < |suspects| ==> suspects[i] in suspects;
      best, early := DoFindBisection(suspects, all);
      reaches := if best >= 0 then weights[best] else 0;
      PickedExactly(g, suspects, all, Passes(g, suspects), best);
      RightPick(g, suspects, all, best);
      assert ParentsFirst(g, suspects) ==>
        (Reachable(g, suspects, all, Passes(g, suspects)) <==> exists c :: InTime(g, suspects, all, c)) by {
        if ParentsFirst(g, suspects) {
          ReachableInOrder(g, suspects, all);
        }
      }
    }
  }

  /** Conditions under which the pick is right. */
  lemma RightPick(g: Graph, list: seq<nat>, nr: nat, best: int)
    requires ListOk(g, list) && nr == Count(g, Elems(list)) && Picked(g, list, nr, Passes(g, list), best)
    ensures nr > 0 && (NoTreesameMerge(g, list) || (ParentsFirst(g, list) && SeesEnough(g, list, nr))) ==>
      best >= 0 && Chosen(g, list, best, nr)
  {
    if nr > 0 && (NoTreesameMerge(g, list) || (ParentsFirst(g, list) && SeesEnough(g, list, nr))) {
      if NoTreesameMerge(g, list) {
        CountedAll(g, list);
      } else {
        SeesEnoughExactly(g, list, nr);
      }
      PickedWell(g, list, nr, Passes(g, list), best);
    }
  }

  /** The suspects in the order the search looks at them. */
  function Suspected(g: Graph, commits: seq<nat>): seq<nat> {
    if commits == [] then []
    else
      var last := commits[|commits| - 1];
      (if last < |g.uninteresting| && !g.uninteresting[last] then [last] else []) +
        Suspected(g, commits[..|commits| - 1])
  }

  ghost predicate Distinct(list: seq<nat>) { forall j, k :: 0 <= j < k < |list| ==> list[j] != list[k] }

  /** The list has just the interesting ones of these commits. */
  ghost predicate Sifts(g: Graph, commits: seq<nat>, list: seq<nat>) {
    forall c :: c in list <==> c in commits && c < |g.uninteresting| && !g.uninteresting[c]
  }

  ghost predicate Gathered(g: Graph, commits: seq<nat>, list: seq<nat>, i: nat)
    requires Suspects(g, commits) && i <= |commits|
  {
    list == Suspected(g, commits[..i]) && Sifts(g, commits[..i], list) && Distinct(list)
  }

  /** What the revision walk hands over: distinct commits, with every interesting parent of an interesting one. */
  ghost predicate Suspects(g: Graph, commits: seq<nat>) {
    && Dag(g) && (forall c :: c in commits ==> IsCommit(g, c))
    && (forall i :: 0 <= i < |commits| ==> commits[i] < |g.allParents|)
    && (forall i, j :: 0 <= i < j < |commits| ==> commits[i] != commits[j])
    && (forall c, p :: c in commits && !g.uninteresting[c] && InterestingParent(g, c, p) ==> p in commits)
  }

  lemma ElemsAdd(list: seq<nat>, c: nat)
    ensures Elems([c] + list) == Elems(list) + {c}
  {
  }

  lemma SuspectedNext(g: Graph, commits: seq<nat>, i: nat)
    requires i < |commits| && commits[i] < |g.uninteresting|
    ensures Suspected(g, commits[..i + 1]) == (if g.uninteresting[commits[i]] then [] else [commits[i]]) +
      Suspected(g, commits[..i])
  {
    assert commits[..i + 1][..i] == commits[..i];
  }

  lemma SiftsNext(g: Graph, before: seq<nat>, list: seq<nat>, c: nat, after: seq<nat>)
    requires Sifts(g, before, list) && c < |g.uninteresting| && after == before + [c]
    ensures Sifts(g, after, if g.uninteresting[c] then list else [c] + list)
  {
  }

  lemma DistinctNext(list: seq<nat>, c: nat)
    requires Distinct(list) && c !in list
    ensures Distinct([c] + list)
  {
  }

  lemma GatheredNext(g: Graph, commits: seq<nat>, list: seq<nat>, i: nat)
    requires Suspects(g, commits) && i < |commits| && Gathered(g, commits, list, i)
    ensures g.uninteresting[commits[i]] ==> Gathered(g, commits, list, i + 1)
    ensures !g.uninteresting[commits[i]] ==> Gathered(g, commits, [commits[i]] + list, i + 1)
    ensures !g.uninteresting[commits[i]] ==>
      Count(g, Elems([commits[i]] + list)) == Count(g, Elems(list)) + if g.treesame[commits[i]] then 0 else 1
  {
    var c := commits[i];
    SuspectedNext(g, commits, i);
    assert commits[..i + 1] == commits[..i] + [c] && [] + list == list;
    SiftsNext(g, commits[..i], list, c, commits[..i + 1]);
    assert c !in list;
    DistinctNext(list, c);
    ElemsAdd(list, c);
    CountAdd(g, Elems(list), c);
  }

  // ---- merges that change nothing mislead the counter ----

  // a strand 0-1-2-3, and three merges of 0 and 1 that change nothing
  function Strand(): Graph {
    Graph([[], [0], [1], [2], [0, 1], [0, 1], [0, 1]], [false, false, false, false, true, true, true],
          [false, false, false, false, false, false, false], false)
  }

  lemma StrandCounts()
    ensures Dag(Strand()) && forall c :: 0 <= c < 7 ==> InterestingCount(Strand(), c) == |Strand().allParents[c]|
  {
    var g := Strand();
    assert Dag(g);
    forall c | 0 <= c < 7
      ensures InterestingCount(g, c) == |g.allParents[c]|
    {
      var ps := Parents(g, c);
      if |ps| > 0 {
        var p1 := ps[..|ps| - 1];
        assert Interesting(g, ps) == Interesting(g, p1) + 1;
        if |p1| > 0 {
          assert p1[..|p1| - 1] == [];
          assert Interesting(g, p1) == 1;
        }
      }
    }
  }

  function StrandList(): seq<nat> { seq(7, i => i) }

  lemma StrandHas(c: nat)
    ensures c in StrandList() <==> c < 7
  {
    assert c < 7 ==> StrandList()[c] == c;
  }

  lemma StrandIsOk()
    ensures ListOk(Strand(), StrandList()) && ParentsFirst(Strand(), StrandList())
  {
    StrandCounts();
    var g, list := Strand(), StrandList();
    forall c: nat
      ensures c in list <==> c < 7
    {
      StrandHas(c);
    }
    forall c, p | c in list && InterestingParent(g, c, p)
      ensures Pos(list, p) < Pos(list, c)
    {
      assert list[Pos(list, p)] == Pos(list, p) && list[Pos(list, c)] == Pos(list, c);
    }
  }

  lemma StrandMember(c: nat)
    requires ListOk(Strand(), StrandList())
    ensures c in Started(Strand(), StrandList()) <==> c == 0 || 4 <= c < 7
    ensures c in Changing(Strand(), Elems(StrandList())) <==> c < 4
  {
    StrandCounts();
    StrandHas(c);
  }

  lemma FourOf(s: set<nat>, a: nat, b: nat, c: nat, d: nat)
    requires a < b < c < d && forall x :: x in s <==> x == a || x == b || x == c || x == d
    ensures |s| == 4
  {
    assert s == {a, b, c, d};
  }

  lemma StrandSizes()
    ensures ListOk(Strand(), StrandList()) && |Started(Strand(), StrandList())| == 4
      && Count(Strand(), Elems(StrandList())) == 4
  {
    StrandIsOk();
    forall c: nat
      ensures c in Started(Strand(), StrandList()) <==> c == 0 || c == 4 || c == 5 || c == 6
      ensures c in Changing(Strand(), Elems(StrandList())) <==> c == 0 || c == 1 || c == 2 || c == 3
    {
      StrandMember(c);
    }
    FourOf(Started(Strand(), StrandList()), 0, 4, 5, 6);
    FourOf(Changing(Strand(), Elems(StrandList())), 0, 1, 2, 3);
  }

  lemma StrandFlags(c: nat)
    requires c < 7 && IsCommit(Strand(), c)
    ensures Strand().treesame[c] <==> c >= 4
    ensures InterestingCount(Strand(), c) == 1 <==> 1 <= c < 4
  {
    StrandCounts();
  }

  /** Only commit 0 is ready, though 1 divides more evenly. */
  lemma StrandReady(c: nat)
    requires ListOk(Strand(), StrandList())
    ensures Ready(Strand(), StrandList(), Passes(Strand(), StrandList()), c) <==> c == 0
  {
    StrandHas(c);
    if c < 7 {
      StrandFlags(c);
    }
    if c < 4 {
      StrandIsOk();
      StrandSizes();
      ReadyInOrder(Strand(), StrandList(), c);
    }
  }

  lemma StrandUneven()
    ensures ListOk(Strand(), StrandList()) && 0 in StrandList() && !Chosen(Strand(), StrandList(), 0, 4)
  {
    StrandCounts();
    StrandIsOk();
    var g := Strand();
    StrandHas(0);
    StrandHas(1);
    NoParent(g, 0);
    var q := OnlyParent(g, 1);
    assert q == 0 && Weight(g, 1) == 2;
  }

  /** The fill loop never runs, and whatever is picked of the strand is commit 0. */
  lemma StrandPicked(best: int)
    requires ListOk(Strand(), StrandList()) && Picked(Strand(), StrandList(), 4, Passes(Strand(), StrandList()), best)
    ensures best == 0
  {
    StrandReady(0);
    if best >= 0 {
      StrandReady(best);
    }
    assert Ready(Strand(), StrandList(), Passes(Strand(), StrandList()), 0);
  }

  function StrandCommits(): seq<nat> { [6, 5, 4, 3, 2, 1, 0] }

  lemma StrandSuspects()
    ensures Suspects(Strand(), StrandCommits()) && Suspected(Strand(), StrandCommits()) == StrandList()
  {
    StrandCounts();
    var g, cs := Strand(), StrandCommits();
    forall c: nat | c < 7
      ensures c in cs
    {
      assert cs[6 - c] == c;
    }
    SuspectedSix(g, cs);
  }

  lemma {:induction false} SuspectedSix(g: Graph, cs: seq<nat>)
    requires |g.uninteresting| == 7 && (forall c :: 0 <= c < 7 ==> !g.uninteresting[c])
    requires |cs| <= 7 && forall i :: 0 <= i < |cs| ==> cs[i] == 6 - i
    ensures |Suspected(g, cs)| == |cs| && forall i :: 0 <= i < |cs| ==> Suspected(g, cs)[i] == 7 - |cs| + i
  {
    if cs != [] {
      SuspectedSix(g, cs[..|cs| - 1]);
    }
  }

  /** The search picks commit 0 here, which is not the right choice. */
  method SearchStrand() returns (best: int)
    ensures ListOk(Strand(), StrandList()) && best == 0 && 0 in StrandList() && !Chosen(Strand(), StrandList(), best, 4)
  {
    StrandSuspects();
    StrandSizes();
    StrandUneven();
    var b := new Bisection(Strand());
    var reaches, all;
    best, reaches, all := b.FindBisection(StrandCommits());
    StrandPicked(best);
  }
}
