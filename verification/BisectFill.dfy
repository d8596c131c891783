/**
 What a bisection looks for, and how far the fill loop gets: both in terms of the graph and the order of the list.
 */
module BisectFill {
  import opened BisectGraph

  // ---- the choice ----

  function Abs(x: int): int { if x < 0 then -x else x }

  /** How evenly a weight divides the suspects. */
  function Score(w: int, nr: int): int { if nr - w < w then nr - w else w }

  predicate Near(w: int, nr: nat) { Abs(2 * w - nr) < nr / 1024 }

  /** No tree-changing suspect divides more evenly. */
  ghost predicate BestOf(g: Graph, list: seq<nat>, best: nat, nr: nat)
    requires ListOk(g, list) && best in list
  {
    forall c :: c in list && !g.treesame[c] ==> Score(Weight(g, c), nr) <= Score(Weight(g, best), nr)
  }

  /** A choice that divides the suspects as evenly as possible, or nearly in halves. */
  ghost predicate Chosen(g: Graph, list: seq<nat>, p: nat, nr: nat)
    requires ListOk(g, list) && p in list
  {
    !g.treesame[p] && (BestOf(g, list, p, nr) || Near(Weight(g, p), nr))
  }

  /** What ends the search at once. */
  ghost predicate Halfway(g: Graph, c: nat, nr: nat)
    requires IsCommit(g, c)
  {
    !g.treesame[c] && (Abs(2 * Weight(g, c) - nr) <= 1 || Near(Weight(g, c), nr))
  }

  lemma HalfwayIsChosen(g: Graph, list: seq<nat>, c: nat, nr: nat)
    requires ListOk(g, list) && c in list && Halfway(g, c, nr)
    ensures Chosen(g, list, c, nr)
  {
  }

  /** What divides at least as evenly as a choice is one, too. */
  lemma AtLeastAsEven(g: Graph, list: seq<nat>, c: nat, best: nat, nr: nat)
    requires ListOk(g, list) && c in list && best in list && Chosen(g, list, c, nr)
    requires !g.treesame[best] && Score(Weight(g, c), nr) <= Score(Weight(g, best), nr)
    ensures Chosen(g, list, best, nr)
  {
    if !Near(Weight(g, c), nr) {
      assert BestOf(g, list, c, nr);
    }
  }

  // ---- rounds of the fill loop ----

  lemma SomeOnly(g: Graph, c: nat)
    requires IsCommit(g, c) && InterestingCount(g, c) == 1
    ensures exists q :: InterestingParent(g, c, q)
    ensures forall p: nat, q: nat :: InterestingParent(g, c, p) && InterestingParent(g, c, q) ==> p == q && p < c
  {
    var q := OnlyParent(g, c);
  }

  /** The only interesting parent. */
  ghost function Only(g: Graph, c: nat): (q: nat)
    requires IsCommit(g, c) && InterestingCount(g, c) == 1
    ensures InterestingParent(g, c, q) && q < c
    ensures forall p :: InterestingParent(g, c, p) ==> p == q
  {
    SomeOnly(g, c);
    var q :| InterestingParent(g, c, q);
    q
  }

  ghost function Pos(list: seq<nat>, c: nat): (i: nat)
    requires c in list
    ensures i < |list| && list[i] == c
  {
    if list[0] == c then 0 else 1 + Pos(list[1..], c)
  }

  /** The pass of the fill loop that finds the weight of c: none is needed unless c has one interesting
      parent; then it is the parent's pass if the parent comes first, and the one behind it otherwise. */
  ghost function Round(g: Graph, list: seq<nat>, c: nat): nat
    requires ListOk(g, list) && c in list
    decreases c
  {
    if InterestingCount(g, c) != 1 then 0
    else
      var q := Only(g, c);
      var r := Round(g, list, q);
      if Pos(list, c) < Pos(list, q) then r + 1 else if r == 0 then 1 else r
  }

  lemma {:induction false} RoundBound(g: Graph, list: seq<nat>, c: nat)
    requires ListOk(g, list) && c in list
    ensures Round(g, list, c) <= c
    decreases c
  {
    if InterestingCount(g, c) == 1 {
      RoundBound(g, list, Only(g, c));
    }
  }

  /** What the counter has counted after k passes: known commits that change the tree, and known merges. */
  ghost function TickedBy(g: Graph, list: seq<nat>, k: nat): set<nat>
    requires ListOk(g, list)
  {
    set c | c in list && Round(g, list, c) <= k && (!g.treesame[c] || InterestingCount(g, c) >= 2)
  }

  /** After k passes the counter is large enough to stop. */
  ghost predicate Enough(g: Graph, list: seq<nat>, k: nat)
    requires ListOk(g, list)
  {
    |TickedBy(g, list, k)| >= Count(g, Elems(list))
  }

  lemma AllTicked(g: Graph, list: seq<nat>, k: nat)
    requires ListOk(g, list) && k >= |g.allParents|
    ensures Enough(g, list, k)
  {
    forall c | c in Changing(g, Elems(list))
      ensures c in TickedBy(g, list, k)
    {
      RoundBound(g, list, c);
    }
    SubsetSize(Changing(g, Elems(list)), TickedBy(g, list, k));
  }

  /** The counter is large enough after k passes and not before. */
  ghost predicate StopsAt(g: Graph, list: seq<nat>, k: nat)
    requires ListOk(g, list)
  {
    Enough(g, list, k) && TooFewBefore(g, list, k)
  }

  ghost predicate TooFewBefore(g: Graph, list: seq<nat>, k: nat)
    requires ListOk(g, list)
  {
    forall j: nat :: j < k ==> !Enough(g, list, j)
  }

  lemma NotYetEnough(g: Graph, list: seq<nat>, j: nat)
    requires ListOk(g, list) && !Enough(g, list, j) && TooFewBefore(g, list, j)
    ensures j < |g.allParents| && TooFewBefore(g, list, j + 1)
  {
    if j >= |g.allParents| {
      AllTicked(g, list, j);
    }
  }

  ghost function PassesFrom(g: Graph, list: seq<nat>, j: nat): (k: nat)
    requires ListOk(g, list) && TooFewBefore(g, list, j)
    ensures StopsAt(g, list, k)
    decreases |g.allParents| - j
  {
    if Enough(g, list, j) then j
    else
      NotYetEnough(g, list, j);
      PassesFrom(g, list, j + 1)
  }

  /** How many passes the fill loop makes if nothing halfway is found. */
  ghost function Passes(g: Graph, list: seq<nat>): (k: nat)
    requires ListOk(g, list)
    ensures StopsAt(g, list, k)
  {
    PassesFrom(g, list, 0)
  }

  lemma PassesIs(g: Graph, list: seq<nat>, k: nat)
    requires ListOk(g, list) && StopsAt(g, list, k)
    ensures k == Passes(g, list)
  {
  }

  lemma GoesOn(g: Graph, list: seq<nat>, k: nat)
    requires ListOk(g, list) && TooFewBefore(g, list, k) && !Enough(g, list, k)
    ensures TooFewBefore(g, list, k + 1) && k < |g.allParents| && k + 1 <= Passes(g, list)
  {
    NotYetEnough(g, list, k);
  }

  // ---- what is picked ----

  /** A tree-changing suspect whose weight is known after k passes. */
  ghost predicate Ready(g: Graph, list: seq<nat>, k: nat, c: nat)
    requires ListOk(g, list)
  {
    c in list && !g.treesame[c] && Round(g, list, c) <= k
  }

  ghost predicate AllReady(g: Graph, list: seq<nat>, k: nat)
    requires ListOk(g, list)
  {
    forall c :: c in list && !g.treesame[c] ==> Ready(g, list, k, c)
  }

  /** A commit that is tested for being halfway within k passes, and is. */
  ghost predicate EndsIt(g: Graph, list: seq<nat>, nr: nat, k: nat, c: nat)
    requires ListOk(g, list)
  {
    Ready(g, list, k, c) && InterestingCount(g, c) >= 1 && Halfway(g, c, nr)
  }

  ghost predicate HalfwayBy(g: Graph, list: seq<nat>, nr: nat, k: nat)
    requires ListOk(g, list)
  {
    exists c :: EndsIt(g, list, nr, k, c)
  }

  /** The commit picked if the loop makes up to k passes. */
  ghost predicate Picked(g: Graph, list: seq<nat>, nr: nat, k: nat, best: int)
    requires ListOk(g, list)
  {
    && (list == [] <==> best < 0) && (best >= 0 ==> best in list)
    && (HalfwayBy(g, list, nr, k) ==> best >= 0 && EndsIt(g, list, nr, k, best))
    && (!HalfwayBy(g, list, nr, k) ==> PickedLate(g, list, nr, k, best))
  }

  /** Among those ready none divides more evenly; the head of the list if none is ready. */
  ghost predicate PickedLate(g: Graph, list: seq<nat>, nr: nat, k: nat, best: int)
    requires ListOk(g, list) && (list == [] <==> best < 0)
  {
    && (forall c ::
        Ready(g, list, k, c) ==>
          best >= 0 && Ready(g, list, k, best) && Score(Weight(g, c), nr) <= Score(Weight(g, best), nr))
    && ((forall c :: !Ready(g, list, k, c)) && list != [] ==> best == list[0])
  }

  /**
     The pick is a right choice exactly if some right choice is ready, or none is ready and the list begins with one.
   */
  ghost predicate Reachable(g: Graph, list: seq<nat>, nr: nat, k: nat)
    requires ListOk(g, list)
  {
    || (exists c :: Ready(g, list, k, c) && Chosen(g, list, c, nr))
    || ((forall c :: !Ready(g, list, k, c)) && list != [] && Chosen(g, list, list[0], nr))
  }

  lemma PickedExactly(g: Graph, list: seq<nat>, nr: nat, k: nat, best: int)
    requires ListOk(g, list) && Picked(g, list, nr, k, best)
    ensures (best >= 0 && Chosen(g, list, best, nr)) <==> Reachable(g, list, nr, k)
  {
    if HalfwayBy(g, list, nr, k) {
      HalfwayIsChosen(g, list, best, nr);
      assert Ready(g, list, k, best);
    } else if c :| Ready(g, list, k, c) && Chosen(g, list, c, nr) {
      AtLeastAsEven(g, list, c, best, nr);
    } else if best >= 0 && Chosen(g, list, best, nr) {
      assert !Ready(g, list, k, best);
      assert forall c :: !Ready(g, list, k, c);
    }
  }

  /** With every weight known, or something halfway found, the pick is right. */
  lemma PickedWell(g: Graph, list: seq<nat>, nr: nat, k: nat, best: int)
    requires ListOk(g, list) && Picked(g, list, nr, k, best) && nr == Count(g, Elems(list)) > 0
    requires HalfwayBy(g, list, nr, k) || AllReady(g, list, k)
    ensures best >= 0 && Chosen(g, list, best, nr)
  {
    if HalfwayBy(g, list, nr, k) {
      HalfwayIsChosen(g, list, best, nr);
    } else {
      var c :| c in Changing(g, Elems(list));
      assert Ready(g, list, k, c);
      forall d | d in list && !g.treesame[d]
        ensures Score(Weight(g, d), nr) <= Score(Weight(g, best), nr)
      {
        assert Ready(g, list, k, d);
      }
    }
  }

  // ---- conditions on the list ----

  ghost predicate NoTreesameMerge(g: Graph, list: seq<nat>)
    requires ListOk(g, list)
  {
    forall c :: c in list && g.treesame[c] ==> InterestingCount(g, c) < 2
  }

  lemma {:induction false} SubsetEqual(a: set<nat>, b: set<nat>, x: nat)
    requires a <= b && |a| >= |b| && x in b
    ensures x in a
  {
    if x !in a {
      SubsetSize(a + {x}, b);
    }
  }

  /** Unless merges that change nothing mislead the counter, it stops only when all is known. */
  lemma CountedAll(g: Graph, list: seq<nat>)
    requires ListOk(g, list) && NoTreesameMerge(g, list)
    ensures AllReady(g, list, Passes(g, list))
  {
    var k := Passes(g, list);
    forall c | c in list && !g.treesame[c]
      ensures Ready(g, list, k, c)
    {
      SubsetEqual(TickedBy(g, list, k), Changing(g, Elems(list)), c);
    }
  }

  /** Every interesting parent stands before its children. */
  ghost predicate ParentsFirst(g: Graph, list: seq<nat>)
    requires ListOk(g, list)
  {
    forall c, p :: c in list && InterestingParent(g, c, p) ==> Pos(list, p) < Pos(list, c)
  }

  lemma {:induction false} OneRound(g: Graph, list: seq<nat>, c: nat)
    requires ListOk(g, list) && ParentsFirst(g, list) && c in list
    ensures Round(g, list, c) == if InterestingCount(g, c) == 1 then 1 else 0
    decreases c
  {
    if InterestingCount(g, c) == 1 {
      OneRound(g, list, Only(g, c));
    }
  }

  lemma OneRoundEach(g: Graph, list: seq<nat>)
    requires ListOk(g, list) && ParentsFirst(g, list)
    ensures forall c :: c in list ==> Round(g, list, c) == if InterestingCount(g, c) == 1 then 1 else 0
  {
    forall c | c in list
      ensures Round(g, list, c) == if InterestingCount(g, c) == 1 then 1 else 0
    {
      OneRound(g, list, c);
    }
  }

  lemma HeadHasNone(g: Graph, list: seq<nat>)
    requires ListOk(g, list) && ParentsFirst(g, list) && list != []
    ensures InterestingCount(g, list[0]) != 1
  {
    if InterestingCount(g, list[0]) == 1 {
      var q := Only(g, list[0]);
    }
  }

  /** What is counted before the fill loop: roots that change the tree, and all merges. */
  ghost function Started(g: Graph, list: seq<nat>): set<nat>
    requires ListOk(g, list)
  {
    set c | c in list && InterestingCount(g, c) != 1 && (!g.treesame[c] || InterestingCount(g, c) >= 2)
  }

  lemma TickedInOrder(g: Graph, list: seq<nat>)
    requires ListOk(g, list) && ParentsFirst(g, list)
    ensures TickedBy(g, list, 0) == Started(g, list) && Enough(g, list, 1)
  {
    OneRoundEach(g, list);
    var k := |g.allParents| + 1;
    AllTicked(g, list, k);
    assert TickedBy(g, list, 1) == TickedBy(g, list, k);
  }

  /** With parents first the loop makes one pass, or none if the counter starts too high. */
  lemma OnePass(g: Graph, list: seq<nat>)
    requires ListOk(g, list) && ParentsFirst(g, list)
    ensures Passes(g, list) == if |Started(g, list)| < Count(g, Elems(list)) then 1 else 0
  {
    TickedInOrder(g, list);
    PassesIs(g, list, if Enough(g, list, 0) then 0 else 1);
  }

  /** Some commit that changes the tree has one interesting parent. */
  ghost predicate HasSingle(g: Graph, list: seq<nat>)
    requires ListOk(g, list)
  {
    exists c :: c in list && !g.treesame[c] && InterestingCount(g, c) == 1
  }

  ghost predicate HalfwayMerge(g: Graph, list: seq<nat>, nr: nat)
    requires ListOk(g, list)
  {
    exists c :: c in list && InterestingCount(g, c) >= 2 && Halfway(g, c, nr)
  }

  /** What can be said before the search of whether it will see enough, for a list with parents first. */
  ghost predicate SeesEnough(g: Graph, list: seq<nat>, nr: nat)
    requires ListOk(g, list)
  {
    HalfwayMerge(g, list, nr) || |Started(g, list)| < nr || !HasSingle(g, list)
  }

  lemma SeesEnoughExactly(g: Graph, list: seq<nat>, nr: nat)
    requires ListOk(g, list) && ParentsFirst(g, list) && nr == Count(g, Elems(list))
    ensures var k := Passes(g, list); SeesEnough(g, list, nr) <==> HalfwayBy(g, list, nr, k) || AllReady(g, list, k)
  {
    var k := Passes(g, list);
    OnePass(g, list);
    OneRoundEach(g, list);
    if k == 0 {
      assert HalfwayMerge(g, list, nr) <==> HalfwayBy(g, list, nr, k) by {
        if c :| c in list && InterestingCount(g, c) >= 2 && Halfway(g, c, nr) {
          assert EndsIt(g, list, nr, k, c);
        }
      }
    }
  }

  lemma ReadyInOrder(g: Graph, list: seq<nat>, c: nat)
    requires ListOk(g, list) && ParentsFirst(g, list) && c in list && !g.treesame[c]
    ensures Ready(g, list, Passes(g, list), c) <==>
      |Started(g, list)| < Count(g, Elems(list)) || InterestingCount(g, c) != 1
  {
    OnePass(g, list);
    OneRound(g, list, c);
  }

  /** A right choice that does not wait for the fill loop, or is found by it. */
  ghost predicate InTime(g: Graph, list: seq<nat>, nr: nat, c: nat)
    requires ListOk(g, list)
  {
    c in list && Chosen(g, list, c, nr) && (|Started(g, list)| < nr || InterestingCount(g, c) != 1)
  }

  /** With parents first, the pick is right exactly if there is one. */
  lemma ReachableInOrder(g: Graph, list: seq<nat>, nr: nat)
    requires ListOk(g, list) && ParentsFirst(g, list) && nr == Count(g, Elems(list))
    ensures Reachable(g, list, nr, Passes(g, list)) <==> exists c :: InTime(g, list, nr, c)
  {
    var k := Passes(g, list);
    if c :| InTime(g, list, nr, c) {
      ReadyInOrder(g, list, c);
    }
    if Reachable(g, list, nr, k) {
      if c :| Ready(g, list, k, c) && Chosen(g, list, c, nr) {
        ReadyInOrder(g, list, c);
        assert InTime(g, list, nr, c);
      } else {
        HeadHasNone(g, list);
        ReadyInOrder(g, list, list[0]);
      }
    }
  }
}
