/**
 The rule that fuzzy matching follows, told without its scans: of all lines of B the surest is placed first, and it
 parts the others into those before and those after it.
 */
module FuzzyRule {
  import opened Fingerprints
  import opened FuzzySpec

  // ---- how like two lines are, and how sure a line is ----

  /** The pairs that two lines share, with a weight that falls with the distance from the expected place. */
  function Likeness(g: Geometry, fpA: seq<Fingerprint>, fpB: seq<Fingerprint>, b: nat, a: nat): int
    requires a < |fpA| && b < |fpB|
  {
    |fpB[b] * fpA[a]| * (1000 - if a >= g.closest(b) then a - g.closest(b) else g.closest(b) - a)
  }

  /** Line b is compared with the lines of the range near its expected place. */
  ghost predicate Compared(g: Geometry, r: Range, b: nat, a: int) {
    r.startA <= a < r.endA && g.closest(b) - g.maxA <= a <= g.closest(b) + g.maxA
  }

  ghost predicate InRange(g: Geometry, fpA: seq<Fingerprint>, fpB: seq<Fingerprint>, r: Range, b: int) {
    Fits(g, fpA, fpB, r) && r.startB <= b < r.endB
  }

  /** Line b shares nothing with any line it is compared with. */
  ghost predicate Hopeless(g: Geometry, fpA: seq<Fingerprint>, fpB: seq<Fingerprint>, r: Range, b: int)
    requires InRange(g, fpA, fpB, r, b)
  {
    forall a :: Compared(g, r, b, a) ==> fpB[b] * fpA[a] == multiset{}
  }

  /** Line a is the first of those that b is most like, and second the greatest likeness of b to any other, or 0. */
  ghost predicate Likest(g: Geometry, fpA: seq<Fingerprint>, fpB: seq<Fingerprint>, r: Range, b: int, a: int,
                         best: int, second: int)
    requires InRange(g, fpA, fpB, r, b)
  {
    && Compared(g, r, b, a) && Likeness(g, fpA, fpB, b, a) == best > 0 && second >= 0
    && (forall a' :: Compared(g, r, b, a') ==> Likeness(g, fpA, fpB, b, a') <= best)
    && (forall a' :: Compared(g, r, b, a') && a' < a ==> Likeness(g, fpA, fpB, b, a') < best)
    && (forall a' :: Compared(g, r, b, a') && a' != a ==> Likeness(g, fpA, fpB, b, a') <= second)
    && (second > 0 ==> exists a' :: Compared(g, r, b, a') && a' != a && Likeness(g, fpA, fpB, b, a') == second)
  }

  /** Line b would be placed at line a, and is that sure: twice its best likeness less the next. */
  ghost predicate Sure(g: Geometry, fpA: seq<Fingerprint>, fpB: seq<Fingerprint>, r: Range, b: int, a: int, sure: int)
  {
    InRange(g, fpA, fpB, r, b) && exists best, second ::
      Likest(g, fpA, fpB, r, b, a, best, second) && sure == 2 * best - second
  }

  /** No line is surer than that, and none before b as sure. */
  ghost predicate NoneSurer(g: Geometry, fpA: seq<Fingerprint>, fpB: seq<Fingerprint>, r: Range, b: int, sure: int) {
    forall b', a', sure' :: Sure(g, fpA, fpB, r, b', a', sure') ==> sure' <= sure && (b' < b ==> sure' < sure)
  }

  ghost predicate Surest(g: Geometry, fpA: seq<Fingerprint>, fpB: seq<Fingerprint>, r: Range, b: int, a: int) {
    exists sure :: Sure(g, fpA, fpB, r, b, a, sure) && NoneSurer(g, fpA, fpB, r, b, sure)
  }

  // ---- the rule ----

  /** The matches of the lines of B in the range, and what is left of the fingerprints of A. */
  ghost predicate Follows(g: Geometry, fpA: seq<Fingerprint>, fpB: seq<Fingerprint>, r: Range, ms: seq<int>,
                          fpA': seq<Fingerprint>)
    requires Fits(g, fpA, fpB, r)
    decreases r.endB - r.startB, 1
  {
    && |ms| == r.endB - r.startB
    && if forall b :: r.startB <= b < r.endB ==> Hopeless(g, fpA, fpB, r, b)
       then fpA' == fpA && forall i :: 0 <= i < |ms| ==> ms[i] == -1
       else exists b, a, mid :: PlacesFirst(g, fpA, fpB, r, ms, fpA', b, a, mid)
  }

  /**
     The surest line b is placed at a, which loses the pairs of b. Then come the lines before b, matched up to a, and
     then those behind it, matched from a on.
   */
  ghost predicate PlacesFirst(g: Geometry, fpA: seq<Fingerprint>, fpB: seq<Fingerprint>, r: Range, ms: seq<int>,
                              fpA': seq<Fingerprint>, b: int, a: int, mid: seq<Fingerprint>)
    requires Fits(g, fpA, fpB, r) && |ms| == r.endB - r.startB
    decreases r.endB - r.startB, 0
  {
    && r.startA <= a < r.endA && r.startB <= b < r.endB && |mid| == |fpA|
    && Surest(g, fpA, fpB, r, b, a) && ms[b - r.startB] == a
    && Follows(g, fpA[a := fpA[a] - fpB[b]], fpB, Range(r.startA, a + 1, r.startB, b), ms[..b - r.startB], mid)
    && Follows(g, mid, fpB, Range(a, r.endA, b + 1, r.endB), ms[b - r.startB + 1..], fpA')
  }

  // ---- what a scan finds ----

  lemma LikenessIs(g: Geometry, fpA: seq<Fingerprint>, fpB: seq<Fingerprint>, r: Range, b: nat, a: nat)
    requires InRange(g, fpA, fpB, r, b)
    ensures Compared(g, r, b, a) <==> WindowStart(g, r.startA, b) <= a < WindowEnd(g, r.endA, b)
    ensures a < |fpA| ==> Likeness(g, fpA, fpB, b, a) == Value(g, fpA, fpB, b, a)
  {
  }

  lemma NothingShared(x: nat, d: int)
    requires d > 0
    ensures x * d >= 0 && (x * d == 0 ==> x == 0)
  {
    if x > 0 {
      AtLeastOnce(x, d);
    }
  }

  /** A line is hopeless just if the scan finds nothing. */
  lemma ScanHopeless(g: Geometry, fpA: seq<Fingerprint>, fpB: seq<Fingerprint>, r: Range, b: nat)
    requires InRange(g, fpA, fpB, r, b)
    ensures Hopeless(g, fpA, fpB, r, b) <==> LineScan(g, fpA, fpB, r, b).best == 0
  {
    var s := LineScan(g, fpA, fpB, r, b);
    ScanIsBest(g, fpA, fpB, r, b);
    if s.best == 0 {
      forall a | Compared(g, r, b, a)
        ensures fpB[b] * fpA[a] == multiset{}
      {
        LikenessIs(g, fpA, fpB, r, b, a);
        NothingShared(|fpB[b] * fpA[a]|, 1000 - Distance(g, b, a));
      }
    } else {
      LikenessIs(g, fpA, fpB, r, b, s.bestLine);
      assert fpB[b] * fpA[s.bestLine] != multiset{};
    }
  }

  lemma ScanLikest(g: Geometry, fpA: seq<Fingerprint>, fpB: seq<Fingerprint>, r: Range, b: nat)
    requires InRange(g, fpA, fpB, r, b) && LineScan(g, fpA, fpB, r, b).best > 0
    ensures var s := LineScan(g, fpA, fpB, r, b); Likest(g, fpA, fpB, r, b, s.bestLine, s.best, s.second)
  {
    var s := LineScan(g, fpA, fpB, r, b);
    ScanIsBest(g, fpA, fpB, r, b);
    forall a: nat
      ensures Compared(g, r, b, a) <==> WindowStart(g, r.startA, b) <= a < WindowEnd(g, r.endA, b)
      ensures a < |fpA| ==> Likeness(g, fpA, fpB, b, a) == Value(g, fpA, fpB, b, a)
    {
      LikenessIs(g, fpA, fpB, r, b, a);
    }
    if s.second > 0 {
      assert Compared(g, r, b, s.secondLine);
    }
  }

  lemma LikestUnique(g: Geometry, fpA: seq<Fingerprint>, fpB: seq<Fingerprint>, r: Range, b: int, a: int, best: int,
                     second: int, a': int, best': int, second': int)
    requires InRange(g, fpA, fpB, r, b) && Likest(g, fpA, fpB, r, b, a, best, second)
      && Likest(g, fpA, fpB, r, b, a', best', second')
    ensures a == a' && best == best' && second == second'
  {
    assert best == best';
    assert a == a';
  }

  /** A line is sure of its place just as the scan's certainty tells. */
  lemma SureIs(g: Geometry, fpA: seq<Fingerprint>, fpB: seq<Fingerprint>, r: Range, b: nat, a: int, sure: int)
    requires InRange(g, fpA, fpB, r, b)
    ensures var s := LineScan(g, fpA, fpB, r, b);
      Sure(g, fpA, fpB, r, b, a, sure) <==> s.best > 0 && a == s.bestLine && sure == Certainty(s)
  {
    var s := LineScan(g, fpA, fpB, r, b);
    ScanOrdered(g, fpA, fpB, r, b);
    if s.best > 0 {
      ScanLikest(g, fpA, fpB, r, b);
      if Sure(g, fpA, fpB, r, b, a, sure) {
        var best, second :| Likest(g, fpA, fpB, r, b, a, best, second) && sure == 2 * best - second;
        LikestUnique(g, fpA, fpB, r, b, a, best, second, s.bestLine, s.best, s.second);
      }
    } else {
      ScanHopeless(g, fpA, fpB, r, b);
    }
  }

  /** What is recorded of a line: that it is hopeless, or where it would be placed and how sure it is. */
  ghost predicate Recorded(g: Geometry, fpA: seq<Fingerprint>, fpB: seq<Fingerprint>, r: Range, b: int, a: int,
                           sure: int)
    requires InRange(g, fpA, fpB, r, b)
  {
    if a == -1 then sure == -2 && Hopeless(g, fpA, fpB, r, b) else Sure(g, fpA, fpB, r, b, a, sure)
  }

  lemma ScanRecorded(g: Geometry, fpA: seq<Fingerprint>, fpB: seq<Fingerprint>, r: Range, b: nat, s: Scan)
    requires InRange(g, fpA, fpB, r, b) && s == LineScan(g, fpA, fpB, r, b)
    ensures Recorded(g, fpA, fpB, r, b, Match(s), Certainty(s))
  {
    ScanOrdered(g, fpA, fpB, r, b);
    ScanHopeless(g, fpA, fpB, r, b);
    SureIs(g, fpA, fpB, r, b, Match(s), Certainty(s));
  }

  lemma {:induction false} MostCertainIs(ss: seq<Scan>, n: nat)
    requires n <= |ss| && forall j :: 0 <= j < n ==> 0 <= ss[j].second <= ss[j].best
    ensures var m := MostCertain(ss, n);
      && (m == -1 ==> forall j :: 0 <= j < n ==> ss[j].best == 0)
      && (m != -1 ==>
            && ss[m].best > 0
            && (forall j :: 0 <= j < n && ss[j].best > 0 ==> Certainty(ss[j]) <= Certainty(ss[m]))
            && (forall j :: 0 <= j < m && ss[j].best > 0 ==> Certainty(ss[j]) < Certainty(ss[m])))
  {
    if n > 0 {
      MostCertainIs(ss, n - 1);
    }
  }

  lemma ScansOrdered(g: Geometry, fpA: seq<Fingerprint>, fpB: seq<Fingerprint>, r: Range, ss: seq<Scan>)
    requires Fits(g, fpA, fpB, r) && ss == Scans(g, fpA, fpB, r)
    ensures forall j :: 0 <= j < |ss| ==> 0 <= ss[j].second <= ss[j].best
  {
    forall j | 0 <= j < |ss|
      ensures 0 <= ss[j].second <= ss[j].best
    {
      ScanOrdered(g, fpA, fpB, r, r.startB + j);
    }
  }

  lemma AllHopeless(g: Geometry, fpA: seq<Fingerprint>, fpB: seq<Fingerprint>, r: Range, ss: seq<Scan>)
    requires Fits(g, fpA, fpB, r) && ss == Scans(g, fpA, fpB, r)
    ensures (forall b :: r.startB <= b < r.endB ==> Hopeless(g, fpA, fpB, r, b)) <==>
      (forall j :: 0 <= j < |ss| ==> ss[j].best == 0)
  {
    forall j | 0 <= j < |ss|
      ensures Hopeless(g, fpA, fpB, r, r.startB + j) <==> ss[j].best == 0
    {
      ScanHopeless(g, fpA, fpB, r, r.startB + j);
    }
    forall b | r.startB <= b < r.endB
      ensures Hopeless(g, fpA, fpB, r, b) <==> ss[b - r.startB].best == 0
    {
      ScanHopeless(g, fpA, fpB, r, b);
    }
  }

  lemma NoneMoreCertain(g: Geometry, fpA: seq<Fingerprint>, fpB: seq<Fingerprint>, r: Range, ss: seq<Scan>, i: nat,
                        j: nat)
    requires Fits(g, fpA, fpB, r) && ss == Scans(g, fpA, fpB, r) && i == MostCertain(ss, |ss|) && j < |ss|
      && ss[j].best > 0
    ensures Certainty(ss[j]) <= Certainty(ss[i]) && (j < i ==> Certainty(ss[j]) < Certainty(ss[i]))
  {
    ScansOrdered(g, fpA, fpB, r, ss);
    MostCertainIs(ss, |ss|);
  }

  lemma NotSurer(g: Geometry, fpA: seq<Fingerprint>, fpB: seq<Fingerprint>, r: Range, ss: seq<Scan>, i: nat, b: int,
                 a: int, sure: int)
    requires Fits(g, fpA, fpB, r) && ss == Scans(g, fpA, fpB, r) && i == MostCertain(ss, |ss|)
      && Sure(g, fpA, fpB, r, b, a, sure)
    ensures sure <= Certainty(ss[i]) && (b < r.startB + i ==> sure < Certainty(ss[i]))
  {
    SureIs(g, fpA, fpB, r, b, a, sure);
    assert ss[b - r.startB] == LineScan(g, fpA, fpB, r, b);
    NoneMoreCertain(g, fpA, fpB, r, ss, i, b - r.startB);
  }

  /** The line with the greatest certainty is the surest. */
  lemma SurestIs(g: Geometry, fpA: seq<Fingerprint>, fpB: seq<Fingerprint>, r: Range, ss: seq<Scan>, i: nat)
    requires Fits(g, fpA, fpB, r) && ss == Scans(g, fpA, fpB, r) && i == MostCertain(ss, |ss|)
    ensures Surest(g, fpA, fpB, r, r.startB + i, Match(ss[i]))
  {
    ScanOrdered(g, fpA, fpB, r, r.startB + i);
    SureIs(g, fpA, fpB, r, r.startB + i, ss[i].bestLine, Certainty(ss[i]));
    forall b, a, sure | Sure(g, fpA, fpB, r, b, a, sure)
      ensures sure <= Certainty(ss[i]) && (b < r.startB + i ==> sure < Certainty(ss[i]))
    {
      NotSurer(g, fpA, fpB, r, ss, i, b, a, sure);
    }
    assert NoneSurer(g, fpA, fpB, r, r.startB + i, Certainty(ss[i]));
  }

  // ---- the reference follows the rule ----

  lemma JoinFollows(g: Geometry, fpA: seq<Fingerprint>, fpB: seq<Fingerprint>, r: Range, i: nat, a: nat, left: Outcome,
                    right: Outcome, ms: seq<int>)
    requires Fits(g, fpA, fpB, r) && Picks(r, i, a) && Surest(g, fpA, fpB, r, r.startB + i, a)
      && |left.fpA| == |fpA| && |left.matches| == i && |right.matches| == r.endB - r.startB - i - 1
    requires Follows(g, Spend(fpA, a, fpB[r.startB + i]), fpB, Left(r, i, a), left.matches, left.fpA)
      && Follows(g, left.fpA, fpB, Right(r, i, a), right.matches, right.fpA)
      && ms == left.matches + [a] + right.matches
    ensures |ms| == r.endB - r.startB && PlacesFirst(g, fpA, fpB, r, ms, right.fpA, r.startB + i, a, left.fpA)
  {
    assert ms[..i] == left.matches && ms[i + 1..] == right.matches;
  }

  /** Matching with everything recomputed follows the rule. */
  lemma {:induction false} ReferenceFollows(g: Geometry, fpA: seq<Fingerprint>, fpB: seq<Fingerprint>, r: Range,
                                            o: Outcome)
    requires Fits(g, fpA, fpB, r) && o == Reference(g, fpA, fpB, r)
    ensures Follows(g, fpA, fpB, r, o.matches, o.fpA)
    decreases r.endB - r.startB
  {
    var ss := Scans(g, fpA, fpB, r);
    var i := MostCertain(ss, |ss|);
    ScansOrdered(g, fpA, fpB, r, ss);
    MostCertainIs(ss, |ss|);
    AllHopeless(g, fpA, fpB, r, ss);
    if i != -1 {
      var a := Match(ss[i]);
      SurestIs(g, fpA, fpB, r, ss, i);
      Unfold(g, fpA, fpB, r, ss, i, a);
      var left := Reference(g, Spend(fpA, a, fpB[r.startB + i]), fpB, Left(r, i, a));
      var right := Reference(g, left.fpA, fpB, Right(r, i, a));
      ReferenceFollows(g, Spend(fpA, a, fpB[r.startB + i]), fpB, Left(r, i, a), left);
      ReferenceFollows(g, left.fpA, fpB, Right(r, i, a), right);
      JoinFollows(g, fpA, fpB, r, i, a, left, right, o.matches);
    }
  }

  lemma SurestUnique(g: Geometry, fpA: seq<Fingerprint>, fpB: seq<Fingerprint>, r: Range, b: int, a: int, b': int,
                     a': int)
    requires Surest(g, fpA, fpB, r, b, a) && Surest(g, fpA, fpB, r, b', a')
    ensures b == b' && a == a'
  {
    var sure :| Sure(g, fpA, fpB, r, b, a, sure) && NoneSurer(g, fpA, fpB, r, b, sure);
    var other :| Sure(g, fpA, fpB, r, b', a', other) && NoneSurer(g, fpA, fpB, r, b', other);
    assert b == b';
    SureIs(g, fpA, fpB, r, b, a, sure);
    SureIs(g, fpA, fpB, r, b, a', other);
  }

  lemma Assembled(ms: seq<int>, ms': seq<int>, i: nat)
    requires |ms| == |ms'| && i < |ms| && ms[..i] == ms'[..i] && ms[i] == ms'[i] && ms[i + 1..] == ms'[i + 1..]
    ensures ms == ms'
  {
    assert ms == ms[..i] + [ms[i]] + ms[i + 1..] && ms' == ms'[..i] + [ms'[i]] + ms'[i + 1..];
  }

  /** The rule leaves no choice. */
  lemma {:induction false} FollowsUnique(g: Geometry, fpA: seq<Fingerprint>, fpB: seq<Fingerprint>, r: Range,
                                         ms: seq<int>, f: seq<Fingerprint>, ms': seq<int>, f': seq<Fingerprint>)
    requires Fits(g, fpA, fpB, r) && Follows(g, fpA, fpB, r, ms, f) && Follows(g, fpA, fpB, r, ms', f')
    ensures ms == ms' && f == f'
    decreases r.endB - r.startB, 1
  {
    if !(forall b :: r.startB <= b < r.endB ==> Hopeless(g, fpA, fpB, r, b)) {
      var b, a, mid :| PlacesFirst(g, fpA, fpB, r, ms, f, b, a, mid);
      var b', a', mid' :| PlacesFirst(g, fpA, fpB, r, ms', f', b', a', mid');
      SurestUnique(g, fpA, fpB, r, b, a, b', a');
      PlacesUnique(g, fpA, fpB, r, ms, f, ms', f', b, a, mid, mid');
    }
  }

  lemma {:induction false} PlacesUnique(g: Geometry, fpA: seq<Fingerprint>, fpB: seq<Fingerprint>, r: Range,
                                        ms: seq<int>, f: seq<Fingerprint>, ms': seq<int>, f': seq<Fingerprint>,
                                        b: int, a: int, mid: seq<Fingerprint>, mid': seq<Fingerprint>)
    requires Fits(g, fpA, fpB, r) && |ms| == |ms'| == r.endB - r.startB
      && PlacesFirst(g, fpA, fpB, r, ms, f, b, a, mid) && PlacesFirst(g, fpA, fpB, r, ms', f', b, a, mid')
    ensures ms == ms' && f == f'
    decreases r.endB - r.startB, 0
  {
    var i, fpA1 := b - r.startB, fpA[a := fpA[a] - fpB[b]];
    FollowsUnique(g, fpA1, fpB, Range(r.startA, a + 1, r.startB, b), ms[..i], mid, ms'[..i], mid');
    FollowsUnique(g, mid, fpB, Range(a, r.endA, b + 1, r.endB), ms[i + 1..], f, ms'[i + 1..], f');
    Assembled(ms, ms', i);
  }

  // ---- the order of X, Y and Z ----

  lemma LikestSure(g: Geometry, fpA: seq<Fingerprint>, fpB: seq<Fingerprint>, r: Range, b: int, a: int, best: int,
                   second: int)
    requires InRange(g, fpA, fpB, r, b) && Likest(g, fpA, fpB, r, b, a, best, second)
    ensures Sure(g, fpA, fpB, r, b, a, 2 * best - second)
  {
  }

  lemma LessSure(g: Geometry, fpA: seq<Fingerprint>, fpB: seq<Fingerprint>, r: Range, b: int, a: int, sure: int,
                 b': int, a': int, sure': int)
    requires Sure(g, fpA, fpB, r, b, a, sure) && Sure(g, fpA, fpB, r, b', a', sure') && sure < sure'
    ensures !Surest(g, fpA, fpB, r, b, a)
  {
    forall s | Sure(g, fpA, fpB, r, b, a, s)
      ensures s == sure
    {
      SureIs(g, fpA, fpB, r, b, a, s);
      SureIs(g, fpA, fpB, r, b, a, sure);
    }
  }

  /**
     A line that is like one other by 3 comes before one that is like two others by 5, and that one before a line that
     is like one other by 2.
   */
  lemma SingleBeforeDouble(g: Geometry, fpA: seq<Fingerprint>, fpB: seq<Fingerprint>, r: Range, x: int, y: int, z: int,
                           ax: int, ay: int, az: int, unit: int)
    requires unit > 0 && InRange(g, fpA, fpB, r, x) && InRange(g, fpA, fpB, r, y) && InRange(g, fpA, fpB, r, z)
    requires Likest(g, fpA, fpB, r, x, ax, 3 * unit, 0) && Likest(g, fpA, fpB, r, y, ay, 5 * unit, 5 * unit)
      && Likest(g, fpA, fpB, r, z, az, 2 * unit, 0)
    ensures Sure(g, fpA, fpB, r, x, ax, 6 * unit) && Sure(g, fpA, fpB, r, y, ay, 5 * unit)
      && Sure(g, fpA, fpB, r, z, az, 4 * unit)
    ensures !Surest(g, fpA, fpB, r, y, ay) && !Surest(g, fpA, fpB, r, z, az)
  {
    LikestSure(g, fpA, fpB, r, x, ax, 3 * unit, 0);
    LikestSure(g, fpA, fpB, r, y, ay, 5 * unit, 5 * unit);
    LikestSure(g, fpA, fpB, r, z, az, 2 * unit, 0);
    LessSure(g, fpA, fpB, r, y, ay, 5 * unit, x, ax, 6 * unit);
    LessSure(g, fpA, fpB, r, z, az, 4 * unit, x, ax, 6 * unit);
  }
}
