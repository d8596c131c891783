/**
 The meaning of fuzzy line matching, without any cache: every level of the divide and
 conquer recomputes all similarities and certainties from the fingerprints as they are.
 Lines of A (the parent) and B (the target) are numbered within their files.
 */
module FuzzySpec {
  import opened Fingerprints

  // A linear map of the chunk's lines in B onto its lines in A.
  datatype LineMapping = LineMapping(dstStart: nat, dstLength: nat, srcStart: nat, srcLength: nat)

  // closest: the line of A a line of B is placed at;
  // maxA: how far from it lines of A are compared;
  // maxB: the bound on the distance of two lines of B that are compared with a common line of A.
  datatype Geometry = Geometry(closest: int -> int, maxA: nat, maxB: int)

  // best and second-best similarity seen while scanning a window of A, and where
  datatype Scan = Scan(best: int, bestLine: int, second: int, secondLine: int)

  const NOTHING_MATCHES := -2
  const NOT_CALCULATED := -1

  function MapLineNumber(line: int, m: LineMapping): int {
    if m.srcLength == 0 then m.dstStart
    else ((line - m.srcStart) * 2 + 1) * m.dstLength / (m.srcLength * 2) + m.dstStart
  }

  function Distance(g: Geometry, b: int, a: int): nat { Abs(a - g.closest(b)) }

  function WindowStart(g: Geometry, startA: int, b: nat): int
  {
    Max(startA, g.closest(b) - g.maxA)
  }

  function WindowEnd(g: Geometry, endA: int, b: nat): int
  {
    Min(endA, g.closest(b) + g.maxA + 1)
  }

  function Shared(fb: Fingerprint, fa: Fingerprint): nat { |fb * fa| }

  function Scaled(similarity: nat, distance: nat): int { similarity * (1000 - distance) }

  /** Similarity scaled so that, of equally similar lines, the closest wins. */
  function Value(g: Geometry, fpA: seq<Fingerprint>, fpB: seq<Fingerprint>, b: nat, a: nat): int
    requires a < |fpA| && b < |fpB|
  {
    Scaled(Shared(fpB[b], fpA[a]), Distance(g, b, a))
  }

  function Step(s: Scan, v: int, a: int): Scan {
    if v > s.best then Scan(v, a, s.best, s.bestLine)
    else if v > s.second then s.(second := v, secondLine := a)
    else s
  }

  function ScanLines(g: Geometry, fpA: seq<Fingerprint>, fpB: seq<Fingerprint>, startA: int, b: nat, lo: nat,
                     hi: int): Scan
    requires hi <= |fpA| && b < |fpB|
    decreases hi - lo
  {
    if hi <= lo then Scan(0, startA, 0, startA)
    else Step(ScanLines(g, fpA, fpB, startA, b, lo, hi - 1), Value(g, fpA, fpB, b, hi - 1), hi - 1)
  }

  // the part of the chunk a level of the recursion works on
  datatype Range = Range(startA: nat, endA: nat, startB: nat, endB: nat)

  ghost predicate Fits(g: Geometry, fpA: seq<Fingerprint>, fpB: seq<Fingerprint>, r: Range) {
    && r.endA <= |fpA| && r.endB <= |fpB|
    && r.startA <= r.endA && r.startB <= r.endB
    && g.maxA < 1000
  }

  ghost function LineScan(g: Geometry, fpA: seq<Fingerprint>, fpB: seq<Fingerprint>, r: Range, b: nat): Scan
    requires Fits(g, fpA, fpB, r) && r.startB <= b < r.endB
  {
    ScanLines(g, fpA, fpB, r.startA, b, WindowStart(g, r.startA, b), WindowEnd(g, r.endA, b))
  }

  function Certainty(s: Scan): int {
    if s.best == 0 then NOTHING_MATCHES else s.best * 2 - s.second
  }

  function Match(s: Scan): int {
    if s.best == 0 then -1 else s.bestLine
  }

  /** The scans of all lines of B in the range. */
  ghost function Scans(g: Geometry, fpA: seq<Fingerprint>, fpB: seq<Fingerprint>, r: Range): (ss: seq<Scan>)
    requires Fits(g, fpA, fpB, r)
    ensures |ss| == r.endB - r.startB
  {
    seq(r.endB - r.startB, i requires 0 <= i < r.endB - r.startB => LineScan(g, fpA, fpB, r, r.startB + i))
  }

  /** The first of the first n scans whose certainty is the greatest and above -1; -1 if none. */
  function MostCertain(ss: seq<Scan>, n: nat): (m: int)
    requires n <= |ss|
    ensures m == -1 || (0 <= m < n && Certainty(ss[m]) > -1)
  {
    if n == 0 then -1
    else
      var m := MostCertain(ss, n - 1);
      if Certainty(ss[n - 1]) > (if m == -1 then -1 else Certainty(ss[m])) then n - 1 else m
  }

  datatype Outcome = Outcome(matches: seq<int>, fpA: seq<Fingerprint>)

  /** Fingerprints of A may only lose pairs, and only those of lines in [lo, hi). */
  ghost predicate Shrinks(fpA: seq<Fingerprint>, fpA': seq<Fingerprint>, lo: int, hi: int) {
    && |fpA'| == |fpA|
    && (forall a :: 0 <= a < |fpA| ==> fpA'[a] <= fpA[a])
    && (forall a :: 0 <= a < |fpA| && !(lo <= a < hi) ==> fpA'[a] == fpA[a])
  }

  lemma ShrinksTwice(f: seq<Fingerprint>, f': seq<Fingerprint>, f'': seq<Fingerprint>, lo: int, hi: int)
    requires Shrinks(f, f', lo, hi) && Shrinks(f', f'', lo, hi)
    ensures Shrinks(f, f'', lo, hi)
  {
  }

  /** The matched line of A loses the pairs of the line of B it was matched with. */
  ghost function Spend(fpA: seq<Fingerprint>, a: nat, fb: Fingerprint): (r: seq<Fingerprint>)
    requires a < |fpA|
    ensures Shrinks(fpA, r, a, a + 1)
  {
    fpA[a := fpA[a] - fb]
  }

  /** Fuzzy matching of the lines of B in r, recomputing everything at every level. */
  ghost function Reference(g: Geometry, fpA: seq<Fingerprint>, fpB: seq<Fingerprint>, r: Range): (o: Outcome)
    requires Fits(g, fpA, fpB, r)
    ensures |o.matches| == r.endB - r.startB
    ensures Shrinks(fpA, o.fpA, r.startA, r.endA)
    decreases r.endB - r.startB
  {
    var ss := Scans(g, fpA, fpB, r);
    var i := MostCertain(ss, |ss|);
    if i == -1 then Outcome(seq(|ss|, _ => -1), fpA)
    else
      ScanOrdered(g, fpA, fpB, r, r.startB + i);
      var a := Match(ss[i]);
      var fpA1 := Spend(fpA, a, fpB[r.startB + i]);
      var left := Reference(g, fpA1, fpB, Left(r, i, a));
      var right := Reference(g, left.fpA, fpB, Right(r, i, a));
      ShrinksTwice(fpA, fpA1, left.fpA, r.startA, r.endA);
      ShrinksTwice(fpA, left.fpA, right.fpA, r.startA, r.endA);
      Outcome(left.matches + [a] + right.matches, right.fpA)
  }

  // ---- what a scan finds ----

  ghost predicate IsScan(g: Geometry, fpA: seq<Fingerprint>, fpB: seq<Fingerprint>, b: nat, lo: nat, hi: int, s: Scan)
    requires hi <= |fpA| && b < |fpB|
  {
    && 0 <= s.second <= s.best
    && (forall a: nat :: lo <= a < hi ==> 0 <= Value(g, fpA, fpB, b, a) <= s.best)
    && (s.best > 0 ==>
          && lo <= s.bestLine < hi
          && Value(g, fpA, fpB, b, s.bestLine) == s.best
          && (forall a: nat :: lo <= a < s.bestLine ==> Value(g, fpA, fpB, b, a) < s.best)
          && (forall a: nat :: lo <= a < hi && a != s.bestLine ==> Value(g, fpA, fpB, b, a) <= s.second))
    && (s.second > 0 ==>
          && lo <= s.secondLine < hi
          && s.secondLine != s.bestLine
          && Value(g, fpA, fpB, b, s.secondLine) == s.second
          && (forall a: nat :: lo <= a < s.secondLine && a != s.bestLine ==> Value(g, fpA, fpB, b, a) < s.second))
  }

  /** All lines compared lie close enough that no value is negative. */
  ghost predicate Near(g: Geometry, b: nat, lo: nat, hi: int)
  {
    forall a :: lo <= a < hi ==> Distance(g, b, a) < 1000
  }

  lemma ValueNonNegative(g: Geometry, fpA: seq<Fingerprint>, fpB: seq<Fingerprint>, b: nat, a: nat)
    requires a < |fpA| && b < |fpB|
    requires Distance(g, b, a) < 1000
    ensures Value(g, fpA, fpB, b, a) >= 0
  {
    ScaledNonNegative(Shared(fpB[b], fpA[a]), Distance(g, b, a));
  }

  lemma ScaledNonNegative(similarity: nat, distance: nat)
    requires distance < 1000
    ensures Scaled(similarity, distance) >= 0
  {
  }

  lemma ScanOrdered(g: Geometry, fpA: seq<Fingerprint>, fpB: seq<Fingerprint>, r: Range, b: nat)
    requires Fits(g, fpA, fpB, r) && r.startB <= b < r.endB
    ensures var s := LineScan(g, fpA, fpB, r, b);
      0 <= s.second <= s.best && (s.best > 0 ==> r.startA <= s.bestLine < r.endA)
  {
    ScanIsBest(g, fpA, fpB, r, b);
  }

  lemma {:induction false} ScanLinesIsScan(g: Geometry, fpA: seq<Fingerprint>, fpB: seq<Fingerprint>, startA: int,
                                           b: nat, lo: nat, hi: int)
    requires hi <= |fpA| && b < |fpB| && Near(g, b, lo, hi)
    ensures IsScan(g, fpA, fpB, b, lo, hi, ScanLines(g, fpA, fpB, startA, b, lo, hi))
    decreases hi - lo
  {
    if lo < hi {
      ScanLinesIsScan(g, fpA, fpB, startA, b, lo, hi - 1);
      ValueNonNegative(g, fpA, fpB, b, hi - 1);
    }
  }

  lemma ScanIsBest(g: Geometry, fpA: seq<Fingerprint>, fpB: seq<Fingerprint>, r: Range, b: nat)
    requires Fits(g, fpA, fpB, r) && r.startB <= b < r.endB
    ensures IsScan(g, fpA, fpB, b, WindowStart(g, r.startA, b), WindowEnd(g, r.endA, b), LineScan(g, fpA, fpB, r, b))
  {
    ScanLinesIsScan(g, fpA, fpB, r.startA, b, WindowStart(g, r.startA, b), WindowEnd(g, r.endA, b));
  }

  /** Two scans agree on all that matters: lines are only pinned down where a similarity is positive. */
  ghost predicate Agree(s: Scan, t: Scan) {
    && s.best == t.best && s.second == t.second
    && (s.best != 0 ==> s.bestLine == t.bestLine)
    && (s.second > 0 ==> s.secondLine == t.secondLine)
  }

  lemma ScanUnique(g: Geometry, fpA: seq<Fingerprint>, fpB: seq<Fingerprint>, b: nat, lo: nat, hi: int, s: Scan,
                   t: Scan)
    requires hi <= |fpA| && b < |fpB|
    requires IsScan(g, fpA, fpB, b, lo, hi, s) && IsScan(g, fpA, fpB, b, lo, hi, t)
    ensures Agree(s, t)
  {
    if s.best > 0 {
      var v := Value(g, fpA, fpB, b, s.bestLine);
    }
    if t.best > 0 {
      var v := Value(g, fpA, fpB, b, t.bestLine);
    }
    assert s.best == t.best && (s.best > 0 ==> s.bestLine == t.bestLine);
    if s.second > 0 {
      var v := Value(g, fpA, fpB, b, s.secondLine);
    }
    if t.second > 0 {
      var v := Value(g, fpA, fpB, b, t.secondLine);
    }
  }

  lemma ScaledMonotone(s: nat, s': nat, d: nat)
    requires s' <= s && d < 1000
    ensures 0 <= Scaled(s', d) <= Scaled(s, d)
  {
  }

  lemma ValueMonotone(g: Geometry, fpA: seq<Fingerprint>, fpA': seq<Fingerprint>, fpB: seq<Fingerprint>, b: nat, a: nat)
    requires |fpA'| == |fpA| && a < |fpA| && b < |fpB|
    requires fpA'[a] <= fpA[a] && Distance(g, b, a) < 1000
    ensures 0 <= Value(g, fpA', fpB, b, a) <= Value(g, fpA, fpB, b, a)
  {
    SimilarityMonotone(fpA[a], fpA'[a], fpB[b]);
    ScaledMonotone(Shared(fpB[b], fpA[a]), Shared(fpB[b], fpA'[a]), Distance(g, b, a));
  }

  /**
   A scan survives any narrowing of its window and any loss of fingerprint elsewhere, as long as
   the lines it rests on stay in the window with their fingerprints untouched.
   */
  lemma ScanSurvives(g: Geometry, fpA: seq<Fingerprint>, fpA': seq<Fingerprint>, fpB: seq<Fingerprint>, b: nat,
                     lo: nat, hi: int, lo': nat, hi': int, s: Scan)
    requires hi <= |fpA| == |fpA'| && b < |fpB| && lo <= lo' && hi' <= hi
    requires Near(g, b, lo, hi)
    requires forall a :: lo' <= a < hi' ==> fpA'[a] <= fpA[a]
    requires IsScan(g, fpA, fpB, b, lo, hi, s)
    requires s.best > 0 ==> lo' <= s.bestLine < hi' && fpA'[s.bestLine] == fpA[s.bestLine]
    requires s.second > 0 ==> lo' <= s.secondLine < hi' && fpA'[s.secondLine] == fpA[s.secondLine]
    ensures IsScan(g, fpA', fpB, b, lo', hi', s)
  {
    forall a: nat | lo' <= a < hi'
      ensures 0 <= Value(g, fpA', fpB, b, a) <= Value(g, fpA, fpB, b, a)
    {
      assert Distance(g, b, a) < 1000;
      ValueMonotone(g, fpA, fpA', fpB, b, a);
    }
  }

  // ---- one level of the recursion ----

  ghost predicate Picks(r: Range, i: nat, a: nat) {
    r.startA <= a < r.endA && r.startB + i < r.endB
  }

  /** Lines before the most certain line may match up to its line of A, lines after it from there on. */
  function Left(r: Range, i: nat, a: nat): Range { Range(r.startA, a + 1, r.startB, r.startB + i) }

  function Right(r: Range, i: nat, a: nat): Range { Range(a, r.endA, r.startB + i + 1, r.endB) }

  lemma Unfold(g: Geometry, fpA: seq<Fingerprint>, fpB: seq<Fingerprint>, r: Range, ss: seq<Scan>, i: nat, a: nat)
    requires Fits(g, fpA, fpB, r)
    requires ss == Scans(g, fpA, fpB, r) && i == MostCertain(ss, |ss|) && a == Match(ss[i])
    ensures Picks(r, i, a)
    ensures Fits(g, Spend(fpA, a, fpB[r.startB + i]), fpB, Left(r, i, a))
    ensures var left := Reference(g, Spend(fpA, a, fpB[r.startB + i]), fpB, Left(r, i, a));
      && Fits(g, left.fpA, fpB, Right(r, i, a))
      && var right := Reference(g, left.fpA, fpB, Right(r, i, a));
      Reference(g, fpA, fpB, r) == Outcome(left.matches + [a] + right.matches, right.fpA)
  {
    ScanOrdered(g, fpA, fpB, r, r.startB + i);
  }

  // ---- how far apart two lines of B must be to look at different lines of A ----

  ghost predicate Spread(g: Geometry, startB: nat, endB: nat) {
    forall b, b' {:trigger g.closest(b), g.closest(b')} :: startB <= b && b + g.maxB < b' < endB
      ==> g.closest(b) + 2 * g.maxA < g.closest(b')
  }

  lemma FloorShift(n: int, d: int, k: int)
    requires d > 0
    ensures (n + k * d) / d == n / d + k
  {
    var q, m := n / d, n % d;
    assert n + k * d == (q + k) * d + m;
    FloorUnique((q + k) * d + m, d, q + k, m);
  }

  lemma AtLeastOnce(x: int, d: int)
    requires x >= 1 && d > 0
    ensures x * d >= d
  {
  }

  lemma FloorUnique(n: int, d: int, q: int, m: int)
    requires d > 0 && 0 <= m < d && n == q * d + m
    ensures n / d == q
  {
    FloorOrder(n / d, n % d, q, m, d);
    FloorOrder(q, m, n / d, n % d, d);
  }

  lemma FloorOrder(q: int, m: int, q': int, m': int, d: int)
    requires d > 0 && 0 <= m < d && 0 <= m' < d
    requires q * d + m <= q' * d + m'
    ensures q <= q'
  {
    if q > q' {
      assert (q - q') * d == q * d - q' * d;
      AtLeastOnce(q - q', d);
    }
  }

  lemma FloorMonotone(n: int, n': int, d: int)
    requires d > 0 && n <= n'
    ensures n / d <= n' / d
  {
    FloorOrder(n / d, n % d, n' / d, n' % d, d);
  }

  /** Truncating division, as C has it. */
  function CDiv(n: int, d: int): int
    requires d > 0
  {
    if n >= 0 then n / d else -(-n / d)
  }

  /** Lines more than ((2 maxA + 1) |B| - 1) / |A| apart have windows in A that do not meet. */
  lemma MappingSpread(m: LineMapping, maxA: nat)
    requires m.dstLength > 0
    ensures var maxB := CDiv((2 * maxA + 1) * m.srcLength - 1, m.dstLength);
            Spread(Geometry(b => MapLineNumber(b, m), maxA, maxB), m.srcStart, m.srcStart + m.srcLength)
  {
    var maxB := CDiv((2 * maxA + 1) * m.srcLength - 1, m.dstLength);
    var g := Geometry(b => MapLineNumber(b, m), maxA, maxB);
    forall b, b' | m.srcStart <= b && b + maxB < b' < m.srcStart + m.srcLength
      ensures g.closest(b) + 2 * maxA < g.closest(b')
    {
      SpreadTwo(m, maxA, b, b');
    }
  }

  lemma SpreadTwo(m: LineMapping, maxA: nat, b: nat, b': nat)
    requires m.dstLength > 0 && m.srcLength > 0
    requires m.srcStart <= b && b + CDiv((2 * maxA + 1) * m.srcLength - 1, m.dstLength) < b' < m.srcStart + m.srcLength
    ensures MapLineNumber(b, m) + 2 * maxA < MapLineNumber(b', m)
  {
    var w, k, d := 2 * maxA + 1, b' - b, m.srcLength * 2;
    AtLeastOnce(m.srcLength, w);
    BeyondFloor(w * m.srcLength, m.dstLength, k);
    var n := ((b - m.srcStart) * 2 + 1) * m.dstLength;
    var n' := ((b' - m.srcStart) * 2 + 1) * m.dstLength;
    Scale((b - m.srcStart) * 2 + 1, 2 * k, m.dstLength, n, n');
    Scale2(w, m.srcLength);
    FloorShift(n, d, w);
    FloorMonotone(n + w * d, n', d);
  }

  lemma BeyondFloor(p: int, l: int, k: int)
    requires p >= 1 && l > 0 && (p - 1) / l < k
    ensures p <= k * l
  {
    var q := (p - 1) / l;
    if p > k * l {
      FloorOrder(k, 0, q, (p - 1) % l, l);
    }
  }

  lemma Scale(x: int, y: int, l: int, n: int, n': int)
    requires n == x * l && n' == (x + y) * l
    ensures n' == n + y * l
  {
  }

  lemma Scale2(w: int, l: int)
    ensures w * (l * 2) == 2 * (w * l)
  {
  }

  // ---- in 32 bits ----

  const INT_MAX: int := 0x7FFF_FFFF

  function Wrap(x: int): (w: int)
    ensures -INT_MAX - 1 <= w <= INT_MAX
  {
    (x + 0x8000_0000) % 0x1_0000_0000 - 0x8000_0000
  }

  /** The same mapping with an int of 32 bits that wraps around. */
  function MapLineNumber32(line: int, m: LineMapping): int
    requires 0 < m.srcLength * 2 <= INT_MAX
  {
    Wrap(CDiv(Wrap(Wrap(Wrap(Wrap(line - m.srcStart) * 2) + 1) * m.dstLength), m.srcLength * 2) + m.dstStart)
  }

  /** The chunks are within files whose lines an int can number. */
  ghost predicate Numberable(m: LineMapping) {
    0 < m.srcLength * 2 <= INT_MAX && m.srcStart + m.srcLength <= INT_MAX && m.dstStart + m.dstLength <= INT_MAX
  }

  lemma WrapFits(x: int)
    requires -INT_MAX - 1 <= x <= INT_MAX
    ensures Wrap(x) == x
  {
  }

  lemma WrapBelow(x: int)
    requires x > INT_MAX
    ensures Wrap(x) + 0x1_0000_0000 <= x
  {
  }

  /** Only the product can be too large; what is divided then is another number. */
  lemma MapAs32(line: int, m: LineMapping, p: int)
    requires Numberable(m) && m.srcStart <= line < m.srcStart + m.srcLength
    requires p == ((line - m.srcStart) * 2 + 1) * m.dstLength
    ensures MapLineNumber32(line, m) == Wrap(CDiv(Wrap(p), m.srcLength * 2) + m.dstStart)
    ensures MapLineNumber(line, m) == p / (m.srcLength * 2) + m.dstStart
  {
    WrapFits(line - m.srcStart);
    WrapFits((line - m.srcStart) * 2);
    WrapFits((line - m.srcStart) * 2 + 1);
  }

  /** A line is mapped into the other chunk. */
  lemma QuotientInside(x: int, l: nat, d: int, p: int)
    requires 0 < x < d && p == x * l
    ensures 0 <= p / d <= l
  {
    assert (d - x) * l == d * l - x * l;
    NotNegative(d - x, l);
    NotNegative(x, l);
    FloorMonotone(0, p, d);
    FloorMonotone(p, l * d, d);
    FloorUnique(l * d, d, l, 0);
  }

  lemma NotNegative(a: nat, b: nat)
    ensures a * b >= 0
  {
  }

  /** Of two numbers that far apart the quotients differ. */
  lemma QuotientsDiffer(p: int, p': int, d: int)
    requires 0 < d <= INT_MAX < p && p' + 0x1_0000_0000 <= p && -INT_MAX - 1 <= p'
    ensures CDiv(p', d) < p / d && CDiv(p', d) >= -INT_MAX - 1
  {
    FloorMonotone(d, p, d);
    FloorUnique(d, d, 1, 0);
    if p' >= 0 {
      FloorMonotone(p' + d, p, d);
      FloorShift(p', d, 1);
      FloorMonotone(0, p', d);
    } else {
      FloorMonotone(0, -p', d);
      Quotient(-p', d);
    }
  }

  lemma Quotient(n: nat, d: nat)
    requires d > 0
    ensures n / d <= n
  {
    NotNegative(n, d - 1);
    assert n * d == n * (d - 1) + n;
    FloorMonotone(n, n * d, d);
    FloorUnique(n * d, d, n, 0);
  }

  lemma MapFits(line: int, m: LineMapping, p: int)
    requires Numberable(m) && m.srcStart <= line < m.srcStart + m.srcLength
    requires p == ((line - m.srcStart) * 2 + 1) * m.dstLength
    ensures MapLineNumber32(line, m) == MapLineNumber(line, m) <==> p <= INT_MAX
  {
    var x, d := (line - m.srcStart) * 2 + 1, m.srcLength * 2;
    MapAs32(line, m, p);
    QuotientInside(x, m.dstLength, d, p);
    NotNegative(x, m.dstLength);
    if p <= INT_MAX {
      WrapFits(p);
      WrapFits(p / d + m.dstStart);
    } else {
      WrapBelow(p);
      QuotientsDiffer(p, Wrap(p), d);
      WrapFits(CDiv(Wrap(p), d) + m.dstStart);
    }
  }

  /** For which chunks the lines are mapped right: those where the product for the last line is not too large. */
  lemma MapsRightIn32(m: LineMapping)
    requires Numberable(m)
    ensures (m.srcLength * 2 - 1) * m.dstLength <= INT_MAX <==>
      forall b :: m.srcStart <= b < m.srcStart + m.srcLength ==> MapLineNumber32(b, m) == MapLineNumber(b, m)
  {
    var last := m.srcStart + m.srcLength - 1;
    var top := (m.srcLength * 2 - 1) * m.dstLength;
    assert (last - m.srcStart) * 2 + 1 == m.srcLength * 2 - 1;
    MapFits(last, m, top);
    if top <= INT_MAX {
      forall b | m.srcStart <= b < m.srcStart + m.srcLength
        ensures MapLineNumber32(b, m) == MapLineNumber(b, m)
      {
        var x := (b - m.srcStart) * 2 + 1;
        NotNegative(m.srcLength * 2 - 1 - x, m.dstLength);
        Scale(x, m.srcLength * 2 - 1 - x, m.dstLength, x * m.dstLength, top);
        MapFits(b, m, x * m.dstLength);
      }
    }
  }

  lemma ShortSource(s: int, d: int)
    requires 0 < s < d && (s * 2 - 1) * d <= INT_MAX
    ensures 21 * s <= INT_MAX
  {
    if d >= 100 {
      NotNegative(s * 2 - 1, d - 100);
      Scale2(s * 2 - 1, 50);
      assert (s * 2 - 1) * (d - 100) == (s * 2 - 1) * d - (s * 2 - 1) * 100;
    }
  }

  lemma LongSource(s: int, d: int, w: int)
    requires 0 < d <= s && 0 < w <= 2 * d - 1 && (s * 2 - 1) * d <= INT_MAX
    ensures w * s <= INT_MAX
  {
    NotNegative(2 * d - 1 - w, s);
    assert (2 * d - 1 - w) * s == 2 * (s * d) - s - w * s;
    assert (s * 2 - 1) * d == 2 * (s * d) - d;
  }

  /** In these chunks the products for the bound and for the size of the cache fit, too. */
  lemma DistanceFitsIn32(m: LineMapping, maxA: nat)
    requires Numberable(m) && maxA < m.dstLength && maxA <= 10 && (m.srcLength * 2 - 1) * m.dstLength <= INT_MAX
    ensures (2 * maxA + 1) * m.srcLength <= INT_MAX
  {
    var s, w := m.srcLength, 2 * maxA + 1;
    if s >= m.dstLength {
      LongSource(s, m.dstLength, w);
    } else {
      ShortSource(s, m.dstLength);
      NotNegative(21 - w, s);
      assert (21 - w) * s == 21 * s - w * s;
    }
  }

  // ---- the order of matches ----

  /** Matches lie in the range of A, and a later line of B is never matched before an earlier one. */
  ghost predicate InOrder(ms: seq<int>, startA: int, endA: int) {
    && (forall i :: 0 <= i < |ms| ==> ms[i] == -1 || startA <= ms[i] < endA)
    && (forall i, j :: 0 <= i < j < |ms| && ms[i] != -1 && ms[j] != -1 ==> ms[i] <= ms[j])
  }

  lemma {:induction false} ReferenceInOrder(g: Geometry, fpA: seq<Fingerprint>, fpB: seq<Fingerprint>, r: Range)
    requires Fits(g, fpA, fpB, r)
    ensures InOrder(Reference(g, fpA, fpB, r).matches, r.startA, r.endA)
    decreases r.endB - r.startB
  {
    var ss := Scans(g, fpA, fpB, r);
    var i := MostCertain(ss, |ss|);
    if i != -1 {
      ScanOrdered(g, fpA, fpB, r, r.startB + i);
      var a := Match(ss[i]);
      Unfold(g, fpA, fpB, r, ss, i, a);
      var fpA1 := Spend(fpA, a, fpB[r.startB + i]);
      var left := Reference(g, fpA1, fpB, Left(r, i, a));
      var right := Reference(g, left.fpA, fpB, Right(r, i, a));
      ReferenceInOrder(g, fpA1, fpB, Left(r, i, a));
      ReferenceInOrder(g, left.fpA, fpB, Right(r, i, a));
      JoinInOrder(left.matches, a, right.matches, r.startA, r.endA);
    }
  }

  lemma JoinInOrder(left: seq<int>, a: int, right: seq<int>, startA: int, endA: int)
    requires 0 <= startA <= a < endA
    requires InOrder(left, startA, a + 1) && InOrder(right, a, endA)
    ensures InOrder(left + [a] + right, startA, endA)
  {
  }
}
