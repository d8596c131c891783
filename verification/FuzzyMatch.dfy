/**
 Fuzzy line matching as blame runs it: a banded table of similarities, certainties and
 results are kept from level to level, and only what the last match may have changed is
 thrown away.  The result is proved equal to FuzzySpec.Reference, which keeps nothing.
 */
module FuzzyMatch {
  import opened Fingerprints
  import opened FuzzyRule
  import opened FuzzySpec

  datatype Option<+T> = None | Some(value: T)

  /** A cached line is either unknown or what a scan of the current fingerprints would find. */
  ghost predicate LineOk(certainty: int, secondBest: int, match_: int, s: Scan) {
    certainty != NOT_CALCULATED ==> LineKnown(certainty, secondBest, match_, s)
  }

  ghost predicate LineKnown(certainty: int, secondBest: int, match_: int, s: Scan) {
    && certainty == Certainty(s) && match_ == Match(s)
    && (s.second > 0 ==> secondBest == s.secondLine)
  }

  lemma IndexInRange(row: nat, col: nat, width: nat, rows: nat)
    requires row < rows && col < width
    ensures 0 <= row * width + col < rows * width
  {
    assert rows * width == row * width + (rows - row) * width;
    assert (rows - row) * width >= width by { AtLeastOnce(rows - row, width); }
  }

  lemma IndexInjective(row: nat, col: nat, row': nat, col': nat, width: nat)
    requires col < width && col' < width
    requires row * width + col == row' * width + col'
    ensures row == row' && col == col'
  {
    FloorOrder(row, col, row', col', width);
    FloorOrder(row', col', row, col, width);
  }

  // ---- which scans survive a match of line b of B with line a of A ----

  lemma KeepLeft(g: Geometry, fpA: seq<Fingerprint>, fpA': seq<Fingerprint>, fpB: seq<Fingerprint>, r: Range, i: nat,
                 a: nat, b: nat)
    requires Fits(g, fpA, fpB, r) && Picks(r, i, a) && r.startB <= b < r.startB + i
    requires Shrinks(fpA, fpA', a, a + 1)
    requires var s := LineScan(g, fpA, fpB, r, b);
      (s.best > 0 ==> s.bestLine < a) && (s.second > 0 ==> s.secondLine < a)
    ensures Fits(g, fpA', fpB, Left(r, i, a))
    ensures Agree(LineScan(g, fpA, fpB, r, b), LineScan(g, fpA', fpB, Left(r, i, a), b))
  {
    var s := LineScan(g, fpA, fpB, r, b);
    ScanIsBest(g, fpA, fpB, r, b);
    var lo, hi, hi' := WindowStart(g, r.startA, b), WindowEnd(g, r.endA, b), WindowEnd(g, a + 1, b);
    ScanSurvives(g, fpA, fpA', fpB, b, lo, hi, lo, hi', s);
    ScanIsBest(g, fpA', fpB, Left(r, i, a), b);
    ScanUnique(g, fpA', fpB, b, lo, hi', s, LineScan(g, fpA', fpB, Left(r, i, a), b));
  }

  lemma KeepRight(g: Geometry, fpA: seq<Fingerprint>, fpA': seq<Fingerprint>, fpB: seq<Fingerprint>, r: Range, i: nat,
                  a: nat, b: nat)
    requires Fits(g, fpA, fpB, r) && Picks(r, i, a) && r.startB + i < b < r.endB
    requires Shrinks(fpA, fpA', r.startA, a + 1)
    requires var s := LineScan(g, fpA, fpB, r, b);
      (s.best > 0 ==> s.bestLine > a) && (s.second > 0 ==> s.secondLine > a)
    ensures Fits(g, fpA', fpB, Right(r, i, a))
    ensures Agree(LineScan(g, fpA, fpB, r, b), LineScan(g, fpA', fpB, Right(r, i, a), b))
  {
    var s := LineScan(g, fpA, fpB, r, b);
    ScanIsBest(g, fpA, fpB, r, b);
    var lo, hi, lo' := WindowStart(g, r.startA, b), WindowEnd(g, r.endA, b), WindowStart(g, a, b);
    ScanSurvives(g, fpA, fpA', fpB, b, lo, hi, lo', hi, s);
    ScanIsBest(g, fpA', fpB, Right(r, i, a), b);
    ScanUnique(g, fpA', fpB, b, lo', hi, s, LineScan(g, fpA', fpB, Right(r, i, a), b));
  }

  datatype Cache = Cache(sims: seq<int>, certainties: seq<int>, secondBest: seq<int>, matches: seq<int>)

  class Matcher {
    const g: Geometry
    const first: nat  // first line of B in the chunk
    const rows: nat   // lines of B in the chunk
    const fpA: array<Fingerprint>
    const fpB: array<Fingerprint>
    const similarities: array<int>
    const certainties: array<int>
    const secondBest: array<int>
    const result: array<int>

    constructor (g: Geometry, first: nat, rows: nat, fpA: array<Fingerprint>, fpB: array<Fingerprint>)
      requires g.maxA < 1000 && fpA != fpB && first + rows <= fpB.Length
      ensures this.g == g && this.first == first && this.rows == rows && this.fpA == fpA && this.fpB == fpB
      ensures Shape() && fresh(similarities) && fresh(certainties) && fresh(secondBest) && fresh(result)
      ensures forall k :: 0 <= k < similarities.Length ==> similarities[k] == -1
      ensures forall k :: 0 <= k < rows ==> certainties[k] == NOT_CALCULATED
    {
      this.g, this.first, this.rows, this.fpA, this.fpB := g, first, rows, fpA, fpB;
      similarities := new int[rows * (2 * g.maxA + 1)](_ => -1);
      certainties := new int[rows](_ => NOT_CALCULATED);
      secondBest := new int[rows](_ => -1);
      result := new int[rows](_ => -1);
    }

    ghost predicate Shape() {
      && g.maxA < 1000 && fpA != fpB && first + rows <= fpB.Length
      && similarities.Length == rows * (2 * g.maxA + 1)
      && certainties.Length == secondBest.Length == result.Length == rows
      && similarities != certainties && similarities != secondBest && similarities != result
      && certainties != secondBest && certainties != result && secondBest != result
    }

    predicate HasCell(b: nat, a: nat) {
      first <= b < first + rows && Distance(g, b, a) <= g.maxA
    }

    /** Where the similarity of line b of B and line a of A is kept. */
    function Index(b: nat, a: nat): (k: nat)
      requires HasCell(b, a)
      ensures k < rows * (2 * g.maxA + 1)
    {
      IndexInRange(b - first, a - g.closest(b) + g.maxA, 2 * g.maxA + 1, rows);
      a - g.closest(b) + g.maxA + (b - first) * (2 * g.maxA + 1)
    }

    ghost function Cell(sims: seq<int>, b: nat, a: nat): int
      requires HasCell(b, a) && |sims| == rows * (2 * g.maxA + 1)
    {
      sims[Index(b, a)]
    }

    lemma CellUpdate(sims: seq<int>, b: nat, a: nat, v: int)
      requires HasCell(b, a) && |sims| == rows * (2 * g.maxA + 1)
      ensures forall b': nat, a': nat :: HasCell(b', a') ==>
        Cell(sims[Index(b, a) := v], b', a') == if b' == b && a' == a then v else Cell(sims, b', a')
    {
      forall b': nat, a': nat | HasCell(b', a')
        ensures Cell(sims[Index(b, a) := v], b', a') == if b' == b && a' == a then v else Cell(sims, b', a')
      {
        if Index(b, a) == Index(b', a') {
          IndexInjective(b - first, a - g.closest(b) + g.maxA, b' - first, a' - g.closest(b') + g.maxA, 2 * g.maxA + 1);
        }
      }
    }

    ghost predicate InRows(r: Range) { first <= r.startB && r.endB <= first + rows }

    /** Every similarity in reach of the range is unknown or right for the fingerprints given. */
    ghost predicate SimsOk(fa: seq<Fingerprint>, fb: seq<Fingerprint>, sims: seq<int>, r: Range)
      requires Fits(g, fa, fb, r) && InRows(r) && |sims| == rows * (2 * g.maxA + 1)
    {
      forall b: nat, a: nat {:trigger Cell(sims, b, a)} ::
        r.startB <= b < r.endB && r.startA <= a < r.endA && HasCell(b, a) ==>
          Cell(sims, b, a) == -1 || Cell(sims, b, a) == Value(g, fa, fb, b, a)
    }

    /** The cached lines of the range against the scans they should agree with. */
    ghost predicate LinesOk(ss: seq<Scan>, cs: seq<int>, sb: seq<int>, ms: seq<int>, startB: nat)
      requires first <= startB && startB + |ss| <= first + rows && |cs| == |sb| == |ms| == rows
    {
      forall j :: 0 <= j < |ss| ==>
        LineOk(cs[startB - first + j], sb[startB - first + j], ms[startB - first + j], ss[j])
    }

    /** Rows of lines of B outside [startB, endB) are as they were. */
    ghost predicate RowsKept(sims: seq<int>, sims': seq<int>, startB: nat, endB: nat)
      requires |sims| == |sims'| == rows * (2 * g.maxA + 1)
    {
      forall b: nat, a: nat {:trigger Cell(sims', b, a)} :: HasCell(b, a) && !(startB <= b < endB) ==>
        Cell(sims', b, a) == Cell(sims, b, a)
    }

    ghost predicate OthersKept(xs: seq<int>, xs': seq<int>, startB: nat, endB: nat)
      requires |xs| == |xs'| == rows
    {
      forall k :: 0 <= k < rows && !(startB <= first + k < endB) ==> xs'[k] == xs[k]
    }

    ghost predicate CacheShape(c: Cache) {
      |c.sims| == rows * (2 * g.maxA + 1) && |c.certainties| == |c.secondBest| == |c.matches| == rows
    }

    ghost function Snapshot(): (c: Cache)
      requires Shape()
      reads similarities, certainties, secondBest, result
      ensures CacheShape(c)
    {
      Cache(similarities[..], certainties[..], secondBest[..], result[..])
    }

    /** Nothing but lines [startB, endB) of B has changed between two states of the cache. */
    ghost predicate Outside(c: Cache, c': Cache, startB: nat, endB: nat)
      requires CacheShape(c) && CacheShape(c')
    {
      && RowsKept(c.sims, c'.sims, startB, endB)
      && OthersKept(c.certainties, c'.certainties, startB, endB)
      && OthersKept(c.secondBest, c'.secondBest, startB, endB)
      && OthersKept(c.matches, c'.matches, startB, endB)
    }

    lemma OutsideTwice(c: Cache, c': Cache, c'': Cache, lo: nat, hi: nat, lo': nat, hi': nat, startB: nat, endB: nat)
      requires CacheShape(c) && CacheShape(c') && CacheShape(c'')
      requires Outside(c, c', lo, hi) && Outside(c', c'', lo', hi')
      requires startB <= lo && hi <= endB && startB <= lo' && hi' <= endB
      ensures Outside(c, c'', startB, endB)
    {
      assert forall b: nat, a: nat {:trigger Cell(c''.sims, b, a)} :: HasCell(b, a) && !(startB <= b < endB) ==>
        Cell(c''.sims, b, a) == Cell(c'.sims, b, a);
    }

    /** The similarity of line b of B and line a of A, computed unless it is already there. */
    method CachedSimilarity(r: Range, b: nat, a: nat) returns (similarity: int)
      requires Shape() && Fits(g, fpA[..], fpB[..], r) && InRows(r)
      requires r.startB <= b < r.endB && r.startA <= a < r.endA && HasCell(b, a)
      requires SimsOk(fpA[..], fpB[..], similarities[..], r)
      modifies similarities
      ensures similarity == Value(g, fpA[..], fpB[..], b, a)
      ensures SimsOk(fpA[..], fpB[..], similarities[..], r)
      ensures RowsKept(old(similarities[..]), similarities[..], b, b + 1)
    {
      var cell := Index(b, a);
      similarity := similarities[cell];
      assert similarity == Cell(similarities[..], b, a);
      if similarity == -1 {
        var shared := Similarity(fpB[b], fpA[a]);
        similarity := Scaled(shared, Abs(a - g.closest(b)));
        CellUpdate(similarities[..], b, a, similarity);
        similarities[cell] := similarity;
        assert similarities[..] == old(similarities[..])[cell := similarity];
      }
    }

    method ScanWindow(r: Range, b: nat) returns (s: Scan)
      requires Shape() && Fits(g, fpA[..], fpB[..], r) && InRows(r) && r.startB <= b < r.endB
      requires SimsOk(fpA[..], fpB[..], similarities[..], r)
      modifies similarities
      ensures s == LineScan(g, fpA[..], fpB[..], r, b)
      ensures SimsOk(fpA[..], fpB[..], similarities[..], r)
      ensures RowsKept(old(similarities[..]), similarities[..], b, b + 1)
    {
      var closest := g.closest(b);
      var searchStart := closest - g.maxA;
      if searchStart < r.startA {
        searchStart := r.startA;
      }
      var searchEnd := closest + g.maxA + 1;
      if searchEnd > r.endA {
        searchEnd := r.endA;
      }
      s := Scan(0, r.startA, 0, r.startA);
      ghost var fa, fb := fpA[..], fpB[..];
      var a := searchStart;
      while a < searchEnd
        invariant searchStart <= a && (a <= searchEnd || a == searchStart)
        invariant fpA[..] == fa && fpB[..] == fb && a <= |fa| + searchStart
        invariant s == ScanLines(g, fa, fb, r.startA, b, searchStart, if a <= searchEnd then a else searchEnd)
        invariant SimsOk(fa, fb, similarities[..], r)
        invariant RowsKept(old(similarities[..]), similarities[..], b, b + 1)
        modifies similarities
      {
        var similarity := CachedSimilarity(r, b, a);
        if similarity > s.best {
          s := Scan(similarity, a, s.best, s.bestLine);
        } else if similarity > s.second {
          s := s.(second := similarity, secondLine := a);
        }
        a := a + 1;
      }
    }

    /** Records where a line would be placed, and how sure it is, unless that is known. */
    method FindBestLineMatches(r: Range, b: nat)
      requires Shape() && Fits(g, fpA[..], fpB[..], r) && InRows(r) && r.startB <= b < r.endB
      requires SimsOk(fpA[..], fpB[..], similarities[..], r)
      requires LineOk(certainties[b - first], secondBest[b - first], result[b - first],
                      LineScan(g, fpA[..], fpB[..], r, b))
      modifies similarities, certainties, secondBest, result
      ensures SimsOk(fpA[..], fpB[..], similarities[..], r)
      ensures LineKnown(certainties[b - first], secondBest[b - first], result[b - first],
                        LineScan(g, fpA[..], fpB[..], r, b))
      ensures Recorded(g, fpA[..], fpB[..], r, b, result[b - first], certainties[b - first])
      ensures Outside(old(Snapshot()), Snapshot(), b, b + 1)
    {
      ScanRecorded(g, fpA[..], fpB[..], r, b, LineScan(g, fpA[..], fpB[..], r, b));
      var line := b - first;
      if certainties[line] != NOT_CALCULATED {
        return;
      }
      var s := ScanWindow(r, b);
      if s.best == 0 {
        certainties[line] := NOTHING_MATCHES;
        result[line] := -1;
        ScanOrdered(g, fpA[..], fpB[..], r, b);
      } else {
        certainties[line] := s.best * 2 - s.second;
        result[line] := s.bestLine;
        secondBest[line] := s.secondLine;
      }
    }

    ghost predicate Describes(ss: seq<Scan>, fa: seq<Fingerprint>, fb: seq<Fingerprint>, r: Range)
      requires Fits(g, fa, fb, r)
    {
      && |ss| == r.endB - r.startB
      && forall b: nat {:trigger LineScan(g, fa, fb, r, b)} ::
        r.startB <= b < r.endB ==> ss[b - r.startB] == LineScan(g, fa, fb, r, b)
    }

    /** Lines [r.startB, b) are up to date; fa, fb are the fingerprints and c the cache the loop began with. */
    ghost predicate Progress(fa: seq<Fingerprint>, fb: seq<Fingerprint>, ss: seq<Scan>, c: Cache, c': Cache, r: Range,
                             b: nat)
      requires InRows(r) && CacheShape(c) && CacheShape(c') && r.startB <= b <= r.endB
    {
      && Fits(g, fa, fb, r) && Describes(ss, fa, fb, r) && SimsOk(fa, fb, c'.sims, r)
      && LinesOk(ss, c.certainties, c.secondBest, c.matches, r.startB)
      && LinesKnown(ss, c'.certainties, c'.secondBest, c'.matches, r.startB, b - r.startB)
      && Outside(c, c', r.startB, b)
    }

    method UpdateLine(r: Range, b: nat, ghost fa: seq<Fingerprint>, ghost fb: seq<Fingerprint>, ghost ss: seq<Scan>,
                      ghost c: Cache)
      requires Shape() && InRows(r) && r.startB <= b < r.endB && fpA[..] == fa && fpB[..] == fb
      requires CacheShape(c) && Progress(fa, fb, ss, c, Snapshot(), r, b)
      modifies similarities, certainties, secondBest, result
      ensures Progress(fa, fb, ss, c, Snapshot(), r, b + 1)
      ensures certainties[b - first] == Certainty(ss[b - r.startB])
      ensures fpA[..] == fa && fpB[..] == fb
    {
      assert ss[b - r.startB] == LineScan(g, fa, fb, r, b);
      ghost var before := Snapshot();
      FindBestLineMatches(r, b);
      OutsideTwice(c, before, Snapshot(), r.startB, b, b, b + 1, r.startB, b + 1);
      LinesKnownExtends(ss, before, Snapshot(), r.startB, b);
    }

    /** Updates one line and takes it if it is more certain than any before. */
    method ConsiderLine(r: Range, b: nat, i: int, certainty: int, ghost fa: seq<Fingerprint>,
                        ghost fb: seq<Fingerprint>, ghost ss: seq<Scan>, ghost c: Cache)
      returns (i': int, certainty': int)
      requires Shape() && InRows(r) && r.startB <= b < r.endB && fpA[..] == fa && fpB[..] == fb
        && |ss| == r.endB - r.startB
      requires CacheShape(c) && Progress(fa, fb, ss, c, Snapshot(), r, b)
      requires i == MostCertain(ss, b - r.startB) && certainty == CertaintyAt(ss, i)
      modifies similarities, certainties, secondBest, result
      ensures Progress(fa, fb, ss, c, Snapshot(), r, b + 1)
      ensures fpA[..] == fa && fpB[..] == fb
      ensures i' == MostCertain(ss, b - r.startB + 1) && certainty' == CertaintyAt(ss, i')
    {
      UpdateLine(r, b, fa, fb, ss, c);
      PickStep(ss, b - r.startB);
      if certainties[b - first] > certainty {
        i', certainty' := b - r.startB, certainties[b - first];
      } else {
        i', certainty' := i, certainty;
      }
    }

    /** Progress, and the most certain line so far. */
    ghost predicate Picking(fa: seq<Fingerprint>, fb: seq<Fingerprint>, ss: seq<Scan>, c: Cache, c': Cache, r: Range,
                            b: nat, i: int, certainty: int)
      requires InRows(r) && CacheShape(c) && CacheShape(c') && r.startB <= b <= r.endB
    {
      && Progress(fa, fb, ss, c, c', r, b)
      && i == MostCertain(ss, b - r.startB) && certainty == CertaintyAt(ss, i)
    }

    /** Brings every line of the range up to date and picks the most certain one. */
    method CalculateLines(r: Range, ghost fa: seq<Fingerprint>, ghost fb: seq<Fingerprint>, ghost ss: seq<Scan>)
      returns (i: int)
      requires Shape() && InRows(r) && fpA[..] == fa && fpB[..] == fb && r.startB <= r.endB
      requires Progress(fa, fb, ss, Snapshot(), Snapshot(), r, r.startB)
      modifies similarities, certainties, secondBest, result
      ensures Progress(fa, fb, ss, old(Snapshot()), Snapshot(), r, r.endB)
      ensures fpA[..] == fa && fpB[..] == fb
      ensures i == MostCertain(ss, |ss|)
    {
      i := -1;
      var certainty := -1;
      var b := r.startB;
      ghost var c := Snapshot();
      while b < r.endB
        invariant r.startB <= b <= r.endB && |ss| == r.endB - r.startB && fpA[..] == fa && fpB[..] == fb
        invariant Picking(fa, fb, ss, c, Snapshot(), r, b, i, certainty)
      {
        i, certainty := ConsiderLine(r, b, i, certainty, fa, fb, ss, c);
        b := b + 1;
      }
    }

    ghost predicate LinesKnown(ss: seq<Scan>, cs: seq<int>, sb: seq<int>, ms: seq<int>, startB: nat, n: nat)
      requires first <= startB && startB + |ss| <= first + rows && |cs| == |sb| == |ms| == rows && n <= |ss|
    {
      forall j :: 0 <= j < n ==>
        LineKnown(cs[startB - first + j], sb[startB - first + j], ms[startB - first + j], ss[j])
    }

    lemma LinesKnownExtends(ss: seq<Scan>, c: Cache, c': Cache, startB: nat, b: nat)
      requires CacheShape(c) && CacheShape(c')
      requires first <= startB && startB + |ss| <= first + rows && startB <= b < startB + |ss|
      requires LinesKnown(ss, c.certainties, c.secondBest, c.matches, startB, b - startB) && Outside(c, c', b, b + 1)
      requires LineKnown(c'.certainties[b - first], c'.secondBest[b - first], c'.matches[b - first], ss[b - startB])
      ensures LinesKnown(ss, c'.certainties, c'.secondBest, c'.matches, startB, b - startB + 1)
    {
    }

    /** Forgets the similarities of the lines of B near the match with the line of A just matched. */
    method InvalidateSimilarities(r: Range, i: nat, a: nat)
      requires Shape() && InRows(r) && Picks(r, i, a) && Spread(g, r.startB, r.endB) && HasCell(r.startB + i, a)
      modifies similarities
      ensures Forgotten(old(similarities[..]), similarities[..], r, a)
    {
      var b := r.startB + i - g.maxB;
      if b < r.startB {
        b := r.startB;
      }
      var end := r.startB + i + g.maxB + 1;
      if end > r.endB {
        end := r.endB;
      }
      ghost var from := b;
      while b < end
        invariant r.startB <= from <= b && (b <= end || b == from)
        invariant ForgottenBetween(old(similarities[..]), similarities[..], from, b, a)
      {
        var closest := g.closest(b);
        if Abs(a - closest) <= g.maxA {
          CellUpdate(similarities[..], b, a, -1);
          ghost var before := similarities[..];
          similarities[Index(b, a)] := -1;
          assert similarities[..] == before[Index(b, a) := -1];
        }
        b := b + 1;
      }
      assert g.closest(r.startB + i) == g.closest(r.startB + i);
      assert Forgotten(old(similarities[..]), similarities[..], r, a);
    }

    ghost predicate ForgottenBetween(sims: seq<int>, sims': seq<int>, from: nat, to: nat, a: nat)
      requires |sims| == |sims'| == rows * (2 * g.maxA + 1)
    {
      forall b: nat, a': nat {:trigger Cell(sims', b, a')} :: HasCell(b, a') ==>
        Cell(sims', b, a') == if from <= b < to && a' == a then -1 else Cell(sims, b, a')
    }

    ghost predicate Forgotten(sims: seq<int>, sims': seq<int>, r: Range, a: nat)
      requires |sims| == |sims'| == rows * (2 * g.maxA + 1)
    {
      forall b: nat, a': nat {:trigger Cell(sims', b, a')} :: HasCell(b, a') ==>
        Cell(sims', b, a') == if r.startB <= b < r.endB && a' == a then -1 else Cell(sims, b, a')
    }

    predicate StaleBefore(r: Range, i: nat, a: nat, k: int, certainty: int, secondBest_: int, match_: int) {
      && r.startB + i - g.maxB <= first + k && r.startB <= first + k < r.startB + i
      && certainty >= 0 && (match_ >= a || secondBest_ >= a)
    }

    /** Discards lines before the match that rest on the matched line of A or on a later one. */
    method DiscardBefore(r: Range, i: nat, a: nat)
      requires Shape() && InRows(r) && Picks(r, i, a)
      modifies certainties
      ensures forall k :: 0 <= k < rows ==>
        certainties[k] == if StaleBefore(r, i, a, k, old(certainties[k]), secondBest[k], result[k]) then
          NOT_CALCULATED else old(certainties[k])
    {
      var min := Max(r.startB + i - g.maxB, r.startB);
      var b := r.startB + i - 1;
      while b >= min
        invariant b < r.startB + i
        invariant forall k :: 0 <= k < rows ==>
          certainties[k] == if b < first + k
            && StaleBefore(r, i, a, k, old(certainties[k]), secondBest[k], result[k]) then NOT_CALCULATED
              else old(certainties[k])
      {
        if certainties[b - first] >= 0 && (result[b - first] >= a || secondBest[b - first] >= a) {
          certainties[b - first] := NOT_CALCULATED;
        }
        b := b - 1;
      }
    }

    predicate StaleAfter(r: Range, i: nat, a: nat, k: int, certainty: int, secondBest_: int, match_: int) {
      && first + k <= r.startB + i + g.maxB && r.startB + i < first + k < r.endB
      && certainty >= 0 && (match_ <= a || secondBest_ <= a)
    }

    /** Discards lines after the match that rest on the matched line of A or on an earlier one. */
    method DiscardAfter(r: Range, i: nat, a: nat)
      requires Shape() && InRows(r) && Picks(r, i, a)
      modifies certainties
      ensures forall k :: 0 <= k < rows ==>
        certainties[k] == if StaleAfter(r, i, a, k, old(certainties[k]), secondBest[k], result[k]) then NOT_CALCULATED
          else old(certainties[k])
    {
      var max := Min(r.startB + i + g.maxB + 1, r.endB);
      var b := r.startB + i + 1;
      while b < max
        invariant r.startB + i < b
        invariant forall k :: 0 <= k < rows ==>
          certainties[k] == if first + k < b
            && StaleAfter(r, i, a, k, old(certainties[k]), secondBest[k], result[k]) then NOT_CALCULATED
              else old(certainties[k])
      {
        if certainties[b - first] >= 0 && (result[b - first] <= a || secondBest[b - first] <= a) {
          certainties[b - first] := NOT_CALCULATED;
        }
        b := b + 1;
      }
    }

    method Invalidate(r: Range, i: nat, a: nat)
      requires Shape() && InRows(r) && Picks(r, i, a) && Spread(g, r.startB, r.endB) && HasCell(r.startB + i, a)
      modifies similarities, certainties
      ensures Forgotten(old(similarities[..]), similarities[..], r, a)
      ensures Discarded(r, i, a, old(certainties[..]), certainties[..], secondBest[..], result[..])
    {
      InvalidateSimilarities(r, i, a);
      DiscardBefore(r, i, a);
      DiscardAfter(r, i, a);
    }

    // ---- what remains after a match is good for the two halves ----

    /** The cache after the discards, given the one before. */
    ghost predicate Discarded(r: Range, i: nat, a: nat, cs: seq<int>, cs': seq<int>, sb: seq<int>, ms: seq<int>)
      requires |cs| == |cs'| == |sb| == |ms| == rows
    {
      forall k :: 0 <= k < rows ==>
        cs'[k] == if StaleBefore(r, i, a, k, cs[k], sb[k], ms[k]) || StaleAfter(r, i, a, k, cs[k], sb[k], ms[k]) then
          NOT_CALCULATED else cs[k]
    }

    lemma SimsLeft(fa: seq<Fingerprint>, fa': seq<Fingerprint>, fb: seq<Fingerprint>, sims: seq<int>, sims': seq<int>,
                   r: Range, i: nat, a: nat)
      requires Fits(g, fa, fb, r) && InRows(r) && Picks(r, i, a) && |sims| == |sims'| == rows * (2 * g.maxA + 1)
      requires SimsOk(fa, fb, sims, r) && Forgotten(sims, sims', r, a) && Shrinks(fa, fa', a, a + 1)
      ensures Fits(g, fa', fb, Left(r, i, a)) && SimsOk(fa', fb, sims', Left(r, i, a))
    {
      forall b: nat, a': nat | r.startB <= b < r.startB + i && r.startA <= a' <= a && HasCell(b, a')
        ensures Cell(sims', b, a') == -1 || Cell(sims', b, a') == Value(g, fa', fb, b, a')
      {
        assert a' != a ==> Cell(sims', b, a') == Cell(sims, b, a');
      }
    }

    /** Similarities of the second half: none is left for the matched line of A itself. */
    ghost predicate SimsAfter(fa: seq<Fingerprint>, fb: seq<Fingerprint>, sims: seq<int>, r: Range, i: nat, a: nat)
      requires Fits(g, fa, fb, r) && InRows(r) && Picks(r, i, a) && |sims| == rows * (2 * g.maxA + 1)
    {
      forall b: nat, a': nat {:trigger Cell(sims, b, a')} ::
        r.startB + i < b < r.endB && a <= a' < r.endA && HasCell(b, a') ==>
          Cell(sims, b, a') == -1 || (a' != a && Cell(sims, b, a') == Value(g, fa, fb, b, a'))
    }

    lemma SimsRight(fa: seq<Fingerprint>, fa': seq<Fingerprint>, fb: seq<Fingerprint>, sims: seq<int>,
                    sims': seq<int>, r: Range, i: nat, a: nat)
      requires Fits(g, fa, fb, r) && InRows(r) && Picks(r, i, a) && |sims| == |sims'| == rows * (2 * g.maxA + 1)
      requires SimsAfter(fa, fb, sims, r, i, a) && Shrinks(fa, fa', r.startA, a + 1)
        && RowsKept(sims, sims', r.startB, r.startB + i)
      ensures Fits(g, fa', fb, Right(r, i, a)) && SimsOk(fa', fb, sims', Right(r, i, a))
    {
      forall b: nat, a': nat | r.startB + i < b < r.endB && a <= a' < r.endA && HasCell(b, a')
        ensures Cell(sims', b, a') == -1 || Cell(sims', b, a') == Value(g, fa', fb, b, a')
      {
        assert Cell(sims', b, a') == Cell(sims, b, a');
      }
    }

    /** A line before the match that was not discarded rests on lines of A before the matched one. */
    lemma RestsBefore(fa: seq<Fingerprint>, fb: seq<Fingerprint>, r: Range, i: nat, a: nat, b: nat, certainty: int,
                      secondBest_: int, match_: int)
      requires Fits(g, fa, fb, r) && Picks(r, i, a) && r.startB <= b < r.startB + i && Spread(g, r.startB, r.endB)
      requires Distance(g, r.startB + i, a) <= g.maxA
      requires LineKnown(certainty, secondBest_, match_, LineScan(g, fa, fb, r, b))
      requires r.startB + i - g.maxB <= b && certainty >= 0 ==> match_ < a && secondBest_ < a
      ensures var s := LineScan(g, fa, fb, r, b); (s.best > 0 ==> s.bestLine < a) && (s.second > 0 ==> s.secondLine < a)
    {
      ScanIsBest(g, fa, fb, r, b);
      if b < r.startB + i - g.maxB {
        assert g.closest(b) + 2 * g.maxA < g.closest(r.startB + i);
      }
    }

    lemma RestsAfter(fa: seq<Fingerprint>, fb: seq<Fingerprint>, r: Range, i: nat, a: nat, b: nat, certainty: int,
                     secondBest_: int, match_: int)
      requires Fits(g, fa, fb, r) && Picks(r, i, a) && r.startB + i < b < r.endB && Spread(g, r.startB, r.endB)
      requires Distance(g, r.startB + i, a) <= g.maxA
      requires LineKnown(certainty, secondBest_, match_, LineScan(g, fa, fb, r, b))
      requires b <= r.startB + i + g.maxB && certainty >= 0 ==> match_ > a && secondBest_ > a
      ensures var s := LineScan(g, fa, fb, r, b); (s.best > 0 ==> s.bestLine > a) && (s.second > 0 ==> s.secondLine > a)
    {
      ScanIsBest(g, fa, fb, r, b);
      if b > r.startB + i + g.maxB {
        assert g.closest(r.startB + i) + 2 * g.maxA < g.closest(b);
      }
    }

    lemma LineLeft(fa: seq<Fingerprint>, fa': seq<Fingerprint>, fb: seq<Fingerprint>, r: Range, i: nat, a: nat,
                   b: nat, certainty: int, secondBest_: int, match_: int)
      requires Fits(g, fa, fb, r) && Picks(r, i, a) && r.startB <= b < r.startB + i && Spread(g, r.startB, r.endB)
      requires Distance(g, r.startB + i, a) <= g.maxA && Shrinks(fa, fa', a, a + 1)
      requires Fits(g, fa', fb, Left(r, i, a))
      requires LineKnown(certainty, secondBest_, match_, LineScan(g, fa, fb, r, b))
      requires !StaleBefore(r, i, a, b - first, certainty, secondBest_, match_)
      ensures LineKnown(certainty, secondBest_, match_, LineScan(g, fa', fb, Left(r, i, a), b))
    {
      RestsBefore(fa, fb, r, i, a, b, certainty, secondBest_, match_);
      KeepLeft(g, fa, fa', fb, r, i, a, b);
    }

    lemma LinesLeft(fa: seq<Fingerprint>, fa': seq<Fingerprint>, fb: seq<Fingerprint>, ss: seq<Scan>, ss': seq<Scan>,
                    cs: seq<int>, cs': seq<int>, sb: seq<int>, ms: seq<int>, r: Range, i: nat, a: nat)
      requires Fits(g, fa, fb, r) && InRows(r) && Picks(r, i, a) && Spread(g, r.startB, r.endB)
      requires Fits(g, fa', fb, Left(r, i, a)) && Shrinks(fa, fa', a, a + 1)
      requires Distance(g, r.startB + i, a) <= g.maxA && |cs| == |cs'| == |sb| == |ms| == rows
      requires Describes(ss, fa, fb, r) && Describes(ss', fa', fb, Left(r, i, a))
      requires LinesKnown(ss, cs, sb, ms, r.startB, |ss|) && Discarded(r, i, a, cs, cs', sb, ms)
      ensures LinesOk(ss', cs', sb, ms, r.startB)
    {
      forall j | 0 <= j < i && cs'[r.startB - first + j] != NOT_CALCULATED
        ensures LineKnown(cs'[r.startB - first + j], sb[r.startB - first + j], ms[r.startB - first + j], ss'[j])
      {
        var k := r.startB - first + j;
        assert ss[j] == LineScan(g, fa, fb, r, r.startB + j);
        LineLeft(fa, fa', fb, r, i, a, r.startB + j, cs[k], sb[k], ms[k]);
      }
    }

    /** Lines of the second half that are kept rest on lines of A after the matched one. */
    ghost predicate LinesAfter(ss: seq<Scan>, cs: seq<int>, sb: seq<int>, ms: seq<int>, r: Range, i: nat, a: nat)
      requires InRows(r) && |ss| == r.endB - r.startB && |cs| == |sb| == |ms| == rows
    {
      forall j :: i < j < |ss| && cs[r.startB - first + j] != NOT_CALCULATED ==>
        && LineKnown(cs[r.startB - first + j], sb[r.startB - first + j], ms[r.startB - first + j], ss[j])
        && (ss[j].best > 0 ==> ss[j].bestLine > a) && (ss[j].second > 0 ==> ss[j].secondLine > a)
    }

    lemma LinesAfterDiscards(fa: seq<Fingerprint>, fb: seq<Fingerprint>, ss: seq<Scan>,
                             cs: seq<int>, cs': seq<int>, sb: seq<int>, ms: seq<int>, r: Range, i: nat, a: nat)
      requires Fits(g, fa, fb, r) && InRows(r) && Picks(r, i, a) && Spread(g, r.startB, r.endB)
      requires Distance(g, r.startB + i, a) <= g.maxA && |cs| == |cs'| == |sb| == |ms| == rows
      requires Describes(ss, fa, fb, r)
      requires LinesKnown(ss, cs, sb, ms, r.startB, |ss|) && Discarded(r, i, a, cs, cs', sb, ms)
      ensures LinesAfter(ss, cs', sb, ms, r, i, a)
    {
      forall j | i < j < |ss| && cs'[r.startB - first + j] != NOT_CALCULATED
        ensures (ss[j].best > 0 ==> ss[j].bestLine > a) && (ss[j].second > 0 ==> ss[j].secondLine > a)
      {
        var b, k := r.startB + j, r.startB - first + j;
        assert ss[j] == LineScan(g, fa, fb, r, b);
        RestsAfter(fa, fb, r, i, a, b, cs[k], sb[k], ms[k]);
      }
    }

    lemma LineRight(fa: seq<Fingerprint>, fa': seq<Fingerprint>, fb: seq<Fingerprint>, r: Range, i: nat, a: nat,
                    b: nat, certainty: int, secondBest_: int, match_: int)
      requires Fits(g, fa, fb, r) && Picks(r, i, a) && r.startB + i < b < r.endB
      requires Fits(g, fa', fb, Right(r, i, a)) && Shrinks(fa, fa', r.startA, a + 1)
      requires var s := LineScan(g, fa, fb, r, b);
        LineKnown(certainty, secondBest_, match_, s) && (s.best > 0 ==> s.bestLine > a)
          && (s.second > 0 ==> s.secondLine > a)
      ensures LineKnown(certainty, secondBest_, match_, LineScan(g, fa', fb, Right(r, i, a), b))
    {
      KeepRight(g, fa, fa', fb, r, i, a, b);
    }

    lemma LinesRight(fa: seq<Fingerprint>, fa': seq<Fingerprint>, fb: seq<Fingerprint>, ss: seq<Scan>, ss': seq<Scan>,
                     cs: seq<int>, sb: seq<int>, ms: seq<int>, r: Range, i: nat, a: nat)
      requires Fits(g, fa, fb, r) && InRows(r) && Picks(r, i, a)
      requires Fits(g, fa', fb, Right(r, i, a)) && Shrinks(fa, fa', r.startA, a + 1)
      requires |cs| == |sb| == |ms| == rows
      requires Describes(ss, fa, fb, r) && Describes(ss', fa', fb, Right(r, i, a))
      requires LinesAfter(ss, cs, sb, ms, r, i, a)
      ensures LinesOk(ss', cs, sb, ms, r.startB + i + 1)
    {
      forall j' | 0 <= j' < |ss'| && cs[r.startB + i + 1 - first + j'] != NOT_CALCULATED
        ensures LineKnown(cs[r.startB + i + 1 - first + j'], sb[r.startB + i + 1 - first + j'],
                          ms[r.startB + i + 1 - first + j'], ss'[j'])
      {
        var j := i + 1 + j';
        var k := r.startB - first + j;
        assert ss[j] == LineScan(g, fa, fb, r, r.startB + j);
        LineRight(fa, fa', fb, r, i, a, r.startB + j, cs[k], sb[k], ms[k]);
      }
    }

    // ---- one level of the recursion ----

    /** The cache agrees with the fingerprints wherever the range will look. */
    ghost predicate Ready(fa: seq<Fingerprint>, fb: seq<Fingerprint>, c: Cache, r: Range)
      requires InRows(r) && CacheShape(c)
    {
      && Fits(g, fa, fb, r) && SimsOk(fa, fb, c.sims, r)
      && LinesOk(Scans(g, fa, fb, r), c.certainties, c.secondBest, c.matches, r.startB)
    }

    /** The cache can serve the second half whatever the first half does to lines of A up to a. */
    ghost predicate SecondReady(fa: seq<Fingerprint>, fb: seq<Fingerprint>, c: Cache, r: Range, i: nat, a: nat)
      requires InRows(r) && Picks(r, i, a) && CacheShape(c)
    {
      && Fits(g, fa, fb, r) && SimsAfter(fa, fb, c.sims, r, i, a)
      && LinesAfter(Scans(g, fa, fb, r), c.certainties, c.secondBest, c.matches, r, i, a)
    }

    lemma HalvesReady(fa: seq<Fingerprint>, fa': seq<Fingerprint>, fb: seq<Fingerprint>, ss: seq<Scan>, c: Cache,
                      c': Cache, r: Range, i: nat, a: nat)
      requires Fits(g, fa, fb, r) && InRows(r) && Picks(r, i, a) && Spread(g, r.startB, r.endB)
        && Shrinks(fa, fa', a, a + 1)
      requires Distance(g, r.startB + i, a) <= g.maxA && CacheShape(c) && CacheShape(c')
      requires ss == Scans(g, fa, fb, r)
      requires SimsOk(fa, fb, c.sims, r) && Forgotten(c.sims, c'.sims, r, a)
      requires LinesKnown(ss, c.certainties, c.secondBest, c.matches, r.startB, |ss|)
      requires Discarded(r, i, a, c.certainties, c'.certainties, c.secondBest, c.matches)
      requires c'.secondBest == c.secondBest && c'.matches == c.matches
      ensures Ready(fa', fb, c', Left(r, i, a))
      ensures SecondReady(fa, fb, c', r, i, a)
      ensures Outside(c, c', r.startB, r.endB)
    {
      ScansDescribe(fa, fb, r);
      SimsLeft(fa, fa', fb, c.sims, c'.sims, r, i, a);
      ScansDescribe(fa', fb, Left(r, i, a));
      LinesLeft(fa, fa', fb, ss, Scans(g, fa', fb, Left(r, i, a)), c.certainties, c'.certainties, c.secondBest,
                c.matches, r, i, a);
      LinesAfterDiscards(fa, fb, ss, c.certainties, c'.certainties, c.secondBest, c.matches, r, i, a);
    }

    lemma ScansDescribe(fa: seq<Fingerprint>, fb: seq<Fingerprint>, r: Range)
      requires Fits(g, fa, fb, r)
      ensures Describes(Scans(g, fa, fb, r), fa, fb, r)
    {
    }

    lemma MatchInReach(fa: seq<Fingerprint>, fb: seq<Fingerprint>, r: Range, ss: seq<Scan>, i: nat, cs: seq<int>,
                       sb: seq<int>, ms: seq<int>)
      requires Fits(g, fa, fb, r) && InRows(r) && Describes(ss, fa, fb, r) && i < |ss| && Certainty(ss[i]) > -1
      requires |cs| == |sb| == |ms| == rows && LinesKnown(ss, cs, sb, ms, r.startB, |ss|)
      ensures var a := ms[r.startB - first + i];
        a == Match(ss[i]) && a >= 0 && Picks(r, i, a) && HasCell(r.startB + i, a)
    {
      assert LineKnown(cs[r.startB - first + i], sb[r.startB - first + i], ms[r.startB - first + i], ss[i]);
      ScanIsBest(g, fa, fb, r, r.startB + i);
    }

    /** Spends the matched line's pairs and discards what the match affects. */
    method Settle(r: Range, i: nat, a: nat, ghost ss: seq<Scan>)
      requires Shape() && Fits(g, fpA[..], fpB[..], r) && InRows(r) && Spread(g, r.startB, r.endB)
      requires Picks(r, i, a) && HasCell(r.startB + i, a) && ss == Scans(g, fpA[..], fpB[..], r)
      requires SimsOk(fpA[..], fpB[..], similarities[..], r)
      requires LinesKnown(ss, certainties[..], secondBest[..], result[..], r.startB, |ss|)
      modifies fpA, similarities, certainties
      ensures fpA[..] == Spend(old(fpA[..]), a, fpB[r.startB + i])
      ensures Ready(fpA[..], fpB[..], Snapshot(), Left(r, i, a))
      ensures SecondReady(old(fpA[..]), fpB[..], Snapshot(), r, i, a)
      ensures Outside(old(Snapshot()), Snapshot(), r.startB, r.endB)
      ensures result[..] == old(result[..])
    {
      ghost var fa, c := fpA[..], Snapshot();
      fpA[a] := Subtract(fpA[a], fpB[r.startB + i]);
      assert fpA[..] == Spend(fa, a, fpB[r.startB + i]);
      Invalidate(r, i, a);
      HalvesReady(fa, fpA[..], fpB[..], ss, c, Snapshot(), r, i, a);
    }

    lemma NoMatches(fa: seq<Fingerprint>, fb: seq<Fingerprint>, r: Range, ss: seq<Scan>, cs: seq<int>, sb: seq<int>,
                    ms: seq<int>)
      requires Fits(g, fa, fb, r) && InRows(r) && ss == Scans(g, fa, fb, r) && |cs| == |sb| == |ms| == rows
      requires MostCertain(ss, |ss|) == -1 && LinesKnown(ss, cs, sb, ms, r.startB, |ss|)
      ensures Outcome(ms[r.startB - first..r.endB - first], fa) == Reference(g, fa, fb, r)
    {
      var t := ms[r.startB - first..r.endB - first];
      forall j | 0 <= j < |t|
        ensures t[j] == -1
      {
        NoneCertain(ss, |ss|, j);
        ScanOrdered(g, fa, fb, r, r.startB + j);
        assert LineKnown(cs[r.startB - first + j], sb[r.startB - first + j], ms[r.startB - first + j], ss[j]);
      }
      assert t == seq(|ss|, _ => -1);
    }

    lemma LinesAfterKept(ss: seq<Scan>, c: Cache, c': Cache, r: Range, i: nat, a: nat)
      requires InRows(r) && |ss| == r.endB - r.startB && CacheShape(c) && CacheShape(c')
      requires Outside(c, c', r.startB, r.startB + i)
      requires LinesAfter(ss, c.certainties, c.secondBest, c.matches, r, i, a)
      ensures LinesAfter(ss, c'.certainties, c'.secondBest, c'.matches, r, i, a)
    {
    }

    /** After the first half ran, the second half's preconditions hold. */
    lemma SecondHalfReady(fa: seq<Fingerprint>, fa': seq<Fingerprint>, fb: seq<Fingerprint>, c: Cache, c': Cache,
                          r: Range, i: nat, a: nat)
      requires InRows(r) && Picks(r, i, a) && CacheShape(c) && CacheShape(c')
      requires SecondReady(fa, fb, c, r, i, a) && Shrinks(fa, fa', r.startA, a + 1)
      requires Outside(c, c', r.startB, r.startB + i)
      ensures Ready(fa', fb, c', Right(r, i, a))
    {
      var ss := Scans(g, fa, fb, r);
      ScansDescribe(fa, fb, r);
      SimsRight(fa, fa', fb, c.sims, c'.sims, r, i, a);
      ScansDescribe(fa', fb, Right(r, i, a));
      LinesAfterKept(ss, c, c', r, i, a);
      LinesRight(fa, fa', fb, ss, Scans(g, fa', fb, Right(r, i, a)), c'.certainties, c'.secondBest, c'.matches, r, i,
                 a);
    }

    /** o is the match a between the outcomes of the two halves, started from fa1. */
    ghost predicate TwoHalves(fa1: seq<Fingerprint>, fb: seq<Fingerprint>, r: Range, i: nat, a: nat, o: Outcome)
      requires Picks(r, i, a)
    {
      && Fits(g, fa1, fb, Left(r, i, a))
      && Fits(g, Reference(g, fa1, fb, Left(r, i, a)).fpA, fb, Right(r, i, a))
      && var left := Reference(g, fa1, fb, Left(r, i, a));
      var right := Reference(g, left.fpA, fb, Right(r, i, a));
      o == Outcome(left.matches + [a] + right.matches, right.fpA)
    }

    /** One half, skipped if it has no lines of B. */
    method Half(r: Range)
      requires Shape() && InRows(r) && Spread(g, r.startB, r.endB)
      requires r.startB <= r.endB && Ready(fpA[..], fpB[..], Snapshot(), r)
      modifies fpA, similarities, certainties, secondBest, result
      ensures Matched(old(fpA[..]), fpA[..], old(fpB[..]), Snapshot(), r)
      ensures Outside(old(Snapshot()), Snapshot(), r.startB, r.endB)
      ensures fpB[..] == old(fpB[..])
      decreases r.endB - r.startB, 3
    {
      if r.startB < r.endB {
        Recurse(r);
      }
    }

    /** Runs the two halves on either side of a settled match. */
    method Halves(r: Range, i: nat, a: nat, ghost fa: seq<Fingerprint>)
      requires Shape() && InRows(r) && Picks(r, i, a) && Spread(g, r.startB, r.endB)
      requires Shrinks(fa, fpA[..], a, a + 1) && result[r.startB - first + i] == a
      requires Ready(fpA[..], fpB[..], Snapshot(), Left(r, i, a))
      requires SecondReady(fa, fpB[..], Snapshot(), r, i, a)
      modifies fpA, similarities, certainties, secondBest, result
      ensures TwoHalves(old(fpA[..]), old(fpB[..]), r, i, a,
                        Outcome(Snapshot().matches[r.startB - first..r.endB - first], fpA[..]))
      ensures Outside(old(Snapshot()), Snapshot(), r.startB, r.endB)
      decreases r.endB - r.startB, 0
    {
      ghost var c, fa1, fb := Snapshot(), fpA[..], fpB[..];
      Half(Left(r, i, a));
      ghost var c', fa2 := Snapshot(), fpA[..];
      ShrinksWider(fa, fa1, fa2, r.startA, a);
      SecondHalfReady(fa, fa2, fb, c, c', r, i, a);
      Half(Right(r, i, a));
      HalvesOutside(c, c', Snapshot(), r, i, a);
      HalvesJoined(fa1, fa2, fpA[..], fb, c', Snapshot(), r, i, a);
    }

    /** Settles a match, and runs the halves on either side of it. */
    method SettleAndSplit(r: Range, i: nat, a: nat, ghost ss: seq<Scan>, ghost fa: seq<Fingerprint>,
                          ghost fb: seq<Fingerprint>)
      requires Shape() && fa == fpA[..] && fb == fpB[..] && Fits(g, fa, fb, r) && InRows(r)
      requires Spread(g, r.startB, r.endB) && Picks(r, i, a) && HasCell(r.startB + i, a) && ss == Scans(g, fa, fb, r)
      requires SimsOk(fa, fb, similarities[..], r) && result[r.startB - first + i] == a
      requires LinesKnown(ss, certainties[..], secondBest[..], result[..], r.startB, |ss|)
      modifies fpA, similarities, certainties, secondBest, result
      ensures TwoHalves(Spend(fa, a, fb[r.startB + i]), fb, r, i, a,
                        Outcome(Snapshot().matches[r.startB - first..r.endB - first], fpA[..]))
      ensures Outside(old(Snapshot()), Snapshot(), r.startB, r.endB)
      decreases r.endB - r.startB, 1
    {
      ghost var c := Snapshot();
      Settle(r, i, a, ss);
      ghost var c' := Snapshot();
      Halves(r, i, a, fa);
      OutsideTwice(c, c', Snapshot(), r.startB, r.endB, r.startB, r.endB, r.startB, r.endB);
    }

    /** r's lines of the cache, and the fingerprints fa', are what matching r from fa leads to. */
    ghost predicate Matched(fa: seq<Fingerprint>, fa': seq<Fingerprint>, fb: seq<Fingerprint>, c: Cache, r: Range)
      requires InRows(r) && CacheShape(c) && r.startB <= r.endB
    {
      Fits(g, fa, fb, r) && Outcome(c.matches[r.startB - first..r.endB - first], fa') == Reference(g, fa, fb, r)
    }

    lemma HalvesJoined(fa1: seq<Fingerprint>, fa2: seq<Fingerprint>, fa3: seq<Fingerprint>, fb: seq<Fingerprint>,
                       c: Cache, c': Cache, r: Range, i: nat, a: nat)
      requires InRows(r) && Picks(r, i, a) && CacheShape(c) && CacheShape(c')
      requires Matched(fa1, fa2, fb, c, Left(r, i, a)) && Matched(fa2, fa3, fb, c', Right(r, i, a))
      requires OthersKept(c.matches, c'.matches, r.startB + i + 1, r.endB) && c.matches[r.startB - first + i] == a
      ensures TwoHalves(fa1, fb, r, i, a, Outcome(c'.matches[r.startB - first..r.endB - first], fa3))
    {
      var left := Reference(g, fa1, fb, Left(r, i, a));
      var right := Reference(g, fa2, fb, Right(r, i, a));
      Joined(c.matches, c'.matches, r, i, left.matches, a, right.matches);
    }

    lemma HalvesOutside(c: Cache, c': Cache, c'': Cache, r: Range, i: nat, a: nat)
      requires InRows(r) && r.startB + i < r.endB && CacheShape(c) && CacheShape(c') && CacheShape(c'')
      requires Outside(c, c', r.startB, r.startB + i) && Outside(c', c'', r.startB + i + 1, r.endB)
      requires c.matches[r.startB - first + i] == a
      ensures Outside(c, c'', r.startB, r.endB)
      ensures OthersKept(c'.matches, c''.matches, r.startB + i + 1, r.endB) && c'.matches[r.startB - first + i] == a
    {
      OutsideTwice(c, c', c'', r.startB, r.startB + i, r.startB + i + 1, r.endB, r.startB, r.endB);
    }

    lemma Joined(ms1: seq<int>, ms2: seq<int>, r: Range, i: nat, left: seq<int>, a: int, right: seq<int>)
      requires InRows(r) && r.startB + i < r.endB && |ms1| == |ms2| == rows
      requires ms1[r.startB - first..r.startB - first + i] == left && ms1[r.startB - first + i] == a
      requires OthersKept(ms1, ms2, r.startB + i + 1, r.endB) && ms2[r.startB + i + 1 - first..r.endB - first] == right
      ensures ms2[r.startB - first..r.endB - first] == left + [a] + right
    {
      var lo := r.startB - first;
      assert ms2[lo..lo + i] == ms1[lo..lo + i];
      assert ms2[lo..r.endB - first] == ms2[lo..lo + i] + [ms2[lo + i]] + ms2[lo + i + 1..r.endB - first];
    }

    /** Matches the lines of the range: the same matches as with no cache at all. */
    method Recurse(r: Range)
      requires Shape() && InRows(r) && Spread(g, r.startB, r.endB)
      requires r.startB <= r.endB && Ready(fpA[..], fpB[..], Snapshot(), r)
      modifies fpA, similarities, certainties, secondBest, result
      ensures Matched(old(fpA[..]), fpA[..], old(fpB[..]), Snapshot(), r)
      ensures Outside(old(Snapshot()), Snapshot(), r.startB, r.endB)
      decreases r.endB - r.startB, 2
    {
      ghost var fa, fb, c := fpA[..], fpB[..], Snapshot();
      ghost var ss := Scans(g, fa, fb, r);
      ScansDescribe(fa, fb, r);
      var i := CalculateLines(r, fa, fb, ss);
      ghost var c' := Snapshot();
      if i == -1 {
        NoMatches(fa, fb, r, ss, c'.certainties, c'.secondBest, c'.matches);
        return;
      }
      var a := result[r.startB - first + i];
      MatchInReach(fa, fb, r, ss, i, c'.certainties, c'.secondBest, c'.matches);
      SettleAndSplit(r, i, a, ss, fa, fb);
      OutsideTwice(c, c', Snapshot(), r.startB, r.endB, r.startB, r.endB, r.startB, r.endB);
      Assembled(fa, fb, r, ss, i, a, Outcome(Snapshot().matches[r.startB - first..r.endB - first], fpA[..]));
    }

    lemma Assembled(fa: seq<Fingerprint>, fb: seq<Fingerprint>, r: Range, ss: seq<Scan>, i: nat, a: nat, o: Outcome)
      requires Fits(g, fa, fb, r)
      requires ss == Scans(g, fa, fb, r) && i == MostCertain(ss, |ss|) && a == Match(ss[i]) && Picks(r, i, a)
      requires TwoHalves(Spend(fa, a, fb[r.startB + i]), fb, r, i, a, o)
      ensures o == Reference(g, fa, fb, r)
    {
      Unfold(g, fa, fb, r, ss, i, a);
    }
  }

  function CertaintyAt(ss: seq<Scan>, i: int): int
    requires -1 <= i < |ss|
  {
    if i == -1 then -1 else Certainty(ss[i])
  }

  lemma PickStep(ss: seq<Scan>, k: nat)
    requires k < |ss|
    ensures MostCertain(ss, k + 1) == if Certainty(ss[k]) > CertaintyAt(ss, MostCertain(ss, k)) then k
      else MostCertain(ss, k)
  {
  }

  lemma {:induction false} NoneCertain(ss: seq<Scan>, n: nat, j: nat)
    requires j < n <= |ss| && MostCertain(ss, n) == -1
    ensures Certainty(ss[j]) <= -1
  {
    if j < n - 1 {
      NoneCertain(ss, n - 1, j);
    }
  }

  lemma ShrinksWider(f: seq<Fingerprint>, f': seq<Fingerprint>, f'': seq<Fingerprint>, lo: int, a: int)
    requires lo <= a && Shrinks(f, f', a, a + 1) && Shrinks(f', f'', lo, a + 1)
    ensures Shrinks(f, f'', lo, a + 1)
  {
  }

  /** How far matching looks around: at most 10 lines of A, fewer in a short chunk. */
  function ChunkGeometry(startA: nat, lengthA: nat, startB: nat, lengthB: nat): (g: Geometry)
    requires lengthA > 0
    ensures g.maxA <= 10 && g.maxA < lengthA
    ensures Spread(g, startB, startB + lengthB)
  {
    var mapping := LineMapping(startA, lengthA, startB, lengthB);
    var maxA := if 10 >= lengthA then lengthA - 1 else 10;
    MappingSpread(mapping, maxA);
    Geometry(b => MapLineNumber(b, mapping), maxA, CDiv((2 * maxA + 1) * lengthB - 1, lengthA))
  }

  /**
     A line is expected where its middle falls when the chunk of B is stretched onto that of A, and compared with up to
     10 lines on each side of that, fewer in a short chunk.
   */
  lemma ChunkPlaces(startA: nat, lengthA: nat, startB: nat, lengthB: nat, b: nat, a: int)
    requires lengthA > 0 && startB <= b < startB + lengthB
    ensures ChunkGeometry(startA, lengthA, startB, lengthB).maxA == Min(10, lengthA - 1)
    ensures ChunkGeometry(startA, lengthA, startB, lengthB).closest(b) == a <==>
      2 * lengthB * (a - startA) <= (2 * (b - startB) + 1) * lengthA < 2 * lengthB * (a - startA + 1)
  {
    var n, d := (2 * (b - startB) + 1) * lengthA, 2 * lengthB;
    assert ((b - startB) * 2 + 1) * lengthA == n && lengthB * 2 == d;
    FloorIs(n, d, a - startA);
  }

  lemma FloorIs(n: int, d: int, q: int)
    requires d > 0
    ensures n / d == q <==> d * q <= n < d * (q + 1)
  {
    var q', m := n / d, n % d;
    assert n == q' * d + m && d * (q + 1) == q * d + d && d * q == q * d;
    if q * d <= n < q * d + d {
      FloorUnique(n, d, q, n - q * d);
    }
  }

  /** Matching with a cache that starts out empty. */
  method MatchRange(g: Geometry, fpA: array<Fingerprint>, fpB: array<Fingerprint>, r: Range) returns (matches: seq<int>)
    requires fpA != fpB && Fits(g, fpA[..], fpB[..], r) && Spread(g, r.startB, r.endB)
    modifies fpA
    ensures Outcome(matches, fpA[..]) == Reference(g, old(fpA[..]), fpB[..], r)
  {
    var m := new Matcher(g, r.startB, r.endB - r.startB, fpA, fpB);
    assert m.Ready(fpA[..], fpB[..], m.Snapshot(), r);
    m.Recurse(r);
    matches := m.result[..];
    assert matches == m.Snapshot().matches[r.startB - m.first..r.endB - m.first];
  }

  /** Matches lines [tlno, same) of the target with the parent's chunk; None if that chunk is empty. */
  method FuzzyFindMatchingLines(fpA: array<Fingerprint>, fpB: array<Fingerprint>, tlno: nat, parentStart: nat,
                                same: nat, parentLength: int)
    returns (matches: Option<seq<int>>)
    requires fpA != fpB && tlno <= same <= fpB.Length && parentStart + parentLength <= fpA.Length
    modifies fpA
    ensures matches.None? <==> parentLength <= 0
    ensures matches.None? ==> fpA[..] == old(fpA[..])
    ensures matches.Some? ==>
      var g := ChunkGeometry(parentStart, parentLength, tlno, same - tlno);
      Outcome(matches.value, fpA[..]) ==
        Reference(g, old(fpA[..]), fpB[..], Range(parentStart, parentStart + parentLength, tlno, same))
    ensures matches.Some? ==>
      && |matches.value| == same - tlno && InOrder(matches.value, parentStart, parentStart + parentLength)
      && Follows(ChunkGeometry(parentStart, parentLength, tlno, same - tlno), old(fpA[..]), fpB[..],
                 Range(parentStart, parentStart + parentLength, tlno, same), matches.value, fpA[..])
  {
    if parentLength <= 0 {
      return None;
    }
    var g := ChunkGeometry(parentStart, parentLength, tlno, same - tlno);
    var r := Range(parentStart, parentStart + parentLength, tlno, same);
    var ms := MatchRange(g, fpA, fpB, r);
    ReferenceInOrder(g, old(fpA[..]), fpB[..], r);
    ReferenceFollows(g, old(fpA[..]), fpB[..], r, Outcome(ms, fpA[..]));
    matches := Some(ms);
  }
}
