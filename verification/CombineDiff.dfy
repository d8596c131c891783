/**
 The combined diff of a merge (git/combine-diff.c): the diff from each parent to the result is folded
 in turn into one list of result lines, each with the lines lost before it.
 */
module CombineDiff {
  import opened LineMerge
  import opened CombineSpec

  // ---- the diff as it is fed in ----

  /** The line without its line end. */
  function Chomp(line: string): string { if line != "" && line[|line| - 1] == '\n' then line[..|line| - 1] else line }

  /** A result line that parent n does not have. */
  function Flagged(s: SLine, n: nat): SLine { s.(flag := s.flag + {n}) }

  lemma LostSnoc(plost: seq<Lost>, lines: seq<string>, n: nat, i: nat)
    requires i < |lines|
    ensures plost + LostFrom(lines[..i + 1], n) == plost + LostFrom(lines[..i], n) + [Lost(lines[i], {n})]
  {
  }

  // the callbacks a diff generator calls, hunk by hunk and line by line
  class DiffState {
    var slines: seq<SLine>
    var lno: nat
    var bucket: int
    const n: nat

    constructor (slines: seq<SLine>, n: nat)
      ensures this.slines == slines && this.n == n && bucket < 0
    {
      this.slines, this.n, lno, bucket := slines, n, 1, -1;
    }

    /** A hunk header in diff notation: an empty range names the line before it. */
    method ConsumeHunk(ob: nat, nb: nat, nn: nat)
      requires nb + nn <= |slines| && nb < |slines| && (nn > 0 ==> nb > 0)
      modifies this
      ensures bucket == (if nn == 0 then nb else nb - 1) && lno == nb
      ensures var at := if nb == 0 then 0 else nb - 1; slines == old(slines)[at := NumberedLine(old(slines)[at], n, ob)]
    {
      lno := nb;
      var at := nb;
      if nn == 0 {
        bucket := nb;
        if nb == 0 {
          at := 1;
        }
      } else {
        bucket := nb - 1;
      }
      slines := slines[at - 1 := NumberedLine(slines[at - 1], n, ob)];
    }

    /** A line of a hunk: '-' is lost before the hunk's result lines, '+' is not in the parent. */
    method ConsumeLine(line: string)
      requires line != "" && bucket < |slines| && (bucket >= 0 && line[0] == '+' ==> 0 < lno <= |slines|)
      modifies this
      ensures bucket == old(bucket)
      ensures lno == old(lno) + if bucket >= 0 && line[0] == '+' then 1 else 0
      ensures bucket >= 0 && line[0] == '-' ==>
        slines == old(slines)[bucket :=
                              old(slines)[bucket].(plost := old(slines)[bucket].plost + [Lost(Chomp(line[1..]), {n})])]
      ensures bucket >= 0 && line[0] == '+' ==> slines == old(slines)[lno - 2 := Flagged(old(slines)[lno - 2], n)]
      ensures bucket < 0 || line[0] !in "-+" ==> slines == old(slines)
    {
      if bucket < 0 {
        return;
      }
      if line[0] == '-' {
        slines := slines[bucket := slines[bucket].(plost := slines[bucket].plost + [Lost(Chomp(line[1..]), {n})])];
      } else if line[0] == '+' {
        slines := slines[lno - 1 := Flagged(slines[lno - 1], n)];
        lno := lno + 1;
      }
    }

    /** The lines a hunk loses. */
    method FeedLost(lines: seq<string>)
      requires 0 <= bucket < |slines|
      modifies this
      ensures bucket == old(bucket) && lno == old(lno)
      ensures slines ==
        old(slines)[bucket := old(slines)[bucket].(plost := old(slines)[bucket].plost + LostFrom(lines, n))]
    {
      var i := 0;
      ghost var plost := slines[bucket].plost;
      assert plost + LostFrom(lines[..0], n) == plost;
      while i < |lines|
        invariant 0 <= i <= |lines| && bucket == old(bucket) && lno == old(lno)
        invariant slines == old(slines)[bucket := old(slines)[bucket].(plost := plost + LostFrom(lines[..i], n))]
      {
        var line := "-" + lines[i] + "\n";
        assert line[1..] == lines[i] + "\n" && Chomp(line[1..]) == lines[i];
        LostSnoc(plost, lines, n, i);
        ConsumeLine(line);
        i := i + 1;
      }
      assert lines[..i] == lines;
    }

    /** The lines a hunk adds. */
    method FeedAdded(b: nat, added: nat, result: seq<string>)
      requires 0 <= bucket < |slines| && (added > 0 ==> lno == b + 1) && b + added <= |result| < |slines|
      modifies this
      ensures |slines| == |old(slines)|
      ensures forall l :: 0 <= l < |slines| ==>
        slines[l] == if b <= l < b + added then Flagged(old(slines)[l], n) else old(slines)[l]
    {
      var k := b;
      while k < b + added
        invariant b <= k <= b + added && bucket == old(bucket) && (k < b + added ==> lno == k + 1)
        invariant |slines| == |old(slines)|
        invariant forall l :: 0 <= l < |slines| ==>
          slines[l] == if b <= l < k then Flagged(old(slines)[l], n) else old(slines)[l]
      {
        ConsumeLine("+" + result[k] + "\n");
        k := k + 1;
      }
    }

    /** A whole hunk, header first. */
    method FeedHunk(h: Hunk, result: seq<string>)
      requires h.b + h.added <= |result| && |slines| == |result| + 2
      modifies this
      ensures slines == FedHunk(old(slines), n, h)
    {
      ConsumeHunk(HeaderNumber(h), if h.added == 0 then h.b else h.b + 1, h.added);
      assert bucket == h.b;
      FeedLost(h.lost);
      FeedAdded(h.b, h.added, result);
    }

    /** Runs the callbacks over a diff. */
    method Feed(hunks: seq<Hunk>, result: seq<string>)
      requires |slines| == |result| + 2 && Fit(hunks, |result|)
      modifies this
      ensures |slines| == |old(slines)| && slines == FedAll(old(slines), n, hunks)
    {
      var i := 0;
      assert hunks[0..] == hunks;
      while i < |hunks|
        invariant 0 <= i <= |hunks| && |slines| == |result| + 2
        invariant FedAll(slines, n, hunks[i..]) == FedAll(old(slines), n, hunks)
      {
        assert hunks[i..][0] == hunks[i] && hunks[i..][1..] == hunks[i + 1..];
        FeedHunk(hunks[i], result);
        i := i + 1;
      }
    }
  }

  // ---- numbering ----

  /** How many of the lost lines parent n had. */
  method CountLost(lost: seq<Lost>, n: nat) returns (c: nat)
    ensures c == |LinesOf(lost, n)|
  {
    c := 0;
    var i := 0;
    while i < |lost|
      invariant 0 <= i <= |lost| && c == |LinesOf(lost[..i], n)|
    {
      FirstLinesOf(lost, i + 1, n);
      if n in lost[i].parents {
        c := c + 1;
      }
      i := i + 1;
    }
    assert lost[..i] == lost;
  }

  /** The result line with the pending lines coalesced, and numbered; and the number of the line behind it. */
  method NumberLine(s: SLine, n: nat, bits: set<nat>, p: nat, inFile: bool) returns (s': SLine, p': nat)
    ensures s' == NumberedLine(CoalescedLine(s, bits), n, p)
    ensures p' == p + |LinesOf(s'.lost, n) + Own(s', n, inFile)|
  {
    s' := NumberedLine(s, n, p);
    if s.plost != [] {
      s' := s'.(lost := Merge(s.lost, s.plost, bits), plost := []);
    } else {
      MergeWithNone(s.lost, bits);
    }
    var c := CountLost(s'.lost, n);
    p' := p + c;
    if inFile && n !in s.flag {
      p' := p' + 1;
    }
  }

  ghost predicate LineDone(c: seq<SLine>, s': seq<SLine>, cnt: nat, n: nat, l: nat) {
    l < |c| && l < |s'| && s'[l] == NumberedLine(c[l], n, 1 + |Rebuilt(c, cnt, n, l)|)
  }

  /** The lines up to k are coalesced and numbered, and p is the next number. */
  ghost predicate NumberedTo(s: seq<SLine>, s': seq<SLine>, cnt: nat, n: nat, bits: set<nat>, k: nat, p: nat) {
    var c := Coalesced(s, cnt, bits);
    && |s'| == |s| && k <= |s| && p == 1 + |Rebuilt(c, cnt, n, k)|
    && (forall l :: 0 <= l < k ==> LineDone(c, s', cnt, n, l))
    && (forall l :: k <= l < |s| ==> s'[l] == s[l])
  }

  lemma AllNumbered(s: seq<SLine>, s': seq<SLine>, cnt: nat, n: nat, bits: set<nat>, p: nat)
    requires |s| == cnt + 2 && NumberedTo(s, s', cnt, n, bits, cnt + 1, p)
    ensures s'[cnt + 1 := NumberedLine(s'[cnt + 1], n, p)] == Renumbered(Coalesced(s, cnt, bits), cnt, n)
  {
    var c, t := Coalesced(s, cnt, bits), s'[cnt + 1 := NumberedLine(s'[cnt + 1], n, p)];
    forall l | 0 <= l < |s|
      ensures t[l] == Renumbered(c, cnt, n)[l]
    {
      LineNumbered(c, t, cnt, n, l) by {
        assert l <= cnt ==> LineDone(c, s', cnt, n, l);
      }
    }
  }

  lemma LineNumbered(c: seq<SLine>, t: seq<SLine>, cnt: nat, n: nat, l: nat)
    requires LineDone(c, t, cnt, n, l)
    ensures t[l] == Renumbered(c, cnt, n)[l]
  {
  }

  lemma NumberedNext(s: seq<SLine>, s': seq<SLine>, cnt: nat, n: nat, bits: set<nat>, k: nat, p: nat, line: SLine,
                     p': nat)
    requires NumberedTo(s, s', cnt, n, bits, k, p) && k <= cnt && k < |s|
    requires line == NumberedLine(CoalescedLine(s[k], bits), n, p)
    requires p' == p + |LinesOf(line.lost, n) + Own(line, n, k < cnt)|
    ensures NumberedTo(s, s'[k := line], cnt, n, bits, k + 1, p')
  {
    var c, t := Coalesced(s, cnt, bits), s'[k := line];
    assert Part(c, cnt, n, k) == LinesOf(line.lost, n) + Own(line, n, k < cnt);
    forall l | 0 <= l < k + 1
      ensures LineDone(c, t, cnt, n, l)
    {
      assert l < k ==> LineDone(c, s', cnt, n, l);
    }
  }

  /** Coalesces the pending lines, and numbers the result lines for parent n. */
  method AssignNumbers(slines: seq<SLine>, cnt: nat, n: nat, bits: set<nat>) returns (slines': seq<SLine>)
    requires |slines| == cnt + 2
    ensures slines' == Renumbered(Coalesced(slines, cnt, bits), cnt, n)
  {
    slines' := slines;
    var lno, p := 0, 1;
    while lno <= cnt
      invariant 0 <= lno <= cnt + 1 && NumberedTo(slines, slines', cnt, n, bits, lno, p)
    {
      var s, p' := NumberLine(slines'[lno], n, bits, p, lno < cnt);
      NumberedNext(slines, slines', cnt, n, bits, lno, p, s, p');
      slines', p := slines'[lno := s], p';
      lno := lno + 1;
    }
    AllNumbered(slines, slines', cnt, n, bits, p);
    slines' := slines'[lno := NumberedLine(slines'[lno], n, p)];
  }

  // ---- the parents ----

  class CombinedDiff {
    const result: seq<string>
    const shift: Shift
    var slines: seq<SLine>

    ghost predicate Valid()
      reads this
    {
      |slines| == |result| + 2
    }

    constructor (result: seq<string>, shift: Shift)
      ensures Valid() && slines == Blank(result) && this.result == result && this.shift == shift
    {
      this.result, this.shift, slines := result, shift, Blank(result);
    }

    /** Folds in the diff from parent n to the result. */
    method Fold(n: nat, hunks: seq<Hunk>)
      requires Valid() && Fit(hunks, |result|)
      modifies this
      ensures Valid() && slines == FoldOne(old(slines), |result|, n, hunks, shift(n))
    {
      var state := new DiffState(slines, n);
      state.Feed(hunks, result);
      slines := AssignNumbers(state.slines, |result|, n, shift(n));
    }

    /** Parent i is the same as parent j, which has been folded in already. */
    method Reuse(i: nat, j: nat)
      requires Valid()
      modifies this
      ensures Valid() && slines == ShareAll(old(slines), |result|, i, j)
    {
      var lno := 0;
      ghost var s := slines;
      while lno <= |result|
        invariant 0 <= lno <= |result| + 1 && Valid()
        invariant forall k :: 0 <= k < lno ==> slines[k] == ShareLine(s[k], i, j)
        invariant forall k :: lno <= k < |s| ==> slines[k] == s[k]
      {
        slines := slines[lno := ShareLine(slines[lno], i, j)];
        lno := lno + 1;
      }
      slines := slines[lno := NumberedLine(slines[lno], i, NumberOf(slines[lno], j))];
    }
  }

  /** The first parent that is the same as parent i. */
  method FindSame(parents: seq<seq<string>>, i: nat) returns (j: nat)
    requires i < |parents|
    ensures j == SameBefore(parents, i, 0)
  {
    j := 0;
    while j < i && parents[j] != parents[i]
      invariant 0 <= j <= i && SameBefore(parents, i, j) == SameBefore(parents, i, 0)
    {
      j := j + 1;
    }
  }

  /** Folds in all parents, those that are the same once. Up to 32 of them can be rebuilt. */
  method Combine(result: seq<string>, parents: seq<seq<string>>, diffs: seq<seq<Hunk>>, shift: Shift)
    returns (slines: seq<SLine>)
    requires |diffs| == |parents| && forall i :: 0 <= i < |diffs| ==> Fit(diffs[i], |result|)
    ensures slines == Combined(result, parents, diffs, shift, |parents|)
    ensures Compiled(shift) && Family(result, parents, diffs) && |parents| <= 32 ==>
      AllRebuilt(slines, |result|, parents)
  {
    var d := new CombinedDiff(result, shift);
    var i := 0;
    while i < |parents|
      invariant 0 <= i <= |parents| && d.Valid() && d.result == result && d.shift == shift
      invariant d.slines == Combined(result, parents, diffs, shift, i)
    {
      var j := FindSame(parents, i);
      if j < i {
        d.Reuse(i, j);
      } else {
        d.Fold(i, diffs[i]);
      }
      i := i + 1;
    }
    slines := d.slines;
    if Compiled(shift) && Family(result, parents, diffs) && |parents| <= 32 {
      CombinedFolds(result, parents, diffs, shift, |parents|);
    }
  }

  /** One parent too many: parent 32 gets a line that it does not have. */
  method CombineCrowd(shift: Shift) returns (slines: seq<SLine>)
    requires Compiled(shift)
    ensures Family(["x"], Crowd(33), CrowdDiffs(33)) && slines == Combined(["x"], Crowd(33), CrowdDiffs(33), shift, 33)
    ensures !Folded(slines, 1, 32, Crowd(33)[32])
  {
    CrowdFamily(33);
    forall i | 0 <= i < 33
      ensures Fit(CrowdDiffs(33)[i], 1)
    {
      DiffFits(Crowd(33)[i], ["x"], CrowdDiffs(33)[i], 0, 0);
    }
    slines := Combine(["x"], Crowd(33), CrowdDiffs(33), shift);
    CrowdFails(33, shift);
  }
}
