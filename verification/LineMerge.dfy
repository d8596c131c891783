/**
 Longest common subsequences of two line lists, and the merge of the lists along one.
 */
module LineMerge {

  // a line lost from some parents; their numbers are the bits of a mask
  datatype Lost = Lost(line: string, parents: set<nat>)

  // the bits of a mask that the shift of an int one by a parent's number sets
  type Shift = nat -> set<nat>

  /** An int of 32 bits in a mask of 64: the sign bit spreads, and beyond it anything may be set. */
  ghost predicate Compiled(shift: Shift) {
    && (forall n: nat :: n < 31 ==> shift(n) == {n})
    && (forall b: nat :: b in shift(31) <==> 31 <= b < 64)
  }

  datatype Direction = MATCH | BASE | NEW

  function Texts(ls: seq<Lost>): seq<string> { seq(|ls|, i requires 0 <= i < |ls| => ls[i].line) }

  function Max(a: nat, b: nat): nat { if a < b then b else a }

  /** Length of a longest common subsequence of the first i lines of b and the first j of n. */
  function Lcs(b: seq<string>, n: seq<string>, i: nat, j: nat): nat
    requires i <= |b| && j <= |n|
  {
    if i == 0 || j == 0 then 0
    else if b[i - 1] == n[j - 1] then Lcs(b, n, i - 1, j - 1) + 1
    else Max(Lcs(b, n, i, j - 1), Lcs(b, n, i - 1, j))
  }

  /** Which list the last line of the merge is taken from. */
  function Dir(b: seq<string>, n: seq<string>, i: nat, j: nat): Direction
    requires i <= |b| && j <= |n|
  {
    if j == 0 then BASE
    else if i == 0 then NEW
    else if b[i - 1] == n[j - 1] then MATCH
    else if Lcs(b, n, i, j - 1) >= Lcs(b, n, i - 1, j) then NEW
    else BASE
  }

  /** The merge of the first i base lines and the first j new ones; a line they share gains the bits of a mask. */
  function Merged(b: seq<Lost>, n: seq<Lost>, i: nat, j: nat, bits: set<nat>): seq<Lost>
    requires i <= |b| && j <= |n|
    decreases i + j
  {
    if i == 0 && j == 0 then []
    else match Dir(Texts(b), Texts(n), i, j)
      case MATCH => Merged(b, n, i - 1, j - 1, bits) + [Lost(b[i - 1].line, b[i - 1].parents + bits)]
      case NEW => Merged(b, n, i, j - 1, bits) + [n[j - 1]]
      case BASE => Merged(b, n, i - 1, j, bits) + [b[i - 1]]
  }

  function Merge(b: seq<Lost>, n: seq<Lost>, bits: set<nat>): seq<Lost> {
    Merged(b, n, |b|, |n|, bits)
  }

  // ---- length ----

  lemma {:induction false} LcsBounds(b: seq<string>, n: seq<string>, i: nat, j: nat)
    requires i <= |b| && j <= |n|
    ensures Lcs(b, n, i, j) <= i && Lcs(b, n, i, j) <= j
    ensures i > 0 ==> Lcs(b, n, i - 1, j) <= Lcs(b, n, i, j) <= Lcs(b, n, i - 1, j) + 1
    ensures j > 0 ==> Lcs(b, n, i, j - 1) <= Lcs(b, n, i, j) <= Lcs(b, n, i, j - 1) + 1
    decreases i + j
  {
    if i > 0 && j > 0 {
      LcsBounds(b, n, i - 1, j - 1);
      LcsBounds(b, n, i, j - 1);
      LcsBounds(b, n, i - 1, j);
    }
  }

  /** Each line the lists have in common saves one. */
  lemma {:induction false} MergedLength(b: seq<Lost>, n: seq<Lost>, i: nat, j: nat, bits: set<nat>)
    requires i <= |b| && j <= |n|
    ensures |Merged(b, n, i, j, bits)| == i + j - Lcs(Texts(b), Texts(n), i, j)
    decreases i + j
  {
    var bt, nt := Texts(b), Texts(n);
    LcsBounds(bt, nt, i, j);
    if i > 0 || j > 0 {
      match Dir(bt, nt, i, j)
      case MATCH => MergedLength(b, n, i - 1, j - 1, bits);
      case NEW => MergedLength(b, n, i, j - 1, bits);
      case BASE => MergedLength(b, n, i - 1, j, bits);
    }
  }

  // ---- subsequences ----

  /** The lines of a, in order, are among the first k lines of s. */
  ghost predicate Subsequence(a: seq<string>, i: nat, s: seq<string>, k: nat)
    requires i <= |a| && k <= |s|
  {
    i == 0 || (k > 0 && (Subsequence(a, i, s, k - 1) || (a[i - 1] == s[k - 1] && Subsequence(a, i - 1, s, k - 1))))
  }

  lemma {:induction false} SubsequenceDrop(a: seq<string>, i: nat, s: seq<string>, k: nat)
    requires 0 < i <= |a| && k <= |s| && Subsequence(a, i, s, k)
    ensures Subsequence(a, i - 1, s, k)
    decreases k
  {
    if i > 1 {
      if Subsequence(a, i, s, k - 1) {
        SubsequenceDrop(a, i, s, k - 1);
      } else {
        assert Subsequence(a, i - 1, s, k - 1);
      }
    }
  }

  /** No common supersequence is shorter than the two lists less their longest common subsequence. */
  lemma {:induction false} SupersequenceBound(b: seq<string>, n: seq<string>, i: nat, j: nat, s: seq<string>, k: nat)
    requires i <= |b| && j <= |n| && k <= |s| && Subsequence(b, i, s, k) && Subsequence(n, j, s, k)
    ensures k >= i + j - Lcs(b, n, i, j)
    decreases k
  {
    LcsBounds(b, n, i, j);
    if i == 0 {
      SubsequenceLength(n, j, s, k);
    } else if j == 0 {
      SubsequenceLength(b, i, s, k);
    } else {
      var i1 := if Subsequence(b, i, s, k - 1) then i else i - 1;
      var j1 := if Subsequence(n, j, s, k - 1) then j else j - 1;
      SupersequenceBound(b, n, i1, j1, s, k - 1);
      LcsBounds(b, n, i1, j);
      LcsBounds(b, n, i, j1);
    }
  }

  lemma {:induction false} SubsequenceLength(a: seq<string>, i: nat, s: seq<string>, k: nat)
    requires i <= |a| && k <= |s| && Subsequence(a, i, s, k)
    ensures i <= k
    decreases k
  {
    if i > 0 {
      if Subsequence(a, i, s, k - 1) {
        SubsequenceLength(a, i, s, k - 1);
      } else {
        SubsequenceLength(a, i - 1, s, k - 1);
      }
    }
  }

  lemma {:induction false} SubsequenceExtends(a: seq<string>, i: nat, s: seq<string>, s': seq<string>, k: nat)
    requires i <= |a| && k <= |s| && k <= |s'| && s[..k] == s'[..k] && Subsequence(a, i, s, k)
    ensures Subsequence(a, i, s', k)
    decreases k
  {
    if i > 0 {
      assert s[..k - 1] == s[..k][..k - 1] == s'[..k - 1] && s[k - 1] == s[..k][k - 1] == s'[k - 1];
      if Subsequence(a, i, s, k - 1) {
        SubsequenceExtends(a, i, s, s', k - 1);
      } else {
        SubsequenceExtends(a, i - 1, s, s', k - 1);
      }
    }
  }

  lemma {:induction false} MergedHolds(b: seq<Lost>, n: seq<Lost>, i: nat, j: nat, bits: set<nat>)
    requires i <= |b| && j <= |n|
    ensures var s := Texts(Merged(b, n, i, j, bits));
      Subsequence(Texts(b), i, s, |s|) && Subsequence(Texts(n), j, s, |s|)
    decreases i + j
  {
    if i > 0 || j > 0 {
      var bt, nt := Texts(b), Texts(n);
      var d := Dir(bt, nt, i, j);
      var i1, j1 := if d == NEW then i else i - 1, if d == BASE then j else j - 1;
      MergedHolds(b, n, i1, j1, bits);
      var before, s := Texts(Merged(b, n, i1, j1, bits)), Texts(Merged(b, n, i, j, bits));
      assert s[..|before|] == before && |s| == |before| + 1;
      SubsequenceExtends(bt, i1, before, s, |before|);
      SubsequenceExtends(nt, j1, before, s, |before|);
    }
  }

  /** The merge is a shortest common supersequence of the two lists. */
  lemma MergeIsShortest(b: seq<Lost>, n: seq<Lost>, bits: set<nat>, s: seq<string>)
    requires Subsequence(Texts(b), |b|, s, |s|) && Subsequence(Texts(n), |n|, s, |s|)
    ensures var m := Texts(Merge(b, n, bits));
      Subsequence(Texts(b), |b|, m, |m|) && Subsequence(Texts(n), |n|, m, |m|) && |m| <= |s|
  {
    MergedHolds(b, n, |b|, |n|, bits);
    MergedLength(b, n, |b|, |n|, bits);
    SupersequenceBound(Texts(b), Texts(n), |b|, |n|, s, |s|);
  }

  // ---- order ----

  /** Where each line of the merge is taken from. */
  function Path(b: seq<string>, n: seq<string>, i: nat, j: nat): seq<Direction>
    requires i <= |b| && j <= |n|
    decreases i + j
  {
    if i == 0 && j == 0 then []
    else match Dir(b, n, i, j)
      case MATCH => Path(b, n, i - 1, j - 1) + [MATCH]
      case NEW => Path(b, n, i, j - 1) + [NEW]
      case BASE => Path(b, n, i - 1, j) + [BASE]
  }

  /** The list s is read off the first i base lines and the first j new ones in this way. */
  ghost predicate Woven(b: seq<Lost>, n: seq<Lost>, i: nat, j: nat, path: seq<Direction>, bits: set<nat>, s: seq<Lost>)
    requires i <= |b| && j <= |n|
  {
    if path == [] then i == 0 && j == 0 && s == []
    else
      var k := |path| - 1;
      |s| == |path| && match path[k]
        case MATCH =>
          i > 0 && j > 0 && b[i - 1].line == n[j - 1].line && s[k] == Lost(b[i - 1].line, b[i - 1].parents + bits)
          && Woven(b, n, i - 1, j - 1, path[..k], bits, s[..k])
        case NEW => j > 0 && s[k] == n[j - 1] && Woven(b, n, i, j - 1, path[..k], bits, s[..k])
        case BASE => i > 0 && s[k] == b[i - 1] && Woven(b, n, i - 1, j, path[..k], bits, s[..k])
  }

  /** Between two lines that both lists have, those of the base come first. */
  ghost predicate BaseFirst(path: seq<Direction>) {
    forall k :: 0 < k < |path| ==> !(path[k - 1] == NEW && path[k] == BASE)
  }

  /** Behind a base line that is not in common, no new line that is not comes before it. */
  lemma NoNewBehind(b: seq<string>, n: seq<string>, i: nat, j: nat)
    requires 0 < i <= |b| && j <= |n| && Dir(b, n, i, j) == BASE && i + j > 1
    ensures Dir(b, n, i - 1, j) != NEW
  {
    if j > 0 {
      LcsBounds(b, n, i, j - 1);
      LcsBounds(b, n, i - 1, j);
    }
  }

  lemma BaseFirstMore(path: seq<Direction>, d: Direction, path': seq<Direction>)
    requires BaseFirst(path) && (d == BASE && path != [] ==> path[|path| - 1] != NEW) && path' == path + [d]
    ensures BaseFirst(path')
  {
  }

  lemma {:induction false} PathBaseFirst(b: seq<string>, n: seq<string>, i: nat, j: nat, path: seq<Direction>)
    requires i <= |b| && j <= |n| && path == Path(b, n, i, j)
    ensures BaseFirst(path) && (path == [] <==> i == 0 && j == 0)
    ensures path != [] ==> path[|path| - 1] == Dir(b, n, i, j)
    decreases i + j
  {
    if i + j > 0 {
      var d := Dir(b, n, i, j);
      var i1, j1 := if d == NEW then i else i - 1, if d == BASE then j else j - 1;
      var before := Path(b, n, i1, j1);
      PathBaseFirst(b, n, i1, j1, before);
      if d == BASE && i + j > 1 {
        NoNewBehind(b, n, i, j);
      }
      BaseFirstMore(before, d, path);
    }
  }

  lemma WovenMore(b: seq<Lost>, n: seq<Lost>, i: nat, j: nat, i1: nat, j1: nat, path: seq<Direction>, d: Direction,
                  bits: set<nat>, s: seq<Lost>, last: Lost)
    requires i <= |b| && j <= |n| && i1 == (if d == NEW then i else i - 1) && j1 == (if d == BASE then j else j - 1)
      && Woven(b, n, i1, j1, path, bits, s) && |path| == |s|
    requires match d
      case MATCH => b[i1].line == n[j1].line && last == Lost(b[i1].line, b[i1].parents + bits)
      case NEW => last == n[j1]
      case BASE => last == b[i1]
    ensures Woven(b, n, i, j, path + [d], bits, s + [last])
  {
    assert (path + [d])[..|path|] == path && (s + [last])[..|s|] == s;
  }

  lemma {:induction false} MergedWoven(b: seq<Lost>, n: seq<Lost>, i: nat, j: nat, bits: set<nat>,
                                       path: seq<Direction>, s: seq<Lost>)
    requires i <= |b| && j <= |n| && path == Path(Texts(b), Texts(n), i, j) && s == Merged(b, n, i, j, bits)
    ensures Woven(b, n, i, j, path, bits, s) && |path| == |s|
    decreases i + j
  {
    if i + j > 0 {
      var d := Dir(Texts(b), Texts(n), i, j);
      var i1, j1 := if d == NEW then i else i - 1, if d == BASE then j else j - 1;
      var path1, s1 := Path(Texts(b), Texts(n), i1, j1), Merged(b, n, i1, j1, bits);
      MergedWoven(b, n, i1, j1, bits, path1, s1);
      assert path == path1 + [d] && s == s1 + [s[|s1|]];
      WovenMore(b, n, i, j, i1, j1, path1, d, bits, s1, s[|s1|]);
    }
  }

  /** Of the shortest ways to merge, it is one where base lines come before new ones between lines in common. */
  lemma MergeBaseFirst(b: seq<Lost>, n: seq<Lost>, bits: set<nat>)
    ensures exists path :: Woven(b, n, |b|, |n|, path, bits, Merge(b, n, bits)) && BaseFirst(path)
  {
    var path := Path(Texts(b), Texts(n), |b|, |n|);
    PathBaseFirst(Texts(b), Texts(n), |b|, |n|, path);
    MergedWoven(b, n, |b|, |n|, bits, path, Merge(b, n, bits));
  }

  // ---- parents ----

  /** The lines a parent had. */
  function LinesOf(ls: seq<Lost>, parent: nat): seq<string> {
    if ls == [] then []
    else LinesOf(ls[..|ls| - 1], parent) + if parent in ls[|ls| - 1].parents then [ls[|ls| - 1].line] else []
  }

  lemma LinesOfSnoc(ls: seq<Lost>, l: Lost, parent: nat)
    ensures LinesOf(ls + [l], parent) == LinesOf(ls, parent) + if parent in l.parents then [l.line] else []
  {
    assert (ls + [l])[..|ls|] == ls;
  }

  ghost predicate OnlyFrom(ls: seq<Lost>, parent: nat) {
    forall i :: 0 <= i < |ls| ==> ls[i].parents == {parent}
  }

  ghost predicate NoneFrom(ls: seq<Lost>, parent: nat) {
    forall i :: 0 <= i < |ls| ==> parent !in ls[i].parents
  }

  lemma FirstLinesOf(ls: seq<Lost>, i: nat, q: nat)
    requires 0 < i <= |ls|
    ensures LinesOf(ls[..i], q) == LinesOf(ls[..i - 1], q) + if q in ls[i - 1].parents then [ls[i - 1].line] else []
  {
    assert ls[..i][..i - 1] == ls[..i - 1];
  }

  lemma FirstTexts(n: seq<Lost>, j: nat)
    requires 0 < j <= |n|
    ensures Texts(n)[..j] == Texts(n)[..j - 1] + [n[j - 1].line]
  {
  }

  /** The last line of the merge, and where the rest of it comes from. */
  lemma MergedStep(b: seq<Lost>, n: seq<Lost>, i: nat, j: nat, parent: nat, bits: set<nat>, q: nat)
    returns (i1: nat, j1: nat, last: Lost)
    requires i <= |b| && j <= |n| && i + j > 0 && OnlyFrom(n, parent) && parent in bits && (q == parent || q !in bits)
    ensures i1 <= i <= i1 + 1 && j1 <= j <= j1 + 1 && i1 + j1 < i + j
    ensures Merged(b, n, i, j, bits) == Merged(b, n, i1, j1, bits) + [last]
    ensures i1 < i ==> last.line == b[i1].line
    ensures j1 < j ==> last.line == n[j1].line
    ensures if q == parent then q in last.parents <==> j1 < j || (i1 < i && q in b[i1].parents)
      else q in last.parents <==> i1 < i && q in b[i1].parents
  {
    var d := Dir(Texts(b), Texts(n), i, j);
    i1, j1 := if d == NEW then i else i - 1, if d == BASE then j else j - 1;
    last := if d == MATCH then Lost(b[i - 1].line, b[i - 1].parents + bits) else if d == NEW then n[j - 1]
      else b[i - 1];
    if d == NEW {
      assert n[j - 1].parents == {parent};
    }
  }

  /** With the new parent's bit the merge spells the new list. */
  lemma {:induction false} MergedNew(b: seq<Lost>, n: seq<Lost>, i: nat, j: nat, parent: nat, bits: set<nat>)
    requires i <= |b| && j <= |n| && OnlyFrom(n, parent) && NoneFrom(b, parent) && parent in bits
    ensures LinesOf(Merged(b, n, i, j, bits), parent) == Texts(n)[..j]
    decreases i + j
  {
    if i + j > 0 {
      var i1, j1, last := MergedStep(b, n, i, j, parent, bits, parent);
      MergedNew(b, n, i1, j1, parent, bits);
      LinesOfSnoc(Merged(b, n, i1, j1, bits), last, parent);
      if j1 < j {
        FirstTexts(n, j);
      }
    }
  }

  lemma OtherStep(b: seq<Lost>, i: nat, i1: nat, merged: seq<Lost>, last: Lost, q: nat)
    requires i1 <= i <= i1 + 1 && i <= |b| && LinesOf(merged, q) == LinesOf(b[..i1], q)
    requires (q in last.parents <==> i1 < i && q in b[i1].parents) && (i1 < i ==> last.line == b[i1].line)
    ensures LinesOf(merged + [last], q) == LinesOf(b[..i], q)
  {
    LinesOfSnoc(merged, last, q);
    if i1 < i {
      FirstLinesOf(b, i, q);
    }
  }

  /** Any other parent's lines stay as they were. */
  lemma {:induction false} MergedOther(b: seq<Lost>, n: seq<Lost>, i: nat, j: nat, parent: nat, bits: set<nat>, q: nat)
    requires i <= |b| && j <= |n| && OnlyFrom(n, parent) && parent in bits && q !in bits
    ensures LinesOf(Merged(b, n, i, j, bits), q) == LinesOf(b[..i], q)
    decreases i + j
  {
    if i + j > 0 {
      var i1, j1, last := MergedStep(b, n, i, j, parent, bits, q);
      MergedOther(b, n, i1, j1, parent, bits, q);
      OtherStep(b, i, i1, Merged(b, n, i1, j1, bits), last, q);
    }
  }

  /** The merge spells the new list for its parent, and what the base did for any other whose bit no match sets. */
  lemma MergeLinesOf(b: seq<Lost>, n: seq<Lost>, parent: nat, bits: set<nat>, q: nat)
    requires OnlyFrom(n, parent) && NoneFrom(b, parent) && parent in bits && (q == parent || q !in bits)
    ensures LinesOf(Merge(b, n, bits), q) == if q == parent then Texts(n) else LinesOf(b, q)
  {
    if q == parent {
      MergedNew(b, n, |b|, |n|, parent, bits);
    } else {
      MergedOther(b, n, |b|, |n|, parent, bits, q);
    }
    assert Texts(n)[..|n|] == Texts(n) && b[..|b|] == b;
  }

  /** Base lines keep their order and the parents they had, gaining at most the bits of a match. */
  ghost predicate Embeds(b: seq<Lost>, i: nat, s: seq<Lost>, k: nat, bits: set<nat>)
    requires i <= |b| && k <= |s|
  {
    i == 0 || (k > 0 && (Embeds(b, i, s, k - 1, bits)
                         || (Gains(b[i - 1], s[k - 1], bits) && Embeds(b, i - 1, s, k - 1, bits))))
  }

  ghost predicate Gains(l: Lost, l': Lost, bits: set<nat>) {
    l'.line == l.line && (l'.parents == l.parents || l'.parents == l.parents + bits)
  }

  lemma {:induction false} EmbedsExtends(b: seq<Lost>, i: nat, s: seq<Lost>, s': seq<Lost>, k: nat, bits: set<nat>)
    requires i <= |b| && k <= |s| && k <= |s'| && s[..k] == s'[..k] && Embeds(b, i, s, k, bits)
    ensures Embeds(b, i, s', k, bits)
    decreases k
  {
    if i > 0 {
      assert s[..k - 1] == s[..k][..k - 1] == s'[..k - 1] && s[k - 1] == s[..k][k - 1] == s'[k - 1];
      if Embeds(b, i, s, k - 1, bits) {
        EmbedsExtends(b, i, s, s', k - 1, bits);
      } else {
        EmbedsExtends(b, i - 1, s, s', k - 1, bits);
      }
    }
  }

  lemma {:induction false} MergedEmbeds(b: seq<Lost>, n: seq<Lost>, i: nat, j: nat, bits: set<nat>)
    requires i <= |b| && j <= |n|
    ensures var s := Merged(b, n, i, j, bits); Embeds(b, i, s, |s|, bits)
    decreases i + j
  {
    if i > 0 || j > 0 {
      var d := Dir(Texts(b), Texts(n), i, j);
      var i1, j1 := if d == NEW then i else i - 1, if d == BASE then j else j - 1;
      MergedEmbeds(b, n, i1, j1, bits);
      var before, s := Merged(b, n, i1, j1, bits), Merged(b, n, i, j, bits);
      assert s[..|before|] == before && |s| == |before| + 1;
      EmbedsExtends(b, i1, before, s, |before|, bits);
    }
  }

  // ---- empty lists ----

  lemma MergeWithNone(b: seq<Lost>, bits: set<nat>)
    ensures Merge(b, [], bits) == b
  {
    MergedNone(b, [], |b|, 0, bits);
  }

  lemma MergeIntoNone(n: seq<Lost>, bits: set<nat>)
    ensures Merge([], n, bits) == n
  {
    MergedNone([], n, 0, |n|, bits);
  }

  lemma {:induction false} MergedNone(b: seq<Lost>, n: seq<Lost>, i: nat, j: nat, bits: set<nat>)
    requires i <= |b| && j <= |n| && (i == 0 || j == 0)
    ensures Merged(b, n, i, j, bits) == b[..i] + n[..j]
    decreases i + j
  {
    if i > 0 {
      MergedNone(b, n, i - 1, j, bits);
      assert b[..i] == b[..i - 1] + [b[i - 1]];
    } else if j > 0 {
      MergedNone(b, n, i, j - 1, bits);
      assert n[..j] == n[..j - 1] + [n[j - 1]];
    }
  }
}
