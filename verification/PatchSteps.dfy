/**
 A patch as a relation between the lines of two files, read forwards or in reverse.
 */
module PatchSteps {
  import opened FuzzyImages
  import opened ImageLines

  // a hunk between line a of the old file and line b of the new one
  datatype Step = Step(a: nat, b: nat, pre: seq<string>, post: seq<string>, atEnd: bool)

  /** A hunk that makes a file out of nothing, or empties one, is all there is. */
  predicate Whole(s: Step, len: nat) { s.a == 0 == s.b && |s.pre| == len }

  /** The hunk's old lines are in the file where it says; only at the end may it lack trailing context. */
  ghost predicate Fits(texts: seq<string>, s: Step, a: nat, b: nat) {
    && a <= s.a && b <= s.b && s.a - a == s.b - b && s.a + |s.pre| <= |texts|
    && texts[s.a..s.a + |s.pre|] == s.pre && (s.atEnd ==> s.a + |s.pre| == |texts|)
    && (s.pre != [] || s.post != []) && (s.pre == [] || s.post == [] ==> Whole(s, |texts|))
  }

  /** From old line a and new line b on, the hunks follow each other without overlap, each fitting where it says. */
  ghost predicate IsPatch(texts: seq<string>, steps: seq<Step>, a: nat, b: nat) {
    steps == [] || (Fits(texts, steps[0], a, b)
                    && IsPatch(texts, steps[1..], steps[0].a + |steps[0].pre|, steps[0].b + |steps[0].post|))
  }

  /** The new lines for the old ones from a on. */
  ghost function Result(texts: seq<string>, steps: seq<Step>, a: nat, b: nat): seq<string>
    requires a <= |texts| && IsPatch(texts, steps, a, b)
  {
    if steps == [] then texts[a..]
    else
      texts[a..steps[0].a] + steps[0].post +
      Result(texts, steps[1..], steps[0].a + |steps[0].pre|, steps[0].b + |steps[0].post|)
  }

  /** At the end of the file there are no more hunks. */
  lemma LastStep(texts: seq<string>, steps: seq<Step>, a: nat, b: nat)
    requires a == |texts| && a + b > 0 && IsPatch(texts, steps, a, b)
    ensures steps == [] && Result(texts, steps, a, b) == []
  {
  }

  /** Behind a hunk nothing is left exactly if it ends the file. */
  lemma RestEmpty(texts: seq<string>, steps: seq<Step>, a: nat, b: nat)
    requires a <= |texts| && a + b > 0 && IsPatch(texts, steps, a, b)
    ensures Result(texts, steps, a, b) == [] <==> a == |texts|
  {
    if a == |texts| {
      LastStep(texts, steps, a, b);
    }
  }

  // ---- in reverse ----

  function SwapStep(s: Step): Step { Step(s.b, s.a, s.post, s.pre, s.atEnd) }

  ghost function SwapSteps(steps: seq<Step>): seq<Step> {
    seq(|steps|, i requires 0 <= i < |steps| => SwapStep(steps[i]))
  }

  lemma ResultStep(texts: seq<string>, s: Step, a: nat, b: nat, texts': seq<string>, rest: seq<string>)
    requires Fits(texts, s, a, b) && a <= |texts| && b <= |texts'| && texts'[b..] == texts[a..s.a] + s.post + rest
    requires s.a + |s.pre| == |texts| ==> rest == []
    ensures Fits(texts', SwapStep(s), b, a) && texts'[b..s.b] == texts[a..s.a] && texts'[s.b + |s.post|..] == rest
  {
    var t := texts'[b..];
    var d, n := s.b - b, |s.post|;
    assert t[..d] == texts[a..s.a] && t[d..d + n] == s.post && t[d + n..] == rest;
    assert texts'[b..s.b] == t[..d] && texts'[s.b..s.b + n] == t[d..d + n] && texts'[s.b + n..] == t[d + n..];
  }

  /** Read in reverse, a patch fits the new file, and leads back to the old one. */
  lemma {:induction false} ReverseFits(texts: seq<string>, texts': seq<string>, steps: seq<Step>, a: nat, b: nat)
    requires a <= |texts| && b <= |texts'| && IsPatch(texts, steps, a, b) && texts'[b..] == Result(texts, steps, a, b)
    ensures IsPatch(texts', SwapSteps(steps), b, a) && Result(texts', SwapSteps(steps), b, a) == texts[a..]
    decreases |steps|
  {
    if steps != [] {
      var s := steps[0];
      var a1, b1 := s.a + |s.pre|, s.b + |s.post|;
      var rest := Result(texts, steps[1..], a1, b1);
      RestEmpty(texts, steps[1..], a1, b1);
      ResultStep(texts, s, a, b, texts', rest);
      ReverseFits(texts, texts', steps[1..], a1, b1);
      ReverseStep(texts, texts', steps, SwapSteps(steps), SwapSteps(steps[1..]), a, b);
    }
  }

  lemma ReverseStep(texts: seq<string>, texts': seq<string>, steps: seq<Step>, swapped: seq<Step>, rest: seq<Step>,
                    a: nat, b: nat)
    requires steps != [] && swapped == SwapSteps(steps) && rest == SwapSteps(steps[1..]) && a <= |texts|
      && b <= |texts'|
    requires var s := steps[0]; var a1, b1 := s.a + |s.pre|, s.b + |s.post|;
      && Fits(texts, s, a, b) && Fits(texts', SwapStep(s), b, a) && texts'[b..s.b] == texts[a..s.a]
      && IsPatch(texts', rest, b1, a1) && Result(texts', rest, b1, a1) == texts[a1..]
    ensures IsPatch(texts', swapped, b, a) && Result(texts', swapped, b, a) == texts[a..]
  {
    var s := steps[0];
    assert swapped[1..] == rest && swapped[0] == SwapStep(s);
    assert texts[a..] == texts[a..s.a] + texts[s.a..s.a + |s.pre|] + texts[s.a + |s.pre|..];
  }

  // ---- lengths ----

  /** How many lines the hunks add. */
  function Gain(steps: seq<Step>): int {
    if steps == [] then 0 else |steps[0].post| - |steps[0].pre| + Gain(steps[1..])
  }

  lemma {:induction false} ResultLength(texts: seq<string>, steps: seq<Step>, a: nat, b: nat)
    requires a <= |texts| && IsPatch(texts, steps, a, b)
    ensures |Result(texts, steps, a, b)| == |texts| - a + Gain(steps)
    decreases |steps|
  {
    if steps != [] {
      ResultLength(texts, steps[1..], steps[0].a + |steps[0].pre|, steps[0].b + |steps[0].post|);
    }
  }

  lemma {:induction false} GainSnoc(steps: seq<Step>, k: nat)
    requires k < |steps|
    ensures Gain(steps[..k + 1]) == Gain(steps[..k]) + |steps[k].post| - |steps[k].pre|
  {
    if k > 0 {
      GainSnoc(steps[1..], k - 1);
      assert steps[..k + 1][1..] == steps[1..][..k] && steps[..k][1..] == steps[1..][..k - 1];
    } else {
      assert steps[..1][1..] == [];
    }
  }

  lemma {:induction false} GainSwapped(steps: seq<Step>)
    ensures Gain(SwapSteps(steps)) == -Gain(steps)
  {
    if steps != [] {
      GainSwapped(steps[1..]);
      assert SwapSteps(steps)[1..] == SwapSteps(steps[1..]);
    }
  }

  /** Only the first hunk can make a file out of nothing. */
  lemma {:induction false} MakesFirst(texts: seq<string>, steps: seq<Step>, a: nat, b: nat, k: nat)
    requires a <= |texts| && IsPatch(texts, steps, a, b) && k < |steps| && steps[k].pre == []
    ensures k == 0
    decreases k
  {
    if k > 0 {
      assert steps[1..][k - 1] == steps[k];
      MakesFirst(texts, steps[1..], steps[0].a + |steps[0].pre|, steps[0].b + |steps[0].post|, k - 1);
    }
  }

  // ---- newlines ----

  /** A line of the new file lacks its newline only if it is the last one of a hunk that ends the file. */
  ghost predicate NewlinesIn(s: Step, len: nat) {
    AllEndRight(s.post, s.a + |s.pre| == len)
  }

  ghost predicate AllEndRight(post: seq<string>, last: bool) {
    forall i :: 0 <= i < |post| ==> EndsRight(post, i, last)
  }

  ghost predicate EndsRight(post: seq<string>, i: nat, last: bool) {
    i < |post| && post[i] != "" && (Ended(post[i]) || (last && i == |post| - 1))
  }

  ghost predicate AllNewlines(steps: seq<Step>, len: nat) {
    forall i :: 0 <= i < |steps| ==> NewlinesIn(steps[i], len)
  }

  ghost predicate AllOneLined(steps: seq<Step>) {
    forall i :: 0 <= i < |steps| ==> OneLined(steps[i].post)
  }

  /** A line as it is cut: not empty, and ended unless it is the last one. */
  ghost predicate CutRight(texts: seq<string>, i: nat) {
    i < |texts| && texts[i] != "" && (i < |texts| - 1 ==> Ended(texts[i]))
  }

  lemma OneLineCut(t: string)
    requires t != ""
    ensures OneLine(t) <==> '\n' !in t[..|t| - 1]
  {
    assert forall k :: 0 <= k < |t| - 1 ==> t[..|t| - 1][k] == t[k];
  }

  lemma WellCutLines(texts: seq<string>)
    ensures WellCut(texts) <==> OneLined(texts) && forall i :: 0 <= i < |texts| ==> CutRight(texts, i)
  {
    if WellCut(texts) {
      forall i | 0 <= i < |texts|
        ensures CutRight(texts, i) && OneLine(texts[i])
      {
        OneLineCut(texts[i]);
      }
    }
    if OneLined(texts) && forall i :: 0 <= i < |texts| ==> CutRight(texts, i) {
      forall i | 0 <= i < |texts|
        ensures texts[i] != "" && '\n' !in texts[i][..|texts[i]| - 1]
        ensures i < |texts| - 1 ==> texts[i][|texts[i]| - 1] == '\n'
      {
        assert CutRight(texts, i);
        OneLineCut(texts[i]);
      }
    }
  }

  /** Lines that end in newlines, then those of a hunk, then the rest: when all are cut right. */
  lemma CutParts(gap: seq<string>, post: seq<string>, rest: seq<string>)
    requires OneLined(gap) && (forall i :: 0 <= i < |gap| ==> Ended(gap[i])) && OneLined(post)
    ensures WellCut(gap + post + rest) <==> WellCut(rest) && AllEndRight(post, rest == [])
  {
    var all := gap + post + rest;
    WellCutLines(all);
    WellCutLines(rest);
    var g, p := |gap|, |post|;
    assert forall i :: 0 <= i < g ==> all[i] == gap[i];
    assert forall i :: 0 <= i < p ==> all[g + i] == post[i];
    assert forall i :: 0 <= i < |rest| ==> all[g + p + i] == rest[i];
    if WellCut(all) {
      PartsRight(all, g, p, post, rest);
    } else if WellCut(rest) && AllEndRight(post, rest == []) {
      forall i | 0 <= i < |all|
        ensures OneLine(all[i]) && CutRight(all, i)
      {
        if i < g {
        } else if i < g + p {
          assert EndsRight(post, i - g, rest == []);
        } else {
          assert CutRight(rest, i - g - p);
        }
      }
    }
  }

  lemma PartsRight(all: seq<string>, g: nat, p: nat, post: seq<string>, rest: seq<string>)
    requires OneLined(all) && forall i :: 0 <= i < |all| ==> CutRight(all, i)
    requires |all| == g + p + |rest| && |post| == p
    requires (forall i :: 0 <= i < p ==> all[g + i] == post[i])
    requires forall i :: 0 <= i < |rest| ==> all[g + p + i] == rest[i]
    ensures WellCut(rest) && AllEndRight(post, rest == [])
  {
    forall i | 0 <= i < |rest|
      ensures OneLine(rest[i]) && CutRight(rest, i)
    {
      assert CutRight(all, g + p + i);
    }
    WellCutLines(rest);
    var last := rest == [];
    forall i | 0 <= i < p
      ensures EndsRight(post, i, last)
    {
      assert CutRight(all, g + i);
    }
  }

  lemma GapEnded(texts: seq<string>, a: nat, b: nat)
    requires WellCut(texts) && a <= b <= |texts| && (a < b ==> b < |texts|)
    ensures OneLined(texts[a..b]) && forall i :: 0 <= i < |texts[a..b]| ==> Ended(texts[a..b][i])
  {
    WellCutLines(texts);
    forall i | 0 <= i < b - a
      ensures Ended(texts[a..b][i]) && OneLine(texts[a..b][i])
    {
      assert CutRight(texts, a + i);
    }
  }

  lemma WellCutTail(texts: seq<string>, a: nat)
    requires WellCut(texts) && a <= |texts|
    ensures WellCut(texts[a..])
  {
    assert forall i :: 0 <= i < |texts| - a ==> texts[a..][i] == texts[a + i];
  }

  lemma FirstWellCut(texts: seq<string>, steps: seq<Step>, a: nat, b: nat)
    requires WellCut(texts) && a <= |texts| && IsPatch(texts, steps, a, b) && steps != [] && OneLined(steps[0].post)
    ensures var s := steps[0];
      WellCut(Result(texts, steps, a, b)) <==>
      (NewlinesIn(s, |texts|) && WellCut(Result(texts, steps[1..], s.a + |s.pre|, s.b + |s.post|)))
  {
    var s := steps[0];
    var rest := Result(texts, steps[1..], s.a + |s.pre|, s.b + |s.post|);
    GapEnded(texts, a, s.a);
    RestEmpty(texts, steps[1..], s.a + |s.pre|, s.b + |s.post|);
    CutParts(texts[a..s.a], s.post, rest);
  }

  /** The new file, written out, is cut into the same lines again exactly if no newline is missing inside. */
  lemma {:induction false} ResultWellCut(texts: seq<string>, steps: seq<Step>, a: nat, b: nat)
    requires WellCut(texts) && a <= |texts| && IsPatch(texts, steps, a, b) && AllOneLined(steps)
    ensures WellCut(Result(texts, steps, a, b)) <==> AllNewlines(steps, |texts|)
    decreases |steps|
  {
    if steps == [] {
      WellCutTail(texts, a);
    } else {
      var rest, a1, b1 := steps[1..], steps[0].a + |steps[0].pre|, steps[0].b + |steps[0].post|;
      AllOneLinedFirst(steps);
      AllNewlinesFirst(steps, |texts|);
      FirstWellCut(texts, steps, a, b);
      ResultWellCut(texts, rest, a1, b1);
    }
  }

  lemma AllOneLinedFirst(steps: seq<Step>)
    requires steps != [] && AllOneLined(steps)
    ensures OneLined(steps[0].post) && AllOneLined(steps[1..])
  {
    assert forall i :: 0 <= i < |steps| - 1 ==> steps[1..][i] == steps[i + 1];
  }

  lemma AllNewlinesFirst(steps: seq<Step>, len: nat)
    requires steps != []
    ensures AllNewlines(steps, len) <==> NewlinesIn(steps[0], len) && AllNewlines(steps[1..], len)
  {
    assert forall i :: 0 < i < |steps| ==> steps[i] == steps[1..][i - 1];
  }

  lemma {:induction false} ResultOneLined(texts: seq<string>, steps: seq<Step>, a: nat, b: nat)
    requires OneLined(texts) && a <= |texts| && IsPatch(texts, steps, a, b) && AllOneLined(steps)
    ensures OneLined(Result(texts, steps, a, b))
    decreases |steps|
  {
    if steps != [] {
      assert forall i :: 0 <= i < |steps| - 1 ==> steps[1..][i] == steps[i + 1];
      ResultOneLined(texts, steps[1..], steps[0].a + |steps[0].pre|, steps[0].b + |steps[0].post|);
    }
  }

  /** If newlines are missing inside, there are fewer lines then. */
  lemma FewerLines(texts: seq<string>)
    requires OneLined(texts) && !WellCut(texts)
    ensures |SplitLines(Flatten(texts))| < |texts|
  {
    SplitAgain(texts);
    SplitIsWellCut(Flatten(texts));
  }
}
