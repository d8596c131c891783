/**
 Applying the hunks of a patch to a file, forwards or in reverse (git/apply.c).
 */
module ApplyPatch {
  import FindPosition
  import opened FuzzyImages
  import opened HunkPlace
  import opened HunkText
  import opened ImageLines
  import opened PatchSteps

  // ---- a patch as steps ----

  ghost predicate WellFormed(frag: Fragment) { Body(frag.patch).Some? }

  /** An empty side is numbered 0. */
  function Index(pos: nat): nat { if pos > 0 then pos - 1 else 0 }

  ghost function StepOf(frag: Fragment, reverse: bool): Step
    requires WellFormed(frag)
  {
    var body := Body(frag.patch).value;
    Step(Index(frag.oldpos), Index(frag.newpos), Old(body, reverse), New(body, reverse), frag.trailing == 0)
  }

  ghost predicate AllWellFormed(frags: seq<Fragment>) {
    forall i :: 0 <= i < |frags| ==> WellFormed(frags[i])
  }

  ghost function StepsOf(frags: seq<Fragment>, reverse: bool): seq<Step>
    requires AllWellFormed(frags)
  {
    seq(|frags|, i requires 0 <= i < |frags| => StepOf(frags[i], reverse))
  }

  ghost predicate AllReducible(frags: seq<Fragment>, context: nat) {
    forall i :: 0 <= i < |frags| ==> Reducible(frags[i], context)
  }

  ghost predicate IsImage(s: State) { Cuts(Flatten(s.texts), s.table, s.texts) }

  // what the i-th step of a run does to an image
  type Move = (int, State, State) -> bool

  ghost function HunkMoves(frags: seq<Fragment>, mode: Mode): Move {
    (i, s, s') => 0 <= i < |frags| && IsImage(s') && Went(s, frags[i], mode, s', Applied)
  }

  ghost predicate Chained(run: seq<State>, move: Move) {
    run != [] && forall i :: 0 <= i < |run| - 1 ==> move(i, run[i], run[i + 1])
  }

  lemma ChainedNext(run: seq<State>, move: Move, s': State)
    requires Chained(run, move) && move(|run| - 1, run[|run| - 1], s')
    ensures Chained(run + [s'], move)
  {
    var more := run + [s'];
    forall k | 0 <= k < |more| - 1
      ensures move(k, more[k], more[k + 1])
    {
      assert k < |run| - 1 ==> more[k + 1] == run[k + 1];
    }
  }

  /** The images between the hunks, from the first on. */
  ghost predicate Run(run: seq<State>, frags: seq<Fragment>, mode: Mode) {
    Chained(run, HunkMoves(frags, mode)) && IsImage(run[0])
  }

  lemma RunAt(run: seq<State>, frags: seq<Fragment>, mode: Mode, i: nat)
    requires Run(run, frags, mode) && i < |run|
    ensures IsImage(run[i])
    ensures i + 1 < |run| ==> i < |frags| && Went(run[i], frags[i], mode, run[i + 1], Applied)
  {
    if i > 0 {
      assert HunkMoves(frags, mode)(i - 1, run[i - 1], run[i - 1 + 1]);
    }
    if i + 1 < |run| {
      assert HunkMoves(frags, mode)(i, run[i], run[i + 1]);
    }
  }

  // ---- a patch that fits ----

  // part way through the old file: the lines made so far, and the hunks still to come from old line a and new line b on
  datatype Progress = Progress(file: seq<string>, steps: seq<Step>, a: nat, b: nat, made: seq<string>,
                               result: seq<string>)

  /** The lines made, then the old file from a on, not touched yet. */
  ghost predicate PartWay(s: State, p: Progress) {
    && p.a <= |p.file| && |p.made| == p.b && s.texts == p.made + p.file[p.a..] && |s.table| == |s.texts|
    && NonePatched(s.table, p.b)
    && IsPatch(p.file, p.steps, p.a, p.b) && p.made + Result(p.file, p.steps, p.a, p.b) == p.result
    && (p.steps != [] && p.a == 0 ==> p.b == 0)
  }

  /** The old lines of the next hunk are where it claims, at the place's own number in the file so far. */
  lemma NextInPlace(s: State, p: Progress)
    requires PartWay(s, p) && p.steps != []
    ensures var t := p.steps[0]; var n := |t.pre|;
      && p.b <= t.b && t.b + n <= |s.texts| && s.texts[t.b..t.b + n] == t.pre && (t.a == 0 ==> t.b == 0)
      && (t.atEnd ==> t.b + n == |s.texts|)
  {
    var t := p.steps[0];
    assert s.texts[t.b..t.b + |t.pre|] == p.file[t.a..t.a + |t.pre|];
  }

  /** There, the next hunk is accepted as it is, to the byte. */
  lemma NextAccepted(s: State, p: Progress, frag: Fragment, mode: Mode, x: Sought)
    requires IsImage(s) && PartWay(s, p) && p.steps != [] && WellFormed(frag)
      && p.steps[0] == StepOf(frag, mode.reverse)
    requires x == Sought(Body(frag.patch).value, Index(frag.newpos), frag.oldpos <= 1, frag.trailing == 0)
    ensures Claimed(s, x, mode) == p.steps[0].b <= |s.texts| && Places(s, x, mode)(p.steps[0].b)
    ensures FindPosition.SameBytes(QueryFor(s, x, mode), p.steps[0].b)
  {
    NextInPlace(s, p);
    AcceptedThere(s, x, mode, p.steps[0].b, p.b);
  }

  lemma AcceptedThere(s: State, x: Sought, mode: Mode, at: nat, from: nat)
    requires IsImage(s) && NonePatched(s.table, from) && from <= at
    requires var pre := Old(x.body, mode.reverse);
      && at + |pre| <= |s.texts| && s.texts[at..at + |pre|] == pre
      && (x.atStart ==> at == 0) && (x.atEnd ==> at + |pre| == |s.texts|)
    ensures Places(s, x, mode)(at) && FindPosition.SameBytes(QueryFor(s, x, mode), at)
  {
    var q := QueryFor(s, x, mode);
    assert FindPosition.Untouched(q, at);
    FindPosition.HashRejectsNothing(q, at);
    FindPosition.LinesAreBytes(q, at);
  }

  lemma PartWayNext(s: State, s': State, p: Progress) returns (p': Progress)
    requires PartWay(s, p) && p.steps != [] && ReplacedAt(s, s', p.steps[0].b, |p.steps[0].pre|, p.steps[0].post)
    ensures PartWay(s', p') && p'.steps == p.steps[1..] && p'.result == p.result && p'.file == p.file
  {
    var t := p.steps[0];
    var a1, b1, gap := t.a + |t.pre|, t.b + |t.post|, p.file[p.a..t.a];
    p' := Progress(p.file, p.steps[1..], a1, b1, p.made + gap + t.post, p.result);
    PartMade(s.texts, s'.texts, p, gap, a1, b1);
    PartTable(s.table, s'.table, t.b, |t.pre|, |t.post|, p.b);
    var rest := Result(p.file, p.steps[1..], a1, b1);
    assert p'.made + rest == p.made + (gap + t.post + rest);
    NotTwice(p.file, p.steps, p.a, p.b);
  }

  /** A hunk that makes a file out of nothing is the last one. */
  lemma NotTwice(texts: seq<string>, steps: seq<Step>, a: nat, b: nat)
    requires a <= |texts| && IsPatch(texts, steps, a, b) && steps != []
    ensures steps[1..] != [] ==> steps[0].a + |steps[0].pre| > 0
  {
    if steps[0].pre == [] {
      LastStep(texts, steps[1..], steps[0].a + |steps[0].pre|, steps[0].b + |steps[0].post|);
    }
  }

  lemma PartMade(texts: seq<string>, texts': seq<string>, p: Progress, gap: seq<string>, a1: nat, b1: nat)
    requires p.steps != [] && Fits(p.file, p.steps[0], p.a, p.b) && |p.made| == p.b && texts == p.made + p.file[p.a..]
    requires gap == p.file[p.a..p.steps[0].a] && a1 == p.steps[0].a + |p.steps[0].pre|
      && b1 == p.steps[0].b + |p.steps[0].post|
    requires var s := p.steps[0]; s.b + |s.pre| <= |texts| && texts' == texts[..s.b] + s.post + texts[s.b + |s.pre|..]
    ensures |p.made + gap + p.steps[0].post| == b1 && texts' == (p.made + gap + p.steps[0].post) + p.file[a1..]
  {
    var s := p.steps[0];
    assert texts[..s.b] == p.made + gap;
    assert texts[s.b + |s.pre|..] == p.file[a1..];
  }

  lemma PartTable(table: seq<Line>, table': seq<Line>, pos: nat, n: nat, m: nat, from: nat)
    requires NonePatched(table, from) && from <= pos && pos + n <= |table| && pos + m <= |table'|
      && table'[pos + m..] == table[pos + n..]
    ensures NonePatched(table', pos + m)
  {
    forall i | pos + m <= i < |table'|
      ensures !table'[i].patched
    {
      assert table'[i] == table'[pos + m..][i - pos - m] == table[pos + n..][i - pos - m];
    }
  }

  /** The next hunk of a patch that fits goes where it says. */
  lemma NextGoes(s: State, frag: Fragment, mode: Mode, s': State, out: Outcome, p: Progress)
    returns (p': Progress)
    requires IsImage(s) && Went(s, frag, mode, s', out)
    requires PartWay(s, p) && p.steps != [] && WellFormed(frag) && p.steps[0] == StepOf(frag, mode.reverse)
    ensures out == Applied && PartWay(s', p') && p'.steps == p.steps[1..] && p'.result == p.result
      && p'.file == p.file
  {
    var body := Body(frag.patch).value;
    NotReduced(frag, body, true);
    NextAccepted(s, p, frag, mode, Reduced(frag, body, AllContext(frag), true));
    GoesAsClaimed(s, frag, body, mode, s', out, p.steps[0].b);
    p' := PartWayNext(s, s', p);
  }

  /** The patch fits the image as it is. */
  ghost predicate PatchFits(texts: seq<string>, table: seq<Line>, frags: seq<Fragment>, reverse: bool) {
    NonePatched(table, 0) && AllWellFormed(frags) && IsPatch(texts, StepsOf(frags, reverse), 0, 0)
  }

  /** The hunks from i on are still to be applied, and lead to the result. */
  ghost predicate OnTrack(s: State, p: Progress, frags: seq<Fragment>, reverse: bool, i: nat, result: seq<string>) {
    i <= |frags| && AllWellFormed(frags) && PartWay(s, p) && p.steps == StepsOf(frags[i..], reverse)
      && p.result == result
  }

  lemma Starting(s: State, frags: seq<Fragment>, reverse: bool) returns (p: Progress)
    requires PatchFits(s.texts, s.table, frags, reverse) && |s.table| == |s.texts|
    ensures OnTrack(s, p, frags, reverse, 0, Result(s.texts, StepsOf(frags, reverse), 0, 0))
  {
    var steps := StepsOf(frags, reverse);
    p := Progress(s.texts, steps, 0, 0, [], Result(s.texts, steps, 0, 0));
    assert frags[0..] == frags && s.texts == [] + s.texts[0..] && [] + p.result == p.result;
  }

  lemma NextOnTrack(s: State, p: Progress, frags: seq<Fragment>, reverse: bool, i: nat, result: seq<string>)
    requires OnTrack(s, p, frags, reverse, i, result) && i < |frags|
    ensures p.steps != [] && WellFormed(frags[i]) && p.steps[0] == StepOf(frags[i], reverse)
      && p.steps[1..] == StepsOf(frags[i + 1..], reverse)
  {
    assert frags[i..][0] == frags[i] && frags[i..][1..] == frags[i + 1..];
  }

  lemma StaysOnTrack(s: State, p: Progress, frags: seq<Fragment>, mode: Mode, i: nat, result: seq<string>,
                     s': State, out: Outcome)
    returns (p': Progress)
    requires OnTrack(s, p, frags, mode.reverse, i, result) && i < |frags| && IsImage(s)
    requires Went(s, frags[i], mode, s', out)
    ensures out == Applied && OnTrack(s', p', frags, mode.reverse, i + 1, result)
  {
    NextOnTrack(s, p, frags, mode.reverse, i, result);
    p' := NextGoes(s, frags[i], mode, s', out, p);
  }

  /** A run over a patch that fits is on track all the way. */
  lemma {:induction false} RunOnTrack(run: seq<State>, frags: seq<Fragment>, mode: Mode, k: nat, p0: Progress,
                                      result: seq<string>)
    returns (p: Progress)
    requires Run(run, frags, mode) && k < |run| && OnTrack(run[0], p0, frags, mode.reverse, 0, result)
    ensures OnTrack(run[k], p, frags, mode.reverse, k, result)
  {
    p := p0;
    if k > 0 {
      p := RunOnTrack(run, frags, mode, k - 1, p0, result);
      RunAt(run, frags, mode, k - 1);
      p := StaysOnTrack(run[k - 1], p, frags, mode, k - 1, result, run[k], Applied);
    }
  }

  /** So it leads to the result. */
  lemma FitsToTheEnd(run: seq<State>, frags: seq<Fragment>, mode: Mode, out: Outcome)
    requires RunEnds(run, frags, mode, out) && PatchFits(run[0].texts, run[0].table, frags, mode.reverse)
    ensures out == Applied && run[|run| - 1].texts == Result(run[0].texts, StepsOf(frags, mode.reverse), 0, 0)
  {
    var k := |run| - 1;
    var p0 := Starting(run[0], frags, mode.reverse);
    var p := RunOnTrack(run, frags, mode, k, p0, Result(run[0].texts, StepsOf(frags, mode.reverse), 0, 0));
    RunAt(run, frags, mode, k);
    if out == Applied {
      Arrived(run[k], p);
    } else {
      var p' := StaysOnTrack(run[k], p, frags, mode, k, p.result, run[k], out);
    }
  }

  /** A run to its end: over all hunks, or up to one that is not applied and changes nothing. */
  ghost predicate RunEnds(run: seq<State>, frags: seq<Fragment>, mode: Mode, out: Outcome) {
    && Run(run, frags, mode)
    && (if out == Applied then |run| == |frags| + 1
        else |run| <= |frags| && Went(run[|run| - 1], frags[|run| - 1], mode, run[|run| - 1], out))
  }

  /** Hunk after hunk; stops at one that is not applied. A patch that fits is applied as it says. */
  method ApplyFragments(img: Image, frags: seq<Fragment>, mode: Mode) returns (out: Outcome, ghost run: seq<State>)
    requires img.Valid() && OneLined(img.texts) && AllReducible(frags, mode.context)
    modifies img
    ensures img.Valid() && OneLined(img.texts) && RunEnds(run, frags, mode, out)
    ensures run[0] == old(State(img.texts, img.line)) && run[|run| - 1] == State(img.texts, img.line)
    ensures PatchFits(old(img.texts), old(img.line), frags, mode.reverse) ==>
      out == Applied && img.texts == Result(old(img.texts), StepsOf(frags, mode.reverse), 0, 0)
  {
    out, run := ApplyInTurn(img, frags, mode);
    if PatchFits(run[0].texts, run[0].table, frags, mode.reverse) {
      FitsToTheEnd(run, frags, mode, out);
    }
  }

  method ApplyInTurn(img: Image, frags: seq<Fragment>, mode: Mode) returns (out: Outcome, ghost run: seq<State>)
    requires img.Valid() && OneLined(img.texts) && AllReducible(frags, mode.context)
    modifies img
    ensures img.Valid() && OneLined(img.texts) && RunEnds(run, frags, mode, out)
    ensures run[0] == old(State(img.texts, img.line)) && run[|run| - 1] == State(img.texts, img.line)
  {
    ghost var s0 := State(img.texts, img.line);
    run := [s0];
    var i := 0;
    while i < |frags|
      invariant 0 <= i <= |frags| && img.Valid() && OneLined(img.texts) && Run(run, frags, mode)
      invariant |run| == i + 1 && run[0] == s0 && run[i] == State(img.texts, img.line)
    {
      ghost var s := State(img.texts, img.line);
      out := ApplyOneFragment(img, frags[i], mode);
      if out != Applied {
        NotApplied(s, frags[i], mode, State(img.texts, img.line), out);
        return;
      }
      ChainedNext(run, HunkMoves(frags, mode), State(img.texts, img.line));
      run := run + [State(img.texts, img.line)];
      i := i + 1;
    }
    out := Applied;
  }

  lemma Arrived(s: State, p: Progress)
    requires PartWay(s, p) && p.steps == []
    ensures s.texts == p.result
  {
  }

  // ---- in reverse ----

  function Swapped(f: Fragment): Fragment {
    Fragment(f.newpos, f.oldpos, f.newlines, f.oldlines, f.leading, f.trailing, f.patch)
  }

  ghost predicate AllSwapped(frags: seq<Fragment>, frags': seq<Fragment>) {
    |frags'| == |frags| && forall i :: 0 <= i < |frags| ==> frags'[i] == Swapped(frags[i])
  }

  /** Old and new change places in every hunk. */
  method ReversePatches(frags: seq<Fragment>) returns (frags': seq<Fragment>)
    ensures AllSwapped(frags, frags')
  {
    frags' := [];
    var i := 0;
    while i < |frags|
      invariant 0 <= i <= |frags| && |frags'| == i && forall k :: 0 <= k < i ==> frags'[k] == Swapped(frags[k])
    {
      var f := frags[i];
      frags' := frags' + [f.(newpos := f.oldpos, oldpos := f.newpos, newlines := f.oldlines, oldlines := f.newlines)];
      i := i + 1;
    }
  }

  lemma SwappedSteps(frags: seq<Fragment>, frags': seq<Fragment>, context: nat)
    requires AllWellFormed(frags) && AllSwapped(frags, frags')
    ensures AllWellFormed(frags') && StepsOf(frags', true) == SwapSteps(StepsOf(frags, false))
    ensures AllReducible(frags, context) ==> AllReducible(frags', context)
  {
    forall i | 0 <= i < |frags|
      ensures WellFormed(frags'[i]) && StepOf(frags'[i], true) == SwapStep(StepOf(frags[i], false))
      ensures Reducible(frags[i], context) ==> Reducible(frags'[i], context)
    {
      assert WellFormed(frags[i]) && frags'[i] == Swapped(frags[i]);
    }
  }

  lemma StepsOneLined(frags: seq<Fragment>, reverse: bool)
    requires AllWellFormed(frags)
    ensures AllOneLined(StepsOf(frags, reverse))
  {
    forall i | 0 <= i < |frags|
      ensures OneLined(StepsOf(frags, reverse)[i].post)
    {
      BodyOneLined(frags[i].patch);
      SideOneLined(Body(frags[i].patch).value, if reverse then '-' else '+');
    }
  }

  // ---- what a run does to the number of lines ----

  /** No hunk has more context than is asked for, so that none is reduced. */
  predicate KeepsContext(frags: seq<Fragment>, context: nat) {
    forall i :: 0 <= i < |frags| ==> AllContext(frags[i]) <= context
  }

  /** Only on lines cut right does a hunk take all there is. */
  ghost predicate EmptiesFirst(steps: seq<Step>) {
    forall k :: 0 < k < |steps| ==> steps[k].post != []
  }

  lemma {:induction false} RunLength(run: seq<State>, frags: seq<Fragment>, mode: Mode, k: nat)
    requires Run(run, frags, mode) && k < |run| <= |frags| + 1 && AllWellFormed(frags)
      && KeepsContext(frags, mode.context)
    requires WellCut(run[0].texts) && EmptiesFirst(StepsOf(frags, mode.reverse))
    ensures |run[k].texts| == |run[0].texts| + Gain(StepsOf(frags, mode.reverse)[..k])
  {
    if k > 0 {
      var i, steps := k - 1, StepsOf(frags, mode.reverse);
      RunLength(run, frags, mode, i);
      GainSnoc(steps, i);
      assert i > 0 ==> steps[i].post != [];
      RunAt(run, frags, mode, i);
      GoesLength(run[i], frags[i], Body(frags[i].patch).value, mode, run[i + 1]);
    }
  }

  /** Read in reverse, only the first hunk can empty the file. */
  lemma SwappedEmpties(texts: seq<string>, steps: seq<Step>)
    requires IsPatch(texts, steps, 0, 0)
    ensures EmptiesFirst(SwapSteps(steps))
  {
    forall k | 0 < k < |steps|
      ensures SwapSteps(steps)[k].post != []
    {
      if steps[k].pre == [] {
        MakesFirst(texts, steps, 0, 0, k);
      }
    }
  }

  /** If newlines are missing inside the new file, applying in reverse to what is read of it cannot lead back. */
  lemma NotBack(buf: string, steps: seq<Step>, run: seq<State>, frags': seq<Fragment>, mode: Mode, final: seq<string>)
    requires WellCut(SplitLines(buf)) && IsPatch(SplitLines(buf), steps, 0, 0) && AllOneLined(steps)
      && !AllNewlines(steps, |SplitLines(buf)|)
    requires mode.reverse && AllWellFormed(frags') && StepsOf(frags', true) == SwapSteps(steps)
      && KeepsContext(frags', mode.context)
    requires Run(run, frags', mode) && |run| == |frags'| + 1 && run[|frags'|].texts == final && OneLined(final)
    requires run[0].texts == SplitLines(Flatten(Result(SplitLines(buf), steps, 0, 0)))
    ensures Flatten(final) != buf
  {
    var texts := SplitLines(buf);
    var texts' := Result(texts, steps, 0, 0);
    WellCutLines(texts);
    ResultOneLined(texts, steps, 0, 0);
    ResultWellCut(texts, steps, 0, 0);
    FewerLines(texts');
    SplitIsWellCut(Flatten(texts'));
    SwappedEmpties(texts, steps);
    RunLength(run, frags', mode, |frags'|);
    assert SwapSteps(steps)[..|frags'|] == SwapSteps(steps);
    GainSwapped(steps);
    ResultLength(texts, steps, 0, 0);
    SplitAgain(final);
  }

  /**
     Applying a patch that fits, and then the same patch in reverse to what came out, gives back every byte of the
     file exactly if no line of a hunk lacks its newline inside the new file.
   */
  method ApplyAndReverse(buf: string, frags: seq<Fragment>, ignoreSpace: bool, context: nat)
    returns (patched: string, out: Outcome, back: string)
    requires PatchFits(SplitLines(buf), [], frags, false) && AllReducible(frags, context)
    ensures patched == Flatten(Result(SplitLines(buf), StepsOf(frags, false), 0, 0))
    ensures AllNewlines(StepsOf(frags, false), |SplitLines(buf)|) ==> out == Applied && back == buf
    ensures KeepsContext(frags, context) && out == Applied && back == buf ==>
      AllNewlines(StepsOf(frags, false), |SplitLines(buf)|)
  {
    var img := PrepareImage(buf);
    ghost var texts, steps := img.texts, StepsOf(frags, false);
    ghost var texts' := Result(texts, steps, 0, 0);
    SplitIsWellCut(buf);
    WellCutLines(texts);
    ghost var run;
    out, run := ApplyFragments(img, frags, Mode(false, ignoreSpace, context));
    patched := img.buf;
    var frags' := ReversePatches(frags);
    SwappedSteps(frags, frags', context);
    StepsOneLined(frags, false);
    out, back := ApplyReversed(patched, frags', ignoreSpace, context, buf, steps);
    if KeepsContext(frags, context) {
      assert forall i :: 0 <= i < |frags'| ==> frags'[i] == Swapped(frags[i]);
    }
  }

  method ApplyReversed(patched: string, frags': seq<Fragment>, ignoreSpace: bool, context: nat, ghost buf: string,
                       ghost steps: seq<Step>)
    returns (out: Outcome, back: string)
    requires WellCut(SplitLines(buf)) && Flatten(SplitLines(buf)) == buf && IsPatch(SplitLines(buf), steps, 0, 0)
      && AllOneLined(steps)
    requires patched == Flatten(Result(SplitLines(buf), steps, 0, 0))
    requires AllWellFormed(frags') && AllReducible(frags', context) && StepsOf(frags', true) == SwapSteps(steps)
    ensures AllNewlines(steps, |SplitLines(buf)|) ==> out == Applied && back == buf
    ensures KeepsContext(frags', context) && out == Applied && back == buf ==> AllNewlines(steps, |SplitLines(buf)|)
  {
    ghost var texts := SplitLines(buf);
    ghost var texts' := Result(texts, steps, 0, 0);
    var img := PrepareImage(patched);
    SplitIsWellCut(patched);
    WellCutLines(img.texts);
    ResultWellCut(texts, steps, 0, 0);
    if AllNewlines(steps, |texts|) {
      SplitFlatten(texts');
      assert texts'[0..] == texts' && texts[0..] == texts;
      ReverseFits(texts, texts', steps, 0, 0);
    }
    var mode := Mode(true, ignoreSpace, context);
    ghost var run;
    out, run := ApplyFragments(img, frags', mode);
    back := img.buf;
    if !AllNewlines(steps, |texts|) && out == Applied && KeepsContext(frags', context) {
      NotBack(buf, steps, run, frags', mode, img.texts);
    }
  }

  // ---- a newline missing inside ----

  const NOTE := "\\ No newline at end of file\n"

  // a line without a newline, put in front of the line of a file
  function JoiningText(c: char, d: char): string { ['+', c, '\n'] + (NOTE + [' ', d, '\n']) }

  function JoiningLines(c: char, d: char): seq<HunkLine> { [HunkLine('+', [c]), HunkLine(' ', [d, '\n'])] }

  function JoiningHunk(c: char, d: char): Fragment { Fragment(1, 1, 1, 2, 0, 1, JoiningText(c, d)) }

  function JoiningStep(c: char, d: char): Step { Step(0, 0, [[d, '\n']], [[c], [d, '\n']], false) }

  lemma LastLine(d: char)
    requires d != '\n'
    ensures Body([' ', d, '\n']) == Some([HunkLine(' ', [d, '\n'])])
  {
    var line, h := [' ', d, '\n'], HunkLine(' ', [d, '\n']);
    BodyOf(line, "");
    LineEndIs(line, "");
    assert line + "" == line && line[1..3] == [d, '\n'] && [h] + [] == [h];
  }

  lemma NoteAndRest(rest: string)
    ensures Body(NOTE + rest) == Body(rest)
  {
    BodyOf(NOTE, rest);
    assert (NOTE + rest)[0] == '\\';
    if Body(rest).Some? {
      assert [] + Body(rest).value == Body(rest).value;
    }
  }

  lemma FirstLineNoted(c: char, rest: string, h: HunkLine)
    requires c != '\n' && rest != "" && rest[0] == '\\' && Body(rest) == Some([h])
    ensures Body(['+', c, '\n'] + rest) == Some([HunkLine('+', [c]), h])
  {
    var line := ['+', c, '\n'];
    var patch := line + rest;
    BodyOf(line, rest);
    LineEndIs(line, rest);
    assert patch[3] == rest[0] && patch[1..2] == [c];
    assert [HunkLine('+', [c])] + [h] == [HunkLine('+', [c]), h];
  }

  lemma JoiningBody(c: char, d: char)
    requires c != '\n' && d != '\n'
    ensures Body(JoiningText(c, d)) == Some(JoiningLines(c, d))
  {
    LastLine(d);
    NoteAndRest([' ', d, '\n']);
    FirstLineNoted(c, NOTE + [' ', d, '\n'], HunkLine(' ', [d, '\n']));
  }

  lemma JoiningSides(c: char, d: char)
    ensures Old(JoiningLines(c, d), false) == [[d, '\n']] && New(JoiningLines(c, d), false) == [[c], [d, '\n']]
  {
    var added, kept := HunkLine('+', [c]), HunkLine(' ', [d, '\n']);
    assert JoiningLines(c, d) == [added] + [kept];
    SideConcat([added], [kept], '-');
    SideConcat([added], [kept], '+');
    SideOne(added, '-');
    SideOne(added, '+');
    SideOne(kept, '-');
    SideOne(kept, '+');
  }

  lemma JoiningFile(d: char)
    requires d != '\n'
    ensures SplitLines([d, '\n']) == [[d, '\n']]
  {
    var line := [d, '\n'];
    assert [line][..0] == [] && Flatten([line]) == line;
    SplitFlatten([line]);
  }

  lemma JoiningIsPatch(c: char, d: char)
    requires c != '\n'
    ensures IsPatch([[d, '\n']], [JoiningStep(c, d)], 0, 0) && !AllNewlines([JoiningStep(c, d)], 1)
  {
    var s := JoiningStep(c, d);
    assert [s][1..] == [] && [[d, '\n']][0..1] == s.pre;
    assert !EndsRight(s.post, 0, true) && !NewlinesIn([s][0], 1);
  }

  lemma JoiningFits(c: char, d: char)
    requires c != '\n' && d != '\n'
    ensures PatchFits(SplitLines([d, '\n']), [], [JoiningHunk(c, d)], false)
    ensures !AllNewlines(StepsOf([JoiningHunk(c, d)], false), |SplitLines([d, '\n'])|)
  {
    JoiningFile(d);
    JoiningBody(c, d);
    JoiningSides(c, d);
    JoiningIsPatch(c, d);
    assert StepsOf([JoiningHunk(c, d)], false) == [JoiningStep(c, d)];
  }

  /** The line joins the one behind it, and the patch in reverse does not lead back. */
  method ApplyJoining(c: char, d: char) returns (patched: string, out: Outcome, back: string)
    requires c != '\n' && d != '\n'
    ensures out != Applied || back != [d, '\n']
  {
    JoiningFits(c, d);
    patched, out, back := ApplyAndReverse([d, '\n'], [JoiningHunk(c, d)], false, 1);
  }
}
