/**
 Blame entries, how they are cut at the borders of hunks, and where the lines of a file are after a diff
 (git/blame.c). Unchanged lines move to the parent under the parent's line numbers, changed lines stay.
 */
module BlameSpec {

  const INT_MAX := 0x7fff_ffff

  // above every line number
  const TOP := INT_MAX + 1

  datatype Suspect = Target | Parent

  datatype Flags = Flags(ignored: bool, unblamable: bool)

  // Lines [lno, lno + numLines) of the final file come from lines [sLno, ...) of the suspect's file.
  datatype Entry = Entry(lno: int, sLno: int, numLines: nat, suspect: Suspect, flags: Flags)

  // One line of the final file with the suspect's line it is attributed to.
  datatype Line = Line(lno: int, sLno: int, flags: Flags)

  predicate Covers(e: Entry, x: Line) {
    0 <= x.lno - e.lno < e.numLines && x.sLno - e.sLno == x.lno - e.lno && x.flags == e.flags
  }

  /** How many entries attribute the line x. */
  function Count(es: seq<Entry>, x: Line): nat {
    if es == [] then 0 else Count(es[..|es| - 1], x) + (if Covers(es[|es| - 1], x) then 1 else 0)
  }

  lemma {:induction false} CountConcat(a: seq<Entry>, b: seq<Entry>, x: Line)
    ensures Count(a + b, x) == Count(a, x) + Count(b, x)
  {
    if b == [] {
      assert a + b == a;
    } else {
      assert (a + b)[..|a + b| - 1] == a + b[..|b| - 1];
      CountConcat(a, b[..|b| - 1], x);
    }
  }

  lemma CountOne(e: Entry, x: Line)
    ensures Count([e], x) == if Covers(e, x) then 1 else 0
  {
    assert [e][..0] == [];
  }

  function Reverse(es: seq<Entry>): (r: seq<Entry>)
    ensures |r| == |es|
  {
    if es == [] then [] else Reverse(es[1..]) + [es[0]]
  }

  lemma {:induction false} ReverseCount(es: seq<Entry>, x: Line)
    ensures Count(Reverse(es), x) == Count(es, x)
  {
    if es != [] {
      ReverseCount(es[1..], x);
      CountConcat(Reverse(es[1..]), [es[0]], x);
      CountConcat([es[0]], es[1..], x);
      assert es == [es[0]] + es[1..];
    }
  }

  lemma {:induction false} ReverseAt(es: seq<Entry>, i: nat)
    requires i < |es|
    ensures Reverse(es)[i] == es[|es| - 1 - i]
  {
    if i < |es| - 1 {
      ReverseAt(es[1..], i);
    }
  }

  predicate Sorted(es: seq<Entry>) {
    forall i, j :: 0 <= i < j < |es| ==> es[i].sLno <= es[j].sLno
  }

  /** Every entry starts in [lo, hi). */
  predicate StartsIn(es: seq<Entry>, lo: int, hi: int) {
    forall i :: 0 <= i < |es| ==> lo <= es[i].sLno < hi
  }

  predicate EndsBy(es: seq<Entry>, hi: int) {
    forall i :: 0 <= i < |es| ==> es[i].sLno + es[i].numLines <= hi
  }

  predicate Blames(es: seq<Entry>, s: Suspect) {
    forall i :: 0 <= i < |es| ==> es[i].suspect == s
  }

  function Back(x: Line, offset: int): Line { x.(sLno := x.sLno - offset) }

  /** out holds exactly the lines of es below t, moved by offset. */
  ghost predicate HoldsBelow(es: seq<Entry>, out: seq<Entry>, t: int, offset: int) {
    forall x :: Count(out, x) == if x.sLno - offset < t then Count(es, Back(x, offset)) else 0
  }

  /** out holds exactly the lines of es from t on. */
  ghost predicate HoldsFrom(es: seq<Entry>, out: seq<Entry>, t: int) {
    forall x :: Count(out, x) == if x.sLno >= t then Count(es, x) else 0
  }

  lemma CountStep(done: seq<Entry>, e: Entry, out: seq<Entry>, e': Entry, x: Line)
    ensures Count(done + [e], x) == Count(done, x) + if Covers(e, x) then 1 else 0
    ensures Count([e'] + out, x) == Count(out, x) + if Covers(e', x) then 1 else 0
  {
    CountConcat(done, [e], x);
    CountOne(e, x);
    CountConcat([e'], out, x);
    CountOne(e', x);
  }

  lemma StepBelow(done: seq<Entry>, e: Entry, out: seq<Entry>, e': Entry, t: int, offset: int)
    requires HoldsBelow(done, out, t, offset)
    requires forall x :: Covers(e', x) <==> Covers(e, Back(x, offset)) && x.sLno - offset < t
    ensures HoldsBelow(done + [e], [e'] + out, t, offset)
  {
    forall x
      ensures Count([e'] + out, x) == if x.sLno - offset < t then Count(done + [e], Back(x, offset)) else 0
    {
      CountStep(done, e, out, e', x);
      CountStep(done, e, out, e', Back(x, offset));
    }
  }

  lemma StepFrom(done: seq<Entry>, e: Entry, out: seq<Entry>, n: Entry, t: int)
    requires HoldsFrom(done, out, t)
    requires forall x :: Covers(n, x) <==> Covers(e, x) && x.sLno >= t
    ensures HoldsFrom(done + [e], [n] + out, t)
  {
    forall x
      ensures Count([n] + out, x) == if x.sLno >= t then Count(done + [e], x) else 0
    {
      CountStep(done, e, out, n, x);
    }
  }

  lemma SkipFrom(done: seq<Entry>, e: Entry, out: seq<Entry>, t: int)
    requires HoldsFrom(done, out, t)
    requires e.sLno + e.numLines <= t
    ensures HoldsFrom(done + [e], out, t)
  {
    forall x
      ensures Count(out, x) == if x.sLno >= t then Count(done + [e], x) else 0
    {
      CountStep(done, e, out, e, x);
    }
  }

  /** A list built back to front: starts never rise. */
  predicate Falling(es: seq<Entry>) {
    forall i, j :: 0 <= i < j < |es| ==> es[i].sLno >= es[j].sLno
  }

  lemma {:induction false} ReverseFalling(es: seq<Entry>)
    requires Falling(es)
    ensures Sorted(Reverse(es))
  {
    forall i, j | 0 <= i < j < |es|
      ensures Reverse(es)[i].sLno <= Reverse(es)[j].sLno
    {
      ReverseAt(es, i);
      ReverseAt(es, j);
    }
  }

  lemma ReverseAll(es: seq<Entry>, lo: int, hi: int, end: int, s: Suspect)
    requires StartsIn(es, lo, hi) && EndsBy(es, end) && Blames(es, s)
    ensures StartsIn(Reverse(es), lo, hi) && EndsBy(Reverse(es), end) && Blames(Reverse(es), s)
  {
    forall i | 0 <= i < |es|
      ensures Reverse(es)[i] in es
    {
      ReverseAt(es, i);
    }
  }

  /** A list of entries of one suspect that start in [lo, hi) and end by end, in falling order. */
  predicate Pile(es: seq<Entry>, lo: int, hi: int, end: int, s: Suspect) {
    Falling(es) && StartsIn(es, lo, hi) && EndsBy(es, end) && Blames(es, s)
  }

  /** The same in rising order. */
  predicate Queue(es: seq<Entry>, lo: int, hi: int, end: int, s: Suspect) {
    Sorted(es) && StartsIn(es, lo, hi) && EndsBy(es, end) && Blames(es, s)
  }

  lemma PileToQueue(es: seq<Entry>, lo: int, hi: int, end: int, s: Suspect)
    requires Pile(es, lo, hi, end, s)
    ensures Queue(Reverse(es), lo, hi, end, s)
  {
    ReverseFalling(es);
    ReverseAll(es, lo, hi, end, s);
  }

  lemma QueueConcat(a: seq<Entry>, b: seq<Entry>, lo: int, mid: int, mid': int, hi: int, end: int, end': int,
                    s: Suspect)
    requires Queue(a, lo, mid, end, s) && Queue(b, mid', hi, end', s)
    requires lo <= mid' && mid - 1 <= mid' && mid <= hi && end <= end'
    ensures Queue(a + b, lo, hi, end', s)
  {
  }

  lemma Push(e: Entry, es: seq<Entry>, lo: int, hi: int, end: int, s: Suspect)
    requires Pile(es, lo, hi, end, s) && lo <= e.sLno < hi && e.sLno + e.numLines <= end && e.suspect == s
    requires es != [] ==> es[0].sLno <= e.sLno
    ensures Pile([e] + es, lo, hi, end, s)
  {
  }

  lemma Tail(es: seq<Entry>, lo: int, hi: int, end: int, s: Suspect)
    requires Queue(es, lo, hi, end, s) && es != []
    ensures Queue(es[1..], es[0].sLno, hi, end, s) && lo <= es[0].sLno
  {
  }

  lemma Rises(es: seq<Entry>, lo: int, lo': int, hi: int, end: int, s: Suspect)
    requires Queue(es, lo, hi, end, s) && (es != [] ==> lo' <= es[0].sLno)
    ensures Queue(es, lo', hi, end, s)
  {
  }

  /**
   What a loop that cuts at t has put aside for the entries taken so far, all starting by last:
   the parts below t, moved by offset and blamed on s, and the parts from t on.
   */
  ghost predicate CutAt(taken: seq<Entry>, below: seq<Entry>, above: seq<Entry>, pos: int, last: int, end: int,
                        t: int, offset: int, s: Suspect) {
    && HoldsBelow(taken, below, t, offset) && HoldsFrom(taken, above, t)
    && Pile(below, pos + offset, t + offset, t + offset, s) && (below != [] ==> below[0].sLno <= last + offset)
    && Pile(above, t, t + 1, end, Target)
  }

  predicate Reaches(e: Entry, t: int) { e.sLno + e.numLines > t }

  /** The part of e below t, moved by offset and blamed on s. */
  function Below(e: Entry, t: int, offset: int, s: Suspect): Entry
    requires e.sLno <= t
  {
    Entry(e.lno, e.sLno + offset, if Reaches(e, t) then t - e.sLno else e.numLines, s, e.flags)
  }

  /** The part of e from t on. */
  function Above(e: Entry, t: int): Entry
    requires e.sLno <= t && Reaches(e, t)
  {
    Entry(e.lno + t - e.sLno, t, e.numLines - (t - e.sLno), e.suspect, e.flags)
  }

  /** No line is lost at a cut, none is doubled. */
  lemma CutCovers(e: Entry, t: int, offset: int, s: Suspect)
    requires e.sLno <= t
    ensures forall x :: Covers(Below(e, t, offset, s), x) <==> Covers(e, Back(x, offset)) && x.sLno - offset < t
    ensures Reaches(e, t) ==> forall x :: Covers(Above(e, t), x) <==> Covers(e, x) && x.sLno >= t
  {
  }

  /** One more entry is cut. */
  lemma CutOne(entry: Entry, taken: seq<Entry>, below: seq<Entry>, above: seq<Entry>, pos: int, last: int, end: int,
               t: int, offset: int, s: Suspect)
    requires CutAt(taken, below, above, pos, last, end, t, offset, s)
    requires pos <= last <= entry.sLno < t && entry.sLno + entry.numLines <= end && entry.suspect == Target
    ensures CutAt(taken + [entry], [Below(entry, t, offset, s)] + below,
                  if Reaches(entry, t) then [Above(entry, t)] + above else above, pos, entry.sLno, end, t, offset, s)
  {
    var e := Below(entry, t, offset, s);
    CutCovers(entry, t, offset, s);
    StepBelow(taken, entry, below, e, t, offset);
    Push(e, below, pos + offset, t + offset, t + offset, s);
    if Reaches(entry, t) {
      StepFrom(taken, entry, above, Above(entry, t), t);
      Push(Above(entry, t), above, t, t + 1, end, Target);
    } else {
      SkipFrom(taken, entry, above, t);
    }
  }

  lemma {:induction false} NoneBelow(es: seq<Entry>, t: int, x: Line)
    requires forall i :: 0 <= i < |es| ==> t <= es[i].sLno
    requires x.sLno < t
    ensures Count(es, x) == 0
  {
    if es != [] {
      NoneBelow(es[..|es| - 1], t, x);
    }
  }

  /** After the loop: the lists put aside, reversed, hold the lines of the whole list below and from t. */
  lemma CutWhole(es: seq<Entry>, taken: seq<Entry>, rest: seq<Entry>, below: seq<Entry>, above: seq<Entry>, pos: int,
                 last: int, end: int, t: int, offset: int, s: Suspect)
    requires es == taken + rest && Queue(rest, t, TOP, end, Target) && t < TOP
    requires CutAt(taken, below, above, pos, last, end, t, offset, s)
    ensures HoldsBelow(es, Reverse(below), t, offset) && HoldsFrom(es, Reverse(above) + rest, t)
    ensures Queue(Reverse(below), pos + offset, t + offset, t + offset, s)
    ensures Queue(Reverse(above) + rest, t, TOP, end, Target)
  {
    PileToQueue(below, pos + offset, t + offset, t + offset, s);
    PileToQueue(above, t, t + 1, end, Target);
    QueueConcat(Reverse(above), rest, t, t + 1, t, TOP, end, end, Target);
    forall x
      ensures Count(Reverse(below), x) == if x.sLno - offset < t then Count(es, Back(x, offset)) else 0
    {
      ReverseCount(below, x);
      CountConcat(taken, rest, Back(x, offset));
      if x.sLno - offset < t {
        NoneBelow(rest, t, Back(x, offset));
      }
    }
    forall x
      ensures Count(Reverse(above) + rest, x) == if x.sLno >= t then Count(es, x) else 0
    {
      CountConcat(Reverse(above), rest, x);
      ReverseCount(above, x);
      CountConcat(taken, rest, x);
      if x.sLno < t {
        NoneBelow(rest, t, x);
      }
    }
  }

  /** out holds exactly the lines of es in [lo, hi). */
  ghost predicate HoldsBetween(es: seq<Entry>, out: seq<Entry>, lo: int, hi: int) {
    forall x :: Count(out, x) == if lo <= x.sLno < hi then Count(es, x) else 0
  }

  lemma BetweenTwoCuts(es: seq<Entry>, mid: seq<Entry>, stayed: seq<Entry>, rest: seq<Entry>, lo: int, hi: int)
    requires HoldsFrom(es, mid, lo) && HoldsBelow(mid, stayed, hi, 0) && HoldsFrom(mid, rest, hi) && lo <= hi
    ensures HoldsBetween(es, stayed, lo, hi) && HoldsFrom(es, rest, hi)
  {
    forall x
      ensures Count(stayed, x) == if lo <= x.sLno < hi then Count(es, x) else 0
    {
      assert Back(x, 0) == x;
    }
  }

  // ---- hunks ----

  // lines [startA, startA + countA) of the parent became lines [startB, startB + countB) of the target
  datatype Hunk = Hunk(startA: int, countA: nat, startB: int, countB: nat) {
    function EndA(): int { startA + countA }
    function EndB(): int { startB + countB }
  }

  function LastA(hs: seq<Hunk>): int { if hs == [] then 0 else hs[|hs| - 1].EndA() }

  function LastB(hs: seq<Hunk>): int { if hs == [] then 0 else hs[|hs| - 1].EndB() }

  /** The diff gives hunks in order, each starting where the last one ended or later. */
  ghost predicate Ascending(hs: seq<Hunk>) {
    forall i :: 0 <= i < |hs| ==> LastB(hs[..i]) <= hs[i].startB && hs[i].EndB() <= INT_MAX
  }

  /** Between hunks both files advance together. */
  ghost predicate Consistent(hs: seq<Hunk>) {
    forall i :: 0 <= i < |hs| ==> hs[i].startA - hs[i].startB == LastA(hs[..i]) - LastB(hs[..i])
  }

  datatype Option<+T> = None | Some(value: T)

  /** The target's line for line p of the parent; None if p was changed or removed. */
  function TargetOf(hs: seq<Hunk>, p: int): Option<int> {
    if hs == [] then Some(p)
    else
      var h := hs[|hs| - 1];
      if p >= h.EndA() then Some(p - h.EndA() + h.EndB())
      else if p >= h.startA then None
      else TargetOf(hs[..|hs| - 1], p)
  }

  /** The parent's line for line t of the target; None if t was changed or added. */
  function ParentOf(hs: seq<Hunk>, t: int): Option<int> {
    if hs == [] then Some(t)
    else
      var h := hs[|hs| - 1];
      if t >= h.EndB() then Some(t - h.EndB() + h.EndA())
      else if t >= h.startB then None
      else ParentOf(hs[..|hs| - 1], t)
  }

  lemma PrefixWellFormed(hs: seq<Hunk>)
    requires hs != []
    ensures Ascending(hs) ==> Ascending(hs[..|hs| - 1])
    ensures Consistent(hs) ==> Consistent(hs[..|hs| - 1])
  {
    var n := |hs| - 1;
    assert forall i :: 0 <= i < n ==> hs[..n][..i] == hs[..i] && hs[..n][i] == hs[i];
  }

  /** The two line maps are inverse to each other: unchanged lines pair up one to one. */
  lemma {:induction false} LinesPairUp(hs: seq<Hunk>, p: int, t: int)
    requires Ascending(hs) && Consistent(hs)
    ensures TargetOf(hs, p) == Some(t) <==> ParentOf(hs, t) == Some(p)
    ensures TargetOf(hs, p) == Some(t) ==> (p < LastA(hs) <==> t < LastB(hs))
  {
    if hs != [] {
      var h := hs[|hs| - 1];
      PrefixWellFormed(hs);
      LinesPairUp(hs[..|hs| - 1], p, t);
      assert LastB(hs[..|hs| - 1]) <= h.startB;
      assert h.startA - h.startB == LastA(hs[..|hs| - 1]) - LastB(hs[..|hs| - 1]);
      PastTheLast(hs[..|hs| - 1], p, t);
    }
  }

  lemma PastTheLast(hs: seq<Hunk>, p: int, t: int)
    ensures p >= LastA(hs) ==> TargetOf(hs, p) == Some(p - LastA(hs) + LastB(hs))
    ensures t >= LastB(hs) ==> ParentOf(hs, t) == Some(t - LastB(hs) + LastA(hs))
  {
  }

  // ---- the pass ----

  /** The lines of src that were unchanged, under the parent's numbers. */
  function FromTarget(src: seq<Entry>, hs: seq<Hunk>, x: Line): nat {
    match TargetOf(hs, x.sLno)
    case Some(t) => Count(src, x.(sLno := t))
    case None => 0
  }

  ghost predicate KeptAs(src: seq<Entry>, hs: seq<Hunk>, kept: seq<Entry>) {
    forall x :: Count(kept, x) == if x.sLno < LastB(hs) && ParentOf(hs, x.sLno).None? then Count(src, x) else 0
  }

  ghost predicate PassedAs(src: seq<Entry>, hs: seq<Hunk>, dst: seq<Entry>) {
    forall x :: Count(dst, x) == if x.sLno < LastA(hs) then FromTarget(src, hs, x) else 0
  }

  /** Where the lines of src are once the hunks hs have been walked. */
  ghost predicate Placed(src: seq<Entry>, hs: seq<Hunk>, dst: seq<Entry>, kept: seq<Entry>, pending: seq<Entry>) {
    HoldsFrom(src, pending, LastB(hs)) && KeptAs(src, hs, kept) && PassedAs(src, hs, dst)
  }

  ghost predicate InOrder(hs: seq<Hunk>, dst: seq<Entry>, kept: seq<Entry>, pending: seq<Entry>) {
    && Queue(dst, 0, LastA(hs), LastA(hs), Parent)
    && Queue(kept, 0, LastB(hs), LastB(hs), Target)
    && Queue(pending, LastB(hs), TOP, INT_MAX, Target)
  }

  lemma PassedStepAt(src: seq<Entry>, hs: seq<Hunk>, h: Hunk, dst: seq<Entry>, pending: seq<Entry>,
                     passed: seq<Entry>, off: int, x: Line)
    requires h.startA - h.startB == off == LastA(hs) - LastB(hs) && LastB(hs) <= h.startB
    requires Count(dst, x) == if x.sLno < LastA(hs) then FromTarget(src, hs, x) else 0
    requires Count(passed, x) == if x.sLno - off < h.startB then Count(pending, Back(x, off)) else 0
    requires Count(pending, Back(x, off)) == if x.sLno - off >= LastB(hs) then Count(src, Back(x, off)) else 0
    ensures Count(dst + passed, x) == if x.sLno < h.EndA() then FromTarget(src, hs + [h], x) else 0
  {
    CountConcat(dst, passed, x);
    assert (hs + [h])[..|hs|] == hs;
    PastTheLast(hs, x.sLno, 0);
  }

  lemma PassedStep(src: seq<Entry>, hs: seq<Hunk>, h: Hunk, dst: seq<Entry>, pending: seq<Entry>, passed: seq<Entry>,
                   off: int)
    requires HoldsFrom(src, pending, LastB(hs)) && PassedAs(src, hs, dst) && HoldsBelow(pending, passed, h.startB, off)
    requires h.startA - h.startB == off == LastA(hs) - LastB(hs) && LastB(hs) <= h.startB
    ensures PassedAs(src, hs + [h], dst + passed)
  {
    forall x
      ensures Count(dst + passed, x) == if x.sLno < h.EndA() then FromTarget(src, hs + [h], x) else 0
    {
      PassedStepAt(src, hs, h, dst, pending, passed, off, x);
    }
  }

  lemma KeptStepAt(src: seq<Entry>, hs: seq<Hunk>, h: Hunk, kept: seq<Entry>, pending: seq<Entry>, stayed: seq<Entry>,
                   x: Line)
    requires LastB(hs) <= h.startB
    requires Count(pending, x) == if x.sLno >= LastB(hs) then Count(src, x) else 0
    requires Count(kept, x) == if x.sLno < LastB(hs) && ParentOf(hs, x.sLno).None? then Count(src, x) else 0
    requires Count(stayed, x) == if h.startB <= x.sLno < h.EndB() then Count(pending, x) else 0
    ensures Count(kept + stayed, x) == if x.sLno < h.EndB() && ParentOf(hs + [h], x.sLno).None? then Count(src, x)
      else 0
  {
    CountConcat(kept, stayed, x);
    assert (hs + [h])[..|hs|] == hs;
    PastTheLast(hs, 0, x.sLno);
  }

  lemma KeptStep(src: seq<Entry>, hs: seq<Hunk>, h: Hunk, kept: seq<Entry>, pending: seq<Entry>, stayed: seq<Entry>)
    requires HoldsFrom(src, pending, LastB(hs)) && KeptAs(src, hs, kept) && LastB(hs) <= h.startB
    requires HoldsBetween(pending, stayed, h.startB, h.EndB())
    ensures KeptAs(src, hs + [h], kept + stayed)
  {
    forall x
      ensures Count(kept + stayed, x) == if x.sLno < h.EndB() && ParentOf(hs + [h], x.sLno).None? then Count(src, x)
        else 0
    {
      KeptStepAt(src, hs, h, kept, pending, stayed, x);
    }
  }

  lemma FromTwice(es: seq<Entry>, es': seq<Entry>, es'': seq<Entry>, t: int, t': int)
    requires HoldsFrom(es, es', t) && HoldsFrom(es', es'', t') && t <= t'
    ensures HoldsFrom(es, es'', t')
  {
  }

  lemma PassedEndAt(src: seq<Entry>, hs: seq<Hunk>, dst: seq<Entry>, pending: seq<Entry>, passed: seq<Entry>,
                    off: int, x: Line)
    requires off == LastA(hs) - LastB(hs) && EndsBy(src, INT_MAX)
    requires Count(dst, x) == if x.sLno < LastA(hs) then FromTarget(src, hs, x) else 0
    requires Count(passed, x) == if x.sLno - off < INT_MAX then Count(pending, Back(x, off)) else 0
    requires Count(pending, Back(x, off)) == if x.sLno - off >= LastB(hs) then Count(src, Back(x, off)) else 0
    ensures Count(dst + passed, x) == FromTarget(src, hs, x)
  {
    CountConcat(dst, passed, x);
    PastTheLast(hs, x.sLno, 0);
    NoneBeyond(src, INT_MAX, Back(x, off));
  }

  /** Of a line: how often it is in the source, kept, and pending before and after. */
  lemma KeptEndAt(src: seq<Entry>, hs: seq<Hunk>, x: Line, inSrc: nat, kept: nat, pending: nat, pending': nat)
    requires EndsBy(src, INT_MAX) && inSrc == Count(src, x)
    requires kept == if x.sLno < LastB(hs) && ParentOf(hs, x.sLno).None? then inSrc else 0
    requires pending == if x.sLno >= LastB(hs) then inSrc else 0
    requires pending' == if x.sLno >= INT_MAX then pending else 0
    ensures kept + pending' == if ParentOf(hs, x.sLno).None? then inSrc else 0
  {
    PastTheLast(hs, 0, x.sLno);
    NoneBeyond(src, INT_MAX, x);
  }

  lemma CountThree(a: seq<Entry>, b: seq<Entry>, c: seq<Entry>, x: Line)
    ensures Count(a + b + c, x) == Count(a, x) + Count(b, x) + Count(c, x)
  {
    CountConcat(a + b, c, x);
    CountConcat(a, b, x);
  }

  /** With no hunk left, all that is pending goes to the parent. */
  lemma PlacedEnd(src: seq<Entry>, hs: seq<Hunk>, dst: seq<Entry>, kept: seq<Entry>, pending: seq<Entry>,
                  passed: seq<Entry>, stayed: seq<Entry>, pending': seq<Entry>, off: int)
    requires Placed(src, hs, dst, kept, pending) && EndsBy(src, INT_MAX) && off == LastA(hs) - LastB(hs)
    requires HoldsBelow(pending, passed, INT_MAX, off)
    requires HoldsBetween(pending, stayed, INT_MAX, INT_MAX) && HoldsFrom(pending, pending', INT_MAX)
    ensures forall x :: Count(dst + passed, x) == FromTarget(src, hs, x)
    ensures forall x :: Count(kept + stayed + pending', x) == if ParentOf(hs, x.sLno).None? then Count(src, x) else 0
  {
    forall x
      ensures Count(dst + passed, x) == FromTarget(src, hs, x)
    {
      PassedEndAt(src, hs, dst, pending, passed, off, x);
    }
    forall x
      ensures Count(kept + stayed + pending', x) == if ParentOf(hs, x.sLno).None? then Count(src, x) else 0
    {
      KeptEndAt(src, hs, x, Count(src, x), Count(kept, x), Count(pending, x), Count(pending', x));
      CountThree(kept, stayed, pending', x);
    }
  }

  lemma {:induction false} NoneBeyond(es: seq<Entry>, end: int, x: Line)
    requires EndsBy(es, end)
    ensures x.sLno >= end ==> Count(es, x) == 0
  {
    if es != [] {
      NoneBeyond(es[..|es| - 1], end, x);
    }
  }

  lemma DoneInOrder(hs: seq<Hunk>, dst: seq<Entry>, kept: seq<Entry>, pending: seq<Entry>, passed: seq<Entry>,
                    stayed: seq<Entry>, pending': seq<Entry>, off: int)
    requires InOrder(hs, dst, kept, pending) && off == LastA(hs) - LastB(hs) && 0 <= LastA(hs)
      && 0 <= LastB(hs) <= INT_MAX
    requires Queue(passed, LastB(hs) + off, INT_MAX + off, INT_MAX + off, Parent)
    requires Queue(stayed, INT_MAX, INT_MAX, INT_MAX, Target) && Queue(pending', INT_MAX, TOP, INT_MAX, Target)
    ensures Sorted(dst + passed) && Blames(dst + passed, Parent)
    ensures Sorted(kept + stayed + pending') && Blames(kept + stayed + pending', Target)
  {
    QueueConcat(dst, passed, 0, LastA(hs), LastA(hs), INT_MAX + off, LastA(hs), INT_MAX + off, Parent);
    QueueConcat(kept, stayed, 0, LastB(hs), INT_MAX, INT_MAX, LastB(hs), INT_MAX, Target);
    QueueConcat(kept + stayed, pending', 0, INT_MAX, INT_MAX, TOP, INT_MAX, INT_MAX, Target);
  }

  ghost predicate ConsistentUpTo(hs: seq<Hunk>, n: nat)
    requires n <= |hs|
  {
    forall i :: 0 <= i < n ==> hs[i].startA - hs[i].startB == LastA(hs[..i]) - LastB(hs[..i])
  }

  lemma StartPlaced(src: seq<Entry>)
    requires StartsIn(src, 0, TOP)
    ensures Placed(src, [], [], [], src)
  {
    forall x
      ensures Count(src, x) == if x.sLno >= 0 then Count(src, x) else 0
    {
      if x.sLno < 0 {
        NoneBelow(src, 0, x);
      }
    }
    forall x: Line
      ensures x.sLno < 0 ==> FromTarget(src, [], x) == 0
    {
      if x.sLno < 0 {
        assert x.(sLno := x.sLno) == x;
        NoneBelow(src, 0, x);
      }
    }
  }

  // ---- what a pass means ----

  /** What PassBlameToParent promises of its two lists. */
  ghost predicate PassedAlong(suspects: seq<Entry>, hs: seq<Hunk>, toParent: seq<Entry>, remaining: seq<Entry>) {
    && (forall x :: Count(toParent, x) == FromTarget(suspects, hs, x))
    && (forall x :: Count(remaining, x) == if ParentOf(hs, x.sLno).None? then Count(suspects, x) else 0)
  }

  /** Each attributed line is found again, as often as before, in one of the lists and not in the other. */
  lemma Conserved(suspects: seq<Entry>, hs: seq<Hunk>, toParent: seq<Entry>, remaining: seq<Entry>, x: Line)
    requires Ascending(hs) && Consistent(hs) && PassedAlong(suspects, hs, toParent, remaining)
    ensures match ParentOf(hs, x.sLno)
      case Some(p) => Count(toParent, x.(sLno := p)) == Count(suspects, x) && Count(remaining, x) == 0
      case None => Count(remaining, x) == Count(suspects, x) && forall p :: TargetOf(hs, p) != Some(x.sLno)
  {
    match ParentOf(hs, x.sLno)
    case Some(p) =>
      LinesPairUp(hs, p, x.sLno);
      assert x.(sLno := p).(sLno := x.sLno) == x;
    case None =>
      forall p
        ensures TargetOf(hs, p) != Some(x.sLno)
      {
        LinesPairUp(hs, p, x.sLno);
      }
  }

  /** The text of every attributed line is the text of the suspect's line. */
  ghost predicate Faithful<T(!new)>(es: seq<Entry>, final: seq<T>, file: seq<T>) {
    forall x :: Count(es, x) > 0 ==> 0 <= x.lno < |final| && 0 <= x.sLno < |file| && final[x.lno] == file[x.sLno]
  }

  /** Outside the hunks the two files have the same lines. */
  ghost predicate Diff<T(!new)>(hs: seq<Hunk>, parent: seq<T>, target: seq<T>) {
    forall t :: 0 <= t < |target| && ParentOf(hs, t).Some? ==>
      0 <= ParentOf(hs, t).value < |parent| && parent[ParentOf(hs, t).value] == target[t]
  }

  lemma TextPreserved<T(!new)>(suspects: seq<Entry>, hs: seq<Hunk>, toParent: seq<Entry>, remaining: seq<Entry>,
                               final: seq<T>, parent: seq<T>, target: seq<T>)
    requires Ascending(hs) && Consistent(hs) && PassedAlong(suspects, hs, toParent, remaining)
    requires Diff(hs, parent, target) && Faithful(suspects, final, target)
    ensures Faithful(toParent, final, parent) && Faithful(remaining, final, target)
  {
    forall x | Count(toParent, x) > 0
      ensures 0 <= x.lno < |final| && 0 <= x.sLno < |parent| && final[x.lno] == parent[x.sLno]
    {
      assert TargetOf(hs, x.sLno).Some?;
      var t := TargetOf(hs, x.sLno).value;
      LinesPairUp(hs, x.sLno, t);
      assert Count(suspects, x.(sLno := t)) > 0;
    }
  }
}
