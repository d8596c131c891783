/**
 Splitting a hunk at its context lines, and merging the pieces again (git/add-patch.c).
 The diff is kept as the markers of its lines; offsets into it count lines. An empty context line may come
 without its space (diff.suppressBlankEmpty): then its marker is the newline, and splitting does not know it.
 */
module SplitHunk {

  datatype Use = Undecided | Skip | UseIt

  datatype Hunk = Hunk(start: nat, end: nat, oldOffset: nat, oldCount: nat, newOffset: nat, newCount: nat,
                       splittable: nat, delta: int, use: Use)

  predicate IsChange(c: char) { c == '-' || c == '+' }

  predicate IsContext(c: char) { c == ' ' || c == '\n' }

  // ---- counting ----

  /** Number of lines from a to b that are on a side: old ones with '-', new ones with '+'. */
  function Lines(plain: string, a: nat, b: nat, side: char): nat
    requires a <= b <= |plain|
  {
    if a == b then 0 else Lines(plain, a, b - 1, side) + if IsContext(plain[b - 1]) || plain[b - 1] == side then 1
      else 0
  }

  lemma {:induction false} LinesSplit(plain: string, a: nat, b: nat, c: nat, side: char)
    requires a <= b <= c <= |plain|
    ensures Lines(plain, a, c, side) == Lines(plain, a, b, side) + Lines(plain, b, c, side)
    decreases c
  {
    if b < c {
      LinesSplit(plain, a, b, c - 1, side);
    }
  }

  ghost predicate AllContext(plain: string, a: nat, b: nat)
    requires a <= b <= |plain|
  {
    forall i :: a <= i < b ==> plain[i] == ' '
  }

  lemma {:induction false} LinesContext(plain: string, a: nat, b: nat, side: char)
    requires a <= b <= |plain| && AllContext(plain, a, b)
    ensures Lines(plain, a, b, side) == b - a
  {
    if a < b {
      LinesContext(plain, a, b - 1, side);
    }
  }

  /** Number of stretches of changes that begin from a to b, given the marker before a. Comment lines do not count. */
  function Runs(plain: string, a: nat, b: nat, marker: char): nat
    requires a <= b <= |plain|
    decreases b - a
  {
    if a == b then 0
    else if plain[a] == '\\' then Runs(plain, a + 1, b, marker)
    else (if IsChange(plain[a]) && !IsChange(marker) then 1 else 0) + Runs(plain, a + 1, b, plain[a])
  }

  /** Number of stretches, one that goes on at a included, that a context line with its space ends, or b. */
  function Ends(plain: string, a: nat, b: nat, marker: char): nat
    requires a <= b <= |plain|
    decreases b - a
  {
    if a == b then if IsChange(marker) then 1 else 0
    else if plain[a] == '\\' then Ends(plain, a + 1, b, marker)
    else (if IsChange(marker) && plain[a] == ' ' then 1 else 0) + Ends(plain, a + 1, b, plain[a])
  }

  /** Number of those that an empty line without its space ends. */
  function BlankEnds(plain: string, a: nat, b: nat, marker: char): nat
    requires a <= b <= |plain|
    decreases b - a
  {
    if a == b then 0
    else if plain[a] == '\\' then BlankEnds(plain, a + 1, b, marker)
    else (if IsChange(marker) && plain[a] == '\n' then 1 else 0) + BlankEnds(plain, a + 1, b, plain[a])
  }

  ghost predicate Markers(plain: string, a: nat, b: nat)
    requires a <= b <= |plain|
  {
    forall i :: a <= i < b ==> IsContext(plain[i]) || IsChange(plain[i]) || plain[i] == '\\'
  }

  /** Every stretch ends somewhere. */
  lemma {:induction false} RunsEnd(plain: string, a: nat, b: nat, marker: char)
    requires a <= b <= |plain| && Markers(plain, a, b)
    ensures Runs(plain, a, b, marker) + (if IsChange(marker) then 1 else 0) == Ends(plain, a, b, marker) +
      BlankEnds(plain, a, b, marker)
    decreases b - a
  {
    if a < b {
      RunsEnd(plain, a + 1, b, if plain[a] == '\\' then marker else plain[a]);
    }
  }

  /**
     Counting, while a diff is read, where a stretch of changes ends. It finds all of them exactly if none ends in an
     empty line without its space.
   */
  method CountSplittable(plain: string, start: nat, end: nat) returns (n: nat)
    requires start <= end <= |plain|
    ensures n == Ends(plain, start, end, '@')
    ensures Markers(plain, start, end) ==>
      (n == Runs(plain, start, end, '@') <==> BlankEnds(plain, start, end, '@') == 0)
  {
    n := 0;
    var marker := '@';
    var p := start;
    while p < end
      invariant start <= p <= end
      invariant n + Ends(plain, p, end, marker) == Ends(plain, start, end, '@')
    {
      if IsChange(marker) && plain[p] == ' ' {
        n := n + 1;
      }
      if plain[p] != '\\' {
        marker := plain[p];
      }
      p := p + 1;
    }
    if IsChange(marker) {
      n := n + 1;
    }
    if Markers(plain, start, end) {
      RunsEnd(plain, start, end, '@');
    }
  }

  // ---- pieces ----

  /** The header agrees with the text: its counts, and that a comment line comes only with or after the last changes. */
  ghost predicate WellFormed(plain: string, h: Hunk) {
    && h.start <= h.end <= |plain| && Markers(plain, h.start, h.end)
    && h.oldCount == Lines(plain, h.start, h.end, '-') && h.newCount == Lines(plain, h.start, h.end, '+')
    && h.splittable == Ends(plain, h.start, h.end, ' ')
    && (forall i ::
        h.start <= i < h.end && plain[i] == '\\' ==> Runs(plain, i, h.end, MarkerBefore(plain, h.start, i)) == 0)
  }

  function MarkerBefore(plain: string, start: nat, i: nat): char
    requires start <= i <= |plain|
  {
    if i == start then ' ' else if plain[i - 1] == '\\' then MarkerBefore(plain, start, i - 1) else plain[i - 1]
  }

  ghost predicate NoBlank(plain: string, a: nat, b: nat)
    requires a <= b <= |plain|
  {
    forall i :: a <= i < b ==> plain[i] != '\n'
  }

  lemma {:induction false} NoBlankEnds(plain: string, a: nat, b: nat, marker: char)
    requires a <= b <= |plain| && NoBlank(plain, a, b)
    ensures BlankEnds(plain, a, b, marker) == 0
    decreases b - a
  {
    if a < b {
      NoBlankEnds(plain, a + 1, b, if plain[a] == '\\' then marker else plain[a]);
    }
  }

  /** A piece without empty lines that lack their space has exactly one stretch of changes. */
  lemma OneStretch(plain: string, h: Hunk, p: Hunk)
    requires h.start <= h.end <= |plain| && Markers(plain, h.start, h.end) && Piece(plain, h, p)
      && NoBlank(plain, p.start, p.end)
    ensures Runs(plain, p.start, p.end, ' ') == 1
  {
    RunsEnd(plain, p.start, p.end, ' ');
    NoBlankEnds(plain, p.start, p.end, ' ');
  }

  /** p is a part of h with one stretch of changes, its offsets and counts those of its text. */
  ghost predicate Piece(plain: string, h: Hunk, p: Hunk)
    requires h.start <= h.end <= |plain|
  {
    && h.start <= p.start < p.end <= h.end && Ends(plain, p.start, p.end, ' ') == 1 && p.splittable == 1
    && p.use == h.use
    && p.delta == (if p.start == h.start then h.delta else 0)
    && p.oldOffset == h.oldOffset + Lines(plain, h.start, p.start, '-')
    && p.oldCount == Lines(plain, p.start, p.end, '-')
    && p.newOffset == h.newOffset + Lines(plain, h.start, p.start, '+')
    && p.newCount == Lines(plain, p.start, p.end, '+')
  }

  /** From b to e there is exactly the context between two stretches of changes. */
  ghost predicate Gap(plain: string, b: nat, e: nat) {
    0 < b < e < |plain| && AllContext(plain, b, e) && IsChange(plain[b - 1]) && IsChange(plain[e])
  }

  ghost predicate Follows(plain: string, p: Hunk, q: Hunk) { p.start < q.start && Gap(plain, q.start, p.end) }

  /** The pieces follow each other, neighbours sharing the context between their changes. */
  ghost predicate Pieces(plain: string, h: Hunk, ps: seq<Hunk>)
    requires h.start <= h.end <= |plain|
  {
    && |ps| >= 1 && ps[0].start == h.start && ps[|ps| - 1].end == h.end
    && (forall k :: 0 <= k < |ps| ==> Piece(plain, h, ps[k]))
    && (forall k :: 0 <= k < |ps| - 1 ==> Follows(plain, ps[k], ps[k + 1]))
    && (forall k :: 0 <= k < |ps| - 1 ==> NoBlank(plain, ps[k].start, ps[k].end))
  }

  // the scan: the piece at hand (its start and the counts of its lines so far), the line looked at, and where a next
  // piece would start
  datatype Scan = Scan(start: nat, oldCount: nat, newCount: nat, current: nat, marker: char, first: bool,
                       context: nat, next: nat, left: nat)

  ghost predicate Counted(plain: string, start: nat, upto: nat, oldCount: nat, newCount: nat)
    requires start <= upto <= |plain|
  {
    oldCount == Lines(plain, start, upto, '-') && newCount == Lines(plain, start, upto, '+')
  }

  ghost predicate AllChange(plain: string, a: nat, b: nat)
    requires a <= b <= |plain|
  {
    forall i :: a <= i < b ==> IsChange(plain[i])
  }

  /** In the context a hunk begins with. */
  ghost predicate Leading(plain: string, h: Hunk, c: Scan)
    requires c.start <= c.current <= h.end <= |plain|
  {
    && c.first && c.start == h.start && AllContext(plain, c.start, c.current) && c.context == c.current - c.start
    && c.oldCount == c.newCount == 0
    && c.marker == (if c.current == c.start then '\0' else ' ') && c.left == Ends(plain, c.current, h.end, ' ')
  }

  /** Within changes, which begin at u, or about to take the first of them. */
  ghost predicate Changing(plain: string, h: Hunk, c: Scan, u: nat)
    requires c.start <= c.current <= h.end <= |plain|
  {
    && IsChange(c.marker) && c.context == 0 && Counted(plain, c.start, c.current, c.oldCount, c.newCount)
    && c.start <= u <= c.current && AllContext(plain, c.start, u) && AllChange(plain, u, c.current)
    && (u == c.current ==> c.start < u < h.end && plain[u] == c.marker)
    && c.left == Ends(plain, c.current, h.end, c.marker)
  }

  /** In the context behind changes, which go from u to where a next piece would start. */
  ghost predicate Behind(plain: string, h: Hunk, c: Scan, u: nat)
    requires c.start <= c.current <= h.end <= |plain|
  {
    && !c.first && c.marker == ' ' && c.start <= u < c.next < c.current && AllContext(plain, c.start, u)
    && AllChange(plain, u, c.next)
    && AllContext(plain, c.next, c.current) && c.context == c.current - c.next
    && Counted(plain, c.start, c.next, c.oldCount, c.newCount)
    && c.left == 1 + Ends(plain, c.current, h.end, ' ')
  }

  ghost predicate Scanning(plain: string, h: Hunk, c: Scan, u: nat) {
    && h.start <= c.start <= c.current <= h.end <= |plain| && (c.first ==> c.start == h.start)
    && (Leading(plain, h, c) || Changing(plain, h, c, u) || Behind(plain, h, c, u))
  }

  /** As long as more than one stretch is left, a line is there, and it is no comment. */
  lemma LineThere(plain: string, h: Hunk, c: Scan, u: nat)
    requires WellFormed(plain, h) && Scanning(plain, h, c, u) && c.left > 1
    ensures c.current < h.end && plain[c.current] != '\\'
  {
    RunsLike(plain, c.current, h.end, c.marker, MarkerBefore(plain, h.start, c.current));
    EndsLike(plain, c.current, h.end, c.marker, ' ');
    RunsEnd(plain, c.current, h.end, c.marker);
  }

  /** Of the marker before, only matters whether it is a change. */
  lemma {:induction false} RunsLike(plain: string, a: nat, b: nat, marker: char, marker': char)
    requires a <= b <= |plain|
    ensures IsChange(marker) == IsChange(marker') ==> Runs(plain, a, b, marker) == Runs(plain, a, b, marker')
    decreases b - a
  {
    if a < b && plain[a] == '\\' {
      RunsLike(plain, a + 1, b, marker, marker');
    }
  }

  lemma {:induction false} EndsLike(plain: string, a: nat, b: nat, marker: char, marker': char)
    requires a <= b <= |plain|
    ensures IsChange(marker) == IsChange(marker') ==> Ends(plain, a, b, marker) == Ends(plain, a, b, marker')
    decreases b - a
  {
    if a < b && plain[a] == '\\' {
      EndsLike(plain, a + 1, b, marker, marker');
    }
  }

  // ---- one line at a time ----

  /** A line of the piece at hand. */
  function TakeLine(plain: string, c: Scan): Scan
    requires c.current < |plain|
  {
    var ch := plain[c.current];
    var d := if ch == ' ' then c.(context := c.context + 1) else if ch == '-' then c.(oldCount := c.oldCount + 1)
      else c.(newCount := c.newCount + 1);
    d.(marker := ch, current := c.current + 1)
  }

  /** The first context line behind changes: a next piece would start here. */
  function NoteNext(c: Scan): Scan { c.(first := false, next := c.current, context := 0) }

  lemma TakeKeeps(plain: string, h: Hunk, c: Scan, u: nat)
    requires WellFormed(plain, h) && Scanning(plain, h, c, u) && c.left > 1
    requires c.current < h.end && plain[c.current] != '\n' && (c.marker != ' ' || plain[c.current] == ' ')
    ensures var d := if IsChange(c.marker) && plain[c.current] == ' ' then NoteNext(c) else c;
      var u' := if Leading(plain, h, c) then c.current else u;
      Scanning(plain, h, TakeLine(plain, d), u') && d.left == c.left
  {
    LineThere(plain, h, c, u);
    assert Lines(plain, c.start, c.current + 1, '-') == Lines(plain, c.start, c.current, '-') +
      if plain[c.current] != '+' then 1 else 0;
    assert Lines(plain, c.start, c.current + 1, '+') == Lines(plain, c.start, c.current, '+') +
      if plain[c.current] != '-' then 1 else 0;
    EndsLike(plain, c.current, h.end, c.marker, ' ');
  }

  /** The first change behind the context a hunk begins with. */
  lemma FirstKeeps(plain: string, h: Hunk, c: Scan, u: nat)
    requires WellFormed(plain, h) && Scanning(plain, h, c, u) && c.left > 1 && c.current < h.end
    requires c.marker == ' ' && IsChange(plain[c.current]) && c.first
    ensures c.oldCount == 0 && c.newCount == 0
    ensures Scanning(plain, h, TakeLine(plain,
                                        c.(oldCount := c.context, newCount := c.context, context := 0,
                                           first := false)), c.current)
  {
    LinesContext(plain, c.start, c.current, '-');
    LinesContext(plain, c.start, c.current, '+');
  }

  /** The piece that ends before the current line. */
  function Finished(h: Hunk, c: Scan, oldOffset: nat, newOffset: nat): Hunk {
    Hunk(c.start, c.current, oldOffset, c.oldCount + c.context, newOffset, c.newCount + c.context, 1,
         if c.start == h.start then h.delta else 0, h.use)
  }

  /** A change behind context behind changes: a piece is complete, and the next one shares the context. */
  lemma SplitKeeps(plain: string, h: Hunk, c: Scan, u: nat, oldOffset: nat, newOffset: nat)
    requires WellFormed(plain, h) && Scanning(plain, h, c, u) && c.left > 1 && c.current < h.end
    requires c.marker == ' ' && IsChange(plain[c.current]) && !c.first
    requires oldOffset == h.oldOffset + Lines(plain, h.start, c.start, '-')
      && newOffset == h.newOffset + Lines(plain, h.start, c.start, '+')
    ensures Piece(plain, h, Finished(h, c, oldOffset, newOffset)) && Gap(plain, c.next, c.current) && c.start < c.next
    ensures Scanning(plain, h, Scan(c.next, c.context, c.context, c.current, plain[c.current], false, 0, c.next,
                                    c.left - 1), c.current)
    ensures oldOffset + c.oldCount == h.oldOffset + Lines(plain, h.start, c.next, '-')
      && newOffset + c.newCount == h.newOffset + Lines(plain, h.start, c.next, '+')
  {
    LinesContext(plain, c.next, c.current, '-');
    LinesContext(plain, c.next, c.current, '+');
    LinesSplit(plain, c.start, c.next, c.current, '-');
    LinesSplit(plain, c.start, c.next, c.current, '+');
    LinesSplit(plain, h.start, c.start, c.next, '-');
    LinesSplit(plain, h.start, c.start, c.next, '+');
    OneRun(plain, c.start, u, c.next, c.current);
  }

  /** Context, changes, context: one stretch. */
  lemma OneRun(plain: string, a: nat, b: nat, c: nat, d: nat)
    requires a <= b < c < d <= |plain| && AllContext(plain, a, b) && AllChange(plain, b, c) && AllContext(plain, c, d)
    ensures Ends(plain, a, d, ' ') == 1
  {
    EndsContext(plain, c, d, d, plain[c - 1]);
    EndsChange(plain, b + 1, c, d, plain[b]);
    EndsContext(plain, a, b, d, ' ');
  }

  /** Context lines end at most the stretch before them. */
  lemma {:induction false} EndsContext(plain: string, a: nat, b: nat, c: nat, marker: char)
    requires a <= b <= c <= |plain| && AllContext(plain, a, b)
    ensures Ends(plain, a, c, marker) == if a == b then Ends(plain, b, c, marker)
      else (if IsChange(marker) then 1 else 0) + Ends(plain, b, c, ' ')
    decreases b - a
  {
    if a < b {
      EndsContext(plain, a + 1, b, c, ' ');
    }
  }

  lemma {:induction false} EndsChange(plain: string, a: nat, b: nat, c: nat, marker: char)
    requires a <= b <= c <= |plain| && AllChange(plain, a, b) && IsChange(marker)
    ensures Ends(plain, a, c, marker) == Ends(plain, b, c, if a == b then marker else plain[b - 1])
    decreases b - a
  {
    if a < b {
      EndsChange(plain, a + 1, b, c, plain[a]);
    }
  }

  /** The pieces complete so far, up to where the piece at hand starts. */
  ghost predicate Done(plain: string, h: Hunk, ps: seq<Hunk>, c: Scan)
    requires h.start <= h.end <= |plain|
  {
    && (forall k :: 0 <= k < |ps| ==> Piece(plain, h, ps[k]))
    && (forall k :: 0 <= k < |ps| - 1 ==> Follows(plain, ps[k], ps[k + 1]))
    && (forall k :: 0 <= k < |ps| ==> NoBlank(plain, ps[k].start, ps[k].end))
    && (if ps == [] then c.start == h.start
        else ps[0].start == h.start && ps[|ps| - 1].start < c.start && Gap(plain, c.start, ps[|ps| - 1].end))
    && (c.left == 1 ==> ps != [] && ps[|ps| - 1].end == c.current)
  }

  lemma LastPiece(plain: string, h: Hunk, ps: seq<Hunk>, c: Scan, u: nat, last: Hunk)
    requires WellFormed(plain, h) && Scanning(plain, h, c, u) && Done(plain, h, ps, c) && c.left == 1
    requires last.start == c.start && last.end == h.end && last.splittable == 1 && last.use == h.use && last.delta == 0
    requires last.oldOffset == h.oldOffset + Lines(plain, h.start, c.start, '-')
      && last.newOffset == h.newOffset + Lines(plain, h.start, c.start, '+')
    requires last.oldCount == h.oldCount - Lines(plain, h.start, c.start, '-')
      && last.newCount == h.newCount - Lines(plain, h.start, c.start, '+')
    ensures Pieces(plain, h, ps + [last])
  {
    LinesSplit(plain, h.start, c.start, h.end, '-');
    LinesSplit(plain, h.start, c.start, h.end, '+');
    assert c.current < h.end;
    EndsContext(plain, c.start, c.current, h.end, ' ');
    EndsLike(plain, c.current, h.end, c.marker, plain[c.current]);
    assert Piece(plain, h, last);
    LastFollows(plain, h, ps, c, last);
  }

  lemma LastFollows(plain: string, h: Hunk, ps: seq<Hunk>, c: Scan, last: Hunk)
    requires h.start <= h.end <= |plain| && Done(plain, h, ps, c) && ps != [] && Piece(plain, h, last)
      && last.start == c.start && last.end == h.end
    ensures Pieces(plain, h, ps + [last])
  {
    var all := ps + [last];
    assert forall k :: 0 <= k < |ps| ==> all[k] == ps[k];
    forall k | 0 <= k < |all| - 1
      ensures Follows(plain, all[k], all[k + 1])
    {
      assert k < |ps| - 1 ==> Follows(plain, ps[k], ps[k + 1]);
    }
  }

  /** The offsets of the piece at hand, and what the pieces before it leave of the hunk. */
  ghost predicate Offsets(plain: string, h: Hunk, start: nat, oldOffset: nat, newOffset: nat, remaining: Hunk)
    requires h.start <= start <= |plain|
  {
    && oldOffset == h.oldOffset + Lines(plain, h.start, start, '-') == remaining.oldOffset
    && newOffset == h.newOffset + Lines(plain, h.start, start, '+') == remaining.newOffset
    && remaining.oldCount == h.oldCount - Lines(plain, h.start, start, '-')
    && remaining.newCount == h.newCount - Lines(plain, h.start, start, '+')
  }

  lemma DoneNext(plain: string, h: Hunk, ps: seq<Hunk>, c: Scan, c': Scan, piece: Hunk)
    requires h.start <= h.end <= |plain| && Done(plain, h, ps, c) && Piece(plain, h, piece) && piece.start == c.start
      && c.start < c'.start
    requires Gap(plain, c'.start, piece.end) && piece.end == c'.current && NoBlank(plain, piece.start, piece.end)
    ensures Done(plain, h, ps + [piece], c')
  {
    var more := ps + [piece];
    assert forall k :: 0 <= k < |ps| ==> more[k] == ps[k];
    forall k | 0 <= k < |more| - 1
      ensures Follows(plain, more[k], more[k + 1])
    {
      assert k < |ps| - 1 ==> Follows(plain, ps[k], ps[k + 1]);
    }
  }

  lemma RemainingEnough(plain: string, h: Hunk, start: nat, next: nat)
    requires WellFormed(plain, h) && h.start <= start <= next <= h.end
    ensures Lines(plain, h.start, start, '-') + Lines(plain, start, next, '-') ==
      Lines(plain, h.start, next, '-') <= h.oldCount
    ensures Lines(plain, h.start, start, '+') + Lines(plain, start, next, '+') ==
      Lines(plain, h.start, next, '+') <= h.newCount
  {
    LinesSplit(plain, h.start, start, next, '-');
    LinesSplit(plain, h.start, start, next, '+');
    LinesSplit(plain, h.start, next, h.end, '-');
    LinesSplit(plain, h.start, next, h.end, '+');
  }

  /** Nothing but known markers so far, and with them begun stretches. */
  ghost predicate Passed(plain: string, start: nat, upto: nat, begun: nat) {
    && start <= upto <= |plain| && Runs(plain, start, upto, ' ') == begun
    && forall i :: start <= i < upto ==> plain[i] == ' ' || IsChange(plain[i])
  }

  /** One more line begins a stretch if it is a change and the one before it is not. */
  lemma {:induction false} RunsStep(plain: string, a: nat, b: nat, marker: char)
    requires a <= b < |plain| && forall i :: a <= i <= b ==> plain[i] == ' ' || IsChange(plain[i])
    ensures Runs(plain, a, b + 1, marker) == Runs(plain, a, b, marker)
      + if IsChange(plain[b]) && !IsChange(if a == b then marker else plain[b - 1]) then 1 else 0
    decreases b - a
  {
    if a < b {
      RunsStep(plain, a + 1, b, plain[a]);
    }
  }

  lemma {:induction false} RunsGrow(plain: string, a: nat, b: nat, c: nat, marker: char)
    requires a <= b <= c <= |plain|
    ensures Runs(plain, a, b, marker) <= Runs(plain, a, c, marker)
    decreases b - a
  {
    if a < b {
      RunsGrow(plain, a + 1, b, c, if plain[a] == '\\' then marker else plain[a]);
    }
  }

  /** Whether the stretch of the piece at hand has begun. */
  ghost function Begun(plain: string, h: Hunk, c: Scan, u: nat): nat
    requires Scanning(plain, h, c, u)
  {
    if Leading(plain, h, c) || u == c.current then 0 else 1
  }

  /** A line that belongs to the piece at hand. */
  method NextLine(plain: string, h: Hunk, c: Scan, ghost u: nat, ghost done: nat) returns (c': Scan, ghost u': nat)
    requires WellFormed(plain, h) && Scanning(plain, h, c, u) && c.left > 1 && c.current < h.end
      && plain[c.current] != '\n'
    requires c.marker != ' ' || !IsChange(plain[c.current]) || c.first
    requires Passed(plain, h.start, c.current, done + Begun(plain, h, c, u))
    ensures Scanning(plain, h, c', u') && c'.start == c.start && c'.left == c.left && c'.current == c.current + 1
    ensures Passed(plain, h.start, c'.current, done + Begun(plain, h, c', u'))
  {
    LineThere(plain, h, c, u);
    RunsStep(plain, h.start, c.current, ' ');
    var ch := plain[c.current];
    if c.marker != ' ' || !IsChange(ch) {
      TakeKeeps(plain, h, c, u);
      u' := if Leading(plain, h, c) then c.current else u;
      c' := TakeLine(plain, if IsChange(c.marker) && ch == ' ' then NoteNext(c) else c);
    } else {
      FirstKeeps(plain, h, c, u);
      if c.oldCount > 0 || c.newCount > 0 {
        assert false;
      }
      u' := c.current;
      c' := TakeLine(plain, c.(oldCount := c.context, newCount := c.context, context := 0, first := false));
    }
  }

  // the piece at hand and where it is, with the pieces before it and what they leave of the hunk
  datatype Progress = Progress(ps: seq<Hunk>, c: Scan, oldOffset: nat, newOffset: nat, remaining: Hunk)

  ghost predicate Going(plain: string, h: Hunk, g: Progress, u: nat) {
    && h.start <= h.end <= |plain| && Scanning(plain, h, g.c, u) && Done(plain, h, g.ps, g.c)
    && |g.ps| + g.c.left == h.splittable && g.c.left >= 1
    && Passed(plain, h.start, g.c.current, |g.ps| + Begun(plain, h, g.c, u))
    && Offsets(plain, h, g.c.start, g.oldOffset, g.newOffset, g.remaining)
  }

  /** A piece is complete: the next one starts with the context between. */
  method NextPiece(plain: string, h: Hunk, g: Progress, ghost u: nat) returns (g': Progress)
    requires WellFormed(plain, h) && Going(plain, h, g, u) && g.c.left > 1 && g.c.current < h.end
    requires g.c.marker == ' ' && IsChange(plain[g.c.current]) && !g.c.first
    ensures Going(plain, h, g', g.c.current) && g'.c.current == g.c.current && g'.c.left == g.c.left - 1
  {
    var c := g.c;
    SplitKeeps(plain, h, c, u, g.oldOffset, g.newOffset);
    RemainingEnough(plain, h, c.start, c.next);
    var piece := Finished(h, c, g.oldOffset, g.newOffset);
    var r := g.remaining;
    var remaining := r.(oldOffset := r.oldOffset + c.oldCount, oldCount := r.oldCount - c.oldCount,
                        newOffset := r.newOffset + c.newCount, newCount := r.newCount - c.newCount);
    var c' := Scan(c.next, c.context, c.context, c.current, plain[c.current], false, 0, c.next, c.left - 1);
    DoneNext(plain, h, g.ps, c, c', piece);
    g' := Progress(g.ps + [piece], c', g.oldOffset + c.oldCount, g.newOffset + c.newCount, remaining);
  }

  /** Where the first empty line without its space is, if any. */
  function FirstBlank(plain: string, a: nat, b: nat): (f: nat)
    requires a <= b <= |plain|
    ensures a <= f <= b && NoBlank(plain, a, f) && (f < b ==> plain[f] == '\n')
    decreases b - a
  {
    if a == b || plain[a] == '\n' then a else FirstBlank(plain, a + 1, b)
  }

  /** Too few stretches of changes begin before an empty line without its space: the scan comes to that line. */
  predicate BlankInTheWay(plain: string, h: Hunk)
    requires h.start <= h.end <= |plain|
  {
    var f := FirstBlank(plain, h.start, h.end);
    f < h.end && h.splittable >= 2 && Runs(plain, h.start, f, ' ') < h.splittable
  }

  lemma CameToBlank(plain: string, h: Hunk, g: Progress, u: nat)
    requires WellFormed(plain, h) && Going(plain, h, g, u) && g.c.left > 1 && g.c.current < h.end
      && plain[g.c.current] == '\n'
    ensures BlankInTheWay(plain, h)
  {
    var f := FirstBlank(plain, h.start, h.end);
    assert f == g.c.current;
  }

  lemma StoppedBefore(plain: string, h: Hunk, g: Progress, u: nat)
    requires WellFormed(plain, h) && Going(plain, h, g, u) && g.c.left == 1 && g.ps != []
    ensures !BlankInTheWay(plain, h)
  {
    var f := FirstBlank(plain, h.start, h.end);
    assert u == g.c.current && IsChange(plain[u]) && !IsChange(plain[u - 1]);
    RunsStep(plain, h.start, u, ' ');
    RunsGrow(plain, h.start, u + 1, f, ' ');
  }

  /** One line, or the end of a piece. */
  method Step(plain: string, h: Hunk, g: Progress, ghost u: nat) returns (g': Progress, ghost u': nat)
    requires WellFormed(plain, h) && Going(plain, h, g, u) && g.c.left > 1 && g.c.current < h.end
      && plain[g.c.current] != '\n'
    ensures Going(plain, h, g', u') && h.end - g'.c.current + g'.c.left < h.end - g.c.current + g.c.left
    ensures g'.c.left == 1 ==> g'.ps != []
  {
    if g.c.marker != ' ' || !IsChange(plain[g.c.current]) || g.c.first {
      var c;
      c, u' := NextLine(plain, h, g.c, u, |g.ps|);
      g' := g.(c := c);
    } else {
      g' := NextPiece(plain, h, g, u);
      u' := g.c.current;
    }
  }

  // the pieces, or the internal error at a marker that splitting does not know
  datatype ScanResult = Split(ps: seq<Hunk>) | Unhandled

  /**
     Scans the lines of a hunk. The only internal error of the program that can occur is the one about an empty line.
   */
  method ScanPieces(plain: string, h: Hunk) returns (r: ScanResult)
    requires WellFormed(plain, h) && h.splittable >= 2
    ensures r == Unhandled <==> BlankInTheWay(plain, h)
    ensures r.Split? ==> Pieces(plain, h, r.ps) && |r.ps| == h.splittable
  {
    var g := Progress([], Scan(h.start, 0, 0, h.start, '\0', true, 0, 0, h.splittable), h.oldOffset, h.newOffset, h);
    ghost var u: nat := h.start;
    while g.c.left > 1
      invariant Going(plain, h, g, u) && (g.c.left == 1 ==> g.ps != [])
      decreases h.end - g.c.current + g.c.left
    {
      LineThere(plain, h, g.c, u);
      if plain[g.c.current] == '\n' {
        CameToBlank(plain, h, g, u);
        return Unhandled;
      }
      g, u := Step(plain, h, g, u);
    }
    if g.oldOffset != g.remaining.oldOffset || g.newOffset != g.remaining.newOffset {
      assert false;
    }
    StoppedBefore(plain, h, g, u);
    var last := Hunk(g.c.start, h.end, g.oldOffset, g.remaining.oldCount, g.newOffset, g.remaining.newCount, 1, 0,
                     h.use);
    LastPiece(plain, h, g.ps, g.c, u, last);
    r := Split(g.ps + [last]);
  }

  // ---- merging ----

  // nothing merged, hunks up to index merged into one, or hunks that an edit has made differ
  datatype MergeResult = NotMerged | Merged(index: nat, hunk: Hunk) | Edited

  ghost predicate Ascending(hunks: seq<Hunk>) {
    forall i, j ::
      0 <= i < j < |hunks| ==> hunks[i].oldOffset <= hunks[j].oldOffset && hunks[i].newOffset <= hunks[j].newOffset
  }

  predicate Selected(h: Hunk, useAll: bool) { useAll || h.use == UseIt }

  /** The hunks from index on are the pieces of h, with nothing touching them behind. */
  ghost predicate PiecesAt(plain: string, hunks: seq<Hunk>, index: nat, h: Hunk, ps: seq<Hunk>)
    requires h.start <= h.end <= |plain|
  {
    && Pieces(plain, h, ps) && |ps| >= 2 && index + |ps| <= |hunks| && hunks[index..index + |ps|] == ps && h.delta == 0
    && h.oldCount == Lines(plain, h.start, h.end, '-') && h.newCount == Lines(plain, h.start, h.end, '+')
    && (index + |ps| < |hunks| ==> h.newOffset + h.newCount < hunks[index + |ps|].newOffset)
  }

  /** New lines of the first piece that are not shared with the second. */
  ghost function NewBeforeSecond(plain: string, h: Hunk, ps: seq<Hunk>): nat
    requires h.start <= h.end <= |plain| && Pieces(plain, h, ps) && |ps| >= 2
  {
    Lines(plain, h.start, ps[1].start, '+')
  }

  /** The first k + 1 pieces, merged. */
  function MergedTo(plain: string, h: Hunk, end: nat): Hunk
    requires h.start <= end <= |plain|
  {
    h.(end := end, oldCount := Lines(plain, h.start, end, '-'), newCount := Lines(plain, h.start, end, '+'),
       splittable := 1)
  }

  /** The next piece overlaps what is merged, and continues it unless nothing new comes before it. */
  lemma NextOverlaps(plain: string, h: Hunk, ps: seq<Hunk>, k: nat)
    requires h.start <= h.end <= |plain| && Pieces(plain, h, ps) && k + 1 < |ps|
    ensures var m, p := MergedTo(plain, h, ps[k].end), ps[k + 1];
      && m.start < p.start < m.end && p.newOffset <= m.newOffset + m.newCount
      && p.oldOffset + p.oldCount - m.oldOffset == Lines(plain, h.start, p.end, '-')
      && p.newOffset + p.newCount - m.newOffset == Lines(plain, h.start, p.end, '+')
      && (NewBeforeSecond(plain, h, ps) > 0 ==> m.newOffset < p.newOffset)
      && (k == 0 && NewBeforeSecond(plain, h, ps) == 0 ==> m.newOffset == p.newOffset)
  {
    var p := ps[k + 1];
    StartsAscend(plain, h, ps, 1, k + 1);
    LinesSplit(plain, h.start, p.start, ps[k].end, '+');
    LinesSplit(plain, h.start, p.start, p.end, '-');
    LinesSplit(plain, h.start, p.start, p.end, '+');
    LinesSplit(plain, h.start, ps[1].start, p.start, '+');
  }

  lemma {:induction false} StartsAscend(plain: string, h: Hunk, ps: seq<Hunk>, i: nat, j: nat)
    requires h.start <= h.end <= |plain| && Pieces(plain, h, ps) && i <= j < |ps|
    ensures ps[i].start <= ps[j].start
    decreases j
  {
    if i < j {
      StartsAscend(plain, h, ps, i, j - 1);
    }
  }

  /** The hunk behind does not continue the merged one. */
  predicate Apart(m: Hunk, next: Hunk) {
    m.newOffset >= next.newOffset + m.delta || m.newOffset + m.newCount < next.newOffset + m.delta
  }

  predicate Overlap(m: Hunk, next: Hunk) { m.start < next.start && m.end > next.start }

  function Extend(m: Hunk, next: Hunk): Hunk
    requires m.oldOffset <= next.oldOffset && m.newOffset <= next.newOffset
  {
    m.(end := next.end, oldCount := next.oldOffset + next.oldCount - m.oldOffset,
       newCount := next.newOffset + next.newCount - m.newOffset)
  }

  lemma PieceOf(plain: string, hunks: seq<Hunk>, index: nat, h: Hunk, ps: seq<Hunk>, k: nat)
    requires h.start <= h.end <= |plain| && PiecesAt(plain, hunks, index, h, ps) && k < |ps|
    ensures hunks[index + k] == ps[k] && ps[k].use == h.use
    ensures k == 0 ==> ps[0] == MergedTo(plain, h, ps[0].end)
  {
    assert hunks[index..index + |ps|][k] == hunks[index + k];
  }

  ghost predicate MergedSoFar(plain: string, h: Hunk, ps: seq<Hunk>, m: Hunk, k: nat)
    requires h.start <= h.end <= |plain| && Pieces(plain, h, ps) && |ps| >= 2
  {
    k < |ps| && m == MergedTo(plain, h, ps[k].end) && (k > 0 ==> NewBeforeSecond(plain, h, ps) > 0)
  }

  lemma MergedNext(plain: string, h: Hunk, ps: seq<Hunk>, m: Hunk, k: nat, useAll: bool)
    requires h.start <= h.end <= |plain| && Pieces(plain, h, ps) && |ps| >= 2 && h.delta == 0
      && MergedSoFar(plain, h, ps, m, k) && k + 1 < |ps|
    ensures Apart(m, ps[k + 1]) <==> NewBeforeSecond(plain, h, ps) == 0
    ensures !Apart(m, ps[k + 1]) ==> Overlap(m, ps[k + 1])
    ensures !Apart(m, ps[k + 1]) && m.oldOffset <= ps[k + 1].oldOffset ==>
      MergedSoFar(plain, h, ps, Extend(m, ps[k + 1]), k + 1)
  {
    NextOverlaps(plain, h, ps, k);
  }

  predicate SameStart(m: Hunk, h: Hunk) { m.oldOffset == h.oldOffset && m.newOffset == h.newOffset }

  /** Merging m, which stands for the hunks from index to i, with those behind. */
  function MergeFrom(hunks: seq<Hunk>, index: nat, i: nat, m: Hunk, useAll: bool): MergeResult
    requires index <= i < |hunks| && Ascending(hunks) && SameStart(m, hunks[index])
    decreases |hunks| - i
  {
    if i + 1 == |hunks| || !Selected(hunks[i + 1], useAll) || Apart(m, hunks[i + 1]) then if i == index then NotMerged
      else Merged(i, m)
    else if !Overlap(m, hunks[i + 1]) then Edited
    else MergeFrom(hunks, index, i + 1, Extend(m, hunks[i + 1]), useAll)
  }

  function Merge(hunks: seq<Hunk>, index: nat, useAll: bool): MergeResult
    requires index < |hunks| && Ascending(hunks)
  {
    if Selected(hunks[index], useAll) then MergeFrom(hunks, index, index, hunks[index], useAll) else NotMerged
  }

  /** The hunks from index to k as one, by the first and the last of them. */
  ghost function Union(hunks: seq<Hunk>, index: nat, k: nat): Hunk
    requires index <= k < |hunks| && Ascending(hunks)
  {
    var first, last := hunks[index], hunks[k];
    if k == index then first
    else
      first.(end := last.end, oldCount := last.oldOffset + last.oldCount - first.oldOffset,
             newCount := last.newOffset + last.newCount - first.newOffset)
  }

  /** Hunk k + 1 is to be used and begins within the new lines of the union up to k, or right behind them. */
  ghost predicate Continues(hunks: seq<Hunk>, index: nat, k: nat, useAll: bool)
    requires index <= k < |hunks| && Ascending(hunks)
  {
    && k + 1 < |hunks| && (useAll || hunks[k + 1].use == UseIt)
    && var u, next := Union(hunks, index, k), hunks[k + 1];
       u.newOffset < next.newOffset + u.delta <= u.newOffset + u.newCount
  }

  /** Its text begins within that of the union. */
  ghost predicate TextOverlaps(hunks: seq<Hunk>, index: nat, k: nat)
    requires index <= k < |hunks| - 1 && Ascending(hunks)
  {
    Union(hunks, index, k).start < hunks[k + 1].start < Union(hunks, index, k).end
  }

  /** What is merged is the longest stretch of hunks that continue one another, and has its range and its lines. */
  ghost predicate Longest(hunks: seq<Hunk>, index: nat, useAll: bool, r: MergeResult)
    requires index < |hunks| && Ascending(hunks)
  {
    match r
    case NotMerged => !Continues(hunks, index, index, useAll)
    case Merged(i, m) => index < i < |hunks| && m == Union(hunks, index, i) && !Continues(hunks, index, i, useAll)
      && AllContinue(hunks, index, index, i, useAll)
    case Edited => exists k ::
      index <= k < |hunks| && Continues(hunks, index, k, useAll) && !TextOverlaps(hunks, index, k)
      && AllContinue(hunks, index, index, k, useAll)
  }

  ghost predicate AllContinue(hunks: seq<Hunk>, index: nat, lo: nat, hi: nat, useAll: bool)
    requires index <= lo && hi < |hunks| && Ascending(hunks)
  {
    forall k :: lo <= k < hi ==> Continues(hunks, index, k, useAll) && TextOverlaps(hunks, index, k)
  }

  lemma {:induction false} MergeLongest(hunks: seq<Hunk>, index: nat, i: nat, m: Hunk, useAll: bool)
    requires index <= i < |hunks| && Ascending(hunks) && m == Union(hunks, index, i)
      && AllContinue(hunks, index, index, i, useAll)
    ensures Longest(hunks, index, useAll, MergeFrom(hunks, index, i, m, useAll))
    decreases |hunks| - i
  {
    if Continues(hunks, index, i, useAll) && Overlap(m, hunks[i + 1]) {
      MergeLongest(hunks, index, i + 1, Extend(m, hunks[i + 1]), useAll);
    }
  }

  /**
     Pieces of one hunk become that hunk again exactly if the first brings a new or common line before the second
     begins.
   */
  lemma PiecesMerge(plain: string, hunks: seq<Hunk>, index: nat, useAll: bool, h: Hunk, ps: seq<Hunk>)
    requires index < |hunks| && Ascending(hunks) && h.start <= h.end <= |plain|
      && PiecesAt(plain, hunks, index, h, ps) && Selected(h, useAll)
    ensures Merge(hunks, index, useAll) == if NewBeforeSecond(plain, h, ps) > 0 then
      Merged(index + |ps| - 1, h.(splittable := 1)) else NotMerged
  {
    PieceOf(plain, hunks, index, h, ps, 0);
    PiecesMergeFrom(plain, hunks, index, useAll, h, ps, 0, index, hunks[index], NewBeforeSecond(plain, h, ps) > 0);
  }

  /** The pieces up to k are merged into m, at hunk i. */
  ghost predicate Merging(plain: string, hunks: seq<Hunk>, index: nat, useAll: bool, h: Hunk, ps: seq<Hunk>, k: nat,
                          i: nat, m: Hunk, more: bool) {
    && index < |hunks| && Ascending(hunks) && h.start <= h.end <= |plain| && PiecesAt(plain, hunks, index, h, ps)
    && Selected(h, useAll)
    && MergedSoFar(plain, h, ps, m, k) && SameStart(m, hunks[index]) && more == (NewBeforeSecond(plain, h, ps) > 0)
    && i == index + k < |hunks|
  }

  lemma AllPieces(plain: string, hunks: seq<Hunk>, index: nat, useAll: bool, h: Hunk, ps: seq<Hunk>, i: nat, m: Hunk,
                  more: bool)
    requires |ps| > 0 && Merging(plain, hunks, index, useAll, h, ps, |ps| - 1, i, m, more)
    ensures more && i == index + |ps| - 1 && m == h.(splittable := 1)
      && MergeFrom(hunks, index, i, m, useAll) == Merged(i, m)
  {
  }

  /** One more piece, or none. */
  lemma PieceMerges(plain: string, hunks: seq<Hunk>, index: nat, useAll: bool, h: Hunk, ps: seq<Hunk>, k: nat, i: nat,
                    m: Hunk, more: bool)
    returns (m': Hunk)
    requires Merging(plain, hunks, index, useAll, h, ps, k, i, m, more) && k + 1 < |ps|
    ensures !more ==> MergeFrom(hunks, index, i, m, useAll) == NotMerged
    ensures more ==> Merging(plain, hunks, index, useAll, h, ps, k + 1, i + 1, m', more)
    ensures more ==> MergeFrom(hunks, index, i, m, useAll) == MergeFrom(hunks, index, i + 1, m', useAll)
  {
    PieceOf(plain, hunks, index, h, ps, k + 1);
    MergedNext(plain, h, ps, m, k, useAll);
    m' := m;
    if more {
      m' := Extend(m, ps[k + 1]);
    }
  }

  lemma {:induction false} PiecesMergeFrom(plain: string, hunks: seq<Hunk>, index: nat, useAll: bool, h: Hunk,
                                           ps: seq<Hunk>, k: nat, i: nat, m: Hunk, more: bool)
    requires Merging(plain, hunks, index, useAll, h, ps, k, i, m, more)
    ensures MergeFrom(hunks, index, i, m, useAll) == if more then Merged(index + |ps| - 1, h.(splittable := 1))
      else NotMerged
    decreases |ps| - k
  {
    if k + 1 == |ps| {
      AllPieces(plain, hunks, index, useAll, h, ps, i, m, more);
    } else {
      var m' := PieceMerges(plain, hunks, index, useAll, h, ps, k, i, m, more);
      if more {
        PiecesMergeFrom(plain, hunks, index, useAll, h, ps, k + 1, i + 1, m', more);
      }
    }
  }

  class FileDiff {
    const plain: string
    var hunks: seq<Hunk>

    constructor (plain: string, hunks: seq<Hunk>)
      ensures this.plain == plain && this.hunks == hunks
    {
      this.plain, this.hunks := plain, hunks;
    }

    /**
       Replaces a hunk by pieces with one stretch of changes each; not ok where the program ends with an internal
       error.
     */
    method Split(index: nat) returns (ok: bool, ghost ps: seq<Hunk>)
      requires index < |hunks| && WellFormed(plain, hunks[index])
      modifies this
      ensures !ok <==> BlankInTheWay(plain, old(hunks[index]))
      ensures if !ok || old(hunks[index]).splittable < 2 then hunks == old(hunks)
        else
          && Pieces(plain, old(hunks[index]), ps) && |ps| == old(hunks[index]).splittable
          && hunks == old(hunks)[..index] + ps + old(hunks)[index + 1..]
    {
      var h := hunks[index];
      ok, ps := true, [];
      if h.splittable < 2 {
        return;
      }
      var r := ScanPieces(plain, h);
      if r == Unhandled {
        return false, [];
      }
      hunks := hunks[..index] + r.ps + hunks[index + 1..];
      ps := r.ps;
    }

    /** Coalesces a hunk with those behind it that overlap it. */
    method MergeHunks(index: nat, useAll: bool) returns (r: MergeResult)
      requires index < |hunks| && Ascending(hunks)
      ensures r == Merge(hunks, index, useAll)
      ensures if useAll || hunks[index].use == UseIt then Longest(hunks, index, useAll, r) else r == NotMerged
    {
      if !Selected(hunks[index], useAll) {
        return NotMerged;
      }
      var merged := hunks[index];
      var i := index;
      MergeLongest(hunks, index, index, hunks[index], useAll);
      while i + 1 < |hunks|
        invariant index <= i < |hunks| && SameStart(merged, hunks[index])
          && MergeFrom(hunks, index, i, merged, useAll) == Merge(hunks, index, useAll)
      {
        var next := hunks[i + 1];
        if !Selected(next, useAll) || Apart(merged, next) {
          break;
        }
        if !Overlap(merged, next) {
          return Edited;
        }
        merged := Extend(merged, next);
        i := i + 1;
      }
      r := if i == index then NotMerged else Merged(i, merged);
    }
  }

  // ---- where the program falls short ----

  // "@@ -1,5 +1,5 @@", its fourth line empty
  function BlankText(): string { "- -\n+ +" }

  function BlankHunk(): Hunk { Hunk(0, 7, 1, 5, 1, 5, 3, 0, Undecided) }

  lemma BlankCounts()
    ensures WellFormed(BlankText(), BlankHunk()) && Runs(BlankText(), 0, 7, ' ') == 4
  {
    var t := BlankText();
    assert t[0] == '-' && t[1] == ' ' && t[2] == '-' && t[3] == '\n' && t[4] == '+' && t[5] == ' ' && t[6] == '+';
    assert Ends(t, 4, 7, '\n') == 2 && Runs(t, 4, 7, '\n') == 2;
    assert Ends(t, 0, 7, ' ') == 3;
    assert Lines(t, 0, 3, '-') == 3 && Lines(t, 0, 3, '+') == 1;
    assert Lines(t, 0, 5, '-') == 4 && Lines(t, 0, 5, '+') == 3;
  }

  /** Four stretches, three of them counted, two before the empty line. */
  lemma BlankAborts()
    ensures WellFormed(BlankText(), BlankHunk()) && BlankInTheWay(BlankText(), BlankHunk())
  {
    BlankCounts();
    var t := BlankText();
    assert FirstBlank(t, 0, 7) == 3;
    assert Runs(t, 0, 3, ' ') == 2;
  }

  /** Splitting this hunk ends with the internal error. */
  method SplitBlank() returns (ok: bool)
    ensures !ok
  {
    BlankAborts();
    var d := new FileDiff(BlankText(), [BlankHunk()]);
    ghost var ps;
    ok, ps := d.Split(0);
  }

  // "@@ -1,3 +1 @@": of three lines the middle one is kept
  function BareText(): string { "- -" }

  function BareHunk(): Hunk { Hunk(0, 3, 1, 3, 1, 1, 2, 0, UseIt) }

  lemma BareCounts()
    ensures WellFormed(BareText(), BareHunk()) && !BlankInTheWay(BareText(), BareHunk())
  {
    var t := BareText();
    assert t[0] == '-' && t[1] == ' ' && t[2] == '-';
    assert Lines(t, 0, 2, '-') == 2 && Lines(t, 0, 2, '+') == 1;
    assert Ends(t, 1, 3, '-') == 2;
  }

  lemma FirstRemoved(plain: string)
    requires plain != "" && plain[0] == '-'
    ensures Lines(plain, 0, 1, '+') == 0
  {
    assert Lines(plain, 0, 0, '+') == 0;
  }

  lemma BareSecond(ps: seq<Hunk>)
    requires Pieces(BareText(), BareHunk(), ps) && |ps| == 2
    ensures ps[1].start == 1
  {
    var t := BareText();
    assert t[0] == '-' && t[1] == ' ' && t[2] == '-';
    assert Follows(t, ps[0], ps[1]);
  }

  /** No new line comes before the second piece. */
  lemma BarePieces(ps: seq<Hunk>)
    requires Pieces(BareText(), BareHunk(), ps) && |ps| == 2
    ensures NewBeforeSecond(BareText(), BareHunk(), ps) == 0
  {
    BareSecond(ps);
    FirstRemoved(BareText());
  }

  /** Two pieces do not merge if no new line comes before the second. */
  lemma TwoApart(plain: string, h: Hunk, ps: seq<Hunk>)
    requires WellFormed(plain, h) && h.delta == 0 && h.use == UseIt && Pieces(plain, h, ps) && |ps| == 2
      && NewBeforeSecond(plain, h, ps) == 0
    ensures Ascending(ps) && ps[0].use == ps[1].use == UseIt && Merge(ps, 0, false) == NotMerged
  {
    assert ps[0].start == h.start;
    assert Piece(plain, h, ps[0]) && Piece(plain, h, ps[1]);
    assert ps[0..0 + |ps|] == ps;
    PiecesMerge(plain, ps, 0, false, h, ps);
  }

  /** Its two pieces, both selected, do not merge. */
  method SplitAndMerge() returns (pieces: seq<Hunk>, r: MergeResult)
    ensures |pieces| == 2 && Selected(pieces[0], false) && Selected(pieces[1], false) && r == NotMerged
  {
    BareCounts();
    var d := new FileDiff(BareText(), [BareHunk()]);
    ghost var ps;
    var ok;
    ok, ps := d.Split(0);
    pieces := d.hunks;
    assert pieces == ps;
    BarePieces(ps);
    TwoApart(BareText(), BareHunk(), ps);
    r := d.MergeHunks(0, false);
  }
}
