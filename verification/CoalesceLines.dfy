/**
 The in-place merge of a list of newly lost lines into the list of lines lost so far
 (git/combine-diff.c), by dynamic programming and relinking of list nodes.
 */
module CoalesceLines {
  import opened LineMerge

  class LLine {
    var next: LLine?
    var prev: LLine?
    const line: string
    var parents: set<nat>

    constructor (line: string, parents: set<nat>)
      ensures next == null && prev == null && this.line == line && this.parents == parents
    {
      next, prev, this.line, this.parents := null, null, line, parents;
    }
  }

  ghost predicate Disjoint(s: seq<LLine>, t: seq<LLine>) {
    forall a, b :: 0 <= a < |s| && 0 <= b < |t| ==> s[a] != t[b]
  }

  ghost predicate Distinct(s: seq<LLine>) {
    forall a, b :: 0 <= a < b < |s| ==> s[a] != s[b]
  }

  /** The nodes are linked in this order both ways; what precedes the first is left open. */
  ghost predicate Chain(s: seq<LLine>)
    reads s
  {
    && (forall k :: 0 <= k < |s| - 1 ==> s[k].next == s[k + 1])
    && (|s| > 0 ==> s[|s| - 1].next == null)
    && (forall k :: 0 < k < |s| ==> s[k].prev == s[k - 1])
  }

  /** The node behind the i-th. */
  ghost function After(s: seq<LLine>, i: nat): LLine?
    requires i <= |s|
  {
    if i == |s| then null else s[i]
  }

  ghost function First(s: seq<LLine>): LLine? { if s == [] then null else s[0] }

  ghost function Before(s: seq<LLine>, i: nat): LLine?
    requires i <= |s|
  {
    if i == 0 then null else s[i - 1]
  }

  /** A doubly linked list. */
  ghost predicate IsList(head: LLine?, s: seq<LLine>)
    reads s
  {
    Distinct(s) && Chain(s) && head == First(s) && (|s| > 0 ==> s[0].prev == null)
  }

  ghost function Contents(s: seq<LLine>): seq<Lost>
    reads s
  {
    seq(|s|, i requires 0 <= i < |s| reads s => Lost(s[i].line, s[i].parents))
  }

  ghost function LinesIn(s: seq<LLine>): seq<string> {
    seq(|s|, i requires 0 <= i < |s| => s[i].line)
  }

  // ---- the tables ----

  // what the tables are to hold: the length and the direction at each place, for lists of these lengths
  datatype Plan = Plan(lcs: (int, int) -> nat, dir: (int, int) -> Direction, lenbase: nat, lennew: nat)

  ghost function PlanOf(b: seq<string>, n: seq<string>): Plan {
    Plan((x, y) => if 0 <= x <= |b| && 0 <= y <= |n| then Lcs(b, n, x, y) else 0,
         (x, y) => if 0 <= x <= |b| && 0 <= y <= |n| then Dir(b, n, x, y) else BASE,
         |b|, |n|)
  }

  ghost predicate Tables(lcs: array2<nat>, directions: array2<Direction>, p: Plan) {
    lcs.Length0 == directions.Length0 == p.lenbase + 1 && lcs.Length1 == directions.Length1 == p.lennew + 1
  }

  /** The tables are filled row by row, up to column j of row i; the first column is filled from the start. */
  ghost predicate Filled(lcs: array2<nat>, directions: array2<Direction>, p: Plan, i: nat, j: nat)
    requires Tables(lcs, directions, p)
    reads lcs, directions
  {
    forall x, y {:trigger lcs[x, y]} {:trigger directions[x, y]} ::
      0 <= x <= p.lenbase && 0 <= y <= p.lennew && (x < i || (x == i && y <= j) || y == 0) ==>
      lcs[x, y] == p.lcs(x, y) && directions[x, y] == p.dir(x, y)
  }

  function Cell(same: bool, diagonal: nat, left: nat, up: nat): (nat, Direction) {
    if same then (diagonal + 1, MATCH) else if left >= up then (left, NEW) else (up, BASE)
  }

  lemma CellIsPlanned(b: seq<string>, n: seq<string>, p: Plan, i: nat, j: nat)
    requires 0 < i <= |b| && 0 < j <= |n| && p == PlanOf(b, n)
    ensures (p.lcs(i, j), p.dir(i, j)) ==
      Cell(b[i - 1] == n[j - 1], p.lcs(i - 1, j - 1), p.lcs(i, j - 1), p.lcs(i - 1, j))
  {
  }

  method FillCell(lcs: array2<nat>, directions: array2<Direction>, baseend: LLine, newend: LLine, i: nat, j: nat,
                  ghost p: Plan)
    requires Tables(lcs, directions, p) && 0 < i <= p.lenbase && 0 < j <= p.lennew
      && Filled(lcs, directions, p, i, j - 1)
    requires (p.lcs(i, j), p.dir(i, j)) ==
      Cell(baseend.line == newend.line, p.lcs(i - 1, j - 1), p.lcs(i, j - 1), p.lcs(i - 1, j))
    modifies lcs, directions
    ensures Filled(lcs, directions, p, i, j)
  {
    if baseend.line == newend.line {
      lcs[i, j] := lcs[i - 1, j - 1] + 1;
      directions[i, j] := MATCH;
    } else if lcs[i, j - 1] >= lcs[i - 1, j] {
      lcs[i, j] := lcs[i, j - 1];
      directions[i, j] := NEW;
    } else {
      lcs[i, j] := lcs[i - 1, j];
      directions[i, j] := BASE;
    }
  }

  method FillRow(lcs: array2<nat>, directions: array2<Direction>, baseend: LLine, newline: LLine, i: nat,
                 ghost b: seq<string>, ghost ns: seq<LLine>, ghost p: Plan)
    returns (newend: LLine)
    requires p == PlanOf(b, LinesIn(ns)) && Tables(lcs, directions, p) && 0 < i <= |b|
      && Filled(lcs, directions, p, i, 0)
    requires baseend.line == b[i - 1] && Chain(ns) && ns != [] && newline == ns[0]
    modifies lcs, directions
    ensures Filled(lcs, directions, p, i, |ns|) && newend == ns[|ns| - 1]
  {
    newend := newline;
    var j := 1;
    while j < lcs.Length1
      invariant 1 <= j <= lcs.Length1 && Filled(lcs, directions, p, i, j - 1)
      invariant newend == ns[if j <= |ns| then j - 1 else |ns| - 1]
    {
      CellIsPlanned(b, LinesIn(ns), p, i, j);
      FillCell(lcs, directions, baseend, newend, i, j, p);
      if newend.next != null {
        newend := newend.next;
      }
      j := j + 1;
    }
  }

  method NewTables(lenbase: nat, lennew: nat, ghost b: seq<string>, ghost n: seq<string>)
    returns (lcs: array2<nat>, directions: array2<Direction>)
    requires lenbase == |b| && lennew == |n|
    ensures fresh(lcs) && fresh(directions) && Tables(lcs, directions, PlanOf(b, n))
      && Filled(lcs, directions, PlanOf(b, n), 0, |n|)
  {
    lcs := new nat[lenbase + 1, lennew + 1]((i, j) => 0);
    directions := new Direction[lenbase + 1, lennew + 1]((i, j) => if j == 0 then BASE else NEW);
  }

  /** Which line the merge takes last, for all beginnings of the two lists; and the ends of the lists. */
  method FillTables(base: LLine, lenbase: nat, newline: LLine, lennew: nat, ghost bs: seq<LLine>, ghost ns: seq<LLine>)
    returns (directions: array2<Direction>, baseend: LLine, newend: LLine)
    requires Chain(bs) && Chain(ns) && bs != [] && ns != [] && base == bs[0] && newline == ns[0] && lenbase == |bs|
      && lennew == |ns|
    ensures fresh(directions) && directions.Length0 == |bs| + 1 && directions.Length1 == |ns| + 1
    ensures forall x, y :: 0 <= x <= |bs| && 0 <= y <= |ns| ==> directions[x, y] == Dir(LinesIn(bs), LinesIn(ns), x, y)
    ensures baseend == bs[|bs| - 1] && newend == ns[|ns| - 1]
  {
    ghost var b, n := LinesIn(bs), LinesIn(ns);
    ghost var p := PlanOf(b, n);
    var lcs;
    lcs, directions := NewTables(lenbase, lennew, b, n);
    baseend, newend := base, newline;
    var i := 1;
    while i < lenbase + 1
      invariant 1 <= i <= lenbase + 1 && Filled(lcs, directions, p, i - 1, |n|)
      invariant baseend == bs[if i <= |bs| then i - 1 else |bs| - 1]
      invariant i > 1 ==> newend == ns[|ns| - 1]
    {
      newend := FillRow(lcs, directions, baseend, newline, i, b, ns, p);
      if baseend.next != null {
        baseend := baseend.next;
      }
      i := i + 1;
    }
  }

  // ---- relinking ----

  /** Takes the node at k out of its list. */
  method Unlink(head: LLine, lline: LLine, ghost s: seq<LLine>, ghost k: nat) returns (head': LLine?)
    requires IsList(head, s) && k < |s| && lline == s[k]
    modifies s`next, s`prev
    ensures IsList(head', s[..k] + s[k + 1..])
    ensures lline.next == old(lline.next) && lline.prev == old(lline.prev)
  {
    head' := head;
    assert lline.prev == Before(s, k) && lline.next == After(s, k + 1) by {
      if k > 0 {
        assert s[k].prev == s[k - 1];
      }
      if k + 1 < |s| {
        assert s[k].next == s[k + 1];
      }
    }
    ghost var s' := s[..k] + s[k + 1..];
    assert forall x :: 0 <= x < |s'| ==> s'[x] == s[if x < k then x else x + 1];
    if lline.prev != null {
      lline.prev.next := lline.next;
    } else {
      head' := lline.next;
    }
    if lline.next != null {
      lline.next.prev := lline.prev;
    }
  }

  /** Puts a node behind the i-th of its new list, or in front of it, where its own prev link is left as it was. */
  method LinkIn(base: LLine?, baseend: LLine?, lline: LLine, ghost s: seq<LLine>, ghost i: nat) returns (base': LLine?)
    requires Distinct(s) && Chain(s) && base == First(s) && i <= |s| && baseend == Before(s, i) && lline !in s
    modifies s`next, s`prev, lline`next, lline`prev
    ensures var s' := s[..i] + [lline] + s[i..]; Distinct(s') && Chain(s') && base' == First(s')
    ensures i > 0 ==> s[0].prev == old(s[0].prev)
    ensures i == 0 ==> lline.prev == old(lline.prev)
  {
    base' := base;
    ghost var s' := s[..i] + [lline] + s[i..];
    assert forall x :: 0 <= x < |s'| ==> s'[x] == if x < i then s[x] else if x == i then lline else s[x - 1];
    assert i > 0 ==> baseend.next == After(s, i) by { if 0 < i < |s| { assert s[i - 1].next == s[i]; } }
    if baseend != null {
      lline.next := baseend.next;
      lline.prev := baseend;
      lline.prev.next := lline;
    } else {
      lline.next := base;
      base' := lline;
    }
    if lline.next != null {
      lline.next.prev := lline;
    }
  }

  // ---- reading the directions back ----

  /** cur is the base list so far, rem what is left of the new one; i and j lines of them are still to be looked at. */
  ghost predicate Linked(base: LLine?, newline: LLine?, newend: LLine?, cur: seq<LLine>, rem: seq<LLine>, i: nat)
    reads cur, rem
  {
    && Distinct(cur) && Chain(cur) && base == First(cur) && IsList(newline, rem) && Disjoint(cur, rem)
    && (cur != [] ==> cur[0].prev == null || (i == 0 && cur[0].prev == newend))
  }

  ghost predicate Ends(bs: seq<LLine>, ns: seq<LLine>, cur: seq<LLine>, rem: seq<LLine>, i: nat, j: nat) {
    i <= |bs| && i <= |cur| && j <= |ns| && j <= |rem| && cur[..i] == bs[..i] && rem[..j] == ns[..j]
  }

  ghost predicate Among(s: seq<LLine>, all: set<LLine>) {
    forall k :: 0 <= k < |s| ==> s[k] in all
  }

  /** c is the base list so far: from i on the end of the merge, before that untouched. */
  ghost predicate Traced(b: seq<Lost>, n: seq<Lost>, c: seq<Lost>, i: nat, j: nat, bits: set<nat>) {
    i <= |b| && j <= |n| && i <= |c| && c[..i] == b[..i] && Merge(b, n, bits) == Merged(b, n, i, j, bits) + c[i..]
  }

  lemma TracedMatch(b: seq<Lost>, n: seq<Lost>, c: seq<Lost>, c': seq<Lost>, i: nat, j: nat, bits: set<nat>)
    requires Traced(b, n, c, i, j, bits) && i > 0 && j > 0 && Dir(Texts(b), Texts(n), i, j) == MATCH
    requires c' == c[i - 1 := Lost(c[i - 1].line, c[i - 1].parents + bits)]
    ensures Traced(b, n, c', i - 1, j - 1, bits)
  {
    assert c[i - 1] == c[..i][i - 1] == b[i - 1];
    assert c'[..i - 1] == c[..i][..i - 1] == b[..i - 1];
    assert c'[i - 1..] == [c'[i - 1]] + c[i..];
    assert Merged(b, n, i, j, bits) + c[i..] == Merged(b, n, i - 1, j - 1, bits) + c'[i - 1..];
  }

  lemma TracedNew(b: seq<Lost>, n: seq<Lost>, c: seq<Lost>, c': seq<Lost>, i: nat, j: nat, bits: set<nat>)
    requires Traced(b, n, c, i, j, bits) && j > 0 && Dir(Texts(b), Texts(n), i, j) == NEW
    requires c' == c[..i] + [n[j - 1]] + c[i..]
    ensures Traced(b, n, c', i, j - 1, bits)
  {
    assert c'[..i] == c[..i] && c'[i..] == [n[j - 1]] + c[i..];
    assert Merged(b, n, i, j, bits) + c[i..] == Merged(b, n, i, j - 1, bits) + c'[i..];
  }

  lemma TracedBase(b: seq<Lost>, n: seq<Lost>, c: seq<Lost>, i: nat, j: nat, bits: set<nat>)
    requires Traced(b, n, c, i, j, bits) && i > 0 && Dir(Texts(b), Texts(n), i, j) == BASE
    ensures Traced(b, n, c, i - 1, j, bits)
  {
    assert c[i - 1] == c[..i][i - 1] == b[i - 1];
    assert c[..i - 1] == c[..i][..i - 1] == b[..i - 1];
    assert c[i - 1..] == [c[i - 1]] + c[i..];
    assert Merged(b, n, i, j, bits) + c[i..] == Merged(b, n, i - 1, j, bits) + c[i - 1..];
  }

  lemma Moved(cur: seq<LLine>, rem: seq<LLine>, i: nat, k: nat)
    requires i <= |cur| && k < |rem| && Distinct(rem) && Disjoint(cur, rem)
    ensures var rem' := rem[..k] + rem[k + 1..];
      Disjoint(cur[..i] + [rem[k]] + cur[i..], rem') && Disjoint(cur, rem') && rem[k] !in rem' && rem[k] !in cur
  {
    var rem' := rem[..k] + rem[k + 1..];
    assert forall x :: 0 <= x < |rem'| ==> rem'[x] == rem[if x < k then x else x + 1];
  }

  method TakeNew(base: LLine?, newline: LLine, baseend: LLine?, lline: LLine, ghost cur: seq<LLine>,
                 ghost rem: seq<LLine>, ghost i: nat, ghost j: nat)
    returns (base': LLine?, newline': LLine?, newend: LLine?)
    requires i <= |cur| && 0 < j <= |rem| && lline == rem[j - 1] && baseend == Before(cur, i)
    requires Linked(base, newline, lline, cur, rem, i)
    modifies cur`next, cur`prev, rem`next, rem`prev
    ensures newend == Before(rem, j - 1)
    ensures Linked(base', newline', newend, cur[..i] + [lline] + cur[i..], rem[..j - 1] + rem[j..], i)
  {
    assert lline.prev == Before(rem, j - 1) by { if j > 1 { assert rem[j - 1].prev == rem[j - 2]; } }
    ghost var rem' := rem[..j - 1] + rem[j..];
    ghost var cur' := cur[..i] + [lline] + cur[i..];
    Moved(cur, rem, i, j - 1);
    newline' := Unlink(newline, lline, rem, j - 1);
    newend := lline.prev;
    base' := LinkIn(base, baseend, lline, cur, i);
  }

  lemma EndsNew(bs: seq<LLine>, ns: seq<LLine>, cur: seq<LLine>, rem: seq<LLine>, i: nat, j: nat)
    requires Ends(bs, ns, cur, rem, i, j) && j > 0
    ensures rem[j - 1] == ns[j - 1]
      && Ends(bs, ns, cur[..i] + [ns[j - 1]] + cur[i..], rem[..j - 1] + rem[j..], i, j - 1)
  {
    assert rem[j - 1] == rem[..j][j - 1] == ns[j - 1];
    assert ns[..j - 1] == ns[..j][..j - 1];
  }

  lemma EndsShorter(bs: seq<LLine>, ns: seq<LLine>, cur: seq<LLine>, rem: seq<LLine>, i: nat, j: nat, i1: nat, j1: nat)
    requires Ends(bs, ns, cur, rem, i, j) && i1 <= i && j1 <= j
    ensures Ends(bs, ns, cur, rem, i1, j1)
    ensures forall x :: 0 <= x < i ==> cur[x] == bs[x]
    ensures forall x :: 0 <= x < j ==> rem[x] == ns[x]
  {
    assert forall x :: 0 <= x < i ==> cur[x] == cur[..i][x] == bs[x];
    assert forall x :: 0 <= x < j ==> rem[x] == rem[..j][x] == ns[x];
  }

  /** The whole state while reading back: the two lists, how far they have been read, and what remains to be merged. */
  ghost predicate Tracing(head: LLine?, newhead: LLine?, baseend: LLine?, newend: LLine?, cur: seq<LLine>,
                          rem: seq<LLine>, i: nat, j: nat, t: Task)
    reads cur, rem, t.ns
  {
    && Ends(t.bs, t.ns, cur, rem, i, j) && Linked(head, newhead, newend, cur, rem, i)
    && baseend == Before(t.bs, i) && newend == Before(t.ns, j)
    && Traced(t.b, t.n, Contents(cur), i, j, t.bits)
    && (forall x :: 0 <= x < j && x < |t.n| ==> Lost(t.ns[x].line, t.ns[x].parents) == t.n[x])
    && Among(cur, t.all) && Among(rem, t.all)
  }

  // the lists as they were given, and the bits that a match sets
  datatype Task = Task(bs: seq<LLine>, ns: seq<LLine>, b: seq<Lost>, n: seq<Lost>, bits: set<nat>, all: set<LLine>)

  method StepMatch(baseend: LLine, newend: LLine, bits: set<nat>, ghost head: LLine?, ghost newhead: LLine?,
                   ghost cur: seq<LLine>, ghost rem: seq<LLine>, ghost i: nat, ghost j: nat, ghost t: Task)
    returns (baseend': LLine?, newend': LLine?)
    requires bits == t.bits && i > 0 && j > 0 && i <= |t.b| && j <= |t.n|
      && Dir(Texts(t.b), Texts(t.n), i, j) == MATCH
    requires Tracing(head, newhead, baseend, newend, cur, rem, i, j, t)
    modifies t.all`parents
    ensures Tracing(head, newhead, baseend', newend', cur, rem, i - 1, j - 1, t)
  {
    ghost var c := Contents(cur);
    EndsShorter(t.bs, t.ns, cur, rem, i, j, i - 1, j - 1);
    baseend.parents := baseend.parents + bits;
    TracedMatch(t.b, t.n, c, Contents(cur), i, j, bits);
    baseend' := baseend.prev;
    newend' := newend.prev;
  }

  lemma Inserted(cur: seq<LLine>, rem: seq<LLine>, lline: LLine, i: nat, k: nat, all: set<LLine>)
    requires i <= |cur| && k < |rem| && lline == rem[k] && Among(cur, all) && Among(rem, all)
    ensures var cur' := cur[..i] + [lline] + cur[i..];
      Contents(cur') == Contents(cur)[..i] + [Lost(lline.line, lline.parents)] + Contents(cur)[i..] && Among(cur', all)
    ensures Among(rem[..k] + rem[k + 1..], all)
  {
  }

  method StepNew(head: LLine?, newhead: LLine, baseend: LLine?, newend: LLine, ghost cur: seq<LLine>,
                 ghost rem: seq<LLine>, ghost i: nat, ghost j: nat, ghost t: Task)
    returns (head': LLine?, newhead': LLine?, newend': LLine?, ghost cur': seq<LLine>, ghost rem': seq<LLine>)
    requires j > 0 && i <= |t.b| && j <= |t.n| && Dir(Texts(t.b), Texts(t.n), i, j) == NEW
    requires Tracing(head, newhead, baseend, newend, cur, rem, i, j, t)
    modifies t.all`next, t.all`prev
    ensures Tracing(head', newhead', baseend, newend', cur', rem', i, j - 1, t) && |cur'| == |cur| + 1
  {
    EndsNew(t.bs, t.ns, cur, rem, i, j);
    EndsShorter(t.bs, t.ns, cur, rem, i, j, i, j);
    cur', rem' := cur[..i] + [newend] + cur[i..], rem[..j - 1] + rem[j..];
    Inserted(cur, rem, newend, i, j - 1, t.all);
    TracedNew(t.b, t.n, Contents(cur), Contents(cur'), i, j, t.bits);
    ghost var c' := Contents(cur');
    head', newhead', newend' := TakeNew(head, newhead, baseend, newend, cur, rem, i, j);
    assert Contents(cur') == c';
  }

  lemma StepBase(head: LLine?, newhead: LLine?, baseend: LLine, newend: LLine?, cur: seq<LLine>, rem: seq<LLine>,
                 i: nat, j: nat, t: Task)
    requires i > 0 && i <= |t.b| && j <= |t.n| && Dir(Texts(t.b), Texts(t.n), i, j) == BASE
    requires Tracing(head, newhead, baseend, newend, cur, rem, i, j, t)
    ensures Tracing(head, newhead, baseend.prev, newend, cur, rem, i - 1, j, t)
  {
    EndsShorter(t.bs, t.ns, cur, rem, i, j, i - 1, j);
    TracedBase(t.b, t.n, Contents(cur), i, j, t.bits);
  }

  lemma StartTracing(base: LLine, newline: LLine, lastBase: LLine, lastNew: LLine, t: Task)
    requires IsList(base, t.bs) && IsList(newline, t.ns) && Disjoint(t.bs, t.ns) && t.b == Contents(t.bs)
      && t.n == Contents(t.ns)
    requires t.bs != [] && t.ns != [] && lastBase == t.bs[|t.bs| - 1] && lastNew == t.ns[|t.ns| - 1]
      && Among(t.bs, t.all) && Among(t.ns, t.all)
    ensures Tracing(base, newline, lastBase, lastNew, t.bs, t.ns, |t.bs|, |t.ns|, t)
  {
    assert Merge(t.b, t.n, t.bits) == Merged(t.b, t.n, |t.b|, |t.n|, t.bits) + t.b[|t.b|..];
    assert t.b[..|t.b|] == t.b;
  }

  lemma EndTracing(head: LLine?, newhead: LLine?, baseend: LLine?, newend: LLine?, cur: seq<LLine>, rem: seq<LLine>,
                   t: Task)
    requires Tracing(head, newhead, baseend, newend, cur, rem, 0, 0, t)
    ensures IsList(head, cur) && Contents(cur) == Merge(t.b, t.n, t.bits)
  {
    assert Contents(cur)[0..] == Contents(cur);
  }

  /** Follows the directions from the ends of the lists to their beginnings. */
  method Trace(base: LLine, newline: LLine, lastBase: LLine, lastNew: LLine, directions: array2<Direction>,
               lenbase: nat, lennew: nat, bits: set<nat>, ghost t: Task)
    returns (head: LLine?, len: nat, ghost rs: seq<LLine>)
    requires IsList(base, t.bs) && IsList(newline, t.ns) && Disjoint(t.bs, t.ns) && t.b == Contents(t.bs)
      && t.n == Contents(t.ns)
    requires t.bs != [] && t.ns != [] && lastBase == t.bs[|t.bs| - 1] && lastNew == t.ns[|t.ns| - 1]
      && Among(t.bs, t.all) && Among(t.ns, t.all)
    requires lenbase == |t.bs| && lennew == |t.ns| && directions.Length0 == lenbase + 1
      && directions.Length1 == lennew + 1 && bits == t.bits
    requires forall x, y ::
      0 <= x <= |t.bs| && 0 <= y <= |t.ns| ==> directions[x, y] == Dir(Texts(t.b), Texts(t.n), x, y)
    modifies t.all
    ensures IsList(head, rs) && len == |rs| && Among(rs, t.all) && Contents(rs) == Merge(t.b, t.n, bits)
  {
    StartTracing(base, newline, lastBase, lastNew, t);
    ghost var rem := t.ns;
    rs := t.bs;
    var newhead: LLine?, baseend: LLine?, newend: LLine? := newline, lastBase, lastNew;
    head, len := base, lenbase;
    var i, j := lenbase, lennew;
    while i != 0 || j != 0
      invariant 0 <= i <= lenbase && 0 <= j <= lennew && len == |rs|
      invariant Tracing(head, newhead, baseend, newend, rs, rem, i, j, t)
      decreases i + j
    {
      if directions[i, j] == MATCH {
        baseend, newend := StepMatch(baseend, newend, bits, head, newhead, rs, rem, i, j, t);
        i, j := i - 1, j - 1;
      } else if directions[i, j] == NEW {
        head, newhead, newend, rs, rem := StepNew(head, newhead, baseend, newend, rs, rem, i, j, t);
        j, len := j - 1, len + 1;
      } else {
        StepBase(head, newhead, baseend, newend, rs, rem, i, j, t);
        baseend := baseend.prev;
        i := i - 1;
      }
    }
    EndTracing(head, newhead, baseend, newend, rs, rem, t);
  }

  /** Coalesces the new lines into the base list: afterwards it is the merge of the two, linked both ways. */
  method Coalesce(base: LLine?, lenbase: nat, newline: LLine?, lennew: nat, parent: nat, shift: Shift,
                  ghost bs: seq<LLine>, ghost ns: seq<LLine>)
    returns (head: LLine?, len: nat, ghost rs: seq<LLine>)
    requires IsList(base, bs) && IsList(newline, ns) && Disjoint(bs, ns) && lenbase == |bs| && lennew == |ns|
    modifies bs, ns
    ensures IsList(head, rs) && len == |rs| && forall x :: x in rs ==> x in bs || x in ns
    ensures Contents(rs) == Merge(old(Contents(bs)), old(Contents(ns)), shift(parent))
  {
    ghost var b, n := Contents(bs), Contents(ns);
    if newline == null {
      MergeWithNone(b, shift(parent));
      return base, lenbase, bs;
    }
    if base == null {
      MergeIntoNone(n, shift(parent));
      return newline, lennew, ns;
    }
    ghost var all := (set x | x in bs) + (set x | x in ns);
    var directions, baseend, newend := FillTables(base, lenbase, newline, lennew, bs, ns);
    assert Texts(b) == LinesIn(bs) && Texts(n) == LinesIn(ns);
    head, len, rs := Trace(base, newline, baseend, newend, directions, lenbase, lennew, shift(parent),
                           Task(bs, ns, b, n, shift(parent), all));
  }
}
