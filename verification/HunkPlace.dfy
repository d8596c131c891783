/**
 Applying one hunk to a file (git/apply.c): where it goes, with how much of its context, and what it brings.
 */
module HunkPlace {
  import FindPosition
  import opened FuzzyImages
  import opened HunkText
  import opened ImageLines

  // a hunk: its claimed positions (from 1), the numbers of context lines around it, and its text
  datatype Fragment = Fragment(oldpos: nat, newpos: nat, oldlines: nat, newlines: nat, leading: nat, trailing: nat,
                               patch: string)

  // how hunks are applied: in reverse, ignoring whitespace, and with how much context at least
  datatype Mode = Mode(reverse: bool, ignoreSpace: bool, context: nat)

  // the lines of an image and its table
  datatype State = State(texts: seq<string>, table: seq<Line>)

  // a hunk is applied, finds no place, or the program aborts
  datatype Outcome = Applied | Refused | Aborted

  // ---- what is looked for ----

  // a hunk as it is looked for: its lines, where it claims to be, and whether it must be at the beginning or the end
  datatype Sought = Sought(body: seq<HunkLine>, pos: int, atStart: bool, atEnd: bool)

  function Min(a: nat, b: nat): nat { if a < b then a else b }

  /** How many lines of context the hunk has on the side where it has more. */
  function AllContext(frag: Fragment): nat { if frag.leading < frag.trailing then frag.trailing else frag.leading }

  /** The lines of the hunk with at most m lines of context on each side. */
  function Kept(frag: Fragment, body: seq<HunkLine>, m: nat): seq<HunkLine> {
    var skip, drop := frag.leading - Min(frag.leading, m), frag.trailing - Min(frag.trailing, m);
    if skip + drop <= |body| then body[skip..|body| - drop] else []
  }

  /** Where it claims to be then. */
  function PosOf(frag: Fragment, m: nat): int {
    (if frag.newpos > 0 then frag.newpos - 1 else 0) - (frag.leading - Min(frag.leading, m))
  }

  /** That hunk, bound to the ends of the file as it is, or not at all. */
  function Reduced(frag: Fragment, body: seq<HunkLine>, m: nat, bound: bool): Sought {
    Sought(Kept(frag, body, m), PosOf(frag, m), bound && frag.oldpos <= 1, bound && frag.trailing == 0)
  }

  /** The first lines are context, and the last ones, as many as the hunk says. */
  predicate HasContext(frag: Fragment, body: seq<HunkLine>) {
    && frag.leading + frag.trailing <= |body|
    && (forall i :: 0 <= i < frag.leading ==> IsCommon(body, i))
    && (forall i :: |body| - frag.trailing <= i < |body| ==> IsCommon(body, i))
  }

  predicate IsCommon(body: seq<HunkLine>, i: int) { 0 <= i < |body| && body[i].tag == ' ' }

  /** What is asked of a hunk whose context may have to be reduced. */
  ghost predicate Reducible(frag: Fragment, context: nat) {
    AllContext(frag) <= context || (Body(frag.patch).Some? ==> HasContext(frag, Body(frag.patch).value))
  }

  lemma NotReduced(frag: Fragment, body: seq<HunkLine>, bound: bool)
    ensures Reduced(frag, body, AllContext(frag), bound).body == Kept(frag, body, AllContext(frag)) == body
  {
  }

  // ---- where it goes ----

  function Hashes(texts: seq<string>): seq<nat> { seq(|texts|, i requires 0 <= i < |texts| => HashLine(texts[i])) }

  ghost function QueryFor(s: State, x: Sought, mode: Mode): FindPosition.Query {
    var pre := Old(x.body, mode.reverse);
    FindPosition.Query(s.texts, s.table, pre, Hashes(pre), x.atStart, x.atEnd, mode.ignoreSpace)
  }

  /** Where it may go. */
  ghost function Places(s: State, x: Sought, mode: Mode): nat -> bool { FindPosition.AcceptedBy(QueryFor(s, x, mode)) }

  /** Where it claims to go. */
  ghost function Claimed(s: State, x: Sought, mode: Mode): nat {
    FindPosition.Start(x.pos, |s.texts|, |Old(x.body, mode.reverse)|, x.atStart, x.atEnd)
  }

  /** The nearest place to its claim where it may go; -1 if there is none. */
  ghost predicate FoundAt(s: State, x: Sought, mode: Mode, at: int) {
    FindPosition.Nearest(Places(s, x, mode), at, Claimed(s, x, mode), |s.texts|)
  }

  /** Context is reduced only if there is more than asked for, and not below that. */
  predicate MayTry(frag: Fragment, context: nat, m: nat, bound: bool) {
    if bound then m == AllContext(frag) else context <= m <= AllContext(frag) && context < AllContext(frag)
  }

  predicate IsLastTry(frag: Fragment, context: nat, m: nat, bound: bool) {
    if bound then AllContext(frag) <= context else m == context
  }

  /** With more context, or bound to the ends, the hunk finds no place. */
  ghost predicate NotBefore(s: State, frag: Fragment, body: seq<HunkLine>, mode: Mode, m: nat, bound: bool) {
    !bound ==>
      && NowhereWith(s, frag, body, mode, AllContext(frag), true)
      && forall k :: m < k <= AllContext(frag) ==> NowhereWith(s, frag, body, mode, k, false)
  }

  ghost predicate NowhereWith(s: State, frag: Fragment, body: seq<HunkLine>, mode: Mode, m: nat, bound: bool) {
    FoundAt(s, Reduced(frag, body, m, bound), mode, -1)
  }

  // ---- what it brings ----

  /** n lines at pos are replaced and marked; the table for the other lines stays. */
  ghost predicate ReplacedAt(s: State, s': State, pos: nat, n: nat, post: seq<string>) {
    && pos + n <= |s.texts| == |s.table| && s'.texts == s.texts[..pos] + post + s.texts[pos + n..]
    && |s'.table| == |s'.texts| && s'.table[pos + |post|..] == s.table[pos + n..] && s'.table[..pos] == s.table[..pos]
    && AllPatched(s'.table, pos, pos + |post|)
  }

  ghost predicate AllPatched(table: seq<Line>, lo: nat, hi: nat) {
    forall i :: lo <= i < hi && i < |table| ==> table[i].patched
  }

  // the lines a hunk brings, and how many it takes away
  datatype Change = Change(lines: seq<string>, n: nat)

  /** What a hunk brings to a place where the old lines stand as w: its new lines as they are if w is the same
      to the byte; else, with whitespace ignored, its new lines with the common ones as they are there. If the
      lines of the place, cut again, are fewer than they were, a hunk without new lines takes that many away,
      and for any other the program aborts. */
  ghost function Brings(body: seq<HunkLine>, reverse: bool, exact: bool, w: seq<string>): Option<Change>
    requires |w| == |Old(body, reverse)|
  {
    var again := |SplitLines(Flatten(w))|;
    if exact then Some(Change(New(body, reverse), |w|))
    else if again == |w| then Some(Change(Redone(body, reverse, w), |w|))
    else if New(body, reverse) == [] then Some(Change([], again))
    else None
  }

  ghost predicate GoesAt(s: State, x: Sought, mode: Mode, s': State, out: Outcome, pos: nat) {
    var n := |Old(x.body, mode.reverse)|;
    && pos + n <= |s.texts|
    && match Brings(x.body, mode.reverse, FindPosition.SameBytes(QueryFor(s, x, mode), pos), s.texts[pos..pos + n])
    case Some(c) => out == Applied && ReplacedAt(s, s', pos, c.n, c.lines)
    case None => out == Aborted && s' == s
  }

  /** A hunk goes to the place nearest to its claim, with as much of its context as can be kept; it is refused, and
      nothing changes, only if it is malformed or no place will do even with as little context as is asked for. */
  ghost predicate Goes(s: State, frag: Fragment, mode: Mode, s': State, out: Outcome, pos: nat, m: nat, bound: bool) {
    match Body(frag.patch)
    case None => out == Refused && s' == s
    case Some(body) =>
      var x := Reduced(frag, body, m, bound);
      && MayTry(frag, mode.context, m, bound) && NotBefore(s, frag, body, mode, m, bound)
      && FoundAt(s, x, mode, if out == Refused then -1 else pos)
      && (if out == Refused then s' == s && IsLastTry(frag, mode.context, m, bound)
          else GoesAt(s, x, mode, s', out, pos))
  }

  ghost predicate Went(s: State, frag: Fragment, mode: Mode, s': State, out: Outcome) {
    exists pos: nat, m: nat, bound: bool :: Goes(s, frag, mode, s', out, pos, m, bound)
  }

  lemma NotApplied(s: State, frag: Fragment, mode: Mode, s': State, out: Outcome)
    requires Went(s, frag, mode, s', out) && out != Applied
    ensures s' == s
  {
  }

  /** A hunk whose old lines are where it claims, to the byte, goes there and brings its new lines. */
  lemma GoesAsClaimed(s: State, frag: Fragment, body: seq<HunkLine>, mode: Mode, s': State, out: Outcome, at: nat)
    requires Went(s, frag, mode, s', out) && Body(frag.patch) == Some(body)
    requires var x := Reduced(frag, body, AllContext(frag), true);
      && at == Claimed(s, x, mode) <= |s.texts| && Places(s, x, mode)(at)
      && FindPosition.SameBytes(QueryFor(s, x, mode), at)
    ensures out == Applied && ReplacedAt(s, s', at, |Old(body, mode.reverse)|, New(body, mode.reverse))
  {
    var pos: nat, m: nat, bound: bool :| Goes(s, frag, mode, s', out, pos, m, bound);
    NotReduced(frag, body, true);
    FoundBound(s, frag, body, mode, m, bound, at);
    FoundThere(s, Reduced(frag, body, m, bound), mode, s', out, pos, at);
  }

  lemma FoundBound(s: State, frag: Fragment, body: seq<HunkLine>, mode: Mode, m: nat, bound: bool, at: nat)
    requires NotBefore(s, frag, body, mode, m, bound)
    requires at <= |s.texts| && Places(s, Reduced(frag, body, AllContext(frag), true), mode)(at)
    ensures bound
  {
    assert !bound ==> NowhereWith(s, frag, body, mode, AllContext(frag), true);
  }

  lemma FoundThere(s: State, x: Sought, mode: Mode, s': State, out: Outcome, pos: nat, at: nat)
    requires at == Claimed(s, x, mode) <= |s.texts| && Places(s, x, mode)(at)
    requires FindPosition.SameBytes(QueryFor(s, x, mode), at) && FoundAt(s, x, mode, if out == Refused then -1 else pos)
    requires out != Refused ==> GoesAt(s, x, mode, s', out, pos)
    ensures out == Applied && ReplacedAt(s, s', at, |Old(x.body, mode.reverse)|, New(x.body, mode.reverse))
  {
    NearestIsClaimed(Places(s, x, mode), if out == Refused then -1 else pos, at, |s.texts|);
  }

  lemma NearestIsClaimed(places: nat -> bool, pos: int, claimed: nat, nr: nat)
    requires FindPosition.Nearest(places, pos, claimed, nr) && claimed <= nr && places(claimed)
    ensures pos == claimed
  {
  }

  /** With all its context a hunk adds as many lines as it has more new than old ones, unless lines are joined. */
  lemma GoesLength(s: State, frag: Fragment, body: seq<HunkLine>, mode: Mode, s': State)
    requires Went(s, frag, mode, s', Applied) && Body(frag.patch) == Some(body) && AllContext(frag) <= mode.context
    requires New(body, mode.reverse) != [] || WellCut(s.texts)
    ensures |s'.texts| == |s.texts| + |New(body, mode.reverse)| - |Old(body, mode.reverse)|
  {
    var pos: nat, m: nat, bound: bool :| Goes(s, frag, mode, s', Applied, pos, m, bound);
    NotReduced(frag, body, bound);
    LengthThere(s, Reduced(frag, body, m, bound), mode, s', pos);
  }

  lemma LengthThere(s: State, x: Sought, mode: Mode, s': State, pos: nat)
    requires GoesAt(s, x, mode, s', Applied, pos) && (New(x.body, mode.reverse) != [] || WellCut(s.texts))
    ensures |s'.texts| == |s.texts| + |New(x.body, mode.reverse)| - |Old(x.body, mode.reverse)|
  {
    var n := |Old(x.body, mode.reverse)|;
    RedoneLength(x.body, mode.reverse, s.texts[pos..pos + n]);
    if WellCut(s.texts) {
      WindowWellCut(s.texts, pos, n);
    }
  }

  lemma WindowWellCut(texts: seq<string>, at: nat, n: nat)
    requires WellCut(texts) && at + n <= |texts|
    ensures |SplitLines(Flatten(texts[at..at + n]))| == n
  {
    var w := texts[at..at + n];
    assert forall i :: 0 <= i < n ==> w[i] == texts[at + i];
    SplitFlatten(w);
  }

  // ---- looking for it ----

  /** The images hold the hunk as it is looked for. */
  ghost predicate Looking(pre: Content, post: Content, frag: Fragment, body: seq<HunkLine>, mode: Mode, m: nat,
                          bound: bool) {
    && Holds(pre, post, Kept(frag, body, m), mode.reverse) && MayTry(frag, mode.context, m, bound)
    && (AllContext(frag) <= mode.context || HasContext(frag, body))
  }

  // how much context is left, where the hunk is looked for, and whether it is bound to the ends
  datatype Try = Try(leading: nat, trailing: nat, pos: int, atStart: bool, atEnd: bool)

  ghost predicate LeftOver(frag: Fragment, m: nat, bound: bool, t: Try) {
    t == Try(Min(frag.leading, m), Min(frag.trailing, m), PosOf(frag, m), bound && frag.oldpos <= 1,
             bound && frag.trailing == 0)
  }

  /** A try: the images hold what is looked for, and all tries before found no place. */
  ghost predicate Seeking(s: State, pre: Content, post: Content, frag: Fragment, body: seq<HunkLine>, mode: Mode,
                          m: nat, bound: bool, t: Try) {
    Looking(pre, post, frag, body, mode, m, bound) && NotBefore(s, frag, body, mode, m, bound)
      && LeftOver(frag, m, bound, t)
  }

  lemma AtLimit(frag: Fragment, context: nat, m: nat)
    requires m <= AllContext(frag)
    ensures Min(frag.leading, m) <= context && Min(frag.trailing, m) <= context <==> m <= context
  {
  }

  /** Without anchors it makes no difference whether they count. */
  lemma Unbound(s: State, frag: Fragment, body: seq<HunkLine>, mode: Mode, m: nat, bound: bool)
    requires MayTry(frag, mode.context, m, bound) && NotBefore(s, frag, body, mode, m, bound)
    requires NowhereWith(s, frag, body, mode, m, bound) && (bound ==> frag.oldpos > 1 && frag.trailing != 0) && m > 0
    ensures NotBefore(s, frag, body, mode, m - 1, false)
  {
    assert bound ==> Reduced(frag, body, m, true) == Reduced(frag, body, m, false);
    assert NowhereWith(s, frag, body, mode, m, false);
  }

  /** The next try after one bound to an end is the same, but bound to none. */
  lemma Unbinds(s: State, pre: Content, post: Content, frag: Fragment, body: seq<HunkLine>, mode: Mode, m: nat,
                bound: bool, t: Try)
    requires Seeking(s, pre, post, frag, body, mode, m, bound, t) && (t.atStart || t.atEnd) && mode.context < m
    requires NowhereWith(s, frag, body, mode, m, bound)
    ensures bound && Seeking(s, pre, post, frag, body, mode, m, false, t.(atStart := false, atEnd := false))
  {
  }

  /** Whether a line is taken off the front, and off the end, of a hunk with this much context. */
  predicate OffFront(leading: nat, trailing: nat) { leading >= trailing }

  predicate OffEnd(leading: nat, trailing: nat) { trailing >= leading }

  predicate Trimmable(b: seq<HunkLine>, front: bool, end: bool) {
    && (front ==> b != [] && b[0].tag == ' ') && (end ==> b != [] && b[|b| - 1].tag == ' ')
    && (front && end ==> |b| > 1)
  }

  function Trim(b: seq<HunkLine>, front: bool, end: bool): seq<HunkLine>
    requires Trimmable(b, front, end)
  {
    var rest := if front then b[1..] else b;
    if end then rest[..|rest| - 1] else rest
  }

  lemma CountsLess(frag: Fragment, m: nat, leading: nat, trailing: nat)
    requires 0 < m <= AllContext(frag) && leading == Min(frag.leading, m) && trailing == Min(frag.trailing, m)
    ensures Min(frag.leading, m - 1) == (if OffFront(leading, trailing) then leading - 1 else leading)
    ensures Min(frag.trailing, m - 1) == (if OffEnd(leading, trailing) then trailing - 1 else trailing)
    ensures (OffFront(leading, trailing) ==> leading > 0) && (OffEnd(leading, trailing) ==> trailing > 0)
  {
  }

  /** One line of context less: off the front, off the end, or off both. */
  lemma KeptLess(frag: Fragment, body: seq<HunkLine>, m: nat, leading: nat, trailing: nat)
    requires HasContext(frag, body) && 0 < m <= AllContext(frag) && leading == Min(frag.leading, m)
      && trailing == Min(frag.trailing, m)
    ensures var front, end := OffFront(leading, trailing), OffEnd(leading, trailing);
      Trimmable(Kept(frag, body, m), front, end) && Trim(Kept(frag, body, m), front, end) == Kept(frag, body, m - 1)
  {
    CountsLess(frag, m, leading, trailing);
    var skip, drop := frag.leading - leading, frag.trailing - trailing;
    var b := body[skip..|body| - drop];
    assert Kept(frag, body, m) == b;
    if OffFront(leading, trailing) {
      assert IsCommon(body, skip) && b[0] == body[skip];
    }
    if OffEnd(leading, trailing) {
      assert IsCommon(body, |body| - drop - 1) && b[|b| - 1] == body[|body| - drop - 1];
    }
  }

  function Less(t: Try): Try
    requires (OffFront(t.leading, t.trailing) ==> t.leading > 0) && (OffEnd(t.leading, t.trailing) ==> t.trailing > 0)
  {
    var front, end := OffFront(t.leading, t.trailing), OffEnd(t.leading, t.trailing);
    Try(if front then t.leading - 1 else t.leading, if end then t.trailing - 1 else t.trailing,
        if front then t.pos - 1 else t.pos, false, false)
  }

  lemma LeftLess(frag: Fragment, m: nat, bound: bool, t: Try, m': nat)
    requires LeftOver(frag, m, bound, t) && 0 < m <= AllContext(frag) && m' == m - 1
    ensures (OffFront(t.leading, t.trailing) ==> t.leading > 0) && (OffEnd(t.leading, t.trailing) ==> t.trailing > 0)
    ensures LeftOver(frag, m', false, Less(t))
  {
    CountsLess(frag, m, t.leading, t.trailing);
  }

  /** Takes context lines off both images: the first, the last, or both. */
  method TakeOff(pre: Image, post: Image, front: bool, end: bool, ghost b: seq<HunkLine>, ghost reverse: bool,
                 ghost b': seq<HunkLine>)
    requires pre != post && pre.Valid() && post.Valid() && Holds(Inside(pre), Inside(post), b, reverse)
    requires Trimmable(b, front, end) && b' == Trim(b, front, end)
    modifies pre, post
    ensures pre.Valid() && post.Valid() && Holds(Inside(pre), Inside(post), b', reverse)
  {
    ghost var rest := b;
    if front {
      HoldsButFirst(Inside(pre), Inside(post), b, reverse);
      RemoveFirst(pre);
      RemoveFirst(post);
      rest := b[1..];
    }
    if end {
      HoldsButLast(Inside(pre), Inside(post), rest, reverse);
      RemoveLast(pre);
      RemoveLast(post);
    }
  }

  method RemoveFirst(img: Image)
    requires img.Valid() && Inside(img).texts != [] && Inside(img).flags != []
    modifies img
    ensures img.Valid() && Inside(img) == ButFirst(old(Inside(img)))
  {
    img.RemoveFirst();
  }

  method RemoveLast(img: Image)
    requires img.Valid() && Inside(img).texts != [] && Inside(img).flags != []
    modifies img
    ensures img.Valid() && Inside(img) == ButLast(old(Inside(img)))
  {
    img.RemoveLast();
  }

  method FindSought(img: Image, pre: Image, pos: int, atStart: bool, atEnd: bool, mode: Mode, ghost x: Sought)
    returns (at: int)
    requires img.Valid() && pre.Valid() && pre.texts == Old(x.body, mode.reverse)
    requires pos == x.pos && atStart == x.atStart && atEnd == x.atEnd
    ensures FoundAt(State(img.texts, img.line), x, mode, at) && (at >= 0 ==> at + |pre.line| <= |img.line|)
  {
    assert FindPosition.HashesIn(pre.line) == Hashes(pre.texts);
    ghost var tried;
    at, tried := FindPosition.FindPos(img, pre, pos, atStart, atEnd, false, mode.ignoreSpace);
  }

  /** Reduces the larger context by a line, or both if they are equal. */
  method Reduce(pre: Image, post: Image, frag: Fragment, mode: Mode, t: Try, ghost body: seq<HunkLine>, ghost m: nat,
                ghost bound: bool, ghost m': nat)
    returns (t': Try)
    requires pre != post && pre.Valid() && post.Valid()
    requires Looking(Inside(pre), Inside(post), frag, body, mode, m, bound)
    requires LeftOver(frag, m, bound, t) && !t.atStart && !t.atEnd && mode.context < m && m' == m - 1
    modifies pre, post
    ensures pre.Valid() && post.Valid() && Looking(Inside(pre), Inside(post), frag, body, mode, m', false)
    ensures LeftOver(frag, m', false, t')
  {
    KeptLess(frag, body, m, t.leading, t.trailing);
    LeftLess(frag, m, bound, t, m');
    TakeOff(pre, post, OffFront(t.leading, t.trailing), OffEnd(t.leading, t.trailing), Kept(frag, body, m),
            mode.reverse, Kept(frag, body, m'));
    t' := Less(t);
  }

  /** What to look for when there is no place: the same, bound to no end, or with less context. */
  method NextTry(pre: Image, post: Image, frag: Fragment, mode: Mode, t: Try, ghost s: State,
                 ghost body: seq<HunkLine>, ghost m: nat, ghost bound: bool)
    returns (t': Try, ghost m': nat, ghost bound': bool)
    requires pre != post && pre.Valid() && post.Valid()
    requires Seeking(s, Inside(pre), Inside(post), frag, body, mode, m, bound, t) && mode.context < m
    requires NowhereWith(s, frag, body, mode, m, bound)
    modifies pre, post
    ensures pre.Valid() && post.Valid() && Seeking(s, Inside(pre), Inside(post), frag, body, mode, m', bound', t')
    ensures m' < m || (m' == m && bound && !bound')
  {
    if t.atStart || t.atEnd {
      Unbinds(s, Inside(pre), Inside(post), frag, body, mode, m, bound, t);
      t', m', bound' := t.(atStart := false, atEnd := false), m, false;
    } else {
      Unbound(s, frag, body, mode, m, bound);
      m', bound' := m - 1, false;
      t' := Reduce(pre, post, frag, mode, t, body, m, bound, m');
      NowSeeking(s, Inside(pre), Inside(post), frag, body, mode, m', t');
    }
  }

  lemma NowSeeking(s: State, pre: Content, post: Content, frag: Fragment, body: seq<HunkLine>, mode: Mode, m: nat,
                   t: Try)
    requires Looking(pre, post, frag, body, mode, m, false) && NotBefore(s, frag, body, mode, m, false)
    requires LeftOver(frag, m, false, t)
    ensures Seeking(s, pre, post, frag, body, mode, m, false, t)
  {
  }

  method FindTry(img: Image, pre: Image, t: Try, frag: Fragment, mode: Mode, ghost s: State,
                 ghost body: seq<HunkLine>, ghost m: nat, ghost bound: bool)
    returns (at: int, stop: bool)
    requires img.Valid() && pre.Valid() && s == State(img.texts, img.line) && m <= AllContext(frag)
    requires pre.texts == Old(Kept(frag, body, m), mode.reverse) && LeftOver(frag, m, bound, t)
    ensures FoundAt(s, Reduced(frag, body, m, bound), mode, at) && (at >= 0 ==> at + |pre.line| <= |img.line|)
    ensures at < 0 ==> NowhereWith(s, frag, body, mode, m, bound)
    ensures stop <==> at >= 0 || m <= mode.context
  {
    at := FindSought(img, pre, t.pos, t.atStart, t.atEnd, mode, Reduced(frag, body, m, bound));
    AtLimit(frag, mode.context, m);
    stop := at >= 0 || (t.leading <= mode.context && t.trailing <= mode.context);
  }

  /** Looks for the hunk, first as it is, then anywhere, then with less and less context. */
  method Locate(img: Image, pre: Image, post: Image, frag: Fragment, mode: Mode, ghost body: seq<HunkLine>,
                ghost s: State)
    returns (at: int, t: Try, ghost m: nat, ghost bound: bool)
    requires img.Valid() && pre.Valid() && post.Valid() && pre != post && img != pre && img != post
      && s == State(img.texts, img.line)
    requires Looking(Inside(pre), Inside(post), frag, body, mode, AllContext(frag), true)
    modifies pre, post
    ensures pre.Valid() && post.Valid() && Seeking(s, Inside(pre), Inside(post), frag, body, mode, m, bound, t)
    ensures FoundAt(s, Reduced(frag, body, m, bound), mode, at)
    ensures at >= 0 ==> at + |pre.line| <= |img.line|
    ensures at < 0 ==> m <= mode.context && NowhereWith(s, frag, body, mode, m, bound)
  {
    t := Try(frag.leading, frag.trailing, if frag.newpos > 0 then frag.newpos - 1 else 0,
             frag.oldpos == 0 || frag.oldpos == 1, frag.trailing == 0);
    m, bound := AllContext(frag), true;
    while true
      invariant pre.Valid() && post.Valid() && Seeking(s, Inside(pre), Inside(post), frag, body, mode, m, bound, t)
      decreases m, bound
    {
      var stop;
      at, stop := FindTry(img, pre, t, frag, mode, s, body, m, bound);
      if stop {
        return;
      }
      t, m, bound := NextTry(pre, post, frag, mode, t, s, body, m, bound);
    }
  }

  // ---- bringing it ----

  /** Whether the old lines are at the place to the byte. */
  method ExactThere(img: Image, pre: Image, off: nat, at: nat, atEnd: bool, ghost q: FindPosition.Query)
    returns (exact: bool)
    requires img.Valid() && pre.Valid() && at <= |img.line| && off == |Flatten(img.texts[..at])| && q.img == img.texts
      && q.pre == pre.texts && q.atEnd == atEnd
    ensures exact <==> FindPosition.SameBytes(q, at)
  {
    FlattenSplit(img.texts, at);
    assert img.buf[off..] == Flatten(img.texts[at..]);
    exact := (if atEnd then off + |pre.buf| == |img.buf| else off + |pre.buf| <= |img.buf|)
      && img.buf[off..off + |pre.buf|] == pre.buf;
  }

  lemma WindowBytes(buf: string, texts: seq<string>, at: nat, n: nat)
    requires buf == Flatten(texts) && at + n <= |texts|
    ensures |Flatten(texts[..at])| <= |Flatten(texts[..at + n])| <= |buf|
    ensures buf[|Flatten(texts[..at])|..|Flatten(texts[..at + n])|] == Flatten(texts[at..at + n])
  {
    FlattenSplit(texts, at + n);
    FlattenSplit(texts[..at + n], at);
    assert texts[..at + n][..at] == texts[..at] && texts[..at + n][at..] == texts[at..at + n];
  }

  lemma SpaceHashes(q: FindPosition.Query, at: nat, w: seq<string>)
    requires at + |q.pre| <= |q.img| && w == q.img[at..at + |q.pre|] && FindPosition.SameButSpace(q, at)
    ensures SameHashes(q.pre, w)
  {
    forall k | 0 <= k < |w|
      ensures HashLine(q.pre[k]) == HashLine(w[k])
    {
      assert FindPosition.SameLine(q, at, k);
      FuzzyHash(q.img[at + k], q.pre[k]);
    }
  }

  /** Adapts the new lines to the whitespace of the place; there may be fewer lines there, cut again. */
  method AdaptTo(img: Image, pre: Image, post: Image, off: nat, at: nat, ghost w: seq<string>,
                 ghost body: seq<HunkLine>, ghost reverse: bool)
    returns (ok: bool, n: nat)
    requires img.Valid() && pre.Valid() && post.Valid() && post != pre && post != img && OneLined(img.texts)
    requires at + |pre.line| <= |img.line| && off == |Flatten(img.texts[..at])| && w == img.texts[at..at + |pre.line|]
    requires Holds(Inside(pre), Inside(post), body, reverse) && SameHashes(pre.texts, w)
    modifies post
    ensures post.Valid() && |w| == |Old(body, reverse)| && n <= |pre.line|
    ensures Brings(body, reverse, false, w) == if ok then Some(Change(post.texts, n)) else None
  {
    var fixed := CutAgain(img, off, at, |pre.line|);
    RecutPart(img.texts, at, |pre.line|, w, fixed.texts);
    n := |fixed.line|;
    if n == |pre.line| {
      FitIn(pre, post, fixed, body, reverse, w);
      ok := true;
    } else {
      ok := |post.line| == 0;
    }
  }

  method FitIn(pre: Image, post: Image, fixed: Image, ghost body: seq<HunkLine>, ghost reverse: bool,
               ghost w: seq<string>)
    requires pre.Valid() && post.Valid() && fixed.Valid() && post != pre && post != fixed && fixed.texts == w
    requires Holds(Inside(pre), Inside(post), body, reverse) && SameHashes(pre.texts, w)
    modifies post
    ensures post.Valid() && |w| == |Old(body, reverse)| && post.texts == Redone(body, reverse, w)
  {
    ReadyToAdapt(Inside(pre), Inside(post), body, reverse, w);
    UpdatePostImage(post, fixed, FlagsIn(pre.line));
  }

  lemma OneLinedPart(texts: seq<string>, at: nat, n: nat)
    requires OneLined(texts) && at + n <= |texts|
    ensures OneLined(texts[at..at + n])
  {
  }

  lemma RecutPart(texts: seq<string>, at: nat, n: nat, w: seq<string>, again: seq<string>)
    requires OneLined(texts) && at + n <= |texts| && w == texts[at..at + n] && again == SplitLines(Flatten(w))
    ensures |again| <= |w| && (|again| == |w| ==> again == w)
  {
    OneLinedPart(texts, at, n);
    SplitAgain(w);
  }

  /** The lines of a place, as its bytes are cut. */
  method CutAgain(img: Image, off: nat, at: nat, n: nat) returns (fixed: Image)
    requires img.Valid() && at + n <= |img.line| && off == |Flatten(img.texts[..at])|
    ensures fresh(fixed) && fixed.Valid() && fixed.texts == SplitLines(Flatten(img.texts[at..at + n]))
  {
    var upTo := img.OffsetOf(at + n);
    WindowBytes(img.buf, img.texts, at, n);
    fixed := PrepareImage(img.buf[off..upTo]);
  }

  /** The common lines of both sides match in their hashes, and adapting the new side gives what it should. */
  lemma ReadyToAdapt(pre: Content, post: Content, body: seq<HunkLine>, reverse: bool, w: seq<string>)
    requires Holds(pre, post, body, reverse) && SameHashes(pre.texts, w)
    ensures |post.texts| == |post.flags| && |pre.flags| == |w| && CountTrue(post.flags) == CountTrue(pre.flags)
    ensures SameHashes(Commons(post.texts, post.flags), Commons(w, pre.flags))
    ensures Refit(post.texts, post.flags, Commons(w, pre.flags)) == Redone(body, reverse, w)
  {
    RedoneFits(body, reverse, w);
    CommonsHashes(pre.texts, w, pre.flags);
  }

  /** The new lines as they are to be put at the place, and how many lines they replace. */
  method Prepare(img: Image, pre: Image, post: Image, at: nat, atEnd: bool, ghost w: seq<string>,
                 ghost body: seq<HunkLine>, ghost reverse: bool, ghost q: FindPosition.Query)
    returns (ok: bool, n: nat)
    requires img.Valid() && pre.Valid() && post.Valid() && post != pre && post != img && OneLined(img.texts)
      && at + |pre.line| <= |img.line|
    requires w == img.texts[at..at + |pre.line|] && Holds(Inside(pre), Inside(post), body, reverse)
    requires q.img == img.texts && q.pre == pre.texts && q.atEnd == atEnd && FindPosition.Accepts(q, at)
    modifies post
    ensures post.Valid() && |w| == |Old(body, reverse)| && n <= |w|
    ensures Brings(body, reverse, FindPosition.SameBytes(q, at), w) == if ok then Some(Change(post.texts, n)) else None
  {
    var off := img.OffsetOf(at);
    var exact := ExactThere(img, pre, off, at, atEnd, q);
    ok, n := true, |pre.line|;
    if !exact {
      SpaceHashes(q, at, w);
      ok, n := AdaptTo(img, pre, post, off, at, w, body, reverse);
    }
  }

  method Splice(img: Image, at: nat, n: nat, post: Image, ghost s: State, ghost lines: seq<string>)
    requires img.Valid() && post.Valid() && post != img && at + n <= |img.line| && s == State(img.texts, img.line)
      && lines == post.texts
    modifies img
    ensures img.Valid() && ReplacedAt(s, State(img.texts, img.line), at, n, lines)
  {
    Spliced(s, at, n, post.texts, MarkAll(post.line, true));
    img.Update(at, n, post, false);
  }

  lemma Spliced(s: State, pos: nat, n: nat, post: seq<string>, postTable: seq<Line>)
    requires pos + n <= |s.texts| == |s.table| && |postTable| == |post| && AllPatched(postTable, 0, |post|)
    ensures ReplacedAt(s, State(s.texts[..pos] + post + s.texts[pos + n..],
                                s.table[..pos] + postTable + s.table[pos + n..]), pos, n, post)
  {
  }

  lemma OneLinedAfter(s: State, s': State, pos: nat, n: nat, post: seq<string>)
    requires OneLined(s.texts) && OneLined(post) && ReplacedAt(s, s', pos, n, post)
    ensures OneLined(s'.texts)
  {
    forall k | 0 <= k < |s'.texts|
      ensures OneLine(s'.texts[k])
    {
      assert s'.texts[k] == if k < pos then s.texts[k] else if k < pos + |post| then post[k - pos]
        else s.texts[k - |post| + n];
    }
  }

  lemma BringsOneLined(patch: string, all: seq<HunkLine>, body: seq<HunkLine>, reverse: bool, exact: bool,
                       texts: seq<string>, at: nat, n: nat, w: seq<string>)
    requires Body(patch) == Some(all) && (forall h :: h in body ==> h in all) && n == |Old(body, reverse)|
    requires at + n <= |texts| && OneLined(texts) && w == texts[at..at + n] && Brings(body, reverse, exact, w).Some?
    ensures OneLined(Brings(body, reverse, exact, w).value.lines)
  {
    OneLinedPart(texts, at, n);
    BodyOneLined(patch);
    forall i | 0 <= i < |body|
      ensures OneLine(body[i].text)
    {
      assert body[i] in body;
    }
    SideOneLined(body, '-');
    SideOneLined(body, '+');
    RedoneOneLined(body, reverse, w);
  }

  /** A hunk goes where its old lines are found, nearest to where it claims to be; else nothing changes. */
  method ApplyOneFragment(img: Image, frag: Fragment, mode: Mode) returns (out: Outcome)
    requires img.Valid() && OneLined(img.texts) && Reducible(frag, mode.context)
    modifies img
    ensures img.Valid() && OneLined(img.texts)
    ensures Went(old(State(img.texts, img.line)), frag, mode, State(img.texts, img.line), out)
  {
    ghost var s := State(img.texts, img.line);
    var ok, pre, post := ParseFragment(frag.patch, mode.reverse);
    if !ok {
      GoesMalformed(s, frag, mode);
      return Refused;
    }
    ghost var body := Body(frag.patch).value;
    NotReduced(frag, body, true);
    ghost var m, bound;
    var at, t;
    at, t, m, bound := Locate(img, pre, post, frag, mode, body, s);
    if at < 0 {
      GoesNowhere(s, frag, body, mode, m, bound);
      return Refused;
    }
    out := Place(img, pre, post, at, t.atEnd, frag, body, mode, Reduced(frag, body, m, bound));
    GoesThere(s, frag, body, mode, State(img.texts, img.line), out, at, m, bound);
  }

  lemma GoesMalformed(s: State, frag: Fragment, mode: Mode)
    requires Body(frag.patch) == None
    ensures Went(s, frag, mode, s, Refused)
  {
    assert Goes(s, frag, mode, s, Refused, 0, 0, true);
  }

  lemma GoesNowhere(s: State, frag: Fragment, body: seq<HunkLine>, mode: Mode, m: nat, bound: bool)
    requires Body(frag.patch) == Some(body) && MayTry(frag, mode.context, m, bound)
      && IsLastTry(frag, mode.context, m, bound)
    requires NotBefore(s, frag, body, mode, m, bound) && NowhereWith(s, frag, body, mode, m, bound)
    ensures Went(s, frag, mode, s, Refused)
  {
    assert Goes(s, frag, mode, s, Refused, 0, m, bound);
  }

  lemma GoesThere(s: State, frag: Fragment, body: seq<HunkLine>, mode: Mode, s': State, out: Outcome, at: nat, m: nat,
                  bound: bool)
    requires Body(frag.patch) == Some(body) && MayTry(frag, mode.context, m, bound) && out != Refused
    requires NotBefore(s, frag, body, mode, m, bound) && FoundAt(s, Reduced(frag, body, m, bound), mode, at)
    requires GoesAt(s, Reduced(frag, body, m, bound), mode, s', out, at)
    ensures Went(s, frag, mode, s', out)
  {
    assert Goes(s, frag, mode, s', out, at, m, bound);
  }

  method Place(img: Image, pre: Image, post: Image, at: nat, atEnd: bool, frag: Fragment, ghost body: seq<HunkLine>,
               ghost mode: Mode, ghost x: Sought)
    returns (out: Outcome)
    requires img.Valid() && pre.Valid() && post.Valid() && post != pre && post != img && pre != img
      && OneLined(img.texts) && at + |pre.line| <= |img.line|
    requires Body(frag.patch) == Some(body) && Holds(Inside(pre), Inside(post), x.body, mode.reverse)
      && atEnd == x.atEnd && (forall h :: h in x.body ==> h in body)
    requires FindPosition.Accepts(QueryFor(State(img.texts, img.line), x, mode), at)
    modifies img, post
    ensures img.Valid() && OneLined(img.texts) && out != Refused
    ensures GoesAt(old(State(img.texts, img.line)), x, mode, State(img.texts, img.line), out, at)
  {
    ghost var s, n := State(img.texts, img.line), |pre.line|;
    ghost var w, q := s.texts[at..at + n], QueryFor(s, x, mode);
    var ok, gone := Prepare(img, pre, post, at, atEnd, w, x.body, mode.reverse, q);
    if !ok {
      return Aborted;
    }
    ghost var lines := post.texts;
    BringsOneLined(frag.patch, body, x.body, mode.reverse, FindPosition.SameBytes(q, at), s.texts, at, n, w);
    Splice(img, at, gone, post, s, lines);
    PlacedGoes(s, x, mode, State(img.texts, img.line), Change(lines, gone), at, n, w);
    out := Applied;
  }

  lemma PlacedGoes(s: State, x: Sought, mode: Mode, s': State, c: Change, at: nat, n: nat, w: seq<string>)
    requires n == |Old(x.body, mode.reverse)| && at + n <= |s.texts| && w == s.texts[at..at + n]
    requires Brings(x.body, mode.reverse, FindPosition.SameBytes(QueryFor(s, x, mode), at), w) == Some(c)
    requires ReplacedAt(s, s', at, c.n, c.lines) && OneLined(s.texts) && OneLined(c.lines)
    ensures GoesAt(s, x, mode, s', Applied, at) && OneLined(s'.texts)
  {
    OneLinedAfter(s, s', at, c.n, c.lines);
  }
}
