/**
 Where a hunk fits (git/apply.c): a place is accepted or not, and places are tried outwards from where the
 hunk claims to be.
 */
module FindPosition {
  import opened ImageLines

  // what a place is judged by: the lines of the image and their table, the lines to be found there and their hashes,
  // whether they must be at the beginning or the end, and whether whitespace is ignored
  datatype Query = Query(img: seq<string>, table: seq<Line>, pre: seq<string>, hashes: seq<nat>, atStart: bool,
                         atEnd: bool, ignoreSpace: bool)

  function HashesIn(table: seq<Line>): seq<nat> { seq(|table|, i requires 0 <= i < |table| => table[i].hash) }

  /** The hashes are those of the lines. */
  ghost predicate HashesRight(q: Query) {
    && |q.table| == |q.img| && |q.hashes| == |q.pre|
    && (forall i :: 0 <= i < |q.img| ==> q.table[i].hash == HashLine(q.img[i]))
    && (forall i :: 0 <= i < |q.pre| ==> q.hashes[i] == HashLine(q.pre[i]))
  }

  ghost predicate WithinBounds(q: Query, lno: nat) {
    lno + |q.pre| <= |q.img| && (q.atEnd ==> lno + |q.pre| == |q.img|) && (q.atStart ==> lno == 0)
  }

  /** Line i of those looked for meets a line that no earlier hunk has changed. */
  ghost predicate Unpatched(q: Query, lno: nat, i: nat) { lno + i < |q.table| && !q.table[lno + i].patched }

  ghost predicate SameHash(q: Query, lno: nat, i: nat)
  {
    i < |q.hashes| && lno + i < |q.table| && q.hashes[i] == q.table[lno + i].hash
  }

  ghost predicate SameLine(q: Query, lno: nat, i: nat) {
    i < |q.pre| && lno + i < |q.img| && Squeeze(TrimEol(q.img[lno + i])) == Squeeze(TrimEol(q.pre[i]))
  }

  ghost predicate Untouched(q: Query, lno: nat) {
    forall i :: 0 <= i < |q.pre| ==> Unpatched(q, lno, i)
  }

  ghost predicate HashesAgree(q: Query, lno: nat) {
    forall i :: 0 <= i < |q.pre| ==> SameHash(q, lno, i)
  }

  /** The bytes at the place are those looked for. */
  ghost predicate SameBytes(q: Query, lno: nat)
    requires lno <= |q.img|
  {
    if q.atEnd then Flatten(q.img[lno..]) == Flatten(q.pre) else Flatten(q.pre) <= Flatten(q.img[lno..])
  }

  /** Line by line the same up to whitespace. */
  ghost predicate SameButSpace(q: Query, lno: nat) {
    forall i :: 0 <= i < |q.pre| ==> SameLine(q, lno, i)
  }

  ghost predicate Accepts(q: Query, lno: nat) {
    WithinBounds(q, lno) && Untouched(q, lno) && HashesAgree(q, lno)
      && (SameBytes(q, lno) || (q.ignoreSpace && SameButSpace(q, lno)))
  }

  /**
     The comparison of hashes turns no place away where the lines are there, exactly or, if asked for, up to
     whitespace.
   */
  lemma HashRejectsNothing(q: Query, lno: nat)
    requires HashesRight(q) && WithinBounds(q, lno) && Untouched(q, lno)
    requires q.img[lno..lno + |q.pre|] == q.pre || (q.ignoreSpace && SameButSpace(q, lno))
    ensures Accepts(q, lno)
  {
    var n := |q.pre|;
    if q.img[lno..lno + n] == q.pre {
      forall i | 0 <= i < n
        ensures SameHash(q, lno, i)
      {
        assert q.pre[i] == q.img[lno..lno + n][i] == q.img[lno + i];
      }
      LinesAreBytes(q, lno);
    } else {
      forall i | 0 <= i < n
        ensures SameHash(q, lno, i)
      {
        assert SameLine(q, lno, i);
        FuzzyHash(q.img[lno + i], q.pre[i]);
      }
    }
  }

  /** Lines that are there are there to the byte. */
  lemma LinesAreBytes(q: Query, lno: nat)
    requires WithinBounds(q, lno) && q.img[lno..lno + |q.pre|] == q.pre
    ensures SameBytes(q, lno)
  {
    var n := |q.pre|;
    FlattenSplit(q.img[lno..], n);
    assert q.img[lno..][..n] == q.pre;
    if q.atEnd {
      assert q.img[lno..][n..] == [];
    }
  }

  method HashCheck(img: Image, pre: Image, lno: nat, ghost q: Query) returns (ok: bool)
    requires q.table == img.line && |q.pre| == |pre.line| && q.hashes == HashesIn(pre.line)
      && lno + |pre.line| <= |img.line|
    ensures ok <==> Untouched(q, lno) && HashesAgree(q, lno)
  {
    var i := 0;
    while i < |pre.line|
      invariant 0 <= i <= |pre.line|
      invariant forall k :: 0 <= k < i ==> Unpatched(q, lno, k)
      invariant forall k :: 0 <= k < i ==> SameHash(q, lno, k)
    {
      if img.line[lno + i].patched || pre.line[i].hash != img.line[lno + i].hash {
        assert !Unpatched(q, lno, i) || !SameHash(q, lno, i);
        return false;
      }
      i := i + 1;
    }
    return true;
  }

  lemma LineAt(buf: string, texts: seq<string>, i: nat)
    requires buf == Flatten(texts) && i < |texts|
    ensures var off := |Flatten(texts[..i])|;
      off + |texts[i]| == |Flatten(texts[..i + 1])| <= |buf| && buf[off..off + |texts[i]|] == texts[i]
  {
    FlattenNext(texts, i);
    FlattenSplit(texts, i + 1);
  }

  /** A line, by its offset in the buffer. */
  method LineText(img: Image, off: nat, i: nat) returns (text: string)
    requires img.Valid() && i < |img.line| && off == |Flatten(img.texts[..i])|
    ensures text == img.texts[i] && off + img.line[i].len == |Flatten(img.texts[..i + 1])| && |text| == img.line[i].len
  {
    LineAt(img.buf, img.texts, i);
    text := img.buf[off..off + img.line[i].len];
  }

  /** Compares two lines at their offsets, and gives the offsets of the next ones. */
  method FuzzyLine(img: Image, pre: Image, imgoff: nat, preoff: nat, n: nat, i: nat, ghost lno: nat, ghost q: Query)
    returns (same: bool, imgoff': nat, preoff': nat)
    requires q.img == img.texts && q.pre == pre.texts && n == lno + i && lno + |pre.texts| <= |img.texts|
    requires img.Valid() && pre.Valid() && n < |img.line| && i < |pre.line| && imgoff == |Flatten(img.texts[..n])|
      && preoff == |Flatten(pre.texts[..i])|
    ensures same <==> SameLine(q, lno, i)
    ensures imgoff' == |Flatten(img.texts[..n + 1])| && preoff' == |Flatten(pre.texts[..i + 1])|
  {
    var imgLine := LineText(img, imgoff, n);
    var preLine := LineText(pre, preoff, i);
    same := FuzzyMatchLines(imgLine, preLine);
    imgoff', preoff' := imgoff + img.line[n].len, preoff + pre.line[i].len;
  }

  /** Line by line, each at its offset in its buffer. */
  method FuzzyLines(img: Image, pre: Image, current: nat, lno: nat, ghost q: Query) returns (ok: bool)
    requires img.Valid() && pre.Valid() && q.img == img.texts && q.pre == pre.texts && lno + |pre.line| <= |img.line|
    requires current == |Flatten(img.texts[..lno])|
    ensures ok <==> SameButSpace(q, lno)
  {
    var imgoff, preoff := current, 0;
    var i, n := 0, lno;
    while i < |pre.line|
      invariant 0 <= i <= |pre.line| && n == lno + i && imgoff == |Flatten(img.texts[..n])|
        && preoff == |Flatten(pre.texts[..i])|
      invariant forall k :: 0 <= k < i ==> SameLine(q, lno, k)
    {
      var same;
      same, imgoff, preoff := FuzzyLine(img, pre, imgoff, preoff, n, i, lno, q);
      if !same {
        return false;
      }
      i, n := i + 1, n + 1;
    }
    return true;
  }

  /** Judges one place, given its line number and its offset in the buffer. */
  method MatchFragment(img: Image, pre: Image, current: nat, lno: nat, atStart: bool, atEnd: bool, ignoreSpace: bool)
    returns (ok: bool)
    requires img.Valid() && pre.Valid() && lno <= |img.line| && current == |Flatten(img.texts[..lno])|
    ensures ok <==> Accepts(Query(img.texts, img.line, pre.texts, HashesIn(pre.line), atStart, atEnd, ignoreSpace), lno)
  {
    ghost var q := Query(img.texts, img.line, pre.texts, HashesIn(pre.line), atStart, atEnd, ignoreSpace);
    if |pre.line| + lno > |img.line| || (atEnd && |pre.line| + lno != |img.line|) || (atStart && lno != 0) {
      return false;
    }
    var hashes := HashCheck(img, pre, lno, q);
    if !hashes {
      return false;
    }
    FlattenSplit(img.texts, lno);
    assert img.buf[current..] == Flatten(img.texts[lno..]);
    if (if atEnd then current + |pre.buf| == |img.buf| else current + |pre.buf| <= |img.buf|)
      && img.buf[current..current + |pre.buf|] == pre.buf {
      return true;
    }
    if ignoreSpace {
      ok := FuzzyLines(img, pre, current, lno, q);
      return;
    }
    return false;
  }

  // ---- the search ----

  /**
     Where the search starts: at the claimed line, or at the end the lines must be at; a line out of range counts as
     the end.
   */
  function Start(line: int, imgLines: nat, preLines: nat, atStart: bool, atEnd: bool): nat {
    var l := if atStart then 0 else if atEnd then imgLines - preLines else line;
    if 0 <= l <= imgLines then l else imgLines
  }

  function Distance(a: nat, b: nat): nat { if a < b then b - a else a - b }

  /** p is tried before r. */
  predicate Before(p: nat, r: nat, start: nat) {
    Distance(p, start) < Distance(r, start) || (Distance(p, start) == Distance(r, start) && p > r)
  }

  // the search so far: places lo to hi, with the offsets of both ends, the place at hand, and whose turn it is
  datatype Cursor = Cursor(start: nat, lo: nat, hi: nat, backwards: nat, forwards: nat, lno: nat, i: nat)

  /** The two sides take turns as long as both have places left. */
  predicate TakesTurns(c: Cursor, nr: nat) {
    && c.lo <= c.start <= c.hi <= nr && (c.lno == c.lo || c.lno == c.hi)
    && (c.lo > 0 && c.hi < nr ==> c.hi - c.start == (c.start - c.lo) + c.i % 2)
    && (c.hi < nr ==> c.start - c.lo <= c.hi - c.start)
    && (c.lo > 0 ==> c.hi - c.start <= c.start - c.lo + 1)
  }

  /** The offsets are those of the lines. */
  ghost predicate OffsetsFit(c: Cursor, texts: seq<string>) {
    c.lo <= |texts| && c.hi <= |texts| && c.backwards == |Flatten(texts[..c.lo])|
      && c.forwards == |Flatten(texts[..c.hi])|
  }

  /** The places tried are lo to hi, each once. */
  ghost predicate Tried(tried: seq<nat>, c: Cursor) {
    && |tried| == c.hi - c.lo + 1 && (forall k :: 0 <= k < |tried| ==> c.lo <= tried[k] <= c.hi)
    && (forall k, l :: 0 <= k < l < |tried| ==> tried[k] != tried[l])
  }

  /** All places but the one at hand were turned away. */
  ghost predicate OthersRejected(accepts: nat -> bool, c: Cursor) {
    forall p: nat :: c.lo <= p <= c.hi && p != c.lno ==> !accepts(p)
  }

  ghost predicate Nearest(accepts: nat -> bool, pos: int, start: nat, nr: nat) {
    && (pos >= 0 ==> pos <= nr && accepts(pos) && forall p: nat :: p <= nr && Before(p, pos, start) ==> !accepts(p))
    && (pos < 0 ==> forall p: nat :: p <= nr ==> !accepts(p))
  }

  lemma NearestFound(accepts: nat -> bool, c: Cursor, nr: nat)
    requires TakesTurns(c, nr) && OthersRejected(accepts, c) && accepts(c.lno)
    ensures Nearest(accepts, c.lno, c.start, nr)
  {
  }

  /** A side that has no places left gives up its turn. */
  function Turn(c: Cursor, nr: nat): nat {
    if (c.i % 2 == 1 && c.lo == 0) || (c.i % 2 == 0 && c.hi == nr) then c.i + 1 else c.i
  }

  lemma TurnTaken(c: Cursor, i: nat, c': Cursor, nr: nat)
    requires TakesTurns(c, nr) && !(c.lo == 0 && c.hi == nr) && i == Turn(c, nr) && c'.i == i + 1 && c'.start == c.start
    requires if i % 2 == 1 then c'.lo == c.lo - 1 == c'.lno && c'.hi == c.hi
      else c'.lo == c.lo && c'.hi == c.hi + 1 == c'.lno
    ensures TakesTurns(c', nr)
  {
  }

  /** One place back or one place on. */
  method Advance(img: Image, c: Cursor) returns (c': Cursor)
    requires img.Valid() && TakesTurns(c, |img.line|) && OffsetsFit(c, img.texts) && !(c.lo == 0 && c.hi == |img.line|)
    ensures TakesTurns(c', |img.line|) && OffsetsFit(c', img.texts) && c'.start == c.start
    ensures (c'.lo == c.lo - 1 && c'.hi == c.hi && c'.lno == c'.lo)
      || (c'.lo == c.lo && c'.hi == c.hi + 1 && c'.lno == c'.hi)
  {
    var i := c.i;
    if (i % 2 == 1 && c.lo == 0) || (i % 2 == 0 && c.hi == |img.line|) {
      i := i + 1;
    }
    if i % 2 == 1 {
      var lo := c.lo - 1;
      LineAt(img.buf, img.texts, lo);
      assert img.line[lo].len == |img.texts[lo]|;
      c' := c.(lo := lo, backwards := c.backwards - img.line[lo].len, lno := lo, i := i + 1);
    } else {
      LineAt(img.buf, img.texts, c.hi);
      assert img.line[c.hi].len == |img.texts[c.hi]|;
      c' := c.(hi := c.hi + 1, forwards := c.forwards + img.line[c.hi].len, lno := c.hi + 1, i := i + 1);
    }
    TurnTaken(c, i, c', |img.line|);
  }

  ghost function AcceptedBy(q: Query): nat -> bool { (p: nat) => Accepts(q, p) }

  method TryPlace(img: Image, pre: Image, c: Cursor, atStart: bool, atEnd: bool, ignoreSpace: bool,
                  ghost accepts: nat -> bool)
    returns (ok: bool)
    requires img.Valid() && pre.Valid() && TakesTurns(c, |img.line|) && OffsetsFit(c, img.texts)
    requires accepts == AcceptedBy(Query(img.texts, img.line, pre.texts, HashesIn(pre.line), atStart, atEnd,
                                         ignoreSpace))
    ensures ok <==> accepts(c.lno)
  {
    ok := MatchFragment(img, pre, if c.lno == c.hi then c.forwards else c.backwards, c.lno, atStart, atEnd,
                        ignoreSpace);
  }

  /** Tries the places in order of distance, each once. */
  method Search(img: Image, pre: Image, start: nat, atStart: bool, atEnd: bool, ignoreSpace: bool,
                ghost accepts: nat -> bool)
    returns (pos: int, ghost tried: seq<nat>)
    requires img.Valid() && pre.Valid() && start <= |img.line|
      && accepts == AcceptedBy(Query(img.texts, img.line, pre.texts, HashesIn(pre.line), atStart, atEnd, ignoreSpace))
    ensures Nearest(accepts, pos, start, |img.line|)
    ensures forall k, l :: 0 <= k < l < |tried| ==> tried[k] != tried[l]
  {
    var offset := img.OffsetOf(start);
    var c := Cursor(start, start, start, offset, offset, start, 0);
    tried := [start];
    while true
      invariant TakesTurns(c, |img.line|) && OffsetsFit(c, img.texts) && OthersRejected(accepts, c) && Tried(tried, c)
        && c.start == start
      decreases |img.line| - c.hi + c.lo
    {
      var ok := TryPlace(img, pre, c, atStart, atEnd, ignoreSpace, accepts);
      if ok {
        NearestFound(accepts, c, |img.line|);
        return c.lno, tried;
      }
      if c.lo == 0 && c.hi == |img.line| {
        break;
      }
      c := Advance(img, c);
      tried := tried + [c.lno];
    }
    pos := -1;
  }

  /** Finds the accepted place nearest to where the search starts, the later of two; -1 only if there is none. */
  method FindPos(img: Image, pre: Image, line: int, atStart: bool, atEnd: bool, allowOverlap: bool, ignoreSpace: bool)
    returns (pos: int, ghost tried: seq<nat>)
    requires img.Valid() && pre.Valid()
    ensures var q := SearchFor(img, pre, atStart, atEnd, allowOverlap, ignoreSpace);
      Nearest(AcceptedBy(q), pos, Start(line, |img.line|, |pre.line|, q.atStart, atEnd), |img.line|)
        && (pos < 0 ==> forall p: nat :: !Accepts(q, p))
    ensures pos >= 0 ==> pos + |pre.line| <= |img.line|
    ensures forall k, l :: 0 <= k < l < |tried| ==> tried[k] != tried[l]
  {
    var start0 := atStart && !(allowOverlap && atEnd && |img.line| != |pre.line|);
    ghost var q := SearchFor(img, pre, atStart, atEnd, allowOverlap, ignoreSpace);
    var from := line;
    if start0 {
      from := 0;
    } else if atEnd {
      from := |img.line| - |pre.line|;
    }
    if from < 0 || from > |img.line| {
      from := |img.line|;
    }
    pos, tried := Search(img, pre, from, start0, atEnd, ignoreSpace, AcceptedBy(q));
    if pos >= 0 {
      assert Accepts(q, pos);
    } else {
      forall p: nat
        ensures !Accepts(q, p)
      {
        assert p <= |img.line| ==> !AcceptedBy(q)(p);
      }
    }
  }

  ghost function SearchFor(img: Image, pre: Image, atStart: bool, atEnd: bool, allowOverlap: bool,
                           ignoreSpace: bool): Query
    reads img, pre
  {
    Query(img.texts, img.line, pre.texts, HashesIn(pre.line), atStart
          && !(allowOverlap && atEnd && |img.line| != |pre.line|), atEnd, ignoreSpace)
  }
}
