/**
 Line images of the patch engine (git/apply.c): a buffer cut into lines, each with a hash that
 ignores whitespace; and the comparison of lines up to whitespace.
 */
module ImageLines {

  predicate IsSpace(c: char) { c == ' ' || c == '\t' || c == '\n' || c == '\r' }

  // ---- hashes ----

  function HashStep(h: nat, c: char): nat {
    if IsSpace(c) then h else (h * 3 + c as int % 256) % 0x1_0000_0000
  }

  function HashFrom(h: nat, s: string): nat {
    if s == "" then h else HashStep(HashFrom(h, s[..|s| - 1]), s[|s| - 1])
  }

  // the hash field of a line has 24 bits
  function HashLine(s: string): nat { HashFrom(0, s) % 0x100_0000 }

  method ComputeHash(s: string) returns (h: nat)
    ensures h == HashLine(s)
  {
    h := 0;
    var i := 0;
    while i < |s|
      invariant 0 <= i <= |s| && h == HashFrom(0, s[..i])
    {
      assert s[..i + 1][..i] == s[..i];
      if !IsSpace(s[i]) {
        h := (h * 3 + s[i] as int % 256) % 0x1_0000_0000;
      }
      i := i + 1;
    }
    assert s[..i] == s;
    h := h % 0x100_0000;
  }

  function NonSpace(s: string): string {
    if s == "" then "" else NonSpace(s[..|s| - 1]) + if IsSpace(s[|s| - 1]) then "" else [s[|s| - 1]]
  }

  /** Only what is not whitespace enters the hash. */
  lemma {:induction false} HashIgnoresSpace(h: nat, s: string)
    ensures HashFrom(h, s) == HashFrom(h, NonSpace(s))
  {
    if s != "" {
      HashIgnoresSpace(h, s[..|s| - 1]);
      var t := NonSpace(s);
      if IsSpace(s[|s| - 1]) {
        assert t == NonSpace(s[..|s| - 1]);
      } else {
        assert t[..|t| - 1] == NonSpace(s[..|s| - 1]);
      }
    }
  }

  // ---- comparison up to whitespace ----

  /** The line without carriage returns and newlines at its end. */
  function TrimEol(s: string): string {
    if s != "" && (s[|s| - 1] == '\r' || s[|s| - 1] == '\n') then TrimEol(s[..|s| - 1]) else s
  }

  function SkipSpaces(s: string): (t: string)
    ensures |t| <= |s| && (t != "" ==> !IsSpace(t[0])) && (s != "" && IsSpace(s[0]) ==> |t| < |s|)
  {
    if s != "" && IsSpace(s[0]) then SkipSpaces(s[1..]) else s
  }

  /** Every stretch of whitespace counts as one blank. */
  function Squeeze(s: string): string
    decreases |s|
  {
    if s == "" then "" else if IsSpace(s[0]) then " " + Squeeze(SkipSpaces(s)) else [s[0]] + Squeeze(s[1..])
  }

  method SkipSpacesFrom(s: string, i: nat) returns (j: nat)
    requires i <= |s|
    ensures i <= j <= |s| && s[j..] == SkipSpaces(s[i..])
  {
    j := i;
    while j < |s| && IsSpace(s[j])
      invariant i <= j <= |s| && SkipSpaces(s[j..]) == SkipSpaces(s[i..])
    {
      assert s[j..][1..] == s[j + 1..];
      j := j + 1;
    }
  }

  method TrimmedEnd(s: string) returns (end: nat)
    ensures end <= |s| && s[..end] == TrimEol(s)
  {
    end := |s|;
    assert s[..end] == s;
    while end > 0 && (s[end - 1] == '\r' || s[end - 1] == '\n')
      invariant end <= |s| && TrimEol(s[..end]) == TrimEol(s)
    {
      assert s[..end][..end - 1] == s[..end - 1];
      end := end - 1;
    }
  }

  lemma SqueezeHead(a: string, b: string)
    requires a != "" && b != "" && !IsSpace(a[0])
    ensures Squeeze(a) == Squeeze(b) <==> a[0] == b[0] && Squeeze(a[1..]) == Squeeze(b[1..])
  {
    var x, y := Squeeze(a), Squeeze(b);
    assert x[0] == a[0] && x[1..] == Squeeze(a[1..]);
    assert y[0] == if IsSpace(b[0]) then ' ' else b[0];
    if !IsSpace(b[0]) {
      assert y[1..] == Squeeze(b[1..]);
    }
  }

  lemma SqueezeSpace(a: string, b: string)
    requires a != "" && b != "" && IsSpace(a[0])
    ensures Squeeze(a) == Squeeze(b) <==> IsSpace(b[0]) && Squeeze(SkipSpaces(a)) == Squeeze(SkipSpaces(b))
  {
    var x, y := Squeeze(a), Squeeze(b);
    assert x[0] == ' ' && x[1..] == Squeeze(SkipSpaces(a));
    if IsSpace(b[0]) {
      assert y[1..] == Squeeze(SkipSpaces(b));
    } else {
      assert y[0] == b[0];
    }
  }

  // ---- the same but for blanks ----

  ghost predicate Blanks(s: string, i: nat) {
    i <= |s| && forall k :: 0 <= k < i ==> s[k] == ' ' || s[k] == '\t' || s[k] == '\n' || s[k] == '\r'
  }

  /** One text becomes the other when stretches of blanks, none of them empty, are exchanged. */
  ghost predicate Aligned(a: string, b: string)
    decreases |a|
  {
    || (a == "" && b == "")
    || (a != "" && b != "" && a[0] == b[0] && !Blanks(a, 1) && Aligned(a[1..], b[1..]))
    || (exists i: nat, j: nat :: 0 < i && 0 < j && Blanks(a, i) && Blanks(b, j) && Aligned(a[i..], b[j..]))
  }

  lemma {:induction false} SkipBlanks(s: string, i: nat)
    requires Blanks(s, i)
    ensures SkipSpaces(s) == SkipSpaces(s[i..])
  {
    if i > 0 {
      SkipBlanks(s[1..], i - 1);
      assert s[1..][i - 1..] == s[i..];
    } else {
      assert s[0..] == s;
    }
  }

  lemma BlanksMore(s: string, i: nat)
    requires s != "" && IsSpace(s[0]) && Blanks(s[1..], i)
    ensures Blanks(s, i + 1) && s[i + 1..] == s[1..][i..]
  {
    forall k | 0 <= k < i + 1
      ensures IsSpace(s[k])
    {
      assert k > 0 ==> s[k] == s[1..][k - 1];
    }
  }

  lemma {:induction false} SkipCount(s: string) returns (i: nat)
    ensures Blanks(s, i) && s[i..] == SkipSpaces(s) && (s != "" && IsSpace(s[0]) ==> i > 0)
  {
    if s != "" && IsSpace(s[0]) {
      var n := SkipCount(s[1..]);
      BlanksMore(s, n);
      i := n + 1;
    } else {
      i := 0;
      assert s[0..] == s;
    }
  }

  lemma SqueezeSkip(a: string, b: string)
    requires Squeeze(a) == Squeeze(b)
    ensures Squeeze(SkipSpaces(a)) == Squeeze(SkipSpaces(b))
  {
    assert a == "" <==> b == "";
    if a != "" {
      if IsSpace(a[0]) {
        SqueezeSpace(a, b);
      } else {
        SqueezeHead(a, b);
      }
    }
  }

  lemma {:induction false} AlignedSqueeze(a: string, b: string)
    requires Aligned(a, b)
    ensures Squeeze(a) == Squeeze(b)
    decreases |a|
  {
    if i: nat, j: nat :| 0 < i && 0 < j && Blanks(a, i) && Blanks(b, j) && Aligned(a[i..], b[j..]) {
      AlignedSqueeze(a[i..], b[j..]);
      SkipBlanks(a, i);
      SkipBlanks(b, j);
      SqueezeSkip(a[i..], b[j..]);
      assert IsSpace(a[0]) && IsSpace(b[0]);
    } else if a != "" {
      AlignedSqueeze(a[1..], b[1..]);
      SqueezeHead(a, b);
    }
  }

  lemma {:induction false} SqueezeAligned(a: string, b: string)
    requires Squeeze(a) == Squeeze(b)
    ensures Aligned(a, b)
    decreases |a|
  {
    assert a == "" <==> b == "";
    if a != "" {
      if IsSpace(a[0]) {
        SqueezeSpace(a, b);
        var i := SkipCount(a);
        var j := SkipCount(b);
        SqueezeAligned(a[i..], b[j..]);
      } else {
        SqueezeHead(a, b);
        SqueezeAligned(a[1..], b[1..]);
      }
    }
  }

  /** The end of a line: as many carriage returns and newlines as there are. */
  ghost predicate EndsLine(s: string, t: string, eol: string) {
    && s == t + eol && (forall i :: 0 <= i < |eol| ==> eol[i] == '\r' || eol[i] == '\n')
    && (t != "" ==> t[|t| - 1] != '\r' && t[|t| - 1] != '\n')
  }

  lemma {:induction false} TrimEolIs(s: string, t: string, eol: string)
    requires EndsLine(s, t, eol)
    ensures TrimEol(s) == t
    decreases |s|
  {
    if eol == "" {
      assert s == t;
    } else {
      var last := |eol| - 1;
      assert s[..|s| - 1] == t + eol[..last] && s[|s| - 1] == eol[last];
      TrimEolIs(s[..|s| - 1], t, eol[..last]);
    }
  }

  /** Lines match just if, without their ends, one becomes the other by other stretches of blanks. */
  lemma MatchIsAligned(s1: string, t1: string, eol1: string, s2: string, t2: string, eol2: string)
    requires EndsLine(s1, t1, eol1) && EndsLine(s2, t2, eol2)
    ensures Squeeze(TrimEol(s1)) == Squeeze(TrimEol(s2)) <==> Aligned(t1, t2)
  {
    TrimEolIs(s1, t1, eol1);
    TrimEolIs(s2, t2, eol2);
    if Squeeze(t1) == Squeeze(t2) {
      SqueezeAligned(t1, t2);
    } else if Aligned(t1, t2) {
      AlignedSqueeze(t1, t2);
    }
  }

  /** Whether two lines are the same up to the amount of whitespace and the kind of line end. */
  method FuzzyMatchLines(s1: string, s2: string) returns (same: bool)
    ensures same <==> Squeeze(TrimEol(s1)) == Squeeze(TrimEol(s2))
  {
    var end1 := TrimmedEnd(s1);
    var end2 := TrimmedEnd(s2);
    var t1, t2 := s1[..end1], s2[..end2];
    var i, j := 0, 0;
    assert t1[0..] == t1 && t2[0..] == t2;
    while i < |t1| && j < |t2|
      invariant 0 <= i <= |t1| && 0 <= j <= |t2|
      invariant Squeeze(t1) == Squeeze(t2) <==> Squeeze(t1[i..]) == Squeeze(t2[j..])
    {
      ghost var a, b := t1[i..], t2[j..];
      if IsSpace(t1[i]) {
        SqueezeSpace(a, b);
        if !IsSpace(t2[j]) {
          return false;
        }
        i := SkipSpacesFrom(t1, i);
        j := SkipSpacesFrom(t2, j);
      } else {
        SqueezeHead(a, b);
        if t1[i] != t2[j] {
          return false;
        }
        assert a[1..] == t1[i + 1..] && b[1..] == t2[j + 1..];
        i, j := i + 1, j + 1;
      }
    }
    return i == |t1| && j == |t2|;
  }

  lemma {:induction false} NonSpaceConcat(a: string, b: string)
    ensures NonSpace(a + b) == NonSpace(a) + NonSpace(b)
  {
    if b == "" {
      assert a + b == a;
    } else {
      assert (a + b)[..|a + b| - 1] == a + b[..|b| - 1];
      NonSpaceConcat(a, b[..|b| - 1]);
    }
  }

  lemma NonSpaceOne(c: char)
    ensures NonSpace([c]) == if IsSpace(c) then "" else [c]
  {
    assert [c][..0] == "";
  }

  lemma {:induction false} NonSpaceSkip(s: string)
    ensures NonSpace(SkipSpaces(s)) == NonSpace(s)
  {
    if s != "" && IsSpace(s[0]) {
      NonSpaceSkip(s[1..]);
      assert s == [s[0]] + s[1..];
      NonSpaceConcat([s[0]], s[1..]);
      NonSpaceOne(s[0]);
    }
  }

  lemma {:induction false} NonSpaceSqueeze(s: string)
    ensures NonSpace(Squeeze(s)) == NonSpace(s)
    decreases |s|
  {
    if s != "" {
      NonSpaceOne(s[0]);
      NonSpaceOne(' ');
      if IsSpace(s[0]) {
        NonSpaceSqueeze(SkipSpaces(s));
        NonSpaceSkip(s);
        NonSpaceConcat(" ", Squeeze(SkipSpaces(s)));
      } else {
        NonSpaceSqueeze(s[1..]);
        NonSpaceConcat([s[0]], Squeeze(s[1..]));
        NonSpaceConcat([s[0]], s[1..]);
        assert s == [s[0]] + s[1..];
      }
    }
  }

  lemma {:induction false} NonSpaceTrim(s: string)
    ensures NonSpace(TrimEol(s)) == NonSpace(s)
  {
    if s != "" && (s[|s| - 1] == '\r' || s[|s| - 1] == '\n') {
      NonSpaceTrim(s[..|s| - 1]);
    }
  }

  /** Lines that match up to whitespace have the same hash. */
  lemma FuzzyHash(s1: string, s2: string)
    requires Squeeze(TrimEol(s1)) == Squeeze(TrimEol(s2))
    ensures HashLine(s1) == HashLine(s2)
  {
    NonSpaceTrim(s1);
    NonSpaceTrim(s2);
    NonSpaceSqueeze(TrimEol(s1));
    NonSpaceSqueeze(TrimEol(s2));
    HashIgnoresSpace(0, s1);
    HashIgnoresSpace(0, s2);
  }

  // ---- images ----

  datatype Line = Line(len: nat, hash: nat, common: bool, patched: bool)

  function Flatten(texts: seq<string>): string {
    if texts == [] then "" else Flatten(texts[..|texts| - 1]) + texts[|texts| - 1]
  }

  lemma {:induction false} FlattenConcat(a: seq<string>, b: seq<string>)
    ensures Flatten(a + b) == Flatten(a) + Flatten(b)
  {
    if b == [] {
      assert a + b == a;
    } else {
      assert (a + b)[..|a + b| - 1] == a + b[..|b| - 1];
      FlattenConcat(a, b[..|b| - 1]);
    }
  }

  lemma FlattenSplit(texts: seq<string>, i: nat)
    requires i <= |texts|
    ensures Flatten(texts) == Flatten(texts[..i]) + Flatten(texts[i..])
  {
    var a, b := texts[..i], texts[i..];
    assert texts == a + b;
    FlattenConcat(a, b);
  }

  lemma FlattenNext(texts: seq<string>, i: nat)
    requires i < |texts|
    ensures Flatten(texts[..i + 1]) == Flatten(texts[..i]) + texts[i]
  {
    assert texts[..i + 1][..i] == texts[..i];
  }

  /** The line table tells where the lines are in the buffer, and their hashes. */
  ghost predicate Cuts(buf: string, line: seq<Line>, texts: seq<string>) {
    && buf == Flatten(texts) && |line| == |texts|
    && forall i :: 0 <= i < |line| ==> line[i].len == |texts[i]| && line[i].hash == HashLine(texts[i])
  }

  class Image {
    var buf: string
    var line: seq<Line>
    ghost var texts: seq<string>

    ghost predicate Valid()
      reads this
    {
      Cuts(buf, line, texts)
    }

    constructor ()
      ensures Valid() && texts == [] && line == [] && buf == ""
    {
      buf, line, texts := "", [], [];
    }

    /** Appends a line. */
    method AddLine(text: string, common: bool)
      requires Valid()
      modifies this
      ensures Valid() && texts == old(texts) + [text] && buf == old(buf) + text
      ensures |line| == |old(line)| + 1 && line[..|old(line)|] == old(line)
      ensures !line[|line| - 1].patched && line[|line| - 1].common == common
    {
      var h := ComputeHash(text);
      assert (texts + [text])[..|texts|] == texts;
      buf := buf + text;
      line := line + [Line(|text|, h, common, false)];
      texts := texts + [text];
    }

    /** Where line i begins in the buffer. */
    method OffsetOf(i: nat) returns (offset: nat)
      requires Valid() && i <= |line|
      ensures offset == |Flatten(texts[..i])| <= |buf|
    {
      offset := 0;
      var k := 0;
      while k < i
        invariant 0 <= k <= i && offset == |Flatten(texts[..k])|
      {
        FlattenNext(texts, k);
        offset := offset + line[k].len;
        k := k + 1;
      }
      FlattenSplit(texts, i);
    }

    /** Takes the first line off. */
    method RemoveFirst()
      requires Valid() && line != []
      modifies this
      ensures Valid() && texts == old(texts)[1..] && line == old(line)[1..]
    {
      CutsSplit(buf, line, texts, 1);
      FlattenNext(texts, 0);
      buf, texts, line := buf[line[0].len..], texts[1..], line[1..];
    }

    /** Takes the last line off. */
    method RemoveLast()
      requires Valid() && line != []
      modifies this
      ensures Valid() && texts == old(texts)[..|old(texts)| - 1] && line == old(line)[..|old(line)| - 1]
    {
      var n := |line| - 1;
      CutsSplit(buf, line, texts, n);
      FlattenNext(texts, n);
      assert texts[..n + 1] == texts;
      buf, texts, line := buf[..|buf| - line[n].len], texts[..n], line[..n];
    }

    /** Replaces n lines from pos on by those of another image, and marks them so that no later hunk touches them. */
    method Update(pos: nat, n: nat, post: Image, allowOverlap: bool)
      requires Valid() && post.Valid() && post != this && pos + n <= |line|
      modifies this
      ensures Valid() && texts == old(texts)[..pos] + post.texts + old(texts)[pos + n..]
      ensures line == old(line)[..pos] + MarkAll(post.line, !allowOverlap) + old(line)[pos + n..]
    {
      var at := OffsetOf(pos);
      var upTo := OffsetOf(pos + n);
      Replaced(buf, line, texts, pos, n, post.buf, MarkAll(post.line, !allowOverlap), post.texts);
      buf := buf[..at] + post.buf + buf[upTo..];
      line := line[..pos] + MarkAll(post.line, !allowOverlap) + line[pos + n..];
      texts := texts[..pos] + post.texts + texts[pos + n..];
    }
  }

  function MarkAll(line: seq<Line>, mark: bool): seq<Line> {
    seq(|line|, i requires 0 <= i < |line| => if mark then line[i].(patched := true) else line[i])
  }

  lemma CutsConcat(buf1: string, line1: seq<Line>, texts1: seq<string>, buf2: string, line2: seq<Line>,
                   texts2: seq<string>)
    requires Cuts(buf1, line1, texts1) && Cuts(buf2, line2, texts2)
    ensures Cuts(buf1 + buf2, line1 + line2, texts1 + texts2)
  {
    FlattenConcat(texts1, texts2);
  }

  /** Cutting before line i cuts the buffer there, too. */
  lemma CutsSplit(buf: string, line: seq<Line>, texts: seq<string>, i: nat)
    requires Cuts(buf, line, texts) && i <= |line|
    ensures |Flatten(texts[..i])| <= |buf|
    ensures Cuts(buf[..|Flatten(texts[..i])|], line[..i], texts[..i])
      && Cuts(buf[|Flatten(texts[..i])|..], line[i..], texts[i..])
  {
    FlattenSplit(texts, i);
    assert buf[..|Flatten(texts[..i])|] == Flatten(texts[..i]) && buf[|Flatten(texts[..i])|..] == Flatten(texts[i..]);
  }

  lemma Replaced(buf: string, line: seq<Line>, texts: seq<string>, pos: nat, n: nat, buf2: string, line2: seq<Line>,
                 texts2: seq<string>)
    requires Cuts(buf, line, texts) && Cuts(buf2, line2, texts2) && pos + n <= |line|
    ensures |Flatten(texts[..pos])| <= |Flatten(texts[..pos + n])| <= |buf|
    ensures Cuts(buf[..|Flatten(texts[..pos])|] + buf2 + buf[|Flatten(texts[..pos + n])|..],
                 line[..pos] + line2 + line[pos + n..], texts[..pos] + texts2 + texts[pos + n..])
  {
    CutsSplit(buf, line, texts, pos);
    CutsSplit(buf, line, texts, pos + n);
    FlattenSplit(texts[..pos + n], pos);
    assert texts[..pos + n][..pos] == texts[..pos];
    CutsConcat(buf[..|Flatten(texts[..pos])|], line[..pos], texts[..pos], buf2, line2, texts2);
    CutsConcat(buf[..|Flatten(texts[..pos])|] + buf2, line[..pos] + line2, texts[..pos] + texts2,
               buf[|Flatten(texts[..pos + n])|..], line[pos + n..], texts[pos + n..]);
  }

  // ---- cutting a buffer into lines ----

  /** Where the first line ends, its newline included. */
  function LineEnd(buf: string): (k: nat)
    ensures k <= |buf| && (buf != "" ==> k > 0)
    ensures forall i :: 0 <= i < k - 1 ==> buf[i] != '\n'
    ensures k < |buf| ==> k > 0 && buf[k - 1] == '\n'
  {
    if buf == "" then 0 else if buf[0] == '\n' then 1 else 1 + LineEnd(buf[1..])
  }

  function SplitLines(buf: string): seq<string> {
    if buf == "" then [] else [buf[..LineEnd(buf)]] + SplitLines(buf[LineEnd(buf)..])
  }

  /** Lines as a file has them: one newline each, at the end; only the last may lack it. */
  ghost predicate WellCut(texts: seq<string>) {
    forall i ::
      0 <= i < |texts| ==>
        texts[i] != "" && '\n' !in texts[i][..|texts[i]| - 1] && (i < |texts| - 1 ==> texts[i][|texts[i]| - 1] == '\n')
  }

  lemma LineEndIs(line: string, rest: string)
    requires line != "" && '\n' !in line[..|line| - 1] && (rest != "" ==> line[|line| - 1] == '\n')
    ensures LineEnd(line + rest) == |line|
  {
    var buf, k := line + rest, LineEnd(line + rest);
    assert forall i :: 0 <= i < |line| - 1 ==> buf[i] == line[..|line| - 1][i];
    assert buf[|line| - 1] == line[|line| - 1];
  }

  /** Lines that are well cut are found again in the buffer they make up. */
  lemma {:induction false} SplitFlatten(texts: seq<string>)
    requires WellCut(texts)
    ensures SplitLines(Flatten(texts)) == texts
  {
    if texts != [] {
      var first, rest := texts[0], texts[1..];
      assert texts == [first] + rest;
      FlattenConcat([first], rest);
      assert [first][..0] == [];
      assert Flatten([first]) == first;
      assert rest != [] ==> rest[0] == texts[1];
      if rest == [] {
        assert Flatten(rest) == "";
      }
      LineEndIs(first, Flatten(rest));
      assert (first + Flatten(rest))[|first|..] == Flatten(rest);
      SplitFlatten(rest);
    }
  }

  lemma {:induction false} SplitIsWellCut(buf: string)
    ensures WellCut(SplitLines(buf))
  {
    if buf != "" {
      var k := LineEnd(buf);
      SplitIsWellCut(buf[k..]);
      assert SplitLines(buf)[1..] == SplitLines(buf[k..]);
      assert buf[..k][..k - 1] == buf[..k - 1];
      forall i | 0 < i < |SplitLines(buf)|
        ensures SplitLines(buf)[i] == SplitLines(buf[k..])[i - 1]
      {
      }
    }
  }

  /** texts are the lines of the buffer before cp. */
  ghost predicate SplitAt(buf: string, cp: nat, texts: seq<string>) {
    cp <= |buf| && texts + SplitLines(buf[cp..]) == SplitLines(buf)
  }

  lemma NextLine(buf: string, cp: nat, next: nat, texts: seq<string>)
    requires cp < next <= |buf| && next == cp + LineEnd(buf[cp..]) && SplitAt(buf, cp, texts)
    ensures SplitAt(buf, next, texts + [buf[cp..next]]) && buf[..next] == buf[..cp] + buf[cp..next]
  {
    var rest, n := buf[cp..], next - cp;
    SplitUnfold(rest);
    assert rest[n..] == buf[next..] && rest[..n] == buf[cp..next];
    SplitMore(SplitLines(buf), texts, rest, buf[cp..next], buf[next..]);
  }

  lemma SplitMore(all: seq<string>, texts: seq<string>, rest: string, line: string, rest': string)
    requires all == texts + SplitLines(rest) && SplitLines(rest) == [line] + SplitLines(rest')
    ensures all == texts + [line] + SplitLines(rest')
  {
    Regroup(texts, line, SplitLines(rest'));
  }

  lemma SplitUnfold(buf: string)
    requires buf != ""
    ensures SplitLines(buf) == [buf[..LineEnd(buf)]] + SplitLines(buf[LineEnd(buf)..])
  {
  }

  lemma Regroup(a: seq<string>, x: string, b: seq<string>)
    ensures (a + [x]) + b == a + ([x] + b)
  {
  }

  ghost predicate NonePatched(line: seq<Line>, from: nat) {
    forall i :: from <= i < |line| ==> !line[i].patched
  }

  /** An image of the buffer, with its line table. */
  method PrepareImage(buf: string) returns (img: Image)
    ensures fresh(img) && img.Valid() && img.buf == buf && img.texts == SplitLines(buf) && NonePatched(img.line, 0)
  {
    img := new Image();
    var cp := 0;
    assert buf[0..] == buf;
    while cp < |buf|
      invariant 0 <= cp <= |buf| && fresh(img) && img.Valid() && img.buf == buf[..cp] && NonePatched(img.line, 0)
      invariant SplitAt(buf, cp, img.texts)
    {
      var next := FindLineEnd(buf, cp);
      NextLine(buf, cp, next, img.texts);
      img.AddLine(buf[cp..next], false);
      cp := next;
    }
  }

  method FindLineEnd(buf: string, cp: nat) returns (next: nat)
    requires cp < |buf|
    ensures cp < next <= |buf| && next == cp + LineEnd(buf[cp..])
  {
    next := cp;
    while next < |buf| && buf[next] != '\n'
      invariant cp <= next <= |buf| && cp + LineEnd(buf[cp..]) == next + LineEnd(buf[next..])
    {
      assert buf[next..][1..] == buf[next + 1..];
      next := next + 1;
    }
    if next < |buf| {
      next := next + 1;
    }
  }
}
