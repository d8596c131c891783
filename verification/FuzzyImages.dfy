/**
 Adapting a hunk to a place where its lines differ in whitespace (git/apply.c): the common lines of its new side
 take the whitespace of the file, so that only what the hunk adds or removes changes.
 */
module FuzzyImages {
  import opened ImageLines
  import FindPosition

  function FlagsIn(line: seq<Line>): seq<bool> { seq(|line|, i requires 0 <= i < |line| => line[i].common) }

  function CountTrue(flags: seq<bool>): nat {
    if flags == [] then 0 else CountTrue(flags[..|flags| - 1]) + if flags[|flags| - 1] then 1 else 0
  }

  /** The lines that are flagged. */
  function Commons(texts: seq<string>, flags: seq<bool>): (cs: seq<string>)
    requires |texts| == |flags|
    ensures |cs| == CountTrue(flags)
  {
    var n := |texts| - 1;
    if texts == [] then [] else Commons(texts[..n], flags[..n]) + if flags[n] then [texts[n]] else []
  }

  /** The lines with the flagged ones replaced, in order, by cs. */
  function Refit(texts: seq<string>, flags: seq<bool>, cs: seq<string>): (r: seq<string>)
    requires |texts| == |flags| && CountTrue(flags) <= |cs|
    ensures |r| == |texts|
  {
    var n := |texts| - 1;
    if texts == [] then []
    else Refit(texts[..n], flags[..n], cs) + [if flags[n] then cs[CountTrue(flags[..n])] else texts[n]]
  }

  lemma {:induction false} CountGrows(flags: seq<bool>, i: nat)
    requires i <= |flags|
    ensures CountTrue(flags[..i]) <= CountTrue(flags)
      && (i < |flags| && flags[i] ==> CountTrue(flags[..i]) < CountTrue(flags))
  {
    var n := |flags| - 1;
    if i <= n {
      CountGrows(flags[..n], i);
      assert flags[..n][..i] == flags[..i];
    } else {
      assert flags[..i] == flags;
    }
  }

  lemma CountNext(flags: seq<bool>, i: nat)
    requires i < |flags|
    ensures CountTrue(flags[..i + 1]) == CountTrue(flags[..i]) + if flags[i] then 1 else 0
  {
    assert flags[..i + 1][..i] == flags[..i];
  }

  /** A flagged line is among the flagged ones at its own number. */
  lemma {:induction false} CommonsAt(texts: seq<string>, flags: seq<bool>, i: nat)
    requires |texts| == |flags| && i < |flags| && flags[i]
    ensures CountTrue(flags[..i]) < CountTrue(flags) && Commons(texts, flags)[CountTrue(flags[..i])] == texts[i]
  {
    var n := |texts| - 1;
    assert flags[..n][..i] == flags[..i];
    if i < n {
      CommonsAt(texts[..n], flags[..n], i);
    }
  }

  lemma RefitNext(texts: seq<string>, flags: seq<bool>, cs: seq<string>, i: nat)
    requires |texts| == |flags| && i < |texts| && CountTrue(flags) <= |cs|
    ensures CountTrue(flags[..i]) + (if flags[i] then 1 else 0) == CountTrue(flags[..i + 1]) <= |cs|
    ensures Refit(texts[..i + 1], flags[..i + 1], cs) ==
      Refit(texts[..i], flags[..i], cs) + [if flags[i] then cs[CountTrue(flags[..i])] else texts[i]]
  {
    CountGrows(flags, i + 1);
    CountNext(flags, i);
    RefitLast(texts[..i + 1], flags[..i + 1], cs, texts[..i], flags[..i]);
  }

  lemma RefitLast(t: seq<string>, f: seq<bool>, cs: seq<string>, t0: seq<string>, f0: seq<bool>)
    requires |t| == |f| == |t0| + 1 == |f0| + 1 && t[..|t0|] == t0 && f[..|f0|] == f0 && CountTrue(f) <= |cs|
    ensures CountTrue(f0) + (if f[|f0|] then 1 else 0) == CountTrue(f)
    ensures Refit(t, f, cs) == Refit(t0, f0, cs) + [if f[|f0|] then cs[CountTrue(f0)] else t[|t0|]]
  {
  }

  ghost predicate SameHashes(a: seq<string>, b: seq<string>) {
    |a| == |b| && forall k :: 0 <= k < |a| ==> HashLine(a[k]) == HashLine(b[k])
  }

  lemma {:induction false} CommonsHashes(a: seq<string>, b: seq<string>, flags: seq<bool>)
    requires |a| == |flags| && SameHashes(a, b)
    ensures SameHashes(Commons(a, flags), Commons(b, flags))
  {
    if a != [] {
      var n := |a| - 1;
      CommonsHashes(a[..n], b[..n], flags[..n]);
    }
  }

  // where the adaption is: the next line of the new side, its place in the old buffer, the next line of the fixed old
  // side, its place
  datatype Spot = Spot(i: nat, old_: nat, ctx: nat, fixed: nat)

  /** The lines before the spot are adapted; the same number of common ones is used up on both sides. */
  ghost predicate AdaptedTo(texts: seq<string>, flags: seq<bool>, fixed: seq<string>, preFlags: seq<bool>, c: Spot,
                            out: seq<string>) {
    && |texts| == |flags| && |fixed| == |preFlags| && c.i <= |texts| && c.ctx <= |fixed|
    && CountTrue(flags) == CountTrue(preFlags)
    && c.old_ == |Flatten(texts[..c.i])| && c.fixed == |Flatten(fixed[..c.ctx])|
    && CountTrue(preFlags[..c.ctx]) == CountTrue(flags[..c.i])
    && (CountTrue(flags[..c.i]) <= CountTrue(flags) ==>
        out == Refit(texts[..c.i], flags[..c.i], Commons(fixed, preFlags)))
  }

  /** The next common line of the fixed old side. */
  method NextCommon(fixed: Image, preFlags: seq<bool>, c: Spot, ghost texts: seq<string>, ghost flags: seq<bool>,
                    ghost out: seq<string>)
    returns (c': Spot)
    requires fixed.Valid() && AdaptedTo(texts, flags, fixed.texts, preFlags, c, out) && c.i < |texts| && flags[c.i]
    ensures AdaptedTo(texts, flags, fixed.texts, preFlags, c', out) && c'.i == c.i && c'.old_ == c.old_
    ensures c'.ctx < |fixed.line| && preFlags[c'.ctx]
  {
    c' := c;
    while c'.ctx < |fixed.line| && !preFlags[c'.ctx]
      invariant AdaptedTo(texts, flags, fixed.texts, preFlags, c', out) && c'.i == c.i && c'.old_ == c.old_
    {
      CountNext(preFlags, c'.ctx);
      FlattenNext(fixed.texts, c'.ctx);
      c' := c'.(ctx := c'.ctx + 1, fixed := c'.fixed + fixed.line[c'.ctx].len);
    }
    CountGrows(flags, c.i);
    assert preFlags[..|preFlags|] == preFlags;
    if c'.ctx == |fixed.line| {
      assert false;
    }
  }

  lemma AddedLine(texts: seq<string>, flags: seq<bool>, fixed: seq<string>, preFlags: seq<bool>, c: Spot,
                  out: seq<string>)
    requires AdaptedTo(texts, flags, fixed, preFlags, c, out) && c.i < |texts| && !flags[c.i]
    ensures AdaptedTo(texts, flags, fixed, preFlags, c.(i := c.i + 1, old_ := c.old_ + |texts[c.i]|),
                      out + [texts[c.i]])
  {
    CountGrows(flags, c.i);
    RefitNext(texts, flags, Commons(fixed, preFlags), c.i);
    CountNext(flags, c.i);
    FlattenNext(texts, c.i);
  }

  lemma CommonLine(texts: seq<string>, flags: seq<bool>, fixed: seq<string>, preFlags: seq<bool>, c: Spot,
                   out: seq<string>)
    requires AdaptedTo(texts, flags, fixed, preFlags, c, out) && c.i < |texts| && flags[c.i] && c.ctx < |fixed|
      && preFlags[c.ctx]
    ensures AdaptedTo(texts, flags, fixed, preFlags,
      Spot(c.i + 1, c.old_ + |texts[c.i]|, c.ctx + 1, c.fixed + |fixed[c.ctx]|), out + [fixed[c.ctx]])
    ensures CountTrue(flags[..c.i]) < CountTrue(flags)
      && Commons(fixed, preFlags)[CountTrue(flags[..c.i])] == fixed[c.ctx]
  {
    CountGrows(flags, c.i);
    RefitNext(texts, flags, Commons(fixed, preFlags), c.i);
    CountNext(flags, c.i);
    CountNext(preFlags, c.ctx);
    CommonsAt(fixed, preFlags, c.ctx);
    FlattenNext(texts, c.i);
    FlattenNext(fixed, c.ctx);
  }

  /** The table with the lines before i adapted: their lengths are new, their hashes still right. */
  ghost predicate TableTo(table: seq<Line>, table': seq<Line>, out: seq<string>) {
    && |table'| == |table| && |out| <= |table|
    && (forall k :: 0 <= k < |out| ==> table'[k].len == |out[k]| && table'[k].hash == HashLine(out[k]))
    && (forall k :: |out| <= k < |table| ==> table'[k] == table[k])
    && (forall k :: 0 <= k < |table| ==> table'[k].common == table[k].common && table'[k].patched == table[k].patched)
  }

  lemma TableNext(table: seq<Line>, table': seq<Line>, out: seq<string>, line: string)
    requires TableTo(table, table', out) && |out| < |table| && table[|out|].hash == HashLine(line)
    ensures TableTo(table, table'[|out| := table'[|out|].(len := |line|)], out + [line])
  {
  }

  lemma BufferNext(buf: string, out: seq<string>, line: string)
    requires buf == Flatten(out)
    ensures buf + line == Flatten(out + [line])
  {
    assert (out + [line])[..|out|] == out;
  }

  // the adapted new side so far: the spot, the buffer, the table
  datatype Work = Work(c: Spot, buf: string, table: seq<Line>)

  ghost predicate Working(post: seq<string>, line: seq<Line>, fixed: seq<string>, preFlags: seq<bool>, w: Work,
                          out: seq<string>) {
    && |line| == |post| && AdaptedTo(post, FlagsIn(line), fixed, preFlags, w.c, out) && |out| == w.c.i
    && w.buf == Flatten(out) && TableTo(line, w.table, out)
  }

  lemma WorkAdded(post: seq<string>, line: seq<Line>, fixed: seq<string>, preFlags: seq<bool>, w: Work,
                  out: seq<string>, text: string)
    requires Working(post, line, fixed, preFlags, w, out) && w.c.i < |line| && !line[w.c.i].common
    requires text == post[w.c.i] && line[w.c.i].len == |text| && line[w.c.i].hash == HashLine(text)
    ensures Working(post, line, fixed, preFlags,
                    Work(w.c.(i := w.c.i + 1, old_ := w.c.old_ + |text|), w.buf + text, w.table), out + [text])
  {
    AddedLine(post, FlagsIn(line), fixed, preFlags, w.c, out);
    TableNext(line, w.table, out, text);
    BufferNext(w.buf, out, text);
    assert w.table[|out| := w.table[|out|].(len := |text|)] == w.table;
  }

  lemma WorkCommon(post: seq<string>, line: seq<Line>, fixed: seq<string>, preFlags: seq<bool>, w: Work,
                   out: seq<string>, text: string)
    requires Working(post, line, fixed, preFlags, w, out) && w.c.i < |line| && line[w.c.i].common && w.c.ctx < |fixed|
      && preFlags[w.c.ctx]
    requires text == fixed[w.c.ctx] && line[w.c.i].len == |post[w.c.i]| && line[w.c.i].hash == HashLine(post[w.c.i])
    requires SameHashes(Commons(post, FlagsIn(line)), Commons(fixed, preFlags))
    ensures Working(post, line, fixed, preFlags,
                    Work(Spot(w.c.i + 1, w.c.old_ + line[w.c.i].len, w.c.ctx + 1, w.c.fixed + |text|), w.buf + text,
                         w.table[w.c.i := w.table[w.c.i].(len := |text|)]), out + [text])
  {
    CommonLine(post, FlagsIn(line), fixed, preFlags, w.c, out);
    CommonsAt(post, FlagsIn(line), w.c.i);
    TableNext(line, w.table, out, text);
    BufferNext(w.buf, out, text);
  }

  /** One line of the new side: copied if it is added, taken from the fixed old side if it is common. */
  method AdaptLine(post: Image, fixed: Image, preFlags: seq<bool>, w: Work, ghost out: seq<string>)
    returns (w': Work, ghost out': seq<string>)
    requires post.Valid() && fixed.Valid() && Working(post.texts, post.line, fixed.texts, preFlags, w, out)
      && w.c.i < |post.line|
    requires SameHashes(Commons(post.texts, FlagsIn(post.line)), Commons(fixed.texts, preFlags))
    ensures Working(post.texts, post.line, fixed.texts, preFlags, w', out') && w'.c.i == w.c.i + 1
  {
    var i := w.c.i;
    if !post.line[i].common {
      var text := FindPosition.LineText(post, w.c.old_, i);
      WorkAdded(post.texts, post.line, fixed.texts, preFlags, w, out, text);
      out' := out + [text];
      w' := Work(w.c.(i := i + 1, old_ := w.c.old_ + post.line[i].len), w.buf + text, w.table);
    } else {
      w', out' := AdaptCommon(post, fixed, preFlags, w, out);
    }
  }

  /** A common line: the next one of the fixed old side. */
  method AdaptCommon(post: Image, fixed: Image, preFlags: seq<bool>, w: Work, ghost out: seq<string>)
    returns (w': Work, ghost out': seq<string>)
    requires post.Valid() && fixed.Valid() && Working(post.texts, post.line, fixed.texts, preFlags, w, out)
      && w.c.i < |post.line| && post.line[w.c.i].common
    requires SameHashes(Commons(post.texts, FlagsIn(post.line)), Commons(fixed.texts, preFlags))
    ensures Working(post.texts, post.line, fixed.texts, preFlags, w', out') && w'.c.i == w.c.i + 1
  {
    var i := w.c.i;
    var c := NextCommon(fixed, preFlags, w.c, post.texts, FlagsIn(post.line), out);
    var text := FindPosition.LineText(fixed, c.fixed, c.ctx);
    WorkCommon(post.texts, post.line, fixed.texts, preFlags, w.(c := c), out, text);
    var len := fixed.line[c.ctx].len;
    out' := out + [text];
    w' := Work(Spot(i + 1, c.old_ + post.line[i].len, c.ctx + 1, c.fixed + len), w.buf + text,
               w.table[i := w.table[i].(len := len)]);
  }

  lemma WorkStarts(post: seq<string>, line: seq<Line>, fixed: seq<string>, preFlags: seq<bool>)
    requires |line| == |post| && |fixed| == |preFlags| && CountTrue(FlagsIn(line)) == CountTrue(preFlags)
    ensures Working(post, line, fixed, preFlags, Work(Spot(0, 0, 0, 0), "", line), [])
  {
  }

  lemma WorkDone(post: seq<string>, line: seq<Line>, fixed: seq<string>, preFlags: seq<bool>, w: Work, out: seq<string>)
    requires Working(post, line, fixed, preFlags, w, out) && w.c.i == |line|
    ensures CountTrue(FlagsIn(line)) == CountTrue(preFlags) && Cuts(w.buf, w.table, out)
      && out == Refit(post, FlagsIn(line), Commons(fixed, preFlags))
  {
    assert post[..w.c.i] == post && FlagsIn(line)[..w.c.i] == FlagsIn(line);
  }

  method AdaptAll(post: Image, fixed: Image, preFlags: seq<bool>) returns (w: Work, ghost out: seq<string>)
    requires post.Valid() && fixed.Valid() && |preFlags| == |fixed.line|
    requires SameHashes(Commons(post.texts, FlagsIn(post.line)), Commons(fixed.texts, preFlags))
    ensures CountTrue(FlagsIn(post.line)) == CountTrue(preFlags) && Cuts(w.buf, w.table, out)
    ensures out == Refit(post.texts, FlagsIn(post.line), Commons(fixed.texts, preFlags))
  {
    w, out := Work(Spot(0, 0, 0, 0), "", post.line), [];
    WorkStarts(post.texts, post.line, fixed.texts, preFlags);
    while w.c.i < |post.line|
      invariant w.c.i <= |post.line| && Working(post.texts, post.line, fixed.texts, preFlags, w, out)
      decreases |post.line| - w.c.i
    {
      w, out := AdaptLine(post, fixed, preFlags, w, out);
    }
    WorkDone(post.texts, post.line, fixed.texts, preFlags, w, out);
  }

  /** Adapts the new side of a hunk to the whitespace of the fixed old side. The hashes need no change. */
  method UpdatePostImage(post: Image, fixed: Image, preFlags: seq<bool>)
    requires post.Valid() && fixed.Valid() && post != fixed && |preFlags| == |fixed.line|
    requires SameHashes(Commons(post.texts, FlagsIn(post.line)), Commons(fixed.texts, preFlags))
    modifies post
    ensures post.Valid() && CountTrue(FlagsIn(old(post.line))) == CountTrue(preFlags)
    ensures post.texts == Refit(old(post.texts), FlagsIn(old(post.line)), Commons(fixed.texts, preFlags))
  {
    var w;
    ghost var out;
    w, out := AdaptAll(post, fixed, preFlags);
    post.buf, post.line := w.buf, w.table;
    post.texts := out;
  }

  // ---- cutting a part of a file into lines again ----

  predicate OneLine(t: string) { forall i :: 0 <= i < |t| - 1 ==> t[i] != '\n' }

  ghost predicate OneLined(texts: seq<string>) { forall i :: 0 <= i < |texts| ==> OneLine(texts[i]) }

  predicate Ended(t: string) { t != "" && t[|t| - 1] == '\n' }

  /** Text without a newline in front joins the first line behind it. */
  lemma {:induction false} SplitPrefixed(p: string, t: string)
    requires '\n' !in p && p != ""
    ensures |SplitLines(p + t)| == if t == "" then 1 else |SplitLines(t)|
  {
    LineEndPrefixed(p, t);
    SplitAtEnd(p + t, t, |p| + LineEnd(t), LineEnd(t));
  }

  lemma SplitAtEnd(buf: string, t: string, n: nat, k: nat)
    requires buf != "" && n == LineEnd(buf) && k == LineEnd(t) && n - k == |buf| - |t| && k <= n && buf[n..] == t[k..]
    ensures |SplitLines(buf)| == if t == "" then 1 else |SplitLines(t)|
  {
  }

  lemma {:induction false} LineEndPrefixed(p: string, t: string)
    requires '\n' !in p
    ensures LineEnd(p + t) == |p| + LineEnd(t)
  {
    if p == "" {
      assert p + t == t;
    } else {
      assert (p + t)[1..] == p[1..] + t;
      LineEndPrefixed(p[1..], t);
    }
  }

  lemma FlattenFirst(texts: seq<string>)
    requires texts != []
    ensures Flatten(texts) == texts[0] + Flatten(texts[1..])
  {
    assert texts == [texts[0]] + texts[1..];
    FlattenConcat([texts[0]], texts[1..]);
    assert [texts[0]][..0] == [];
    assert Flatten([texts[0]]) == texts[0];
  }

  lemma SplitEnded(first: string, rest: string)
    requires OneLine(first) && Ended(first)
    ensures SplitLines(first + rest) == [first] + SplitLines(rest)
  {
    LineEndIs(first, rest);
    assert (first + rest)[|first|..] == rest && (first + rest)[..|first|] == first;
  }

  /** Cut again, lines never become more; if they stay as many, they stay the same. */
  lemma {:induction false} SplitAgain(texts: seq<string>)
    requires OneLined(texts)
    ensures |SplitLines(Flatten(texts))| <= |texts|
    ensures |SplitLines(Flatten(texts))| == |texts| ==> SplitLines(Flatten(texts)) == texts
  {
    if texts != [] {
      var first, rest := texts[0], texts[1..];
      FlattenFirst(texts);
      SplitAgain(rest);
      if Ended(first) {
        SplitEnded(first, Flatten(rest));
      } else if first == "" {
        assert first + Flatten(rest) == Flatten(rest);
      } else {
        SplitPrefixed(first, Flatten(rest));
        if rest == [] {
          SplitOne(first);
        }
      }
    }
  }

  lemma SplitOne(first: string)
    requires first != "" && OneLine(first) && !Ended(first)
    ensures SplitLines(first + Flatten([])) == [first]
  {
    assert first + Flatten([]) == first;
    LineEndPrefixed(first, "");
    assert first + "" == first && first[..|first|] == first && first[|first|..] == "";
  }
}
