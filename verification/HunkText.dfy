/**
 The text of a hunk (git/apply.c): its old and its new lines, read forwards or in reverse, and what becomes of
 the new ones at a place where the old ones stand with other whitespace.
 */
module HunkText {
  import opened FuzzyImages
  import opened ImageLines

  datatype Option<+T> = None | Some(value: T)

  // one line of a hunk: ' ' is common, '-' old, '+' new
  datatype HunkLine = HunkLine(tag: char, text: string)

  // ---- the text of a hunk ----

  /** How much of the first line is patch data: not its tag, and not a newline that is marked as missing. */
  function PatchLen(patch: string): int
    requires patch != ""
  {
    var len := LineEnd(patch);
    if len < |patch| && patch[len] == '\\' then len - 2 else len - 1
  }

  /** What the first line of the text contributes. */
  function HunkLines(patch: string): Option<seq<HunkLine>>
    requires patch != ""
  {
    var first, plen := patch[0], PatchLen(patch);
    if first == '\n' then Some(if plen < 0 then [] else [HunkLine(' ', "\n")])
    else if first == ' ' || first == '-' || first == '+' then Some([HunkLine(first, patch[1..1 + plen])])
    else if first == '@' || first == '\\' then Some([])
    else None
  }

  /** The lines of a hunk; none if a line begins with something else than a tag. */
  function Body(patch: string): Option<seq<HunkLine>> {
    if patch == "" then Some([])
    else
      var h := HunkLines(patch);
      if h == None then None else Joined(h.value, Body(patch[LineEnd(patch)..]))
  }

  /** The text is its first line and the rest. */
  lemma BodyOf(line: string, rest: string)
    requires line != "" && '\n' !in line[..|line| - 1] && (rest != "" ==> line[|line| - 1] == '\n')
    ensures var h := HunkLines(line + rest);
      Body(line + rest) == if h == None then None else Joined(h.value, Body(rest))
  {
    LineEndIs(line, rest);
    assert (line + rest)[|line|..] == rest;
  }

  function Joined(done: seq<HunkLine>, t: Option<seq<HunkLine>>): Option<seq<HunkLine>>
  {
    if t == None then None else Some(done + t.value)
  }

  lemma JoinedTwice(done: seq<HunkLine>, lines: seq<HunkLine>, t: Option<seq<HunkLine>>)
    ensures Joined(done, Joined(lines, t)) == Joined(done + lines, t)
  {
    if t.Some? {
      assert done + (lines + t.value) == (done + lines) + t.value;
    }
  }

  /** The lines of one side: old ones with '-', new ones with '+'. */
  function Side(body: seq<HunkLine>, tag: char): seq<string> {
    if body == [] then []
    else
      var h := body[|body| - 1];
      Side(body[..|body| - 1], tag) + if h.tag == ' ' || h.tag == tag then [h.text] else []
  }

  function Old(body: seq<HunkLine>, reverse: bool): seq<string> { Side(body, if reverse then '+' else '-') }

  function New(body: seq<HunkLine>, reverse: bool): seq<string> { Side(body, if reverse then '-' else '+') }

  /** Which lines of a side are common to both. */
  function SideFlags(body: seq<HunkLine>, tag: char): (f: seq<bool>)
    ensures |f| == |Side(body, tag)|
  {
    if body == [] then []
    else
      var h := body[|body| - 1];
      SideFlags(body[..|body| - 1], tag) + if h.tag == ' ' || h.tag == tag then [h.tag == ' '] else []
  }

  // the lines of an image, and which are common to both sides of a hunk
  datatype Content = Content(texts: seq<string>, flags: seq<bool>)

  function Plus(a: Content, b: Content): Content { Content(a.texts + b.texts, a.flags + b.flags) }

  ghost function Inside(img: Image): Content
    reads img
  {
    Content(img.texts, FlagsIn(img.line))
  }

  function OldSide(body: seq<HunkLine>, reverse: bool): Content
  {
    Content(Old(body, reverse), SideFlags(body, if reverse then '+' else '-'))
  }

  function NewSide(body: seq<HunkLine>, reverse: bool): Content
  {
    Content(New(body, reverse), SideFlags(body, if reverse then '-' else '+'))
  }

  lemma {:induction false} SideFlagsConcat(a: seq<HunkLine>, b: seq<HunkLine>, tag: char)
    ensures SideFlags(a + b, tag) == SideFlags(a, tag) + SideFlags(b, tag)
  {
    if b == [] {
      assert a + b == a;
    } else {
      assert (a + b)[..|a + b| - 1] == a + b[..|b| - 1];
      SideFlagsConcat(a, b[..|b| - 1], tag);
    }
  }

  lemma {:induction false} SideConcat(a: seq<HunkLine>, b: seq<HunkLine>, tag: char)
    ensures Side(a + b, tag) == Side(a, tag) + Side(b, tag)
  {
    if b == [] {
      assert a + b == a;
    } else {
      assert (a + b)[..|a + b| - 1] == a + b[..|b| - 1];
      SideConcat(a, b[..|b| - 1], tag);
    }
  }

  lemma SideOne(h: HunkLine, tag: char)
    ensures Side([h], tag) == if h.tag == ' ' || h.tag == tag then [h.text] else []
    ensures SideFlags([h], tag) == if h.tag == ' ' || h.tag == tag then [h.tag == ' '] else []
  {
    assert [h][..0] == [];
  }

  predicate IsTag(c: char) { c == ' ' || c == '-' || c == '+' }

  /** The tag as it counts: in reverse, old and new change places. */
  function Turned(tag: char, reverse: bool): char {
    if !reverse then tag else if tag == '-' then '+' else if tag == '+' then '-' else tag
  }

  lemma SidesOfLine(h: HunkLine, reverse: bool)
    requires IsTag(h.tag)
    ensures OldSide([h], reverse) == if Turned(h.tag, reverse) != '+' then Content([h.text], [h.tag == ' '])
      else Content([], [])
    ensures NewSide([h], reverse) == if Turned(h.tag, reverse) != '-' then Content([h.text], [h.tag == ' '])
      else Content([], [])
  {
    SideOne(h, '-');
    SideOne(h, '+');
  }

  method AddOne(img: Image, text: string, common: bool)
    requires img.Valid()
    modifies img
    ensures img.Valid() && Inside(img) == Plus(old(Inside(img)), Content([text], [common]))
  {
    img.AddLine(text, common);
  }

  method AddLines(first: char, text: string, pre: Image, post: Image)
    requires pre != post && pre.Valid() && post.Valid()
    modifies pre, post
    ensures pre.Valid() && post.Valid()
    ensures Inside(pre) == Plus(old(Inside(pre)),
                                if first != '+' then Content([text], [first == ' ']) else Content([], []))
    ensures Inside(post) == Plus(old(Inside(post)),
                                 if first != '-' then Content([text], [first == ' ']) else Content([], []))
  {
    PlusNothing(Inside(pre));
    PlusNothing(Inside(post));
    if first != '+' {
      AddOne(pre, text, first == ' ');
    }
    if first != '-' {
      AddOne(post, text, first == ' ');
    }
  }

  lemma PlusNothing(c: Content)
    ensures Plus(c, Content([], [])) == c
  {
  }

  /** One line of the text goes to the old lines, the new ones, or both. */
  method ParseLine(patch: string, reverse: bool, pre: Image, post: Image) returns (ok: bool)
    requires patch != "" && pre != post && pre.Valid() && post.Valid()
    modifies pre, post
    ensures pre.Valid() && post.Valid()
    ensures ok <==> HunkLines(patch).Some?
    ensures ok ==> Inside(pre) == Plus(old(Inside(pre)), OldSide(HunkLines(patch).value, reverse))
    ensures ok ==> Inside(post) == Plus(old(Inside(post)), NewSide(HunkLines(patch).value, reverse))
  {
    var lines := FirstLine(patch);
    ok := lines.Some?;
    if ok && lines.value != [] {
      var h := lines.value[0];
      assert lines.value == [h];
      AddTagged(h.tag, h.text, Turned(h.tag, reverse), reverse, pre, post);
    }
  }

  /**
     The first line without its tag, and without its newline if that is marked as missing; nothing for a header or a
     comment.
   */
  method FirstLine(patch: string) returns (lines: Option<seq<HunkLine>>)
    requires patch != ""
    ensures lines == HunkLines(patch)
      && (lines.Some? ==> |lines.value| <= 1 && forall i :: 0 <= i < |lines.value| ==> IsTag(lines.value[i].tag))
  {
    var len := LineEnd(patch);
    var plen := len - 1;
    if len < |patch| && patch[len] == '\\' {
      plen := plen - 1;
    }
    var first := patch[0];
    if first == '\n' {
      return Some(if plen < 0 then [] else [HunkLine(' ', "\n")]);
    } else if IsTag(first) {
      return Some([HunkLine(first, patch[1..1 + plen])]);
    } else if first == '@' || first == '\\' {
      return Some([]);
    }
    return None;
  }

  method AddTagged(ghost tag: char, text: string, first: char, ghost reverse: bool, pre: Image, post: Image)
    requires pre != post && pre.Valid() && post.Valid() && IsTag(tag) && first == Turned(tag, reverse)
    modifies pre, post
    ensures pre.Valid() && post.Valid()
    ensures Inside(pre) == Plus(old(Inside(pre)), OldSide([HunkLine(tag, text)], reverse))
    ensures Inside(post) == Plus(old(Inside(post)), NewSide([HunkLine(tag, text)], reverse))
  {
    SidesOfLine(HunkLine(tag, text), reverse);
    AddLines(first, text, pre, post);
  }

  /** The text parsed so far, and what is still to come. */
  ghost predicate Parsed(patch: string, at: nat, done: seq<HunkLine>) {
    at <= |patch| && Body(patch) == Joined(done, Body(patch[at..]))
  }

  lemma ParsedNext(patch: string, at: nat, done: seq<HunkLine>, rest: string, lines: Option<seq<HunkLine>>, next: nat,
                   done': seq<HunkLine>)
    requires at < |patch| && Parsed(patch, at, done) && rest == patch[at..] && lines == HunkLines(rest)
      && next == at + LineEnd(rest)
    requires lines.Some? ==> done' == done + lines.value
    ensures if lines == None then Body(patch) == None else Parsed(patch, next, done')
  {
    assert rest[LineEnd(rest)..] == patch[next..];
    if lines.Some? {
      JoinedTwice(done, lines.value, Body(patch[next..]));
    }
  }

  /** The images hold the lines parsed so far. */
  ghost predicate Holds(pre: Content, post: Content, done: seq<HunkLine>, reverse: bool) {
    pre == OldSide(done, reverse) && post == NewSide(done, reverse)
  }

  lemma HoldsMore(pre: Content, post: Content, done: seq<HunkLine>, more: seq<HunkLine>, pre': Content,
                  post': Content, done': seq<HunkLine>, reverse: bool)
    requires Holds(pre, post, done, reverse) && pre' == Plus(pre, OldSide(more, reverse))
      && post' == Plus(post, NewSide(more, reverse)) && done' == done + more
    ensures Holds(pre', post', done', reverse)
  {
    SideConcat(done, more, '-');
    SideConcat(done, more, '+');
    SideFlagsConcat(done, more, '-');
    SideFlagsConcat(done, more, '+');
  }

  method ParseNext(patch: string, at: nat, reverse: bool, pre: Image, post: Image, ghost done: seq<HunkLine>)
    returns (ok: bool, at': nat, ghost done': seq<HunkLine>)
    requires at < |patch| && pre != post && pre.Valid() && post.Valid() && Parsed(patch, at, done)
      && Holds(Inside(pre), Inside(post), done, reverse)
    modifies pre, post
    ensures pre.Valid() && post.Valid() && (!ok ==> Body(patch) == None)
    ensures ok ==> at < at' <= |patch| && Parsed(patch, at', done') && Holds(Inside(pre), Inside(post), done', reverse)
  {
    var rest := patch[at..];
    ghost var pres, posts := Inside(pre), Inside(post);
    ok := ParseLine(rest, reverse, pre, post);
    at' := at + LineEnd(rest);
    done' := done;
    if ok {
      done' := done + HunkLines(rest).value;
      HoldsMore(pres, posts, done, HunkLines(rest).value, Inside(pre), Inside(post), done', reverse);
    }
    ParsedNext(patch, at, done, rest, HunkLines(rest), at', done');
  }

  lemma ParsedAll(patch: string, done: seq<HunkLine>)
    requires Parsed(patch, |patch|, done)
    ensures Body(patch) == Some(done)
  {
    assert patch[|patch|..] == "" && done + [] == done;
  }

  lemma ParsedNone(patch: string)
    ensures Parsed(patch, 0, [])
  {
    assert patch[0..] == patch && forall t: seq<HunkLine> :: [] + t == t;
  }

  /** Makes images of the old and the new lines of a hunk. */
  method ParseFragment(patch: string, reverse: bool) returns (ok: bool, pre: Image, post: Image)
    ensures fresh(pre) && fresh(post) && pre != post && pre.Valid() && post.Valid()
    ensures ok <==> Body(patch).Some?
    ensures ok ==> Holds(Inside(pre), Inside(post), Body(patch).value, reverse)
  {
    pre := new Image();
    post := new Image();
    var at: nat := 0;
    ghost var done: seq<HunkLine> := [];
    ParsedNone(patch);
    ok := true;
    while at < |patch|
      invariant at <= |patch| && ok && fresh(pre) && fresh(post) && pre != post && pre.Valid() && post.Valid()
      invariant Parsed(patch, at, done) && Holds(Inside(pre), Inside(post), done, reverse)
    {
      ok, at, done := ParseNext(patch, at, reverse, pre, post, done);
      if !ok {
        return;
      }
    }
    ParsedAll(patch, done);
  }

  // ---- context ----

  function ButFirst(c: Content): Content
    requires c.texts != [] && c.flags != []
  {
    Content(c.texts[1..], c.flags[1..])
  }

  function ButLast(c: Content): Content
    requires c.texts != [] && c.flags != []
  {
    Content(c.texts[..|c.texts| - 1], c.flags[..|c.flags| - 1])
  }

  /** Without a context line in front, each side lacks its first line. */
  lemma HoldsButFirst(pre: Content, post: Content, body: seq<HunkLine>, reverse: bool)
    requires Holds(pre, post, body, reverse) && body != [] && body[0].tag == ' '
    ensures pre.texts != [] && pre.flags != [] && post.texts != [] && post.flags != []
    ensures Holds(ButFirst(pre), ButFirst(post), body[1..], reverse)
  {
    var h, rest := [body[0]], body[1..];
    assert body == h + rest;
    SideConcat(h, rest, '-');
    SideConcat(h, rest, '+');
    SideFlagsConcat(h, rest, '-');
    SideFlagsConcat(h, rest, '+');
    SideOne(body[0], '-');
    SideOne(body[0], '+');
  }

  /** Without a context line at the end, each side lacks its last line. */
  lemma HoldsButLast(pre: Content, post: Content, body: seq<HunkLine>, reverse: bool)
    requires Holds(pre, post, body, reverse) && body != [] && body[|body| - 1].tag == ' '
    ensures pre.texts != [] && pre.flags != [] && post.texts != [] && post.flags != []
    ensures Holds(ButLast(pre), ButLast(post), body[..|body| - 1], reverse)
  {
    SidesLast(body, reverse);
  }

  // ---- a hunk at a place with other whitespace ----

  /** The new lines of a hunk where the old ones stand as w: what is common stays as it is there. */
  function Redone(body: seq<HunkLine>, reverse: bool, w: seq<string>): seq<string>
    requires |w| == |Old(body, reverse)|
  {
    if body == [] then []
    else
      var b, h, m := body[..|body| - 1], body[|body| - 1], |w| - 1;
      if h.tag == ' ' then Redone(b, reverse, w[..m]) + [w[m]]
      else if h.tag == Turned('-', reverse) then Redone(b, reverse, w[..m])
      else Redone(b, reverse, w) + if h.tag == Turned('+', reverse) then [h.text] else []
  }

  /** Exactly in place, these are the new lines as the hunk has them. */
  lemma {:induction false} RedoneSame(body: seq<HunkLine>, reverse: bool)
    ensures Redone(body, reverse, Old(body, reverse)) == New(body, reverse)
  {
    if body != [] {
      var b, old_ := body[..|body| - 1], Old(body, reverse);
      RedoneSame(b, reverse);
      SidesLast(body, reverse);
      if body[|body| - 1].tag == ' ' || body[|body| - 1].tag == Turned('-', reverse) {
        assert old_[..|old_| - 1] == Old(b, reverse);
      }
    }
  }

  lemma {:induction false} RedoneLength(body: seq<HunkLine>, reverse: bool, w: seq<string>)
    requires |w| == |Old(body, reverse)|
    ensures |Redone(body, reverse, w)| == |New(body, reverse)|
  {
    if body != [] {
      var b, h, m := body[..|body| - 1], body[|body| - 1], |w| - 1;
      OldLength(body, b, h, reverse);
      SidesLast(body, reverse);
      RedoneLength(b, reverse, if h.tag == ' ' || h.tag == Turned('-', reverse) then w[..m] else w);
    }
  }

  /** The last line of a hunk on its sides. */
  lemma SidesLast(body: seq<HunkLine>, reverse: bool)
    requires body != []
    ensures var b, h := body[..|body| - 1], body[|body| - 1];
      var isOld, isNew := h.tag == ' ' || h.tag == Turned('-', reverse), h.tag == ' ' || h.tag == Turned('+', reverse);
      && OldSide(body, reverse) ==
         (if isOld then Add(OldSide(b, reverse), h.text, h.tag == ' ') else OldSide(b, reverse))
      && NewSide(body, reverse) ==
         (if isNew then Add(NewSide(b, reverse), h.text, h.tag == ' ') else NewSide(b, reverse))
  {
    SideLast(body, '-');
    SideLast(body, '+');
  }

  lemma SideLast(body: seq<HunkLine>, tag: char)
    requires body != []
    ensures var b, h := body[..|body| - 1], body[|body| - 1];
      Content(Side(body, tag), SideFlags(body, tag)) ==
      if h.tag == ' ' || h.tag == tag then Add(Content(Side(b, tag), SideFlags(b, tag)), h.text, h.tag == ' ')
        else Content(Side(b, tag), SideFlags(b, tag))
  {
    var b := body[..|body| - 1];
    assert Side(b, tag) + [] == Side(b, tag) && SideFlags(b, tag) + [] == SideFlags(b, tag);
  }

  lemma {:induction false} RefitMore(texts: seq<string>, flags: seq<bool>, cs: seq<string>, more: seq<string>)
    requires |texts| == |flags| && CountTrue(flags) <= |cs|
    ensures Refit(texts, flags, cs + more) == Refit(texts, flags, cs)
  {
    if texts != [] {
      RefitMore(texts[..|texts| - 1], flags[..|texts| - 1], cs, more);
    }
  }

  // the sides of a hunk at a place: its new and old lines with their flags, and the lines there
  datatype Sides = Sides(new_: Content, old_: Content, w: seq<string>)

  ghost predicate SidesFit(x: Sides, redone: seq<string>) {
    && |x.new_.texts| == |x.new_.flags| && |x.old_.texts| == |x.old_.flags| == |x.w|
    && CountTrue(x.new_.flags) == CountTrue(x.old_.flags)
    && Commons(x.new_.texts, x.new_.flags) == Commons(x.old_.texts, x.old_.flags)
    && Refit(x.new_.texts, x.new_.flags, Commons(x.w, x.old_.flags)) == redone
  }

  function Add(c: Content, text: string, flag: bool): Content { Content(c.texts + [text], c.flags + [flag]) }

  lemma AddLast(c: Content, text: string, flag: bool)
    requires |c.texts| == |c.flags|
    ensures var d := Add(c, text, flag); d.texts[..|c.texts|] == c.texts && d.flags[..|c.flags|] == c.flags
    ensures CountTrue(Add(c, text, flag).flags) == CountTrue(c.flags) + if flag then 1 else 0
    ensures flag ==> Commons(Add(c, text, flag).texts, Add(c, text, flag).flags) == Commons(c.texts, c.flags) + [text]
    ensures !flag ==> Commons(Add(c, text, flag).texts, Add(c, text, flag).flags) == Commons(c.texts, c.flags)
  {
    var d := Add(c, text, flag);
    assert d.texts[..|c.texts|] == c.texts && d.flags[..|c.flags|] == c.flags;
    assert Commons(c.texts, c.flags) + [] == Commons(c.texts, c.flags);
  }

  lemma FitCommon(x: Sides, redone: seq<string>, text: string, there: string)
    requires SidesFit(x, redone)
    ensures SidesFit(Sides(Add(x.new_, text, true), Add(x.old_, text, true), x.w + [there]), redone + [there])
  {
    var cs := Commons(x.w, x.old_.flags);
    AddLast(x.new_, text, true);
    AddLast(x.old_, text, true);
    AddLast(Content(x.w, x.old_.flags), there, true);
    RefitMore(x.new_.texts, x.new_.flags, cs, [there]);
    RefitLast(x.new_.texts + [text], x.new_.flags + [true], cs + [there], x.new_.texts, x.new_.flags);
  }

  lemma FitOld(x: Sides, redone: seq<string>, text: string, there: string)
    requires SidesFit(x, redone)
    ensures SidesFit(Sides(x.new_, Add(x.old_, text, false), x.w + [there]), redone)
  {
    AddLast(x.old_, text, false);
    AddLast(Content(x.w, x.old_.flags), there, false);
  }

  lemma FitNew(x: Sides, redone: seq<string>, text: string)
    requires SidesFit(x, redone)
    ensures SidesFit(Sides(Add(x.new_, text, false), x.old_, x.w), redone + [text])
  {
    AddLast(x.new_, text, false);
    RefitLast(x.new_.texts + [text], x.new_.flags + [false], Commons(x.w, x.old_.flags), x.new_.texts, x.new_.flags);
  }

  ghost predicate RedoneFit(body: seq<HunkLine>, reverse: bool, w: seq<string>) {
    |w| == |Old(body, reverse)| && SidesFit(Sides(NewSide(body, reverse), OldSide(body, reverse), w),
                                            Redone(body, reverse, w))
  }

  lemma RedoneOld(body: seq<HunkLine>, b: seq<HunkLine>, h: HunkLine, reverse: bool, w: seq<string>, w0: seq<string>,
                  there: string)
    requires body == b + [h] && w == w0 + [there] && RedoneFit(b, reverse, w0)
      && (h.tag == ' ' || h.tag == Turned('-', reverse))
    ensures RedoneFit(body, reverse, w)
  {
    SidesLast(body, reverse);
    assert body[..|b|] == b && w[..|w0|] == w0;
    var x := Sides(NewSide(b, reverse), OldSide(b, reverse), w0);
    if h.tag == ' ' {
      FitCommon(x, Redone(b, reverse, w0), h.text, there);
    } else {
      FitOld(x, Redone(b, reverse, w0), h.text, there);
    }
  }

  lemma RedoneNew(body: seq<HunkLine>, b: seq<HunkLine>, h: HunkLine, reverse: bool, w: seq<string>)
    requires body == b + [h] && RedoneFit(b, reverse, w) && h.tag != ' ' && h.tag != Turned('-', reverse)
    ensures RedoneFit(body, reverse, w)
  {
    SidesLast(body, reverse);
    assert body[..|b|] == b;
    assert Redone(b, reverse, w) + [] == Redone(b, reverse, w);
    if h.tag == Turned('+', reverse) {
      FitNew(Sides(NewSide(b, reverse), OldSide(b, reverse), w), Redone(b, reverse, w), h.text);
    }
  }

  lemma OldLength(body: seq<HunkLine>, b: seq<HunkLine>, h: HunkLine, reverse: bool)
    requires body != [] && b == body[..|body| - 1] && h == body[|body| - 1]
    ensures var isOld := h.tag == ' ' || h.tag == Turned('-', reverse);
      body == b + [h] && |Old(body, reverse)| == |Old(b, reverse)| + if isOld then 1 else 0
  {
    SidesLast(body, reverse);
  }

  /** Adapting the new side line by line gives these lines. */
  lemma {:induction false} RedoneFits(body: seq<HunkLine>, reverse: bool, w: seq<string>)
    requires |w| == |Old(body, reverse)|
    ensures RedoneFit(body, reverse, w)
  {
    if body != [] {
      var b, h, m := body[..|body| - 1], body[|body| - 1], |w| - 1;
      OldLength(body, b, h, reverse);
      if h.tag == ' ' || h.tag == Turned('-', reverse) {
        RedoneFits(b, reverse, w[..m]);
        RedoneOld(body, b, h, reverse, w, w[..m], w[m]);
      } else {
        RedoneFits(b, reverse, w);
        RedoneNew(body, b, h, reverse, w);
      }
    }
  }

  // ---- newlines ----

  /** Every line of a hunk is one line. */
  lemma {:induction false} BodyOneLined(patch: string)
    requires Body(patch).Some?
    ensures forall i :: 0 <= i < |Body(patch).value| ==> OneLine(Body(patch).value[i].text)
  {
    if patch != "" {
      BodyOneLined(patch[LineEnd(patch)..]);
      LineOneLined(patch);
    }
  }

  lemma LineOneLined(patch: string)
    requires patch != "" && HunkLines(patch).Some?
    ensures forall i :: 0 <= i < |HunkLines(patch).value| ==> OneLine(HunkLines(patch).value[i].text)
  {
    if IsTag(patch[0]) {
      var plen := PatchLen(patch);
      var text := patch[1..1 + plen];
      assert forall i :: 0 <= i < |text| ==> text[i] == patch[i + 1];
    }
  }

  lemma {:induction false} SideOneLined(body: seq<HunkLine>, tag: char)
    requires forall i :: 0 <= i < |body| ==> OneLine(body[i].text)
    ensures OneLined(Side(body, tag))
  {
    if body != [] {
      SideOneLined(body[..|body| - 1], tag);
    }
  }

  lemma {:induction false} RedoneOneLined(body: seq<HunkLine>, reverse: bool, w: seq<string>)
    requires |w| == |Old(body, reverse)| && OneLined(w) && forall i :: 0 <= i < |body| ==> OneLine(body[i].text)
    ensures OneLined(Redone(body, reverse, w))
  {
    if body != [] {
      var b, h, m := body[..|body| - 1], body[|body| - 1], |w| - 1;
      SidesLast(body, reverse);
      RedoneOneLined(b, reverse, if h.tag == ' ' || h.tag == Turned('-', reverse) then w[..m] else w);
    }
  }
}
