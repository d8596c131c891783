/**
 The spellings of an argument on a line, and the lines that are refused (git/alias.c).
 */
module CommandSpelling {
  import opened CommandLine

  // ---- spelling ----

  // part of an argument: as it is, with a backslash before each character, or between quotes
  datatype Piece = Plain(text: string) | Slashed(text: string) | Single(text: string) | Double(text: string)

  predicate IsBlank(c: char) { c == ' ' || c == '\t' || c == '\n' || c == '\r' }

  predicate IsPlain(c: char) { !IsBlank(c) && c != '\'' && c != '"' && c != '\\' }

  ghost predicate Has(text: string, c: char) { exists i :: 0 <= i < |text| && text[i] == c }

  /** Only characters without a meaning can stand as they are, and all but its like within single quotes. */
  ghost predicate CanSpell(p: Piece) {
    && !Has(p.text, '\0') && (p.Single? ==> !Has(p.text, '\''))
    && (p.Plain? ==> forall i :: 0 <= i < |p.text| ==> IsPlain(p.text[i]))
  }

  function Slashes(text: string): string { if text == "" then "" else ['\\', text[0]] + Slashes(text[1..]) }

  function Spelled(p: Piece): string {
    match p
    case Plain(t) => t
    case Slashed(t) => Slashes(t)
    case Single(t) => ['\''] + t + ['\'']
    case Double(t) => ['"'] + Escape(t) + ['"']
  }

  function ArgSpelled(arg: seq<Piece>): string {
    if arg == [] then "" else Spelled(arg[0]) + ArgSpelled(arg[1..])
  }

  function Meant(arg: seq<Piece>): string { if arg == [] then "" else arg[0].text + Meant(arg[1..]) }

  function AllMeant(args: seq<seq<Piece>>): seq<string> {
    seq(|args|, i requires 0 <= i < |args| => Meant(args[i]))
  }

  ghost predicate Blank(b: string) { b != "" && forall i :: 0 <= i < |b| ==> IsBlank(b[i]) }

  /** The arguments with blanks between them. */
  function LineSpelled(args: seq<seq<Piece>>, blanks: seq<string>): string
    requires |args| == |blanks| + 1
  {
    if blanks == [] then ArgSpelled(args[0])
    else ArgSpelled(args[0]) + (blanks[0] + LineSpelled(args[1..], blanks[1..]))
  }

  ghost predicate CanSpellArg(arg: seq<Piece>) { forall k :: 0 <= k < |arg| ==> CanSpell(arg[k]) }

  ghost predicate CanSpellAll(args: seq<seq<Piece>>) { forall i :: 0 <= i < |args| ==> CanSpellArg(args[i]) }

  /** Blanks stand alone between arguments; only the first and the last argument may be spelled by nothing. */
  ghost predicate Parted(args: seq<seq<Piece>>, blanks: seq<string>) {
    && |args| == |blanks| + 1 && (forall i :: 0 <= i < |blanks| ==> Blank(blanks[i]))
    && (forall i :: 0 < i < |args| - 1 ==> ArgSpelled(args[i]) != "")
  }

  // ---- reading what was spelled ----

  lemma PlainRead(c: char, rest: string, cur: string, args: seq<string>, text: string)
    requires c != '\0' && IsPlain(c) && text == [c] + rest
    ensures SplitFrom(State(text, '\0', cur, args)) == SplitFrom(State(rest, '\0', cur + [c], args))
  {
    assert text[0] == c && text[1..] == rest;
    assert Next(State(text, '\0', cur, args)) == State(rest, '\0', cur + [c], args);
  }

  lemma SlashRead(c: char, rest: string, cur: string, args: seq<string>, text: string)
    requires text == ['\\', c] + rest
    ensures SplitFrom(State(text, '\0', cur, args)) == SplitFrom(State(rest, '\0', cur + [c], args))
  {
    assert text[0] == '\\' && text[1] == c && text[2..] == rest;
    assert Next(State(text, '\0', cur, args)) == State(rest, '\0', cur + [c], args);
  }

  lemma SingleRead(c: char, rest: string, cur: string, args: seq<string>, text: string)
    requires c != '\'' && text == [c] + rest
    ensures SplitFrom(State(text, '\'', cur, args)) == SplitFrom(State(rest, '\'', cur + [c], args))
  {
    assert text[0] == c && text[1..] == rest;
    assert Next(State(text, '\'', cur, args)) == State(rest, '\'', cur + [c], args);
  }

  lemma OpenRead(q: char, rest: string, cur: string, args: seq<string>, text: string)
    requires (q == '\'' || q == '"') && text == [q] + rest
    ensures SplitFrom(State(text, '\0', cur, args)) == SplitFrom(State(rest, q, cur, args))
    ensures SplitFrom(State(text, q, cur, args)) == SplitFrom(State(rest, '\0', cur, args))
  {
    assert text[0] == q && text[1..] == rest;
    assert Next(State(text, '\0', cur, args)) == State(rest, q, cur, args);
    assert Next(State(text, q, cur, args)) == State(rest, '\0', cur, args);
  }

  lemma {:induction false} PlainsRead(t: string, rest: string, cur: string, args: seq<string>)
    requires CanSpell(Plain(t))
    ensures SplitFrom(State(t + rest, '\0', cur, args)) == SplitFrom(State(rest, '\0', cur + t, args))
  {
    if t == "" {
      assert t + rest == rest && cur + t == cur;
    } else {
      assert t + rest == [t[0]] + (t[1..] + rest);
      PlainRead(t[0], t[1..] + rest, cur, args, t + rest);
      PlainsRead(t[1..], rest, cur + [t[0]], args);
      Shift(cur, t);
    }
  }

  lemma {:induction false} SlashesRead(t: string, rest: string, cur: string, args: seq<string>)
    ensures SplitFrom(State(Slashes(t) + rest, '\0', cur, args)) == SplitFrom(State(rest, '\0', cur + t, args))
  {
    if t == "" {
      assert Slashes(t) + rest == rest && cur + t == cur;
    } else {
      assert Slashes(t) + rest == ['\\', t[0]] + (Slashes(t[1..]) + rest);
      SlashRead(t[0], Slashes(t[1..]) + rest, cur, args, Slashes(t) + rest);
      SlashesRead(t[1..], rest, cur + [t[0]], args);
      Shift(cur, t);
    }
  }

  lemma {:induction false} SinglesRead(t: string, rest: string, cur: string, args: seq<string>)
    requires CanSpell(Single(t))
    ensures SplitFrom(State(t + rest, '\'', cur, args)) == SplitFrom(State(rest, '\'', cur + t, args))
  {
    if t == "" {
      assert t + rest == rest && cur + t == cur;
    } else {
      assert t + rest == [t[0]] + (t[1..] + rest);
      SingleRead(t[0], t[1..] + rest, cur, args, t + rest);
      SinglesRead(t[1..], rest, cur + [t[0]], args);
      Shift(cur, t);
    }
  }

  /** Each spelling stands for its text. */
  lemma PieceRead(p: Piece, rest: string, cur: string, args: seq<string>)
    requires CanSpell(p)
    ensures SplitFrom(State(Spelled(p) + rest, '\0', cur, args)) == SplitFrom(State(rest, '\0', cur + p.text, args))
  {
    match p
    case Plain(t) => PlainsRead(t, rest, cur, args);
    case Slashed(t) => SlashesRead(t, rest, cur, args);
    case Single(t) => SingleQuotedRead(t, rest, cur, args);
    case Double(t) => DoubleQuotedRead(t, rest, cur, args);
  }

  lemma SingleQuotedRead(t: string, rest: string, cur: string, args: seq<string>)
    requires CanSpell(Single(t))
    ensures SplitFrom(State(Spelled(Single(t)) + rest, '\0', cur, args)) ==
      SplitFrom(State(rest, '\0', cur + t, args))
  {
    var end := ['\''] + rest;
    assert Spelled(Single(t)) + rest == ['\''] + (t + end);
    OpenRead('\'', t + end, cur, args, Spelled(Single(t)) + rest);
    SinglesRead(t, end, cur, args);
    OpenRead('\'', rest, cur + t, args, end);
  }

  lemma DoubleQuotedRead(t: string, rest: string, cur: string, args: seq<string>)
    requires CanSpell(Double(t))
    ensures SplitFrom(State(Spelled(Double(t)) + rest, '\0', cur, args)) ==
      SplitFrom(State(rest, '\0', cur + t, args))
  {
    var end := ['"'] + rest;
    assert Spelled(Double(t)) + rest == ['"'] + (Escape(t) + end);
    OpenRead('"', Escape(t) + end, cur, args, Spelled(Double(t)) + rest);
    InQuotes(t, end, rest, cur, args);
  }

  lemma ArgUnfold(arg: seq<Piece>, rest: string, cur: string)
    requires arg != [] && CanSpellArg(arg)
    ensures CanSpell(arg[0]) && CanSpellArg(arg[1..])
    ensures ArgSpelled(arg) + rest == Spelled(arg[0]) + (ArgSpelled(arg[1..]) + rest)
    ensures (cur + arg[0].text) + Meant(arg[1..]) == cur + Meant(arg)
  {
  }

  lemma {:induction false} ArgRead(arg: seq<Piece>, rest: string, cur: string, args: seq<string>)
    requires CanSpellArg(arg)
    ensures SplitFrom(State(ArgSpelled(arg) + rest, '\0', cur, args)) ==
      SplitFrom(State(rest, '\0', cur + Meant(arg), args))
  {
    if arg == [] {
      assert ArgSpelled(arg) + rest == rest && cur + Meant(arg) == cur;
    } else {
      ArgUnfold(arg, rest, cur);
      PieceRead(arg[0], ArgSpelled(arg[1..]) + rest, cur, args);
      ArgRead(arg[1..], rest, cur + arg[0].text, args);
    }
  }

  lemma {:induction false} SkipBlank(b: string, text: string)
    requires (forall i :: 0 <= i < |b| ==> IsBlank(b[i])) && (text == "" || !IsSpace(text[0]))
    ensures SkipSpaces(b + text) == text
  {
    if b == "" {
      assert b + text == text;
    } else {
      assert (b + text)[1..] == b[1..] + text;
      SkipBlank(b[1..], text);
    }
  }

  lemma BlankRead(b: string, text: string, cur: string, args: seq<string>)
    requires Blank(b) && (text == "" || !IsSpace(text[0]))
    ensures SplitFrom(State(b + text, '\0', cur, args)) == SplitFrom(State(text, '\0', "", args + [cur]))
  {
    var s := b + text;
    assert s[0] == b[0] && s[1..] == b[1..] + text;
    SkipBlank(b[1..], text);
    assert Next(State(s, '\0', cur, args)) == State(text, '\0', "", args + [cur]);
  }

  /** What is spelled never begins with a blank. */
  lemma {:induction false} SpelledStart(arg: seq<Piece>)
    requires CanSpellArg(arg)
    ensures ArgSpelled(arg) != "" ==> !IsSpace(ArgSpelled(arg)[0])
  {
    if arg != [] {
      if Spelled(arg[0]) == "" {
        assert ArgSpelled(arg) == ArgSpelled(arg[1..]);
        SpelledStart(arg[1..]);
      } else {
        assert ArgSpelled(arg)[0] == Spelled(arg[0])[0];
      }
    }
  }

  lemma LineStart(args: seq<seq<Piece>>, blanks: seq<string>)
    requires CanSpellAll(args) && Parted(args, blanks) && (ArgSpelled(args[0]) != "" || blanks == [])
    ensures LineSpelled(args, blanks) == "" || !IsSpace(LineSpelled(args, blanks)[0])
  {
    SpelledStart(args[0]);
  }

  lemma ArgAndBlankRead(arg: seq<Piece>, b: string, rest: string, done: seq<string>)
    requires CanSpellArg(arg) && Blank(b) && (rest == "" || !IsSpace(rest[0]))
    ensures SplitFrom(State(ArgSpelled(arg) + (b + rest), '\0', "", done)) ==
      SplitFrom(State(rest, '\0', "", done + [Meant(arg)]))
  {
    ArgRead(arg, b + rest, "", done);
    assert "" + Meant(arg) == Meant(arg);
    BlankRead(b, rest, Meant(arg), done);
  }

  lemma LastArgRead(arg: seq<Piece>, done: seq<string>)
    requires CanSpellArg(arg) && |done| + 1 < INT_MAX
    ensures SplitFrom(State(ArgSpelled(arg), '\0', "", done)) == Args(done + [Meant(arg)])
  {
    ArgRead(arg, "", "", done);
    assert ArgSpelled(arg) + "" == ArgSpelled(arg) && "" + Meant(arg) == Meant(arg);
  }

  lemma MeantTail(args: seq<seq<Piece>>, done: seq<string>)
    requires args != []
    ensures (done + [Meant(args[0])]) + AllMeant(args[1..]) == done + AllMeant(args)
  {
  }

  lemma {:induction false} LineRead(args: seq<seq<Piece>>, blanks: seq<string>, done: seq<string>)
    requires CanSpellAll(args) && Parted(args, blanks) && |done| + |args| < INT_MAX
    ensures SplitFrom(State(LineSpelled(args, blanks), '\0', "", done)) == Args(done + AllMeant(args))
    decreases |args|
  {
    MeantTail(args, done);
    if blanks == [] {
      LastArgRead(args[0], done);
      assert done + [Meant(args[0])] + [] == done + [Meant(args[0])];
    } else {
      LineStart(args[1..], blanks[1..]);
      ArgAndBlankRead(args[0], blanks[0], LineSpelled(args[1..], blanks[1..]), done);
      LineRead(args[1..], blanks[1..], done + [Meant(args[0])]);
    }
  }

  /** Every spelling of arguments is split into just these, whatever blanks are between them. */
  lemma SplitSpelled(args: seq<seq<Piece>>, blanks: seq<string>)
    requires CanSpellAll(args) && Parted(args, blanks) && |args| < INT_MAX
    ensures SplitLine(LineSpelled(args, blanks)) == Args(AllMeant(args))
  {
    LineRead(args, blanks, []);
    assert [] + AllMeant(args) == AllMeant(args);
  }

  // ---- lines that are refused ----

  // the quote that a character is in, NUL if none, and whether a backslash stands before it
  datatype Mode = Mode(quoted: char, slashed: bool)

  /** The mode behind a character. */
  function Behind(m: Mode, c: char): Mode {
    if m.slashed then Mode(m.quoted, false)
    else if c == '\\' then Mode(m.quoted, m.quoted != '\'')
    else if c == m.quoted then Mode('\0', false)
    else if m.quoted == '\0' && (c == '\'' || c == '"') then Mode(c, false)
    else m
  }

  /** The mode at the end of a line. */
  function AtEnd(line: string): Mode {
    if line == "" then Mode('\0', false) else Behind(AtEnd(line[..|line| - 1]), line[|line| - 1])
  }

  function AtEndFrom(m: Mode, line: string): Mode
    decreases |line|
  {
    if line == "" then m else AtEndFrom(Behind(m, line[0]), line[1..])
  }

  lemma {:induction false} AtEndSplit(s: string, t: string)
    ensures AtEnd(s + t) == AtEndFrom(AtEnd(s), t)
    decreases |t|
  {
    if t == "" {
      assert s + t == s;
    } else {
      var s' := s + [t[0]];
      assert s' + t[1..] == s + t && s'[..|s|] == s;
      AtEndSplit(s', t[1..]);
    }
  }

  lemma {:induction false} AtEndSkips(s: string)
    ensures AtEndFrom(Mode('\0', false), s) == AtEndFrom(Mode('\0', false), SkipSpaces(s))
  {
    if s != "" && IsSpace(s[0]) {
      AtEndSkips(s[1..]);
    }
  }

  ghost predicate NoNul(s: string) { forall i :: 0 <= i < |s| ==> s[i] != '\0' }

  lemma {:induction false} SkipNoNul(s: string)
    requires NoNul(s)
    ensures NoNul(SkipSpaces(s))
  {
    if s != "" && IsSpace(s[0]) {
      SkipNoNul(s[1..]);
    }
  }

  /** A step of the split leaves the mode at the end as it is. */
  lemma NextAtEnd(t: State)
    requires t.State? && t.rest != "" && NoNul(t.rest) && t.quoted in {'\0', '\'', '"'}
    ensures var t' := Next(t);
      if t'.State? then
        t'.quoted in {'\0', '\'', '"'} && NoNul(t'.rest)
        && AtEndFrom(Mode(t'.quoted, false), t'.rest) == AtEndFrom(Mode(t.quoted, false), t.rest)
      else AtEndFrom(Mode(t.quoted, false), t.rest).slashed
  {
    var s, m := t.rest, Mode(t.quoted, false);
    var m' := Behind(m, s[0]);
    assert AtEndFrom(m, s) == AtEndFrom(m', s[1..]);
    if t.quoted == '\0' && IsSpace(s[0]) {
      AtEndSkips(s[1..]);
      SkipNoNul(s[1..]);
    } else if s[0] == '\\' && t.quoted != '\'' {
      if |s| == 1 {
        assert s[1..] == "";
      } else {
        assert s[1..][1..] == s[2..] && s[1..][0] == s[1];
        assert AtEndFrom(m', s[1..]) == AtEndFrom(Behind(m', s[1]), s[2..]);
      }
    }
  }

  lemma {:induction false} RefusedFrom(t: State)
    requires t.State? && NoNul(t.rest) && t.quoted in {'\0', '\'', '"'}
    ensures SplitFrom(t) == BadEnding <==> AtEndFrom(Mode(t.quoted, false), t.rest).slashed
    ensures SplitFrom(t) == UnclosedQuote <==>
      !AtEndFrom(Mode(t.quoted, false), t.rest).slashed && AtEndFrom(Mode(t.quoted, false), t.rest).quoted != '\0'
    decreases |t.rest|
  {
    if t.rest != "" {
      NextAtEnd(t);
      if Next(t).State? {
        RefusedFrom(Next(t));
      }
    }
  }

  lemma AtEndIs(line: string)
    ensures AtEndFrom(Mode('\0', false), line) == AtEnd(line)
  {
    AtEndSplit("", line);
    assert "" + line == line;
  }

  lemma SlashedAtEnd(line: string)
    ensures AtEnd(line).slashed <==>
      (line != "" && line[|line| - 1] == '\\'
       && !AtEnd(line[..|line| - 1]).slashed && AtEnd(line[..|line| - 1]).quoted != '\'')
  {
  }

  lemma RefusedAtEnd(line: string, m: Mode, r: Split)
    requires NoNul(line) && m == AtEnd(line) && r == SplitLine(line)
    ensures (r == BadEnding <==> m.slashed) && (r == UnclosedQuote <==> !m.slashed && m.quoted != '\0')
  {
    AtEndIs(line);
    RefusedFrom(State(line, '\0', "", []));
  }

  /**
   A line is refused for its ending just if its last character is a backslash with no backslash in force before it,
   outside single quotes; and for an open quote just if one is open behind its last character.
   */
  lemma Refused(line: string)
    requires NoNul(line)
    ensures SplitLine(line) == BadEnding <==>
      (line != "" && line[|line| - 1] == '\\'
       && !AtEnd(line[..|line| - 1]).slashed && AtEnd(line[..|line| - 1]).quoted != '\'')
    ensures SplitLine(line) == UnclosedQuote <==> (!AtEnd(line).slashed && AtEnd(line).quoted != '\0')
  {
    SlashedAtEnd(line);
    RefusedAtEnd(line, AtEnd(line), SplitLine(line));
  }
}
