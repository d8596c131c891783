/**
 Quoting arguments into one line, and splitting a line into arguments in place (git/alias.c).
 */
module CommandLine {

  const INT_MAX := 0x7fff_ffff

  predicate IsSpace(c: char) { c == ' ' || c == '\t' || c == '\n' || c == '\r' }

  datatype Split = Args(args: seq<string>) | BadEnding | UnclosedQuote | TooMany

  // ---- what a line means ----

  function SkipSpaces(s: string): (t: string)
    ensures |t| <= |s|
  {
    if s != "" && IsSpace(s[0]) then SkipSpaces(s[1..]) else s
  }

  // the rest of a line, the quote it is in (NUL if none), the argument begun and those complete; or a backslash at the
  // end
  datatype State = State(rest: string, quoted: char, cur: string, args: seq<string>) | BadState

  /** What the next character does. */
  function Next(t: State): (t': State)
    requires t.State? && t.rest != ""
    ensures t'.State? ==> |t'.rest| < |t.rest|
  {
    var s := t.rest;
    if t.quoted == '\0' && IsSpace(s[0]) then State(SkipSpaces(s[1..]), '\0', "", t.args + [t.cur])
    else if t.quoted == '\0' && (s[0] == '\'' || s[0] == '"') then State(s[1..], s[0], t.cur, t.args)
    else if s[0] == t.quoted then State(s[1..], '\0', t.cur, t.args)
    else if s[0] == '\\' && t.quoted != '\'' then
      if |s| == 1 then BadState else State(s[2..], t.quoted, t.cur + [s[1]], t.args)
    else State(s[1..], t.quoted, t.cur + [s[0]], t.args)
  }

  /** The arguments that the rest of a line leads to. */
  function SplitFrom(t: State): Split
    decreases if t.State? then |t.rest| + 1 else 0
  {
    if t.BadState? then BadEnding
    else if t.rest != "" then SplitFrom(Next(t))
    else if t.quoted != '\0' then UnclosedQuote
    else if |t.args| + 1 >= INT_MAX then TooMany
    else Args(t.args + [t.cur])
  }

  /** The arguments of a line. */
  function SplitLine(line: string): Split { SplitFrom(State(line, '\0', "", [])) }

  // ---- quoting ----

  function Escape(a: string): string {
    if a == "" then "" else (if a[0] == '"' || a[0] == '\\' then "\\" else "") + [a[0]] + Escape(a[1..])
  }

  function Quote(argv: seq<string>): string
    decreases |argv|, 1
  {
    if argv == [] then "" else "\"" + (Escape(argv[0]) + ("\"" + QuoteRest(argv)))
  }

  /** What comes behind the first argument. */
  function QuoteRest(argv: seq<string>): string
    requires argv != []
    decreases |argv|, 0
  {
    if |argv| == 1 then "" else " " + Quote(argv[1..])
  }

  /** Within double quotes an escaped character stands for itself. */
  lemma InQuotesOne(c: char, text: string, tail: string, cur: string, args: seq<string>)
    requires c != '\0' && text == (if c == '"' || c == '\\' then "\\" else "") + [c] + tail
    ensures SplitFrom(State(text, '"', cur, args)) == SplitFrom(State(tail, '"', cur + [c], args))
  {
    Unescape(c, text, tail, cur, args);
  }

  lemma Unescape(c: char, text: string, tail: string, cur: string, args: seq<string>)
    requires c != '\0' && text == (if c == '"' || c == '\\' then "\\" else "") + [c] + tail
    ensures Next(State(text, '"', cur, args)) == State(tail, '"', cur + [c], args)
  {
    if c == '"' || c == '\\' {
      assert text[0] == '\\' && text[1] == c && text[2..] == tail;
    } else {
      assert text[0] == c && text[1..] == tail;
    }
  }

  lemma {:induction false} InQuotes(a: string, end: string, rest: string, cur: string, args: seq<string>)
    requires (forall i :: 0 <= i < |a| ==> a[i] != '\0') && end == "\"" + rest
    ensures SplitFrom(State(Escape(a) + end, '"', cur, args)) == SplitFrom(State(rest, '\0', cur + a, args))
    decreases |a|
  {
    if a == "" {
      assert Escape(a) + end == end && cur + a == cur;
      CloseQuote(end, rest, cur, args);
    } else {
      EscapeUnfold(a, end);
      InQuotesOne(a[0], Escape(a) + end, Escape(a[1..]) + end, cur, args);
      InQuotes(a[1..], end, rest, cur + [a[0]], args);
      Shift(cur, a);
    }
  }

  lemma CloseQuote(end: string, rest: string, cur: string, args: seq<string>)
    requires end == "\"" + rest
    ensures SplitFrom(State(end, '"', cur, args)) == SplitFrom(State(rest, '\0', cur, args))
  {
    assert end[0] == '"' && end[1..] == rest;
    assert Next(State(end, '"', cur, args)) == State(rest, '\0', cur, args);
  }

  lemma Shift(cur: string, a: string)
    requires a != ""
    ensures (cur + [a[0]]) + a[1..] == cur + a
  {
  }

  lemma EscapeUnfold(a: string, end: string)
    requires a != ""
    ensures Escape(a) + end == (if a[0] == '"' || a[0] == '\\' then "\\" else "") + [a[0]] + (Escape(a[1..]) + end)
  {
  }

  ghost predicate NulFree(argv: seq<string>) {
    forall i, k :: 0 <= i < |argv| && 0 <= k < |argv[i]| ==> argv[i][k] != '\0'
  }

  /** Splitting the quoted arguments, after others, adds just these. */
  lemma {:induction false} SplitQuoteAfter(argv: seq<string>, args: seq<string>)
    requires argv != [] && NulFree(argv) && |args| + |argv| < INT_MAX
    ensures SplitFrom(State(Quote(argv), '\0', "", args)) == Args(args + argv)
    decreases |argv|
  {
    var a, rest := argv[0], QuoteRest(argv);
    OpenQuote(Escape(a) + ("\"" + rest), args);
    InQuotes(a, "\"" + rest, rest, "", args);
    assert "" + a == a;
    if |argv| == 1 {
      assert argv == [a];
    } else {
      SplitQuoteAfter(argv[1..], args + [a]);
      assert (args + [a]) + argv[1..] == args + argv;
      NextArgument(Quote(argv[1..]), a, args);
    }
  }

  lemma OpenQuote(text: string, args: seq<string>)
    ensures SplitFrom(State("\"" + text, '\0', "", args)) == SplitFrom(State(text, '"', "", args))
  {
    var s := "\"" + text;
    assert s[0] == '"' && s[1..] == text;
    assert Next(State(s, '\0', "", args)) == State(text, '"', "", args);
  }

  lemma NextArgument(text: string, cur: string, args: seq<string>)
    requires text != "" && !IsSpace(text[0])
    ensures SplitFrom(State(" " + text, '\0', cur, args)) == SplitFrom(State(text, '\0', "", args + [cur]))
  {
    var s := " " + text;
    assert s[0] == ' ' && s[1..] == text && SkipSpaces(text) == text;
    assert Next(State(s, '\0', cur, args)) == State(text, '\0', "", args + [cur]);
  }

  /** Arguments that were quoted are found again. */
  lemma SplitQuote(argv: seq<string>)
    requires argv != [] && NulFree(argv) && |argv| < INT_MAX
    ensures SplitLine(Quote(argv)) == Args(argv)
  {
    SplitQuoteAfter(argv, []);
    assert [] + argv == argv;
  }

  /** No arguments are quoted as nothing, which is split into one empty argument. */
  lemma SplitNothing()
    ensures SplitLine(Quote([])) == Args([""])
  {
  }

  /** Writes the quoted arguments, with a blank between them. */
  method QuoteCmdline(argv: seq<string>) returns (buf: string)
    ensures buf == Quote(argv)
  {
    buf := "";
    var i := 0;
    assert argv[0..] == argv;
    while i < |argv|
      invariant 0 <= i <= |argv| && buf + (if 0 < i < |argv| then " " else "") + Quote(argv[i..]) == Quote(argv)
    {
      ghost var before := buf + (if i > 0 then " " else "");
      if i > 0 {
        buf := buf + " ";
      }
      buf := buf + "\"";
      var p := 0;
      assert argv[i][0..] == argv[i];
      while p < |argv[i]|
        invariant 0 <= p <= |argv[i]| && buf + Escape(argv[i][p..]) == before + "\"" + Escape(argv[i])
      {
        var c := argv[i][p];
        EscapeNext(argv[i], p, buf);
        if c == '"' || c == '\\' {
          buf := buf + "\\";
        }
        buf := buf + [c];
        p := p + 1;
      }
      buf := buf + "\"";
      QuoteNext(argv, i, before, buf);
      i := i + 1;
    }
  }

  lemma EscapeNext(a: string, p: nat, buf: string)
    requires p < |a|
    ensures buf + Escape(a[p..]) == (if a[p] == '"' || a[p] == '\\' then buf + "\\" else buf) + [a[p]] +
      Escape(a[p + 1..])
  {
    assert a[p..][1..] == a[p + 1..];
  }

  lemma QuoteNext(argv: seq<string>, i: nat, before: string, buf: string)
    requires i < |argv| && buf == before + "\"" + Escape(argv[i]) + "\""
    ensures before + Quote(argv[i..]) == buf + (if i + 1 < |argv| then " " else "") + Quote(argv[i + 1..])
  {
    assert argv[i..][1..] == argv[i + 1..];
  }

  // ---- splitting in place ----

  /** The arguments as they are laid down in memory, each with a NUL behind it. */
  function Flat(args: seq<string>): string {
    if args == [] then "" else Flat(args[..|args| - 1]) + args[|args| - 1] + "\0"
  }

  /** The string is at this place in memory, with a NUL behind it. */
  ghost predicate StringAt(mem: seq<char>, at: nat, s: string) {
    at + |s| < |mem| && mem[at..at + |s|] == s && mem[at + |s|] == '\0' && forall i :: 0 <= i < |s| ==> s[i] != '\0'
  }

  // where the parse is: the next character to read, the place to write, the quote it is in, where the arguments begin
  datatype Cursor = Cursor(src: nat, dst: nat, quoted: char, argv: seq<nat>)

  /** What is written is the arguments so far, and nothing unread is touched. */
  ghost predicate Laid(mem: seq<char>, line: string, c: Cursor, args: seq<string>, cur: string) {
    && |mem| == |line| + 1 && c.dst <= c.src <= |line| && mem[c.src..] == line[c.src..] + "\0"
    && mem[..c.dst] == Flat(args) + cur && NulFree(args) && NulFree([cur])
    && |c.argv| == |args| + 1 && (forall k :: 0 <= k <= |args| ==> c.argv[k] == |Flat(args[..k])|)
  }

  /** The rest of the line leads to what the line means. */
  ghost predicate Means(line: string, src: nat, quoted: char, args: seq<string>, cur: string) {
    src <= |line| && SplitFrom(State(line[src..], quoted, cur, args)) == SplitLine(line)
  }

  lemma FlatPart(args: seq<string>, k: nat)
    requires k < |args|
    ensures |Flat(args[..k])| + |args[k]| < |Flat(args)|
    ensures Flat(args)[|Flat(args[..k])|..|Flat(args[..k])| + |args[k]|] == args[k]
      && Flat(args)[|Flat(args[..k])| + |args[k]|] == '\0'
  {
    var m := |args| - 1;
    if k < m {
      FlatPart(args[..m], k);
      assert args[..m][..k] == args[..k];
    }
  }

  lemma Unread(mem: seq<char>, mem': seq<char>, line: string, src: nat, dst: nat, src': nat)
    requires |mem| == |mem'| == |line| + 1 && dst < src' && src <= src' <= |line| && mem[src..] == line[src..] + "\0"
    requires mem' == mem[dst := mem'[dst]]
    ensures mem'[src'..] == line[src'..] + "\0" && mem'[..dst + 1] == mem[..dst] + [mem'[dst]]
  {
    assert mem'[src'..] == mem[src..][src' - src..];
    assert line[src'..] == line[src..][src' - src..];
  }

  /** A blank ends the argument. */
  lemma BlankLaid(mem: seq<char>, line: string, c: Cursor, args: seq<string>, cur: string, src': nat)
    requires Laid(mem, line, c, args, cur) && c.src < src' <= |line|
    ensures Laid(mem[c.dst := '\0'], line, Cursor(src', c.dst + 1, '\0', c.argv + [c.dst + 1]), args + [cur], "")
  {
    Unread(mem, mem[c.dst := '\0'], line, c.src, c.dst, src');
    var args' := args + [cur];
    assert args'[..|args|] == args && Flat(args') == Flat(args) + cur + "\0" && Flat(args') + "" == Flat(args');
    forall k | 0 <= k <= |args'|
      ensures (c.argv + [c.dst + 1])[k] == |Flat(args'[..k])|
    {
      if k <= |args| {
        assert args'[..k] == args[..k];
      } else {
        assert args'[..k] == args';
      }
    }
    assert [cur][0] == cur;
  }

  lemma BlankMeans(line: string, src: nat, args: seq<string>, cur: string, src': nat)
    requires Means(line, src, '\0', args, cur) && src < |line| && IsSpace(line[src]) && src < src' <= |line|
      && line[src'..] == SkipSpaces(line[src + 1..])
    ensures Means(line, src', '\0', args + [cur], "")
  {
    assert line[src..][1..] == line[src + 1..] && line[src..][0] == line[src];
    assert Next(State(line[src..], '\0', cur, args)) == State(line[src'..], '\0', "", args + [cur]);
  }

  /** A quote begins or ends. */
  lemma QuoteLaid(mem: seq<char>, line: string, c: Cursor, args: seq<string>, cur: string, quoted: char)
    requires Laid(mem, line, c, args, cur) && c.src < |line|
    ensures Laid(mem, line, Cursor(c.src + 1, c.dst, quoted, c.argv), args, cur)
  {
    assert mem[c.src + 1..] == mem[c.src..][1..] && line[c.src + 1..] == line[c.src..][1..];
  }

  lemma QuoteMeans(line: string, src: nat, old_: char, args: seq<string>, cur: string, quoted: char)
    requires Means(line, src, old_, args, cur) && src < |line| && line[src] != '\0'
    requires if old_ == '\0' then (line[src] == '\'' || line[src] == '"') && quoted == line[src]
      else line[src] == old_ && quoted == '\0'
    ensures Means(line, src + 1, quoted, args, cur)
  {
    assert line[src..][1..] == line[src + 1..] && line[src..][0] == line[src];
    assert Next(State(line[src..], old_, cur, args)) == State(line[src + 1..], quoted, cur, args);
  }

  /** A character is copied, perhaps from behind a backslash. */
  lemma CharLaid(mem: seq<char>, line: string, c: Cursor, args: seq<string>, cur: string, src': nat, ch: char)
    requires Laid(mem, line, c, args, cur) && c.src < src' <= |line| && ch != '\0'
    ensures Laid(mem[c.dst := ch], line, Cursor(src', c.dst + 1, c.quoted, c.argv), args, cur + [ch])
  {
    Unread(mem, mem[c.dst := ch], line, c.src, c.dst, src');
    assert (Flat(args) + cur) + [ch] == Flat(args) + (cur + [ch]);
    assert [cur][0] == cur;
  }

  /** How many characters a copied one takes up: two if a backslash comes before it. */
  lemma CharMeans(line: string, src: nat, quoted: char, args: seq<string>, cur: string, escaped: bool)
    requires Means(line, src, quoted, args, cur) && src < |line| && line[src] != '\0' && line[src] != quoted
    requires quoted == '\0' ==> !IsSpace(line[src]) && line[src] != '\'' && line[src] != '"'
    requires escaped <==> Escaped(line[src], quoted)
    ensures escaped && src + 1 == |line| ==> SplitLine(line) == BadEnding
    ensures escaped && src + 1 < |line| ==> Means(line, src + 2, quoted, args, cur + [line[src + 1]])
    ensures !escaped ==> Means(line, src + 1, quoted, args, cur + [line[src]])
  {
    var s := line[src..];
    assert s[0] == line[src] && s[1..] == line[src + 1..]
      && (|s| > 1 ==> s[1] == line[src + 1] && s[2..] == line[src + 2..]);
    var t := Next(State(s, quoted, cur, args));
    assert SplitFrom(State(s, quoted, cur, args)) == SplitFrom(t);
    assert escaped && src + 1 == |line| ==> t == BadState;
    assert escaped && src + 1 < |line| ==> t == State(line[src + 2..], quoted, cur + [line[src + 1]], args);
    assert !escaped ==> t == State(line[src + 1..], quoted, cur + [line[src]], args);
  }

  // where the arguments begin in memory, or why there are none
  datatype Found = Found(argv: seq<nat>) | Failed(why: Split)

  /** The line as a string in memory, its NUL at the end. */
  ghost predicate IsLine(mem: seq<char>, line: string)
  {
    mem == line + "\0" && forall i :: 0 <= i < |line| ==> line[i] != '\0'
  }

  /** The state of the loop. */
  ghost predicate Going(mem: seq<char>, line: string, c: Cursor, args: seq<string>, cur: string) {
    Laid(mem, line, c, args, cur) && Means(line, c.src, c.quoted, args, cur)
  }

  lemma NextChar(mem: seq<char>, line: string, c: Cursor, args: seq<string>, cur: string)
    requires Laid(mem, line, c, args, cur)
    ensures forall k :: c.src <= k < |line| ==> mem[k] == line[k]
    ensures mem[|line|] == '\0'
  {
    var t := line[c.src..] + "\0";
    assert forall k :: c.src <= k <= |line| ==> mem[k] == mem[c.src..][k - c.src] == t[k - c.src];
  }

  method SkipBlanks(mem: array<char>, from: nat, ghost line: string) returns (src: nat)
    requires mem.Length == |line| + 1 && from <= |line| && mem[|line|] == '\0' && forall k ::
      from <= k < |line| ==> mem[k] == line[k] != '\0'
    ensures from <= src <= |line| && line[src..] == SkipSpaces(line[from..])
  {
    src := from;
    while mem[src] != '\0' && IsSpace(mem[src])
      invariant from <= src <= |line| && SkipSpaces(line[src..]) == SkipSpaces(line[from..])
      decreases |line| - src
    {
      SkipOne(line, src);
      src := src + 1;
    }
    SkipOne(line, src);
  }

  lemma SkipOne(line: string, src: nat)
    requires src <= |line|
    ensures SkipSpaces(line[src..]) == if src < |line| && IsSpace(line[src]) then SkipSpaces(line[src + 1..])
      else line[src..]
  {
    if src < |line| {
      assert line[src..][0] == line[src] && line[src..][1..] == line[src + 1..];
    }
  }

  /** Ends an argument at a blank, and skips further blanks. */
  method ReadBlank(mem: array<char>, c: Cursor, ghost line: string, ghost args: seq<string>, ghost cur: string)
    returns (c': Cursor)
    requires mem.Length == |line| + 1 && Going(mem[..], line, c, args, cur) && c.src < |line| && c.quoted == '\0'
      && IsSpace(line[c.src])
    requires forall i :: 0 <= i < |line| ==> line[i] != '\0'
    modifies mem
    ensures mem.Length == |line| + 1 && Going(mem[..], line, c', args + [cur], "") && c'.src > c.src
  {
    ghost var m := mem[..];
    NextChar(m, line, c, args, cur);
    mem[c.dst] := '\0';
    assert mem[..] == m[c.dst := '\0'];
    var src := SkipBlanks(mem, c.src + 1, line);
    BlankLaid(m, line, c, args, cur, src);
    BlankMeans(line, c.src, args, cur, src);
    c' := Cursor(src, c.dst + 1, '\0', c.argv + [c.dst + 1]);
  }

  /** Copies a character; none if the line ends with a backslash. */
  method ReadChar(mem: array<char>, c: Cursor, ghost line: string, ghost args: seq<string>, ghost cur: string)
    returns (ok: bool, c': Cursor, ghost cur': string)
    requires mem.Length == |line| + 1 && Going(mem[..], line, c, args, cur) && c.src < |line| && line[c.src] != c.quoted
    requires (forall i :: 0 <= i < |line| ==> line[i] != '\0')
      && (c.quoted == '\0' ==> !IsSpace(line[c.src]) && line[c.src] != '\'' && line[c.src] != '"')
    modifies mem
    ensures ok ==> Going(mem[..], line, c', args, cur') && c'.src > c.src
    ensures !ok ==> SplitLine(line) == BadEnding
  {
    ghost var m := mem[..];
    NextChar(m, line, c, args, cur);
    CharMeans(line, c.src, c.quoted, args, cur, Escaped(line[c.src], c.quoted));
    var src, ch;
    ok, src, ch := PickChar(mem, c.src, c.quoted, line);
    c', cur' := c, cur;
    if ok {
      CharLaid(m, line, c, args, cur, src, ch);
      mem[c.dst] := ch;
      assert mem[..] == m[c.dst := ch];
      c', cur' := Cursor(src, c.dst + 1, c.quoted, c.argv), cur + [ch];
    }
  }

  predicate Escaped(ch: char, quoted: char) { ch == '\\' && quoted != '\'' }

  /** The character to copy, and the place behind it. */
  method PickChar(mem: array<char>, from: nat, quoted: char, ghost line: string) returns (ok: bool, src: nat, ch: char)
    requires mem.Length == |line| + 1 && from < |line|
      && (forall k :: from <= k < |line| ==> mem[k] == line[k] != '\0') && mem[|line|] == '\0'
    ensures ok <==> !(Escaped(line[from], quoted) && from + 1 == |line|)
    ensures ok ==>
      src == (if Escaped(line[from], quoted) then from + 2 else from + 1) <= |line| && ch == line[src - 1] != '\0'
  {
    ok, src, ch := true, from, mem[from];
    if ch == '\\' && quoted != '\'' {
      src := src + 1;
      ch := mem[src];
      if ch == '\0' {
        return false, src, ch;
      }
    }
    src := src + 1;
  }

  lemma Start(line: string)
    ensures Going(line + "\0", line, Cursor(0, 0, '\0', [0]), [], "")
  {
    assert (line + "\0")[0..] == line[0..] + "\0" && line[0..] == line && (line + "\0")[..0] == ""
      && Flat([]) + "" == "";
  }

  lemma FinishMeans(line: string, c: Cursor, args: seq<string>, cur: string)
    requires Means(line, c.src, c.quoted, args, cur) && c.src == |line|
    ensures SplitLine(line) == if c.quoted != '\0' then UnclosedQuote else if |args| + 1 >= INT_MAX then TooMany
      else Args(args + [cur])
  {
    assert line[c.src..] == "";
  }

  /** With a last NUL, every argument is a string in memory. */
  lemma FinishLaid(mem: seq<char>, line: string, c: Cursor, args: seq<string>, cur: string, mem': seq<char>,
                   all: seq<string>, k: nat)
    requires Laid(mem, line, c, args, cur) && mem' == mem[c.dst := '\0'] && all == args + [cur] && k < |all|
    ensures StringAt(mem', c.argv[k], all[k])
  {
    assert all[..|args|] == args && mem'[..c.dst + 1] == mem[..c.dst] + ['\0'];
    assert mem'[..c.dst + 1] == Flat(all);
    FlatPart(all, k);
    assert all[..k] == args[..k];
    var at, end := c.argv[k], c.argv[k] + |all[k]|;
    assert mem'[at..end] == mem'[..c.dst + 1][at..end] && mem'[end] == mem'[..c.dst + 1][end];
    assert [cur][0] == cur;
  }

  /** Splits a line in place: afterwards every argument is a string of its own in the same memory. */
  method SplitCmdline(mem: array<char>, ghost line: string) returns (r: Found)
    requires IsLine(mem[..], line)
    modifies mem
    ensures SplitLine(line).Args? <==> r.Found?
    ensures r.Failed? ==> r.why == SplitLine(line)
    ensures r.Found? ==> var args := SplitLine(line).args;
      |r.argv| == |args| && forall k :: 0 <= k < |args| ==> StringAt(mem[..], r.argv[k], args[k])
  {
    var c := Cursor(0, 0, '\0', [0]);
    ghost var args: seq<string>, cur: string := [], "";
    Start(line);
    while mem[c.src] != '\0'
      invariant mem.Length == |line| + 1 && Going(mem[..], line, c, args, cur)
      decreases |line| - c.src
    {
      NextChar(mem[..], line, c, args, cur);
      assert c.src < |line|;
      var ch := mem[c.src];
      if c.quoted == '\0' && IsSpace(ch) {
        c := ReadBlank(mem, c, line, args, cur);
        args, cur := args + [cur], "";
      } else if (c.quoted == '\0' && (ch == '\'' || ch == '"')) || ch == c.quoted {
        var quoted := if c.quoted == '\0' then ch else '\0';
        QuoteLaid(mem[..], line, c, args, cur, quoted);
        QuoteMeans(line, c.src, c.quoted, args, cur, quoted);
        c := Cursor(c.src + 1, c.dst, quoted, c.argv);
      } else {
        var ok;
        ok, c, cur := ReadChar(mem, c, line, args, cur);
        if !ok {
          return Failed(BadEnding);
        }
      }
    }
    NextChar(mem[..], line, c, args, cur);
    ghost var m := mem[..];
    FinishMeans(line, c, args, cur);
    mem[c.dst] := '\0';
    ghost var all := args + [cur];
    forall k | 0 <= k < |all|
      ensures StringAt(mem[..], c.argv[k], all[k])
    {
      FinishLaid(m, line, c, args, cur, mem[..], all, k);
    }
    if c.quoted != '\0' {
      return Failed(UnclosedQuote);
    }
    if |c.argv| >= INT_MAX {
      return Failed(TooMany);
    }
    return Found(c.argv);
  }
}
