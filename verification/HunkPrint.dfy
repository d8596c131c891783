/**
 Writing the text of a hunk, and reading it back (git/apply.c).
 */
module HunkPrint {
  import opened FuzzyImages
  import opened HunkText
  import opened ImageLines

  // a line of a hunk as it is written, a blank context line perhaps without its tag and a missing newline with a note;
  // or a line of another header
  datatype Item = Line(h: HunkLine, bare: bool, note: string) | Header(text: string)

  ghost predicate Printable(it: Item) {
    match it
    case Header(text) => '\n' !in text
    case Line(h, bare, note) =>
      && (h.tag == ' ' || h.tag == '-' || h.tag == '+') && OneLine(h.text) && '\n' !in note
      && (bare ==> h.tag == ' ' && h.text == ['\n'])
  }

  function PrintItem(it: Item): string {
    match it
    case Header(text) => ['@'] + text + ['\n']
    case Line(h, bare, note) =>
      if bare then ['\n']
      else if h.text != "" && h.text[|h.text| - 1] == '\n' then [h.tag] + h.text
      else ([h.tag] + h.text + ['\n']) + (['\\'] + note + ['\n'])
  }

  function Print(items: seq<Item>): string {
    if items == [] then "" else PrintItem(items[0]) + Print(items[1..])
  }

  function Lines(items: seq<Item>): seq<HunkLine> {
    if items == [] then [] else (if items[0].Line? then [items[0].h] else []) + Lines(items[1..])
  }

  // ---- reading one line ----

  lemma ReadHeader(text: string, rest: string)
    requires '\n' !in text
    ensures Body(['@'] + text + ['\n'] + rest) == Body(rest)
  {
    var line := ['@'] + text + ['\n'];
    assert line[..|line| - 1] == ['@'] + text;
    BodyOf(line, rest);
    assert (line + rest)[0] == '@';
    JoinedNothing(Body(rest));
  }

  lemma JoinedNothing(t: Option<seq<HunkLine>>)
    ensures Joined([], t) == t
  {
    if t.Some? {
      assert [] + t.value == t.value;
    }
  }

  lemma ReadBare(rest: string)
    requires rest == "" || rest[0] != '\\'
    ensures Body(['\n'] + rest) == Joined([HunkLine(' ', ['\n'])], Body(rest))
  {
    var line := ['\n'];
    BodyOf(line, rest);
    LineEndIs(line, rest);
    assert (line + rest)[0] == '\n' && (rest != "" ==> (line + rest)[1] == rest[0]);
  }

  lemma ReadEnded(h: HunkLine, rest: string)
    requires (h.tag == ' ' || h.tag == '-' || h.tag == '+') && OneLine(h.text) && Ended(h.text)
    requires rest == "" || rest[0] != '\\'
    ensures Body([h.tag] + h.text + rest) == Joined([h], Body(rest))
  {
    var line := [h.tag] + h.text;
    BodyOf(line, rest);
    LineEndIs(line, rest);
    assert (line + rest)[0] == h.tag && (rest != "" ==> (line + rest)[|line|] == rest[0]);
    assert (line + rest)[1..1 + |h.text|] == h.text;
  }

  lemma ReadUnended(h: HunkLine, note: string, rest: string)
    requires (h.tag == ' ' || h.tag == '-' || h.tag == '+') && '\n' !in h.text && '\n' !in note
    ensures Body(([h.tag] + h.text + ['\n']) + ((['\\'] + note + ['\n']) + rest)) == Joined([h], Body(rest))
  {
    var line, comment := [h.tag] + h.text + ['\n'], ['\\'] + note + ['\n'];
    var more := comment + rest;
    BodyOf(line, more);
    LineEndIs(line, more);
    assert (line + more)[0] == h.tag && (line + more)[|line|] == '\\' && (line + more)[1..1 + |h.text|] == h.text;
    assert comment[..|comment| - 1] == ['\\'] + note;
    BodyOf(comment, rest);
    assert more[0] == '\\';
    JoinedNothing(Body(rest));
  }

  lemma ReadItem(it: Item, rest: string)
    requires Printable(it) && (rest == "" || rest[0] != '\\')
    ensures Body(PrintItem(it) + rest) == if it.Line? then Joined([it.h], Body(rest)) else Body(rest)
  {
    match it {
      case Header(text) => ReadHeader(text, rest);
      case Line(h, bare, note) =>
        if bare {
          ReadBare(rest);
          assert h == HunkLine(' ', ['\n']);
        } else if h.text != "" && h.text[|h.text| - 1] == '\n' {
          ReadEnded(h, rest);
        } else {
          var line, comment := [h.tag] + h.text + ['\n'], ['\\'] + note + ['\n'];
          assert (line + comment) + rest == line + (comment + rest);
          ReadUnended(h, note, rest);
        }
    }
  }

  // ---- the whole text ----

  lemma LinesFirst(it: Item, rest: seq<Item>, lines: Option<seq<HunkLine>>)
    requires lines == Some(Lines(rest))
    ensures (if it.Line? then Joined([it.h], lines) else lines) == Some(Lines([it] + rest))
  {
    assert ([it] + rest)[1..] == rest && [] + Lines(rest) == Lines(rest);
  }

  /** What is read is just what was written, whichever way each line was spelled. */
  lemma {:induction false} ParsePrint(items: seq<Item>)
    requires forall i :: 0 <= i < |items| ==> Printable(items[i])
    ensures Body(Print(items)) == Some(Lines(items))
    ensures Print(items) == "" || Print(items)[0] != '\\'
  {
    if items != [] {
      ParsePrint(items[1..]);
      ReadItem(items[0], Print(items[1..]));
      LinesFirst(items[0], items[1..], Body(Print(items[1..])));
      assert [items[0]] + items[1..] == items && Print(items)[0] == PrintItem(items[0])[0];
    }
  }

  predicate IsStart(c: char) { c == '\n' || c == ' ' || c == '-' || c == '+' || c == '@' || c == '\\' }

  /** A text is refused just if some line begins with anything else. */
  lemma {:induction false} BodyRefused(patch: string)
    ensures forall k :: 0 <= k < |SplitLines(patch)| ==> SplitLines(patch)[k] != ""
    ensures Body(patch) == None <==> exists k :: 0 <= k < |SplitLines(patch)| && !IsStart(SplitLines(patch)[k][0])
  {
    if patch != "" {
      var lines, rest := SplitLines(patch), patch[LineEnd(patch)..];
      BodyRefused(rest);
      assert lines == [patch[..LineEnd(patch)]] + SplitLines(rest);
      assert lines[0][0] == patch[0];
      assert forall k :: 0 < k < |lines| ==> lines[k] == SplitLines(rest)[k - 1];
      assert forall k :: 0 <= k < |SplitLines(rest)| ==> SplitLines(rest)[k] == lines[k + 1];
    }
  }
}
