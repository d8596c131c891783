/**
 Attribute queries (git/attr.c): a stack of rule files, from the built-in ones over those of the directories
 down to the path, is kept from one query to the next.
 */
module Attributes {
  import opened AttrFill

  datatype Frame = Frame(origin: Option<string>, rules: seq<Rule>)

  // the rule files: those below all directories, the one of each directory, and the repository's own on top
  datatype Files = Files(base: seq<Frame>, dir: string -> seq<Rule>, info: seq<Rule>)

  ghost predicate FilesOk(files: Files) {
    forall i :: 0 <= i < |files.base| ==> files.base[i].origin == None
  }

  // ---- paths ----

  /** Where the last component of dir begins, less the slash before it. */
  function ParentLen(dir: string, i: nat): nat
    requires i <= |dir|
  {
    if i == 0 then 0 else if dir[i - 1] == '/' then i - 1 else ParentLen(dir, i - 1)
  }

  lemma {:induction false} ParentShorter(dir: string, i: nat)
    requires i <= |dir|
    ensures ParentLen(dir, i) <= i && (i > 0 ==> ParentLen(dir, i) < i)
    ensures ParentLen(dir, i) > 0 || (i > 0 && dir[0] == '/' && ParentLen(dir, i) == 0) ==>
      dir[ParentLen(dir, i)] == '/'
    ensures forall k :: ParentLen(dir, i) < k < i ==> dir[k] != '/'
  {
    if i > 0 && dir[i - 1] != '/' {
      ParentShorter(dir, i - 1);
    }
  }

  ghost function Parent(dir: string): (p: string)
    ensures |p| <= |dir| && (dir != "" ==> |p| < |dir|)
  {
    ParentShorter(dir, |dir|);
    dir[..ParentLen(dir, |dir|)]
  }

  // ---- the stack a path needs ----

  /** The frames of a directory and those above it, the root's first. */
  ghost function DirFrames(files: Files, dir: string): seq<Frame>
    decreases |dir|
  {
    (if dir == "" then [] else DirFrames(files, Parent(dir))) + [Frame(Some(dir), files.dir(dir))]
  }

  ghost function FreshStack(files: Files, dir: string): seq<Frame> {
    files.base + DirFrames(files, dir) + [Frame(None, files.info)]
  }

  /** dir is above path, or is its directory. */
  predicate Above(dir: string, path: string, dirlen: nat)
    requires dirlen <= |path|
  {
    |dir| <= dirlen && path[..|dir|] == dir && (dir == "" || (|dir| < |path| && path[|dir|] == '/'))
  }

  /** The frame on top of a directory's frames is its own, and below it are those of its parent. */
  lemma TopFrame(files: Files, dir: string)
    ensures var fs := DirFrames(files, dir); |fs| > 0 && fs[|fs| - 1] == Frame(Some(dir), files.dir(dir))
    ensures dir != "" ==> DirFrames(files, dir)[..|DirFrames(files, dir)| - 1] == DirFrames(files, Parent(dir))
  {
    assert dir == "" ==> DirFrames(files, dir) == [Frame(Some(dir), files.dir(dir))];
  }

  /** d is dir or a directory above it: the root, or what comes before a slash. */
  ghost predicate IsOn(d: string, dir: string) {
    |d| <= |dir| && dir[..|d|] == d && (d == "" || |d| == |dir| || dir[|d|] == '/')
  }

  /** A directory on the way to dir is dir or on the way to its parent. */
  lemma OnParent(d: string, dir: string)
    requires dir != ""
    ensures IsOn(d, dir) <==> d == dir || IsOn(d, Parent(dir))
  {
    var p := Parent(dir);
    ParentShorter(dir, |dir|);
    if IsOn(d, dir) && d != dir {
      assert |d| <= |p| && p[..|d|] == d;
    } else if IsOn(d, p) {
      assert dir[..|d|] == d;
    }
  }

  /** The frames are those of the directories on the way, each with its own rules, from the root down. */
  lemma {:induction false} FramesOnTheWay(files: Files, dir: string)
    ensures var fs := DirFrames(files, dir);
      && (forall i :: 0 <= i < |fs| ==> fs[i].origin.Some? && IsOn(fs[i].origin.value, dir)
                                        && fs[i].rules == files.dir(fs[i].origin.value))
      && (forall i, j :: 0 <= i < j < |fs| ==> |fs[i].origin.value| < |fs[j].origin.value|)
      && (forall d :: IsOn(d, dir) ==> exists i :: 0 <= i < |fs| && fs[i].origin == Some(d))
    decreases |dir|
  {
    var fs := DirFrames(files, dir);
    TopFrame(files, dir);
    if dir == "" {
      assert fs == [Frame(Some(""), files.dir(""))];
    } else {
      var up := DirFrames(files, Parent(dir));
      FramesOnTheWay(files, Parent(dir));
      forall d
        ensures IsOn(d, dir) <==> d == dir || IsOn(d, Parent(dir))
      {
        OnParent(d, dir);
      }
      assert forall i :: 0 <= i < |up| ==> fs[i] == up[i];
      forall d | IsOn(d, dir)
        ensures exists i :: 0 <= i < |fs| && fs[i].origin == Some(d)
      {
        if d == dir {
          assert fs[|up|].origin == Some(d);
        } else {
          var i :| 0 <= i < |up| && up[i].origin == Some(d);
          assert fs[i].origin == Some(d);
        }
      }
    }
  }

  lemma PushedChild(files: Files, stack: seq<Frame>, dir: string, child: string)
    requires stack == files.base + DirFrames(files, dir) && child != "" && Parent(child) == dir
    ensures stack + [Frame(Some(child), files.dir(child))] == files.base + DirFrames(files, child)
  {
  }

  /** The next directory on the way down. */
  function NextEnd(path: string, len: nat, dirlen: nat): (k: nat)
    requires len <= dirlen <= |path|
    ensures len <= k <= dirlen && (forall i :: len <= i < k ==> path[i] != '/') && (k < dirlen ==> path[k] == '/')
    decreases dirlen - len
  {
    if len == dirlen || path[len] == '/' then len else NextEnd(path, len + 1, dirlen)
  }

  lemma {:induction false} ParentLenIs(dir: string, i: nat, k: nat)
    requires k < i <= |dir| && (forall j :: k < j < i ==> dir[j] != '/') && (dir[k] == '/' || (k == 0 && i > 0))
    ensures ParentLen(dir, i) == k
  {
    if i - 1 > k {
      ParentLenIs(dir, i - 1, k);
    } else if k == 0 && dir[0] != '/' {
      assert ParentLen(dir, 0) == 0;
    }
  }

  /** Where the name of the next component begins: behind a slash, if there is one. */
  function Child(path: string, dir: string): nat
    requires |dir| < |path|
  {
    if path[|dir|] == '/' then |dir| + 1 else |dir|
  }

  /** From a directory above a path, the next one is its child. */
  lemma NextIsChild(path: string, dir: string, dirlen: nat)
    requires |dir| < dirlen < |path| && path[dirlen] == '/' && Above(dir, path, dirlen)
    ensures Child(path, dir) <= dirlen && |dir| < NextEnd(path, Child(path, dir), dirlen)
    ensures var child := path[..NextEnd(path, Child(path, dir), dirlen)];
      Parent(child) == dir && Above(child, path, dirlen)
  {
    var k := NextEnd(path, Child(path, dir), dirlen);
    var child := path[..k];
    ParentLenIs(child, k, |dir|);
    assert child[..|dir|] == path[..|dir|];
  }

  // ---- the rules on a stack ----

  function Base(f: Frame): string { if f.origin.Some? then f.origin.value else "" }

  function PlacedRules(f: Frame): seq<Placed> {
    seq(|f.rules|, i requires 0 <= i < |f.rules| => Placed(Base(f), f.rules[i]))
  }

  /** The rules from the bottom of the stack to its top. */
  function StackRules(stack: seq<Frame>): seq<Placed> {
    if stack == [] then [] else StackRules(stack[..|stack| - 1]) + PlacedRules(stack[|stack| - 1])
  }

  /** Rule i of frame k, among all rules. */
  lemma {:induction false} RuleAt(stack: seq<Frame>, k: nat, i: nat)
    requires k < |stack| && i <= |stack[k].rules|
    ensures var at := |StackRules(stack[..k])| + i;
      && at <= |StackRules(stack)| && (i < |stack[k].rules| ==>
                                       at < |StackRules(stack)| && StackRules(stack)[at] == PlacedRules(stack[k])[i])
    ensures |StackRules(stack[..k + 1])| == |StackRules(stack[..k])| + |stack[k].rules|
  {
    assert stack[..k + 1][..k] == stack[..k];
    if k == |stack| - 1 {
      assert stack[..k + 1] == stack;
    } else {
      var below := stack[..|stack| - 1];
      RuleAt(below, k, i);
      assert below[..k] == stack[..k];
    }
  }

  /** The rules of the first k frames end at position at among all rules. */
  ghost predicate At(stack: seq<Frame>, rules: seq<Placed>, k: nat, at: nat) {
    k <= |stack| && rules == StackRules(stack) && at == |StackRules(stack[..k])| <= |rules|
  }

  /** The rules of a frame stand from position below on. */
  ghost predicate FrameAt(rules: seq<Placed>, below: nat, f: Frame) {
    below + |f.rules| <= |rules| && forall i {:trigger f.rules[i]} ::
      0 <= i < |f.rules| ==> rules[below + i] == Placed(Base(f), f.rules[i])
  }

  lemma AtTop(stack: seq<Frame>)
    ensures At(stack, StackRules(stack), |stack|, |StackRules(stack)|)
  {
    assert stack[..|stack|] == stack;
  }

  lemma AtBottom(stack: seq<Frame>, rules: seq<Placed>, at: nat)
    requires At(stack, rules, 0, at)
    ensures at == 0
  {
    assert stack[..0] == [];
  }

  lemma AtFrame(stack: seq<Frame>, rules: seq<Placed>, k: nat, at: nat) returns (below: nat)
    requires At(stack, rules, k, at) && k > 0
    ensures At(stack, rules, k - 1, below) && FrameAt(rules, below, stack[k - 1]) && at == below + |stack[k - 1].rules|
  {
    var f := stack[k - 1];
    below := |StackRules(stack[..k - 1])|;
    RuleAt(stack, k - 1, |f.rules|);
    forall i {:trigger f.rules[i]} | 0 <= i < |f.rules|
      ensures below + i < |rules| && rules[below + i] == Placed(Base(f), f.rules[i])
    {
      RuleAt(stack, k - 1, i);
    }
  }

  ghost predicate Fillable(macros: Macros, rules: seq<Placed>) { MacrosOk(macros) && RulesOk(rules, |macros|) }

  /** The rules before position at lead to the answer. */
  ghost predicate FilledTo(answer: Values, vals: Values, macros: Macros, rules: seq<Placed>, at: nat, path: string,
                           matches: Matcher)
    requires Fillable(macros, rules)
  {
    |vals| == |macros| && at <= |rules| && answer == FillAll(vals, macros, rules, at, path, matches)
  }

  lemma NextRule(answer: Values, vals: Values, macros: Macros, rules: seq<Placed>, at: nat, path: string,
                 matches: Matcher)
    requires Fillable(macros, rules) && 0 < at && FilledTo(answer, vals, macros, rules, at, path, matches)
    ensures SettingsOk(rules[at - 1].rule.settings, |vals|)
    ensures var p := rules[at - 1]; var rs := p.rule.settings;
      FilledTo(answer, if Applies(matches, p, path) then AttrFill.FillOne(vals, macros, rs, |rs|) else vals, macros,
               rules, at - 1, path, matches)
  {
  }

  /** With every value known, the rules left change nothing. */
  lemma StillFilled(answer: Values, vals: Values, macros: Macros, rules: seq<Placed>, at: nat, a: nat, path: string,
                    matches: Matcher)
    requires Fillable(macros, rules) && FilledTo(answer, vals, macros, rules, at, path, matches)
      && UnknownIn(vals) == 0 && a <= at
    ensures FilledTo(answer, vals, macros, rules, a, path, matches)
  {
    FillAllNothing(vals, macros, rules, at, path, matches);
    FillAllNothing(vals, macros, rules, a, path, matches);
  }

  /** With every value known, or no rule left, the answer is there. */
  lemma AllFilled(answer: Values, vals: Values, macros: Macros, rules: seq<Placed>, at: nat, path: string,
                  matches: Matcher)
    requires Fillable(macros, rules) && FilledTo(answer, vals, macros, rules, at, path, matches)
      && (UnknownIn(vals) == 0 || at == 0)
    ensures vals == answer
  {
    if UnknownIn(vals) == 0 {
      FillAllNothing(vals, macros, rules, at, path, matches);
    }
  }

  /** The macros defined by the rules from position at on are noted. */
  ghost predicate NotedTo(macros: Macros, rules: seq<Placed>, at: nat) {
    at <= |rules| && forall n {:trigger macros[n]} ::
      0 <= n < |macros| ==> MacroOf(rules, n) == if macros[n].Some? then macros[n] else MacroOf(rules[..at], n)
  }

  function Note(macros: Macros, r: Rule): Macros {
    if r.isMacro && r.macro < |macros| && macros[r.macro] == None then macros[r.macro := Some(r.settings)] else macros
  }

  lemma NoteNext(macros: Macros, rules: seq<Placed>, at: nat)
    requires 0 < at && NotedTo(macros, rules, at)
    ensures NotedTo(Note(macros, rules[at - 1].rule), rules, at - 1)
  {
    assert rules[..at][..at - 1] == rules[..at - 1] && rules[..at][at - 1] == rules[at - 1];
  }

  lemma AllNoted(macros: Macros, rules: seq<Placed>)
    requires NotedTo(macros, rules, 0)
    ensures macros == AllMacros(rules, |macros|)
  {
    assert rules[..0] == [];
  }

  class AttrCheck {
    const files: Files
    const nr: nat
    const matches: Matcher
    var stack: seq<Frame>
    var values: Values
    var macros: Macros
    ghost var dir: string

    /** The stack is empty, or the one a fresh start would build for some directory. */
    ghost predicate Valid()
      reads this
    {
      FilesOk(files) && (stack == [] || stack == FreshStack(files, dir)) && forall d ::
        RulesOk(StackRules(FreshStack(files, d)), nr)
    }

    constructor (files: Files, nr: nat, matches: Matcher)
      requires FilesOk(files) && forall d :: RulesOk(StackRules(FreshStack(files, d)), nr)
      ensures Valid() && stack == [] && this.files == files && this.nr == nr && this.matches == matches
    {
      this.files, this.nr, this.matches := files, nr, matches;
      stack, values, macros, dir := [], [], [], "";
    }

    /** Pops the frames of directories not above the path, and pushes those down to its directory. */
    method PrepareStack(path: string, dirlen: nat)
      requires Valid() && dirlen <= |path| && (dirlen > 0 ==> dirlen < |path| && path[dirlen] == '/')
      modifies this`stack, this`dir
      ensures Valid() && dir == path[..dirlen] && stack == FreshStack(files, dir)
    {
      if stack == [] {
        stack := files.base + [Frame(Some(""), files.dir(""))] + [Frame(None, files.info)];
        dir := "";
        assert DirFrames(files, "") == [Frame(Some(""), files.dir(""))];
      }
      var info := stack[|stack| - 1];
      var rest := stack[..|stack| - 1];
      var top;
      rest, top := Pop(rest, path, dirlen, dir);
      rest := Push(rest, top, path, dirlen);
      stack := rest + [info];
      dir := path[..dirlen];
    }

    method Pop(stack: seq<Frame>, path: string, dirlen: nat, ghost dir: string) returns (rest: seq<Frame>, top: string)
      requires FilesOk(files) && dirlen <= |path| && stack == files.base + DirFrames(files, dir)
      ensures Above(top, path, dirlen) && rest == files.base + DirFrames(files, top)
    {
      rest := stack;
      ghost var d := dir;
      TopFrame(files, d);
      while !Above(rest[|rest| - 1].origin.value, path, dirlen)
        invariant rest == files.base + DirFrames(files, d) && |rest| > 0
          && rest[|rest| - 1] == Frame(Some(d), files.dir(d))
        decreases |d|
      {
        TopFrame(files, d);
        assert d != "";
        rest := rest[..|rest| - 1];
        assert rest == files.base + DirFrames(files, Parent(d));
        d := Parent(d);
        TopFrame(files, d);
      }
      top := rest[|rest| - 1].origin.value;
    }

    method Push(stack: seq<Frame>, top: string, path: string, dirlen: nat) returns (rest: seq<Frame>)
      requires dirlen <= |path| && (dirlen > 0 ==> dirlen < |path| && path[dirlen] == '/')
      requires Above(top, path, dirlen) && stack == files.base + DirFrames(files, top)
      ensures rest == files.base + DirFrames(files, path[..dirlen])
    {
      rest := stack;
      var d := top;
      while |d| < dirlen
        invariant Above(d, path, dirlen) && rest == files.base + DirFrames(files, d)
        decreases dirlen - |d|
      {
        NextIsChild(path, d, dirlen);
        var len := |d|;
        if path[len] == '/' {
          len := len + 1;
        }
        len := NextEnd(path, len, dirlen);
        PushedChild(files, rest, d, path[..len]);
        d := path[..len];
        rest := rest + [Frame(Some(d), files.dir(d))];
      }
      assert d == path[..dirlen];
    }

    /** The settings of a rule, and with them those of the macros it sets; rem counts the attributes still unknown. */
    method FillOne(settings: seq<Setting>, rem: nat) returns (rem': nat)
      requires |macros| == |values| && MacrosOk(macros) && SettingsOk(settings, |values|) && rem == UnknownIn(values)
      modifies this`values
      ensures values == AttrFill.FillOne(old(values), macros, settings, |settings|) && rem' == UnknownIn(values) <= rem
      decreases rem, 1
    {
      rem' := rem;
      var i := |settings|;
      while rem' > 0 && i > 0
        invariant 0 <= i <= |settings| && |macros| == |values| && rem' == UnknownIn(values) <= rem
        invariant AttrFill.FillOne(old(values), macros, settings, |settings|) ==
          AttrFill.FillOne(values, macros, settings, i)
        decreases i
      {
        var s := settings[i - 1];
        if values[s.attr] == Unknown {
          UnknownSet(values, s.attr, s.value);
          values := values[s.attr := s.value];
          rem' := rem' - 1;
          rem' := MacroExpandOne(s.attr, rem');
        }
        i := i - 1;
      }
      if rem' == 0 {
        FillNothing(values, macros, settings, i);
      }
    }

    method MacroExpandOne(n: nat, rem: nat) returns (rem': nat)
      requires |macros| == |values| && MacrosOk(macros) && n < |values| && rem == UnknownIn(values)
      modifies this`values
      ensures values == (if macros[n].Some?
                         && old(values[n]) == True then
                           AttrFill.FillOne(old(values), macros, macros[n].value, |macros[n].value|) else old(values))
      ensures rem' == UnknownIn(values) <= rem
      decreases rem, 2
    {
      rem' := rem;
      if macros[n].Some? && values[n] == True {
        rem' := FillOne(macros[n].value, rem);
      }
    }

    /** The rules of the stack that match the path, from the top down, until every attribute has a value. */
    method Fill(path: string, rem: nat)
      requires Fillable(macros, StackRules(stack)) && |values| == |macros| && rem == UnknownIn(values)
      modifies this`values
      ensures values == FillAll(old(values), macros, StackRules(stack), |StackRules(stack)|, path, matches)
    {
      ghost var rules := StackRules(stack);
      ghost var at: nat := |rules|;
      ghost var answer := FillAll(values, macros, rules, at, path, matches);
      AtTop(stack);
      var left: nat := rem;
      var k := |stack|;
      while left > 0 && k > 0
        invariant 0 <= k <= |stack| && left == UnknownIn(values) && At(stack, rules, k, at)
        invariant FilledTo(answer, values, macros, rules, at, path, matches)
        decreases k
      {
        at := AtFrame(stack, rules, k, at);
        left := FillFrame(path, stack[k - 1], left, answer, rules, at);
        k := k - 1;
      }
      if left > 0 {
        AtBottom(stack, rules, at);
      }
      AllFilled(answer, values, macros, rules, at, path, matches);
    }

    method FillFrame(path: string, frame: Frame, rem: nat, ghost answer: Values, ghost rules: seq<Placed>,
                     ghost below: nat)
      returns (left: nat)
      requires Fillable(macros, rules) && rem == UnknownIn(values) && FrameAt(rules, below, frame)
      requires FilledTo(answer, values, macros, rules, below + |frame.rules|, path, matches)
      modifies this`values
      ensures left == UnknownIn(values) && FilledTo(answer, values, macros, rules, below, path, matches)
    {
      left := rem;
      var base := Base(frame);
      var i := |frame.rules|;
      while left > 0 && i > 0
        invariant 0 <= i <= |frame.rules| && left == UnknownIn(values)
          && FilledTo(answer, values, macros, rules, below + i, path, matches)
        decreases i
      {
        left := FillRule(path, frame.rules[i - 1], base, left, answer, rules, below + i);
        i := i - 1;
      }
      if i > 0 {
        StillFilled(answer, values, macros, rules, below + i, below, path, matches);
      }
    }

    method FillRule(path: string, rule: Rule, base: string, rem: nat, ghost answer: Values, ghost rules: seq<Placed>,
                    ghost at: nat)
      returns (left: nat)
      requires Fillable(macros, rules) && rem == UnknownIn(values) && 0 < at
        && FilledTo(answer, values, macros, rules, at, path, matches)
      requires rules[at - 1] == Placed(base, rule)
      modifies this`values
      ensures left == UnknownIn(values) && FilledTo(answer, values, macros, rules, at - 1, path, matches)
    {
      left := rem;
      NextRule(answer, values, macros, rules, at, path, matches);
      if !rule.isMacro && matches(path, rule.pattern, base) {
        left := FillOne(rule.settings, left);
      }
    }

    /** Notes for each attribute the definition that makes it a macro, the topmost one. */
    method DetermineMacros()
      requires RulesOk(StackRules(stack), |macros|) && forall n :: 0 <= n < |macros| ==> macros[n] == None
      modifies this`macros
      ensures macros == AllMacros(StackRules(stack), |old(macros)|)
    {
      ghost var rules := StackRules(stack);
      ghost var at: nat := |rules|;
      AtTop(stack);
      assert rules[..at] == rules;
      var k := |stack|;
      while k > 0
        invariant 0 <= k <= |stack| && |macros| == |old(macros)| && At(stack, rules, k, at)
          && NotedTo(macros, rules, at)
      {
        at := AtFrame(stack, rules, k, at);
        NoteFrame(stack[k - 1], rules, at);
        k := k - 1;
      }
      AtBottom(stack, rules, at);
      AllNoted(macros, rules);
    }

    method NoteFrame(frame: Frame, ghost rules: seq<Placed>, ghost below: nat)
      requires RulesOk(rules, |macros|) && FrameAt(rules, below, frame) && NotedTo(macros, rules, below + |frame.rules|)
      modifies this`macros
      ensures |macros| == |old(macros)| && NotedTo(macros, rules, below)
    {
      var i := |frame.rules|;
      while i > 0
        invariant 0 <= i <= |frame.rules| && |macros| == |old(macros)| && NotedTo(macros, rules, below + i)
      {
        NoteRule(frame.rules[i - 1], rules, below + i);
        i := i - 1;
      }
    }

    method NoteRule(rule: Rule, ghost rules: seq<Placed>, ghost at: nat)
      requires RulesOk(rules, |macros|) && 0 < at && NotedTo(macros, rules, at) && rules[at - 1].rule == rule
      modifies this`macros
      ensures |macros| == |old(macros)| && NotedTo(macros, rules, at - 1)
    {
      NoteNext(macros, rules, at);
      if rule.isMacro && macros[rule.macro] == None {
        macros := macros[rule.macro := Some(rule.settings)];
      }
    }

    /** How long the directory part of a path is: up to its last slash that is not at its end. */
    method DirLen(path: string) returns (dirlen: nat)
      ensures dirlen <= |path| && (dirlen > 0 ==> dirlen < |path| && path[dirlen] == '/')
      ensures forall i :: dirlen < i < |path| - 1 ==> path[i] != '/'
    {
      dirlen := 0;
      var cp := 0;
      while cp < |path|
        invariant 0 <= cp <= |path| && (dirlen == 0 || (dirlen < |path| && path[dirlen] == '/'))
        invariant forall i :: dirlen < i < cp && i < |path| - 1 ==> path[i] != '/'
      {
        if path[cp] == '/' && cp + 1 < |path| {
          dirlen := cp;
        }
        cp := cp + 1;
      }
    }

    /** Collects the attributes of a path: whatever was asked before, the answer is that of all its rules. */
    method Collect(path: string) returns (ghost dirlen: nat)
      requires Valid()
      modifies this
      ensures Valid() && dirlen <= |path| && (dirlen > 0 ==> dirlen < |path| && path[dirlen] == '/')
        && (forall i :: dirlen < i < |path| - 1 ==> path[i] != '/')
      ensures stack == FreshStack(files, path[..dirlen]) && RulesOk(StackRules(stack), nr)
      ensures values == Answer(StackRules(stack), nr, path, matches)
    {
      var len := DirLen(path);
      dirlen := len;
      PrepareStack(path, len);
      values, macros := NoValues(nr), seq(nr, n => None);
      DetermineMacros();
      AllMacrosOk(StackRules(stack), nr);
      AllUnknown(nr);
      Fill(path, nr);
    }
  }

  lemma {:induction false} AllUnknown(nr: nat)
    ensures UnknownIn(NoValues(nr)) == nr
  {
    if nr > 0 {
      AllUnknown(nr - 1);
      assert NoValues(nr)[..nr - 1] == NoValues(nr - 1);
    }
  }
}
