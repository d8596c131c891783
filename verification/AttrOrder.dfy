/**
 Which setting gives an attribute its value: the last one for it in the last rule that applies, and, where macros
 come in, the first one that is met when a macro that is set to true is followed by its own settings.
 */
module AttrOrder {
  import opened AttrFill

  // ---- the settings in the order they are met ----

  /** The settings of a rule, the last first. */
  function Back(settings: seq<Setting>): seq<Setting> {
    seq(|settings|, i requires 0 <= i < |settings| => settings[|settings| - 1 - i])
  }

  /** The settings of the first i rules that apply, the last rule first. */
  function Given(rules: seq<Placed>, i: nat, path: string, matches: Matcher): seq<Setting>
    requires i <= |rules|
  {
    if i == 0 then []
    else
      var p := rules[i - 1];
      (if Applies(matches, p, path) then Back(p.rule.settings) else []) + Given(rules, i - 1, path, matches)
  }

  function Attributes(nr: nat): (all: set<nat>)
    ensures forall n: nat :: n in all <==> n < nr
  {
    if nr == 0 then {} else Attributes(nr - 1) + {nr - 1}
  }

  /** What a setting brings with it: the settings of the macro that it sets to true. */
  function Brought(s: Setting, macros: Macros): seq<Setting>
    requires s.attr < |macros|
  {
    if s.value == True && macros[s.attr].Some? then Back(macros[s.attr].value) else []
  }

  /** The settings that count: each is the first one met for its attribute, and what it brings is met next. */
  function Counting(todo: seq<Setting>, known: set<nat>, macros: Macros): seq<Setting>
    requires MacrosOk(macros) && SettingsOk(todo, |macros|)
    decreases Attributes(|macros|) - known, |todo|
  {
    if todo == [] then []
    else
      var s := todo[0];
      if s.attr in known then Counting(todo[1..], known, macros)
      else
        assert s.attr in Attributes(|macros|) - known;
        [s] + Counting(Brought(s, macros) + todo[1..], known + {s.attr}, macros)
  }

  /** The values that settings give, one after the other. */
  function Applied(vals: Values, log: seq<Setting>): (vals': Values)
    requires SettingsOk(log, |vals|)
    ensures |vals'| == |vals|
    decreases |log|
  {
    if log == [] then vals else Applied(vals[log[0].attr := log[0].value], log[1..])
  }

  ghost function Known(vals: Values): set<nat> { set n | 0 <= n < |vals| && vals[n] != Unknown }

  lemma BackLast(settings: seq<Setting>, i: nat)
    requires 0 < i <= |settings|
    ensures Back(settings[..i]) == [settings[i - 1]] + Back(settings[..i - 1])
  {
  }

  lemma {:induction false} CountingOk(todo: seq<Setting>, known: set<nat>, macros: Macros)
    requires MacrosOk(macros) && SettingsOk(todo, |macros|)
    ensures SettingsOk(Counting(todo, known, macros), |macros|)
    decreases Attributes(|macros|) - known, |todo|
  {
    if todo != [] {
      var s := todo[0];
      if s.attr in known {
        CountingOk(todo[1..], known, macros);
      } else {
        assert s.attr in Attributes(|macros|) - known;
        CountingOk(Brought(s, macros) + todo[1..], known + {s.attr}, macros);
      }
    }
  }

  /** The values when what is still to be met has been met. */
  ghost function Outcome(vals: Values, todo: seq<Setting>, macros: Macros): Values
    requires |macros| == |vals| && MacrosOk(macros) && SettingsOk(todo, |vals|)
  {
    CountingOk(todo, Known(vals), macros);
    Applied(vals, Counting(todo, Known(vals), macros))
  }

  lemma OutcomeKnown(vals: Values, s: Setting, rest: seq<Setting>, macros: Macros)
    requires |macros| == |vals| && MacrosOk(macros) && SettingsOk(rest, |vals|) && s.attr < |vals|
      && s.value != Unknown && vals[s.attr] != Unknown
    ensures Outcome(vals, [s] + rest, macros) == Outcome(vals, rest, macros)
  {
    assert ([s] + rest)[1..] == rest && ([s] + rest)[0] == s;
  }

  lemma OutcomeNew(vals: Values, s: Setting, rest: seq<Setting>, macros: Macros)
    requires |macros| == |vals| && MacrosOk(macros) && SettingsOk(rest, |vals|) && s.attr < |vals|
      && s.value != Unknown && vals[s.attr] == Unknown
    ensures Outcome(vals, [s] + rest, macros) == Outcome(vals[s.attr := s.value], Brought(s, macros) + rest, macros)
  {
    var todo, vals1 := [s] + rest, vals[s.attr := s.value];
    assert todo[1..] == rest && todo[0] == s;
    assert Known(vals1) == Known(vals) + {s.attr};
    var log := Counting(Brought(s, macros) + rest, Known(vals1), macros);
    assert ([s] + log)[1..] == log;
  }

  /** Filling from a rule is meeting its settings from the back. */
  lemma {:induction false} FillMeets(vals: Values, macros: Macros, settings: seq<Setting>, i: nat, rest: seq<Setting>)
    requires |macros| == |vals| && MacrosOk(macros) && SettingsOk(settings, |vals|) && i <= |settings|
      && SettingsOk(rest, |vals|)
    ensures Outcome(vals, Back(settings[..i]) + rest, macros) ==
      Outcome(FillOne(vals, macros, settings, i), rest, macros)
    decreases UnknownIn(vals), i
  {
    if i == 0 {
      assert Back(settings[..0]) + rest == rest;
    } else {
      var s, tail := settings[i - 1], Back(settings[..i - 1]) + rest;
      BackLast(settings, i);
      assert Back(settings[..i]) + rest == [s] + tail;
      if vals[s.attr] != Unknown {
        OutcomeKnown(vals, s, tail, macros);
        FillMeets(vals, macros, settings, i - 1, rest);
      } else {
        UnknownSet(vals, s.attr, s.value);
        OutcomeNew(vals, s, tail, macros);
        FillNew(vals, macros, settings, i, rest, s, tail);
      }
    }
  }

  lemma {:induction false} FillNew(vals: Values, macros: Macros, settings: seq<Setting>, i: nat, rest: seq<Setting>,
                                   s: Setting, tail: seq<Setting>)
    requires |macros| == |vals| && MacrosOk(macros) && SettingsOk(settings, |vals|) && 0 < i <= |settings|
      && SettingsOk(rest, |vals|)
    requires s == settings[i - 1] && tail == Back(settings[..i - 1]) + rest && vals[s.attr] == Unknown
      && UnknownIn(vals[s.attr := s.value]) < UnknownIn(vals)
    ensures Outcome(vals[s.attr := s.value], Brought(s, macros) + tail, macros) ==
      Outcome(FillOne(vals, macros, settings, i), rest, macros)
    decreases UnknownIn(vals), i, 0
  {
    var vals1, m := vals[s.attr := s.value], macros[s.attr];
    if s.value == True && m.Some? {
      assert m.value[..|m.value|] == m.value;
      FillMeets(vals1, macros, m.value, |m.value|, tail);
      FillMeets(FillOne(vals1, macros, m.value, |m.value|), macros, settings, i - 1, rest);
    } else {
      assert Brought(s, macros) + tail == tail;
      FillMeets(vals1, macros, settings, i - 1, rest);
    }
  }

  lemma GivenOk(rules: seq<Placed>, i: nat, path: string, matches: Matcher, nr: nat)
    requires i <= |rules| && RulesOk(rules, nr)
    ensures SettingsOk(Given(rules, i, path, matches), nr)
  {
    if i > 0 {
      GivenOk(rules, i - 1, path, matches, nr);
    }
  }

  lemma RuleMeets(vals: Values, macros: Macros, settings: seq<Setting>, rest: seq<Setting>, vals': Values)
    requires |macros| == |vals| && MacrosOk(macros) && SettingsOk(settings, |vals|) && SettingsOk(rest, |vals|)
    requires vals' == FillOne(vals, macros, settings, |settings|)
    ensures Outcome(vals, Back(settings) + rest, macros) == Outcome(vals', rest, macros)
  {
    assert settings[..|settings|] == settings;
    FillMeets(vals, macros, settings, |settings|, rest);
  }

  lemma {:induction false} FillAllMeets(vals: Values, macros: Macros, rules: seq<Placed>, i: nat, path: string,
                                        matches: Matcher, todo: seq<Setting>)
    requires |macros| == |vals| && MacrosOk(macros) && RulesOk(rules, |vals|) && i <= |rules|
    requires todo == Given(rules, i, path, matches) && SettingsOk(todo, |vals|)
    ensures FillAll(vals, macros, rules, i, path, matches) == Outcome(vals, todo, macros)
    decreases i
  {
    if i > 0 {
      var p, rest := rules[i - 1], Given(rules, i - 1, path, matches);
      GivenOk(rules, i - 1, path, matches, |vals|);
      if Applies(matches, p, path) {
        var vals' := FillOne(vals, macros, p.rule.settings, |p.rule.settings|);
        RuleMeets(vals, macros, p.rule.settings, rest, vals');
        FillAllMeets(vals', macros, rules, i - 1, path, matches, rest);
      } else {
        assert todo == rest;
        FillAllMeets(vals, macros, rules, i - 1, path, matches, rest);
      }
    }
  }

  // ---- the answer for one attribute ----

  /** The value of the first setting for n; none if there is none. */
  function FirstFor(log: seq<Setting>, n: nat): Value {
    if log == [] then Unknown else if log[0].attr == n then log[0].value else FirstFor(log[1..], n)
  }

  lemma {:induction false} GivenFirst(vals: Values, todo: seq<Setting>, known: set<nat>, macros: Macros, n: nat)
    requires |macros| == |vals| && MacrosOk(macros) && SettingsOk(todo, |vals|) && n < |vals| && known == Known(vals)
    requires SettingsOk(Counting(todo, known, macros), |vals|)
    ensures Applied(vals, Counting(todo, known, macros))[n] ==
      if n in known then vals[n] else FirstFor(Counting(todo, known, macros), n)
    decreases Attributes(|macros|) - known, |todo|
  {
    if todo != [] {
      var s := todo[0];
      if s.attr in known {
        GivenFirst(vals, todo[1..], known, macros, n);
      } else {
        assert s.attr in Attributes(|macros|) - known;
        var vals1, next := vals[s.attr := s.value], Brought(s, macros) + todo[1..];
        var log := Counting(next, known + {s.attr}, macros);
        assert ([s] + log)[1..] == log && Known(vals1) == known + {s.attr};
        CountingOk(next, known + {s.attr}, macros);
        GivenFirst(vals1, next, known + {s.attr}, macros, n);
      }
    }
  }

  lemma NothingKnown(nr: nat)
    ensures Known(NoValues(nr)) == {}
  {
  }

  /** Whatever macros there are: an attribute has the value of the first setting for it that counts. */
  lemma AnswerIsFirst(rules: seq<Placed>, nr: nat, path: string, matches: Matcher, n: nat)
    requires RulesOk(rules, nr) && n < nr
    ensures MacrosOk(AllMacros(rules, nr)) && SettingsOk(Given(rules, |rules|, path, matches), nr)
    ensures Answer(rules, nr, path, matches)[n] ==
      FirstFor(Counting(Given(rules, |rules|, path, matches), {}, AllMacros(rules, nr)), n)
  {
    AllMacrosOk(rules, nr);
    var macros, todo := AllMacros(rules, nr), Given(rules, |rules|, path, matches);
    GivenOk(rules, |rules|, path, matches, nr);
    FillAllMeets(NoValues(nr), macros, rules, |rules|, path, matches, todo);
    NothingKnown(nr);
    CountingOk(todo, {}, macros);
    GivenFirst(NoValues(nr), todo, {}, macros, n);
  }

  // ---- no macro comes into play ----

  /** No setting of these sets a macro to true. */
  ghost predicate NoMacroIn(todo: seq<Setting>, macros: Macros) {
    forall i :: 0 <= i < |todo| ==> todo[i].attr < |macros| && (todo[i].value == True ==> macros[todo[i].attr] == None)
  }

  lemma {:induction false} CountingPlain(todo: seq<Setting>, known: set<nat>, macros: Macros, n: nat)
    requires MacrosOk(macros) && SettingsOk(todo, |macros|) && NoMacroIn(todo, macros) && n !in known
    ensures FirstFor(Counting(todo, known, macros), n) == FirstFor(todo, n)
    decreases |todo|
  {
    if todo != [] {
      var s := todo[0];
      if s.attr in known {
        CountingPlain(todo[1..], known, macros, n);
      } else {
        var log := Counting(todo[1..], known + {s.attr}, macros);
        assert Brought(s, macros) + todo[1..] == todo[1..] && ([s] + log)[1..] == log;
        if s.attr != n {
          CountingPlain(todo[1..], known + {s.attr}, macros, n);
        }
      }
    }
  }

  /** A rule that applies to the path sets attribute n by its k-th setting. */
  ghost predicate Sets(rules: seq<Placed>, path: string, matches: Matcher, n: nat, r: int, k: int) {
    0 <= r < |rules| && Applies(matches, rules[r], path) && 0 <= k < |rules[r].rule.settings|
      && rules[r].rule.settings[k].attr == n
  }

  /** No later setting of this rule, and no later rule, does. */
  ghost predicate SetsLast(rules: seq<Placed>, path: string, matches: Matcher, n: nat, r: int, k: int) {
    && Sets(rules, path, matches, n, r, k)
    && (forall r', k' :: Sets(rules, path, matches, n, r', k') ==> r' < r || (r' == r && k' <= k))
  }

  ghost predicate NoneFor(settings: seq<Setting>, n: nat) {
    forall k :: 0 <= k < |settings| ==> settings[k].attr != n
  }

  lemma FirstBackStep(settings: seq<Setting>, rest: seq<Setting>, n: nat)
    requires settings != []
    ensures var last := settings[|settings| - 1];
      FirstFor(Back(settings) + rest, n) ==
        if last.attr == n then last.value else FirstFor(Back(settings[..|settings| - 1]) + rest, n)
  {
    BackLast(settings, |settings|);
    assert settings[..|settings|] == settings;
    var todo := Back(settings) + rest;
    assert todo[1..] == Back(settings[..|settings| - 1]) + rest;
  }

  lemma {:induction false} FirstBackNone(settings: seq<Setting>, rest: seq<Setting>, n: nat)
    requires NoneFor(settings, n)
    ensures FirstFor(Back(settings) + rest, n) == FirstFor(rest, n)
  {
    if settings == [] {
      assert Back(settings) + rest == rest;
    } else {
      FirstBackStep(settings, rest, n);
      FirstBackNone(settings[..|settings| - 1], rest, n);
    }
  }

  lemma {:induction false} FirstBackLast(settings: seq<Setting>, rest: seq<Setting>, n: nat, k: nat)
    requires k < |settings| && settings[k].attr == n && NoneFor(settings[k + 1..], n)
    ensures FirstFor(Back(settings) + rest, n) == settings[k].value
  {
    FirstBackStep(settings, rest, n);
    if k < |settings| - 1 {
      assert settings[k + 1..][|settings| - k - 2] == settings[|settings| - 1];
      FirstBackLast(settings[..|settings| - 1], rest, n, k);
    }
  }

  lemma SkipRule(rules: seq<Placed>, r: nat, path: string, matches: Matcher, n: nat)
    requires r < |rules| && forall k :: !Sets(rules, path, matches, n, r, k)
    ensures FirstFor(Given(rules, r + 1, path, matches), n) == FirstFor(Given(rules, r, path, matches), n)
  {
    var settings, rest := rules[r].rule.settings, Given(rules, r, path, matches);
    if Applies(matches, rules[r], path) {
      forall l | 0 <= l < |settings|
        ensures settings[l].attr != n
      {
        assert !Sets(rules, path, matches, n, r, l);
      }
      FirstBackNone(settings, rest, n);
    } else {
      assert [] + rest == rest;
    }
  }

  lemma {:induction false} FirstOfLast(rules: seq<Placed>, i: nat, path: string, matches: Matcher, n: nat, r: nat,
                                       k: nat)
    requires i <= |rules| && SetsLast(rules, path, matches, n, r, k) && r < i
    ensures FirstFor(Given(rules, i, path, matches), n) == rules[r].rule.settings[k].value
  {
    if r < i - 1 {
      SkipRule(rules, i - 1, path, matches, n);
      FirstOfLast(rules, i - 1, path, matches, n, r, k);
    } else {
      var settings := rules[r].rule.settings;
      var later := settings[k + 1..];
      forall l | 0 <= l < |later|
        ensures later[l].attr != n
      {
        assert !Sets(rules, path, matches, n, r, k + 1 + l);
      }
      FirstBackLast(settings, Given(rules, r, path, matches), n, k);
    }
  }

  lemma {:induction false} FirstOfNone(rules: seq<Placed>, i: nat, path: string, matches: Matcher, n: nat)
    requires i <= |rules| && forall r, k :: !Sets(rules, path, matches, n, r, k)
    ensures FirstFor(Given(rules, i, path, matches), n) == Unknown
  {
    if i > 0 {
      SkipRule(rules, i - 1, path, matches, n);
      FirstOfNone(rules, i - 1, path, matches, n);
    }
  }

  lemma {:induction false} FindLast(rules: seq<Placed>, path: string, matches: Matcher, n: nat, r: int, k: int)
    returns (r': nat, k': nat)
    requires Sets(rules, path, matches, n, r, k)
    ensures SetsLast(rules, path, matches, n, r', k')
    decreases |rules| - r, |rules[r].rule.settings| - k
  {
    r', k' := r, k;
    if !SetsLast(rules, path, matches, n, r, k) {
      var r1, k1 :| Sets(rules, path, matches, n, r1, k1) && !(r1 < r || (r1 == r && k1 <= k));
      r', k' := FindLast(rules, path, matches, n, r1, k1);
    }
  }

  /** The d-th rule defines macro n. */
  ghost predicate Defines(rules: seq<Placed>, n: nat, d: int) {
    0 <= d < |rules| && rules[d].rule.isMacro && rules[d].rule.macro == n
  }

  /** The definition of a macro that counts is the last one. */
  lemma {:induction false} LastDefinitionCounts(rules: seq<Placed>, n: nat, d: nat)
    requires Defines(rules, n, d) && forall d' :: Defines(rules, n, d') ==> d' <= d
    ensures MacroOf(rules, n) == Some(rules[d].rule.settings)
    decreases |rules|
  {
    if d < |rules| - 1 {
      var rest := rules[..|rules| - 1];
      assert !Defines(rules, n, |rules| - 1);
      assert forall d' :: Defines(rest, n, d') ==> Defines(rules, n, d');
      LastDefinitionCounts(rest, n, d);
    }
  }

  lemma {:induction false} NoDefinition(rules: seq<Placed>, n: nat)
    ensures MacroOf(rules, n) == None <==> (forall d :: !Defines(rules, n, d))
  {
    if rules != [] {
      var last, rest := |rules| - 1, rules[..|rules| - 1];
      NoDefinition(rest, n);
      assert Defines(rules, n, last) || (forall d :: Defines(rules, n, d) <==> Defines(rest, n, d));
    }
  }

  /** No rule that applies sets a macro to true. */
  ghost predicate NoMacroInPlay(rules: seq<Placed>, path: string, matches: Matcher) {
    forall n, r, k, d ::
      Sets(rules, path, matches, n, r, k) && rules[r].rule.settings[k].value == True ==> !Defines(rules, n, d)
  }

  lemma {:induction false} GivenSets(rules: seq<Placed>, i: nat, path: string, matches: Matcher, s: Setting)
    requires i <= |rules| && s in Given(rules, i, path, matches)
    ensures exists r, k :: Sets(rules, path, matches, s.attr, r, k) && rules[r].rule.settings[k] == s
  {
    var p, rest := rules[i - 1], Given(rules, i - 1, path, matches);
    if s in rest {
      GivenSets(rules, i - 1, path, matches, s);
    } else {
      var j :| 0 <= j < |Back(p.rule.settings)| && Back(p.rule.settings)[j] == s;
      var k := |p.rule.settings| - 1 - j;
      assert Sets(rules, path, matches, s.attr, i - 1, k) && rules[i - 1].rule.settings[k] == s;
    }
  }

  lemma GivenNoMacro(rules: seq<Placed>, nr: nat, path: string, matches: Matcher)
    requires RulesOk(rules, nr) && NoMacroInPlay(rules, path, matches)
    ensures NoMacroIn(Given(rules, |rules|, path, matches), AllMacros(rules, nr))
  {
    var todo := Given(rules, |rules|, path, matches);
    GivenOk(rules, |rules|, path, matches, nr);
    forall i | 0 <= i < |todo| && todo[i].value == True
      ensures MacroOf(rules, todo[i].attr) == None
    {
      GivenSets(rules, |rules|, path, matches, todo[i]);
      NoDefinition(rules, todo[i].attr);
    }
  }

  /** Without macros: the last setting in the last rule that applies counts, and without one nothing is known. */
  lemma LastSettingCounts(rules: seq<Placed>, nr: nat, path: string, matches: Matcher, n: nat)
    requires RulesOk(rules, nr) && n < nr && NoMacroInPlay(rules, path, matches)
    ensures forall r, k :: SetsLast(rules, path, matches, n, r, k) ==>
      Answer(rules, nr, path, matches)[n] == rules[r].rule.settings[k].value
    ensures Answer(rules, nr, path, matches)[n] == Unknown <==> (forall r, k :: !Sets(rules, path, matches, n, r, k))
  {
    var macros, todo := AllMacros(rules, nr), Given(rules, |rules|, path, matches);
    AnswerIsFirst(rules, nr, path, matches, n);
    GivenNoMacro(rules, nr, path, matches);
    CountingPlain(todo, {}, macros, n);
    forall r, k | SetsLast(rules, path, matches, n, r, k)
      ensures FirstFor(todo, n) == rules[r].rule.settings[k].value != Unknown
    {
      FirstOfLast(rules, |rules|, path, matches, n, r, k);
    }
    if r, k :| Sets(rules, path, matches, n, r, k) {
      var r', k' := FindLast(rules, path, matches, n, r, k);
    } else {
      FirstOfNone(rules, |rules|, path, matches, n);
    }
  }

  // ---- macros ----

  /** What is to be met is met. */
  lemma {:induction false} CountingCovers(todo: seq<Setting>, known: set<nat>, macros: Macros, s: Setting)
    requires MacrosOk(macros) && SettingsOk(todo, |macros|) && s in todo && s.attr !in known
    ensures FirstFor(Counting(todo, known, macros), s.attr) != Unknown
    decreases Attributes(|macros|) - known, |todo|
  {
    var t := todo[0];
    if t.attr in known {
      CountingCovers(todo[1..], known, macros, s);
    } else {
      assert t.attr in Attributes(|macros|) - known;
      var next := Brought(t, macros) + todo[1..];
      var log := Counting(next, known + {t.attr}, macros);
      assert ([t] + log)[1..] == log;
      if t.attr != s.attr {
        assert s in todo[1..] && s in next;
        CountingCovers(next, known + {t.attr}, macros, s);
      }
    }
  }

  lemma {:induction false} CountingExpands(todo: seq<Setting>, known: set<nat>, macros: Macros, m: nat, s: Setting)
    requires MacrosOk(macros) && SettingsOk(todo, |macros|) && m < |macros| && s.attr !in known
    requires FirstFor(Counting(todo, known, macros), m) == True && macros[m].Some? && s in macros[m].value
    ensures FirstFor(Counting(todo, known, macros), s.attr) != Unknown
    decreases Attributes(|macros|) - known, |todo|
  {
    var t := todo[0];
    if t.attr in known {
      CountingExpands(todo[1..], known, macros, m, s);
    } else {
      assert t.attr in Attributes(|macros|) - known;
      var next := Brought(t, macros) + todo[1..];
      var log := Counting(next, known + {t.attr}, macros);
      assert ([t] + log)[1..] == log;
      if t.attr == s.attr {
      } else if t.attr == m {
        var j :| 0 <= j < |macros[m].value| && macros[m].value[j] == s;
        assert Back(macros[m].value)[|macros[m].value| - 1 - j] == s;
        assert s in next;
        CountingCovers(next, known + {t.attr}, macros, s);
      } else {
        CountingExpands(next, known + {t.attr}, macros, m, s);
      }
    }
  }

  /** A macro that comes out true has settled all that it sets: each to its own value or to a stronger one. */
  lemma TrueMacroSettles(rules: seq<Placed>, nr: nat, path: string, matches: Matcher, m: nat, d: nat, k: nat)
    requires RulesOk(rules, nr) && m < nr && Answer(rules, nr, path, matches)[m] == True
    requires Defines(rules, m, d) && (forall d' :: Defines(rules, m, d') ==> d' <= d)
    requires k < |rules[d].rule.settings|
    ensures Answer(rules, nr, path, matches)[rules[d].rule.settings[k].attr] != Unknown
  {
    var s, todo := rules[d].rule.settings[k], Given(rules, |rules|, path, matches);
    AnswerIsFirst(rules, nr, path, matches, m);
    AnswerIsFirst(rules, nr, path, matches, s.attr);
    LastDefinitionCounts(rules, m, d);
    CountingExpands(todo, {}, AllMacros(rules, nr), m, s);
  }
}
