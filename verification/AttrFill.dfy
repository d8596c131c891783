/**
 How attribute rules give values (git/attr.c): later rules before earlier ones, the first value written stays,
 and a macro that is set to true brings its own settings.
 */
module AttrFill {

  datatype Value = Unknown | True | False | Unset | Text(text: string)

  datatype Setting = Setting(attr: nat, value: Value)

  // a rule: either the definition of a macro, or settings for paths that match a pattern
  datatype Rule = Rule(isMacro: bool, macro: nat, pattern: string, settings: seq<Setting>)

  type Values = seq<Value>

  // the definition of each attribute that is a macro: a rule, by its settings
  datatype Option<+T> = None | Some(value: T)

  type Macros = seq<Option<seq<Setting>>>

  ghost predicate SettingsOk(settings: seq<Setting>, nr: nat) {
    forall i :: 0 <= i < |settings| ==> settings[i].attr < nr && settings[i].value != Unknown
  }

  ghost predicate MacrosOk(macros: Macros) {
    forall i :: 0 <= i < |macros| && macros[i].Some? ==> SettingsOk(macros[i].value, |macros|)
  }

  /** How many attributes have no value yet. */
  function UnknownIn(vals: Values): nat {
    if vals == [] then 0 else UnknownIn(vals[..|vals| - 1]) + if vals[|vals| - 1] == Unknown then 1 else 0
  }

  lemma {:induction false} UnknownSet(vals: Values, n: nat, v: Value)
    requires n < |vals| && vals[n] == Unknown && v != Unknown
    ensures UnknownIn(vals) > 0 && UnknownIn(vals[n := v]) == UnknownIn(vals) - 1
  {
    var m := |vals| - 1;
    if n < m {
      UnknownSet(vals[..m], n, v);
      assert vals[n := v][..m] == vals[..m][n := v];
    } else {
      assert vals[n := v][..m] == vals[..m];
    }
  }

  lemma {:induction false} NoneUnknown(vals: Values, n: nat)
    requires UnknownIn(vals) == 0 && n < |vals|
    ensures vals[n] != Unknown
  {
    if n < |vals| - 1 {
      NoneUnknown(vals[..|vals| - 1], n);
    }
  }

  // ---- the scan without early exits ----

  /** The settings of a rule, from the i-th back to the first; the last one for an attribute counts. */
  function FillOne(vals: Values, macros: Macros, settings: seq<Setting>, i: nat): (vals': Values)
    requires |macros| == |vals| && MacrosOk(macros) && SettingsOk(settings, |vals|) && i <= |settings|
    ensures |vals'| == |vals| && UnknownIn(vals') <= UnknownIn(vals)
    decreases UnknownIn(vals), i
  {
    if i == 0 then vals
    else
      var s := settings[i - 1];
      if vals[s.attr] != Unknown then FillOne(vals, macros, settings, i - 1)
      else
        UnknownSet(vals, s.attr, s.value);
        var set_ := vals[s.attr := s.value];
        var expanded := if s.value == True && macros[s.attr].Some? then
          FillOne(set_, macros, macros[s.attr].value, |macros[s.attr].value|) else set_;
        FillOne(expanded, macros, settings, i - 1)
  }

  /** A known value stays as it is. */
  lemma {:induction false} FillKeeps(vals: Values, macros: Macros, settings: seq<Setting>, i: nat, n: nat)
    requires |macros| == |vals| && MacrosOk(macros) && SettingsOk(settings, |vals|) && i <= |settings| && n < |vals|
      && vals[n] != Unknown
    ensures FillOne(vals, macros, settings, i)[n] == vals[n]
    decreases UnknownIn(vals), i
  {
    if i > 0 {
      var s := settings[i - 1];
      if vals[s.attr] != Unknown {
        FillKeeps(vals, macros, settings, i - 1, n);
      } else {
        UnknownSet(vals, s.attr, s.value);
        var set_ := vals[s.attr := s.value];
        var m := macros[s.attr];
        if s.value == True && m.Some? {
          FillKeeps(set_, macros, m.value, |m.value|, n);
          FillKeeps(FillOne(set_, macros, m.value, |m.value|), macros, settings, i - 1, n);
        } else {
          FillKeeps(set_, macros, settings, i - 1, n);
        }
      }
    }
  }

  /** With nothing left unknown, nothing changes. */
  lemma {:induction false} FillNothing(vals: Values, macros: Macros, settings: seq<Setting>, i: nat)
    requires |macros| == |vals| && MacrosOk(macros) && SettingsOk(settings, |vals|) && i <= |settings|
      && UnknownIn(vals) == 0
    ensures FillOne(vals, macros, settings, i) == vals
  {
    if i > 0 {
      NoneUnknown(vals, settings[i - 1].attr);
      FillNothing(vals, macros, settings, i - 1);
    }
  }

  // which rules apply: whether a path matches the pattern of a rule found in a directory
  type Matcher = (string, string, string) -> bool

  // a rule with the directory its file is in
  datatype Placed = Placed(origin: string, rule: Rule)

  ghost predicate RulesOk(rules: seq<Placed>, nr: nat) {
    forall i ::
      0 <= i < |rules| ==>
        SettingsOk(rules[i].rule.settings, nr) && (rules[i].rule.isMacro ==> rules[i].rule.macro < nr)
  }

  predicate Applies(matches: Matcher, p: Placed, path: string)
  {
    !p.rule.isMacro && matches(path, p.rule.pattern, p.origin)
  }

  /** The rules from the i-th back to the first. */
  function FillAll(vals: Values, macros: Macros, rules: seq<Placed>, i: nat, path: string,
                   matches: Matcher): (vals': Values)
    requires |macros| == |vals| && MacrosOk(macros) && RulesOk(rules, |vals|) && i <= |rules|
    ensures |vals'| == |vals| && UnknownIn(vals') <= UnknownIn(vals)
    decreases i
  {
    if i == 0 then vals
    else
      var p := rules[i - 1];
      FillAll(if Applies(matches, p, path) then FillOne(vals, macros, p.rule.settings, |p.rule.settings|) else vals,
              macros, rules, i - 1, path, matches)
  }

  lemma {:induction false} FillAllNothing(vals: Values, macros: Macros, rules: seq<Placed>, i: nat, path: string,
                                          matches: Matcher)
    requires |macros| == |vals| && MacrosOk(macros) && RulesOk(rules, |vals|) && i <= |rules| && UnknownIn(vals) == 0
    ensures FillAll(vals, macros, rules, i, path, matches) == vals
  {
    if i > 0 {
      var p := rules[i - 1];
      FillNothing(vals, macros, p.rule.settings, |p.rule.settings|);
      FillAllNothing(vals, macros, rules, i - 1, path, matches);
    }
  }

  /** The definition of macro n that counts is the last. */
  function MacroOf(rules: seq<Placed>, n: nat): Option<seq<Setting>> {
    if rules == [] then None
    else
      var r := rules[|rules| - 1].rule;
      if r.isMacro && r.macro == n then Some(r.settings) else MacroOf(rules[..|rules| - 1], n)
  }

  function AllMacros(rules: seq<Placed>, nr: nat): Macros { seq(nr, n requires 0 <= n < nr => MacroOf(rules, n)) }

  lemma {:induction false} MacroOfOk(rules: seq<Placed>, nr: nat, n: nat)
    requires RulesOk(rules, nr)
    ensures MacroOf(rules, n).Some? ==> SettingsOk(MacroOf(rules, n).value, nr)
  {
    if rules != [] {
      MacroOfOk(rules[..|rules| - 1], nr, n);
    }
  }

  lemma AllMacrosOk(rules: seq<Placed>, nr: nat)
    requires RulesOk(rules, nr)
    ensures MacrosOk(AllMacros(rules, nr))
  {
    forall n | 0 <= n < nr && MacroOf(rules, n).Some?
      ensures SettingsOk(MacroOf(rules, n).value, nr)
    {
      MacroOfOk(rules, nr, n);
    }
  }

  function NoValues(nr: nat): Values { seq(nr, n => Unknown) }

  /** The answer for a path: all rules, the last first, with no early exit. */
  ghost function Answer(rules: seq<Placed>, nr: nat, path: string, matches: Matcher): Values
    requires RulesOk(rules, nr)
  {
    AllMacrosOk(rules, nr);
    FillAll(NoValues(nr), AllMacros(rules, nr), rules, |rules|, path, matches)
  }
}
