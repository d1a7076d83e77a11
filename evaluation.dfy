/** What one `updateDecorations` pass writes to the editor, as functions of
    the registry, the rules, the document text and the regex engine. The
    editor's state is the span list last applied under each style key. */
module Evaluation {
  import opened JsString
  import opened Rules
  import opened Styles
  import opened Patterns
  import opened Spans

  /** The span list currently applied under each style key. */
  type Shown = map<string, seq<Span>>

  /** What handling one rule does: nothing, a set of `setDecorations` writes,
      or an exception that ends the pass. */
  datatype Outcome = Untouched | Writes(w: Shown) | Throws

  /** The writes of the group loop: list `gi` under `rule-i-group-gi`, for
      every group whose key is registered, among the first `n` groups. */
  function GroupWrites(reg: Registry, i: nat, lists: seq<seq<Span>>, n: nat): (w: Shown)
    requires n <= |lists|
    ensures w.Keys <= reg.Keys
  {
    if n == 0 then map[]
    else
      var w := GroupWrites(reg, i, lists, n - 1);
      if GroupKey(i, n - 1) in reg then w[GroupKey(i, n - 1) := lists[n - 1]] else w
  }

  /** The writes that apply the collected spans of rule `i`. */
  function SpanWrites(reg: Registry, i: nat, rule: Rule, ms: seq<Match>): (w: Shown)
    ensures BaseKey(i) in w && w.Keys <= reg.Keys + {BaseKey(i)}
  {
    if |GroupColors(rule)| > 0
    then GroupWrites(reg, i, GroupLists(i, rule, ms), |GroupColors(rule)|)[BaseKey(i) := []]
    else map[BaseKey(i) := WholeSpans(i, rule, ms)]
  }

  /** The handling of rule `i` in one pass. */
  function RuleOutcome(reg: Registry, i: nat, rule: Rule, text: string, engine: RegexEngine): (o: Outcome)
    ensures o.Throws? <==> BaseKey(i) in reg && IsEnabled(rule) && ConditionGate(rule, text, engine) == Open
                           && ContentMatcher(rule, engine).None?
    ensures o.Untouched? <==> BaseKey(i) !in reg || (IsEnabled(rule) && ConditionGate(rule, text, engine) == Invalid)
    ensures o.Writes? ==> BaseKey(i) in o.w && o.w.Keys <= reg.Keys
  {
    var base := BaseKey(i);
    if base !in reg || !IsEnabled(rule) then
      (if base in reg then Writes(map[base := []]) else Untouched)
    else match ConditionGate(rule, text, engine)
      case Invalid => Untouched
      case Closed => Writes(map[base := []])
      case Open =>
        var matcher := ContentMatcher(rule, engine);
        if matcher.None? then Throws
        else Writes(SpanWrites(reg, i, rule, engine.exec(matcher.value.source, matcher.value.flags, text)))
  }

  /** The editor after an outcome (an exception writes nothing itself). */
  function Apply(o: Outcome, shown: Shown): Shown {
    if o.Writes? then shown + o.w else shown
  }

  datatype PassResult = PassResult(shown: Shown, threw: bool)

  /** The editor after the `forEach` over the first `n` rules; an exception
      stops the loop and leaves the writes made before it. */
  function RunRules(reg: Registry, rules: seq<Rule>, n: nat, text: string, engine: RegexEngine, shown: Shown): (r: PassResult)
    requires n <= |rules|
    ensures shown.Keys <= r.shown.Keys
  {
    if n == 0 then PassResult(shown, false)
    else
      var p := RunRules(reg, rules, n - 1, text, engine, shown);
      if p.threw then p
      else
        var o := RuleOutcome(reg, n - 1, rules[n - 1], text, engine);
        PassResult(Apply(o, p.shown), o.Throws?)
  }

  /** Every registered key set to `[]`. */
  function ClearAll(reg: Registry): (w: Shown)
    ensures w.Keys == reg.Keys
    ensures forall k :: k in w ==> w[k] == []
  {
    map k | k in reg :: []
  }

  /** One `updateDecorations` call. `editor` is the active editor's text,
      `None` when there is no active editor. */
  function UpdateResult(reg: Registry, rules: seq<Rule>, enabled: bool, editor: Option<string>,
                        engine: RegexEngine, shown: Shown): (r: PassResult)
    ensures shown.Keys <= r.shown.Keys
    ensures r.threw ==> editor.Some? && enabled
  {
    if editor.None? then PassResult(shown, false)
    else if !enabled then PassResult(shown + ClearAll(reg), false)
    else RunRules(reg, rules, |rules|, editor.value, engine, shown)
  }

  /** Writing a key after a batch of writes is writing it last in the batch. */
  lemma UnionThenUpdate(shown: Shown, w: Shown, k: string, v: seq<Span>)
    ensures (shown + w)[k := v] == shown + w[k := v]
  {
  }

  // ---------------------------------------------------------------------
  // Which keys a rule writes

  lemma {:induction false} GroupWritesSpec(reg: Registry, i: nat, lists: seq<seq<Span>>, n: nat)
    requires n <= |lists|
    ensures forall k :: k in GroupWrites(reg, i, lists, n) ==>
              k in reg && exists gi :: 0 <= gi < n && k == GroupKey(i, gi)
    ensures forall gi :: 0 <= gi < n && GroupKey(i, gi) in reg ==>
              GroupKey(i, gi) in GroupWrites(reg, i, lists, n) && GroupWrites(reg, i, lists, n)[GroupKey(i, gi)] == lists[gi]
  {
    if n > 0 {
      GroupWritesSpec(reg, i, lists, n - 1);
      forall gi | 0 <= gi < n - 1 && GroupKey(i, gi) in reg
        ensures GroupWrites(reg, i, lists, n)[GroupKey(i, gi)] == lists[gi]
      {
        KeysDistinct(i, i, gi, n - 1);
      }
    }
  }

  /** A rule only ever writes registered keys that belong to it. */
  lemma OutcomeOwnKeys(reg: Registry, i: nat, rule: Rule, text: string, engine: RegexEngine)
    requires RuleOutcome(reg, i, rule, text, engine).Writes?
    ensures forall k :: k in RuleOutcome(reg, i, rule, text, engine).w ==> k in reg && KeyOfRule(k, i)
  {
    var base := BaseKey(i);
    if base in reg && IsEnabled(rule) && ConditionGate(rule, text, engine) == Open {
      var m := ContentMatcher(rule, engine).value;
      var ms := engine.exec(m.source, m.flags, text);
      if |GroupColors(rule)| > 0 {
        GroupWritesSpec(reg, i, GroupLists(i, rule, ms), |GroupColors(rule)|);
      }
    }
  }

  /** When the condition compiles but does not occur in the text, only the
      whole-match key is cleared: the rule's group keys are not written. */
  lemma ConditionAbsentClearsBaseOnly(reg: Registry, i: nat, rule: Rule, text: string, engine: RegexEngine)
    requires BaseKey(i) in reg && IsEnabled(rule)
    requires HasCondition(rule) && engine.compiles(rule.condition.value, ConditionFlags(rule))
    requires !engine.test(rule.condition.value, ConditionFlags(rule), text)
    ensures RuleOutcome(reg, i, rule, text, engine) == Writes(map[BaseKey(i) := []])
    ensures forall gi :: GroupKey(i, gi) !in RuleOutcome(reg, i, rule, text, engine).w
  {
    forall gi ensures GroupKey(i, gi) != BaseKey(i) {
      KeysDistinct(i, i, 0, gi);
    }
  }

  /** A rule with group colours writes `[]` under its whole-match key and its
      collected list under every registered group key, and nothing else: any
      whole-match spans from matches without captures are discarded. */
  lemma GroupedRuleWrites(reg: Registry, i: nat, rule: Rule, ms: seq<Match>)
    requires |GroupColors(rule)| > 0
    ensures var w := SpanWrites(reg, i, rule, ms);
            && BaseKey(i) in w && w[BaseKey(i)] == []
            && (forall gi :: 0 <= gi < |GroupColors(rule)| && GroupKey(i, gi) in reg ==>
                  GroupKey(i, gi) in w && w[GroupKey(i, gi)] == GroupList(i, rule, ms, gi))
            && (forall k :: k in w ==> k == BaseKey(i) || (k in reg && exists gi :: 0 <= gi < |GroupColors(rule)| && k == GroupKey(i, gi)))
  {
    var lists := GroupLists(i, rule, ms);
    GroupWritesSpec(reg, i, lists, |lists|);
    forall gi | 0 <= gi < |GroupColors(rule)| ensures GroupKey(i, gi) != BaseKey(i) {
      KeysDistinct(i, i, 0, gi);
    }
  }

  /** A rule without group colours writes exactly its whole-match list, one
      span per match, under its whole-match key. */
  lemma UngroupedRuleWrites(reg: Registry, i: nat, rule: Rule, ms: seq<Match>)
    requires |GroupColors(rule)| == 0
    ensures var w := SpanWrites(reg, i, rule, ms);
            && w.Keys == {BaseKey(i)}
            && |w[BaseKey(i)]| == |ms|
            && forall k :: 0 <= k < |ms| ==> w[BaseKey(i)][k] == WholeSpan(i, rule, ms[k])
  {
    WholeSpansUngrouped(i, rule, ms);
  }

  // ---------------------------------------------------------------------
  // The pass

  /** Only registered keys ever carry spans. */
  lemma {:induction false} RunRulesKeys(reg: Registry, rules: seq<Rule>, n: nat, text: string, engine: RegexEngine, shown: Shown)
    requires n <= |rules| && shown.Keys <= reg.Keys
    ensures RunRules(reg, rules, n, text, engine, shown).shown.Keys <= reg.Keys
  {
    if n > 0 {
      RunRulesKeys(reg, rules, n - 1, text, engine, shown);
      var o := RuleOutcome(reg, n - 1, rules[n - 1], text, engine);
      if o.Writes? {
        OutcomeOwnKeys(reg, n - 1, rules[n - 1], text, engine);
      }
    }
  }

  /** Rules apply independently: when the pass completes, what every rule's
      keys show is what that rule's own outcome gives, whatever the other
      rules are. */
  lemma {:induction false} RunRulesIndependent(reg: Registry, rules: seq<Rule>, n: nat, text: string, engine: RegexEngine,
                                               shown: Shown, j: nat, k: string)
    requires n <= |rules| && j < n && KeyOfRule(k, j)
    requires !RunRules(reg, rules, n, text, engine, shown).threw
    ensures var after := RunRules(reg, rules, n, text, engine, shown).shown;
            var own := Apply(RuleOutcome(reg, j, rules[j], text, engine), shown);
            (k in after <==> k in own) && (k in after ==> after[k] == own[k])
  {
    var p := RunRules(reg, rules, n - 1, text, engine, shown);
    var o := RuleOutcome(reg, n - 1, rules[n - 1], text, engine);
    if j < n - 1 {
      RunRulesIndependent(reg, rules, n - 1, text, engine, shown, j, k);
      if o.Writes? && k in o.w {
        OutcomeOwnKeys(reg, n - 1, rules[n - 1], text, engine);
        KeyOwnerUnique(k, j, n - 1);
      }
    } else {
      RunRulesUntouched(reg, rules, n - 1, text, engine, shown, k, n - 1);
    }
  }

  /** The first `n` rules never write a key of a rule at index `j >= n`. */
  lemma {:induction false} RunRulesUntouched(reg: Registry, rules: seq<Rule>, n: nat, text: string, engine: RegexEngine,
                                             shown: Shown, k: string, j: nat)
    requires n <= j && n <= |rules| && KeyOfRule(k, j)
    ensures var after := RunRules(reg, rules, n, text, engine, shown).shown;
            (k in after <==> k in shown) && (k in after ==> after[k] == shown[k])
  {
    if n > 0 {
      RunRulesUntouched(reg, rules, n - 1, text, engine, shown, k, j);
      OutcomeOtherKeys(reg, n - 1, rules[n - 1], text, engine, k, j);
      RunRulesStepKeeps(reg, rules, n, text, engine, shown, k);
    }
  }

  /** An exception ends the pass at the first rule whose fallback pattern
      does not compile: the rules before it have been applied, none after. */
  lemma {:induction false} RunRulesThrowStops(reg: Registry, rules: seq<Rule>, n: nat, text: string, engine: RegexEngine, shown: Shown)
    requires n <= |rules|
    requires RunRules(reg, rules, n, text, engine, shown).threw
    ensures exists t :: (0 <= t < n
                         && RuleOutcome(reg, t, rules[t], text, engine) == Throws
                         && !RunRules(reg, rules, t, text, engine, shown).threw
                         && RunRules(reg, rules, n, text, engine, shown)
                            == PassResult(RunRules(reg, rules, t, text, engine, shown).shown, true))
  {
    var p := RunRules(reg, rules, n - 1, text, engine, shown);
    if p.threw {
      RunRulesThrowStops(reg, rules, n - 1, text, engine, shown);
    } else {
      RunRulesThrowStep(reg, rules, n, text, engine, shown);
    }
  }

  /** The pass that first throws: rule `n - 1` threw and the editor is what
      the rules before it left. */
  lemma RunRulesThrowStep(reg: Registry, rules: seq<Rule>, n: nat, text: string, engine: RegexEngine, shown: Shown)
    requires 0 < n <= |rules|
    requires !RunRules(reg, rules, n - 1, text, engine, shown).threw
    requires RunRules(reg, rules, n, text, engine, shown).threw
    ensures RuleOutcome(reg, n - 1, rules[n - 1], text, engine) == Throws
    ensures RunRules(reg, rules, n, text, engine, shown)
            == PassResult(RunRules(reg, rules, n - 1, text, engine, shown).shown, true)
  {
  }

  /** Once a rule has thrown, the later rules change nothing. */
  lemma {:induction false} RunRulesThrowKeeps(reg: Registry, rules: seq<Rule>, n: nat, m: nat, text: string, engine: RegexEngine, shown: Shown)
    requires n <= m <= |rules|
    requires RunRules(reg, rules, n, text, engine, shown).threw
    ensures RunRules(reg, rules, m, text, engine, shown) == RunRules(reg, rules, n, text, engine, shown)
    decreases m - n
  {
    if n < m {
      RunRulesThrowKeeps(reg, rules, n, m - 1, text, engine, shown);
    }
  }

  /** A condition that does not compile leaves every key of its rule exactly
      as it was, stale spans included, whether or not the pass completes. */
  lemma {:induction false} InvalidConditionKeepsSpans(reg: Registry, rules: seq<Rule>, n: nat, text: string,
                                                      engine: RegexEngine, shown: Shown, j: nat, k: string)
    requires n <= |rules| && j < |rules| && KeyOfRule(k, j) && BaseKey(j) in reg && IsEnabled(rules[j])
    requires ConditionGate(rules[j], text, engine) == Invalid
    ensures var after := RunRules(reg, rules, n, text, engine, shown).shown;
            (k in after <==> k in shown) && (k in after ==> after[k] == shown[k])
  {
    if n <= j {
      RunRulesUntouched(reg, rules, n, text, engine, shown, k, j);
    } else {
      RunRulesUntouched(reg, rules, j, text, engine, shown, k, j);
      InvalidConditionStep(reg, rules, j, text, engine, shown, k);
      RunRulesLaterKeeps(reg, rules, j + 1, n, text, engine, shown, k, j);
    }
  }

  /** Rule `j`, whose condition does not compile, leaves its own keys as the
      rules before it left them. */
  lemma InvalidConditionStep(reg: Registry, rules: seq<Rule>, j: nat, text: string,
                             engine: RegexEngine, shown: Shown, k: string)
    requires j < |rules| && KeyOfRule(k, j) && BaseKey(j) in reg && IsEnabled(rules[j])
    requires ConditionGate(rules[j], text, engine) == Invalid
    ensures var before := RunRules(reg, rules, j, text, engine, shown).shown;
            var after := RunRules(reg, rules, j + 1, text, engine, shown).shown;
            (k in after <==> k in before) && (k in after ==> after[k] == before[k])
  {
    InvalidConditionUntouched(reg, j, rules[j], text, engine);
    RunRulesStepKeeps(reg, rules, j + 1, text, engine, shown, k);
  }

  /** The rules after rule `j` leave the keys of rule `j` as they found them. */
  lemma {:induction false} RunRulesLaterKeeps(reg: Registry, rules: seq<Rule>, m: nat, n: nat, text: string,
                                              engine: RegexEngine, shown: Shown, k: string, j: nat)
    requires j < m <= n <= |rules| && KeyOfRule(k, j)
    ensures var before := RunRules(reg, rules, m, text, engine, shown).shown;
            var after := RunRules(reg, rules, n, text, engine, shown).shown;
            (k in after <==> k in before) && (k in after ==> after[k] == before[k])
  {
    if n > m {
      RunRulesLaterKeeps(reg, rules, m, n - 1, text, engine, shown, k, j);
      OutcomeOtherKeys(reg, n - 1, rules[n - 1], text, engine, k, j);
      RunRulesStepKeeps(reg, rules, n, text, engine, shown, k);
    }
  }

  lemma InvalidConditionUntouched(reg: Registry, i: nat, rule: Rule, text: string, engine: RegexEngine)
    requires BaseKey(i) in reg && IsEnabled(rule) && ConditionGate(rule, text, engine) == Invalid
    ensures RuleOutcome(reg, i, rule, text, engine) == Untouched
  {
  }

  /** A rule that does not write `k` leaves it as the rules before it left it. */
  lemma RunRulesStepKeeps(reg: Registry, rules: seq<Rule>, n: nat, text: string, engine: RegexEngine, shown: Shown, k: string)
    requires 0 < n <= |rules|
    requires RuleOutcome(reg, n - 1, rules[n - 1], text, engine).Writes? ==> k !in RuleOutcome(reg, n - 1, rules[n - 1], text, engine).w
    ensures var before := RunRules(reg, rules, n - 1, text, engine, shown).shown;
            var after := RunRules(reg, rules, n, text, engine, shown).shown;
            (k in after <==> k in before) && (k in after ==> after[k] == before[k])
  {
  }

  /** Rule `i` never writes a key that belongs to another rule. */
  lemma OutcomeOtherKeys(reg: Registry, i: nat, rule: Rule, text: string, engine: RegexEngine, k: string, j: nat)
    requires i != j && KeyOfRule(k, j)
    ensures RuleOutcome(reg, i, rule, text, engine).Writes? ==> k !in RuleOutcome(reg, i, rule, text, engine).w
  {
    if RuleOutcome(reg, i, rule, text, engine).Writes? {
      OutcomeOwnKeys(reg, i, rule, text, engine);
      if k in RuleOutcome(reg, i, rule, text, engine).w {
        KeyOwnerUnique(k, j, i);
      }
    }
  }

  /** With the global switch off, every registered key is cleared and every
      other key keeps what it had; no rule is looked at. */
  lemma DisabledClearsEverything(reg: Registry, rules: seq<Rule>, text: string, engine: RegexEngine, shown: Shown)
    ensures var r := UpdateResult(reg, rules, false, Some(text), engine, shown);
            && !r.threw
            && r.shown.Keys == shown.Keys + reg.Keys
            && (forall k :: k in reg ==> r.shown[k] == [])
            && (forall k :: k in shown && k !in reg ==> r.shown[k] == shown[k])
  {
  }

  /** When the condition compiles but is absent, the rule's group keys keep
      whatever spans they had: only its whole-match key is cleared. */
  lemma ConditionAbsentKeepsGroupSpans(reg: Registry, rules: seq<Rule>, text: string, engine: RegexEngine,
                                       shown: Shown, j: nat, gi: nat)
    requires j < |rules| && BaseKey(j) in reg && IsEnabled(rules[j])
    requires ConditionGate(rules[j], text, engine) == Closed
    requires !RunRules(reg, rules, |rules|, text, engine, shown).threw
    ensures var after := RunRules(reg, rules, |rules|, text, engine, shown).shown;
            && BaseKey(j) in after && after[BaseKey(j)] == []
            && (GroupKey(j, gi) in after <==> GroupKey(j, gi) in shown)
            && (GroupKey(j, gi) in after ==> after[GroupKey(j, gi)] == shown[GroupKey(j, gi)])
  {
    RunRulesIndependent(reg, rules, |rules|, text, engine, shown, j, BaseKey(j));
    RunRulesIndependent(reg, rules, |rules|, text, engine, shown, j, GroupKey(j, gi));
    KeysDistinct(j, j, 0, gi);
  }

  /** After the styles are rebuilt from a rule list and a pass completes, an
      enabled rule whose condition lets it through shows exactly its own
      spans: `[]` under its whole-match key and each group's list under the
      group's key when it has group colours, its whole-match list otherwise. */
  lemma FreshPassShowsRuleSpans(rules: seq<Rule>, i: nat, text: string, engine: RegexEngine, gi: nat)
    requires i < |rules| && IsEnabled(rules[i])
    requires ConditionGate(rules[i], text, engine) == Open
    requires ContentMatcher(rules[i], engine).Some?
    requires !RunRules(RegistryOf(rules, |rules|), rules, |rules|, text, engine, map[]).threw
    ensures var after := RunRules(RegistryOf(rules, |rules|), rules, |rules|, text, engine, map[]).shown;
            var m := ContentMatcher(rules[i], engine).value;
            var ms := engine.exec(m.source, m.flags, text);
            && BaseKey(i) in after
            && after[BaseKey(i)] == (if |GroupColors(rules[i])| > 0 then [] else WholeSpans(i, rules[i], ms))
            && (gi < |GroupColors(rules[i])| ==>
                  GroupKey(i, gi) in after && after[GroupKey(i, gi)] == GroupList(i, rules[i], ms, gi))
  {
    var reg := RegistryOf(rules, |rules|);
    var rule := rules[i];
    var m := ContentMatcher(rule, engine).value;
    var ms := engine.exec(m.source, m.flags, text);
    RegistryLookup(rules, |rules|, i, gi);
    RunRulesIndependent(reg, rules, |rules|, text, engine, map[], i, BaseKey(i));
    if |GroupColors(rule)| > 0 {
      GroupedRuleWrites(reg, i, rule, ms);
      if gi < |GroupColors(rule)| {
        RunRulesIndependent(reg, rules, |rules|, text, engine, map[], i, GroupKey(i, gi));
      }
    }
  }
}
