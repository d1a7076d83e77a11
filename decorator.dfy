/** The extension's state: the `decorationTypes` registry, and the span list
    the active editor shows under each style key. The editor is reduced to
    that map; applying an empty list clears a key's highlights, and disposing
    a style removes the highlights drawn with it. */
module Decorator {
  import opened JsString
  import opened Rules
  import opened Styles
  import opened Patterns
  import opened Spans
  import opened Evaluation

  class Decorator {
    /** `decorationTypes`: style key to the options its type was created with. */
    var registry: Registry
    /** What the active editor shows under each style key. */
    var shown: Shown

    /** Only a registered (not yet disposed) style can carry highlights. */
    ghost predicate Valid()
      reads this
    {
      shown.Keys <= registry.Keys
    }

    /** `new Map()`: no styles, nothing highlighted. */
    constructor ()
      ensures Valid() && registry == map[] && shown == map[]
    {
      registry := map[];
      shown := map[];
    }

    /** `decorationTypes.forEach(t => t.dispose()); decorationTypes.clear()` */
    method DisposeAll()
      requires Valid()
      modifies this
      ensures Valid() && registry == map[] && shown == map[]
    {
      var pending := registry.Keys;
      while pending != {}
        invariant pending <= registry.Keys
        invariant shown.Keys <= pending
        decreases pending
      {
        var key :| key in pending;
        shown := shown - {key};
        pending := pending - {key};
      }
      registry := map[];
    }

    /** `updateDecorationStyles`: every old style is disposed and the registry
        cleared before the styles of the new rule list are created, one
        `rule-i` per enabled rule followed by its `rule-i-group-gi`. */
    method UpdateDecorationStyles(rules: seq<Rule>)
      requires Valid()
      modifies this
      ensures Valid()
      ensures registry == RegistryOf(rules, |rules|)
      ensures shown == map[]
    {
      DisposeAll();
      var index := 0;
      while index < |rules|
        invariant 0 <= index <= |rules|
        invariant registry == RegistryOf(rules, index)
        invariant shown == map[]
      {
        CreateRuleStyles(index, rules[index]);
        index := index + 1;
      }
    }

    /** The `forEach` callback for rule `index`: a disabled rule gets no
        style; an enabled one gets `rule-index` and its group styles. */
    method CreateRuleStyles(index: nat, rule: Rule)
      requires Valid()
      modifies this
      ensures Valid()
      ensures registry == AddRuleStyles(old(registry), index, rule)
      ensures shown == old(shown)
    {
      if rule.enabled != Some(false) {
        registry := registry[BaseKey(index) := BaseStyle(rule)];
        if rule.groupColors.Some? {
          CreateGroupStyles(index, rule);
        } else {
          assert registry == AddGroupStyles(registry, index, rule, 0);
        }
      }
    }

    /** `rule.groupColors.forEach((gc, gi) => ...)`: one style per group colour. */
    method CreateGroupStyles(index: nat, rule: Rule)
      requires Valid()
      modifies this
      ensures Valid()
      ensures registry == AddGroupStyles(old(registry), index, rule, |GroupColors(rule)|)
      ensures shown == old(shown)
    {
      var gi := 0;
      while gi < |GroupColors(rule)|
        invariant 0 <= gi <= |GroupColors(rule)|
        invariant registry == AddGroupStyles(old(registry), index, rule, gi)
        invariant shown == old(shown)
        invariant Valid()
      {
        registry := registry[GroupKey(index, gi) := GroupStyle(rule, gi)];
        gi := gi + 1;
      }
    }

    /** `updateDecorations`: with an active editor, either clears every
        registered key (global switch off) or handles the rules in order.
        `threw` reports the exception that the literal fallback lets escape,
        which ends the pass. */
    method UpdateDecorations(rules: seq<Rule>, enabled: bool, editor: Option<string>, engine: RegexEngine)
      returns (threw: bool)
      requires Valid()
      modifies this
      ensures Valid() && registry == old(registry)
      ensures PassResult(shown, threw) == UpdateResult(registry, rules, enabled, editor, engine, old(shown))
    {
      threw := false;
      if editor.None? {
        return;
      }
      if !enabled {
        var pending := registry.Keys;
        while pending != {}
          invariant registry == old(registry) && pending <= registry.Keys
          invariant shown == old(shown) + map k | k in registry.Keys - pending :: []
          decreases pending
        {
          var key :| key in pending;
          shown := shown[key := []];
          pending := pending - {key};
        }
        assert registry.Keys - pending == registry.Keys;
        return;
      }
      var text := editor.value;
      var index := 0;
      while index < |rules|
        invariant 0 <= index <= |rules|
        invariant Valid() && registry == old(registry)
        invariant RunRules(registry, rules, index, text, engine, old(shown)) == PassResult(shown, false)
      {
        threw := ApplyRule(index, rules[index], text, engine);
        if threw {
          RunRulesThrowKeeps(registry, rules, index + 1, |rules|, text, engine, old(shown));
          return;
        }
        index := index + 1;
      }
    }

    /** The body of the `forEach` callback for rule `index`. */
    method ApplyRule(index: nat, rule: Rule, text: string, engine: RegexEngine) returns (threw: bool)
      requires Valid()
      modifies this
      ensures Valid() && registry == old(registry)
      ensures threw == RuleOutcome(registry, index, rule, text, engine).Throws?
      ensures shown == Apply(RuleOutcome(registry, index, rule, text, engine), old(shown))
    {
      threw := false;
      var ruleKey := BaseKey(index);
      ghost var outcome := RuleOutcome(registry, index, rule, text, engine);
      if ruleKey !in registry || rule.enabled == Some(false) {
        if ruleKey in registry {
          assert outcome == Writes(map[ruleKey := []]);
          assert shown + map[ruleKey := []] == shown[ruleKey := []];
          shown := shown[ruleKey := []];
        } else {
          assert outcome == Untouched;
        }
        return;
      }
      ghost var gate := ConditionGate(rule, text, engine);
      var hasCondition := true;
      if NonBlank(rule.condition) {
        var condFlags := ConditionFlags(rule);
        if !engine.compiles(rule.condition.value, condFlags) {
          assert gate == Invalid && outcome == Untouched;
          return;
        }
        hasCondition := engine.test(rule.condition.value, condFlags, text);
      }
      if !hasCondition {
        assert gate == Closed && outcome == Writes(map[ruleKey := []]);
        assert shown + map[ruleKey := []] == shown[ruleKey := []];
        shown := shown[ruleKey := []];
        return;
      }
      assert gate == Open;
      threw := ApplyContent(index, rule, text, engine);
    }

    /** Content matching and span application for a rule whose condition let
        it through. */
    method ApplyContent(index: nat, rule: Rule, text: string, engine: RegexEngine) returns (threw: bool)
      requires Valid() && BaseKey(index) in registry && IsEnabled(rule)
      requires ConditionGate(rule, text, engine) == Open
      modifies this
      ensures Valid() && registry == old(registry)
      ensures threw == RuleOutcome(registry, index, rule, text, engine).Throws?
      ensures shown == Apply(RuleOutcome(registry, index, rule, text, engine), old(shown))
    {
      threw := false;
      var ruleKey := BaseKey(index);
      var flags := ContentFlags(rule.flags);
      var source := rule.pattern;
      if !engine.compiles(rule.pattern, flags) {
        source := LiteralPattern(rule.pattern);
        if !engine.compiles(source, flags) {
          threw := true;
          return;
        }
      }
      assert ContentMatcher(rule, engine) == Some(Matcher(source, flags));
      var matches := engine.exec(source, flags, text);
      assert RuleOutcome(registry, index, rule, text, engine) == Writes(SpanWrites(registry, index, rule, matches));
      var decorations, groupDecorations := CollectSpans(index, rule, matches);
      if rule.groupColors.Some? && |rule.groupColors.value| > 0 {
        ApplyGroups(index, groupDecorations);
        ghost var w := GroupWrites(registry, index, groupDecorations, |groupDecorations|);
        UnionThenUpdate(old(shown), w, ruleKey, []);
        shown := shown[ruleKey := []];
      } else {
        shown := shown[ruleKey := decorations];
      }
    }

    /** The loop that applies each group list to its registered key. */
    method ApplyGroups(index: nat, lists: seq<seq<Span>>)
      requires Valid()
      modifies this
      ensures Valid() && registry == old(registry)
      ensures shown == old(shown) + GroupWrites(registry, index, lists, |lists|)
    {
      var gi := 0;
      while gi < |lists|
        invariant 0 <= gi <= |lists|
        invariant Valid() && registry == old(registry)
        invariant shown == old(shown) + GroupWrites(registry, index, lists, gi)
      {
        var key := GroupKey(index, gi);
        if key in registry {
          UnionThenUpdate(old(shown), GroupWrites(registry, index, lists, gi), key, lists[gi]);
          shown := shown[key := lists[gi]];
        }
        gi := gi + 1;
      }
    }

    /** A configuration change: the styles are rebuilt, then the spans are
        recomputed against the new registry. */
    method OnConfigurationChanged(rules: seq<Rule>, enabled: bool, editor: Option<string>, engine: RegexEngine)
      returns (threw: bool)
      requires Valid()
      modifies this
      ensures Valid() && registry == RegistryOf(rules, |rules|)
      ensures PassResult(shown, threw) == UpdateResult(registry, rules, enabled, editor, engine, map[])
    {
      UpdateDecorationStyles(rules);
      threw := UpdateDecorations(rules, enabled, editor, engine);
    }

    /** `deactivate`: every style is disposed and the registry cleared. */
    method Deactivate()
      requires Valid()
      modifies this
      ensures Valid() && registry == map[] && shown == map[]
    {
      DisposeAll();
    }
  }
}
