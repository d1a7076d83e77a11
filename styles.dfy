/** The style descriptors the decorator asks the editor for, and the registry
    from style key to descriptor that `updateDecorationStyles` rebuilds from
    the rule list. */
module Styles {
  import opened JsString
  import opened Rules

  const DefaultColor := "#0066ff"
  const BorderPrefix := "1px solid "

  /** The options object passed to `createTextEditorDecorationType`; a field
      that the decorator does not set is `None`. */
  datatype StyleOptions = StyleOptions(
    color: string,
    fontWeight: Option<string>,
    borderRadius: Option<string>,
    backgroundColor: Option<string>,
    border: Option<string>,
    textDecoration: Option<string>)

  /** The whole-match style of a rule. */
  function BaseStyle(rule: Rule): (o: StyleOptions)
    ensures o.color != ""
    ensures o.fontWeight == Some("bold") && o.borderRadius == Some("2px")
  {
    StyleOptions(
      if Truthy(rule.color) then rule.color.value else DefaultColor,
      Some("bold"),
      Some("2px"),
      if NonBlank(rule.backgroundColor) then rule.backgroundColor else None,
      if NonBlank(rule.borderColor) && rule.borderColor.value != "transparent"
      then Some(BorderPrefix + rule.borderColor.value) else None,
      if NonBlank(rule.textDecoration) then rule.textDecoration else None)
  }

  /** The style of capture group `gi + 1`, coloured by `groupColors[gi]`. */
  function GroupStyle(rule: Rule, gi: nat): (o: StyleOptions)
    requires gi < |GroupColors(rule)|
    ensures o.color == GroupColors(rule)[gi]
    ensures o.fontWeight == None && o.borderRadius == None && o.border == None
  {
    var bgs := rule.groupBackgrounds;
    var tds := rule.groupTextDecorations;
    StyleOptions(
      GroupColors(rule)[gi],
      None,
      None,
      if bgs.Some? && gi < |bgs.value| && bgs.value[gi] != "" then Some(bgs.value[gi]) else None,
      None,
      if tds.Some? && gi < |tds.value| && tds.value[gi] != "" then Some(tds.value[gi]) else None)
  }

  /** What the whole-match style of a rule carries: the rule's colour when it
      gives a non-empty one and `#0066ff` otherwise; a background and a text
      decoration exactly when the rule gives one with a visible character; a
      `1px solid` border exactly when the border colour has a visible character
      and is not `transparent`. */
  lemma BaseStyleParts(rule: Rule)
    ensures BaseStyle(rule).color == DefaultColor <==> !Truthy(rule.color) || rule.color.value == DefaultColor
    ensures Truthy(rule.color) ==> BaseStyle(rule).color == rule.color.value
    ensures BaseStyle(rule).backgroundColor.Some?
        <==> rule.backgroundColor.Some? && exists k :: 0 <= k < |rule.backgroundColor.value| && !IsJsWhitespace(rule.backgroundColor.value[k])
    ensures BaseStyle(rule).backgroundColor.Some? ==> BaseStyle(rule).backgroundColor == rule.backgroundColor
    ensures BaseStyle(rule).border.Some?
        <==> rule.borderColor.Some? && rule.borderColor.value != "transparent"
             && exists k :: 0 <= k < |rule.borderColor.value| && !IsJsWhitespace(rule.borderColor.value[k])
    ensures BaseStyle(rule).border.Some? ==> BaseStyle(rule).border == Some(BorderPrefix + rule.borderColor.value)
    ensures BaseStyle(rule).textDecoration.Some?
        <==> rule.textDecoration.Some? && exists k :: 0 <= k < |rule.textDecoration.value| && !IsJsWhitespace(rule.textDecoration.value[k])
    ensures BaseStyle(rule).textDecoration.Some? ==> BaseStyle(rule).textDecoration == rule.textDecoration
  {
    NonBlankIffVisible(rule.backgroundColor);
    NonBlankIffVisible(rule.borderColor);
    NonBlankIffVisible(rule.textDecoration);
  }

  /** What the style of group `gi + 1` carries besides its colour: entry `gi`
      of `groupBackgrounds` as its background and entry `gi` of
      `groupTextDecorations` as its text decoration, each exactly when that
      entry exists and is not the empty string. */
  lemma GroupStyleParts(rule: Rule, gi: nat)
    requires gi < |GroupColors(rule)|
    ensures GroupStyle(rule, gi).backgroundColor.Some?
        <==> rule.groupBackgrounds.Some? && gi < |rule.groupBackgrounds.value| && rule.groupBackgrounds.value[gi] != ""
    ensures GroupStyle(rule, gi).backgroundColor.Some? ==> GroupStyle(rule, gi).backgroundColor.value == rule.groupBackgrounds.value[gi]
    ensures GroupStyle(rule, gi).textDecoration.Some?
        <==> rule.groupTextDecorations.Some? && gi < |rule.groupTextDecorations.value| && rule.groupTextDecorations.value[gi] != ""
    ensures GroupStyle(rule, gi).textDecoration.Some? ==> GroupStyle(rule, gi).textDecoration.value == rule.groupTextDecorations.value[gi]
  {
  }

  // ---------------------------------------------------------------------
  // The registry `decorationTypes`, as `updateDecorationStyles` fills it

  type Registry = map<string, StyleOptions>

  /** The registry after the group loop `forEach((gc, gi) => ...)` has handled
      the first `n` group colours of rule `i`. */
  function AddGroupStyles(reg: Registry, i: nat, rule: Rule, n: nat): (r: Registry)
    requires n <= |GroupColors(rule)|
    ensures reg.Keys <= r.Keys
  {
    if n == 0 then reg
    else AddGroupStyles(reg, i, rule, n - 1)[GroupKey(i, n - 1) := GroupStyle(rule, n - 1)]
  }

  /** The registry after rule `i` has been handled. */
  function AddRuleStyles(reg: Registry, i: nat, rule: Rule): (r: Registry)
    ensures reg.Keys <= r.Keys
    ensures !IsEnabled(rule) ==> r == reg
    ensures IsEnabled(rule) ==> BaseKey(i) in r
  {
    if !IsEnabled(rule) then reg
    else AddGroupStyles(reg[BaseKey(i) := BaseStyle(rule)], i, rule, |GroupColors(rule)|)
  }

  /** The registry after the first `n` rules have been handled, starting from
      the cleared map. */
  function RegistryOf(rules: seq<Rule>, n: nat): (r: Registry)
    requires n <= |rules|
    ensures n > 0 ==> RegistryOf(rules, n - 1).Keys <= r.Keys
    ensures n > 0 && IsEnabled(rules[n - 1]) ==> BaseKey(n - 1) in r
  {
    if n == 0 then map[] else AddRuleStyles(RegistryOf(rules, n - 1), n - 1, rules[n - 1])
  }

  /** The keys `updateDecorationStyles` creates for the first `n` rules:
      `rule-i` for every enabled rule `i`, and `rule-i-group-gi` for every
      index `gi` of its group colours. */
  ghost predicate RegisteredKey(rules: seq<Rule>, n: nat, k: string)
    requires n <= |rules|
  {
    exists i :: 0 <= i < n && IsEnabled(rules[i]) && RuleKey(rules[i], i, k)
  }

  ghost predicate RuleKey(rule: Rule, i: nat, k: string) {
    k == BaseKey(i) || exists gi :: 0 <= gi < |GroupColors(rule)| && k == GroupKey(i, gi)
  }

  /** The group loop adds exactly `rule-i-group-gi` for each group index, each
      with its own style, and changes no other key. */
  lemma AddGroupStylesSpec(reg: Registry, i: nat, rule: Rule, n: nat)
    requires n <= |GroupColors(rule)|
    ensures forall k :: (k in AddGroupStyles(reg, i, rule, n)
                         <==> k in reg || exists gi :: 0 <= gi < n && k == GroupKey(i, gi))
    ensures forall gi :: 0 <= gi < n ==> AddGroupStyles(reg, i, rule, n)[GroupKey(i, gi)] == GroupStyle(rule, gi)
    ensures forall k :: k in reg && !KeyOfRule(k, i) ==> AddGroupStyles(reg, i, rule, n)[k] == reg[k]
    ensures forall k :: k in reg && (forall gi :: 0 <= gi < n ==> k != GroupKey(i, gi))
                        ==> AddGroupStyles(reg, i, rule, n)[k] == reg[k]
    ensures BaseKey(i) in reg ==> AddGroupStyles(reg, i, rule, n)[BaseKey(i)] == reg[BaseKey(i)]
  {
    AddGroupStylesKeys(reg, i, rule, n);
    AddGroupStylesValues(reg, i, rule, n);
    AddGroupStylesOthers(reg, i, rule, n);
    AddGroupStylesUntouched(reg, i, rule, n);
  }

  lemma {:induction false} AddGroupStylesKeys(reg: Registry, i: nat, rule: Rule, n: nat)
    requires n <= |GroupColors(rule)|
    ensures forall k :: (k in AddGroupStyles(reg, i, rule, n)
                         <==> k in reg || exists gi :: 0 <= gi < n && k == GroupKey(i, gi))
  {
    if n > 0 {
      AddGroupStylesKeys(reg, i, rule, n - 1);
      var r := AddGroupStyles(reg, i, rule, n);
      forall k ensures k in r <==> k in reg || exists gi :: 0 <= gi < n && k == GroupKey(i, gi) {
        if k != GroupKey(i, n - 1) && exists gi :: 0 <= gi < n && k == GroupKey(i, gi) {
          var gi :| 0 <= gi < n && k == GroupKey(i, gi);
          assert gi < n - 1;
        }
      }
    }
  }

  lemma {:induction false} AddGroupStylesValues(reg: Registry, i: nat, rule: Rule, n: nat)
    requires n <= |GroupColors(rule)|
    ensures forall gi :: 0 <= gi < n ==>
              GroupKey(i, gi) in AddGroupStyles(reg, i, rule, n)
              && AddGroupStyles(reg, i, rule, n)[GroupKey(i, gi)] == GroupStyle(rule, gi)
  {
    if n > 0 {
      AddGroupStylesValues(reg, i, rule, n - 1);
      var r := AddGroupStyles(reg, i, rule, n);
      forall gi | 0 <= gi < n - 1 ensures r[GroupKey(i, gi)] == GroupStyle(rule, gi) {
        KeysDistinct(i, i, gi, n - 1);
      }
    }
  }

  /** A key that is none of the `n` group keys keeps its style. */
  lemma {:induction false} AddGroupStylesUntouched(reg: Registry, i: nat, rule: Rule, n: nat)
    requires n <= |GroupColors(rule)|
    ensures forall k :: k in reg && (forall gi :: 0 <= gi < n ==> k != GroupKey(i, gi))
                        ==> AddGroupStyles(reg, i, rule, n)[k] == reg[k]
  {
    if n > 0 {
      AddGroupStylesUntouched(reg, i, rule, n - 1);
    }
  }

  lemma {:induction false} AddGroupStylesOthers(reg: Registry, i: nat, rule: Rule, n: nat)
    requires n <= |GroupColors(rule)|
    ensures forall k :: k in reg && !KeyOfRule(k, i) ==> AddGroupStyles(reg, i, rule, n)[k] == reg[k]
    ensures BaseKey(i) in reg ==> AddGroupStyles(reg, i, rule, n)[BaseKey(i)] == reg[BaseKey(i)]
  {
    if n > 0 {
      AddGroupStylesOthers(reg, i, rule, n - 1);
      forall k | k in reg && !KeyOfRule(k, i) ensures AddGroupStyles(reg, i, rule, n)[k] == reg[k] {
        assert k != GroupKey(i, n - 1);
      }
      KeysDistinct(i, i, 0, n - 1);
    }
  }

  /** Handling rule `i` touches no key of any other rule. */
  lemma AddRuleStylesFrame(reg: Registry, i: nat, rule: Rule, k: string)
    requires !KeyOfRule(k, i)
    ensures k in AddRuleStyles(reg, i, rule) <==> k in reg
    ensures k in reg ==> AddRuleStyles(reg, i, rule)[k] == reg[k]
  {
    if IsEnabled(rule) {
      var base := reg[BaseKey(i) := BaseStyle(rule)];
      AddGroupStylesSpec(base, i, rule, |GroupColors(rule)|);
    }
  }

  /** The keys of rule `i` after handling it, with their descriptors. */
  lemma AddRuleStylesOwn(reg: Registry, i: nat, rule: Rule, k: string)
    requires KeyOfRule(k, i)
    ensures k in AddRuleStyles(reg, i, rule) <==> k in reg || (IsEnabled(rule) && RuleKey(rule, i, k))
    ensures IsEnabled(rule) && k == BaseKey(i) ==> AddRuleStyles(reg, i, rule)[k] == BaseStyle(rule)
    ensures forall gi :: (IsEnabled(rule) && 0 <= gi < |GroupColors(rule)| && k == GroupKey(i, gi)
                          ==> AddRuleStyles(reg, i, rule)[k] == GroupStyle(rule, gi))
  {
    if IsEnabled(rule) {
      var base := reg[BaseKey(i) := BaseStyle(rule)];
      AddGroupStylesSpec(base, i, rule, |GroupColors(rule)|);
      if k != BaseKey(i) {
        var g: nat :| k == GroupKey(i, g);
        KeysDistinct(i, i, 0, g);
      }
    }
  }

  /** After the rebuild the registry holds exactly the keys of the enabled
      rules and their configured groups. */
  lemma {:induction false} RegistryKeys(rules: seq<Rule>, n: nat, k: string)
    requires n <= |rules|
    ensures k in RegistryOf(rules, n) <==> RegisteredKey(rules, n, k)
  {
    if n > 0 {
      RegistryKeys(rules, n - 1, k);
      if KeyOfRule(k, n - 1) {
        RegistryKeysOwn(rules, n, k);
      } else {
        AddRuleStylesFrame(RegistryOf(rules, n - 1), n - 1, rules[n - 1], k);
        if RegisteredKey(rules, n, k) {
          var i :| 0 <= i < n && IsEnabled(rules[i]) && RuleKey(rules[i], i, k);
          assert i != n - 1;
        }
      }
    }
  }

  lemma RegistryKeysOwn(rules: seq<Rule>, n: nat, k: string)
    requires 0 < n <= |rules| && KeyOfRule(k, n - 1)
    requires k in RegistryOf(rules, n - 1) <==> RegisteredKey(rules, n - 1, k)
    ensures k in RegistryOf(rules, n) <==> RegisteredKey(rules, n, k)
  {
    AddRuleStylesOwn(RegistryOf(rules, n - 1), n - 1, rules[n - 1], k);
    if RegisteredKey(rules, n - 1, k) {
      var i :| 0 <= i < n - 1 && IsEnabled(rules[i]) && RuleKey(rules[i], i, k);
      KeyOwnerUnique(k, i, n - 1);
      assert false;
    }
    if RegisteredKey(rules, n, k) {
      var i :| 0 <= i < n && IsEnabled(rules[i]) && RuleKey(rules[i], i, k);
      KeyOwnerUnique(k, i, n - 1);
    }
  }

  /** Every enabled rule `i` finds its own descriptors under its own keys:
      no other rule's entry overwrites them. */
  lemma RegistryLookup(rules: seq<Rule>, n: nat, i: nat, gi: nat)
    requires i < n <= |rules| && IsEnabled(rules[i])
    ensures BaseKey(i) in RegistryOf(rules, n) && RegistryOf(rules, n)[BaseKey(i)] == BaseStyle(rules[i])
    ensures gi < |GroupColors(rules[i])| ==>
      GroupKey(i, gi) in RegistryOf(rules, n) && RegistryOf(rules, n)[GroupKey(i, gi)] == GroupStyle(rules[i], gi)
  {
    var prev := RegistryOf(rules, i);
    assert RegistryOf(rules, i + 1) == AddRuleStyles(prev, i, rules[i]);
    AddRuleStylesOwn(prev, i, rules[i], BaseKey(i));
    RegistryLaterKeeps(rules, i + 1, n, i, BaseKey(i));
    if gi < |GroupColors(rules[i])| {
      AddRuleStylesOwn(prev, i, rules[i], GroupKey(i, gi));
      RegistryLaterKeeps(rules, i + 1, n, i, GroupKey(i, gi));
    }
  }

  /** The rules after rule `i` leave the styles of rule `i` alone. */
  lemma {:induction false} RegistryLaterKeeps(rules: seq<Rule>, m: nat, n: nat, i: nat, k: string)
    requires i < m <= n <= |rules| && KeyOfRule(k, i)
    ensures k in RegistryOf(rules, n) <==> k in RegistryOf(rules, m)
    ensures k in RegistryOf(rules, m) ==> RegistryOf(rules, n)[k] == RegistryOf(rules, m)[k]
  {
    if n > m {
      RegistryLaterKeeps(rules, m, n - 1, i, k);
      if KeyOfRule(k, n - 1) {
        KeyOwnerUnique(k, i, n - 1);
      }
      AddRuleStylesFrame(RegistryOf(rules, n - 1), n - 1, rules[n - 1], k);
    }
  }

}
