/** The decoration rule as it is read from the `codeDecorator.rules` setting,
    and the two texts derived from a rule alone: its style keys and its
    tooltips. */
module Rules {
  import opened JsString

  /** One `DecorationRule`. Optional fields are `None` when the setting leaves
      them out. Per-group arrays are index-aligned: entry `gi` styles capture
      group `gi + 1`. */
  datatype Rule = Rule(
    condition: Option<string>,
    pattern: string,
    flags: Option<string>,
    conditionFlags: Option<string>,
    groupColors: Option<seq<string>>,
    groupBackgrounds: Option<seq<string>>,
    groupTextDecorations: Option<seq<string>>,
    color: Option<string>,
    backgroundColor: Option<string>,
    borderColor: Option<string>,
    textDecoration: Option<string>,
    enabled: Option<bool>,
    description: Option<string>)

  /** `rule.enabled !== false`: a rule is enabled unless it says otherwise. */
  predicate IsEnabled(rule: Rule) {
    rule.enabled != Some(false)
  }

  /** The configured group colours, `[]` when the setting has none. */
  function GroupColors(rule: Rule): seq<string> {
    if rule.groupColors.Some? then rule.groupColors.value else []
  }

  /** `rule.description || rule.pattern` */
  function Label(rule: Rule): string {
    if Truthy(rule.description) then rule.description.value else rule.pattern
  }

  // ---------------------------------------------------------------------
  // Style keys

  const RulePrefix := "rule-"
  const GroupInfix := "-group-"

  /** `rule-${index}`: the key of a rule's whole-match style. */
  function BaseKey(i: nat): (r: string)
    ensures RulePrefix < r
  {
    RulePrefix + ShowNat(i)
  }

  /** `rule-${index}-group-${gi}`: the key of the style of capture group `gi + 1`. */
  function GroupKey(i: nat, gi: nat): (r: string)
    ensures BaseKey(i) + GroupInfix < r
  {
    RulePrefix + (ShowNat(i) + (GroupInfix + ShowNat(gi)))
  }

  /** The keys a rule may own. */
  ghost predicate KeyOfRule(k: string, i: nat) {
    k == BaseKey(i) || exists gi: nat :: k == GroupKey(i, gi)
  }

  lemma StripPrefix(a: string, b: string)
    requires RulePrefix + a == RulePrefix + b
    ensures a == b
  {
    assert a == (RulePrefix + a)[|RulePrefix|..];
    assert b == (RulePrefix + b)[|RulePrefix|..];
  }

  /** No two rules, and no two groups of a rule, share a style key, and a
      group key is never a whole-match key. */
  lemma KeysDistinct(i: nat, j: nat, gi: nat, gj: nat)
    ensures BaseKey(i) == BaseKey(j) ==> i == j
    ensures BaseKey(i) != GroupKey(j, gj)
    ensures GroupKey(i, gi) == GroupKey(j, gj) ==> i == j && gi == gj
  {
    if BaseKey(i) == BaseKey(j) {
      StripPrefix(ShowNat(i), ShowNat(j));
      NumberThenRestUnique(i, [], j, []);
    }
    BaseNotGroup(i, j, gj);
    if GroupKey(i, gi) == GroupKey(j, gj) {
      GroupKeyInjective(i, j, gi, gj);
    }
  }

  lemma BaseNotGroup(i: nat, j: nat, gj: nat)
    ensures BaseKey(i) != GroupKey(j, gj)
  {
    var rest := GroupInfix + ShowNat(gj);
    if BaseKey(i) == GroupKey(j, gj) {
      StripPrefix(ShowNat(i), ShowNat(j) + rest);
      assert ShowNat(i) + [] == ShowNat(i);
      NumberThenRestUnique(i, [], j, rest);
      assert false;
    }
  }

  lemma GroupKeyInjective(i: nat, j: nat, gi: nat, gj: nat)
    requires GroupKey(i, gi) == GroupKey(j, gj)
    ensures i == j && gi == gj
  {
    GroupKeyRule(i, j, gi, gj);
    ShowNatInjective(gi, gj);
  }

  /** Two equal group keys name the same rule and carry the same group text. */
  lemma GroupKeyRule(i: nat, j: nat, gi: nat, gj: nat)
    requires GroupKey(i, gi) == GroupKey(j, gj)
    ensures i == j && GroupInfix + ShowNat(gi) == GroupInfix + ShowNat(gj)
  {
    var ri, rj := GroupInfix + ShowNat(gi), GroupInfix + ShowNat(gj);
    StripPrefix(ShowNat(i) + ri, ShowNat(j) + rj);
    NumberThenRestUnique(i, ri, j, rj);
  }

  lemma ShowNatInjective(a: nat, b: nat)
    requires GroupInfix + ShowNat(a) == GroupInfix + ShowNat(b)
    ensures a == b
  {
    assert ShowNat(a) == (GroupInfix + ShowNat(a))[|GroupInfix|..];
    assert ShowNat(b) == (GroupInfix + ShowNat(b))[|GroupInfix|..];
    ParseShowNat(a);
    ParseShowNat(b);
  }

  /** A key belongs to at most one rule. */
  lemma KeyOwnerUnique(k: string, i: nat, j: nat)
    requires KeyOfRule(k, i) && KeyOfRule(k, j)
    ensures i == j
  {
    if k == BaseKey(i) {
      if k == BaseKey(j) {
        KeysDistinct(i, j, 0, 0);
      } else {
        var gj: nat :| k == GroupKey(j, gj);
        KeysDistinct(i, j, 0, gj);
      }
    } else {
      var gi: nat :| k == GroupKey(i, gi);
      if k == BaseKey(j) {
        KeysDistinct(j, i, 0, gi);
      } else {
        var gj: nat :| k == GroupKey(j, gj);
        KeysDistinct(i, j, gi, gj);
      }
    }
  }

  // ---------------------------------------------------------------------
  // Tooltips

  const TooltipPrefix := "Code Decorator Rule "

  /** `Code Decorator Rule ${index + 1}: ${label}` */
  function WholeTooltip(i: nat, rule: Rule): string {
    TooltipPrefix + ShowNat(i + 1) + ": " + Label(rule)
  }

  /** `Code Decorator Rule ${index + 1} (group ${gi + 1}): ${label}` */
  function GroupTooltip(i: nat, gi: nat, rule: Rule): string {
    TooltipPrefix + ShowNat(i + 1) + " (group " + ShowNat(gi + 1) + "): " + Label(rule)
  }
}
