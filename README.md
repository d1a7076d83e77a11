# Code Decorator rule engine, modelled in Dafny

Code Decorator is a VS Code extension. It highlights text that matches
user-configured regular-expression rules. This project models the rule
engine inside `activate` in `src/extension.ts`:

- `updateDecorationStyles` disposes every decoration type and rebuilds the
  `decorationTypes` registry. The registry maps a style key (`rule-i` for the
  whole match, `rule-i-group-gi` for capture group `gi + 1`) to the options of
  its decoration type.
- `updateDecorations` handles each rule in turn: the global `enabled` switch,
  the per-rule `enabled` flag, the condition gate, the content flags, the
  literal fallback, the `exec` loop that collects whole-match and per-group
  spans, and the per-key `setDecorations` calls.

The regular-expression engine is an oracle (`Patterns.RegexEngine`). It says
whether a source and flags compile, whether a condition occurs in the text, and
which matches a global search yields. The editor is reduced to a map from style
key to the span list last applied under it. Spans are character offsets; the
conversion through `positionAt` is not modelled.

Files:

- `js_string.dfy` (module `JsString`): JavaScript semantics used by the
  source: `undefined` fields, `trim`, `${n}` for numbers, `indexOf`.
- `rules.dfy` (module `Rules`): `DecorationRule`, style keys, tooltips.
- `styles.dfy` (module `Styles`): style options and the registry as a
  function of the rule list.
- `patterns.dfy` (module `Patterns`): content flags, literal escaping,
  condition flags and gate, the engine oracle.
- `spans.dfy` (module `Spans`): the match loop and the spans it collects.
- `evaluation.dfy` (module `Evaluation`): what one `updateDecorations` pass
  writes, and lemmas about the whole pass.
- `decorator.dfy` (module `Decorator`): class `Decorator`, which holds the
  registry and the shown spans, with one method per operation.

Behaviour of the code that is easy to misread:

- The literal fallback is compiled outside any `try` (src/extension.ts:180).
  If the flags themselves are invalid, that exception escapes
  `updateDecorations`. The remaining rules are then not handled. The model
  returns `threw` for this case.
- A condition that fails to compile leaves every key of its rule untouched, so
  stale spans stay visible (src/extension.ts:152-155).
- A condition that compiles but is not found clears only `rule-i`. The group
  keys keep their old spans (src/extension.ts:161-165).
- A group span covers the first occurrence of the captured text inside the
  match, not the group's own position (src/extension.ts:203).
- There is no string or comment filtering, and the `exec` loop has no guard
  against zero-width matches.

## Model

| member | source | states |
|---|---|---|
| `JsString.Trim` | src/extension.ts:64 | `trim()` returns an infix of the string that neither starts nor ends with whitespace |
| `JsString.TrimDropsWhitespace` | src/extension.ts:64 | everything `trim()` drops before and after that infix is whitespace |
| `JsString.TrimEmptyIffAllWhitespace` | src/extension.ts:64-75 | `trim()` gives `''` exactly when every character is ECMAScript whitespace or a line terminator |
| `JsString.NonBlankIffVisible` | src/extension.ts:146 | the test `x && x.trim() !== ''` holds exactly when `x` is defined and has a non-whitespace character |
| `JsString.ShowNat` | src/extension.ts:79 | `${n}` of a non-negative index is a non-empty string of decimal digits with no leading zero, except `0` itself |
| `JsString.ParseShowNat` | src/extension.ts:79 | the decimal text `${n}` reads back as `n`, so distinct indices give distinct texts |
| `JsString.NumberThenRestUnique` | src/extension.ts:92 | a number's decimal text followed by text that does not start with a digit splits in only one way |
| `JsString.Truthy` | src/extension.ts:64-74 | JavaScript truthiness of an optional string: defined and not `''` (a definition) |
| `JsString.NonBlank` | src/extension.ts:64-74 | the test `x && x.trim() !== ''`, also at src/extension.ts:146 (a definition; `JsString.NonBlankIffVisible` states what it means) |
| `JsString.IndexOf` | src/extension.ts:203 | `indexOf` returns the first position where the needle occurs, or -1 exactly when it occurs nowhere |
| `Rules.IsEnabled` | src/extension.ts:55 | a rule is enabled unless `enabled` is exactly `false` (a definition; the same test appears at src/extension.ts:133) |
| `Rules.GroupColors` | src/extension.ts:82 | `groupColors`, or no colours when it is missing (a definition; the same list drives src/extension.ts:186, 199 and 231) |
| `Rules.BaseKey` | src/extension.ts:130 | `rule-${index}` is `rule-` followed by more text (the index's digits) |
| `Rules.GroupKey` | src/extension.ts:233 | `rule-${index}-group-${gi}` extends the rule's whole-match key with `-group-` and more text (the group index's digits) |
| `Rules.Label` | src/extension.ts:209 | the label `rule.description \|\| rule.pattern` (a definition, used by `Rules.WholeTooltip` and `Rules.GroupTooltip`) |
| `Rules.WholeTooltip` | src/extension.ts:220 | the hover text `Code Decorator Rule {i+1}: {label}` (a definition; `Spans.WholeSpans` states that every whole-match span carries it) |
| `Rules.GroupTooltip` | src/extension.ts:209 | the hover text `Code Decorator Rule {i+1} (group {gi+1}): {label}` (a definition; `Spans.GroupList` and `Spans.GroupSpanInMatch` state that every group span carries it) |
| `Rules.KeysDistinct` | src/extension.ts:79-92 | `rule-i` keys are distinct for distinct `i`, group keys are distinct for distinct `(i, gi)`, and no group key equals a whole-match key |
| `Rules.KeyOwnerUnique` | src/extension.ts:130-233 | every style key belongs to at most one rule |
| `Styles.BaseStyle` | src/extension.ts:57-61 | a whole-match style always has a non-empty colour, bold weight and a 2px radius |
| `Styles.BaseStyleParts` | src/extension.ts:58-76 | the colour is the rule's colour when that is non-empty and `#0066ff` otherwise; the background and text decoration are present exactly when the rule gives one with a visible character; the border `1px solid X` is present exactly when X has a visible character and is not `transparent` |
| `Styles.GroupStyle` | src/extension.ts:84-90 | a group style takes the group's colour and has no border, weight or radius |
| `Styles.GroupStyleParts` | src/extension.ts:85-90 | a group style has a background exactly when `groupBackgrounds[gi]` exists and is non-empty, and then it is that value; the same for `groupTextDecorations[gi]` and the text decoration |
| `Styles.AddGroupStyles` | src/extension.ts:84-92 | the group loop never removes a key from the registry |
| `Styles.AddRuleStyles` | src/extension.ts:54-96 | handling a rule never removes a key; a disabled rule leaves the registry unchanged; an enabled rule `i` always has `rule-i` afterwards |
| `Styles.RegistryOf` | src/extension.ts:46-97 | each rule handled only adds keys to the registry built from the rules before it, and an enabled rule adds its `rule-i` |
| `Styles.AddGroupStylesSpec` | src/extension.ts:82-93 | the group loop adds exactly `rule-i-group-gi` for each group index, each with its own style, and changes no other key |
| `Styles.AddRuleStylesFrame` | src/extension.ts:54-96 | handling one rule never touches a key of another rule |
| `Styles.AddRuleStylesOwn` | src/extension.ts:55-93 | after handling an enabled rule, its keys hold its whole-match style and its group styles |
| `Styles.RegistryKeys` | src/extension.ts:46-97 | after the rebuild, the keys are exactly `rule-i` for each enabled rule and `rule-i-group-gi` for each index of its `groupColors` |
| `Styles.RegistryLookup` | src/extension.ts:54-96 | after the rebuild, every enabled rule finds its own styles under its own keys |
| `Styles.RegistryLaterKeeps` | src/extension.ts:54-96 | the rules handled after rule `i` leave the registry entries of rule `i` as they were |
| `Patterns.ContentFlags` | src/extension.ts:172-173 | the content flags always contain `g`; flags that already contain `g` come back unchanged; otherwise the result is the user's flags (`''` when missing) followed by `g` |
| `Patterns.UserFlags` | src/extension.ts:172 | `rule.flags \|\| ''` (a definition; the same expression is at src/extension.ts:178) |
| `Patterns.IsMeta` | src/extension.ts:177 | the characters of the class `[.*+?^${}()\|[\]\\]` (a definition) |
| `Patterns.Escape` | src/extension.ts:177 | escaping never shortens the pattern |
| `Patterns.LiteralPattern` | src/extension.ts:177-180 | the fallback source ends in `\b`, and what comes before it, read back as a literal, is exactly the user's pattern |
| `Patterns.UnescapeEscape` | src/extension.ts:177 | read back as a literal, the escaped text is exactly the user's pattern: no character keeps a regular-expression meaning |
| `Patterns.EscapeConcat` | src/extension.ts:177 | escaping works character by character |
| `Patterns.EscapePlain` | src/extension.ts:177 | text without metacharacters passes through unchanged |
| `Patterns.EscapeLength` | src/extension.ts:177 | escaping adds exactly one backslash per metacharacter |
| `Patterns.ContentMatcher` | src/extension.ts:168-181 | the pattern is used as written when it compiles with the normalised flags, else the literal fallback; there is no matcher exactly when neither compiles |
| `Patterns.ConditionFlags` | src/extension.ts:150 | the condition flags are never empty: `conditionFlags` when non-empty, otherwise `i` |
| `Patterns.HasCondition` | src/extension.ts:146 | the test `rule.condition && rule.condition.trim() !== ''` (a definition) |
| `Patterns.ConditionGate` | src/extension.ts:143-159 | the gate is open exactly when there is no condition or it compiles and is found, and invalid exactly when a condition is present and fails to compile |
| `Patterns.BlankConditionOpens` | src/extension.ts:143-146 | a missing or whitespace-only condition always lets the rule go on to content matching |
| `Spans.Grouped` | src/extension.ts:199 | a match is split into groups when it has captures and the rule has a non-empty `groupColors` (a definition) |
| `Spans.Capture` | src/extension.ts:201 | `match[gi + 1]`, or nothing when the match has no such capture (a definition) |
| `Spans.WholeSpan` | src/extension.ts:216-221 | the span `[match.index, match.index + match[0].length)` with the whole-match tooltip (a definition; `Spans.WholeSpansUngrouped` states its use) |
| `Spans.GroupSpan` | src/extension.ts:199-213 | a match gives a span for group `gi` exactly when the capture is a non-empty string found in the matched text |
| `Spans.GroupLists` | src/extension.ts:185-190 | there is one group list per configured group colour |
| `Spans.WholeSpans` | src/extension.ts:215-224 | the whole-match list never has more spans than there are matches, and every span carries the tooltip `Code Decorator Rule {i+1}: {description or pattern}` |
| `Spans.GroupList` | src/extension.ts:199-213 | a group's list never has more spans than there are matches, and every span carries the tooltip `Code Decorator Rule {i+1} (group {gi+1}): {description or pattern}` |
| `Spans.CollectSpans` | src/extension.ts:183-225 | the match loop produces exactly the whole-match list and the per-group lists defined match by match |
| `Spans.PushGroupSpans` | src/extension.ts:199-214 | the group loop appends to each group's list the span of that group in the match, if any, and nothing else |
| `Spans.GroupSpanInMatch` | src/extension.ts:201-209 | a group span lies within its match, has the capture's length, covers the first occurrence of the captured text, and carries the tooltip `Code Decorator Rule {i+1} (group {gi+1}): …` |
| `Spans.GroupSpanInText` | src/extension.ts:203-206 | when the match lies in the document, the group span covers document text equal to the captured text |
| `Spans.RepeatedCaptureTakesFirstOccurrence` | src/extension.ts:203 | for `/(a)b(a)/` on `aba`, group 2's span is `[0, 1)`, not the group's own position |
| `Spans.WholeSpansUngrouped` | src/extension.ts:215-224 | without group colours, every match gives one span `[index, index + match[0].length)`, in match order |
| `Spans.WholeSpansFromMatches` | src/extension.ts:197-225 | every whole-match span comes from a match that is not split into groups, and there are never more spans than matches |
| `Spans.GroupListFromMatches` | src/extension.ts:199-213 | every group span comes from a split match, and there are never more spans than matches |
| `Spans.GroupListComplete` | src/extension.ts:197-212 | every split match whose capture `gi` is non-empty and found in `match[0]` contributes its span to group `gi`'s list |
| `Spans.GroupListConcat` | src/extension.ts:197-212 | group spans come in `exec` order: the list for matches `a` then `b` is `a`'s list followed by `b`'s |
| `Evaluation.GroupWrites` | src/extension.ts:232-238 | the group apply loop writes only registered keys |
| `Evaluation.SpanWrites` | src/extension.ts:231-243 | applying the collected spans always writes `rule-i`, and otherwise only registered keys |
| `Evaluation.RuleOutcome` | src/extension.ts:129-244 | handling a rule throws exactly when it is registered, enabled, its gate is open and neither the pattern nor the fallback compiles; it ends without writing and without throwing exactly when `rule-i` is not registered, or the rule is enabled and its condition does not compile; when it writes, it writes `rule-i` and only registered keys |
| `Evaluation.Apply` | src/extension.ts:134-136 | the `setDecorations` calls of one rule (also src/extension.ts:162, 236 and 242), as a map union over the shown spans; an exception writes nothing (a definition) |
| `Evaluation.RunRules` | src/extension.ts:129-244 | the `forEach` over the rules never removes a key from the shown spans |
| `Evaluation.UpdateResult` | src/extension.ts:106-245 | one pass never removes a key from the shown spans, and can throw only with an active editor and the global switch on |
| `Evaluation.ClearAll` | src/extension.ts:117-119 | the global switch writes `[]` under exactly the registered keys |
| `Evaluation.GroupWritesSpec` | src/extension.ts:232-238 | the apply loop writes each group's list under its key when that key is registered, and writes no other key |
| `Evaluation.OutcomeOwnKeys` | src/extension.ts:129-244 | handling a rule writes only registered keys that belong to that rule |
| `Evaluation.OutcomeOtherKeys` | src/extension.ts:129-244 | handling rule `i` never writes a key that belongs to another rule |
| `Evaluation.ConditionAbsentClearsBaseOnly` | src/extension.ts:161-165 | a condition that compiles but is not found sets only `rule-i` to `[]` and writes no group key |
| `Evaluation.GroupedRuleWrites` | src/extension.ts:231-240 | with group colours, `rule-i` is set to `[]` and every registered group key gets its collected list; whole-match spans are discarded |
| `Evaluation.UngroupedRuleWrites` | src/extension.ts:241-243 | without group colours, `rule-i` gets exactly one span per match and no other key is written |
| `Evaluation.RunRulesKeys` | src/extension.ts:131-136 | only registered keys ever carry spans |
| `Evaluation.RunRulesIndependent` | src/extension.ts:129-244 | when a pass completes, each rule's keys show what that rule's own outcome gives, whatever the other rules are |
| `Evaluation.RunRulesThrowStops` | src/extension.ts:175-181 | when the fallback pattern fails to compile, the pass ends at that rule: earlier rules are applied, later ones are not |
| `Evaluation.RunRulesLaterKeeps` | src/extension.ts:129-244 | the rules handled after rule `j` leave the shown spans of rule `j`'s keys as they were |
| `Evaluation.InvalidConditionKeepsSpans` | src/extension.ts:152-155 | the condition of an enabled, registered rule that fails to compile leaves every key of that rule as it was, after any number of rules and whether or not a later rule throws |
| `Evaluation.ConditionAbsentKeepsGroupSpans` | src/extension.ts:161-165 | over a whole pass, an absent condition clears `rule-i` while the group keys keep their previous spans |
| `Evaluation.DisabledClearsEverything` | src/extension.ts:115-121 | with the global switch off, every registered key is set to `[]`, other keys are unchanged, and nothing throws |
| `Evaluation.FreshPassShowsRuleSpans` | src/extension.ts:258-262 | after a rebuild and a completed pass, an enabled rule whose gate is open shows exactly its own whole-match list or group lists |
| `Decorator.Decorator.constructor` | src/extension.ts:26 | the registry starts empty and nothing is highlighted |
| `Decorator.Decorator.DisposeAll` | src/extension.ts:48-49 | every style is disposed, taking its highlights with it, and the registry is cleared |
| `Decorator.Decorator.UpdateDecorationStyles` | src/extension.ts:46-97 | after disposal and clearing, the registry is the one built from the rule list, and nothing is highlighted |
| `Decorator.Decorator.CreateRuleStyles` | src/extension.ts:54-95 | the callback for one rule turns the registry into `AddRuleStyles` of the old one, leaves the shown spans alone and keeps every shown key registered |
| `Decorator.Decorator.CreateGroupStyles` | src/extension.ts:82-93 | the group loop adds one style per group colour and keeps every shown key registered |
| `Decorator.Decorator.UpdateDecorations` | src/extension.ts:106-245 | the registry is unchanged, and the new shown spans and the exception flag are those of one pass |
| `Decorator.Decorator.ApplyRule` | src/extension.ts:129-166 | handling one rule applies that rule's outcome to the shown spans |
| `Decorator.Decorator.ApplyContent` | src/extension.ts:167-243 | for a rule whose gate is open, the shown spans get the writes of its matcher's matches, or the pass throws |
| `Decorator.Decorator.ApplyGroups` | src/extension.ts:231-238 | each group list is applied to its registered key |
| `Decorator.Decorator.OnConfigurationChanged` | src/extension.ts:258-263 | styles are rebuilt from the new rules before spans are computed, and the pass starts from an editor with nothing shown |
| `Decorator.Decorator.Deactivate` | src/extension.ts:285-289 | every style is disposed and the registry is cleared |

## Left out

- VS Code wiring is not modelled: event subscriptions, `getConfiguration`, `createTextEditorDecorationType`, `dispose` and `positionAt` (src/extension.ts:37-43, 78, 91, 247-263). These are host API calls. The active editor is modelled as its text, or `None` when there is no editor.
- The `RegExp` engine is a foreign library. Its compile, test and match results are inputs.
- The `exec` loop has no forward-progress guard on zero-width matches. The model consumes a finite match sequence and claims no progress guarantee.
- The commands `Decorator.helloWorld` and `codeDecorator.toggle` are UI only and are not modelled. `runtimeEnabled` is never read by `updateDecorations`, which checks the configured `enabled`, so the toggle does not change any spans.
- Console logging and the `matchCount` counter are not modelled, because the counter is only logged.
- String and comment context filtering is not modelled, because this file does not do it.
- Only the active editor's spans are modelled. Spans applied to other editors are not tracked.
- Configuration values are assumed to have their declared types. A `groupColors` that is not an array, non-string array entries and a missing `pattern` are not modelled.
- A `char` stands for one UTF-16 code unit. Surrogate pairs are not modelled.
