/** How a rule's condition and content pattern become regular expressions.
    The JavaScript `RegExp` engine itself is not modelled: it is an oracle
    that says whether a source/flags pair compiles, whether a compiled
    condition occurs in a text, and which matches a global search yields. */
module Patterns {
  import opened JsString
  import opened Rules

  /** One result of `RegExp.prototype.exec`: `match.index`, `match[0]` and the
      captures `match[1..]`, a capture being `None` when its group did not
      take part in the match. */
  datatype Match = Match(index: nat, text: string, captures: seq<Option<string>>)

  /** The regular-expression engine, as answers to the three questions the
      decorator asks of it. `exec` is the sequence of matches that repeated
      `exec` calls with the global flag produce, in order. */
  datatype RegexEngine = RegexEngine(
    compiles: (string, string) -> bool,
    test: (string, string, string) -> bool,
    exec: (string, string, string) -> seq<Match>)

  /** A compiled content pattern: the source text and the flags it was
      compiled with. */
  datatype Matcher = Matcher(source: string, flags: string)

  // ---------------------------------------------------------------------
  // Content flags

  /** `rule.flags || ''` */
  function UserFlags(flags: Option<string>): string {
    if flags.Some? then flags.value else ""
  }

  /** The flags of the content pattern: the user's flags, with `g` added when
      they do not already have it so that every occurrence is found. */
  function ContentFlags(flags: Option<string>): (r: string)
    ensures 'g' in r
    ensures forall c :: c in r <==> c == 'g' || c in UserFlags(flags)
    ensures 'g' in UserFlags(flags) ==> r == UserFlags(flags)
    ensures 'g' !in UserFlags(flags) ==> r == UserFlags(flags) + "g"
  {
    var user := UserFlags(flags);
    if 'g' in user then user else user + "g"
  }

  // ---------------------------------------------------------------------
  // Literal fallback

  /** The characters the fallback escapes: `. * + ? ^ $ { } ( ) | [ ] \` */
  predicate IsMeta(c: char) {
    c == '.' || c == '*' || c == '+' || c == '?' || c == '^' || c == '$'
    || c == '{' || c == '}' || c == '(' || c == ')' || c == '|'
    || c == '[' || c == ']' || c == '\\'
  }

  /** `pattern.replace(/[.*+?^${}()|[\]\\]/g, '\\$&')`: a backslash before
      every metacharacter, every other character unchanged. */
  function Escape(s: string): (r: string)
    ensures |r| >= |s|
  {
    if s == [] then []
    else (if IsMeta(s[0]) then ['\\', s[0]] else [s[0]]) + Escape(s[1..])
  }

  /** The source of the fallback pattern: the escaped text, then `\b`.
      Read back as a literal, everything before the `\b` is the pattern. */
  function LiteralPattern(pattern: string): (r: string)
    ensures |r| >= 2 && r[|r| - 2..] == "\\b"
    ensures Unescape(r[..|r| - 2]) == Some(pattern)
  {
    var r := Escape(pattern) + "\\b";
    assert r[..|r| - 2] == Escape(pattern);
    UnescapeEscape(pattern);
    r
  }

  /** Reads a regular-expression source as a plain literal: an escaped
      metacharacter stands for itself, any other character for itself; an
      unescaped metacharacter, or a backslash before anything else (a class
      or assertion such as `\b`), means the source is not a plain literal. */
  function Unescape(r: string): Option<string> {
    if r == [] then Some([])
    else if r[0] == '\\' then
      if |r| >= 2 && IsMeta(r[1]) then Prepend(r[1], Unescape(r[2..])) else None
    else if IsMeta(r[0]) then None
    else Prepend(r[0], Unescape(r[1..]))
  }

  function Prepend(c: char, x: Option<string>): Option<string> {
    if x.Some? then Some([c] + x.value) else None
  }

  /** The escaped text is a plain literal that stands for exactly the user's
      pattern: nothing in it is left with a regular-expression meaning. */
  lemma {:induction false} UnescapeEscape(s: string)
    ensures Unescape(Escape(s)) == Some(s)
  {
    if s != [] {
      UnescapeEscape(s[1..]);
      var e := Escape(s);
      if IsMeta(s[0]) {
        assert e[2..] == Escape(s[1..]);
      } else {
        assert e[1..] == Escape(s[1..]);
      }
      assert [s[0]] + s[1..] == s;
    }
  }

  /** Escaping works character by character. */
  lemma {:induction false} EscapeConcat(a: string, b: string)
    ensures Escape(a + b) == Escape(a) + Escape(b)
  {
    if a != [] {
      assert (a + b)[1..] == a[1..] + b;
      EscapeConcat(a[1..], b);
    } else {
      assert a + b == b;
    }
  }

  /** Text without metacharacters passes through unchanged. */
  lemma {:induction false} EscapePlain(s: string)
    requires forall k :: 0 <= k < |s| ==> !IsMeta(s[k])
    ensures Escape(s) == s
  {
    if s != [] {
      EscapePlain(s[1..]);
    }
  }

  function MetaCount(s: string): nat {
    if s == [] then 0 else (if IsMeta(s[0]) then 1 else 0) + MetaCount(s[1..])
  }

  /** Escaping adds exactly one backslash per metacharacter. */
  lemma {:induction false} EscapeLength(s: string)
    ensures |Escape(s)| == |s| + MetaCount(s)
  {
    if s != [] {
      EscapeLength(s[1..]);
    }
  }

  /** The content matcher: the pattern itself when it compiles with the
      normalised flags, otherwise the literal fallback. `None` when the
      fallback does not compile either (the flags themselves are invalid):
      the source lets that exception escape `updateDecorations`. */
  function ContentMatcher(rule: Rule, engine: RegexEngine): (m: Option<Matcher>)
    ensures m.Some? ==> m.value.flags == ContentFlags(rule.flags)
    ensures m.Some? && engine.compiles(rule.pattern, m.value.flags) ==> m.value.source == rule.pattern
    ensures m.Some? && !engine.compiles(rule.pattern, m.value.flags) ==> m.value.source == LiteralPattern(rule.pattern)
    ensures m.None? <==> !engine.compiles(rule.pattern, ContentFlags(rule.flags))
                         && !engine.compiles(LiteralPattern(rule.pattern), ContentFlags(rule.flags))
  {
    var flags := ContentFlags(rule.flags);
    if engine.compiles(rule.pattern, flags) then Some(Matcher(rule.pattern, flags))
    else if engine.compiles(LiteralPattern(rule.pattern), flags) then Some(Matcher(LiteralPattern(rule.pattern), flags))
    else None
  }

  // ---------------------------------------------------------------------
  // Condition

  /** `rule.condition && rule.condition.trim() !== ''` */
  predicate HasCondition(rule: Rule) {
    NonBlank(rule.condition)
  }

  /** The condition's flags: `conditionFlags` when non-empty, else `i`. */
  function ConditionFlags(rule: Rule): (r: string)
    ensures r != ""
    ensures Truthy(rule.conditionFlags) ==> r == rule.conditionFlags.value
    ensures !Truthy(rule.conditionFlags) ==> r == "i"
  {
    if Truthy(rule.conditionFlags) then rule.conditionFlags.value else "i"
  }

  /** What the condition check decides for a rule. */
  datatype Gate = Open | Closed | Invalid

  function ConditionGate(rule: Rule, text: string, engine: RegexEngine): (g: Gate)
    ensures g == Open <==> !HasCondition(rule)
                           || (engine.compiles(rule.condition.value, ConditionFlags(rule))
                               && engine.test(rule.condition.value, ConditionFlags(rule), text))
    ensures g == Invalid <==> HasCondition(rule) && !engine.compiles(rule.condition.value, ConditionFlags(rule))
  {
    if !HasCondition(rule) then Open
    else if !engine.compiles(rule.condition.value, ConditionFlags(rule)) then Invalid
    else if engine.test(rule.condition.value, ConditionFlags(rule), text) then Open
    else Closed
  }

  /** A missing or whitespace-only condition always lets the rule go on to
      content matching, whatever the text and whatever the engine answers. */
  lemma BlankConditionOpens(rule: Rule, text: string, engine: RegexEngine)
    requires rule.condition.None? || forall k :: 0 <= k < |rule.condition.value| ==> IsJsWhitespace(rule.condition.value[k])
    ensures ConditionGate(rule, text, engine) == Open
  {
    if rule.condition.Some? {
      TrimEmptyIffAllWhitespace(rule.condition.value);
    }
  }
}
