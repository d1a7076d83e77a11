/** The spans a rule contributes for the matches of its content pattern: the
    `while (exec)` loop of `updateDecorations` that fills the whole-match list
    `decorations` and the per-group lists `groupDecorations`. Spans are kept
    as character offsets into the document text. */
module Spans {
  import opened JsString
  import opened Rules
  import opened Patterns

  /** A decoration: the range `[start, end)` and its hover message. */
  datatype Span = Span(start: nat, end: nat, tooltip: string)

  /** `match[gi + 1]`: the text captured by group `gi + 1`, `None` when the
      group did not take part or the pattern has fewer groups. */
  function Capture(m: Match, gi: nat): Option<string> {
    if gi < |m.captures| then m.captures[gi] else None
  }

  /** `match.length > 1` and the rule configures at least one group colour:
      such a match is split into group spans, every other match gives one
      whole-match span. */
  predicate Grouped(rule: Rule, m: Match) {
    |m.captures| > 0 && |GroupColors(rule)| > 0
  }

  /** The whole-match span of a match. */
  function WholeSpan(i: nat, rule: Rule, m: Match): Span {
    Span(m.index, m.index + |m.text|, WholeTooltip(i, rule))
  }

  /** The span of group `gi + 1` in a match: present only when the capture is
      a non-empty string found in the matched text; it covers the first
      occurrence of the captured text there. */
  function GroupSpan(i: nat, rule: Rule, m: Match, gi: nat): (r: Option<Span>)
    ensures r.Some? <==> Truthy(Capture(m, gi)) && IndexOf(m.text, Capture(m, gi).value) >= 0
  {
    var captured := Capture(m, gi);
    if !Truthy(captured) then None
    else
      var offsetInMatch := IndexOf(m.text, captured.value);
      if offsetInMatch < 0 then None
      else
        var start := m.index + offsetInMatch;
        Some(Span(start, start + |captured.value|, GroupTooltip(i, gi, rule)))
  }

  /** The whole-match list after the matches `ms`, in match order. */
  function WholeSpans(i: nat, rule: Rule, ms: seq<Match>): (r: seq<Span>)
    ensures |r| <= |ms|
    ensures forall k :: 0 <= k < |r| ==> r[k].tooltip == WholeTooltip(i, rule)
  {
    if ms == [] then []
    else
      var m := ms[|ms| - 1];
      WholeSpans(i, rule, ms[..|ms| - 1]) + (if Grouped(rule, m) then [] else [WholeSpan(i, rule, m)])
  }

  /** The list of group `gi + 1` after the matches `ms`, in match order. */
  function GroupList(i: nat, rule: Rule, ms: seq<Match>, gi: nat): (r: seq<Span>)
    ensures |r| <= |ms|
    ensures forall k :: 0 <= k < |r| ==> r[k].tooltip == GroupTooltip(i, gi, rule)
  {
    if ms == [] then []
    else
      var m := ms[|ms| - 1];
      var s := GroupSpan(i, rule, m, gi);
      GroupList(i, rule, ms[..|ms| - 1], gi) + (if Grouped(rule, m) && s.Some? then [s.value] else [])
  }

  /** The group lists, one per configured group colour. */
  function GroupLists(i: nat, rule: Rule, ms: seq<Match>): (r: seq<seq<Span>>)
    ensures |r| == |GroupColors(rule)|
  {
    seq(|GroupColors(rule)|, gi requires 0 <= gi < |GroupColors(rule)| => GroupList(i, rule, ms, gi))
  }

  /** The spans an optional span stands for. */
  function SpanList(o: Option<Span>): seq<Span> {
    if o.Some? then [o.value] else []
  }

  /** The match loop: walks the matches in order, pushing one whole-match span
      for every match that is not split into groups and, for a split match,
      one span into each group's list whose capture is non-empty and found. */
  method CollectSpans(i: nat, rule: Rule, ms: seq<Match>) returns (decorations: seq<Span>, groupDecorations: seq<seq<Span>>)
    ensures decorations == WholeSpans(i, rule, ms)
    ensures groupDecorations == GroupLists(i, rule, ms)
  {
    var n := |GroupColors(rule)|;
    decorations := [];
    groupDecorations := seq(n, _ => []);
    var k := 0;
    while k < |ms|
      invariant 0 <= k <= |ms|
      invariant decorations == WholeSpans(i, rule, ms[..k])
      invariant |groupDecorations| == n
      invariant forall gi :: 0 <= gi < n ==> groupDecorations[gi] == GroupList(i, rule, ms[..k], gi)
    {
      var m := ms[k];
      assert ms[..k + 1][..k] == ms[..k] && ms[..k + 1][k] == m;
      if |m.captures| > 0 && n > 0 {
        groupDecorations := PushGroupSpans(i, rule, m, groupDecorations);
      } else {
        decorations := decorations + [Span(m.index, m.index + |m.text|, WholeTooltip(i, rule))];
      }
      k := k + 1;
    }
    assert ms[..|ms|] == ms;
  }

  /** The `for (gi ...)` loop over the group colours for one split match. */
  method PushGroupSpans(i: nat, rule: Rule, m: Match, lists: seq<seq<Span>>) returns (groupDecorations: seq<seq<Span>>)
    requires |lists| == |GroupColors(rule)|
    ensures |groupDecorations| == |lists|
    ensures forall g :: 0 <= g < |lists| ==> groupDecorations[g] == lists[g] + SpanList(GroupSpan(i, rule, m, g))
  {
    var n := |GroupColors(rule)|;
    groupDecorations := lists;
    var gi := 0;
    while gi < n
      invariant 0 <= gi <= n && |groupDecorations| == n
      invariant forall g :: 0 <= g < gi ==> groupDecorations[g] == lists[g] + SpanList(GroupSpan(i, rule, m, g))
      invariant forall g :: gi <= g < n ==> groupDecorations[g] == lists[g]
    {
      var captured := if gi < |m.captures| then m.captures[gi] else None;
      if captured.Some? && captured.value != "" {
        var offsetInMatch := IndexOf(m.text, captured.value);
        if offsetInMatch >= 0 {
          var startIndex := m.index + offsetInMatch;
          var endIndex := startIndex + |captured.value|;
          var hover := GroupTooltip(i, gi, rule);
          assert GroupSpan(i, rule, m, gi) == Some(Span(startIndex, endIndex, hover));
          groupDecorations := groupDecorations[gi := groupDecorations[gi] + [Span(startIndex, endIndex, hover)]];
        } else {
          assert GroupSpan(i, rule, m, gi) == None;
        }
      } else {
        assert GroupSpan(i, rule, m, gi) == None;
      }
      gi := gi + 1;
    }
  }

  // ---------------------------------------------------------------------
  // What the spans are

  /** The match `m` lies in the document where the engine says it does. */
  predicate MatchInText(text: string, m: Match) {
    m.index + |m.text| <= |text| && text[m.index..m.index + |m.text|] == m.text
  }

  /** A group span lies inside its match and covers the first occurrence of
      the captured text in the matched text, with the group tooltip. */
  lemma GroupSpanInMatch(i: nat, rule: Rule, m: Match, gi: nat)
    requires GroupSpan(i, rule, m, gi).Some?
    ensures var s := GroupSpan(i, rule, m, gi).value;
            var cap := Capture(m, gi).value;
            && m.index <= s.start < s.end <= m.index + |m.text|
            && s.end - s.start == |cap|
            && m.text[s.start - m.index..s.end - m.index] == cap
            && (forall p :: 0 <= p < s.start - m.index ==> !OccursAt(m.text, cap, p))
            && s.tooltip == GroupTooltip(i, gi, rule)
  {
  }

  /** With no group colours configured, every match gives exactly one span,
      `[match.index, match.index + match[0].length)`, in match order. */
  lemma {:induction false} WholeSpansUngrouped(i: nat, rule: Rule, ms: seq<Match>)
    requires |GroupColors(rule)| == 0
    ensures |WholeSpans(i, rule, ms)| == |ms|
    ensures forall k :: 0 <= k < |ms| ==> WholeSpans(i, rule, ms)[k] == WholeSpan(i, rule, ms[k])
  {
    if ms != [] {
      WholeSpansUngrouped(i, rule, ms[..|ms| - 1]);
    }
  }

  /** Every whole-match span comes from a match that is not split into groups,
      and there are never more spans than matches. */
  lemma {:induction false} WholeSpansFromMatches(i: nat, rule: Rule, ms: seq<Match>)
    ensures |WholeSpans(i, rule, ms)| <= |ms|
    ensures forall s :: s in WholeSpans(i, rule, ms) ==>
              exists k :: 0 <= k < |ms| && !Grouped(rule, ms[k]) && s == WholeSpan(i, rule, ms[k])
  {
    if ms != [] {
      var pre := ms[..|ms| - 1];
      WholeSpansFromMatches(i, rule, pre);
      forall s | s in WholeSpans(i, rule, ms)
        ensures exists k :: 0 <= k < |ms| && !Grouped(rule, ms[k]) && s == WholeSpan(i, rule, ms[k])
      {
        if s in WholeSpans(i, rule, pre) {
          var k :| 0 <= k < |pre| && !Grouped(rule, pre[k]) && s == WholeSpan(i, rule, pre[k]);
          assert ms[k] == pre[k];
        } else {
          assert !Grouped(rule, ms[|ms| - 1]) && s == WholeSpan(i, rule, ms[|ms| - 1]);
        }
      }
    }
  }

  /** Every span of group `gi + 1` comes from a split match that produced it,
      and there are never more spans than matches. */
  lemma {:induction false} GroupListFromMatches(i: nat, rule: Rule, ms: seq<Match>, gi: nat)
    ensures |GroupList(i, rule, ms, gi)| <= |ms|
    ensures forall s :: s in GroupList(i, rule, ms, gi) ==>
              exists k :: 0 <= k < |ms| && Grouped(rule, ms[k]) && GroupSpan(i, rule, ms[k], gi) == Some(s)
  {
    if ms != [] {
      var pre := ms[..|ms| - 1];
      GroupListFromMatches(i, rule, pre, gi);
      forall s | s in GroupList(i, rule, ms, gi)
        ensures exists k :: 0 <= k < |ms| && Grouped(rule, ms[k]) && GroupSpan(i, rule, ms[k], gi) == Some(s)
      {
        if s in GroupList(i, rule, pre, gi) {
          var k :| 0 <= k < |pre| && Grouped(rule, pre[k]) && GroupSpan(i, rule, pre[k], gi) == Some(s);
          assert ms[k] == pre[k];
        } else {
          assert Grouped(rule, ms[|ms| - 1]) && GroupSpan(i, rule, ms[|ms| - 1], gi) == Some(s);
        }
      }
    }
  }
  /** Every split match whose capture `gi` is non-empty and found in the
      matched text contributes its span to the group's list. */
  lemma {:induction false} GroupListComplete(i: nat, rule: Rule, ms: seq<Match>, gi: nat, k: nat)
    requires k < |ms| && Grouped(rule, ms[k]) && GroupSpan(i, rule, ms[k], gi).Some?
    ensures GroupSpan(i, rule, ms[k], gi).value in GroupList(i, rule, ms, gi)
  {
    var pre := ms[..|ms| - 1];
    if k < |ms| - 1 {
      assert pre[k] == ms[k];
      GroupListComplete(i, rule, pre, gi, k);
    }
  }

  /** A group's list follows `exec` order: the list for the matches `a`
      then `b` is the list for `a` followed by the list for `b`. */
  lemma {:induction false} GroupListConcat(i: nat, rule: Rule, a: seq<Match>, b: seq<Match>, gi: nat)
    ensures GroupList(i, rule, a + b, gi) == GroupList(i, rule, a, gi) + GroupList(i, rule, b, gi)
    decreases |b|
  {
    if b == [] {
      assert a + b == a;
    } else {
      assert (a + b)[..|a + b| - 1] == a + b[..|b| - 1];
      GroupListConcat(i, rule, a, b[..|b| - 1], gi);
    }
  }


  /** A group span of a match that lies in the document covers document text
      equal to the captured text (though, when that text occurs earlier in the
      match, not necessarily the group's own position). */
  lemma GroupSpanInText(i: nat, rule: Rule, m: Match, gi: nat, text: string)
    requires MatchInText(text, m)
    requires GroupSpan(i, rule, m, gi).Some?
    ensures var s := GroupSpan(i, rule, m, gi).value;
            s.end <= |text| && text[s.start..s.end] == Capture(m, gi).value
  {
    var cap := Capture(m, gi).value;
    var off := IndexOf(m.text, cap);
    OccurrenceInText(text, m, cap, off);
  }

  /** An occurrence inside a match that lies in the document is an occurrence
      in the document, shifted by the match's index. */
  lemma OccurrenceInText(text: string, m: Match, t: string, off: int)
    requires MatchInText(text, m) && OccursAt(m.text, t, off)
    ensures m.index + off + |t| <= |text| && text[m.index + off..m.index + off + |t|] == t
  {
    var a := m.index;
    forall p | 0 <= p < |t| ensures text[a + off..a + off + |t|][p] == t[p] {
      assert t[p] == m.text[off + p] == text[a..a + |m.text|][off + p];
    }
  }

  /** For `/(a)b(a)/` matching `aba`, group 2 captured the final `a`, yet its
      span is `[0, 1)`: the first `a` of the match. */
  lemma RepeatedCaptureTakesFirstOccurrence(i: nat, rule: Rule)
    requires |GroupColors(rule)| >= 2
    ensures GroupSpan(i, rule, Match(0, "aba", [Some("a"), Some("a")]), 1)
            == Some(Span(0, 1, GroupTooltip(i, 1, rule)))
  {
    var r := IndexOf("aba", "a");
    assert OccursAt("aba", "a", 0);
  }
}
