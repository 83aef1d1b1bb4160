/** The rule-based detector: every rule's matches, then overlap resolution. Rules are arbitrary
    sources of spans. */
module Detector {
  import opened Wrappers
  import opened Overlap

  type Rule = string -> seq<Span>

  function RawSpans(rules: seq<Rule>, text: string): seq<Span> {
    if |rules| == 0 then [] else rules[0](text) + RawSpans(rules[1..], text)
  }

  method Detect(rules: seq<Rule>, text: string) returns (r: Result<seq<Span>, InvalidOffsets>)
    ensures r == Resolution(RawSpans(rules, text))
  {
    var raw: seq<Span> := [];
    for i := 0 to |rules|
      invariant raw + RawSpans(rules[i..], text) == RawSpans(rules, text)
    {
      assert rules[i..][1..] == rules[i + 1..];
      assert raw + (rules[i](text) + RawSpans(rules[i + 1..], text)) == raw + rules[i](text) + RawSpans(rules[i + 1..], text);
      raw := raw + rules[i](text);
    }
    assert raw + [] == raw;
    r := ResolveOverlaps(raw);
  }

  lemma {:induction false} RawSpanOfRule(rules: seq<Rule>, text: string, s: Span)
    ensures s in RawSpans(rules, text) <==> exists i :: 0 <= i < |rules| && s in rules[i](text)
  {
    if |rules| > 0 {
      var tail := rules[1..];
      RawSpanOfRule(tail, text, s);
      if s in RawSpans(tail, text) {
        var i :| 0 <= i < |tail| && s in tail[i](text);
        assert s in rules[i + 1](text);
      }
      if exists i :: 0 <= i < |rules| && s in rules[i](text) {
        var i :| 0 <= i < |rules| && s in rules[i](text);
        if i > 0 { assert s in tail[i - 1](text); }
      }
    }
  }

  /** Every rule of one list finds, on this text, only what some rule of the other finds. */
  ghost predicate Covers(rules: seq<Rule>, others: seq<Rule>, text: string) {
    forall s, i :: 0 <= i < |rules| && s in rules[i](text) ==> s in RawSpans(others, text)
  }

  lemma CoveredSpans(a: seq<Rule>, b: seq<Rule>, text: string)
    requires Covers(a, b, text)
    ensures CoreSet(RawSpans(a, text)) <= CoreSet(RawSpans(b, text))
  {
    forall s | s in RawSpans(a, text) ensures s in RawSpans(b, text) { RawSpanOfRule(a, text, s); }
  }

  /** The order the rules are registered in changes no detection but, possibly, its confidence. */
  lemma RuleOrderIrrelevant(a: seq<Rule>, b: seq<Rule>, text: string)
    requires Covers(a, b, text) && Covers(b, a, text)
    ensures var r, q := Resolution(RawSpans(a, text)), Resolution(RawSpans(b, text));
            && (r.Ok? <==> q.Ok?)
            && (r.Ok? ==> Cores(r.value) == Cores(q.value))
  {
    CoveredSpans(a, b, text);
    CoveredSpans(b, a, text);
    OrderIrrelevant(RawSpans(a, text), RawSpans(b, text));
  }
}
