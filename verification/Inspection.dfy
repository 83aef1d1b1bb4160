/** The before/after inspection of a decision: the renderer's cursor walk re-derived from spans and
    transformations, checked at every step, with a whole-text fallback. */
module Inspection {
  import opened Wrappers
  import opened Overlap
  import opened Disclosure
  import opened Seqs

  /** One slice of the source text; untouched when it carries neither action nor category. */
  datatype Segment = Segment(action: Option<Action>, category: Option<string>, original: string, disclosed: string)

  datatype Reason = BlockedReason | AlignmentFailed

  datatype Inspection = Inspection(available: bool, unavailableReason: Option<Reason>, segments: seq<Segment>)

  function Untouched(text: string): Segment { Segment(None, None, text, text) }

  function SegmentOf(t: Transformation): Segment {
    Segment(Some(t.action), Some(t.category), t.original, DisclosedPart(t))
  }

  function OriginalOf(s: Segment): string { s.original }
  function DisclosedOf(s: Segment): string { s.disclosed }

  function Originals(segments: seq<Segment>): string { FlatMap(OriginalOf, segments) }
  function DisclosedText(segments: seq<Segment>): string { FlatMap(DisclosedOf, segments) }

  /** The requirements on one span at `cursor`. */
  predicate Aligns(text: string, s: Span, t: Transformation, cursor: nat)
    requires IsValid(s)
  {
    s.category == t.category && s.value == t.original && s.start >= cursor && Slice(text, s.start, s.end) == s.value
  }

  predicate AlignsFrom(text: string, ordered: seq<Span>, ts: seq<Transformation>, cursor: nat)
    requires |ordered| == |ts| && AllValid(ordered)
    decreases |ordered|
  {
    |ordered| == 0 || (Aligns(text, ordered[0], ts[0], cursor) && AlignsFrom(text, ordered[1..], ts[1..], ordered[0].end))
  }

  /** The segments of the walk. */
  function Walk(text: string, ordered: seq<Span>, ts: seq<Transformation>, cursor: nat): seq<Segment>
    requires |ordered| == |ts| && AllValid(ordered)
    decreases |ordered|
  {
    if |ordered| == 0 then (if cursor < |text| then [Untouched(Slice(text, cursor, |text|))] else [])
    else GapAndSegment(text, ordered[0], ts[0], cursor) + Walk(text, ordered[1..], ts[1..], ordered[0].end)
  }

  function GapAndSegment(text: string, s: Span, t: Transformation, cursor: nat): seq<Segment>
    requires IsValid(s)
  {
    (if s.start > cursor then [Untouched(Slice(text, cursor, s.start))] else []) + [SegmentOf(t)]
  }

  /** `_structured_alignment` as a value. */
  function Alignment(text: string, spans: seq<Span>, ts: seq<Transformation>, payload: string): Option<seq<Segment>> {
    match FirstInvalid(spans)
    case Some(_) => None
    case None =>
      ResolutionResolves(spans);
      var ordered := Resolution(spans).value;
      if |ordered| != |ts| || !AlignsFrom(text, ordered, ts, 0) then None
      else
        var segments := Walk(text, ordered, ts, 0);
        if Originals(segments) != text || DisclosedText(segments) != payload then None else Some(segments)
  }

  method StructuredAlignment(text: string, spans: seq<Span>, ts: seq<Transformation>, payload: string)
      returns (r: Option<seq<Segment>>)
    ensures r == Alignment(text, spans, ts, payload)
  {
    hide Originals, DisclosedText, Slice, Sorted, Greedy, IsResolved;
    var resolved := ResolveOverlaps(spans);
    if resolved.Err? { return None; }
    ResolutionResolves(spans);
    var ordered := resolved.value;
    if |ordered| != |ts| { return None; }
    var segments: seq<Segment> := [];
    var cursor: nat := 0;
    for i := 0 to |ordered|
      invariant AlignsFrom(text, ordered, ts, 0) == AlignsFrom(text, ordered[i..], ts[i..], cursor)
      invariant Walk(text, ordered, ts, 0) == segments + Walk(text, ordered[i..], ts[i..], cursor)
    {
      var span, t := ordered[i], ts[i];
      assert ordered[i..][1..] == ordered[i + 1..] && ts[i..][1..] == ts[i + 1..];
      if span.category != t.category { return None; }
      if span.value != t.original { return None; }
      if span.start < cursor { return None; }
      if Slice(text, span.start, span.end) != span.value { return None; }
      var before := segments;
      if span.start > cursor { segments := segments + [Untouched(Slice(text, cursor, span.start))]; }
      segments := segments + [SegmentOf(t)];
      WalkStep(text, ordered, ts, i, cursor, before);
      assert segments == before + GapAndSegment(text, span, t, cursor);
      cursor := span.end;
    }
    if cursor < |text| { segments := segments + [Untouched(Slice(text, cursor, |text|))]; }
    assert Walk(text, ordered, ts, 0) == segments;
    if Originals(segments) != text || DisclosedText(segments) != payload { return None; }
    r := Some(segments);
  }

  lemma WalkStep(text: string, ordered: seq<Span>, ts: seq<Transformation>, i: nat, cursor: nat, before: seq<Segment>)
    requires |ordered| == |ts| && AllValid(ordered) && i < |ordered|
    ensures before + Walk(text, ordered[i..], ts[i..], cursor)
         == before + GapAndSegment(text, ordered[i], ts[i], cursor) + Walk(text, ordered[i + 1..], ts[i + 1..], ordered[i].end)
  {
    assert ordered[i..][1..] == ordered[i + 1..] && ts[i..][1..] == ts[i + 1..];
  }

  const BLOCKED := Inspection(false, Some(BlockedReason), [])
  const ALIGNMENT_FAILED := Inspection(false, Some(AlignmentFailed), [])

  /** `build_inspection`. */
  function BuildInspection(text: string, decision: DisclosureDecision): Inspection {
    var result := decision.result;
    if result.status != Allowed then BLOCKED
    else
      match Alignment(text, decision.spans, result.transformations, result.externalPayload)
      case Some(segments) => Inspection(true, None, segments)
      case None =>
        if result.externalPayload == text
        then Inspection(true, None, if text == "" then [] else [Untouched(text)])
        else ALIGNMENT_FAILED
  }

  // ----- the walk reads the text and writes the payload -----

  lemma SliceJoin(text: string, a: nat, b: nat)
    requires a <= b
    ensures Slice(text, a, b) + Slice(text, b, |text|) == Slice(text, a, |text|)
  {
  }

  lemma ThreeSlices(text: string, a: nat, b: nat, c: nat)
    requires a <= b <= c
    ensures Slice(text, a, b) + Slice(text, b, c) + Slice(text, c, |text|) == Slice(text, a, |text|)
  {
    hide Slice;
    SliceJoin(text, a, b);
    SliceJoin(text, b, c);
    Shift(Slice(text, a, b), Slice(text, b, c), Slice(text, c, |text|), "");
    assert Slice(text, a, b) + Slice(text, b, c) + Slice(text, c, |text|)
        == Slice(text, a, b) + (Slice(text, b, c) + Slice(text, c, |text|));
  }

  lemma OneSegment(s: Segment)
    ensures Originals([s]) == s.original && DisclosedText([s]) == s.disclosed
  {
    FlatMapOne(OriginalOf, s);
    FlatMapOne(DisclosedOf, s);
  }

  lemma GapTexts(text: string, s: Span, t: Transformation, cursor: nat)
    requires IsValid(s) && s.start >= cursor
    ensures Originals(GapAndSegment(text, s, t, cursor)) == Slice(text, cursor, s.start) + t.original
    ensures DisclosedText(GapAndSegment(text, s, t, cursor)) == Slice(text, cursor, s.start) + DisclosedPart(t)
  {
    var gap := Untouched(Slice(text, cursor, s.start));
    OneSegment(SegmentOf(t));
    if s.start > cursor {
      OneSegment(gap);
      FlatMapAppend(OriginalOf, [gap], [SegmentOf(t)]);
      FlatMapAppend(DisclosedOf, [gap], [SegmentOf(t)]);
    } else {
      assert [] + [SegmentOf(t)] == [SegmentOf(t)];
    }
  }

  /** An aligned walk re-reads exactly the text after `cursor`, clamped slices included: the recheck
      of the original side cannot fail. */
  lemma {:induction false} WalkReadsText(text: string, ordered: seq<Span>, ts: seq<Transformation>, cursor: nat)
    requires |ordered| == |ts| && AllValid(ordered) && AlignsFrom(text, ordered, ts, cursor)
    ensures Originals(Walk(text, ordered, ts, cursor)) == Slice(text, cursor, |text|)
    decreases |ordered|
  {
    if |ordered| == 0 {
      if cursor < |text| { OneSegment(Untouched(Slice(text, cursor, |text|))); }
    } else {
      var s, t := ordered[0], ts[0];
      var head, tail := GapAndSegment(text, s, t, cursor), Walk(text, ordered[1..], ts[1..], s.end);
      WalkReadsText(text, ordered[1..], ts[1..], s.end);
      FlatMapAppend(OriginalOf, head, tail);
      GapTexts(text, s, t, cursor);
      ThreeSlices(text, cursor, s.start, s.end);
      assert Originals(Walk(text, ordered, ts, cursor)) == Slice(text, cursor, s.start) + t.original + Slice(text, s.end, |text|);
    }
  }

  /** An aligned walk discloses exactly what the renderer writes. */
  lemma {:induction false} WalkWritesPayload(text: string, ordered: seq<Span>, ts: seq<Transformation>, cursor: nat)
    requires |ordered| == |ts| && AllValid(ordered) && AlignsFrom(text, ordered, ts, cursor)
    ensures DisclosedText(Walk(text, ordered, ts, cursor)) == Rendered(text, ordered, ts, cursor)
    decreases |ordered|
  {
    if |ordered| == 0 {
      if cursor < |text| { OneSegment(Untouched(Slice(text, cursor, |text|))); }
    } else {
      var s, t := ordered[0], ts[0];
      WalkWritesPayload(text, ordered[1..], ts[1..], s.end);
      FlatMapAppend(DisclosedOf, GapAndSegment(text, s, t, cursor), Walk(text, ordered[1..], ts[1..], s.end));
      GapTexts(text, s, t, cursor);
    }
  }

  // ----- soundness and completeness -----

  predicate TellsTheTruth(i: Inspection, text: string, result: DisclosureResult) {
    match result.status
    case Blocked => i == Inspection(false, Some(BlockedReason), [])
    case Allowed =>
      if i.available then
        i.unavailableReason == None && Originals(i.segments) == text && DisclosedText(i.segments) == result.externalPayload
      else i == Inspection(false, Some(AlignmentFailed), []) && result.externalPayload != text
  }

  /** Whatever the decision, an available inspection reads as the text and discloses the payload,
      fallback included, and an unavailable one shows nothing and gives the reason. */
  lemma InspectionIsTruthful(text: string, decision: DisclosureDecision)
    ensures TellsTheTruth(BuildInspection(text, decision), text, decision.result)
  {
    OneSegment(Untouched(text));
  }

  /** The original side of the final recheck never decides: only the payload does. */
  lemma AlignmentDependsOnPayload(text: string, spans: seq<Span>, ordered: seq<Span>, ts: seq<Transformation>,
                                  payload: string)
    requires Resolution(spans) == Ok(ordered) && AllValid(ordered) && |ordered| == |ts|
    ensures Alignment(text, spans, ts, payload).Some?
       <==> AlignsFrom(text, ordered, ts, 0) && Rendered(text, ordered, ts, 0) == payload
  {
    if AlignsFrom(text, ordered, ts, 0) {
      WalkReadsText(text, ordered, ts, 0);
      WalkWritesPayload(text, ordered, ts, 0);
      assert Slice(text, 0, |text|) == text;
    }
  }

  /** An inspection is available exactly for an allowed decision whose payload is the rendering of
      aligned spans, or the text itself. */
  lemma AvailableExactly(text: string, decision: DisclosureDecision, ordered: seq<Span>)
    requires Resolution(decision.spans) == Ok(ordered) && AllValid(ordered)
    ensures var ts, payload := decision.result.transformations, decision.result.externalPayload;
            (BuildInspection(text, decision).available
             <==> && decision.result.status == Allowed
                  && (payload == text
                      || (|ordered| == |ts| && AlignsFrom(text, ordered, ts, 0) && Rendered(text, ordered, ts, 0) == payload)))
  {
    hide AlignsFrom, Rendered, Walk, Resolution;
    var ts, payload := decision.result.transformations, decision.result.externalPayload;
    if |ordered| == |ts| { AlignmentDependsOnPayload(text, decision.spans, ordered, ts, payload); }
  }

  // ----- what the segments show -----

  /** The segments that carry an action or a category. */
  function Marked(segments: seq<Segment>): seq<Segment> {
    if |segments| == 0 then []
    else if segments[0].action == None && segments[0].category == None then Marked(segments[1..])
    else [segments[0]] + Marked(segments[1..])
  }

  /** The others, which stand for text disclosed as it is. */
  predicate PassesAsIs(s: Segment) { s.action == None && s.category == None ==> s.original == s.disclosed }

  predicate ShowsEach(marked: seq<Segment>, ts: seq<Transformation>) {
    |marked| == |ts| && forall k :: 0 <= k < |ts| ==>
      marked[k] == Segment(Some(ts[k].action), Some(ts[k].category), ts[k].original,
                           match ts[k].transformed case Some(x) => x case None => "")
  }

  /** The walk marks one segment for each transformation, in order, with its action, its category, its
      original and what it disclosed, and passes everything else as it is. */
  lemma {:induction false} WalkShowsEach(text: string, ordered: seq<Span>, ts: seq<Transformation>, cursor: nat)
    requires |ordered| == |ts| && AllValid(ordered)
    ensures ShowsEach(Marked(Walk(text, ordered, ts, cursor)), ts)
    ensures AllPass(Walk(text, ordered, ts, cursor))
    decreases |ordered|
  {
    hide ShowsEach, AllPass, GapAndSegment, Marked;
    if |ordered| == 0 {
      LastShows(text, cursor);
    } else {
      WalkShowsEach(text, ordered[1..], ts[1..], ordered[0].end);
      StepShows(text, ordered[0], ts, cursor, Walk(text, ordered[1..], ts[1..], ordered[0].end));
    }
  }

  predicate AllPass(segments: seq<Segment>) { forall k :: 0 <= k < |segments| ==> PassesAsIs(segments[k]) }

  lemma LastShows(text: string, cursor: nat)
    ensures var last := Walk(text, [], [], cursor); ShowsEach(Marked(last), []) && AllPass(last)
  {
    hide Slice;
    if cursor < |text| { assert [Untouched(Slice(text, cursor, |text|))][1..] == []; }
  }

  lemma StepShows(text: string, s: Span, ts: seq<Transformation>, cursor: nat, rest: seq<Segment>)
    requires IsValid(s) && |ts| > 0 && ShowsEach(Marked(rest), ts[1..]) && AllPass(rest)
    ensures var segments := GapAndSegment(text, s, ts[0], cursor) + rest; ShowsEach(Marked(segments), ts) && AllPass(segments)
  {
    hide Slice;
    var one := SegmentOf(ts[0]);
    var segments := GapAndSegment(text, s, ts[0], cursor) + rest;
    assert Marked([one] + rest) == [one] + Marked(rest) by { assert ([one] + rest)[1..] == rest; }
    if s.start > cursor { assert segments[1..] == [one] + rest; } else { assert segments == [one] + rest; }
    assert Marked(segments) == [one] + Marked(rest);
  }

  lemma {:induction false} MatchingAligns(text: string, ordered: seq<Span>, ts: seq<Transformation>, cursor: nat)
    requires Matching(ordered, ts) && AllValid(ordered) && Separated(ordered) && SpansMatch(ordered, text)
    requires |ordered| > 0 ==> cursor <= ordered[0].start
    ensures AlignsFrom(text, ordered, ts, cursor)
    decreases |ordered|
  {
    if |ordered| > 0 { MatchingAligns(text, ordered[1..], ts[1..], ordered[0].end); }
  }

  /** For every decision a treatment renders over spans that match the text, the inspection is
      available and is exactly the renderer's walk. */
  lemma InspectionIsComplete(text: string, decision: DisclosureDecision, ordered: seq<Span>)
    requires decision.result.status == Allowed && SpansMatch(decision.spans, text)
    requires Resolution(decision.spans) == Ok(ordered) && AllValid(ordered)
    requires Matching(ordered, decision.result.transformations)
    requires decision.result.externalPayload == Rendered(text, ordered, decision.result.transformations, 0)
    ensures BuildInspection(text, decision) == Inspection(true, None, Walk(text, ordered, decision.result.transformations, 0))
    ensures ShowsEach(Marked(BuildInspection(text, decision).segments), decision.result.transformations)
    ensures AllPass(BuildInspection(text, decision).segments)
  {
    hide Marked, ShowsEach, AllPass;
    var ts := decision.result.transformations;
    WalkShowsEach(text, ordered, ts, 0);
    ResolutionResolves(decision.spans);
    KeptMatch(decision.spans, ordered, text);
    MatchingAligns(text, ordered, ts, 0);
    WalkReadsText(text, ordered, ts, 0);
    WalkWritesPayload(text, ordered, ts, 0);
    assert Slice(text, 0, |text|) == text;
  }

  lemma KeptMatch(spans: seq<Span>, kept: seq<Span>, text: string)
    requires SpansMatch(spans, text) && forall s :: s in kept ==> s in spans
    ensures SpansMatch(kept, text)
  {
    forall i | 0 <= i < |kept|
      ensures IsValid(kept[i]) && kept[i].end <= |text| && Slice(text, kept[i].start, kept[i].end) == kept[i].value
    {
      assert kept[i] in spans;
      var k :| 0 <= k < |spans| && spans[k] == kept[i];
    }
  }
}
