/** The outcome of the decision phase, and the payload renderer every transforming treatment shares:
    a cursor walk over resolved spans that appends one transformation per span. */
module Disclosure {
  import opened Wrappers
  import opened Overlap
  import opened Pseudonyms
  import opened Vault
  import opened Seqs

  datatype Action = Preserve | Pseudonymize | Generalize | Remove | BlockRequest | TaskDependent

  datatype Transformation =
    Transformation(category: string, original: string, transformed: Option<string>, action: Action)

  datatype Status = Allowed | Blocked

  datatype DisclosureResult =
    DisclosureResult(externalPayload: string, transformations: seq<Transformation>, status: Status)

  datatype DisclosureDecision = DisclosureDecision(spans: seq<Span>, result: DisclosureResult)

  /** `transformed or ""`. */
  function DisclosedPart(t: Transformation): string {
    match t.transformed case Some(x) => x case None => ""
  }

  /** A pseudonymizing transformation that carries its pseudonym. */
  predicate IsReversible(t: Transformation) { t.action == Pseudonymize && t.transformed.Some? }

  /** `span_matches_text`, for every span. */
  predicate SpansMatch(spans: seq<Span>, text: string) {
    forall i :: 0 <= i < |spans| ==>
      IsValid(spans[i]) && spans[i].end <= |text| && Slice(text, spans[i].start, spans[i].end) == spans[i].value
  }

  /** The payload: what lies between the spans, and each span's disclosed part. */
  function Rendered(text: string, ordered: seq<Span>, ts: seq<Transformation>, cursor: nat): string
    requires |ordered| == |ts| && AllValid(ordered)
    decreases |ordered|
  {
    if |ordered| == 0 then Slice(text, cursor, |text|)
    else Slice(text, cursor, ordered[0].start) + (if ts[0].transformed.Some? then ts[0].transformed.value else "")
         + Rendered(text, ordered[1..], ts[1..], ordered[0].end)
  }

  /** One transformation per span, in the same order, about that span. */
  predicate Matching(ordered: seq<Span>, ts: seq<Transformation>) {
    |ordered| == |ts| &&
    forall i :: 0 <= i < |ts| ==> ts[i].category == ordered[i].category && ts[i].original == ordered[i].value
  }

  /** Every pseudonym among the transformations leads back to its original in the vault. */
  ghost predicate Backed(ts: seq<Transformation>, reverse: Reverse, p: Partition) {
    forall i :: 0 <= i < |ts| && ts[i].action == Pseudonymize ==>
      ts[i].transformed.Some? && Lookup(reverse, p, ts[i].transformed.value) == Some(ts[i].original)
  }

  /** Every pseudonym the vault holds is one whole token of the public pattern. */
  ghost predicate Shaped(reverse: Reverse) {
    forall p, t {:trigger Lookup(reverse, p, t)} :: Lookup(reverse, p, t).Some? ==> IsPseudonym(t)
  }

  // ----- the rendering loop -----

  function LastEnd(ordered: seq<Span>): nat
    requires AllValid(ordered)
  {
    if |ordered| == 0 then 0 else ordered[|ordered| - 1].end
  }

  /** The payload parts up to the end of the last span. */
  function RenderedSoFar(text: string, ordered: seq<Span>, ts: seq<Transformation>): string
    requires |ordered| == |ts| && AllValid(ordered)
    decreases |ordered|
  {
    if |ordered| == 0 then ""
    else
      var n := |ordered| - 1;
      RenderedSoFar(text, ordered[..n], ts[..n]) + Slice(text, LastEnd(ordered[..n]), ordered[n].start) + DisclosedPart(ts[n])
  }

  lemma {:induction false} RenderedSplit(text: string, ordered: seq<Span>, ts: seq<Transformation>, k: nat)
    requires |ordered| == |ts| && AllValid(ordered) && k <= |ordered|
    ensures Rendered(text, ordered, ts, 0)
         == RenderedSoFar(text, ordered[..k], ts[..k]) + Rendered(text, ordered[k..], ts[k..], LastEnd(ordered[..k]))
    decreases k
  {
    hide Slice, Rendered;
    if k == 0 {
      assert ordered[0..] == ordered && ts[0..] == ts;
    } else {
      RenderedSplit(text, ordered, ts, k - 1);
      var o, t := ordered[..k], ts[..k];
      assert o[..k - 1] == ordered[..k - 1] && t[..k - 1] == ts[..k - 1];
      var front, rest := RenderedSoFar(text, ordered[..k - 1], ts[..k - 1]), Rendered(text, ordered[k..], ts[k..], ordered[k - 1].end);
      var gap, part := Slice(text, LastEnd(ordered[..k - 1]), ordered[k - 1].start), DisclosedPart(ts[k - 1]);
      assert RenderedSoFar(text, o, t) == front + gap + part;
      RenderedStep(text, ordered[k - 1..], ts[k - 1..], LastEnd(ordered[..k - 1]));
      assert ordered[k - 1..][1..] == ordered[k..] && ts[k - 1..][1..] == ts[k..];
      Seqs.Shift(front, gap, part, rest);
    }
  }

  lemma RenderedStep(text: string, ordered: seq<Span>, ts: seq<Transformation>, cursor: nat)
    requires |ordered| == |ts| && AllValid(ordered) && |ordered| > 0
    ensures Rendered(text, ordered, ts, cursor)
         == Slice(text, cursor, ordered[0].start) + DisclosedPart(ts[0]) + Rendered(text, ordered[1..], ts[1..], ordered[0].end)
  {
  }

  /** The transformation of one span under its decided action. */
  predicate IsApplied(t: Transformation, s: Span, a: Action, generalized: string) {
    && t.category == s.category && t.original == s.value && t.action == a
    && match a
       case Remove => t.transformed == None
       case Generalize => t.transformed == Some(generalized)
       case Pseudonymize => t.transformed.Some?
       case _ => t.transformed == Some(s.value)
  }

  function GeneralizedAt(generalized: map<nat, string>, i: nat): string {
    if i in generalized then generalized[i] else ""
  }

  method Transform(span: Span, action: Action, generalized: string, vault: InMemoryVault, p: Partition)
      returns (t: Transformation)
    requires vault.Valid()
    modifies vault
    ensures vault.Valid() && Keeps(old(vault.reverse), vault.reverse)
    ensures IsApplied(t, span, action, generalized)
    ensures action == Pseudonymize ==> Lookup(vault.reverse, p, t.transformed.value) == Some(span.value)
    ensures Shaped(old(vault.reverse)) && LawfulCategory(span.category, vault.tokenFactory) ==> Shaped(vault.reverse)
  {
    var transformed: Option<string>;
    match action {
      case Remove => transformed := None;
      case Generalize => transformed := Some(generalized);
      case Pseudonymize =>
        var pseudonym := vault.Pseudonymize(p, span.category, span.value);
        StaysShaped(old(vault.reverse), vault.reverse, p, span, pseudonym, vault.tokenFactory);
        transformed := Some(pseudonym);
      case _ => transformed := Some(span.value);
    }
    t := Transformation(span.category, span.value, transformed, action);
  }

  /** `_allowed_result`: every span laid out with its decided action. A generalized value is resolved
      beforehand; pseudonyms come from the vault. */
  method AllowedResult(text: string, ordered: seq<Span>, decisions: seq<Action>, generalized: map<nat, string>,
                       vault: InMemoryVault, p: Partition)
      returns (result: DisclosureResult)
    requires vault.Valid() && AllValid(ordered) && |ordered| == |decisions|
    requires forall i :: 0 <= i < |decisions| && decisions[i] == Generalize ==> i in generalized
    modifies vault
    ensures vault.Valid() && Keeps(old(vault.reverse), vault.reverse)
    ensures result.status == Allowed && Matching(ordered, result.transformations)
    ensures result.externalPayload == Rendered(text, ordered, result.transformations, 0)
    ensures Backed(result.transformations, vault.reverse, p)
    ensures forall i :: 0 <= i < |ordered| ==>
              IsApplied(result.transformations[i], ordered[i], decisions[i], GeneralizedAt(generalized, i))
    ensures forall i :: 0 <= i < |ordered| && decisions[i] == Generalize ==>
              result.transformations[i].transformed == Some(generalized[i])
    ensures Shaped(old(vault.reverse)) && Lawful(ordered, vault.tokenFactory) ==> Shaped(vault.reverse)
  {
    var payload: string := "";
    var transformations: seq<Transformation> := [];
    var cursor: nat := 0;
    for i := 0 to |ordered|
      invariant |transformations| == i && vault.Valid()
      invariant Keeps(old(vault.reverse), vault.reverse)
      invariant RenderedThrough(text, ordered, transformations, payload, cursor)
      invariant AppliedThrough(ordered, decisions, generalized, transformations, vault.reverse, p)
      invariant Shaped(old(vault.reverse)) && Lawful(ordered, vault.tokenFactory) ==> Shaped(vault.reverse)
    {
      ghost var before := vault.reverse;
      var t := Transform(ordered[i], decisions[i], GeneralizedAt(generalized, i), vault, p);
      KeepsTransitive(old(vault.reverse), before, vault.reverse);
      AppliedStep(ordered, decisions, generalized, transformations, t, before, vault.reverse, p);
      RenderedSoFarStep(text, ordered, transformations, t);
      payload := payload + Slice(text, cursor, ordered[i].start) + DisclosedPart(t);
      transformations := transformations + [t];
      cursor := ordered[i].end;
    }
    payload := payload + Slice(text, cursor, |text|);
    RenderedWhole(text, ordered, transformations);
    result := DisclosureResult(payload, transformations, Allowed);
  }

  predicate RenderedThrough(text: string, ordered: seq<Span>, ts: seq<Transformation>, payload: string, cursor: nat) {
    && AllValid(ordered) && |ts| <= |ordered|
    && payload == RenderedSoFar(text, ordered[..|ts|], ts) && cursor == LastEnd(ordered[..|ts|])
  }

  ghost predicate AppliedThrough(ordered: seq<Span>, decisions: seq<Action>, generalized: map<nat, string>,
                                 ts: seq<Transformation>, reverse: Reverse, p: Partition) {
    && |ts| <= |ordered| == |decisions| && Backed(ts, reverse, p)
    && forall k :: 0 <= k < |ts| ==> IsApplied(ts[k], ordered[k], decisions[k], GeneralizedAt(generalized, k))
  }

  lemma AppliedStep(ordered: seq<Span>, decisions: seq<Action>, generalized: map<nat, string>,
                    ts: seq<Transformation>, t: Transformation, before: Reverse, after: Reverse, p: Partition)
    requires |ts| < |ordered| && AppliedThrough(ordered, decisions, generalized, ts, before, p) && Keeps(before, after)
    requires IsApplied(t, ordered[|ts|], decisions[|ts|], GeneralizedAt(generalized, |ts|))
    requires t.action == Pseudonymize ==> Lookup(after, p, t.transformed.value) == Some(t.original)
    ensures AppliedThrough(ordered, decisions, generalized, ts + [t], after, p)
  {
    BackedLater(ts, before, after, p);
  }

  lemma RenderedWhole(text: string, ordered: seq<Span>, ts: seq<Transformation>)
    requires AllValid(ordered) && |ts| == |ordered|
    ensures Rendered(text, ordered, ts, 0) == RenderedSoFar(text, ordered[..|ts|], ts) + Slice(text, LastEnd(ordered[..|ts|]), |text|)
  {
    var n := |ordered|;
    RenderedSplit(text, ordered, ts, n);
    assert ordered[..n] == ordered && ts[..n] == ts && ordered[n..] == [] && ts[n..] == [];
  }

  lemma RenderedSoFarStep(text: string, ordered: seq<Span>, ts: seq<Transformation>, t: Transformation)
    requires AllValid(ordered) && |ts| < |ordered|
    ensures var i := |ts|;
            && RenderedSoFar(text, ordered[..i + 1], ts + [t])
               == RenderedSoFar(text, ordered[..i], ts) + Slice(text, LastEnd(ordered[..i]), ordered[i].start) + DisclosedPart(t)
            && LastEnd(ordered[..i + 1]) == ordered[i].end
  {
    var i := |ts|;
    assert ordered[..i + 1][..i] == ordered[..i] && (ts + [t])[..i] == ts;
  }

  ghost predicate LawfulCategory(category: string, tokenFactory: nat -> string) {
    IsCategory(category) && forall k :: IsToken(tokenFactory(k))
  }

  /** Identifier categories and a hex token factory, as deployed. */
  ghost predicate Lawful(ordered: seq<Span>, tokenFactory: nat -> string) {
    forall i :: 0 <= i < |ordered| ==> LawfulCategory(ordered[i].category, tokenFactory)
  }

  lemma StaysShaped(before: Reverse, after: Reverse, p: Partition, s: Span, t: string, tokenFactory: nat -> string)
    requires after == before || (after == Bind(before, p, t, s.value) && IsMade(s.category, tokenFactory, t))
    ensures Shaped(before) && LawfulCategory(s.category, tokenFactory) ==> Shaped(after)
  {
    if Shaped(before) && LawfulCategory(s.category, tokenFactory) && after != before {
      var k: nat, n: nat :| t == MakePseudonym(s.category, n, tokenFactory(k));
      MadePseudonymIsOne(s.category, n, tokenFactory(k));
      forall q, u {:trigger Lookup(after, q, u)} | Lookup(after, q, u).Some? ensures IsPseudonym(u) {
        if u != t { assert Lookup(before, q, u).Some?; }
      }
    }
  }

  lemma KeepsTransitive(a: Reverse, b: Reverse, c: Reverse)
    requires Keeps(a, b) && Keeps(b, c)
    ensures Keeps(a, c)
  {
  }

  lemma BackedLater(ts: seq<Transformation>, reverse: Reverse, later: Reverse, p: Partition)
    requires Backed(ts, reverse, p) && Keeps(reverse, later)
    ensures Backed(ts, later, p)
  {
  }
}
