/** Export and restore end to end: the disclosed payload leaves with a sealed handle, and comes back
    with its pseudonyms turned into the originals they stand for. */
module Export {
  import opened Wrappers
  import opened Octets
  import opened Disclosure
  import opened Overlap
  import opened Pseudonyms
  import opened RestoreHandle
  import opened Seqs
  import opened Vault
  import Sealing

  /** The entries `export` seals: pseudonymizing transformations only, a later one winning. */
  function EntriesOf(ts: seq<Transformation>): Entries {
    if |ts| == 0 then map[]
    else
      var t, rest := ts[|ts| - 1], EntriesOf(ts[..|ts| - 1]);
      if IsReversible(t) then rest[t.transformed.value := t.original] else rest
  }

  datatype ExportError = Refused | Sealer(error: RestoreError)

  datatype DisclosureExport =
    DisclosureExport(externalPayload: string, restoreHandle: string, expiresAt: int, restorableCount: nat)

  /** `export`, from the decision on: refused unless allowed, and nothing sealed when refused. */
  method Export(decision: DisclosureDecision, sealer: RestoreHandleSealer, now: real, envelope: seq<Byte>)
      returns (r: Result<DisclosureExport, ExportError>)
    requires sealer.Valid() && |envelope| > Sealing.NONCE_BYTES && envelope !in sealer.sealed
    modifies sealer
    ensures sealer.Valid()
    ensures decision.result.status == Blocked ==> r == Err(Refused)
    ensures decision.result.status == Allowed && !sealer.configured ==> r == Err(Sealer(Unavailable))
    ensures r.Ok? <==> decision.result.status == Allowed && sealer.configured
    ensures r.Err? ==> sealer.sealed == old(sealer.sealed)
    ensures r.Ok? ==>
      var entries, iat := EntriesOf(decision.result.transformations), Truncate(now);
      && r.value.externalPayload == decision.result.externalPayload
      && r.value.restoreHandle == Sealing.Token(HANDLE_PREFIX, envelope)
      && r.value.expiresAt == iat + sealer.ttlSeconds && r.value.restorableCount == |entries|
      && sealer.sealed == old(sealer.sealed)[envelope := Sealing.Padded(HandlePayload(entries, iat, r.value.expiresAt))]
  {
    hide Sealing.Padded, HandlePayload, EntriesOf, Sealing.Token, Truncate, LastsFrom, Recorded;
    if decision.result.status != Allowed { return Err(Refused); }
    var entries := EntriesOf(decision.result.transformations);
    var issued := sealer.Issue(entries, now, envelope);
    match issued {
      case Err(e) => r := Err(Sealer(e));
      case Ok(h) => r := Ok(DisclosureExport(decision.result.externalPayload, h.handle, h.expiresAt, |entries|));
    }
  }

  /** `restore`: the handle's entries, put back in the text; nothing is restored when it does not open. */
  method RestoreText(text: string, handle: string, sealer: RestoreHandleSealer, now: real)
      returns (r: Result<Restoration, RestoreError>)
    requires sealer.Valid()
    ensures match OpenHandle(sealer.sealed, sealer.configured, handle, now)
            case Err(e) => r == Err(e)
            case Ok(m) => r.Ok? && IsRestoration(text, m, r.value)
  {
    hide OpenHandle, Restore, Resolvable;
    var mapping := sealer.Open(handle, now);
    match mapping {
      case Err(e) => r := Err(e);
      case Ok(m) =>
        var restored := RestorePseudonyms(text, m);
        r := Ok(restored);
    }
  }

  // ----- the exported payload as pieces -----

  function PieceOf(t: Transformation): Piece {
    if IsReversible(t) then Tok(t.transformed.value) else Lit(DisclosedPart(t))
  }

  function PiecesOf(text: string, ordered: seq<Span>, ts: seq<Transformation>, cursor: nat): seq<Piece>
    requires |ordered| == |ts| && AllValid(ordered)
    decreases |ordered|
  {
    if |ordered| == 0 then [Lit(Slice(text, cursor, |text|))]
    else [Lit(Slice(text, cursor, ordered[0].start)), PieceOf(ts[0])] + PiecesOf(text, ordered[1..], ts[1..], ordered[0].end)
  }

  /** What restoring should give: originals at pseudonymized spans, everything else as disclosed. */
  function RestoredText(text: string, ordered: seq<Span>, ts: seq<Transformation>, cursor: nat): string
    requires |ordered| == |ts| && AllValid(ordered)
    decreases |ordered|
  {
    if |ordered| == 0 then Slice(text, cursor, |text|)
    else Slice(text, cursor, ordered[0].start)
         + (if ts[0].transformed.None? then ""
            else if ts[0].action == Pseudonymize then ts[0].original else ts[0].transformed.value)
         + RestoredText(text, ordered[1..], ts[1..], ordered[0].end)
  }

  lemma TextOfOne(a: Piece, m: map<string, string>, done: set<string>)
    requires done <= m.Keys
    ensures Text([a], m, done) == PieceText(a, m, done)
    ensures Tokens([a]) == if a.Tok? then {a.token} else {}
  {
    assert [a][1..] == [];
    assert Text([a][1..], m, done) == "" && Tokens([a][1..]) == {};
  }

  lemma TextOfTwo(a: Piece, b: Piece, rest: seq<Piece>, m: map<string, string>, done: set<string>)
    requires done <= m.Keys
    ensures Text([a, b] + rest, m, done) == PieceText(a, m, done) + PieceText(b, m, done) + Text(rest, m, done)
  {
    assert ([a, b] + rest)[1..] == [b] + rest && ([b] + rest)[1..] == rest;
  }

  lemma {:induction false} PiecesDisclose(text: string, ordered: seq<Span>, ts: seq<Transformation>, cursor: nat)
    requires |ordered| == |ts| && AllValid(ordered)
    ensures Disclosed(PiecesOf(text, ordered, ts, cursor)) == Rendered(text, ordered, ts, cursor)
    decreases |ordered|
  {
    if |ordered| == 0 {
      TextOfOne(Lit(Slice(text, cursor, |text|)), map[], {});
    } else {
      PiecesDisclose(text, ordered[1..], ts[1..], ordered[0].end);
      var rest := PiecesOf(text, ordered[1..], ts[1..], ordered[0].end);
      TextOfTwo(Lit(Slice(text, cursor, ordered[0].start)), PieceOf(ts[0]), rest, map[], {});
    }
  }

  /** Each reversible transformation's pseudonym is a key, bound to that transformation's original. */
  predicate EntriesFit(ts: seq<Transformation>, m: Entries) {
    forall i :: 0 <= i < |ts| && ts[i].action == Pseudonymize && ts[i].transformed.Some? ==>
      ts[i].transformed.value in m && m[ts[i].transformed.value] == ts[i].original
  }

  lemma {:induction false} PiecesRestore(text: string, ordered: seq<Span>, ts: seq<Transformation>, cursor: nat, m: Entries)
    requires |ordered| == |ts| && AllValid(ordered) && EntriesFit(ts, m)
    ensures Restored(PiecesOf(text, ordered, ts, cursor), m) == RestoredText(text, ordered, ts, cursor)
    ensures Tokens(PiecesOf(text, ordered, ts, cursor)) == TokensOf(ts)
    decreases |ordered|
  {
    if |ordered| == 0 {
      TextOfOne(Lit(Slice(text, cursor, |text|)), m, m.Keys);
    } else {
      var rest := PiecesOf(text, ordered[1..], ts[1..], ordered[0].end);
      PiecesRestore(text, ordered[1..], ts[1..], ordered[0].end, m);
      TextOfTwo(Lit(Slice(text, cursor, ordered[0].start)), PieceOf(ts[0]), rest, m, m.Keys);
      var a, b := Lit(Slice(text, cursor, ordered[0].start)), PieceOf(ts[0]);
      assert ([a, b] + rest)[1..] == [b] + rest && ([b] + rest)[1..] == rest;
    }
  }

  function TokensOf(ts: seq<Transformation>): set<string> {
    if |ts| == 0 then {}
    else match ts[0]
         case Transformation(_, _, Some(token), Pseudonymize) => {token} + TokensOf(ts[1..])
         case _ => TokensOf(ts[1..])
  }

  lemma {:induction false} TokensOfLast(ts: seq<Transformation>, t: Transformation)
    ensures TokensOf(ts + [t]) == TokensOf(ts) + (if IsReversible(t) then {t.transformed.value} else {})
  {
    if |ts| == 0 {
      assert ts + [t] == [t] && [t][1..] == [];
    } else {
      assert (ts + [t])[1..] == ts[1..] + [t] && (ts + [t])[0] == ts[0];
      TokensOfLast(ts[1..], t);
    }
  }

  /** With a vault behind them, one pseudonym never stands for two originals, so the dictionary loses
      nothing: it has exactly the pseudonyms of the payload, each with its own original. */
  lemma {:induction false} EntriesOfBacked(ts: seq<Transformation>, reverse: Reverse, p: Partition)
    requires Backed(ts, reverse, p)
    ensures EntriesOf(ts).Keys == TokensOf(ts)
    ensures forall t :: t in EntriesOf(ts) ==> Lookup(reverse, p, t) == Some(EntriesOf(ts)[t])
    ensures EntriesFit(ts, EntriesOf(ts))
  {
    if |ts| > 0 {
      var front, last := ts[..|ts| - 1], ts[|ts| - 1];
      assert ts == front + [last];
      EntriesOfBacked(front, reverse, p);
      TokensOfLast(front, last);
      forall i | 0 <= i < |ts| && IsReversible(ts[i])
        ensures ts[i].transformed.value in EntriesOf(ts) && EntriesOf(ts)[ts[i].transformed.value] == ts[i].original
      {
        if i < |front| { assert front[i] == ts[i]; }
      }
    }
  }

  /** Whatever the transformations, the dictionary has the pseudonyms of the pseudonymizing ones, each
      with the original of the last that has it. */
  lemma {:induction false} EntriesOfAny(ts: seq<Transformation>, token: string)
    ensures token in EntriesOf(ts) <==> exists i :: 0 <= i < |ts| && StandsFor(ts[i], token)
    ensures forall i :: 0 <= i < |ts| && StandsFor(ts[i], token) && (forall j :: i < j < |ts| ==> !StandsFor(ts[j], token)) ==>
              EntriesOf(ts)[token] == ts[i].original
  {
    if |ts| > 0 {
      var front, n := ts[..|ts| - 1], |ts| - 1;
      EntriesOfAny(front, token);
      if StandsFor(ts[n], token) {
        assert EntriesOf(ts)[token] == ts[n].original;
      } else {
        assert forall i :: 0 <= i < n ==> front[i] == ts[i];
      }
    }
  }

  predicate StandsFor(t: Transformation, token: string) { t.action == Pseudonymize && t.transformed == Some(token) }

  lemma BackedTokensShaped(ts: seq<Transformation>, reverse: Reverse, p: Partition)
    requires Backed(ts, reverse, p) && Shaped(reverse)
    ensures forall t :: t in TokensOf(ts) ==> IsPseudonym(t)
  {
    EntriesOfBacked(ts, reverse, p);
  }

  lemma {:induction false} PiecesWellFormed(text: string, ordered: seq<Span>, ts: seq<Transformation>, cursor: nat)
    requires |ordered| == |ts| && AllValid(ordered)
    requires forall t :: t in TokensOf(ts) ==> IsPseudonym(t)
    ensures WellFormed(PiecesOf(text, ordered, ts, cursor))
    decreases |ordered|
  {
    if |ordered| > 0 { PiecesWellFormed(text, ordered[1..], ts[1..], ordered[0].end); }
  }

  lemma RestoresRendered(text: string, ordered: seq<Span>, ts: seq<Transformation>, reverse: Reverse, p: Partition,
                         order: seq<string>)
    requires AllValid(ordered) && Matching(ordered, ts) && Backed(ts, reverse, p) && Shaped(reverse)
    requires !HasMark(RestoredText(text, ordered, ts, 0))
    requires Clean(PiecesOf(text, ordered, ts, 0), EntriesOf(ts))
    requires Lists(order, Resolvable(Rendered(text, ordered, ts, 0), EntriesOf(ts))) && LongestFirst(order)
    ensures Restore(Rendered(text, ordered, ts, 0), EntriesOf(ts), order)
         == Restoration(RestoredText(text, ordered, ts, 0), |EntriesOf(ts)|, 0)
  {
    hide Restore, Clean, WellFormed, IsPseudonym, Backed, Shaped, Resolvable, Rendered, RestoredText, PiecesOf, EntriesOf;
    var m, ps := EntriesOf(ts), PiecesOf(text, ordered, ts, 0);
    EntriesOfBacked(ts, reverse, p);
    PiecesDisclose(text, ordered, ts, 0);
    PiecesRestore(text, ordered, ts, 0, m);
    BackedTokensShaped(ts, reverse, p);
    PiecesWellFormed(text, ordered, ts, 0);
    FreshWhenNoMark(ps, m);
    RestoreExact(ps, m, order);
    assert Tokens(ps) * m.Keys == m.Keys && Tokens(ps) - m.Keys == {};
  }

  /** The end-to-end result. A payload rendered from resolved spans with pseudonyms of a vault is
      exported with its handle; before the handle expires, opening it and restoring the payload gives
      the originals back at every pseudonymized span and everything else as disclosed, counts
      included, whatever was sealed in between and whatever order equally long tokens come in. The
      conditions are on the restored text, which whoever exports can compute: it holds no pseudonym
      mark, and no pseudonymized span is followed in it by characters its suffix would take. */
  lemma ExportRestoreRoundTrip(text: string, ordered: seq<Span>, ts: seq<Transformation>, reverse: Reverse, p: Partition,
                               table: Sealing.Table, envelope: seq<Byte>, iat: int, exp: int, now: real, order: seq<string>)
    requires AllValid(ordered) && Matching(ordered, ts) && Backed(ts, reverse, p) && Shaped(reverse)
    requires |envelope| > Sealing.NONCE_BYTES && now <= exp as real
    requires !HasMark(RestoredText(text, ordered, ts, 0))
    requires Clean(PiecesOf(text, ordered, ts, 0), EntriesOf(ts))
    requires Lists(order, Resolvable(Rendered(text, ordered, ts, 0), EntriesOf(ts))) && LongestFirst(order)
    ensures var sealed := table[envelope := Sealing.Padded(HandlePayload(EntriesOf(ts), iat, exp))];
            OpenHandle(sealed, true, Sealing.Token(HANDLE_PREFIX, envelope), now) == Ok(EntriesOf(ts))
    ensures Restore(Rendered(text, ordered, ts, 0), EntriesOf(ts), order)
         == Restoration(RestoredText(text, ordered, ts, 0), |EntriesOf(ts)|, 0)
  {
    hide Sealing.Padded, Sealing.Token, HandlePayload, OpenHandle, Restore, Clean, Backed, Shaped, Resolvable, Rendered,
      RestoredText, PiecesOf, EntriesOf;
    HandleRoundTrip(table, envelope, EntriesOf(ts), iat, exp, now);
    RestoresRendered(text, ordered, ts, reverse, p, order);
  }

  /** The condition is exact. When no sealed pseudonym is a proper prefix of another, restoring the
      payload gives the text back if and only if each pseudonym occurs in the payload at least once
      without being followed by characters its suffix would take. */
  lemma ExportRestoreExactly(text: string, ordered: seq<Span>, ts: seq<Transformation>, reverse: Reverse, p: Partition,
                             order: seq<string>)
    requires AllValid(ordered) && Matching(ordered, ts) && Backed(ts, reverse, p) && Shaped(reverse)
    requires !HasMark(RestoredText(text, ordered, ts, 0)) && PrefixFree(EntriesOf(ts).Keys)
    requires Lists(order, Resolvable(Rendered(text, ordered, ts, 0), EntriesOf(ts))) && LongestFirst(order)
    ensures Restore(Rendered(text, ordered, ts, 0), EntriesOf(ts), order).text == RestoredText(text, ordered, ts, 0)
       <==> forall t :: t in EntriesOf(ts) ==> HasCleanOccurrence(PiecesOf(text, ordered, ts, 0), t)
  {
    hide Restore, Resolvable, Rendered, RestoredText, PiecesOf, EntriesOf, HasCleanOccurrence;
    var m, ps := EntriesOf(ts), PiecesOf(text, ordered, ts, 0);
    EntriesOfBacked(ts, reverse, p);
    PiecesDisclose(text, ordered, ts, 0);
    PiecesRestore(text, ordered, ts, 0, m);
    BackedTokensShaped(ts, reverse, p);
    PiecesWellFormed(text, ordered, ts, 0);
    FreshWhenNoMark(ps, m);
    RestoreExactIff(ps, m, order);
  }

  /** The conditions are met in the plainest case: any text without a mark, pseudonymized whole by a
      vault, comes back. */
  lemma WholeTextComesBack(original: string, category: string, token: string, p: Partition)
    requires original != "" && !HasMark(original) && IsCategory(category) && IsToken(token)
    ensures var u := MakePseudonym(category, 0, token);
            var ordered := [Span(category, original, 0, |original|, None)];
            var ts := [Transformation(category, original, Some(u), Pseudonymize)];
            var reverse := map[p := map[u := original]];
            && AllValid(ordered) && Matching(ordered, ts) && Backed(ts, reverse, p) && Shaped(reverse)
            && Rendered(original, ordered, ts, 0) == u && RestoredText(original, ordered, ts, 0) == original
            && Clean(PiecesOf(original, ordered, ts, 0), EntriesOf(ts))
  {
    hide HasMark, MakePseudonym, IsPseudonym, IsIdentifier, EndsInMark, IsToken, MatchLength, Rendered, RestoredText,
      PiecesOf, EntriesOf, Clean, Backed, Shaped, Matching, Slice;
    var u := MakePseudonym(category, 0, token);
    var s, t := Span(category, original, 0, |original|, None), Transformation(category, original, Some(u), Pseudonymize);
    MadePseudonymIsOne(category, 0, token);
    WholeBacked(s, t, u, p);
    WholePieces(original, s, t, u);
    WholeIsClean(u, map[u := original]);
  }

  lemma WholeBacked(s: Span, t: Transformation, u: string, p: Partition)
    requires IsPseudonym(u) && t == Transformation(s.category, s.value, Some(u), Pseudonymize)
    ensures var reverse := map[p := map[u := s.value]]; Matching([s], [t]) && Backed([t], reverse, p) && Shaped(reverse)
  {
    hide IsPseudonym;
  }

  lemma WholePieces(original: string, s: Span, t: Transformation, u: string)
    requires IsValid(s) && s.start == 0 && s.end == |original|
    requires t == Transformation(s.category, original, Some(u), Pseudonymize)
    ensures PiecesOf(original, [s], [t], 0) == [Lit(""), Tok(u), Lit("")] && EntriesOf([t]) == map[u := original]
    ensures Rendered(original, [s], [t], 0) == u && RestoredText(original, [s], [t], 0) == original
  {
    assert [s][1..] == [] && [t][1..] == [] && [t][..0] == [];
    assert EntriesOf([]) == map[];
    assert Slice(original, |original|, |original|) == "" && Slice(original, 0, 0) == "";
    assert PiecesOf(original, [], [], |original|) == [Lit("")];
    assert "" + u + "" == u && "" + original + "" == original;
  }

  lemma WholeIsClean(u: string, m: map<string, string>)
    requires IsPseudonym(u)
    ensures Clean([Lit(""), Tok(u), Lit("")], m)
  {
    hide MatchLength;
    var last := [Lit("")];
    var two := [Tok(u)] + last;
    var three := [Lit("")] + two;
    assert last[1..] == [] && two[1..] == last && three[1..] == two;
    assert Text(last, m, m.Keys) == "" + Text([], m, m.Keys);
    assert u + "" == u;
    assert Clean(last, m);
    assert Clean(two, m);
    assert three == [Lit(""), Tok(u), Lit("")];
  }

  // ----- the whole journey over one vault and one sealer -----

  /** Another export's issue, between an export and its restore. */
  datatype Other = Other(entries: Entries, at: real, envelope: seq<Byte>)

  /** The nonces of later issues never repeat an envelope. */
  predicate AllNew(others: seq<Other>, sealed: Sealing.Table) {
    && (forall i :: 0 <= i < |others| ==> |others[i].envelope| > Sealing.NONCE_BYTES && others[i].envelope !in sealed)
    && (forall i, j :: 0 <= i < j < |others| ==> others[i].envelope != others[j].envelope)
  }

  /** What was sealed stays sealed. */
  ghost predicate KeepsSealed(earlier: Sealing.Table, later: Sealing.Table) {
    forall e :: e in earlier ==> e in later && later[e] == earlier[e]
  }

  method IssueOthers(others: seq<Other>, sealer: RestoreHandleSealer)
    requires sealer.Valid() && AllNew(others, sealer.sealed)
    modifies sealer
    ensures sealer.Valid() && KeepsSealed(old(sealer.sealed), sealer.sealed)
  {
    hide Sealing.Padded, HandlePayload, Sealing.Token, Truncate, KeepsSealed;
    KeepsItself(sealer.sealed);
    for i := 0 to |others|
      invariant sealer.Valid() && KeepsSealed(old(sealer.sealed), sealer.sealed)
      invariant forall j :: i <= j < |others| ==> others[j].envelope !in sealer.sealed
    {
      ghost var before := sealer.sealed;
      var issued := sealer.Issue(others[i].entries, others[i].at, others[i].envelope);
      KeepsMore(old(sealer.sealed), before, sealer.sealed, others[i].envelope);
    }
  }

  lemma KeepsItself(sealed: Sealing.Table)
    ensures KeepsSealed(sealed, sealed)
  {
  }

  lemma KeepsMore(first: Sealing.Table, before: Sealing.Table, after: Sealing.Table, envelope: seq<Byte>)
    requires KeepsSealed(first, before) && envelope !in before
    requires after == before || (envelope in after && after == before[envelope := after[envelope]])
    ensures KeepsSealed(first, after)
  {
  }

  /** An export, other exports on the same sealer, and the restore of the exported payload with its
      handle: from exactly the sealed entries until they expire, and refused as expired after. */
  method ExportAndRestore(decision: DisclosureDecision, sealer: RestoreHandleSealer, now: real, envelope: seq<Byte>,
                          others: seq<Other>, later: real)
      returns (r: Result<Restoration, RestoreError>)
    requires decision.result.status == Allowed && sealer.Valid() && sealer.configured
    requires AllNew([Other(map[], now, envelope)] + others, sealer.sealed)
    modifies sealer
    ensures sealer.Valid()
    ensures now >= 0.0 && later > now + sealer.ttlSeconds as real ==> r == Err(Expired)
    ensures now >= 0.0 && later + 1.0 <= now + sealer.ttlSeconds as real ==> r.Ok?
    ensures if later > (Truncate(now) + sealer.ttlSeconds) as real then r == Err(Expired)
            else r.Ok? && IsRestoration(decision.result.externalPayload, EntriesOf(decision.result.transformations), r.value)
  {
    hide Sealing.Padded, HandlePayload, EntriesOf, Sealing.Token, Truncate, OpenHandle, IsRestoration, KeepsSealed, AllNew;
    ghost var sealed0 := sealer.sealed;
    NewEach(Other(map[], now, envelope), others, sealed0);
    var exported := Export(decision, sealer, now, envelope);
    ghost var sealed, iat, m := sealer.sealed, Truncate(now), EntriesOf(decision.result.transformations);
    NewAfter(Other(map[], now, envelope), others, sealed0, sealed);
    IssueOthers(others, sealer);
    StaysSealed(sealed, sealer.sealed, envelope);
    HandleRoundTrip(sealer.sealed, envelope, m, iat, iat + sealer.ttlSeconds, later);
    r := RestoreText(exported.value.externalPayload, exported.value.restoreHandle, sealer, later);
  }

  lemma StaysSealed(earlier: Sealing.Table, later: Sealing.Table, envelope: seq<Byte>)
    requires KeepsSealed(earlier, later) && envelope in earlier
    ensures later[envelope := earlier[envelope]] == later
  {
  }

  lemma NewEach(first: Other, others: seq<Other>, sealed: Sealing.Table)
    requires AllNew([first] + others, sealed)
    ensures |first.envelope| > Sealing.NONCE_BYTES && first.envelope !in sealed
  {
    assert ([first] + others)[0] == first;
  }

  lemma NewAfter(first: Other, others: seq<Other>, sealed: Sealing.Table, later: Sealing.Table)
    requires AllNew([first] + others, sealed) && later.Keys == sealed.Keys + {first.envelope}
    ensures AllNew(others, later)
  {
    var all := [first] + others;
    assert all[0] == first && forall i :: 0 <= i < |others| ==> others[i] == all[i + 1];
  }

  /** A decided text is rendered against the vault and exported; others export in between; then the
      payload is restored with its handle. Unexpired, and under the two conditions on the text to
      recover, it is recovered: whatever vault, sealer and other issues. */
  method ExportThenRestore(text: string, ordered: seq<Span>, decisions: seq<Action>, generalized: map<nat, string>,
                           vault: InMemoryVault, p: Partition, sealer: RestoreHandleSealer, now: real, envelope: seq<Byte>,
                           others: seq<Other>, later: real)
      returns (ts: seq<Transformation>, payload: string, r: Result<Restoration, RestoreError>)
    requires vault.Valid() && Shaped(vault.reverse) && Lawful(ordered, vault.tokenFactory)
    requires AllValid(ordered) && |ordered| == |decisions|
    requires forall i :: 0 <= i < |decisions| && decisions[i] == Generalize ==> i in generalized
    requires sealer.Valid() && sealer.configured && AllNew([Other(map[], now, envelope)] + others, sealer.sealed)
    modifies vault, sealer
    ensures vault.Valid() && sealer.Valid()
    ensures Matching(ordered, ts) && payload == Rendered(text, ordered, ts, 0)
    ensures forall i :: 0 <= i < |ordered| ==> IsApplied(ts[i], ordered[i], decisions[i], GeneralizedAt(generalized, i))
    ensures forall i :: 0 <= i < |ordered| && decisions[i] == Generalize ==> ts[i].transformed == Some(generalized[i])
    ensures now >= 0.0 && later > now + sealer.ttlSeconds as real ==> r == Err(Expired)
    ensures now >= 0.0 && later + 1.0 <= now + sealer.ttlSeconds as real && Recoverable(text, ordered, ts) ==>
              r == Ok(Restoration(RestoredText(text, ordered, ts, 0), |TokensOf(ts)|, 0))
    ensures later > (Truncate(now) + sealer.ttlSeconds) as real ==> r == Err(Expired)
    ensures later <= (Truncate(now) + sealer.ttlSeconds) as real && Recoverable(text, ordered, ts) ==>
              r == Ok(Restoration(RestoredText(text, ordered, ts, 0), |TokensOf(ts)|, 0))
  {
    hide EntriesOf, Truncate, Rendered, RestoredText, IsApplied, Backed, Shaped, Lawful, IsRestoration, Recoverable, AllNew;
    var result := AllowedResult(text, ordered, decisions, generalized, vault, p);
    ts, payload := result.transformations, result.externalPayload;
    ghost var reverse := vault.reverse;
    r := ExportAndRestore(DisclosureDecision(ordered, result), sealer, now, envelope, others, later);
    if r.Ok? && Recoverable(text, ordered, ts) { RecoversText(text, ordered, ts, reverse, p, r.value); }
  }

  /** The conditions of the round trip, on the text to recover: it holds no mark, and no pseudonymized
      span is followed in it by characters its suffix would take. */
  predicate Recoverable(text: string, ordered: seq<Span>, ts: seq<Transformation>)
    requires AllValid(ordered) && |ordered| == |ts|
  {
    !HasMark(RestoredText(text, ordered, ts, 0)) && Clean(PiecesOf(text, ordered, ts, 0), EntriesOf(ts))
  }

  lemma RecoversText(text: string, ordered: seq<Span>, ts: seq<Transformation>, reverse: Reverse, p: Partition, r: Restoration)
    requires AllValid(ordered) && Matching(ordered, ts) && Backed(ts, reverse, p) && Shaped(reverse)
    requires Recoverable(text, ordered, ts) && IsRestoration(Rendered(text, ordered, ts, 0), EntriesOf(ts), r)
    ensures r == Restoration(RestoredText(text, ordered, ts, 0), |TokensOf(ts)|, 0)
  {
    hide EntriesOf, Restore, Resolvable, Rendered, RestoredText, PiecesOf, Clean, HasMark, Backed, Shaped;
    var payload, m := Rendered(text, ordered, ts, 0), EntriesOf(ts);
    var order :| Lists(order, Resolvable(payload, m)) && LongestFirst(order) && r == Restore(payload, m, order);
    RestoresRendered(text, ordered, ts, reverse, p, order);
    CountEntries(ts, reverse, p);
  }

  lemma CountEntries(ts: seq<Transformation>, reverse: Reverse, p: Partition)
    requires Backed(ts, reverse, p)
    ensures |EntriesOf(ts)| == |TokensOf(ts)|
  {
    hide EntriesOf, Backed;
    EntriesOfBacked(ts, reverse, p);
    assert |EntriesOf(ts)| == |EntriesOf(ts).Keys|;
  }
}
