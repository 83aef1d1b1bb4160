# Adaptive disclosure gateway: verified model

The gateway detects sensitive spans in a text, decides per category what may leave the trust
boundary, sends the resulting payload to an external model, and can later put originals back. This
project is a Dafny model of the path from detected spans to the disclosed payload and back, with the
sealed and authenticated tokens around it, and of the guarantees that path relies on.

Each module follows one part of the program:

- `Overlap`, `Detector`: candidate spans in priority order, each kept unless it overlaps one already kept.
- `Disclosure`, `Vault`: the payload renderer every transforming treatment shares, and the in-memory
  pseudonym vault with its collision loop.
- `Inspection`, `BrowserGuard`: the visual inspection of a decision, what the server serializes and what
  the browser's guards accept.
- `Pseudonyms`, `RestoreHandle`, `Export`: pseudonym tokens in a text, sealed restore handles, and export
  and restore end to end.
- `Sealing`, `Base64Url`, `Utf8`, `Json`, `Ordering`, `Octets`, `Seqs`, `Wrappers`: bucket padding and the sealed
  envelope, and the encoders under it (unpadded base64url of section 5 of RFC 4648, UTF-8, JSON with the
  string escapes of section 7 of RFC 8259, canonical key order).
- `Confirmation`, `ConfirmedFlow`: the preview-confirmation token, and the document flow as a state
  machine of previews, executions and clock changes.
- `VaultExplorer`: sealed references to the vault entries of one decision.
- `Policies`: loading policy documents and the three decisions taken from them.
- `BodyLimit`: the request-body limit against any application.
- `MarkdownBlocks`: structural blocks over canonical Markdown.
- `Flow`: the guided flow's reducer.

What the model takes as given: the authenticated encryption opens exactly the envelopes sealed under its
key, to exactly what was sealed in them (a table); the keyed hash is injective, and a caller cannot
present a MAC the signer did not hand out (a condition on each step of a run, which admits every token
handed out so far); detectors, generalizers, the provider, the clock and random bytes are arbitrary
inputs, answering differently on each call where the program calls them twice. Characters are Unicode
scalar values, the whitespace set is that of Unicode 15.1.

Where the code and its documentation differ, the model follows the code:

- a restored text is not the original when a pseudonym is directly followed by a hyphen and a digit
  (`Pseudonyms.SwallowedIsNotRestored`; the exact conditions are `Vault.MadePseudonymEnds` for one pseudonym and
  `Pseudonyms.RestoreExactIff` for a text);
- the preview confirmation does not bind the decision's status (`ConfirmedFlow.StatusIsNotBound`): a
  blocked preview approves exactly the allowed decisions with an empty payload
  (`ConfirmedFlow.BlockedApprovesExactly`), so wherever there is a payload the status is bound after all
  (`ConfirmedFlow.NonEmptyWasAllowed`);
- a duplicated policy version is refused only while its copies are even in number
  (`Policies.ThirdCopyLoads`; the exact condition is `Policies.EvenCopiesFailClosed`);
- heading offsets name the title's place only for one whitespace character after the marker
  (`MarkdownBlocks.TwoSpacesMisplace`; the exact condition is `MarkdownBlocks.HeadingExactIff`).

As documented, a confirmation token can be used again within its window (`ConfirmedFlow.ReplayIsAccepted`).

Names, codes and constants are written out once more in lemmas beside the functions that use them, so that
neither can change alone: `Json.EscapesExactly`, `Json.CompactObject`, `Base64Url.Alphabet`,
`MarkdownBlocks.CharacterCodes`, `Policies.ScopeKeyText`, `Policies.ResolvedDecides`, `Vault.MadePseudonymText`,
`ConfirmedFlow.MergedFields`, `Flow.EditsAreLocal`, `Flow.LeadsToResult`, `BrowserGuard.SegmentReadsBack` and those
next to them.

`dafny verify dfyconfig.toml` checks the whole project.

## Model

| member | source | states |
|---|---|---|
| `Export.ExportRestoreRoundTrip` | src/adaptive_disclosure_gateway/application/restore_handle.py:387-413 | a payload rendered over resolved spans with pseudonyms of a vault, its handle opened before expiry and the payload restored: every pseudonymized span reads its original again, everything else as disclosed, all entries counted and none unresolved, for every order of equally long tokens; provided the restored text holds no mark and no pseudonym is followed there by a hyphen and a digit or, if it has a collision suffix, by a digit |
| `Export.ExportRestoreExactly` | src/adaptive_disclosure_gateway/application/restore_handle.py:140 | when no sealed pseudonym is a proper prefix of another, which takes a collision suffix, and the text to recover holds no mark, restoring recovers it if and only if each pseudonym occurs at least once without those characters after it |
| `Export.WholeTextComesBack` | src/adaptive_disclosure_gateway/application/service.py:644-705 | the conditions of the round trip are met: any text without a mark, pseudonymized whole by a vault, comes back |
| `Export.EntriesOfBacked` | src/adaptive_disclosure_gateway/application/service.py:655-669 | the dictionary of a vault-backed payload has exactly its pseudonyms as keys, each bound to its own original: two transformations never compete for one key |
| `Export.EntriesOfAny` | src/adaptive_disclosure_gateway/application/service.py:655-669 | whatever the transformations, the dictionary has exactly the pseudonyms of the pseudonymizing ones, each with the original of the last that has it |
| `Export.Export` | src/adaptive_disclosure_gateway/application/service.py:644-680 | refused unless the decision is allowed, nothing sealed on any failure, and otherwise exactly the entries of the pseudonymizing transformations are sealed, with their count |
| `Export.RestoreText` | src/adaptive_disclosure_gateway/application/service.py:682-705 | nothing is restored when the handle does not open; otherwise the text is restored from exactly the entries it opens to |
| `Export.ExportThenRestore` | src/adaptive_disclosure_gateway/application/service.py:615-705 | over one vault and one sealer: a decided text is rendered and exported, others export in between, and the payload is restored with its handle; as long as a second of the lifetime is left, and under the conditions of the round trip, the text is recovered with every pseudonym counted; once the lifetime has passed on the clock it is refused as expired |
| `Export.ExportAndRestore` | src/adaptive_disclosure_gateway/application/service.py:615-705 | whatever is issued in between, the payload is restored from exactly the entries sealed for it, as long as a second of the lifetime is left on the clock, and refused once it has passed |
| `Pseudonyms.RestoreExact` | src/adaptive_disclosure_gateway/application/restore_handle.py:404-413 | over literal text, known and foreign tokens: known ones are restored, foreign ones left, both counted, when no token is swallowed and no known token is a proper prefix of a foreign one |
| `Pseudonyms.RestoreExactIff` | src/adaptive_disclosure_gateway/application/restore_handle.py:140 | among prefix-free tokens, known or foreign, and with no mark elsewhere, every known token is restored and nothing else changed if and only if each known token has one occurrence that is not swallowed |
| `Pseudonyms.EndsExactly` | src/adaptive_disclosure_gateway/application/restore_handle.py:140 | a token is matched on its own, whatever follows it, if and only if it is not followed by a hyphen and a digit or, when it ends in a collision suffix, by a digit |
| `Pseudonyms.MatchFits` | src/adaptive_disclosure_gateway/application/restore_handle.py:140 | what is matched at the head of a text is a text of the pattern, stated on character codes |
| `Pseudonyms.MatchIsLongest` | src/adaptive_disclosure_gateway/application/restore_handle.py:140 | and no longer text of the pattern stands there |
| `Pseudonyms.FindsLeftmost` | src/adaptive_disclosure_gateway/application/restore_handle.py:404 | the tokens found are the leftmost match and then those of the text behind it, and none when nothing matches anywhere |
| `Pseudonyms.UnswallowedIsRestored` | src/adaptive_disclosure_gateway/application/restore_handle.py:140 | a pseudonym without a collision suffix, followed by anything but a hyphen and a digit, is restored and counted, also before a hyphen and a letter |
| `Pseudonyms.PrefixBySuffix` | src/adaptive_disclosure_gateway/vault/in_memory.py:93-105 | one token is a proper prefix of another only by a collision suffix, so tokens without one are prefix-free |
| `Pseudonyms.PrefixPairReadsOn` | src/adaptive_disclosure_gateway/application/restore_handle.py:404-411 | with a prefix pair that condition decides nothing: a token followed by what makes it the other one is restored as the other one, which recovers the text exactly when the originals differ by those characters |
| `Pseudonyms.SwallowedIsNotRestored` | src/adaptive_disclosure_gateway/application/restore_handle.py:140 | a pseudonym followed by a hyphen and a digit is read as a longer token and stays in place: the round trip does fail outside its condition |
| `Pseudonyms.ReplaceMany` | src/adaptive_disclosure_gateway/transformations/decision_application.py:371-390 | replacing a list of tokens one after the other restores exactly their occurrences, as long as none of them occurs elsewhere at its turn |
| `Pseudonyms.RestorePseudonyms` | src/adaptive_disclosure_gateway/application/restore_handle.py:404-413 | the tokens found and known, sorted longest first whatever the order among equally long ones, are replaced and counted |
| `Pseudonyms.SortedLongestFirst` | src/adaptive_disclosure_gateway/application/restore_handle.py:406-408 | the sorted list holds exactly the tokens, each once, none before a longer one |
| `Pseudonyms.FindDisclosed` | src/adaptive_disclosure_gateway/application/restore_handle.py:404 | scanning a disclosed text finds one match for each pseudonym put there, and nothing else |
| `RestoreHandle.HandleRoundTrip` | src/adaptive_disclosure_gateway/application/restore_handle.py:292-384 | for every string-to-string map the handle opens to exactly that map up to and including its expiry and to the expired error afterwards, whatever else has been sealed |
| `RestoreHandle.RestoreHandleSealer.Issue` | src/adaptive_disclosure_gateway/application/restore_handle.py:292-320 | unavailable without a secret and then nothing changes; otherwise the padded canonical payload is sealed under the returned handle, to expire at the end of its lifetime or within the second before |
| `RestoreHandle.RestoreHandleSealer.Open` | src/adaptive_disclosure_gateway/application/restore_handle.py:322-384 | a text that is the prefix `rh1`, a dot and the base64url form of an issued envelope opens to the entries it was issued for until it expires and is then the expired error; everything else is the invalid error |
| `RestoreHandle.OpensExactly` | src/adaptive_disclosure_gateway/application/restore_handle.py:356-384 | a decrypted payload opens, and to which entries, if and only if it is an object of version 1 with an integer expiry not passed and an object of texts as its entries; a boolean counts as an integer |
| `Sealing.PadToBucket` | src/adaptive_disclosure_gateway/application/restore_handle.py:222-235 | computing the pad from the length with an empty pad returns exactly the padded encoding |
| `Sealing.PadGrows` | src/adaptive_disclosure_gateway/application/restore_handle.py:230-235 | each pad character adds exactly one byte to the encoding, wherever the key order puts the pad |
| `Sealing.PaddingIsTight` | src/adaptive_disclosure_gateway/application/restore_handle.py:222-235 | the padded length is the least multiple of 256 not below the encoding with an empty pad |
| `Sealing.TokenLength` | src/adaptive_disclosure_gateway/application/vault_explorer.py:140-155 | two payloads that take the same number of buckets give tokens of the same length |
| `Sealing.UnsealSealed` | src/adaptive_disclosure_gateway/application/restore_handle.py:335-362 | a sealed payload comes back through prefix, base64url, table, UTF-8 and JSON as the same dictionary |
| `Sealing.UnsealOnlySealed` | src/adaptive_disclosure_gateway/application/restore_handle.py:335-362 | a presented text opens to a value if and only if it is the prefix, a dot and the base64url form of an envelope that was sealed, longer than its nonce, with the UTF-8 of a JSON text of that value in it |
| `Base64Url.RoundTrip` | src/adaptive_disclosure_gateway/application/preview_confirmation.py:209-214 | unpadded base64url gives back every byte sequence |
| `Base64Url.DecodeDigits` | src/adaptive_disclosure_gateway/application/preview_confirmation.py:213-214 | a segment of digits decodes, behind its `-len % 4` pads, to the bytes of its digits, for every length that is not one more than a multiple of four |
| `Base64Url.DecodesExactly` | src/adaptive_disclosure_gateway/application/preview_confirmation.py:213-214 | a segment without padding decodes if and only if it holds digits alone and its length is not one more than a multiple of four |
| `Base64Url.NoDot` | src/adaptive_disclosure_gateway/application/preview_confirmation.py:328-335 | an encoded segment holds no dot |
| `Base64Url.EncodedLength` | src/adaptive_disclosure_gateway/application/restore_handle.py:209-210 | the encoded length depends on the number of bytes alone |
| `Utf8.RoundTrip` | src/adaptive_disclosure_gateway/application/restore_handle.py:235 | decoding the UTF-8 of a text gives the text |
| `Utf8.DecodeStrict` | src/adaptive_disclosure_gateway/application/restore_handle.py:357 | what decodes is exactly the UTF-8 of the text it decodes to: no overlong form, surrogate or truncated sequence is accepted |
| `Json.RoundTrip` | src/adaptive_disclosure_gateway/application/preview_confirmation.py:159-169 | parsing printed JSON gives the value, through every string escape, sign and nesting |
| `Json.SpacesAround` | src/adaptive_disclosure_gateway/application/restore_handle.py:357 | and with spaces before and after the text all the same |
| `Json.PrintInjective` | src/adaptive_disclosure_gateway/application/preview_confirmation.py:159-169 | different values print differently |
| `Json.CanonicalRoundTrip` | src/adaptive_disclosure_gateway/application/preview_confirmation.py:159-169 | canonical JSON of a dictionary loads as that dictionary |
| `Ordering.SortedKeysUnique` | src/adaptive_disclosure_gateway/application/preview_confirmation.py:159-169 | a set of keys has one sorted listing, so canonical JSON does not depend on insertion order |
| `Ordering.OrderExactly` | src/adaptive_disclosure_gateway/application/preview_confirmation.py:159-169 | a key comes no later than another if and only if it is a prefix of it or has the smaller character where they first differ |
| `Confirmation.SignedDocumentInjective` | src/adaptive_disclosure_gateway/application/preview_confirmation.py:366-387 | equal signed documents are signed over equal states and equal claims, an absent role told apart from any string |
| `Confirmation.MaterialInjective` | src/adaptive_disclosure_gateway/application/preview_confirmation.py:356-364 | version, field name and content joined by the separator are read back unambiguously, though the content may hold the separator |
| `Confirmation.DigestInjective` | src/adaptive_disclosure_gateway/application/preview_confirmation.py:356-364 | equal keyed digests mean the same field and the same content |
| `Confirmation.ParseToken` | src/adaptive_disclosure_gateway/application/preview_confirmation.py:328-354 | parsing a token recovers exactly its claims and its MAC |
| `Confirmation.ParsesExactly` | src/adaptive_disclosure_gateway/application/preview_confirmation.py:328-354 | a text parses to claims and a MAC if and only if it is the version and two segments between dots, the first the base64url form of the JSON of an object with the two claims and no other name, both integers, the second that of the MAC |
| `Confirmation.VerifiesExactly` | src/adaptive_disclosure_gateway/application/preview_confirmation.py:294-326 | an issued token is accepted for the very state it was issued for, up to and including its expiry, and for no other state or time |
| `Confirmation.VerifiesByClock` | src/adaptive_disclosure_gateway/application/preview_confirmation.py:294-326 | on the clock, from the epoch on: a token is accepted no later than its lifetime after it was issued, and as long as a second of the lifetime is left; it carries the second it was issued in |
| `ConfirmedFlow.EveryRunIsSafe` | src/adaptive_disclosure_gateway/application/service.py:1019-1098 | over every run, whatever callers ask, however clock, detectors and treatments behave: each document payload the provider was given has an earlier grant whose state holds that payload, the request's document, task, type, mode and strategy and the six signed fields of its context, within the lifetime of the token on the clock; and a document sent under the explicit strategy B0 went to a provider of class `fake` |
| `ConfirmedFlow.StepOnlyAppends` | src/adaptive_disclosure_gateway/application/service.py:511-552 | no step takes back a token or a transmission; only the execute steps transmit, at most once, their own request's allowed payload to a provider of the class asked for; the plain one never a document request; and with a sensitive task only for the explicit strategy B0; only document previews hand out tokens, for the payload they show |
| `ConfirmedFlow.ExecutesExactly` | src/adaptive_disclosure_gateway/application/service.py:511-552 | an execute step that is let through transmits if and only if the result is allowed, the class matches and the task holds nothing sensitive or the strategy is B0, and otherwise leaves the world as it is; the plain one refuses document requests and lets all others through |
| `ConfirmedFlow.SensitiveTaskStays` | src/adaptive_disclosure_gateway/pipeline.py:244-255 | a request with a sensitive task leaves the world as it is on either surface, whatever token it comes with, for the recommended strategy and B1 to B4; and an allowed plain B0 request to a matching provider is transmitted all the same |
| `ConfirmedFlow.StateBindsAll` | src/adaptive_disclosure_gateway/application/service.py:978-1017 | equal confirmation states come from equal documents, tasks, types, modes, strategies, treatments, payloads, provider classes and governance, requester and lifecycle identifiers aside |
| `ConfirmedFlow.ApprovedIsExecuted` | src/adaptive_disclosure_gateway/application/service.py:1034-1098 | what a preview approved is executed within the validity window when the decision shows the same payload, and transmitted if it is allowed and the class matches |
| `ConfirmedFlow.GrantedIsUnforged` | src/adaptive_disclosure_gateway/application/preview_confirmation.py:307-326 | the unforgeability assumption admits every token handed out so far, with any request |
| `ConfirmedFlow.ReplayIsAccepted` | src/adaptive_disclosure_gateway/application/service.py:1034-1098 | a token is not spent by use: the same approved state executes twice within the window |
| `ConfirmedFlow.TokenExecutesExactly` | src/adaptive_disclosure_gateway/application/service.py:1034-1098 | under a token a request is rejected unless document, task, type, mode, strategy, the payload shown and the signed fields of the context are those of the preview and the window is open; refused if it is then B0 for a provider other than `fake`; and executed otherwise |
| `ConfirmedFlow.TokenByClock` | src/adaptive_disclosure_gateway/application/preview_confirmation.py:307-326 | on the clock: a token executes nothing once its lifetime has passed since the preview, and is not rejected for its age while a second of it is left |
| `ConfirmedFlow.BlockedApprovesExactly` | src/adaptive_disclosure_gateway/application/service.py:978-1098 | under the token of a preview blocked by its treatment or by its task, with nothing shown, a later decision of the same request is transmitted if and only if the window is open, it is allowed, its payload is empty, the class matches and it is not B0 outside the trust boundary |
| `ConfirmedFlow.NonEmptyWasAllowed` | src/adaptive_disclosure_gateway/application/service.py:1019-1098 | over every run in which blocked results carry no payload, a document transmission with a payload has an earlier preview step that came out allowed with that payload |
| `ConfirmedFlow.StatusIsNotBound` | src/adaptive_disclosure_gateway/application/service.py:978-1017 | the failing input: a blocked preview with its empty payload, then an allowed decision with an empty payload, which is transmitted |
| `ConfirmedFlow.NoSensitiveTaskIsSent` | src/adaptive_disclosure_gateway/pipeline.py:218-255 | over every run, document or not, each call of the provider comes from an execute step whose own result was allowed and whose own payload it carries, to a provider of the class asked for; and with a task in which that execution found anything only if the strategy asked for is B0 itself |
| `ConfirmedFlow.MergeLaws` | src/adaptive_disclosure_gateway/application/service.py:261-273 | without overrides the default context stands, overriding with a whole context gives it without erasing identifiers, and overriding twice is overriding once |
| `ConfirmedFlow.ExecuteDecision` | src/adaptive_disclosure_gateway/pipeline.py:258-384 | the provider is given the decision's payload if and only if it is allowed and of the class policy was evaluated against; response, reconstruction and the kind of failure are reported accordingly |
| `Overlap.ResolutionResolves` | src/adaptive_disclosure_gateway/detection/overlap.py:51-92 | the result is a pairwise disjoint part of the input, in text order, in which every dropped span overlaps a kept one of smaller or equal key |
| `Overlap.ResolvedUnique` | src/adaptive_disclosure_gateway/detection/overlap.py:51-92 | there is only one such choice |
| `Overlap.DroppedIsBeaten` | src/adaptive_disclosure_gateway/detection/overlap.py:51-72 | a span that was not kept overlaps a kept one that is longer or, at equal length, earlier by category precedence, then by start, category name and value |
| `Overlap.RankIsPlace` | src/adaptive_disclosure_gateway/detection/overlap.py:12-28 | the rank of each of the eight listed categories is its place in the list, and that of any other is eight |
| `Overlap.OrderIrrelevant` | src/adaptive_disclosure_gateway/detection/overlap.py:41-92 | permuting or repeating the candidates changes at most the confidence of the survivors, and not whether resolution fails |
| `Overlap.SurvivorIsFirst` | src/adaptive_disclosure_gateway/detection/overlap.py:74-92 | of several spans equal up to confidence the first in the input survives |
| `Overlap.DroppedIsIrrelevant` | src/adaptive_disclosure_gateway/detection/overlap.py:74-92 | removing a span that was not kept leaves the result as it is |
| `Overlap.Idempotent` | src/adaptive_disclosure_gateway/application/inspection.py:92 | resolving a resolved list returns the same list |
| `Overlap.ResolveOverlaps` | src/adaptive_disclosure_gateway/detection/overlap.py:51-92 | the sorting and greedy loop computes that resolution, and fails on the first span with invalid offsets |
| `Overlap.FailsExactly` | src/adaptive_disclosure_gateway/detection/overlap.py:51-60 | resolution fails if and only if the offsets of some span are no range, and names category and offsets of the first such |
| `Detector.Detect` | src/adaptive_disclosure_gateway/detection/detector.py:27-34 | all rules' matches, in rule order, are resolved together |
| `Detector.RuleOrderIrrelevant` | src/adaptive_disclosure_gateway/detection/detector.py:27-34 | lists of rules that find the same spans on a text detect the same, whatever their order |
| `Disclosure.AllowedResult` | src/adaptive_disclosure_gateway/transformations/decision_application.py:258-332 | the payload is the cursor walk over the spans with one matching transformation each, as decided; every pseudonym in it resolves in the vault, which forgets nothing |
| `Disclosure.RenderedSplit` | src/adaptive_disclosure_gateway/application/inspection.py:6-15 | rendering up to any span and rendering the rest compose to the whole payload |
| `Vault.InMemoryVault.Pseudonymize` | src/adaptive_disclosure_gateway/vault/in_memory.py:66-91 | the same entry gets the same pseudonym without a draw; a new one gets the first candidate nobody holds, each try with a new token and counted in the suffix; nothing is forgotten or rebound, and the loop ends although the token factory may repeat itself |
| `Vault.BindConsistent` | src/adaptive_disclosure_gateway/vault/in_memory.py:88-91 | binding an unused pseudonym keeps the partition one-to-one and keeps every earlier lookup |
| `Vault.SuffixesDiffer` | src/adaptive_disclosure_gateway/vault/in_memory.py:79-88 | candidates with different collision counters are different strings |
| `Vault.MadePseudonymIsOne` | src/adaptive_disclosure_gateway/vault/in_memory.py:93-105 | what the vault makes of any identifier category and a hex token is one whole match of the pattern restore looks for, and it holds no second mark if and only if the category does not end in one |
| `Vault.MadePseudonymEnds` | src/adaptive_disclosure_gateway/application/restore_handle.py:140 | whatever follows it, a made pseudonym is matched on its own if and only if it is not followed by a hyphen and a digit or, with a collision suffix, by a digit |
| `Inspection.InspectionIsComplete` | src/adaptive_disclosure_gateway/application/inspection.py:79-158 | for every allowed decision rendered over spans that match the text, the inspection is available, its segments are the renderer's walk, they mark each transformation in order with its own action, category, original and disclosed part, and everything else passes as it is |
| `Inspection.InspectionIsTruthful` | src/adaptive_disclosure_gateway/application/inspection.py:136-169 | for every decision, an available inspection's originals are the text and its disclosed parts the payload, fallback included; an unavailable one has no segments and says blocked for a blocked decision and failed alignment for an allowed one |
| `Inspection.AlignmentDependsOnPayload` | src/adaptive_disclosure_gateway/application/inspection.py:126-133 | of the final recheck only the payload side can fail |
| `Inspection.AvailableExactly` | src/adaptive_disclosure_gateway/application/inspection.py:136-169 | an inspection is available if and only if the decision is allowed and its payload is the text itself or the rendering of its aligned spans |
| `Inspection.WalkReadsText` | src/adaptive_disclosure_gateway/application/inspection.py:99-133 | the originals of the walk from any cursor are the rest of the text |
| `Inspection.WalkWritesPayload` | src/adaptive_disclosure_gateway/application/inspection.py:99-133 | the disclosed parts of the walk are the payload the renderer writes |
| `Inspection.StructuredAlignment` | src/adaptive_disclosure_gateway/application/inspection.py:79-133 | the cursor loop computes that walk, or nothing as soon as one span and its transformation disagree |
| `BrowserGuard.ServerAndBrowserAgree` | web/lib/responseGuards.ts:305-327 | for every text and decision the browser guard accepts the inspection the server serializes, next to the same decision's payload |
| `BrowserGuard.GuardAcceptsExactly` | web/lib/responseGuards.ts:274-327 | among all the server can serialize, the guard accepts exactly what tells the truth about the payload |
| `BrowserGuard.InspectionGuard` | web/lib/responseGuards.ts:285-327 | of any JSON value whatever, the guard accepts null, an unavailable field with a reason and no segments, and an available one without a reason whose segments are well formed and disclose the payload, and nothing else |
| `BrowserGuard.ResponseGuard` | web/lib/responseGuards.ts:487-517 | of any JSON value whatever, the explorer guard accepts responses of this contract with as many well-formed entries as counted, and none without a scope, and nothing else |
| `BrowserGuard.ExplorerGuardAcceptsExactly` | web/lib/responseGuards.ts:487-517 | the explorer guard accepts exactly the views whose presence flags are right and that show nothing without a scope |
| `BrowserGuard.ExplorerAndBrowserAgree` | src/adaptive_disclosure_gateway/application/wire.py:673-689 | whatever token is presented and whatever the vault holds, the guard accepts what exploring answers |
| `BodyLimit.DeliveredNeverExceedsLimit` | src/adaptive_disclosure_gateway/api/limits.py:125-133 | whatever the application does it is never given more body bytes than the limit |
| `BodyLimit.TripAnswersOnce` | src/adaptive_disclosure_gateway/api/limits.py:110-163 | for every call that is let run and trips the limit: what was sent before the trip is on the wire, followed, when that held no status line, by nothing or one 413 pair, the pair if and only if the application sends anything later or lets the signal through; with a status line out, everything it sends passes and the signal is let through |
| `BodyLimit.TripsIff` | src/adaptive_disclosure_gateway/api/limits.py:125-133 | the limit trips if and only if some received chunk takes the total over it |
| `BodyLimit.OneStartOnWire` | src/adaptive_disclosure_gateway/api/limits.py:110-163 | an application that sends at most one status line never causes two on the wire |
| `BodyLimit.WithinLimitIsTransparent` | src/adaptive_disclosure_gateway/api/limits.py:125-151 | a body within the limit is delivered whole and the wire is exactly what the application sent; the limit trips if and only if more is offered |
| `BodyLimit.WithinLimitPasses` | src/adaptive_disclosure_gateway/api/limits.py:104-163 | the whole call: whenever the headers let it run and no more is offered than the limit, the application runs, every byte offered is delivered, the wire is what it sent, and only its own exception leaves |
| `BodyLimit.RunsExactly` | src/adaptive_disclosure_gateway/api/limits.py:73-118 | the application runs if and only if no content length is declared or the first header of that name, in letters of either case, has no number or one within the limit; otherwise the call is one 413 answer with nothing read |
| `BodyLimit.DeclaredTooLongIsRefused` | src/adaptive_disclosure_gateway/api/limits.py:73-86 | the first content-length header, if it is over the limit, refuses the request before anything is read or run |
| `BodyLimit.Guard.CountingReceive` | src/adaptive_disclosure_gateway/api/limits.py:125-133 | counts every body chunk, and raises once the total passes the limit |
| `BodyLimit.Guard.GuardedSend` | src/adaptive_disclosure_gateway/api/limits.py:135-151 | after an early trip the first message is replaced by the 413 pair and later ones are dropped; otherwise messages pass |
| `BodyLimit.Guard.Finish` | src/adaptive_disclosure_gateway/api/limits.py:153-163 | the signal is answered unless answered already, and let through once a status line is out; other exceptions pass |
| `MarkdownBlocks.BlocksFromMarkdown` | src/adaptive_disclosure_gateway/application/ingestion.py:227-300 | the nested loops end and build the blocks of the cover of the lines |
| `MarkdownBlocks.SegmentsUnique` | src/adaptive_disclosure_gateway/application/ingestion.py:242-300 | any division into well-kinded, maximal ranges with only blank lines between them is the cover |
| `MarkdownBlocks.CoverSegments` | src/adaptive_disclosure_gateway/application/ingestion.py:242-300 | the cover is such a division |
| `MarkdownBlocks.EveryLineOnce` | src/adaptive_disclosure_gateway/application/ingestion.py:242-300 | every non-blank line lies in exactly one block and no blank line in any |
| `MarkdownBlocks.BlocksInOrder` | src/adaptive_disclosure_gateway/application/ingestion.py:249-298 | block offsets are in bounds, in order and disjoint |
| `MarkdownBlocks.SliceBlocksExact` | src/adaptive_disclosure_gateway/application/ingestion.py:267-298 | text and table blocks equal the slice they name |
| `MarkdownBlocks.HeadingExactIff` | src/adaptive_disclosure_gateway/application/ingestion.py:249-264 | a heading block has its level and names the offsets one character after its hashes, and it equals that slice if and only if one whitespace character follows the hashes, or the title is itself one space equal to the character there |
| `MarkdownBlocks.TwoSpacesMisplace` | src/adaptive_disclosure_gateway/application/ingestion.py:249-264 | the failing input: of `#  T` the block is titled T but names the second space |
| `MarkdownBlocks.ReadsFirstMatch` | src/adaptive_disclosure_gateway/application/ingestion.py:215 | a heading is read whenever the pattern matches, with the longest gap and then the shortest title |
| `MarkdownBlocks.ReadsAMatch` | src/adaptive_disclosure_gateway/application/ingestion.py:215 | what is read as a heading is a match of the pattern |
| `MarkdownBlocks.SeparatorsAreRows` | src/adaptive_disclosure_gateway/application/ingestion.py:216 | a line is read as a table separator if and only if it is a row of the grammar: two or more cells of dashes with optional colons, between bars, the outer bars optional |
| `MarkdownBlocks.TablesExactly` | src/adaptive_disclosure_gateway/application/ingestion.py:219-224 | a table starts at a line if and only if it holds a bar and the next line, the spaces around it aside, is such a row |
| `MarkdownBlocks.LinesAreLines` | src/adaptive_disclosure_gateway/application/ingestion.py:234-240 | every line has a break only at its end, and one there unless the text ends; a carriage return and the line feed after it are never parted |
| `MarkdownBlocks.LinesTile` | src/adaptive_disclosure_gateway/application/ingestion.py:234-240 | the numbered lines tile the text without gap and carry what they span |
| `VaultExplorer.ExplorerRoundTrip` | src/adaptive_disclosure_gateway/application/vault_explorer.py:198-310 | against any vault that kept what was there at issue, an unexpired reference shows exactly the distinct pairs in first-occurrence order, all present with their recorded originals, and no scope if and only if nothing was pseudonymized; an expired one is rejected |
| `VaultExplorer.DistinctPairs` | src/adaptive_disclosure_gateway/application/vault_explorer.py:212-227 | no pair is listed twice and every pseudonymized pair is listed, at its first occurrence |
| `VaultExplorer.DistinctPseudonyms` | src/adaptive_disclosure_gateway/application/vault_explorer.py:212-227 | the loop with its set of seen pairs collects those first occurrences in order |
| `VaultExplorer.VaultExplorerSealer.IssueReference` | src/adaptive_disclosure_gateway/application/vault_explorer.py:198-267 | no token, and nothing sealed, where no reference may be issued; otherwise exactly the reference is sealed, to expire 900 seconds after the clock or within the second before |
| `VaultExplorer.IssuedExactly` | src/adaptive_disclosure_gateway/application/vault_explorer.py:198-250 | a reference is issued if and only if the decision is allowed and either nothing in it is reversible, and then it is blank, or the resolved scope is narrower than the organization, its identifier is at hand and the vault gives every distinct pair its recorded original, and then it holds those pairs in order |
| `VaultExplorer.OpensExactly` | src/adaptive_disclosure_gateway/application/vault_explorer.py:312-367 | a presented text opens if and only if what was sealed is an object of version 1 with an integer expiry not passed, a scope and a key or neither, and entries of two texts and no more |
| `VaultExplorer.VaultExplorerSealer.Explore` | src/adaptive_disclosure_gateway/application/vault_explorer.py:269-342 | a text that is the prefix `vx1`, a dot and the base64url form of an issued envelope shows its reference, looked up in the vault as it is, until it expires; everything else is the one rejection |
| `VaultExplorer.AreResolved` | src/adaptive_disclosure_gateway/application/vault_explorer.py:236-238 | the verification loop succeeds exactly when each pair still resolves to its original |
| `VaultExplorer.LookUpAll` | src/adaptive_disclosure_gateway/application/vault_explorer.py:282-303 | one point lookup per entry, in order, with its presence flag |
| `Policies.FromDirectory` | src/adaptive_disclosure_gateway/policies.py:97-117 | a version ends up loaded if and only if an odd number of valid documents declare it, as the last of them; a file is reported, with its own error or the version it repeats, if and only if it is invalid or repeats a version loaded at that point |
| `Policies.EvenCopiesFailClosed` | src/adaptive_disclosure_gateway/policies.py:119-199 | with an even number of copies of the version in force every category is blocked, the scope is the narrowest and reconstruction is refused; what is not blocked rests on the last copy |
| `Policies.ScopeKeysApart` | src/adaptive_disclosure_gateway/transformations/decision_application.py:60-78 | partition keys of different scopes never coincide, and in one domain they coincide only for the same identifier of the scope |
| `Policies.ThirdCopyLoads` | src/adaptive_disclosure_gateway/policies.py:103-117 | the failing input: of three files declaring one version the third is loaded and only the second reported |
| `Policies.UnresolvedFailsClosed` | src/adaptive_disclosure_gateway/policies.py:163-199 | reconstruction is refused only where the version is not loaded or its domain differs; there every category is blocked with that reason and no action space, and the scope is the narrowest |
| `Policies.OverrideOrderIrrelevant` | src/adaptive_disclosure_gateway/policies.py:132-146 | permuting a rule's overrides changes no decision |
| `Policies.OneOverrideDecides` | src/adaptive_disclosure_gateway/policies.py:132-160 | exactly one matching override decides wherever it stands, a task-dependent one within what the purpose allows |
| `Policies.DefaultDecides` | src/adaptive_disclosure_gateway/policies.py:132-160 | without a matching override the rule's default decides, under the same constraint |
| `Policies.AmbiguityBlocks` | src/adaptive_disclosure_gateway/policies.py:132-134 | two overrides that apply block, with the reason and no action space |
| `Policies.ScopeNeverWider` | src/adaptive_disclosure_gateway/policies.py:178-210 | the resolved scope is never wider than the requested one nor than the maximum of the user or, without one, of the role or, without one, the default |
| `Policies.ScopeIsLimited` | src/adaptive_disclosure_gateway/policies.py:200-210 | it is the requested scope if that is within this maximum and the maximum otherwise, in the order request, document, session, organization |
| `Flow.ExecutingWasConfirmed` | web/lib/flow.ts:155-305 | over every event sequence, the executing screen is reached only by a submission, the preview waited for from that very submission on and a confirmation, in this order since the last start, and holds that compose state, that preview and its token; nothing but waiting has happened since the confirmation |
| `Flow.ReviewWasPreviewed` | web/lib/flow.ts:233-305 | a review holds a submitted compose state and the preview that came back for that very submission, also after a failed send |
| `Flow.OutcomeWasExecuted` | web/lib/flow.ts:272-293 | a shown outcome came back while that compose state and preview were executing |
| `Flow.FailedSendReturns` | web/lib/flow.ts:272-291 | over every event sequence, a failed send leads to the compose state that was confirmed, with the error, if a new preview is required, and otherwise back to the very review that was confirmed, with the error |
| `Flow.PreviewReturns` | web/lib/flow.ts:233-270 | a failed preview, and a cancelled review, lead back to the compose state that was submitted, with the error or without one |
| `Flow.ComparisonReturns` | web/lib/flow.ts:367-415 | a comparison leads back to the result it was asked from, with the error if it failed and without one if it was shown |
| `Flow.StrayEventsAreIgnored` | web/lib/flow.ts:155-415 | an event that does not belong to the screen changes nothing, and one that does leaves the screen, edits apart |
| `Flow.DetoursKeepOutcome` | web/lib/flow.ts:314-415 | whatever happens on the details and comparison screens, compose state, preview and outcome stay the same |
| `Flow.DetailsKeepResult` | web/lib/flow.ts:349-365 | without a comparison request the result is exactly the one that was left, an earlier comparison error included |
| `Flow.ComposeStaysConsistent` | web/lib/flow.ts:190-231 | over every event sequence the compose state never holds a file and a file error together, nor a document type without an analysis mode |
| `Flow.ComposeSurvives` | web/lib/flow.ts:190-415 | short of editing and starting over, no failure, cancellation, send or detour changes what was composed |
| `Flow.ApprovedNeverResends` | web/lib/flow.ts:417-427 | a review frozen after its send carries compose state and preview over and stays until the test is started over; what executes after that has a new preview and its token |
| `Flow.ApprovedIsFinal` | web/lib/flow.ts:179-184 | nothing but starting over leaves an approved review, and the reducer never makes one |

## Left out

- Sealing.Unseal: real cryptography (AES-GCM, HKDF, HMAC-SHA256) and the sizes of its outputs are idealised as above; a random nonce never repeats an envelope already sealed.
- Base64Url.Decode: the lenient decoding of malformed base64 (foreign characters skipped, stray padding, non-ASCII text) is an error here, as is a padded quantum that its decoder would accept only leniently; every issued token is well formed.
- Json.Loads: what is proved is about printed texts with spaces around them, the only ones the program hands it; JSON numbers with a fraction or exponent, surrogate escapes and non-finite constants are rejected; nothing the program seals or signs contains them.
- Sealing.PadToBucket: one definition stands for the two identical copies in the two sealers.
- Vault.InMemoryVault.Make: the token factory is any function of the call number; lock-free concurrent use is not modelled.
- RestoreHandle.RestoreHandleSealer.constructor: the minimum secret length and the key derivation are not modelled, only whether a secret is configured and the bound on the lifetime.
- Confirmation.Issue: the secret, its minimum length and its durability flag are inside the keyed function.
- ConfirmedFlow.ExecuteDecision: the provider call is one step that answers or fails; time-outs, byte counts, token usage, telemetry, audit records and the reconstruction's own outcome codes are left out.
- ConfirmedFlow.Take: `export`, `restore`, `compare_strategies`, the example and document request builders, and exceptions raised inside the decision phase are not steps of the machine; they transmit nothing.
- ConfirmedFlow.NonEmptyWasAllowed: that blocked results carry no payload is a condition on the observed decisions, as every blocked result the treatments and the pipeline build does.
- Export.Export: the decision phase before it is a parameter, as in the confirmed flow.
- Seqs.Slice: bounds that are not negative only, the ones the callers have.
- Disclosure.AllowedResult: which action each category gets (the treatments, task relevance, policy-constrained choice, generalization levels and downgrades) is an input; the policy-effect fields of a decision are left out.
- Export.ExportThenRestore: categories that end in a second mark, none of which is in use, are not covered, since their pseudonyms hold two marks (`Vault.MadePseudonymIsOne`).
- Pseudonyms.RestoreExactIff: the exact condition is stated for prefix-free tokens; with a prefix pair wrong replacements can spell the right text (`Pseudonyms.PrefixPairReadsOn`), so no condition on occurrences is exact, and `Pseudonyms.RestoreExact` gives a sufficient one.
- Export.ExportRestoreExactly: prefix-free for the same reason; pseudonyms without a collision suffix always are (`Pseudonyms.PrefixBySuffix`), and `Export.ExportRestoreRoundTrip` has no such condition.
- Detector.Detect: the labelled-line patterns are arbitrary sources of spans.
- Overlap.ResolveOverlaps: offsets are integers; spans built with missing or non-integer offsets, which the code rejects the same way, cannot be expressed.
- BodyLimit.Guard.GuardedSend: sending is atomic; a suspension between the check and the forwarded message is not modelled, nor are header lists other than the content length.
- BodyLimit.HandleHttp: scopes other than HTTP pass through unchanged and are not modelled.
- MarkdownBlocks.BlocksFromMarkdown: Docling, file decoding, and the byte and character limits of ingestion are left out.
- Policies.FromDirectory: reading, YAML and schema validation are one given result per file; file names in a directory are distinct.
- VaultExplorer.VaultExplorerSealer.IssueReference: the first loop and the verification loop are methods of their own; span counters for telemetry are left out.
- Flow.Reduce: responses, errors and files are carried as opaque values; restoring history snapshots, request bodies, form data and readiness of the compose form are outside the reducer.
- The other response guards, routes, command line, proxy, provider adapters, settings, experiments and interface copy: plumbing or presentation.
