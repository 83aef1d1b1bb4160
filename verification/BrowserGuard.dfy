/** The `inspection` field on the wire, and the browser's check of it against the payload of the same
    response. */
module BrowserGuard {
  import opened Wrappers
  import opened Disclosure
  import opened Inspection
  import opened Json
  import opened Seqs
  import Sealing
  import Vault
  import VaultExplorer

  // ----- the server's side -----

  function ActionCode(a: Action): string {
    match a
    case Preserve => "preserve"
    case Pseudonymize => "pseudonymize"
    case Generalize => "generalize"
    case Remove => "remove"
    case BlockRequest => "block_request"
    case TaskDependent => "task_dependent"
  }

  function StringOrNull(s: Option<string>): JValue {
    match s case Some(x) => JString(x) case None => JNull
  }

  function SegmentToWire(s: Segment): JValue {
    JObject([
      Field("action", match s.action case Some(a) => JString(ActionCode(a)) case None => JNull),
      Field("category", StringOrNull(s.category)),
      Field("original", JString(s.original)),
      Field("disclosed", JString(s.disclosed))])
  }

  function SegmentsToWire(segments: seq<Segment>): (r: seq<JValue>)
    ensures |r| == |segments| && forall i :: 0 <= i < |r| ==> r[i] == SegmentToWire(segments[i])
  {
    seq(|segments|, i requires 0 <= i < |segments| => SegmentToWire(segments[i]))
  }

  function ReasonCode(r: Reason): string {
    match r case BlockedReason => "blocked" case AlignmentFailed => "alignment_failed"
  }

  /** A preview without the inspection surface carries null. */
  function ToWire(i: Option<Inspection>): JValue {
    match i
    case None => JNull
    case Some(i) =>
      JObject([
        Field("available", JBool(i.available)),
        Field("unavailable_reason", match i.unavailableReason case Some(r) => JString(ReasonCode(r)) case None => JNull),
        Field("segments", JArray(SegmentsToWire(i.segments)))])
  }

  // ----- the browser's side; a missing field is undefined, which passes no check -----

  function Get(v: JValue, key: string): Option<JValue>
    requires v.JObject?
  {
    var m := ToMap(v.fields);
    if key in m then Some(m[key]) else None
  }

  predicate IsString(v: Option<JValue>) { v.Some? && v.value.JString? }

  predicate IsStringOrNull(v: Option<JValue>) { v == Some(JNull) || IsString(v) }

  predicate IsInspectionSegment(v: JValue) {
    && v.JObject?
    && IsStringOrNull(Get(v, "action")) && IsStringOrNull(Get(v, "category"))
    && IsString(Get(v, "original")) && IsString(Get(v, "disclosed"))
    && (Get(v, "action") == Some(JNull) <==> Get(v, "category") == Some(JNull))
  }

  function DisclosedField(v: JValue): string {
    if v.JObject? && IsString(Get(v, "disclosed")) then Get(v, "disclosed").value.s else ""
  }

  predicate IsDisclosureInspectionField(v: JValue, externalPayload: string) {
    v == JNull ||
    (v.JObject? && Get(v, "available").Some? && Get(v, "available").value.JBool? &&
     Get(v, "segments").Some? && Get(v, "segments").value.JArray? &&
     (var segments := Get(v, "segments").value.items;
      && (forall i :: 0 <= i < |segments| ==> IsInspectionSegment(segments[i]))
      && if !Get(v, "available").value.b then segments == [] && IsString(Get(v, "unavailable_reason"))
         else Get(v, "unavailable_reason") == Some(JNull) && FlatMap(DisclosedField, segments) == externalPayload))
  }

  // ----- what is on the wire, and what the guards demand, name by name -----

  function Fields(v: JValue): map<string, JValue> { if v.JObject? then ToMap(v.fields) else map[] }

  /** What a segment is sent as. */
  lemma SegmentReadsBack(s: Segment)
    ensures Fields(SegmentToWire(s)) ==
            map["action" := match s.action
                            case None => JNull
                            case Some(Preserve) => JString("preserve")
                            case Some(Pseudonymize) => JString("pseudonymize")
                            case Some(Generalize) => JString("generalize")
                            case Some(Remove) => JString("remove")
                            case Some(BlockRequest) => JString("block_request")
                            case Some(TaskDependent) => JString("task_dependent"),
                "category" := if s.category.Some? then JString(s.category.value) else JNull,
                "original" := JString(s.original), "disclosed" := JString(s.disclosed)]
  {
    var f := SegmentToWire(s).fields;
    ToMapFour(f[0], f[1], f[2], f[3]);
    assert "category"[0] == 'c' && "original"[0] == 'o' && "action"[0] == 'a' && "disclosed"[0] == 'd';
  }

  /** What an inspection is sent as. */
  lemma InspectionReadsBack(i: Inspection)
    ensures ToWire(None) == JNull
    ensures Fields(ToWire(Some(i))) ==
            map["available" := JBool(i.available),
                "unavailable_reason" := match i.unavailableReason
                                        case None => JNull
                                        case Some(BlockedReason) => JString("blocked")
                                        case Some(AlignmentFailed) => JString("alignment_failed"),
                "segments" := JArray(SegmentsToWire(i.segments))]
  {
    var f := ToWire(Some(i)).fields;
    ToMapThree(f[0], f[1], f[2]);
    assert "available"[0] == 'a' && "segments"[0] == 's' && "unavailable_reason"[0] == 'u';
  }

  predicate TextAt(m: map<string, JValue>, key: string) { key in m && m[key].JString? }

  predicate NullAt(m: map<string, JValue>, key: string) { key in m && m[key] == JNull }

  /** Of any value whatever: a segment has two texts, and an action and a category, both texts or both
      null. */
  lemma SegmentGuard(v: JValue)
    ensures var m := Fields(v);
            (IsInspectionSegment(v)
             <==> && TextAt(m, "original") && TextAt(m, "disclosed")
                  && ((TextAt(m, "action") && TextAt(m, "category")) || (NullAt(m, "action") && NullAt(m, "category"))))
  {
    hide ToMap;
  }

  /** And an inspection is null, or unavailable with a reason and no segments, or available without a
      reason, with segments whose disclosed texts make up the payload. */
  lemma InspectionGuard(v: JValue, payload: string)
    ensures var m := Fields(v);
            (IsDisclosureInspectionField(v, payload)
             <==> || v == JNull
                  || ("available" in m && m["available"] == JBool(false) && "segments" in m && m["segments"] == JArray([])
                      && TextAt(m, "unavailable_reason"))
                  || ("available" in m && m["available"] == JBool(true) && "segments" in m && m["segments"].JArray?
                      && NullAt(m, "unavailable_reason")
                      && (forall i :: 0 <= i < |m["segments"].items| ==> IsInspectionSegment(m["segments"].items[i]))
                      && FlatMap(DisclosedField, m["segments"].items) == payload))
  {
    hide ToMap, IsInspectionSegment;
  }

  // ----- agreement -----

  lemma SegmentOnWire(s: Segment)
    ensures IsInspectionSegment(SegmentToWire(s)) <==> IsPaired(s)
    ensures DisclosedField(SegmentToWire(s)) == s.disclosed
  {
    var f := SegmentToWire(s).fields;
    ToMapFour(f[0], f[1], f[2], f[3]);
    assert "category"[0] == 'c' && "original"[0] == 'o';
  }

  lemma {:induction false} SegmentsOnWire(segments: seq<Segment>)
    ensures FlatMap(DisclosedField, SegmentsToWire(segments)) == DisclosedText(segments)
  {
    if |segments| > 0 {
      SegmentOnWire(segments[0]);
      SegmentsOnWire(segments[1..]);
      assert SegmentsToWire(segments)[1..] == SegmentsToWire(segments[1..]);
    }
  }

  /** Action and category are absent together or present together. */
  predicate IsPaired(s: Segment) { s.action.None? <==> s.category.None? }

  predicate Paired(segments: seq<Segment>) {
    forall i :: 0 <= i < |segments| ==> IsPaired(segments[i])
  }

  /** What the guard accepts, among everything the server can serialise. */
  lemma GuardAcceptsExactly(i: Inspection, payload: string)
    ensures IsDisclosureInspectionField(ToWire(Some(i)), payload)
       <==> Paired(i.segments) && if i.available then i.unavailableReason == None && DisclosedText(i.segments) == payload
                                  else i.segments == [] && i.unavailableReason.Some?
  {
    var f, w := ToWire(Some(i)).fields, SegmentsToWire(i.segments);
    ToMapThree(f[0], f[1], f[2]);
    SegmentsOnWire(i.segments);
    forall k | 0 <= k < |i.segments| ensures IsInspectionSegment(w[k]) <==> IsPaired(i.segments[k]) {
      SegmentOnWire(i.segments[k]);
    }
  }

  lemma {:induction false} WalkIsPaired(text: string, ordered: seq<Overlap.Span>, ts: seq<Transformation>, cursor: nat)
    requires |ordered| == |ts| && Overlap.AllValid(ordered)
    ensures Paired(Walk(text, ordered, ts, cursor))
    decreases |ordered|
  {
    if |ordered| > 0 {
      WalkIsPaired(text, ordered[1..], ts[1..], ordered[0].end);
      assert Paired(GapAndSegment(text, ordered[0], ts[0], cursor));
    }
  }

  /** For every text and every decision, the browser accepts the inspection the server sends along
      with that decision's payload. */
  lemma ServerAndBrowserAgree(text: string, decision: DisclosureDecision)
    ensures IsDisclosureInspectionField(ToWire(Some(BuildInspection(text, decision))), decision.result.externalPayload)
    ensures IsDisclosureInspectionField(ToWire(None), decision.result.externalPayload)
  {
    var i, payload := BuildInspection(text, decision), decision.result.externalPayload;
    InspectionIsTruthful(text, decision);
    match Alignment(text, decision.spans, decision.result.transformations, payload)
    case Some(_) =>
      Overlap.ResolutionResolves(decision.spans);
      WalkIsPaired(text, Overlap.Resolution(decision.spans).value, decision.result.transformations, 0);
      GuardAcceptsExactly(i, payload);
    case None =>
      GuardAcceptsExactly(i, payload);
  }

  // ----- the vault-explorer response -----

  const CONTRACT_VERSION := "t20-application-api-v1"

  function EntryToWire(e: VaultExplorer.ExplorerEntry): JValue {
    JObject([
      Field("category", JString(e.category)),
      Field("pseudonym", JString(e.pseudonym)),
      Field("original", StringOrNull(e.original)),
      Field("present", JBool(e.present))])
  }

  function EntriesToWire(entries: seq<VaultExplorer.ExplorerEntry>): (r: seq<JValue>)
    ensures |r| == |entries| && forall i :: 0 <= i < |r| ==> r[i] == EntryToWire(entries[i])
  {
    seq(|entries|, i requires 0 <= i < |entries| => EntryToWire(entries[i]))
  }

  function ViewToWire(v: VaultExplorer.ExplorerView): JValue {
    JObject([
      Field("contract_version", JString(CONTRACT_VERSION)),
      Field("scope", StringOrNull(v.scope)),
      Field("entry_count", JInt(|v.entries|)),
      Field("entries", JArray(EntriesToWire(v.entries)))])
  }

  predicate IsVaultExplorerEntry(v: JValue) {
    && v.JObject?
    && IsString(Get(v, "category")) && IsString(Get(v, "pseudonym")) && IsStringOrNull(Get(v, "original"))
    && Get(v, "present").Some? && Get(v, "present").value.JBool?
    && (Get(v, "present").value.b <==> Get(v, "original") != Some(JNull))
  }

  predicate IsVaultExplorerResponse(v: JValue) {
    && v.JObject? && Get(v, "contract_version") == Some(JString(CONTRACT_VERSION))
    && IsStringOrNull(Get(v, "scope")) && Get(v, "entry_count").Some? && Get(v, "entry_count").value.JInt?
    && Get(v, "entries").Some? && Get(v, "entries").value.JArray?
    && var entries := Get(v, "entries").value.items;
       && (forall i :: 0 <= i < |entries| ==> IsVaultExplorerEntry(entries[i]))
       && Get(v, "entry_count").value.n == |entries|
       && (Get(v, "scope") == Some(JNull) ==> entries == [])
  }

  /** What a view is sent as. */
  lemma ViewReadsBack(v: VaultExplorer.ExplorerView)
    ensures Fields(ViewToWire(v)) ==
            map["contract_version" := JString("t20-application-api-v1"),
                "scope" := if v.scope.Some? then JString(v.scope.value) else JNull,
                "entry_count" := JInt(|v.entries|), "entries" := JArray(EntriesToWire(v.entries))]
  {
    var f := ViewToWire(v).fields;
    ToMapFour(f[0], f[1], f[2], f[3]);
    assert "contract_version"[0] == 'c' && "scope"[0] == 's' && |"entry_count"| == 11 && |"entries"| == 7;
  }

  lemma EntryReadsBack(e: VaultExplorer.ExplorerEntry)
    ensures Fields(EntryToWire(e)) ==
            map["category" := JString(e.category), "pseudonym" := JString(e.pseudonym),
                "original" := if e.original.Some? then JString(e.original.value) else JNull, "present" := JBool(e.present)]
  {
    var f := EntryToWire(e).fields;
    ToMapFour(f[0], f[1], f[2], f[3]);
    assert "category"[0] == 'c' && "pseudonym"[1] == 's' && "original"[0] == 'o' && "present"[1] == 'r';
  }

  /** Of any value whatever: an entry has two texts, and is present with an original or absent without. */
  lemma EntryGuard(v: JValue)
    ensures var m := Fields(v);
            (IsVaultExplorerEntry(v)
             <==> && TextAt(m, "category") && TextAt(m, "pseudonym") && "present" in m
                  && ((m["present"] == JBool(true) && TextAt(m, "original")) || (m["present"] == JBool(false) && NullAt(m, "original"))))
  {
    hide ToMap;
  }

  /** And a response is of this contract, counts its entries, and has none without a scope. */
  lemma ResponseGuard(v: JValue)
    ensures var m := Fields(v);
            (IsVaultExplorerResponse(v)
             <==> && "contract_version" in m && m["contract_version"] == JString("t20-application-api-v1")
                  && "entries" in m && m["entries"].JArray?
                  && (forall i :: 0 <= i < |m["entries"].items| ==> IsVaultExplorerEntry(m["entries"].items[i]))
                  && "entry_count" in m && m["entry_count"] == JInt(|m["entries"].items|)
                  && (TextAt(m, "scope") || (NullAt(m, "scope") && m["entries"] == JArray([]))))
  {
    hide ToMap, IsVaultExplorerEntry;
  }

  lemma EntryOnWire(e: VaultExplorer.ExplorerEntry)
    ensures IsVaultExplorerEntry(EntryToWire(e)) <==> (e.present <==> e.original.Some?)
  {
    var f := EntryToWire(e).fields;
    ToMapFour(f[0], f[1], f[2], f[3]);
    assert "category"[0] == 'c' && "pseudonym"[1] == 's' && "original"[0] == 'o' && "present"[1] == 'r';
  }

  /** Among everything the server can serialise, the guard accepts exactly the views whose flags tell
      the truth and that show nothing without a scope. */
  lemma ExplorerGuardAcceptsExactly(v: VaultExplorer.ExplorerView)
    ensures IsVaultExplorerResponse(ViewToWire(v))
       <==> (v.scope == None ==> v.entries == [])
            && forall i :: 0 <= i < |v.entries| ==> (v.entries[i].present <==> v.entries[i].original.Some?)
  {
    var f, w := ViewToWire(v).fields, EntriesToWire(v.entries);
    ToMapFour(f[0], f[1], f[2], f[3]);
    assert "contract_version"[0] == 'c' && "scope"[0] == 's' && |"entry_count"| == 11 && |"entries"| == 7;
    forall i | 0 <= i < |w| ensures IsVaultExplorerEntry(w[i]) <==> (v.entries[i].present <==> v.entries[i].original.Some?) {
      EntryOnWire(v.entries[i]);
    }
  }

  /** Whatever token is presented and whatever the vault holds, what `explore` answers is accepted. */
  lemma ExplorerAndBrowserAgree(table: Sealing.Table, token: string, reverse: Vault.Reverse, now: real)
    requires VaultExplorer.ExploreReference(table, token, reverse, now).Ok?
    ensures IsVaultExplorerResponse(ViewToWire(VaultExplorer.ExploreReference(table, token, reverse, now).value))
  {
    ExplorerGuardAcceptsExactly(VaultExplorer.ExploreReference(table, token, reverse, now).value);
    hide IsVaultExplorerResponse, ViewToWire, Sealing.Unseal, VaultExplorer.IsValidSchema;
  }
}
