/** The confirmed document flow as a state machine: previews, executions, clock changes and arbitrary
    caller requests, against detectors and treatments that may answer differently on every call. */
module ConfirmedFlow {
  import opened Wrappers
  import opened Confirmation
  import opened Json
  import opened Disclosure
  import opened Policies
  import Overlap
  import Vault

  // ----- requests and configuration -----

  datatype Treatment = B0 | B1 | B2 | B3 | B4

  datatype Strategy = Recommended | Explicit(treatment: Treatment)

  function ResolveTreatment(s: Strategy): Treatment {
    match s case Recommended => B4 case Explicit(t) => t
  }

  function TreatmentCode(t: Treatment): string {
    match t case B0 => "b0" case B1 => "b1" case B2 => "b2" case B3 => "b3" case B4 => "b4"
  }

  function StrategyCode(s: Strategy): string {
    match s case Recommended => "recommended" case Explicit(t) => TreatmentCode(t)
  }

  /** The unsafe-control capability marker, carried by B0 alone. */
  predicate IsUnsafeControl(t: Treatment) { t == B0 }

  datatype GovernanceOverrides = GovernanceOverrides(
    purpose: Option<string>, requesterRole: Option<string>, requesterId: Option<string>, providerClass: Option<string>,
    policyVersion: Option<string>, requestedPseudonymScope: Option<Vault.Scope>, sessionId: Option<string>,
    documentId: Option<string>, requestId: Option<string>, domain: Option<string>)

  function Or<T>(override: Option<T>, default: T): T {
    match override case Some(x) => x case None => default
  }

  function OrElse<T>(override: Option<T>, default: Option<T>): Option<T> {
    if override.Some? then override else default
  }

  function MergeOverrides(c: GovernanceContext, o: GovernanceOverrides): GovernanceContext {
    GovernanceContext(
      Or(o.domain, c.domain), Or(o.purpose, c.purpose), OrElse(o.requesterRole, c.requesterRole),
      OrElse(o.requesterId, c.requesterId), Or(o.providerClass, c.providerClass), Or(o.policyVersion, c.policyVersion),
      Or(o.requestedPseudonymScope, c.requestedPseudonymScope), OrElse(o.requestId, c.requestId),
      OrElse(o.documentId, c.documentId), OrElse(o.sessionId, c.sessionId))
  }

  const NO_OVERRIDES := GovernanceOverrides(None, None, None, None, None, None, None, None, None, None)

  /** Overriding every field with what `c` has. */
  function AllOf(c: GovernanceContext): GovernanceOverrides {
    GovernanceOverrides(Some(c.purpose), c.requesterRole, c.requesterId, Some(c.providerClass), Some(c.policyVersion),
                        Some(c.requestedPseudonymScope), c.sessionId, c.documentId, c.requestId, Some(c.domain))
  }

  /** Every field is the override where there is one and the default's where there is none. */
  lemma MergedFields(c: GovernanceContext, o: GovernanceOverrides)
    ensures var m := MergeOverrides(c, o);
            && m.domain == (if o.domain.Some? then o.domain.value else c.domain)
            && m.purpose == (if o.purpose.Some? then o.purpose.value else c.purpose)
            && m.requesterRole == (if o.requesterRole.Some? then o.requesterRole else c.requesterRole)
            && m.requesterId == (if o.requesterId.Some? then o.requesterId else c.requesterId)
            && m.providerClass == (if o.providerClass.Some? then o.providerClass.value else c.providerClass)
            && m.policyVersion == (if o.policyVersion.Some? then o.policyVersion.value else c.policyVersion)
            && m.requestedPseudonymScope == (if o.requestedPseudonymScope.Some? then o.requestedPseudonymScope.value
                                             else c.requestedPseudonymScope)
            && m.requestId == (if o.requestId.Some? then o.requestId else c.requestId)
            && m.documentId == (if o.documentId.Some? then o.documentId else c.documentId)
            && m.sessionId == (if o.sessionId.Some? then o.sessionId else c.sessionId)
  {
  }

  /** Without overrides the default context stands; overriding with a whole context gives that context,
      except that an absent identifier or role does not erase one; and overriding twice is overriding
      once. */
  lemma MergeLaws(c: GovernanceContext, d: GovernanceContext, o: GovernanceOverrides)
    ensures MergeOverrides(c, NO_OVERRIDES) == c
    ensures MergeOverrides(c, AllOf(d)) ==
            d.(requesterRole := if d.requesterRole == None then c.requesterRole else d.requesterRole,
               requesterId := if d.requesterId == None then c.requesterId else d.requesterId,
               requestId := if d.requestId == None then c.requestId else d.requestId,
               documentId := if d.documentId == None then c.documentId else d.documentId,
               sessionId := if d.sessionId == None then c.sessionId else d.sessionId)
    ensures MergeOverrides(MergeOverrides(c, o), o) == MergeOverrides(c, o)
  {
  }

  datatype DocumentDescriptor = DocumentDescriptor(documentType: string, analysisMode: string)

  datatype Request = Request(
    text: string, task: string, strategy: Strategy, governance: GovernanceOverrides, document: Option<DocumentDescriptor>)

  /** What is fixed for one service: its default context, its provider's class and its signer. */
  datatype Service = Service(defaultContext: GovernanceContext, providerClass: string, ttlSeconds: int, hmac: Hmac)

  const DEFAULT_PROVIDER_NAME := "fake"

  // ----- the decision phase -----

  /** Whatever the detector and the treatment happened to answer on one call. */
  datatype Observed = Observed(spans: seq<Overlap.Span>, result: DisclosureResult, taskSpans: seq<Overlap.Span>)

  const BLOCKED_FOR_TASK := DisclosureResult("", [], Blocked)

  /** `decide_disclosure`: an allowed result is blocked when the task itself is sensitive, except for
      the unsafe control. */
  function DecideDisclosure(t: Treatment, o: Observed): DisclosureDecision {
    DisclosureDecision(o.spans,
      if o.result.status == Allowed && !IsUnsafeControl(t) && o.taskSpans != [] then BLOCKED_FOR_TASK else o.result)
  }

  datatype Preview = Preview(externalPayload: string, treatment: Treatment, strategy: Strategy,
                             governance: GovernanceContext, providerClass: string)

  function ContextOf(s: Service, r: Request): GovernanceContext { MergeOverrides(s.defaultContext, r.governance) }

  /** `_preview_of`: a projection of a decision already made. */
  function PreviewOf(s: Service, r: Request, d: DisclosureDecision): Preview {
    Preview(d.result.externalPayload, ResolveTreatment(r.strategy), r.strategy, ContextOf(s, r), s.providerClass)
  }

  /** `_confirmation_state`, for the document surface only. */
  function StateOf(r: Request, p: Preview): Option<ConfirmationState> {
    match r.document
    case None => None
    case Some(d) =>
      Some(ConfirmationState(
        r.text, r.task, d.documentType, d.analysisMode, p.governance.domain, p.governance.policyVersion,
        p.governance.purpose, p.governance.requesterRole, Vault.ScopeCode(p.governance.requestedPseudonymScope),
        p.governance.providerClass, p.providerClass, StrategyCode(p.strategy), TreatmentCode(p.treatment),
        p.externalPayload))
  }

  /** The state leaves out nothing it is meant to bind: equal states come from requests for the same
      document, task, type, mode and strategy, previewed with the same payload and treatment under the
      same governance, requester and lifecycle identifiers aside, and the same provider class. */
  lemma StateBindsAll(r: Request, p: Preview, q: Request, v: Preview)
    requires r.document.Some? && StateOf(r, p) == StateOf(q, v)
    ensures q.text == r.text && q.task == r.task && q.document == r.document
    ensures v.externalPayload == p.externalPayload && v.treatment == p.treatment && v.strategy == p.strategy
    ensures v.providerClass == p.providerClass
    ensures v.governance == p.governance.(requesterId := v.governance.requesterId, requestId := v.governance.requestId,
                                          documentId := v.governance.documentId, sessionId := v.governance.sessionId)
  {
    assert "b0"[1] == '0' && "b1"[1] == '1' && "b2"[1] == '2' && "b3"[1] == '3' && "b4"[1] == '4' && |"recommended"| == 11;
    assert "request"[0] == 'r' && "document"[0] == 'd' && "session"[0] == 's' && "organization"[0] == 'o';
  }

  // ----- execution of a decision -----

  datatype ProviderRequest = ProviderRequest(payload: string, task: string)

  /** What `generate` does once it is called. */
  datatype Answer = Responds(text: string) | Fails(kind: string)

  datatype Execution = Execution(
    result: DisclosureResult, response: Option<string>, reconstructed: Option<string>,
    providerClass: Option<string>, providerCalled: bool, failureKind: Option<string>)

  /** `execute_disclosure_decision` with `invoke_provider`: the request handed to `generate`, if any,
      and what the execution reports. */
  method ExecuteDecision(s: Service, r: Request, d: DisclosureDecision, answer: Answer, reconstruct: Option<string -> string>)
      returns (sent: Option<ProviderRequest>, e: Execution)
    ensures e.result == d.result && (e.providerCalled <==> sent.Some?)
    ensures e.response == if sent.Some? && answer.Responds? then Some(answer.text) else None
    ensures e.reconstructed == if e.response.Some? && reconstruct.Some? then Some(reconstruct.value(answer.text)) else None
    ensures e.providerClass == if d.result.status == Allowed then Some(s.providerClass) else None
    ensures sent == if d.result.status == Allowed && ClassMatches(s, r)
                    then Some(ProviderRequest(d.result.externalPayload, r.task)) else None
    ensures e.failureKind == if d.result.status != Allowed then None
                             else if !ClassMatches(s, r) then Some("ProviderClassMismatchError")
                             else if answer.Fails? then Some(answer.kind) else None
  {
    var response: Option<string> := None;
    var reconstructed: Option<string> := None;
    var providerClass: Option<string> := None;
    var attempted := false;
    var failureKind: Option<string> := None;
    sent := None;
    if d.result.status == Allowed {
      providerClass := Some(s.providerClass);
      if s.providerClass != ContextOf(s, r).providerClass {
        failureKind := Some("ProviderClassMismatchError");
      } else {
        sent := Some(ProviderRequest(d.result.externalPayload, r.task));
        attempted := true;
        match answer {
          case Fails(kind) => failureKind := Some(kind);
          case Responds(text) =>
            response := Some(text);
            if reconstruct.Some? { reconstructed := Some(reconstruct.value(text)); }
        }
      }
    }
    e := Execution(d.result, response, reconstructed, providerClass, attempted, failureKind);
  }

  /** What reaches the provider: the decision's own payload, if allowed and if the provider is of the
      class policy was evaluated against. */
  function Transmitted(s: Service, r: Request, d: DisclosureDecision): Option<ProviderRequest> {
    if d.result.status == Allowed && s.providerClass == ContextOf(s, r).providerClass
    then Some(ProviderRequest(d.result.externalPayload, r.task)) else None
  }

  // ----- runs -----

  /** One token handed out: the preview behind it, the state it approves, its claims and when. */
  datatype Grant = Grant(request: Request, observed: Observed, state: ConfirmationState, claims: Claims, at: real)

  /** One call of the provider: what was sent, the execution behind it and how many tokens were out by
      then. */
  datatype Transmission = Transmission(
    sent: ProviderRequest, request: Request, observed: Observed, at: real, grantsBefore: nat)

  datatype World = World(now: real, grants: seq<Grant>, log: seq<Transmission>)

  const START := World(0.0, [], [])

  datatype Step =
    | SetClock(now: real)
    | PreviewStep(request: Request, observed: Observed)
    | PreviewDocumentStep(request: Request, observed: Observed)
    | ExecuteStep(request: Request, observed: Observed)
    | ExecuteDocumentStep(request: Request, observed: Observed, token: string)

  datatype Outcome = Done | Token(token: string) | Executed | Rejected | UnsafeControlRefused

  function Decided(r: Request, o: Observed): DisclosureDecision { DecideDisclosure(ResolveTreatment(r.strategy), o) }

  function Send(s: Service, w: World, r: Request, o: Observed): World {
    match Transmitted(s, r, Decided(r, o))
    case None => w
    case Some(sent) => w.(log := w.log + [Transmission(sent, r, o, w.now, |w.grants|)])
  }

  function Take(s: Service, w: World, step: Step): (World, Outcome) {
    match step
    case SetClock(now) => (w.(now := now), Done)
    case PreviewStep(_, _) => (w, Done)
    case PreviewDocumentStep(r, o) =>
      (match StateOf(r, PreviewOf(s, r, Decided(r, o)))
       case None => (w, Rejected)
       case Some(state) =>
         (w.(grants := w.grants + [Grant(r, o, state, IssuedClaims(s.ttlSeconds, w.now), w.now)]),
          Token(Issue(s.hmac, s.ttlSeconds, state, w.now))))
    case ExecuteStep(r, o) =>
      if r.document.Some? then (w, Rejected) else (Send(s, w, r, o), Executed)
    case ExecuteDocumentStep(r, o, token) =>
      var d := Decided(r, o);
      match StateOf(r, PreviewOf(s, r, d))
      case None => (w, Rejected)
      case Some(state) =>
        if !Verifies(s.hmac, token, state, w.now) then (w, Rejected)
        else if IsUnsafeControl(ResolveTreatment(r.strategy)) && s.providerClass != DEFAULT_PROVIDER_NAME
        then (w, UnsafeControlRefused)
        else (Send(s, w, r, o), Executed)
  }

  /** Idealised unforgeability: a caller can present any text, but a MAC of the signer in it is one
      the signer handed out. */
  ghost predicate Unforged(s: Service, w: World, step: Step) {
    step.ExecuteDocumentStep? && Parse(step.token).Some? ==>
      forall doc :: s.hmac(doc) == Parse(step.token).value.mac ==> WasSigned(s, w, doc)
  }

  ghost predicate WasSigned(s: Service, w: World, doc: string) {
    exists i :: 0 <= i < |w.grants| && doc == SignedDocument(s.hmac, w.grants[i].state, w.grants[i].claims)
  }

  function Run(s: Service, w: World, steps: seq<Step>): World
    decreases |steps|
  {
    if |steps| == 0 then w else Run(s, Take(s, w, steps[0]).0, steps[1..])
  }

  ghost predicate Possible(s: Service, w: World, steps: seq<Step>)
    decreases |steps|
  {
    |steps| == 0 || (Unforged(s, w, steps[0]) && Possible(s, Take(s, w, steps[0]).0, steps[1..]))
  }

  // ----- what every run keeps -----

  /** What is signed for a document request with payload `payload`: every field spelled out. */
  predicate Describes(s: Service, r: Request, payload: string, state: ConfirmationState) {
    var (c, o) := (s.defaultContext, r.governance);
    && r.document.Some? && state.externalPayload == payload
    && state.normalizedDocument == r.text && state.task == r.task
    && state.documentType == r.document.value.documentType && state.analysisMode == r.document.value.analysisMode
    && state.domain == (if o.domain.Some? then o.domain.value else c.domain)
    && state.policyVersion == (if o.policyVersion.Some? then o.policyVersion.value else c.policyVersion)
    && state.purpose == (if o.purpose.Some? then o.purpose.value else c.purpose)
    && state.requesterRole == (if o.requesterRole.Some? then o.requesterRole else c.requesterRole)
    && state.governanceProviderClass == (if o.providerClass.Some? then o.providerClass.value else c.providerClass)
    && state.providerClass == s.providerClass
    && state.requestedPseudonymScope ==
       (match (if o.requestedPseudonymScope.Some? then o.requestedPseudonymScope.value else c.requestedPseudonymScope)
        case RequestScope => "request" case DocumentScope => "document"
        case SessionScope => "session" case OrganizationScope => "organization")
    && state.strategy == (match r.strategy
                          case Recommended => "recommended" case Explicit(B0) => "b0" case Explicit(B1) => "b1"
                          case Explicit(B2) => "b2" case Explicit(B3) => "b3" case Explicit(B4) => "b4")
    && state.treatment == (match r.strategy
                           case Recommended => "b4" case Explicit(B0) => "b0" case Explicit(B1) => "b1"
                           case Explicit(B2) => "b2" case Explicit(B3) => "b3" case Explicit(B4) => "b4")
  }

  /** The decision is allowed: the treatment's own result was, and nothing sensitive was found in the
      task or the strategy is the unsafe control. */
  predicate IsAllowed(r: Request, o: Observed) {
    o.result.status == Allowed && (o.taskSpans == [] || r.strategy == Explicit(B0))
  }

  /** The payload previewed: the treatment's own, but nothing when the task is what blocks it. */
  function Shown(r: Request, o: Observed): string {
    if o.result.status == Allowed && o.taskSpans != [] && r.strategy != Explicit(B0) then "" else o.result.externalPayload
  }

  /** The provider is of the class the request asks for, or the default context does. */
  predicate ClassMatches(s: Service, r: Request) {
    s.providerClass == if r.governance.providerClass.Some? then r.governance.providerClass.value
                       else s.defaultContext.providerClass
  }

  /** Grant `g` approves transmission `t` of a document request: every bound field of the request and
      of its context, the payload itself, and the validity window. */
  predicate Approves(s: Service, g: Grant, t: Transmission) {
    && Describes(s, t.request, t.sent.payload, g.state) && t.sent.task == t.request.task
    && g.claims.expiresAt.JInt? && t.at <= g.claims.expiresAt.n as real
    && (g.at >= 0.0 ==> t.at <= g.at + s.ttlSeconds as real)
  }

  ghost predicate IsApproved(s: Service, w: World, t: Transmission) {
    exists i :: 0 <= i < t.grantsBefore <= |w.grants| && Approves(s, w.grants[i], t)
  }

  /** A token's expiry is its lifetime after the second it was handed out in. */
  predicate IsTimed(s: Service, g: Grant) {
    && g.claims.expiresAt.JInt?
    && (g.at >= 0.0 ==>
          g.at + s.ttlSeconds as real - 1.0 < g.claims.expiresAt.n as real <= g.at + s.ttlSeconds as real)
  }

  ghost predicate Safe(s: Service, w: World) {
    && (forall i :: 0 <= i < |w.grants| ==> IsTimed(s, w.grants[i]))
    && forall k :: 0 <= k < |w.log| && w.log[k].request.document.Some? ==>
         && IsApproved(s, w, w.log[k])
         && (w.log[k].request.strategy == Explicit(B0) ==> s.providerClass == "fake")
  }

  lemma VerifiedWasGranted(s: Service, w: World, token: string, state: ConfirmationState) returns (i: nat)
    requires Ideal(s.hmac) && Verifies(s.hmac, token, state, w.now)
    requires forall doc :: s.hmac(doc) == Parse(token).value.mac ==> WasSigned(s, w, doc)
    requires forall k :: 0 <= k < |w.grants| ==> w.grants[k].claims.expiresAt.JInt?
    ensures i < |w.grants| && w.grants[i].state == state && w.now <= w.grants[i].claims.expiresAt.n as real
  {
    hide SignedDocument, Parse;
    var p := Parse(token).value;
    var doc := SignedDocument(s.hmac, state, p.claims);
    assert WasSigned(s, w, doc);
    i :| 0 <= i < |w.grants| && doc == SignedDocument(s.hmac, w.grants[i].state, w.grants[i].claims);
    SignedDocumentInjective(s.hmac, state, p.claims, w.grants[i].state, w.grants[i].claims);
  }

  lemma SendKeepsSafe(s: Service, w: World, r: Request, o: Observed, i: nat)
    requires Safe(s, w)
    requires r.document.Some? ==>
      && i < |w.grants| && Some(w.grants[i].state) == StateOf(r, PreviewOf(s, r, Decided(r, o)))
      && w.now <= w.grants[i].claims.expiresAt.n as real
      && (r.strategy == Explicit(B0) ==> s.providerClass == "fake")
    ensures Safe(s, Send(s, w, r, o))
  {
    var v := Send(s, w, r, o);
    forall k | 0 <= k < |v.log| && v.log[k].request.document.Some?
      ensures IsApproved(s, v, v.log[k])
      ensures v.log[k].request.strategy == Explicit(B0) ==> s.providerClass == "fake"
    {
      if k < |w.log| {
        assert v.log[k] == w.log[k] && IsApproved(s, w, w.log[k]);
      } else {
        assert Approves(s, v.grants[i], v.log[k]);
      }
    }
  }

  lemma StepKeepsSafe(s: Service, w: World, step: Step)
    requires Ideal(s.hmac) && Safe(s, w) && Unforged(s, w, step)
    ensures Safe(s, Take(s, w, step).0)
  {
    hide Verifies, Issue, Parse, Approves;
    match step
    case SetClock(_) =>
    case PreviewStep(_, _) =>
    case PreviewDocumentStep(r, o) =>
      var v := Take(s, w, step).0;
      forall k | 0 <= k < |v.log| && v.log[k].request.document.Some? ensures IsApproved(s, v, v.log[k]) {
        var i :| 0 <= i < w.log[k].grantsBefore <= |w.grants| && Approves(s, w.grants[i], w.log[k]);
        assert v.grants[i] == w.grants[i];
      }
    case ExecuteStep(r, o) =>
      if r.document.None? { SendKeepsSafe(s, w, r, o, 0); }
    case ExecuteDocumentStep(r, o, token) =>
      if Take(s, w, step).1 == Executed {
        var state := StateOf(r, PreviewOf(s, r, Decided(r, o))).value;
        VerifiedParses(s.hmac, token, state, w.now);
        var i := VerifiedWasGranted(s, w, token, state);
        SendKeepsSafe(s, w, r, o, i);
      }
  }

  lemma VerifiedParses(hmac: Hmac, token: string, state: ConfirmationState, now: real)
    requires Verifies(hmac, token, state, now)
    ensures Parse(token).Some?
  {
  }

  /** Over every possible run, whatever is asked, however the clock moves and however detectors and
      treatments answer: each document payload the provider was given is the external payload of a
      state some earlier preview signed, with all its other fields equal, within that token's
      validity; and no unsafe-control document left the trust boundary. */
  lemma {:induction false} RunIsSafe(s: Service, w: World, steps: seq<Step>)
    requires Ideal(s.hmac) && Safe(s, w) && Possible(s, w, steps)
    ensures Safe(s, Run(s, w, steps))
    decreases |steps|
  {
    if |steps| > 0 {
      StepKeepsSafe(s, w, steps[0]);
      RunIsSafe(s, Take(s, w, steps[0]).0, steps[1..]);
    }
  }

  lemma EveryRunIsSafe(s: Service, steps: seq<Step>)
    requires Ideal(s.hmac) && Possible(s, START, steps)
    ensures Safe(s, Run(s, START, steps))
  {
    RunIsSafe(s, START, steps);
  }

  // ----- where transmissions and tokens come from -----

  /** `t` is what the provider gets from this step: an allowed decision's own payload, to a provider of
      the class policy was evaluated against, with no sensitive task outside the unsafe control. */
  predicate SentBy(s: Service, step: Step, t: Transmission) {
    && ((step.ExecuteStep? && step.request.document.None?) || (step.ExecuteDocumentStep? && step.request.document.Some?))
    && t.request == step.request && t.observed == step.observed
    && t.sent == ProviderRequest(step.observed.result.externalPayload, step.request.task)
    && step.observed.result.status == Allowed && (step.observed.taskSpans == [] || step.request.strategy == Explicit(B0))
    && ClassMatches(s, step.request)
  }

  /** `g` is what this preview step signed. */
  predicate SignedBy(s: Service, step: Step, g: Grant) {
    && step.PreviewDocumentStep? && g.request == step.request && g.observed == step.observed
    && Describes(s, step.request, Shown(step.request, step.observed), g.state)
  }

  ghost predicate HasSender(s: Service, steps: seq<Step>, t: Transmission) {
    exists i :: 0 <= i < |steps| && SentBy(s, steps[i], t)
  }

  ghost predicate HasSigner(s: Service, steps: seq<Step>, g: Grant) {
    exists i :: 0 <= i < |steps| && SignedBy(s, steps[i], g)
  }

  lemma StepOrigin(s: Service, w: World, step: Step)
    ensures var v := Take(s, w, step).0;
            && w.log <= v.log && w.grants <= v.grants
            && (forall k :: |w.log| <= k < |v.log| ==> SentBy(s, step, v.log[k]))
            && (forall k :: |w.grants| <= k < |v.grants| ==> SignedBy(s, step, v.grants[k]))
  {
    hide Verifies, Issue;
  }

  lemma HeadOrigin(s: Service, steps: seq<Step>, t: Transmission)
    requires |steps| > 0 && (SentBy(s, steps[0], t) || HasSender(s, steps[1..], t))
    ensures HasSender(s, steps, t)
  {
    hide SentBy;
    if HasSender(s, steps[1..], t) {
      var i :| 0 <= i < |steps[1..]| && SentBy(s, steps[1..][i], t);
      assert SentBy(s, steps[i + 1], t);
    }
  }

  lemma HeadSigner(s: Service, steps: seq<Step>, g: Grant)
    requires |steps| > 0 && (SignedBy(s, steps[0], g) || HasSigner(s, steps[1..], g))
    ensures HasSigner(s, steps, g)
  {
    hide SignedBy;
    if HasSigner(s, steps[1..], g) {
      var i :| 0 <= i < |steps[1..]| && SignedBy(s, steps[1..][i], g);
      assert SignedBy(s, steps[i + 1], g);
    }
  }

  lemma {:induction false} RunOrigins(s: Service, w: World, steps: seq<Step>)
    ensures var e := Run(s, w, steps);
            && w.log <= e.log && w.grants <= e.grants
            && (forall k :: |w.log| <= k < |e.log| ==> HasSender(s, steps, e.log[k]))
            && (forall k :: |w.grants| <= k < |e.grants| ==> HasSigner(s, steps, e.grants[k]))
    decreases |steps|
  {
    hide Take, SentBy, SignedBy, HasSender, HasSigner;
    if |steps| > 0 {
      var v, e := Take(s, w, steps[0]).0, Run(s, w, steps);
      StepOrigin(s, w, steps[0]);
      RunOrigins(s, v, steps[1..]);
      forall k | |w.log| <= k < |e.log| ensures HasSender(s, steps, e.log[k]) {
        assert k < |v.log| ==> e.log[k] == v.log[k];
        HeadOrigin(s, steps, e.log[k]);
      }
      forall k | |w.grants| <= k < |e.grants| ensures HasSigner(s, steps, e.grants[k]) {
        assert k < |v.grants| ==> e.grants[k] == v.grants[k];
        HeadSigner(s, steps, e.grants[k]);
      }
    }
  }

  /** Over every run, document or not: each call of the provider comes from an execute step whose own
      decision was allowed and whose own payload it carries; and, outside the unsafe control, no task
      in which that execution found anything sensitive ever left. */
  lemma NoSensitiveTaskIsSent(s: Service, steps: seq<Step>)
    ensures forall k :: 0 <= k < |Run(s, START, steps).log| ==> HasSender(s, steps, Run(s, START, steps).log[k])
  {
    RunOrigins(s, START, steps);
  }

  // ----- what a blocked preview approves -----

  /** Every treatment's blocked result carries the empty payload. */
  predicate BlockedAreEmpty(steps: seq<Step>) {
    forall i :: 0 <= i < |steps| && !steps[i].SetClock? && steps[i].observed.result.status == Blocked ==>
      steps[i].observed.result.externalPayload == ""
  }

  /** A preview step of the run that came out allowed, with the payload transmitted. */
  ghost predicate HasAllowedPreview(s: Service, steps: seq<Step>, t: Transmission) {
    exists i :: 0 <= i < |steps| && PreviewedAllowed(steps[i], t)
  }

  predicate PreviewedAllowed(step: Step, t: Transmission) {
    && step.PreviewDocumentStep?
    && IsAllowed(step.request, step.observed) && step.observed.result.externalPayload == t.sent.payload
  }

  /** The status is not signed, but over runs it is bound all the same wherever there is a payload: a
      document transmission with a non-empty payload has a preview that came out allowed with it. */
  lemma NonEmptyWasAllowed(s: Service, steps: seq<Step>, k: nat)
    requires Ideal(s.hmac) && Possible(s, START, steps) && BlockedAreEmpty(steps)
    requires k < |Run(s, START, steps).log|
    requires Run(s, START, steps).log[k].request.document.Some? && Run(s, START, steps).log[k].sent.payload != ""
    ensures HasAllowedPreview(s, steps, Run(s, START, steps).log[k])
  {
    hide Run, Possible, Take, Issue, Verifies;
    EveryRunIsSafe(s, steps);
    RunOrigins(s, START, steps);
    var e := Run(s, START, steps);
    var t := e.log[k];
    var i :| 0 <= i < t.grantsBefore <= |e.grants| && Approves(s, e.grants[i], t);
    var j :| 0 <= j < |steps| && SignedBy(s, steps[j], e.grants[i]);
    SignedPayload(s, steps[j], e.grants[i], t);
    assert PreviewedAllowed(steps[j], t);
  }

  lemma SignedPayload(s: Service, step: Step, g: Grant, t: Transmission)
    requires SignedBy(s, step, g) && Approves(s, g, t) && t.sent.payload != ""
    requires step.observed.result.status == Blocked ==> step.observed.result.externalPayload == ""
    ensures PreviewedAllowed(step, t)
  {
  }

  /** No step takes back a token or a transmission, and only the two execute steps transmit, at most
      once each. */
  lemma StepOnlyAppends(s: Service, w: World, step: Step)
    ensures var v := Take(s, w, step).0;
      && v.now == (if step.SetClock? then step.now else w.now)
      && w.grants <= v.grants && w.log <= v.log && |v.log| <= |w.log| + 1
      && (|v.log| > |w.log| ==> SentBy(s, step, v.log[|w.log|]))
      && (|v.grants| > |w.grants| ==> |v.grants| == |w.grants| + 1 && SignedBy(s, step, v.grants[|w.grants|]))
  {
    hide Verifies, Issue;
  }

  /** What an execute step does to the world: it appends its own call of the provider, if it is let
      through and the decision is allowed and the class matches, and nothing otherwise. A request
      with a document is refused on the plain surface and every other one is let through there. */
  lemma ExecutesExactly(s: Service, w: World, r: Request, o: Observed, step: Step)
    requires step.ExecuteStep? || step.ExecuteDocumentStep?
    requires r == step.request && o == step.observed
    ensures var (v, outcome) := Take(s, w, step);
      && (step.ExecuteStep? ==> outcome == if r.document == None then Executed else Rejected)
      && v == if outcome == Executed && o.result.status == Allowed && ClassMatches(s, r)
                 && (o.taskSpans == [] || r.strategy == Explicit(B0))
              then World(w.now, w.grants, w.log + [Transmission(ProviderRequest(o.result.externalPayload, r.task),
                                                                r, o, w.now, |w.grants|)])
              else w
  {
    hide Verifies, Issue;
  }

  /** A request with a sensitive task goes to no provider, whatever token it comes with, unless it asks
      for the unsafe control; and that control is sent to any provider of its class all the same. */
  lemma SensitiveTaskStays(s: Service, w: World, r: Request, o: Observed, token: string)
    requires o.taskSpans != []
    ensures r.strategy != Explicit(B0) ==>
              Take(s, w, ExecuteStep(r, o)).0 == w && Take(s, w, ExecuteDocumentStep(r, o, token)).0 == w
    ensures r.strategy == Explicit(B0) && r.document == None && o.result.status == Allowed && ClassMatches(s, r) ==>
              Take(s, w, ExecuteStep(r, o)).0.log
              == w.log + [Transmission(ProviderRequest(o.result.externalPayload, r.task), r, o, w.now, |w.grants|)]
  {
    hide Take;
    ExecutesExactly(s, w, r, o, ExecuteStep(r, o));
    ExecutesExactly(s, w, r, o, ExecuteDocumentStep(r, o, token));
  }

  /** A later decision is one of the state a preview signed: the same document, task, strategy and
      payload, and the same governance as far as it is signed. */
  predicate IsSameState(s: Service, r: Request, seen: Observed, q: Request, o: Observed) {
    && q.text == r.text && q.task == r.task && q.document == r.document && q.strategy == r.strategy
    && Shown(q, o) == Shown(r, seen)
    && var (c, d) := (ContextOf(s, r), ContextOf(s, q));
       && d.domain == c.domain && d.policyVersion == c.policyVersion && d.purpose == c.purpose
       && d.requesterRole == c.requesterRole && d.providerClass == c.providerClass
       && d.requestedPseudonymScope == c.requestedPseudonymScope
  }

  lemma SameState(s: Service, r: Request, seen: Observed, q: Request, o: Observed)
    requires r.document.Some?
    ensures StateOf(q, PreviewOf(s, q, Decided(q, o))) == StateOf(r, PreviewOf(s, r, Decided(r, seen)))
       <==> IsSameState(s, r, seen, q, o)
  {
    var p, v := PreviewOf(s, r, Decided(r, seen)), PreviewOf(s, q, Decided(q, o));
    if StateOf(q, v) == StateOf(r, p) { StateBindsAll(r, p, q, v); }
  }

  /** Exactly when a token executes: for a request and a decision of the very state it was issued for,
      within its validity window, the unsafe control only with the default provider. */
  lemma TokenExecutesExactly(s: Service, w: World, r: Request, seen: Observed, later: World, q: Request, o: Observed)
    requires Ideal(s.hmac) && r.document.Some?
    ensures Take(s, w, PreviewDocumentStep(r, seen)).1.Token?
    ensures Take(s, later, ExecuteDocumentStep(q, o, Take(s, w, PreviewDocumentStep(r, seen)).1.token)).1 ==
            if !IsSameState(s, r, seen, q, o) || later.now > (Truncate(w.now) + s.ttlSeconds) as real then Rejected
            else if q.strategy == Explicit(B0) && s.providerClass != "fake" then UnsafeControlRefused
            else Executed
  {
    hide Verifies, Issue, IsSameState;
    SameState(s, r, seen, q, o);
    var state := StateOf(r, PreviewOf(s, r, Decided(r, seen))).value;
    if q.document.Some? {
      VerifiesExactly(s.hmac, s.ttlSeconds, state, w.now, StateOf(q, PreviewOf(s, q, Decided(q, o))).value, later.now);
    }
  }

  /** The same on the clock: a token executes nothing once its lifetime has passed, and is not rejected
      for its age while a second of it is left. */
  lemma TokenByClock(s: Service, w: World, r: Request, seen: Observed, later: World, q: Request, o: Observed)
    requires Ideal(s.hmac) && r.document.Some? && w.now >= 0.0
    ensures Take(s, w, PreviewDocumentStep(r, seen)).1.Token?
    ensures var outcome := Take(s, later, ExecuteDocumentStep(q, o, Take(s, w, PreviewDocumentStep(r, seen)).1.token)).1;
      && (later.now > w.now + s.ttlSeconds as real ==> outcome == Rejected)
      && (later.now + 1.0 <= w.now + s.ttlSeconds as real ==> (outcome == Rejected <==> !IsSameState(s, r, seen, q, o)))
  {
    hide Take, IsSameState;
    TokenExecutesExactly(s, w, r, seen, later, q, o);
  }

  /** The flow is not vacuous: what a preview approved is executed, within the validity window, when
      the decision comes out with the same payload. */
  lemma ApprovedIsExecuted(s: Service, w: World, r: Request, seen: Observed, o: Observed, later: World)
    requires Ideal(s.hmac) && r.document.Some?
    requires Shown(r, o) == Shown(r, seen)
    requires later.now <= (Truncate(w.now) + s.ttlSeconds) as real
    requires r.strategy == Explicit(B0) ==> s.providerClass == "fake"
    ensures Take(s, w, PreviewDocumentStep(r, seen)).1.Token?
    ensures var (v, outcome) := Take(s, later, ExecuteDocumentStep(r, o, Take(s, w, PreviewDocumentStep(r, seen)).1.token));
      && outcome == Executed && v.grants == later.grants && v.now == later.now
      && v.log == later.log + if IsAllowed(r, o) && ClassMatches(s, r)
                              then [Transmission(ProviderRequest(o.result.externalPayload, r.task), r, o, later.now,
                                                 |later.grants|)]
                              else []
  {
    hide Take;
    TokenExecutesExactly(s, w, r, seen, later, r, o);
    ExecutesExactly(s, later, r, o, ExecuteDocumentStep(r, o, Take(s, w, PreviewDocumentStep(r, seen)).1.token));
  }

  /** The assumption rules out no honest caller: any token handed out so far may be presented, with
      any request. */
  lemma GrantedIsUnforged(s: Service, w: World, r: Request, o: Observed, i: nat)
    requires Ideal(s.hmac) && i < |w.grants|
    requires IsInt(w.grants[i].claims.issuedAt) && IsInt(w.grants[i].claims.expiresAt)
    ensures var g := w.grants[i];
            Unforged(s, w, ExecuteDocumentStep(r, o, TokenText(g.claims, Mac(s.hmac, g.state, g.claims))))
  {
    hide SignedDocument, TokenText, Parse;
    var g := w.grants[i];
    ParseToken(g.claims, Mac(s.hmac, g.state, g.claims));
    assert WasSigned(s, w, SignedDocument(s.hmac, g.state, g.claims));
  }

  /** A token is not spent by use: the same approved state can be executed again inside the window. */
  lemma ReplayIsAccepted(s: Service, w: World, r: Request, o: Observed)
    requires Ideal(s.hmac) && r.document.Some? && s.ttlSeconds > 0 && w.now >= 0.0
    requires r.strategy == Explicit(B0) ==> s.providerClass == "fake"
    requires IsAllowed(r, o) && ClassMatches(s, r)
    ensures var (w1, token) := Take(s, w, PreviewDocumentStep(r, o));
            && token.Token?
            && var execute := ExecuteDocumentStep(r, o, token.token);
               Possible(s, w1, [execute, execute]) && |Run(s, w1, [execute, execute]).log| == |w.log| + 2
  {
    hide Verifies, Mac, TokenText, SignedDocument, Unforged;
    var (w1, token) := Take(s, w, PreviewDocumentStep(r, o));
    var execute := ExecuteDocumentStep(r, o, token.token);
    ApprovedIsExecuted(s, w, r, o, o, w1);
    var w2 := Take(s, w1, execute).0;
    ApprovedIsExecuted(s, w, r, o, o, w2);
    GrantedIsUnforged(s, w1, r, o, |w.grants|);
    GrantedIsUnforged(s, w2, r, o, |w.grants|);
    assert w2.grants == w1.grants;
    assert [execute, execute][1..] == [execute] && [execute][1..] == [];
    assert Unforged(s, w1, execute) && Unforged(s, w2, execute);
    assert Possible(s, w2, [execute]);
    assert Run(s, w1, [execute, execute]) == Run(s, w2, [execute]) == Run(s, Take(s, w2, execute).0, []);
  }

  /** Exactly what a blocked preview approves: within the window, a later decision is transmitted under
      its token if and only if that decision is allowed and its payload is empty. */
  lemma BlockedApprovesExactly(s: Service, w: World, r: Request, seen: Observed, o: Observed, later: World)
    requires Ideal(s.hmac) && r.document.Some?
    requires !IsAllowed(r, seen) && Shown(r, seen) == ""
    ensures Take(s, w, PreviewDocumentStep(r, seen)).1.Token?
    ensures |Take(s, later, ExecuteDocumentStep(r, o, Take(s, w, PreviewDocumentStep(r, seen)).1.token)).0.log| > |later.log|
       <==> && IsAllowed(r, o) && o.result.externalPayload == "" && ClassMatches(s, r)
            && later.now <= (Truncate(w.now) + s.ttlSeconds) as real
            && (r.strategy == Explicit(B0) ==> s.providerClass == "fake")
  {
    hide Take;
    TokenExecutesExactly(s, w, r, seen, later, r, o);
    ExecutesExactly(s, later, r, o, ExecuteDocumentStep(r, o, Take(s, w, PreviewDocumentStep(r, seen)).1.token));
  }

  /** The confirmation binds the payload, not the status of the decision: a preview that came out
      blocked, and so with an empty payload, is enough to execute a decision that comes out allowed
      with an empty payload. */
  lemma StatusIsNotBound(s: Service, w: World, r: Request, seen: Observed, o: Observed)
    requires Ideal(s.hmac) && r.document.Some? && r.strategy != Explicit(B0)
    requires seen.result == DisclosureResult("", [], Blocked)
    requires o.result.status == Allowed && o.result.externalPayload == "" && o.taskSpans == []
    requires w.now >= 0.0 && s.ttlSeconds > 0 && ClassMatches(s, r)
    ensures var (w1, token) := Take(s, w, PreviewDocumentStep(r, seen));
            && token.Token?
            && Take(s, w1, ExecuteDocumentStep(r, o, token.token)).0.log
               == w.log + [Transmission(ProviderRequest("", r.task), r, o, w.now, |w.grants| + 1)]
  {
    hide Verifies, Issue;
    ApprovedIsExecuted(s, w, r, seen, o, Take(s, w, PreviewDocumentStep(r, seen)).0);
  }
}
