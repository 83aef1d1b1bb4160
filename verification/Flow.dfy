/** The guided flow's reducer, and what holds of every sequence of events fed to it. Responses and
    errors are carried whole and never looked into. */
module Flow {
  import opened Wrappers

  datatype EntryMode = Example | Upload | Paste

  datatype UploadedFile = UploadedFile(file: string, filename: string, byteSize: nat, displayType: string)

  datatype ComposeState = ComposeState(
    mode: EntryMode, exampleId: Option<string>, pastedText: string, file: Option<UploadedFile>, fileError: Option<string>,
    task: string, documentType: Option<string>, analysisMode: Option<string>)

  const INITIAL_COMPOSE := ComposeState(Example, None, "", None, None, "", None, None)

  datatype PreviewResponse = PreviewResponse(body: string)
  datatype ExecuteResponse = ExecuteResponse(body: string)
  datatype CompareResponse = CompareResponse(body: string)
  datatype DisplayError = DisplayError(message: string)

  datatype FlowState =
    | Welcome
    | Compose(compose: ComposeState, submitError: Option<DisplayError>)
    | Previewing(compose: ComposeState)
    | Review(compose: ComposeState, preview: PreviewResponse, token: Option<string>, executeError: Option<DisplayError>)
    | Executing(compose: ComposeState, preview: PreviewResponse, token: Option<string>)
    | ApprovedReview(compose: ComposeState, preview: PreviewResponse)
    | Result(compose: ComposeState, preview: PreviewResponse, execute: ExecuteResponse, compareError: Option<DisplayError>)
    | TechnicalDetails(compose: ComposeState, preview: PreviewResponse, execute: ExecuteResponse,
                       compareError: Option<DisplayError>)
    | Comparing(compose: ComposeState, preview: PreviewResponse, execute: ExecuteResponse)
    | Comparison(compose: ComposeState, preview: PreviewResponse, execute: ExecuteResponse, comparison: CompareResponse)

  datatype FlowEvent =
    | StartTest
    | SetMode(mode: EntryMode)
    | SelectExample(exampleId: string)
    | SetPastedText(text: string)
    | SetFile(file: UploadedFile)
    | SetFileError(message: string)
    | ClearFile
    | SetTask(task: string)
    | SetDocumentType(documentType: string, analysisMode: string)
    | SetAnalysisMode(analysisMode: string)
    | SubmitCompose
    | PreviewSucceeded(preview: PreviewResponse, token: Option<string>)
    | PreviewFailed(error: DisplayError)
    | ConfirmReview
    | CancelReview
    | ExecuteSucceeded(execute: ExecuteResponse)
    | ExecuteFailed(error: DisplayError, requiresNewPreview: bool)
    | RequestComparison
    | CompareSucceeded(comparison: CompareResponse)
    | CompareFailed(error: DisplayError)
    | ReturnToResult
    | OpenTechnicalDetails
    | Restart

  predicate StartsOver(e: FlowEvent) { e == StartTest || e == Restart }

  // ----- the reducer -----

  function Reduce(s: FlowState, e: FlowEvent): FlowState {
    if StartsOver(e) then Compose(INITIAL_COMPOSE, None)
    else
      match s
      case Compose(_, _) => ReduceCompose(s, e)
      case Previewing(_) => ReducePreviewing(s, e)
      case Review(_, _, _, _) => ReduceReview(s, e)
      case Executing(_, _, _) => ReduceExecuting(s, e)
      case Result(_, _, _, _) => ReduceResult(s, e)
      case TechnicalDetails(_, _, _, _) => ReduceTechnicalDetails(s, e)
      case Comparing(_, _, _) => ReduceComparing(s, e)
      case Comparison(_, _, _, _) => ReduceComparison(s, e)
      case ApprovedReview(_, _) => s
      case Welcome => s
  }

  function ReduceCompose(s: FlowState, e: FlowEvent): FlowState
    requires s.Compose?
  {
    var c, error := s.compose, s.submitError;
    match e
    case SetMode(mode) => Compose(c.(mode := mode), error)
    case SelectExample(exampleId) => Compose(c.(exampleId := Some(exampleId)), error)
    case SetPastedText(text) => Compose(c.(pastedText := text), error)
    case SetFile(file) => Compose(c.(file := Some(file), fileError := None), error)
    case SetFileError(message) => Compose(c.(file := None, fileError := Some(message)), error)
    case ClearFile => Compose(c.(file := None, fileError := None), error)
    case SetTask(task) => Compose(c.(task := task), error)
    case SetDocumentType(documentType, analysisMode) =>
      Compose(c.(documentType := Some(documentType), analysisMode := Some(analysisMode)), error)
    case SetAnalysisMode(analysisMode) => Compose(c.(analysisMode := Some(analysisMode)), error)
    case SubmitCompose => Previewing(c)
    case _ => s
  }

  function ReducePreviewing(s: FlowState, e: FlowEvent): FlowState
    requires s.Previewing?
  {
    match e
    case PreviewSucceeded(preview, token) => Review(s.compose, preview, token, None)
    case PreviewFailed(error) => Compose(s.compose, Some(error))
    case _ => s
  }

  function ReduceReview(s: FlowState, e: FlowEvent): FlowState
    requires s.Review?
  {
    match e
    case ConfirmReview => Executing(s.compose, s.preview, s.token)
    case CancelReview => Compose(s.compose, None)
    case _ => s
  }

  function ReduceExecuting(s: FlowState, e: FlowEvent): FlowState
    requires s.Executing?
  {
    match e
    case ExecuteSucceeded(execute) => Result(s.compose, s.preview, execute, None)
    case ExecuteFailed(error, requiresNewPreview) =>
      if requiresNewPreview then Compose(s.compose, Some(error)) else Review(s.compose, s.preview, s.token, Some(error))
    case _ => s
  }

  function ReduceResult(s: FlowState, e: FlowEvent): FlowState
    requires s.Result?
  {
    match e
    case RequestComparison => Comparing(s.compose, s.preview, s.execute)
    case OpenTechnicalDetails => TechnicalDetails(s.compose, s.preview, s.execute, s.compareError)
    case _ => s
  }

  function ReduceTechnicalDetails(s: FlowState, e: FlowEvent): FlowState
    requires s.TechnicalDetails?
  {
    if e == ReturnToResult then Result(s.compose, s.preview, s.execute, s.compareError) else s
  }

  function ReduceComparing(s: FlowState, e: FlowEvent): FlowState
    requires s.Comparing?
  {
    match e
    case CompareSucceeded(comparison) => Comparison(s.compose, s.preview, s.execute, comparison)
    case CompareFailed(error) => Result(s.compose, s.preview, s.execute, Some(error))
    case _ => s
  }

  function ReduceComparison(s: FlowState, e: FlowEvent): FlowState
    requires s.Comparison?
  {
    if e == ReturnToResult then Result(s.compose, s.preview, s.execute, None) else s
  }

  /** `approveReview`: what a sent review is frozen to. */
  function ApproveReview(s: FlowState): FlowState
    requires s.Review?
  {
    ApprovedReview(s.compose, s.preview)
  }

  // ----- traces -----

  /** The state after the first `n` events. */
  function StateAt(start: FlowState, events: seq<FlowEvent>, n: nat): FlowState
    requires n <= |events|
  {
    if n == 0 then start else Reduce(StateAt(start, events, n - 1), events[n - 1])
  }

  /** No event from `i` up to `n` starts over. */
  predicate Undisturbed(events: seq<FlowEvent>, i: nat, n: nat) {
    forall k :: i <= k < n && k < |events| ==> !StartsOver(events[k])
  }

  /** A new test was started at `r`, and event `i` later submitted `c` from the compose screen. */
  predicate SubmittedAt(start: FlowState, events: seq<FlowEvent>, n: nat, r: nat, i: nat, c: ComposeState) {
    && r < i < n <= |events| && StartsOver(events[r]) && Undisturbed(events, r + 1, n)
    && events[i] == SubmitCompose && StateAt(start, events, i).Compose? && StateAt(start, events, i).compose == c
  }

  /** The preview of that very submission came back at `j`, with its token: it was waited for from `i` on. */
  predicate PreviewedAt(start: FlowState, events: seq<FlowEvent>, n: nat, i: nat, j: nat,
                        c: ComposeState, p: PreviewResponse, t: Option<string>) {
    && i < j < n <= |events| && events[j] == PreviewSucceeded(p, t)
    && forall m :: i < m <= j ==> StateAt(start, events, m) == Previewing(c)
  }

  /** It was confirmed at `k`, and nothing but waiting has happened since. */
  predicate ConfirmedAt(start: FlowState, events: seq<FlowEvent>, n: nat, j: nat, k: nat,
                        c: ComposeState, p: PreviewResponse, t: Option<string>) {
    && j < k < n <= |events| && events[k] == ConfirmReview
    && StateAt(start, events, k).Review? && StateAt(start, events, k).compose == c
    && StateAt(start, events, k).preview == p && StateAt(start, events, k).token == t
    && forall m :: k < m <= n ==> StateAt(start, events, m) == Executing(c, p, t)
  }

  /** What leads into each of the screens on the way to a send, and away from its outcome. */
  lemma Entered(s: FlowState, e: FlowEvent)
    ensures var t := Reduce(s, e);
            && (t.Compose? ==> StartsOver(e) || s.Compose? || s.Previewing? || s.Review? || s.Executing?)
            && (t.Previewing? ==> !StartsOver(e) && (s == t || (s.Compose? && e == SubmitCompose && t.compose == s.compose)))
            && (t.Review? ==>
                  && !StartsOver(e)
                  && (s == t || s == Executing(t.compose, t.preview, t.token)
                      || (s == Previewing(t.compose) && e == PreviewSucceeded(t.preview, t.token))))
            && (t.Executing? ==>
                  && !StartsOver(e)
                  && (s == t || (e == ConfirmReview && s.Review? && t == Executing(s.compose, s.preview, s.token))))
            && (ShowsOutcome(t) ==>
                  && !StartsOver(e)
                  && (SameOutcome(s, t)
                      || (e == ExecuteSucceeded(t.execute) && s.Executing? && s.compose == t.compose && s.preview == t.preview)))
            && (ShowsOutcome(s) && !StartsOver(e) ==> SameOutcome(s, t))
  {
  }

  /** The four screens that show one send's outcome. */
  predicate ShowsOutcome(s: FlowState) { s.Result? || s.TechnicalDetails? || s.Comparing? || s.Comparison? }

  predicate SameOutcome(s: FlowState, t: FlowState) {
    ShowsOutcome(s) && ShowsOutcome(t) && t.compose == s.compose && t.preview == s.preview && t.execute == s.execute
  }

  /** A state a run may start from without anything submitted, previewed or sent. */
  predicate Idle(s: FlowState) { s.Welcome? || s.ApprovedReview? }

  lemma {:induction false} ComposedAfterStart(start: FlowState, events: seq<FlowEvent>, n: nat) returns (r: nat)
    requires n <= |events| && Idle(start) && StateAt(start, events, n).Compose?
    ensures r < n && StartsOver(events[r]) && Undisturbed(events, r + 1, n)
    decreases n, 0
  {
    hide Reduce;
    var s := StateAt(start, events, n - 1);
    Entered(s, events[n - 1]);
    if StartsOver(events[n - 1]) {
      r := n - 1;
    } else if s.Compose? {
      r := ComposedAfterStart(start, events, n - 1);
    } else if s.Previewing? {
      var i;
      r, i := PreviewingWasSubmitted(start, events, n - 1);
    } else if s.Review? {
      var i, j;
      r, i, j := ReviewWasPreviewed(start, events, n - 1);
    } else {
      var i, j, k;
      r, i, j, k := ExecutingWasConfirmed(start, events, n - 1);
    }
  }

  lemma {:induction false} PreviewingWasSubmitted(start: FlowState, events: seq<FlowEvent>, n: nat) returns (r: nat, i: nat)
    requires n <= |events| && Idle(start) && StateAt(start, events, n).Previewing?
    ensures SubmittedAt(start, events, n, r, i, StateAt(start, events, n).compose)
    ensures forall m :: i < m <= n ==> StateAt(start, events, m) == StateAt(start, events, n)
    decreases n, 0
  {
    hide Reduce;
    var s := StateAt(start, events, n - 1);
    Entered(s, events[n - 1]);
    if s.Compose? {
      r := ComposedAfterStart(start, events, n - 1);
      i := n - 1;
    } else {
      r, i := PreviewingWasSubmitted(start, events, n - 1);
    }
  }

  lemma {:induction false} ReviewWasPreviewed(start: FlowState, events: seq<FlowEvent>, n: nat)
      returns (r: nat, i: nat, j: nat)
    requires n <= |events| && Idle(start) && StateAt(start, events, n).Review?
    ensures var s := StateAt(start, events, n);
            && SubmittedAt(start, events, n, r, i, s.compose)
            && PreviewedAt(start, events, n, i, j, s.compose, s.preview, s.token)
    decreases n, 0
  {
    hide Reduce;
    var s := StateAt(start, events, n - 1);
    Entered(s, events[n - 1]);
    if s.Previewing? {
      r, i := PreviewingWasSubmitted(start, events, n - 1);
      j := n - 1;
    } else if s.Review? {
      r, i, j := ReviewWasPreviewed(start, events, n - 1);
    } else {
      var k;
      r, i, j, k := ExecutingWasConfirmed(start, events, n - 1);
    }
  }

  /** The executing screen is reached only by a submission, the preview of it and a confirmation of
      that preview, in this order since the test was last started; and it holds the submitted compose
      state, that preview and the token it came with. */
  lemma {:induction false} ExecutingWasConfirmed(start: FlowState, events: seq<FlowEvent>, n: nat)
      returns (r: nat, i: nat, j: nat, k: nat)
    requires n <= |events| && Idle(start) && StateAt(start, events, n).Executing?
    ensures var s := StateAt(start, events, n);
            && SubmittedAt(start, events, n, r, i, s.compose)
            && PreviewedAt(start, events, n, i, j, s.compose, s.preview, s.token)
            && ConfirmedAt(start, events, n, j, k, s.compose, s.preview, s.token)
    decreases n, 0
  {
    hide Reduce;
    var s := StateAt(start, events, n - 1);
    Entered(s, events[n - 1]);
    if s.Review? {
      r, i, j := ReviewWasPreviewed(start, events, n - 1);
      k := n - 1;
    } else {
      r, i, j, k := ExecutingWasConfirmed(start, events, n - 1);
    }
  }

  /** A shown outcome is of a send that was confirmed: it came back while executing that compose state
      and that preview. */
  lemma {:induction false} OutcomeWasExecuted(start: FlowState, events: seq<FlowEvent>, n: nat) returns (l: nat)
    requires n <= |events| && Idle(start) && ShowsOutcome(StateAt(start, events, n))
    ensures var s := StateAt(start, events, n);
            && l < n && events[l] == ExecuteSucceeded(s.execute) && Undisturbed(events, l, n)
            && StateAt(start, events, l).Executing?
            && StateAt(start, events, l).compose == s.compose && StateAt(start, events, l).preview == s.preview
  {
    hide Reduce;
    Entered(StateAt(start, events, n - 1), events[n - 1]);
    if StateAt(start, events, n - 1).Executing? { l := n - 1; } else { l := OutcomeWasExecuted(start, events, n - 1); }
  }

  // ----- where each screen leads -----

  /** The events a screen answers to, apart from the two that start over. */
  predicate Heeds(s: FlowState, e: FlowEvent) {
    match s
    case Welcome => false
    case Compose(_, _) =>
      e.SetMode? || e.SelectExample? || e.SetPastedText? || e.SetFile? || e.SetFileError? || e.ClearFile? || e.SetTask?
      || e.SetDocumentType? || e.SetAnalysisMode? || e.SubmitCompose?
    case Previewing(_) => e.PreviewSucceeded? || e.PreviewFailed?
    case Review(_, _, _, _) => e.ConfirmReview? || e.CancelReview?
    case Executing(_, _, _) => e.ExecuteSucceeded? || e.ExecuteFailed?
    case ApprovedReview(_, _) => false
    case Result(_, _, _, _) => e.RequestComparison? || e.OpenTechnicalDetails?
    case TechnicalDetails(_, _, _, _) => e.ReturnToResult?
    case Comparing(_, _, _) => e.CompareSucceeded? || e.CompareFailed?
    case Comparison(_, _, _, _) => e.ReturnToResult?
  }

  /** An event that does not belong to the screen changes nothing, and one that does, edits apart, leaves
      the screen. */
  lemma StrayEventsAreIgnored(s: FlowState, e: FlowEvent)
    requires e != StartTest && e != Restart
    ensures !Heeds(s, e) ==> Reduce(s, e) == s
    ensures Heeds(s, e) && (!s.Compose? || e == SubmitCompose) ==> Reduce(s, e) != s
  {
  }

  /** An edit changes what it sets and nothing else: a file clears the file error and the other way
      round, and a document type brings its analysis mode. */
  lemma EditsAreLocal(c: ComposeState, error: Option<DisplayError>, e: FlowEvent)
    ensures Reduce(Compose(c, error), e) ==
            match e
            case SetMode(x) =>
              Compose(ComposeState(x, c.exampleId, c.pastedText, c.file, c.fileError, c.task, c.documentType, c.analysisMode), error)
            case SelectExample(x) =>
              Compose(ComposeState(c.mode, Some(x), c.pastedText, c.file, c.fileError, c.task, c.documentType, c.analysisMode), error)
            case SetPastedText(x) =>
              Compose(ComposeState(c.mode, c.exampleId, x, c.file, c.fileError, c.task, c.documentType, c.analysisMode), error)
            case SetFile(x) =>
              Compose(ComposeState(c.mode, c.exampleId, c.pastedText, Some(x), None, c.task, c.documentType, c.analysisMode), error)
            case SetFileError(x) =>
              Compose(ComposeState(c.mode, c.exampleId, c.pastedText, None, Some(x), c.task, c.documentType, c.analysisMode), error)
            case ClearFile =>
              Compose(ComposeState(c.mode, c.exampleId, c.pastedText, None, None, c.task, c.documentType, c.analysisMode), error)
            case SetTask(x) =>
              Compose(ComposeState(c.mode, c.exampleId, c.pastedText, c.file, c.fileError, x, c.documentType, c.analysisMode), error)
            case SetDocumentType(x, y) =>
              Compose(ComposeState(c.mode, c.exampleId, c.pastedText, c.file, c.fileError, c.task, Some(x), Some(y)), error)
            case SetAnalysisMode(y) =>
              Compose(ComposeState(c.mode, c.exampleId, c.pastedText, c.file, c.fileError, c.task, c.documentType, Some(y)), error)
            case SubmitCompose => Previewing(c)
            case StartTest => Compose(ComposeState(Example, None, "", None, None, "", None, None), None)
            case Restart => Compose(ComposeState(Example, None, "", None, None, "", None, None), None)
            case _ => Compose(c, error)
  {
  }

  /** A failed send leads back to the confirmed review with its error, or, when the review no longer
      holds, to the compose state that was confirmed. */
  lemma FailedSendReturns(start: FlowState, events: seq<FlowEvent>, n: nat, error: DisplayError, anew: bool)
      returns (k: nat)
    requires n < |events| && Idle(start) && StateAt(start, events, n).Executing? && events[n] == ExecuteFailed(error, anew)
    ensures k < n && events[k] == ConfirmReview && StateAt(start, events, k).Review?
    ensures StateAt(start, events, n + 1) ==
            if anew then Compose(StateAt(start, events, k).compose, Some(error))
            else StateAt(start, events, k).(executeError := Some(error))
  {
    var r, i, j;
    r, i, j, k := ExecutingWasConfirmed(start, events, n);
  }

  /** A failed preview leads back to what was submitted, with its error, and so does cancelling a review,
      without one. */
  lemma PreviewReturns(start: FlowState, events: seq<FlowEvent>, n: nat) returns (i: nat)
    requires n < |events| && Idle(start)
    requires (StateAt(start, events, n).Previewing? && events[n].PreviewFailed?)
             || (StateAt(start, events, n).Review? && events[n] == CancelReview)
    ensures i < n && events[i] == SubmitCompose && StateAt(start, events, i).Compose?
    ensures StateAt(start, events, n + 1)
         == Compose(StateAt(start, events, i).compose, if events[n].PreviewFailed? then Some(events[n].error) else None)
  {
    var r, j;
    if StateAt(start, events, n).Previewing? {
      r, i := PreviewingWasSubmitted(start, events, n);
    } else {
      r, i, j := ReviewWasPreviewed(start, events, n);
    }
  }

  /** A comparison leads back to the result it was asked from, with the error of the comparison if it
      failed and without any if it was shown. */
  lemma {:induction false} ComparisonReturns(start: FlowState, events: seq<FlowEvent>, n: nat) returns (l: nat)
    requires n <= |events| && Idle(start)
    requires StateAt(start, events, n).Comparing? || StateAt(start, events, n).Comparison?
    ensures l < n && events[l] == RequestComparison && StateAt(start, events, l).Result?
    ensures SameOutcome(StateAt(start, events, l), StateAt(start, events, n))
    ensures var s := StateAt(start, events, l);
            && (n < |events| && StateAt(start, events, n).Comparing? && events[n].CompareFailed? ==>
                  StateAt(start, events, n + 1) == Result(s.compose, s.preview, s.execute, Some(events[n].error)))
            && (n < |events| && StateAt(start, events, n).Comparison? && events[n] == ReturnToResult ==>
                  StateAt(start, events, n + 1) == Result(s.compose, s.preview, s.execute, None))
  {
    hide Reduce;
    var s := StateAt(start, events, n - 1);
    ComparingFrom(s, events[n - 1]);
    if n < |events| { ComparisonEnds(StateAt(start, events, n), events[n]); }
    if s.Result? { l := n - 1; } else { l := ComparisonReturns(start, events, n - 1); }
  }

  lemma ComparisonEnds(s: FlowState, e: FlowEvent)
    ensures s.Comparing? && e.CompareFailed? ==> Reduce(s, e) == Result(s.compose, s.preview, s.execute, Some(e.error))
    ensures s.Comparison? && e == ReturnToResult ==> Reduce(s, e) == Result(s.compose, s.preview, s.execute, None)
  {
  }

  lemma ComparingFrom(s: FlowState, e: FlowEvent)
    requires Reduce(s, e).Comparing? || Reduce(s, e).Comparison?
    ensures SameOutcome(s, Reduce(s, e)) && (s.Comparing? || s.Comparison? || (s.Result? && e == RequestComparison))
  {
  }

  /** The way to a result: what was submitted is previewed, reviewed with the token of that preview,
      confirmed and sent. */
  lemma LeadsToResult(c: ComposeState, error: Option<DisplayError>, p: PreviewResponse, t: Option<string>, x: ExecuteResponse)
    ensures Reduce(Previewing(c), PreviewSucceeded(p, t)) == Review(c, p, t, None)
    ensures Reduce(Review(c, p, t, error), ConfirmReview) == Executing(c, p, t)
    ensures Reduce(Executing(c, p, t), ExecuteSucceeded(x)) == Result(c, p, x, None)
  {
  }

  /** And from there: it is shown in detail, and compared. */
  lemma LeadsFromResult(c: ComposeState, error: Option<DisplayError>, p: PreviewResponse, x: ExecuteResponse,
                        y: CompareResponse)
    ensures Reduce(Result(c, p, x, error), OpenTechnicalDetails) == TechnicalDetails(c, p, x, error)
    ensures Reduce(TechnicalDetails(c, p, x, error), ReturnToResult) == Result(c, p, x, error)
    ensures Reduce(Result(c, p, x, error), RequestComparison) == Comparing(c, p, x)
    ensures Reduce(Comparing(c, p, x), CompareSucceeded(y)) == Comparison(c, p, x, y)
  {
  }

  /** Whatever happens on the details and comparison screens, short of starting over, the compose
      state, the preview and the outcome stay the same. */
  lemma {:induction false} DetoursKeepOutcome(start: FlowState, events: seq<FlowEvent>, m: nat, n: nat)
    requires m <= n <= |events| && ShowsOutcome(StateAt(start, events, m)) && Undisturbed(events, m, n)
    ensures SameOutcome(StateAt(start, events, m), StateAt(start, events, n))
    decreases n - m
  {
    hide Reduce;
    if m < n {
      DetoursKeepOutcome(start, events, m, n - 1);
      Entered(StateAt(start, events, n - 1), events[n - 1]);
    }
  }

  /** Opening and closing the technical details any number of times leaves the result exactly as it
      was, an earlier comparison error included. */
  lemma {:induction false} DetailsKeepResult(start: FlowState, events: seq<FlowEvent>, m: nat, n: nat)
    requires m <= n <= |events| && StateAt(start, events, m).Result? && Undisturbed(events, m, n)
    requires forall k :: m <= k < n ==> events[k] != RequestComparison
    ensures var s, t := StateAt(start, events, m), StateAt(start, events, n);
            t == s || t == TechnicalDetails(s.compose, s.preview, s.execute, s.compareError)
    decreases n - m
  {
    hide Reduce;
    if m < n {
      DetailsKeepResult(start, events, m, n - 1);
      DetailsStep(StateAt(start, events, n - 1), events[n - 1]);
    }
  }

  lemma DetailsStep(s: FlowState, e: FlowEvent)
    requires (s.Result? || s.TechnicalDetails?) && !StartsOver(e) && e != RequestComparison
    ensures var t := Reduce(s, e);
            || t == Result(s.compose, s.preview, s.execute, s.compareError)
            || t == TechnicalDetails(s.compose, s.preview, s.execute, s.compareError)
  {
  }

  /** Nothing but starting over leaves an approved review, and the reducer never makes one. */
  lemma {:induction false} ApprovedIsFinal(start: FlowState, events: seq<FlowEvent>, n: nat)
    requires n <= |events|
    ensures start.ApprovedReview? && Undisturbed(events, 0, n) ==> StateAt(start, events, n) == start
    ensures StateAt(start, events, n).ApprovedReview? ==> StateAt(start, events, n) == start
  {
    if n > 0 { ApprovedIsFinal(start, events, n - 1); }
  }

  /** A file and a file error exclude each other, and a document type comes with an analysis mode. */
  predicate Consistent(s: FlowState) {
    !s.Welcome? ==>
      && (s.compose.file.None? || s.compose.fileError.None?)
      && (s.compose.documentType.Some? ==> s.compose.analysisMode.Some?)
  }

  /** No sequence of events leads to an inconsistent compose state, on whatever screen it is carried. */
  lemma {:induction false} ComposeStaysConsistent(start: FlowState, events: seq<FlowEvent>, n: nat)
    requires n <= |events| && Consistent(start)
    ensures Consistent(StateAt(start, events, n))
  {
    hide Reduce, Consistent;
    if n > 0 {
      ComposeStaysConsistent(start, events, n - 1);
      KeepsConsistent(StateAt(start, events, n - 1), events[n - 1]);
    }
  }

  lemma KeepsConsistent(s: FlowState, e: FlowEvent)
    requires Consistent(s)
    ensures Consistent(Reduce(s, e))
  {
  }

  predicate Edits(e: FlowEvent) {
    e.SetMode? || e.SelectExample? || e.SetPastedText? || e.SetFile? || e.SetFileError? || e.ClearFile? || e.SetTask?
    || e.SetDocumentType? || e.SetAnalysisMode?
  }

  /** Only editing and starting over change what was composed: failures, cancellations, sends and
      detours all bring it back as it was. */
  lemma {:induction false} ComposeSurvives(start: FlowState, events: seq<FlowEvent>, m: nat, n: nat)
    requires m <= n <= |events| && Undisturbed(events, m, n) && !StateAt(start, events, m).Welcome?
    requires forall k :: m <= k < n ==> !Edits(events[k])
    ensures !StateAt(start, events, n).Welcome? && StateAt(start, events, n).compose == StateAt(start, events, m).compose
    decreases n - m
  {
    hide Reduce;
    if m < n {
      ComposeSurvives(start, events, m, n - 1);
      KeepsCompose(StateAt(start, events, n - 1), events[n - 1]);
    }
  }

  lemma KeepsCompose(s: FlowState, e: FlowEvent)
    requires !s.Welcome? && !StartsOver(e) && !Edits(e)
    ensures !Reduce(s, e).Welcome? && Reduce(s, e).compose == s.compose
  {
  }

  /** What a sent review is frozen to shows the same compose state and preview, and can send nothing:
      it stays as it is until the test is started over, and whatever executes after that was submitted,
      previewed and confirmed anew, under the token of that new preview. */
  lemma ApprovedNeverResends(review: FlowState, events: seq<FlowEvent>, n: nat)
    requires review.Review? && n <= |events|
    ensures ApproveReview(review).compose == review.compose && ApproveReview(review).preview == review.preview
    ensures Undisturbed(events, 0, n) ==> StateAt(ApproveReview(review), events, n) == ApproveReview(review)
    ensures var s := StateAt(ApproveReview(review), events, n);
            s.Executing? ==>
              exists r, j :: 0 <= r < j < n && StartsOver(events[r]) && events[j] == PreviewSucceeded(s.preview, s.token)
  {
    hide Reduce;
    ApprovedIsFinal(ApproveReview(review), events, n);
    if StateAt(ApproveReview(review), events, n).Executing? {
      var r, i, j, k := ExecutingWasConfirmed(ApproveReview(review), events, n);
    }
  }
}
