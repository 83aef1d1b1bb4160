/** The request-body limit: counting what is received, guarding what is sent, against any
    application whatever. */
module BodyLimit {
  import opened Wrappers
  import Json

  const TOO_LARGE_STATUS_CODE := 413

  /** What the server hands over on receive. */
  datatype Incoming = HttpRequest(body: seq<bv8>) | OtherEvent

  /** What goes out on send. */
  datatype Outgoing = Start(status: int, contentLength: Option<nat>) | Body(text: string) | OtherMessage(kind: string)

  function TooLargeBody(maxBytes: int): string {
    "{\"detail\": \"request body exceeds the configured limit of " + Json.IntText(maxBytes)
    + " bytes\", \"kind\": \"RequestBodyTooLarge\"}"
  }

  /** The one answer to an oversized body: status line and body. */
  function TooLarge(maxBytes: int): seq<Outgoing> {
    [Start(TOO_LARGE_STATUS_CODE, Some(|TooLargeBody(maxBytes)|)), Body(TooLargeBody(maxBytes))]
  }

  /** The closure variables, the wire, and the bytes handed to the application so far. */
  datatype State = State(
    received: nat, exceeded: bool, forwardedStart: bool, answered: bool, wire: seq<Outgoing>, delivered: nat)

  const INITIAL := State(0, false, false, false, [], 0)

  /** The message the application gets, or `None` when the too-large signal is raised to it. */
  function Received(maxBytes: int, s: State, m: Incoming): (State, Option<Incoming>) {
    match m
    case OtherEvent => (s, Some(m))
    case HttpRequest(body) =>
      var total := s.received + |body|;
      if total > maxBytes then (s.(received := total, exceeded := true), None)
      else (s.(received := total, delivered := s.delivered + |body|), Some(m))
  }

  function Sent(maxBytes: int, s: State, m: Outgoing): State {
    if s.exceeded && !s.forwardedStart then
      if s.answered then s else s.(answered := true, wire := s.wire + TooLarge(maxBytes))
    else s.(forwardedStart := s.forwardedStart || m.Start?, wire := s.wire + [m])
  }

  /** How the application call ends. */
  datatype AppEnd = Returned | RaisedTooLarge | RaisedOther

  /** The final state, and whether an exception leaves the middleware. */
  function Finished(maxBytes: int, s: State, end: AppEnd): (State, bool) {
    match end
    case Returned => (s, false)
    case RaisedOther => (s, true)
    case RaisedTooLarge =>
      if s.forwardedStart then (s, true)
      else if s.answered then (s, false)
      else (s.(answered := true, wire := s.wire + TooLarge(maxBytes)), false)
  }

  /** One request's wrappers, with the variables they share. */
  class Guard {
    const maxBytes: int
    var received: nat
    var exceeded: bool
    var forwardedStart: bool
    var answered: bool
    var wire: seq<Outgoing>
    ghost var delivered: nat

    constructor (maxBytes: int)
      ensures this.maxBytes == maxBytes && Value() == INITIAL
    {
      this.maxBytes := maxBytes;
      received, exceeded, forwardedStart, answered, wire, delivered := 0, false, false, false, [], 0;
    }

    ghost function Value(): State
      reads this
    {
      State(received, exceeded, forwardedStart, answered, wire, delivered)
    }

    method CountingReceive(message: Incoming) returns (r: Option<Incoming>)
      modifies this
      ensures (Value(), r) == Received(maxBytes, old(Value()), message)
    {
      match message {
        case OtherEvent =>
        case HttpRequest(body) =>
          received := received + |body|;
          if received > maxBytes {
            exceeded := true;
            return None;
          }
          delivered := delivered + |body|;
      }
      r := Some(message);
    }

    method SendTooLarge()
      modifies this`wire
      ensures wire == old(wire) + TooLarge(maxBytes)
    {
      var body := TooLargeBody(maxBytes);
      wire := wire + [Start(TOO_LARGE_STATUS_CODE, Some(|body|))];
      wire := wire + [Body(body)];
    }

    method GuardedSend(message: Outgoing)
      modifies this
      ensures Value() == Sent(maxBytes, old(Value()), message)
    {
      if exceeded && !forwardedStart {
        if !answered {
          answered := true;
          SendTooLarge();
        }
        return;
      }
      if message.Start? { forwardedStart := true; }
      wire := wire + [message];
    }

    method Finish(end: AppEnd) returns (propagates: bool)
      modifies this
      ensures (Value(), propagates) == Finished(maxBytes, old(Value()), end)
    {
      propagates := end == RaisedOther;
      if end == RaisedTooLarge {
        if forwardedStart { return true; }
        if !answered {
          answered := true;
          SendTooLarge();
        }
      }
    }
  }

  // ----- arbitrary applications -----

  /** What an application does, in order; an adaptive one does some such list on each run. */
  datatype Action = Receive(incoming: Incoming) | Send(outgoing: Outgoing)

  function Act(maxBytes: int, s: State, a: Action): State {
    match a
    case Receive(m) => Received(maxBytes, s, m).0
    case Send(m) => Sent(maxBytes, s, m)
  }

  function Run(maxBytes: int, s: State, actions: seq<Action>): State
    decreases |actions|
  {
    if |actions| == 0 then s else Run(maxBytes, Act(maxBytes, s, actions[0]), actions[1..])
  }

  // ----- the declared length, and the whole call -----

  /** A header and what `int` makes of its value. */
  datatype Header = Header(name: string, number: Option<int>)

  function Lower(s: string): string {
    if |s| == 0 then ""
    else [if 'A' <= s[0] <= 'Z' then (s[0] as int + 32) as char else s[0]] + Lower(s[1..])
  }

  /** The first content-length header decides, even when its value is malformed. */
  function DeclaredContentLength(headers: seq<Header>): Option<int> {
    if |headers| == 0 then None
    else if Lower(headers[0].name) == "content-length" then headers[0].number
    else DeclaredContentLength(headers[1..])
  }

  datatype Call = Call(state: State, propagates: bool, appRan: bool)

  function HandleHttp(maxBytes: int, headers: seq<Header>, actions: seq<Action>, end: AppEnd): Call {
    var declared := DeclaredContentLength(headers);
    if declared.Some? && declared.value > maxBytes
    then Call(INITIAL.(wire := TooLarge(maxBytes)), false, false)
    else var (s, propagates) := Finished(maxBytes, Run(maxBytes, INITIAL, actions), end); Call(s, propagates, true)
  }

  // ----- what every run keeps -----

  predicate Inv(maxBytes: int, s: State) {
    && (if s.exceeded then s.received > maxBytes
        else s.delivered == s.received && (s.received <= maxBytes || s.received == 0))
    && s.delivered <= s.received && (s.delivered <= maxBytes || s.delivered == 0)
    && (s.answered ==> s.exceeded && !s.forwardedStart)
  }

  lemma {:induction false} RunKeepsInv(maxBytes: int, s: State, actions: seq<Action>)
    requires Inv(maxBytes, s)
    ensures Inv(maxBytes, Run(maxBytes, s, actions))
    decreases |actions|
  {
    if |actions| > 0 { RunKeepsInv(maxBytes, Act(maxBytes, s, actions[0]), actions[1..]); }
  }

  /** Whatever the application does, and however often it ignores the signal and reads on, it is
      never given more body bytes than the limit. */
  lemma DeliveredNeverExceedsLimit(maxBytes: nat, actions: seq<Action>)
    ensures Run(maxBytes, INITIAL, actions).delivered <= maxBytes
  {
    RunKeepsInv(maxBytes, INITIAL, actions);
  }

  lemma {:induction false} AfterTrip(maxBytes: int, s: State, base: seq<Outgoing>, actions: seq<Action>)
    requires s.exceeded && !s.forwardedStart && s.wire == (if s.answered then base + TooLarge(maxBytes) else base)
    ensures var e := Run(maxBytes, s, actions);
            && e.exceeded && !e.forwardedStart && (s.answered ==> e.answered)
            && e.wire == if e.answered then base + TooLarge(maxBytes) else base
    decreases |actions|
  {
    if |actions| > 0 { AfterTrip(maxBytes, Act(maxBytes, s, actions[0]), base, actions[1..]); }
  }

  function Starts(wire: seq<Outgoing>): nat {
    if |wire| == 0 then 0 else Starts(wire[..|wire| - 1]) + (if wire[|wire| - 1].Start? then 1 else 0)
  }

  function StartsSent(actions: seq<Action>): nat {
    if |actions| == 0 then 0
    else (if actions[0].Send? && actions[0].outgoing.Start? then 1 else 0) + StartsSent(actions[1..])
  }

  lemma StartsAppend(wire: seq<Outgoing>, m: Outgoing)
    ensures Starts(wire + [m]) == Starts(wire) + (if m.Start? then 1 else 0)
  {
    assert (wire + [m])[..|wire|] == wire;
  }

  lemma StartsTooLarge(wire: seq<Outgoing>, maxBytes: int)
    ensures Starts(wire + TooLarge(maxBytes)) == Starts(wire) + 1
  {
    var pair := TooLarge(maxBytes);
    assert wire + pair == (wire + [pair[0]]) + [pair[1]];
    StartsAppend(wire + [pair[0]], pair[1]);
    StartsAppend(wire, pair[0]);
  }

  /** No status line on the wire unless one was forwarded or answered; an answer is the only one. */
  predicate StartsKept(s: State, sentSoFar: nat) {
    && (s.answered ==> !s.forwardedStart && Starts(s.wire) == 1)
    && (!s.answered ==> Starts(s.wire) <= sentSoFar && (s.forwardedStart <==> Starts(s.wire) > 0))
  }

  lemma {:induction false} RunKeepsStarts(maxBytes: int, s: State, actions: seq<Action>, sentSoFar: nat)
    requires StartsKept(s, sentSoFar) && (s.answered ==> s.exceeded)
    ensures StartsKept(Run(maxBytes, s, actions), sentSoFar + StartsSent(actions))
    ensures Run(maxBytes, s, actions).answered ==> Run(maxBytes, s, actions).exceeded
    decreases |actions|
  {
    hide Act, Starts, StartsKept;
    if |actions| > 0 {
      ActKeepsStarts(maxBytes, s, actions[0], sentSoFar);
      RunKeepsStarts(maxBytes, Act(maxBytes, s, actions[0]), actions[1..],
                     sentSoFar + (if actions[0].Send? && actions[0].outgoing.Start? then 1 else 0));
    }
  }

  lemma ActKeepsStarts(maxBytes: int, s: State, a: Action, sentSoFar: nat)
    requires StartsKept(s, sentSoFar) && (s.answered ==> s.exceeded)
    ensures var t := Act(maxBytes, s, a);
            StartsKept(t, sentSoFar + (if a.Send? && a.outgoing.Start? then 1 else 0)) && (t.answered ==> t.exceeded)
  {
    hide TooLarge, Starts;
    if a.Send? {
      StartsAppend(s.wire, a.outgoing);
      StartsTooLarge(s.wire, maxBytes);
    }
  }

  /** An application that sends at most one status line never causes two on the wire, on any path of
      the call. */
  lemma OneStartOnWire(maxBytes: int, headers: seq<Header>, actions: seq<Action>, end: AppEnd)
    requires StartsSent(actions) <= 1
    ensures Starts(HandleHttp(maxBytes, headers, actions, end).state.wire) <= 1
  {
    hide Run, TooLarge, StartsSent, DeclaredContentLength;
    StartsTooLarge([], maxBytes);
    assert [] + TooLarge(maxBytes) == TooLarge(maxBytes);
    RunKeepsStarts(maxBytes, INITIAL, actions, 0);
    StartsTooLarge(Run(maxBytes, INITIAL, actions).wire, maxBytes);
  }

  function SentBy(actions: seq<Action>): seq<Outgoing> {
    if |actions| == 0 then [] else (if actions[0].Send? then [actions[0].outgoing] else []) + SentBy(actions[1..])
  }

  function BytesOffered(actions: seq<Action>): nat {
    if |actions| == 0 then 0
    else
      (if actions[0].Receive? && actions[0].incoming.HttpRequest? then |actions[0].incoming.body| else 0)
      + BytesOffered(actions[1..])
  }

  /** A body within the limit passes untouched: every byte is delivered and the wire is exactly what
      the application sent. The limit trips exactly when more is offered. */
  lemma {:induction false} WithinLimitIsTransparent(maxBytes: int, s: State, actions: seq<Action>)
    requires !s.exceeded && !s.answered && s.delivered == s.received && s.received <= maxBytes
    ensures Run(maxBytes, s, actions).exceeded <==> s.received + BytesOffered(actions) > maxBytes
    ensures s.received + BytesOffered(actions) <= maxBytes ==>
              && Run(maxBytes, s, actions).delivered == s.delivered + BytesOffered(actions)
              && Run(maxBytes, s, actions).wire == s.wire + SentBy(actions)
    decreases |actions|
  {
    if |actions| > 0 {
      var t := Act(maxBytes, s, actions[0]);
      if t.exceeded {
        StaysExceeded(maxBytes, t, actions[1..]);
      } else {
        WithinLimitIsTransparent(maxBytes, t, actions[1..]);
      }
    }
  }

  lemma {:induction false} StaysExceeded(maxBytes: int, s: State, actions: seq<Action>)
    requires s.exceeded
    ensures Run(maxBytes, s, actions).exceeded
    decreases |actions|
  {
    if |actions| > 0 { StaysExceeded(maxBytes, Act(maxBytes, s, actions[0]), actions[1..]); }
  }

  /** The header's name is content-length, in letters of either case. */
  predicate NamesLength(h: Header) {
    |h.name| == 14 && forall i :: 0 <= i < 14 ==> h.name[i] == "content-length"[i] || h.name[i] == "CONTENT-LENGTH"[i]
  }

  /** The header is the one that decides. */
  predicate IsDeciding(headers: seq<Header>, k: nat) {
    k < |headers| && NamesLength(headers[k]) && forall i :: 0 <= i < k ==> !NamesLength(headers[i])
  }

  /** The application is let run: no length is declared, or the one that counts is no number or is
      within the limit. */
  predicate LetRun(maxBytes: int, headers: seq<Header>) {
    forall k: nat :: k < |headers| && IsDeciding(headers, k) ==> headers[k].number == None || headers[k].number.value <= maxBytes
  }

  /** The answer to an oversized body: a status line of 413 with the length of the text after it. */
  predicate IsTooLarge(maxBytes: int, wire: seq<Outgoing>) {
    && |wire| == 2 && wire[1].Body? && wire[0] == Start(413, Some(|wire[1].text|))
    && wire[1].text == "{\"detail\": \"request body exceeds the configured limit of " + Json.IntText(maxBytes) + " bytes\", "
                       + "\"kind\": \"RequestBodyTooLarge\"}"
  }

  lemma TooLargeIs(maxBytes: int)
    ensures IsTooLarge(maxBytes, TooLarge(maxBytes))
  {
    assert " bytes\", " + "\"kind\": \"RequestBodyTooLarge\"}" == " bytes\", \"kind\": \"RequestBodyTooLarge\"}";
  }

  lemma {:induction false} LowerAt(s: string)
    ensures |Lower(s)| == |s|
    ensures forall i :: 0 <= i < |s| ==> Lower(s)[i] == if 'A' <= s[i] <= 'Z' then (s[i] as int + 32) as char else s[i]
  {
    if |s| > 0 { LowerAt(s[1..]); }
  }

  lemma LengthLowered(h: Header)
    ensures NamesLength(h) <==> Lower(h.name) == "content-length"
  {
    LowerAt(h.name);
    var name := "content-length";
    if |h.name| == 14 {
      forall i | 0 <= i < 14
        ensures h.name[i] == name[i] || h.name[i] == "CONTENT-LENGTH"[i] <==> Lower(h.name)[i] == name[i]
      {
        assert "CONTENT-LENGTH"[i] == if name[i] == '-' then '-' else (name[i] as int - 32) as char;
      }
    }
  }

  lemma DecidesBehind(headers: seq<Header>, k: nat)
    requires |headers| > 0 && !NamesLength(headers[0])
    ensures IsDeciding(headers[1..], k) <==> IsDeciding(headers, k + 1)
  {
    hide NamesLength;
    if k + 1 < |headers| {
      assert headers[1..][k] == headers[k + 1];
      assert forall i :: 0 <= i < k ==> headers[1..][i] == headers[i + 1];
      if IsDeciding(headers, k + 1) {
        forall i | 0 <= i < k ensures !NamesLength(headers[1..][i]) { assert !NamesLength(headers[i + 1]); }
      } else if IsDeciding(headers[1..], k) {
        forall i | 0 <= i < k + 1 ensures !NamesLength(headers[i]) {
          if i > 0 { assert !NamesLength(headers[1..][i - 1]); }
        }
      }
    }
  }

  lemma {:induction false} DecidingIsFirst(headers: seq<Header>)
    ensures forall k: nat :: IsDeciding(headers, k) ==> headers[k].number == DeclaredContentLength(headers)
    ensures DeclaredContentLength(headers).Some? ==> exists k: nat :: IsDeciding(headers, k)
  {
    hide NamesLength;
    if |headers| > 0 {
      LengthLowered(headers[0]);
      if NamesLength(headers[0]) {
        FirstDecides(headers);
        assert IsDeciding(headers, 0);
      } else {
        DecidingIsFirst(headers[1..]);
        forall k: nat | IsDeciding(headers, k) ensures k < |headers| && headers[k].number == DeclaredContentLength(headers) {
          NotFirst(headers, k);
          DecidesBehind(headers, k - 1);
        }
        if DeclaredContentLength(headers).Some? {
          var k: nat :| IsDeciding(headers[1..], k);
          DecidesBehind(headers, k);
        }
      }
    }
  }

  lemma FirstDecides(headers: seq<Header>)
    requires |headers| > 0 && NamesLength(headers[0])
    ensures forall k: nat :: IsDeciding(headers, k) <==> k == 0
  {
    hide NamesLength;
  }

  lemma NotFirst(headers: seq<Header>, k: nat)
    requires |headers| > 0 && !NamesLength(headers[0]) && IsDeciding(headers, k)
    ensures 0 < k < |headers|
  {
  }

  /** Exactly when the application runs; otherwise the call is the one answer, and nothing was read. */
  lemma RunsExactly(maxBytes: int, headers: seq<Header>, actions: seq<Action>, end: AppEnd)
    ensures var c := HandleHttp(maxBytes, headers, actions, end);
      && (c.appRan <==> LetRun(maxBytes, headers))
      && (!c.appRan ==> IsTooLarge(maxBytes, c.state.wire) && c.state.received == c.state.delivered == 0 && !c.propagates)
  {
    hide TooLarge, IsTooLarge, NamesLength, DeclaredContentLength, Run, Finished;
    DecidingIsFirst(headers);
    TooLargeIs(maxBytes);
  }

  /** A declared length over the limit is refused before anything is read or run. */
  lemma DeclaredTooLongIsRefused(maxBytes: int, headers: seq<Header>, actions: seq<Action>, end: AppEnd, k: nat)
    requires IsDeciding(headers, k) && headers[k].number.Some? && headers[k].number.value > maxBytes
    ensures var c := HandleHttp(maxBytes, headers, actions, end);
            IsTooLarge(maxBytes, c.state.wire) && c.state.received == 0 && !c.appRan && !c.propagates
  {
    hide HandleHttp, IsTooLarge;
    RunsExactly(maxBytes, headers, actions, end);
  }

  /** The whole call within the limit, whatever is declared or not: the application runs, every byte
      offered is delivered, the wire is what it sent, and only its own exception leaves. */
  lemma WithinLimitPasses(maxBytes: int, headers: seq<Header>, actions: seq<Action>, end: AppEnd)
    requires LetRun(maxBytes, headers) && BytesOffered(actions) <= maxBytes && end != RaisedTooLarge
    ensures var c := HandleHttp(maxBytes, headers, actions, end);
      && c.appRan && c.state.wire == SentBy(actions) && c.state.delivered == BytesOffered(actions)
      && (c.propagates <==> end == RaisedOther)
  {
    hide Run, SentBy, BytesOffered, LetRun;
    RunsExactly(maxBytes, headers, actions, end);
    WithinLimitIsTransparent(maxBytes, INITIAL, actions);
    assert [] + SentBy(actions) == SentBy(actions);
  }

  // ----- the whole call, when the limit trips -----

  /** The chunk at `k` is the first to take what is offered over the limit. */
  predicate TripsAt(maxBytes: int, actions: seq<Action>, k: nat) {
    && k < |actions| && IsChunk(actions[k]) && BytesOffered(actions[..k + 1]) > maxBytes
    && Fits(maxBytes, 0, actions[..k])
  }

  predicate IsChunk(a: Action) { a.Receive? && a.incoming.HttpRequest? }

  /** No chunk takes the total, `received` to begin with, over the limit. */
  predicate Fits(maxBytes: int, received: nat, actions: seq<Action>)
    decreases |actions|
  {
    |actions| == 0 ||
    ((IsChunk(actions[0]) ==> received + |actions[0].incoming.body| <= maxBytes)
     && Fits(maxBytes, received + BytesOffered(actions[..1]), actions[1..]))
  }

  lemma OfferedFirst(actions: seq<Action>)
    requires |actions| > 0
    ensures BytesOffered(actions[..1]) == if IsChunk(actions[0]) then |actions[0].incoming.body| else 0
  {
    assert actions[..1][1..] == [];
  }

  lemma {:induction false} RunSplit(maxBytes: int, s: State, a: seq<Action>, b: seq<Action>)
    ensures Run(maxBytes, s, a + b) == Run(maxBytes, Run(maxBytes, s, a), b)
    decreases |a|
  {
    if |a| == 0 {
      assert a + b == b;
    } else {
      assert (a + b)[1..] == a[1..] + b;
      RunSplit(maxBytes, Act(maxBytes, s, a[0]), a[1..], b);
    }
  }

  lemma {:induction false} OfferedSplit(a: seq<Action>, b: seq<Action>)
    ensures BytesOffered(a + b) == BytesOffered(a) + BytesOffered(b)
    ensures SentBy(a + b) == SentBy(a) + SentBy(b)
    decreases |a|
  {
    if |a| == 0 {
      assert a + b == b;
    } else {
      assert (a + b)[1..] == a[1..] + b;
      OfferedSplit(a[1..], b);
    }
  }

  /** Up to the trip everything passes. */
  lemma {:induction false} BeforeTrip(maxBytes: int, s: State, actions: seq<Action>)
    requires !s.exceeded && !s.answered && Fits(maxBytes, s.received, actions)
    ensures var e := Run(maxBytes, s, actions);
            && !e.exceeded && !e.answered && e.received == s.received + BytesOffered(actions)
            && e.wire == s.wire + SentBy(actions)
    decreases |actions|
  {
    if |actions| > 0 {
      OfferedFirst(actions);
      BeforeTrip(maxBytes, Act(maxBytes, s, actions[0]), actions[1..]);
    }
  }

  /** Behind a status line everything passes, tripped or not. */
  lemma {:induction false} BehindStart(maxBytes: int, s: State, actions: seq<Action>)
    requires s.forwardedStart && !s.answered
    ensures var e := Run(maxBytes, s, actions);
            e.forwardedStart && !e.answered && e.wire == s.wire + SentBy(actions) && (s.exceeded ==> e.exceeded)
    decreases |actions|
  {
    if |actions| > 0 { BehindStart(maxBytes, Act(maxBytes, s, actions[0]), actions[1..]); }
  }

  /** Without a message of the application there is no answer yet. */
  lemma {:induction false} SilenceIsUnanswered(maxBytes: int, s: State, actions: seq<Action>)
    requires s.exceeded && !s.forwardedStart
    ensures Run(maxBytes, s, actions).answered <==> s.answered || SentBy(actions) != []
    decreases |actions|
  {
    if |actions| > 0 { SilenceIsUnanswered(maxBytes, Act(maxBytes, s, actions[0]), actions[1..]); }
  }

  lemma TripState(maxBytes: int, actions: seq<Action>, k: nat)
    requires TripsAt(maxBytes, actions, k)
    ensures var s, before := Run(maxBytes, INITIAL, actions[..k + 1]), SentBy(actions[..k]);
            && s.exceeded && !s.answered && s.wire == before && (s.forwardedStart <==> Starts(before) > 0)
            && Run(maxBytes, INITIAL, actions) == Run(maxBytes, s, actions[k + 1..])
  {
    hide SentBy, Fits;
    var front := actions[..k];
    BeforeTrip(maxBytes, INITIAL, front);
    RunKeepsStarts(maxBytes, INITIAL, front, 0);
    assert [] + SentBy(front) == SentBy(front);
    assert actions[..k + 1] == front + [actions[k]] && actions == actions[..k + 1] + actions[k + 1..];
    OfferedSplit(front, [actions[k]]);
    RunSplit(maxBytes, INITIAL, front, [actions[k]]);
    RunSplit(maxBytes, INITIAL, actions[..k + 1], actions[k + 1..]);
    OneAct(maxBytes, Run(maxBytes, INITIAL, front), actions[k]);
  }

  lemma OneAct(maxBytes: int, s: State, a: Action)
    ensures Run(maxBytes, s, [a]) == Act(maxBytes, s, a) && BytesOffered([a]) == if IsChunk(a) then |a.incoming.body| else 0
  {
    assert [a][1..] == [];
  }

  /** The whole call of any application that is let run and trips the limit: exactly what it sent
      before the trip is on the wire, followed, when that held no status line, by nothing or by one
      too-large pair - the pair if and only if it sends anything later or lets the signal through. With
      a status line out, everything it sends passes, and the signal is let through. */
  lemma TripAnswersOnce(maxBytes: int, headers: seq<Header>, actions: seq<Action>, end: AppEnd, k: nat)
    requires TripsAt(maxBytes, actions, k) && HandleHttp(maxBytes, headers, actions, end).appRan
    ensures var c, before := HandleHttp(maxBytes, headers, actions, end), SentBy(actions[..k]);
            if Starts(before) == 0 then
              && c.state.wire
                 == before + (if SentBy(actions[k + 1..]) != [] || end == RaisedTooLarge then TooLarge(maxBytes) else [])
              && (c.propagates <==> end == RaisedOther)
            else
              c.state.wire == SentBy(actions) && (c.propagates <==> end != Returned)
  {
    hide Run, Starts, SentBy, TooLarge;
    var s, rest := Run(maxBytes, INITIAL, actions[..k + 1]), actions[k + 1..];
    TripState(maxBytes, actions, k);
    if s.forwardedStart {
      BehindStart(maxBytes, s, rest);
      SentAround(actions, k);
    } else {
      AfterTrip(maxBytes, s, s.wire, rest);
      SilenceIsUnanswered(maxBytes, s, rest);
      assert s.wire + [] == s.wire;
    }
  }

  lemma SentAround(actions: seq<Action>, k: nat)
    requires k < |actions| && IsChunk(actions[k])
    ensures SentBy(actions) == SentBy(actions[..k]) + SentBy(actions[k + 1..])
  {
    assert actions == actions[..k] + actions[k..];
    OfferedSplit(actions[..k], actions[k..]);
    assert actions[k..][1..] == actions[k + 1..];
  }

  /** The limit trips in a call if and only if some chunk takes what is offered over it. */
  lemma TripsIff(maxBytes: int, actions: seq<Action>)
    ensures Run(maxBytes, INITIAL, actions).exceeded <==> exists k: nat :: TripsAt(maxBytes, actions, k)
  {
    hide Run, BytesOffered;
    if Fits(maxBytes, 0, actions) {
      BeforeTrip(maxBytes, INITIAL, actions);
      forall k: nat ensures !TripsAt(maxBytes, actions, k) {
        if k < |actions| && IsChunk(actions[k]) { FitsAt(maxBytes, 0, actions, k); }
      }
    } else {
      var k := FirstTrip(maxBytes, 0, actions);
      TripState(maxBytes, actions, k);
      StaysExceeded(maxBytes, Run(maxBytes, INITIAL, actions[..k + 1]), actions[k + 1..]);
    }
  }

  lemma {:induction false} FitsAt(maxBytes: int, received: nat, actions: seq<Action>, k: nat)
    requires Fits(maxBytes, received, actions) && k < |actions| && IsChunk(actions[k])
    ensures received + BytesOffered(actions[..k + 1]) <= maxBytes
    decreases k
  {
    OfferedFirst(actions);
    if k > 0 {
      FitsAt(maxBytes, received + BytesOffered(actions[..1]), actions[1..], k - 1);
      assert actions[..k + 1] == actions[..1] + actions[1..][..k];
      OfferedSplit(actions[..1], actions[1..][..k]);
    }
  }

  lemma {:induction false} FirstTrip(maxBytes: int, received: nat, actions: seq<Action>) returns (k: nat)
    requires !Fits(maxBytes, received, actions)
    ensures k < |actions| && IsChunk(actions[k]) && received + BytesOffered(actions[..k + 1]) > maxBytes
    ensures Fits(maxBytes, received, actions[..k])
    decreases |actions|
  {
    OfferedFirst(actions);
    if IsChunk(actions[0]) && received + |actions[0].incoming.body| > maxBytes {
      k := 0;
    } else {
      var j := FirstTrip(maxBytes, received + BytesOffered(actions[..1]), actions[1..]);
      k := j + 1;
      assert actions[..k + 1] == actions[..1] + actions[1..][..j + 1];
      OfferedSplit(actions[..1], actions[1..][..j + 1]);
      assert actions[..k][1..] == actions[1..][..j] && actions[..k][..1] == actions[..1];
    }
  }
}
