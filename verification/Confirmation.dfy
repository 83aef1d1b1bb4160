/** Preview confirmations: the canonical signed document, the token, its parser and its verification.
    HMAC-SHA256 is a function of the text it authenticates, idealised as injective where that is
    needed; the deployment secret is part of that function. */
module Confirmation {
  import opened Base64Url
  import opened Octets
  import opened Json
  import opened Ordering
  import opened Wrappers
  import Utf8

  const VERSION := "document-preview-confirmation-v1"

  type Hmac = string -> seq<Byte>

  ghost predicate Ideal(hmac: Hmac) {
    forall s, t :: hmac(s) == hmac(t) ==> s == t
  }

  datatype ConfirmationState = ConfirmationState(
    normalizedDocument: string, task: string, documentType: string, analysisMode: string, domain: string,
    policyVersion: string, purpose: string, requesterRole: Option<string>, requestedPseudonymScope: string,
    governanceProviderClass: string, providerClass: string, strategy: string, treatment: string,
    externalPayload: string)

  /** Parsed claims. */
  datatype Claims = Claims(issuedAt: JValue, expiresAt: JValue)

  // ----- digests -----

  function HexText(bytes: seq<Byte>): (s: string)
    ensures |s| == 2 * |bytes|
  {
    if |bytes| == 0 then "" else [HexDigit(bytes[0] / 16), HexDigit(bytes[0] % 16)] + HexText(bytes[1..])
  }

  lemma {:induction false} HexTextInjective(a: seq<Byte>, b: seq<Byte>)
    requires HexText(a) == HexText(b)
    ensures a == b
  {
    if |a| > 0 {
      var s, t := HexText(a), HexText(b);
      assert s[0] == HexDigit(a[0] / 16) && s[1] == HexDigit(a[0] % 16) && s[2..] == HexText(a[1..]);
      assert t[0] == HexDigit(b[0] / 16) && t[1] == HexDigit(b[0] % 16) && t[2..] == HexText(b[1..]);
      assert HexValue(s[0]) == Some(a[0] / 16) && HexValue(s[1]) == Some(a[0] % 16);
      HexTextInjective(a[1..], b[1..]);
      assert a == [a[0]] + a[1..] && b == [b[0]] + b[1..];
    }
  }

  const SEPARATOR: string := [0x1f as char]

  /** The material one digest covers: version, field name and content, joined by the separator. */
  function Material(fieldName: string, content: string): string {
    VERSION + SEPARATOR + fieldName + SEPARATOR + content
  }

  function Digest(hmac: Hmac, fieldName: string, content: string): string {
    HexText(hmac(Material(fieldName, content)))
  }

  /** The join is read back unambiguously: field names hold no separator, contents may. */
  lemma MaterialInjective(f: string, c: string, g: string, d: string)
    requires (0x1f as char) !in f && (0x1f as char) !in g && Material(f, c) == Material(g, d)
    ensures f == g && c == d
  {
    var h, s, t := VERSION + SEPARATOR, Material(f, c), Material(g, d);
    var x, y := f + SEPARATOR + c, g + SEPARATOR + d;
    assert s == h + x && t == h + y;
    assert x == s[|h|..] == t[|h|..] == y;
    assert x[|f|] == SEPARATOR[0] && y[|g|] == SEPARATOR[0];
    assert forall i :: 0 <= i < |f| ==> x[i] == f[i] && f[i] != SEPARATOR[0];
    assert forall i :: 0 <= i < |g| ==> y[i] == g[i] && g[i] != SEPARATOR[0];
    assert |f| == |g|;
    assert x[..|f|] == f && y[..|g|] == g && x[|f| + 1..] == c && y[|g| + 1..] == d;
  }

  /** Equal keyed digests mean the same field and the same content: neither another content nor
      another field's digest can stand in. */
  lemma DigestInjective(hmac: Hmac, f: string, c: string, g: string, d: string)
    requires Ideal(hmac) && (0x1f as char) !in f && (0x1f as char) !in g
    requires Digest(hmac, f, c) == Digest(hmac, g, d)
    ensures f == g && c == d
  {
    HexTextInjective(hmac(Material(f, c)), hmac(Material(g, d)));
    MaterialInjective(f, c, g, d);
  }

  // ----- the signed document -----

  function SignedFields(hmac: Hmac, state: ConfirmationState, claims: Claims): seq<Field> {
    [Field("analysis_mode", JString(state.analysisMode)),
     Field("document_digest", JString(Digest(hmac, "normalized_document", state.normalizedDocument))),
     Field("document_type", JString(state.documentType)),
     Field("domain", JString(state.domain)),
     Field("expires_at", claims.expiresAt),
     Field("external_payload_digest", JString(Digest(hmac, "external_payload", state.externalPayload))),
     Field("governance_provider_class", JString(state.governanceProviderClass)),
     Field("issued_at", claims.issuedAt),
     Field("policy_version", JString(state.policyVersion)),
     Field("provider_class", JString(state.providerClass)),
     Field("purpose", JString(state.purpose)),
     Field("requested_pseudonym_scope", JString(state.requestedPseudonymScope)),
     Field("requester_role", match state.requesterRole case Some(r) => JString(r) case None => JNull),
     Field("strategy", JString(state.strategy)),
     Field("task_digest", JString(Digest(hmac, "task", state.task))),
     Field("treatment", JString(state.treatment)),
     Field("version", JString(VERSION))]
  }

  function SignedDocument(hmac: Hmac, state: ConfirmationState, claims: Claims): string {
    CanonicalJson(ToMap(SignedFields(hmac, state, claims)))
  }

  /** Adjacent keys in order make the whole list sorted. */
  lemma {:induction false} AdjacentSorted(fields: seq<Field>)
    requires forall i {:trigger fields[i]} :: 0 < i < |fields| ==> StringLess(fields[i - 1].key, fields[i].key)
    ensures KeysSorted(fields)
  {
    hide StringLess;
    if |fields| > 1 {
      var n := |fields| - 1;
      var front := fields[..n];
      forall i {:trigger front[i]} | 0 < i < |front| ensures StringLess(front[i - 1].key, front[i].key) {
        assert front[i] == fields[i];
      }
      AdjacentSorted(front);
      assert StringLess(fields[n - 1].key, fields[n].key);
      forall i | 0 <= i < n ensures StringLess(fields[i].key, fields[n].key) {
        if i < n - 1 {
          assert StringLess(front[i].key, front[n - 1].key);
          StringLessTransitive(fields[i].key, fields[n - 1].key, fields[n].key);
        }
      }
      forall i, j | 0 <= i < j < |fields| ensures StringLess(fields[i].key, fields[j].key) {
        if j < n { assert StringLess(front[i].key, front[j].key); }
      }
    }
  }

  lemma StringLessTransitive(a: string, b: string, c: string)
    requires StringLess(a, b) && StringLess(b, c)
    ensures StringLess(a, c)
  {
    StringLeqTransitive(a, b, c);
    if a == c { StringLeqAntisymmetric(a, b); }
  }

  const SIGNED_KEYS: seq<string> := [
    "analysis_mode", "document_digest", "document_type", "domain", "expires_at", "external_payload_digest",
    "governance_provider_class", "issued_at", "policy_version", "provider_class", "purpose",
    "requested_pseudonym_scope", "requester_role", "strategy", "task_digest", "treatment", "version"]

  lemma SignedKeyOrder()
    ensures forall i {:trigger SIGNED_KEYS[i]} :: 0 < i < |SIGNED_KEYS| ==> StringLess(SIGNED_KEYS[i - 1], SIGNED_KEYS[i])
  {
    hide StringLess;
    // the first position at which each key differs from the one before it
    var at := [0, 0, 9, 2, 0, 2, 0, 0, 0, 1, 1, 0, 8, 0, 0, 1, 0];
    forall i {:trigger SIGNED_KEYS[i]} | 0 < i < |SIGNED_KEYS| ensures StringLess(SIGNED_KEYS[i - 1], SIGNED_KEYS[i]) {
      StringLessAt(SIGNED_KEYS[i - 1], SIGNED_KEYS[i], at[i]);
    }
  }

  lemma SignedKeysSorted(hmac: Hmac, state: ConfirmationState, claims: Claims)
    ensures KeysSorted(SignedFields(hmac, state, claims))
  {
    hide Digest, StringLess;
    var fields := SignedFields(hmac, state, claims);
    SignedKeyOrder();
    assert |fields| == |SIGNED_KEYS| == 17;
    forall i {:trigger fields[i]} | 0 < i < |fields| ensures StringLess(fields[i - 1].key, fields[i].key) {
      assert fields[i].key == SIGNED_KEYS[i] && fields[i - 1].key == SIGNED_KEYS[i - 1];
    }
    AdjacentSorted(fields);
  }

  /** Equal signed documents are signed over equal states and equal claims. */
  lemma SignedDocumentInjective(hmac: Hmac, s: ConfirmationState, c: Claims, t: ConfirmationState, d: Claims)
    requires Ideal(hmac) && SignedDocument(hmac, s, c) == SignedDocument(hmac, t, d)
    ensures s == t && c == d
  {
    var f, g := SignedFields(hmac, s, c), SignedFields(hmac, t, d);
    SignedKeysSorted(hmac, s, c);
    SignedKeysSorted(hmac, t, d);
    SortedFieldsOfSorted(f);
    SortedFieldsOfSorted(g);
    PrintInjective(JObject(f), JObject(g));
    FieldsInjective(hmac, s, c, t, d);
  }

  lemma FieldsInjective(hmac: Hmac, s: ConfirmationState, c: Claims, t: ConfirmationState, d: Claims)
    requires Ideal(hmac) && SignedFields(hmac, s, c) == SignedFields(hmac, t, d)
    ensures s == t && c == d
  {
    hide Digest;
    var f, g := SignedFields(hmac, s, c), SignedFields(hmac, t, d);
    assert forall i :: 0 <= i < 17 ==> f[i].value == g[i].value;
    DigestInjective(hmac, "normalized_document", s.normalizedDocument, "normalized_document", t.normalizedDocument);
    DigestInjective(hmac, "external_payload", s.externalPayload, "external_payload", t.externalPayload);
    DigestInjective(hmac, "task", s.task, "task", t.task);
  }

  // ----- the token -----

  function ClaimsMap(claims: Claims): map<string, JValue> {
    map["expires_at" := claims.expiresAt, "issued_at" := claims.issuedAt]
  }

  function IssuedClaims(ttlSeconds: int, now: real): Claims {
    Claims(JInt(Truncate(now)), JInt(Truncate(now) + ttlSeconds))
  }

  function Mac(hmac: Hmac, state: ConfirmationState, claims: Claims): seq<Byte> {
    hmac(SignedDocument(hmac, state, claims))
  }

  function TokenText(claims: Claims, mac: seq<Byte>): string {
    VERSION + "." + Encode(Utf8.Encode(CanonicalJson(ClaimsMap(claims)))) + "." + Encode(mac)
  }

  /** `issue`: a pure function of secret, state and clock. */
  function Issue(hmac: Hmac, ttlSeconds: int, state: ConfirmationState, now: real): string {
    var claims := IssuedClaims(ttlSeconds, now);
    TokenText(claims, Mac(hmac, state, claims))
  }

  function Split(s: string): (parts: seq<string>)
    ensures |parts| > 0
  {
    if |s| == 0 then [""]
    else
      var rest := Split(s[1..]);
      if s[0] == '.' then [""] + rest else [[s[0]] + rest[0]] + rest[1..]
  }

  datatype Presented = Presented(claims: Claims, mac: seq<Byte>)

  /** `_parse`; `None` is the one rejection every malformed token gets. */
  function Parse(token: string): (r: Option<Presented>)
    ensures r.Some? ==> IsInt(r.value.claims.issuedAt) && IsInt(r.value.claims.expiresAt)
  {
    var parts := Split(token);
    if |parts| != 3 || parts[0] != VERSION then None
    else
      match (DecodeClaims(parts[1]), Decode(parts[2]))
      case (Some(claims), Some(mac)) => Some(Presented(claims, mac))
      case _ => None
  }

  function DecodeClaims(segment: string): (r: Option<Claims>)
    ensures r.Some? ==> IsInt(r.value.issuedAt) && IsInt(r.value.expiresAt)
  {
    match Decode(segment)
    case None => None
    case Some(bytes) =>
      match Utf8.Decode(bytes)
      case None => None
      case Some(text) =>
        match Loads(text)
        case Some(JObject(fields)) =>
          var m := ToMap(fields);
          if m.Keys != {"issued_at", "expires_at"} || !IsInt(m["issued_at"]) || !IsInt(m["expires_at"]) then None
          else Some(Claims(m["issued_at"], m["expires_at"]))
        case _ => None
  }

  /** `verify`. */
  predicate Verifies(hmac: Hmac, token: string, state: ConfirmationState, now: real) {
    match Parse(token)
    case None => false
    case Some(p) => Mac(hmac, state, p.claims) == p.mac && now <= Number(p.claims.expiresAt) as real
  }

  // ----- reading back what was issued -----

  lemma {:induction false} SplitJoin(a: string, rest: string)
    requires '.' !in a
    ensures Split(a + "." + rest) == [a] + Split(rest)
  {
    var s := a + "." + rest;
    if |a| == 0 {
      assert s[0] == '.' && s[1..] == rest;
    } else {
      assert s[0] == a[0] && s[1..] == a[1..] + "." + rest;
      SplitJoin(a[1..], rest);
      assert a == [a[0]] + a[1..];
    }
  }

  lemma {:induction false} SplitNone(a: string)
    requires '.' !in a
    ensures Split(a) == [a]
  {
    if |a| > 0 {
      SplitNone(a[1..]);
      assert a == [a[0]] + a[1..];
    }
  }

  lemma SplitThree(a: string, b: string, c: string)
    requires '.' !in a && '.' !in b && '.' !in c
    ensures Split(a + "." + b + "." + c) == [a, b, c]
  {
    assert a + "." + b + "." + c == a + "." + (b + "." + c);
    SplitJoin(a, b + "." + c);
    SplitJoin(b, c);
    SplitNone(c);
  }

  lemma ClaimsRoundTrip(claims: Claims)
    requires IsInt(claims.issuedAt) && IsInt(claims.expiresAt)
    ensures DecodeClaims(Encode(Utf8.Encode(CanonicalJson(ClaimsMap(claims))))) == Some(claims)
  {
    hide Encode, Decode, Utf8.Encode, Utf8.Decode, CanonicalJson, Loads, SortedFields, ToMap;
    var text := CanonicalJson(ClaimsMap(claims));
    Base64Url.RoundTrip(Utf8.Encode(text));
    Utf8.RoundTrip(text);
    CanonicalRoundTrip(ClaimsMap(claims));
    assert |"expires_at"| != |"issued_at"|;
  }

  /** The parser recovers exactly the claims and the MAC of a token: no segment can contain a dot. */
  lemma ParseToken(claims: Claims, mac: seq<Byte>)
    requires IsInt(claims.issuedAt) && IsInt(claims.expiresAt)
    ensures Parse(TokenText(claims, mac)) == Some(Presented(claims, mac))
  {
    hide Encode, Decode, Utf8.Encode, CanonicalJson, ClaimsMap, DecodeClaims;
    var body := Utf8.Encode(CanonicalJson(ClaimsMap(claims)));
    NoDot(body);
    NoDot(mac);
    SplitThree(VERSION, Encode(body), Encode(mac));
    ClaimsRoundTrip(claims);
    Base64Url.RoundTrip(mac);
  }

  /** A token is accepted for the state it was issued for up to and including its expiry, and for no
      other state at any time. */
  lemma VerifiesExactly(hmac: Hmac, ttlSeconds: int, state: ConfirmationState, issued: real,
                        other: ConfirmationState, now: real)
    requires Ideal(hmac)
    ensures Verifies(hmac, Issue(hmac, ttlSeconds, state, issued), other, now)
       <==> other == state && now <= (Truncate(issued) + ttlSeconds) as real
  {
    hide SignedDocument, TokenText, Parse;
    var claims := IssuedClaims(ttlSeconds, issued);
    ParseToken(claims, Mac(hmac, state, claims));
    if Mac(hmac, other, claims) == Mac(hmac, state, claims) {
      SignedDocumentInjective(hmac, other, claims, state, claims);
    }
  }

  /** On the clock: a token issued at a time past the epoch is accepted no later than its lifetime after
      that, and as long as a second of the lifetime is left; it carries the second it was issued in. */
  lemma VerifiesByClock(hmac: Hmac, ttlSeconds: int, state: ConfirmationState, issued: real, now: real)
    requires Ideal(hmac) && issued >= 0.0
    ensures var token := Issue(hmac, ttlSeconds, state, issued);
            && (Verifies(hmac, token, state, now) ==> now <= issued + ttlSeconds as real)
            && (now + 1.0 <= issued + ttlSeconds as real ==> Verifies(hmac, token, state, now))
            && Parse(token).Some? && Parse(token).value.claims.issuedAt.JInt?
            && Parse(token).value.claims.issuedAt.n as real <= issued < Parse(token).value.claims.issuedAt.n as real + 1.0
  {
    hide SignedDocument, TokenText, Parse, Verifies, Truncate;
    VerifiesExactly(hmac, ttlSeconds, state, issued, state, now);
    ParseToken(IssuedClaims(ttlSeconds, issued), Mac(hmac, state, IssuedClaims(ttlSeconds, issued)));
  }

  // ----- what the parser accepts -----

  /** The segments, put together again. */
  function Joined(parts: seq<string>): string {
    if |parts| == 0 then "" else if |parts| == 1 then parts[0] else parts[0] + "." + Joined(parts[1..])
  }

  lemma {:induction false} SplitParts(s: string)
    ensures Joined(Split(s)) == s && forall i :: 0 <= i < |Split(s)| ==> '.' !in Split(s)[i]
  {
    if |s| > 0 {
      SplitParts(s[1..]);
      var rest := Split(s[1..]);
      assert s == [s[0]] + s[1..];
      if s[0] == '.' {
        assert ([""] + rest)[1..] == rest;
      } else {
        assert ([[s[0]] + rest[0]] + rest[1..])[1..] == rest[1..];
      }
    }
  }

  /** A text of the form the parser demands, and what it then reads: a version and two base64url
      segments, the first of them JSON with the two claims and nothing else, both integers. */
  ghost predicate Presents(token: string, p: Presented) {
    exists a: string, b: string, text: string, fields: seq<Field> :: PresentsAs(token, p, a, b, text, fields)
  }

  ghost predicate PresentsAs(token: string, p: Presented, a: string, b: string, text: string, fields: seq<Field>) {
    && '.' !in a && '.' !in b && token == "document-preview-confirmation-v1" + "." + a + "." + b
    && Decode(a) == Some(Utf8.Encode(text)) && Loads(text) == Some(JObject(fields)) && Decode(b) == Some(p.mac)
    && ToMap(fields) == map["issued_at" := p.claims.issuedAt, "expires_at" := p.claims.expiresAt]
    && (p.claims.issuedAt.JInt? || p.claims.issuedAt.JBool?) && (p.claims.expiresAt.JInt? || p.claims.expiresAt.JBool?)
  }

  /** The parser accepts those texts and no others. */
  lemma ParsesExactly(token: string, p: Presented)
    ensures Parse(token) == Some(p) <==> Presents(token, p)
  {
    hide Parse, PresentsAs;
    if Parse(token) == Some(p) { ParsedPresents(token, p); }
    if Presents(token, p) {
      var a: string, b: string, text: string, fields: seq<Field> :| PresentsAs(token, p, a, b, text, fields);
      PresentedParses(token, p, a, b, text, fields);
    }
  }

  lemma ParsedPresents(token: string, p: Presented)
    requires Parse(token) == Some(p)
    ensures Presents(token, p)
  {
    hide Utf8.Decode, Utf8.Encode, Decode, Split, Joined, DecodeClaims, Loads, ToMap;
    SplitParts(token);
    var parts := Split(token);
    ThreeJoined(parts);
    var text, fields := ClaimsRead(parts[1], p.claims);
    assert PresentsAs(token, p, parts[1], parts[2], text, fields);
  }

  lemma ClaimsRead(segment: string, claims: Claims) returns (text: string, fields: seq<Field>)
    requires DecodeClaims(segment) == Some(claims)
    ensures Decode(segment) == Some(Utf8.Encode(text)) && Loads(text) == Some(JObject(fields))
    ensures ToMap(fields) == map["issued_at" := claims.issuedAt, "expires_at" := claims.expiresAt]
  {
    hide Utf8.Decode, Utf8.Encode, Decode, Loads, ToMap;
    var bytes := Decode(segment).value;
    text := Utf8.Decode(bytes).value;
    Utf8.DecodeStrict(bytes);
    fields := Loads(text).value.fields;
  }

  lemma PresentedParses(token: string, p: Presented, a: string, b: string, text: string, fields: seq<Field>)
    requires PresentsAs(token, p, a, b, text, fields)
    ensures Parse(token) == Some(p)
  {
    hide Utf8.Decode, Utf8.Encode, Decode, Split, DecodeClaims, Loads, ToMap;
    SplitThree(VERSION, a, b);
    ClaimsReadBack(a, p.claims, text, fields);
  }

  lemma ClaimsReadBack(segment: string, claims: Claims, text: string, fields: seq<Field>)
    requires Decode(segment) == Some(Utf8.Encode(text)) && Loads(text) == Some(JObject(fields))
    requires ToMap(fields) == map["issued_at" := claims.issuedAt, "expires_at" := claims.expiresAt]
    requires (claims.issuedAt.JInt? || claims.issuedAt.JBool?) && (claims.expiresAt.JInt? || claims.expiresAt.JBool?)
    ensures DecodeClaims(segment) == Some(claims)
  {
    hide Utf8.Decode, Utf8.Encode, Decode, Loads, ToMap;
    Utf8.RoundTrip(text);
    assert |"expires_at"| != |"issued_at"|;
  }

  lemma ThreeJoined(parts: seq<string>)
    requires |parts| == 3
    ensures Joined(parts) == parts[0] + "." + parts[1] + "." + parts[2]
  {
    assert parts[1..][1..] == [parts[2]];
    assert Joined(parts[1..]) == parts[1] + "." + parts[2];
    assert parts[0] + "." + (parts[1] + "." + parts[2]) == parts[0] + "." + parts[1] + "." + parts[2];
  }
}
