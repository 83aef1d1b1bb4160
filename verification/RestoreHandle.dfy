/** Stateless restore handles: the (pseudonym, original) entries of one export, sealed with an expiry. */
module RestoreHandle {
  import opened Wrappers
  import opened Base64Url
  import opened Octets
  import opened Json
  import opened Sealing
  import Utf8

  const HANDLE_VERSION := 1
  const HANDLE_PREFIX := "rh1"

  type Entries = map<string, string>

  datatype RestoreError = Unavailable | Invalid | Expired

  datatype IssuedRestoreHandle = IssuedRestoreHandle(handle: string, expiresAt: int)

  function JsonEntries(entries: Entries): Payload { map k | k in entries :: JString(entries[k]) }

  function HandlePayload(entries: Entries, issuedAt: int, expiresAt: int): Payload {
    map["v" := JInt(HANDLE_VERSION), "iat" := JInt(issuedAt), "exp" := JInt(expiresAt),
        "entries" := JObject(SortedFields(JsonEntries(entries)))]
  }

  predicate AllStrings(m: Payload) { forall k :: k in m ==> m[k].JString? }

  function Strings(m: Payload): Entries
    requires AllStrings(m)
  {
    map k | k in m :: m[k].s
  }

  /** The schema and expiry checks on a decrypted payload. */
  function OpenPayload(v: JValue, now: real): Result<Entries, RestoreError> {
    if !v.JObject? then Err(Invalid)
    else
      var m := ToMap(v.fields);
      if !IsInt(Get(m, "v")) || Number(Get(m, "v")) != HANDLE_VERSION || !IsInt(Get(m, "exp")) || !Get(m, "entries").JObject?
      then Err(Invalid)
      else
        var entries := ToMap(Get(m, "entries").fields);
        if !AllStrings(entries) then Err(Invalid)
        else if now > Number(Get(m, "exp")) as real then Err(Expired)
        else Ok(Strings(entries))
  }

  function OpenHandle(table: Table, configured: bool, handle: string, now: real): Result<Entries, RestoreError> {
    if !configured then Err(Unavailable)
    else
      match Unseal(table, HANDLE_PREFIX, handle)
      case None => Err(Invalid)
      case Some(v) => OpenPayload(v, now)
  }

  /** One issue: what was sealed, and until when. */
  datatype Grant = Grant(entries: Entries, issuedAt: int, expiresAt: int)

  /** The expiry is the lifetime after the second of `now`. */
  predicate LastsFrom(expiresAt: int, ttlSeconds: int, now: real) {
    now + ttlSeconds as real - 1.0 < expiresAt as real <= now + ttlSeconds as real
  }

  lemma LastsFromSecond(ttlSeconds: int, now: real)
    requires now >= 0.0
    ensures LastsFrom(Truncate(now) + ttlSeconds, ttlSeconds, now)
  {
  }

  ghost predicate Recorded(sealed: Table, grants: map<seq<Byte>, Grant>, ttlSeconds: int) {
    && sealed.Keys == grants.Keys
    && forall raw :: raw in sealed ==>
         && |raw| > NONCE_BYTES
         && sealed[raw] == Padded(HandlePayload(grants[raw].entries, grants[raw].issuedAt, grants[raw].expiresAt))
         && grants[raw].expiresAt == grants[raw].issuedAt + ttlSeconds
  }

  lemma RecordedMore(sealed: Table, grants: map<seq<Byte>, Grant>, ttlSeconds: int, envelope: seq<Byte>, g: Grant)
    requires Recorded(sealed, grants, ttlSeconds) && |envelope| > NONCE_BYTES && g.expiresAt == g.issuedAt + ttlSeconds
    ensures Recorded(sealed[envelope := Padded(HandlePayload(g.entries, g.issuedAt, g.expiresAt))], grants[envelope := g], ttlSeconds)
  {
    hide Padded, HandlePayload;
  }

  /** One deployment's sealer. `sealed` is the idealised AEAD under its key; `grants` records what
      each envelope was issued for. */
  class RestoreHandleSealer {
    const configured: bool
    const ttlSeconds: int
    var sealed: Table
    ghost var grants: map<seq<Byte>, Grant>

    /** Seven days is the longest lifetime a deployment may configure. */
    constructor (configured: bool, ttlSeconds: int)
      requires 0 < ttlSeconds <= 604800
      ensures Valid() && this.configured == configured && this.ttlSeconds == ttlSeconds && sealed == map[] && grants == map[]
    {
      this.configured, this.ttlSeconds, sealed, grants := configured, ttlSeconds, map[], map[];
    }

    ghost predicate Valid()
      reads this
    {
      0 < ttlSeconds <= 604800 && Recorded(sealed, grants, ttlSeconds)
    }

    /** The random nonce and the ciphertext it yields are the environment's, as one envelope not
        sealed before. */
    method Issue(entries: Entries, now: real, envelope: seq<Byte>)
        returns (r: Result<IssuedRestoreHandle, RestoreError>)
      requires Valid() && |envelope| > NONCE_BYTES && envelope !in sealed
      modifies this
      ensures Valid()
      ensures !configured ==> r == Err(Unavailable) && sealed == old(sealed) && grants == old(grants)
      ensures configured ==>
        var iat := Truncate(now);
        && r == Ok(IssuedRestoreHandle(Token(HANDLE_PREFIX, envelope), iat + ttlSeconds))
        && sealed == old(sealed)[envelope := Padded(HandlePayload(entries, iat, iat + ttlSeconds))]
        && grants == old(grants)[envelope := Grant(entries, iat, iat + ttlSeconds)]
      ensures configured && now >= 0.0 ==> LastsFrom(r.value.expiresAt, ttlSeconds, now)
    {
      hide Padded, HandlePayload, Token, Truncate, LastsFrom, Recorded;
      if now >= 0.0 { LastsFromSecond(ttlSeconds, now); }
      if !configured { return Err(Unavailable); }
      var issuedAt := Truncate(now);
      var expiresAt := issuedAt + ttlSeconds;
      var plaintext := PadToBucket(HandlePayload(entries, issuedAt, expiresAt));
      RecordedMore(sealed, grants, ttlSeconds, envelope, Grant(entries, issuedAt, expiresAt));
      sealed := sealed[envelope := plaintext];
      grants := grants[envelope := Grant(entries, issuedAt, expiresAt)];
      r := Ok(IssuedRestoreHandle(Token(HANDLE_PREFIX, envelope), expiresAt));
    }

    /** Opening yields the entries of an issue that has not expired, or an error; never anything the
        sealer did not seal. */
    method Open(handle: string, now: real) returns (r: Result<Entries, RestoreError>)
      requires Valid()
      ensures r == OpenHandle(sealed, configured, handle, now)
      ensures !configured ==> r == Err(Unavailable)
      ensures forall raw :: configured && raw in grants && Carries("rh1", handle, raw) ==>
                r == if now > grants[raw].expiresAt as real then Err(Expired) else Ok(grants[raw].entries)
      ensures configured && (forall raw :: raw in grants ==> !Carries("rh1", handle, raw)) ==> r == Err(Invalid)
    {
      hide Padded, HandlePayload, Unseal, OpenPayload, Carries;
      r := OpenHandle(sealed, configured, handle, now);
      forall raw | configured && raw in grants && Carries("rh1", handle, raw)
        ensures r == if now > grants[raw].expiresAt as real then Err(Expired) else Ok(grants[raw].entries)
      {
        UnsealedPayload(sealed, handle, raw, grants[raw]);
        OpenOwnPayload(grants[raw], now);
      }
      var v := Unseal(sealed, HANDLE_PREFIX, handle);
      if configured && v.Some? {
        UnsealOnlySealed(sealed, HANDLE_PREFIX, handle, v.value);
        ghost var raw :| Carries("rh1", handle, raw) && Holds(sealed, raw, v.value);
      }
    }
  }

  lemma OpenFields(fields: seq<Field>, g: Grant, now: real)
    requires var m := ToMap(fields);
      && Get(m, "v") == JInt(HANDLE_VERSION) && Get(m, "exp") == JInt(g.expiresAt)
      && Get(m, "entries") == JObject(SortedFields(JsonEntries(g.entries)))
    ensures OpenPayload(JObject(fields), now) == if now > g.expiresAt as real then Err(Expired) else Ok(g.entries)
  {
    hide ToMap, SortedFields;
    CanonicalRoundTrip(JsonEntries(g.entries));
    assert Strings(JsonEntries(g.entries)) == g.entries;
  }

  lemma PayloadKeys(g: Grant, n: nat)
    ensures var m := WithPad(HandlePayload(g.entries, g.issuedAt, g.expiresAt), n);
      && Get(m, "v") == JInt(1) && Get(m, "exp") == JInt(g.expiresAt) && Get(m, "iat") == JInt(g.issuedAt)
      && Get(m, "entries") == JObject(SortedFields(JsonEntries(g.entries)))
      && m.Keys == {"v", "iat", "exp", "entries", "pad"} && Get(m, "pad") == JString(Zeros(n))
  {
    hide SortedFields, Zeros;
    assert |"v"| == 1 && |"exp"| == 3 && |"entries"| == 7 && "pad"[0] == 'p' && "iat"[0] == 'i' && "exp"[0] == 'e';
  }

  lemma OpenOwnPayload(g: Grant, now: real)
    ensures var p := HandlePayload(g.entries, g.issuedAt, g.expiresAt);
            OpenPayload(JObject(SortedFields(WithPad(p, PadLength(p)))), now)
            == if now > g.expiresAt as real then Err(Expired) else Ok(g.entries)
  {
    hide OpenPayload, SortedFields, HandlePayload, PadLength, WithPad, Get;
    var p := HandlePayload(g.entries, g.issuedAt, g.expiresAt);
    var n := PadLength(p);
    CanonicalRoundTrip(WithPad(p, n));
    PayloadKeys(g, n);
    OpenFields(SortedFields(WithPad(p, n)), g, now);
  }

  lemma UnsealedPayload(table: Table, handle: string, raw: seq<Byte>, g: Grant)
    requires Carries(HANDLE_PREFIX, handle, raw) && |raw| > NONCE_BYTES
    requires raw in table && table[raw] == Padded(HandlePayload(g.entries, g.issuedAt, g.expiresAt))
    ensures var p := HandlePayload(g.entries, g.issuedAt, g.expiresAt);
            Unseal(table, HANDLE_PREFIX, handle) == Some(JObject(SortedFields(WithPad(p, PadLength(p)))))
  {
    hide HandlePayload, Unseal, Carries, Loads, Utf8.Encode, CanonicalJson, PadLength, WithPad, SortedFields;
    var p := HandlePayload(g.entries, g.issuedAt, g.expiresAt);
    var full := WithPad(p, PadLength(p));
    CanonicalRoundTrip(full);
    assert table[raw] == Utf8.Encode(CanonicalJson(full));
    assert Holds(table, raw, JObject(SortedFields(full)));
    UnsealOnlySealed(table, HANDLE_PREFIX, handle, JObject(SortedFields(full)));
  }

  /** What a decrypted payload must be to open, and to what: an object of version 1 (`true` counts as 1)
      with an integer expiry not passed and an object of strings as its entries. */
  ghost predicate IsOpenable(v: JValue, now: real, entries: Entries) {
    exists fields: seq<Field>, items: seq<Field> :: v == JObject(fields) && Names(ToMap(fields), ToMap(items), items, now, entries)
  }

  ghost predicate Names(m: Payload, held: Payload, items: seq<Field>, now: real, entries: Entries) {
    && "v" in m && (m["v"] == JInt(1) || m["v"] == JBool(true))
    && "exp" in m && (match m["exp"]
                      case JInt(n) => now <= n as real
                      case JBool(b) => now <= if b then 1.0 else 0.0
                      case _ => false)
    && "entries" in m && m["entries"] == JObject(items)
    && held.Keys == entries.Keys && forall k :: k in held ==> held[k] == JString(entries[k])
  }

  /** Exactly those open. */
  lemma OpensExactly(v: JValue, now: real, entries: Entries)
    ensures OpenPayload(v, now) == Ok(entries) <==> IsOpenable(v, now, entries)
  {
    hide ToMap;
    if OpenPayload(v, now) == Ok(entries) {
      var m := ToMap(v.fields);
      var items := m["entries"].fields;
      var held := ToMap(items);
      assert Names(m, held, items, now, entries);
    }
    if IsOpenable(v, now, entries) {
      var fields: seq<Field>, items: seq<Field> :| v == JObject(fields) && Names(ToMap(fields), ToMap(items), items, now, entries);
      assert Strings(ToMap(items)) == entries;
    }
  }

  /** For every string-to-string map, the handle opens to exactly that map up to and including its
      expiry and to the expired error afterwards, whatever else has been sealed. */
  lemma HandleRoundTrip(table: Table, envelope: seq<Byte>, entries: Entries, issuedAt: int, expiresAt: int, now: real)
    requires |envelope| > NONCE_BYTES
    ensures var sealed := table[envelope := Padded(HandlePayload(entries, issuedAt, expiresAt))];
            OpenHandle(sealed, true, Token(HANDLE_PREFIX, envelope), now)
            == if now > expiresAt as real then Err(Expired) else Ok(entries)
  {
    hide Padded, Unseal, Token, HandlePayload, OpenPayload, SortedFields, PadLength, WithPad;
    var payload := HandlePayload(entries, issuedAt, expiresAt);
    UnsealSealed(table[envelope := Padded(payload)], HANDLE_PREFIX, envelope, payload);
    OpenOwnPayload(Grant(entries, issuedAt, expiresAt), now);
  }
}
