/** Sealed vault-explorer references: which entries of one decision may be looked up again, and the
    point lookups made when a reference is opened. */
module VaultExplorer {
  import opened Wrappers
  import opened Base64Url
  import opened Octets
  import opened Disclosure
  import opened Json
  import opened Policies
  import opened Sealing
  import opened Vault
  import Utf8

  const TTL_SECONDS := 900
  const PREFIX := "vx1"
  const VERSION := 1

  datatype Pair = Pair(category: string, pseudonym: string)

  function PairOf(t: Transformation): Pair
    requires IsReversible(t)
  {
    Pair(t.category, t.transformed.value)
  }

  // ----- the distinct pairs -----

  /** The first transformation with its category and pseudonym. */
  predicate IsFirst(ts: seq<Transformation>, i: nat)
    requires i < |ts|
  {
    IsReversible(ts[i]) && forall j :: 0 <= j < i && IsReversible(ts[j]) ==> PairOf(ts[j]) != PairOf(ts[i])
  }

  /** The positions of the first occurrences, in order. */
  function Firsts(ts: seq<Transformation>): (at: seq<nat>)
    ensures forall k :: 0 <= k < |at| ==> at[k] < |ts| && IsFirst(ts, at[k])
    ensures forall k, l :: 0 <= k < l < |at| ==> at[k] < at[l]
    ensures forall i :: 0 <= i < |ts| && IsFirst(ts, i) ==> i in at
  {
    if |ts| == 0 then []
    else
      var n := |ts| - 1;
      var before := Firsts(ts[..n]);
      assert forall i :: 0 <= i < n ==> (IsFirst(ts, i) <==> IsFirst(ts[..n], i));
      if IsFirst(ts, n) then before + [n] else before
  }

  /** The transformations a reference is about: one for each distinct pair, in first-occurrence order. */
  function Distinct(ts: seq<Transformation>): (ps: seq<Transformation>)
    ensures |ps| == |Firsts(ts)| && forall k :: 0 <= k < |ps| ==> ps[k] == ts[Firsts(ts)[k]] && IsReversible(ps[k])
  {
    seq(|Firsts(ts)|, k requires 0 <= k < |Firsts(ts)| => ts[Firsts(ts)[k]])
  }

  lemma FirstsStep(ts: seq<Transformation>, t: Transformation)
    ensures Distinct(ts + [t]) == if IsFirst(ts + [t], |ts|) then Distinct(ts) + [t] else Distinct(ts)
  {
    assert (ts + [t])[..|ts|] == ts;
    assert Firsts(ts + [t]) == if IsFirst(ts + [t], |ts|) then Firsts(ts) + [|ts|] else Firsts(ts);
  }

  predicate SeenSoFar(ts: seq<Transformation>, seen: set<Pair>) {
    && (forall i :: 0 <= i < |ts| && IsReversible(ts[i]) ==> PairOf(ts[i]) in seen)
    && (forall p :: p in seen ==> exists i :: 0 <= i < |ts| && IsReversible(ts[i]) && PairOf(ts[i]) == p)
  }

  lemma SeenStep(ts: seq<Transformation>, seen: set<Pair>, t: Transformation)
    requires SeenSoFar(ts, seen)
    ensures SeenSoFar(ts + [t], if IsReversible(t) then seen + {PairOf(t)} else seen)
    ensures IsFirst(ts + [t], |ts|) <==> IsReversible(t) && PairOf(t) !in seen
  {
    var all := ts + [t];
    assert forall i :: 0 <= i < |ts| ==> all[i] == ts[i];
    var more := if IsReversible(t) then seen + {PairOf(t)} else seen;
    forall p | p in more ensures exists i :: 0 <= i < |all| && IsReversible(all[i]) && PairOf(all[i]) == p {
      if p in seen {
        var i :| 0 <= i < |ts| && IsReversible(ts[i]) && PairOf(ts[i]) == p;
        assert PairOf(all[i]) == p;
      } else {
        assert PairOf(all[|ts|]) == p;
      }
    }
    if IsReversible(t) && PairOf(t) in seen {
      var i :| 0 <= i < |ts| && IsReversible(ts[i]) && PairOf(ts[i]) == PairOf(t);
      assert PairOf(all[i]) == PairOf(all[|ts|]);
    }
  }

  // ----- what is sealed -----

  datatype Place = Place(scope: Scope, key: string)

  /** What one reference is about; no place when nothing was pseudonymized. */
  datatype Reference = Reference(place: Option<Place>, entries: seq<Pair>)

  function EntryJson(p: Pair): JValue {
    JObject([Field("category", JString(p.category)), Field("pseudonym", JString(p.pseudonym))])
  }

  function EntriesJson(ps: seq<Pair>): (r: seq<JValue>)
    ensures |r| == |ps| && forall i :: 0 <= i < |r| ==> r[i] == EntryJson(ps[i])
  {
    seq(|ps|, i requires 0 <= i < |ps| => EntryJson(ps[i]))
  }

  function ReferencePayload(r: Reference, expiresAt: int): Payload {
    map["v" := JInt(VERSION), "exp" := JInt(expiresAt),
        "scope" := match r.place case Some(p) => JString(ScopeCode(p.scope)) case None => JNull,
        "scope_key" := match r.place case Some(p) => JString(p.key) case None => JNull,
        "entries" := JArray(EntriesJson(r.entries))]
  }

  function PairsOf(ps: seq<Transformation>): (r: seq<Pair>)
    requires forall k :: 0 <= k < |ps| ==> IsReversible(ps[k])
    ensures |r| == |ps| && forall k :: 0 <= k < |r| ==> r[k] == PairOf(ps[k])
  {
    seq(|ps|, k requires 0 <= k < |ps| => PairOf(ps[k]))
  }

  ghost predicate AllResolve(ps: seq<Transformation>, place: Place, reverse: Reverse)
    requires forall k :: 0 <= k < |ps| ==> IsReversible(ps[k])
  {
    forall k :: 0 <= k < |ps| ==> Gives(place, ps[k], reverse)
  }

  /** The vault gives the pseudonym of the transformation its original. */
  predicate Gives(place: Place, t: Transformation, reverse: Reverse)
    requires IsReversible(t)
  {
    var held := Partition(place.scope, place.key);
    held in reverse && t.transformed.value in reverse[held] && reverse[held][t.transformed.value] == t.original
  }

  lemma GivenIsFound(place: Place, t: Transformation, reverse: Reverse)
    requires IsReversible(t)
    ensures Gives(place, t, reverse)
       <==> Lookup(reverse, Partition(place.scope, place.key), t.transformed.value) == Some(t.original)
  {
  }

  /** The reference a decision gets, or `None` whenever there is nothing safe to show. */
  ghost function ReferenceFor(decision: DisclosureDecision, c: GovernanceContext, policies: PolicyRepository,
                              reverse: Reverse): Option<Reference>
  {
    var ps := Distinct(decision.result.transformations);
    var scope := ResolvePseudonymScope(policies, c);
    var key := ScopeKey(scope, c);
    if decision.result.status != Allowed then None
    else if ps == [] then Some(Reference(None, []))
    else if scope == OrganizationScope || key.None? || !AllResolve(ps, Place(scope, key.value), reverse) then None
    else Some(Reference(Some(Place(scope, key.value)), PairsOf(ps)))
  }

  predicate IsReversibleAt(ts: seq<Transformation>, i: nat)
    requires i < |ts|
  {
    ts[i].action == Pseudonymize && ts[i].transformed != None
  }

  /** A reference may be issued for an allowed decision, and is this one: blank if nothing in it is
      reversible; otherwise, in a scope narrower than the organization's whose identifier is at hand,
      with the distinct pairs, as long as the vault gives every one of them its original. */
  ghost predicate IsReferenceOf(decision: DisclosureDecision, c: GovernanceContext, policies: PolicyRepository,
                                reverse: Reverse, reference: Reference)
  {
    var ts := decision.result.transformations;
    decision.result.status == Allowed &&
    match reference.place
    case None => reference.entries == [] && forall i :: 0 <= i < |ts| ==> !IsReversibleAt(ts, i)
    case Some(Place(scope, key)) =>
      var ps := Distinct(ts);
      && (exists i :: 0 <= i < |ts| && IsReversibleAt(ts, i))
      && scope == ResolvePseudonymScope(policies, c) && ScopeKey(scope, c) == Some(key)
      && (scope == RequestScope || scope == DocumentScope || scope == SessionScope)
      && AllResolve(ps, Place(scope, key), reverse) && |reference.entries| == |ps|
      && forall k :: 0 <= k < |ps| ==> reference.entries[k] == Pair(ps[k].category, ps[k].transformed.value)
  }

  lemma SamePairs(ps: seq<Transformation>)
    requires forall k :: 0 <= k < |ps| ==> IsReversible(ps[k])
    ensures forall k :: 0 <= k < |ps| ==> PairsOf(ps)[k] == Pair(ps[k].category, ps[k].transformed.value)
  {
  }

  lemma SameReversible(ts: seq<Transformation>)
    ensures forall i :: 0 <= i < |ts| ==> (IsReversibleAt(ts, i) <==> IsReversible(ts[i]))
  {
  }

  /** A reference is issued exactly then, and it is that one. */
  lemma IssuedExactly(decision: DisclosureDecision, c: GovernanceContext, policies: PolicyRepository, reverse: Reverse,
                      reference: Reference)
    ensures ReferenceFor(decision, c, policies, reverse) == Some(reference)
       <==> IsReferenceOf(decision, c, policies, reverse, reference)
  {
    hide Distinct, ResolvePseudonymScope, ScopeKey, AllResolve, IsReversible;
    var ts := decision.result.transformations;
    NothingDistinct(ts);
    SameReversible(ts);
    if IsReferenceOf(decision, c, policies, reverse, reference) && reference.place.Some? {
      assert reference.entries == PairsOf(Distinct(ts)) by { SamePairs(Distinct(ts)); }
    }
  }

  /** The transformations worth a reference, in order, with a set of the pairs already seen. */
  method DistinctPseudonyms(ts: seq<Transformation>) returns (pseudonymized: seq<Transformation>)
    ensures pseudonymized == Distinct(ts)
  {
    hide Distinct, SeenSoFar, IsFirst;
    var seen: set<Pair> := {};
    pseudonymized := [];
    assert ts[..0] == [];
    NoneYet();
    for i := 0 to |ts|
      invariant pseudonymized == Distinct(ts[..i]) && SeenSoFar(ts[..i], seen)
    {
      assert ts[..i + 1] == ts[..i] + [ts[i]];
      FirstsStep(ts[..i], ts[i]);
      SeenStep(ts[..i], seen, ts[i]);
      if ts[i].action != Pseudonymize { continue; }
      if ts[i].transformed.None? { continue; }
      var pair := Pair(ts[i].category, ts[i].transformed.value);
      assert pair in seen ==> seen + {pair} == seen;
      if pair in seen { continue; }
      seen := seen + {pair};
      pseudonymized := pseudonymized + [ts[i]];
    }
    assert ts[..|ts|] == ts;
  }

  lemma NoneYet()
    ensures Distinct([]) == [] && SeenSoFar([], {})
  {
  }

  /** Each pseudonym still resolves, in the live vault, to the original recorded with it. */
  method AreResolved(ps: seq<Transformation>, place: Place, vault: InMemoryVault) returns (resolved: bool)
    requires forall k :: 0 <= k < |ps| ==> IsReversible(ps[k])
    ensures resolved <==> AllResolve(ps, place, vault.reverse)
  {
    hide Lookup, Gives;
    for k := 0 to |ps|
      invariant AllResolve(ps[..k], place, vault.reverse)
    {
      assert ps[..k + 1] == ps[..k] + [ps[k]];
      GivenIsFound(place, ps[k], vault.reverse);
      if vault.Reconstruct(Partition(place.scope, place.key), ps[k].transformed.value) != Some(ps[k].original) {
        return false;
      }
    }
    assert ps[..|ps|] == ps;
    resolved := true;
  }

  // ----- opening -----

  datatype ExplorerEntry = ExplorerEntry(category: string, pseudonym: string, original: Option<string>, present: bool)

  datatype ExplorerView = ExplorerView(scope: Option<string>, entries: seq<ExplorerEntry>)

  /** The one rejection; `UnknownScope` is the enumeration's own failure on a scope it does not name. */
  datatype ExplorerError = Invalid | UnknownScope

  predicate IsStringOrNull(v: JValue) { v.JString? || v.JNull? }

  /** What a decrypted payload must be to open: an object of version 1 (`true` counts as 1) with an
      integer expiry not passed, a scope and a key or neither, and entries of two texts each. */
  ghost predicate IsOpenable(v: JValue, now: real) {
    exists fields: seq<Field> :: v == JObject(fields) && Names(ToMap(fields), now)
  }

  ghost predicate Names(m: Payload, now: real) {
    && "v" in m && (m["v"] == JInt(1) || m["v"] == JBool(true))
    && "exp" in m && m["exp"].JInt? && now <= m["exp"].n as real
    && (("scope" in m && m["scope"].JString? && "scope_key" in m && m["scope_key"].JString?)
        || (("scope" !in m || m["scope"] == JNull) && ("scope_key" !in m || m["scope_key"] == JNull)))
    && "entries" in m && m["entries"].JArray?
    && forall i :: 0 <= i < |m["entries"].items| ==> NamesEntry(m["entries"].items[i])
  }

  ghost predicate NamesEntry(v: JValue) {
    exists fields: seq<Field>, category: string, pseudonym: string ::
      v == JObject(fields) && ToMap(fields) == map["category" := JString(category), "pseudonym" := JString(pseudonym)]
  }

  lemma EntriesExactly(v: JValue)
    ensures IsEntry(v) <==> NamesEntry(v)
  {
    hide ToMap;
    assert "category"[0] == 'c' && "pseudonym"[0] == 'p';
    if IsEntry(v) {
      var m := ToMap(v.fields);
      assert m == map["category" := JString(m["category"].s), "pseudonym" := JString(m["pseudonym"].s)];
    }
  }

  /** Exactly those open. */
  lemma OpensExactly(table: Table, token: string, now: real)
    ensures OpenPayload(table, token, now).Ok?
       <==> exists v :: Unseal(table, PREFIX, token) == Some(v) && IsOpenable(v, now)
    ensures OpenPayload(table, token, now).Err? ==> OpenPayload(table, token, now).error == Invalid
  {
    hide ToMap, Unseal, IsEntry, NamesEntry;
    forall v ensures IsEntry(v) <==> NamesEntry(v) { EntriesExactly(v); }
  }

  predicate IsEntry(v: JValue) {
    v.JObject? && var m := ToMap(v.fields);
      m.Keys == {"pseudonym", "category"} && Get(m, "pseudonym").JString? && Get(m, "category").JString?
  }

  predicate IsValidSchema(v: JValue) {
    v.JObject? && var m := ToMap(v.fields);
      && IsInt(Get(m, "v")) && Number(Get(m, "v")) == VERSION
      && Get(m, "exp").JInt?
      && IsStringOrNull(Get(m, "scope")) && IsStringOrNull(Get(m, "scope_key"))
      && (Get(m, "scope").JNull? <==> Get(m, "scope_key").JNull?)
      && Get(m, "entries").JArray?
      && forall i :: 0 <= i < |Get(m, "entries").items| ==> IsEntry(Get(m, "entries").items[i])
  }

  function OpenPayload(table: Table, token: string, now: real): Result<Payload, ExplorerError> {
    match Unseal(table, PREFIX, token)
    case None => Err(Invalid)
    case Some(v) =>
      if !IsValidSchema(v) then Err(Invalid)
      else if now > Get(ToMap(v.fields), "exp").n as real then Err(Invalid)
      else Ok(ToMap(v.fields))
  }

  function ScopeOf(code: string): Option<Scope> {
    if code == "request" then Some(RequestScope)
    else if code == "document" then Some(DocumentScope)
    else if code == "session" then Some(SessionScope)
    else if code == "organization" then Some(OrganizationScope)
    else None
  }

  function LookedUp(v: JValue, place: Place, reverse: Reverse): ExplorerEntry
    requires IsEntry(v)
  {
    var m := ToMap(v.fields);
    var original := Lookup(reverse, Partition(place.scope, place.key), Get(m, "pseudonym").s);
    ExplorerEntry(Get(m, "category").s, Get(m, "pseudonym").s, original, original.Some?)
  }

  function AllLookedUp(items: seq<JValue>, place: Place, reverse: Reverse): (r: seq<ExplorerEntry>)
    requires forall i :: 0 <= i < |items| ==> IsEntry(items[i])
    ensures |r| == |items| && forall i :: 0 <= i < |r| ==> r[i] == LookedUp(items[i], place, reverse)
  {
    seq(|items|, i requires 0 <= i < |items| => LookedUp(items[i], place, reverse))
  }

  /** A point lookup for each entry, in order; never an enumeration of the vault. */
  method LookUpAll(items: seq<JValue>, place: Place, vault: InMemoryVault) returns (entries: seq<ExplorerEntry>)
    requires forall i :: 0 <= i < |items| ==> IsEntry(items[i])
    ensures entries == AllLookedUp(items, place, vault.reverse)
  {
    hide Lookup, ToMap;
    entries := [];
    for i := 0 to |items|
      invariant entries == AllLookedUp(items[..i], place, vault.reverse)
    {
      var e := ToMap(items[i].fields);
      var original := vault.Reconstruct(Partition(place.scope, place.key), Get(e, "pseudonym").s);
      entries := entries + [ExplorerEntry(Get(e, "category").s, Get(e, "pseudonym").s, original, original.Some?)];
    }
    assert items[..|items|] == items;
  }

  function View(m: Payload, reverse: Reverse): Result<ExplorerView, ExplorerError>
    requires IsStringOrNull(Get(m, "scope")) && IsStringOrNull(Get(m, "scope_key")) && Get(m, "entries").JArray?
    requires forall i :: 0 <= i < |Get(m, "entries").items| ==> IsEntry(Get(m, "entries").items[i])
  {
    var scope, key := Get(m, "scope"), Get(m, "scope_key");
    if scope.JNull? || key.JNull? then Ok(ExplorerView(if scope.JNull? then None else Some(scope.s), []))
    else if ScopeOf(scope.s).None? then Err(UnknownScope)
    else Ok(ExplorerView(Some(scope.s), AllLookedUp(Get(m, "entries").items, Place(ScopeOf(scope.s).value, key.s), reverse)))
  }

  function ExploreReference(table: Table, token: string, reverse: Reverse, now: real): Result<ExplorerView, ExplorerError> {
    match OpenPayload(table, token, now)
    case Err(e) => Err(e)
    case Ok(m) => View(m, reverse)
  }

  /** One issue. */
  datatype Grant = Grant(reference: Reference, expiresAt: int)

  ghost predicate Recorded(sealed: Table, grants: map<seq<Byte>, Grant>) {
    && sealed.Keys == grants.Keys
    && forall raw :: raw in sealed ==>
         |raw| > NONCE_BYTES && sealed[raw] == Padded(ReferencePayload(grants[raw].reference, grants[raw].expiresAt))
  }

  /** One process's sealer. `sealed` is the idealised AEAD under its key. */
  class VaultExplorerSealer {
    var sealed: Table
    ghost var grants: map<seq<Byte>, Grant>

    constructor ()
      ensures Valid() && sealed == map[] && grants == map[]
    {
      sealed, grants := map[], map[];
    }

    ghost predicate Valid()
      reads this
    {
      Recorded(sealed, grants)
    }

    method IssueReference(decision: DisclosureDecision, c: GovernanceContext, policies: PolicyRepository,
                          vault: InMemoryVault, now: real, envelope: seq<Byte>)
        returns (token: Option<string>)
      requires Valid() && |envelope| > NONCE_BYTES && envelope !in sealed
      modifies this
      ensures Valid()
      ensures var r := ReferenceFor(decision, c, policies, vault.reverse);
              match r
              case None => token == None && sealed == old(sealed) && grants == old(grants)
              case Some(reference) =>
                var exp := Truncate(now) + TTL_SECONDS;
                && token == Some(Token(PREFIX, envelope))
                && sealed == old(sealed)[envelope := Padded(ReferencePayload(reference, exp))]
                && grants == old(grants)[envelope := Grant(reference, exp)]
      ensures token.Some? && now >= 0.0 ==> envelope in grants && now + 899.0 < grants[envelope].expiresAt as real <= now + 900.0
    {
      hide Padded, ReferencePayload, Token, Truncate, Distinct, AllResolve, ResolvePseudonymScope, ScopeKey;
      if decision.result.status != Allowed { return None; }
      var pseudonymized := DistinctPseudonyms(decision.result.transformations);
      if pseudonymized == [] {
        var blank := Seal(Reference(None, []), now, envelope);
        return Some(blank);
      }
      var scope := ResolvePseudonymScope(policies, c);
      if scope == OrganizationScope { return None; }
      var key := ScopeKey(scope, c);
      if key.None? { return None; }
      var resolved := AreResolved(pseudonymized, Place(scope, key.value), vault);
      if !resolved { return None; }
      var sealing := Seal(Reference(Some(Place(scope, key.value)), PairsOf(pseudonymized)), now, envelope);
      token := Some(sealing);
    }

    method Seal(reference: Reference, now: real, envelope: seq<Byte>) returns (token: string)
      requires Valid() && |envelope| > NONCE_BYTES && envelope !in sealed
      modifies this
      ensures Valid()
      ensures token == Token(PREFIX, envelope)
      ensures sealed == old(sealed)[envelope := Padded(ReferencePayload(reference, Truncate(now) + TTL_SECONDS))]
      ensures grants == old(grants)[envelope := Grant(reference, Truncate(now) + TTL_SECONDS)]
    {
      hide Padded, ReferencePayload, Token, Truncate;
      var expiresAt := Truncate(now) + TTL_SECONDS;
      var plaintext := PadToBucket(ReferencePayload(reference, expiresAt));
      sealed := sealed[envelope := plaintext];
      grants := grants[envelope := Grant(reference, expiresAt)];
      token := Token(PREFIX, envelope);
    }

    /** Opening shows an issued reference, looked up in the vault as it is now, or fails with the one
        rejection. */
    method Explore(token: string, vault: InMemoryVault, now: real) returns (r: Result<ExplorerView, ExplorerError>)
      requires Valid()
      ensures r == ExploreReference(sealed, token, vault.reverse, now)
      ensures forall raw :: raw in grants && Carries("vx1", token, raw) ==>
                r == if now > grants[raw].expiresAt as real then Err(Invalid) else Ok(Shown(grants[raw].reference, vault.reverse))
      ensures (forall raw :: raw in grants ==> !Carries("vx1", token, raw)) ==> r == Err(Invalid)
    {
      hide Unseal, Lookup, IsValidSchema, Carries, Shown, Padded, ReferencePayload, ScopeOf, IsEntry;
      OpenedShows(sealed, grants, vault.reverse, token, now);
      var payload := OpenPayload(sealed, token, now);
      if payload.Err? { return Err(payload.error); }
      var m := payload.value;
      OpenedIsValid(sealed, token, now);
      var scope, key, items := Get(m, "scope"), Get(m, "scope_key"), Get(m, "entries").items;
      var entries: seq<ExplorerEntry> := [];
      if !scope.JNull? && !key.JNull? {
        var known := ScopeOf(scope.s);
        if known.None? { return Err(UnknownScope); }
        entries := LookUpAll(items, Place(known.value, key.s), vault);
      }
      r := Ok(ExplorerView(if scope.JNull? then None else Some(scope.s), entries));
    }
  }

  /** Presented under the prefix, an issued envelope shows its reference, and nothing else opens. */
  lemma OpenedShows(sealed: Table, grants: map<seq<Byte>, Grant>, reverse: Reverse, token: string, now: real)
    requires Recorded(sealed, grants)
    ensures forall raw :: raw in grants && Carries("vx1", token, raw) ==>
              ExploreReference(sealed, token, reverse, now)
              == if now > grants[raw].expiresAt as real then Err(Invalid) else Ok(Shown(grants[raw].reference, reverse))
    ensures (forall raw :: raw in grants ==> !Carries("vx1", token, raw)) ==>
              ExploreReference(sealed, token, reverse, now) == Err(Invalid)
  {
    hide Unseal, Carries, Shown, Padded, ReferencePayload, IsValidSchema, View;
    forall raw | raw in grants && Carries("vx1", token, raw)
      ensures ExploreReference(sealed, token, reverse, now)
           == if now > grants[raw].expiresAt as real then Err(Invalid) else Ok(Shown(grants[raw].reference, reverse))
    {
      UnsealedReference(sealed, token, raw, grants[raw].reference, grants[raw].expiresAt, reverse, now);
    }
    var v := Unseal(sealed, PREFIX, token);
    if v.Some? {
      UnsealOnlySealed(sealed, PREFIX, token, v.value);
      var raw :| Carries("vx1", token, raw) && Holds(sealed, raw, v.value);
    }
  }

  lemma OpenedIsValid(table: Table, token: string, now: real)
    requires OpenPayload(table, token, now).Ok?
    ensures var m := OpenPayload(table, token, now).value;
            && IsStringOrNull(Get(m, "scope")) && IsStringOrNull(Get(m, "scope_key"))
            && (Get(m, "scope").JNull? <==> Get(m, "scope_key").JNull?)
            && Get(m, "entries").JArray?
            && forall i :: 0 <= i < |Get(m, "entries").items| ==> IsEntry(Get(m, "entries").items[i])
  {
    hide Unseal, IsEntry, ToMap;
  }

  // ----- round trip -----

  /** What a reference shows against a vault. */
  function Shown(r: Reference, reverse: Reverse): ExplorerView {
    match r.place
    case None => ExplorerView(None, [])
    case Some(place) => ExplorerView(Some(ScopeCode(place.scope)), ShownEntries(r.entries, place, reverse))
  }

  function ShownEntry(p: Pair, place: Place, reverse: Reverse): ExplorerEntry {
    var original := Lookup(reverse, Partition(place.scope, place.key), p.pseudonym);
    ExplorerEntry(p.category, p.pseudonym, original, original.Some?)
  }

  function ShownEntries(ps: seq<Pair>, place: Place, reverse: Reverse): (es: seq<ExplorerEntry>)
    ensures |es| == |ps| && forall i :: 0 <= i < |ps| ==> es[i] == ShownEntry(ps[i], place, reverse)
  {
    seq(|ps|, i requires 0 <= i < |ps| => ShownEntry(ps[i], place, reverse))
  }

  lemma EntryReadsBack(p: Pair, place: Place, reverse: Reverse)
    ensures IsEntry(EntryJson(p)) && LookedUp(EntryJson(p), place, reverse) == ShownEntry(p, place, reverse)
  {
    hide Lookup;
    ToMapTwo(Field("category", JString(p.category)), Field("pseudonym", JString(p.pseudonym)));
    assert "category"[0] == 'c' && "pseudonym"[0] == 'p';
  }

  lemma EntriesReadBack(ps: seq<Pair>, place: Place, reverse: Reverse)
    ensures var items := EntriesJson(ps);
            && (forall i :: 0 <= i < |items| ==> IsEntry(items[i]))
            && AllLookedUp(items, place, reverse) == ShownEntries(ps, place, reverse)
  {
    hide IsEntry, LookedUp, ShownEntry, EntryJson;
    var items := EntriesJson(ps);
    forall i | 0 <= i < |items|
      ensures IsEntry(items[i]) && LookedUp(items[i], place, reverse) == ShownEntry(ps[i], place, reverse)
    {
      EntryReadsBack(ps[i], place, reverse);
    }
  }

  lemma ReferenceKeys(r: Reference, expiresAt: int, n: nat)
    ensures var m := WithPad(ReferencePayload(r, expiresAt), n);
            && m.Keys == {"v", "exp", "scope", "scope_key", "entries", "pad"}
            && Get(m, "v") == JInt(1) && Get(m, "exp") == JInt(expiresAt)
            && Get(m, "scope") == (match r.place case Some(p) => JString(ScopeCode(p.scope)) case None => JNull)
            && Get(m, "scope_key") == (match r.place case Some(p) => JString(p.key) case None => JNull)
            && Get(m, "entries") == JArray(EntriesJson(r.entries))
  {
    hide Zeros, EntriesJson, ScopeCode;
    assert |"v"| == 1 && |"exp"| == 3 && |"scope"| == 5 && |"scope_key"| == 9 && |"entries"| == 7
        && "pad"[0] == 'p' && "exp"[0] == 'e';
  }

  lemma ScopeReadsBack(s: Scope)
    ensures ScopeOf(ScopeCode(s)) == Some(s)
    ensures forall code :: ScopeOf(code) == Some(s) ==> code == ScopeCode(s)
  {
    assert "request"[0] == 'r' && "document"[0] == 'd' && "session"[0] == 's' && "organization"[0] == 'o';
  }

  lemma FieldsShow(fields: seq<Field>, r: Reference, expiresAt: int, reverse: Reverse, now: real)
    requires var m := ToMap(fields);
      && Get(m, "v") == JInt(VERSION) && Get(m, "exp") == JInt(expiresAt)
      && Get(m, "scope") == (match r.place case Some(p) => JString(ScopeCode(p.scope)) case None => JNull)
      && Get(m, "scope_key") == (match r.place case Some(p) => JString(p.key) case None => JNull)
      && Get(m, "entries") == JArray(EntriesJson(r.entries))
    ensures IsValidSchema(JObject(fields)) && View(ToMap(fields), reverse) == Ok(Shown(r, reverse))
  {
    hide ToMap, EntriesJson, ScopeCode, ScopeOf, IsEntry, AllLookedUp, ShownEntries;
    var place := match r.place case Some(p) => p case None => Place(RequestScope, "");
    EntriesReadBack(r.entries, place, reverse);
    ScopeReadsBack(place.scope);
  }

  lemma UnsealedReference(table: Table, token: string, raw: seq<Byte>, r: Reference, expiresAt: int, reverse: Reverse,
                          now: real)
    requires Carries(PREFIX, token, raw) && |raw| > NONCE_BYTES
    requires raw in table && table[raw] == Padded(ReferencePayload(r, expiresAt))
    ensures ExploreReference(table, token, reverse, now)
         == if now > expiresAt as real then Err(Invalid) else Ok(Shown(r, reverse))
  {
    hide ReferencePayload, Unseal, Carries, Loads, Utf8.Encode, CanonicalJson, PadLength, WithPad, SortedFields,
      ExploreReference, Shown;
    var p := ReferencePayload(r, expiresAt);
    var full := WithPad(p, PadLength(p));
    CanonicalRoundTrip(full);
    assert table[raw] == Utf8.Encode(CanonicalJson(full));
    assert Holds(table, raw, JObject(SortedFields(full)));
    UnsealOnlySealed(table, PREFIX, token, JObject(SortedFields(full)));
    OwnPayloadShows(table, token, r, expiresAt, reverse, now);
  }

  lemma OwnPayloadShows(table: Table, token: string, r: Reference, expiresAt: int, reverse: Reverse, now: real)
    requires var p := ReferencePayload(r, expiresAt);
             Unseal(table, PREFIX, token) == Some(JObject(SortedFields(WithPad(p, PadLength(p)))))
    ensures ExploreReference(table, token, reverse, now)
         == if now > expiresAt as real then Err(Invalid) else Ok(Shown(r, reverse))
  {
    hide Unseal, SortedFields, ReferencePayload, PadLength, WithPad, IsValidSchema, View, Shown, Get;
    var p := ReferencePayload(r, expiresAt);
    var n := PadLength(p);
    CanonicalRoundTrip(WithPad(p, n));
    ReferenceKeys(r, expiresAt, n);
    FieldsShow(SortedFields(WithPad(p, n)), r, expiresAt, reverse, now);
  }

  /** The entry of a pair, found in the vault with the original the decision recorded. */
  predicate ShowsOriginal(e: ExplorerEntry, t: Transformation) {
    e.category == t.category && Some(e.pseudonym) == t.transformed && e.original == Some(t.original) && e.present
  }

  /** What a decision's reference shows, up to and including its expiry and against any vault that
      kept what was there at issue: exactly the distinct pairs in first-occurrence order, all present
      with the originals the decision recorded; and no scope exactly when nothing was pseudonymized.
      Afterwards, the one rejection. */
  lemma ExplorerRoundTrip(decision: DisclosureDecision, c: GovernanceContext, policies: PolicyRepository, atIssue: Reverse,
                          table: Table, envelope: seq<Byte>, expiresAt: int, later: Reverse, now: real)
    requires ReferenceFor(decision, c, policies, atIssue).Some? && Keeps(atIssue, later) && |envelope| > NONCE_BYTES
    ensures var reference := ReferenceFor(decision, c, policies, atIssue).value;
            var sealed := table[envelope := Padded(ReferencePayload(reference, expiresAt))];
            var r, ts := ExploreReference(sealed, Token(PREFIX, envelope), later, now), decision.result.transformations;
            var ps := Distinct(ts);
            if now > expiresAt as real then r == Err(Invalid)
            else
              && r.Ok? && |r.value.entries| == |ps|
              && (r.value.scope.None? <==> forall i :: 0 <= i < |ts| ==> !IsReversibleAt(ts, i))
              && (r.value.scope.Some? ==> r.value.scope.value == match ResolvePseudonymScope(policies, c)
                                                                 case RequestScope => "request"
                                                                 case DocumentScope => "document"
                                                                 case SessionScope => "session"
                                                                 case OrganizationScope => "organization")
              && forall k :: 0 <= k < |ps| ==> ShowsOriginal(r.value.entries[k], ps[k])
  {
    hide ExploreReference, Unseal, Token, Padded, ReferencePayload, Distinct, ReferenceFor, Shown, Lookup, SortedFields,
      WithPad, PadLength;
    var ref := ReferenceFor(decision, c, policies, atIssue).value;
    var sealed := table[envelope := Padded(ReferencePayload(ref, expiresAt))];
    UnsealSealed(sealed, PREFIX, envelope, ReferencePayload(ref, expiresAt));
    OwnPayloadShows(sealed, Token(PREFIX, envelope), ref, expiresAt, later, now);
    ShowsOriginals(decision, c, policies, atIssue, later);
  }

  lemma ShowsOriginals(decision: DisclosureDecision, c: GovernanceContext, policies: PolicyRepository, atIssue: Reverse,
                       later: Reverse)
    requires ReferenceFor(decision, c, policies, atIssue).Some? && Keeps(atIssue, later)
    ensures var v := Shown(ReferenceFor(decision, c, policies, atIssue).value, later);
            var ts, ps := decision.result.transformations, Distinct(decision.result.transformations);
            && |v.entries| == |ps|
            && (v.scope.None? <==> forall i :: 0 <= i < |ts| ==> !IsReversibleAt(ts, i))
            && (v.scope.Some? ==> v.scope.value == match ResolvePseudonymScope(policies, c)
                                                   case RequestScope => "request"
                                                   case DocumentScope => "document"
                                                   case SessionScope => "session"
                                                   case OrganizationScope => "organization")
            && forall k :: 0 <= k < |ps| ==> ShowsOriginal(v.entries[k], ps[k])
  {
    hide Distinct, ResolvePseudonymScope, ScopeKey, Lookup;
    NothingDistinct(decision.result.transformations);
    SameReversible(decision.result.transformations);
    var ref := ReferenceFor(decision, c, policies, atIssue).value;
    if ref.place.Some? {
      var place, ps := ref.place.value, Distinct(decision.result.transformations);
      forall k | 0 <= k < |ps|
        ensures ShownEntry(PairOf(ps[k]), place, later)
             == ExplorerEntry(ps[k].category, PairOf(ps[k]).pseudonym, Some(ps[k].original), true)
      {
        GivenIsFound(place, ps[k], atIssue);
        assert Lookup(atIssue, Partition(place.scope, place.key), ps[k].transformed.value) == Some(ps[k].original);
      }
    }
  }

  lemma {:induction false} NothingDistinct(ts: seq<Transformation>)
    ensures Distinct(ts) == [] <==> forall i :: 0 <= i < |ts| ==> !IsReversible(ts[i])
  {
    if |ts| > 0 {
      var n := |ts| - 1;
      NothingDistinct(ts[..n]);
      FirstsStep(ts[..n], ts[n]);
      assert ts == ts[..n] + [ts[n]];
    }
  }

  /** The distinct pairs are distinct, and every reversible transformation's pair is among them, at
      its first occurrence. */
  lemma DistinctPairs(ts: seq<Transformation>, i: nat)
    requires i < |ts| && IsReversible(ts[i])
    ensures var ps := Distinct(ts);
            && (forall k, l :: 0 <= k < l < |ps| ==> PairOf(ps[k]) != PairOf(ps[l]))
            && exists k :: 0 <= k < |ps| && PairOf(ps[k]) == PairOf(ts[i]) && Firsts(ts)[k] <= i
  {
    var ps, at := Distinct(ts), Firsts(ts);
    forall k, l | 0 <= k < l < |ps| ensures PairOf(ps[k]) != PairOf(ps[l]) {
      assert IsFirst(ts, at[l]) && at[k] < at[l];
    }
    var j := FirstOf(ts, i);
    var k :| 0 <= k < |at| && at[k] == j;
    assert PairOf(ps[k]) == PairOf(ts[i]);
  }

  lemma {:induction false} FirstOf(ts: seq<Transformation>, i: nat) returns (j: nat)
    requires i < |ts| && IsReversible(ts[i])
    ensures j <= i && IsFirst(ts, j) && PairOf(ts[j]) == PairOf(ts[i])
  {
    if IsFirst(ts, i) {
      j := i;
    } else {
      var k :| 0 <= k < i && IsReversible(ts[k]) && PairOf(ts[k]) == PairOf(ts[i]);
      j := FirstOf(ts, k);
    }
  }
}
