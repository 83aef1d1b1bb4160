/** The in-memory pseudonym vault: per-partition forward and reverse maps and collision suffixes. */
module Vault {
  import opened Wrappers
  import opened Pseudonyms
  import Json

  datatype Scope = RequestScope | DocumentScope | SessionScope | OrganizationScope

  function ScopeCode(s: Scope): string {
    match s
    case RequestScope => "request"
    case DocumentScope => "document"
    case SessionScope => "session"
    case OrganizationScope => "organization"
  }

  datatype Partition = Partition(scope: Scope, key: string)

  datatype Entry = Entry(category: string, value: string)

  type Reverse = map<Partition, map<string, string>>

  /** `PSEUDO-{category}-{token}`, with `-{suffix}` from the second try on. */
  function MakePseudonym(category: string, suffix: nat, token: string): string {
    MARK + category + "-" + token + (if suffix == 0 then "" else "-" + Json.NatText(suffix))
  }

  /** The original a pseudonym stands for in one partition, if it was issued there. */
  function Lookup(reverse: Reverse, p: Partition, pseudonym: string): Option<string> {
    if p in reverse && pseudonym in reverse[p] then Some(reverse[p][pseudonym]) else None
  }

  /** The later vault never forgets or rebinds what the earlier one held. */
  ghost predicate Keeps(earlier: Reverse, later: Reverse) {
    forall p, t {:trigger Lookup(earlier, p, t)} ::
      Lookup(earlier, p, t).Some? ==> Lookup(later, p, t) == Lookup(earlier, p, t)
  }

  class InMemoryVault {
    const tokenFactory: nat -> string
    var draws: nat
    var forward: map<Partition, map<Entry, string>>
    var reverse: Reverse

    constructor (tokenFactory: nat -> string)
      ensures Valid() && forward == map[] && reverse == map[] && this.tokenFactory == tokenFactory
    {
      this.tokenFactory := tokenFactory;
      draws, forward, reverse := 0, map[], map[];
    }

    /** In each partition the pseudonyms are one-to-one with the entries, and each leads back to the
        value it was issued for. */
    ghost predicate Valid()
      reads this
    {
      ConsistentVault(forward, reverse)
    }

    /** `_make_pseudonym`: the candidate of one try, from the factory's next token. */
    method Make(category: string, suffix: nat) returns (candidate: string)
      modifies this`draws
      ensures candidate == MakePseudonym(category, suffix, tokenFactory(old(draws))) && draws == old(draws) + 1
    {
      candidate := MakePseudonym(category, suffix, tokenFactory(draws));
      draws := draws + 1;
    }

    /** The loop over colliding candidates. Suffixed ones differ whatever the factory returns, so `r` can
        hold only finitely many of them. */
    method FreeCandidate(category: string, r: map<string, string>) returns (candidate: string)
      modifies this`draws
      ensures FirstFree(category, tokenFactory, old(draws), draws, r, candidate)
    {
      hide AllTaken, MakePseudonym, IsSuffixed;
      var suffix: nat := 0;
      candidate := Make(category, suffix);
      ghost var tried: set<string> := {};
      NoneTaken(category, tokenFactory, old(draws), r);
      while candidate in r
        invariant candidate == Candidate(category, tokenFactory, old(draws), suffix) && draws == old(draws) + suffix + 1
        invariant AllTaken(category, tokenFactory, old(draws), suffix, r)
        invariant tried <= r.Keys && |tried| + 1 == if suffix == 0 then 1 else suffix
        invariant forall c :: c in tried ==> IsSuffixed(category, suffix, c)
        decreases |r| + 1 - suffix
      {
        tried := AddTried(category, suffix, tokenFactory(old(draws) + suffix), tried, r.Keys);
        OneMoreTaken(category, tokenFactory, old(draws), suffix, r);
        suffix := suffix + 1;
        candidate := Make(category, suffix);
      }
    }

    method Pseudonymize(p: Partition, category: string, value: string) returns (pseudonym: string)
      requires Valid()
      modifies this
      ensures Valid()
      ensures p in forward && Entry(category, value) in forward[p] && pseudonym == forward[p][Entry(category, value)]
      ensures Lookup(reverse, p, pseudonym) == Some(value)
      ensures Keeps(old(reverse), reverse)
      ensures if p in old(forward) && Entry(category, value) in old(forward)[p]
              then forward == old(forward) && reverse == old(reverse) && draws == old(draws)
              else && Lookup(old(reverse), p, pseudonym) == None
                   && IsMade(category, tokenFactory, pseudonym)
                   && FirstFree(category, tokenFactory, old(draws), draws, Inner(old(reverse), p), pseudonym)
                   && forward == Bind(old(forward), p, Entry(category, value), pseudonym)
                   && reverse == Bind(old(reverse), p, pseudonym, value)
    {
      var f := Inner(forward, p);
      var r := Inner(reverse, p);
      var entry := Entry(category, value);
      if entry in f { return f[entry]; }

      var candidate := FreeCandidate(category, r);
      FreeIsMade(category, tokenFactory, old(draws), draws, r, candidate);
      ghost var forward0, reverse0 := forward, reverse;
      forward, reverse := forward[p := f[entry := candidate]], reverse[p := r[candidate := value]];
      pseudonym := candidate;
      BindConsistent(forward0, reverse0, p, entry, candidate);
    }

    function Reconstruct(p: Partition, pseudonym: string): Option<string>
      reads this
    {
      Lookup(reverse, p, pseudonym)
    }
  }

  ghost predicate Consistent(f: map<Entry, string>, r: map<string, string>) {
    && (forall e :: e in f ==> f[e] in r && r[f[e]] == e.value)
    && (forall d, e :: d in f && e in f && f[d] == f[e] ==> d == e)
  }

  lemma SubsetSize(a: set<string>, b: set<string>)
    requires a <= b
    ensures |a| <= |b|
  {
    assert b == a + (b - a);
  }

  function Inner<K, V>(m: map<Partition, map<K, V>>, p: Partition): map<K, V> {
    if p in m then m[p] else map[]
  }

  function Bind<K, V>(m: map<Partition, map<K, V>>, p: Partition, key: K, value: V): map<Partition, map<K, V>> {
    m[p := Inner(m, p)[key := value]]
  }

  ghost predicate ConsistentVault(forward: map<Partition, map<Entry, string>>, reverse: Reverse) {
    forward.Keys == reverse.Keys && forall p :: p in forward ==> Consistent(forward[p], reverse[p])
  }

  /** Binding a pseudonym nobody holds keeps the vault consistent and forgets nothing. */
  lemma BindConsistent(forward: map<Partition, map<Entry, string>>, reverse: Reverse, p: Partition, e: Entry, t: string)
    requires ConsistentVault(forward, reverse) && e !in Inner(forward, p) && t !in Inner(reverse, p)
    ensures ConsistentVault(Bind(forward, p, e, t), Bind(reverse, p, t, e.value))
    ensures Keeps(reverse, Bind(reverse, p, t, e.value))
    ensures Lookup(Bind(reverse, p, t, e.value), p, t) == Some(e.value)
  {
    var f, r := Inner(forward, p), Inner(reverse, p);
    assert Consistent(f, r);
    assert Consistent(f[e := t], r[t := e.value]);
  }

  /** The candidate of try `i`, from the draw `first` on: each try draws a token and counts in its
      suffix, none on the first. */
  function Candidate(category: string, tokenFactory: nat -> string, first: nat, i: nat): string {
    MakePseudonym(category, i, tokenFactory(first + i))
  }

  predicate AllTaken(category: string, tokenFactory: nat -> string, first: nat, n: nat, r: map<string, string>) {
    forall i :: 0 <= i < n ==> Candidate(category, tokenFactory, first, i) in r
  }

  /** `c` is the first candidate that is free. */
  predicate FirstFree(category: string, tokenFactory: nat -> string, first: nat, last: nat, r: map<string, string>, c: string) {
    && first < last && AllTaken(category, tokenFactory, first, last - first - 1, r)
    && c == Candidate(category, tokenFactory, first, last - first - 1) && c !in r
  }

  lemma NoneTaken(category: string, tokenFactory: nat -> string, first: nat, r: map<string, string>)
    ensures AllTaken(category, tokenFactory, first, 0, r)
  {
  }

  lemma FreeIsMade(category: string, tokenFactory: nat -> string, first: nat, last: nat, r: map<string, string>, c: string)
    requires FirstFree(category, tokenFactory, first, last, r, c)
    ensures IsMade(category, tokenFactory, c)
  {
  }

  lemma OneMoreTaken(category: string, tokenFactory: nat -> string, first: nat, n: nat, r: map<string, string>)
    requires AllTaken(category, tokenFactory, first, n, r) && Candidate(category, tokenFactory, first, n) in r
    ensures AllTaken(category, tokenFactory, first, n + 1, r)
  {
  }

  /** `c` is a pseudonym made from some token of the factory. */
  ghost predicate IsMade(category: string, tokenFactory: nat -> string, c: string) {
    exists k: nat, n: nat :: c == MakePseudonym(category, n, tokenFactory(k))
  }

  ghost method AddTried(category: string, suffix: nat, token: string, tried: set<string>, held: set<string>)
      returns (more: set<string>)
    requires tried <= held && MakePseudonym(category, suffix, token) in held
    requires |tried| + 1 == if suffix == 0 then 1 else suffix
    requires forall c :: c in tried ==> IsSuffixed(category, suffix, c)
    ensures more <= held && |more| == suffix <= |held|
    ensures forall c :: c in more ==> IsSuffixed(category, suffix + 1, c)
  {
    more := tried;
    if suffix > 0 {
      var candidate := MakePseudonym(category, suffix, token);
      forall c | c in tried ensures c != candidate {
        var n: nat, t: string :| 0 < n < suffix && c == MakePseudonym(category, n, t);
        SuffixesDiffer(category, n, t, suffix, token);
      }
      more := tried + {candidate};
      assert IsSuffixed(category, suffix + 1, candidate);
    }
    SubsetSize(more, held);
  }

  ghost predicate IsSuffixed(category: string, below: nat, c: string) {
    exists n: nat, t: string :: 0 < n < below && c == MakePseudonym(category, n, t)
  }

  lemma LastSegment(x: string, d: string, y: string, e: string)
    requires x + "-" + d == y + "-" + e
    requires (forall i :: 0 <= i < |d| ==> Json.IsDecimal(d[i])) && (forall i :: 0 <= i < |e| ==> Json.IsDecimal(e[i]))
    ensures d == e
  {
    var s, t := x + "-" + d, y + "-" + e;
    assert s[|x|] == '-' && t[|y|] == '-';
    assert forall i :: |x| < i < |s| ==> s[i] == d[i - |x| - 1];
    assert forall i :: |y| < i < |s| ==> t[i] == e[i - |y| - 1];
    assert |x| == |y|;
    assert s[|x| + 1..] == d && t[|y| + 1..] == e;
  }

  /** Two suffixed candidates with different counters are different strings. */
  lemma SuffixesDiffer(category: string, n: nat, t: string, k: nat, u: string)
    requires 0 < n && 0 < k && n != k
    ensures MakePseudonym(category, n, t) != MakePseudonym(category, k, u)
  {
    var x, y := MARK + category + "-" + t, MARK + category + "-" + u;
    var d, e := Json.NatText(n), Json.NatText(k);
    assert MakePseudonym(category, n, t) == x + "-" + d && MakePseudonym(category, k, u) == y + "-" + e;
    Json.DecimalValueOfText(n);
    Json.DecimalValueOfText(k);
    if x + "-" + d == y + "-" + e { LastSegment(x, d, y, e); }
  }

  /** The text of a pseudonym: mark, category, token and, from the second try on, the number of tries
      before, in decimal. */
  lemma MadePseudonymText(category: string, suffix: nat, token: string)
    ensures var s, head := MakePseudonym(category, suffix, token), "PSEUDO-" + category + "-" + token;
            if suffix == 0 then s == head
            else exists d: string :: s == head + "-" + d && IsNumeral(d, suffix)
  {
    if suffix > 0 {
      Json.DecimalValueOfText(suffix);
      assert IsNumeral(Json.NatText(suffix), suffix);
    }
  }

  predicate IsNumeral(d: string, n: nat) {
    |d| > 0 && (forall i :: 0 <= i < |d| ==> '0' <= d[i] <= '9') && d[0] != '0' && Json.DecimalValue(d) == n
  }

  /** What the token pattern takes for a category. */
  predicate IsIdentifier(category: string) {
    category != "" && forall i :: 0 <= i < |category| ==> IsWord(category[i])
  }

  /** With its hyphen, the end of the category reads as another mark. */
  predicate EndsInMark(category: string) {
    |category| >= 6 && category[|category| - 6..] + "-" == MARK
  }

  /** Identifiers that do not end in a second mark, as the lower-case ones in use. */
  predicate IsCategory(category: string) { IsIdentifier(category) && !EndsInMark(category) }

  /** `secrets.token_hex(16)`. */
  predicate IsToken(token: string) {
    |token| == 32 && forall i :: 0 <= i < |token| ==> IsHex(token[i])
  }

  lemma {:induction false} WordRunExact(w: string, rest: string)
    requires (forall i :: 0 <= i < |w| ==> IsWord(w[i])) && (|rest| > 0 ==> !IsWord(rest[0]))
    ensures WordRun(w + rest) == |w|
  {
    if |w| == 0 {
      assert w + rest == rest;
    } else {
      assert (w + rest)[1..] == w[1..] + rest && (w + rest)[0] == w[0];
      WordRunExact(w[1..], rest);
    }
  }

  lemma {:induction false} DigitRunAll(d: string)
    requires forall i :: 0 <= i < |d| ==> Json.IsDecimal(d[i])
    ensures DigitRun(d) == |d|
  {
    if |d| > 0 { DigitRunAll(d[1..]); }
  }

  /** What the vault emits is one whole match of the public pattern, and it holds no second mark if and
      only if its category does not end in one. */
  lemma MadePseudonymIsOne(category: string, suffix: nat, token: string)
    requires IsIdentifier(category) && IsToken(token)
    ensures var s := MakePseudonym(category, suffix, token);
            MatchLength(s) == |s| && (IsPseudonym(s) <==> !EndsInMark(category))
  {
    hide StemLength, IsIdentifier, IsToken, EndsInMark, Json.NatText;
    var tail := if suffix == 0 then "" else "-" + Json.NatText(suffix);
    var s := MakePseudonym(category, suffix, token);
    assert s == MARK + category + "-" + token + tail;
    StemOfMade(category, token, tail);
    SuffixOfTail(suffix, tail);
    forall i | 0 < i < |s| && MARK <= s[i..] ensures EndsInMark(category) { SecondMark(category, token, tail, i); }
    if EndsInMark(category) { HasSecondMark(category, token, tail); }
  }

  /** Where it ends: a made pseudonym is matched on its own exactly when it is not followed by a hyphen
      and a digit or, with a collision suffix, by a digit. */
  lemma MadePseudonymEnds(category: string, suffix: nat, token: string, following: string)
    requires IsIdentifier(category) && IsToken(token)
    ensures var u := MakePseudonym(category, suffix, token);
            MatchLength(u + following) == |u|
            <==> if suffix == 0 then |following| < 2 || following[0] != '-' || !IsDigit(following[1])
                 else |following| == 0 || !IsDigit(following[0])
  {
    hide StemLength, SuffixLength, IsIdentifier, IsToken, EndsInMark, Json.NatText, Suffixed;
    var tail := if suffix == 0 then "" else "-" + Json.NatText(suffix);
    var u := MakePseudonym(category, suffix, token);
    assert u == MARK + category + "-" + token + tail;
    MadePseudonymIsOne(category, suffix, token);
    StemOfMade(category, token, tail);
    SuffixedIs(u);
    EndsExactly(u, following);
  }

  /** Nothing, or a hyphen and digits. */
  predicate IsTail(tail: string) {
    forall k :: 0 <= k < |tail| ==> if k == 0 then tail[k] == '-' else Json.IsDecimal(tail[k])
  }

  lemma SuffixOfTail(suffix: nat, tail: string)
    requires tail == if suffix == 0 then "" else "-" + Json.NatText(suffix)
    ensures SuffixLength(tail) == |tail| && IsTail(tail)
  {
    if suffix > 0 {
      DigitRunAll(Json.NatText(suffix));
      assert tail[1..] == Json.NatText(suffix);
    }
  }

  /** Which characters of a pseudonym are hyphens, and which may be a `P`. */
  lemma MadeChars(category: string, token: string, tail: string)
    requires IsIdentifier(category) && IsToken(token) && IsTail(tail)
    ensures var s, w := MARK + category + "-" + token + tail, |category|;
            && |s| == 40 + w + |tail|
            && (forall k :: 0 < k < 7 ==> s[k] != 'P')
            && (forall k :: 7 <= k < 7 + w ==> s[k] != '-')
            && (forall k :: 7 + w < k < 40 + w ==> s[k] != '-' && s[k] != 'P')
            && (forall k :: 40 + w <= k < |s| ==> s[k] != 'P')
            && s[7 + w] != 'P'
  {
    var s, w := MARK + category + "-" + token + tail, |category|;
    assert forall k :: 0 < k < 7 ==> s[k] == MARK[k];
    assert forall k :: 7 <= k < 7 + w ==> s[k] == category[k - 7];
    assert forall k :: 7 + w < k < 40 + w ==> s[k] == token[k - 8 - w];
    assert forall k :: 40 + w <= k < |s| ==> s[k] == tail[k - 40 - w];
  }

  /** Hyphens close the first mark, the category and the token, so a second mark can only close with
      the category. */
  lemma SecondMark(category: string, token: string, tail: string, i: nat)
    requires IsIdentifier(category) && IsToken(token) && IsTail(tail)
    requires 0 < i && i <= |MARK + category + "-" + token + tail| && MARK <= (MARK + category + "-" + token + tail)[i..]
    ensures EndsInMark(category)
  {
    var s, w := MARK + category + "-" + token + tail, |category|;
    MadeChars(category, token, tail);
    assert s[i] == s[i..][0] == 'P' && s[i + 6] == s[i..][6] == '-';
    hide IsIdentifier, IsToken, IsTail;
    assert i == w + 1 && w >= 6;
    assert s[i..][..7] == MARK;
    CategoryEnd(category, token, tail);
  }

  lemma CategoryEnd(category: string, token: string, tail: string)
    requires |category| >= 6
    ensures var s, w := MARK + category + "-" + token + tail, |category|;
            s[w + 1..][..7] == category[w - 6..] + "-"
  {
    var s, w := MARK + category + "-" + token + tail, |category|;
    assert s == MARK + category[..w - 6] + (category[w - 6..] + "-") + (token + tail);
  }

  lemma HasSecondMark(category: string, token: string, tail: string)
    requires EndsInMark(category)
    ensures var s := MARK + category + "-" + token + tail; exists i :: 0 < i < |s| && MARK <= s[i..]
  {
    var s, w := MARK + category + "-" + token + tail, |category|;
    CategoryEnd(category, token, tail);
    assert MARK <= s[w + 1..];
  }

  lemma StemOfMade(category: string, token: string, tail: string)
    requires IsIdentifier(category) && IsToken(token)
    ensures StemLength(MARK + category + "-" + token + tail) == |category| + 40
    ensures (MARK + category + "-" + token + tail)[|category| + 40..] == tail
  {
    var s, w := MARK + category + "-" + token + tail, |category|;
    assert s[..7] == MARK && s[7..] == category + ("-" + token + tail);
    WordRunExact(category, "-" + token + tail);
    assert s[7 + w] == '-';
    assert forall i :: 7 + w < i < 40 + w ==> s[i] == token[i - 8 - w];
  }
}
