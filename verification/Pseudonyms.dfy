/** Replacing the pseudonyms of a text: the token pattern, literal replacement in a given order, and
    `restore_pseudonyms`, with the conditions under which it undoes pseudonymization. */
module Pseudonyms {
  const MARK := "PSEUDO-"

  // ----- the token pattern: PSEUDO-[A-Za-z0-9_]+-[0-9a-f]{32}(?:-\d+)? -----

  predicate IsWord(c: char) {
    'A' <= c <= 'Z' || 'a' <= c <= 'z' || '0' <= c <= '9' || c == '_'
  }

  predicate IsHex(c: char) { '0' <= c <= '9' || 'a' <= c <= 'f' }

  /** The first digits of the Unicode decimal-digit blocks past ASCII; `\d` matches them too. */
  const DIGIT_BLOCKS: seq<int> := [
    0x660, 0x6f0, 0x7c0, 0x966, 0x9e6, 0xa66, 0xae6, 0xb66, 0xbe6, 0xc66, 0xce6, 0xd66, 0xde6,
    0xe50, 0xed0, 0xf20, 0x1040, 0x1090, 0x17e0, 0x1810, 0x1946, 0x19d0, 0x1a80, 0x1a90, 0x1b50,
    0x1bb0, 0x1c40, 0x1c50, 0xa620, 0xa8d0, 0xa900, 0xa9d0, 0xa9f0, 0xaa50, 0xabf0, 0xff10, 0x104a0,
    0x10d30, 0x11066, 0x110f0, 0x11136, 0x111d0, 0x112f0, 0x11450, 0x114d0, 0x11650, 0x116c0,
    0x11730, 0x118e0, 0x11950, 0x11c50, 0x11d50, 0x11da0, 0x11f50, 0x16a60, 0x16ac0, 0x16b50,
    0x1d7ce, 0x1d7d8, 0x1d7e2, 0x1d7ec, 0x1d7f6, 0x1e140, 0x1e2f0, 0x1e4f0, 0x1e950, 0x1fbf0]

  predicate IsDigit(c: char) {
    '0' <= c <= '9' || (c as int >= 0x660 && exists k ::
      0 <= k < |DIGIT_BLOCKS| && DIGIT_BLOCKS[k] <= c as int < DIGIT_BLOCKS[k] + 10)
  }

  function WordRun(s: string): (n: nat)
    ensures n <= |s| && (forall i :: 0 <= i < n ==> IsWord(s[i])) && (n < |s| ==> !IsWord(s[n]))
  {
    if |s| > 0 && IsWord(s[0]) then 1 + WordRun(s[1..]) else 0
  }

  function DigitRun(s: string): (n: nat)
    ensures n <= |s| && (forall i :: 0 <= i < n ==> IsDigit(s[i])) && (n < |s| ==> !IsDigit(s[n]))
  {
    if |s| > 0 && IsDigit(s[0]) then 1 + DigitRun(s[1..]) else 0
  }

  /** How much of `s` the optional collision suffix takes. */
  function SuffixLength(s: string): (n: nat)
    ensures n <= |s|
  {
    if |s| >= 2 && s[0] == '-' && IsDigit(s[1]) then 1 + DigitRun(s[1..]) else 0
  }

  /** Where the mandatory part of a token at the head of `s` ends; 0 when there is none. */
  function StemLength(s: string): (n: nat)
    ensures n <= |s| && (n > 0 ==> n > 40 && MARK <= s)
  {
    if !(MARK <= s) then 0
    else
      var w := WordRun(s[7..]);
      if w > 0 && 7 + w < |s| && s[7 + w] == '-' && 7 + w + 33 <= |s|
         && (forall i :: 7 + w < i < 7 + w + 33 ==> IsHex(s[i]))
      then 7 + w + 33 else 0
  }

  /** The length of the match at the head of `s`, 0 for none. The category run cannot contain a
      hyphen, so the greedy match needs no backtracking. */
  function MatchLength(s: string): (n: nat)
    ensures n <= |s| && (n > 0 ==> n > 40 && MARK <= s)
  {
    var stem := StemLength(s);
    if stem == 0 then 0 else stem + SuffixLength(s[stem..])
  }

  /** `findall`: leftmost, non-overlapping. */
  function FindAll(s: string): seq<string> {
    if |s| == 0 then []
    else
      var n := MatchLength(s);
      if n > 0 then [s[..n]] + FindAll(s[n..]) else FindAll(s[1..])
  }

  /** The tokens found exactly: the leftmost match first, and then those behind it. */
  lemma {:induction false} FindsLeftmost(s: string, i: nat)
    requires i <= |s| && forall j :: 0 <= j < i ==> MatchLength(s[j..]) == 0
    ensures i == |s| ==> FindAll(s) == []
    ensures var n := MatchLength(s[i..]); n > 0 ==> FindAll(s) == [s[i..i + n]] + FindAll(s[i + n..])
  {
    hide MatchLength;
    if i == 0 {
      assert s[0..] == s;
    } else {
      assert s[0..] == s && s[1..][i - 1..] == s[i..];
      forall j | 0 <= j < i - 1 ensures MatchLength(s[1..][j..]) == 0 { assert s[1..][j..] == s[j + 1..]; }
      FindsLeftmost(s[1..], i - 1);
      var n := MatchLength(s[i..]);
      assert s[1..][i - 1..i - 1 + n] == s[i..i + n] && s[1..][i - 1 + n..] == s[i + n..];
    }
  }

  // ----- the pattern, character by character -----

  predicate IsWordCode(n: int) { 48 <= n <= 57 || 65 <= n <= 90 || n == 95 || 97 <= n <= 122 }

  predicate IsHexCode(n: int) { 48 <= n <= 57 || 97 <= n <= 102 }

  /** `t` is a match of the pattern with a category of `w` characters. */
  predicate FitsPattern(t: string, w: nat) {
    && 0 < w && w + 40 <= |t| && t[..7] == "PSEUDO-"
    && (forall k :: 7 <= k < 7 + w ==> IsWordCode(t[k] as int))
    && t[7 + w] == '-' && (forall k :: 8 + w <= k < 40 + w ==> IsHexCode(t[k] as int))
    && (|t| > w + 40 ==> |t| > w + 41 && t[w + 40] == '-' && forall k :: w + 41 <= k < |t| ==> IsDigit(t[k]))
  }

  /** Among the ASCII characters the digits are `0` to `9`, and past them the ten of each block. */
  lemma AsciiDigits(c: char)
    ensures c as int < 128 ==> (IsDigit(c) <==> 48 <= c as int <= 57)
    ensures 128 <= c as int < 0x660 ==> !IsDigit(c)
    ensures c as int >= 0x660 ==>
              (IsDigit(c) <==> exists k :: 0 <= k < |DIGIT_BLOCKS| && 0 <= c as int - DIGIT_BLOCKS[k] <= 9)
  {
  }

  /** What is matched at the head of a text fits the pattern. */
  lemma MatchFits(s: string)
    requires MatchLength(s) > 0
    ensures exists w: nat :: FitsPattern(s[..MatchLength(s)], w)
  {
    var w, k, n := WordRun(s[7..]), StemLength(s), MatchLength(s);
    var t := s[..n];
    assert forall i :: 7 <= i < 7 + w ==> t[i] == s[7..][i - 7];
    assert forall i :: k < i < n ==> t[i] == s[k..][1..][i - k - 1];
    assert FitsPattern(t, w);
  }

  /** And it is the longest text there that does. */
  lemma MatchIsLongest(s: string, n: nat, w: nat)
    requires n <= |s| && FitsPattern(s[..n], w)
    ensures MatchLength(s) >= n
  {
    var t := s[..n];
    assert s[..7] == t[..7] && forall i :: 0 <= i < n ==> s[i] == t[i];
    WordRunIs(s[7..], w);
    assert StemLength(s) == w + 40;
    if n > w + 40 { DigitRunAtLeast(s[w + 40..][1..], n - (w + 41)); }
  }

  lemma {:induction false} WordRunIs(s: string, w: nat)
    requires w < |s| && (forall k :: 0 <= k < w ==> IsWordCode(s[k] as int)) && s[w] == '-'
    ensures WordRun(s) == w
  {
    if w > 0 { WordRunIs(s[1..], w - 1); }
  }

  lemma {:induction false} DigitRunAtLeast(s: string, n: nat)
    requires n <= |s| && forall k :: 0 <= k < n ==> IsDigit(s[k])
    ensures DigitRun(s) >= n
  {
    if n > 0 { DigitRunAtLeast(s[1..], n - 1); }
  }

  /** A token that ends in a collision suffix: it has two hyphens past its mark. */
  predicate Suffixed(t: string) { exists i, j :: 7 <= i < j < |t| && t[i] == '-' && t[j] == '-' }

  /** What follows goes on as the suffix of the token does, or starts one. */
  predicate ReadOn(t: string, following: string) {
    if Suffixed(t) then |following| > 0 && IsDigit(following[0])
    else |following| > 1 && following[0] == '-' && IsDigit(following[1])
  }

  lemma SuffixedIs(t: string)
    requires MatchLength(t) == |t| > 0
    ensures Suffixed(t) <==> StemLength(t) < |t|
  {
    var k := StemLength(t);
    var w := k - 40;
    assert WordRun(t[7..]) == w;
    assert forall i :: 7 <= i < 7 + w ==> t[i] == t[7..][i - 7] && t[i] != '-';
    assert forall i :: k < i < |t| ==> t[i] == t[k..][1..][i - k - 1] && t[i] != '-';
    if k < |t| { assert t[7 + w] == '-' && t[k] == '-'; }
  }

  /** A token is matched on its own, whatever follows, exactly when that is not read on as its suffix. */
  lemma EndsExactly(t: string, following: string)
    requires MatchLength(t) == |t| > 0
    ensures MatchLength(t + following) == |t| <==> !ReadOn(t, following)
  {
    var s, k := t + following, StemLength(t);
    SuffixedIs(t);
    StemPrefix(s, t);
    if k == |t| {
      assert s[k..] == following;
    } else {
      assert s[k..][1..] == t[k..][1..] + following;
      DigitRunAppend(t[k..][1..], following);
    }
  }

  lemma {:induction false} DigitRunAppend(d: string, rest: string)
    requires DigitRun(d) == |d|
    ensures DigitRun(d + rest) == |d| + DigitRun(rest)
  {
    if |d| == 0 {
      assert d + rest == rest;
    } else {
      assert (d + rest)[1..] == d[1..] + rest;
      DigitRunAppend(d[1..], rest);
    }
  }

  // ----- literal replacement -----

  function Interleave(s: string, r: string): string {
    if |s| == 0 then r else r + [s[0]] + Interleave(s[1..], r)
  }

  /** `str.replace`: left to right, never inside a replacement already made. */
  function ReplaceAll(s: string, t: string, r: string): string {
    if t == "" then Interleave(s, r)
    else if |s| == 0 then ""
    else if t <= s then r + ReplaceAll(s[|t|..], t, r)
    else [s[0]] + ReplaceAll(s[1..], t, r)
  }

  /** The empty text occurs before every character and at the end. */
  lemma {:induction false} EmptyOccursEverywhere(s: string, r: string, i: nat)
    requires i < |s|
    ensures ReplaceAll("", "", r) == r
    ensures ReplaceAll(s, "", r) == ReplaceAll(s[..i], "", r) + [s[i]] + ReplaceAll(s[i + 1..], "", r)
  {
    if i > 0 {
      EmptyOccursEverywhere(s[1..], r, i - 1);
      assert s[..i][1..] == s[1..][..i - 1] && s[..i][0] == s[0] && s[1..][i..] == s[i + 1..];
      assert ReplaceAll(s[..i], "", r) == r + [s[0]] + ReplaceAll(s[1..][..i - 1], "", r);
    }
  }

  /** The pairs applied one after the other, in the order given. */
  function ReplaceSeq(s: string, order: seq<string>, m: map<string, string>): string
    requires forall t :: t in order ==> t in m
    decreases |order|
  {
    if |order| == 0 then s
    else ReplaceSeq(ReplaceAll(s, order[0], m[order[0]]), order[1..], m)
  }

  /** `replace_ordered`. */
  method ReplaceOrdered(text: string, order: seq<string>, m: map<string, string>) returns (result: string)
    requires forall t :: t in order ==> t in m
    ensures result == ReplaceSeq(text, order, m)
  {
    result := text;
    for i := 0 to |order|
      invariant ReplaceSeq(result, order[i..], m) == ReplaceSeq(text, order, m)
    {
      assert order[i..][1..] == order[i + 1..];
      result := ReplaceAll(result, order[i], m[order[i]]);
    }
  }

  // ----- restore_pseudonyms -----

  function Elements<T>(s: seq<T>): set<T> { set x | x in s }

  /** A list of exactly the elements of `s`, without repetition. */
  ghost predicate Lists(order: seq<string>, s: set<string>) {
    && (forall t :: t in order <==> t in s)
    && (forall i, j :: 0 <= i < j < |order| ==> order[i] != order[j])
  }

  predicate LongestFirst(order: seq<string>) {
    forall i, j :: 0 <= i < j < |order| ==> |order[i]| >= |order[j]|
  }

  function Resolvable(text: string, m: map<string, string>): set<string> {
    set t | t in Elements(FindAll(text)) && t in m
  }

  datatype Restoration = Restoration(text: string, restoredCount: int, unresolvedCount: int)

  /** `restore_pseudonyms`. Sorting a set by length leaves the order of equally long tokens open, so
      the sorted list is an argument: any list of the resolvable tokens, longest first. */
  ghost function Restore(text: string, m: map<string, string>, order: seq<string>): Restoration
    requires Lists(order, Resolvable(text, m)) && LongestFirst(order)
  {
    Restoration(ReplaceSeq(text, order, m), |order|, |Elements(FindAll(text))| - |order|)
  }

  lemma {:induction false} LongestExists(s: set<string>) returns (x: string)
    requires s != {}
    ensures x in s && forall y :: y in s ==> |y| <= |x|
    decreases |s|
  {
    x :| x in s;
    if s != {x} {
      assert s - {x} != {};
      var z := LongestExists(s - {x});
      if |z| > |x| { x := z; }
    }
  }

  /** `sorted(tokens, key=len, reverse=True)`, the choice among equally long ones left open. */
  method SortedLongestFirst(tokens: set<string>) returns (order: seq<string>)
    ensures Lists(order, tokens) && LongestFirst(order)
  {
    order := [];
    var rest := tokens;
    assert tokens - tokens == {};
    assert SortedSoFar(order, tokens, rest);
    hide SortedSoFar, Lists, LongestFirst;
    while rest != {}
      invariant SortedSoFar(order, tokens, rest)
      decreases |rest|
    {
      ghost var longest := LongestExists(rest);
      var t :| t in rest && forall u :: u in rest ==> |u| <= |t|;
      SortedStep(order, tokens, rest, t);
      rest, order := rest - {t}, order + [t];
    }
    SortedAll(order, tokens);
  }

  ghost predicate SortedSoFar(order: seq<string>, tokens: set<string>, rest: set<string>) {
    && rest <= tokens && Lists(order, tokens - rest) && LongestFirst(order)
    && forall i, u :: 0 <= i < |order| && u in rest ==> |order[i]| >= |u|
  }

  lemma SortedStep(order: seq<string>, tokens: set<string>, rest: set<string>, t: string)
    requires SortedSoFar(order, tokens, rest) && t in rest && forall u :: u in rest ==> |u| <= |t|
    ensures SortedSoFar(order + [t], tokens, rest - {t})
  {
    ListsMore(order, tokens - rest, t);
    assert tokens - (rest - {t}) == tokens - rest + {t};
    hide Lists;
  }

  lemma ListsMore(order: seq<string>, s: set<string>, t: string)
    requires Lists(order, s) && t !in s
    ensures Lists(order + [t], s + {t})
  {
  }

  lemma SortedAll(order: seq<string>, tokens: set<string>)
    requires SortedSoFar(order, tokens, {})
    ensures Lists(order, tokens) && LongestFirst(order)
  {
    assert tokens - {} == tokens;
  }

  /** What restoring may give: `Restore` for one of the orders it is defined for. */
  ghost predicate IsRestoration(text: string, m: map<string, string>, r: Restoration) {
    exists order :: Lists(order, Resolvable(text, m)) && LongestFirst(order) && r == Restore(text, m, order)
  }

  method RestorePseudonyms(text: string, m: map<string, string>) returns (r: Restoration)
    ensures IsRestoration(text, m, r)
  {
    hide FindAll, ReplaceSeq;
    var present := Elements(FindAll(text));
    var resolvable := SortedLongestFirst(Resolvable(text, m));
    var restored := ReplaceOrdered(text, resolvable, m);
    r := Restoration(restored, |resolvable|, |present| - |resolvable|);
    assert r == Restore(text, m, resolvable);
  }

  // ----- texts as pieces -----

  /** A piece of a disclosed text: literal text, or one pseudonym token. */
  datatype Piece = Lit(text: string) | Tok(token: string)

  /** A string that is one whole token, with no second mark in it. */
  predicate IsPseudonym(t: string) {
    |t| > 0 && MatchLength(t) == |t| && forall i :: 0 < i < |t| ==> !(MARK <= t[i..])
  }

  predicate WellFormed(ps: seq<Piece>) {
    forall i :: 0 <= i < |ps| && ps[i].Tok? ==> IsPseudonym(ps[i].token)
  }

  function Tokens(ps: seq<Piece>): set<string> {
    if |ps| == 0 then {} else (if ps[0].Tok? then {ps[0].token} else {}) + Tokens(ps[1..])
  }

  /** What one piece reads as once the tokens of `done` are replaced. */
  function PieceText(p: Piece, m: map<string, string>, done: set<string>): string
    requires done <= m.Keys
  {
    match p
    case Lit(x) => x
    case Tok(t) => if t in done then m[t] else t
  }

  function Text(ps: seq<Piece>, m: map<string, string>, done: set<string>): string
    requires done <= m.Keys
  {
    if |ps| == 0 then "" else PieceText(ps[0], m, done) + Text(ps[1..], m, done)
  }

  /** The text with its pseudonyms in place, and the text with every known one restored. */
  function Disclosed(ps: seq<Piece>): string { Text(ps, map[], {}) }

  function Restored(ps: seq<Piece>, m: map<string, string>): string { Text(ps, m, m.Keys) }

  /** No mark starts inside `x` when `rest` follows it. */
  predicate NoMark(x: string, rest: string) {
    forall i :: 0 <= i < |x| ==> !(MARK <= (x + rest)[i..])
  }

  /** In the restored text no mark starts outside the tokens left in it: neither literal text nor an
      original forms one, on its own or together with what follows. */
  predicate Fresh(ps: seq<Piece>, m: map<string, string>) {
    |ps| == 0 || (Fresh(ps[1..], m) && match ps[0]
                                       case Lit(x) => NoMark(x, Restored(ps[1..], m))
                                       case Tok(t) => t in m ==> NoMark(m[t], Restored(ps[1..], m)))
  }

  /** What follows `t` is not read as more of its optional suffix. */
  predicate Unswallowed(t: string, following: string) { !ReadOn(t, following) }

  /** No token of the restored text would be extended by what follows it there. */
  predicate Clean(ps: seq<Piece>, m: map<string, string>) {
    |ps| == 0 || (Clean(ps[1..], m) && (ps[0].Tok? ==> Unswallowed(ps[0].token, Restored(ps[1..], m))))
  }

  /** No token is a proper prefix of another, as when no token factory ever repeats itself. */
  predicate PrefixFree(tokens: set<string>) {
    forall t, u :: t in tokens && u in tokens && t <= u ==> t == u
  }

  // ----- the mark has no border -----

  lemma MarkNoBorder(s: string, i: nat, j: nat)
    requires i < j < i + 7 && j <= |s| && MARK <= s[i..]
    ensures j < |s| && s[j] != 'P'
  {
    assert s[j] == s[i..][j - i] == MARK[j - i];
  }

  // ----- the part of a text before the first token still in it -----

  function Lead(ps: seq<Piece>, m: map<string, string>, done: set<string>): string
    requires done <= m.Keys
  {
    if |ps| == 0 || (ps[0].Tok? && ps[0].token !in done) then ""
    else PieceText(ps[0], m, done) + Lead(ps[1..], m, done)
  }

  /** Up to the first token left, a partly restored text agrees with the fully restored one. */
  lemma {:induction false} LeadAgrees(ps: seq<Piece>, m: map<string, string>, done: set<string>)
    requires WellFormed(ps) && done <= m.Keys
    ensures var l, t := Lead(ps, m, done), Text(ps, m, done);
            && l <= t && l <= Restored(ps, m)
            && (|l| < |t| ==> t[|l|] == 'P')
  {
    if |ps| > 0 && !(ps[0].Tok? && ps[0].token !in done) {
      LeadAgrees(ps[1..], m, done);
    } else if |ps| > 0 {
      assert MARK <= ps[0].token;
    }
  }

  lemma MarkMoves(x: string, l: string, t: string, g: string, i: nat)
    requires l <= t && l <= g && (|l| < |t| ==> t[|l|] == 'P')
    requires i < |x| && MARK <= (x + t)[i..]
    ensures MARK <= (x + g)[i..]
  {
    var j := |x| + |l|;
    if j < i + 7 {
      MarkNoBorder(x + t, i, j);
    } else {
      assert forall k :: 0 <= k < 7 ==> (x + g)[i..][k] == (x + t)[i..][k];
    }
  }

  lemma NoMarkPartly(x: string, ps: seq<Piece>, m: map<string, string>, done: set<string>)
    requires WellFormed(ps) && done <= m.Keys && NoMark(x, Restored(ps, m))
    ensures NoMark(x, Text(ps, m, done))
  {
    var t := Text(ps, m, done);
    LeadAgrees(ps, m, done);
    forall i | 0 <= i < |x| ensures !(MARK <= (x + t)[i..]) {
      if MARK <= (x + t)[i..] { MarkMoves(x, Lead(ps, m, done), t, Restored(ps, m), i); }
    }
  }

  // ----- one replacement -----

  lemma ReplaceMiss(s: string, t: string, r: string)
    requires t != "" && |s| > 0 && !(t <= s)
    ensures ReplaceAll(s, t, r) == [s[0]] + ReplaceAll(s[1..], t, r)
  {
  }

  lemma {:induction false} ReplaceSkip(x: string, rest: string, t: string, r: string)
    requires t != "" && forall i :: 0 <= i < |x| ==> !(t <= (x + rest)[i..])
    ensures ReplaceAll(x + rest, t, r) == x + ReplaceAll(rest, t, r)
  {
    if |x| == 0 {
      assert x + rest == rest;
    } else {
      hide ReplaceAll;
      var s, y := x + rest, x[1..];
      assert s[0..] == s && s[1..] == y + rest && s[0] == x[0];
      MissesLater(x, rest, t);
      ReplaceSkip(y, rest, t, r);
      ReplaceMiss(s, t, r);
      assert x == [x[0]] + y;
    }
  }

  lemma MissesLater(x: string, rest: string, t: string)
    requires |x| > 0 && forall i :: 0 <= i < |x| ==> !(t <= (x + rest)[i..])
    ensures forall i :: 0 <= i < |x[1..]| ==> !(t <= (x[1..] + rest)[i..])
  {
    forall i | 0 <= i < |x[1..]| ensures !(t <= (x[1..] + rest)[i..]) {
      assert (x[1..] + rest)[i..] == (x + rest)[i + 1..];
    }
  }

  lemma MarkOfToken(s: string, t: string)
    requires t <= s && MARK <= t
    ensures MARK <= s
  {
  }

  lemma NoMarkNoToken(x: string, rest: string, t: string)
    requires NoMark(x, rest) && MARK <= t
    ensures forall i :: 0 <= i < |x| ==> !(t <= (x + rest)[i..])
  {
    forall i | 0 <= i < |x| ensures !(t <= (x + rest)[i..]) {
      if t <= (x + rest)[i..] { MarkOfToken((x + rest)[i..], t); }
    }
  }

  /** Behind the category a token has hex digits, then at most a hyphen and digits. */
  lemma NoPBehindCategory(t: string, i: nat)
    requires StemLength(t) > 0 && MatchLength(t) == |t| && StemLength(t) - 33 < i < |t|
    ensures t[i] != 'P'
  {
    var k := StemLength(t);
    if i < k {
      assert IsHex(t[i]) && !IsHex('P');
    } else if i > k {
      assert t[i] == t[k..][1..][i - k - 1] && IsDigit(t[i]) && !IsDigit('P');
    }
  }

  /** A mark starts nowhere in a token but at its beginning, whatever follows. */
  lemma MarkOnlyAtHead(u: string, rest: string, i: nat)
    requires IsPseudonym(u) && 0 < i < |u|
    ensures !(MARK <= (u + rest)[i..])
  {
    var s := u + rest;
    if i + 7 <= |u| {
      assert forall k :: 0 <= k < 7 ==> s[i..][k] == u[i..][k];
    } else {
      NoPBehindCategory(u, i);
      assert s[i..][0] == u[i];
    }
  }

  /** A token starts nowhere in another token but, possibly, at its beginning. */
  lemma NoTokenInside(u: string, rest: string, t: string)
    requires IsPseudonym(u) && IsPseudonym(t) && !(t <= u + rest)
    ensures forall i :: 0 <= i < |u| ==> !(t <= (u + rest)[i..])
  {
    hide MatchLength;
    assert (u + rest)[0..] == u + rest;
    forall i | 0 <= i < |u| ensures !(t <= (u + rest)[i..]) {
      if i > 0 {
        MarkOnlyAtHead(u, rest, i);
        if t <= (u + rest)[i..] { MarkOfToken((u + rest)[i..], t); }
      }
    }
  }

  /** At no token still in place, other than `t` itself, does the text read on as `t`. */
  predicate Distinct(ps: seq<Piece>, m: map<string, string>, done: set<string>, t: string)
    requires done <= m.Keys
  {
    |ps| == 0 || (Distinct(ps[1..], m, done, t) &&
                  (ps[0].Tok? && ps[0].token !in done && ps[0].token != t
                   ==> !(t <= ps[0].token + Text(ps[1..], m, done))))
  }

  lemma ReplaceHead(t: string, rest: string, x: string)
    requires |t| > 0
    ensures ReplaceAll(t + rest, t, x) == x + ReplaceAll(rest, t, x)
  {
    assert (t + rest)[|t|..] == rest;
  }

  /** Replacing one known token restores exactly its occurrences. */
  lemma {:induction false} ReplaceOne(ps: seq<Piece>, m: map<string, string>, done: set<string>, t: string)
    requires WellFormed(ps) && Fresh(ps, m) && done <= m.Keys && t in m && t !in done && IsPseudonym(t)
    requires Distinct(ps, m, done, t)
    ensures ReplaceAll(Text(ps, m, done), t, m[t]) == Text(ps, m, done + {t})
  {
    hide MatchLength;
    if |ps| > 0 {
      var p, tail := ps[0], ps[1..];
      var rest := Text(tail, m, done);
      var x := PieceText(p, m, done);
      ReplaceOne(tail, m, done, t);
      if p.Tok? && p.token == t {
        ReplaceHead(t, rest, m[t]);
      } else if p.Tok? && p.token !in done {
        NoTokenInside(p.token, rest, t);
        ReplaceSkip(p.token, rest, t, m[t]);
      } else {
        NoMarkPartly(x, tail, m, done);
        NoMarkNoToken(x, rest, t);
        ReplaceSkip(x, rest, t, m[t]);
      }
    }
  }

  // ----- matches and prefixes -----

  lemma {:induction false} WordRunPrefix(s: string, t: string)
    requires t <= s && WordRun(t) < |t|
    ensures WordRun(s) == WordRun(t)
  {
    if |t| > 0 && IsWord(t[0]) { WordRunPrefix(s[1..], t[1..]); }
  }

  lemma {:induction false} DigitRunPrefix(s: string, t: string)
    requires t <= s
    ensures DigitRun(s) >= DigitRun(t)
  {
    if |t| > 0 && IsDigit(t[0]) { DigitRunPrefix(s[1..], t[1..]); }
  }

  lemma StemPrefix(s: string, t: string)
    requires t <= s && StemLength(t) > 0
    ensures StemLength(s) == StemLength(t)
  {
    assert t[7..] <= s[7..];
    WordRunPrefix(s[7..], t[7..]);
    assert MARK == t[..7] == s[..7];
  }

  /** A longer text matches at least as much. */
  lemma MatchPrefix(s: string, t: string)
    requires t <= s && MatchLength(t) > 0
    ensures MatchLength(s) >= MatchLength(t)
  {
    StemPrefix(s, t);
    var k := StemLength(t);
    assert t[k..] <= s[k..];
    if SuffixLength(t[k..]) > 0 { DigitRunPrefix(s[k..][1..], t[k..][1..]); }
  }

  /** A match is a match of itself, and past the whole token `u` it holds hyphens and digits only. */
  lemma MatchGrows(u: string, rest: string)
    requires IsPseudonym(u)
    ensures var n := MatchLength(u + rest);
            && n >= |u|
            && forall i :: |u| <= i < n ==> (u + rest)[i] != 'P'
  {
    MatchPrefix(u + rest, u);
    StemPrefix(u + rest, u);
    var s, k := u + rest, StemLength(u);
    forall i | |u| <= i < MatchLength(s) ensures s[i] != 'P' {
      if i > k { assert IsDigit(s[k..][1..][i - k - 1]) && !IsDigit('P'); }
    }
  }

  lemma {:induction false} DigitRunSelf(s: string, n: nat)
    requires DigitRun(s) <= n <= |s|
    ensures DigitRun(s[..n]) == DigitRun(s)
  {
    if |s| > 0 && IsDigit(s[0]) {
      DigitRunSelf(s[1..], n - 1);
      assert s[..n][1..] == s[1..][..n - 1];
    }
  }

  /** If `t`, longer than the token `u`, could be read at `u`, then it could still be read there when
      only what precedes the next token is kept: `u` is swallowed. */
  lemma Overgrown(u: string, t: string, l: string, rest: string, g: string)
    requires IsPseudonym(u) && |t| > |u| && t <= u + rest
    requires MatchLength(t) == |t| && 'P' !in t[|u|..]
    requires l <= rest && l <= g && (|l| < |rest| ==> rest[|l|] == 'P')
    ensures !Unswallowed(u, g)
  {
    var ext := t[|u|..];
    assert ext <= rest by { assert forall i :: 0 <= i < |ext| ==> ext[i] == (u + rest)[|u| + i]; }
    assert forall i :: 0 <= i < |ext| ==> rest[i] == ext[i] && rest[i] != 'P';
    assert |ext| <= |l|;
    assert t == u + ext && t <= u + g;
    MatchPrefix(u + g, t);
    EndsExactly(u, g);
  }

  // ----- what findall finds -----

  /** The matches of a disclosed text: one per token, each with whatever its suffix swallows. */
  function Grown(ps: seq<Piece>): seq<string> {
    if |ps| == 0 then []
    else match ps[0]
         case Lit(_) => Grown(ps[1..])
         case Tok(u) => [GrownToken(u, Disclosed(ps[1..]))] + Grown(ps[1..])
  }

  function GrownToken(u: string, rest: string): string {
    (u + rest)[..MatchLength(u + rest)]
  }

  lemma {:induction false} DisclosedIs(ps: seq<Piece>, m: map<string, string>)
    ensures Disclosed(ps) == Text(ps, m, {})
  {
    if |ps| > 0 { DisclosedIs(ps[1..], m); }
  }

  lemma FindMiss(s: string)
    requires |s| > 0 && !(MARK <= s)
    ensures FindAll(s) == FindAll(s[1..])
  {
  }

  lemma {:induction false} FindSkip(x: string, rest: string)
    requires NoMark(x, rest)
    ensures FindAll(x + rest) == FindAll(rest)
  {
    if |x| == 0 {
      assert x + rest == rest;
    } else {
      var s, y := x + rest, x[1..];
      assert s[0..] == s && s[1..] == y + rest;
      forall i | 0 <= i < |y| ensures !(MARK <= (y + rest)[i..]) {
        assert (y + rest)[i..] == s[i + 1..];
      }
      FindSkip(y, rest);
      FindMiss(s);
    }
  }

  lemma NoPNoMark(x: string, rest: string)
    requires 'P' !in x
    ensures NoMark(x, rest)
  {
    forall i | 0 <= i < |x| ensures !(MARK <= (x + rest)[i..]) {
      assert (x + rest)[i..][0] == x[i];
    }
  }

  lemma FindStep(s: string)
    requires MatchLength(s) > 0
    ensures FindAll(s) == [s[..MatchLength(s)]] + FindAll(s[MatchLength(s)..])
  {
    hide MatchLength;
  }

  lemma FindToken(u: string, rest: string)
    requires IsPseudonym(u)
    ensures FindAll(u + rest) == [GrownToken(u, rest)] + FindAll(rest)
  {
    hide MatchLength, FindAll;
    var s, n := u + rest, MatchLength(u + rest);
    MatchGrows(u, rest);
    FindStep(s);
    var k := n - |u|;
    assert s[n..] == rest[k..];
    assert 'P' !in rest[..k] by { assert forall i :: 0 <= i < k ==> rest[..k][i] == s[|u| + i]; }
    NoPNoMark(rest[..k], rest[k..]);
    FindSkip(rest[..k], rest[k..]);
    assert rest == rest[..k] + rest[k..];
  }

  lemma {:induction false} FindDisclosed(ps: seq<Piece>, m: map<string, string>)
    requires WellFormed(ps) && Fresh(ps, m)
    ensures FindAll(Disclosed(ps)) == Grown(ps)
  {
    if |ps| > 0 {
      var tail := ps[1..];
      FindDisclosed(tail, m);
      match ps[0]
      case Lit(x) =>
        DisclosedIs(tail, m);
        NoMarkPartly(x, tail, m, {});
        FindSkip(x, Disclosed(tail));
      case Tok(u) => FindToken(u, Disclosed(tail));
    }
  }

  // ----- a whole list of replacements -----

  /** No known token of the text is a proper prefix of a foreign one. */
  predicate ForeignApart(ps: seq<Piece>, m: map<string, string>) {
    forall t, u :: t in Tokens(ps) && u in Tokens(ps) && t in m && u !in m ==> !Extends(u, t)
  }

  /** `t` is a proper prefix of `u`. */
  predicate Extends(u: string, t: string) { t <= u && t != u }

  lemma HeadDistinct(u: string, tail: seq<Piece>, m: map<string, string>, done: set<string>, t: string)
    requires WellFormed(tail) && done <= m.Keys && IsPseudonym(u) && IsPseudonym(t) && u != t
    requires Unswallowed(u, Restored(tail, m)) && !Extends(u, t)
    ensures !(t <= u + Text(tail, m, done))
  {
    var rest := Text(tail, m, done);
    LeadAgrees(tail, m, done);
    if t <= u + rest {
      PrefixesCompare(u, t, u + rest);
      assert u <= t;
      NoPBehind(u, t);
      Overgrown(u, t, Lead(tail, m, done), rest, Restored(tail, m));
    }
  }

  /** What one token has more than another is part of its suffix. */
  lemma NoPBehind(u: string, t: string)
    requires IsPseudonym(u) && IsPseudonym(t) && u <= t
    ensures 'P' !in t[|u|..]
  {
    StemPrefix(t, u);
    forall i | 0 <= i < |t[|u|..]| ensures t[|u|..][i] != 'P' { NoPBehindCategory(t, |u| + i); }
  }

  /** Longest first, in a text no token of which is swallowed: nothing reads on as `t`. */
  lemma {:induction false} DistinctWhenClean(ps: seq<Piece>, m: map<string, string>, done: set<string>, t: string)
    requires WellFormed(ps) && Clean(ps, m) && done <= m.Keys && IsPseudonym(t)
    requires forall u :: u in Tokens(ps) && u !in done ==> !Extends(u, t)
    ensures Distinct(ps, m, done, t)
  {
    if |ps| > 0 {
      DistinctWhenClean(ps[1..], m, done, t);
      if ps[0].Tok? && ps[0].token !in done && ps[0].token != t {
        HeadDistinct(ps[0].token, ps[1..], m, done, t);
      }
    }
  }

  /** With prefix-free tokens nothing reads on as another token, swallowed or not. */
  lemma {:induction false} DistinctWhenPrefixFree(ps: seq<Piece>, m: map<string, string>, done: set<string>, t: string)
    requires PrefixFree(m.Keys + Tokens(ps)) && done <= m.Keys && t in m
    ensures Distinct(ps, m, done, t)
  {
    if |ps| > 0 {
      DistinctWhenPrefixFree(ps[1..], m, done, t);
      if ps[0].Tok? && ps[0].token != t {
        var u, rest := ps[0].token, Text(ps[1..], m, done);
        assert u in Tokens(ps);
        if t <= u + rest {
          PrefixesCompare(u, t, u + rest);
        }
      }
    }
  }

  lemma PrefixesCompare(u: string, t: string, s: string)
    requires u <= s && t <= s
    ensures if |t| <= |u| then t <= u else u <= t
  {
    assert forall i :: 0 <= i < |t| && i < |u| ==> t[i] == s[i] == u[i];
  }

  /** Every replacement of `order`, from a text in which those of `done` are already made, hits
      exactly the occurrences of its own token. */
  ghost predicate AllDistinct(ps: seq<Piece>, m: map<string, string>, done: set<string>, order: seq<string>)
    requires done <= m.Keys
    decreases |order|
  {
    |order| == 0 || (order[0] in m && order[0] !in done && IsPseudonym(order[0])
                     && Distinct(ps, m, done, order[0]) && AllDistinct(ps, m, done + {order[0]}, order[1..]))
  }

  lemma {:induction false} ReplaceMany(ps: seq<Piece>, m: map<string, string>, done: set<string>, order: seq<string>)
    requires WellFormed(ps) && Fresh(ps, m) && done <= m.Keys && AllDistinct(ps, m, done, order)
    ensures forall t :: t in order ==> t in m
    ensures ReplaceSeq(Text(ps, m, done), order, m) == Text(ps, m, done + Elements(order))
    decreases |order|
  {
    hide Text, Fresh, WellFormed, Distinct, IsPseudonym;
    if |order| == 0 {
      assert done + Elements(order) == done;
    } else {
      ReplaceOne(ps, m, done, order[0]);
      ReplaceMany(ps, m, done + {order[0]}, order[1..]);
      assert order == [order[0]] + order[1..];
      assert done + {order[0]} + Elements(order[1..]) == done + Elements(order);
    }
  }

  lemma {:induction false} AllDistinctWhenClean(ps: seq<Piece>, m: map<string, string>, done: set<string>, order: seq<string>)
    requires WellFormed(ps) && Clean(ps, m) && ForeignApart(ps, m) && done <= m.Keys
    requires LongestFirst(order) && Lists(order, Tokens(ps) * m.Keys - done)
    ensures AllDistinct(ps, m, done, order)
    decreases |order|
  {
    if |order| > 0 {
      var t, s := order[0], Tokens(ps) * m.Keys - done;
      assert t in order && t in s;
      TokenWellFormed(ps, t);
      forall u | u in Tokens(ps) && u !in done ensures !Extends(u, t) {
        if u in m { NoneLonger(order, s, u); }
      }
      DistinctWhenClean(ps, m, done, t);
      ListsTail(order, s);
      assert s - {t} == Tokens(ps) * m.Keys - (done + {t});
      AllDistinctWhenClean(ps, m, done + {t}, order[1..]);
    }
  }

  lemma {:induction false} TokenWellFormed(ps: seq<Piece>, t: string)
    requires WellFormed(ps) && t in Tokens(ps)
    ensures IsPseudonym(t)
  {
    if ps[0] != Tok(t) { TokenWellFormed(ps[1..], t); }
  }

  lemma NoneLonger(order: seq<string>, s: set<string>, u: string)
    requires LongestFirst(order) && Lists(order, s) && u in s
    ensures |order| > 0 && |u| <= |order[0]|
  {
    assert u in order;
  }

  lemma ListsTail(order: seq<string>, s: set<string>)
    requires Lists(order, s) && |order| > 0
    ensures Lists(order[1..], s - {order[0]})
  {
    var rest := order[1..];
    forall t ensures t in rest <==> t in s - {order[0]} {
      if t in rest {
        var i :| 0 <= i < |rest| && rest[i] == t;
        assert order[i + 1] == t && t in order;
      }
    }
  }

  lemma {:induction false} AllDistinctWhenPrefixFree(ps: seq<Piece>, m: map<string, string>, done: set<string>,
                                                     order: seq<string>, s: set<string>)
    requires WellFormed(ps) && PrefixFree(m.Keys + Tokens(ps)) && done <= m.Keys
    requires s <= Tokens(ps) * m.Keys - done && Lists(order, s)
    ensures AllDistinct(ps, m, done, order)
    decreases |order|
  {
    if |order| > 0 {
      var t := order[0];
      assert t in order && t in s;
      TokenWellFormed(ps, t);
      DistinctWhenPrefixFree(ps, m, done, t);
      ListsTail(order, s);
      AllDistinctWhenPrefixFree(ps, m, done + {t}, order[1..], s - {t});
    }
  }

  lemma {:induction false} ListsCount(order: seq<string>, s: set<string>)
    requires Lists(order, s)
    ensures |order| == |s| && Elements(order) == s
    decreases |order|
  {
    assert Elements(order) == s;
    if |order| > 0 {
      ListsTail(order, s);
      ListsCount(order[1..], s - {order[0]});
    } else {
      assert s == {};
    }
  }

  // ----- the main results -----

  lemma {:induction false} GrownWhenClean(ps: seq<Piece>, m: map<string, string>)
    requires WellFormed(ps) && Clean(ps, m)
    ensures Elements(Grown(ps)) == Tokens(ps)
  {
    hide GrownToken, Unswallowed, Disclosed, Restored, IsPseudonym;
    if |ps| > 0 {
      GrownWhenClean(ps[1..], m);
      if ps[0].Tok? {
        GrownIsToken(ps[0].token, ps[1..], m);
        ElementsCons(ps[0].token, Grown(ps[1..]));
      }
    }
  }

  lemma ElementsCons(x: string, s: seq<string>)
    ensures Elements([x] + s) == {x} + Elements(s)
  {
  }

  lemma GrownIsToken(u: string, tail: seq<Piece>, m: map<string, string>)
    requires IsPseudonym(u) && WellFormed(tail) && Unswallowed(u, Restored(tail, m))
    ensures GrownToken(u, Disclosed(tail)) == u
  {
    hide MatchLength, Disclosed, Restored;
    var rest, n := Disclosed(tail), MatchLength(u + Disclosed(tail));
    DisclosedIs(tail, m);
    LeadAgrees(tail, m, {});
    MatchGrows(u, rest);
    var t := GrownToken(u, rest);
    if n > |u| {
      MatchOfPrefix(u + rest);
      assert forall i :: |u| <= i < n ==> t[i] == (u + rest)[i] != 'P';
      Overgrown(u, t, Lead(tail, m, {}), rest, Restored(tail, m));
    }
  }

  lemma MatchOfPrefix(s: string)
    requires MatchLength(s) > 0
    ensures MatchLength(s[..MatchLength(s)]) == MatchLength(s)
  {
    var n, k := MatchLength(s), StemLength(s);
    var t := s[..n];
    assert s[..k][7..] == s[7..k];
    WordRunWithin(s[7..], n - 7);
    assert t[7..] == s[7..][..n - 7] && t[..7] == s[..7];
    assert StemLength(t) == k;
    assert t[k..] == s[k..][..n - k];
    if n > k {
      DigitRunSelf(s[k..][1..], n - k - 1);
      assert t[k..][1..] == s[k..][1..][..n - k - 1];
    }
  }

  lemma {:induction false} WordRunWithin(s: string, n: nat)
    requires WordRun(s) < n <= |s|
    ensures WordRun(s[..n]) == WordRun(s)
  {
    if |s| > 0 && IsWord(s[0]) {
      WordRunWithin(s[1..], n - 1);
      assert s[..n][1..] == s[1..][..n - 1];
    }
  }

  /** Restoring puts back the original of every known token, leaves every other segment and every
      foreign token as it is, and counts both, whatever order equally long tokens come in. */
  lemma RestoreExact(ps: seq<Piece>, m: map<string, string>, order: seq<string>)
    requires WellFormed(ps) && Fresh(ps, m) && Clean(ps, m) && ForeignApart(ps, m)
    requires Lists(order, Resolvable(Disclosed(ps), m)) && LongestFirst(order)
    ensures Restore(Disclosed(ps), m, order)
         == Restoration(Restored(ps, m), |Tokens(ps) * m.Keys|, |Tokens(ps) - m.Keys|)
  {
    FindKnown(ps, m);
    ListsCount(order, Tokens(ps) * m.Keys);
    SplitCount(Tokens(ps), m.Keys);
    RestoreKnown(ps, m, order);
  }

  lemma SplitCount(a: set<string>, b: set<string>)
    ensures |a| == |a * b| + |a - b|
  {
    assert a == a * b + (a - b);
  }

  lemma FindKnown(ps: seq<Piece>, m: map<string, string>)
    requires WellFormed(ps) && Fresh(ps, m) && Clean(ps, m)
    ensures Elements(FindAll(Disclosed(ps))) == Tokens(ps)
    ensures Resolvable(Disclosed(ps), m) == Tokens(ps) * m.Keys
  {
    FindDisclosed(ps, m);
    GrownWhenClean(ps, m);
  }

  lemma RestoreKnown(ps: seq<Piece>, m: map<string, string>, order: seq<string>)
    requires WellFormed(ps) && Fresh(ps, m) && Clean(ps, m) && ForeignApart(ps, m)
    requires Lists(order, Tokens(ps) * m.Keys) && LongestFirst(order)
    ensures forall t :: t in order ==> t in m
    ensures ReplaceSeq(Disclosed(ps), order, m) == Restored(ps, m)
  {
    hide Fresh, Clean, ForeignApart, Disclosed, Restored, Text, ReplaceSeq, WellFormed;
    var known := Tokens(ps) * m.Keys;
    assert known - {} == known;
    AllDistinctWhenClean(ps, m, {}, order);
    DisclosedIs(ps, m);
    ReplaceMany(ps, m, {}, order);
    ListsCount(order, known);
    assert {} + Elements(order) == known;
    TextKnown(ps, m, known);
  }

  lemma {:induction false} TextKnown(ps: seq<Piece>, m: map<string, string>, done: set<string>)
    requires Tokens(ps) * m.Keys <= done <= m.Keys
    ensures Text(ps, m, done) == Restored(ps, m)
  {
    if |ps| > 0 {
      TextKnown(ps[1..], m, done);
      if ps[0].Tok? { assert ps[0].token in Tokens(ps); }
    }
  }

  /** Some occurrence of `t` is followed, in the disclosed text, by nothing its suffix would take. */
  predicate HasCleanOccurrence(ps: seq<Piece>, t: string) {
    |ps| > 0 && ((ps[0] == Tok(t) && Unswallowed(t, Disclosed(ps[1..]))) || HasCleanOccurrence(ps[1..], t))
  }

  /** The condition is exact: among prefix-free tokens, known or foreign, restoring puts every known
      token's original back if and only if each known token has one occurrence that is not swallowed. */
  lemma RestoreExactIff(ps: seq<Piece>, m: map<string, string>, order: seq<string>)
    requires WellFormed(ps) && Fresh(ps, m) && PrefixFree(m.Keys + Tokens(ps))
    requires Lists(order, Resolvable(Disclosed(ps), m)) && LongestFirst(order)
    ensures Restore(Disclosed(ps), m, order).text == Restored(ps, m)
       <==> forall t :: t in Tokens(ps) && t in m ==> HasCleanOccurrence(ps, t)
  {
    var found := Resolvable(Disclosed(ps), m);
    FindDisclosed(ps, m);
    forall t ensures t in found <==> t in Tokens(ps) && t in m && HasCleanOccurrence(ps, t) {
      GrownWhenPrefixFree(ps, m, t);
    }
    RestoreFound(ps, m, order, found);
    if forall t :: t in Tokens(ps) && t in m ==> HasCleanOccurrence(ps, t) {
      TextKnown(ps, m, found);
    } else {
      NotRestored(ps, m, found);
    }
  }

  lemma RestoreFound(ps: seq<Piece>, m: map<string, string>, order: seq<string>, found: set<string>)
    requires WellFormed(ps) && Fresh(ps, m) && PrefixFree(m.Keys + Tokens(ps))
    requires Lists(order, found) && found <= Tokens(ps) * m.Keys
    ensures forall t :: t in order ==> t in m
    ensures ReplaceSeq(Disclosed(ps), order, m) == Text(ps, m, found)
  {
    hide Fresh, WellFormed, Text, Disclosed, ReplaceSeq;
    AllDistinctWhenPrefixFree(ps, m, {}, order, found);
    DisclosedIs(ps, m);
    ReplaceMany(ps, m, {}, order);
    ListsCount(order, found);
    assert {} + Elements(order) == found;
  }

  lemma {:induction false} GrownWhenPrefixFree(ps: seq<Piece>, m: map<string, string>, t: string)
    requires WellFormed(ps) && PrefixFree(m.Keys + Tokens(ps))
    ensures t in Grown(ps) && t in m <==> t in Tokens(ps) && t in m && HasCleanOccurrence(ps, t)
  {
    hide MatchLength;
    if |ps| > 0 {
      GrownWhenPrefixFree(ps[1..], m, t);
      if ps[0].Tok? {
        var u, g := ps[0].token, GrownToken(ps[0].token, Disclosed(ps[1..]));
        GrownIfKnown(u, Disclosed(ps[1..]), m);
        InCons(g, Grown(ps[1..]), t);
        CleanIsToken(ps[1..], t);
      }
    }
  }

  lemma InCons(x: string, s: seq<string>, t: string)
    ensures t in [x] + s <==> t == x || t in s
  {
  }

  lemma {:induction false} CleanIsToken(ps: seq<Piece>, t: string)
    ensures HasCleanOccurrence(ps, t) ==> t in Tokens(ps)
  {
    if |ps| > 0 { CleanIsToken(ps[1..], t); }
  }

  lemma GrownIfKnown(u: string, rest: string, m: map<string, string>)
    requires IsPseudonym(u) && PrefixFree(m.Keys + {u})
    ensures GrownToken(u, rest) in m <==> u in m && GrownToken(u, rest) == u
    ensures GrownToken(u, rest) == u <==> Unswallowed(u, rest)
  {
    MatchGrows(u, rest);
    EndsExactly(u, rest);
    assert u <= GrownToken(u, rest);
  }

  predicate HasMark(s: string) { exists i :: 0 <= i < |s| && MARK <= s[i..] }

  lemma HasMarkAppend(x: string, y: string)
    ensures HasMark(y) ==> HasMark(x + y)
    ensures !HasMark(y) && NoMark(x, y) ==> !HasMark(x + y)
  {
    var s := x + y;
    assert forall i :: 0 <= i < |y| ==> s[|x| + i..] == y[i..];
    if HasMark(y) {
      var i :| 0 <= i < |y| && MARK <= y[i..];
      assert MARK <= s[|x| + i..];
    }
    if HasMark(s) {
      var i :| 0 <= i < |s| && MARK <= s[i..];
      if i >= |x| { assert s[i..] == y[i - |x|..]; }
    }
  }

  /** With every token known, freshness is simply that the restored text holds no mark. */
  lemma {:induction false} FreshWhenNoMark(ps: seq<Piece>, m: map<string, string>)
    requires !HasMark(Restored(ps, m))
    ensures Fresh(ps, m)
  {
    if |ps| > 0 {
      var x, y := PieceText(ps[0], m, m.Keys), Restored(ps[1..], m);
      HasMarkAppend(x, y);
      FreshWhenNoMark(ps[1..], m);
    }
  }

  // ----- counting the marks of a text -----

  function Marks(s: string): nat {
    if |s| == 0 then 0 else (if MARK <= s then 1 else 0) + Marks(s[1..])
  }

  lemma {:induction false} MarksSkip(x: string, rest: string)
    requires NoMark(x, rest)
    ensures Marks(x + rest) == Marks(rest)
  {
    if |x| == 0 {
      assert x + rest == rest;
    } else {
      var s, y := x + rest, x[1..];
      assert s[0..] == s && s[1..] == y + rest;
      forall i | 0 <= i < |y| ensures !(MARK <= (y + rest)[i..]) {
        assert (y + rest)[i..] == s[i + 1..];
      }
      MarksSkip(y, rest);
    }
  }

  lemma MarksOfToken(u: string, rest: string)
    requires IsPseudonym(u)
    ensures Marks(u + rest) == 1 + Marks(rest)
  {
    hide MatchLength;
    var s, y := u + rest, u[1..];
    assert s[1..] == y + rest && MARK <= u;
    forall i | 0 <= i < |y| ensures !(MARK <= (y + rest)[i..]) {
      MarkOnlyAtHead(u, rest, i + 1);
      assert (y + rest)[i..] == s[i + 1..];
    }
    MarksSkip(y, rest);
  }

  /** The occurrences of tokens not yet replaced. */
  function Unreplaced(ps: seq<Piece>, done: set<string>): nat {
    if |ps| == 0 then 0 else (if ps[0].Tok? && ps[0].token !in done then 1 else 0) + Unreplaced(ps[1..], done)
  }

  lemma {:induction false} MarksCountTokens(ps: seq<Piece>, m: map<string, string>, done: set<string>)
    requires WellFormed(ps) && Fresh(ps, m) && done <= m.Keys
    ensures Marks(Text(ps, m, done)) == Unreplaced(ps, done)
  {
    hide IsPseudonym, Marks;
    if |ps| == 0 {
      NoMarks();
    } else {
      var x, rest := PieceText(ps[0], m, done), Text(ps[1..], m, done);
      MarksCountTokens(ps[1..], m, done);
      if ps[0].Tok? && ps[0].token !in done {
        MarksOfToken(x, rest);
      } else {
        NoMarkPartly(x, ps[1..], m, done);
        MarksSkip(x, rest);
      }
    }
  }

  lemma NoMarks()
    ensures Marks("") == 0
  {
  }

  lemma {:induction false} FewerUnreplaced(ps: seq<Piece>, some: set<string>, more: set<string>, t: string)
    requires some <= more
    ensures Unreplaced(ps, more) <= Unreplaced(ps, some)
    ensures t in Tokens(ps) && t in more && t !in some ==> Unreplaced(ps, more) < Unreplaced(ps, some)
  {
    if |ps| > 0 { FewerUnreplaced(ps[1..], some, more, t); }
  }

  lemma NotRestored(ps: seq<Piece>, m: map<string, string>, done: set<string>)
    requires WellFormed(ps) && Fresh(ps, m) && done <= m.Keys
    requires exists t :: t in Tokens(ps) && t in m && t !in done
    ensures Text(ps, m, done) != Restored(ps, m)
  {
    var t :| t in Tokens(ps) && t in m && t !in done;
    FewerUnreplaced(ps, done, m.Keys, t);
    MarksCountTokens(ps, m, done);
    MarksCountTokens(ps, m, m.Keys);
  }

  /** Without the condition the round trip fails: a token followed by `-` and a digit is read as a
      longer one the handle does not know, and is left in place. */
  lemma SwallowedIsNotRestored(u: string, original: string, digit: char)
    requires IsPseudonym(u) && !Suffixed(u) && IsDigit(digit)
    requires !HasMark(original + ['-', digit])
    ensures var text, m := u + ['-', digit], map[u := original];
            && Resolvable(text, m) == {}
            && Restore(text, m, []).text == text
            && text != original + ['-', digit]
  {
    var text := u + ['-', digit];
    SuffixedIs(u);
    StemPrefix(text, u);
    assert text[|u|..] == ['-', digit];
    assert SuffixLength(text[|u|..]) > 0;
    FindToken(u, ['-', digit]);
    NoPNoMark(['-', digit], "");
    FindSkip(['-', digit], "");
    assert ['-', digit] + "" == ['-', digit];
    assert FindAll(text) == [GrownToken(u, ['-', digit])];
    assert MARK <= text[0..];
  }

  /** A token is a proper prefix of another only by a collision suffix: tokens without one are
      prefix-free. */
  lemma PrefixBySuffix(t: string, u: string)
    requires IsPseudonym(t) && IsPseudonym(u) && Extends(u, t)
    ensures Suffixed(u)
  {
    StemPrefix(u, t);
    SuffixedIs(u);
  }

  /** Why prefixes are set apart: a token followed by what makes it another known one is restored as
      that other one. The text is recovered exactly when the two originals differ by those characters,
      although the token has no occurrence that is not swallowed. */
  lemma PrefixPairReadsOn(u: string, x: string, y: string, digit: char)
    requires IsPseudonym(u) && !Suffixed(u) && IsDigit(digit)
    ensures var end := ['-', digit];
            var v, ps := u + end, [Tok(u), Lit(end)];
            var m := map[u := x, v := y];
            && Disclosed(ps) == v && Restored(ps, m) == x + end && !HasCleanOccurrence(ps, u)
            && Resolvable(Disclosed(ps), m) == {v} && Restore(Disclosed(ps), m, [v]).text == y
  {
    hide MatchLength, FindAll, Text, HasCleanOccurrence, ReplaceSeq, Suffixed;
    var end := ['-', digit];
    ReadsOn(u, digit);
    PairTexts(u, end, map[u := x, u + end := y]);
    OneFound(u + end, map[u := x, u + end := y]);
  }

  lemma PairTexts(u: string, end: string, m: map<string, string>)
    requires u in m && ReadOn(u, end)
    ensures var ps := [Tok(u), Lit(end)];
            Disclosed(ps) == u + end && Restored(ps, m) == m[u] + end && !HasCleanOccurrence(ps, u)
  {
    hide ReadOn;
    var ps, last := [Tok(u), Lit(end)], [Lit(end)];
    assert ps[1..] == last && last[1..] == [];
    LastLit(end, map[], {});
    LastLit(end, m, m.Keys);
    assert !HasCleanOccurrence(last, u);
  }

  lemma OneFound(v: string, m: map<string, string>)
    requires FindAll(v) == [v] && v in m && v != ""
    ensures Resolvable(v, m) == {v} && Restore(v, m, [v]).text == m[v]
  {
    hide FindAll;
    assert Elements([v]) == {v};
    ReplaceHead(v, "", m[v]);
    assert v + "" == v && m[v] + "" == m[v] && ReplaceAll("", v, m[v]) == "";
    assert [v][1..] == [] && ReplaceSeq(m[v], [], m) == m[v];
    assert ReplaceSeq(v, [v], m) == ReplaceSeq(ReplaceAll(v, v, m[v]), [v][1..], m);
  }

  lemma SuffixOfDigit(digit: char)
    requires IsDigit(digit)
    ensures SuffixLength(['-', digit]) == 2
  {
    assert ['-', digit][1..] == [digit] && [digit][1..] == [];
  }

  lemma NothingFound()
    ensures FindAll("") == []
  {
  }

  lemma ReadsOn(u: string, digit: char)
    requires IsPseudonym(u) && !Suffixed(u) && IsDigit(digit)
    ensures MatchLength(u + ['-', digit]) == |u| + 2 && FindAll(u + ['-', digit]) == [u + ['-', digit]]
  {
    hide StemLength, SuffixLength, FindAll, IsPseudonym;
    StemAhead(u, ['-', digit]);
    SuffixOfDigit(digit);
    OneMatch(u + ['-', digit]);
  }

  lemma OneMatch(v: string)
    requires MatchLength(v) == |v| > 0
    ensures FindAll(v) == [v]
  {
    hide MatchLength, FindAll;
    FindStep(v);
    assert v[..|v|] == v && v[|v|..] == "";
    NothingFound();
  }

  lemma StemAhead(u: string, end: string)
    requires IsPseudonym(u) && !Suffixed(u)
    ensures StemLength(u + end) == |u| > 0 && (u + end)[|u|..] == end
  {
    SuffixedIs(u);
    StemPrefix(u + end, u);
  }

  /** And with it the round trip succeeds: a token followed by anything its suffix would not take, a
      hyphen and a letter for one, is restored, and counted. */
  lemma UnswallowedIsRestored(u: string, original: string, following: string)
    requires IsPseudonym(u) && !Suffixed(u)
    requires |following| < 2 || following[0] != '-' || !IsDigit(following[1])
    requires !HasMark(original + following)
    ensures Resolvable(u + following, map[u := original]) == {u}
    ensures Restore(u + following, map[u := original], [u]) == Restoration(original + following, 1, 0)
  {
    hide IsPseudonym, HasMark, FindAll, ReplaceSeq;
    var ps, m := [Tok(u), Lit(following)], map[u := original];
    OneTokenText(u, following, map[], {});
    OneTokenText(u, following, m, m.Keys);
    FreshWhenNoMark(ps, m);
    OneTokenClean(u, following, m);
    FindKnown(ps, m);
    assert Tokens(ps) * m.Keys == {u} && Tokens(ps) - m.Keys == {};
    RestoreExact(ps, m, [u]);
  }

  lemma LastLit(end: string, m: map<string, string>, done: set<string>)
    requires done <= m.Keys
    ensures Text([Lit(end)], m, done) == end && Tokens([Lit(end)]) == {}
  {
    assert [Lit(end)][1..] == [] && end + "" == end;
    assert Text([], m, done) == "";
  }

  lemma OneTokenText(u: string, following: string, m: map<string, string>, done: set<string>)
    requires done <= m.Keys
    ensures var ps := [Tok(u), Lit(following)];
            Text(ps, m, done) == (if u in done then m[u] else u) + following && Tokens(ps) == {u}
  {
    var ps, last := [Tok(u), Lit(following)], [Lit(following)];
    assert ps[1..] == last;
    LastLit(following, m, done);
  }

  lemma OneTokenClean(u: string, following: string, m: map<string, string>)
    requires !ReadOn(u, following)
    ensures Clean([Tok(u), Lit(following)], m)
  {
    hide ReadOn;
    var ps, last := [Tok(u), Lit(following)], [Lit(following)];
    assert ps[1..] == last;
    LastLit(following, m, m.Keys);
    assert last[1..] == [] && Clean(last, m);
  }
}
