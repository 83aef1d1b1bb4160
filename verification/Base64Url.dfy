/** Base64 with the URL-safe alphabet (section 5 of RFC 4648), without its padding, as the three
    token formats use it: encode and strip `=`, re-pad with `-len % 4` and decode. */
module Base64Url {
  import opened Octets
  import opened Wrappers

  type Sextet = x: int | 0 <= x < 64

  // ----- bytes and sextets -----

  /** The 6-bit groups of a byte sequence, the last one completed with zero bits. */
  function Sextets(raw: seq<Byte>): (v: seq<Sextet>)
    ensures |v| == |raw| / 3 * 4 + (if |raw| % 3 == 0 then 0 else |raw| % 3 + 1)
  {
    if |raw| == 0 then []
    else if |raw| == 1 then [raw[0] / 4, raw[0] % 4 * 16]
    else if |raw| == 2 then [raw[0] / 4, raw[0] % 4 * 16 + raw[1] / 16, raw[1] % 16 * 4]
    else [raw[0] / 4, raw[0] % 4 * 16 + raw[1] / 16, raw[1] % 16 * 4 + raw[2] / 64, raw[2] % 64]
         + Sextets(raw[3..])
  }

  /** The bytes 6-bit groups stand for; left-over bits are dropped. */
  function Bytes(v: seq<Sextet>): seq<Byte> {
    if |v| < 2 then []
    else if |v| == 2 then [Byte0(v[0], v[1])]
    else if |v| == 3 then [Byte0(v[0], v[1]), Byte1(v[1], v[2])]
    else [Byte0(v[0], v[1]), Byte1(v[1], v[2]), Byte2(v[2], v[3])] + Bytes(v[4..])
  }

  function Byte0(v: int, w: int): Byte
    requires 0 <= v < 64 && 0 <= w < 64
  {
    v * 4 + w / 16
  }

  function Byte1(v: int, w: int): Byte
    requires 0 <= v < 64 && 0 <= w < 64
  {
    v % 16 * 16 + w / 4
  }

  function Byte2(v: int, w: int): Byte
    requires 0 <= v < 64 && 0 <= w < 64
  {
    v % 4 * 64 + w
  }

  lemma {:induction false} BytesOfSextets(raw: seq<Byte>)
    ensures Bytes(Sextets(raw)) == raw
  {
    if 0 < |raw| <= 2 {
      BytesOfShort(raw[0], raw[|raw| - 1]);
      assert raw == if |raw| == 1 then [raw[0]] else [raw[0], raw[|raw| - 1]];
    } else if |raw| > 2 {
      var a, b, c := raw[0], raw[1], raw[2];
      BytesOfSextets(raw[3..]);
      BytesOfQuantum(a, b, c, Sextets(raw[3..]));
      assert [a, b, c] + raw[3..] == raw;
    }
  }

  lemma BytesOfQuantum(a: Byte, b: Byte, c: Byte, v: seq<Sextet>)
    ensures Bytes([a / 4, a % 4 * 16 + b / 16, b % 16 * 4 + c / 64, c % 64] + v) == [a, b, c] + Bytes(v)
  {
    ByteInverse(a, b, c);
    BytesStep([a / 4, a % 4 * 16 + b / 16, b % 16 * 4 + c / 64, c % 64], v);
  }

  lemma BytesOfShort(a: Byte, b: Byte)
    ensures Bytes(Sextets([a])) == [a]
    ensures Bytes(Sextets([a, b])) == [a, b]
  {
    ByteInverse(a, b, 0);
    BytesOfTwo(a / 4, a % 4 * 16);
    assert Sextets([a]) == [a / 4, a % 4 * 16];
    BytesOfThree(a / 4, a % 4 * 16 + b / 16, b % 16 * 4);
    assert Sextets([a, b]) == [a / 4, a % 4 * 16 + b / 16, b % 16 * 4];
  }

  lemma BytesOfTwo(v: Sextet, w: Sextet)
    ensures Bytes([v, w]) == [Byte0(v, w)]
  {
  }

  lemma BytesOfThree(v: Sextet, w: Sextet, x: Sextet)
    ensures Bytes([v, w, x]) == [Byte0(v, w), Byte1(w, x)]
  {
  }

  lemma ByteInverse(a: Byte, b: Byte, c: Byte)
    ensures Byte0(a / 4, a % 4 * 16 + b / 16) == a
    ensures Byte1(a % 4 * 16 + b / 16, b % 16 * 4 + c / 64) == b
    ensures Byte2(b % 16 * 4 + c / 64, c % 64) == c
  {
  }

  lemma BytesStep(q: seq<Sextet>, v: seq<Sextet>)
    requires |q| == 4
    ensures Bytes(q + v) == [Byte0(q[0], q[1]), Byte1(q[1], q[2]), Byte2(q[2], q[3])] + Bytes(v)
  {
    assert (q + v)[4..] == v;
  }

  lemma SextetCount(raw: seq<Byte>)
    ensures |Sextets(raw)| % 4 != 1
  {
    var v := |Sextets(raw)|;
    assert v == |raw| / 3 * 4 || v == |raw| / 3 * 4 + 2 || v == |raw| / 3 * 4 + 3;
  }

  // ----- sextets and characters -----

  function Digit(v: Sextet): (c: char)
    ensures c !in {'=', '+', '/', '.'}
    ensures IsDigit(c) && DigitValue(c) == v
  {
    if v < 26 then 'A' + (v as char)
    else if v < 52 then 'a' + ((v - 26) as char)
    else if v < 62 then '0' + ((v - 52) as char)
    else if v == 62 then '-'
    else '_'
  }

  predicate IsDigit(c: char) {
    'A' <= c <= 'Z' || 'a' <= c <= 'z' || '0' <= c <= '9' || c == '-' || c == '_' || c == '+' || c == '/'
  }

  /** The decoder first maps `-_` to `+/`, so both spellings of 62 and 63 are read. */
  function DigitValue(c: char): Sextet
    requires IsDigit(c)
  {
    if 'A' <= c <= 'Z' then c as int - 'A' as int
    else if 'a' <= c <= 'z' then c as int - 'a' as int + 26
    else if '0' <= c <= '9' then c as int - '0' as int + 52
    else if c == '-' || c == '+' then 62
    else 63
  }

  /** The alphabet by character codes: upper case, lower case, digits, hyphen and low line; decoding reads
      plus and slash besides, for the last two. */
  lemma Alphabet(v: Sextet, c: char)
    ensures Digit(v) as int == if v < 26 then 65 + v else if v < 52 then 71 + v else if v < 62 then v - 4
                               else if v == 62 then 45 else 95
    ensures IsDigit(c) <==> c == '+' || c == '/' || exists w: Sextet :: Digit(w) == c
    ensures DigitValue('+') == 62 && DigitValue('/') == 63
  {
    if IsDigit(c) && c != '+' && c != '/' { assert Digit(DigitValue(c)) == c; }
  }

  function Digits(v: seq<Sextet>): (s: string)
    ensures |s| == |v| && forall i :: 0 <= i < |v| ==> s[i] == Digit(v[i])
  {
    seq(|v|, i requires 0 <= i < |v| => Digit(v[i]))
  }

  function Values(s: string): (v: seq<Sextet>)
    requires forall i :: 0 <= i < |s| ==> IsDigit(s[i])
    ensures |v| == |s| && forall i :: 0 <= i < |s| ==> v[i] == DigitValue(s[i])
  {
    seq(|s|, i requires 0 <= i < |s| => DigitValue(s[i]))
  }

  function Pads(n: nat): (s: string)
    ensures |s| == n && forall i :: 0 <= i < n ==> s[i] == '='
  {
    seq(n, _ => '=')
  }

  // ----- the codec -----

  /** `base64.urlsafe_b64encode`: whole quanta of four characters. */
  function EncodePadded(raw: seq<Byte>): (s: string)
    ensures |s| % 4 == 0
  {
    PaddedDigits(Sextets(raw))
  }

  function PaddedDigits(v: seq<Sextet>): (s: string)
    ensures |s| % 4 == 0
  {
    Digits(v) + Pads(-|v| % 4)
  }

  /** `rstrip(b"=")`. */
  function StripPad(s: string): (t: string)
    ensures t <= s && (t == "" || t[|t| - 1] != '=')
    ensures forall i :: |t| <= i < |s| ==> s[i] == '='
  {
    if |s| > 0 && s[|s| - 1] == '=' then StripPad(s[..|s| - 1]) else s
  }

  /** `base64.urlsafe_b64decode` on well-formed input; anything else is an error here. */
  function DecodePadded(s: string): Option<seq<Byte>> {
    var t := StripPad(s);
    if |s| % 4 != 0 || |s| - |t| > 2 || !(forall i :: 0 <= i < |t| ==> IsDigit(t[i])) then None
    else Some(Bytes(Values(t)))
  }

  function Encode(raw: seq<Byte>): string {
    StripPad(EncodePadded(raw))
  }

  /** `segment + "=" * (-len(segment) % 4)`, decoded. */
  function Decode(segment: string): Option<seq<Byte>> {
    DecodePadded(segment + Pads(-|segment| % 4))
  }

  lemma StripPads(s: string, n: nat)
    requires s == "" || s[|s| - 1] != '='
    ensures StripPad(s + Pads(n)) == s
  {
    var p, t := s + Pads(n), StripPad(s + Pads(n));
    assert forall i :: 0 <= i < |s| ==> p[i] == s[i];
    assert forall i :: |s| <= i < |p| ==> p[i] == '=';
    assert forall i :: 0 <= i < |t| ==> t[i] == p[i];
    assert |t| == |s|;
  }

  /** Stripping removes exactly the padding, and what is left determines the bytes. */
  lemma EncodeIsDigits(raw: seq<Byte>)
    ensures Encode(raw) == Digits(Sextets(raw))
  {
    StripDigits(Sextets(raw));
  }

  lemma StripDigits(v: seq<Sextet>)
    ensures StripPad(PaddedDigits(v)) == Digits(v)
  {
    StripPads(Digits(v), -|v| % 4);
  }

  lemma DecodeDigits(v: seq<Sextet>)
    requires |v| % 4 != 1
    ensures Decode(Digits(v)) == Some(Bytes(v))
  {
    hide DecodePadded, Bytes;
    var n := -|v| % 4;
    PadCount(|v|);
    DecodeStripped(Digits(v), n);
    ValuesOfDigits(v);
  }

  lemma PadCount(n: int)
    requires n % 4 != 1
    ensures 0 <= -n % 4 <= 2 && (n + -n % 4) % 4 == 0
  {
  }

  lemma ValuesOfDigits(v: seq<Sextet>)
    ensures Values(Digits(v)) == v
  {
  }

  lemma DecodeStripped(s: string, n: nat)
    requires n <= 2 && (|s| + n) % 4 == 0
    requires forall i :: 0 <= i < |s| ==> IsDigit(s[i])
    ensures DecodePadded(s + Pads(n)) == Some(Bytes(Values(s)))
  {
    StripPads(s, n);
  }

  /** What is decoded exactly: digits, and not one more than whole quanta. */
  lemma DecodesExactly(s: string)
    requires '=' !in s
    ensures Decode(s) == if |s| % 4 != 1 && forall i :: 0 <= i < |s| ==> IsDigit(s[i]) then Some(Bytes(Values(s))) else None
  {
    hide Bytes, Values, IsDigit;
    var n := -|s| % 4;
    StripPads(s, n);
    PadsNeeded(|s|);
  }

  lemma PadsNeeded(n: int)
    ensures (n + -n % 4) % 4 == 0 && (-n % 4 > 2 <==> n % 4 == 1)
  {
  }

  /** Unpadded base64url round-trips every byte sequence: `-len % 4` pads always complete the last
      quantum, and at most two are ever needed. */
  lemma RoundTrip(raw: seq<Byte>)
    ensures Decode(Encode(raw)) == Some(raw)
  {
    EncodeIsDigits(raw);
    SextetCount(raw);
    DecodeDigits(Sextets(raw));
    BytesOfSextets(raw);
  }

  /** No encoded segment holds a dot, so the dots of a token are exactly its separators. */
  lemma NoDot(raw: seq<Byte>)
    ensures '.' !in Encode(raw)
  {
    EncodeIsDigits(raw);
  }

  /** The encoded length is a function of the number of bytes alone. */
  lemma EncodedLength(raw: seq<Byte>)
    ensures |Encode(raw)| == |raw| / 3 * 4 + (if |raw| % 3 == 0 then 0 else |raw| % 3 + 1)
  {
    EncodeIsDigits(raw);
  }
}
