/** UTF-8 (RFC 3629) over Unicode scalar values: `str.encode("utf-8")` and the strict decoder. */
module Utf8 {
  import opened Wrappers
  import opened Octets
  import opened Seqs

  function EncodeChar(c: char): (b: seq<Byte>)
    ensures 1 <= |b| <= 4
    ensures c < 0x80 as char ==> b == [c as int]
  {
    var n := c as int;
    if n < 0x80 then [n]
    else if n < 0x800 then [0xC0 + n / 64, 0x80 + n % 64]
    else if n < 0x10000 then [0xE0 + n / 4096, 0x80 + n / 64 % 64, 0x80 + n % 64]
    else [0xF0 + n / 262144, 0x80 + n / 4096 % 64, 0x80 + n / 64 % 64, 0x80 + n % 64]
  }

  function Encode(s: string): seq<Byte> {
    FlatMap(EncodeChar, s)
  }

  predicate IsContinuation(b: int) { 0x80 <= b < 0xC0 }

  predicate IsScalar(n: int) { 0 <= n < 0xD800 || 0xE000 <= n < 0x110000 }

  /** The first character of `b` and the number of bytes it takes; overlong forms, surrogates and
      values past the last code point are refused. */
  function DecodeChar(b: seq<int>): (r: Option<(char, nat)>)
    ensures r.Some? ==> 1 <= r.value.1 <= |b|
  {
    if |b| == 0 then None
    else if 0 <= b[0] < 0x80 then Some((b[0] as char, 1))
    else if b[0] < 0xC0 then None
    else if b[0] < 0xE0 then
      if |b| < 2 || !IsContinuation(b[1]) then None
      else Accept((b[0] - 0xC0) * 64 + (b[1] - 0x80), 0x80, 2)
    else if b[0] < 0xF0 then
      if |b| < 3 || !IsContinuation(b[1]) || !IsContinuation(b[2]) then None
      else Accept((b[0] - 0xE0) * 4096 + (b[1] - 0x80) * 64 + (b[2] - 0x80), 0x800, 3)
    else if b[0] < 0xF8 then
      if |b| < 4 || !IsContinuation(b[1]) || !IsContinuation(b[2]) || !IsContinuation(b[3]) then None
      else Accept((b[0] - 0xF0) * 262144 + (b[1] - 0x80) * 4096 + (b[2] - 0x80) * 64 + (b[3] - 0x80), 0x10000, 4)
    else None
  }

  function Accept(n: int, least: int, length: nat): (r: Option<(char, nat)>)
    ensures r.Some? ==> r.value.1 == length
  {
    if n < least || !IsScalar(n) then None else Some((n as char, length))
  }

  function Decode(b: seq<Byte>): Option<string> {
    if |b| == 0 then Some("")
    else
      match DecodeChar(b)
      case None => None
      case Some((c, k)) =>
        match Decode(b[k..])
        case None => None
        case Some(rest) => Some([c] + rest)
  }

  lemma DecodeEncodeChar(c: char, rest: seq<Byte>)
    ensures DecodeChar(EncodeChar(c) + rest) == Some((c, |EncodeChar(c)|))
  {
    var n := c as int;
    if 0x80 <= n < 0x800 {
      DecodeTwo(n / 64, n % 64);
    } else if 0x800 <= n < 0x10000 {
      JoinThree(n);
      DecodeThree(n / 4096, n / 64 % 64, n % 64);
    } else if 0x10000 <= n {
      JoinFour(n);
      DecodeFour(n / 262144, n / 4096 % 64, n / 64 % 64, n % 64);
    }
    assert DecodeChar(EncodeChar(c)) == Some((c, |EncodeChar(c)|));
    DecodePrefix(EncodeChar(c), rest);
  }

  lemma JoinThree(n: nat)
    ensures n / 4096 * 4096 + n / 64 % 64 * 64 + n % 64 == n
  {
  }

  lemma JoinFour(n: nat)
    ensures n / 262144 * 262144 + n / 4096 % 64 * 4096 + n / 64 % 64 * 64 + n % 64 == n
  {
    JoinThree(n);
    JoinThree(n / 64);
    assert n / 64 / 4096 == n / 262144 && n / 64 / 64 == n / 4096;
  }

  lemma DecodeTwo(x: int, y: int)
    requires 2 <= x < 32 && 0 <= y < 64
    ensures DecodeChar([0xC0 + x, 0x80 + y]) == Accept(x * 64 + y, 0x80, 2)
  {
  }

  lemma DecodeThree(x: int, y: int, z: int)
    requires 0 <= x < 16 && 0 <= y < 64 && 0 <= z < 64
    ensures DecodeChar([0xE0 + x, 0x80 + y, 0x80 + z]) == Accept(x * 4096 + y * 64 + z, 0x800, 3)
  {
  }

  lemma DecodeFour(w: int, x: int, y: int, z: int)
    requires 0 <= w < 8 && 0 <= x < 64 && 0 <= y < 64 && 0 <= z < 64
    ensures DecodeChar([0xF0 + w, 0x80 + x, 0x80 + y, 0x80 + z])
         == Accept(w * 262144 + x * 4096 + y * 64 + z, 0x10000, 4)
  {
  }

  lemma DecodePrefix(b: seq<Byte>, rest: seq<Byte>)
    requires DecodeChar(b).Some?
    ensures DecodeChar(b + rest) == DecodeChar(b)
  {
  }

  /** Decoding undoes encoding, for every string without lone surrogates. */
  lemma {:induction false} RoundTrip(s: string)
    ensures Decode(Encode(s)) == Some(s)
  {
    if |s| > 0 {
      var head, tail := EncodeChar(s[0]), Encode(s[1..]);
      DecodeEncodeChar(s[0], tail);
      assert (head + tail)[|head|..] == tail;
      RoundTrip(s[1..]);
      assert [s[0]] + s[1..] == s;
    }
  }

  /** And encoding undoes decoding: only what encoding gives is accepted, so that no text has a second
      spelling in bytes. */
  lemma {:induction false} DecodeStrict(b: seq<Byte>)
    ensures Decode(b).Some? ==> Encode(Decode(b).value) == b
  {
    if Decode(b).Some? && |b| > 0 {
      var (c, k) := DecodeChar(b).value;
      DecodeStrict(b[k..]);
      EncodeDecoded(b);
      hide DecodeChar, EncodeChar;
      assert ([c] + Decode(b[k..]).value)[1..] == Decode(b[k..]).value;
      assert b == b[..k] + b[k..];
    }
  }

  lemma EncodeDecoded(b: seq<Byte>)
    requires DecodeChar(b).Some?
    ensures EncodeChar(DecodeChar(b).value.0) == b[..DecodeChar(b).value.1]
  {
    if b[0] < 0x80 {
      assert b[..1] == [b[0]];
    } else if b[0] < 0xE0 {
      JoinedTwo(b[0] - 0xC0, b[1] - 0x80);
      assert b[..2] == [b[0], b[1]];
    } else if b[0] < 0xF0 {
      EncodeThree(b[0] - 0xE0, b[1] - 0x80, b[2] - 0x80);
      assert b[..3] == [b[0], b[1], b[2]];
    } else {
      EncodeFour(b[0] - 0xF0, b[1] - 0x80, b[2] - 0x80, b[3] - 0x80);
      assert b[..4] == [b[0], b[1], b[2], b[3]];
    }
  }

  lemma EncodeThree(x: int, y: int, z: int)
    requires 0 <= x && 0 <= y < 64 && 0 <= z < 64
    requires var n := x * 4096 + y * 64 + z; 0x800 <= n < 0x10000 && IsScalar(n)
    ensures EncodeChar((x * 4096 + y * 64 + z) as char) == [0xE0 + x, 0x80 + y, 0x80 + z]
  {
    JoinedThree(x, y, z);
  }

  lemma EncodeFour(w: int, x: int, y: int, z: int)
    requires 0 <= w && 0 <= x < 64 && 0 <= y < 64 && 0 <= z < 64
    requires 0x10000 <= w * 262144 + x * 4096 + y * 64 + z < 0x110000
    ensures EncodeChar((w * 262144 + x * 4096 + y * 64 + z) as char) == [0xF0 + w, 0x80 + x, 0x80 + y, 0x80 + z]
  {
    JoinedFour(w, x, y, z);
  }

  lemma JoinedTwo(x: int, y: int)
    requires 0 <= y < 64
    ensures (x * 64 + y) / 64 == x && (x * 64 + y) % 64 == y
  {
  }

  lemma JoinedThree(x: int, y: int, z: int)
    requires 0 <= x && 0 <= y < 64 && 0 <= z < 64
    ensures var n := x * 4096 + y * 64 + z; n / 4096 == x && n / 64 % 64 == y && n % 64 == z
  {
    JoinedTwo(x, y);
    JoinedTwo(x * 64 + y, z);
    assert x * 4096 + y * 64 + z == (x * 64 + y) * 64 + z;
  }

  lemma JoinedFour(w: int, x: int, y: int, z: int)
    requires 0 <= w && 0 <= x < 64 && 0 <= y < 64 && 0 <= z < 64
    ensures var n := w * 262144 + x * 4096 + y * 64 + z;
            n / 262144 == w && n / 4096 % 64 == x && n / 64 % 64 == y && n % 64 == z
  {
    var n := w * 262144 + x * 4096 + y * 64 + z;
    JoinedThree(w, x, y);
    JoinedTwo(w * 4096 + x * 64 + y, z);
    assert n == (w * 4096 + x * 64 + y) * 64 + z && n / 64 == w * 4096 + x * 64 + y;
    assert n / 262144 == n / 64 / 4096 && n / 4096 == n / 64 / 64;
  }

  lemma EncodeAppend(s: string, t: string)
    ensures Encode(s + t) == Encode(s) + Encode(t)
  {
    FlatMapAppend(EncodeChar, s, t);
  }
}
