/** The sealed-token envelope restore handles and vault-explorer references share: bucket padding,
    authenticated encryption, unpadded base64url and a prefix. The AEAD is idealised as the table of
    what was sealed under the key: it opens exactly those envelopes, to exactly those plaintexts. */
module Sealing {
  import opened Wrappers
  import opened Base64Url
  import opened Octets
  import opened Json
  import opened Ordering
  import opened Seqs
  import Utf8

  const BUCKET := 256
  const NONCE_BYTES := 12

  /** nonce and ciphertext together, to the plaintext sealed in them */
  type Table = map<seq<Byte>, seq<Byte>>

  type Payload = map<string, JValue>

  /** `payload.get(key)`; a missing key and a null are told apart by none of the checks. */
  function Get(m: Payload, key: string): JValue { if key in m then m[key] else JNull }

  // ----- padding -----

  function Zeros(n: nat): (s: string)
    ensures |s| == n && forall i :: 0 <= i < n ==> s[i] == '0'
  {
    seq(n, _ => '0')
  }

  function WithPad(payload: Payload, n: nat): Payload { payload["pad" := JString(Zeros(n))] }

  function Encoded(payload: Payload): seq<Byte> { Utf8.Encode(CanonicalJson(payload)) }

  function PadLength(payload: Payload): nat {
    var remainder := |Encoded(WithPad(payload, 0))| % BUCKET;
    if remainder == 0 then 0 else BUCKET - remainder
  }

  /** What is sealed for `payload`. */
  function Padded(payload: Payload): seq<Byte> { Encoded(WithPad(payload, PadLength(payload))) }

  /** `_pad_to_bucket`, which both modules define. */
  method PadToBucket(payload: Payload) returns (plaintext: seq<Byte>)
    ensures plaintext == Padded(payload)
  {
    hide Encoded;
    assert Zeros(0) == "";
    var unpadded := payload;
    unpadded := unpadded["pad" := JString("")];
    assert unpadded == WithPad(payload, 0);
    var baseLength := |Encoded(unpadded)|;
    var remainder := baseLength % BUCKET;
    var padLength := if remainder == 0 then 0 else BUCKET - remainder;
    unpadded := unpadded["pad" := JString(Zeros(padLength))];
    assert unpadded == WithPad(payload, padLength);
    plaintext := Encoded(unpadded);
  }

  function ByteLength(s: string): nat { |Utf8.Encode(s)| }

  lemma ByteLengthAppend(s: string, t: string)
    ensures ByteLength(s + t) == ByteLength(s) + ByteLength(t)
  {
    Utf8.EncodeAppend(s, t);
  }

  lemma {:induction false} ZerosLength(n: nat)
    ensures ByteLength(FlatMap(Escape, Zeros(n))) == n
    decreases n
  {
    if n > 0 {
      ZerosLength(n - 1);
      assert Zeros(n)[1..] == Zeros(n - 1);
      assert FlatMap(Escape, Zeros(n)) == "0" + FlatMap(Escape, Zeros(n - 1));
      ByteLengthAppend("0", FlatMap(Escape, Zeros(n - 1)));
      FlatMapOne(Utf8.EncodeChar, '0');
    }
  }

  function PadField(n: nat): Field { Field("pad", JString(Zeros(n))) }

  lemma PadFieldLength(n: nat)
    ensures ByteLength(PrintField(PadField(n))) == ByteLength(PrintField(PadField(0))) + n
  {
    var k := Quote("pad") + ":";
    PadFieldText(n, k);
    PadFieldText(0, k);
  }

  lemma PadFieldText(n: nat, k: string)
    requires k == Quote("pad") + ":"
    ensures ByteLength(PrintField(PadField(n))) == ByteLength(k) + ByteLength("\"") + n + ByteLength("\"")
  {
    var z := FlatMap(Escape, Zeros(n));
    ZerosLength(n);
    assert PrintField(PadField(n)) == k + (("\"" + z) + "\"");
    ByteLengthAppend(k, ("\"" + z) + "\"");
    ByteLengthAppend("\"" + z, "\"");
    ByteLengthAppend("\"", z);
  }

  /** Replacing one field changes the length by the difference of the two fields. */
  lemma {:induction false} FieldChange(fields: seq<Field>, k: nat, f: Field)
    requires k < |fields|
    ensures ByteLength(PrintFields(fields[k := f])) + ByteLength(PrintField(fields[k]))
         == ByteLength(PrintFields(fields)) + ByteLength(PrintField(f))
  {
    var changed := fields[k := f];
    if |fields| > 1 {
      ConsLength(fields);
      ConsLength(changed);
      if k == 0 {
        assert changed[1..] == fields[1..];
      } else {
        FieldChange(fields[1..], k - 1, f);
        assert changed[1..] == fields[1..][k - 1 := f];
      }
    }
  }

  lemma ConsLength(fields: seq<Field>)
    requires |fields| > 1
    ensures ByteLength(PrintFields(fields))
         == ByteLength(PrintField(fields[0])) + ByteLength(",") + ByteLength(PrintFields(fields[1..]))
  {
    ByteLengthAppend(PrintField(fields[0]) + ",", PrintFields(fields[1..]));
    ByteLengthAppend(PrintField(fields[0]), ",");
  }

  lemma ObjectLength(fields: seq<Field>)
    ensures ByteLength(Print(JObject(fields))) == ByteLength("{") + ByteLength(PrintFields(fields)) + ByteLength("}")
  {
    ByteLengthAppend("{" + PrintFields(fields), "}");
    ByteLengthAppend("{", PrintFields(fields));
  }

  /** Every pad character adds one byte, wherever the key order puts the pad. */
  lemma PadGrows(payload: Payload, n: nat)
    ensures |Encoded(WithPad(payload, n))| == |Encoded(WithPad(payload, 0))| + n
  {
    hide PrintFields, PrintField, FlatMap, LeastKey;
    var empty, full := WithPad(payload, 0), WithPad(payload, n);
    var keys := SortedKeys(empty.Keys);
    assert full.Keys == empty.Keys && "pad" in empty.Keys;
    var k :| 0 <= k < |keys| && keys[k] == "pad";
    var fields := FieldsOver(keys, empty);
    PadOnlyChange(payload, keys, k, n);
    FieldChange(fields, k, PadField(n));
    PadFieldLength(n);
    ObjectLength(fields);
    ObjectLength(fields[k := PadField(n)]);
  }

  lemma PadOnlyChange(payload: Payload, keys: seq<string>, k: nat, n: nat)
    requires StrictlySorted(keys) && k < |keys| && keys[k] == "pad"
    requires forall key :: key in keys ==> key in WithPad(payload, 0) && key in WithPad(payload, n)
    ensures FieldsOver(keys, WithPad(payload, n)) == FieldsOver(keys, WithPad(payload, 0))[k := PadField(n)]
  {
    hide Zeros;
    forall i | 0 <= i < |keys|
      ensures FieldsOver(keys, WithPad(payload, n))[i] == FieldsOver(keys, WithPad(payload, 0))[k := PadField(n)][i]
    {
      assert keys[i] in keys;
      if i != k { assert StringLess(keys[i], keys[k]) || StringLess(keys[k], keys[i]); }
    }
  }

  /** The plaintext length is the least multiple of the bucket that holds the unpadded encoding, so
      it says no more than which bucket the content falls in. */
  lemma PaddingIsTight(payload: Payload)
    ensures var n, base := |Padded(payload)|, |Encoded(WithPad(payload, 0))|;
            n % 256 == 0 && base <= n && forall m: nat :: m % 256 == 0 && base <= m ==> n <= m
  {
    hide Encoded;
    PadGrows(payload, PadLength(payload));
    var n, base := |Padded(payload)|, |Encoded(WithPad(payload, 0))|;
    NextMultiple(base, n);
  }

  lemma NextMultiple(base: nat, n: nat)
    requires n == base + (if base % BUCKET == 0 then 0 else BUCKET - base % BUCKET)
    ensures n % BUCKET == 0 && forall m: nat :: m % BUCKET == 0 && base <= m ==> n <= m
  {
  }

  // ----- the envelope -----

  function Token(prefix: string, raw: seq<Byte>): string {
    prefix + "." + Encode(raw)
  }

  /** `partition(".")`: before the first dot, and after it. */
  function PartitionDot(s: string): (string, string) {
    if |s| == 0 then ("", "")
    else if s[0] == '.' then ("", s[1..])
    else var (a, b) := PartitionDot(s[1..]); ([s[0]] + a, b)
  }

  /** What a presented token decrypts and parses to; `None` stands for every structural, tag or
      parse failure. */
  function Unseal(table: Table, prefix: string, token: string): Option<JValue> {
    var (p, blob) := PartitionDot(token);
    if blob == "" || p != prefix then None
    else
      match Decode(blob)
      case None => None
      case Some(raw) =>
        if |raw| <= NONCE_BYTES || raw !in table then None
        else
          match Utf8.Decode(table[raw])
          case None => None
          case Some(text) => Loads(text)
  }

  lemma {:induction false} PartitionToken(prefix: string, blob: string)
    requires '.' !in prefix
    ensures PartitionDot(prefix + "." + blob) == (prefix, blob)
  {
    var s := prefix + "." + blob;
    if |prefix| == 0 {
      assert s[0] == '.' && s[1..] == blob;
    } else {
      assert s[0] == prefix[0] && s[1..] == prefix[1..] + "." + blob;
      PartitionToken(prefix[1..], blob);
      assert prefix == [prefix[0]] + prefix[1..];
    }
  }

  /** A token opens to the payload sealed in it, whatever else has been sealed since. */
  lemma UnsealSealed(table: Table, prefix: string, raw: seq<Byte>, payload: Payload)
    requires '.' !in prefix && |raw| > NONCE_BYTES && raw in table && table[raw] == Padded(payload)
    ensures Unseal(table, prefix, Token(prefix, raw)) == Some(JObject(SortedFields(WithPad(payload, PadLength(payload)))))
  {
    PartitionToken(prefix, Encode(raw));
    Base64Url.RoundTrip(raw);
    EncodedLength(raw);
    Utf8.RoundTrip(CanonicalJson(WithPad(payload, PadLength(payload))));
    CanonicalRoundTrip(WithPad(payload, PadLength(payload)));
  }

  /** A presented text carries an envelope: the prefix, a dot and its base64url form. */
  predicate Carries(prefix: string, token: string, raw: seq<Byte>) {
    && |token| > |prefix| && token[..|prefix|] == prefix && token[|prefix|] == '.'
    && Decode(token[|prefix| + 1..]) == Some(raw)
  }

  /** What an envelope in the table opens to. */
  ghost predicate Holds(table: Table, raw: seq<Byte>, v: JValue) {
    |raw| > 12 && raw in table && exists text :: table[raw] == Utf8.Encode(text) && Loads(text) == Some(v)
  }

  lemma {:induction false} PartitionJoins(s: string)
    ensures var (a, b) := PartitionDot(s);
            '.' !in a && (if '.' in s then s == a + "." + b else a == s && b == "")
  {
    if |s| > 0 && s[0] != '.' {
      PartitionJoins(s[1..]);
      assert s == [s[0]] + s[1..];
    }
  }

  /** Nothing opens but an envelope that was sealed, presented under the prefix, and that opens to what
      was sealed in it; and every such envelope opens. */
  lemma UnsealOnlySealed(table: Table, prefix: string, token: string, v: JValue)
    requires '.' !in prefix
    ensures Unseal(table, prefix, token) == Some(v)
       <==> exists raw :: Carries(prefix, token, raw) && Holds(table, raw, v)
  {
    hide Decode, Utf8.Decode, Utf8.Encode, Loads, PartitionDot;
    PartitionJoins(token);
    var (p, blob) := PartitionDot(token);
    if Unseal(table, prefix, token) == Some(v) {
      var raw := Decode(blob).value;
      assert token[|prefix| + 1..] == blob;
      Utf8.DecodeStrict(table[raw]);
      assert Carries(prefix, token, raw) && Holds(table, raw, v);
    }
    if raw :| Carries(prefix, token, raw) && Holds(table, raw, v) {
      assert token == prefix + "." + token[|prefix| + 1..];
      PartitionToken(prefix, token[|prefix| + 1..]);
      var text :| table[raw] == Utf8.Encode(text) && Loads(text) == Some(v);
      Utf8.RoundTrip(text);
      DecodeNothing();
    }
  }

  lemma DecodeNothing()
    ensures Decode("") == Some([])
  {
  }

  /** The number of buckets the unpadded encoding takes. */
  function Buckets(payload: Payload): nat { (|Encoded(WithPad(payload, 0))| + 255) / 256 }

  /** Two payloads of the same number of buckets give tokens of the same length. */
  lemma TokenLength(prefix: string, raw: seq<Byte>, payload: Payload, other: seq<Byte>, otherPayload: Payload)
    requires |raw| == 12 + |Padded(payload)| + 16
    requires |other| == 12 + |Padded(otherPayload)| + 16
    requires Buckets(payload) == Buckets(otherPayload)
    ensures |Token(prefix, raw)| == |Token(prefix, other)|
  {
    hide Encoded, Encode;
    PaddedInBuckets(payload);
    PaddedInBuckets(otherPayload);
    EncodedLength(raw);
    EncodedLength(other);
  }

  lemma PaddedInBuckets(payload: Payload)
    ensures |Padded(payload)| == 256 * Buckets(payload)
  {
    hide Encoded;
    PadGrows(payload, PadLength(payload));
    RoundUp(|Encoded(WithPad(payload, 0))|);
  }

  lemma RoundUp(base: nat)
    ensures base + (if base % BUCKET == 0 then 0 else BUCKET - base % BUCKET) == BUCKET * ((base + BUCKET - 1) / BUCKET)
  {
  }
}
