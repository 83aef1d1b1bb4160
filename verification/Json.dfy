/** JSON text as this system writes it (`json.dumps` with sorted keys, compact separators and
    `ensure_ascii=False`) and as `json.loads` reads it back (RFC 8259). */
module Json {
  import opened Wrappers
  import opened Ordering
  import opened Seqs

  datatype JValue =
    | JNull
    | JBool(b: bool)
    | JInt(n: int)
    | JString(s: string)
    | JArray(items: seq<JValue>)
    | JObject(fields: seq<Field>)

  datatype Field = Field(key: string, value: JValue)

  /** `isinstance(value, int)`, which a boolean satisfies too. */
  predicate IsInt(v: JValue) { v.JInt? || v.JBool? }

  function Number(v: JValue): int
    requires IsInt(v)
  {
    match v case JInt(n) => n case JBool(b) => if b then 1 else 0
  }

  // ----- strings -----

  function HexDigit(v: int): (c: char)
    requires 0 <= v < 16
    ensures HexValue(c) == Some(v)
  {
    if v < 10 then '0' + (v as char) else 'a' + ((v - 10) as char)
  }

  function HexValue(c: char): (r: Option<int>)
    ensures r.Some? ==> 0 <= r.value < 16
  {
    if '0' <= c <= '9' then Some(c as int - '0' as int)
    else if 'a' <= c <= 'f' then Some(c as int - 'a' as int + 10)
    else if 'A' <= c <= 'F' then Some(c as int - 'A' as int + 10)
    else None
  }

  /** One character inside a string literal; everything outside ASCII is written as itself. */
  function Escape(c: char): (e: string)
    ensures 1 <= |e| && e[0] != '"'
  {
    if c == '"' then "\\\""
    else if c == '\\' then "\\\\"
    else if c == '\n' then "\\n"
    else if c == '\r' then "\\r"
    else if c == '\t' then "\\t"
    else if c as int == 8 then "\\b"
    else if c as int == 12 then "\\f"
    else if c as int < 32 then ['\\', 'u', '0', '0', HexDigit(c as int / 16), HexDigit(c as int % 16)]
    else [c]
  }

  /** Hex digits are written in lower case, and each character by its shortest escape: a backslash and
      a letter for those that have one, `\u00` and two digits for the other control characters, and
      everything else as itself. */
  lemma EscapesExactly(v: int, c: char)
    ensures 0 <= v < 16 ==> HexDigit(v) as int == if v < 10 then 48 + v else 87 + v
    ensures var n := c as int;
            Escape(c) == if n == 34 then "\\\"" else if n == 92 then "\\\\" else if n == 10 then "\\n" else if n == 13 then "\\r"
                         else if n == 9 then "\\t" else if n == 8 then "\\b" else if n == 12 then "\\f"
                         else if n < 16 then ['\\', 'u', '0', '0', '0', HexDigit(n)]
                         else if n < 32 then ['\\', 'u', '0', '0', '1', HexDigit(n - 16)]
                         else [c]
  {
  }

  function Quote(s: string): string {
    "\"" + FlatMap(Escape, s) + "\""
  }

  /** The character at the head of a string literal's body, and how much text spells it. Control
      characters must be escaped; surrogate escapes are refused. */
  function ScanChar(s: string): (r: Option<(char, nat)>)
    requires |s| > 0
    ensures r.Some? ==> 1 <= r.value.1 <= |s|
  {
    if (s[0] as int) < 32 then None
    else if s[0] != '\\' then Some((s[0], 1))
    else if |s| < 2 then None
    else if s[1] == 'u' then
      if |s| < 6 then None
      else
        match (HexValue(s[2]), HexValue(s[3]), HexValue(s[4]), HexValue(s[5]))
        case (Some(a), Some(b), Some(c), Some(d)) =>
          var n := ((a * 16 + b) * 16 + c) * 16 + d;
          if n < 0xD800 || 0xE000 <= n then Some((n as char, 6)) else None
        case _ => None
    else if s[1] == '"' || s[1] == '\\' || s[1] == '/' then Some((s[1], 2))
    else if s[1] == 'n' then Some(('\n', 2))
    else if s[1] == 'r' then Some(('\r', 2))
    else if s[1] == 't' then Some(('\t', 2))
    else if s[1] == 'b' then Some((8 as char, 2))
    else if s[1] == 'f' then Some((12 as char, 2))
    else None
  }

  /** Digits are read in either case. */
  lemma HexReads(c: char, v: int)
    ensures HexValue(c) == Some(v)
       <==> 0 <= v < 16 && (c as int == (if v < 10 then 48 + v else 87 + v) || (v >= 10 && c as int == 55 + v))
  {
  }

  /** Of a backslash and one character only nine are escapes, and `\u` takes four digits that are not half
      of a surrogate pair; a control character must be escaped. */
  lemma ReadsEscape(s: string)
    requires |s| >= 6
    ensures (s[0] as int) < 32 ==> ScanChar(s) == None
    ensures s[..2] == "\\/" ==> ScanChar(s) == Some(('/', 2))
    ensures s[0] == '\\' && s[1] !in "\"\\/bfnrtu" ==> ScanChar(s) == None
    ensures s[..2] == "\\u" ==>
              match (HexValue(s[2]), HexValue(s[3]), HexValue(s[4]), HexValue(s[5]))
              case (Some(a), Some(b), Some(c), Some(d)) =>
                var n := a * 4096 + b * 256 + c * 16 + d;
                ScanChar(s) == if 0xD800 <= n <= 0xDFFF then None else Some((n as char, 6))
              case _ => ScanChar(s) == None
  {
  }

  /** The rest of a string literal whose opening quote has been read. */
  function ScanString(s: string): (r: Option<(string, string)>)
    ensures r.Some? ==> |r.value.1| < |s|
  {
    if |s| == 0 then None
    else if s[0] == '"' then Some(("", s[1..]))
    else
      match ScanChar(s)
      case None => None
      case Some((c, k)) =>
        match ScanString(s[k..])
        case None => None
        case Some((t, rest)) => Some(([c] + t, rest))
  }

  lemma ScanEscape(c: char, rest: string)
    ensures ScanChar(Escape(c) + rest) == Some((c, |Escape(c)|))
  {
    var e := Escape(c);
    var s := e + rest;
    assert s[0] == e[0];
    if |e| == 2 {
      assert s[1] == e[1];
    } else if |e| == 6 {
      assert s[1] == e[1] && s[2] == e[2] && s[3] == e[3] && s[4] == e[4] && s[5] == e[5];
    }
  }

  lemma {:induction false} ScanQuoted(s: string, rest: string)
    ensures ScanString(FlatMap(Escape, s) + "\"" + rest) == Some((s, rest))
  {
    if |s| == 0 {
      assert FlatMap(Escape, s) + "\"" + rest == "\"" + rest;
    } else {
      var tail := FlatMap(Escape, s[1..]) + "\"" + rest;
      assert FlatMap(Escape, s) + "\"" + rest == Escape(s[0]) + tail;
      ScanEscape(s[0], tail);
      ScanQuoted(s[1..], rest);
      ScanStep(s[0], Escape(s[0]), tail);
      assert [s[0]] + s[1..] == s;
    }
  }

  lemma ScanStep(c: char, e: string, tail: string)
    requires |e| > 0 && e[0] != '"' && ScanChar(e + tail) == Some((c, |e|)) && ScanString(tail).Some?
    ensures ScanString(e + tail) == Some(([c] + ScanString(tail).value.0, ScanString(tail).value.1))
  {
    assert (e + tail)[|e|..] == tail;
  }

  // ----- integers -----

  predicate IsDecimal(c: char) { '0' <= c <= '9' }

  predicate StartsWithDecimal(s: string) { |s| > 0 && IsDecimal(s[0]) }

  function NatText(n: nat): (t: string)
    ensures |t| > 0 && (forall i :: 0 <= i < |t| ==> IsDecimal(t[i]))
    ensures t[0] == '0' ==> |t| == 1
    ensures n > 0 ==> t[0] != '0'
  {
    if n < 10 then ['0' + (n as char)] else NatText(n / 10) + ['0' + ((n % 10) as char)]
  }

  function IntText(n: int): string {
    if n < 0 then "-" + NatText(-n) else NatText(n)
  }

  function DecimalDigit(c: char): nat
    requires IsDecimal(c)
  {
    c as int - '0' as int
  }

  function DecimalValue(t: string): (n: nat)
    requires forall i :: 0 <= i < |t| ==> IsDecimal(t[i])
  {
    if |t| == 0 then 0 else DecimalValue(t[..|t| - 1]) * 10 + DecimalDigit(t[|t| - 1])
  }

  /** How many decimal digits `s` starts with. */
  function DecimalRun(s: string): (k: nat)
    ensures k <= |s| && forall i :: 0 <= i < k ==> IsDecimal(s[i])
    ensures StartsWithDecimal(s) ==> k > 0
  {
    if StartsWithDecimal(s) then 1 + DecimalRun(s[1..]) else 0
  }

  /** `0` or digits without a leading zero; a fraction or an exponent is left unread. */
  function ScanNat(s: string): (r: Option<(nat, string)>)
    ensures r.Some? ==> |r.value.1| < |s|
  {
    if !StartsWithDecimal(s) then None
    else if s[0] == '0' then Some((0, s[1..]))
    else var k := DecimalRun(s); Some((DecimalValue(s[..k]), s[k..]))
  }

  lemma {:induction false} DecimalValueOfText(n: nat)
    ensures DecimalValue(NatText(n)) == n
  {
    if n < 10 {
      assert NatText(n)[..0] == "";
    } else {
      DecimalValueOfText(n / 10);
      assert NatText(n)[..|NatText(n)| - 1] == NatText(n / 10);
    }
  }

  lemma {:induction false} DecimalRunAppend(t: string, rest: string)
    requires forall i :: 0 <= i < |t| ==> IsDecimal(t[i])
    requires !StartsWithDecimal(rest)
    ensures DecimalRun(t + rest) == |t|
  {
    if |t| == 0 {
      assert t + rest == rest;
    } else {
      assert (t + rest)[1..] == t[1..] + rest;
      DecimalRunAppend(t[1..], rest);
    }
  }

  lemma ScanNatText(n: nat, rest: string)
    requires !StartsWithDecimal(rest)
    ensures ScanNat(NatText(n) + rest) == Some((n, rest))
  {
    var t := NatText(n);
    DecimalValueOfText(n);
    DecimalRunAppend(t, rest);
    assert (t + rest)[..|t|] == t && (t + rest)[|t|..] == rest && (t + rest)[0] == t[0];
  }

  // ----- values -----

  predicate IsSpace(c: char) { c == ' ' || c == '\t' || c == '\n' || c == '\r' }

  function SkipSpace(s: string): (t: string)
    ensures |t| <= |s|
  {
    if |s| > 0 && IsSpace(s[0]) then SkipSpace(s[1..]) else s
  }

  predicate Starts(s: string, c: char) { |s| > 0 && s[0] == c }

  function Print(v: JValue): (t: string)
    ensures |t| > 0 && !IsSpace(t[0]) && t[0] != ']'
    decreases v
  {
    match v
    case JNull => "null"
    case JBool(b) => if b then "true" else "false"
    case JInt(n) => IntText(n)
    case JString(s) => Quote(s)
    case JArray(items) => "[" + PrintItems(items) + "]"
    case JObject(fields) => "{" + PrintFields(fields) + "}"
  }

  function PrintItems(items: seq<JValue>): (t: string)
    ensures |items| > 0 ==> |t| > 0 && !IsSpace(t[0]) && t[0] != ']'
    decreases items
  {
    if |items| == 0 then ""
    else if |items| == 1 then Print(items[0])
    else Print(items[0]) + "," + PrintItems(items[1..])
  }

  function PrintField(f: Field): string
    decreases f
  {
    Quote(f.key) + ":" + Print(f.value)
  }

  function PrintFields(fields: seq<Field>): (t: string)
    ensures |fields| > 0 ==> |t| > 0 && t[0] == '"'
    decreases fields
  {
    if |fields| == 0 then ""
    else if |fields| == 1 then PrintField(fields[0])
    else PrintField(fields[0]) + "," + PrintFields(fields[1..])
  }

  function ParseValue(s: string): (r: Option<(JValue, string)>)
    ensures r.Some? ==> |r.value.1| < |s|
    decreases |s|, 0
  {
    if |s| == 0 then None
    else if s[0] == '"' then
      (match ScanString(s[1..])
       case Some((t, rest)) => Some((JString(t), rest))
       case None => None)
    else if s[0] == '[' then
      var t := SkipSpace(s[1..]);
      if Starts(t, ']') then Some((JArray([]), t[1..]))
      else
        (match ParseItems(t)
         case Some((items, rest)) => Some((JArray(items), rest))
         case None => None)
    else if s[0] == '{' then
      var t := SkipSpace(s[1..]);
      if Starts(t, '}') then Some((JObject([]), t[1..]))
      else
        (match ParseFields(t)
         case Some((fields, rest)) => Some((JObject(fields), rest))
         case None => None)
    else ParseAtom(s)
  }

  function ParseAtom(s: string): (r: Option<(JValue, string)>)
    ensures r.Some? ==> |r.value.1| < |s|
  {
    if "null" <= s then Some((JNull, s[4..]))
    else if "true" <= s then Some((JBool(true), s[4..]))
    else if "false" <= s then Some((JBool(false), s[5..]))
    else if Starts(s, '-') then
      (match ScanNat(s[1..])
       case Some((n, rest)) => Some((JInt(-(n as int)), rest))
       case None => None)
    else
      (match ScanNat(s)
       case Some((n, rest)) => Some((JInt(n), rest))
       case None => None)
  }

  function ParseItems(s: string): (r: Option<(seq<JValue>, string)>)
    ensures r.Some? ==> |r.value.1| < |s|
    decreases |s|, 1
  {
    match ParseValue(s)
    case None => None
    case Some((v, after)) =>
      var t := SkipSpace(after);
      if Starts(t, ']') then Some(([v], t[1..]))
      else if !Starts(t, ',') then None
      else
        match ParseItems(SkipSpace(t[1..]))
        case None => None
        case Some((items, rest)) => Some(([v] + items, rest))
  }

  function ParseField(s: string): (r: Option<(Field, string)>)
    ensures r.Some? ==> |r.value.1| < |s|
    decreases |s|, 1
  {
    if !Starts(s, '"') then None
    else
      match ScanString(s[1..])
      case None => None
      case Some((k, after)) =>
        var t := SkipSpace(after);
        if !Starts(t, ':') then None
        else
          match ParseValue(SkipSpace(t[1..]))
          case None => None
          case Some((v, rest)) => Some((Field(k, v), rest))
  }

  function ParseFields(s: string): (r: Option<(seq<Field>, string)>)
    ensures r.Some? ==> |r.value.1| < |s|
    decreases |s|, 2
  {
    match ParseField(s)
    case None => None
    case Some((f, after)) =>
      var t := SkipSpace(after);
      if Starts(t, '}') then Some(([f], t[1..]))
      else if !Starts(t, ',') then None
      else
        match ParseFields(SkipSpace(t[1..]))
        case None => None
        case Some((fields, rest)) => Some(([f] + fields, rest))
  }

  /** `json.loads`. */
  function Loads(s: string): Option<JValue> {
    match ParseValue(SkipSpace(s))
    case Some((v, rest)) => if SkipSpace(rest) == "" then Some(v) else None
    case None => None
  }

  // ----- reading back what was printed -----

  lemma {:induction false} ParsePrinted(v: JValue, rest: string)
    requires !StartsWithDecimal(rest)
    ensures ParseValue(Print(v) + rest) == Some((v, rest))
    decreases v
  {
    match v
    case JNull => ParsePrintedNull(rest);
    case JBool(b) => ParsePrintedBool(b, rest);
    case JInt(n) => ParsePrintedInt(n, rest);
    case JString(t) => ParsePrintedString(t, rest);
    case JArray(items) => ParsePrintedArray(items, rest);
    case JObject(fields) => ParsePrintedObject(fields, rest);
  }

  lemma ParsePrintedNull(rest: string)
    ensures ParseValue("null" + rest) == Some((JNull, rest))
  {
    assert ("null" + rest)[..4] == "null" && ("null" + rest)[4..] == rest;
  }

  lemma {:induction false} ParsePrintedArray(items: seq<JValue>, rest: string)
    ensures ParseValue("[" + PrintItems(items) + "]" + rest) == Some((JArray(items), rest))
    decreases items, 1
  {
    var body := PrintItems(items) + "]" + rest;
    if |items| == 0 {
      assert body == "]" + rest;
    } else {
      assert body[0] == PrintItems(items)[0];
      ParsePrintedItems(items, rest);
    }
    ParseArray(items, body, rest);
    assert "[" + PrintItems(items) + "]" + rest == "[" + body;
  }

  lemma {:induction false} ParsePrintedObject(fields: seq<Field>, rest: string)
    ensures ParseValue("{" + PrintFields(fields) + "}" + rest) == Some((JObject(fields), rest))
    decreases fields, 1
  {
    var body := PrintFields(fields) + "}" + rest;
    if |fields| == 0 {
      assert body == "}" + rest;
    } else {
      assert body[0] == PrintFields(fields)[0];
      ParsePrintedFields(fields, rest);
    }
    ParseObject(fields, body, rest);
    assert "{" + PrintFields(fields) + "}" + rest == "{" + body;
  }

  lemma ParseArray(items: seq<JValue>, body: string, rest: string)
    requires |body| > 0 && !IsSpace(body[0])
    requires items == [] ==> body == "]" + rest
    requires items != [] ==> body[0] != ']' && ParseItems(body) == Some((items, rest))
    ensures ParseValue("[" + body) == Some((JArray(items), rest))
  {
    assert ("[" + body)[1..] == body;
  }

  lemma ParseObject(fields: seq<Field>, body: string, rest: string)
    requires |body| > 0 && !IsSpace(body[0])
    requires fields == [] ==> body == "}" + rest
    requires fields != [] ==> body[0] != '}' && ParseFields(body) == Some((fields, rest))
    ensures ParseValue("{" + body) == Some((JObject(fields), rest))
  {
    assert ("{" + body)[1..] == body;
  }

  lemma ParseItemsStep(s: string, v: JValue, tail: string)
    requires ParseValue(s) == Some((v, "," + tail))
    requires |tail| > 0 && !IsSpace(tail[0]) && ParseItems(tail).Some?
    ensures ParseItems(s) == Some(([v] + ParseItems(tail).value.0, ParseItems(tail).value.1))
  {
    assert ("," + tail)[1..] == tail;
  }

  lemma ParseFieldsStep(s: string, f: Field, tail: string)
    requires ParseField(s) == Some((f, "," + tail))
    requires |tail| > 0 && !IsSpace(tail[0]) && ParseFields(tail).Some?
    ensures ParseFields(s) == Some(([f] + ParseFields(tail).value.0, ParseFields(tail).value.1))
  {
    assert ("," + tail)[1..] == tail;
  }

  lemma ParseFieldStep(s: string, k: string, tail: string)
    requires Starts(s, '"') && ScanString(s[1..]) == Some((k, ":" + tail))
    requires |tail| > 0 && !IsSpace(tail[0]) && ParseValue(tail).Some?
    ensures ParseField(s) == Some((Field(k, ParseValue(tail).value.0), ParseValue(tail).value.1))
  {
    assert (":" + tail)[1..] == tail;
  }

  lemma ParsePrintedBool(b: bool, rest: string)
    ensures ParseValue(Print(JBool(b)) + rest) == Some((JBool(b), rest))
  {
    var s := Print(JBool(b)) + rest;
    if b {
      assert s[..4] == "true" && s[4..] == rest;
    } else {
      assert s[..5] == "false" && s[5..] == rest;
    }
  }

  lemma ParsePrintedInt(n: int, rest: string)
    requires !StartsWithDecimal(rest)
    ensures ParseValue(Print(JInt(n)) + rest) == Some((JInt(n), rest))
  {
    var s := Print(JInt(n)) + rest;
    if n < 0 {
      assert s[0] == '-' && s[1..] == NatText(-n) + rest;
      ScanNatText(-n, rest);
      assert ParseValue(s) == ParseAtom(s);
    } else {
      assert s == NatText(n) + rest && s[0] == NatText(n)[0] && IsDecimal(s[0]);
      ScanNatText(n, rest);
    }
  }

  lemma ParsePrintedString(t: string, rest: string)
    ensures ParseValue(Quote(t) + rest) == Some((JString(t), rest))
  {
    var s := Quote(t) + rest;
    assert s[0] == '"' && s[1..] == FlatMap(Escape, t) + "\"" + rest;
    ScanQuoted(t, rest);
  }

  lemma {:induction false} ParsePrintedItems(items: seq<JValue>, rest: string)
    requires |items| > 0
    ensures ParseItems(PrintItems(items) + "]" + rest) == Some((items, rest))
    decreases items, 0
  {
    var s := PrintItems(items) + "]" + rest;
    if |items| == 1 {
      ParsePrinted(items[0], "]" + rest);
      assert s == Print(items[0]) + ("]" + rest);
      ParseItemsLast(s, items[0], rest);
      assert items == [items[0]];
    } else {
      var tail := PrintItems(items[1..]) + "]" + rest;
      PrintItemsSplit(items, rest);
      ParsePrinted(items[0], "," + tail);
      ParsePrintedItems(items[1..], rest);
      ParseItemsStep(s, items[0], tail);
      assert [items[0]] + items[1..] == items;
    }
  }

  lemma ParseItemsLast(s: string, v: JValue, rest: string)
    requires ParseValue(s) == Some((v, "]" + rest))
    ensures ParseItems(s) == Some(([v], rest))
  {
    assert ("]" + rest)[1..] == rest;
  }

  lemma PrintItemsSplit(items: seq<JValue>, rest: string)
    requires |items| > 1
    ensures var tail := PrintItems(items[1..]) + "]" + rest;
            && PrintItems(items) + "]" + rest == Print(items[0]) + ("," + tail)
            && |tail| > 0 && !IsSpace(tail[0])
  {
    var p := PrintItems(items[1..]);
    Regroup(Print(items[0]), ",", p, "]", rest);
  }

  lemma {:induction false} ParsePrintedField(f: Field, rest: string)
    requires !StartsWithDecimal(rest)
    ensures ParseField(PrintField(f) + rest) == Some((f, rest))
    decreases f
  {
    var tail := Print(f.value) + rest;
    var s := Quote(f.key) + (":" + tail);
    assert PrintField(f) + rest == s;
    assert s[0] == '"' && s[1..] == FlatMap(Escape, f.key) + "\"" + (":" + tail);
    ScanQuoted(f.key, ":" + tail);
    assert tail[0] == Print(f.value)[0];
    ParsePrinted(f.value, rest);
    ParseFieldStep(s, f.key, tail);
  }

  lemma {:induction false} ParsePrintedFields(fields: seq<Field>, rest: string)
    requires |fields| > 0
    ensures ParseFields(PrintFields(fields) + "}" + rest) == Some((fields, rest))
    decreases fields, 0
  {
    hide PrintFields, PrintField, ParseFields, ParseField, IsSpace;
    var s := PrintFields(fields) + "}" + rest;
    if |fields| == 1 {
      ParsePrintedField(fields[0], "}" + rest);
      OneFieldText(fields);
      assert s == PrintField(fields[0]) + ("}" + rest);
      ParseFieldsLast(s, fields[0], rest);
      assert fields == [fields[0]];
    } else {
      var tail := PrintFields(fields[1..]) + "}" + rest;
      PrintFieldsSplit(fields, rest);
      ParsePrintedField(fields[0], "," + tail);
      ParsePrintedFields(fields[1..], rest);
      ParseFieldsStep(s, fields[0], tail);
      assert [fields[0]] + fields[1..] == fields;
    }
  }

  lemma OneFieldText(fields: seq<Field>)
    requires |fields| == 1
    ensures PrintFields(fields) == PrintField(fields[0])
  {
  }

  lemma ParseFieldsLast(s: string, f: Field, rest: string)
    requires ParseField(s) == Some((f, "}" + rest))
    ensures ParseFields(s) == Some(([f], rest))
  {
    assert ("}" + rest)[1..] == rest;
  }

  lemma PrintFieldsSplit(fields: seq<Field>, rest: string)
    requires |fields| > 1
    ensures var tail := PrintFields(fields[1..]) + "}" + rest;
            && PrintFields(fields) + "}" + rest == PrintField(fields[0]) + ("," + tail)
            && |tail| > 0 && !IsSpace(tail[0])
  {
    var p := PrintFields(fields[1..]);
    Regroup(PrintField(fields[0]), ",", p, "}", rest);
  }

  /** Every value is read back exactly from its own text. */
  lemma RoundTrip(v: JValue)
    ensures Loads(Print(v)) == Some(v)
  {
    ParsePrinted(v, "");
    assert Print(v) + "" == Print(v);
  }

  predicate AllSpaces(s: string) { forall i :: 0 <= i < |s| ==> s[i] in " \t\n\r" }

  /** Spaces around a text are not read. */
  lemma SpacesAround(v: JValue, before: string, after: string)
    requires AllSpaces(before) && AllSpaces(after)
    ensures Loads(before + (Print(v) + after)) == Some(v)
  {
    SkipsSpaces(before, Print(v) + after);
    ParsePrinted(v, after);
    SkipsSpaces(after, "");
    assert after + "" == after;
  }

  lemma {:induction false} SkipsSpaces(a: string, rest: string)
    requires AllSpaces(a) && (|rest| > 0 ==> !IsSpace(rest[0]))
    ensures SkipSpace(a + rest) == rest
  {
    if |a| == 0 {
      assert a + rest == rest;
    } else {
      assert a[0] in " \t\n\r" && (a + rest)[1..] == a[1..] + rest;
      SkipsSpaces(a[1..], rest);
    }
  }

  /** Texts are compact: nothing but the values, the names and the punctuation, and names in the order
      given. */
  lemma CompactArray()
    ensures Print(JArray([JNull, JBool(true), JBool(false)])) == "[null,true,false]"
  {
    ItemsText(JBool(true), [JBool(false)]);
    ItemsText(JNull, [JBool(true), JBool(false)]);
    assert [JNull] + [JBool(true), JBool(false)] == [JNull, JBool(true), JBool(false)];
    assert [JBool(true)] + [JBool(false)] == [JBool(true), JBool(false)];
    assert "true" + "," + "false" == "true,false" && "null" + "," + "true,false" == "null,true,false";
  }

  lemma ItemsText(v: JValue, items: seq<JValue>)
    requires |items| > 0
    ensures PrintItems([v] + items) == Print(v) + "," + PrintItems(items)
  {
    hide Print;
    assert ([v] + items)[1..] == items;
  }

  lemma CompactObject(x: string, v: JValue, y: string, w: JValue)
    ensures Print(JObject([Field(x, v), Field(y, w)]))
         == "{\"" + (FlatMap(Escape, x) + ("\":" + (Print(v) + (",\"" + (FlatMap(Escape, y) + ("\":" + (Print(w) + "}")))))))
  {
    hide Escape, FlatMap;
    var f, g := Field(x, v), Field(y, w);
    assert [f, g][1..] == [g];
    var k, l := FlatMap(Escape, x), FlatMap(Escape, y);
    FieldText(f, k);
    FieldText(g, l);
    assert PrintFields([f, g]) == PrintField(f) + "," + PrintField(g) by { assert PrintFields([g]) == PrintField(g); }
    assert Print(JObject([f, g])) == "{" + (PrintField(f) + "," + PrintField(g)) + "}";
    Assemble(k, Print(v), l, Print(w));
  }

  lemma FieldText(f: Field, k: string)
    requires k == FlatMap(Escape, f.key)
    ensures PrintField(f) == "\"" + (k + ("\":" + Print(f.value)))
  {
    hide Print, FlatMap, Escape;
    assert "\"" + ":" == "\":";
    assert ("\"" + k + "\"") + ":" + Print(f.value) == "\"" + (k + (("\"" + ":") + Print(f.value)));
  }

  lemma Assemble(k: string, v: string, l: string, w: string)
    ensures "{" + (("\"" + (k + ("\":" + v))) + "," + ("\"" + (l + ("\":" + w)))) + "}"
         == "{\"" + (k + ("\":" + (v + (",\"" + (l + ("\":" + (w + "}")))))))
  {
    assert "{" + "\"" == "{\"" && "," + "\"" == ",\"";
    var tail := l + ("\":" + (w + "}"));
    assert (l + ("\":" + w)) + "}" == tail;
    assert ("," + "\"") + tail == "," + ("\"" + tail);
    assert (k + ("\":" + v)) + (("," + "\"") + tail) == k + ("\":" + (v + (",\"" + tail)));
    assert "{" + (("\"" + (k + ("\":" + v))) + "," + ("\"" + (l + ("\":" + w)))) + "}"
        == ("{" + "\"") + ((k + ("\":" + v)) + (("," + "\"") + ((l + ("\":" + w)) + "}")));
  }

  /** Distinct values never share a text. */
  lemma PrintInjective(v: JValue, w: JValue)
    requires Print(v) == Print(w)
    ensures v == w
  {
    RoundTrip(v);
    RoundTrip(w);
  }

  // ----- dictionaries -----

  /** A parsed object as a dictionary: the last of several equal keys wins. */
  function ToMap(fields: seq<Field>): map<string, JValue> {
    if |fields| == 0 then map[]
    else var last := fields[|fields| - 1]; ToMap(fields[..|fields| - 1])[last.key := last.value]
  }

  lemma ToMapTwo(a: Field, b: Field)
    ensures ToMap([a, b]) == map[a.key := a.value][b.key := b.value]
  {
    assert [a, b][..1] == [a] && [a][..0] == [];
    assert ToMap([a]) == map[a.key := a.value];
  }

  lemma ToMapThree(a: Field, b: Field, c: Field)
    ensures ToMap([a, b, c]) == map[a.key := a.value][b.key := b.value][c.key := c.value]
  {
    assert [a, b, c][..2] == [a, b];
    ToMapTwo(a, b);
  }

  lemma ToMapFour(a: Field, b: Field, c: Field, d: Field)
    ensures ToMap([a, b, c, d]) == map[a.key := a.value][b.key := b.value][c.key := c.value][d.key := d.value]
  {
    assert [a, b, c, d][..3] == [a, b, c];
    ToMapThree(a, b, c);
  }

  function FieldsOver(keys: seq<string>, m: map<string, JValue>): (fields: seq<Field>)
    requires forall k :: k in keys ==> k in m
    ensures |fields| == |keys|
    ensures forall i :: 0 <= i < |keys| ==> fields[i] == Field(keys[i], m[keys[i]])
  {
    seq(|keys|, i requires 0 <= i < |keys| => Field(keys[i], m[keys[i]]))
  }

  function SortedFields(m: map<string, JValue>): seq<Field> {
    FieldsOver(SortedKeys(m.Keys), m)
  }

  /** `canonical_json`. */
  function CanonicalJson(m: map<string, JValue>): string {
    Print(JObject(SortedFields(m)))
  }

  lemma {:induction false} ToMapOver(keys: seq<string>, m: map<string, JValue>)
    requires forall k :: k in keys ==> k in m
    ensures ToMap(FieldsOver(keys, m)) == map k | k in keys :: m[k]
  {
    if |keys| > 0 {
      var front := keys[..|keys| - 1];
      assert FieldsOver(keys, m)[..|keys| - 1] == FieldsOver(front, m);
      ToMapOver(front, m);
      assert keys == front + [keys[|keys| - 1]];
    }
  }

  /** Serialising a dictionary and loading the text gives the dictionary back. */
  lemma CanonicalRoundTrip(m: map<string, JValue>)
    ensures Loads(CanonicalJson(m)) == Some(JObject(SortedFields(m)))
    ensures ToMap(SortedFields(m)) == m
  {
    RoundTrip(JObject(SortedFields(m)));
    ToMapOver(SortedKeys(m.Keys), m);
    assert (map k | k in SortedKeys(m.Keys) :: m[k]) == m;
  }

  predicate KeysSorted(fields: seq<Field>) {
    forall i, j :: 0 <= i < j < |fields| ==> StringLess(fields[i].key, fields[j].key)
  }

  lemma {:induction false} ToMapSorted(fields: seq<Field>)
    requires KeysSorted(fields)
    ensures forall k :: k in ToMap(fields) <==> HasKey(fields, k)
    ensures forall i :: 0 <= i < |fields| ==>
              fields[i].key in ToMap(fields) && ToMap(fields)[fields[i].key] == fields[i].value
  {
    if |fields| > 0 {
      var front, last := fields[..|fields| - 1], fields[|fields| - 1];
      ToMapSorted(front);
      HasKeyAppend(front, last);
      assert fields == front + [last];
      forall i | 0 <= i < |fields| ensures fields[i].key in ToMap(fields) && ToMap(fields)[fields[i].key] == fields[i].value {
        if i < |front| { assert front[i] == fields[i] && StringLess(fields[i].key, last.key); }
      }
    }
  }

  predicate HasKey(fields: seq<Field>, k: string) {
    exists i :: 0 <= i < |fields| && fields[i].key == k
  }

  lemma HasKeyAppend(front: seq<Field>, last: Field)
    ensures forall k :: HasKey(front + [last], k) <==> HasKey(front, k) || k == last.key
  {
    forall k ensures HasKey(front + [last], k) <==> HasKey(front, k) || k == last.key {
      var all := front + [last];
      if HasKey(front, k) {
        var i :| 0 <= i < |front| && front[i].key == k;
        assert all[i].key == k;
      }
      assert all[|front|].key == last.key;
    }
  }

  /** A field list already in key order is what its dictionary serialises as, whatever order the
      dictionary was built in. */
  lemma SortedFieldsOfSorted(fields: seq<Field>)
    requires KeysSorted(fields)
    ensures SortedFields(ToMap(fields)) == fields
  {
    var m := ToMap(fields);
    ToMapSorted(fields);
    var keys := seq(|fields|, i requires 0 <= i < |fields| => fields[i].key);
    forall k ensures k in m.Keys <==> k in keys {
      if k in m.Keys {
        assert HasKey(fields, k);
        var i :| 0 <= i < |fields| && fields[i].key == k;
        assert keys[i] == k;
      }
    }
    SortedKeysUnique(keys, m.Keys);
  }
}
