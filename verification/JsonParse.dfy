/** The recursive-descent parser of src/cJSON.c as functions on the text still to be read. */
module JsonParse {
  import opened DecimalText
  import opened JsonTree
  import Utf8

  /**
   * What a parse function returns: the value with the text behind it, or a null pointer with
   * `ep` left at the offending text. `Malformed` stands for text the C code reads out of step:
   * a backslash as the last character, or \u without four hexadecimal digits behind it.
   */
  datatype Parsed<+T> = Ok(value: T, rest: string) | Fail(ep: string) | Malformed {
    predicate IsFailure() {
      !Ok?
    }

    function PropagateFailure<U>(): Parsed<U>
      requires IsFailure()
    {
      if Fail? then Parsed.Fail(ep) else Parsed.Malformed
    }

    function Extract(): (T, string)
      requires !IsFailure()
    {
      (value, rest)
    }
  }

  // ---------------------------------------------------------------- white space

  function Skip(v: string): (r: string)
    ensures |r| <= |v|
    ensures r == "" || r[0] > ' '
    ensures v == "" || v[0] > ' ' ==> r == v
  {
    if v != "" && v[0] <= ' ' then Skip(v[1..]) else v
  }

  // ---------------------------------------------------------------- numbers
  // Positions in one text: where parse_number's cursor stands after each part.

  function At(t: string, i: nat): char {
    if i < |t| then t[i] else '\0'
  }

  function DigitsEnd(t: string, i: nat): (e: nat)
    requires i <= |t|
    ensures i <= e <= |t| && !IsDigit(At(t, e))
    ensures forall k :: i <= k < e ==> IsDigit(t[k])
    decreases |t| - i
  {
    if IsDigit(At(t, i)) then DigitsEnd(t, i + 1) else i
  }

  /** A leading zero, then digits only if the next one is not zero again. */
  function MantissaEnd(t: string, i: nat): (e: nat)
    requires i <= |t|
    ensures i <= e <= |t| && forall k :: i <= k < e ==> IsDigit(t[k])
    ensures IsDigit(At(t, i)) ==> i < e
  {
    var j := if At(t, i) == '0' then i + 1 else i;
    if '1' <= At(t, j) <= '9' then DigitsEnd(t, j) else j
  }

  function FractionEnd(t: string, i: nat): (e: nat)
    requires i <= |t|
    ensures i <= e <= |t|
  {
    if At(t, i) == '.' && IsDigit(At(t, i + 1)) then DigitsEnd(t, i + 1) else i
  }

  function ExponentDigits(t: string, i: nat): nat {
    if At(t, i + 1) == '+' || At(t, i + 1) == '-' then i + 2 else i + 1
  }

  function ExponentEnd(t: string, i: nat): (e: nat)
    requires i <= |t|
    ensures i <= e <= |t|
  {
    if At(t, i) == 'e' || At(t, i) == 'E' then DigitsEnd(t, ExponentDigits(t, i)) else i
  }

  function SignEnd(t: string): nat {
    if At(t, 0) == '-' then 1 else 0
  }

  function NumberEnd(t: string): (e: nat)
    ensures e <= |t|
    ensures At(t, 0) == '-' || IsDigit(At(t, 0)) ==> 0 < e
  {
    ExponentEnd(t, FractionEnd(t, MantissaEnd(t, SignEnd(t))))
  }

  /** The loop n = n * 10 + digit over t[i..e]. */
  function DigitsValue(t: string, i: nat, e: nat, n: nat): nat
    requires i <= e <= |t|
    decreases e - i
  {
    if i == e then n else DigitsValue(t, i + 1, e, 10 * n + DigitValue(t[i]))
  }

  /** A number times a power of ten. */
  function Scaled(n: real, power: int): real
    decreases if power < 0 then -power else power
  {
    if power == 0 then n else if power > 0 then 10.0 * Scaled(n, power - 1) else Scaled(n, power + 1) / 10.0
  }

  /** The value of a number's text: sign, digits, and the scale of fraction and exponent together. */
  function NumberValue(t: string): real {
    var s := SignEnd(t);
    var m := MantissaEnd(t, s);
    var f := FractionEnd(t, m);
    var x := ExponentEnd(t, f);
    var n := DigitsValue(t, s, m, 0);
    var (digits, scale) := if m < f then (DigitsValue(t, m + 1, f, n), m + 1 - f) else (n, 0);
    var e := if f < x then DigitsValue(t, ExponentDigits(t, f), x, 0) else 0;
    var exponent := if f < x && At(t, f + 1) == '-' then -(e as int) else e as int;
    Scaled(if s == 1 then -(digits as real) else digits as real, scale + exponent)
  }

  function ParseNumber(v: string): (r: (real, string))
    ensures |r.1| <= |v|
    ensures Head(v) == '-' || IsDigit(Head(v)) ==> |r.1| < |v|
  {
    var e := NumberEnd(v);
    (NumberValue(v[..e]), v[e..])
  }

  // ---------------------------------------------------------------- strings

  predicate IsHex(c: char) {
    IsDigit(c) || 'A' <= c <= 'F' || 'a' <= c <= 'f'
  }

  function HexValue(c: char): (d: nat)
    requires IsHex(c)
    ensures d < 16
  {
    if IsDigit(c) then (c - '0') as nat
    else if c <= 'F' then 10 + (c - 'A') as nat
    else 10 + (c - 'a') as nat
  }

  predicate StartsWithHex4(v: string) {
    |v| >= 4 && IsHex(v[0]) && IsHex(v[1]) && IsHex(v[2]) && IsHex(v[3])
  }

  function Hex4(v: string): (u: nat)
    requires StartsWithHex4(v)
    ensures u < 0x1_0000
  {
    HexValue(v[0]) * 0x1000 + HexValue(v[1]) * 0x100 + HexValue(v[2]) * 0x10 + HexValue(v[3])
  }

  function Chars(bs: seq<Utf8.Bytes.byte>): string {
    seq(|bs|, i requires 0 <= i < |bs| => bs[i] as char)
  }

  function Utf8Chars(u: Utf8.codepoint): (s: string)
    ensures 1 <= |s| <= 4
  {
    Chars(Utf8.Encode(u))
  }

  predicate IsHighSurrogate(u: nat) {
    0xD800 <= u <= 0xDBFF
  }

  predicate IsLowSurrogate(u: nat) {
    0xDC00 <= u <= 0xDFFF
  }

  function CombineSurrogates(high: nat, low: nat): Utf8.codepoint
    requires IsHighSurrogate(high) && IsLowSurrogate(low)
  {
    0x1_0000 + high % 0x400 * 0x400 + low % 0x400
  }

  /** What \u stands for; v starts behind the letter u. Unpaired surrogates and U+0000 are dropped. */
  function DecodeUnicode(v: string): (r: Parsed<string>)
    ensures !r.Fail?
    ensures r.Ok? ==> |v| >= 4 && (r.rest == v[4..] || (|v| >= 10 && r.rest == v[10..]))
    ensures r.Ok? ==> |r.value| <= |v| - |r.rest|
  {
    if !StartsWithHex4(v) then Malformed
    else
      var uc := Hex4(v);
      if IsLowSurrogate(uc) || uc == 0 then Ok("", v[4..])
      else if !IsHighSurrogate(uc) then Ok(Utf8Chars(uc), v[4..])
      else if Head(v[4..]) != '\\' || Head(v[5..]) != 'u' then Ok("", v[4..])
      else if !StartsWithHex4(v[6..]) then Malformed
      else
        var uc2 := Hex4(v[6..]);
        Ok(if IsLowSurrogate(uc2) then Utf8Chars(CombineSurrogates(uc, uc2)) else "", v[10..])
  }

  /** The text one escape stands for; v starts at the character behind the backslash. */
  function DecodeEscape(v: string): (r: Parsed<string>)
    ensures !r.Fail?
    ensures r.Ok? ==> |r.rest| < |v|
  {
    if v == "" then Malformed
    else match v[0]
      case 'b' => Ok("\U{08}", v[1..])
      case 'f' => Ok("\U{0C}", v[1..])
      case 'n' => Ok("\n", v[1..])
      case 'r' => Ok("\r", v[1..])
      case 't' => Ok("\t", v[1..])
      case 'u' => DecodeUnicode(v[1..])
      case c => Ok([c], v[1..])
  }

  /** The second pass of parse_string, from behind the opening quote. An unclosed string is accepted. */
  function DecodeString(v: string): (r: Parsed<string>)
    ensures !r.Fail?
    ensures r.Ok? ==> |r.rest| <= |v|
  {
    if v == "" then Ok("", "")
    else if v[0] == '\"' then Ok("", v[1..])
    else if v[0] != '\\' then
      var (s, rest) :- DecodeString(v[1..]);
      Ok([v[0]] + s, rest)
    else
      var (e, v') :- DecodeEscape(v[1..]);
      var (s, rest) :- DecodeString(v');
      Ok(e + s, rest)
  }

  /** The first pass of parse_string: the length it counts, and the text at which it stops. */
  function ScanString(v: string): (nat, string) {
    if v == "" || v[0] == '\"' then (0, v)
    else if v[0] == '\\' && |v| == 1 then (1, "")
    else
      var (len, stop) := ScanString(if v[0] == '\\' then v[2..] else v[1..]);
      (len + 1, stop)
  }

  function ParseString(v: string): (r: Parsed<string>)
    ensures r.Ok? ==> |r.rest| < |v|
  {
    if Head(v) != '\"' then Fail(v) else DecodeString(v[1..])
  }

  // ---------------------------------------------------------------- values

  function ParseValue(v: string): (r: Parsed<Json>)
    ensures r.Ok? ==> |r.rest| < |v|
    decreases |v|, 0
  {
    if "null" <= v then Ok(Null, v[4..])
    else if "false" <= v then Ok(False, v[5..])
    else if "true" <= v then Ok(True, v[4..])
    else if Head(v) == '\"' then
      var (s, rest) :- ParseString(v);
      Ok(String(s), rest)
    else if Head(v) == '-' || IsDigit(Head(v)) then
      var (x, rest) := ParseNumber(v);
      Ok(Number(x), rest)
    else if Head(v) == '[' then
      var v1 := Skip(v[1..]);
      if Head(v1) == ']' then Ok(Array(NoItem), v1[1..])
      else
        var (items, rest) :- ParseItems(v1);
        Ok(Array(items), rest)
    else if Head(v) == '{' then
      var v1 := Skip(v[1..]);
      if Head(v1) == '}' then Ok(Object(NoMember), v1[1..])
      else
        var (members, rest) :- ParseMembers(v1);
        Ok(Object(members), rest)
    else Fail(v)
  }

  /** One element and what follows its comma, up to and including the closing bracket. */
  function ParseItems(v: string): (r: Parsed<Items>)
    ensures r.Ok? ==> |r.rest| < |v|
    decreases |v|, 1
  {
    var (j, v1) :- ParseValue(Skip(v));
    var v2 := Skip(v1);
    if Head(v2) == ',' then
      var (items, rest) :- ParseItems(v2[1..]);
      Ok(Item(j, items), rest)
    else if Head(v2) == ']' then Ok(Item(j, NoItem), v2[1..])
    else Fail(v2)
  }

  function ParseMembers(v: string): (r: Parsed<Members>)
    ensures r.Ok? ==> |r.rest| < |v|
    decreases |v|, 1
  {
    var (key, v1) :- ParseString(Skip(v));
    var v2 := Skip(v1);
    if Head(v2) != ':' then Fail(v2)
    else
      var (j, v3) :- ParseValue(Skip(v2[1..]));
      var v4 := Skip(v3);
      if Head(v4) == ',' then
        var (members, rest) :- ParseMembers(v4[1..]);
        Ok(Member(key, j, members), rest)
      else if Head(v4) == '}' then Ok(Member(key, j, NoMember), v4[1..])
      else Fail(v4)
  }

  /** cJSON_ParseWithOpts: the root value, then optionally nothing but white space up to the NUL. */
  function ParseText(v: string, requireEnd: bool): Parsed<Json> {
    var (j, rest) :- ParseValue(Skip(v));
    if !requireEnd then Ok(j, rest)
    else if Skip(rest) == "" then Ok(j, "")
    else Fail(Skip(rest))
  }
}
