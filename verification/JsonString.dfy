/** parse_string of src/cJSON.c: one pass counts the length, a second one decodes into a buffer of that length. */
module JsonString {
  import opened JsonTree
  import opened JsonParse
  import opened JsonRoundTrip
  import opened JsonPrint
  import Utf8

  // ---------------------------------------------------------------- the counted length suffices

  lemma HexIsCounted(v: string)
    requires StartsWithHex4(v)
    ensures ScanString(v).0 == 4 + ScanString(v[4..]).0
  {
    var v1 := v[1..];
    var v2 := v1[1..];
    var v3 := v2[1..];
    assert v1[0] == v[1] && v2[0] == v[2] && v3[0] == v[3] && v3[1..] == v[4..];
    assert forall i :: 0 <= i < 4 ==> IsHex(v[i]);
    assert ScanString(v3).0 == 1 + ScanString(v[4..]).0;
    assert ScanString(v2).0 == 1 + ScanString(v3).0;
    assert ScanString(v1).0 == 1 + ScanString(v2).0;
  }

  /** \u counts five, a pair ten; they decode to at most three and four octets. */
  lemma UnicodeIsCounted(v: string)
    requires DecodeUnicode(v).Ok?
    ensures |DecodeUnicode(v).value| + ScanString(DecodeUnicode(v).rest).0 <= 1 + ScanString(v).0
  {
    HexIsCounted(v);
    var tail := v[4..];
    if DecodeUnicode(v).rest != tail {
      assert tail[2..] == v[6..] && v[6..][4..] == v[10..];
      HexIsCounted(v[6..]);
    }
  }

  lemma EscapeIsCounted(v: string)
    requires v != "" && v[0] == '\\' && DecodeEscape(v[1..]).Ok?
    ensures |DecodeEscape(v[1..]).value| + ScanString(DecodeEscape(v[1..]).rest).0 <= ScanString(v).0
  {
    assert v[1..][1..] == v[2..];
    if v[1] == 'u' {
      UnicodeIsCounted(v[2..]);
    }
  }

  /** What is decoded never needs more room than the first pass counted. */
  lemma {:induction false} DecodedFits(v: string)
    requires DecodeString(v).Ok?
    ensures |DecodeString(v).value| <= ScanString(v).0
    decreases |v|
  {
    if v != "" && v[0] != '\"' {
      DecodeStep(v);
      if v[0] == '\\' {
        EscapeIsCounted(v);
        DecodedFits(DecodeEscape(v[1..]).rest);
      } else {
        DecodedFits(v[1..]);
      }
    }
  }

  // ---------------------------------------------------------------- the two passes

  /** The first pass. */
  method CountString(v: string) returns (len: nat)
    ensures len == ScanString(v).0
  {
    var ptr := 0;
    len := 0;
    assert v[0..] == v;
    while ptr < |v| && v[ptr] != '\"'
      invariant len + ScanString(if ptr <= |v| then v[ptr..] else "").0 == ScanString(v).0
      decreases |v| - ptr
    {
      ghost var w := v[ptr..];
      assert w[1..] == v[ptr + 1..] && (|w| > 1 ==> w[2..] == v[ptr + 2..]);
      len := len + 1;
      if v[ptr] == '\\' {
        ptr := ptr + 1;
      }
      ptr := ptr + 1;
    }
  }

  /** Four hexadecimal digits, or 0 where one is missing. */
  method ParseHex4(v: string, i: nat) returns (h: nat)
    requires i <= |v|
    ensures h == if StartsWithHex4(v[i..]) then Hex4(v[i..]) else 0
  {
    ghost var w := v[i..];
    if !IsHex(At(v, i)) { return 0; }
    h := HexValue(v[i]) * 16;
    if !IsHex(At(v, i + 1)) { return 0; }
    h := (h + HexValue(v[i + 1])) * 16;
    if !IsHex(At(v, i + 2)) { return 0; }
    h := (h + HexValue(v[i + 2])) * 16;
    if !IsHex(At(v, i + 3)) { return 0; }
    h := h + HexValue(v[i + 3]);
    assert w[0] == v[i] && w[1] == v[i + 1] && w[2] == v[i + 2] && w[3] == v[i + 3];
  }

  /** The octets of a code point, each the last six bits of what the octets behind it leave over. */
  lemma OctetsFromBehind(u: Utf8.codepoint)
    ensures
      var s, u1, u2, u3 := Utf8Chars(u), u / 0x40, u / 0x40 / 0x40, u / 0x40 / 0x40 / 0x40;
      && |s| == (if u < 0x80 then 1 else if u < 0x800 then 2 else if u < 0x1_0000 then 3 else 4)
      && (|s| == 1 ==> s[0] == u as char)
      && (|s| == 2 ==> u1 < 0x20 && s[0] == (0xC0 + u1) as char && s[1] == (0x80 + u % 0x40) as char)
      && (|s| == 3 ==>
        && u2 < 0x10 && s[0] == (0xE0 + u2) as char
        && s[1] == (0x80 + u1 % 0x40) as char && s[2] == (0x80 + u % 0x40) as char)
      && (|s| == 4 ==>
        && u3 < 0x08 && s[0] == (0xF0 + u3) as char
        && s[1] == (0x80 + u2 % 0x40) as char && s[2] == (0x80 + u1 % 0x40) as char && s[3] == (0x80 + u % 0x40) as char)
  {
    assert u / 0x40 / 0x40 == u / 0x1000 && u / 0x1000 / 0x40 == u / 0x4_0000;
  }

  /** The octets of one code point, written from the last to the first. */
  method PutUtf8(out: array<char>, k: nat, u: Utf8.codepoint, ghost whole: string) returns (k': nat)
    requires Written(out, k, whole) && Utf8Chars(u) <= whole[k..]
    modifies out
    ensures k' == k + |Utf8Chars(u)| && Written(out, k', whole)
  {
    ghost var s := Utf8Chars(u);
    OctetsFromBehind(u);
    var uc: nat := u;
    var len := if uc < 0x80 then 1 else if uc < 0x800 then 2 else if uc < 0x1_0000 then 3 else 4;
    var mark := if len == 1 then 0 else if len == 2 then 0xC0 else if len == 3 then 0xE0 else 0xF0;
    var ptr2 := k + len;
    if len >= 4 {
      ptr2 := ptr2 - 1;
      out[ptr2] := (0x80 + uc % 0x40) as char;
      uc := uc / 0x40;
    }
    if len >= 3 {
      ptr2 := ptr2 - 1;
      out[ptr2] := (0x80 + uc % 0x40) as char;
      uc := uc / 0x40;
    }
    if len >= 2 {
      ptr2 := ptr2 - 1;
      out[ptr2] := (0x80 + uc % 0x40) as char;
      uc := uc / 0x40;
    }
    ptr2 := ptr2 - 1;
    out[ptr2] := (mark + uc) as char;
    k' := ptr2 + len;
    assert forall i :: 0 <= i < len ==> out[k + i] == s[i] == whole[k + i];
  }

  /** The case of \u; p stands behind the letter u. */
  method CopyUnicode(out: array<char>, k: nat, v: string, p: nat, ghost whole: string) returns (k': nat, p': nat)
    requires p <= |v| && DecodeUnicode(v[p..]).Ok?
    requires Written(out, k, whole) && DecodeUnicode(v[p..]).value <= whole[k..]
    modifies out
    ensures k' == k + |DecodeUnicode(v[p..]).value| && Written(out, k', whole)
    ensures p < p' <= |v| && v[p'..] == DecodeUnicode(v[p..]).rest
  {
    ghost var w := v[p..];
    var uc := ParseHex4(v, p);
    k', p' := k, p + 4;
    assert w[4..] == v[p'..];
    if (0xDC00 <= uc && uc <= 0xDFFF) || uc == 0 {
      return;
    }
    if 0xD800 <= uc && uc <= 0xDBFF {
      assert Head(w[4..]) == At(v, p') && Head(w[4..]) == '\\' ==> Head(w[5..]) == At(v, p' + 1);
      if At(v, p') != '\\' || At(v, p' + 1) != 'u' {
        return;
      }
      assert w[6..] == v[p' + 2..] && w[10..] == v[p' + 6..];
      var uc2 := ParseHex4(v, p' + 2);
      p' := p' + 6;
      if uc2 < 0xDC00 || uc2 > 0xDFFF {
        return;
      }
      uc := 0x1_0000 + (uc % 0x400 * 0x400 + uc2 % 0x400);
    }
    k' := PutUtf8(out, k, uc, whole);
  }

  /** The switch on the character behind a backslash; p stands at it. */
  method CopyEscape(out: array<char>, k: nat, v: string, p: nat, ghost whole: string) returns (k': nat, p': nat)
    requires p <= |v| && DecodeEscape(v[p..]).Ok?
    requires Written(out, k, whole) && DecodeEscape(v[p..]).value <= whole[k..]
    modifies out
    ensures k' == k + |DecodeEscape(v[p..]).value| && Written(out, k', whole)
    ensures p < p' <= |v| && v[p'..] == DecodeEscape(v[p..]).rest
  {
    assert v[p..][1..] == v[p + 1..];
    if v[p] == 'u' {
      k', p' := CopyUnicode(out, k, v, p + 1, whole);
    } else {
      assert DecodeEscape(v[p..]).value[0] == whole[k];
      match v[p] {
      case 'b' => out[k] := '\U{08}';
      case 'f' => out[k] := '\U{0C}';
      case 'n' => out[k] := '\n';
      case 'r' => out[k] := '\r';
      case 't' => out[k] := '\t';
      case c => out[k] := c;
      }
      k', p' := k + 1, p + 1;
    }
  }

  /** parse_string on an opening quote: the decoded text in its buffer, and where the text goes on. */
  method ParseStringBuffer(v: string) returns (pos: nat, out: array<char>)
    requires Head(v) == '\"' && ParseString(v).Ok?
    ensures out.Length == ScanString(v[1..]).0 + 1 && |ParseString(v).value| < out.Length
    ensures Written(out, |ParseString(v).value|, ParseString(v).value) && out[|ParseString(v).value|] == '\0'
    ensures pos <= |v| && v[pos..] == ParseString(v).rest
  {
    ghost var value, rest := ParseString(v).value, ParseString(v).rest;
    DecodedFits(v[1..]);
    var len := CountString(v[1..]);
    out := new char[len + 1];
    var k: nat := 0;
    pos := 1;
    assert value[0..] == value;
    while pos < |v| && v[pos] != '\"'
      invariant pos <= |v| && Written(out, k, value)
      invariant DecodeString(v[pos..]) == Ok(value[k..], rest)
      decreases |v| - pos
    {
      if v[pos] != '\\' {
        NextPlain(v, pos, value, k, rest);
        k := PutChar(out, k, v[pos], value[k + 1..], value);
        pos := pos + 1;
      } else {
        k, pos := DecodeEscaped(out, k, v, pos, value, rest);
      }
    }
    out[k] := '\0';
    if pos < |v| {
      assert v[pos..][1..] == v[pos + 1..];
      pos := pos + 1;
    }
  }

  method DecodeEscaped(out: array<char>, k: nat, v: string, p: nat, ghost value: string, ghost rest: string)
    returns (k': nat, p': nat)
    requires p < |v| && v[p] == '\\' && Written(out, k, value)
    requires DecodeString(v[p..]) == Ok(value[k..], rest)
    modifies out
    ensures p < p' <= |v| && Written(out, k', value) && DecodeString(v[p'..]) == Ok(value[k'..], rest)
  {
    NextEscape(v, p, value, k, rest);
    k', p' := CopyEscape(out, k, v, p + 1, value);
  }

  /** The next character gives the next of the value. */
  lemma NextPlain(v: string, p: nat, value: string, k: nat, rest: string)
    requires p < |v| && v[p] != '\"' && v[p] != '\\' && k <= |value|
    requires DecodeString(v[p..]) == Ok(value[k..], rest)
    ensures [v[p]] <= value[k..] && k < |value| && DecodeString(v[p + 1..]) == Ok(value[k + 1..], rest)
  {
    assert v[p..][1..] == v[p + 1..];
    DecodeStep(v[p..]);
    Advance(value, k, [v[p]], DecodeString(v[p + 1..]).value);
  }

  /** The next escape gives the next part of the value. */
  lemma NextEscape(v: string, p: nat, value: string, k: nat, rest: string)
    requires p < |v| && v[p] == '\\' && k <= |value|
    requires DecodeString(v[p..]) == Ok(value[k..], rest)
    ensures
      var e := DecodeEscape(v[p + 1..]);
      && e.Ok? && e.value <= value[k..] && k + |e.value| <= |value|
      && DecodeString(e.rest) == Ok(value[k + |e.value|..], rest)
  {
    assert v[p..][1..] == v[p + 1..];
    DecodeStep(v[p..]);
    var e := DecodeEscape(v[p + 1..]);
    Advance(value, k, e.value, DecodeString(e.rest).value);
  }
}
