/** What cJSON_Minify keeps: the compact print of every tree, and the meaning of every accepted text. */
module JsonMinifyProofs {
  import opened Wrappers
  import opened DecimalText
  import opened JsonTree
  import opened JsonParse
  import opened JsonMinify
  import opened JsonRoundTrip

  // ---------------------------------------------------------------- printed text

  /** Characters copied one by one: no white space, no quote, and no slash that could open a comment. */
  predicate IsPlain(s: string) {
    forall i :: 0 <= i < |s| ==> !IsBlank(s[i]) && s[i] != '\"' && s[i] != '/'
  }

  lemma {:induction false} PlainKept(s: string, rest: string)
    requires IsPlain(s)
    ensures Minified(s + rest) == Prefixed(s, Minified(rest))
  {
    if s == "" {
      assert s + rest == rest;
      PrefixedEmpty(Minified(rest));
    } else {
      assert (s + rest)[1..] == s[1..] + rest;
      PlainKept(s[1..], rest);
      assert (s + rest)[..1] == s[..1];
      PrefixedTwice(s[..1], s[1..], Minified(rest));
      assert s[..1] + s[1..] == s;
    }
  }

  lemma {:induction false} BlankDropped(cond: bool, s: string, rest: string)
    requires forall i :: 0 <= i < |s| ==> IsBlank(s[i])
    ensures Minified(When(cond, s, rest)) == Minified(rest)
    decreases s
  {
    if cond && s != "" {
      assert (s + rest)[0] == s[0];
      assert (s + rest)[1..] == s[1..] + rest;
      BlankDropped(cond, s[1..], rest);
    } else {
      assert When(cond, s, rest) == rest;
    }
  }

  lemma PrefixedEmpty(o: Option<string>)
    ensures Prefixed("", o) == o
  {
    if o.Some? {
      assert "" + o.value == o.value;
    }
  }

  lemma PrefixedTwice(a: string, b: string, o: Option<string>)
    ensures Prefixed(a, Prefixed(b, o)) == Prefixed(a + b, o)
  {
    if o.Some? {
      assert a + (b + o.value) == (a + b) + o.value;
    }
  }

  lemma {:induction false} EscapedIsLiteral(s: string, rest: string)
    ensures LiteralLength(Escaped(s, "\"" + rest)) == Some(|Escaped(s, "\"" + rest)| - |rest|)
  {
    if s != "" {
      EscapedIsLiteral(s[1..], rest);
      EscapeCharIsLiteral(s[0], Escaped(s[1..], "\"" + rest));
    }
  }

  /** One ordinary character, or a backslash, a character and ordinary ones. */
  predicate IsEscape(e: string) {
    if |e| == 1 then e[0] != '\"' && e[0] != '\\'
    else |e| >= 2 && e[0] == '\\' && '\"' !in e[2..] && '\\' !in e[2..]
  }

  lemma {:induction false} EscapeIsLiteral(e: string, tail: string)
    requires IsEscape(e) && LiteralLength(tail).Some?
    ensures LiteralLength(e + tail) == Some(|e| + LiteralLength(tail).value)
  {
    if |e| == 1 {
      assert (e + tail)[1..] == tail;
    } else {
      OrdinaryIsLiteral(e[2..], tail);
      assert (e + tail)[2..] == e[2..] + tail;
    }
  }

  lemma EscapeCharIsEscape(c: char)
    ensures IsEscape(EscapeChar(c))
  {
  }

  lemma EscapeCharIsLiteral(c: char, tail: string)
    requires LiteralLength(tail).Some?
    ensures LiteralLength(EscapeChar(c) + tail) == Some(|EscapeChar(c)| + LiteralLength(tail).value)
  {
    EscapeCharIsEscape(c);
    EscapeIsLiteral(EscapeChar(c), tail);
  }

  lemma {:induction false} OrdinaryIsLiteral(s: string, tail: string)
    requires '\"' !in s && '\\' !in s && LiteralLength(tail).Some?
    ensures LiteralLength(s + tail) == Some(|s| + LiteralLength(tail).value)
  {
    if s == "" {
      assert s + tail == tail;
    } else {
      OrdinaryIsLiteral(s[1..], tail);
      assert (s + tail)[1..] == s[1..] + tail;
    }
  }

  lemma StringKept(s: string, rest: string)
    ensures Minified(RenderString(s, rest)) == Prefixed(PrintString(s), Minified(rest))
  {
    var v := RenderString(s, rest);
    EscapedIsLiteral(s, rest);
    StringAppend(s, "", rest);
    assert "" + rest == rest;
    assert v == PrintString(s) + rest;
  }

  lemma DecimalIsPlain(n: int)
    ensures IsPlain(Decimal(n))
  {
    DigitsAreDigits(if n < 0 then -n else n);
  }

  /** Minifying either printed form of a tree gives the compact form, at any depth and before any text. */
  lemma {:induction false} MinifyRendered(j: Json, depth: nat, fmt: bool, depth': nat, rest: string, r: string)
    requires Printable(j) && Minified(rest) == Some(r)
    ensures Minified(RenderValue(j, depth, fmt, rest)) == Some(RenderValue(j, depth', false, r))
    decreases j, 0
  {
    match j
    case Null => PlainKept("null", rest);
    case False => PlainKept("false", rest);
    case True => PlainKept("true", rest);
    case Number(x) => DecimalIsPlain(x.Floor); PlainKept(Decimal(x.Floor), rest);
    case String(s) => StringMinified(s, rest, r);
    case Array(items) =>
      PlainKept("]", rest);
      MinifyItems(items, depth + 1, fmt, depth' + 1, "]" + rest, "]" + r);
      PlainKept("[", RenderItems(items, depth + 1, fmt, "]" + rest));
    case Object(members) => MinifyObject(members, depth, fmt, depth', rest, r);
  }

  lemma StringMinified(s: string, rest: string, r: string)
    requires Minified(rest) == Some(r)
    ensures Minified(RenderString(s, rest)) == Some(RenderString(s, r))
  {
    StringKept(s, rest);
    StringAppend(s, "", r);
    assert "" + r == r;
  }

  lemma {:induction false} MinifyObject(members: Members, depth: nat, fmt: bool, depth': nat, rest: string, r: string)
    requires PrintableMembers(members) && Minified(rest) == Some(r)
    ensures Minified(RenderValue(Object(members), depth, fmt, rest)) == Some(RenderValue(Object(members), depth', false, r))
    decreases members, 3
  {
    if members.NoMember? {
      MinifyNoMembers(depth, fmt, rest, r);
    } else {
      MinifySomeMembers(members, depth, fmt, depth', rest, r);
    }
  }

  lemma {:induction false} MinifySomeMembers(members: Members, depth: nat, fmt: bool, depth': nat, rest: string, r: string)
    requires PrintableMembers(members) && Minified(rest) == Some(r)
    ensures
      var body := RenderMembers(members, depth + 1, fmt, When(fmt, Tabs(depth), "}" + rest));
      Minified("{" + When(fmt, "\n", body)) == Some("{" + RenderMembers(members, depth' + 1, false, "}" + r))
    decreases members, 2
  {
    var close := When(fmt, Tabs(depth), "}" + rest);
    var body := RenderMembers(members, depth + 1, fmt, close);
    MinifyClose(fmt, Tabs(depth), depth, rest, r);
    MinifyMembers(members, depth + 1, fmt, depth' + 1, close, "}" + r);
    BlankDropped(fmt, "\n", body);
    PlainKept("{", When(fmt, "\n", body));
  }

  lemma MinifyClose(fmt: bool, blank: string, n: int, rest: string, r: string)
    requires Minified(rest) == Some(r) && (blank == Tabs(n) || blank == "\n" + Tabs(n))
    ensures Minified(When(fmt, blank, "}" + rest)) == Some("}" + r)
  {
    PlainKept("}", rest);
    TabsAreTabs(n);
    BlankDropped(fmt, blank, "}" + rest);
  }

  lemma MinifyNoMembers(depth: nat, fmt: bool, rest: string, r: string)
    requires Minified(rest) == Some(r)
    ensures Minified("{" + When(fmt, "\n" + Tabs(depth - 1), "}" + rest)) == Some("{" + ("}" + r))
  {
    MinifyClose(fmt, "\n" + Tabs(depth - 1), depth - 1, rest, r);
    PlainKept("{", When(fmt, "\n" + Tabs(depth - 1), "}" + rest));
  }

  lemma {:induction false} MinifyItems(items: Items, depth: nat, fmt: bool, depth': nat, rest: string, r: string)
    requires PrintableItems(items) && Minified(rest) == Some(r)
    ensures Minified(RenderItems(items, depth, fmt, rest)) == Some(RenderItems(items, depth', false, r))
    ensures Minified(AfterItem(items, depth, fmt, rest)) == Some(AfterItem(items, depth', false, r))
    decreases items, 1
  {
    if items.Item? {
      MinifyItems(items.next, depth, fmt, depth', rest, r);
      MinifyRendered(items.value, depth, fmt, depth', AfterItem(items.next, depth, fmt, rest), AfterItem(items.next, depth', false, r));
      var body := RenderItems(items, depth, fmt, rest);
      BlankDropped(fmt, " ", body);
      PlainKept(",", When(fmt, " ", body));
    }
  }

  lemma {:induction false} MinifyMembers(members: Members, depth: nat, fmt: bool, depth': nat, rest: string, r: string)
    requires PrintableMembers(members) && Minified(rest) == Some(r)
    ensures Minified(RenderMembers(members, depth, fmt, rest)) == Some(RenderMembers(members, depth', false, r))
    decreases members, 1
  {
    if members.Member? {
      var Member(key, j, next) := members;
      MinifyMembers(next, depth, fmt, depth', rest, r);
      var tail, tail' := AfterMember(next, depth, fmt, rest), AfterMember(next, depth', false, r);
      MinifyAfterMember(next, depth, fmt, depth', rest, r);
      MinifyRendered(j, depth, fmt, depth', tail, tail');
      var valued := RenderValue(j, depth, fmt, tail);
      BlankDropped(fmt, "\t", valued);
      PlainKept(":", When(fmt, "\t", valued));
      var keyed := ":" + When(fmt, "\t", valued);
      StringMinified(key, keyed, ":" + RenderValue(j, depth', false, tail'));
      TabsAreTabs(depth);
      BlankDropped(fmt, Tabs(depth), RenderString(key, keyed));
    }
  }

  lemma MinifyAfterMember(next: Members, depth: nat, fmt: bool, depth': nat, rest: string, r: string)
    requires Minified(RenderMembers(next, depth, fmt, rest)) == Some(RenderMembers(next, depth', false, r))
    ensures Minified(AfterMember(next, depth, fmt, rest)) == Some(AfterMember(next, depth', false, r))
  {
    var body := RenderMembers(next, depth, fmt, rest);
    BlankDropped(fmt, "\n", body);
    PlainKept(",", When(fmt, "\n", body));
  }

  /** The commuting square: minify after either print is the compact print. */
  lemma MinifyPrinted(j: Json, depth: nat, fmt: bool, depth': nat)
    requires Printable(j)
    ensures Minified(PrintValue(j, depth, fmt)) == Some(PrintValue(j, depth', false))
  {
    MinifyRendered(j, depth, fmt, depth', "", "");
  }

  // ---------------------------------------------------------------- every accepted text

  /** The parser's scan for the closing quote and the minifier's find the same one, or both find none. */
  lemma {:induction false} LiteralClosed(v: string)
    ensures LiteralLength(v).Some? <==> ScanString(v).1 != ""
    decreases |v|
  {
    if v != "" && v[0] != '\"' {
      if v[0] != '\\' {
        LiteralClosed(v[1..]);
      } else if |v| > 1 {
        LiteralClosed(v[2..]);
      }
    }
  }

  lemma HexIsLiteral(v: string)
    requires StartsWithHex4(v)
    ensures LiteralLength(v).Some? <==> LiteralLength(v[4..]).Some?
    ensures LiteralLength(v).Some? ==> LiteralLength(v).value == 4 + LiteralLength(v[4..]).value
  {
    var v1 := v[1..];
    var v2 := v1[1..];
    var v3 := v2[1..];
    assert v1[0] == v[1] && v2[0] == v[2] && v3[0] == v[3] && v3[1..] == v[4..];
    assert forall i :: 0 <= i < 4 ==> IsHex(v[i]);
    assert LiteralLength(v3).Some? <==> LiteralLength(v[4..]).Some?;
    assert LiteralLength(v2).Some? <==> LiteralLength(v3).Some?;
    assert LiteralLength(v1).Some? <==> LiteralLength(v2).Some?;
  }

  /** Whether a literal is closed, and where, can be read off behind \u. */
  lemma UnicodeInLiteral(v: string)
    requires DecodeUnicode(v).Ok?
    ensures
      var rest := DecodeUnicode(v).rest;
      && (LiteralLength(v).Some? <==> LiteralLength(rest).Some?)
      && (LiteralLength(v).Some? ==> LiteralLength(v).value == |v| - |rest| + LiteralLength(rest).value)
  {
    HexIsLiteral(v);
    if DecodeUnicode(v).rest != v[4..] {
      assert v[4..][2..] == v[6..] && v[6..][4..] == v[10..];
      HexIsLiteral(v[6..]);
    }
  }

  predicate Agree(v: string, y: string, n: nat) {
    n <= |v| && n <= |y| && forall i {:trigger y[i]} :: 0 <= i < n ==> y[i] == v[i]
  }

  lemma HexAgrees(v: string, y: string)
    requires StartsWithHex4(v) && Agree(v, y, 4)
    ensures StartsWithHex4(y) && Hex4(y) == Hex4(v)
  {
    assert forall i :: 0 <= i < 4 ==> y[i] == v[i];
  }

  /** Within a closed literal \u is read the same in any text that has the literal. */
  lemma UnicodeLocal(v: string, y: string, n: nat)
    requires DecodeUnicode(v).Ok? && LiteralLength(v) == Some(n) && Agree(v, y, n)
    ensures var k := |v| - |DecodeUnicode(v).rest|; k < n && DecodeUnicode(y) == Ok(DecodeUnicode(v).value, y[k..])
  {
    UnicodeInLiteral(v);
    HexIsLiteral(v);
    HexAgrees(v, y);
    assert Head(y[4..]) == v[4] == Head(v[4..]);
    if v[4] == '\\' {
      assert v[4..][2..] == v[6..];
      assert Head(y[5..]) == v[5] == Head(v[5..]);
      if IsHighSurrogate(Hex4(v)) && v[5] == 'u' {
        HexIsLiteral(v[6..]);
        HexAgrees(v[6..], y[6..]);
      }
    }
  }

  lemma {:induction false} EscapeInLiteral(v: string)
    requires v != "" && v[0] == '\\' && DecodeEscape(v[1..]).Ok?
    ensures
      var rest := DecodeEscape(v[1..]).rest;
      && (LiteralLength(v).Some? <==> LiteralLength(rest).Some?)
      && (LiteralLength(v).Some? ==> LiteralLength(v).value == |v| - |rest| + LiteralLength(rest).value)
  {
    assert v[1..][1..] == v[2..];
    if v[1] == 'u' {
      UnicodeInLiteral(v[2..]);
    }
  }

  lemma PlainEscapeLocal(w: string, x: string)
    requires w != "" && x != "" && w[0] == x[0] != 'u'
    ensures DecodeEscape(w).Ok? && DecodeEscape(w).rest == w[1..]
    ensures DecodeEscape(x) == Ok(DecodeEscape(w).value, x[1..])
  {
  }

  lemma UnicodeEscapeIs(w: string)
    requires w != "" && w[0] == 'u'
    ensures DecodeEscape(w) == DecodeUnicode(w[1..])
  {
  }

  lemma UnicodeEscapeLocal(w: string, x: string, n: nat) returns (k: nat)
    requires w != "" && w[0] == 'u' && DecodeUnicode(w[1..]).Ok? && LiteralLength(w[1..]) == Some(n) && Agree(w, x, n + 1)
    ensures 0 < k <= n
    ensures DecodeEscape(w) == Ok(DecodeUnicode(w[1..]).value, w[k..]) && DecodeEscape(x) == Ok(DecodeUnicode(w[1..]).value, x[k..])
  {
    var v, y := w[1..], x[1..];
    assert Agree(v, y, n);
    UnicodeLocal(v, y, n);
    k := 1 + |v| - |DecodeUnicode(v).rest|;
    assert DecodeUnicode(v).rest == v[k - 1..];
    assert v[k - 1..] == w[k..] && y[k - 1..] == x[k..];
    UnicodeEscapeIs(w);
    UnicodeEscapeIs(x);
  }

  lemma EscapeBodyLocal(w: string, x: string, n: nat) returns (k: nat)
    requires w != "" && DecodeEscape(w).Ok? && LiteralLength(w[1..]) == Some(n) && Agree(w, x, n + 1)
    ensures 0 < k <= n
    ensures DecodeEscape(w).rest == w[k..] && DecodeEscape(x) == Ok(DecodeEscape(w).value, x[k..])
  {
    assert w[0] == x[0];
    if w[0] == 'u' {
      UnicodeEscapeIs(w);
      k := UnicodeEscapeLocal(w, x, n);
    } else {
      PlainEscapeLocal(w, x);
      k := 1;
    }
  }

  lemma EscapeLocal(v: string, y: string, n: nat) returns (k: nat)
    requires v != "" && v[0] == '\\' && DecodeEscape(v[1..]).Ok?
    requires LiteralLength(v) == Some(n) && Agree(v, y, n)
    ensures 0 < k < n
    ensures DecodeEscape(v[1..]).rest == v[k..] && DecodeEscape(y[1..]) == Ok(DecodeEscape(v[1..]).value, y[k..])
  {
    var w, x := v[1..], y[1..];
    assert w[1..] == v[2..];
    assert Agree(w, x, n - 1);
    var j := EscapeBodyLocal(w, x, n - 2);
    k := j + 1;
    assert w[j..] == v[k..] && x[j..] == y[k..];
  }

  lemma AgreeBehind(v: string, y: string, n: nat, k: nat)
    requires Agree(v, y, n) && k <= n
    ensures Agree(v[k..], y[k..], n - k)
  {
  }

  /** The first k characters of both literals stand for e, and the others are left to compare. */
  predicate Step(v: string, y: string, n: nat, k: nat, e: string) {
    && 0 < k < n && Agree(v, y, n) && LiteralLength(v[k..]) == Some(n - k)
    && DecodeString(v[k..]).Ok? && DecodeString(v) == Ok(e + DecodeString(v[k..]).value, DecodeString(v[k..]).rest)
    && var r := DecodeString(y[k..]); r.Ok? ==> DecodeString(y) == Ok(e + r.value, r.rest)
  }

  lemma EscapeStep(v: string, y: string, n: nat) returns (k: nat)
    requires LiteralLength(v) == Some(n) && DecodeString(v).Ok? && Agree(v, y, n) && v[0] == '\\'
    ensures DecodeEscape(v[1..]).Ok? && Step(v, y, n, k, DecodeEscape(v[1..]).value)
  {
    DecodeStep(v);
    DecodeStep(y);
    k := EscapeLocal(v, y, n);
    EscapeInLiteral(v);
  }

  lemma {:induction false} PlainStep(v: string, y: string, n: nat)
    requires LiteralLength(v) == Some(n) && DecodeString(v).Ok? && Agree(v, y, n) && v[0] != '\\' && v[0] != '\"'
    ensures Step(v, y, n, 1, [v[0]])
  {
    DecodeStep(v);
    DecodeStep(y);
  }

  /** A closed literal means the same in front of any text. */
  lemma {:induction false} LiteralLocal(v: string, y: string, n: nat)
    requires LiteralLength(v) == Some(n) && DecodeString(v).Ok?
    requires Agree(v, y, n)
    ensures DecodeString(v).rest == v[n..] && DecodeString(y) == Ok(DecodeString(v).value, y[n..])
    decreases |v|
  {
    if v[0] != '\"' {
      var k := 1;
      if v[0] == '\\' {
        k := EscapeStep(v, y, n);
      } else {
        PlainStep(v, y, n);
      }
      AgreeBehind(v, y, n, k);
      LiteralLocal(v[k..], y[k..], n - k);
      assert v[k..][n - k..] == v[n..] && y[k..][n - k..] == y[n..];
    }
  }

  /** Text behind a string shows that the string was closed. */
  lemma {:induction false} RestMeansClosed(v: string)
    requires DecodeString(v).Ok? && DecodeString(v).rest != ""
    ensures LiteralLength(v).Some?
    decreases |v|
  {
    if v[0] != '\"' {
      DecodeStep(v);
      if v[0] == '\\' {
        EscapeInLiteral(v);
        RestMeansClosed(DecodeEscape(v[1..]).rest);
      } else {
        RestMeansClosed(v[1..]);
      }
    }
  }
}
