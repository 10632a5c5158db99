/** Minifying keeps the meaning of every text the parser accepts, not only of printed ones. */
module JsonMinifyMeaning {
  import opened Wrappers
  import opened DecimalText
  import opened JsonTree
  import opened JsonParse
  import opened JsonMinify
  import opened JsonRoundTrip
  import opened JsonMinifyProofs

  // ---------------------------------------------------------------- numbers

  /** y has the first n characters of t, and no number goes on behind them. */
  predicate SameTo(t: string, y: string, n: nat) {
    Agree(t, y, n) && !IsDigit(At(y, n)) && At(y, n) !in ".eE+-"
  }

  lemma DigitsEndLocal(t: string, y: string, i: nat, n: nat)
    requires i <= n && SameTo(t, y, n) && DigitsEnd(t, i) <= n
    ensures DigitsEnd(y, i) == DigitsEnd(t, i)
  {
    DigitsEndAt(y, i, DigitsEnd(t, i));
  }

  lemma MantissaLocal(t: string, y: string, i: nat, n: nat)
    requires i <= n && SameTo(t, y, n) && MantissaEnd(t, i) <= n
    ensures MantissaEnd(y, i) == MantissaEnd(t, i)
  {
    var j := if At(t, i) == '0' then i + 1 else i;
    if '1' <= At(t, j) <= '9' {
      DigitsEndLocal(t, y, j, n);
    }
  }

  lemma FractionLocal(t: string, y: string, i: nat, n: nat)
    requires i <= n && SameTo(t, y, n) && FractionEnd(t, i) <= n
    ensures FractionEnd(y, i) == FractionEnd(t, i)
  {
    if At(t, i) == '.' && IsDigit(At(t, i + 1)) {
      DigitsEndLocal(t, y, i + 1, n);
    }
  }

  lemma ExponentLocal(t: string, y: string, i: nat, n: nat)
    requires i <= n && SameTo(t, y, n) && ExponentEnd(t, i) <= n
    ensures ExponentEnd(y, i) == ExponentEnd(t, i)
  {
    if At(t, i) == 'e' || At(t, i) == 'E' {
      DigitsEndLocal(t, y, ExponentDigits(t, i), n);
    }
  }

  /** A number is read the same in front of any text with which no number goes on. */
  lemma NumberLocal(t: string, y: string)
    requires SameTo(t, y, NumberEnd(t))
    ensures NumberEnd(y) == NumberEnd(t) && ParseNumber(y) == (ParseNumber(t).0, y[NumberEnd(t)..])
  {
    var e := NumberEnd(t);
    var s := SignEnd(t);
    var m := MantissaEnd(t, s);
    assert SignEnd(y) == s;
    MantissaLocal(t, y, s, e);
    FractionLocal(t, y, m, e);
    ExponentLocal(t, y, FractionEnd(t, m), e);
    assert y[..e] == t[..e];
  }

  lemma NumberIsPlain(t: string)
    ensures IsPlain(t[..NumberEnd(t)])
  {
    var s := SignEnd(t);
    var m := MantissaEnd(t, s);
    var f := FractionEnd(t, m);
    var e := NumberEnd(t);
    assert forall i :: 0 <= i < s ==> t[i] == '-';
    assert forall i :: s <= i < m ==> IsDigit(t[i]);
    assert forall i :: m <= i < f ==> t[i] == '.' || IsDigit(t[i]);
    assert forall i :: f <= i < e ==> IsDigit(t[i]) || t[i] in "eE+-";
  }

  // ---------------------------------------------------------------- trees
  // Each lemma: if what is left of the text behind a value minifies to w, the value's own text
  // minifies to one that parses to the same value and leaves w.

  lemma {:induction false} SkipKept(v: string)
    requires Minified(Skip(v)).Some?
    ensures Minified(v).Some? && Skip(Minified(v).value) == Skip(Minified(Skip(v)).value)
    ensures Minified(v) == Minified(Skip(v)) || (Minified(v).value != "" && Minified(v).value[0] <= ' ')
  {
    if v != "" && v[0] <= ' ' {
      SkipKept(v[1..]);
      if !IsBlank(v[0]) {
        var m := Minified(v[1..]).value;
        assert (v[..1] + m)[1..] == m;
      }
    }
  }

  /** What a value can begin with. */
  lemma ValueHead(v: string)
    requires ParseValue(v).Ok?
    ensures v != "" && v[0] > ' ' && v[0] !in "]},:/"
  {
  }

  predicate Closed(v: string) {
    Head(v) == '\"' ==> LiteralLength(v[1..]).Some?
  }

  lemma PrefixSplit(p: string, v: string)
    requires p <= v
    ensures v == p + v[|p|..]
  {
  }

  lemma WordMeaning(p: string, v: string, w: string)
    requires p in {"null", "false", "true"} && p <= v && Minified(v[|p|..]) == Some(w)
    ensures Minified(v) == Some(p + w) && ParseValue(p + w) == Ok(ParseValue(v).value, w)
  {
    PrefixSplit(p, v);
    PlainKept(p, v[|p|..]);
    assert (p + w)[..|p|] == p;
    assert (p + w)[|p|..] == w;
    assert (p + w)[0] == p[0] == v[0];
  }

  lemma NumberStep(v: string)
    requires Head(v) == '-' || IsDigit(Head(v))
    ensures ParseValue(v) == Ok(Number(ParseNumber(v).0), ParseNumber(v).1)
  {
  }

  lemma NumberMeaning(v: string, w: string)
    requires (Head(v) == '-' || IsDigit(Head(v))) && EndsNumber(w)
    requires Minified(ParseNumber(v).1) == Some(w)
    ensures Minified(v).Some? && ParseValue(Minified(v).value) == Ok(Number(ParseNumber(v).0), w)
  {
    var e := NumberEnd(v);
    var p := v[..e];
    var y := p + w;
    NumberIsPlain(v);
    PlainKept(p, v[e..]);
    PrefixSplit(p, v);
    assert y[0] == p[0] == v[0];
    assert At(y, e) == Head(w);
    NumberLocal(v, y);
    NumberStep(y);
  }

  lemma StringMeaning(v: string, w: string)
    requires Head(v) == '\"' && ParseString(v).Ok? && Closed(v)
    requires Minified(ParseString(v).rest) == Some(w)
    ensures Minified(v).Some? && ParseString(Minified(v).value) == Ok(ParseString(v).value, w)
  {
    var n := LiteralLength(v[1..]).value;
    var y := v[..n + 1] + w;
    assert v[1..][n..] == v[n + 1..] && y[1..][n..] == w;
    LiteralLocal(v[1..], y[1..], n);
  }

  lemma {:induction false} ValueMeaning(v: string, w: string)
    requires ParseValue(v).Ok? && Closed(v)
    requires Minified(ParseValue(v).rest) == Some(w) && (EndsNumber(w) || !(Head(v) == '-' || IsDigit(Head(v))))
    ensures Minified(v).Some? && ParseValue(Minified(v).value) == Ok(ParseValue(v).value, w)
    decreases |v|, 1
  {
    if "null" <= v {
      WordMeaning("null", v, w);
    } else if "false" <= v {
      WordMeaning("false", v, w);
    } else if "true" <= v {
      WordMeaning("true", v, w);
    } else if Head(v) == '\"' {
      StringMeaning(v, w);
    } else if Head(v) == '-' || IsDigit(Head(v)) {
      NumberMeaning(v, w);
    } else if Head(v) == '[' {
      ArrayMeaning(v, w);
    } else {
      ObjectMeaning(v, w);
    }
  }

  /** A character the minifier copies. */
  lemma CharKept(c: char, v: string)
    requires c in "[]{},:" && v != "" && v[0] == c && Minified(v[1..]).Some?
    ensures Minified(v).Some? && Minified(v).value != ""
    ensures Minified(v).value[0] == c && Minified(v).value[1..] == Minified(v[1..]).value
  {
  }

  lemma {:induction false} ArrayMeaning(v: string, w: string)
    requires Head(v) == '[' && ParseValue(v).Ok?
    requires Minified(ParseValue(v).rest) == Some(w)
    ensures Minified(v).Some? && ParseValue(Minified(v).value) == Ok(ParseValue(v).value, w)
    decreases |v|, 0
  {
    var v1 := Skip(v[1..]);
    ArrayStep(v);
    if Head(v1) == ']' {
      CharKept(']', v1);
    } else {
      ItemsMeaning(v1, w);
      ItemsHead(Minified(v1).value);
    }
    SkipKept(v[1..]);
    CharKept('[', v);
    ArrayStep(Minified(v).value);
    SkipFirstItems(Minified(v1).value);
  }

  /** ParseItems and ParseMembers begin with Skip. */
  lemma SkipFirstItems(v: string)
    ensures ParseItems(Skip(v)) == ParseItems(v)
  {
  }

  lemma SkipFirstMembers(v: string)
    ensures ParseMembers(Skip(v)) == ParseMembers(v)
  {
  }

  lemma ItemsHead(v: string)
    requires ParseItems(v).Ok?
    ensures Head(Skip(v)) != ']'
  {
    ValueHead(Skip(v));
  }

  /** A separator behind blanks is still the next visible character, and no number runs into it. */
  lemma SeparatorKept(v: string)
    requires Head(Skip(v)) in "[]{},:" && Minified(Skip(v)[1..]).Some?
    ensures Minified(v).Some? && EndsNumber(Minified(v).value)
    ensures
      var t := Skip(Minified(v).value);
      t != "" && t[0] == Skip(v)[0] && t[1..] == Minified(Skip(v)[1..]).value
  {
    CharKept(Skip(v)[0], Skip(v));
    SkipKept(v);
  }

  lemma {:induction false} ItemsMeaning(v: string, w: string)
    requires ParseItems(v).Ok? && Minified(ParseItems(v).rest) == Some(w)
    ensures Minified(v).Some? && ParseItems(Minified(v).value) == Ok(ParseItems(v).value, w)
    decreases |v|, 3
  {
    var v1 := Skip(v);
    var Ok(j, v2) := ParseValue(v1);
    ItemsStep(v, j, v2);
    if Head(Skip(v2)) == ',' {
      ItemsMeaning(Skip(v2)[1..], w);
    }
    SeparatorKept(v2);
    ItemValueMeaning(v1);
    ValueHead(Minified(v1).value);
    SkipKept(v);
    ItemsStep(Minified(v).value, j, Minified(v2).value);
  }

  /** The value of an element or member: what follows it shows that it is closed and ended. */
  lemma {:induction false} ItemValueMeaning(v: string)
    requires ParseValue(v).Ok? && ParseValue(v).rest != ""
    requires var w := Minified(ParseValue(v).rest); w.Some? && EndsNumber(w.value)
    ensures Minified(v).Some? && ParseValue(Minified(v).value) == Ok(ParseValue(v).value, Minified(ParseValue(v).rest).value)
    decreases |v|, 2
  {
    if Head(v) == '\"' {
      RestMeansClosed(v[1..]);
    }
    ValueMeaning(v, Minified(ParseValue(v).rest).value);
  }

  lemma {:induction false} ObjectMeaning(v: string, w: string)
    requires Head(v) == '{' && ParseValue(v).Ok?
    requires Minified(ParseValue(v).rest) == Some(w)
    ensures Minified(v).Some? && ParseValue(Minified(v).value) == Ok(ParseValue(v).value, w)
    decreases |v|, 0
  {
    var v1 := Skip(v[1..]);
    ObjectStep(v);
    if Head(v1) == '}' {
      CharKept('}', v1);
    } else {
      MembersMeaning(v1, w);
      MembersHead(Minified(v1).value);
    }
    SkipKept(v[1..]);
    CharKept('{', v);
    ObjectStep(Minified(v).value);
    SkipFirstMembers(Minified(v1).value);
  }

  lemma MembersHead(v: string)
    requires ParseMembers(v).Ok?
    ensures Head(Skip(v)) != '}'
  {
  }

  lemma {:induction false} MembersMeaning(v: string, w: string)
    requires ParseMembers(v).Ok? && Minified(ParseMembers(v).rest) == Some(w)
    ensures Minified(v).Some? && ParseMembers(Minified(v).value) == Ok(ParseMembers(v).value, w)
    decreases |v|, 3
  {
    var v0 := Skip(v);
    var Ok(key, v1) := ParseString(v0);
    var v3 := Skip(Skip(v1)[1..]);
    var Ok(j, v4) := ParseValue(v3);
    MembersStep(v, key, v1, j, v4);
    if Head(Skip(v4)) == ',' {
      MembersMeaning(Skip(v4)[1..], w);
    }
    SeparatorKept(v4);
    ItemValueMeaning(v3);
    ValueHead(Minified(v3).value);
    SkipKept(Skip(v1)[1..]);
    SeparatorKept(v1);
    KeyMeaning(v0);
    SkipKept(v);
    MembersStep(Minified(v).value, key, Minified(v1).value, j, Minified(v4).value);
  }

  lemma KeyMeaning(v: string)
    requires ParseString(v).Ok? && ParseString(v).rest != "" && Minified(ParseString(v).rest).Some?
    ensures Minified(v).Some? && ParseString(Minified(v).value) == Ok(ParseString(v).value, Minified(ParseString(v).rest).value)
    ensures Head(Minified(v).value) == '\"'
  {
    RestMeansClosed(v[1..]);
    StringMeaning(v, Minified(ParseString(v).rest).value);
  }

  // ---------------------------------------------------------------- the minifier comes through
  // A minifier that stays inside a text stays inside what is left of it behind a value.

  lemma {:induction false} SkipReached(v: string)
    requires Minified(v).Some?
    ensures Minified(Skip(v)).Some?
  {
    if v != "" && v[0] <= ' ' {
      SkipReached(v[1..]);
    }
  }

  lemma CharReached(c: char, v: string)
    requires c in "[]{},:" && v != "" && v[0] == c && Minified(v).Some?
    ensures Minified(Skip(v[1..])).Some? && Minified(v[1..]).Some?
  {
    SkipReached(v[1..]);
  }

  lemma StringReached(v: string)
    requires Head(v) == '\"' && ParseString(v).Ok? && Minified(v).Some?
    ensures Minified(ParseString(v).rest).Some?
  {
    var n := LiteralLength(v[1..]).value;
    LiteralLocal(v[1..], v[1..], n);
    assert v[1..][n..] == v[n + 1..];
  }

  lemma PlainReached(p: string, v: string)
    requires IsPlain(p) && p <= v && Minified(v).Some?
    ensures Minified(v[|p|..]).Some?
  {
    PrefixSplit(p, v);
    PlainKept(p, v[|p|..]);
  }

  lemma {:induction false} RestReached(v: string)
    requires ParseValue(v).Ok? && Minified(v).Some?
    ensures Minified(ParseValue(v).rest).Some?
    decreases |v|, 1
  {
    if "null" <= v {
      PlainReached("null", v);
    } else if "false" <= v {
      PlainReached("false", v);
    } else if "true" <= v {
      PlainReached("true", v);
    } else if Head(v) == '\"' {
      StringReached(v);
    } else if Head(v) == '-' || IsDigit(Head(v)) {
      NumberIsPlain(v);
      PlainReached(v[..NumberEnd(v)], v);
    } else {
      BracketsReached(v);
    }
  }

  lemma {:induction false} BracketsReached(v: string)
    requires (Head(v) == '[' || Head(v) == '{') && ParseValue(v).Ok? && Minified(v).Some?
    ensures Minified(ParseValue(v).rest).Some?
    decreases |v|, 0
  {
    var v1 := Skip(v[1..]);
    CharReached(v[0], v);
    if v[0] == '[' {
      ArrayStep(v);
      if Head(v1) == ']' {
        CharReached(']', v1);
      } else {
        ItemsReached(v1);
      }
    } else {
      ObjectStep(v);
      if Head(v1) == '}' {
        CharReached('}', v1);
      } else {
        MembersReached(v1);
      }
    }
  }

  lemma {:induction false} ItemsReached(v: string)
    requires ParseItems(v).Ok? && Minified(v).Some?
    ensures Minified(ParseItems(v).rest).Some?
    decreases |v|, 2
  {
    var Ok(j, v2) := ParseValue(Skip(v));
    ItemsStep(v, j, v2);
    SkipReached(v);
    RestReached(Skip(v));
    SkipReached(v2);
    CharReached(Head(Skip(v2)), Skip(v2));
    if Head(Skip(v2)) == ',' {
      ItemsReached(Skip(v2)[1..]);
    }
  }

  lemma {:induction false} MembersReached(v: string)
    requires ParseMembers(v).Ok? && Minified(v).Some?
    ensures Minified(ParseMembers(v).rest).Some?
    decreases |v|, 2
  {
    var Ok(key, v1) := ParseString(Skip(v));
    var v3 := Skip(Skip(v1)[1..]);
    var Ok(j, v4) := ParseValue(v3);
    MembersStep(v, key, v1, j, v4);
    SkipReached(v);
    StringReached(Skip(v));
    SkipReached(v1);
    CharReached(':', Skip(v1));
    RestReached(v3);
    SkipReached(v4);
    CharReached(Head(Skip(v4)), Skip(v4));
    if Head(Skip(v4)) == ',' {
      MembersReached(Skip(v4)[1..]);
    }
  }

  // ---------------------------------------------------------------- the theorems

  /** A number that goes on in the text w put behind it. */
  predicate GoesOn(v: string, w: string) {
    && (Head(v) == '-' || IsDigit(Head(v)))
    && var p := v[..NumberEnd(v)]; NumberEnd(p + w) != |p|
  }

  lemma HeadKept(v: string)
    requires v != "" && v[0] > ' ' && v[0] != '/' && Minified(v).Some?
    ensures Minified(v).value != "" && Minified(v).value[0] == v[0]
  {
  }

  /** A value keeps its meaning exactly if it is no number that goes on in what the minifier makes of the rest. */
  lemma ValueKept(v: string, w: string)
    requires ParseValue(v).Ok? && Closed(v) && Minified(ParseValue(v).rest) == Some(w)
    ensures Minified(v).Some?
    ensures ParseValue(Minified(v).value) == Ok(ParseValue(v).value, w) <==> !GoesOn(v, w)
  {
    if Head(v) == '-' || IsDigit(Head(v)) {
      NumberKept(v, w);
    } else {
      ValueMeaning(v, w);
    }
  }

  lemma NumberKept(v: string, w: string)
    requires (Head(v) == '-' || IsDigit(Head(v))) && Minified(ParseNumber(v).1) == Some(w)
    ensures Minified(v).Some?
    ensures ParseValue(Minified(v).value) == Ok(ParseValue(v).value, w) <==> !GoesOn(v, w)
  {
    var p := v[..NumberEnd(v)];
    var y := p + w;
    NumberIsPlain(v);
    PrefixSplit(p, v);
    PlainKept(p, v[|p|..]);
    NumberStep(v);
    assert y[0] == p[0] == v[0];
    NumberStep(y);
    assert |y[NumberEnd(y)..]| == |w| ==> NumberEnd(y) == |p|;
    if NumberEnd(y) == |p| {
      assert y[..|p|] == p && y[|p|..] == w;
    }
  }

  /**
   * Of a text that cJSON_Parse accepts, whatever stands behind the value, the minifier stays inside exactly
   * if the value is no string without a closing quote and it stays inside what is behind the value. Then value
   * and rest are kept exactly if the value is no number that goes on in the minified rest.
   */
  lemma MinifyKeepsMeaning(v: string)
    requires ParseText(v, false).Ok?
    ensures
      var v1, r := Skip(v), ParseText(v, false);
      var closed := Head(v1) == '\"' ==> ScanString(v1[1..]).1 != "";
      && (Minified(v).Some? <==> closed && Minified(r.rest).Some?)
      && (Minified(v).Some? ==>
            (ParseText(Minified(v).value, false) == Ok(r.value, Minified(r.rest).value) <==> !GoesOn(v1, Minified(r.rest).value)))
  {
    var v1 := Skip(v);
    var rest := ParseValue(v1).rest;
    if Head(v1) == '\"' {
      LiteralClosed(v1[1..]);
    }
    if !Closed(v1) {
      UnclosedOverruns(v);
    } else if Minified(rest).Some? {
      ValueKept(v1, Minified(rest).value);
      SkipKept(v);
      ValueHead(v1);
      HeadKept(v1);
    } else if Minified(v).Some? {
      SkipReached(v);
      RestReached(v1);
    }
  }

  /**
   * Every text cJSON_ParseWithOpts accepts up to its end means the same after cJSON_Minify, unless
   * the text is one string without a closing quote, which the parser accepts and the minifier runs over.
   */
  lemma MinifyKeepsWhole(v: string)
    requires ParseText(v, true).Ok?
    ensures
      var closed := Head(Skip(v)) == '\"' ==> ScanString(Skip(v)[1..]).1 != "";
      (Minified(v).Some? && ParseText(Minified(v).value, true) == ParseText(v, true)) <==> closed
  {
    var v1 := Skip(v);
    var rest := ParseValue(v1).rest;
    if Head(v1) == '\"' {
      LiteralClosed(v1[1..]);
    }
    if Closed(v1) {
      SkipKept(rest);
      ValueMeaning(v1, Minified(rest).value);
      SkipKept(v);
      ValueHead(Minified(v1).value);
    } else {
      UnclosedOverruns(v);
    }
  }

  lemma {:induction false} UnclosedOverruns(v: string)
    requires Head(Skip(v)) == '\"' && LiteralLength(Skip(v)[1..]).None?
    ensures Minified(v).None?
  {
    if v[0] <= ' ' {
      UnclosedOverruns(v[1..]);
    }
  }

  /** The text 1 2 is accepted for its first number, and becomes 12. */
  lemma NumbersJoin()
    ensures ParseText("1 2", false) == Ok(Number(1.0), " 2") && Minified("1 2") == Some("12")
    ensures ParseText("12", false) == Ok(Number(12.0), "")
  {
    assert Minified("2") == Some("2") by {
      assert "2"[1..] == "" && "2"[..1] + "" == "2";
    }
    assert " 2"[1..] == "2" && "1 2"[1..] == " 2" && "1 2"[..1] + "2" == "12";
    ReadsAs("1 2", 1, 1.0);
    ReadsAs("12", 2, 12.0);
    assert "1 2"[1..] == " 2" && "12"[2..] == "";
  }

  lemma ReadsAs(v: string, e: nat, x: real)
    requires 0 < e <= |v| && '1' <= v[0] <= '9' && NumberEnd(v) == e && NumberValue(v[..e]) == x
    ensures ParseText(v, false) == Ok(Number(x), v[e..])
  {
    NumberStep(v);
  }

  /** The text 1"a is accepted for its number, and the minifier runs past its end. */
  lemma QuoteBehindNumber()
    ensures ParseText("1\"a", false) == Ok(Number(1.0), "\"a") && Minified("1\"a").None?
  {
    var v := "1\"a";
    UnclosedExample();
    assert v[1..] == "\"a";
    ReadsAs(v, 1, 1.0);
  }

  /** The text "a without a closing quote is accepted as a string, and the minifier runs past its end. */
  lemma UnclosedExample()
    ensures ParseText("\"a", true) == Ok(String("a"), "") && Minified("\"a").None?
  {
    var v := "\"a";
    assert v[1..] == "a" && "a"[1..] == "";
    assert DecodeString("") == Ok("", "") && ["a"[0]] + "" == "a";
    assert DecodeString("a") == Ok("a", "");
    assert ParseValue(v) == Ok(String("a"), "");
    assert LiteralLength("a").None?;
  }
}
