/** The form of what is printed, what the escapes stand for, and what the minifier drops. */
module JsonExamples {
  import opened DecimalText
  import opened Wrappers
  import opened JsonTree
  import opened JsonParse
  import opened JsonRoundTrip
  import opened JsonPrint
  import opened JsonMinify
  import opened JsonMinifyProofs
  import Utf8

  // ---------------------------------------------------------------- printing

  function Join(separator: string, parts: seq<string>): string {
    if parts == [] then ""
    else if |parts| == 1 then parts[0]
    else parts[0] + (separator + Join(separator, parts[1..]))
  }

  function Elements(items: Items, depth: nat, fmt: bool): seq<string> {
    if items.NoItem? then [] else [PrintValue(items.value, depth, fmt)] + Elements(items.next, depth, fmt)
  }

  /** Key and value, on a line of their own if formatted. */
  function Entry(key: string, value: Json, depth: nat, fmt: bool): string {
    if fmt then Tabs(depth) + (PrintString(key) + (":\t" + PrintValue(value, depth, fmt)))
    else PrintString(key) + (":" + PrintValue(value, depth, fmt))
  }

  function Entries(members: Members, depth: nat, fmt: bool): seq<string> {
    if members.NoMember? then []
    else [Entry(members.key, members.value, depth, fmt)] + Entries(members.next, depth, fmt)
  }

  lemma Prefixes(a: string, b: string, c: string, rest: string)
    ensures a + (b + (c + rest)) == (a + (b + c)) + rest
  {
  }

  lemma {:induction false} ElementsJoined(items: Items, depth: nat, fmt: bool, rest: string)
    ensures RenderItems(items, depth, fmt, rest) == Join(if fmt then ", " else ",", Elements(items, depth, fmt)) + rest
  {
    if items.Item? {
      var parts, sep := Elements(items.next, depth, fmt), if fmt then ", " else ",";
      ElementsJoined(items.next, depth, fmt, rest);
      RenderIsPrint(items.value, depth, fmt, AfterItem(items.next, depth, fmt, rest));
      assert ([PrintValue(items.value, depth, fmt)] + parts)[1..] == parts;
      if items.next.Item? {
        Separated(fmt, RenderItems(items.next, depth, fmt, rest));
        Prefixes(PrintValue(items.value, depth, fmt), sep, Join(sep, parts), rest);
      }
    }
  }

  lemma Separated(fmt: bool, s: string)
    ensures "," + When(fmt, " ", s) == (if fmt then ", " else ",") + s
  {
  }

  /** An array is its elements between brackets, with commas, and blanks behind them if formatted. */
  lemma ArrayPrinted(items: Items, depth: nat, fmt: bool)
    ensures PrintValue(Array(items), depth, fmt) ==
            "[" + (Join(if fmt then ", " else ",", Elements(items, depth + 1, fmt)) + "]")
  {
    ElementsJoined(items, depth + 1, fmt, "]" + "");
  }

  lemma EntryText(fmt: bool, tabs: string, key: string, value: string, tail: string)
    ensures When(fmt, tabs, key + (":" + When(fmt, "\t", value + tail))) ==
            (if fmt then tabs + (key + (":\t" + value)) else key + (":" + value)) + tail
  {
    if fmt {
      assert ":" + ("\t" + (value + tail)) == (":\t" + value) + tail;
      Associative(key, ":\t" + value, tail);
      Associative(tabs, key + (":\t" + value), tail);
    } else {
      assert ":" + (value + tail) == (":" + value) + tail;
      Associative(key, ":" + value, tail);
    }
  }

  lemma EntryPrinted(members: Members, depth: nat, fmt: bool, rest: string)
    requires members.Member?
    ensures RenderMembers(members, depth, fmt, rest) ==
            Entry(members.key, members.value, depth, fmt) + AfterMember(members.next, depth, fmt, rest)
  {
    var tail := AfterMember(members.next, depth, fmt, rest);
    RenderIsPrint(members.value, depth, fmt, tail);
    RenderStringIsPrint(members.key, ":" + When(fmt, "\t", RenderValue(members.value, depth, fmt, tail)));
    EntryText(fmt, Tabs(depth), PrintString(members.key), PrintValue(members.value, depth, fmt), tail);
  }

  lemma {:induction false} EntriesJoined(members: Members, depth: nat, fmt: bool, rest: string)
    requires members.Member?
    ensures RenderMembers(members, depth, fmt, rest) ==
            Join(if fmt then ",\n" else ",", Entries(members, depth, fmt)) + When(fmt, "\n", rest)
  {
    var parts, sep := Entries(members.next, depth, fmt), if fmt then ",\n" else ",";
    var entry := Entry(members.key, members.value, depth, fmt);
    EntryPrinted(members, depth, fmt, rest);
    assert ([entry] + parts)[1..] == parts;
    if members.next.Member? {
      EntriesJoined(members.next, depth, fmt, rest);
      LineBreak(fmt, RenderMembers(members.next, depth, fmt, rest));
      Prefixes(entry, sep, Join(sep, parts), When(fmt, "\n", rest));
    }
  }

  lemma LineBreak(fmt: bool, s: string)
    ensures "," + When(fmt, "\n", s) == (if fmt then ",\n" else ",") + s
  {
  }

  /** An object is its members between braces, with commas, and formatted with each on a line one deeper. */
  lemma ObjectPrinted(members: Members, depth: nat, fmt: bool)
    requires members.Member?
    ensures PrintValue(Object(members), depth, fmt) ==
      if fmt then "{\n" + (Join(",\n", Entries(members, depth + 1, fmt)) + ("\n" + (Tabs(depth) + "}")))
      else "{" + (Join(",", Entries(members, depth + 1, fmt)) + "}")
  {
    var joined := Join(if fmt then ",\n" else ",", Entries(members, depth + 1, fmt));
    EntriesJoined(members, depth + 1, fmt, When(fmt, Tabs(depth), "}"));
    Braces(fmt, Tabs(depth), joined);
    BracesPrinted(members, depth, fmt);
  }

  lemma BracesPrinted(members: Members, depth: nat, fmt: bool)
    requires members.Member?
    ensures PrintValue(Object(members), depth, fmt) ==
            "{" + When(fmt, "\n", RenderMembers(members, depth + 1, fmt, When(fmt, Tabs(depth), "}")))
  {
    assert "}" + "" == "}";
  }

  lemma Braces(fmt: bool, tabs: string, joined: string)
    ensures "{" + When(fmt, "\n", joined + When(fmt, "\n", When(fmt, tabs, "}"))) ==
            if fmt then "{\n" + (joined + ("\n" + (tabs + "}"))) else "{" + (joined + "}")
  {
    if fmt {
      var body := joined + ("\n" + (tabs + "}"));
      Associative("{", "\n", body);
      assert "{" + "\n" == "{\n";
    }
  }

  lemma EmptyObjectPrinted(depth: nat)
    ensures PrintValue(Object(NoMember), depth, false) == "{}"
    ensures PrintValue(Object(NoMember), depth, true) == "{\n" + (Tabs(depth - 1) + "}")
  {
    assert "{" + (("\n" + Tabs(depth - 1)) + ("}" + "")) == "{\n" + (Tabs(depth - 1) + "}");
  }

  /** The words and the numbers. */
  lemma WordsPrinted(depth: nat, fmt: bool)
    ensures PrintValue(Null, depth, fmt) == "null" && PrintValue(False, depth, fmt) == "false"
    ensures PrintValue(True, depth, fmt) == "true" && PrintValue(Number(-12.0), depth, fmt) == "-12"
  {
    assert Digits(12) == Digits(1) + "2" == "12" && (-12.0).Floor == -12;
  }

  /** Only quotes, backslashes and control characters are escaped (section 7 of RFC 8259). */
  lemma PlainPrinted(s: string)
    requires forall i | 0 <= i < |s| :: s[i] >= ' ' && s[i] != '\"' && s[i] != '\\'
    ensures PrintString(s) == "\"" + (s + "\"")
  {
    PlainEscaped(s, "\"" + "");
  }

  lemma {:induction false} PlainEscaped(s: string, rest: string)
    requires forall i | 0 <= i < |s| :: s[i] >= ' ' && s[i] != '\"' && s[i] != '\\'
    ensures Escaped(s, rest) == s + rest
  {
    if s == "" {
      assert s + rest == rest;
    } else {
      PlainEscaped(s[1..], rest);
      Associative([s[0]], s[1..], rest);
      assert EscapeChar(s[0]) == [s[0]] && [s[0]] + s[1..] == s;
    }
  }

  /** No control character is in the text of a string. */
  lemma NoControlPrinted(s: string)
    ensures forall c | c in PrintString(s) :: c >= ' '
  {
    NoControlEscaped(s, "\"" + "");
  }

  lemma {:induction false} NoControlEscaped(s: string, rest: string)
    requires forall c | c in rest :: c >= ' '
    ensures forall c | c in Escaped(s, rest) :: c >= ' '
  {
    if s != "" {
      NoControlEscaped(s[1..], rest);
    }
  }

  /** The short escapes. */
  lemma ShortEscapesPrinted()
    ensures PrintString("\"") == "\"\\\"\"" && PrintString("\\") == "\"\\\\\""
    ensures PrintString("\U{08}") == "\"\\b\"" && PrintString("\U{0C}") == "\"\\f\"" && PrintString("\n") == "\"\\n\""
    ensures PrintString("\r") == "\"\\r\"" && PrintString("\t") == "\"\\t\"" && PrintString("\U{1B}") == "\"\\u001b\""
  {
    forall c ensures PrintString([c]) == "\"" + (EscapeChar(c) + "\"") {
      OneCharPrinted(c);
    }
  }

  lemma OneCharPrinted(c: char)
    ensures PrintString([c]) == "\"" + (EscapeChar(c) + "\"")
  {
    assert Escaped([c], "\"" + "") == EscapeChar(c) + Escaped([c][1..], "\"" + "");
    assert [c][1..] == "";
  }

  /** The first pass of print_array counts too much by one for each element, and by one separator. */
  lemma {:induction false} ItemsCounted(items: Items, depth: nat, fmt: bool, rest: string)
    requires items.Item?
    ensures ItemsSize(items, depth, fmt) + |rest| ==
            |RenderItems(items, depth, fmt, rest)| + |Elements(items, depth, fmt)| + if fmt then 2 else 1
  {
    RenderIsPrint(items.value, depth, fmt, AfterItem(items.next, depth, fmt, rest));
    if items.next.Item? {
      ItemsCounted(items.next, depth, fmt, rest);
    }
  }

  /** The first pass of print_object counts one comma too many. */
  lemma {:induction false} MembersCounted(members: Members, depth: nat, fmt: bool, rest: string)
    requires members.Member?
    ensures MembersSize(members, depth, fmt) + |rest| == |RenderMembers(members, depth, fmt, rest)| + 1
  {
    var tail := AfterMember(members.next, depth, fmt, rest);
    TabsAreTabs(depth);
    RenderIsPrint(members.value, depth, fmt, tail);
    RenderStringIsPrint(members.key, ":" + When(fmt, "\t", RenderValue(members.value, depth, fmt, tail)));
    if members.next.Member? {
      MembersCounted(members.next, depth, fmt, rest);
    }
  }

  /** What can be printed and parsed back: the words, the C integers, the strings without NUL, and what is made of them. */
  lemma PrintableKinds(x: real, s: string)
    ensures Printable(Null) && Printable(False) && Printable(True)
    ensures Printable(Number(x)) <==> IsCInt(x)
    ensures Printable(String(s)) <==> '\0' !in s
  {
  }

  lemma {:induction false} PrintableArray(items: Items, values: seq<Json>)
    requires Values(items) == values
    ensures Printable(Array(items)) <==> forall i :: 0 <= i < |values| ==> Printable(values[i])
  {
    if items.Item? {
      PrintableArray(items.next, values[1..]);
      assert values[0] == items.value;
      assert forall i :: 0 <= i < |values| - 1 ==> values[i + 1] == values[1..][i];
    }
  }

  function Values(items: Items): seq<Json> {
    if items.NoItem? then [] else [items.value] + Values(items.next)
  }

  // ---------------------------------------------------------------- faults

  /** A value begins with one of these characters, and anything else is a fault where it stands. */
  lemma ValueFaults(v: string)
    requires v == "" || (v[0] !in "\"-[{" && !IsDigit(v[0]))
    requires !("null" <= v) && !("false" <= v) && !("true" <= v)
    ensures ParseValue(v) == Fail(v)
  {
  }

  /** Behind an element there is a comma or the closing bracket. */
  lemma ItemsFaults(v: string)
    requires ParseValue(Skip(v)).Ok?
    ensures var behind := Skip(ParseValue(Skip(v)).rest); Head(behind) !in ",]" ==> ParseItems(v) == Fail(behind)
  {
  }

  /** A member has a key, a colon, a value, and a comma or the closing brace. */
  lemma MembersFaults(v: string)
    requires !ParseMembers(v).Malformed?
    ensures Head(Skip(v)) != '\"' ==> ParseMembers(v) == Fail(Skip(v))
    ensures ParseMembers(v).Ok? ==>
      && ParseString(Skip(v)).Ok? && Head(Skip(ParseString(Skip(v)).rest)) == ':'
      && var value := ParseValue(Skip(Skip(ParseString(Skip(v)).rest)[1..]));
         value.Ok? && Head(Skip(value.rest)) in ",}"
  {
  }

  /** With the end required, what is behind the value and its blanks is a fault. */
  lemma TextFaults(v: string)
    requires ParseText(v, false).Ok?
    ensures
      var behind := Skip(ParseText(v, false).rest);
      ParseText(v, true) == if behind == "" then Ok(ParseText(v, false).value, "") else Fail(behind)
  {
  }

  // ---------------------------------------------------------------- escapes

  /** The two-character escapes of section 7 of RFC 8259. */
  lemma EscapesStandFor(rest: string)
    ensures DecodeEscape("\"" + rest) == Ok("\"", rest) && DecodeEscape("\\" + rest) == Ok("\\", rest)
    ensures DecodeEscape("/" + rest) == Ok("/", rest) && DecodeEscape("b" + rest) == Ok("\U{08}", rest)
    ensures DecodeEscape("f" + rest) == Ok("\U{0C}", rest) && DecodeEscape("n" + rest) == Ok("\n", rest)
    ensures DecodeEscape("r" + rest) == Ok("\r", rest) && DecodeEscape("t" + rest) == Ok("\t", rest)
  {
  }

  /** Any other character stands for itself. */
  lemma OthersStandForThemselves(c: char, rest: string)
    requires c !in ['b', 'f', 'n', 'r', 't', 'u']
    ensures DecodeEscape([c] + rest) == Ok([c], rest)
  {
    assert ([c] + rest)[1..] == rest;
  }

  /** The first pass counts an escape as one character, and stops in front of the quote or at the end. */
  lemma EscapesCountOnce(c: char, v: string)
    ensures ScanString("\\" + ([c] + v)) == (ScanString(v).0 + 1, ScanString(v).1)
    ensures ScanString("") == (0, "") && ScanString("\"" + v) == (0, "\"" + v) && ScanString("\\") == (1, "")
  {
    assert ("\\" + ([c] + v))[2..] == v;
  }

  lemma PlainCountsOnce(c: char, v: string)
    requires c != '\"' && c != '\\'
    ensures ScanString([c] + v) == (ScanString(v).0 + 1, ScanString(v).1)
  {
    assert ([c] + v)[1..] == v;
  }

  /** A C string is its characters and a NUL. */
  lemma HeldIsTerminated(a: array<char>, s: string)
    ensures Holds(a, s) <==> |s| < a.Length && a[..|s| + 1] == s + ['\0'] && '\0' !in s
  {
    if |s| < a.Length && a[..|s| + 1] == s + ['\0'] {
      assert forall i :: 0 <= i <= |s| ==> a[i] == a[..|s| + 1][i];
    }
  }

  /** The ends of the C integers. */
  lemma CIntEnds()
    ensures IsCInt(2147483647.0) && IsCInt(-2147483648.0) && !IsCInt(2147483648.0) && !IsCInt(-2147483649.0) && !IsCInt(0.5)
  {
    assert 2147483647.0.Floor == 2147483647 && (-2147483648.0).Floor == -2147483648;
    assert 2147483648.0.Floor == 2147483648 && (-2147483649.0).Floor == -2147483649;
  }

  /** The scalars of section 3 of RFC 3629 are the code points that are no surrogates. */
  lemma ScalarsAreNoSurrogates(u: Utf8.codepoint)
    ensures Utf8.IsScalar(u) <==> !(0xD800 <= u <= 0xDFFF)
    ensures Utf8.IsScalar(u) <==> !IsHighSurrogate(u) && !IsLowSurrogate(u)
  {
  }

  /** Every hexadecimal digit in both cases. */
  lemma HexDigits(d: nat)
    requires d < 16
    ensures var c := "0123456789ABCDEF"[d]; IsHex(c) && HexValue(c) == d
    ensures var c := "0123456789abcdef"[d]; IsHex(c) && HexValue(c) == d && HexChar(d) == c
  {
  }

  lemma HexPlaces(a: nat, b: nat, c: nat, d: nat)
    requires a < 16 && b < 16 && c < 16 && d < 16
    ensures
      var h := [HexChar(a), HexChar(b), HexChar(c), HexChar(d)];
      StartsWithHex4(h) && Hex4(h) == ((a * 16 + b) * 16 + c) * 16 + d
  {
  }

  /** What is no scalar is dropped: U+0000, a low surrogate, and a high one without a second escape. */
  lemma UnpairedDropped(h: string, rest: string)
    requires |h| == 4 && StartsWithHex4(h)
    requires Hex4(h) == 0 || 0xDC00 <= Hex4(h) <= 0xDFFF || (0xD800 <= Hex4(h) <= 0xDBFF && !("\\u" <= rest))
    ensures DecodeEscape("u" + (h + rest)) == Ok("", rest)
  {
    var v := h + rest;
    assert ("u" + v)[1..] == v;
    assert v[..4] == h && v[4..] == rest;
    assert Head(v[4..]) == '\\' && Head(v[5..]) == 'u' ==> |rest| >= 2 && rest[0] == '\\' && rest[1] == 'u';
  }

  /** A high surrogate takes a second escape with it, though it is no low one. */
  lemma MispairedDropped(h: string, l: string, rest: string)
    requires |h| == 4 && StartsWithHex4(h) && 0xD800 <= Hex4(h) <= 0xDBFF
    requires |l| == 4 && StartsWithHex4(l) && !(0xDC00 <= Hex4(l) <= 0xDFFF)
    ensures DecodeEscape("u" + (h + ("\\u" + (l + rest)))) == Ok("", rest)
  {
    var second := l + rest;
    var v := h + ("\\u" + second);
    assert ("u" + v)[1..] == v;
    assert v[..4] == h && v[4] == '\\' && v[5] == 'u' && v[6..] == second;
    assert second[..4] == l && second[4..] == rest;
    assert v[10..] == second[4..];
  }

  /** Section 7 of RFC 8259 writes the G clef, U+1D11E, as this pair; section 3 of RFC 3629 gives its octets. */
  lemma PairExample(rest: string)
    ensures DecodeEscape("uD834\\uDD1E" + rest) == Ok(Chars([0xF0, 0x9D, 0x84, 0x9E]), rest)
  {
    var h, l := "D834", "DD1E";
    PairValues(h, l);
    EscapedPairDecodes(h, l, 0x1_D11E, rest);
    PairText(h, l, rest);
    ClefOctets();
  }

  lemma PairText(h: string, l: string, rest: string)
    requires h == "D834" && l == "DD1E"
    ensures "uD834\\uDD1E" + rest == "u" + (h + ("\\u" + (l + rest)))
  {
  }

  lemma PairValues(h: string, l: string)
    requires h == "D834" && l == "DD1E"
    ensures StartsWithHex4(h) && Hex4(h) == 0xD834 && StartsWithHex4(l) && Hex4(l) == 0xDD1E
  {
  }

  lemma ClefOctets()
    ensures Utf8Chars(0x1_D11E) == Chars([0xF0, 0x9D, 0x84, 0x9E])
  {
    assert Utf8.Encode(0x1_D11E) == [0xF0, 0x9D, 0x84, 0x9E];
  }

  // ---------------------------------------------------------------- blanks and comments

  lemma BlanksDropped(c: char, v: string)
    requires c in " \t\r\n"
    ensures Minified([c] + v) == Minified(v)
  {
    assert ([c] + v)[1..] == v;
  }

  /** A line comment goes up to the end of its line. */
  lemma LineCommentDropped(c: string, v: string)
    requires '\n' !in c
    ensures Minified("//" + (c + ("\n" + v))) == Minified(v)
  {
    var t := "//" + (c + ("\n" + v));
    var rest := "\n" + v;
    assert t[1..] == "/" + (c + rest) && t[1..][1..] == c + rest;
    LineSkipped(c, v);
    assert SkipLine(t) == SkipLine(c + rest) == rest;
    BlanksDropped('\n', v);
  }

  lemma {:induction false} LineSkipped(c: string, v: string)
    requires '\n' !in c
    ensures SkipLine(c + ("\n" + v)) == "\n" + v
  {
    if c == "" {
      assert c + ("\n" + v) == "\n" + v;
    } else {
      assert (c + ("\n" + v))[1..] == c[1..] + ("\n" + v);
      LineSkipped(c[1..], v);
    }
  }

  /** A block comment goes up to the next star with a slash behind it, which may be the one that opens it. */
  lemma BlockCommentDropped(c: string, v: string)
    requires NoEnd("*" + c)
    ensures Minified("/" + (("*" + c) + ("*/" + v))) == Minified(v)
  {
    var t := "/" + (("*" + c) + ("*/" + v));
    assert t[1..] == ("*" + c) + ("*/" + v);
    CommentSkipped("*" + c, v);
  }

  lemma {:induction false} CommentSkipped(s: string, v: string)
    requires NoEnd(s)
    ensures SkipComment(s + ("*/" + v)) == Some(v)
  {
    var t := s + ("*/" + v);
    if s == "" {
      assert t == "*/" + v && t[1..][0] == '/' && t[2..] == v;
    } else {
      assert t[1..] == s[1..] + ("*/" + v);
      assert |s| > 1 ==> t[1..][0] == s[1];
      assert |s| == 1 ==> t[1..][0] == '*';
      CommentSkipped(s[1..], v);
    }
  }

  predicate NoEnd(c: string) {
    forall i :: 0 <= i < |c| - 1 ==> !(c[i] == '*' && c[i + 1] == '/')
  }
}
