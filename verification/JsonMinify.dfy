/** cJSON_Minify: what it leaves of a text, and the in-place form with its two cursors. */
module JsonMinify {
  import opened Wrappers
  import opened JsonTree

  function SkipLine(v: string): (r: string)
    ensures |r| <= |v|
    ensures v != "" && v[0] == '/' ==> |r| < |v|
  {
    if v == "" || v[0] == '\n' then v else SkipLine(v[1..])
  }

  /** None where the C code would run on behind the terminator. */
  function SkipComment(v: string): (r: Option<string>)
    ensures r.Some? ==> |r.value| < |v|
  {
    if v == "" then None
    else if v[0] == '*' && Head(v[1..]) == '/' then Some(v[2..])
    else SkipComment(v[1..])
  }

  /** How many characters behind an opening quote belong to the literal, closing quote included. */
  function LiteralLength(v: string): (n: Option<nat>)
    ensures n.Some? ==> 0 < n.value <= |v|
  {
    if v == "" then None
    else if v[0] == '\"' then Some(1)
    else if v[0] == '\\' then
      if |v| < 2 then None
      else
        var n :- LiteralLength(v[2..]);
        Some(n + 2)
    else
      var n :- LiteralLength(v[1..]);
      Some(n + 1)
  }

  function Prefixed(m: string, o: Option<string>): Option<string> {
    if o.None? then None else Some(m + o.value)
  }

  function Minified(v: string): Option<string>
    decreases |v|
  {
    if v == "" then Some("")
    else if IsBlank(v[0]) then Minified(v[1..])
    else if v[0] == '/' && Head(v[1..]) == '/' then Minified(SkipLine(v))
    else if v[0] == '/' && Head(v[1..]) == '*' then
      var rest :- SkipComment(v);
      Minified(rest)
    else if v[0] == '\"' then
      var n :- LiteralLength(v[1..]);
      Prefixed(v[..n + 1], Minified(v[n + 1..]))
    else Prefixed(v[..1], Minified(v[1..]))
  }

  // ---------------------------------------------------------------- the same on positions in one text

  function LineEnd(t: string, p: nat): (e: nat)
    requires p <= |t|
    ensures p <= e <= |t|
    ensures p < |t| && t[p] == '/' ==> p < e
    decreases |t| - p
  {
    if p == |t| || t[p] == '\n' then p else LineEnd(t, p + 1)
  }

  function CommentEnd(t: string, p: nat): (e: Option<nat>)
    requires p <= |t|
    ensures e.Some? ==> p < e.value <= |t|
    decreases |t| - p
  {
    if p == |t| then None
    else if t[p] == '*' && p + 1 < |t| && t[p + 1] == '/' then Some(p + 2)
    else CommentEnd(t, p + 1)
  }

  function LiteralEnd(t: string, p: nat): (e: Option<nat>)
    requires p <= |t|
    ensures e.Some? ==> p < e.value <= |t|
    decreases |t| - p
  {
    if p == |t| then None
    else if t[p] == '\"' then Some(p + 1)
    else if t[p] != '\\' then LiteralEnd(t, p + 1)
    else if p + 1 == |t| then None
    else LiteralEnd(t, p + 2)
  }

  predicate IsBlank(c: char) {
    c == ' ' || c == '\t' || c == '\r' || c == '\n'
  }

  predicate Opens(t: string, p: nat, c: char) {
    p + 1 < |t| && t[p] == '/' && t[p + 1] == c
  }

  function MinifiedFrom(t: string, p: nat): Option<string>
    requires p <= |t|
    decreases |t| - p
  {
    if p == |t| then Some("")
    else if IsBlank(t[p]) then MinifiedFrom(t, p + 1)
    else if Opens(t, p, '/') then MinifiedFrom(t, LineEnd(t, p))
    else if Opens(t, p, '*') then
      var e :- CommentEnd(t, p);
      MinifiedFrom(t, e)
    else if t[p] == '\"' then
      var e :- LiteralEnd(t, p + 1);
      Prefixed(t[p..e], MinifiedFrom(t, e))
    else Prefixed(t[p..p + 1], MinifiedFrom(t, p + 1))
  }

  lemma {:induction false} LineEndSkips(t: string, p: nat)
    requires p <= |t|
    ensures SkipLine(t[p..]) == t[LineEnd(t, p)..]
    decreases |t| - p
  {
    if p < |t| && t[p] != '\n' {
      assert t[p..][1..] == t[p + 1..];
      LineEndSkips(t, p + 1);
    }
  }

  lemma {:induction false} CommentEndSkips(t: string, p: nat)
    requires p <= |t|
    ensures SkipComment(t[p..]) == if CommentEnd(t, p).None? then None else Some(t[CommentEnd(t, p).value..])
    decreases |t| - p
  {
    if p < |t| {
      assert t[p..][1..] == t[p + 1..];
      CommentEndSkips(t, p + 1);
    }
  }

  lemma {:induction false} LiteralEndIsLength(t: string, p: nat)
    requires p <= |t|
    ensures LiteralEnd(t, p) == if LiteralLength(t[p..]).None? then None else Some(p + LiteralLength(t[p..]).value)
    decreases |t| - p
  {
    if p < |t| && t[p] != '\"' {
      if t[p] != '\\' {
        assert t[p..][1..] == t[p + 1..];
        LiteralEndIsLength(t, p + 1);
      } else if p + 1 < |t| {
        assert t[p..][2..] == t[p + 2..];
        LiteralEndIsLength(t, p + 2);
      }
    }
  }

  lemma {:induction false} MinifiedFromIsMinified(t: string, p: nat)
    requires p <= |t|
    ensures MinifiedFrom(t, p) == Minified(t[p..])
    decreases |t| - p
  {
    var v := t[p..];
    if p == |t| {
      assert v == "";
    } else {
      assert v[1..] == t[p + 1..];
      if Opens(t, p, '/') {
        LineEndSkips(t, p);
        MinifiedFromIsMinified(t, LineEnd(t, p));
      } else if Opens(t, p, '*') {
        CommentEndSkips(t, p);
        if CommentEnd(t, p).Some? {
          MinifiedFromIsMinified(t, CommentEnd(t, p).value);
        }
      } else if t[p] == '\"' {
        LiteralEndIsLength(t, p + 1);
        if LiteralEnd(t, p + 1).Some? {
          var e := LiteralEnd(t, p + 1).value;
          assert v[..e - p] == t[p..e] && v[e - p..] == t[e..];
          MinifiedFromIsMinified(t, e);
        }
      } else {
        assert v[..1] == t[p..p + 1];
        MinifiedFromIsMinified(t, p + 1);
      }
    }
  }

  // ---------------------------------------------------------------- in place

  /** The text is still in the buffer from the reading cursor on. */
  ghost predicate Unread(json: array<char>, p: nat, text: string)
    reads json
  {
    p <= |text| < json.Length && NulFree(text) && (forall i {:trigger json[i]} :: p <= i < |text| ==> json[i] == text[i]) && json[|text|] == '\0'
  }

  /** The writing cursor `into` never passes the reading cursor p, so the unread text stays intact. */
  method Minify(json: array<char>, ghost text: string)
    requires Holds(json, text) && Minified(text).Some?
    modifies json
    ensures Holds(json, Minified(text).value) && |Minified(text).value| <= |text|
  {
    MinifiedFromIsMinified(text, 0);
    assert text[0..] == text;
    ghost var out := Minified(text).value;
    var into: nat, p: nat := 0, 0;
    while json[p] != '\0'
      invariant into <= p && Unread(json, p, text)
      invariant Copied(json, into, out) && MinifiedFrom(text, p) == Some(out[into..])
      decreases |text| - p
    {
      if json[p] == ' ' || json[p] == '\t' || json[p] == '\r' || json[p] == '\n' {
        p := p + 1;
      } else if json[p] == '/' && (json[p + 1] == '/' || json[p + 1] == '*') {
        p := SkipOver(json, p, text);
      } else {
        into, p := CopyOver(json, into, p, text, out);
      }
    }
    json[into] := '\0';
  }

  /** The two branches for comments. */
  method SkipOver(json: array<char>, p0: nat, ghost text: string) returns (p: nat)
    requires p0 < |text| && Unread(json, p0, text) && MinifiedFrom(text, p0).Some?
    requires Opens(text, p0, '/') || Opens(text, p0, '*')
    ensures p0 < p <= |text| && MinifiedFrom(text, p) == MinifiedFrom(text, p0)
  {
    if json[p0] == '/' && json[p0 + 1] == '/' {
      p := SkipToNewline(json, p0, text);
    } else {
      p := SkipToCommentEnd(json, p0, text);
    }
  }

  /** The two branches that copy. */
  method CopyOver(json: array<char>, into0: nat, p0: nat, ghost text: string, ghost out: string)
    returns (into: nat, p: nat)
    requires into0 <= p0 < |text| && Unread(json, p0, text)
    requires !IsBlank(text[p0]) && !Opens(text, p0, '/') && !Opens(text, p0, '*')
    requires Copied(json, into0, out) && MinifiedFrom(text, p0) == Some(out[into0..])
    modifies json
    ensures p0 < p && into <= p && Unread(json, p, text)
    ensures Copied(json, into, out) && MinifiedFrom(text, p) == Some(out[into..])
  {
    if json[p0] == '\"' {
      OutputStep(text, p0, out, into0, LiteralEnd(text, p0 + 1).value);
      into, p := CopyString(json, into0, p0, text, out);
    } else {
      OutputStep(text, p0, out, into0, p0 + 1);
      into, p := CopyOne(json, into0, p0, text, out);
    }
  }

  /** *into++ = *json++. */
  method CopyOne(json: array<char>, into0: nat, p0: nat, ghost text: string, ghost out: string) returns (into: nat, p: nat)
    requires into0 <= p0 < |text| && Unread(json, p0, text)
    requires Copied(json, into0, out) && into0 < |out| && out[into0] == text[p0]
    modifies json
    ensures into == into0 + 1 && p == p0 + 1 && Unread(json, p, text) && Copied(json, into, out)
  {
    json[into0] := json[p0];
    into, p := into0 + 1, p0 + 1;
  }

  /** The output is in the buffer up to the writing cursor. */
  ghost predicate Copied(json: array<char>, into: nat, out: string)
    reads json
  {
    into <= |out| && into < json.Length && forall i {:trigger json[i]} :: 0 <= i < into ==> json[i] == out[i] != '\0'
  }

  /** What is copied from text[p..e] is the next part of the output. */
  lemma OutputStep(text: string, p: nat, out: string, into: nat, e: nat)
    requires p < e <= |text| && into <= |out|
    requires Prefixed(text[p..e], MinifiedFrom(text, e)) == Some(out[into..])
    ensures into + (e - p) <= |out| && MinifiedFrom(text, e) == Some(out[into + (e - p)..])
    ensures Matches(text, p, e, out, into)
  {
    var tail := MinifiedFrom(text, e).value;
    var rest := out[into..];
    assert rest == text[p..e] + tail;
    assert |rest| == |out| - into;
    assert forall i :: into <= i < |out| ==> out[i] == out[into..][i - into];
    assert out[into + (e - p)..] == tail;
  }

  /** The branch for double-slash comments. */
  method SkipToNewline(json: array<char>, p0: nat, ghost text: string) returns (p: nat)
    requires Unread(json, p0, text)
    ensures p == LineEnd(text, p0)
  {
    p := p0;
    while json[p] != '\0' && json[p] != '\n'
      invariant p0 <= p <= |text| && LineEnd(text, p0) == LineEnd(text, p)
      decreases |text| - p
    {
      p := p + 1;
    }
  }

  /** The branch for multiline comments. */
  method SkipToCommentEnd(json: array<char>, p0: nat, ghost text: string) returns (p: nat)
    requires Unread(json, p0, text) && CommentEnd(text, p0).Some?
    ensures Some(p) == CommentEnd(text, p0)
  {
    p := p0;
    while json[p] != '\0' && !(json[p] == '*' && json[p + 1] == '/')
      invariant p0 <= p <= |text| && CommentEnd(text, p0) == CommentEnd(text, p)
      decreases |text| - p
    {
      p := p + 1;
    }
    p := p + 2;
  }

  /** The branch for string literals: copies up to and including the closing quote. */
  method CopyString(json: array<char>, into0: nat, p0: nat, ghost text: string, ghost out: string) returns (into: nat, p: nat)
    requires into0 <= p0 < |text| && Unread(json, p0, text) && Copied(json, into0, out)
    requires text[p0] == '\"' && LiteralEnd(text, p0 + 1).Some?
    requires Matches(text, p0, LiteralEnd(text, p0 + 1).value, out, into0)
    modifies json
    ensures LiteralEnd(text, p0 + 1) == Some(p) && into - into0 == p - p0
    ensures Unread(json, p, text) && Copied(json, into, out)
  {
    ghost var end := LiteralEnd(text, p0 + 1).value;
    into, p := CopyOne(json, into0, p0, text, out);
    while json[p] != '\0' && json[p] != '\"'
      invariant p0 < p <= |text| && into - into0 == p - p0
      invariant LiteralEnd(text, p) == Some(end)
      invariant Unread(json, p, text) && Copied(json, into, out)
      decreases |text| - p
    {
      LiteralStep(text, p);
      if json[p] == '\\' {
        into, p := CopyOne(json, into, p, text, out);
      }
      into, p := CopyOne(json, into, p, text, out);
    }
    LiteralStep(text, p);
    into, p := CopyOne(json, into, p, text, out);
  }

  /** text[p..e] is what the output has from `into` on. */
  predicate Matches(text: string, p: nat, e: nat, out: string, into: nat) {
    p <= e <= |text| && into + (e - p) <= |out| && forall k :: p <= k < e ==> out[into + (k - p)] == text[k]
  }

  lemma LiteralStep(t: string, p: nat)
    requires p <= |t| && LiteralEnd(t, p).Some?
    ensures p < |t| && p < LiteralEnd(t, p).value
    ensures t[p] == '\"' ==> LiteralEnd(t, p) == Some(p + 1)
    ensures t[p] == '\\' ==> p + 1 < LiteralEnd(t, p).value && LiteralEnd(t, p) == LiteralEnd(t, p + 2)
    ensures t[p] != '\"' && t[p] != '\\' ==> LiteralEnd(t, p) == LiteralEnd(t, p + 1)
  {
  }
}
