/**
 * When the parent-level check of src/lists.c:707-716 is right: for P/# and a topic with no more levels
 * than P, exactly when scan and level-by-level matching differ.
 */
module TopicAgreement {
  import opened Bytes
  import opened TopicMatch
  import opened TopicParent

  // ---------------------------------------------------------------- levels from the other end

  function Front(v: seq<byte>): seq<seq<byte>> {
    Levels(v)[..|Levels(v)| - 1]
  }

  function Last(v: seq<byte>): seq<byte> {
    Levels(v)[|Levels(v)| - 1]
  }

  lemma FrontLast(v: seq<byte>)
    ensures Levels(v) == Front(v) + [Last(v)]
  {
  }

  lemma FrontLastIs(v: seq<byte>, f: seq<seq<byte>>, l: seq<byte>)
    requires Levels(v) == f + [l]
    ensures Front(v) == f && Last(v) == l
  {
  }

  /** A character in front of a text, seen from the last level. */
  lemma FrontLastStep(v: seq<byte>)
    requires v != []
    ensures v[0] == SLASH ==> Front(v) == [[]] + Front(v[1..]) && Last(v) == Last(v[1..])
    ensures v[0] != SLASH && Front(v[1..]) == [] ==> Front(v) == [] && Last(v) == [v[0]] + Last(v[1..])
    ensures v[0] != SLASH && Front(v[1..]) != [] ==>
      Front(v) == [[v[0]] + Front(v[1..])[0]] + Front(v[1..])[1..] && Last(v) == Last(v[1..])
  {
    var f, l := Front(v[1..]), Last(v[1..]);
    FrontLast(v[1..]);
    if v[0] == SLASH {
      LevelsOfSlash(v);
      assert [[]] + (f + [l]) == ([[]] + f) + [l];
      FrontLastIs(v, [[]] + f, l);
    } else {
      LevelsOfChar(v);
      if f == [] {
        assert Levels(v[1..]) == [l];
        FrontLastIs(v, [], [v[0]] + l);
      } else {
        assert (f + [l])[0] == f[0] && (f + [l])[1..] == f[1..] + [l];
        FrontLastIs(v, [[v[0]] + f[0]] + f[1..], l);
      }
    }
  }

  /** The last character either opens an empty level or belongs to the last one. */
  lemma {:induction false} LastChar(v: seq<byte>)
    requires v != []
    ensures
      var u, c := Init(v), v[|v| - 1];
      if c == SLASH then Front(v) == Levels(u) && Last(v) == []
      else Front(v) == Front(u) && Last(v) == Last(u) + [c]
    decreases |v|
  {
    var u, c := Init(v), v[|v| - 1];
    FrontLast(u);
    FrontLastStep(v);
    if |v| == 1 {
      assert v[1..] == [] && u == [] && Levels([]) == [[]];
      assert Front([]) == [] && Last([]) == [];
    } else {
      InitStep(v);
      assert v[1..][|v| - 2] == c;
      LastChar(v[1..]);
      FrontLastStep(u);
      FrontLast(Init(v[1..]));
      if c == SLASH {
        LastSlash(v);
      }
    }
  }

  lemma LastSlash(v: seq<byte>)
    requires |v| > 1 && v[|v| - 1] == SLASH && Front(v[1..]) == Levels(Init(v[1..])) && Last(v[1..]) == []
    ensures Front(v) == Levels(Init(v)) && Last(v) == []
  {
    FrontLastStep(v);
    InitStep(v);
    if v[0] == SLASH {
      LevelsOfSlash(Init(v));
    } else {
      LevelsOfChar(Init(v));
    }
  }

  // ---------------------------------------------------------------- matching from the other end

  predicate NoHash(ls: seq<seq<byte>>) {
    forall i :: 0 <= i < |ls| ==> HASH !in ls[i]
  }

  lemma {:induction false} LevelsHaveNoHash(v: seq<byte>)
    requires HASH !in v
    ensures NoHash(Levels(v))
    decreases |v|
  {
    if v == [] {
      assert Levels(v) == [[]];
    } else {
      LevelsHaveNoHash(v[1..]);
      if v[0] == SLASH { LevelsOfSlash(v); } else { LevelsOfChar(v); }
    }
  }

  predicate LevelMatches(l: seq<byte>, m: seq<byte>) {
    l == [PLUS] || l == m
  }

  lemma {:induction false} MatchLast(f: seq<seq<byte>>, l: seq<byte>, g: seq<seq<byte>>, m: seq<byte>)
    requires NoHash(f) && HASH !in l
    ensures LevelsMatch(f + [l], g + [m]) <==> LevelsMatch(f, g) && LevelMatches(l, m)
    decreases |f|
  {
    assert HASH in [HASH];
    if f == [] {
      assert f + [l] == [l] && [l][1..] == [];
      if g != [] {
        assert (g + [m])[1..] == g[1..] + [m];
      } else {
        assert g + [m] == [m] && [m][1..] == [];
      }
    } else {
      assert (f + [l])[0] == f[0] && (f + [l])[1..] == f[1..] + [l];
      if g == [] {
        assert g + [m] == [m] && [m][1..] == [] && (f[1..] + [l])[0] != [HASH];
      } else {
        assert (g + [m])[0] == g[0] && (g + [m])[1..] == g[1..] + [m];
        MatchLast(f[1..], l, g[1..], m);
      }
    }
  }

  lemma MatchesByLast(x: seq<byte>, p: seq<byte>)
    requires HASH !in x
    ensures LevelsMatch(Levels(x), Levels(p)) <==> LevelsMatch(Front(x), Front(p)) && LevelMatches(Last(x), Last(p))
  {
    LevelsHaveNoHash(x);
    FrontLast(x);
    FrontLast(p);
    MatchLast(Front(x), Last(x), Front(p), Last(p));
  }

  lemma {:induction false} LastIsValid(ls: seq<seq<byte>>)
    requires ls != [] && LevelsValid(ls) && NoHash(ls)
    ensures var l := ls[|ls| - 1]; l == [PLUS] || IsPlain(l)
    decreases |ls|
  {
    if |ls| > 1 {
      LastIsValid(ls[1..]);
    } else {
      assert HASH in [HASH];
    }
  }

  // ---------------------------------------------------------------- the theorem

  /** The scan takes the topic though P does not: all but the last characters match, and those differ. */
  predicate TakesTooMuch(x: seq<byte>, p: seq<byte>)
    requires x != [] && p != []
  {
    InitsMatch(x, p) && |x| + |p| > 2 && x[|x| - 1] != p[|p| - 1] && x[|x| - 1] != PLUS
  }

  /** The scan does not take the topic though P does: both are one character, or P ends in + and the topic in a longer level. */
  predicate TakesTooLittle(x: seq<byte>, p: seq<byte>)
    requires x != [] && p != []
  {
    LevelsMatch(Levels(x), Levels(p)) && (|x| + |p| == 2 || (x[|x| - 1] == PLUS && |Last(p)| != 1))
  }

  lemma EndsInSlash(x: seq<byte>, p: seq<byte>)
    requires HASH !in x && x != [] && IsName(p) && x[|x| - 1] == SLASH
    ensures !LevelsMatch(Levels(x), Levels(p))
  {
    LastChar(x);
    LastChar(p);
    MatchesByLast(x, p);
  }

  /** The character before the last one, if it is in the same level. */
  lemma BeforeLast(x: seq<byte>)
    requires x != [] && x[|x| - 1] != SLASH && PLUS !in Last(Init(x))
    ensures NoPlusBeforeLast(x)
  {
    var u := Init(x);
    if u != [] {
      LastChar(u);
      assert u[|u| - 1] == x[|x| - 2];
    }
  }

  /** The last level of P, if it is not empty, is a + or has none. */
  lemma LastLevelShape(x: seq<byte>)
    requires HASH !in x && LevelsValid(Levels(x)) && x != [] && x[|x| - 1] != SLASH
    ensures
      var u, a := Last(Init(x)), x[|x| - 1];
      && Front(x) == Front(Init(x)) && Last(x) == u + [a] && PLUS !in u
      && (a == PLUS ==> u == []) && NoPlusBeforeLast(x)
  {
    var u, a := Last(Init(x)), x[|x| - 1];
    LastChar(x);
    LevelsHaveNoHash(x);
    LastIsValid(Levels(x));
    assert a in u + [a] && forall c :: c in u ==> c in u + [a];
    assert u + [a] == [PLUS] ==> |u| == 0;
    BeforeLast(x);
  }

  /** Behind a last level that is not empty, both questions are about the same levels but the last. */
  lemma ByLastLevel(x: seq<byte>, p: seq<byte>)
    requires HASH !in x && LevelsValid(Levels(x)) && x != [] && IsName(p) && x[|x| - 1] != SLASH
    ensures
      var fits := LevelsMatch(Front(x), Front(p));
      var u, q, a, b := Last(Init(x)), Last(Init(p)), x[|x| - 1], p[|p| - 1];
      && Last(p) == q + [b]
      && (LevelsMatch(Levels(x), Levels(p)) <==> fits && (a == PLUS || (a == b && u == q)))
      && (InitsMatch(x, p) <==> fits && u == q)
      && (a == PLUS ==> u == [])
  {
    var u, a, q, b := Last(Init(x)), x[|x| - 1], Last(Init(p)), p[|p| - 1];
    LastLevelShape(x);
    LastChar(p);
    MatchesByLast(x, p);
    MatchesByLast(Init(x), Init(p));
    SameEnds(u, a, q, b);
    assert a == PLUS ==> u + [a] == [PLUS];
    assert a != PLUS ==> u + [a] != [PLUS] by { assert (u + [a])[|u|] == a; }
    assert u != [PLUS] by { assert PLUS in [PLUS]; }
  }

  lemma SameEnds(u: seq<byte>, a: byte, q: seq<byte>, b: byte)
    ensures u + [a] == q + [b] <==> u == q && a == b
  {
    if u + [a] == q + [b] {
      assert (u + [a])[|u|] == a && (q + [b])[|q|] == b;
      assert u == (u + [a])[..|u|] && q == (q + [b])[..|q|];
    }
  }

  /**
   * For every P and every name with no more levels: scan and section 4.7.1 differ exactly in these two cases,
   * which can be read off filter and topic.
   */
  lemma ParentAgreesUnless(x: seq<byte>, p: seq<byte>)
    requires HASH !in x && LevelsValid(Levels(x)) && x != [] && IsName(p) && |Levels(p)| <= |Levels(x)|
    ensures Scan(x + SLASH_HASH, p) && !LevelsMatch(Levels(x + SLASH_HASH), Levels(p)) <==> TakesTooMuch(x, p)
    ensures !Scan(x + SLASH_HASH, p) && LevelsMatch(Levels(x + SLASH_HASH), Levels(p)) <==> TakesTooLittle(x, p)
  {
    ParentMatchesExactly(x, p);
    if x[|x| - 1] == SLASH {
      EndsInSlash(x, p);
    } else {
      ByLastLevel(x, p);
    }
  }

  lemma TwoLevels(a: seq<byte>, b: seq<byte>)
    requires SLASH !in a && SLASH !in b
    ensures Levels(a + [SLASH] + b) == [a, b]
  {
    var v := a + [SLASH] + b;
    assert SlashAt(v) == |a| by {
      assert v[|a|] == SLASH && forall i :: 0 <= i < |a| ==> v[i] == a[i];
    }
    assert v[..|a|] == a && v[|a| + 1..] == b;
    assert SlashAt(b) == |b|;
  }

  lemma PlusFilter(a: seq<byte>)
    requires IsPlain(a)
    ensures LevelsValid([a, [PLUS], [HASH]]) && LevelsValid([a, [PLUS]])
  {
    assert [a, [PLUS], [HASH]][1..] == [[PLUS], [HASH]] && [[PLUS], [HASH]][1..] == [[HASH]] && [[HASH]][1..] == [];
    assert [a, [PLUS]][1..] == [[PLUS]] && [[PLUS]][1..] == [];
    assert LevelsValid([]) && LevelsValid([[HASH]]) && LevelsValid([[PLUS], [HASH]]) && LevelsValid([[PLUS]]);
  }

  lemma PlusTakesAny(a: seq<byte>, b: seq<byte>)
    requires a != [HASH]
    ensures LevelsMatch([a, [PLUS]], [a, b])
  {
    assert [a, [PLUS]][1..] == [[PLUS]] && [[PLUS]][1..] == [] && [a, b][1..] == [b] && [b][1..] == [];
  }

  /** The filter "a/+/#" does not take the topic "a/bc". */
  lemma PlusParentCounterexample(x: seq<byte>, p: seq<byte>)
    requires x == [0x61, SLASH, PLUS] && p == [0x61, SLASH, 0x62, 0x63]
    ensures IsFilter(x + SLASH_HASH) && IsName(p)
    ensures !Scan(x + SLASH_HASH, p) && LevelsMatch(Levels(x + SLASH_HASH), Levels(p))
  {
    var a: seq<byte>, bc: seq<byte> := [0x61], [0x62, 0x63];
    TwoLevels(a, [PLUS]);
    TwoLevels(a, bc);
    assert x == a + [SLASH] + [PLUS] && p == a + [SLASH] + bc;
    ParentFilterLevels(x);
    assert Levels(x + SLASH_HASH) == [a, [PLUS], [HASH]];
    PlusFilter(a);
    PlusTakesAny(a, bc);
    assert Last(p) == bc;
    ParentAgreesUnless(x, p);
  }
}
