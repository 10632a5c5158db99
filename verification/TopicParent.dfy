/**
 * The check behind each round of the scan (src/lists.c:707-716), which is meant to let P/# match the
 * topic P itself: what it accepts, exactly, and when that is right.
 */
module TopicParent {
  import opened Bytes
  import opened TopicMatch
  import opened Wrappers

  const SLASH_HASH: seq<byte> := [SLASH, HASH]

  function Init(v: seq<byte>): seq<byte> {
    if v == [] then [] else v[..|v| - 1]
  }

  /** The scan is in the state the check looks for, or gets there. */
  predicate Reach(x: seq<byte>, p: seq<byte>) {
    AtParent(x + SLASH_HASH, p) || Scan(x + SLASH_HASH, p)
  }

  predicate NoPlusBeforeLast(x: seq<byte>) {
    |x| < 2 || x[|x| - 2] != PLUS
  }

  /** Everything but the last character of both agrees. */
  predicate InitsMatch(x: seq<byte>, p: seq<byte>) {
    x != [] && p != [] && NoPlusBeforeLast(x) && LevelsMatch(Levels(Init(x)), Levels(Init(p)))
  }

  predicate InitsRestMatch(x: seq<byte>, p: seq<byte>) {
    x != [] && p != [] && NoPlusBeforeLast(x) && RestMatches(Init(x), Init(p))
  }

  lemma ReachStep(x: seq<byte>, p: seq<byte>)
    requires x != [] && p != [] && x[0] == p[0] && (|x| > 1 || |p| > 1)
    ensures Reach(x, p) == Reach(x[1..], p[1..])
  {
    var s := x + SLASH_HASH;
    assert s[1..] == x[1..] + SLASH_HASH;
  }

  lemma InitStep(v: seq<byte>)
    requires |v| > 1
    ensures Init(v) != [] && Init(v)[0] == v[0] && Init(v)[1..] == Init(v[1..])
  {
  }

  /** A name with no more levels than its filter never reaches the # itself. */
  lemma NoFilterLeft(p: seq<byte>)
    requires RestOfName(p) && |Levels(p)| == 1
    ensures !Reach([], p)
  {
    assert [] + SLASH_HASH == SLASH_HASH;
    if p != [] {
      LevelCount(p);
    }
  }

  lemma {:induction false} ParentInside(x: seq<byte>, p: seq<byte>)
    requires HASH !in x && InsideLevel(x) && RestOfName(p) && |Levels(p)| <= |Levels(x)|
    ensures Reach(x, p) == InitsRestMatch(x, p)
    decreases |x|, 0
  {
    if x == [] {
      NoFilterLeft(p);
    } else if p == [] {
    } else if |x| == 1 && |p| == 1 {
    } else if x[0] != p[0] {
      FirstOfLevel(x);
      DifferentFirst(x, p);
    } else {
      LevelCount(x);
      LevelCount(p);
      RestIsName(p);
      ReachStep(x, p);
      HashlessKept(x);
      ConditionsKept(x, x);
      if x[0] == SLASH {
        ParentStart(x[1..], p[1..]);
      } else {
        ParentInside(x[1..], p[1..]);
      }
      InitsStep(x, p);
    }
  }

  lemma HashlessKept(x: seq<byte>)
    requires x != [] && HASH !in x
    ensures HASH !in x[1..] && HashBelow(x, x) && HashBelow(x[1..], x[1..])
  {
  }

  lemma NoLevelsLeft(v: seq<byte>)
    requires HASH !in v
    ensures !LevelsMatch(Levels(v), [])
    ensures v != [] ==> !RestMatches(v, [])
  {
    HashlessLevel(v);
    if v != [] {
      HashlessLevel(v[1..]);
      FirstOfLevel(v);
      LevelCount(v);
      assert Levels([]) == [[]] && Levels([])[1..] == [];
    }
  }

  lemma NoFilterLevelsLeft(p: seq<byte>)
    requires p != []
    ensures !RestMatches([], p)
  {
    FirstOfLevel(p);
    LevelCount(p);
  }

  lemma DifferentFirst(x: seq<byte>, p: seq<byte>)
    requires HASH !in x && x != [] && p != [] && x[0] != p[0] && (|x| > 1 || |p| > 1) && x[0] != PLUS
    ensures !Reach(x, p) && !InitsRestMatch(x, p)
  {
    if |x| > 1 && |p| > 1 {
      OtherChar(Init(x), Init(p));
    } else if |x| > 1 {
      NoLevelsLeft(Init(x));
    } else {
      NoFilterLevelsLeft(Init(p));
    }
  }

  /** One character gone from both sides. */
  lemma InitsStep(x: seq<byte>, p: seq<byte>)
    requires HASH !in x && x != [] && p != [] && x[0] == p[0] && x[0] != PLUS && (|x| > 1 || |p| > 1)
    ensures x[0] == SLASH ==> InitsRestMatch(x, p) == InitsMatch(x[1..], p[1..])
    ensures x[0] != SLASH ==> InitsRestMatch(x, p) == InitsRestMatch(x[1..], p[1..])
  {
    if |x| > 1 && |p| > 1 {
      InitStep(x);
      InitStep(p);
      SameChar(Init(x), Init(p));
      assert |x| > 2 ==> x[1..][|x| - 3] == x[|x| - 2];
    } else if |x| > 1 {
      NoLevelsLeft(Init(x));
    } else {
      NoFilterLevelsLeft(Init(p));
    }
  }

  lemma {:induction false} ParentStart(x: seq<byte>, p: seq<byte>)
    requires HASH !in x && LevelsValid(Levels(x)) && IsName(p) && |Levels(p)| <= |Levels(x)|
    ensures Reach(x, p) == InitsMatch(x, p)
    decreases |x|, 1
  {
    if Levels(x)[0] == [PLUS] {
      ParentPlus(x, p);
    } else {
      PlainFirst(x);
      ParentInside(x, p);
      InitFirst(x);
    }
  }

  lemma PlainFirst(x: seq<byte>)
    requires HASH !in x && LevelsValid(Levels(x)) && Levels(x)[0] != [PLUS]
    ensures InsideLevel(x)
  {
    if !IsPlain(Levels(x)[0]) {
      OneLevel(x);
    }
  }

  /** Without its last character the first level is still no wildcard. */
  lemma InitFirst(x: seq<byte>)
    requires InsideLevel(x)
    ensures Levels(Init(x))[0] != [PLUS] && Levels(Init(x))[0] != [HASH]
  {
    if x != [] {
      assert SlashAt(Init(x)) == if SlashAt(x) == |x| then |x| - 1 else SlashAt(x) by { InitSlash(x); }
      assert Levels(Init(x))[0] <= Levels(x)[0];
    }
  }

  lemma {:induction false} InitSlash(x: seq<byte>)
    requires x != []
    ensures SlashAt(Init(x)) == if SlashAt(x) == |x| then |x| - 1 else SlashAt(x)
  {
    if |x| > 1 && x[0] != SLASH {
      InitStep(x);
      InitSlash(x[1..]);
    }
  }

  lemma {:induction false} ParentPlus(x: seq<byte>, p: seq<byte>)
    requires HASH !in x && LevelsValid(Levels(x)) && IsName(p) && |Levels(p)| <= |Levels(x)|
    requires Levels(x)[0] == [PLUS]
    ensures Reach(x, p) == InitsMatch(x, p)
    decreases |x|, 0
  {
    if |x| == 1 {
      PlusParentAlone(x, p);
    } else {
      PlusFirst(x);
      var k := SlashAt(p);
      PlusReach(x, p, k);
      if k == |p| {
        PlusOneLevel(x, p);
      } else {
        NameFromSlash(p, k);
        ReachStep(x[1..], p[k..]);
        PlusInits(x, p, k);
        ParentStart(x[2..], p[k + 1..]);
      }
    }
  }

  /** Behind a whole level + comes a slash. */
  lemma PlusFirst(x: seq<byte>)
    requires HASH !in x && |x| > 1 && LevelsValid(Levels(x)) && Levels(x)[0] == [PLUS]
    ensures x[0] == PLUS && x[1] == SLASH && x[1..][0] == SLASH && x[1..][1..] == x[2..]
    ensures HASH !in x[2..] && LevelsValid(Levels(x[2..])) && |Levels(x)| == 1 + |Levels(x[2..])|
  {
    PlusLevels(x);
  }

  lemma PlusReach(x: seq<byte>, p: seq<byte>, k: nat)
    requires |x| > 1 && x[0] == PLUS && p != [] && p[0] != PLUS && k == SlashAt(p)
    ensures Reach(x, p) == Reach(x[1..], p[k..])
    ensures k == |p| ==> !Reach(x, p)
  {
    var s := x + SLASH_HASH;
    assert s[1..] == x[1..] + SLASH_HASH;
    assert !AtParent(s, p);
  }

  lemma PlusParentAlone(x: seq<byte>, p: seq<byte>)
    requires x == [PLUS] && IsName(p) && |Levels(p)| == 1
    ensures Reach(x, p) == InitsMatch(x, p)
  {
    OneLevel(p);
    var s := x + SLASH_HASH;
    assert s[1..] == SLASH_HASH && SlashAt(p) == |p|;
    assert Init(x) == [] && Levels([]) == [[]];
    if |p| > 1 {
      InitStep(p);
      FirstOfLevel(Init(p));
      assert p[0] != SLASH && p[0] != PLUS && p[SlashAt(p)..] == [];
      assert !Scan(s, p);
      assert !LevelsMatch([[]], Levels(Init(p)));
    } else {
      assert Init(p) == [] && LevelsMatch([[]], [[]]);
    }
  }

  lemma PlusOneLevel(x: seq<byte>, p: seq<byte>)
    requires HASH !in x && |x| > 1 && x[0] == PLUS && x[1] == SLASH && IsName(p) && SlashAt(p) == |p|
    ensures !InitsMatch(x, p)
  {
    if |x| > 2 {
      var v, w := Init(p), Init(x[2..]);
      InitSlash(p);
      PlusInitLevels(x);
      NoLevelsLeft(w);
      PlusTakesLevel(Levels(w), v, []);
      assert Levels(v) == [v] + [];
    }
  }

  /** Behind a whole level + the last character goes from the levels that follow. */
  lemma PlusInitLevels(x: seq<byte>)
    requires |x| > 2 && x[0] == PLUS && x[1] == SLASH
    ensures Levels(Init(x)) == [[PLUS]] + Levels(Init(x[2..]))
  {
    var v := Init(x);
    assert SlashAt(v) == 1 + SlashAt(v[1..]) && SlashAt(v[1..]) == 0;
    assert v[..1] == [PLUS] && v[2..] == Init(x[2..]);
  }

  lemma HashlessLevel(v: seq<byte>)
    requires HASH !in v
    ensures Levels(v)[0] != [HASH]
  {
    if v != [] {
      FirstOfLevel(v);
    }
  }

  lemma {:induction false} PlusInits(x: seq<byte>, p: seq<byte>, k: nat)
    requires |x| > 1 && x[0] == PLUS && x[1] == SLASH && k == SlashAt(p) < |p| - 1
    ensures InitsMatch(x, p) == InitsMatch(x[2..], p[k + 1..])
  {
    var r := p[k + 1..];
    InitSlash(p);
    assert Init(p)[k + 1..] == Init(r);
    assert Levels(Init(p)) == [Init(p)[..k]] + Levels(Init(r));
    if |x| > 2 {
      PlusInitLevels(x);
      PlusTakesLevel(Levels(Init(x[2..])), Init(p)[..k], Levels(Init(r)));
      assert |x| > 3 ==> x[2..][|x| - 4] == x[|x| - 2];
    }
  }

  // ---------------------------------------------------------------- the parent level

  lemma SlashHashLevels()
    ensures Levels(SLASH_HASH) == [[], [HASH]]
  {
    LevelsOfSlash(SLASH_HASH);
    assert SLASH_HASH[1..] == [HASH] && Levels([HASH]) == [[HASH]];
  }

  lemma {:induction false} ParentFilterLevels(x: seq<byte>)
    ensures Levels(x + SLASH_HASH) == Levels(x) + [[HASH]]
    decreases |x|
  {
    if x == [] {
      SlashHashLevels();
      assert x + SLASH_HASH == SLASH_HASH && Levels(x) == [[]];
    } else {
      assert (x + SLASH_HASH)[1..] == x[1..] + SLASH_HASH;
      ParentFilterLevels(x[1..]);
      OneMoreChar(x, x + SLASH_HASH, [[HASH]]);
    }
  }

  lemma {:induction false} OneMoreChar(x: seq<byte>, s: seq<byte>, more: seq<seq<byte>>)
    requires x != [] && s != [] && s[0] == x[0] && Levels(s[1..]) == Levels(x[1..]) + more
    ensures Levels(s) == Levels(x) + more
  {
    var ls := Levels(x[1..]);
    if x[0] == SLASH {
      LevelsOfSlash(x);
      LevelsOfSlash(s);
      Associative([[]], ls, more);
    } else {
      LevelsOfChar(x);
      LevelsOfChar(s);
      assert (ls + more)[0] == ls[0] && (ls + more)[1..] == ls[1..] + more;
      Associative([[x[0]] + ls[0]], ls[1..], more);
    }
  }

  /**
   * The filter P/# against a topic with no more levels than P, where section 4.7.1 wants P itself and
   * nothing else: the scan compares everything but the last characters, and never looks at a filter
   * of one character.
   */
  lemma ParentMatchesExactly(x: seq<byte>, p: seq<byte>)
    requires HASH !in x && LevelsValid(Levels(x)) && IsName(p) && |Levels(p)| <= |Levels(x)|
    ensures Scan(x + SLASH_HASH, p) <==> InitsMatch(x, p) && |x| + |p| > 2
    ensures LevelsMatch(Levels(x + SLASH_HASH), Levels(p)) <==> LevelsMatch(Levels(x), Levels(p))
  {
    ParentStart(x, p);
    ParentFilterLevels(x);
    HashAppended(Levels(x), Levels(p));
    var s := x + SLASH_HASH;
    if |x| == 1 && |p| == 1 {
      assert s[1..] == SLASH_HASH;
      assert !Scan(s[1..], p[1..]);
    } else if x != [] {
      assert !AtParent(s, p);
    }
  }

  lemma {:induction false} HashAppended(ls: seq<seq<byte>>, ms: seq<seq<byte>>)
    requires |ms| <= |ls|
    ensures LevelsMatch(ls + [[HASH]], ms) == LevelsMatch(ls, ms)
  {
    if ls == [] {
    } else if ms == [] {
      assert (ls + [[HASH]])[0] == ls[0];
    } else {
      assert (ls + [[HASH]])[1..] == ls[1..] + [[HASH]];
      HashAppended(ls[1..], ms[1..]);
    }
  }

  /** "foo/#" takes the topic "fox"; "f/#" does not take "f". */
  lemma ParentCounterexamples()
    ensures
      var foo, fox, f: seq<byte> := [0x66, 0x6F, 0x6F], [0x66, 0x6F, 0x78], [0x66];
      && IsFilter(foo + SLASH_HASH) && IsName(fox) && IsFilter(f + SLASH_HASH) && IsName(f)
      && Scan(foo + SLASH_HASH, fox) && !LevelsMatch(Levels(foo + SLASH_HASH), Levels(fox))
      && !Scan(f + SLASH_HASH, f) && LevelsMatch(Levels(f + SLASH_HASH), Levels(f))
  {
    var foo: seq<byte>, fox: seq<byte>, f: seq<byte> := [0x66, 0x6F, 0x6F], [0x66, 0x6F, 0x78], [0x66];
    PlainLevel(foo);
    PlainLevel(fox);
    PlainLevel(f);
    ParentFilterLevels(foo);
    ParentFilterLevels(f);
    ParentMatchesExactly(foo, fox);
    ParentMatchesExactly(f, f);
    PlainLevel(foo[..2]);
    assert Init(foo) == Init(fox) == foo[..2];
  }

  lemma PlainLevel(v: seq<byte>)
    requires SLASH !in v && IsPlain(v)
    ensures Levels(v) == [v] && LevelsMatch([v], [v]) && LevelsValid([v, [HASH]]) && LevelsValid([v])
  {
    assert [v, [HASH]][1..] == [[HASH]] && [v][1..] == [];
  }
}
