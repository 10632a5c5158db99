/** The topic matcher of src/lists.c:645-721 and section 4.7.1 of MQTT 3.1.1. */
module TopicMatch {
  import opened Bytes

  const SLASH: byte := 0x2F
  const PLUS: byte := 0x2B
  const HASH: byte := 0x23

  // ---------------------------------------------------------------- level by level

  function SlashAt(v: seq<byte>): (k: nat)
    ensures k <= |v| && (k < |v| ==> v[k] == SLASH)
    ensures forall i :: 0 <= i < k ==> v[i] != SLASH
  {
    if v == [] || v[0] == SLASH then 0 else 1 + SlashAt(v[1..])
  }

  /** The topic levels: the parts between the slashes. */
  function Levels(v: seq<byte>): (ls: seq<seq<byte>>)
    ensures ls != []
  {
    var k := SlashAt(v);
    if k == |v| then [v] else [v[..k]] + Levels(v[k + 1..])
  }

  /** Section 4.7.1: + stands for one level, # for its parent level and any number of levels below it. */
  predicate LevelsMatch(filter: seq<seq<byte>>, topic: seq<seq<byte>>) {
    if filter == [] then topic == []
    else if filter[0] == [HASH] then true
    else topic != [] && (filter[0] == [PLUS] || filter[0] == topic[0]) && LevelsMatch(filter[1..], topic[1..])
  }

  /** Levels with slashes between them. */
  function Joined(ls: seq<seq<byte>>): seq<byte>
    requires ls != []
  {
    if |ls| == 1 then ls[0] else ls[0] + [SLASH] + Joined(ls[1..])
  }

  /** The levels are what stands between the slashes: put together they are the text. */
  lemma {:induction false} LevelsJoin(v: seq<byte>)
    ensures Joined(Levels(v)) == v && forall i :: 0 <= i < |Levels(v)| ==> SLASH !in Levels(v)[i]
    decreases |v|
  {
    var k := SlashAt(v);
    if k < |v| {
      LevelsJoin(v[k + 1..]);
      assert Levels(v)[1..] == Levels(v[k + 1..]);
      assert v == v[..k] + [SLASH] + v[k + 1..];
    }
  }

  /** And there is no other way to cut a text into levels. */
  lemma {:induction false} LevelsFrom(ls: seq<seq<byte>>)
    requires ls != [] && forall i :: 0 <= i < |ls| ==> SLASH !in ls[i]
    ensures Levels(Joined(ls)) == ls
  {
    if |ls| > 1 {
      CutAtSlash(ls[0], Joined(ls[1..]));
      LevelsFrom(ls[1..]);
      assert ls == [ls[0]] + ls[1..];
    } else {
      SlashIs(ls[0], |ls[0]|);
    }
  }

  lemma CutAtSlash(a: seq<byte>, b: seq<byte>)
    requires SLASH !in a
    ensures Levels(a + [SLASH] + b) == [a] + Levels(b)
  {
    var v := a + [SLASH] + b;
    SlashIs(v, |a|);
    assert v[..|a|] == a && v[|a| + 1..] == b;
  }

  lemma {:induction false} SlashIs(v: seq<byte>, k: nat)
    requires k <= |v| && (k < |v| ==> v[k] == SLASH) && forall i :: 0 <= i < k ==> v[i] != SLASH
    ensures SlashAt(v) == k
  {
    if k > 0 {
      SlashIs(v[1..], k - 1);
    }
  }

  /** Level by level: as many levels, or with # at the end at least those before it, each the same or taken by a +. */
  lemma {:induction false} MatchByPosition(filter: seq<seq<byte>>, topic: seq<seq<byte>>)
    requires LevelsValid(filter)
    ensures
      var hash := filter != [] && filter[|filter| - 1] == [HASH];
      var n := if hash then |filter| - 1 else |filter|;
      LevelsMatch(filter, topic) <==>
        && (if hash then |topic| >= n else |topic| == n)
        && forall i :: 0 <= i < n ==> filter[i] == [PLUS] || filter[i] == topic[i]
  {
    if filter != [] && filter[0] != [HASH] && topic != [] {
      MatchByPosition(filter[1..], topic[1..]);
      assert forall i :: 1 <= i < |filter| ==> filter[i] == filter[1..][i - 1];
      assert forall i :: 1 <= i < |topic| ==> topic[i] == topic[1..][i - 1];
    }
  }

  predicate IsPlain(v: seq<byte>) {
    PLUS !in v && HASH !in v
  }

  /** A topic name as the theorems take it: no wildcard, not empty, not ending in a slash. */
  predicate IsName(v: seq<byte>) {
    v != [] && IsPlain(v) && v[|v| - 1] != SLASH
  }

  /** Wildcards fill a level of their own, and # only the last one. */
  predicate LevelsValid(ls: seq<seq<byte>>) {
    ls != [] ==>
      && (ls[0] == [PLUS] || IsPlain(ls[0]) || ls == [[HASH]])
      && LevelsValid(ls[1..])
  }

  predicate IsFilter(v: seq<byte>) {
    v != [] && LevelsValid(Levels(v))
  }

  // ---------------------------------------------------------------- the two-cursor scan

  /**
   * The loop of pname_matches_sname on what is left of filter and topic. It is left by the loop
   * condition with result 0; the check behind each round is `AtParent`.
   */
  predicate Scan(s: seq<byte>, p: seq<byte>)
    decreases |s|
  {
    if s == [] || p == [] then false
    else if s[0] == p[0] then
      (s[1..] == [] && p[1..] == []) || AtParent(s[1..], p[1..]) || Scan(s[1..], p[1..])
    else if s[0] == PLUS then
      var rest := p[SlashAt(p)..];
      (s[1..] == [] && rest == []) || AtParent(s[1..], rest) || Scan(s[1..], rest)
    else s[0] == HASH && |s| == 1
  }

  predicate AtParent(s: seq<byte>, p: seq<byte>) {
    |p| == 1 && |s| == 3 && s[1] == SLASH && s[2] == HASH
  }

  // ---------------------------------------------------------------- how levels follow the cursors

  lemma LevelsOfSlash(v: seq<byte>)
    requires v != [] && v[0] == SLASH
    ensures Levels(v) == [[]] + Levels(v[1..])
  {
  }

  lemma {:induction false} LevelsOfChar(v: seq<byte>)
    requires v != [] && v[0] != SLASH
    ensures var ls := Levels(v[1..]); Levels(v) == [[v[0]] + ls[0]] + ls[1..]
  {
    var w := v[1..];
    var k := SlashAt(w);
    assert SlashAt(v) == k + 1;
    if k == |w| {
      assert [v[0]] + w == v;
    } else {
      assert v[..k + 1] == [v[0]] + w[..k] && v[k + 2..] == w[k + 1..];
    }
  }

  /** The rest of a level must agree literally, the levels behind it level by level. */
  predicate RestMatches(s: seq<byte>, p: seq<byte>) {
    Levels(s)[0] == Levels(p)[0] && LevelsMatch(Levels(s)[1..], Levels(p)[1..])
  }

  /** Inside a level with literal text: its rest is plain, the levels behind it are valid. */
  predicate InsideLevel(s: seq<byte>) {
    IsPlain(Levels(s)[0]) && LevelsValid(Levels(s)[1..])
  }

  lemma SameChar(s: seq<byte>, p: seq<byte>)
    requires s != [] && p != [] && s[0] == p[0]
    ensures s[0] != SLASH ==> RestMatches(s, p) == RestMatches(s[1..], p[1..])
    ensures s[0] == SLASH ==> RestMatches(s, p) == LevelsMatch(Levels(s[1..]), Levels(p[1..]))
  {
    if s[0] == SLASH {
      LevelsOfSlash(s);
      LevelsOfSlash(p);
    } else {
      LevelsOfChar(s);
      LevelsOfChar(p);
      var l, m := Levels(s[1..])[0], Levels(p[1..])[0];
      assert [s[0]] + l == [p[0]] + m ==> l == ([s[0]] + l)[1..] == ([p[0]] + m)[1..] == m;
    }
  }

  lemma OtherChar(s: seq<byte>, p: seq<byte>)
    requires s != [] && p != [] && s[0] != p[0]
    ensures !RestMatches(s, p)
  {
    FirstOfLevel(s);
    FirstOfLevel(p);
  }

  lemma FirstOfLevel(v: seq<byte>)
    requires v != []
    ensures if v[0] == SLASH then Levels(v)[0] == [] else Levels(v)[0] != [] && Levels(v)[0][0] == v[0]
  {
    if v[0] != SLASH {
      LevelsOfChar(v);
    }
  }

  // ---------------------------------------------------------------- where the scan agrees

  predicate EndsInHash(ls: seq<seq<byte>>) {
    ls != [] && ls[|ls| - 1] == [HASH]
  }

  /** Below a # the topic has as many levels as the filter, or more: the # stands for at least one. */
  predicate HashBelow(s: seq<byte>, p: seq<byte>) {
    EndsInHash(Levels(s)) ==> |Levels(p)| >= |Levels(s)|
  }

  /** What may be left of a topic name inside a level: nothing, or a name. */
  predicate RestOfName(p: seq<byte>) {
    p == [] || IsName(p)
  }

  lemma LevelCount(v: seq<byte>)
    requires v != []
    ensures |Levels(v)| == |Levels(v[1..])| + (if v[0] == SLASH then 1 else 0)
    ensures v[0] == SLASH ==> Levels(v)[1..] == Levels(v[1..])
    ensures v[0] != SLASH ==> Levels(v)[1..] == Levels(v[1..])[1..]
  {
    if v[0] == SLASH { LevelsOfSlash(v); } else { LevelsOfChar(v); }
  }

  lemma AtParentLevels(s: seq<byte>, p: seq<byte>)
    requires AtParent(s, p) && IsName(p)
    ensures EndsInHash(Levels(s)) && |Levels(p)| < |Levels(s)|
  {
    LevelCount(p);
    LevelCount(s);
    var tail := s[1..];
    assert tail[1..] == [HASH];
    LevelsOfSlash(tail);
    assert Levels([HASH]) == [[HASH]];
    assert Levels(tail) == [[], [HASH]];
  }

  lemma NotAtParent(s: seq<byte>, p: seq<byte>)
    requires RestOfName(p) && HashBelow(s, p)
    ensures !AtParent(s, p)
  {
    if AtParent(s, p) {
      AtParentLevels(s, p);
    }
  }

  lemma RestIsName(p: seq<byte>)
    requires IsName(p)
    ensures RestOfName(p[1..]) && (p[0] == SLASH ==> IsName(p[1..]))
  {
    if |p| > 1 {
      assert p[1..][|p| - 2] == p[|p| - 1];
    }
  }

  /** With the next character gone, what is left still satisfies the conditions. */
  lemma ConditionsKept(s: seq<byte>, p: seq<byte>)
    requires s != [] && p != [] && s[0] == p[0] && HashBelow(s, p) && InsideLevel(s)
    ensures HashBelow(s[1..], p[1..])
    ensures if s[0] == SLASH then LevelsValid(Levels(s[1..])) else InsideLevel(s[1..])
  {
    LevelCount(s);
    LevelCount(p);
    if s[0] == SLASH {
      assert Levels(s)[|Levels(s)| - 1] == Levels(s)[1..][|Levels(s)| - 2];
    } else {
      LevelsOfChar(s);
      var l := Levels(s[1..])[0];
      assert forall c :: c in l ==> c in Levels(s)[0];
      if |Levels(s)| > 1 {
        assert Levels(s)[|Levels(s)| - 1] == Levels(s)[1..][|Levels(s)| - 2];
      } else {
        assert l != [HASH];
      }
    }
  }

  lemma {:induction false} ScanInside(s: seq<byte>, p: seq<byte>)
    requires InsideLevel(s) && RestOfName(p) && HashBelow(s, p)
    ensures (Scan(s, p) || (s == [] && p == [])) == RestMatches(s, p)
    decreases |s|, 0
  {
    if s == [] || p == [] {
      NothingLeft(s, p);
    } else if s[0] != p[0] {
      OtherChar(s, p);
      FirstOfLevel(s);
      assert s[0] != PLUS && s[0] != HASH;
    } else {
      SameChar(s, p);
      ConditionsKept(s, p);
      RestIsName(p);
      NotAtParent(s[1..], p[1..]);
      if s[0] == SLASH {
        ScanStart(s[1..], p[1..]);
      } else {
        ScanInside(s[1..], p[1..]);
      }
    }
  }

  lemma NothingLeft(s: seq<byte>, p: seq<byte>)
    requires InsideLevel(s) && RestOfName(p) && HashBelow(s, p) && (s == [] || p == [])
    ensures RestMatches(s, p) <==> s == [] && p == []
  {
    if s == [] && p != [] {
      FirstOfLevel(p);
      LevelCount(p);
    } else if s != [] && p == [] {
      FirstOfLevel(s);
      LevelCount(s);
    }
  }

  lemma {:induction false} ScanStart(s: seq<byte>, p: seq<byte>)
    requires LevelsValid(Levels(s)) && IsName(p) && HashBelow(s, p)
    ensures Scan(s, p) == LevelsMatch(Levels(s), Levels(p))
    decreases |s|, 1
  {
    var first := Levels(s)[0];
    if first == [PLUS] {
      ScanPlus(s, p);
    } else if IsPlain(first) {
      ScanInside(s, p);
    } else {
      OneLevel(s);
    }
  }

  lemma OneLevel(s: seq<byte>)
    requires |Levels(s)| == 1
    ensures Levels(s) == [s]
  {
  }

  lemma PlusTakesLevel(a: seq<seq<byte>>, level: seq<byte>, b: seq<seq<byte>>)
    ensures LevelsMatch([[PLUS]] + a, [level] + b) == LevelsMatch(a, b)
  {
    assert ([[PLUS]] + a)[1..] == a && ([level] + b)[1..] == b;
  }

  lemma HashBelowTail(l: seq<byte>, ls: seq<seq<byte>>)
    requires ls != []
    ensures EndsInHash([l] + ls) == EndsInHash(ls)
  {
    assert ([l] + ls)[|ls|] == ls[|ls| - 1];
  }

  lemma EndOfName(p: seq<byte>, k: nat)
    requires IsName(p) && k < |p| && p[k] == SLASH
    ensures IsName(p[k..]) && IsName(p[k + 1..])
  {
    var r := p[k + 1..];
    assert |p| > k + 1;
    assert r[|r| - 1] == p[|p| - 1];
  }

  /** From the slash behind the first level of a topic on. */
  lemma NameFromSlash(p: seq<byte>, k: nat)
    requires IsName(p) && k == SlashAt(p) < |p|
    ensures IsName(p[k + 1..]) && IsName(p[k..]) && p[k..][1..] == p[k + 1..]
    ensures Levels(p) == [p[..k]] + Levels(p[k + 1..]) && Levels(p[k..]) == [[]] + Levels(p[k + 1..])
  {
    var rest, r := p[k..], p[k + 1..];
    assert rest[1..] == r && rest[|rest| - 1] == p[|p| - 1];
    EndOfName(p, k);
    LevelsOfSlash(rest);
  }

  lemma PlusSlash(s: seq<byte>, p: seq<byte>, k: nat)
    requires |s| > 1 && s[0] == PLUS && s[1] == SLASH && p != [] && p[0] != PLUS && k == SlashAt(p) < |p|
    requires !AtParent(s[1..], p[k..]) && !AtParent(s[2..], p[k + 1..]) && p[k + 1..] != []
    ensures Scan(s, p) == Scan(s[2..], p[k + 1..])
  {
    var tail, rest := s[1..], p[k..];
    assert Scan(s, p) == Scan(tail, rest);
    assert tail[1..] == s[2..] && rest[1..] == p[k + 1..];
    assert Scan(tail, rest) == Scan(tail[1..], rest[1..]);
  }

  lemma {:induction false} ScanPlus(s: seq<byte>, p: seq<byte>)
    requires LevelsValid(Levels(s)) && IsName(p) && HashBelow(s, p) && Levels(s)[0] == [PLUS]
    ensures Scan(s, p) == LevelsMatch(Levels(s), Levels(p))
    decreases |s|, 0
  {
    assert s[0] == PLUS && s[0] != p[0];
    if |s| == 1 {
      PlusAlone(s, p);
    } else {
      PlusLevels(s);
      var k := SlashAt(p);
      if k == |p| {
        PlusMissesSlash(s, p);
      } else {
        NameFromSlash(p, k);
        PlusConditions(s, p, k);
        PlusSlash(s, p, k);
        PlusTakesLevel(Levels(s[2..]), p[..k], Levels(p[k + 1..]));
        ScanStart(s[2..], p[k + 1..]);
      }
    }
  }

  lemma PlusLevels(s: seq<byte>)
    requires |s| > 1 && Levels(s)[0] == [PLUS]
    ensures s[0] == PLUS && s[1] == SLASH && Levels(s) == [[PLUS]] + Levels(s[2..])
    ensures Levels(s[1..]) == [[]] + Levels(s[2..]) && Levels(s)[1..] == Levels(s[2..])
  {
    var k := SlashAt(s);
    assert s[..k] == [PLUS] && k == 1;
    LevelsOfSlash(s[1..]);
    assert s[1..][1..] == s[2..];
  }

  /** The filter "+" takes any name of one level. */
  lemma PlusAlone(s: seq<byte>, p: seq<byte>)
    requires s == [PLUS] && IsName(p)
    ensures Scan(s, p) == LevelsMatch(Levels(s), Levels(p))
  {
    var k := SlashAt(p);
    assert Levels(s) == [[PLUS]] + [] && s[1..] == [];
    assert !AtParent([], p[k..]) && !Scan([], p[k..]);
    PlusTakesLevel([], Levels(p)[0], Levels(p)[1..]);
    assert Levels(p) == [Levels(p)[0]] + Levels(p)[1..];
    assert k == |p| ==> Levels(p) == [p];
    assert k < |p| ==> Levels(p)[1..] == Levels(p[k + 1..]);
  }

  /** Further levels in the filter and none in the topic. */
  lemma PlusMissesSlash(s: seq<byte>, p: seq<byte>)
    requires |s| > 1 && s[0] == PLUS && s[1] == SLASH && Levels(s) == [[PLUS]] + Levels(s[2..])
    requires IsName(p) && SlashAt(p) == |p| && HashBelow(s, p) && LevelsValid(Levels(s))
    ensures !Scan(s, p) && !LevelsMatch(Levels(s), Levels(p))
  {
    var ls := Levels(s[2..]);
    assert Levels(p) == [p] + [];
    PlusTakesLevel(ls, p, []);
    HashBelowTail([PLUS], ls);
    assert p[|p|..] == [] && !Scan(s[1..], []) && !AtParent(s[1..], []);
    assert Levels(s)[1..] == ls && HASH in [HASH];
    assert ls[0] != [HASH];
  }

  /** The conditions on filter and topic hold behind the slashes too. */
  lemma PlusConditions(s: seq<byte>, p: seq<byte>, k: nat)
    requires |s| > 1 && LevelsValid(Levels(s)) && HashBelow(s, p) && k == SlashAt(p) < |p|
    requires Levels(s) == [[PLUS]] + Levels(s[2..]) && Levels(s[1..]) == [[]] + Levels(s[2..])
    requires IsName(p[k..]) && IsName(p[k + 1..])
    requires Levels(p) == [p[..k]] + Levels(p[k + 1..]) && Levels(p[k..]) == [[]] + Levels(p[k + 1..])
    ensures LevelsValid(Levels(s[2..])) && HashBelow(s[2..], p[k + 1..])
    ensures !AtParent(s[1..], p[k..]) && !AtParent(s[2..], p[k + 1..])
  {
    var ls := Levels(s[2..]);
    assert Levels(s)[1..] == ls;
    HashBelowTail([PLUS], ls);
    HashBelowTail([], ls);
    NotAtParent(s[1..], p[k..]);
    NotAtParent(s[2..], p[k + 1..]);
  }

  /**
   * For every valid filter and every name, unless the filter ends in # and the topic has fewer levels
   * than the filter, the scan is level-by-level matching.
   */
  lemma ScanAgrees(filter: seq<byte>, topic: seq<byte>)
    requires IsFilter(filter) && IsName(topic) && HashBelow(filter, topic)
    ensures Scan(filter, topic) == LevelsMatch(Levels(filter), Levels(topic))
  {
    ScanStart(filter, topic);
  }

  // ---------------------------------------------------------------- the loop itself

  /** pname_matches_sname: two cursors, a result and a wildcard flag. */
  method PnameMatchesSname(sname: seq<byte>, pname: seq<byte>) returns (res: int)
    requires sname != [] && pname != []
    ensures res == if Scan(sname, pname) then 1 else 0
  {
    var spos: nat, ppos: nat, wild := 0, 0, 0;
    res := 0;
    while spos < |sname| && ppos < |pname|
      invariant spos <= |sname| && ppos <= |pname| && res == 0 && wild == 0
      invariant Scan(sname, pname) == Scan(sname[spos..], pname[ppos..])
      decreases |sname| - spos
    {
      ghost var s, p := sname[spos..], pname[ppos..];
      if sname[spos] == pname[ppos] {
        spos, ppos := spos + 1, ppos + 1;
        assert sname[spos..] == s[1..] && pname[ppos..] == p[1..];
        if spos == |sname| && ppos == |pname| {
          res := 1;
          break;
        }
      } else if sname[spos] == PLUS {
        spos := spos + 1;
        ppos := ToSlash(pname, ppos);
        assert sname[spos..] == s[1..];
        if ppos == |pname| && spos == |sname| {
          res := 1;
          break;
        }
      } else if sname[spos] == HASH {
        wild, res := 1, if spos + 1 != |sname| then 0 else 1;
        break;
      } else {
        res := 0;
        break;
      }
      if ppos == |pname| - 1 {
        if spos == |sname| - 3 && sname[spos + 1] == SLASH && sname[spos + 2] == HASH {
          res, wild := 1, 1;
          break;
        }
      }
    }
    if wild == 0 && (ppos < |pname| || spos < |sname|) {
      res := 0;
    }
  }

  /** The inner loop behind a +. */
  method ToSlash(pname: seq<byte>, start: nat) returns (ppos: nat)
    requires start <= |pname|
    ensures start <= ppos <= |pname| && ppos == start + SlashAt(pname[start..])
    ensures pname[ppos..] == pname[start..][SlashAt(pname[start..])..]
  {
    ppos := start;
    while ppos < |pname| && pname[ppos] != SLASH
      invariant start <= ppos <= |pname|
      invariant SlashAt(pname[start..]) == ppos - start + SlashAt(pname[ppos..])
    {
      assert pname[ppos..][1..] == pname[ppos + 1..];
      ppos := ppos + 1;
    }
  }
}
