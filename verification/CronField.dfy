/** One field of a cron line: parse_field of src/cron_trigger.c:45-149. */
module CronField {
  import opened Wrappers
  import opened DecimalText

  // ---------------------------------------------------------------- reading numbers and names

  /** The digits a text starts with, read behind those read before: their value and how many there are. */
  function LeadingDigits(s: string, before: nat): (r: (nat, nat))
    ensures r.1 <= |s|
  {
    if s == "" || !IsDigit(s[0]) then (before, 0)
    else var (n, k) := LeadingDigits(s[1..], 10 * before + DigitValue(s[0])); (n, k + 1)
  }

  predicate IsSpace(c: char) {
    c == ' ' || '\t' <= c <= '\r'
  }

  function SpaceCount(s: string): (n: nat)
    ensures n <= |s|
  {
    if s == "" || !IsSpace(s[0]) then 0 else 1 + SpaceCount(s[1..])
  }

  function SignSize(s: string): (k: nat)
    ensures k <= |s|
  {
    if s != "" && (s[0] == '-' || s[0] == '+') then 1 else 0
  }

  /** An optional sign and digits: the number and how many characters it took; none without a digit. */
  function SignedNumber(s: string): (r: (int, nat))
    ensures r.1 <= |s|
  {
    var (n, size) := LeadingDigits(s[SignSize(s)..], 0);
    if size == 0 then (0, 0) else (Signed(s[0] == '-', n), SignSize(s) + size)
  }

  function Signed(minus: bool, n: nat): int {
    if minus then -(n as int) else n
  }

  /** strtol in base 10. */
  function Strtol(s: string): (r: (int, nat))
    ensures r.1 <= |s|
  {
    var at := SpaceCount(s);
    var (n, size) := SignedNumber(s[at..]);
    (n, if size == 0 then 0 else at + size)
  }

  function Lower(c: char): char {
    if 'A' <= c <= 'Z' then c - 'A' + 'a' else c
  }

  /** strncasecmp of three characters. */
  predicate SameName(s: string, name: string) {
    && |s| >= 3 && |name| >= 3
    && Lower(s[0]) == Lower(name[0]) && Lower(s[1]) == Lower(name[1]) && Lower(s[2]) == Lower(name[2])
  }

  /** The number of the first of the three-letter names that the text starts with. */
  function NameAt(names: string, s: string, i: nat): Option<nat>
    decreases |names| - i
  {
    if i >= |names| then None
    else if SameName(s, names[i..]) then Some(i / 3)
    else NameAt(names, s, i + 3)
  }

  // ---------------------------------------------------------------- a ring and its ranges

  /** Every step-th place counted from the first; without a positive step only the first. */
  predicate OnStep(t: nat, step: int) {
    t == 0 || (step > 0 && Wrap(step, t) == 0)
  }

  /** The place of a number on a ring: the remainder, found by going round. */
  function Wrap(ring: nat, n: int): (j: nat)
    requires ring > 0
    ensures j < ring
    decreases if n < 0 then 1 else 0, if n < 0 then -n else n
  {
    if n < 0 then Wrap(ring, n + ring) else if n < ring then n else Wrap(ring, n - ring)
  }

  lemma {:induction false} WrapIsRemainder(ring: nat, n: int)
    requires ring > 0
    ensures Wrap(ring, n) == n % ring
    decreases if n < 0 then 1 else 0, if n < 0 then -n else n
  {
    if n < 0 {
      WrapIsRemainder(ring, n + ring);
      RemainderOnce(ring, n);
    } else if n < ring {
      EuclidIs(n, ring, 0, n);
    } else {
      WrapIsRemainder(ring, n - ring);
      RemainderOnce(ring, n - ring);
    }
  }

  lemma OnStepIsMultiple(t: nat, step: int)
    ensures OnStep(t, step) <==> t == 0 || (step > 0 && t % step == 0)
  {
    if step > 0 {
      WrapIsRemainder(step, t);
    }
  }

  lemma RemainderOnce(ring: nat, n: int)
    requires ring > 0
    ensures (n + ring) % ring == n % ring
  {
    Euclid(n, ring);
    OneMore(ring, n / ring);
    EuclidIs(n + ring, ring, n / ring + 1, n % ring);
  }

  lemma Euclid(n: int, ring: nat)
    requires ring > 0
    ensures n == n / ring * ring + n % ring && 0 <= n % ring < ring
  {
  }

  lemma OneMore(ring: nat, q: int)
    ensures (q + 1) * ring == q * ring + ring
  {
  }

  function At(ring: nat, n1: nat, t: nat): (j: nat)
    requires ring > 0
    ensures j < ring
  {
    Wrap(ring, n1 + t)
  }

  /** The places reached from n1 by up to `last` steps around a ring. */
  function Places(ring: nat, n1: nat, last: nat, step: int): (r: set<nat>)
    requires ring > 0
    ensures forall j :: j in r ==> j < ring
  {
    set t: nat | t <= last && OnStep(t, step) :: At(ring, n1, t)
  }

  const FAILSAFE := 1024

  /** How far the loop walks: to n2 if it is on the ring, else until the failsafe stops it. */
  function WalkLength(ring: nat, n1: nat, n2: nat): nat
    requires ring > 0
  {
    if n2 < ring then Wrap(ring, n2 - n1) else FAILSAFE - 1
  }

  function RangeMarks(ring: nat, n1: nat, n2: nat, step: int): set<nat>
    requires ring > 0
  {
    Places(ring, n1, WalkLength(ring, n1, n2), step)
  }

  /** The place t steps from n1 is j exactly if t is the distance around the ring. */
  lemma {:induction false} RingPlace(ring: nat, n1: nat, t: nat, j: nat)
    requires t < ring && j < ring
    ensures At(ring, n1, t) == j <==> t == Wrap(ring, j - n1)
    decreases n1
  {
    if n1 >= ring {
      RingPlace(ring, n1 - ring, t, j);
    } else {
      assert n1 + t >= ring ==> Wrap(ring, n1 + t) == n1 + t - ring;
      assert j < n1 ==> Wrap(ring, j - n1) == j - n1 + ring;
    }
  }

  lemma MultipleWithin(ring: nat, k: int, d: int)
    requires d == k * ring && 0 - ring < d < ring
    ensures d == 0
  {
    assert k >= 1 ==> k * ring >= ring;
    assert k <= -1 ==> k * ring <= -1 * ring;
  }

  /** A range on the ring: the places whose distance from the lower end is on the step and within the range. */
  lemma RangeMarksExactly(ring: nat, n1: nat, n2: nat, step: int, j: nat)
    requires n2 < ring
    ensures j in RangeMarks(ring, n1, n2, step) <==>
            && j < ring && (j - n1) % ring <= (n2 - n1) % ring
            && ((j - n1) % ring == 0 || (step > 0 && (j - n1) % ring % step == 0))
  {
    OnStepIsMultiple((j - n1) % ring, step);
    var last := (n2 - n1) % ring;
    WrapIsRemainder(ring, n2 - n1);
    WrapIsRemainder(ring, j - n1);
    if j in RangeMarks(ring, n1, n2, step) {
      var t: nat :| t <= last && OnStep(t, step) && j == At(ring, n1, t);
      RingPlace(ring, n1, t, j);
    }
    if j < ring && (j - n1) % ring <= last && OnStep((j - n1) % ring, step) {
      var t: nat := (j - n1) % ring;
      RingPlace(ring, n1, t, j);
      assert At(ring, n1, t) == j;
    }
  }

  lemma EuclidIs(t: int, ring: nat, q: int, r: nat)
    requires t == q * ring + r && r < ring
    ensures t % ring == r
  {
    var p, s := t / ring, t % ring;
    assert t == p * ring + s;
    assert r - s == (p - q) * ring;
    MultipleWithin(ring, p - q, r - s);
  }

  lemma Multiple(t: nat, step: nat)
    requires step > 0 && t % step == 0
    ensures t == step * (t / step)
  {
  }

  /** On the step, one range reaches as far as another exactly if as many whole steps fit in. */
  lemma StepsFit(t: nat, d: nat, step: nat)
    requires step > 0 && t % step == 0
    ensures t <= d <==> t / step <= d / step
  {
    var q, p := t / step, d / step;
    Multiple(t, step);
    assert d == step * p + d % step;
    if q <= p {
      assert step * q <= step * p;
    } else {
      assert step * q >= step * (p + 1) == step * p + step;
    }
  }

  lemma PlacesWithin(ring: nat, n1: nat, d: nat, e: nat, step: nat)
    requires ring > 0 && (step == 0 || d / step <= e / step)
    ensures Places(ring, n1, d, step) <= Places(ring, n1, e, step)
  {
    forall j | j in Places(ring, n1, d, step) ensures j in Places(ring, n1, e, step) {
      var t: nat :| t <= d && OnStep(t, step) && j == At(ring, n1, t);
      if t != 0 {
        OnStepIsMultiple(t, step);
        StepsFit(t, d, step);
        StepsFit(t, e, step);
      }
      assert t <= e && j == At(ring, n1, t);
    }
  }

  /** The last place of the longer range is not in the shorter one. */
  lemma PlacesDiffer(ring: nat, n1: nat, d: nat, e: nat, step: nat)
    requires d < ring && e < ring && step > 0 && d / step < e / step
    ensures Places(ring, n1, d, step) != Places(ring, n1, e, step)
  {
    var t := step * (e / step);
    assert e == step * (e / step) + e % step;
    EuclidIs(t, step, e / step, 0);
    OnStepIsMultiple(t, step);
    StepsFit(t, e, step);
    QuotientBack(e / step, step);
    StepsFit(t, d, step);
    var j := At(ring, n1, t);
    assert j in Places(ring, n1, e, step);
    if j in Places(ring, n1, d, step) {
      var u: nat :| u <= d && OnStep(u, step) && j == At(ring, n1, u);
      RingPlace(ring, n1, u, j);
      RingPlace(ring, n1, t, j);
      assert false;
    }
  }

  lemma QuotientBack(q: nat, step: nat)
    requires step > 0
    ensures step * q / step == q
  {
    var p, s := step * q / step, step * q % step;
    assert step * q == p * step + s;
    assert s == (q - p) * step;
    MultipleWithin(step, q - p, s);
  }

  /** Two stepped ranges from the same place mark the same exactly if as many whole steps fit into both. */
  lemma SamePlaces(ring: nat, n1: nat, d: nat, e: nat, step: nat)
    requires d < ring && e < ring
    ensures Places(ring, n1, d, step) == Places(ring, n1, e, step) <==> step == 0 || d / step == e / step
  {
    if step == 0 || d / step == e / step {
      PlacesWithin(ring, n1, d, e, step);
      PlacesWithin(ring, n1, e, d, step);
    } else if d / step < e / step {
      PlacesDiffer(ring, n1, d, e, step);
    } else {
      PlacesDiffer(ring, n1, e, d, step);
    }
  }

  ghost predicate Marked(ary: array<bool>, marks: set<nat>)
    reads ary
  {
    forall j {:trigger ary[j]} :: 0 <= j < ary.Length ==> (ary[j] <==> j in marks)
  }

  /** The countdown s0 before the place after t others is tried. */
  function Countdown(t: nat, step: int): int {
    if t == 0 then 1 else if step > 0 then step - Wrap(step, t - 1) else step - (t - 1)
  }

  lemma CountdownHits(t: nat, step: int)
    ensures Countdown(t, step) == 1 <==> OnStep(t, step)
    ensures Countdown(t + 1, step) == if OnStep(t, step) then step else Countdown(t, step) - 1
  {
    if t > 0 && step > 0 {
      WrapStep(step, t - 1);
    }
  }

  lemma PlacesStep(ring: nat, n1: nat, t: nat, step: int)
    requires ring > 0
    ensures Places(ring, n1, 0, step) == {At(ring, n1, 0)}
    ensures Places(ring, n1, t + 1, step) ==
            Places(ring, n1, t, step) + if OnStep(t + 1, step) then {At(ring, n1, t + 1)} else {}
  {
    assert OnStep(0, step);
    var all, less := Places(ring, n1, t + 1, step), Places(ring, n1, t, step);
    forall j | j in all ensures j in less || (OnStep(t + 1, step) && j == At(ring, n1, t + 1)) {
      var u: nat :| u <= t + 1 && OnStep(u, step) && j == At(ring, n1, u);
    }
    if OnStep(t + 1, step) {
      assert At(ring, n1, t + 1) in all;
    }
  }

  /** What t rounds of the loop have marked. */
  function Rounds(ring: nat, n1: nat, t: nat, step: int): set<nat>
    requires ring > 0
  {
    if t == 0 then {} else Places(ring, n1, t - 1, step)
  }

  lemma RoundsStep(ring: nat, n1: nat, t: nat, step: int)
    requires ring > 0
    ensures Rounds(ring, n1, t + 1, step) ==
            Rounds(ring, n1, t, step) + if OnStep(t, step) then {At(ring, n1, t)} else {}
  {
    PlacesStep(ring, n1, if t == 0 then 0 else t - 1, step);
  }

  /** One place further round the ring. */
  lemma {:induction false} WrapStep(ring: nat, n: nat)
    requires ring > 0
    ensures Wrap(ring, n + 1) == if Wrap(ring, n) + 1 == ring then 0 else Wrap(ring, n) + 1
  {
    if n >= ring {
      WrapStep(ring, n - ring);
    } else if n + 1 == ring {
      assert Wrap(ring, n + 1) == Wrap(ring, 0);
    }
  }

  /** The upper end is met after exactly the length of the walk, and off the ring never. */
  lemma WalkEnds(ring: nat, n1: nat, n2: nat, t: nat)
    requires 0 < ring < FAILSAFE && t <= WalkLength(ring, n1, n2)
    ensures At(ring, n1, t) == n2 <==> n2 < ring && t == WalkLength(ring, n1, n2)
    ensures WalkLength(ring, n1, n2) < if n2 < ring then FAILSAFE - 1 else FAILSAFE
  {
    if n2 < ring {
      RingPlace(ring, n1, t, n2);
    }
  }

  /** With the upper end off the ring the loop makes 1024 rounds: the step 1023 marks twice, the step 1024 once. */
  lemma FailsafeStops(ring: nat, n1: nat, n2: nat)
    requires 0 < ring <= n2
    ensures RangeMarks(ring, n1, n2, 1023) == {n1 % ring, (n1 + 1023) % ring}
    ensures RangeMarks(ring, n1, n2, 1024) == {n1 % ring}
  {
    WrapIsRemainder(ring, n1);
    WrapIsRemainder(ring, n1 + 1023);
    forall t: nat | t <= 1023 ensures OnStep(t, 1023) <==> t in {0, 1023} {
      OnStepIsMultiple(t, 1023);
    }
    forall t: nat | t <= 1023 ensures OnStep(t, 1024) <==> t == 0 {
      OnStepIsMultiple(t, 1024);
    }
    PlacesAre(ring, n1, 1023, 1023, {0, 1023});
    PlacesAre(ring, n1, 1023, 1024, {0});
  }

  lemma PlacesAre(ring: nat, n1: nat, last: nat, step: int, steps: set<nat>)
    requires ring > 0 && forall t: nat :: t in steps <==> t <= last && OnStep(t, step)
    ensures Places(ring, n1, last, step) == set t | t in steps :: At(ring, n1, t)
  {
  }

  /** The marking loop with its failsafe. */
  method MarkRing(ary: array<bool>, n1: nat, n2: nat, step: int, ghost marks: set<nat>) returns (ok: bool)
    requires 0 < ary.Length < FAILSAFE && Marked(ary, marks)
    modifies ary
    ensures ok <==> n2 < ary.Length
    ensures Marked(ary, marks + RangeMarks(ary.Length, n1, n2, step))
  {
    var n, s0, failsafe := n1 - 1, 1, FAILSAFE;
    ghost var t: nat, last := 0, WalkLength(ary.Length, n1, n2);
    var more := true;
    while more
      invariant failsafe == FAILSAFE - t && s0 == Countdown(t, step)
      invariant if t == 0 then n == n1 - 1 && more else n == At(ary.Length, n1, t - 1)
      invariant Marked(ary, marks + Rounds(ary.Length, n1, t, step))
      invariant if more then t <= last else n2 < ary.Length && t == last + 1
      decreases last + 1 - t, more
    {
      WalkEnds(ary.Length, n1, n2, t);
      n := NextPlace(ary.Length, n1, t, n);
      s0 := MarkOnStep(ary, n, s0, step, n1, t, marks);
      failsafe := failsafe - 1;
      t := t + 1;
      if failsafe == 0 {
        return false;
      }
      more := n != n2;
    }
    ok := true;
  }

  method NextPlace(ring: nat, ghost n1: nat, ghost t: nat, n: int) returns (next: nat)
    requires ring > 0 && n == if t == 0 then n1 - 1 else At(ring, n1, t - 1)
    ensures next == At(ring, n1, t)
  {
    if t > 0 {
      WrapStep(ring, n1 + t - 1);
    }
    WrapIsRemainder(ring, n + 1);
    next := (n + 1) % ring;
  }

  method MarkOnStep(ary: array<bool>, n: nat, s: int, step: int, ghost n1: nat, ghost t: nat, ghost marks: set<nat>)
    returns (s0: int)
    requires ary.Length > 0 && n == At(ary.Length, n1, t) && s == Countdown(t, step)
    requires Marked(ary, marks + Rounds(ary.Length, n1, t, step))
    modifies ary
    ensures s0 == Countdown(t + 1, step)
    ensures Marked(ary, marks + Rounds(ary.Length, n1, t + 1, step))
  {
    CountdownHits(t, step);
    RoundsStep(ary.Length, n1, t, step);
    s0 := s - 1;
    if s0 == 0 {
      ary[n] := true;
      s0 := step;
    }
  }
}
