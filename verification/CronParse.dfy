/** Whole fields: the loop of parse_field (src/cron_trigger.c:45-149) and what it makes of well-formed ones. */
module CronParse {
  import opened Wrappers
  import opened DecimalText
  import opened CronField

  /** Ring size, offset of the numbers, and names (none is ""). */
  datatype Kind = Kind(ring: nat, off: int, names: string) {
    predicate Valid() {
      0 < ring < FAILSAFE && off <= 0
    }
  }

  /** 0 or -1 with what has been marked; a negative place would be written outside the array. */
  datatype Outcome = Parsed(marks: set<nat>) | Failed(marks: set<nat>) | OutsideArray

  /** A star, number or name read: the two ends after it, and how many characters it took. */
  datatype Value = Value(n1: int, n2: int, size: nat) | NoValue

  function ReadValue(kind: Kind, s: string, n1: int, n2: int): (v: Value)
    ensures v.Value? ==> 0 < v.size <= |s|
  {
    if s == "" then NoValue
    else if s[0] == '*' then Value(0, kind.ring - 1, 1)
    else if IsDigit(s[0]) then
      var (digits, size) := LeadingDigits(s, 0);
      var n := digits + kind.off;
      var end := if size < |s| && s[size] == '/' then kind.ring - 1 else if n1 < 0 then n2 else n;
      Value(if n1 < 0 then n else n1, end, size)
    else match NameAt(kind.names, s, 0)
      case None => NoValue
      case Some(i) =>
        NameIsText(kind.names, s, 0);
        if n1 < 0 then Value(i, n2, 3) else Value(n1, i, 3)
  }

  lemma {:induction false} NameIsText(names: string, s: string, i: nat)
    ensures NameAt(names, s, i).Some? ==> |s| >= 3
    decreases |names| - i
  {
    if i < |names| && !SameName(s, names[i..]) {
      NameIsText(names, s, i + 3);
    }
  }

  /** The step behind a slash, and where the text goes on. */
  function ReadStep(s: string): (r: (int, nat))
    ensures r.1 <= |s|
  {
    if s != "" && s[0] == '/' then var (n, size) := Strtol(s[1..]); (n, size + 1) else (1, 0)
  }

  function ParseFrom(kind: Kind, s: string, n1: int, n2: int, marks: set<nat>): Outcome
    requires kind.Valid()
    decreases |s|, 0
  {
    match ReadValue(kind, s, n1, n2)
    case NoValue => Failed(marks)
    case Value(lo, hi, size) =>
      if size < |s| && s[size] == '-' && hi < 0 then ParseFrom(kind, s[size + 1..], lo, hi, marks)
      else if lo < 0 then OutsideArray
      else Finish(kind, s[size..], lo, if hi < 0 then lo else hi, marks)
  }

  /** Mark the range with its step. */
  function Finish(kind: Kind, s: string, lo: nat, hi: nat, marks: set<nat>): Outcome
    requires kind.Valid()
    decreases |s|, 1
  {
    var (step, size) := ReadStep(s);
    GoOn(kind, s[size..], hi < kind.ring, marks + RangeMarks(kind.ring, lo, hi, step))
  }

  /** The next range behind a comma, or the end. */
  function GoOn(kind: Kind, s: string, ok: bool, marks: set<nat>): Outcome
    requires kind.Valid()
    decreases |s|, 0
  {
    if ok && s == "" then Parsed(marks)
    else if ok && s[0] == ',' then ParseFrom(kind, s[1..], -1, -1, marks)
    else Failed(marks)
  }

  /** Without an offset of the numbers no text leads to a place below the array. */
  lemma {:induction false} StaysInside(kind: Kind, s: string, n1: int, n2: int, marks: set<nat>)
    requires kind.Valid() && kind.off == 0
    ensures !ParseFrom(kind, s, n1, n2, marks).OutsideArray?
    decreases |s|
  {
    match ReadValue(kind, s, n1, n2)
    case NoValue =>
    case Value(lo, hi, size) =>
      if size < |s| && s[size] == '-' && hi < 0 {
        StaysInside(kind, s[size + 1..], lo, hi, marks);
      } else {
        assert lo >= 0;
        FinishStaysInside(kind, s[size..], lo, if hi < 0 then lo else hi, marks);
      }
  }

  lemma {:induction false} FinishStaysInside(kind: Kind, s: string, lo: nat, hi: nat, marks: set<nat>)
    requires kind.Valid() && kind.off == 0
    ensures !Finish(kind, s, lo, hi, marks).OutsideArray?
    decreases |s|
  {
    var (step, size) := ReadStep(s);
    var rest, all := s[size..], marks + RangeMarks(kind.ring, lo, hi, step);
    if rest != "" {
      StaysInside(kind, rest[1..], -1, -1, all);
    }
  }

  // ---------------------------------------------------------------- the loop

  method ReadDigits(text: string, at: nat) returns (n: nat, end: nat)
    requires at <= |text|
    ensures at <= end <= |text| && (n, end - at) == LeadingDigits(text[at..], 0)
  {
    n, end := 0, at;
    while end < |text| && IsDigit(text[end])
      invariant at <= end <= |text|
      invariant var (m, k) := LeadingDigits(text[end..], n); LeadingDigits(text[at..], 0) == (m, end - at + k)
    {
      assert text[end..][1..] == text[end + 1..];
      n := 10 * n + DigitValue(text[end]);
      end := end + 1;
    }
  }

  method ReadSpaces(text: string, at: nat) returns (end: nat)
    requires at <= |text|
    ensures end == at + SpaceCount(text[at..]) <= |text|
  {
    end := at;
    while end < |text| && IsSpace(text[end])
      invariant at <= end <= |text| && SpaceCount(text[at..]) == end - at + SpaceCount(text[end..])
    {
      assert text[end..][1..] == text[end + 1..];
      end := end + 1;
    }
  }

  method ReadSigned(text: string, at: nat) returns (n: int, end: nat)
    requires at <= |text|
    ensures at <= end <= |text| && (n, end - at) == SignedNumber(text[at..])
  {
    var minus := at < |text| && text[at] == '-';
    var sign := if minus || (at < |text| && text[at] == '+') then 1 else 0;
    ghost var s := text[at..];
    assert sign == SignSize(s) && (|s| > 0 ==> minus == (s[0] == '-'));
    assert s[sign..] == text[at + sign..];
    n, end := ReadDigits(text, at + sign);
    ghost var (m, size) := LeadingDigits(s[sign..], 0);
    assert n == m && end == at + sign + size;
    if end == at + sign {
      n, end := 0, at;
    } else {
      n := Signed(minus, n);
    }
  }

  /** strtol. */
  method ReadLong(text: string, at: nat) returns (n: int, end: nat)
    requires at <= |text|
    ensures at <= end <= |text| && (n, end - at) == Strtol(text[at..])
  {
    var start := ReadSpaces(text, at);
    n, end := ReadSigned(text, start);
    assert text[at..][start - at..] == text[start..];
    if end == start {
      end := at;
    }
  }

  /** strncasecmp against each name in turn. */
  method FindName(names: string, text: string, at: nat) returns (found: bool, i: nat)
    requires at <= |text|
    ensures NameAt(names, text[at..], 0) == if found then Some(i) else None
  {
    var k := 0;
    while k < |names|
      invariant NameAt(names, text[at..], 0) == NameAt(names, text[at..], k)
      decreases |names| - k
    {
      if SameName(text[at..], names[k..]) {
        return true, k / 3;
      }
      k := k + 3;
    }
    return false, 0;
  }

  /** The first part of a round: star, number or name. */
  method TakeValue(kind: Kind, text: string, at: nat, n1: int, n2: int) returns (skip: bool, lo: int, hi: int, ptr: nat)
    requires at <= |text|
    ensures at <= ptr <= |text|
    ensures ReadValue(kind, text[at..], n1, n2) == if skip then Value(lo, hi, ptr - at) else NoValue
  {
    skip, lo, hi, ptr := true, n1, n2, at;
    if at == |text| {
      skip := false;
    } else if text[at] == '*' {
      lo, hi, ptr := 0, kind.ring - 1, at + 1;
    } else if IsDigit(text[at]) {
      var n;
      n, ptr := ReadDigits(text, at);
      if n1 < 0 {
        lo := n + kind.off;
      } else {
        hi := n + kind.off;
      }
      if ptr < |text| && text[ptr] == '/' {
        hi := kind.ring - 1;
      }
    } else {
      var i;
      skip, i := FindName(kind.names, text, at);
      if skip {
        NameIsText(kind.names, text[at..], 0);
        ptr := at + 3;
        if n1 < 0 {
          lo := i;
        } else {
          hi := i;
        }
      }
    }
  }

  /** What a round comes to in front of the marking: an error, a dash to go on behind, or a range. */
  datatype Ends = Nothing | Dash(lo: int, hi: int) | Ready(lo: int, hi: int)

  function FromEnds(kind: Kind, ends: Ends, s: string, marks: set<nat>): Outcome
    requires kind.Valid() && (ends.Ready? ==> ends.hi >= 0 || ends.lo < 0)
  {
    match ends
    case Nothing => Failed(marks)
    case Dash(lo, hi) => ParseFrom(kind, s, lo, hi, marks)
    case Ready(lo, hi) => if lo < 0 then OutsideArray else Finish(kind, s, lo, hi, marks)
  }

  method TakeEnds(kind: Kind, text: string, at: nat, n1: int, n2: int, ghost marks: set<nat>) returns (ends: Ends, ptr: nat)
    requires at <= |text| && kind.Valid()
    ensures at <= ptr <= |text| && (!ends.Nothing? ==> at < ptr) && (ends.Ready? ==> ends.hi >= 0 || ends.lo < 0)
    ensures ParseFrom(kind, text[at..], n1, n2, marks) == FromEnds(kind, ends, text[ptr..], marks)
  {
    ghost var s := text[at..];
    var skip, lo, hi, next := TakeValue(kind, text, at, n1, n2);
    ghost var size := next - at;
    assert next < |text| ==> s[size] == text[next] && s[size + 1..] == text[next + 1..];
    assert s[size..] == text[next..];
    if !skip {
      ends, ptr := Nothing, at;
    } else if next < |text| && text[next] == '-' && hi < 0 {
      ends, ptr := Dash(lo, hi), next + 1;
    } else {
      ends, ptr := Ready(lo, if hi < 0 then lo else hi), next;
    }
  }

  ghost predicate Did(ary: array<bool>, res: int, outcome: Outcome)
    reads ary
  {
    match outcome
    case Parsed(marks) => res == 0 && Marked(ary, marks)
    case Failed(marks) => res == -1 && Marked(ary, marks)
    case OutsideArray => false
  }

  /** parse_field, where it stays inside the array. */
  method ParseField(ary: array<bool>, kind: Kind, text: string, ghost marks: set<nat>) returns (res: int)
    requires kind.Valid() && ary.Length == kind.ring && Marked(ary, marks)
    requires !ParseFrom(kind, text, -1, -1, marks).OutsideArray?
    modifies ary
    ensures Did(ary, res, ParseFrom(kind, text, -1, -1, marks))
    ensures res == if ParseFrom(kind, text, -1, -1, marks).Parsed? then 0 else -1
    ensures Marked(ary, ParseFrom(kind, text, -1, -1, marks).marks)
  {
    ghost var outcome, now := ParseFrom(kind, text, -1, -1, marks), marks;
    var ptr, n1, n2 := 0, -1, -1;
    assert text[0..] == text;
    while true
      invariant ptr <= |text| && Marked(ary, now) && ParseFrom(kind, text[ptr..], n1, n2, now) == outcome
      decreases |text| - ptr
    {
      var ends;
      ends, ptr := TakeEnds(kind, text, ptr, n1, n2, now);
      match ends {
        case Nothing =>
          return -1;
        case Dash(lo, hi) =>
          n1, n2 := lo, hi;
        case Ready(lo, hi) =>
          n1, n2 := -1, -1;
          var verdict;
          verdict, ptr, now := MarkRange(ary, kind, text, ptr, lo, hi, now, outcome);
          if verdict.Done? {
            return verdict.res;
          }
      }
    }
  }

  /** What a range ends in: 0 or -1, or a comma to go on behind. */
  datatype Verdict = Done(res: int) | Comma

  ghost predicate Follows(ary: array<bool>, kind: Kind, verdict: Verdict, s: string, marks: set<nat>, outcome: Outcome)
    requires kind.Valid()
    reads ary
  {
    match verdict
    case Done(res) => Did(ary, res, outcome)
    case Comma => Marked(ary, marks) && outcome == ParseFrom(kind, s, -1, -1, marks)
  }

  /** The second part of a round: the marks, and what follows them. */
  method MarkRange(ary: array<bool>, kind: Kind, text: string, at: nat, lo: nat, hi: nat, ghost marks: set<nat>, ghost outcome: Outcome)
    returns (verdict: Verdict, ptr: nat, ghost after: set<nat>)
    requires at <= |text| && kind.Valid() && ary.Length == kind.ring && Marked(ary, marks)
    requires outcome == Finish(kind, text[at..], lo, hi, marks)
    modifies ary
    ensures at <= ptr <= |text| && (verdict.Comma? ==> at < ptr)
    ensures Follows(ary, kind, verdict, text[ptr..], after, outcome)
  {
    var ok, end;
    ok, end, after := MarkItem(ary, kind, text, at, lo, hi, marks);
    verdict, ptr := TakeComma(ary, kind, text, end, ok, after, outcome);
  }

  method TakeComma(ary: array<bool>, kind: Kind, text: string, at: nat, ok: bool, ghost marks: set<nat>, ghost outcome: Outcome)
    returns (verdict: Verdict, ptr: nat)
    requires at <= |text| && kind.Valid() && Marked(ary, marks)
    requires outcome == GoOn(kind, text[at..], ok, marks)
    ensures at <= ptr <= |text| && (verdict.Comma? ==> at < ptr)
    ensures Follows(ary, kind, verdict, text[ptr..], marks, outcome)
  {
    if !ok {
      return Done(-1), at;
    }
    GoOnIs(kind, text, at, marks);
    if at == |text| {
      return Done(0), at;
    } else if text[at] != ',' {
      return Done(-1), at;
    }
    return Comma, at + 1;
  }

  method TakeStep(text: string, at: nat) returns (step: int, ptr: nat)
    requires at <= |text|
    ensures at <= ptr <= |text| && (step, ptr - at) == ReadStep(text[at..])
  {
    step, ptr := 1, at;
    if at < |text| && text[at] == '/' {
      assert text[at..][1..] == text[at + 1..];
      step, ptr := ReadLong(text, at + 1);
    }
  }

  lemma GoOnIs(kind: Kind, text: string, ptr: nat, marks: set<nat>)
    requires kind.Valid() && ptr <= |text|
    ensures GoOn(kind, text[ptr..], true, marks) ==
      if ptr == |text| then Parsed(marks)
      else if text[ptr] == ',' then ParseFrom(kind, text[ptr + 1..], -1, -1, marks)
      else Failed(marks)
  {
    if ptr < |text| {
      assert text[ptr..][1..] == text[ptr + 1..];
    }
  }

  lemma FinishOf(kind: Kind, s: string, size: nat, lo: nat, hi: nat, step: int, marks: set<nat>)
    requires kind.Valid() && ReadStep(s) == (step, size)
    ensures size <= |s|
    ensures Finish(kind, s, lo, hi, marks) ==
            GoOn(kind, s[size..], hi < kind.ring, marks + RangeMarks(kind.ring, lo, hi, step))
  {
  }

  lemma FinishIs(kind: Kind, text: string, at: nat, ptr: nat, lo: nat, hi: nat, step: int, marks: set<nat>)
    requires kind.Valid() && at <= ptr <= |text| && ReadStep(text[at..]) == (step, ptr - at)
    ensures Finish(kind, text[at..], lo, hi, marks) ==
            GoOn(kind, text[ptr..], hi < kind.ring, marks + RangeMarks(kind.ring, lo, hi, step))
  {
    assert text[at..][ptr - at..] == text[ptr..];
    FinishOf(kind, text[at..], ptr - at, lo, hi, step, marks);
  }

  /** Step and marks. */
  method MarkItem(ary: array<bool>, kind: Kind, text: string, at: nat, lo: nat, hi: nat, ghost marks: set<nat>)
    returns (ok: bool, ptr: nat, ghost after: set<nat>)
    requires at <= |text| && kind.Valid() && ary.Length == kind.ring && Marked(ary, marks)
    modifies ary
    ensures at <= ptr <= |text| && Marked(ary, after) && ok == (hi < kind.ring)
    ensures Finish(kind, text[at..], lo, hi, marks) == GoOn(kind, text[ptr..], ok, after)
  {
    var step;
    step, ptr := TakeStep(text, at);
    FinishIs(kind, text, at, ptr, lo, hi, step, marks);
    after := marks + RangeMarks(kind.ring, lo, hi, step);
    ok := MarkRing(ary, lo, hi, step, marks);
  }
}
