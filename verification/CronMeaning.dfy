/** What well-formed cron fields mean, and that parse_field gives them that meaning. */
module CronMeaning {
  import opened Wrappers
  import opened DecimalText
  import opened CronField
  import opened CronParse

  // ---------------------------------------------------------------- the language of fields

  /** A number or a name, as written. */
  datatype End = Num(digits: string) | Named(text: string)

  datatype Item =
    | Star(step: Option<string>)
    | Single(lo: End, step: Option<string>)
    | Range(lo: End, hi: End, step: Option<string>)

  predicate AllDigits(ds: string) {
    ds != "" && forall i :: 0 <= i < |ds| ==> IsDigit(ds[i])
  }

  predicate IsLetter(c: char) {
    'a' <= c <= 'z' || 'A' <= c <= 'Z'
  }

  predicate IsEnd(kind: Kind, e: End) {
    match e
    case Num(ds) => AllDigits(ds)
    case Named(text) => |text| == 3 && IsLetter(text[0]) && NameAt(kind.names, text, 0).Some?
  }

  /** The place on the ring, if it is on it. */
  function EndValue(kind: Kind, e: End): int
    requires IsEnd(kind, e)
  {
    match e
    case Num(ds) => LeadingDigits(ds, 0).0 + kind.off
    case Named(text) => NameAt(kind.names, text, 0).value
  }

  predicate IsStep(step: Option<string>) {
    step.Some? ==> AllDigits(step.value)
  }

  predicate IsItem(kind: Kind, item: Item) {
    && IsStep(item.step)
    && (item.Star? || IsEnd(kind, item.lo))
    && (item.Range? ==> IsEnd(kind, item.hi))
  }

  function EndText(e: End): string {
    match e
    case Num(ds) => ds
    case Named(text) => text
  }

  function StepText(step: Option<string>): string {
    match step
    case None => ""
    case Some(ds) => "/" + ds
  }

  function ItemText(item: Item): string {
    match item
    case Star(step) => "*" + StepText(step)
    case Single(lo, step) => EndText(lo) + StepText(step)
    case Range(lo, hi, step) => EndText(lo) + ("-" + (EndText(hi) + StepText(step)))
  }

  function FieldText(items: seq<Item>): string
    requires items != []
  {
    if |items| == 1 then ItemText(items[0]) else ItemText(items[0]) + ("," + FieldText(items[1..]))
  }

  // ---------------------------------------------------------------- the ranges they mark

  /** As coded: a number below the ring, which is a 0 among the months, counts as not given. */
  function Low(kind: Kind, item: Item): int
    requires IsItem(kind, item)
  {
    match item
    case Star(_) => 0
    case Single(lo, _) => EndValue(kind, lo)
    case Range(lo, hi, _) => if EndValue(kind, lo) >= 0 then EndValue(kind, lo) else EndValue(kind, hi)
  }

  /** As coded: a number in front of a step gives way to the end of the ring, even an upper end. */
  function High(kind: Kind, item: Item): (n: int)
    requires kind.Valid() && IsItem(kind, item)
    ensures Low(kind, item) >= 0 ==> n >= 0
  {
    match item
    case Star(_) => kind.ring - 1
    case Single(lo, step) => if lo.Num? && step.Some? then kind.ring - 1 else EndValue(kind, lo)
    case Range(lo, hi, step) =>
      if hi.Num? && step.Some? then kind.ring - 1
      else if EndValue(kind, lo) >= 0 && EndValue(kind, hi) >= 0 then EndValue(kind, hi)
      else Low(kind, item)
  }

  function StepOf(item: Item): int {
    if item.step.Some? then LeadingDigits(item.step.value, 0).0 else 1
  }

  function ItemMarks(kind: Kind, item: Item): set<nat>
    requires kind.Valid() && IsItem(kind, item) && Low(kind, item) >= 0
  {
    RangeMarks(kind.ring, Low(kind, item), High(kind, item), StepOf(item))
  }

  predicate AreItems(kind: Kind, items: seq<Item>) {
    items != [] && forall i :: 0 <= i < |items| ==> IsItem(kind, items[i])
  }

  /** One item, in front of the text that follows it. */
  function ItemOutcome(kind: Kind, item: Item, rest: string, marks: set<nat>): Outcome
    requires kind.Valid() && IsItem(kind, item)
  {
    if Low(kind, item) < 0 then OutsideArray
    else GoOn(kind, rest, High(kind, item) < kind.ring, marks + ItemMarks(kind, item))
  }

  /** The marks of the items up to the first that has no end, or its upper end off the ring. */
  function Meaning(kind: Kind, items: seq<Item>, marks: set<nat>): Outcome
    requires kind.Valid() && AreItems(kind, items)
  {
    if Low(kind, items[0]) < 0 then OutsideArray
    else
      var all := marks + ItemMarks(kind, items[0]);
      if High(kind, items[0]) >= kind.ring then Failed(all)
      else if |items| == 1 then Parsed(all)
      else Meaning(kind, items[1..], all)
  }

  // ---------------------------------------------------------------- reading the pieces

  predicate NoDigitFirst(s: string) {
    s == "" || !IsDigit(s[0])
  }

  lemma {:induction false} DigitsRead(ds: string, rest: string, before: nat)
    requires (forall i :: 0 <= i < |ds| ==> IsDigit(ds[i])) && NoDigitFirst(rest)
    ensures LeadingDigits(ds + rest, before) == (LeadingDigits(ds, before).0, |ds|)
  {
    if ds == "" {
      assert ds + rest == rest;
    } else {
      assert (ds + rest)[1..] == ds[1..] + rest;
      DigitsRead(ds[1..], rest, 10 * before + DigitValue(ds[0]));
    }
  }

  lemma {:induction false} NameReads(names: string, text: string, rest: string, i: nat)
    requires |text| == 3
    ensures NameAt(names, text + rest, i) == NameAt(names, text, i)
    decreases |names| - i
  {
    if i < |names| {
      assert forall k :: 0 <= k < 3 ==> (text + rest)[k] == text[k];
      assert SameName(text + rest, names[i..]) == SameName(text, names[i..]);
      NameReads(names, text, rest, i + 3);
    }
  }

  /** What a round makes of an end: the first free one is set, and a number in front of a slash sets the upper one. */
  lemma EndReads(kind: Kind, e: End, rest: string, n1: int, n2: int)
    requires kind.Valid() && IsEnd(kind, e) && NoDigitFirst(rest)
    ensures
      var v := EndValue(kind, e);
      var slash := e.Num? && rest != "" && rest[0] == '/';
      ReadValue(kind, EndText(e) + rest, n1, n2) ==
        Value(if n1 < 0 then v else n1, if slash then kind.ring - 1 else if n1 < 0 then n2 else v, |EndText(e)|)
  {
    match e
    case Num(ds) =>
      DigitsRead(ds, rest, 0);
      assert (ds + rest)[0] == ds[0];
    case Named(text) =>
      NameReads(kind.names, text, rest, 0);
      assert (text + rest)[0] == text[0];
  }

  lemma SignedReads(ds: string, rest: string)
    requires AllDigits(ds) && NoDigitFirst(rest)
    ensures SignedNumber(ds + rest) == (LeadingDigits(ds, 0).0, |ds|)
  {
    var s := ds + rest;
    assert IsDigit(ds[0]) && s[0] == ds[0];
    DigitsRead(ds, rest, 0);
    assert s[0..] == s;
  }

  lemma StrtolReads(ds: string, rest: string)
    requires AllDigits(ds) && NoDigitFirst(rest)
    ensures Strtol(ds + rest) == (LeadingDigits(ds, 0).0, |ds|)
  {
    var s := ds + rest;
    SignedReads(ds, rest);
    assert IsDigit(ds[0]) && s[0] == ds[0] && !IsSpace(s[0]);
    assert s[0..] == s;
  }

  lemma StepReads(step: Option<string>, rest: string)
    requires IsStep(step) && (rest == "" || rest[0] == ',')
    ensures ReadStep(StepText(step) + rest) ==
            (if step.Some? then LeadingDigits(step.value, 0).0 else 1, |StepText(step)|)
  {
    var s := StepText(step) + rest;
    if step.Some? {
      assert s[1..] == step.value + rest;
      StrtolReads(step.value, rest);
    } else {
      assert s == rest;
    }
  }

  /** From the point where both ends are known. */
  lemma TailReads(kind: Kind, step: Option<string>, rest: string, lo: nat, hi: nat, marks: set<nat>)
    requires kind.Valid() && IsStep(step) && (rest == "" || rest[0] == ',')
    ensures
      var k := if step.Some? then LeadingDigits(step.value, 0).0 else 1;
      Finish(kind, StepText(step) + rest, lo, hi, marks) ==
        GoOn(kind, rest, hi < kind.ring, marks + RangeMarks(kind.ring, lo, hi, k))
  {
    StepReads(step, rest);
    assert (StepText(step) + rest)[|StepText(step)|..] == rest;
  }

  lemma AfterEnd(step: Option<string>, rest: string)
    requires IsStep(step) && (rest == "" || rest[0] == ',')
    ensures
      var s := StepText(step) + rest;
      && NoDigitFirst(s) && (s == "" || s[0] != '-') && ((s != "" && s[0] == '/') <==> step.Some?)
  {
  }

  lemma StarTaken(kind: Kind, s: string, tail: string, marks: set<nat>)
    requires kind.Valid() && s == "*" + tail
    ensures ParseFrom(kind, s, -1, -1, marks) == Finish(kind, tail, 0, kind.ring - 1, marks)
  {
    assert s[1..] == tail;
    assert ReadValue(kind, s, -1, -1) == Value(0, kind.ring - 1, 1);
  }

  lemma StarReads(kind: Kind, item: Item, rest: string, marks: set<nat>)
    requires kind.Valid() && IsItem(kind, item) && item.Star? && (rest == "" || rest[0] == ',')
    ensures ParseFrom(kind, ItemText(item) + rest, -1, -1, marks) ==
            ItemOutcome(kind, item, rest, marks)
  {
    var tail := StepText(item.step) + rest;
    assert ItemText(item) + rest == "*" + tail;
    StarTaken(kind, ItemText(item) + rest, tail, marks);
    EndsFinish(kind, item, tail, rest, marks);
  }

  /** Where the last end of an item leads: the ends that ReadValue and the branches behind it settle on. */
  function EndsOf(kind: Kind, e: End, slash: bool, n1: int): (int, int)
    requires IsEnd(kind, e)
  {
    var v := EndValue(kind, e);
    var lo := if n1 < 0 then v else n1;
    (lo, if e.Num? && slash then kind.ring - 1 else if n1 < 0 || v < 0 then lo else v)
  }

  /** The last end of an item, in front of a text that goes on with neither digit nor dash. */
  lemma LastEndReads(kind: Kind, e: End, s: string, tail: string, n1: int, marks: set<nat>)
    requires kind.Valid() && IsEnd(kind, e) && s == EndText(e) + tail
    requires NoDigitFirst(tail) && (tail == "" || tail[0] != '-')
    ensures
      var (lo, hi) := EndsOf(kind, e, tail != "" && tail[0] == '/', n1);
      && (lo >= 0 ==> hi >= 0)
      && ParseFrom(kind, s, n1, -1, marks) == if lo < 0 then OutsideArray else Finish(kind, tail, lo, hi, marks)
  {
    assert s[|EndText(e)|..] == tail;
    EndReads(kind, e, tail, n1, -1);
  }

  /** From the point where the last end is known. */
  lemma EndsFinish(kind: Kind, item: Item, tail: string, rest: string, marks: set<nat>)
    requires kind.Valid() && IsItem(kind, item) && Low(kind, item) >= 0
    requires tail == StepText(item.step) + rest && (rest == "" || rest[0] == ',')
    ensures Finish(kind, tail, Low(kind, item), High(kind, item), marks) == ItemOutcome(kind, item, rest, marks)
  {
    TailReads(kind, item.step, rest, Low(kind, item), High(kind, item), marks);
  }

  /** The last end of an item with its number or name from n1 on, and the step behind it. */
  lemma LastReads(kind: Kind, item: Item, e: End, n1: int, s: string, tail: string, rest: string, marks: set<nat>)
    requires kind.Valid() && IsItem(kind, item) && IsEnd(kind, e) && s == EndText(e) + tail
    requires tail == StepText(item.step) + rest && (rest == "" || rest[0] == ',')
    requires Low(kind, item) == EndsOf(kind, e, item.step.Some?, n1).0
    requires Low(kind, item) >= 0 ==> High(kind, item) == EndsOf(kind, e, item.step.Some?, n1).1
    ensures ParseFrom(kind, s, n1, -1, marks) == ItemOutcome(kind, item, rest, marks)
  {
    AfterEnd(item.step, rest);
    LastEndReads(kind, e, s, tail, n1, marks);
    if Low(kind, item) >= 0 {
      EndsFinish(kind, item, tail, rest, marks);
    }
  }

  lemma SingleReads(kind: Kind, item: Item, rest: string, marks: set<nat>)
    requires kind.Valid() && IsItem(kind, item) && item.Single? && (rest == "" || rest[0] == ',')
    ensures ParseFrom(kind, ItemText(item) + rest, -1, -1, marks) == ItemOutcome(kind, item, rest, marks)
  {
    var tail := StepText(item.step) + rest;
    assert ItemText(item) + rest == EndText(item.lo) + tail;
    LastReads(kind, item, item.lo, -1, ItemText(item) + rest, tail, rest, marks);
  }

  lemma DashReads(kind: Kind, e: End, s: string, t: string, marks: set<nat>)
    requires kind.Valid() && IsEnd(kind, e) && s == EndText(e) + ("-" + t)
    ensures ParseFrom(kind, s, -1, -1, marks) == ParseFrom(kind, t, EndValue(kind, e), -1, marks)
  {
    var lo := EndText(e);
    assert s[|lo|] == '-' && s[|lo| + 1..] == t;
    EndReads(kind, e, "-" + t, -1, -1);
  }

  lemma RangeReads(kind: Kind, item: Item, rest: string, marks: set<nat>)
    requires kind.Valid() && IsItem(kind, item) && item.Range? && (rest == "" || rest[0] == ',')
    ensures ParseFrom(kind, ItemText(item) + rest, -1, -1, marks) == ItemOutcome(kind, item, rest, marks)
  {
    var tail := StepText(item.step) + rest;
    var t := EndText(item.hi) + tail;
    assert ItemText(item) + rest == EndText(item.lo) + ("-" + t);
    DashReads(kind, item.lo, ItemText(item) + rest, t, marks);
    LastReads(kind, item, item.hi, EndValue(kind, item.lo), t, tail, rest, marks);
  }

  lemma ItemReads(kind: Kind, item: Item, rest: string, marks: set<nat>)
    requires kind.Valid() && IsItem(kind, item) && (rest == "" || rest[0] == ',')
    ensures ParseFrom(kind, ItemText(item) + rest, -1, -1, marks) ==
            ItemOutcome(kind, item, rest, marks)
  {
    match item
    case Star(_) => StarReads(kind, item, rest, marks);
    case Single(_, _) => SingleReads(kind, item, rest, marks);
    case Range(_, _, _) => RangeReads(kind, item, rest, marks);
  }

  // ---------------------------------------------------------------- the theorems

  lemma {:induction false} ParsesItems(kind: Kind, items: seq<Item>, marks: set<nat>)
    requires kind.Valid() && AreItems(kind, items)
    ensures ParseFrom(kind, FieldText(items), -1, -1, marks) == Meaning(kind, items, marks)
    decreases |items|
  {
    var text := ItemText(items[0]);
    if |items| == 1 {
      ItemReads(kind, items[0], "", marks);
      assert text + "" == text;
    } else {
      var rest := "," + FieldText(items[1..]);
      ItemReads(kind, items[0], rest, marks);
      assert rest[1..] == FieldText(items[1..]);
      if Low(kind, items[0]) >= 0 {
        ParsesItems(kind, items[1..], marks + ItemMarks(kind, items[0]));
      }
    }
  }

  predicate OnRing(kind: Kind, item: Item)
    requires kind.Valid() && IsItem(kind, item)
  {
    Low(kind, item) >= 0 && High(kind, item) < kind.ring
  }

  predicate AllOnRing(kind: Kind, items: seq<Item>)
    requires kind.Valid() && forall i :: 0 <= i < |items| ==> IsItem(kind, items[i])
  {
    forall i :: 0 <= i < |items| ==> OnRing(kind, items[i])
  }

  function UnionOf(kind: Kind, items: seq<Item>): set<nat>
    requires kind.Valid() && (forall i :: 0 <= i < |items| ==> IsItem(kind, items[i])) && AllOnRing(kind, items)
  {
    if items == [] then {} else ItemMarks(kind, items[0]) + UnionOf(kind, items[1..])
  }

  /** Item i has no end on or above the ring, and everything before it is on the ring. */
  predicate FallsBelow(kind: Kind, items: seq<Item>, i: nat)
    requires kind.Valid() && AreItems(kind, items)
  {
    i < |items| && Low(kind, items[i]) < 0 && AllOnRing(kind, items[..i])
  }

  lemma {:induction false} MeaningOf(kind: Kind, items: seq<Item>, marks: set<nat>)
    requires kind.Valid() && AreItems(kind, items)
    ensures
      var m := Meaning(kind, items, marks);
      && (m.Parsed? <==> AllOnRing(kind, items))
      && (m.OutsideArray? <==> exists i: nat :: FallsBelow(kind, items, i))
      && (m.Parsed? ==> m.marks == marks + UnionOf(kind, items))
    decreases |items|
  {
    if !OnRing(kind, items[0]) {
      NotOnRing(kind, items);
    } else {
      var all, rest := marks + ItemMarks(kind, items[0]), items[1..];
      if rest == [] {
        assert UnionOf(kind, rest) == {};
        assert !exists i: nat :: FallsBelow(kind, items, i);
      } else {
        MeaningOf(kind, rest, all);
        OneItemOn(kind, items);
        if AllOnRing(kind, items) {
          assert marks + UnionOf(kind, items) == all + UnionOf(kind, rest);
        }
      }
    }
  }

  lemma NotOnRing(kind: Kind, items: seq<Item>)
    requires kind.Valid() && AreItems(kind, items) && !OnRing(kind, items[0])
    ensures !AllOnRing(kind, items)
    ensures (exists i: nat :: FallsBelow(kind, items, i)) <==> Low(kind, items[0]) < 0
  {
    if Low(kind, items[0]) < 0 {
      assert FallsBelow(kind, items, 0);
    }
    forall i | 0 < i < |items| ensures !AllOnRing(kind, items[..i]) {
      assert items[..i][0] == items[0];
    }
  }

  /** Behind an item on the ring the question is the same for those that follow. */
  lemma OneItemOn(kind: Kind, items: seq<Item>)
    requires kind.Valid() && AreItems(kind, items) && |items| > 1 && OnRing(kind, items[0])
    ensures AreItems(kind, items[1..]) && (AllOnRing(kind, items) <==> AllOnRing(kind, items[1..]))
    ensures (exists i: nat :: FallsBelow(kind, items, i)) <==> (exists i: nat :: FallsBelow(kind, items[1..], i))
  {
    var rest := items[1..];
    assert forall k :: 1 <= k < |items| ==> items[k] == rest[k - 1];
    if i: nat :| FallsBelow(kind, items, i) {
      var front := rest[..i - 1];
      forall k | 0 <= k < |front| ensures OnRing(kind, front[k]) {
        assert front[k] == items[..i][k + 1];
      }
      assert FallsBelow(kind, rest, i - 1);
    }
    if i: nat :| FallsBelow(kind, rest, i) {
      var front := items[..i + 1];
      forall k | 0 <= k < |front| ensures OnRing(kind, front[k]) {
        assert k > 0 ==> front[k] == rest[..i][k - 1];
      }
      assert FallsBelow(kind, items, i + 1);
    }
  }

  /**
   * A well-formed field gives 0 exactly if every item has an end and its upper end is on the ring, and then
   * it has marked exactly the union of the ranges. It writes below the array exactly if an item without an
   * end on or above the ring comes before any with its upper end off the ring. Otherwise it gives -1.
   */
  lemma FieldMeaning(kind: Kind, items: seq<Item>, marks: set<nat>)
    requires kind.Valid() && AreItems(kind, items)
    ensures
      var outcome := ParseFrom(kind, FieldText(items), -1, -1, marks);
      && (outcome.Parsed? <==> AllOnRing(kind, items))
      && (outcome.OutsideArray? <==> exists i: nat :: FallsBelow(kind, items, i))
      && (outcome.Parsed? ==> outcome.marks == marks + UnionOf(kind, items))
  {
    ParsesItems(kind, items, marks);
    MeaningOf(kind, items, marks);
  }

  /** An item has no end on or above the ring exactly if all its ends are numbers that the offset takes below it. */
  lemma BelowMeansNumbers(kind: Kind, item: Item)
    requires kind.Valid() && IsItem(kind, item)
    ensures Low(kind, item) < 0 <==>
      match item
      case Star(_) => false
      case Single(lo, _) => lo.Num? && LeadingDigits(lo.digits, 0).0 < -kind.off
      case Range(lo, hi, _) =>
        lo.Num? && hi.Num? && LeadingDigits(lo.digits, 0).0 < -kind.off && LeadingDigits(hi.digits, 0).0 < -kind.off
  {
  }

  /**
   * A stepped range with a number as its upper end marks what is written, and not more or less, exactly
   * if there is no step or no further step fits in between the upper end and the end of the ring; the
   * distances are those from the lower end around the ring.
   */
  lemma SteppedRangeKeepsItsEnd(kind: Kind, lo: End, hi: End, step: string)
    requires kind.Valid() && IsItem(kind, Range(lo, hi, Some(step))) && hi.Num?
    requires EndValue(kind, lo) >= 0 && 0 <= EndValue(kind, hi) < kind.ring
    ensures
      var item := Range(lo, hi, Some(step));
      var low, n: nat := EndValue(kind, lo), StepOf(item);
      var written := RangeMarks(kind.ring, low, EndValue(kind, hi), n);
      var d, e := (EndValue(kind, hi) - low) % kind.ring, (kind.ring - 1 - low) % kind.ring;
      ItemMarks(kind, item) == written <==> n == 0 || d / n == e / n
  {
    var item, low := Range(lo, hi, Some(step)), EndValue(kind, lo);
    WrapIsRemainder(kind.ring, EndValue(kind, hi) - low);
    WrapIsRemainder(kind.ring, kind.ring - 1 - low);
    SamePlaces(kind.ring, low, (EndValue(kind, hi) - low) % kind.ring, (kind.ring - 1 - low) % kind.ring, StepOf(item));
  }

  /** "10-20/5" among the minutes: the step makes the range run on to 59. */
  lemma StepOverridesUpperEnd()
    ensures
      var minutes := Kind(60, 0, "");
      var item := Range(Num("10"), Num("20"), Some("5"));
      && minutes.Valid() && IsItem(minutes, item) && ItemText(item) == "10-20/5"
      && EndValue(minutes, item.hi) == 20 && 55 in ItemMarks(minutes, item)
  {
    var minutes := Kind(60, 0, "");
    var item := Range(Num("10"), Num("20"), Some("5"));
    assert LeadingDigits("10", 0).0 == LeadingDigits("0", 1).0 == LeadingDigits("", 10).0 == 10 by {
      assert "10"[1..] == "0" && "0"[1..] == "";
    }
    assert LeadingDigits("20", 0).0 == LeadingDigits("0", 2).0 == LeadingDigits("", 20).0 == 20 by {
      assert "20"[1..] == "0" && "0"[1..] == "";
    }
    assert LeadingDigits("5", 0).0 == LeadingDigits("", 5).0 == 5 by {
      assert "5"[1..] == "";
    }
    assert High(minutes, item) == 59 && Low(minutes, item) == 10 && StepOf(item) == 5;
    RangeMarksExactly(60, 10, 59, 5, 55);
  }

  /** A field of one item. */
  lemma OneItem(kind: Kind, item: Item)
    requires kind.Valid() && IsItem(kind, item)
    ensures ParseFrom(kind, ItemText(item), -1, -1, {}) ==
      if Low(kind, item) < 0 then OutsideArray
      else if High(kind, item) < kind.ring then Parsed(ItemMarks(kind, item)) else Failed(ItemMarks(kind, item))
  {
    ParsesItems(kind, [item], {});
    if Low(kind, item) >= 0 {
      assert {} + ItemMarks(kind, item) == ItemMarks(kind, item);
    }
  }

  /** Among the months "0" falls below the array; "0-5" is taken for "5" and "3-0" for "3". */
  lemma MonthZero(kind: Kind)
    requires kind.Valid() && kind.ring == 12 && kind.off == -1
    ensures ParseFrom(kind, "0", -1, -1, {}) == OutsideArray
    ensures ParseFrom(kind, "0-5", -1, -1, {}) == Parsed({4})
    ensures ParseFrom(kind, "3-0", -1, -1, {}) == Parsed({2})
  {
    OneDigit("0", 0);
    OneDigit("3", 3);
    OneDigit("5", 5);
    OneItem(kind, Single(Num("0"), None));
    assert ItemText(Single(Num("0"), None)) == "0";
    OneEndMarks(kind, Range(Num("0"), Num("5"), None), 4);
    assert ItemText(Range(Num("0"), Num("5"), None)) == "0-5";
    OneEndMarks(kind, Range(Num("3"), Num("0"), None), 2);
    assert ItemText(Range(Num("3"), Num("0"), None)) == "3-0";
  }

  lemma OneEndMarks(kind: Kind, item: Item, j: nat)
    requires kind.Valid() && IsItem(kind, item) && item.step == None
    requires Low(kind, item) == High(kind, item) == j < kind.ring
    ensures ParseFrom(kind, ItemText(item), -1, -1, {}) == Parsed({j})
  {
    OneItem(kind, item);
    OnePlace(kind.ring, j);
  }

  lemma OneDigit(s: string, n: nat)
    requires |s| == 1 && IsDigit(s[0]) && DigitValue(s[0]) == n
    ensures LeadingDigits(s, 0).0 == n
  {
    assert s[1..] == "";
  }

  lemma OnePlace(ring: nat, j: nat)
    requires j < ring
    ensures RangeMarks(ring, j, j, 1) == {j}
  {
    PlacesStep(ring, j, 0, 1);
  }
}
