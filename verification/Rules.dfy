/** Rule nodes, the functions they run, and the executor that follows their next ids (src/rules.c:69-136, 139-320, 445-476). */
module Rules {
  import opened Wrappers
  import opened OrderedMap
  import opened LinkedList
  import opened DecimalText
  import CronField

  type Id = nat

  /** Topic names and data. */
  type Text = string

  /** Data in a buffer of just its length, and the memory behind it; no data is "". */
  datatype Data = Data(text: Text, behind: Text)

  datatype Type =
    | ConditionTopicValue | ConditionTopicTopic | ConditionTopicVariable | ConditionVariableValue
    | ConditionVariableVariable | ActionValue | ActionTopic | ActionVariable
    | VariableSet | VariableIncrement | VariableDecrement

  /** The functions a type can be bound to. */
  datatype Func = CompareValue | CompareTopic | SendValue | SendTopic | Increment | Decrement

  datatype Rule =
    | Condition(nextTrue: Id, nextFalse: Id, name: Text, operator: string, str: Text)
    | Action(next: Id, name: Text, str: Text, retain: nat)

  datatype Body = Body(typ: Type, rule: Rule)

  type Nodes = List<Id, Body>
  type Functions = List<Type, Func>

  // ---------------------------------------------------------------- comparisons

  /** strncmp gives 0: equal up to n characters or a common NUL. */
  predicate StrncmpEqual(s: Text, t: Text, n: nat)
    requires n <= |s| && n <= |t|
  {
    n > 0 ==> s[0] == t[0] && (s[0] == '\0' || StrncmpEqual(s[1..], t[1..], n - 1))
  }

  /** compare_string_values; any other operator ends the chain. */
  function CompareStrings(s: Text, t: Text, operator: string, nextTrue: Id, nextFalse: Id): Id {
    var shorter := if |s| > |t| then |t| else |s|;
    if operator == "==" then (if |s| == |t| && StrncmpEqual(s, t, |s|) then nextTrue else nextFalse)
    else if operator == "!=" then
      (if |s| != |t| || !StrncmpEqual(s, t, shorter) then nextTrue else nextFalse)
    else 0
  }

  /** compare_double_values. */
  function CompareNumbers(x: real, y: real, operator: string, nextTrue: Id, nextFalse: Id): Id {
    var holds :=
      if operator == "==" then x == y else if operator == "!=" then x != y
      else if operator == ">=" then x >= y else if operator == "<=" then x <= y
      else if operator == ">" then x > y else x < y;
    if operator in ["==", "!=", ">=", "<=", ">", "<"] then (if holds then nextTrue else nextFalse) else 0
  }

  /** What strtod leaves: the number, how many characters it took, and whether errno is still 0. */
  datatype Reading = Reading(x: real, size: nat, inRange: bool)

  /** string_to_double: strtod does not know where the data ends, and must stop just there. */
  function ParseDouble(strtod: Text -> Reading, data: Data): Option<real> {
    var r := strtod(data.text + data.behind);
    if r.inRange && r.size == |data.text| then Some(r.x) else None
  }

  /** As numbers if both are numbers, else as strings; strtod is a parameter. */
  function Compare(strtod: Text -> Reading, s: Data, t: Data, operator: string, nextTrue: Id, nextFalse: Id): Id {
    match (ParseDouble(strtod, s), ParseDouble(strtod, t))
    case (Some(x), Some(y)) => CompareNumbers(x, y, operator, nextTrue, nextFalse)
    case _ => CompareStrings(s.text, t.text, operator, nextTrue, nextFalse)
  }

  lemma {:induction false} StrncmpIsEquality(s: Text, t: Text)
    requires |s| == |t| && '\0' !in s
    ensures StrncmpEqual(s, t, |s|) <==> s == t
  {
    if s != "" {
      StrncmpIsEquality(s[1..], t[1..]);
      assert s == [s[0]] + s[1..] && t == [t[0]] + t[1..];
    }
  }

  /** On texts without NUL the string operators mean equality and inequality. */
  lemma StringOperators(s: Text, t: Text, nextTrue: Id, nextFalse: Id)
    requires '\0' !in s
    ensures CompareStrings(s, t, "==", nextTrue, nextFalse) == if s == t then nextTrue else nextFalse
    ensures CompareStrings(s, t, "!=", nextTrue, nextFalse) == if s != t then nextTrue else nextFalse
  {
    if |s| == |t| {
      StrncmpIsEquality(s, t);
    }
  }

  // ---------------------------------------------------------------- what a node does

  /** One packet for the broker: names with data, and the retain flag. */
  datatype Packet = Packet(items: seq<(Text, Text)>, retain: nat)

  /** How many reads the broker has answered, and what has been sent to it. */
  datatype World = World(asked: nat, sent: seq<Packet>) {
    function Asked(n: nat): World {
      World(asked + n, sent)
    }

    function Send(p: Packet): World {
      World(asked, sent + [p])
    }
  }

  /**
   * The broker's answers to all reads ever made, the memory behind a rule's own text at the time of each,
   * and the library's reading of numbers.
   */
  datatype Environment = Environment(answer: nat -> Data, behind: nat -> Text, strtod: Text -> Reading)

  const LONG_MAX := 0x7FFF_FFFF

  /** string_to_long: strtol, too, reads on behind the data, and must stop just at its end, within the range of a long. */
  function ParseLong(data: Data): Option<int> {
    var (n, size) := CronField.Strtol(data.text + data.behind);
    if size == |data.text| && -LONG_MAX - 1 <= n <= LONG_MAX then Some(n) else None
  }

  /** The number a text stands for, with nothing behind it. */
  function LongOf(s: Text): Option<int> {
    ParseLong(Data(s, ""))
  }

  predicate StartsWithDigit(s: Text) {
    s != "" && IsDigit(s[0])
  }

  /** Only a digit behind the data matters: then the number is not recognized. */
  lemma LongReadsOn(data: Data)
    requires data.text != ""
    ensures ParseLong(data) == if StartsWithDigit(data.behind) then None else LongOf(data.text)
  {
    var s, b := data.text, data.behind;
    assert s + "" == s;
    StrtolReadsOn(s, b);
  }

  /** strtol takes the same of a text whatever stands behind it, unless it takes all of it and a digit stands there. */
  lemma StrtolReadsOn(s: Text, b: Text)
    requires s != ""
    ensures CronField.Strtol(s + b).1 == |s| <==> CronField.Strtol(s).1 == |s| && !StartsWithDigit(b)
    ensures CronField.Strtol(s + b).1 == |s| ==> CronField.Strtol(s + b) == CronField.Strtol(s)
  {
    var at := CronField.SpaceCount(s);
    SpacesReadOn(s, b);
    if at < |s| {
      var t := s[at..];
      assert (s + b)[at..] == t + b;
      SignedReadsOn(t, b);
    } else {
      assert s[at..] == "" && CronField.SignedNumber("") == (0, 0);
    }
  }

  lemma {:induction false} SpacesReadOn(s: Text, b: Text)
    ensures
      var n := CronField.SpaceCount(s);
      CronField.SpaceCount(s + b) == if n < |s| then n else n + CronField.SpaceCount(b)
  {
    if s == "" {
      assert s + b == b;
    } else {
      assert (s + b)[1..] == s[1..] + b;
      SpacesReadOn(s[1..], b);
    }
  }

  /** Once a text has begun, what stands behind it counts only if all of it belongs to the number. */
  lemma SignedReadsOn(t: Text, b: Text)
    requires t != ""
    ensures
      var r, after := CronField.SignedNumber(t), CronField.SignedNumber(t + b);
      && (r.1 < |t| ==> after == r || after.1 > |t|)
      && (r.1 == |t| ==> if StartsWithDigit(b) then after.1 > |t| else after == r)
  {
    var sign := CronField.SignSize(t);
    assert (t + b)[sign..] == t[sign..] + b;
    DigitsReadOn(t[sign..], b, 0);
  }

  lemma {:induction false} DigitsReadOn(s: Text, b: Text, before: nat)
    ensures
      var (n, k) := CronField.LeadingDigits(s, before);
      CronField.LeadingDigits(s + b, before) ==
        if k < |s| then (n, k) else (CronField.LeadingDigits(b, n).0, |s| + CronField.LeadingDigits(b, n).1)
  {
    if s == "" {
      assert s + b == b;
    } else {
      assert (s + b)[1..] == s[1..] + b;
      if IsDigit(s[0]) {
        DigitsReadOn(s[1..], b, 10 * before + DigitValue(s[0]));
      }
    }
  }

  lemma {:induction false} DigitsRead(n: nat)
    ensures
      var s := Digits(n);
      s != "" && (forall i :: 0 <= i < |s| ==> IsDigit(s[i])) && CronField.LeadingDigits(s, 0) == (n, |s|)
  {
    var front, last := if n < 10 then "" else Digits(n / 10), [DigitChar(n % 10)];
    if n >= 10 {
      DigitsRead(n / 10);
    }
    DigitsReadOn(front, last, 0);
    assert last[1..] == "";
    assert DigitValue(last[0]) == n % 10;
  }

  /** A long has 32 bits: no other number is recognized. */
  lemma LongRange(n: int)
    ensures LongOf(Decimal(n)) == if -2_147_483_648 <= n <= 2_147_483_647 then Some(n) else None
  {
    DecimalReads(n);
  }

  /** Blanks and a plus sign may stand in front. */
  lemma BlanksAndPlus(blanks: Text, plus: bool, n: nat)
    requires n <= LONG_MAX && forall i :: 0 <= i < |blanks| ==> blanks[i] in {' ', '\t', '\n', '\U{0B}', '\U{0C}', '\r'}
    ensures LongOf(blanks + ((if plus then "+" else "") + Digits(n))) == Some(n)
  {
    var t := (if plus then "+" else "") + Digits(n);
    DigitsRead(n);
    BlanksSkipped(blanks, t);
    assert (blanks + t)[|blanks|..] == t;
    assert t[CronField.SignSize(t)..] == Digits(n);
    assert CronField.SignedNumber(t) == (n, |t|);
    assert blanks + t + "" == blanks + t;
  }

  lemma {:induction false} BlanksSkipped(blanks: Text, t: Text)
    requires (forall i :: 0 <= i < |blanks| ==> CronField.IsSpace(blanks[i])) && t != "" && !CronField.IsSpace(t[0])
    ensures CronField.SpaceCount(blanks + t) == |blanks|
  {
    if blanks == "" {
      assert blanks + t == t;
    } else {
      assert (blanks + t)[1..] == blanks[1..] + t;
      BlanksSkipped(blanks[1..], t);
    }
  }

  /** The text of a long can be read back, unless a digit stands behind its buffer. */
  lemma LongTextReads(n: int, behind: Text)
    requires -LONG_MAX - 1 <= n <= LONG_MAX
    ensures Decimal(n) != "" && LongOf(Decimal(n)) == Some(n)
    ensures ParseLong(Data(Decimal(n), behind)) == if StartsWithDigit(behind) then None else Some(n)
  {
    DecimalReads(n);
    LongReadsOn(Data(Decimal(n), behind));
  }

  lemma DecimalReads(n: int)
    ensures Decimal(n) != "" && LongOf(Decimal(n)) == if -LONG_MAX - 1 <= n <= LONG_MAX then Some(n) else None
  {
    var digits, s := Digits(if n < 0 then -n else n), Decimal(n);
    DigitsRead(if n < 0 then -n else n);
    assert s[CronField.SignSize(s)..] == digits;
    assert s[0..] == s && CronField.SpaceCount(s) == 0;
    assert CronField.SignedNumber(s) == (n, |s|);
    assert s + "" == s;
  }

  /** The next id and the world after a function has run; a parameter of the wrong kind is not modelled. */
  function Execute(env: Environment, func: Func, rule: Rule, w: World): (Id, World) {
    match (func, rule)
    case (CompareValue, Condition(t, f, name, operator, str)) =>
      var data := env.answer(w.asked);
      (if data.text == "" then 0 else Compare(env.strtod, data, Data(str, env.behind(w.asked)), operator, t, f), w.Asked(1))
    case (CompareTopic, Condition(t, f, name, operator, str)) =>
      var data, other := env.answer(w.asked), env.answer(w.asked + 1);
      (if data.text == "" || other.text == "" then 0 else Compare(env.strtod, data, other, operator, t, f), w.Asked(2))
    case (SendValue, Action(next, name, str, retain)) => (next, w.Send(Packet([(name, str)], retain)))
    case (SendTopic, Action(next, name, str, retain)) => (next, w.Send(Packet([(name, ""), (str, "")], retain)))
    case (Increment, Action(next, name, _, retain)) => Add(env, next, name, retain, w, 1)
    case (Decrement, Action(next, name, _, retain)) => Add(env, next, name, retain, w, -1)
    case _ => (0, w)
  }

  /** rf_variable_increment_decrement: without data, or data that is no long, the chain ends and nothing is sent. */
  function Add(env: Environment, next: Id, name: Text, retain: nat, w: World, delta: int): (Id, World) {
    var data := env.answer(w.asked);
    if data.text == "" then (0, w.Asked(1))
    else match ParseLong(data)
      case None => (0, w.Asked(1))
      case Some(n) => (next, w.Asked(1).Send(Packet([(name, Decimal(n + delta))], retain)))
  }

  /** What a function reads before it decides. */
  function Reads(func: Func): nat {
    match func
    case CompareTopic => 2
    case SendValue => 0
    case SendTopic => 0
    case _ => 1
  }

  /** The second operand of a condition: the second topic read, or the rule's own text. */
  function Operand(env: Environment, topic: bool, rule: Rule, w: World): Data
    requires rule.Condition?
  {
    if topic then env.answer(w.asked + 1) else Data(rule.str, env.behind(w.asked))
  }

  predicate ReadsAs(strtod: Text -> Reading, data: Data, x: real) {
    strtod(data.text + data.behind) == Reading(x, |data.text|, true)
  }

  /** Two numbers: the operator decides by their order, and there are six of them. */
  lemma NumbersDecide(env: Environment, topic: bool, rule: Rule, w: World, x: real, y: real)
    requires rule.Condition? && env.answer(w.asked).text != "" && (topic ==> Operand(env, topic, rule, w).text != "")
    requires ReadsAs(env.strtod, env.answer(w.asked), x) && ReadsAs(env.strtod, Operand(env, topic, rule, w), y)
    ensures
      var next := Execute(env, if topic then CompareTopic else CompareValue, rule, w).0;
      && (rule.operator == ">=" ==> next == if x >= y then rule.nextTrue else rule.nextFalse)
      && (rule.operator == "<=" ==> next == if x <= y then rule.nextTrue else rule.nextFalse)
      && (rule.operator == ">" ==> next == if x > y then rule.nextTrue else rule.nextFalse)
      && (rule.operator == "<" ==> next == if x < y then rule.nextTrue else rule.nextFalse)
      && (rule.operator == "==" ==> next == if x == y then rule.nextTrue else rule.nextFalse)
      && (rule.operator == "!=" ==> next == if x != y then rule.nextTrue else rule.nextFalse)
      && (rule.operator !in {">=", "<=", ">", "<", "==", "!="} ==> next == 0)
  {
  }

  /** 5 is at least 3. */
  lemma FiveAtLeastThree(env: Environment, rule: Rule, w: World)
    requires rule.Condition? && rule.operator == ">=" && rule.str == "3" && env.answer(w.asked).text == "5"
    requires ReadsAs(env.strtod, env.answer(w.asked), 5.0) && ReadsAs(env.strtod, Operand(env, false, rule, w), 3.0)
    ensures Execute(env, CompareValue, rule, w) == (rule.nextTrue, w.Asked(1))
  {
    NumbersDecide(env, false, rule, w, 5.0, 3.0);
  }

  /** If one of two texts is no number, they are compared as texts, and only for equality. */
  lemma TextsDecide(env: Environment, topic: bool, rule: Rule, w: World)
    requires rule.Condition? && env.answer(w.asked).text != "" && (topic ==> Operand(env, topic, rule, w).text != "")
    requires '\0' !in env.answer(w.asked).text
    requires NoNumber(env.strtod, env.answer(w.asked)) || NoNumber(env.strtod, Operand(env, topic, rule, w))
    ensures
      var s, t := env.answer(w.asked).text, Operand(env, topic, rule, w).text;
      var next := Execute(env, if topic then CompareTopic else CompareValue, rule, w).0;
      && (rule.operator == "==" ==> next == if s == t then rule.nextTrue else rule.nextFalse)
      && (rule.operator == "!=" ==> next == if s != t then rule.nextTrue else rule.nextFalse)
      && (rule.operator !in {"==", "!="} ==> next == 0)
  {
    forall data ensures NoNumber(env.strtod, data) ==> ParseDouble(env.strtod, data).None? {
      NotParsed(env.strtod, data);
    }
    StringOperators(env.answer(w.asked).text, Operand(env, topic, rule, w).text, rule.nextTrue, rule.nextFalse);
  }

  /** strtod finds none, or none in range, or does not stop at the end of the data. */
  ghost predicate NoNumber(strtod: Text -> Reading, data: Data) {
    forall x :: !ReadsAs(strtod, data, x)
  }

  lemma NotParsed(strtod: Text -> Reading, data: Data)
    ensures NoNumber(strtod, data) <==> ParseDouble(strtod, data).None?
  {
    assert ParseDouble(strtod, data).Some? ==> ReadsAs(strtod, data, ParseDouble(strtod, data).value);
  }

  /** What is sent: a topic with a value, or with the name of the topic whose data it is to get. */
  lemma WhatIsSent(env: Environment, rule: Rule, w: World)
    requires rule.Action?
    ensures Execute(env, SendValue, rule, w) == (rule.next, World(w.asked, w.sent + [Packet([(rule.name, rule.str)], rule.retain)]))
    ensures Execute(env, SendTopic, rule, w) ==
            (rule.next, World(w.asked, w.sent + [Packet([(rule.name, ""), (rule.str, "")], rule.retain)]))
  {
  }

  /** A read that finds no data ends the chain and sends nothing, whatever the function wanted to do with it. */
  lemma NoDataEndsChain(env: Environment, func: Func, rule: Rule, w: World, k: nat)
    requires if func == CompareValue || func == CompareTopic then rule.Condition? else rule.Action?
    requires k < Reads(func) && env.answer(w.asked + k).text == ""
    ensures Execute(env, func, rule, w) == (0, w.Asked(Reads(func)))
  {
    assert k == 0 || k == 1;
  }

  /** The text of a long, and no digit behind the buffer it was copied to. */
  predicate IsCounter(data: Data) {
    data.text != "" && LongOf(data.text).Some? && !StartsWithDigit(data.behind)
  }

  lemma CounterReads(data: Data)
    requires data.text != ""
    ensures ParseLong(data).Some? <==> IsCounter(data)
    ensures ParseLong(data).Some? ==> ParseLong(data) == LongOf(data.text)
  {
    LongReadsOn(data);
  }

  lemma AddGoesOn(env: Environment, next: Id, name: Text, retain: nat, w: World, delta: int)
    ensures
      var data := env.answer(w.asked);
      Add(env, next, name, retain, w, delta) ==
        if IsCounter(data) then
          (next, w.Asked(1).Send(Packet([(name, Decimal(LongOf(data.text).value + delta))], retain)))
        else (0, w.Asked(1))
  {
    if env.answer(w.asked).text != "" {
      CounterReads(env.answer(w.asked));
    }
  }

  /**
   * An increment or decrement goes on exactly if the topic holds the text of a long and no digit stands behind
   * the buffer; then it sends one packet, with the text of the next number under the same name, and that text
   * stands for the number.
   */
  lemma CounterGoesOn(env: Environment, rule: Rule, w: World, up: bool)
    requires rule.Action?
    ensures
      var data := env.answer(w.asked);
      Execute(env, if up then Increment else Decrement, rule, w) ==
        if IsCounter(data) then
          var n := LongOf(data.text).value + if up then 1 else -1;
          (rule.next, w.Asked(1).Send(Packet([(rule.name, Decimal(n))], rule.retain)))
        else (0, w.Asked(1))
    ensures forall n {:trigger Decimal(n)} :: -LONG_MAX - 1 <= n <= LONG_MAX ==> LongOf(Decimal(n)) == Some(n)
  {
    AddGoesOn(env, rule.next, rule.name, rule.retain, w, if up then 1 else -1);
    forall n {:trigger Decimal(n)} | -LONG_MAX - 1 <= n <= LONG_MAX ensures LongOf(Decimal(n)) == Some(n) {
      DecimalReads(n);
    }
  }

  /** The text of any long with a digit behind it ends the chain, and nothing is sent. */
  lemma DigitBehindEndsChain(env: Environment, func: Func, rule: Rule, w: World, n: int)
    requires rule.Action? && func in {Increment, Decrement} && -LONG_MAX - 1 <= n <= LONG_MAX
    requires env.answer(w.asked).text == Decimal(n) && StartsWithDigit(env.answer(w.asked).behind)
    ensures Execute(env, func, rule, w) == (0, w.Asked(1))
  {
    AddGoesOn(env, rule.next, rule.name, rule.retain, w, if func == Increment then 1 else -1);
  }

  /** So it is with 7 in front of 1. */
  lemma SevenBeforeOne(env: Environment, rule: Rule, w: World)
    requires rule.Action? && env.answer(w.asked) == Data(Decimal(7), Decimal(1))
    ensures Decimal(7) == "7" && Decimal(1) == "1" && LongOf(Decimal(7)) == Some(7)
    ensures Execute(env, Increment, rule, w) == (0, w.Asked(1))
  {
    DecimalReads(7);
    DigitBehindEndsChain(env, Increment, rule, w, 7);
  }

  /** func_execute: the first function bound to the type; none ends the chain. */
  function FuncExecute(env: Environment, rfs: seq<Entry<Type, Func>>, body: Body, w: World): (Id, World) {
    match Lookup(rfs, body.typ)
    case None => (0, w)
    case Some(func) => Execute(env, func, body.rule, w)
  }

  // ---------------------------------------------------------------- chains

  /** A run of the executor: the nodes run, by position, and the worlds before each of them and at the end. */
  datatype Chain = Chain(nodes: seq<nat>, worlds: seq<World>)

  /**
   * The path from an id: each node is the first one with the id wanted, what it gives is the id wanted
   * next, and the path ends at 0 or at an id that no node has.
   */
  predicate IsChain(env: Environment, rfs: seq<Entry<Type, Func>>, rns: seq<Entry<Id, Body>>, id: Id, w: World, c: Chain)
    decreases |c.nodes|
  {
    && |c.worlds| == |c.nodes| + 1 && c.worlds[0] == w
    && var i := IndexOf(rns, id);
       if i == |rns| then c.nodes == []
       else
         && c.nodes != [] && c.nodes[0] == i
         && var (next, w') := FuncExecute(env, rfs, rns[i].val, w);
            if next == 0 then |c.nodes| == 1 && c.worlds[1] == w'
            else IsChain(env, rfs, rns, next, w', Chain(c.nodes[1..], c.worlds[1..]))
  }

  lemma {:induction false} ChainIsUnique(env: Environment, rfs: seq<Entry<Type, Func>>, rns: seq<Entry<Id, Body>>, id: Id, w: World, c: Chain, d: Chain)
    requires IsChain(env, rfs, rns, id, w, c) && IsChain(env, rfs, rns, id, w, d)
    ensures c == d
    decreases |c.nodes|
  {
    var i := IndexOf(rns, id);
    if i < |rns| {
      var (next, w') := FuncExecute(env, rfs, rns[i].val, w);
      if next == 0 {
        assert c.worlds == [w, w'] == d.worlds && c.nodes == [i] == d.nodes;
      } else {
        ChainIsUnique(env, rfs, rns, next, w', Chain(c.nodes[1..], c.worlds[1..]), Chain(d.nodes[1..], d.worlds[1..]));
        assert c.nodes == [i] + c.nodes[1..] && d.nodes == [i] + d.nodes[1..];
        assert c.worlds == [w] + c.worlds[1..] && d.worlds == [w] + d.worlds[1..];
      }
    } else {
      assert c.worlds == [w] == d.worlds;
    }
  }

  lemma ChainExtends(env: Environment, rfs: seq<Entry<Type, Func>>, rns: seq<Entry<Id, Body>>, id: Id, w: World, rest: Chain)
    requires IndexOf(rns, id) < |rns|
    requires var (next, w') := FuncExecute(env, rfs, rns[IndexOf(rns, id)].val, w);
             next != 0 && IsChain(env, rfs, rns, next, w', rest)
    ensures IsChain(env, rfs, rns, id, w, Chain([IndexOf(rns, id)] + rest.nodes, [w] + rest.worlds))
  {
    var c := Chain([IndexOf(rns, id)] + rest.nodes, [w] + rest.worlds);
    assert Chain(c.nodes[1..], c.worlds[1..]) == rest;
  }

  // ---------------------------------------------------------------- ranked rule sets

  /** The ids a node can give, on any branch. */
  predicate CanGive(rule: Rule, next: Id) {
    match rule
    case Condition(t, f, _, _, _) => next == t || next == f
    case Action(n, _, _, _) => next == n
  }

  /** The first node with the id, which is the one that runs, can give the next id. */
  predicate Leads(rns: seq<Entry<Id, Body>>, id: Id, next: Id) {
    var i := IndexOf(rns, id);
    i < |rns| && next != 0 && CanGive(rns[i].val.rule, next)
  }

  /** All next ids but 0 fall along the rank. */
  ghost predicate Falls(rns: seq<Entry<Id, Body>>, rank: Id -> nat) {
    forall id, next :: Leads(rns, id, next) ==> rank(next) < rank(id)
  }

  predicate IsPath(rns: seq<Entry<Id, Body>>, p: seq<Id>) {
    p != [] && forall k :: 0 <= k < |p| - 1 ==> Leads(rns, p[k], p[k + 1])
  }

  ghost predicate Reaches(rns: seq<Entry<Id, Body>>, id: Id, to: Id) {
    exists p :: IsPath(rns, p) && p[0] == id && p[|p| - 1] == to
  }

  /** Next ids that lead from a node back to it. */
  ghost predicate HasCycle(rns: seq<Entry<Id, Body>>) {
    exists id, next :: Leads(rns, id, next) && Reaches(rns, next, id)
  }

  lemma {:induction false} PathFalls(rns: seq<Entry<Id, Body>>, rank: Id -> nat, p: seq<Id>)
    requires Falls(rns, rank) && IsPath(rns, p)
    ensures rank(p[|p| - 1]) <= rank(p[0])
  {
    if |p| > 1 {
      assert Leads(rns, p[0], p[1]);
      assert forall k :: 0 <= k < |p| - 2 ==> Leads(rns, p[1..][k], p[1..][k + 1]);
      PathFalls(rns, rank, p[1..]);
    }
  }

  /** How many ids with a node an id reaches, itself included. */
  ghost function Reached(rns: seq<Entry<Id, Body>>, id: Id): set<Id> {
    set k | k in Keys(rns) && Reaches(rns, id, k)
  }

  lemma ReachedFalls(rns: seq<Entry<Id, Body>>, id: Id, next: Id)
    requires Leads(rns, id, next) && !HasCycle(rns)
    ensures |Reached(rns, next)| < |Reached(rns, id)|
  {
    assert Keys(rns)[IndexOf(rns, id)] == id;
    assert IsPath(rns, [id]);
    assert id in Reached(rns, id) && id !in Reached(rns, next);
    forall k | k in Reached(rns, next) ensures k in Reached(rns, id) {
      var p :| IsPath(rns, p) && p[0] == next && p[|p| - 1] == k;
      PathGrows(rns, id, p);
    }
    SmallerSet(Reached(rns, next), Reached(rns, id), id);
  }

  lemma PathGrows(rns: seq<Entry<Id, Body>>, id: Id, p: seq<Id>)
    requires IsPath(rns, p) && Leads(rns, id, p[0])
    ensures IsPath(rns, [id] + p) && Reaches(rns, id, p[|p| - 1])
  {
    var q := [id] + p;
    forall k | 0 <= k < |q| - 1 ensures Leads(rns, q[k], q[k + 1]) {
      assert k > 0 ==> Leads(rns, p[k - 1], p[k]);
    }
  }

  lemma SmallerSet(a: set<Id>, b: set<Id>, x: Id)
    requires a <= b && x in b && x !in a
    ensures |a| < |b|
  {
    var more := b - a;
    assert b == a + more && a !! more && x in more;
  }

  /** A rank exists, and with it every run ends, exactly if no next ids lead from a node back to it. */
  lemma RankUnlessCycle(rns: seq<Entry<Id, Body>>)
    ensures (exists rank: Id -> nat :: Falls(rns, rank)) <==> !HasCycle(rns)
  {
    if HasCycle(rns) {
      var id, next :| Leads(rns, id, next) && Reaches(rns, next, id);
      var p :| IsPath(rns, p) && p[0] == next && p[|p| - 1] == id;
      forall rank: Id -> nat | Falls(rns, rank) ensures false {
        PathFalls(rns, rank, p);
      }
    } else {
      var rank: Id -> nat := id => |Reached(rns, id)|;
      forall id, next | Leads(rns, id, next) ensures rank(next) < rank(id) {
        ReachedFalls(rns, id, next);
      }
      assert Falls(rns, rank);
    }
  }

  lemma GivesWhatItCan(env: Environment, rfs: seq<Entry<Type, Func>>, body: Body, w: World)
    ensures var next := FuncExecute(env, rfs, body, w).0; next == 0 || CanGive(body.rule, next)
  {
  }

  lemma {:induction false} RanksFall(env: Environment, rfs: seq<Entry<Type, Func>>, rns: seq<Entry<Id, Body>>, rank: Id -> nat, id: Id, w: World, c: Chain)
    requires Falls(rns, rank) && IsChain(env, rfs, rns, id, w, c)
    ensures forall k :: 0 <= k < |c.nodes| ==> c.nodes[k] < |rns| && rank(rns[c.nodes[k]].key) <= rank(id)
    ensures forall j, k :: 0 <= j < k < |c.nodes| ==> rank(rns[c.nodes[k]].key) < rank(rns[c.nodes[j]].key)
    decreases |c.nodes|
  {
    var i := IndexOf(rns, id);
    if i < |rns| {
      var (next, w') := FuncExecute(env, rfs, rns[i].val, w);
      if next != 0 {
        GivesWhatItCan(env, rfs, rns[i].val, w);
        var rest := Chain(c.nodes[1..], c.worlds[1..]);
        RanksFall(env, rfs, rns, rank, next, w', rest);
        assert forall k :: 1 <= k < |c.nodes| ==> c.nodes[k] == rest.nodes[k - 1];
      }
    }
  }

  function Below(n: nat): (r: set<nat>)
    ensures |r| == n && forall i: nat :: i in r <==> i < n
  {
    if n == 0 then {} else Below(n - 1) + {n - 1}
  }

  /** Different elements of a set: there are at most as many as the set has. */
  lemma {:induction false} Pigeons(ps: seq<nat>, free: set<nat>)
    requires (forall i :: 0 <= i < |ps| ==> ps[i] in free) && forall i, j :: 0 <= i < j < |ps| ==> ps[i] != ps[j]
    ensures |ps| <= |free|
  {
    if ps != [] {
      Pigeons(ps[1..], free - {ps[0]});
    }
  }

  /** In a ranked rule set no id runs twice, and there are at most as many steps as nodes, whatever the broker answers. */
  lemma RunsEachIdOnce(env: Environment, rfs: seq<Entry<Type, Func>>, rns: seq<Entry<Id, Body>>, rank: Id -> nat, id: Id, w: World, c: Chain)
    requires Falls(rns, rank) && IsChain(env, rfs, rns, id, w, c)
    ensures forall k :: 0 <= k < |c.nodes| ==> c.nodes[k] < |rns|
    ensures forall j, k :: 0 <= j < k < |c.nodes| ==> rns[c.nodes[j]].key != rns[c.nodes[k]].key
    ensures |c.nodes| <= |rns|
  {
    RanksFall(env, rfs, rns, rank, id, w, c);
    Pigeons(c.nodes, Below(|rns|));
  }

  // ---------------------------------------------------------------- the executor

  class Broker {
    const env: Environment
    var asked: nat
    var sent: seq<Packet>

    ghost function View(): World
      reads this
    {
      World(asked, sent)
    }

    /** msggap_rules_mqtt_request for one name. */
    method Request() returns (data: Data)
      modifies this`asked
      ensures data == env.answer(old(asked)) && asked == old(asked) + 1
    {
      data := env.answer(asked);
      asked := asked + 1;
    }

    /** msg_rules_mqtt_add_packet. */
    method AddPacket(items: seq<(Text, Text)>, retain: nat)
      modifies this`sent
      ensures View() == old(View()).Send(Packet(items, retain))
    {
      sent := sent + [Packet(items, retain)];
    }

    /** rf_condition_value and rf_condition_topic: the second operand is given, or read in the same request. */
    method Condition(rule: Rule, topic: bool) returns (next: Id)
      requires rule.Condition?
      modifies this`asked
      ensures (next, View()) == Execute(env, if topic then CompareTopic else CompareValue, rule, old(View()))
    {
      var other := Data(rule.str, env.behind(asked));
      var data := Request();
      if topic {
        other := Request();
      }
      if data.text == "" || (topic && other.text == "") {
        return 0;
      }
      next := Compare(env.strtod, data, other, rule.operator, rule.nextTrue, rule.nextFalse);
    }

    /** rf_variable_increment_decrement. */
    method AddTo(rule: Rule, delta: int) returns (next: Id)
      requires rule.Action?
      modifies this
      ensures (next, View()) == Add(env, rule.next, rule.name, rule.retain, old(View()), delta)
    {
      var data := Request();
      if data.text == "" {
        return 0;
      }
      var value := ParseLong(data);
      if value.None? {
        return 0;
      }
      AddPacket([(rule.name, Decimal(value.value + delta))], rule.retain);
      next := rule.next;
    }

    method Call(func: Func, rule: Rule) returns (next: Id)
      modifies this
      ensures (next, View()) == Execute(env, func, rule, old(View()))
    {
      next := 0;
      if rule.Condition? {
        if func == CompareValue || func == CompareTopic {
          next := Condition(rule, func == CompareTopic);
        }
      } else {
        match func {
          case SendValue =>
            AddPacket([(rule.name, rule.str)], rule.retain);
            next := rule.next;
          case SendTopic =>
            AddPacket([(rule.name, ""), (rule.str, "")], rule.retain);
            next := rule.next;
          case Increment =>
            next := AddTo(rule, 1);
          case Decrement =>
            next := AddTo(rule, -1);
          case _ =>
        }
      }
    }

    /** func_execute. */
    method FuncExecuteIn(rfs: Functions, body: Body) returns (next: Id)
      requires rfs.Valid() && this !in rfs.Repr
      modifies this
      ensures (next, View()) == FuncExecute(env, rfs.contents, body, old(View()))
    {
      var rf, i := rfs.Find(body.typ);
      if rf == null {
        return 0;
      }
      next := Call(rf.val, body.rule);
    }

    /** node_execute: it ends because the rank of the id falls with every call. */
    method NodeExecute(rfs: Functions, rns: Nodes, id: Id, ghost rank: Id -> nat) returns (ghost c: Chain)
      requires rfs.Valid() && rns.Valid() && this !in rfs.Repr && this !in rns.Repr && Falls(rns.contents, rank)
      modifies this
      ensures IsChain(env, rfs.contents, rns.contents, id, old(View()), c)
      ensures View() == c.worlds[|c.nodes|]
      decreases rank(id)
    {
      ghost var w := View();
      var rn, i := rns.Find(id);
      if rn == null {
        return Chain([], [w]);
      }
      var next := FuncExecuteIn(rfs, rn.val);
      GivesWhatItCan(env, rfs.contents, rns.contents[i].val, w);
      if next != 0 {
        ghost var rest := NodeExecute(rfs, rns, next, rank);
        ChainExtends(env, rfs.contents, rns.contents, id, w, rest);
        c := Chain([i] + rest.nodes, [w] + rest.worlds);
      } else {
        c := Chain([i], [w, View()]);
      }
    }
  }

  // ---------------------------------------------------------------- without a rank

  /** Every id of the set has a node, and whatever is read, running it gives an id of the set again. */
  ghost predicate Closed(env: Environment, rfs: seq<Entry<Type, Func>>, rns: seq<Entry<Id, Body>>, ids: set<Id>) {
    forall id, w :: id in ids ==> GivesIn(env, rfs, rns, ids, id, w)
  }

  ghost predicate GivesIn(env: Environment, rfs: seq<Entry<Type, Func>>, rns: seq<Entry<Id, Body>>, ids: set<Id>, id: Id, w: World) {
    var i := IndexOf(rns, id);
    i < |rns| && var next := FuncExecute(env, rfs, rns[i].val, w).0; next != 0 && next in ids
  }

  /** From a closed set of ids no run ever ends. */
  lemma {:induction false} ClosedNeverEnds(env: Environment, rfs: seq<Entry<Type, Func>>, rns: seq<Entry<Id, Body>>, ids: set<Id>, id: Id, w: World, c: Chain)
    requires Closed(env, rfs, rns, ids) && id in ids
    ensures !IsChain(env, rfs, rns, id, w, c)
    decreases |c.nodes|
  {
    assert GivesIn(env, rfs, rns, ids, id, w);
    if c.nodes != [] && |c.worlds| == |c.nodes| + 1 {
      var (next, w') := FuncExecute(env, rfs, rns[IndexOf(rns, id)].val, w);
      ClosedNeverEnds(env, rfs, rns, ids, next, w', Chain(c.nodes[1..], c.worlds[1..]));
    }
  }

  /** In particular no rank exists for it. */
  lemma ClosedHasNoRank(env: Environment, rfs: seq<Entry<Type, Func>>, rns: seq<Entry<Id, Body>>, ids: set<Id>, id: Id, rank: Id -> nat)
    requires Closed(env, rfs, rns, ids) && id in ids
    ensures !Falls(rns, rank)
  {
    if Falls(rns, rank) {
      Descent(env, rfs, rns, ids, id, rank);
    }
  }

  lemma {:induction false} Descent(env: Environment, rfs: seq<Entry<Type, Func>>, rns: seq<Entry<Id, Body>>, ids: set<Id>, id: Id, rank: Id -> nat)
    requires Closed(env, rfs, rns, ids) && id in ids && Falls(rns, rank)
    ensures false
    decreases rank(id)
  {
    var w := World(0, []);
    assert GivesIn(env, rfs, rns, ids, id, w);
    var body := rns[IndexOf(rns, id)].val;
    GivesWhatItCan(env, rfs, body, w);
    Descent(env, rfs, rns, ids, FuncExecute(env, rfs, body, w).0, rank);
  }

  /** Sending nodes that lead to one another in a ring are such a set. */
  lemma SendersAreClosed(env: Environment, rfs: seq<Entry<Type, Func>>, rns: seq<Entry<Id, Body>>, ids: set<Id>)
    requires forall id :: id in ids ==> IndexOf(rns, id) < |rns| && IsSender(rfs, rns[IndexOf(rns, id)].val, ids)
    ensures Closed(env, rfs, rns, ids)
  {
    forall id, w | id in ids ensures GivesIn(env, rfs, rns, ids, id, w) {
      SenderGives(env, rfs, rns[IndexOf(rns, id)].val, ids, w);
    }
  }

  lemma SenderGives(env: Environment, rfs: seq<Entry<Type, Func>>, body: Body, ids: set<Id>, w: World)
    requires IsSender(rfs, body, ids)
    ensures FuncExecute(env, rfs, body, w).0 == body.rule.next
  {
  }

  /** Two nodes that send and name each other as the next: no run of them ends. */
  lemma TwoSenders(env: Environment, rfs: seq<Entry<Type, Func>>, a: Body, b: Body, w: World, c: Chain)
    requires Lookup(rfs, a.typ) == Some(SendValue) && Lookup(rfs, b.typ) == Some(SendTopic)
    requires a.rule.Action? && a.rule.next == 2 && b.rule.Action? && b.rule.next == 1
    ensures !IsChain(env, rfs, [Entry(1, a), Entry(2, b)], 1, w, c)
  {
    var rns := [Entry(1, a), Entry(2, b)];
    assert IndexOf(rns[1..], 2) == 0;
    SendersAreClosed(env, rfs, rns, {1, 2});
    ClosedNeverEnds(env, rfs, rns, {1, 2}, 1, w, c);
  }

  predicate IsSender(rfs: seq<Entry<Type, Func>>, body: Body, ids: set<Id>) {
    && (Lookup(rfs, body.typ) == Some(SendValue) || Lookup(rfs, body.typ) == Some(SendTopic))
    && body.rule.Action? && body.rule.next != 0 && body.rule.next in ids
  }
}
