/**
 * The message queue of src/msgs.c:18-87 under any interleaving of producers with one consumer that
 * peeks, handles and removes (src/thread_rules.c:40-48). Every pointer read and write under the
 * mutex is a step of its own.
 */
module MsgProtocol {
  import opened Wrappers

  type Msg = nat

  /** Where msg_add of one producer stands. */
  datatype Producer = Idle | Locked(msg: Msg) | Linked(msg: Msg) | Added(msg: Msg)

  /** Where the consumer's loop stands. */
  datatype Consumer =
    | Resting
    | PeekLocked | PeekAt(m: Msg) | PeekDone(found: Option<Msg>)
    | Holding(m: Msg) | Handled(m: Msg)
    | RemoveLocked(m: Msg) | RemoveAfter(m: Msg, item: Msg) | Unlinked(m: Msg) | Cleared
  {
    predicate InPeek() {
      PeekLocked? || PeekAt? || PeekDone?
    }

    predicate InRemove() {
      RemoveLocked? || RemoveAfter? || Unlinked? || Cleared?
    }
  }

  datatype Holder = Nobody | ProducerHolds(p: nat) | ConsumerHolds

  /** `head` and `next` are the memory; `added`, `handled` and `removed` record what has happened. */
  datatype State = State(
    mutex: Holder, head: Option<Msg>, next: map<Msg, Option<Msg>>,
    producers: seq<Producer>, consumer: Consumer,
    added: seq<Msg>, handled: seq<Msg>, removed: nat)

  datatype Action =
    | Lock(p: nat, msg: Msg) | WriteNext(p: nat) | WriteHead(p: nat) | Unlock(p: nat)
    | LockToPeek | ReadHead | ReadNext | UnlockPeek | Handle
    | LockToRemove | CompareHead | CompareNext | ClearNext | UnlockRemove

  predicate Init(s: State) {
    && s.mutex == Nobody && s.head == None && s.consumer == Resting
    && (forall p :: 0 <= p < |s.producers| ==> s.producers[p] == Idle)
    && s.added == [] && s.handled == [] && s.removed == 0
  }

  function NextOf(s: State, m: Msg): Option<Msg> {
    if m in s.next then s.next[m] else None
  }

  /** A producer adds a message that is not in the queue; its memory may have held an earlier one. */
  predicate Enabled(s: State, a: Action) {
    match a
    case Lock(p, msg) => s.mutex == Nobody && p < |s.producers| && s.producers[p] == Idle && !InQueue(s, msg)
    case WriteNext(p) => p < |s.producers| && s.producers[p].Locked?
    case WriteHead(p) => p < |s.producers| && s.producers[p].Linked?
    case Unlock(p) => p < |s.producers| && s.producers[p].Added?
    case LockToPeek => s.mutex == Nobody && s.consumer == Resting
    case ReadHead => s.consumer == PeekLocked
    case ReadNext => s.consumer.PeekAt?
    case UnlockPeek => s.consumer.PeekDone?
    case Handle => s.consumer.Holding?
    case LockToRemove => s.mutex == Nobody && s.consumer.Handled?
    case CompareHead => s.consumer.RemoveLocked?
    case CompareNext => s.consumer.RemoveAfter?
    case ClearNext => s.consumer.Unlinked?
    case UnlockRemove => s.consumer == Cleared
  }

  function Apply(s: State, a: Action): State
    requires Enabled(s, a)
  {
    match a
    case Lock(p, msg) => s.(mutex := ProducerHolds(p), producers := s.producers[p := Locked(msg)])
    case WriteNext(p) =>
      var msg := s.producers[p].msg;
      s.(next := s.next[msg := s.head], producers := s.producers[p := Linked(msg)])
    case WriteHead(p) =>
      var msg := s.producers[p].msg;
      s.(head := Some(msg), producers := s.producers[p := Added(msg)], added := s.added + [msg])
    case Unlock(p) => s.(mutex := Nobody, producers := s.producers[p := Idle])
    case LockToPeek => s.(mutex := ConsumerHolds, consumer := PeekLocked)
    case ReadHead => s.(consumer := if s.head.None? then PeekDone(None) else PeekAt(s.head.value))
    case ReadNext =>
      var next := NextOf(s, s.consumer.m);
      s.(consumer := if next.None? then PeekDone(Some(s.consumer.m)) else PeekAt(next.value))
    case UnlockPeek =>
      s.(mutex := Nobody, consumer := if s.consumer.found.None? then Resting else Holding(s.consumer.found.value))
    case Handle => s.(consumer := Consumer.Handled(s.consumer.m), handled := s.handled + [s.consumer.m])
    case LockToRemove => s.(mutex := ConsumerHolds, consumer := RemoveLocked(s.consumer.m))
    case CompareHead =>
      var m := s.consumer.m;
      if s.head == Some(m) then s.(head := NextOf(s, m), consumer := Unlinked(m), removed := s.removed + 1)
      else if s.head.None? then s.(consumer := Unlinked(m))
      else s.(consumer := RemoveAfter(m, s.head.value))
    case CompareNext =>
      var m, item := s.consumer.m, s.consumer.item;
      var next := NextOf(s, item);
      if next == Some(m) then
        s.(next := s.next[item := NextOf(s, m)], consumer := Unlinked(m), removed := s.removed + 1)
      else if next.None? then s.(consumer := Unlinked(m))
      else s.(consumer := RemoveAfter(m, next.value))
    case ClearNext => s.(next := s.next[s.consumer.m := None], consumer := Cleared)
    case UnlockRemove => s.(mutex := Nobody, consumer := Resting)
  }

  // ---------------------------------------------------------------- the invariant

  /** Whoever is between lock and unlock holds the mutex. */
  predicate Excluded(s: State) {
    && (s.consumer.InPeek() || s.consumer.InRemove() <==> s.mutex == ConsumerHolds)
    && (forall p :: 0 <= p < |s.producers| ==> (s.producers[p] != Idle <==> s.mutex == ProducerHolds(p)))
    && (s.mutex.ProducerHolds? ==> s.mutex.p < |s.producers|)
  }

  /** No message is in the queue twice. */
  predicate Distinct(s: State) {
    forall i, j :: 0 <= s.removed <= i < j < |s.added| ==> s.added[i] != s.added[j]
  }

  /** The memory holds the messages not removed yet, each linked to the one added before it. */
  predicate Chained(s: State) {
    && s.removed <= |s.added| && Distinct(s)
    && s.head == (if s.removed == |s.added| then None else Some(s.added[|s.added| - 1]))
    && (forall k {:trigger NextOf(s, s.added[k])} :: s.removed <= k < |s.added| ==> NextOf(s, s.added[k]) == Older(s, k))
  }

  function Older(s: State, k: nat): Option<Msg>
    requires k < |s.added|
  {
    if k <= s.removed then None else Some(s.added[k - 1])
  }

  /** A producer's message is new until it is added, and points to the head once it is linked. */
  predicate ProducersReady(s: State) {
    forall p :: 0 <= p < |s.producers| ==> ProducerReady(s, s.producers[p])
  }

  predicate ProducerReady(s: State, x: Producer) {
    && (x.Locked? || x.Linked? ==> !InQueue(s, x.msg))
    && (x.Linked? ==> NextOf(s, x.msg) == s.head)
  }

  predicate InQueue(s: State, m: Msg) {
    exists k :: s.removed <= k < |s.added| && s.added[k] == m
  }

  predicate IsOldest(s: State, m: Msg) {
    s.removed < |s.added| && s.added[s.removed] == m
  }

  /** What the consumer has in its hands is the oldest message, and it has handled all those before. */
  predicate ConsumerReady(s: State) {
    match s.consumer
    case PeekAt(m) => InQueue(s, m) && HandledAre(s, 0)
    case PeekDone(Some(m)) => IsOldest(s, m) && HandledAre(s, 0)
    case PeekDone(None) => s.removed == |s.added| && HandledAre(s, 0)
    case Holding(m) => IsOldest(s, m) && HandledAre(s, 0)
    case Handled(m) => IsOldest(s, m) && HandledAre(s, 1)
    case RemoveLocked(m) => IsOldest(s, m) && HandledAre(s, 1)
    case RemoveAfter(m, item) => IsOldest(s, m) && InQueue(s, item) && item != m && HandledAre(s, 1)
    case Unlinked(m) => !InQueue(s, m) && HandledAre(s, 0)
    case _ => HandledAre(s, 0)
  }

  predicate HandledAre(s: State, more: nat) {
    s.removed + more <= |s.added| && s.handled == s.added[..s.removed + more]
  }

  predicate Inv(s: State) {
    Excluded(s) && Chained(s) && ProducersReady(s) && ConsumerReady(s)
  }

  // ---------------------------------------------------------------- every step keeps it

  lemma ExcludedKept(s: State, a: Action)
    requires Inv(s) && Enabled(s, a)
    ensures Excluded(Apply(s, a))
  {
  }

  predicate SameMemory(s: State, t: State) {
    t.head == s.head && t.next == s.next && t.added == s.added && t.removed == s.removed
  }

  lemma ChainedSame(s: State, t: State)
    requires Chained(s) && SameMemory(s, t)
    ensures Chained(t)
  {
    forall k | t.removed <= k < |t.added| ensures NextOf(t, t.added[k]) == Older(t, k) {
      assert NextOf(s, s.added[k]) == Older(s, k);
    }
  }

  /** Under the consumer's lock no producer has anything in its hands. */
  lemma ProducersIdle(t: State)
    requires Excluded(t) && t.mutex == ConsumerHolds
    ensures ProducersReady(t)
  {
  }

  lemma ProducersSame(s: State, t: State, p: nat)
    requires ProducersReady(s) && SameMemory(s, t) && p < |s.producers| == |t.producers|
    requires t.producers == s.producers || (t.producers == s.producers[p := t.producers[p]] && ProducerReady(t, t.producers[p]))
    ensures ProducersReady(t)
  {
    forall q | 0 <= q < |t.producers| ensures ProducerReady(t, t.producers[q]) {
      assert ProducerReady(s, s.producers[q]);
    }
  }

  lemma LockKeeps(s: State, a: Action)
    requires Inv(s) && Enabled(s, a) && (a.Lock? || a.Unlock?)
    ensures Inv(Apply(s, a))
  {
    var t := Apply(s, a);
    ExcludedKept(s, a);
    ChainedSame(s, t);
    ProducersSame(s, t, a.p);
    ConsumerSame(s, t);
  }

  lemma ConsumerSame(s: State, t: State)
    requires ConsumerReady(s) && SameMemory(s, t) && t.consumer == s.consumer && t.handled == s.handled
    ensures ConsumerReady(t)
  {
    if s.consumer.PeekAt? {
      var k :| s.removed <= k < |s.added| && s.added[k] == s.consumer.m;
      assert t.added[k] == t.consumer.m;
    } else if s.consumer.RemoveAfter? {
      var k :| s.removed <= k < |s.added| && s.added[k] == s.consumer.item;
      assert t.added[k] == t.consumer.item;
    }
  }

  lemma WriteNextKeeps(s: State, p: nat)
    requires Inv(s) && Enabled(s, WriteNext(p))
    ensures Inv(Apply(s, WriteNext(p)))
  {
    ExcludedKept(s, WriteNext(p));
    WriteNextChains(s, p);
    OthersIdle(s, p);
    HeldStaysOldest(s, Apply(s, WriteNext(p)));
  }

  /** The message linked is not in the queue yet. */
  lemma WriteNextChains(s: State, p: nat)
    requires Inv(s) && Enabled(s, WriteNext(p))
    ensures Chained(Apply(s, WriteNext(p))) && ProducerReady(Apply(s, WriteNext(p)), Apply(s, WriteNext(p)).producers[p])
  {
    var t := Apply(s, WriteNext(p));
    assert ProducerReady(s, s.producers[p]);
    forall k | s.removed <= k < |s.added| ensures NextOf(t, t.added[k]) == Older(t, k) {
      assert s.added[k] != s.producers[p].msg && NextOf(s, s.added[k]) == Older(s, k);
    }
  }

  lemma OthersIdle(s: State, p: nat)
    requires Excluded(s) && p < |s.producers| && s.producers[p] != Idle
    ensures forall q :: 0 <= q < |s.producers| && q != p ==> s.producers[q] == Idle
  {
  }

  lemma WriteHeadKeeps(s: State, p: nat)
    requires Inv(s) && Enabled(s, WriteHead(p))
    ensures Inv(Apply(s, WriteHead(p)))
  {
    var t := Apply(s, WriteHead(p));
    ExcludedKept(s, WriteHead(p));
    WriteHeadChains(s, p);
    forall q | 0 <= q < |t.producers| ensures ProducerReady(t, t.producers[q]) {
      assert q != p ==> t.producers[q] == Idle;
    }
    HeldStaysOldest(s, t);
  }

  lemma WriteHeadChains(s: State, p: nat)
    requires Inv(s) && Enabled(s, WriteHead(p))
    ensures Chained(Apply(s, WriteHead(p)))
  {
    var t := Apply(s, WriteHead(p));
    var msg, last := s.producers[p].msg, |s.added|;
    assert ProducerReady(s, s.producers[p]);
    assert forall i :: s.removed <= i < last ==> t.added[i] == s.added[i] != msg;
    forall k | s.removed <= k < |t.added| ensures NextOf(t, t.added[k]) == Older(t, k) {
      if k < last {
        assert t.added[k] == s.added[k] && NextOf(s, s.added[k]) == Older(s, k);
      }
    }
  }

  /** What the consumer holds outside the mutex does not change when a producer adds a message. */
  lemma HeldStaysOldest(s: State, t: State)
    requires Inv(s) && t.removed == s.removed && t.handled == s.handled && s.added <= t.added
    requires t.consumer == s.consumer && !s.consumer.InPeek() && !s.consumer.InRemove()
    ensures ConsumerReady(t)
  {
    assert t.added[..s.removed] == s.added[..s.removed];
    if s.removed < |s.added| {
      assert t.added[..s.removed + 1] == s.added[..s.removed + 1];
    }
  }

  /** Steps of the consumer that only read, lock or unlock. */
  lemma ReadingKeeps(s: State, a: Action)
    requires Inv(s) && Enabled(s, a)
    requires a.LockToPeek? || a.ReadHead? || a.ReadNext? || a.UnlockPeek? || a.Handle? || a.LockToRemove? || a.UnlockRemove?
    ensures Inv(Apply(s, a))
  {
    var t := Apply(s, a);
    ExcludedKept(s, a);
    ChainedSame(s, t);
    if |s.producers| > 0 {
      ProducersSame(s, t, 0);
    }
    ReadingFinds(s, a);
  }

  lemma ReadingFinds(s: State, a: Action)
    requires Inv(s) && Enabled(s, a)
    requires a.LockToPeek? || a.ReadHead? || a.ReadNext? || a.UnlockPeek? || a.Handle? || a.LockToRemove? || a.UnlockRemove?
    ensures ConsumerReady(Apply(s, a))
  {
    match a
    case ReadHead =>
      if s.head.Some? {
        assert Apply(s, a).added[|s.added| - 1] == Apply(s, a).consumer.m;
      }
    case ReadNext =>
      ReadNextFinds(s);
    case Handle =>
      assert Apply(s, a).handled == s.added[..s.removed + 1];
    case _ =>
  }

  lemma ReadNextFinds(s: State)
    requires Inv(s) && Enabled(s, ReadNext)
    ensures ConsumerReady(Apply(s, ReadNext))
  {
    var t := Apply(s, ReadNext);
    var k :| s.removed <= k < |s.added| && s.added[k] == s.consumer.m;
    assert NextOf(s, s.added[k]) == Older(s, k);
    if k > s.removed {
      assert t.added[k - 1] == t.consumer.m;
    }
  }

  lemma CompareHeadKeeps(s: State)
    requires Inv(s) && Enabled(s, CompareHead)
    ensures Inv(Apply(s, CompareHead))
  {
    var t := Apply(s, CompareHead);
    ExcludedKept(s, CompareHead);
    ProducersIdle(t);
    var last := |s.added| - 1;
    assert s.head == Some(s.added[last]);
    assert NextOf(s, s.added[last]) == Older(s, last);
    if s.head == Some(s.consumer.m) {
      assert last == s.removed;
      assert t.added[s.removed] == t.consumer.m;
    } else {
      ChainedSame(s, t);
      assert t.added[last] == t.consumer.item;
    }
  }

  lemma CompareNextKeeps(s: State)
    requires Inv(s) && Enabled(s, CompareNext)
    ensures Inv(Apply(s, CompareNext))
  {
    ExcludedKept(s, CompareNext);
    ProducersIdle(Apply(s, CompareNext));
    var k :| s.removed <= k < |s.added| && s.added[k] == s.consumer.item;
    CompareNextFinds(s, k);
  }

  lemma CompareNextFinds(s: State, k: nat)
    requires Inv(s) && Enabled(s, CompareNext) && s.removed <= k < |s.added| && s.added[k] == s.consumer.item
    ensures Chained(Apply(s, CompareNext)) && ConsumerReady(Apply(s, CompareNext))
  {
    var t, m := Apply(s, CompareNext), s.consumer.m;
    assert NextOf(s, s.added[k]) == Older(s, k) == Some(s.added[k - 1]);
    if s.added[k - 1] == m {
      assert k - 1 == s.removed;
      UnlinkChains(s, k);
      assert t.added[s.removed] == t.consumer.m;
    } else {
      ChainedSame(s, t);
      assert t.added[k - 1] == t.consumer.item;
    }
  }

  lemma UnlinkChains(s: State, k: nat)
    requires Inv(s) && Enabled(s, CompareNext) && k == s.removed + 1 < |s.added| && s.added[k] == s.consumer.item
    ensures Chained(Apply(s, CompareNext))
  {
    var t, m := Apply(s, CompareNext), s.consumer.m;
    assert NextOf(s, s.added[k]) == Older(s, k) == Some(m);
    assert NextOf(s, s.added[s.removed]) == Older(s, s.removed) == None;
    ShortChains(s, k, t);
  }

  /** Without its oldest message the queue is still a chain. */
  lemma ShortChains(s: State, k: nat, t: State)
    requires Chained(s) && k == s.removed + 1 < |s.added|
    requires t.next == s.next[s.added[k] := None] && t.removed == k && t.added == s.added && t.head == s.head
    ensures Chained(t)
  {
    forall j | k <= j < |t.added| ensures NextOf(t, t.added[j]) == Older(t, j) {
      assert NextOf(s, s.added[j]) == Older(s, j);
    }
  }

  lemma ClearNextKeeps(s: State)
    requires Inv(s) && Enabled(s, ClearNext)
    ensures Inv(Apply(s, ClearNext))
  {
    ExcludedKept(s, ClearNext);
    ProducersIdle(Apply(s, ClearNext));
    ClearChains(s);
  }

  lemma ClearChains(s: State)
    requires Inv(s) && Enabled(s, ClearNext)
    ensures Chained(Apply(s, ClearNext))
  {
    OthersChain(s, s.consumer.m, Apply(s, ClearNext));
  }

  lemma OthersChain(s: State, m: Msg, t: State)
    requires Chained(s) && m !in s.added[s.removed..]
    requires t.next == s.next[m := None] && t.removed == s.removed && t.added == s.added && t.head == s.head
    ensures Chained(t)
  {
    forall k | s.removed <= k < |s.added| ensures NextOf(t, t.added[k]) == Older(t, k) {
      assert s.added[s.removed..][k - s.removed] == s.added[k];
      assert s.added[k] != m && NextOf(s, s.added[k]) == Older(s, k);
    }
  }

  lemma StepKeeps(s: State, a: Action)
    requires Inv(s) && Enabled(s, a)
    ensures Inv(Apply(s, a))
  {
    match a
    case Lock(_, _) => LockKeeps(s, a);
    case Unlock(_) => LockKeeps(s, a);
    case WriteNext(p) => WriteNextKeeps(s, p);
    case WriteHead(p) => WriteHeadKeeps(s, p);
    case CompareHead => CompareHeadKeeps(s);
    case CompareNext => CompareNextKeeps(s);
    case ClearNext => ClearNextKeeps(s);
    case _ => ReadingKeeps(s, a);
  }

  // ---------------------------------------------------------------- whole runs

  ghost predicate Step(s: State, t: State) {
    exists a :: Enabled(s, a) && t == Apply(s, a)
  }

  ghost predicate IsRun(run: seq<State>) {
    run != [] && Init(run[0]) && forall i :: 0 <= i < |run| - 1 ==> Step(run[i], run[i + 1])
  }

  lemma {:induction false} RunKeeps(run: seq<State>, i: nat)
    requires IsRun(run) && i < |run|
    ensures Inv(run[i])
  {
    if i > 0 {
      RunKeeps(run, i - 1);
      assert Step(run[i - 1], run[i - 1 + 1]);
      var a :| Enabled(run[i - 1], a) && run[i] == Apply(run[i - 1], a);
      StepKeeps(run[i - 1], a);
    }
  }

  /** Nothing that has been added or handled is ever taken back. */
  lemma {:induction false} HistoryGrows(run: seq<State>, i: nat, j: nat)
    requires IsRun(run) && i <= j < |run|
    ensures run[i].added <= run[j].added && run[i].handled <= run[j].handled
  {
    if i < j {
      HistoryGrows(run, i, j - 1);
      assert Step(run[j - 1], run[j - 1 + 1]);
    }
  }

  /**
   * At every point of every run: nobody is in the critical section together with another, the messages
   * handled are the first ones added, each time they were added once and in that order, and the message about
   * to be handled or being removed is the oldest in the queue.
   */
  lemma QueueIsFifo(run: seq<State>, i: nat)
    requires IsRun(run) && i < |run|
    ensures
      var s := run[i];
      && Excluded(s) && Distinct(s) && s.handled <= s.added
      && (s.consumer.Holding? ==> |s.handled| < |s.added| && s.consumer.m == s.added[|s.handled|])
      && (s.consumer.Handled? || s.consumer.RemoveLocked? || s.consumer.RemoveAfter? ==>
            s.removed < |s.added| && s.consumer.m == s.added[s.removed] && |s.handled| == s.removed + 1)
      && (s.consumer == PeekDone(None) ==> s.handled == s.added)
  {
    RunKeeps(run, i);
    var s := run[i];
    assert s.added[..|s.added|] == s.added;
  }

  // ---------------------------------------------------------------- everything added can be handled

  /** The consumer rests, nobody is inside, and nothing is left in the queue. */
  predicate Drained(s: State) {
    s.consumer == Resting && s.mutex == Nobody && s.removed == |s.added|
  }

  /** A step towards that: first the producer inside the mutex, if there is one, then the consumer. */
  function Helpful(s: State): Action
    requires Excluded(s)
  {
    if s.mutex.ProducerHolds? then
      match s.producers[s.mutex.p]
      case Locked(_) => WriteNext(s.mutex.p)
      case Linked(_) => WriteHead(s.mutex.p)
      case _ => Unlock(s.mutex.p)
    else
      match s.consumer
      case Resting => LockToPeek
      case PeekLocked => ReadHead
      case PeekAt(_) => ReadNext
      case PeekDone(_) => UnlockPeek
      case Holding(_) => Handle
      case Handled(_) => LockToRemove
      case RemoveLocked(_) => CompareHead
      case RemoveAfter(_, _) => CompareNext
      case Unlinked(_) => ClearNext
      case Cleared => UnlockRemove
  }

  /** Steps until the producer inside has left. */
  function ProducerLeft(s: State): nat
    requires Excluded(s)
  {
    if !s.mutex.ProducerHolds? then 0
    else match s.producers[s.mutex.p]
      case Locked(_) => 3
      case Linked(_) => 2
      case _ => 1
  }

  /** How far the consumer is from the end of its round, which begins anew while something is in the queue. */
  function StageLeft(s: State): nat {
    match s.consumer
    case Unlinked(_) => 10
    case Cleared => 9
    case Resting => if s.removed < |s.added| then 8 else 0
    case PeekLocked => 7
    case PeekAt(_) => 6
    case PeekDone(_) => 5
    case Holding(_) => 4
    case Handled(_) => 3
    case RemoveLocked(_) => 2
    case RemoveAfter(_, _) => 1
  }

  /** How many messages are older than the one the consumer looks at. */
  ghost function WalkLeft(s: State): nat {
    match s.consumer
    case PeekAt(m) => PlaceOf(s, m)
    case RemoveAfter(_, item) => PlaceOf(s, item)
    case _ => 0
  }

  ghost function PlaceOf(s: State, m: Msg): nat {
    if InQueue(s, m) then var k: nat :| s.removed <= k < |s.added| && s.added[k] == m; k else 0
  }

  lemma PlaceIs(s: State, k: nat)
    requires Distinct(s) && s.removed <= k < |s.added|
    ensures InQueue(s, s.added[k]) && PlaceOf(s, s.added[k]) == k
  {
    assert InQueue(s, s.added[k]);
  }

  ghost predicate Nearer(t: State, s: State)
    requires Excluded(s) && Excluded(t) && s.removed <= |s.added| && t.removed <= |t.added|
  {
    var (a, b) := (|t.added| - t.removed, |s.added| - s.removed);
    || ProducerLeft(t) < ProducerLeft(s)
    || (ProducerLeft(t) == ProducerLeft(s) && (a < b || (a == b && (StageLeft(t) < StageLeft(s)
        || (StageLeft(t) == StageLeft(s) && WalkLeft(t) < WalkLeft(s))))))
  }

  lemma HelpfulHelps(s: State)
    requires Inv(s) && !Drained(s)
    ensures Enabled(s, Helpful(s)) && !Helpful(s).Lock?
    ensures var t := Apply(s, Helpful(s)); Inv(t) && s.added <= t.added && Nearer(t, s)
  {
    HelpfulEnabled(s);
    StepKeeps(s, Helpful(s));
    if s.mutex.ProducerHolds? {
      ProducerNearer(s);
    } else {
      ConsumerNearer(s);
    }
  }

  lemma ProducerNearer(s: State)
    requires Inv(s) && s.mutex.ProducerHolds? && Enabled(s, Helpful(s)) && Inv(Apply(s, Helpful(s)))
    ensures s.added <= Apply(s, Helpful(s)).added && ProducerLeft(Apply(s, Helpful(s))) < ProducerLeft(s)
  {
  }

  lemma ConsumerNearer(s: State)
    requires Inv(s) && !Drained(s) && !s.mutex.ProducerHolds? && Enabled(s, Helpful(s)) && Inv(Apply(s, Helpful(s)))
    ensures s.added <= Apply(s, Helpful(s)).added && Nearer(Apply(s, Helpful(s)), s)
  {
    match s.consumer
    case PeekAt(_) => ReadNextNearer(s);
    case RemoveAfter(_, _) => CompareNextNearer(s);
    case _ =>
  }

  lemma HelpfulEnabled(s: State)
    requires Inv(s) && !Drained(s)
    ensures Enabled(s, Helpful(s)) && !Helpful(s).Lock?
  {
  }

  lemma ReadNextNearer(s: State)
    requires Inv(s) && Enabled(s, ReadNext)
    ensures var t := Apply(s, ReadNext); t.consumer.PeekDone? || WalkLeft(t) < WalkLeft(s)
  {
    var k: nat :| s.removed <= k < |s.added| && s.added[k] == s.consumer.m;
    assert NextOf(s, s.added[k]) == Older(s, k);
    PlaceIs(s, k);
    if k > s.removed {
      PlaceIs(Apply(s, ReadNext), k - 1);
    }
  }

  lemma CompareNextNearer(s: State)
    requires Inv(s) && Enabled(s, CompareNext)
    ensures var t := Apply(s, CompareNext); t.removed == s.removed + 1 || (t.consumer.RemoveAfter? && WalkLeft(t) < WalkLeft(s))
  {
    var k: nat :| s.removed <= k < |s.added| && s.added[k] == s.consumer.item;
    assert NextOf(s, s.added[k]) == Older(s, k);
    PlaceIs(s, k);
    assert k > s.removed;
    if s.added[k - 1] != s.consumer.m {
      PlaceIs(Apply(s, CompareNext), k - 1);
    }
  }

  predicate Leads(s: State, path: seq<Action>, t: State)
    decreases |path|
  {
    if path == [] then s == t else Enabled(s, path[0]) && Leads(Apply(s, path[0]), path[1..], t)
  }

  predicate NoNewLock(path: seq<Action>) {
    forall i :: 0 <= i < |path| ==> !path[i].Lock?
  }

  lemma {:induction false} CanDrain(s: State) returns (path: seq<Action>, t: State)
    requires Inv(s)
    ensures Leads(s, path, t) && NoNewLock(path) && Inv(t) && Drained(t) && s.added <= t.added
    decreases ProducerLeft(s), |s.added| - s.removed, StageLeft(s), WalkLeft(s)
  {
    if Drained(s) {
      path, t := [], s;
    } else {
      HelpfulHelps(s);
      var rest;
      rest, t := CanDrain(Apply(s, Helpful(s)));
      path := [Helpful(s)] + rest;
      assert path[1..] == rest;
    }
  }

  /** A producer that finds the mutex free can add any message that is not in the queue. */
  lemma CanAdd(s: State, p: nat, msg: Msg) returns (t: State)
    requires Inv(s) && s.mutex == Nobody && p < |s.producers| && !InQueue(s, msg)
    ensures Leads(s, [Lock(p, msg), WriteNext(p), WriteHead(p), Unlock(p)], t)
    ensures Inv(t) && t.added == s.added + [msg] && t.handled == s.handled && t.removed == s.removed
    ensures t.head == Some(msg) && NextOf(t, msg) == s.head
    ensures t.mutex == Nobody && t.producers == s.producers && t.consumer == s.consumer
  {
    var s1 := Apply(s, Lock(p, msg));
    var s2 := Apply(s1, WriteNext(p));
    var s3 := Apply(s2, WriteHead(p));
    t := Apply(s3, Unlock(p));
    StepKeeps(s, Lock(p, msg));
    StepKeeps(s1, WriteNext(p));
    StepKeeps(s2, WriteHead(p));
    StepKeeps(s3, Unlock(p));
    assert Leads(s3, [Unlock(p)], t);
    assert Leads(s2, [WriteHead(p), Unlock(p)], t);
    assert Leads(s1, [WriteNext(p), WriteHead(p), Unlock(p)], t);
  }

  /**
   * Nothing is forgotten: from every point of every run, and without any new message, the producer inside and
   * the consumer can go on until every message added has been handled and removed and the consumer rests.
   */
  lemma EverythingCanBeHandled(run: seq<State>, i: nat) returns (path: seq<Action>, t: State)
    requires IsRun(run) && i < |run|
    ensures Leads(run[i], path, t) && NoNewLock(path)
    ensures t.consumer == Resting && t.handled == t.added && t.removed == |t.added| && run[i].added <= t.added
  {
    RunKeeps(run, i);
    path, t := CanDrain(run[i]);
    assert t.added[..|t.added|] == t.added;
  }
}
