/**
 * The request and reply of src/msgs.c:154-188 as src/msg_rules_mqtt.c:29-54 uses it, between one
 * requester and one responder (the loop at src/thread_mqtt.c:1298-1302), under any interleaving and
 * with spurious wake-ups.
 */
module GapProtocol {
  import opened Wrappers

  /** A list that a request hands over for answers. */
  type List = nat

  datatype Requester =
    | Working                    // its lists are its own
    | Stored(list: List)         // gap.msg is written
    | Entered(list: List)        // and the mutex taken
    | Checking(list: List)       // at the loop condition, with the mutex
    | Waiting(list: List)        // in pthread_cond_wait, without the mutex
    | Woken(list: List)          // signalled or spuriously awake, waiting for the mutex
    | Leaving(list: List)        // out of the loop, with the mutex
    | Resumed(list: List)        // returned
  {
    /** Inside msggap_request after request was set, and not yet out of the loop. */
    predicate Blocked() {
      Checking? || Waiting? || Woken?
    }

    predicate HasMutex() {
      Entered? || Checking? || Leaving?
    }
  }

  datatype Responder =
    | Looping
    | Reading                    // in msggap_get_request, with the mutex
    | Read(request: bool)        // request read, still with the mutex
    | Got(request: bool)         // without the mutex
    | Using(list: List)          // answering into the list
    | Answered
    | Replying                   // in msggap_reply, with the mutex
    | Cleared                    // request is 0, not signalled yet
    | Signalled
  {
    predicate HasMutex() {
      Reading? || Read? || Replying? || Cleared? || Signalled?
    }

    /** Between having seen the request and clearing it. */
    predicate Serving() {
      (Read? && request) || (Got? && request) || Using? || Answered? || Replying?
    }
  }

  datatype Holder = Nobody | RequesterHolds | ResponderHolds

  /** `requests` and `replies` count what has happened. */
  datatype State = State(msg: Option<List>, request: bool, mutex: Holder,
                         requester: Requester, responder: Responder, requests: nat, replies: nat)

  datatype Action =
    | Store(list: List) | Enter | Ask | Check | WakeUp | Reenter | Leave | Finish | DropMsg
    | LockToRead | ReadRequest | UnlockRead | Take | Answer | LockToReply | Clear | Signal | UnlockReply

  predicate Init(s: State) {
    s == State(None, false, Nobody, Working, Looping, 0, 0)
  }

  predicate Enabled(s: State, a: Action) {
    match a
    case Store(_) => s.requester.Working?
    case Enter => s.requester.Stored? && s.mutex == Nobody
    case Ask => s.requester.Entered?
    case Check => s.requester.Checking?
    case WakeUp => s.requester.Waiting?
    case Reenter => s.requester.Woken? && s.mutex == Nobody
    case Leave => s.requester.Leaving?
    case Finish => s.requester.Resumed?
    case DropMsg => s.requester.Working?
    case LockToRead => s.responder.Looping? && s.mutex == Nobody
    case ReadRequest => s.responder.Reading?
    case UnlockRead => s.responder.Read?
    case Take => s.responder.Got?
    case Answer => s.responder.Using?
    case LockToReply => s.responder.Answered? && s.mutex == Nobody
    case Clear => s.responder.Replying?
    case Signal => s.responder.Cleared?
    case UnlockReply => s.responder.Signalled?
  }

  function Apply(s: State, a: Action): State
    requires Enabled(s, a)
  {
    match a
    case Store(list) => s.(msg := Some(list), requester := Stored(list))
    case Enter => s.(mutex := RequesterHolds, requester := Entered(s.requester.list))
    case Ask => s.(request := true, requests := s.requests + 1, requester := Checking(s.requester.list))
    case Check =>
      if s.request then s.(mutex := Nobody, requester := Waiting(s.requester.list))
      else s.(requester := Leaving(s.requester.list))
    case WakeUp => s.(requester := Woken(s.requester.list))
    case Reenter => s.(mutex := RequesterHolds, requester := Checking(s.requester.list))
    case Leave => s.(mutex := Nobody, requester := Resumed(s.requester.list))
    case Finish => s.(requester := Working)
    case DropMsg => s.(msg := None)
    case LockToRead => s.(mutex := ResponderHolds, responder := Reading)
    case ReadRequest => s.(responder := Read(s.request))
    case UnlockRead => s.(mutex := Nobody, responder := Got(s.responder.request))
    case Take =>
      // a request without a list reads as no request
      s.(responder := if s.responder.request && s.msg.Some? then Using(s.msg.value) else Looping)
    case Answer => s.(responder := Answered)
    case LockToReply => s.(mutex := ResponderHolds, responder := Replying)
    case Clear => s.(request := false, replies := s.replies + 1, responder := Cleared)
    case Signal =>
      // wakes the requester if it waits, and is lost otherwise
      s.(responder := Signalled, requester := if s.requester.Waiting? then Woken(s.requester.list) else s.requester)
    case UnlockReply => s.(mutex := Nobody, responder := Looping)
  }

  // ---------------------------------------------------------------- the invariant

  predicate Inv(s: State) {
    && (s.requester.HasMutex() <==> s.mutex == RequesterHolds)
    && (s.responder.HasMutex() <==> s.mutex == ResponderHolds)
    // the list stored is the one of the request under way
    && (s.requester.Stored? || s.requester.Entered? || s.requester.Blocked() ==> s.msg == Some(s.requester.list))
    // a request is pending only while its requester is blocked, and not answered twice
    && (s.request ==> s.requester.Blocked())
    && s.requests == s.replies + (if s.request then 1 else 0)
    // the responder serves only a pending request, and has the list of the requester
    && (s.responder.Serving() ==> s.request)
    && (s.responder.Using? ==> s.requester.Blocked() && s.responder.list == s.requester.list)
    && (s.responder.Cleared? || s.responder.Signalled? ==> !s.request)
    // no wake-up is lost
    && (s.requester.Waiting? && !s.request ==> s.responder.Cleared?)
  }

  lemma StepKeeps(s: State, a: Action)
    requires Inv(s) && Enabled(s, a)
    ensures Inv(Apply(s, a))
  {
  }

  // ---------------------------------------------------------------- whole runs

  /** States and the actions between them. */
  datatype Run = Run(states: seq<State>, actions: seq<Action>)

  predicate IsRun(r: Run) {
    && |r.states| == |r.actions| + 1 && Init(r.states[0])
    && forall i :: 0 <= i < |r.actions| ==> Enabled(r.states[i], r.actions[i]) && r.states[i + 1] == Apply(r.states[i], r.actions[i])
  }

  lemma {:induction false} RunKeeps(r: Run, i: nat)
    requires IsRun(r) && i < |r.states|
    ensures Inv(r.states[i])
  {
    if i > 0 {
      RunKeeps(r, i - 1);
      assert Enabled(r.states[i - 1], r.actions[i - 1]);
      StepKeeps(r.states[i - 1], r.actions[i - 1]);
    }
  }

  /**
   * At every point of every run: whatever list the responder has obtained is that of the requester, which
   * is blocked; no list is in both hands; at most one side is inside the mutex; and a waiting requester
   * whose request is already cleared is about to be signalled.
   */
  lemma GapIsSafe(r: Run, i: nat, list: List)
    requires IsRun(r) && i < |r.states|
    ensures
      var s := r.states[i];
      && (s.responder == Using(list) ==> s.request && s.requester in {Checking(list), Waiting(list), Woken(list)})
      && !(s.requester.HasMutex() && s.responder.HasMutex())
      && (s.requester.Waiting? && !s.request ==> s.responder.Cleared? && Enabled(s, Signal))
  {
    RunKeeps(r, i);
  }

  /** At step k the responder answers into the list. */
  predicate AnswersAt(r: Run, k: nat, list: List) {
    k < |r.actions| && k < |r.states| && r.actions[k] == Answer && r.states[k].responder == Using(list)
  }

  /**
   * Between asking and leaving the loop there is exactly one reply: whenever a requester asks at one
   * step and leaves its loop at a later one without having asked again, an answer was made in between,
   * into its list, and a reply behind it.
   */
  lemma ResumesOnlyAfterReply(r: Run, i: nat, j: nat)
    requires IsRun(r) && i < j < |r.actions|
    requires r.actions[i] == Ask && r.actions[j] == Leave
    requires forall k :: i < k < j ==> r.actions[k] != Ask
    ensures exists c :: i < c < j && r.actions[c] == Clear &&
                        exists k :: i < k < c && AnswersAt(r, k, r.states[i].requester.list)
    ensures r.states[j].replies == r.states[i].replies + 1
  {
    RunKeeps(r, i);
    RunKeeps(r, j);
    assert Enabled(r.states[i], r.actions[i]) && Enabled(r.states[j], r.actions[j]);
    CountsOverRun(r, i + 1, j);
    assert r.states[i + 1].requests == r.states[i].requests + 1;
    var c :| i < c < j && r.actions[c] == Clear;
    assert Enabled(r.states[c], r.actions[c]);
    AnsweredBefore(r, i, c);
  }

  /** Asking finds nobody answering; other steps keep the list, and only an answer into it makes the responder go on to reply. */
  ghost predicate IsAnswerStep(s: State, a: Action, t: State) {
    && (t.requester.Blocked() || t.requester.Leaving? ==> !s.requester.Working? && t.requester.list == s.requester.list)
    && (t.requester.Blocked() || t.requester.Leaving? ==> a == Ask || s.requester.Blocked() || s.requester.Leaving?)
    && (t.responder.Answered? || t.responder.Replying? ==>
          && a != Ask
          && (s.responder.Answered? || s.responder.Replying?
              || (a == Answer && s.requester.Blocked() && s.responder == Using(s.requester.list))))
  }

  lemma AnswerStepOf(r: Run, j: nat)
    requires IsRun(r) && j < |r.actions|
    ensures IsAnswerStep(r.states[j], r.actions[j], r.states[j + 1])
  {
    RunKeeps(r, j);
    assert Enabled(r.states[j], r.actions[j]) && r.states[j + 1] == Apply(r.states[j], r.actions[j]);
  }

  /** Behind a request the list in the requester's hands stays the same, and a reply has an answer before it. */
  lemma {:induction false} AnsweredBefore(r: Run, i: nat, j: nat)
    requires IsRun(r) && i < j < |r.actions| && r.actions[i] == Ask
    requires forall k :: i < k < j ==> r.actions[k] != Ask
    ensures
      var s, list := r.states[j], r.states[i].requester.list;
      && (s.requester.Blocked() || s.requester.Leaving? ==> s.requester.list == list)
      && (s.responder.Answered? || s.responder.Replying? ==> exists k :: i < k < j && AnswersAt(r, k, list))
  {
    AnswerStepOf(r, j - 1);
    if i + 1 < j {
      AnsweredBefore(r, i, j - 1);
      assert r.actions[j - 1] != Ask;
      assert r.actions[j - 1] == Answer && r.states[j - 1].responder == Using(r.states[i].requester.list) ==>
          AnswersAt(r, j - 1, r.states[i].requester.list);
    }
  }

  /** Over a stretch without a new request, the replies only grow by Clear steps. */
  lemma {:induction false} CountsOverRun(r: Run, i: nat, j: nat)
    requires IsRun(r) && i <= j < |r.states|
    requires forall k :: i <= k < j ==> r.actions[k] != Ask
    ensures r.states[j].requests == r.states[i].requests
    ensures r.states[j].replies > r.states[i].replies ==> exists k :: i <= k < j && r.actions[k] == Clear
  {
    if i < j {
      CountsOverRun(r, i, j - 1);
      assert Enabled(r.states[j - 1], r.actions[j - 1]) && r.states[j] == Apply(r.states[j - 1], r.actions[j - 1]);
      if r.actions[j - 1] == Clear {
        assert r.actions[j - 1] == Clear && i <= j - 1 < j;
      }
    }
  }

  // ---------------------------------------------------------------- a request can always be completed

  /** Steps until the responder lets go of the mutex. */
  function MutexLeft(x: Responder): nat {
    match x
    case Replying => 3
    case Reading => 2
    case Cleared => 2
    case Read(_) => 1
    case Signalled => 1
    case _ => 0
  }

  /** Steps until the responder has cleared a request that is pending. */
  function ServeLeft(x: Responder): nat {
    match x
    case Replying => 1
    case Answered => 2
    case Using(_) => 3
    case Got(request) => if request then 4 else 9
    case Read(request) => if request then 5 else 10
    case Reading => 6
    case Looping => 7
    case _ => 11
  }

  /** Steps until a request under way is completed, if the right ones are taken. */
  function Left(s: State): nat {
    match s.requester
    case Stored(_) => 40 + MutexLeft(s.responder)
    case Entered(_) => 39
    case Checking(_) => if s.request then 38 else 2
    case Waiting(_) => if s.request then 10 + ServeLeft(s.responder) else 6
    case Woken(_) => if s.request then 10 + ServeLeft(s.responder) else 3 + MutexLeft(s.responder)
    case Leaving(_) => 1
    case _ => 0
  }

  predicate InRequest(x: Requester) {
    !x.Working? && !x.Resumed?
  }

  /** A step towards completion, never a spurious wake-up. */
  function Helpful(s: State): Action {
    match s.requester
    case Stored(_) => if s.mutex == Nobody then Enter else ResponderStep(s.responder)
    case Entered(_) => Ask
    case Checking(_) => Check
    case Waiting(_) => ResponderStep(s.responder)
    case Woken(_) => if !s.request && s.mutex == Nobody then Reenter else ResponderStep(s.responder)
    case _ => Leave
  }

  function ResponderStep(x: Responder): Action {
    match x
    case Looping => LockToRead
    case Reading => ReadRequest
    case Read(_) => UnlockRead
    case Got(_) => Take
    case Using(_) => Answer
    case Answered => LockToReply
    case Replying => Clear
    case Cleared => Signal
    case Signalled => UnlockReply
  }

  lemma HelpfulHelps(s: State)
    requires Inv(s) && InRequest(s.requester)
    ensures Enabled(s, Helpful(s)) && Helpful(s) != WakeUp
    ensures
      var t := Apply(s, Helpful(s));
      && Inv(t) && Left(t) < Left(s)
      && (InRequest(t.requester) || t.requester.Resumed?) && t.requester.list == s.requester.list
  {
    StepKeeps(s, Helpful(s));
  }

  predicate Leads(s: State, path: seq<Action>, t: State)
    decreases |path|
  {
    if path == [] then s == t else Enabled(s, path[0]) && Leads(Apply(s, path[0]), path[1..], t)
  }

  /** A requester that works can have any list answered. */
  lemma CanRequest(s: State, list: List) returns (path: seq<Action>, t: State)
    requires Inv(s) && s.requester.Working?
    ensures Leads(s, [Store(list)] + path, t) && t.requester == Resumed(list) && WakeUp !in path
  {
    StepKeeps(s, Store(list));
    path, t := CanResume(Apply(s, Store(list)));
    assert ([Store(list)] + path)[1..] == path;
  }

  /** No deadlock: from every point of every run the request under way can still be brought to its end. */
  lemma {:induction false} CanResume(s: State) returns (path: seq<Action>, t: State)
    requires Inv(s) && InRequest(s.requester)
    ensures Leads(s, path, t) && t.requester == Resumed(s.requester.list) && WakeUp !in path
    decreases Left(s)
  {
    HelpfulHelps(s);
    var a := Helpful(s);
    var next := Apply(s, a);
    if InRequest(next.requester) {
      var rest;
      rest, t := CanResume(next);
      path := [a] + rest;
      assert path[1..] == rest;
    } else {
      path, t := [a], next;
      assert Leads(next, path[1..], next);
    }
  }
}
