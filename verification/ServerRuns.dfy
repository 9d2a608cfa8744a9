/** Whole runs of the server: ownership of instances is handed over safely, a waiting call never finds
    the server stuck, and every maximal run answers every call once, in a number of steps that no
    scheduling can change. */
module ServerRuns {
  import opened Bytes
  import opened Message
  import opened GreeterServer
  import opened ServerInvariant

  ghost predicate NextAt(run: seq<State>, i: nat)
    requires i + 1 < |run|
  {
    Next(run[i], run[i + 1])
  }

  ghost predicate StepAt(run: seq<State>, i: nat)
    requires i + 1 < |run|
  {
    Step(run[i], run[i + 1])
  }

  /** A run with new calls arriving at any time. */
  ghost predicate Run(run: seq<State>) {
    && run != []
    && Init(run[0])
    && forall i: nat :: i + 1 < |run| ==> NextAt(run, i)
  }

  /** A run over the calls that were waiting at its start. */
  ghost predicate ClosedRun(run: seq<State>) {
    && run != []
    && Init(run[0])
    && forall i: nat :: i + 1 < |run| ==> StepAt(run, i)
  }

  /** From state `m` of the run on, no new call is made. */
  ghost predicate QuietFrom(run: seq<State>, m: nat) {
    forall i: nat :: m <= i && i + 1 < |run| ==> StepAt(run, i)
  }

  lemma {:induction false} RunInv(run: seq<State>, i: nat)
    requires Run(run) && i < |run|
    ensures Inv(run[i])
  {
    if i == 0 {
      InitInv(run[0]);
    } else {
      RunInv(run, i - 1);
      assert NextAt(run, i - 1);
      NextInv(run[i - 1], run[i]);
    }
  }

  // ----- Hand-off -----

  predicate InProceed(pc: Pc) {
    !pc.Boot? && !pc.Idle?
  }

  /** Whether the thread is executing `Proceed` of `a`, or a constructor that it called. */
  predicate IsInside(pc: Pc, a: Address) {
    (InProceed(pc) && pc.self == a) || WaitsFor(pc, a)
  }

  /** In every state of every run, a thread inside the `Proceed` of an instance is the only one there,
      the instance is live, and its tag has not been published: it is not registered, not in the queue
      and not in a pending finish. So nothing is touched after it was published or deleted. */
  lemma HandOff(run: seq<State>, i: nat, t: nat, a: Address)
    requires Run(run) && i < |run| && t < |run[i].threads| && IsInside(run[i].threads[t], a)
    ensures var s := run[i];
            && a in s.live
            && Tags(s, a) == 0
            && (forall u: nat :: u < |s.threads| && u != t ==> !IsInside(s.threads[u], a))
    ensures run[i].threads[t].Check? ==> run[i].live[a].status == FINISH
  {
    RunInv(run, i);
    var s := run[i];
    Alone(s, t, a);
    assert ThreadOk(s, s.threads[t]);
    forall u: nat | u < |s.threads| && u != t
      ensures !IsInside(s.threads[u], a)
    {
      assert Weigh(Inside(a), s.threads[u]) == 0;
    }
  }

  /** A tag the runtime holds is held once, names a live instance and leaves it to the runtime alone;
      an address that is not live has no tag and nobody inside. So no event names a deleted instance,
      none is deleted twice, and a request is filled in while no thread looks at it. */
  lemma TagsAreLive(run: seq<State>, i: nat, a: Address)
    requires Run(run) && i < |run|
    ensures var s := run[i];
            && Tags(s, a) <= 1
            && (Tags(s, a) == 1 ==> a in s.live)
            && (Tags(s, a) == 1 || a !in s.live ==> forall t: nat :: t < |s.threads| ==> !IsInside(s.threads[t], a))
  {
    RunInv(run, i);
    var s := run[i];
    assert Tokens(s, a) == IsLive(s, a);
    if Tags(s, a) == 1 || a !in s.live {
      forall t: nat | t < |s.threads|
        ensures !IsInside(s.threads[t], a)
      {
        TotalCovers(Inside(a), s.threads, t, t);
      }
    }
  }

  lemma {:induction false} NobodyInside(threads: seq<Pc>, a: Address)
    requires forall t :: 0 <= t < |threads| ==> !IsInside(threads[t], a)
    ensures Total(Inside(a), threads) == 0
  {
    if threads != [] {
      assert Weigh(Inside(a), threads[0]) == 0;
      NobodyInside(threads[1..], a);
    }
  }

  /** A live instance that no thread is inside has exactly one operation outstanding, of the kind its
      status tells: a request or its event while it processes, a finish or its event after. */
  lemma OneOperation(run: seq<State>, i: nat, a: Address)
    requires Run(run) && i < |run| && a in run[i].live
    requires forall t :: 0 <= t < |run[i].threads| ==> !IsInside(run[i].threads[t], a)
    ensures var s := run[i];
            match s.live[a].status
            case CREATE => false
            case PROCESS => s.registered[a] + s.arrived[a] == 1 && s.finishing[a] == s.finished[a] == 0
            case FINISH => s.registered[a] == s.arrived[a] == 0 && s.finishing[a] + s.finished[a] == 1
  {
    RunInv(run, i);
    NobodyInside(run[i].threads, a);
    assert Tokens(run[i], a) == IsLive(run[i], a);
    assert TagOk(run[i], a);
  }

  /** In every state of every run, new calls included, a call has got no reply or exactly the one that
      greets its own request. */
  lemma RepliesAreRight(run: seq<State>, i: nat, id: CallId)
    requires Run(run) && i < |run| && id in run[i].calls
    ensures var call := run[i].calls[id];
            || call.replies == []
            || call.replies == [Message([0x48, 0x65, 0x6C, 0x6C, 0x6F, 0x20] + call.request.text, [])]
    ensures run[i].calls[id].server == None ==> run[i].calls[id].replies == []
  {
    RunInv(run, i);
    assert CallOk(run[i], id);
  }

  // ----- Progress -----

  function Waiting(s: State): (ids: set<CallId>) {
    set id | id in s.calls && s.calls[id].server == None
  }

  function Queued(s: State): (n: nat) {
    14 * |s.arrived| + 5 * |s.finishing| + 4 * |s.finished|
  }

  /** Steps that remain: 15 for a waiting call, 14 for an arrival event, 5 for a pending finish, 4 for
      a finish event, and what each thread is in the middle of. */
  function StepsLeft(s: State): (n: nat) {
    15 * |Waiting(s)| + Queued(s) + Total(Work, s.threads)
  }

  lemma EffectQueued(s: State, pc: Pc, c: Choice)
    requires Enabled(s, pc, c)
    ensures Queued(Effect(s, pc, c))
         == Queued(s) + if pc.Finish? then 5 else if !pc.Idle? then 0 else if c.arrival then -14 else -4
  {
  }

  /** A thread's own work drops by one, or is exchanged with that of the events it takes or causes. */
  lemma RemainingAfter(s: State, pc: Pc, c: Choice)
    requires Enabled(s, pc, c) && ThreadOk(s, pc)
    ensures Remaining(NextPc(s, pc, c)) + 1
         == Remaining(pc) - if pc.Finish? then 5 else if !pc.Idle? then 0 else if c.arrival then -14 else -4
  {
  }

  /** A statement makes no call, drops none, changes no request and binds no call. */
  lemma EffectCalls(s: State, pc: Pc, c: Choice)
    requires Enabled(s, pc, c)
    ensures var s' := Effect(s, pc, c);
            && s'.calls.Keys == s.calls.Keys
            && forall id :: id in s.calls ==>
                 s'.calls[id].request == s.calls[id].request && s'.calls[id].server == s.calls[id].server
  {
  }

  lemma ThreadStepCounts(s: State, t: nat, c: Choice)
    requires t < |s.threads| && Enabled(s, s.threads[t], c) && ThreadOk(s, s.threads[t])
    ensures StepsLeft(Execute(s, t, c)) == StepsLeft(s) - 1
  {
    EffectQueued(s, s.threads[t], c);
    RemainingAfter(s, s.threads[t], c);
    EffectCalls(s, s.threads[t], c);
    TotalUpdate(Work, s.threads, t, NextPc(s, s.threads[t], c));
    assert Waiting(Execute(s, t, c)) == Waiting(s);
  }

  lemma ArriveStepCounts(s: State, a: Address, id: CallId, s': State)
    requires ArriveStep(s, a, id, s')
    ensures StepsLeft(s') == StepsLeft(s) - 1
  {
    assert Waiting(s') == Waiting(s) - {id} && id in Waiting(s);
  }

  lemma CompleteStepCounts(s: State, a: Address, s': State)
    requires CompleteStep(s, a, s')
    ensures StepsLeft(s') == StepsLeft(s) - 1
  {
    assert Waiting(s') == Waiting(s);
  }

  /** Every step of the server takes exactly one off what remains. */
  lemma StepCounts(s: State, s': State)
    requires Inv(s) && Step(s, s')
    ensures StepsLeft(s') == StepsLeft(s) - 1
  {
    if t: nat, c :| ThreadStep(s, t, c, s') {
      assert ThreadOk(s, s.threads[t]);
      ThreadStepCounts(s, t, c);
    } else if a, id :| ArriveStep(s, a, id, s') {
      ArriveStepCounts(s, a, id, s');
    } else {
      var a :| CompleteStep(s, a, s');
      CompleteStepCounts(s, a, s');
    }
  }

  lemma {:induction false} Bound(xs: set<Address>) returns (b: nat)
    ensures forall x :: x in xs ==> x < b
  {
    if xs == {} {
      b := 0;
    } else {
      var x :| x in xs;
      var rest := Bound(xs - {x});
      b := if x < rest then rest else x + 1;
      assert forall y :: y in xs ==> y == x || y in xs - {x};
    }
  }

  /** No statement of `Proceed` or `HandleRpcs` is ever stuck, except waiting for an event. */
  lemma ThreadEnabled(s: State, t: nat) returns (c: Choice)
    requires Inv(s) && t < |s.threads| && !s.threads[t].Idle?
    ensures Enabled(s, s.threads[t], c)
  {
    assert ThreadOk(s, s.threads[t]);
    var unused := Bound(s.live.Keys);
    assert unused !in s.live;
    c := Choice(unused, true);
  }

  lemma {:induction false} AllIdle(threads: seq<Pc>)
    requires forall t :: 0 <= t < |threads| ==> threads[t] == Idle
    ensures Total(Work, threads) == 0 && Total(Capacity, threads) == |threads|
    ensures forall a :: Total(Inside(a), threads) == 0
  {
    if threads != [] {
      AllIdle(threads[1..]);
    }
  }

  /** Idle threads with nothing in the queue leave one registered instance for each of them. */
  lemma RegisteredWhenIdle(s: State)
    requires Inv(s) && forall t :: 0 <= t < |s.threads| ==> s.threads[t] == Idle
    requires s.arrived == s.finishing == s.finished == multiset{}
    ensures forall a :: a in s.live ==> a in s.registered && s.live[a].call == None
    ensures |s.live| == |s.threads|
  {
    AllIdle(s.threads);
    forall a | a in s.live
      ensures a in s.registered && Listening(s, a)
    {
      assert Tokens(s, a) == IsLive(s, a);
      assert TagOk(s, a);
    }
    assert Processing(s) == s.live.Keys;
  }

  /** With at least one handler loop, some step is enabled as long as any work remains. */
  lemma Progress(s: State) returns (s': State)
    requires Inv(s) && s.threads != [] && StepsLeft(s) > 0
    ensures Step(s, s')
  {
    if t: nat :| t < |s.threads| && !s.threads[t].Idle? {
      var c := ThreadEnabled(s, t);
      s' := Execute(s, t, c);
      assert ThreadStep(s, t, c, s');
    } else if a :| a in s.arrived {
      var c := Choice(a, true);
      s' := Execute(s, 0, c);
      assert ThreadStep(s, 0, c, s');
    } else if a :| a in s.finished {
      var c := Choice(a, false);
      s' := Execute(s, 0, c);
      assert ThreadStep(s, 0, c, s');
    } else if a :| a in s.finishing {
      s' := s.(finishing := s.finishing - multiset{a}, finished := s.finished + multiset{a});
      assert CompleteStep(s, a, s');
    } else {
      AllIdle(s.threads);
      RegisteredWhenIdle(s);
      var id :| id in Waiting(s);
      assert s.live.Keys != {};
      var a :| a in s.live;
      s' := s.(live := s.live[a := s.live[a].(request := s.calls[id].request, call := Some(id))],
               registered := s.registered - multiset{a},
               arrived := s.arrived + multiset{a},
               calls := s.calls[id := s.calls[id].(server := Some(a))]);
      assert ArriveStep(s, a, id, s');
    }
  }

  // ----- Every maximal run -----

  ghost predicate SameCalls(s: State, s': State) {
    && s'.calls.Keys == s.calls.Keys && |s'.threads| == |s.threads|
    && forall id :: id in s.calls ==> s'.calls[id].request == s.calls[id].request
  }

  lemma ThreadStepKeepsCalls(s: State, t: nat, c: Choice)
    requires t < |s.threads| && Enabled(s, s.threads[t], c)
    ensures SameCalls(s, Execute(s, t, c))
  {
    EffectCalls(s, s.threads[t], c);
  }

  lemma ArriveStepKeepsCalls(s: State, a: Address, id: CallId, s': State)
    requires ArriveStep(s, a, id, s')
    ensures SameCalls(s, s')
  {
  }

  lemma StepKeepsCalls(s: State, s': State)
    requires Step(s, s')
    ensures SameCalls(s, s')
  {
    if t: nat, c :| ThreadStep(s, t, c, s') {
      ThreadStepKeepsCalls(s, t, c);
    } else if a, id :| ArriveStep(s, a, id, s') {
      ArriveStepKeepsCalls(s, a, id, s');
    } else {
      var a :| CompleteStep(s, a, s');
    }
  }

  /** New calls may come, but none is dropped or changes its request, and no loop ends. */
  ghost predicate KeepsCalls(s: State, s': State) {
    && |s'.threads| == |s.threads|
    && forall id :: id in s.calls ==> id in s'.calls && s'.calls[id].request == s.calls[id].request
  }

  lemma NextKeepsCalls(s: State, s': State)
    requires Next(s, s')
    ensures KeepsCalls(s, s')
  {
    if id, request :| CallStep(s, id, request, s') {
    } else {
      StepKeepsCalls(s, s');
    }
  }

  lemma RunKeepsNext(run: seq<State>, i: nat)
    requires Run(run) && i + 1 < |run|
    ensures KeepsCalls(run[i], run[i + 1])
  {
    assert NextAt(run, i);
    NextKeepsCalls(run[i], run[i + 1]);
  }

  lemma {:induction false} RunKeepsCalls(run: seq<State>, k: nat, i: nat)
    requires Run(run) && k <= i < |run|
    ensures KeepsCalls(run[k], run[i])
  {
    if k < i {
      RunKeepsCalls(run, k, i - 1);
      RunKeepsNext(run, i - 1);
    }
  }

  lemma {:induction false} QuietCounts(run: seq<State>, m: nat, i: nat)
    requires Run(run) && QuietFrom(run, m) && m <= i < |run|
    ensures i - m + StepsLeft(run[i]) == StepsLeft(run[m])
  {
    if m < i {
      QuietCounts(run, m, i - 1);
      RunInv(run, i - 1);
      assert StepAt(run, i - 1);
      StepCounts(run[i - 1], run[i]);
    }
  }

  lemma {:induction false} QuietCalls(run: seq<State>, m: nat, i: nat)
    requires QuietFrom(run, m) && m <= i < |run|
    ensures run[i].calls.Keys == run[m].calls.Keys
  {
    if m < i {
      QuietCalls(run, m, i - 1);
      assert StepAt(run, i - 1);
      StepKeepsCalls(run[i - 1], run[i]);
    }
  }

  lemma ClosedIsQuiet(run: seq<State>)
    requires ClosedRun(run)
    ensures Run(run) && QuietFrom(run, 0)
    ensures StepsLeft(run[0]) == 4 * |run[0].threads| + 15 * |run[0].calls|
  {
    assert forall i: nat :: i + 1 < |run| && StepAt(run, i) ==> NextAt(run, i);
    TotalBoot(Work, run[0].threads);
    assert Waiting(run[0]) == run[0].calls.Keys;
  }

  ghost predicate Stuck(s: State) {
    !exists s' :: Step(s, s')
  }

  /** With nothing left to do, every call has got exactly its one reply, and one instance for each
      handler loop is left, listening. */
  lemma AtRest(s: State)
    requires Inv(s) && StepsLeft(s) == 0
    ensures forall id :: id in s.calls ==> s.calls[id].replies == [Answer(s.calls[id].request)]
    ensures |s.live| == |s.threads|
    ensures forall a :: a in s.live ==> Listening(s, a) && s.registered[a] == 1
  {
    assert s.arrived == s.finishing == s.finished == multiset{};
    forall t: nat | t < |s.threads|
      ensures s.threads[t] == Idle
    {
      TotalCovers(Work, s.threads, t, t);
    }
    RegisteredWhenIdle(s);
    forall id | id in s.calls
      ensures s.calls[id].replies == [Answer(s.calls[id].request)]
    {
      assert CallOk(s, id);
      assert id !in Waiting(s);
    }
    forall a | a in s.live
      ensures Listening(s, a) && s.registered[a] == 1
    {
      assert Tokens(s, a) == IsLive(s, a);
      assert TagOk(s, a);
    }
  }

  ghost predicate CanGoOn(s: State, pc: Pc) {
    exists c :: Enabled(s, pc, c)
  }

  /** In every state of every run, no thread but one waiting for an event is blocked, and with a handler
      loop the server is stuck only when nothing remains to be done. */
  lemma NeverBlocked(run: seq<State>, i: nat)
    requires Run(run) && i < |run|
    ensures forall t: nat :: t < |run[i].threads| && !run[i].threads[t].Idle? ==> CanGoOn(run[i], run[i].threads[t])
    ensures run[0].threads != [] ==> (Stuck(run[i]) <==> StepsLeft(run[i]) == 0)
  {
    RunInv(run, i);
    RunKeepsCalls(run, 0, i);
    var s := run[i];
    forall t: nat | t < |s.threads| && !s.threads[t].Idle?
      ensures CanGoOn(s, s.threads[t])
    {
      var c := ThreadEnabled(s, t);
    }
    if run[0].threads != [] && StepsLeft(s) > 0 {
      var s' := Progress(s);
    }
    if !Stuck(s) {
      var s' :| Step(s, s');
      StepCounts(s, s');
    }
  }

  /** Scheduling independence. Wherever a run with calls arriving at any time has got, once no more
      arrive it can go on for exactly as many steps as remain, whatever is scheduled, and when it cannot
      go on each call ever made has exactly one reply, the greeting of its request as it was made, and
      exactly one instance a loop is left, listening. */
  lemma EveryContinuation(run: seq<State>, m: nat)
    requires Run(run) && m < |run| && QuietFrom(run, m) && run[0].threads != []
    ensures |run| - 1 - m <= StepsLeft(run[m])
    ensures Stuck(run[|run| - 1]) <==> |run| - 1 - m == StepsLeft(run[m])
    ensures Stuck(run[|run| - 1]) ==>
              var s := run[|run| - 1];
              && s.calls.Keys == run[m].calls.Keys
              && (forall id :: id in s.calls ==> s.calls[id].replies == [Answer(run[m].calls[id].request)])
              && |s.live| == |run[0].threads|
              && forall a :: a in s.live ==> Listening(s, a) && s.registered[a] == 1
  {
    var n := |run| - 1;
    RunInv(run, n);
    RunKeepsCalls(run, 0, n);
    RunKeepsCalls(run, m, n);
    QuietCounts(run, m, n);
    QuietCalls(run, m, n);
    NeverBlocked(run, n);
    if Stuck(run[n]) {
      AtRest(run[n]);
    }
  }

  /** Any call made in any state of a run, with whatever request, has in the end exactly one reply:
      "Hello " and the text of that request, and nothing else. */
  lemma NewCallIsAnswered(run: seq<State>, k: nat, m: nat, id: CallId, request: Message)
    requires Run(run) && run[0].threads != []
    requires k + 1 <= m < |run| && CallStep(run[k], id, request, run[k + 1])
    requires QuietFrom(run, m) && Stuck(run[|run| - 1])
    ensures id in run[|run| - 1].calls
    ensures run[|run| - 1].calls[id].replies
         == [Message([0x48, 0x65, 0x6C, 0x6C, 0x6F, 0x20] + request.text, [])]
  {
    RunKeepsCalls(run, k + 1, m);
    EveryContinuation(run, m);
  }

  /** With at least one handler loop, every run over a fixed backlog that cannot be extended has taken
      exactly 4 steps a loop and 15 a call, has given each call exactly one reply, the greeting of its
      request, and leaves exactly one instance a loop. */
  lemma EveryMaximalRun(run: seq<State>)
    requires ClosedRun(run) && run[0].threads != [] && Stuck(run[|run| - 1])
    ensures |run| - 1 == 4 * |run[0].threads| + 15 * |run[0].calls|
    ensures var s := run[|run| - 1];
            && s.calls.Keys == run[0].calls.Keys
            && (forall id :: id in s.calls ==> s.calls[id].replies == [Answer(run[0].calls[id].request)])
            && |s.live| == |run[0].threads|
            && forall a :: a in s.live ==> Listening(s, a) && s.registered[a] == 1
  {
    ClosedIsQuiet(run);
    EveryContinuation(run, 0);
  }

  /** No run over a fixed backlog is longer, so every one can be extended to a maximal one. */
  lemma RunsAreBounded(run: seq<State>)
    requires ClosedRun(run)
    ensures |run| - 1 <= 4 * |run[0].threads| + 15 * |run[0].calls|
    ensures run[0].threads != [] ==>
              (Stuck(run[|run| - 1]) <==> |run| - 1 == 4 * |run[0].threads| + 15 * |run[0].calls|)
  {
    ClosedIsQuiet(run);
    QuietCounts(run, 0, |run| - 1);
    NeverBlocked(run, |run| - 1);
  }

  lemma {:induction false} CapacityBound(threads: seq<Pc>)
    ensures Total(Capacity, threads) <= 2 * |threads|
  {
    if threads != [] {
      CapacityBound(threads[1..]);
    }
  }

  /** Capacity: in every state the instances in PROCESS are one for each loop that has made its first
      instance and one more for each thread between making a successor and finishing; so never more than
      two a thread, and exactly one when all threads wait. */
  lemma ServerCapacity(run: seq<State>, i: nat)
    requires Run(run) && i < |run|
    ensures |Processing(run[i])| == Total(Capacity, run[i].threads) <= 2 * |run[i].threads|
    ensures (forall t :: 0 <= t < |run[i].threads| ==> run[i].threads[t] == Idle) ==>
              |Processing(run[i])| == |run[i].threads|
  {
    RunInv(run, i);
    CapacityBound(run[i].threads);
    if forall t :: 0 <= t < |run[i].threads| ==> run[i].threads[t] == Idle {
      AllIdle(run[i].threads);
    }
  }
}
