/** What every step of the server keeps. An address is accounted for by tokens: the registered tags,
    the events, the finishes in flight and the threads inside `Proceed` together hold exactly one
    token for each live instance and none for any other address. */
module ServerInvariant {
  import opened Message
  import opened GreeterServer

  // ----- Totals over the threads -----

  datatype Tally = Inside(a: Address) | Work | Capacity

  function Weigh(w: Tally, pc: Pc): (n: nat) {
    match w
    case Inside(a) => (if !pc.Boot? && !pc.Idle? && pc.self == a then 1 else 0) + (if WaitsFor(pc, a) then 1 else 0)
    case Work => Remaining(pc)
    case Capacity => Listeners(pc)
  }

  /** The thread is in a constructor that the `Proceed` of `a` is running. */
  predicate WaitsFor(pc: Pc, a: Address) {
    (pc.Enter? || pc.SetProcess? || pc.Request?) && pc.caller == Parent(a)
  }

  /** Steps until the thread is idle again, with those that the events it causes will need. */
  function Remaining(pc: Pc): (n: nat) {
    match pc
    case Boot => 4
    case Idle => 0
    case Enter(_, Start) => 3
    case Enter(_, Parent(_)) => 11
    case Enter(_, ArrivalEvent) => 13
    case Enter(_, FinishEvent) => 3
    case SetProcess(_, caller) => if caller.Parent? then 10 else 2
    case Request(_, caller) => if caller.Parent? then 9 else 1
    case Spawn(_) => 12
    case SetReply(_) => 8
    case SetFinish(_) => 7
    case Finish(_) => 6
    case Check(_) => 2
    case Delete(_) => 1
  }

  /** The PROCESS instances a thread accounts for: one once its loop has made its first instance, and
      one more between making a successor and finishing the instance it serves. */
  function Listeners(pc: Pc): (n: nat) {
    match pc
    case Boot => 0
    case Enter(_, Start) => 0
    case SetProcess(_, Start) => 0
    case Request(_, Parent(_)) => 2
    case SetReply(_) => 2
    case SetFinish(_) => 2
    case _ => 1
  }

  function Total(w: Tally, threads: seq<Pc>): (n: nat) {
    if threads == [] then 0 else Weigh(w, threads[0]) + Total(w, threads[1..])
  }

  lemma {:induction false} TotalUpdate(w: Tally, threads: seq<Pc>, t: nat, pc: Pc)
    requires t < |threads|
    ensures Total(w, threads[t := pc]) == Total(w, threads) - Weigh(w, threads[t]) + Weigh(w, pc)
    decreases |threads|
  {
    if t == 0 {
      assert threads[t := pc][1..] == threads[1..];
    } else {
      assert threads[t := pc][1..] == threads[1..][t - 1 := pc];
      TotalUpdate(w, threads[1..], t - 1, pc);
    }
  }

  lemma {:induction false} TotalCovers(w: Tally, threads: seq<Pc>, t: nat, u: nat)
    requires t < |threads| && u < |threads|
    ensures Total(w, threads) >= Weigh(w, threads[t])
    ensures t != u ==> Total(w, threads) >= Weigh(w, threads[t]) + Weigh(w, threads[u])
    decreases |threads|
  {
    if t > 0 && u > 0 {
      TotalCovers(w, threads[1..], t - 1, u - 1);
    } else if |threads| > 1 {
      var v := if t > 0 then t else if u > 0 then u else 1;
      TotalCovers(w, threads[1..], v - 1, v - 1);
    }
  }

  // ----- The invariant -----

  /** The tags of `a` that the runtime holds. */
  function Tags(s: State, a: Address): (n: nat) {
    s.registered[a] + s.arrived[a] + s.finishing[a] + s.finished[a]
  }

  function Tokens(s: State, a: Address): (n: nat) {
    Tags(s, a) + Total(Inside(a), s.threads)
  }

  function IsLive(s: State, a: Address): (n: nat) {
    if a in s.live then 1 else 0
  }

  ghost predicate Ownership(s: State) {
    forall a :: Tokens(s, a) == IsLive(s, a)
  }

  predicate Listening(s: State, a: Address) {
    a in s.live && s.live[a] == NEW_CALL_DATA.(status := PROCESS)
  }

  /** The instance holds a request and has not published its finish yet. */
  predicate Serving(s: State, a: Address, status: Status, replied: bool) {
    && a in s.live && s.live[a].status == status
    && s.live[a].call.Some? && s.live[a].call.value in s.calls
    && s.live[a].request == s.calls[s.live[a].call.value].request
    && s.live[a].reply == if replied then Answer(s.live[a].request) else EMPTY
  }

  predicate Answered(s: State, a: Address) {
    a in s.live && s.live[a].status == FINISH && s.live[a].call == None
  }

  predicate CallerOk(s: State, caller: Caller) {
    caller.Start? || (caller.Parent? && Serving(s, caller.parent, PROCESS, false))
  }

  predicate ThreadOk(s: State, pc: Pc) {
    match pc
    case Boot => true
    case Idle => true
    case Enter(a, ArrivalEvent) => Serving(s, a, PROCESS, false)
    case Enter(a, FinishEvent) => Answered(s, a)
    case Enter(a, caller) => a in s.live && s.live[a] == NEW_CALL_DATA && CallerOk(s, caller)
    case SetProcess(a, caller) => a in s.live && s.live[a] == NEW_CALL_DATA && CallerOk(s, caller)
    case Request(a, caller) => Listening(s, a) && CallerOk(s, caller)
    case Spawn(a) => Serving(s, a, PROCESS, false)
    case SetReply(a) => Serving(s, a, PROCESS, false)
    case SetFinish(a) => Serving(s, a, PROCESS, true)
    case Finish(a) => Serving(s, a, FINISH, true)
    case Check(a) => Answered(s, a)
    case Delete(a) => Answered(s, a)
  }

  /** Whoever holds a tag of `a` finds the instance in the state it expects. */
  predicate TagOk(s: State, a: Address) {
    && (a in s.registered ==> Listening(s, a))
    && (a in s.arrived ==> Serving(s, a, PROCESS, false))
    && (a in s.finishing || a in s.finished ==> Answered(s, a))
  }

  ghost predicate Roles(s: State) {
    && (forall a :: TagOk(s, a))
    && (forall t :: 0 <= t < |s.threads| ==> ThreadOk(s, s.threads[t]))
  }

  /** A call that waits has no reply; one that was taken is held by its instance, without a reply, or
      has exactly the one reply it should get. */
  predicate CallOk(s: State, id: CallId)
    requires id in s.calls
  {
    match s.calls[id].server
    case None => s.calls[id].replies == []
    case Some(a) =>
      || (s.calls[id].replies == [] && a in s.live && s.live[a].call == Some(id))
      || s.calls[id].replies == [Answer(s.calls[id].request)]
  }

  /** The call an instance holds is bound to it and has no reply yet. */
  predicate HeldOk(s: State, a: Address)
    requires a in s.live
  {
    match s.live[a].call
    case None => true
    case Some(id) => id in s.calls && s.calls[id].server == Some(a) && s.calls[id].replies == []
  }

  ghost predicate Calls(s: State) {
    && (forall id :: id in s.calls ==> CallOk(s, id))
    && (forall a :: a in s.live ==> HeldOk(s, a))
  }

  function Processing(s: State): (p: set<Address>) {
    set a | a in s.live && s.live[a].status == PROCESS
  }

  ghost predicate Inv(s: State) {
    && Ownership(s)
    && Roles(s)
    && Calls(s)
    && |Processing(s)| == Total(Capacity, s.threads)
  }

  // ----- Ownership is exclusive -----

  /** A thread inside the `Proceed` of an instance holds its only token. */
  lemma Alone(s: State, t: nat, a: Address)
    requires Ownership(s) && t < |s.threads| && Weigh(Inside(a), s.threads[t]) > 0
    ensures a in s.live && Weigh(Inside(a), s.threads[t]) == 1
    ensures a !in s.registered && a !in s.arrived && a !in s.finishing && a !in s.finished
    ensures forall u: nat :: u < |s.threads| && u != t ==> Weigh(Inside(a), s.threads[u]) == 0
  {
    assert Tokens(s, a) == IsLive(s, a);
    TotalCovers(Inside(a), s.threads, t, t);
    forall u: nat | u < |s.threads| && u != t
      ensures Weigh(Inside(a), s.threads[u]) == 0
    {
      TotalCovers(Inside(a), s.threads, t, u);
    }
  }

  /** Nobody holds an address that is not live. */
  lemma NobodyHolds(s: State, a: Address)
    requires Ownership(s) && a !in s.live
    ensures a !in s.registered && a !in s.arrived && a !in s.finishing && a !in s.finished
    ensures forall u: nat :: u < |s.threads| ==> Weigh(Inside(a), s.threads[u]) == 0
  {
    assert Tokens(s, a) == 0;
    forall u: nat | u < |s.threads|
      ensures Weigh(Inside(a), s.threads[u]) == 0
    {
      TotalCovers(Inside(a), s.threads, u, u);
    }
  }

  /** A statement adds or removes a tag, makes an instance or deletes one, of one address. */
  lemma EffectTags(s: State, pc: Pc, c: Choice, a: Address)
    requires Enabled(s, pc, c)
    ensures var s' := Effect(s, pc, c);
            && Tags(s', a) - Tags(s, a)
               == (if pc.Idle? && a == c.tag then -1 else if (pc.Request? || pc.Finish?) && a == pc.self then 1 else 0)
            && IsLive(s', a) - IsLive(s, a)
               == (if (pc.Boot? || pc.Spawn?) && a == c.tag then 1 else if pc.Delete? && a == pc.self then -1 else 0)
  {
  }

  /** A statement hands a token on, or makes or deletes the instance together with its token. */
  lemma EffectToken(s: State, pc: Pc, c: Choice, a: Address)
    requires Enabled(s, pc, c) && ThreadOk(s, pc)
    ensures var s' := Effect(s, pc, c);
            Tags(s', a) + Weigh(Inside(a), NextPc(s, pc, c)) - IsLive(s', a)
            == Tags(s, a) + Weigh(Inside(a), pc) - IsLive(s, a)
  {
    EffectTags(s, pc, c, a);
  }

  lemma ThreadStepToken(s: State, t: nat, c: Choice, a: Address)
    requires t < |s.threads| && Enabled(s, s.threads[t], c) && ThreadOk(s, s.threads[t])
    requires Tokens(s, a) == IsLive(s, a)
    ensures Tokens(Execute(s, t, c), a) == IsLive(Execute(s, t, c), a)
  {
    EffectToken(s, s.threads[t], c, a);
    TotalUpdate(Inside(a), s.threads, t, NextPc(s, s.threads[t], c));
  }

  lemma ArriveStepToken(s: State, b: Address, id: CallId, s': State, a: Address)
    requires ArriveStep(s, b, id, s')
    ensures Tokens(s', a) == Tokens(s, a) && (a in s'.live <==> a in s.live)
  {
  }

  // ----- Roles -----

  /** `s'` differs from `s` in no live instance but those of `xs`, and keeps the requests of all calls. */
  predicate SameBut(s: State, s': State, xs: set<Address>) {
    && (forall a :: a in s.live && a !in xs ==> a in s'.live && s'.live[a] == s.live[a])
    && (forall id :: id in s.calls ==> id in s'.calls && s'.calls[id].request == s.calls[id].request)
  }

  lemma TagOkKept(s: State, s': State, xs: set<Address>, a: Address)
    requires SameBut(s, s', xs) && a !in xs && TagOk(s, a)
    requires a in s'.registered ==> a in s.registered
    requires a in s'.arrived ==> a in s.arrived
    requires a in s'.finishing || a in s'.finished ==> a in s.finishing || a in s.finished
    ensures TagOk(s', a)
  {
  }

  lemma ThreadOkKept(s: State, s': State, xs: set<Address>, pc: Pc)
    requires SameBut(s, s', xs) && ThreadOk(s, pc)
    requires forall x :: x in xs ==> Weigh(Inside(x), pc) == 0
    ensures ThreadOk(s', pc)
  {
    if !pc.Boot? && !pc.Idle? {
      assert Weigh(Inside(pc.self), pc) > 0;
      if (pc.Enter? || pc.SetProcess? || pc.Request?) && pc.caller.Parent? {
        assert Weigh(Inside(pc.caller.parent), pc) > 0;
      }
    }
  }

  /** Moving tags among the token holders, with every instance kept, keeps the roles. */
  lemma RolesKept(s: State, s': State)
    requires Roles(s) && SameBut(s, s', {}) && s'.threads == s.threads
    requires s'.registered == s.registered && s'.arrived == s.arrived
    requires forall a :: a in s'.finishing || a in s'.finished ==> a in s.finishing || a in s.finished
    ensures Roles(s')
  {
    forall a
      ensures TagOk(s', a)
    {
      assert TagOk(s, a);
      TagOkKept(s, s', {}, a);
    }
    forall u: nat | u < |s'.threads|
      ensures ThreadOk(s', s'.threads[u])
    {
      ThreadOkKept(s, s', {}, s.threads[u]);
    }
  }

  /** The address whose instance a statement changes. */
  function Target(pc: Pc, c: Choice): (a: Address) {
    if pc.Boot? || pc.Idle? || pc.Spawn? then c.tag else pc.self
  }

  function Changes(pc: Pc, c: Choice): (xs: set<Address>) {
    if pc.Idle? then {} else {Target(pc, c)}
  }

  lemma EffectTarget(s: State, t: nat, c: Choice)
    requires t < |s.threads| && Enabled(s, s.threads[t], c)
    ensures SameBut(s, Execute(s, t, c), Changes(s.threads[t], c))
  {
  }

  /** Nobody but the stepping thread holds the instance it changes. */
  lemma TargetAlone(s: State, t: nat, c: Choice)
    requires Ownership(s) && t < |s.threads| && Enabled(s, s.threads[t], c) && !s.threads[t].Idle?
    ensures var x := Target(s.threads[t], c);
            && x !in s.registered && x !in s.arrived && x !in s.finishing && x !in s.finished
            && !WaitsFor(s.threads[t], x)
            && (forall u: nat :: u < |s.threads| && u != t ==> Weigh(Inside(x), s.threads[u]) == 0)
  {
    var x := Target(s.threads[t], c);
    if s.threads[t].Boot? || s.threads[t].Spawn? {
      NobodyHolds(s, x);
    } else {
      Alone(s, t, x);
    }
  }

  lemma NextPcOk(s: State, t: nat, c: Choice)
    requires t < |s.threads| && Enabled(s, s.threads[t], c) && ThreadOk(s, s.threads[t])
    requires if s.threads[t].Idle? then (if c.arrival then Serving(s, c.tag, PROCESS, false) else Answered(s, c.tag))
             else !WaitsFor(s.threads[t], Target(s.threads[t], c))
    ensures ThreadOk(Execute(s, t, c), NextPc(s, s.threads[t], c))
  {
  }

  /** The tags a statement can add: a request and a finish publish the thread's own instance. */
  lemma TagsAfter(s: State, t: nat, c: Choice, a: Address)
    requires t < |s.threads| && Enabled(s, s.threads[t], c)
    ensures var pc, s' := s.threads[t], Execute(s, t, c);
            && (a in s'.registered ==> a in s.registered || (pc.Request? && a == pc.self))
            && (a in s'.arrived ==> a in s.arrived)
            && (a in s'.finishing ==> a in s.finishing || (pc.Finish? && a == pc.self))
            && (a in s'.finished ==> a in s.finished)
  {
  }

  lemma PublishedOk(s: State, t: nat, c: Choice)
    requires t < |s.threads| && Enabled(s, s.threads[t], c) && ThreadOk(s, s.threads[t])
    requires !s.threads[t].Idle?
    requires var x := Target(s.threads[t], c);
             x !in s.registered && x !in s.arrived && x !in s.finishing && x !in s.finished
    ensures TagOk(Execute(s, t, c), Target(s.threads[t], c))
  {
  }

  lemma ThreadStepRoles(s: State, t: nat, c: Choice)
    requires Ownership(s) && Roles(s) && t < |s.threads| && Enabled(s, s.threads[t], c)
    ensures Roles(Execute(s, t, c))
  {
    var pc, s', xs := s.threads[t], Execute(s, t, c), Changes(s.threads[t], c);
    assert ThreadOk(s, pc);
    assert TagOk(s, c.tag);
    EffectTarget(s, t, c);
    if !pc.Idle? {
      TargetAlone(s, t, c);
      PublishedOk(s, t, c);
    }
    NextPcOk(s, t, c);
    forall a
      ensures TagOk(s', a)
    {
      if a !in xs {
        assert TagOk(s, a);
        TagsAfter(s, t, c, a);
        TagOkKept(s, s', xs, a);
      }
    }
    forall u: nat | u < |s.threads| && u != t
      ensures ThreadOk(s', s.threads[u])
    {
      ThreadOkKept(s, s', xs, s.threads[u]);
    }
  }

  lemma ArriveStepTagOk(s: State, a: Address, id: CallId, s': State, b: Address)
    requires ArriveStep(s, a, id, s') && TagOk(s, b)
    requires b == a ==> s.registered[a] == 1 && a !in s.finishing && a !in s.finished
    ensures TagOk(s', b)
  {
  }

  lemma ArriveStepRoles(s: State, a: Address, id: CallId, s': State)
    requires Ownership(s) && Roles(s) && ArriveStep(s, a, id, s')
    ensures Roles(s')
  {
    assert Tokens(s, a) == 1;
    forall b
      ensures TagOk(s', b)
    {
      assert TagOk(s, b);
      ArriveStepTagOk(s, a, id, s', b);
    }
    forall u: nat | u < |s.threads|
      ensures ThreadOk(s', s.threads[u])
    {
      assert ThreadOk(s, s.threads[u]);
      TotalCovers(Inside(a), s.threads, u, u);
      ThreadOkKept(s, s', {a}, s.threads[u]);
    }
  }

  // ----- Calls -----

  lemma CallOkKept(s: State, t: nat, c: Choice, id: CallId)
    requires t < |s.threads| && Enabled(s, s.threads[t], c) && ThreadOk(s, s.threads[t])
    requires id in s.calls && CallOk(s, id) && forall a :: a in s.live ==> HeldOk(s, a)
    ensures id in Execute(s, t, c).calls && CallOk(Execute(s, t, c), id)
  {
  }

  lemma HeldOkKept(s: State, t: nat, c: Choice, a: Address)
    requires t < |s.threads| && Enabled(s, s.threads[t], c) && ThreadOk(s, s.threads[t])
    requires a in Execute(s, t, c).live && forall b :: b in s.live ==> HeldOk(s, b)
    ensures HeldOk(Execute(s, t, c), a)
  {
  }

  lemma ThreadStepCalls(s: State, t: nat, c: Choice)
    requires Roles(s) && Calls(s) && t < |s.threads| && Enabled(s, s.threads[t], c)
    ensures Calls(Execute(s, t, c))
  {
    var s' := Execute(s, t, c);
    assert ThreadOk(s, s.threads[t]);
    forall id | id in s'.calls
      ensures CallOk(s', id)
    {
      CallOkKept(s, t, c, id);
    }
    forall a | a in s'.live
      ensures HeldOk(s', a)
    {
      HeldOkKept(s, t, c, a);
    }
  }

  lemma ArriveStepCalls(s: State, a: Address, id: CallId, s': State)
    requires Roles(s) && Calls(s) && ArriveStep(s, a, id, s')
    ensures Calls(s')
  {
    assert TagOk(s, a);
  }

  // ----- Capacity -----

  lemma ProcessingAfter(s: State, t: nat, c: Choice)
    requires t < |s.threads| && Enabled(s, s.threads[t], c) && ThreadOk(s, s.threads[t])
    ensures var pc := s.threads[t];
            Processing(Execute(s, t, c))
            == if pc.SetProcess? then Processing(s) + {pc.self}
               else if pc.SetFinish? then Processing(s) - {pc.self}
               else Processing(s)
  {
  }

  lemma ListenersAfter(s: State, t: nat, c: Choice)
    requires t < |s.threads| && Enabled(s, s.threads[t], c) && ThreadOk(s, s.threads[t])
    ensures var pc := s.threads[t];
            Listeners(NextPc(s, pc, c))
            == Listeners(pc) + (if pc.SetProcess? then 1 else if pc.SetFinish? then -1 else 0)
    ensures s.threads[t].SetProcess? ==> s.threads[t].self !in Processing(s)
    ensures s.threads[t].SetFinish? ==> s.threads[t].self in Processing(s)
  {
  }

  lemma ThreadStepCapacity(s: State, t: nat, c: Choice)
    requires t < |s.threads| && Enabled(s, s.threads[t], c) && ThreadOk(s, s.threads[t])
    requires |Processing(s)| == Total(Capacity, s.threads)
    ensures |Processing(Execute(s, t, c))| == Total(Capacity, Execute(s, t, c).threads)
  {
    ProcessingAfter(s, t, c);
    ListenersAfter(s, t, c);
    TotalUpdate(Capacity, s.threads, t, NextPc(s, s.threads[t], c));
  }

  // ----- Every step keeps the invariant -----

  lemma CallsKept(s: State, s': State)
    requires Calls(s) && s'.live == s.live
    requires forall id :: id in s.calls ==> id in s'.calls && s'.calls[id] == s.calls[id]
    requires forall id :: id in s'.calls && id !in s.calls ==> s'.calls[id].server == None && s'.calls[id].replies == []
    ensures Calls(s')
  {
    forall id | id in s'.calls
      ensures CallOk(s', id)
    {
      assert id in s.calls ==> CallOk(s, id);
    }
    forall a | a in s'.live
      ensures HeldOk(s', a)
    {
      assert HeldOk(s, a);
    }
  }

  lemma InitInv(s: State)
    requires Init(s)
    ensures Inv(s)
  {
    assert Processing(s) == {};
    TotalBoot(Capacity, s.threads);
    forall a
      ensures Tokens(s, a) == 0
    {
      TotalBoot(Inside(a), s.threads);
    }
  }

  lemma {:induction false} TotalBoot(w: Tally, threads: seq<Pc>)
    requires forall t :: 0 <= t < |threads| ==> threads[t] == Boot
    ensures Total(w, threads) == |threads| * Weigh(w, Boot)
  {
    if threads != [] {
      TotalBoot(w, threads[1..]);
    }
  }

  lemma ThreadStepInv(s: State, t: nat, c: Choice)
    requires Inv(s) && t < |s.threads| && Enabled(s, s.threads[t], c)
    ensures Inv(Execute(s, t, c))
  {
    forall a
      ensures Tokens(Execute(s, t, c), a) == IsLive(Execute(s, t, c), a)
    {
      assert Tokens(s, a) == IsLive(s, a);
      ThreadStepToken(s, t, c, a);
    }
    assert ThreadOk(s, s.threads[t]);
    ThreadStepRoles(s, t, c);
    ThreadStepCalls(s, t, c);
    ThreadStepCapacity(s, t, c);
  }

  lemma ArriveStepInv(s: State, a: Address, id: CallId, s': State)
    requires Inv(s) && ArriveStep(s, a, id, s')
    ensures Inv(s')
  {
    forall b
      ensures Tokens(s', b) == IsLive(s', b)
    {
      ArriveStepToken(s, a, id, s', b);
    }
    ArriveStepRoles(s, a, id, s');
    ArriveStepCalls(s, a, id, s');
    assert Processing(s') == Processing(s);
  }

  lemma CompleteStepInv(s: State, a: Address, s': State)
    requires Inv(s) && CompleteStep(s, a, s')
    ensures Inv(s')
  {
    forall b
      ensures Tokens(s', b) == IsLive(s', b)
    {
      assert Tokens(s', b) == Tokens(s, b);
    }
    RolesKept(s, s');
    assert Processing(s') == Processing(s);
    CallsKept(s, s');
  }

  lemma CallStepInv(s: State, id: CallId, request: Message, s': State)
    requires Inv(s) && CallStep(s, id, request, s')
    ensures Inv(s')
  {
    forall b
      ensures Tokens(s', b) == IsLive(s', b)
    {
      assert Tokens(s', b) == Tokens(s, b);
    }
    RolesKept(s, s');
    assert Processing(s') == Processing(s);
    CallsKept(s, s');
  }

  lemma NextInv(s: State, s': State)
    requires Inv(s) && Next(s, s')
    ensures Inv(s')
  {
    if t: nat, c :| ThreadStep(s, t, c, s') {
      ThreadStepInv(s, t, c);
    } else if a, id :| ArriveStep(s, a, id, s') {
      ArriveStepInv(s, a, id, s');
    } else if a :| CompleteStep(s, a, s') {
      CompleteStepInv(s, a, s');
    } else {
      var id, request :| CallStep(s, id, request, s');
      CallStepInv(s, id, request, s');
    }
  }
}
