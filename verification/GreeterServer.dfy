/** The asynchronous greeter server as an interleaving transition system. Handler threads run
    `HandleRpcs` and, inside it, `CallData::Proceed`, one statement a step; the gRPC runtime matches
    waiting calls with requested instances and completes finishes, in any order. Addresses of deleted
    instances may be reused. */
module GreeterServer {
  import opened Bytes
  import opened Message

  type Address = nat
  type CallId = nat

  datatype Status = CREATE | PROCESS | FINISH

  datatype Option<+T> = None | Some(value: T)

  /** A `CallData` object. `call` is the client call its responder still has to answer. */
  datatype CallData = CallData(status: Status, request: Message, reply: Message, call: Option<CallId>)

  const NEW_CALL_DATA := CallData(CREATE, EMPTY, EMPTY, None)

  /** A client call: its request as the runtime decodes it, the instance whose responder it has been
      bound to, if any, and the replies it has got. */
  datatype Call = Call(request: Message, server: Option<Address>, replies: seq<Message>)

  /** Who called a `Proceed`: the constructor run by `HandleRpcs`, the constructor run by the `Proceed`
      of another instance, or the event loop. Which event the loop took is history: a tag does not
      tell, and `Proceed` branches on the status alone. */
  datatype Caller = Start | Parent(parent: Address) | ArrivalEvent | FinishEvent

  /** The next statement of a handler thread. */
  datatype Pc =
    | Boot                                      // HandleRpcs: new CallData
    | Idle                                      // HandleRpcs: cq_->Next
    | Enter(self: Address, caller: Caller)      // Proceed: branch on status_
    | SetProcess(self: Address, caller: Caller) // status_ = PROCESS
    | Request(self: Address, caller: Caller)    // service_->RequestSayHello(..., this)
    | Spawn(self: Address)                      // new CallData
    | SetReply(self: Address)                   // reply_.set_message(prefix + request_.name())
    | SetFinish(self: Address)                  // status_ = FINISH
    | Finish(self: Address)                     // responder_.Finish(reply_, Status::OK, this)
    | Check(self: Address)                      // GPR_ASSERT(status_ == FINISH)
    | Delete(self: Address)                     // delete this

  /** `registered`: tags given to RequestSayHello; `arrived` and `finished`: events in the completion
      queue, which a thread cannot tell apart; `finishing`: tags given to Finish, not yet events;
      `calls`: every call ever made. */
  datatype State = State(
    threads: seq<Pc>,
    live: map<Address, CallData>,
    registered: multiset<Address>,
    arrived: multiset<Address>,
    finishing: multiset<Address>,
    finished: multiset<Address>,
    calls: map<CallId, Call>)

  /** "Hello " in ASCII. */
  const PREFIX: bytes := [0x48, 0x65, 0x6C, 0x6C, 0x6F, 0x20]

  /** What `reply_.set_message` makes of a new reply. */
  function Answer(request: Message): (reply: Message) {
    EMPTY.(text := PREFIX + request.text)
  }

  predicate Init(s: State) {
    && (forall t :: 0 <= t < |s.threads| ==> s.threads[t] == Boot)
    && s.live == map[]
    && s.registered == s.arrived == s.finishing == s.finished == multiset{}
    && (forall id :: id in s.calls ==> s.calls[id].server == None && s.calls[id].replies == [])
  }

  function Return(caller: Caller): (pc: Pc) {
    match caller
    case Parent(p) => SetReply(p)
    case _ => Idle
  }

  function Branch(status: Status, self: Address, caller: Caller): (pc: Pc) {
    match status
    case CREATE => SetProcess(self, caller)
    case PROCESS => Spawn(self)
    case FINISH => Check(self)
  }

  /** What a step chooses: the address a `new` returns, or the event `Next` returns. */
  datatype Choice = Choice(tag: Address, arrival: bool)

  /** A statement inside `Proceed` touches its instance, so a deleted one stops the thread; so does an
      assertion that fails, a responder without a call, and an empty queue. */
  predicate Enabled(s: State, pc: Pc, c: Choice) {
    match pc
    case Boot => c.tag !in s.live
    case Idle => if c.arrival then c.tag in s.arrived else c.tag in s.finished
    case Spawn(a) => a in s.live && c.tag !in s.live
    case Finish(a) => a in s.live && s.live[a].call.Some? && s.live[a].call.value in s.calls
    case Check(a) => a in s.live && s.live[a].status == FINISH
    case _ => pc.self in s.live
  }

  function NextPc(s: State, pc: Pc, c: Choice): (next: Pc)
    requires Enabled(s, pc, c)
  {
    match pc
    case Boot => Enter(c.tag, Start)
    case Idle => Enter(c.tag, if c.arrival then ArrivalEvent else FinishEvent)
    case Enter(a, caller) => Branch(s.live[a].status, a, caller)
    case SetProcess(a, caller) => Request(a, caller)
    case Request(_, caller) => Return(caller)
    case Spawn(a) => Enter(c.tag, Parent(a))
    case SetReply(a) => SetFinish(a)
    case SetFinish(a) => Finish(a)
    case Finish(_) => Idle
    case Check(a) => Delete(a)
    case Delete(_) => Idle
  }

  /** What a statement does to everything but the thread's own position. */
  function Effect(s: State, pc: Pc, c: Choice): (s': State)
    requires Enabled(s, pc, c)
  {
    match pc
    case Boot => s.(live := s.live[c.tag := NEW_CALL_DATA])
    case Idle =>
      if c.arrival then s.(arrived := s.arrived - multiset{c.tag})
      else s.(finished := s.finished - multiset{c.tag})
    case Enter(_, _) => s
    case SetProcess(a, _) => s.(live := s.live[a := s.live[a].(status := PROCESS)])
    case Request(a, _) => s.(registered := s.registered + multiset{a})
    case Spawn(_) => s.(live := s.live[c.tag := NEW_CALL_DATA])
    case SetReply(a) =>
      var reply := s.live[a].reply.(text := PREFIX + s.live[a].request.text);
      s.(live := s.live[a := s.live[a].(reply := reply)])
    case SetFinish(a) => s.(live := s.live[a := s.live[a].(status := FINISH)])
    case Finish(a) =>
      var id := s.live[a].call.value;
      s.(live := s.live[a := s.live[a].(call := None)],
         finishing := s.finishing + multiset{a},
         calls := s.calls[id := s.calls[id].(replies := s.calls[id].replies + [s.live[a].reply])])
    case Check(_) => s
    case Delete(a) => s.(live := s.live - {a})
  }

  function Execute(s: State, t: nat, c: Choice): (s': State)
    requires t < |s.threads| && Enabled(s, s.threads[t], c)
  {
    Effect(s, s.threads[t], c).(threads := s.threads[t := NextPc(s, s.threads[t], c)])
  }

  predicate ThreadStep(s: State, t: nat, c: Choice, s': State) {
    t < |s.threads| && Enabled(s, s.threads[t], c) && s' == Execute(s, t, c)
  }

  /** The runtime matches a waiting call with a requested instance: it fills in the request and puts
      the tag in the completion queue. */
  predicate ArriveStep(s: State, a: Address, id: CallId, s': State) {
    && a in s.registered && a in s.live
    && id in s.calls && s.calls[id].server == None
    && s' == s.(live := s.live[a := s.live[a].(request := s.calls[id].request, call := Some(id))],
                registered := s.registered - multiset{a},
                arrived := s.arrived + multiset{a},
                calls := s.calls[id := s.calls[id].(server := Some(a))])
  }

  /** The runtime has sent a reply: the tag given to Finish comes back as an event. */
  predicate CompleteStep(s: State, a: Address, s': State) {
    && a in s.finishing
    && s' == s.(finishing := s.finishing - multiset{a}, finished := s.finished + multiset{a})
  }

  /** A step of the server and its runtime. */
  ghost predicate Step(s: State, s': State) {
    || (exists t, c :: ThreadStep(s, t, c, s'))
    || (exists a, id :: ArriveStep(s, a, id, s'))
    || (exists a :: CompleteStep(s, a, s'))
  }

  /** A client makes a new call. */
  predicate CallStep(s: State, id: CallId, request: Message, s': State) {
    && id !in s.calls
    && s' == s.(calls := s.calls[id := Call(request, None, [])])
  }

  ghost predicate Next(s: State, s': State) {
    || Step(s, s')
    || (exists id, request :: CallStep(s, id, request, s'))
  }
}
