/** A greeting from client to server and back: request and reply cross the wire as serialized
    messages, and the server of `GreeterServer` answers them under any scheduling. */
module EndToEnd {
  import opened Bytes
  import opened WireFormat
  import opened Message
  import opened GreeterServer
  import opened ServerRuns
  import opened HelloMessage
  import Utf8
  import Varint

  /** What the runtime makes of received bytes: a message that parses to the end of the input. */
  ghost function Decode(s: bytes, lim: Limits): (m: Option<Message>) {
    match Parse(EMPTY, s, lim)
    case Parsed(m, AtLimit, _) => Some(m)
    case _ => None
  }

  function TextMessage(text: bytes): (m: Message) {
    EMPTY.(text := text)
  }

  /** The status of a remote call, with the reply's bytes when it is OK. */
  datatype RpcStatus = OK(reply: bytes) | NOT_OK

  /** "RPC failed" in ASCII. */
  const RPC_FAILED: bytes := [0x52, 0x50, 0x43, 0x20, 0x66, 0x61, 0x69, 0x6C, 0x65, 0x64]

  /** What `SayHello` returns; a reply that does not parse leaves the status not OK. */
  ghost function Returned(status: RpcStatus, lim: Limits): (r: bytes) {
    if status.NOT_OK? || Decode(status.reply, lim).None? then RPC_FAILED else Decode(status.reply, lim).value.text
  }

  /** What the client's queue gives for its one event: whether there is one, its tag, whether the
      operation went well, and the status of the call. */
  datatype Completion = Completion(next: bool, tag: nat, ok: bool, status: RpcStatus)

  /** The runtime, from the bytes of a request and the tag given to Finish. */
  type Runtime = (bytes, nat) -> Completion

  /** A queue hands back the tag it was given, once, and a finish always goes well. */
  ghost predicate HandsBack(runtime: Runtime) {
    forall wire, tag :: var c := runtime(wire, tag); c.next && c.tag == tag && c.ok
  }

  /** `GreeterClient::SayHello` over any runtime; None if one of its assertions stops the program. It
      returns the text that the reply parses to, if the call went well and the parse took in the whole
      reply, and "RPC failed" otherwise. */
  method SayHello(user: bytes, runtime: Runtime, lim: Limits) returns (r: Option<bytes>)
    ensures var c := runtime(Serialize(Message(user, [])), 1);
            && (r.Some? <==> c.next && c.tag == 1 && c.ok)
            && (r.Some? ==>
                  r.value == match c.status
                             case NOT_OK => [0x52, 0x50, 0x43, 0x20, 0x66, 0x61, 0x69, 0x6C, 0x65, 0x64]
                             case OK(s) => (match Parse(EMPTY, s, lim)
                                            case Parsed(m, AtLimit, _) => m.text
                                            case _ => [0x52, 0x50, 0x43, 0x20, 0x66, 0x61, 0x69, 0x6C, 0x65, 0x64]))
            && (r.Some? ==> r.value == Returned(c.status, lim))
    ensures HandsBack(runtime) ==> r.Some?
  {
    var request := new HelloMessage();
    request.SetText(user);
    var reply := new HelloMessage();
    var wire := request.SerializeAsString();
    var completion := runtime(wire, 1);
    if !completion.next || completion.tag != 1 || !completion.ok {
      return None;
    }
    var ok := false;
    if completion.status.OK? {
      var outcome := reply.InternalParse(completion.status.reply, lim);
      ok := outcome.Stop? && outcome.end == AtLimit;
    }
    if ok {
      return Some(reply.text);
    } else {
      return Some(RPC_FAILED);
    }
  }

  /** One call served: the request is decoded, answered by `Proceed`, and the reply encoded. */
  ghost function Serve(wire: bytes, lim: Limits): (status: RpcStatus) {
    match Decode(wire, lim)
    case None => NOT_OK
    case Some(request) => OK(Serialize(Answer(request)))
  }

  // ----- A text across the wire -----

  lemma OversizedText(text: bytes, lim: Limits)
    requires |text| > lim.max
    ensures Decode(Serialize(TextMessage(text)), lim) == None
  {
    var s := Serialize(TextMessage(text));
    var tag := Varint.Write(10);
    var p := Varint.Write(|text|) + text;
    assert s == Emit(TextField(text)) + EmitAll([]) == tag + p;
    Varint.ReadWriteTag(10, p);
    Varint.ReadWrite(|text|, text, 5);
    assert s[1..] == p;
    assert ReadString(p, lim.max).Malformed?;
    assert ParseItem(s, lim.max, lim.depth).BadItem?;
  }

  lemma InvalidText(text: bytes, lim: Limits)
    requires |text| <= lim.max && !Utf8.Valid(text)
    ensures Decode(Serialize(TextMessage(text)), lim) == None
  {
    var fs := [TextField(text)];
    SerializeEmitsFields(TextMessage(text));
    assert Fields(TextMessage(text)) == fs;
    assert EmitAll(fs) + [] == EmitAll(fs);
    ParseFieldsEmitted(fs, [], lim.max, lim.depth);
    assert fs + [] == fs && IsText(fs[0]);
  }

  /** A text crosses the wire unchanged if it is valid UTF-8 within the limit, and not at all if not. */
  lemma TextAcross(text: bytes, lim: Limits)
    ensures Decode(Serialize(Message(text, [])), lim)
         == if Utf8.Valid(text) && |text| <= lim.max then Some(Message(text, [])) else None
  {
    if |text| > lim.max {
      OversizedText(text, lim);
    } else if !Utf8.Valid(text) {
      InvalidText(text, lim);
    } else {
      RoundTrip(TextMessage(text), lim);
    }
  }

  lemma {:induction false} AsciiValid(s: bytes)
    requires forall i :: 0 <= i < |s| ==> s[i] < 0x80
    ensures Utf8.Valid(s)
  {
    if s != [] {
      AsciiValid(s[1..]);
    }
  }

  lemma PrefixValid(user: bytes)
    ensures Utf8.Valid(PREFIX + user) <==> Utf8.Valid(user)
  {
    AsciiValid(PREFIX);
    Utf8.ValidConcat(PREFIX, user);
  }

  // ----- The greeting -----

  /** `SayHello` greets the user exactly when the name is valid UTF-8 and leaves room for "Hello ";
      otherwise it says "RPC failed". */
  lemma SayHelloGreets(user: bytes, lim: Limits)
    ensures Returned(Serve(Serialize(Message(user, [])), lim), lim)
         == if Utf8.Valid(user) && |user| + 6 <= lim.max then [0x48, 0x65, 0x6C, 0x6C, 0x6F, 0x20] + user
            else [0x52, 0x50, 0x43, 0x20, 0x66, 0x61, 0x69, 0x6C, 0x65, 0x64]
  {
    TextAcross(user, lim);
    TextAcross(PREFIX + user, lim);
    PrefixValid(user);
  }

  lemma GreetingAcross(user: bytes, lim: Limits)
    ensures Returned(OK(Serialize(Message([0x48, 0x65, 0x6C, 0x6C, 0x6F, 0x20] + user, []))), lim)
         == if Utf8.Valid(user) && |user| + 6 <= lim.max then [0x48, 0x65, 0x6C, 0x6C, 0x6F, 0x20] + user
            else [0x52, 0x50, 0x43, 0x20, 0x66, 0x61, 0x69, 0x6C, 0x65, 0x64]
  {
    TextAcross(PREFIX + user, lim);
    PrefixValid(user);
  }

  /** The whole system: any number of clients, calling at any time, at least one handler loop, any
      interleaving. Once no more calls come and nothing more can happen, each call that any state of the
      run has, whose request is what the runtime decoded of its client's bytes, has one reply, and
      reading it gives the client its own greeting. */
  lemma EveryClientIsGreeted(run: seq<State>, m: nat, k: nat, id: CallId, user: bytes, lim: Limits)
    requires Run(run) && run[0].threads != []
    requires k <= m < |run| && QuietFrom(run, m) && Stuck(run[|run| - 1])
    requires id in run[k].calls
    requires Decode(Serialize(Message(user, [])), lim) == Some(run[k].calls[id].request)
    ensures id in run[|run| - 1].calls
    ensures var replies := run[|run| - 1].calls[id].replies;
            && |replies| == 1
            && Returned(OK(Serialize(replies[0])), lim)
               == if |user| + 6 <= lim.max then [0x48, 0x65, 0x6C, 0x6C, 0x6F, 0x20] + user
                  else [0x52, 0x50, 0x43, 0x20, 0x66, 0x61, 0x69, 0x6C, 0x65, 0x64]
  {
    RunKeepsCalls(run, k, m);
    EveryContinuation(run, m);
    TextAcross(user, lim);
    GreetingAcross(user, lim);
  }

  /** A client that calls with the name `user` at any step of a run gets in the end exactly one reply,
      which greets `user`, and reads it as that greeting if it can cross the wire. */
  lemma NewClientIsGreeted(run: seq<State>, k: nat, m: nat, id: CallId, user: bytes, lim: Limits)
    requires Run(run) && run[0].threads != []
    requires k + 1 <= m < |run| && CallStep(run[k], id, Message(user, []), run[k + 1])
    requires QuietFrom(run, m) && Stuck(run[|run| - 1])
    ensures id in run[|run| - 1].calls
    ensures var replies := run[|run| - 1].calls[id].replies;
            && replies == [Message([0x48, 0x65, 0x6C, 0x6C, 0x6F, 0x20] + user, [])]
            && Returned(OK(Serialize(replies[0])), lim)
               == if Utf8.Valid(user) && |user| + 6 <= lim.max then [0x48, 0x65, 0x6C, 0x6C, 0x6F, 0x20] + user
                  else [0x52, 0x50, 0x43, 0x20, 0x66, 0x61, 0x69, 0x6C, 0x65, 0x64]
  {
    NewCallIsAnswered(run, k, m, id, Message(user, []));
    GreetingAcross(user, lim);
  }
}
