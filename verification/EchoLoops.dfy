/** The two loops of the echo as each program runs them, over what its reads return: the session's
    loop with its buffer, and the client's counted loop. Fed with the reads of a run of `Echo`, where
    the pipes join them, they write and receive what the run does. */
module EchoLoops {
  import opened Bytes
  import opened Echo

  /** What `async_read_some` gives: an error, or at least one byte and at most a buffer full. */
  datatype Outcome = Error | Eof | Data(data: bytes)

  predicate Possible(o: Outcome) {
    o.Data? ==> 0 < |o.data| <= MAX_LENGTH
  }

  /** The reads before the first that fails. */
  function Successful(outcomes: seq<Outcome>): (n: nat)
    ensures n <= |outcomes|
    ensures forall i :: 0 <= i < n ==> outcomes[i].Data?
    ensures n < |outcomes| ==> !outcomes[n].Data?
  {
    if outcomes == [] || !outcomes[0].Data? then 0 else 1 + Successful(outcomes[1..])
  }

  /** The bytes of the first `n` reads. */
  function Contents(outcomes: seq<Outcome>, n: nat): (s: bytes)
    requires n <= |outcomes| && forall i :: 0 <= i < n ==> outcomes[i].Data?
  {
    if n == 0 then [] else Contents(outcomes, n - 1) + outcomes[n - 1].data
  }

  lemma {:induction false} SuccessfulUnique(outcomes: seq<Outcome>, n: nat)
    requires n <= |outcomes| && forall i :: 0 <= i < n ==> outcomes[i].Data?
    requires n < |outcomes| ==> !outcomes[n].Data?
    ensures n == Successful(outcomes)
  {
    if n > 0 {
      SuccessfulUnique(outcomes[1..], n - 1);
    }
  }

  lemma {:induction false} SuccessfulAtLeast(outcomes: seq<Outcome>, n: nat)
    requires n <= |outcomes| && forall i :: 0 <= i < n ==> outcomes[i].Data?
    ensures n <= Successful(outcomes)
  {
    if n > 0 {
      SuccessfulAtLeast(outcomes[1..], n - 1);
    }
  }

  /** `async_read_some` into a buffer: the bytes read are put at its front. */
  method ReadSome(o: Outcome, buffer: array<byte>) returns (ok: bool, length: nat)
    requires Possible(o) && buffer.Length == MAX_LENGTH
    modifies buffer
    ensures ok == o.Data?
    ensures ok ==> length == |o.data| && buffer[..length] == o.data
    ensures !ok ==> length == 0
  {
    ok, length := o.Data?, 0;
    if ok {
      while length < |o.data|
        invariant length <= |o.data|
        invariant buffer[..length] == o.data[..length]
      {
        buffer[length] := o.data[length];
        length := length + 1;
      }
    }
  }

  /** The session writes back exactly the bytes it read, without the padding of its buffer, until a read
      fails; it then closes the socket. It goes on as long as there are reads. */
  method Session(outcomes: seq<Outcome>) returns (written: bytes, closed: bool)
    requires forall i :: 0 <= i < |outcomes| ==> Possible(outcomes[i])
    ensures written == Contents(outcomes, Successful(outcomes))
    ensures closed <==> Successful(outcomes) < |outcomes|
  {
    written, closed := [], false;
    for i := 0 to |outcomes|
      invariant !closed && forall j :: 0 <= j < i ==> outcomes[j].Data?
      invariant written == Contents(outcomes, i)
    {
      var data := new byte[MAX_LENGTH](_ => 0);
      var ok, length := ReadSome(outcomes[i], data);
      if !ok {
        SuccessfulUnique(outcomes, i);
        closed := true;
        return;
      }
      written := written + data[..length];
    }
    SuccessfulUnique(outcomes, |outcomes|);
  }

  /** Whether the outcomes are as many as the client's loop looks at. */
  predicate Enough(outcomes: seq<Outcome>) {
    |outcomes| >= COUNT || Successful(outcomes) < |outcomes|
  }

  predicate Full(o: Outcome) {
    o.Data? && |o.data| == MAX_LENGTH
  }

  lemma AllSent(i: nat)
    ensures forall k :: 0 <= k < |Sent(Done(i))| ==>
              Sent(Done(i))[k] == if k % 1024 < 5 then [0x68, 0x65, 0x6C, 0x6C, 0x6F][k % 1024] else 0
    ensures |Sent(Done(i))| == if i == 100 then 100 * 1024 else i * 1024 + 1024
  {
    SentIs(Done(i), 0);
    forall k | 0 <= k < |Sent(Done(i))|
      ensures Sent(Done(i))[k] == if k % 1024 < 5 then [0x68, 0x65, 0x6C, 0x6C, 0x6F][k % 1024] else 0
    {
      SentIs(Done(i), k);
    }
  }

  /** The client's loop: it completes the reads before the first failure, at most `COUNT`, and has then
      written what the joint model says of a client that is done after as many. It has got back as many
      bytes as it wrote exactly when each of its `COUNT` reads filled the buffer. */
  method ClientLoop(outcomes: seq<Outcome>) returns (written: bytes, received: bytes, iterations: nat)
    requires Enough(outcomes) && forall i :: 0 <= i < |outcomes| ==> Possible(outcomes[i])
    ensures iterations == if Successful(outcomes) < 100 then Successful(outcomes) else 100
    ensures written == Sent(Done(iterations))
    ensures |written| == if iterations == 100 then 100 * 1024 else iterations * 1024 + 1024
    ensures forall k :: 0 <= k < |written| ==>
              written[k] == if k % 1024 < 5 then [0x68, 0x65, 0x6C, 0x6C, 0x6F][k % 1024] else 0
    ensures received == Contents(outcomes, iterations)
    ensures |received| == |written|
       <==> |outcomes| >= 100 && forall i :: 0 <= i < 100 ==> outcomes[i].Data? && |outcomes[i].data| == 1024
  {
    var readBuf := new byte[MAX_LENGTH](_ => 0);
    written, received, iterations := [], [], 0;
    while iterations < COUNT
      invariant iterations <= COUNT && iterations <= |outcomes|
      invariant forall j :: 0 <= j < iterations ==> outcomes[j].Data?
      invariant written == Repeat(iterations)
      invariant received == Contents(outcomes, iterations)
      invariant |received| <= iterations * MAX_LENGTH
      invariant |received| == iterations * MAX_LENGTH <==> forall j :: 0 <= j < iterations ==> Full(outcomes[j])
    {
      if iterations == |outcomes| {
        SuccessfulUnique(outcomes, iterations);
      }
      written := written + BLOCK;
      var ok, length := ReadSome(outcomes[iterations], readBuf);
      if !ok {
        SuccessfulUnique(outcomes, iterations);
        AllSent(iterations);
        return;
      }
      received := received + readBuf[..length];
      iterations := iterations + 1;
    }
    SuccessfulAtLeast(outcomes, iterations);
    AllSent(iterations);
  }

  // ----- The loops in a run of the joint model -----

  /** What the client's read returned in the step from `s` to `s'`, if that step is one. */
  function ClientOutcome(s: State, s': State): (os: seq<Outcome>) {
    if !s.client.Reading? || s'.client == s.client then []
    else if |s.received| < |s'.received| then [Data(s'.received[|s.received|..])]
    else [Error]
  }

  function SessionOutcome(s: State, s': State): (os: seq<Outcome>) {
    if s.open && !s'.open then [Error]
    else if s.buffer == [] && s'.buffer != [] then [Data(s'.buffer)]
    else []
  }

  /** What the client's reads returned, in their order. */
  function ClientReads(run: seq<State>): (os: seq<Outcome>) {
    if |run| < 2 then []
    else ClientReads(run[..|run| - 1]) + ClientOutcome(run[|run| - 2], run[|run| - 1])
  }

  function SessionReads(run: seq<State>): (os: seq<Outcome>) {
    if |run| < 2 then []
    else SessionReads(run[..|run| - 1]) + SessionOutcome(run[|run| - 2], run[|run| - 1])
  }

  predicate AllData(os: seq<Outcome>, n: nat) {
    n <= |os| && forall i :: 0 <= i < n ==> os[i].Data?
  }

  predicate AllPossible(os: seq<Outcome>) {
    forall i :: 0 <= i < |os| ==> Possible(os[i])
  }

  lemma {:induction false} ContentsAppend(os: seq<Outcome>, more: seq<Outcome>, n: nat)
    requires AllData(os, n)
    ensures AllData(os + more, n) && Contents(os + more, n) == Contents(os, n)
  {
    if n > 0 {
      ContentsAppend(os, more, n - 1);
    }
  }

  /** The reads of a client in state `s`: one for each completed iteration, and the one that failed if
      it gave up early. */
  predicate ClientSaw(os: seq<Outcome>, s: State) {
    && AllPossible(os)
    && AllData(os, s.client.i)
    && Contents(os, s.client.i) == s.received
    && if s.client.Done? && s.client.i < COUNT then |os| == s.client.i + 1 && !os[s.client.i].Data?
       else |os| == s.client.i
  }

  /** The reads of a session in state `s`: all it read it has written back or still holds, and the last
      failed if it has closed. */
  predicate SessionSaw(os: seq<Outcome>, s: State) {
    && AllPossible(os)
    && (s.open || (os != [] && !os[|os| - 1].Data?))
    && var n := if s.open then |os| else |os| - 1;
       AllData(os, n) && Contents(os, n) == s.received + s.down + s.buffer
  }

  lemma ClientSees(os: seq<Outcome>, s: State, s': State)
    requires ClientSaw(os, s) && Inv(s) && Next(s, s')
    ensures ClientSaw(os + ClientOutcome(s, s'), s')
  {
    var o := ClientOutcome(s, s');
    ContentsAppend(os, o, s.client.i);
    if n: nat :| ClientRead(s, n, s') {
      assert s'.received[|s.received|..] == s.down[..n];
    }
  }

  lemma SessionKeeps(os: seq<Outcome>, s: State, s': State)
    requires SessionSaw(os, s) && s'.open == s.open && SessionOutcome(s, s') == []
    requires s'.received + s'.down + s'.buffer == s.received + s.down + s.buffer
    ensures SessionSaw(os + SessionOutcome(s, s'), s')
  {
    assert os + [] == os;
  }

  lemma SessionGets(os: seq<Outcome>, s: State, n: nat, s': State)
    requires SessionSaw(os, s) && SessionRead(s, n, s')
    ensures SessionSaw(os + SessionOutcome(s, s'), s')
  {
    ContentsAppend(os, [Data(s'.buffer)], |os|);
    assert s.received + s.down + [] == s.received + s.down;
  }

  lemma SessionFails(os: seq<Outcome>, s: State, s': State)
    requires SessionSaw(os, s) && s.open && s' == s.(open := false)
    ensures SessionSaw(os + SessionOutcome(s, s'), s')
  {
    ContentsAppend(os, [Error], |os|);
  }

  lemma SessionPuts(os: seq<Outcome>, s: State, n: nat, s': State)
    requires SessionSaw(os, s) && SessionWrite(s, n, s')
    ensures SessionSaw(os + SessionOutcome(s, s'), s')
  {
    var head, tail := s.buffer[..n], s.buffer[n..];
    assert s.received + (s.down + head) + tail == s.received + s.down + (head + tail);
    assert head + tail == s.buffer;
    SessionKeeps(os, s, s');
  }

  lemma ClientTakes(os: seq<Outcome>, s: State, n: nat, s': State)
    requires SessionSaw(os, s) && ClientRead(s, n, s')
    ensures SessionSaw(os + SessionOutcome(s, s'), s')
  {
    var head, tail := s.down[..n], s.down[n..];
    assert s.received + head + tail == s.received + (head + tail);
    assert head + tail == s.down;
    SessionKeeps(os, s, s');
  }

  lemma SessionSees(os: seq<Outcome>, s: State, s': State)
    requires SessionSaw(os, s) && Next(s, s')
    ensures SessionSaw(os + SessionOutcome(s, s'), s')
  {
    if n: nat :| SessionRead(s, n, s') {
      SessionGets(os, s, n, s');
    } else if n: nat :| SessionWrite(s, n, s') {
      SessionPuts(os, s, n, s');
    } else if n: nat :| ClientRead(s, n, s') {
      ClientTakes(os, s, n, s');
    } else if s.open && !s'.open {
      SessionFails(os, s, s');
    } else {
      SessionKeeps(os, s, s');
    }
  }

  lemma {:induction false} ReadsInRun(run: seq<State>)
    requires Run(run)
    ensures ClientSaw(ClientReads(run), run[|run| - 1])
    ensures SessionSaw(SessionReads(run), run[|run| - 1])
  {
    var k := |run| - 1;
    if k > 0 {
      assert NextAt(run, k - 1);
      RunPrefix(run, k);
      ReadsInRun(run[..k]);
      RunInv(run, k - 1);
      ClientSees(ClientReads(run[..k]), run[k - 1], run[k]);
      SessionSees(SessionReads(run[..k]), run[k - 1], run[k]);
    }
  }

  /** In any run, failed reads or not, a client that is done is its loop over what its reads returned. */
  method ClientInRun(run: seq<State>) returns (written: bytes, received: bytes, iterations: nat)
    requires Run(run) && run[|run| - 1].client.Done?
    ensures var s := run[|run| - 1];
            s.client == Done(iterations) && written == Sent(s.client) && received == s.received
  {
    ReadsInRun(run);
    RunInv(run, |run| - 1);
    var os := ClientReads(run);
    SuccessfulUnique(os, run[|run| - 1].client.i);
    written, received, iterations := ClientLoop(os);
  }

  /** In any run the session is its loop over what its reads returned: what it writes back is what the
      client has received or can still read, and the rest of its buffer if it is in the middle of
      writing that. */
  method SessionInRun(run: seq<State>) returns (written: bytes, closed: bool)
    requires Run(run)
    ensures var s := run[|run| - 1];
            && closed == !s.open
            && written == s.received + s.down + s.buffer
            && Conserved(s) && written <= Sent(s.client)
  {
    ReadsInRun(run);
    RunInv(run, |run| - 1);
    ghost var s := run[|run| - 1];
    var os := SessionReads(run);
    SuccessfulUnique(os, if s.open then |os| else |os| - 1);
    written, closed := Session(os);
    assert s.received + s.down + s.buffer <= s.received + s.down + s.buffer + s.up;
  }
}
