/** The echo client and one echo session, joined by two byte pipes. Writes and reads move any number of
    bytes at a time; either side's read may also fail, and writes succeed. */
module Echo {
  import opened Bytes

  /** `max_length` of both programs, and the client's `count`. */
  const MAX_LENGTH: nat := 1024
  const COUNT: nat := 100

  function Zeros(n: nat): (s: bytes)
    ensures |s| == n
  {
    if n == 0 then [] else [0] + Zeros(n - 1)
  }

  /** The client's `write_buf`: "hello", padded with zeros. */
  const BLOCK: bytes := [0x68, 0x65, 0x6C, 0x6C, 0x6F] + Zeros(MAX_LENGTH - 5)

  /** Iteration `i` of the client is writing, with `offset` bytes of the block gone, or reading;
      after the loop, `i` iterations were completed. */
  datatype Client = Writing(i: nat, offset: nat) | Reading(i: nat) | Done(i: nat)

  /** `up` and `down` are the bytes in flight to and from the session, `buffer` what the session has
      read and not written back, `received` all that the client's reads returned. */
  datatype State = State(client: Client, received: bytes, up: bytes, open: bool, buffer: bytes, down: bytes)

  predicate Init(s: State) {
    s == State(Writing(0, 0), [], [], true, [], [])
  }

  predicate ClientWrite(s: State, n: nat, s': State) {
    && s.client.Writing? && 0 < n && s.client.offset + n <= MAX_LENGTH
    && var end := s.client.offset + n;
       s' == s.(up := s.up + BLOCK[s.client.offset..end],
                client := if end == MAX_LENGTH then Reading(s.client.i) else Writing(s.client.i, end))
  }

  predicate ClientRead(s: State, n: nat, s': State) {
    && s.client.Reading? && 0 < n <= MAX_LENGTH && n <= |s.down|
    && s' == s.(received := s.received + s.down[..n],
                down := s.down[n..],
                client := if s.client.i + 1 < COUNT then Writing(s.client.i + 1, 0) else Done(s.client.i + 1))
  }

  predicate SessionRead(s: State, n: nat, s': State) {
    && s.open && s.buffer == [] && 0 < n <= MAX_LENGTH && n <= |s.up|
    && s' == s.(buffer := s.up[..n], up := s.up[n..])
  }

  predicate SessionWrite(s: State, n: nat, s': State) {
    && 0 < n <= |s.buffer|
    && s' == s.(down := s.down + s.buffer[..n], buffer := s.buffer[n..])
  }

  /** A step in which no read fails. */
  ghost predicate Step(s: State, s': State) {
    exists n :: ClientWrite(s, n, s') || ClientRead(s, n, s') || SessionRead(s, n, s') || SessionWrite(s, n, s')
  }

  /** A read that fails, at end of file or otherwise: it ends the loop of its side. */
  predicate ReadFails(s: State, s': State) {
    || (s.client.Reading? && s' == s.(client := Done(s.client.i)))
    || (s.open && s.buffer == [] && s' == s.(open := false))
  }

  ghost predicate Next(s: State, s': State) {
    Step(s, s') || ReadFails(s, s')
  }

  // ----- Conservation -----

  function Repeat(n: nat): (s: bytes)
    ensures |s| == n * MAX_LENGTH
  {
    if n == 0 then [] else Repeat(n - 1) + BLOCK
  }

  /** All the client has written. A read that fails leaves the block of its iteration written. */
  function Sent(c: Client): (s: bytes)
    requires c.Writing? ==> c.offset <= MAX_LENGTH
  {
    match c
    case Writing(i, offset) => Repeat(i) + BLOCK[..offset]
    case Reading(i) => Repeat(i + 1)
    case Done(i) => Repeat(if i == COUNT then COUNT else i + 1)
  }

  lemma {:induction false} ZerosAre(n: nat)
    ensures forall k :: 0 <= k < n ==> Zeros(n)[k] == 0
  {
    if n > 0 {
      ZerosAre(n - 1);
    }
  }

  lemma BlockIs(k: nat)
    requires k < 1024
    ensures |BLOCK| == 1024
    ensures BLOCK[k] == if k < 5 then [0x68, 0x65, 0x6C, 0x6C, 0x6F][k] else 0
  {
    ZerosAre(1019);
  }

  lemma {:induction false} RepeatIs(n: nat, k: nat)
    requires k < n * 1024
    ensures |Repeat(n)| == n * 1024
    ensures Repeat(n)[k] == if k % 1024 < 5 then [0x68, 0x65, 0x6C, 0x6C, 0x6F][k % 1024] else 0
  {
    if k < (n - 1) * 1024 {
      RepeatIs(n - 1, k);
    } else {
      BlockIs(k - (n - 1) * 1024);
    }
  }

  /** All the client has written is "hello" and 1019 zero bytes over and over, as far as it has come. */
  lemma SentIs(c: Client, k: nat)
    requires c.Writing? ==> c.offset <= 1024
    ensures |Sent(c)| == match c
                         case Writing(i, offset) => i * 1024 + offset
                         case Reading(i) => i * 1024 + 1024
                         case Done(i) => if i == 100 then 100 * 1024 else i * 1024 + 1024
    ensures k < |Sent(c)| ==>
              Sent(c)[k] == if k % 1024 < 5 then [0x68, 0x65, 0x6C, 0x6C, 0x6F][k % 1024] else 0
  {
    if k < |Sent(c)| {
      RepeatIs(c.i + 1, k);
    }
  }

  /** What the client sent is what it received and what is still under way, in order. */
  predicate Conserved(s: State) {
    && (s.client.Writing? ==> s.client.offset < MAX_LENGTH)
    && s.received + s.down + s.buffer + s.up == Sent(s.client)
  }

  /** Each completed iteration read at least one byte and at most a block. */
  predicate Inv(s: State) {
    && Conserved(s)
    && s.client.i <= |s.received| <= s.client.i * MAX_LENGTH
    && s.client.i <= COUNT
    && (!s.client.Done? ==> s.client.i < COUNT)
    && (s.open || s.buffer == [])
  }

  lemma ClientWriteInv(s: State, n: nat, s': State)
    requires Inv(s) && ClientWrite(s, n, s')
    ensures Inv(s')
  {
    var offset, part := s.client.offset, BLOCK[s.client.offset..s.client.offset + n];
    var i, before := s.client.i, s.received + s.down + s.buffer;
    assert before + (s.up + part) == before + s.up + part;
    assert BLOCK[..offset] + part == BLOCK[..offset + n];
    assert Repeat(i) + BLOCK[..offset] + part == Repeat(i) + (BLOCK[..offset] + part);
    if offset + n == MAX_LENGTH {
      assert BLOCK[..offset + n] == BLOCK;
    }
  }

  lemma Passed(a: bytes, b: bytes, n: nat, c: bytes, d: bytes)
    requires n <= |b|
    ensures a + b[..n] + b[n..] + c + d == a + b + c + d
  {
    assert a + b[..n] + b[n..] == a + b;
  }

  lemma ClientReadInv(s: State, n: nat, s': State)
    requires Inv(s) && ClientRead(s, n, s')
    ensures Inv(s')
  {
    Passed(s.received, s.down, n, s.buffer, s.up);
    if s'.client.Writing? {
      assert Repeat(s'.client.i) + BLOCK[..0] == Repeat(s'.client.i);
    }
  }

  lemma SessionReadInv(s: State, n: nat, s': State)
    requires Inv(s) && SessionRead(s, n, s')
    ensures Inv(s')
  {
    var before := s.received + s.down;
    assert before + [] == before;
    assert before + s.up[..n] + s.up[n..] == before + (s.up[..n] + s.up[n..]) == before + s.up;
  }

  lemma SessionWriteInv(s: State, n: nat, s': State)
    requires Inv(s) && SessionWrite(s, n, s')
    ensures Inv(s')
  {
    var head, tail := s.buffer[..n], s.buffer[n..];
    assert s.received + (s.down + head) + tail == s.received + s.down + (head + tail) == s.received + s.down + s.buffer;
  }

  lemma NextInv(s: State, s': State)
    requires Inv(s) && Next(s, s')
    ensures Inv(s')
  {
    if n: nat :| ClientWrite(s, n, s') {
      ClientWriteInv(s, n, s');
    } else if n: nat :| ClientRead(s, n, s') {
      ClientReadInv(s, n, s');
    } else if n: nat :| SessionRead(s, n, s') {
      SessionReadInv(s, n, s');
    } else if n: nat :| SessionWrite(s, n, s') {
      SessionWriteInv(s, n, s');
    }
  }

  // ----- Runs -----

  ghost predicate NextAt(run: seq<State>, k: nat)
    requires k + 1 < |run|
  {
    Next(run[k], run[k + 1])
  }

  ghost predicate StepAt(run: seq<State>, k: nat)
    requires k + 1 < |run|
  {
    Step(run[k], run[k + 1])
  }

  ghost predicate Run(run: seq<State>) {
    && run != []
    && Init(run[0])
    && forall k: nat :: k + 1 < |run| ==> NextAt(run, k)
  }

  ghost predicate CleanRun(run: seq<State>) {
    && run != []
    && Init(run[0])
    && forall k: nat :: k + 1 < |run| ==> StepAt(run, k)
  }

  lemma CleanRunIsRun(run: seq<State>)
    requires CleanRun(run)
    ensures Run(run)
  {
    assert forall k: nat :: k + 1 < |run| && StepAt(run, k) ==> NextAt(run, k);
  }

  lemma RunPrefix(run: seq<State>, n: nat)
    requires Run(run) && 0 < n <= |run|
    ensures Run(run[..n])
  {
    assert forall k: nat :: k + 1 < n && NextAt(run, k) ==> NextAt(run[..n], k);
  }

  lemma {:induction false} RunInv(run: seq<State>, k: nat)
    requires Run(run) && k < |run|
    ensures Inv(run[k])
  {
    if k == 0 {
      assert Sent(run[0].client) == [];
    } else {
      RunInv(run, k - 1);
      assert NextAt(run, k - 1);
      NextInv(run[k - 1], run[k]);
    }
  }

  lemma {:induction false} RepeatPrefix(m: nat, n: nat)
    requires m <= n
    ensures Repeat(m) <= Repeat(n)
  {
    if m < n {
      RepeatPrefix(m, n - 1);
    }
  }

  lemma ReceivedPrefix(s: State)
    requires Inv(s)
    ensures s.received <= Repeat(s.client.i)
  {
    RepeatPrefix(s.client.i, s.client.i + 1);
    if s.client.Writing? {
      assert Repeat(s.client.i) <= Sent(s.client);
    }
    assert s.received <= s.received + s.down + s.buffer + s.up;
  }

  function UnderWay(s: State): (n: nat) {
    |s.down| + |s.buffer| + |s.up|
  }

  /** Echo: in every state of every run, under any chunking and any failed reads, the bytes received,
      those on the way back, those in the session and those on the way there are what the client sent.
      What it received is a prefix of its blocks, at least one byte and at most one block for each
      completed iteration. */
  lemma EchoConserves(run: seq<State>, k: nat)
    requires Run(run) && k < |run|
    ensures var s := run[k];
            && (s.client.Writing? ==> s.client.offset < 1024)
            && s.received + s.down + s.buffer + s.up == Sent(s.client)
            && s.received <= Repeat(s.client.i)
            && s.client.i <= |s.received|
    ensures run[k].client == Writing(run[k].client.i, 0) ==> UnderWay(run[k]) <= 1023 * run[k].client.i
    ensures run[k].client.Reading? ==> UnderWay(run[k]) >= 1024
    ensures forall j :: 0 <= j < |run[k].received| ==>
              run[k].received[j] == if j % 1024 < 5 then [0x68, 0x65, 0x6C, 0x6C, 0x6F][j % 1024] else 0
  {
    RunInv(run, k);
    var s := run[k];
    ReceivedPrefix(s);
    forall j | 0 <= j < |s.received|
      ensures s.received[j] == if j % 1024 < 5 then [0x68, 0x65, 0x6C, 0x6C, 0x6F][j % 1024] else 0
    {
      RepeatIs(s.client.i, j);
    }
  }

  // ----- Completion -----

  /** Every byte is written, read by the session, written back and read: four moves. */
  function Moves(s: State): (n: int) {
    4 * (COUNT * MAX_LENGTH - |s.received| - UnderWay(s)) + 3 * |s.up| + 2 * |s.buffer| + |s.down|
  }

  lemma StepMoves(s: State, s': State)
    requires Step(s, s')
    ensures Moves(s') < Moves(s)
  {
  }

  /** As long as the client is not done, or bytes of it are in the session or before it, and the
      session is open, some side can step without failing. */
  lemma Progress(s: State) returns (s': State)
    requires Inv(s) && s.open && !(s.client.Done? && s.up == s.buffer == [])
    ensures Step(s, s')
  {
    if s.buffer != [] {
      s' := s.(down := s.down + s.buffer[..1], buffer := s.buffer[1..]);
      assert SessionWrite(s, 1, s');
    } else if s.up != [] {
      s' := s.(buffer := s.up[..1], up := s.up[1..]);
      assert SessionRead(s, 1, s');
    } else if s.client.Writing? {
      var end := s.client.offset + 1;
      s' := s.(up := s.up + BLOCK[s.client.offset..end],
               client := if end == MAX_LENGTH then Reading(s.client.i) else Writing(s.client.i, end));
      assert ClientWrite(s, 1, s');
    } else {
      assert |s.received + s.down + s.buffer + s.up| == |Repeat(s.client.i + 1)|;
      s' := s.(received := s.received + s.down[..1], down := s.down[1..],
               client := if s.client.i + 1 < COUNT then Writing(s.client.i + 1, 0) else Done(s.client.i + 1));
      assert ClientRead(s, 1, s');
    }
  }

  lemma MovesLeft(s: State)
    requires Inv(s)
    ensures Moves(s) >= 0
  {
    assert |s.received + s.down + s.buffer + s.up| == |Sent(s.client)|;
  }

  lemma {:induction false} CleanRunInv(run: seq<State>, k: nat)
    requires CleanRun(run) && k < |run|
    ensures Inv(run[k]) && run[k].open && (run[k].client.Done? ==> run[k].client.i == COUNT)
  {
    if k == 0 {
      assert Sent(run[0].client) == [];
    } else {
      CleanRunInv(run, k - 1);
      assert StepAt(run, k - 1);
      NextInv(run[k - 1], run[k]);
    }
  }

  lemma {:induction false} CleanRunMoves(run: seq<State>, k: nat)
    requires CleanRun(run) && k < |run|
    ensures Moves(run[k]) <= 4 * COUNT * MAX_LENGTH - k
  {
    if k > 0 {
      CleanRunMoves(run, k - 1);
      assert StepAt(run, k - 1);
      StepMoves(run[k - 1], run[k]);
    }
  }

  ghost predicate Stuck(s: State) {
    !exists s' :: Step(s, s')
  }

  /** The client's read is the one step that changes what it has received. */
  ghost predicate ReadsAt(run: seq<State>, j: nat)
    requires j + 1 < |run|
  {
    run[j].client.Reading? && run[j + 1].received != run[j].received
  }

  /** Whether each of the client's reads in the first `k` steps, if it did not fail, filled its buffer. */
  ghost predicate FullReads(run: seq<State>, k: nat)
    requires k < |run|
  {
    forall j: nat :: j < k && ReadsAt(run, j) ==> |run[j + 1].received| == |run[j].received| + MAX_LENGTH
  }

  lemma NextReceived(s: State, s': State)
    requires Inv(s) && Next(s, s')
    ensures s'.received != s.received ==>
              && s.client.Reading? && s'.client.i == s.client.i + 1
              && |s'.received| <= |s.received| + MAX_LENGTH
    ensures s'.received == s.received ==> s'.client.i == s.client.i
  {
    if n: nat :| ClientRead(s, n, s') {
      assert |s'.received| == |s.received| + n;
    }
  }

  lemma WholeLength(s: State)
    requires Inv(s)
    ensures s.received == Repeat(s.client.i) <==> |s.received| == s.client.i * MAX_LENGTH
  {
    ReceivedPrefix(s);
  }

  lemma FullReadsNext(run: seq<State>, k: nat)
    requires 0 < k < |run|
    ensures FullReads(run, k)
       <==> && FullReads(run, k - 1)
            && (ReadsAt(run, k - 1) ==> |run[k].received| == |run[k - 1].received| + MAX_LENGTH)
  {
  }

  /** In every state of every run, failed reads or not, the client has back the whole blocks of its
      completed iterations exactly when none of its reads was short. */
  lemma {:induction false} WholeBlocks(run: seq<State>, k: nat)
    requires Run(run) && k < |run|
    ensures run[k].received == Repeat(run[k].client.i) <==> FullReads(run, k)
  {
    RunInv(run, k);
    WholeLength(run[k]);
    if k > 0 {
      WholeBlocks(run, k - 1);
      RunInv(run, k - 1);
      WholeLength(run[k - 1]);
      assert NextAt(run, k - 1);
      NextReceived(run[k - 1], run[k]);
      FullReadsNext(run, k);
    }
  }

  /** Without failures the run is bounded, and when it cannot go on the client has completed all its
      iterations, with what it did not read left in the pipe. It has then got all it sent back exactly
      when none of its reads was short: a short read is never made up for. */
  lemma EchoCompletes(run: seq<State>)
    requires CleanRun(run)
    ensures |run| - 1 <= 4 * 100 * 1024
    ensures var s := run[|run| - 1];
            Stuck(s) ==>
              && s.client == Done(100)
              && s.received + s.down == Repeat(100)
              && 100 <= |s.received| <= 100 * 1024
              && (s.received == Repeat(100) <==> FullReads(run, |run| - 1))
  {
    var s := run[|run| - 1];
    CleanRunInv(run, |run| - 1);
    CleanRunMoves(run, |run| - 1);
    MovesLeft(s);
    if Stuck(s) {
      if !(s.client.Done? && s.up == s.buffer == []) {
        var s' := Progress(s);
      }
      assert s.received + s.down + [] + [] == s.received + s.down;
      CleanRunIsRun(run);
      WholeBlocks(run, |run| - 1);
    }
  }

  // ----- A short read -----

  /** Every run without failures can be extended to one that cannot go on. */
  lemma {:induction false} Extends(run: seq<State>) returns (full: seq<State>)
    requires CleanRun(run)
    ensures CleanRun(full) && run <= full && Stuck(full[|full| - 1])
    decreases 4 * COUNT * MAX_LENGTH + 1 - |run|
  {
    EchoCompletes(run);
    var s := run[|run| - 1];
    full := run;
    if s' :| Step(s, s') {
      var longer := run + [s'];
      assert forall k: nat :: k + 1 < |run| && StepAt(run, k) ==> StepAt(longer, k);
      EchoCompletes(longer);
      full := Extends(longer);
    }
  }

  /** The first block goes to the session and back whole; the client's first read returns one byte. */
  lemma ShortRead() returns (run: seq<State>)
    ensures CleanRun(run) && |run| == 5 && !FullReads(run, 4)
  {
    var s0 := State(Writing(0, 0), [], [], true, [], []);
    var s1 := s0.(up := BLOCK, client := Reading(0));
    var s2 := s1.(buffer := BLOCK, up := []);
    var s3 := s2.(down := BLOCK, buffer := []);
    var s4 := s3.(received := BLOCK[..1], down := BLOCK[1..], client := Writing(1, 0));
    assert [] + BLOCK[0..MAX_LENGTH] == BLOCK;
    assert ClientWrite(s0, MAX_LENGTH, s1);
    assert BLOCK[..MAX_LENGTH] == BLOCK && BLOCK[MAX_LENGTH..] == [];
    assert SessionRead(s1, MAX_LENGTH, s2);
    assert [] + BLOCK == BLOCK;
    assert SessionWrite(s2, MAX_LENGTH, s3);
    assert [] + BLOCK[..1] == BLOCK[..1];
    assert ClientRead(s3, 1, s4);
    run := [s0, s1, s2, s3, s4];
    assert ReadsAt(run, 3);
  }

  /** So a client can complete all its iterations, with no failure, and not get back all it sent. */
  lemma EchoCanFallShort() returns (run: seq<State>)
    ensures CleanRun(run) && Stuck(run[|run| - 1])
    ensures var s := run[|run| - 1];
            s.client == Done(100) && |s.received| < 100 * 1024 && s.down != []
  {
    var short := ShortRead();
    run := Extends(short);
    EchoCompletes(run);
    assert run[3] == short[3] && run[4] == short[4];
    assert !FullReads(run, |run| - 1);
    assert run[|run| - 1].received + [] == run[|run| - 1].received;
  }
}
