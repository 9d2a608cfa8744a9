/** `Proceed` as its text reads, for a thread that nothing interrupts: what each of its three branches
    does from its first statement to its last. */
module Proceed {
  import opened Bytes
  import opened Message
  import opened GreeterServer

  ghost predicate AloneAt(run: seq<State>, t: nat, cs: seq<Choice>, i: nat)
    requires i < |cs| && i + 1 < |run|
  {
    ThreadStep(run[i], t, cs[i], run[i + 1])
  }

  /** Thread `t` takes all the steps, with these choices. */
  ghost predicate Alone(run: seq<State>, t: nat, cs: seq<Choice>) {
    && |run| == |cs| + 1
    && forall i: nat :: i < |cs| ==> AloneAt(run, t, cs, i)
  }

  /** The constructor, once its instance has been made: it becomes PROCESS and is registered, and the
      thread goes on where the constructor was called. */
  lemma Created(s0: State, s1: State, s2: State, s3: State, t: nat, c0: Choice, c1: Choice, c2: Choice, b: Address,
                caller: Caller)
    requires ThreadStep(s0, t, c0, s1) && ThreadStep(s1, t, c1, s2) && ThreadStep(s2, t, c2, s3)
    requires s0.threads[t] == Enter(b, caller) && b in s0.live && s0.live[b].status == CREATE
    ensures s3 == s0.(live := s0.live[b := s0.live[b].(status := PROCESS)],
                      registered := s0.registered + multiset{b},
                      threads := s0.threads[t := if caller.Parent? then SetReply(caller.parent) else Idle])
  {
    assert s1.threads[t] == SetProcess(b, caller);
    assert s2.threads[t] == Request(b, caller);
    var pc := if caller.Parent? then SetReply(caller.parent) else Idle;
    assert s0.threads[t := SetProcess(b, caller)][t := Request(b, caller)][t := pc] == s0.threads[t := pc];
  }

  /** `HandleRpcs` before its loop: a new instance, registered for the next call. */
  lemma HandlerStarts(run: seq<State>, t: nat, cs: seq<Choice>)
    requires |cs| == 4 && Alone(run, t, cs) && t < |run[0].threads| && run[0].threads[t] == Boot
    ensures var s, b := run[0], cs[0].tag;
            && b !in s.live
            && run[4] == s.(live := s.live[b := CallData(PROCESS, EMPTY, EMPTY, None)],
                            registered := s.registered + multiset{b},
                            threads := s.threads[t := Idle])
  {
    var s, b := run[0], cs[0].tag;
    assert AloneAt(run, t, cs, 0) && AloneAt(run, t, cs, 1) && AloneAt(run, t, cs, 2) && AloneAt(run, t, cs, 3);
    Created(run[1], run[2], run[3], run[4], t, cs[1], cs[2], cs[3], b, Start);
    assert s.threads[t := Enter(b, Start)][t := Idle] == s.threads[t := Idle];
  }

  /** The second half of the PROCESS branch: the reply is "Hello " and the name, the status is FINISH
      before the reply is sent, with the instance's own tag, to the call it serves. */
  lemma Replied(s0: State, s1: State, s2: State, s3: State, t: nat, c0: Choice, c1: Choice, c2: Choice, a: Address)
    requires ThreadStep(s0, t, c0, s1) && ThreadStep(s1, t, c1, s2) && ThreadStep(s2, t, c2, s3)
    requires s0.threads[t] == SetReply(a)
    ensures a in s0.live && s0.live[a].call.Some? && s0.live[a].call.value in s0.calls
    ensures var me := s0.live[a];
            var id := me.call.value;
            var reply := me.reply.(text := [0x48, 0x65, 0x6C, 0x6C, 0x6F, 0x20] + me.request.text);
            s3 == s0.(live := s0.live[a := CallData(FINISH, me.request, reply, None)],
                      finishing := s0.finishing + multiset{a},
                      calls := s0.calls[id := s0.calls[id].(replies := s0.calls[id].replies + [reply])],
                      threads := s0.threads[t := Idle])
  {
    assert s1.threads[t] == SetFinish(a) && s2.threads[t] == Finish(a);
    assert s0.threads[t := SetFinish(a)][t := Finish(a)][t := Idle] == s0.threads[t := Idle];
  }

  /** The PROCESS branch: a successor is made and registered, and the call gets its reply. */
  lemma Processed(run: seq<State>, t: nat, cs: seq<Choice>, a: Address, caller: Caller)
    requires |cs| == 8 && Alone(run, t, cs) && t < |run[0].threads| && run[0].threads[t] == Enter(a, caller)
    requires a in run[0].live && run[0].live[a].status == PROCESS
    ensures run[0].live[a].call.Some? && run[0].live[a].call.value in run[0].calls
    ensures var s, b := run[0], cs[1].tag;
            var me := s.live[a];
            var id := me.call.value;
            var reply := me.reply.(text := [0x48, 0x65, 0x6C, 0x6C, 0x6F, 0x20] + me.request.text);
            && b !in s.live
            && run[8] == s.(live := s.live[b := CallData(PROCESS, EMPTY, EMPTY, None)]
                                          [a := CallData(FINISH, me.request, reply, None)],
                            registered := s.registered + multiset{b},
                            finishing := s.finishing + multiset{a},
                            calls := s.calls[id := s.calls[id].(replies := s.calls[id].replies + [reply])],
                            threads := s.threads[t := Idle])
  {
    var s, b := run[0], cs[1].tag;
    assert AloneAt(run, t, cs, 0) && AloneAt(run, t, cs, 1) && AloneAt(run, t, cs, 2) && AloneAt(run, t, cs, 3);
    assert AloneAt(run, t, cs, 4) && AloneAt(run, t, cs, 5) && AloneAt(run, t, cs, 6) && AloneAt(run, t, cs, 7);
    Spawned(run[0], run[1], run[2], t, cs[0], cs[1], a, caller);
    Created(run[2], run[3], run[4], run[5], t, cs[2], cs[3], cs[4], b, Parent(a));
    Replied(run[5], run[6], run[7], run[8], t, cs[5], cs[6], cs[7], a);
    assert s.threads[t := Enter(b, Parent(a))][t := SetReply(a)][t := Idle] == s.threads[t := Idle];
  }

  lemma Spawned(s0: State, s1: State, s2: State, t: nat, c0: Choice, c1: Choice, a: Address, caller: Caller)
    requires ThreadStep(s0, t, c0, s1) && ThreadStep(s1, t, c1, s2)
    requires s0.threads[t] == Enter(a, caller) && a in s0.live && s0.live[a].status == PROCESS
    ensures c1.tag !in s0.live
    ensures s2 == s0.(live := s0.live[c1.tag := CallData(CREATE, EMPTY, EMPTY, None)],
                      threads := s0.threads[t := Enter(c1.tag, Parent(a))])
  {
    assert s1.threads[t] == Spawn(a);
    assert s0.threads[t := Spawn(a)][t := Enter(c1.tag, Parent(a))] == s0.threads[t := Enter(c1.tag, Parent(a))];
  }

  /** The FINISH branch deletes the instance. */
  lemma Finished(run: seq<State>, t: nat, cs: seq<Choice>, a: Address, caller: Caller)
    requires |cs| == 3 && Alone(run, t, cs) && t < |run[0].threads| && run[0].threads[t] == Enter(a, caller)
    requires a in run[0].live && run[0].live[a].status == FINISH
    ensures run[3] == run[0].(live := run[0].live - {a}, threads := run[0].threads[t := Idle])
  {
    var s := run[0];
    assert AloneAt(run, t, cs, 0) && AloneAt(run, t, cs, 1) && AloneAt(run, t, cs, 2);
    assert run[1].threads[t] == Check(a) && run[2].threads[t] == Delete(a);
    assert s.threads[t := Check(a)][t := Delete(a)][t := Idle] == s.threads[t := Idle];
  }
}
