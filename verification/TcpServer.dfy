/** The accept loop of the echo server: contexts by turns, one executor a context. */
module TcpServer {
  import opened IoContextPool
  import RoundRobin

  datatype Executor = Executor(context: IoContext)

  /** The contexts of a session's socket and timer, and the executor it is scheduled on. */
  datatype Session = Session(socket: IoContext, timer: IoContext, executor: Executor)

  /** The context of iteration `j` when the pool has served `calls` calls before the first. */
  function ContextAt(contexts: seq<IoContext>, calls: nat, j: nat): (c: IoContext)
    requires contexts != []
  {
    contexts[(calls + j) % |contexts|]
  }

  /** The sessions of the iterations whose accept succeeded, each wholly on the context of its turn. */
  function Sessions(contexts: seq<IoContext>, calls: nat, accepts: seq<bool>): (s: seq<Session>)
    requires contexts != []
    decreases |accepts|
  {
    if accepts == [] then []
    else
      var j := |accepts| - 1;
      var c := ContextAt(contexts, calls, j);
      Sessions(contexts, calls, accepts[..j]) + if accepts[j] then [Session(c, c, Executor(c))] else []
  }

  function Successes(accepts: seq<bool>): (n: nat)
    decreases |accepts|
  {
    if accepts == [] then 0
    else Successes(accepts[..|accepts| - 1]) + if accepts[|accepts| - 1] then 1 else 0
  }

  /** Iteration `j`, if its accept succeeds, starts the session numbered by the successes before it,
      with socket, timer and executor all on the context of its turn; there are no other sessions. */
  lemma {:induction false} SessionOf(contexts: seq<IoContext>, calls: nat, accepts: seq<bool>, j: nat)
    requires contexts != [] && j < |accepts|
    ensures |Sessions(contexts, calls, accepts)| == Successes(accepts)
    ensures accepts[j] ==>
              && Successes(accepts[..j]) < Successes(accepts)
              && var c := contexts[(calls + j) % |contexts|];
                 Sessions(contexts, calls, accepts)[Successes(accepts[..j])] == Session(c, c, Executor(c))
    decreases |accepts|
  {
    var before := accepts[..|accepts| - 1];
    if before != [] {
      SessionOf(contexts, calls, before, if j < |before| then j else 0);
    }
    assert j < |before| ==> before[..j] == accepts[..j];
  }

  /** The numbers of the iterations whose accept succeeded, in order. */
  function Started(accepts: seq<bool>): (js: seq<nat>)
    ensures forall k :: 0 <= k < |js| ==> js[k] < |accepts| && accepts[js[k]]
    ensures forall j: nat :: j < |accepts| && accepts[j] ==> j in js
    ensures forall k, l :: 0 <= k < l < |js| ==> js[k] < js[l]
    decreases |accepts|
  {
    if accepts == [] then []
    else Started(accepts[..|accepts| - 1]) + if accepts[|accepts| - 1] then [|accepts| - 1] else []
  }

  /** The session numbered `k` is that of the `k`-th successful iteration `j`, which takes turn
      `calls + j` of the pool. */
  lemma {:induction false} SessionIs(contexts: seq<IoContext>, calls: nat, accepts: seq<bool>, k: nat)
    requires contexts != []
    ensures |Sessions(contexts, calls, accepts)| == |Started(accepts)|
    ensures k < |Started(accepts)| ==>
              var c := contexts[(calls + Started(accepts)[k]) % |contexts|];
              Sessions(contexts, calls, accepts)[k] == Session(c, c, Executor(c))
    decreases |accepts|
  {
    if accepts != [] {
      SessionIs(contexts, calls, accepts[..|accepts| - 1], k);
    }
  }

  lemma SessionsAre(contexts: seq<IoContext>, calls: nat, accepts: seq<bool>, sessions: seq<Session>)
    requires contexts != [] && sessions == Sessions(contexts, calls, accepts)
    ensures |sessions| == |Started(accepts)|
    ensures forall k :: 0 <= k < |sessions| ==>
              var c := contexts[(calls + Started(accepts)[k]) % |contexts|];
              sessions[k] == Session(c, c, Executor(c))
  {
    SessionIs(contexts, calls, accepts, 0);
    forall k | 0 <= k < |sessions|
      ensures var c := contexts[(calls + Started(accepts)[k]) % |contexts|];
              sessions[k] == Session(c, c, Executor(c))
    {
      SessionIs(contexts, calls, accepts, k);
    }
  }

  /** The contexts of the first `m` iterations. */
  ghost function Visited(contexts: seq<IoContext>, calls: nat, m: nat): (cs: set<IoContext>)
    requires contexts != []
  {
    set j: nat | j < m :: ContextAt(contexts, calls, j)
  }

  lemma NextIteration(contexts: seq<IoContext>, calls: nat, accepts: seq<bool>, i: nat)
    requires contexts != [] && i < |accepts|
    ensures var c := ContextAt(contexts, calls, i);
            && Visited(contexts, calls, i + 1) == Visited(contexts, calls, i) + {c}
            && Sessions(contexts, calls, accepts[..i + 1])
               == Sessions(contexts, calls, accepts[..i]) + if accepts[i] then [Session(c, c, Executor(c))] else []
  {
    assert accepts[..i + 1][..i] == accepts[..i];
  }

  /** `n` iterations in a row visit every context. */
  lemma AllVisited(contexts: seq<IoContext>, calls: nat, m: nat, i: nat)
    requires i < |contexts| <= m
    ensures contexts[i] in Visited(contexts, calls, m)
  {
    var n := |contexts|;
    RoundRobin.EveryWindow(calls, n, i);
    var k := RoundRobin.UsedBy(calls, calls + n, n, i);
    assert ContextAt(contexts, calls, k - calls) == contexts[i];
  }

  lemma AllContextsVisited(contexts: seq<IoContext>, calls: nat, m: nat)
    requires 0 < |contexts| <= m
    ensures Visited(contexts, calls, m) == set c | c in contexts
  {
    forall c | c in contexts
      ensures c in Visited(contexts, calls, m)
    {
      var i :| 0 <= i < |contexts| && contexts[i] == c;
      AllVisited(contexts, calls, m, i);
    }
  }

  lemma AllFiled(keys: set<IoContext>, before: set<IoContext>, contexts: seq<IoContext>, calls: nat, m: nat)
    requires 0 < |contexts| <= m
    requires keys == before + Visited(contexts, calls, m)
    requires forall c :: c in keys ==> c in contexts
    ensures keys == set c | c in contexts
  {
    AllContextsVisited(contexts, calls, m);
  }

  class TcpServer {
    const pool: IoContextPool
    var executorMap: map<IoContext, Executor>

    /** Every executor wraps the context it is filed under, and that context is of the pool. */
    ghost predicate Valid()
      reads this, pool
    {
      && pool.Valid()
      && forall c :: c in executorMap ==> c in pool.contexts && executorMap[c] == Executor(c)
    }

    constructor (pool: IoContextPool)
      requires pool.Valid()
      ensures Valid() && this.pool == pool && executorMap == map[]
    {
      this.pool := pool;
      executorMap := map[];
    }

    /** The accept loop, run for as many accepts as `accepts` tells the outcomes of. A failed accept
        still uses up a turn and files an executor. */
    method AcceptAll(accepts: seq<bool>) returns (sessions: seq<Session>)
      requires Valid()
      modifies `executorMap, pool
      ensures Valid() && pool.contexts == old(pool.contexts)
      ensures pool.calls == old(pool.calls) + |accepts|
      ensures sessions == Sessions(pool.contexts, old(pool.calls), accepts)
      ensures executorMap.Keys == old(executorMap.Keys) + Visited(pool.contexts, old(pool.calls), |accepts|)
      ensures forall c :: c in old(executorMap) ==> executorMap[c] == old(executorMap[c])
    {
      sessions := [];
      ghost var contexts, first := pool.contexts, pool.calls;
      for i := 0 to |accepts|
        invariant Valid() && pool.contexts == contexts && pool.calls == first + i
        invariant sessions == Sessions(contexts, first, accepts[..i])
        invariant executorMap.Keys == old(executorMap.Keys) + Visited(contexts, first, i)
        invariant forall c :: c in old(executorMap) ==> executorMap[c] == old(executorMap[c])
      {
        NextIteration(contexts, first, accepts, i);
        var context := pool.GetIoContext();
        if context !in executorMap {
          executorMap := executorMap[context := Executor(context)];
        }
        if !accepts[i] {
          continue;
        }
        sessions := sessions + [Session(context, context, executorMap[context])];
      }
      assert accepts[..|accepts|] == accepts;
    }

    /** The acceptor takes the pool's next turn and iteration `j` the turn `j` after it; each accept
        that succeeds starts a session wholly on the context of its turn. */
    method Start(accepts: seq<bool>) returns (acceptor: IoContext, sessions: seq<Session>)
      requires Valid()
      modifies `executorMap, pool
      ensures Valid() && pool.contexts == old(pool.contexts)
      ensures pool.calls == old(pool.calls) + 1 + |accepts|
      ensures acceptor == pool.contexts[old(pool.calls) % |pool.contexts|]
      ensures sessions == Sessions(pool.contexts, old(pool.calls) + 1, accepts)
      ensures |sessions| == |Started(accepts)|
      ensures forall k :: 0 <= k < |sessions| ==>
                var c := pool.contexts[(old(pool.calls) + 1 + Started(accepts)[k]) % |pool.contexts|];
                sessions[k] == Session(c, c, Executor(c))
      ensures executorMap.Keys
           == old(executorMap.Keys) + Visited(pool.contexts, old(pool.calls) + 1, |accepts|)
      ensures forall c :: c in executorMap ==> executorMap[c] == Executor(c)
      ensures forall c :: c in old(executorMap) ==> executorMap[c] == old(executorMap[c])
      ensures |accepts| >= |pool.contexts| ==> executorMap.Keys == set c | c in pool.contexts
    {
      acceptor := pool.GetIoContext();
      sessions := AcceptAll(accepts);
      SessionsAre(pool.contexts, old(pool.calls) + 1, accepts, sessions);
      if |accepts| >= |pool.contexts| {
        AllFiled(executorMap.Keys, old(executorMap.Keys), pool.contexts, old(pool.calls) + 1, |accepts|);
      }
    }
  }
}
