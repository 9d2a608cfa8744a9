/** The round-robin pool of I/O contexts, and the second round robin of the HTTP client test, which
    wraps its counter before using it. */
module IoContextPool {
  import RoundRobin

  /** An I/O context; only its identity matters here. */
  class IoContext {
    constructor () {}
  }

  predicate Differ(contexts: seq<IoContext>, i: nat, j: nat) {
    i < j < |contexts| ==> contexts[i] != contexts[j]
  }

  class IoContextPool {
    var contexts: seq<IoContext>
    var work: seq<IoContext>
    var next: nat
    ghost var calls: nat

    /** Distinct contexts, each with an executor that keeps it running, and the turn that the calls
        made so far lead to. */
    ghost predicate Valid()
      reads this
    {
      && contexts != []
      && (forall i: nat, j: nat :: Differ(contexts, i, j))
      && work == contexts
      && next == calls % |contexts|
    }

    constructor (poolSize: nat)
      requires poolSize > 0
      ensures Valid() && fresh(contexts) && |contexts| == poolSize && calls == 0
      ensures next == 0 && work == contexts
      ensures forall i, j :: 0 <= i < j < poolSize ==> contexts[i] != contexts[j]
    {
      contexts, work, next, calls := [], [], 0, 0;
      new;
      for i := 0 to poolSize
        invariant |contexts| == i && work == contexts && next == calls == 0
        invariant fresh(contexts)
        invariant forall j: nat, k: nat :: Differ(contexts, j, k)
      {
        ghost var before := contexts;
        var context := new IoContext();
        contexts := contexts + [context];
        work := work + [context];
        forall j: nat, k: nat
          ensures Differ(contexts, j, k)
        {
          assert Differ(before, j, k);
        }
      }
      assert forall i, j :: 0 <= i < j < poolSize ==> contexts[i] != contexts[j] by {
        assert forall i: nat, j: nat :: Differ(contexts, i, j);
        forall i, j | 0 <= i < j < poolSize
          ensures contexts[i] != contexts[j]
        {
          assert Differ(contexts, i, j);
        }
      }
    }

    /** Call `k`, counting from 0, returns context `k % n`. */
    method GetIoContext() returns (context: IoContext)
      requires Valid()
      modifies this
      ensures Valid() && calls == old(calls) + 1
      ensures contexts == old(contexts) && context == contexts[old(calls) % |contexts|]
      ensures work == old(work) && next == (old(calls) + 1) % |contexts|
    {
      context := contexts[next];
      RoundRobin.NextTurn(calls, |contexts|);
      next := next + 1;
      if next == |contexts| {
        next := 0;
      }
      calls := calls + 1;
    }
  }

  /** The constructor with its exception: a pool of no contexts is refused, as null. */
  method MakePool(poolSize: nat) returns (pool: IoContextPool?)
    ensures pool == null <==> poolSize == 0
    ensures pool != null ==> fresh(pool) && fresh(pool.contexts) && pool.Valid()
    ensures pool != null ==> |pool.contexts| == poolSize && pool.calls == 0 && pool.work == pool.contexts
    ensures pool != null ==> forall i, j :: 0 <= i < j < poolSize ==> pool.contexts[i] != pool.contexts[j]
  {
    if poolSize == 0 {
      return null;
    }
    pool := new IoContextPool(poolSize);
  }

  /** The client chooser of the HTTP test: its counter runs over 0..n, both ends included. */
  class HttpClients<T> {
    const clients: seq<T>
    var count: nat
    ghost var calls: nat

    ghost predicate Valid()
      reads this
    {
      && clients != []
      && count == if calls == 0 then 0 else (calls - 1) % |clients| + 1
    }

    constructor (clients: seq<T>)
      requires clients != []
      ensures Valid() && this.clients == clients && calls == 0
    {
      this.clients := clients;
      count, calls := 0, 0;
    }

    /** The same sequence of turns as `IoContextPool.GetIoContext`. */
    method Get() returns (client: T)
      requires Valid()
      modifies this
      ensures Valid() && calls == old(calls) + 1
      ensures client == clients[old(calls) % |clients|]
    {
      if calls > 0 {
        RoundRobin.NextTurn(calls - 1, |clients|);
      }
      if count == |clients| {
        count := 0;
      }
      client := clients[count];
      count := count + 1;
      calls := calls + 1;
    }
  }
}
