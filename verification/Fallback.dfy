/** The fallback client: tries the client that last answered for a host, then every registered one in order. */
module FallbackClient {
  import opened Wrappers
  import opened Api
  import opened TTLCache

  const HOST_TIMEOUT: int := 5 * 3600   // seconds

  /** What each attempt of one call comes to, by its number; the same client may be asked twice. */
  type Attempts = nat -> Result<seq<ImageTag>>

  /** A registered client, by identity. */
  type ClientId = nat

  /** The clients one call asks, in order, if every attempt fails. */
  function Plan(cached: Option<ClientId>, clients: seq<ClientId>): seq<ClientId> {
    (if cached.Some? then [cached.value] else []) + clients
  }

  /** The number of the first attempt below n that succeeds. */
  function FirstSuccess(answers: Attempts, n: nat): (r: Option<nat>)
    ensures r.None? ==> forall i :: 0 <= i < n ==> answers(i).Err?
    ensures r.Some? ==> r.value < n && answers(r.value).Ok? && forall i :: 0 <= i < r.value ==> answers(i).Err?
  {
    if n == 0 then None
    else
      var r := FirstSuccess(answers, n - 1);
      if r.Some? then r else if answers(n - 1).Ok? then Some(n - 1) else None
  }

  lemma FirstSuccessIs(answers: Attempts, n: nat, k: nat)
    requires k < n && answers(k).Ok? && forall i :: 0 <= i < k ==> answers(i).Err?
    ensures FirstSuccess(answers, n) == Some(k)
  {
  }

  class Client {
    const clients: seq<ClientId>
    const hostCache: Cache<ClientId>
    /** Every (host, client) pair of a successful attempt so far. */
    ghost var answered: set<(string, ClientId)>

    constructor (clients: seq<ClientId>)
      ensures Valid() && this.clients == clients && fresh(hostCache)
      ensures hostCache.store == map[] && hostCache.timeout == 18000 && answered == {}
    {
      this.clients := clients;
      hostCache := new Cache(HOST_TIMEOUT);
      answered := {};
    }

    /** Every cached client is a registered one that has answered for that host. */
    ghost predicate Valid()
      reads this, hostCache
    {
      && hostCache.timeout == HOST_TIMEOUT
      && forall host :: host in hostCache.store ==>
           hostCache.store[host].value in clients && (host, hostCache.store[host].value) in answered
    }

    /** The live cached client of a host. */
    function Cached(now: int, host: string): Option<ClientId>
      reads hostCache
    {
      if host in hostCache.store && Live(hostCache.store[host], now) then Some(hostCache.store[host].value) else None
    }

    /**
     Tags: the result is that of the first attempt that succeeds among the cached client and then the
     registered ones in order, and an error exactly when all of them fail. After a success the host maps
     to the client that answered, and no other host's entry has changed.
     */
    method Tags(now: int, host: string, answers: Attempts) returns (r: Result<seq<ImageTag>>, attempts: nat)
      requires Valid()
      modifies this, hostCache
      ensures Valid()
      ensures var plan := Plan(old(Cached(now, host)), clients);
        && attempts <= |plan| <= |clients| + 1
        && match FirstSuccess(answers, |plan|)
           case None =>
             && r == Err(AllClientsFailed) && attempts == |plan|
             && hostCache.store == old(hostCache.store) && answered == old(answered)
           case Some(k) =>
             && r == answers(k) && attempts == k + 1
             && Cached(now, host) == Some(plan[k])
             && answered == old(answered) + {(host, plan[k])}
             && hostCache.store == (if old(Cached(now, host)).Some? && k == 0 then old(hostCache.store)
                  else old(hostCache.store)[host := Item(plan[k], Some(now + HOST_TIMEOUT))])
      ensures forall c :: old(Cached(now, host)) == Some(c) && answers(0).Ok? ==>
        attempts == 1 && r == answers(0) && Cached(now, host) == Some(c) && hostCache.store == old(hostCache.store)
      ensures forall i :: 0 <= i < |clients| && old(Cached(now, host)) == None && answers(i).Ok?
                          && (forall j :: 0 <= j < i ==> answers(j).Err?) ==>
        attempts == i + 1 && r == answers(i) && Cached(now, host) == Some(clients[i])
    {
      var cached := hostCache.Lookup(now, host);
      ghost var plan := Plan(cached, clients);
      attempts := 0;
      if cached.Some? {
        var answer := answers(0);
        attempts := 1;
        if answer.Ok? {
          FirstSuccessIs(answers, |plan|, 0);
          answered := answered + {(host, cached.value)};
          return answer, attempts;
        }
      }
      ghost var offset := attempts;
      for i := 0 to |clients|
        invariant attempts == offset + i
        invariant hostCache.store == old(hostCache.store) && answered == old(answered)
        invariant forall j :: 0 <= j < attempts ==> answers(j).Err?
      {
        var answer := answers(attempts);
        attempts := attempts + 1;
        if answer.Ok? {
          FirstSuccessIs(answers, |plan|, attempts - 1);
          assert plan[attempts - 1] == clients[i];
          hostCache.Commit(now, host, clients[i]);
          answered := answered + {(host, clients[i])};
          return answer, attempts;
        }
      }
      r := Err(AllClientsFailed);
    }
  }
}
