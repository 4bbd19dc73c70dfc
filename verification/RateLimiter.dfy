/**
 The per-host rate limiter: fixed one-minute windows that open at a host's own first request, and a sweep
 that forgets expired windows at most once a minute.  Times are nanoseconds.
 */
module RateLimiter {
  import opened Wrappers

  const WINDOW: nat := 60_000_000_000
  const PRUNE_INTERVAL: nat := 60_000_000_000

  type Host = nat

  datatype Client = Client(count: nat, resetAt: int)

  type Clients = map<Host, Client>

  datatype Request = Request(host: Host, at: int)

  // ---- the limiter on values, without and with the sweep ------------------------------------------------------

  /** One request accounted for, and whether it may proceed. */
  function Account(clients: Clients, limit: int, q: Request): (Clients, bool) {
    if q.host !in clients || q.at > clients[q.host].resetAt then (clients[q.host := Client(1, q.at + WINDOW)], true)
    else
      var count := clients[q.host].count + 1;
      (clients[q.host := Client(count, clients[q.host].resetAt)], count <= limit)
  }

  /** The windows that have not elapsed. */
  function Unexpired(clients: Clients, now: int): Clients {
    map host | host in clients && now <= clients[host].resetAt :: clients[host]
  }

  /** The state of the sweeping limiter: no sweep yet, or the time of the last one. */
  datatype Swept = Swept(clients: Clients, lastPruneAt: Option<int>)

  function Sweep(s: Swept, now: int): Swept {
    if s.lastPruneAt.Some? && now - s.lastPruneAt.value < PRUNE_INTERVAL then s
    else Swept(Unexpired(s.clients, now), Some(now))
  }

  function Decide(s: Swept, limit: int, q: Request): (Swept, bool) {
    var swept := Sweep(s, q.at);
    var (clients, admitted) := Account(swept.clients, limit, q);
    (swept.(clients := clients), admitted)
  }

  /** The answers to a trace of requests. */
  function Decisions(s: Swept, limit: int, trace: seq<Request>): seq<bool>
    decreases |trace|
  {
    if trace == [] then [] else
    var (next, admitted) := Decide(s, limit, trace[0]);
    [admitted] + Decisions(next, limit, trace[1..])
  }

  /** The same without ever sweeping. */
  function PlainDecisions(clients: Clients, limit: int, trace: seq<Request>): seq<bool>
    decreases |trace|
  {
    if trace == [] then [] else
    var (next, admitted) := Account(clients, limit, trace[0]);
    [admitted] + PlainDecisions(next, limit, trace[1..])
  }

  function After(clients: Clients, limit: int, trace: seq<Request>): Clients
    decreases |trace|
  {
    if trace == [] then clients else After(Account(clients, limit, trace[0]).0, limit, trace[1..])
  }

  // ---- sweeping changes no decision --------------------------------------------------------------------------------

  /** The clock does not go back. */
  ghost predicate Monotone(trace: seq<Request>, from: int) {
    && (forall i :: 0 <= i < |trace| ==> from <= trace[i].at)
    && (forall i, j :: 0 <= i <= j < |trace| ==> trace[i].at <= trace[j].at)
  }

  /** The sweeping limiter knows what the plain one knows, except for windows that have elapsed. */
  ghost predicate Refines(swept: Clients, plain: Clients, now: int) {
    && (forall host :: host in swept ==> host in plain && plain[host] == swept[host])
    && (forall host :: host in plain && host !in swept ==> plain[host].resetAt < now)
  }

  lemma OneDecisionAgrees(s: Swept, plain: Clients, limit: int, q: Request, now: int)
    requires Refines(s.clients, plain, now) && now <= q.at
    ensures Decide(s, limit, q).1 == Account(plain, limit, q).1
    ensures Refines(Decide(s, limit, q).0.clients, Account(plain, limit, q).0, q.at)
  {
    assert Refines(Sweep(s, q.at).clients, plain, q.at);
  }

  lemma {:induction false} DecisionsAgree(s: Swept, plain: Clients, limit: int, trace: seq<Request>, now: int)
    requires Refines(s.clients, plain, now) && Monotone(trace, now)
    ensures Decisions(s, limit, trace) == PlainDecisions(plain, limit, trace)
    decreases |trace|
  {
    if trace != [] {
      OneDecisionAgrees(s, plain, limit, trace[0], now);
      DecisionsAgree(Decide(s, limit, trace[0]).0, Account(plain, limit, trace[0]).0, limit, trace[1..], trace[0].at);
    }
  }

  /** On every trace of a clock that does not go back, the sweeping limiter answers as one that never sweeps. */
  lemma SweepingChangesNoDecision(limit: int, trace: seq<Request>, from: int)
    requires Monotone(trace, from)
    ensures Decisions(Swept(map[], None), limit, trace) == PlainDecisions(map[], limit, trace)
  {
    DecisionsAgree(Swept(map[], None), map[], limit, trace, from);
  }

  // ---- how much one minute admits --------------------------------------------------------------------------------

  /** How many requests of one host are admitted. */
  function Admitted(clients: Clients, limit: int, trace: seq<Request>, host: Host): nat
    decreases |trace|
  {
    if trace == [] then 0 else
    var (next, admitted) := Account(clients, limit, trace[0]);
    (if admitted && trace[0].host == host then 1 else 0) + Admitted(next, limit, trace[1..], host)
  }

  function Max(a: int, b: int): int { if a >= b then a else b }

  /** Every window was opened by one counted request. */
  ghost predicate Counted(clients: Clients) { forall host :: host in clients ==> clients[host].count >= 1 }

  ghost predicate Within(trace: seq<Request>, from: int, through: int) {
    Monotone(trace, from) && forall i :: 0 <= i < |trace| ==> trace[i].at <= through
  }

  /** Inside an open window only what is left of the limit is admitted. */
  lemma {:induction false} OpenWindowAdmitsTheRest(clients: Clients, limit: int, trace: seq<Request>, host: Host,
      through: int)
    requires host in clients && through <= clients[host].resetAt
        && forall i :: 0 <= i < |trace| ==> trace[i].at <= through
    ensures Admitted(clients, limit, trace, host) <= Max(0, limit - clients[host].count)
    decreases |trace|
  {
    if trace != [] {
      OpenWindowAdmitsTheRest(Account(clients, limit, trace[0]).0, limit, trace[1..], host, through);
    }
  }

  /** With no window open, a minute admits what one window does. */
  lemma {:induction false} NoWindowAdmitsOne(clients: Clients, limit: int, trace: seq<Request>, host: Host, from: int)
    requires Within(trace, from, from + WINDOW) && (host in clients ==> clients[host].resetAt < from)
    ensures Admitted(clients, limit, trace, host) <= Max(limit, 1)
    decreases |trace|
  {
    if trace != [] {
      var next := Account(clients, limit, trace[0]).0;
      if trace[0].host == host {
        OpenWindowAdmitsTheRest(next, limit, trace[1..], host, from + WINDOW);
      } else {
        NoWindowAdmitsOne(next, limit, trace[1..], host, from);
      }
    }
  }

  /** An open window and the one after it: the first request of the first was spent before. */
  lemma {:induction false} TwoWindowsAdmit(clients: Clients, limit: int, trace: seq<Request>, host: Host, from: int)
    requires Within(trace, from, from + WINDOW) && host in clients && clients[host].count >= 1
    ensures Admitted(clients, limit, trace, host) <= Max(0, limit - clients[host].count) + Max(limit, 1)
    decreases |trace|
  {
    if trace != [] {
      var next := Account(clients, limit, trace[0]).0;
      if trace[0].host == host && trace[0].at > clients[host].resetAt {
        OpenWindowAdmitsTheRest(next, limit, trace[1..], host, from + WINDOW);
      } else {
        TwoWindowsAdmit(next, limit, trace[1..], host, from);
      }
    }
  }

  lemma {:induction false} CountedStays(clients: Clients, limit: int, trace: seq<Request>)
    requires Counted(clients)
    ensures Counted(After(clients, limit, trace))
    decreases |trace|
  {
    if trace != [] { CountedStays(Account(clients, limit, trace[0]).0, limit, trace[1..]); }
  }

  /**
   The bound.  Whatever came before, in any closed minute the limiter admits fewer than twice the limit of
   one host's requests; a limit below one admits one at a time.
   */
  lemma AMinuteAdmitsLessThanTwiceTheLimit(limit: int, before: seq<Request>, minute: seq<Request>, host: Host,
      from: int)
    requires Within(minute, from, from + WINDOW)
    ensures Admitted(After(map[], limit, before), limit, minute, host) <= 2 * Max(limit, 1) - 1
  {
    var clients := After(map[], limit, before);
    CountedStays(map[], limit, before);
    if host in clients {
      TwoWindowsAdmit(clients, limit, minute, host, from);
    } else {
      NoWindowAdmitsOne(clients, limit, minute, host, from);
    }
  }

  function Same(q: Request, n: nat): seq<Request> { seq(n, i => q) }

  lemma {:induction false} AllAdmitted(clients: Clients, limit: int, q: Request, n: nat, rest: seq<Request>)
    requires q.host in clients && q.at <= clients[q.host].resetAt && clients[q.host].count + n <= limit
    ensures Admitted(clients, limit, Same(q, n) + rest, q.host)
            == n + Admitted(clients[q.host := Client(clients[q.host].count + n, clients[q.host].resetAt)], limit, rest,
                q.host)
    decreases n
  {
    var trace := Same(q, n) + rest;
    if n == 0 {
      assert trace == rest;
      assert clients[q.host := Client(clients[q.host].count, clients[q.host].resetAt)] == clients;
    } else {
      var next := Account(clients, limit, q).0;
      assert trace[0] == q && trace[1..] == Same(q, n - 1) + rest;
      AllAdmitted(next, limit, q, n - 1, rest);
      var last := Client(clients[q.host].count + n, clients[q.host].resetAt);
      assert next[q.host := last] == clients[q.host := last];
    }
  }

  /** The bound is attained: the end of one full window and the whole of the next, a nanosecond apart. */
  lemma TheBoundIsAttained(limit: int, host: Host, from: int)
    requires limit >= 1
    ensures var opening := [Request(host, from - WINDOW)];
            var minute := Same(Request(host, from), limit - 1) + Same(Request(host, from + 1), limit);
            && Within(minute, from, from + WINDOW)
            && Admitted(After(map[], limit, opening), limit, minute, host) == 2 * limit - 1
  {
    var opening := [Request(host, from - WINDOW)];
    assert opening[1..] == [];
    var clients := After(map[], limit, opening);
    assert After(Account(map[], limit, opening[0]).0, limit, []) == Account(map[], limit, opening[0]).0;
    assert clients[host] == Client(1, from);
    var second := Same(Request(host, from + 1), limit);
    AllAdmitted(clients, limit, Request(host, from), limit - 1, second);
    var full := clients[host := Client(limit, from)];
    var reopened := Account(full, limit, Request(host, from + 1)).0;
    assert second[1..] == Same(Request(host, from + 1), limit - 1) + [];
    AllAdmitted(reopened, limit, Request(host, from + 1), limit - 1, []);
  }

  // ---- the limiter -------------------------------------------------------------------------------------------------

  class Limiter {
    const limit: int
    var clients: Clients
    var lastPruneAt: Option<int>

    ghost function State(): Swept
      reads this
    {
      Swept(clients, lastPruneAt)
    }

    constructor (limit: int)
      ensures State() == Swept(map[], None) && this.limit == limit
    {
      this.limit, clients, lastPruneAt := limit, map[], None;
    }

    method Allow(host: Host, now: int) returns (admitted: bool)
      modifies this
      ensures (State(), admitted) == Decide(old(State()), limit, Request(host, now))
    {
      Prune(now);
      if host !in clients || now > clients[host].resetAt {
        clients := clients[host := Client(1, now + WINDOW)];
        return true;
      }
      var record := clients[host];
      clients := clients[host := record.(count := record.count + 1)];
      admitted := clients[host].count <= limit;
    }

    /** Forgets the windows that have elapsed, at most once an interval. */
    method Prune(now: int)
      modifies this
      ensures State() == Sweep(old(State()), now)
    {
      if lastPruneAt.Some? && now - lastPruneAt.value < PRUNE_INTERVAL { return; }
      lastPruneAt := Some(now);
      var rest := clients.Keys;
      while rest != {}
        invariant rest <= old(clients).Keys && lastPruneAt == Some(now)
        invariant forall host :: host in clients <==>
          host in old(clients) && (host in rest || now <= old(clients)[host].resetAt)
        invariant forall host :: host in clients ==> clients[host] == old(clients)[host]
        decreases rest
      {
        var host :| host in rest;
        rest := rest - {host};
        if now > clients[host].resetAt { clients := clients - {host}; }
      }
    }
  }
}
