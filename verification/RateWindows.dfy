/**
 Which requests the rate limiter admits, read off the trace alone: by the windows a host's own requests open and
 by how many of them lie in one; and how little of the past it remembers.
 */
module RateWindows {
  import opened Wrappers
  import opened RateLimiter

  /** One minute, in nanoseconds. */
  const MINUTE: nat := 60 * 1000 * 1000 * 1000

  /** The request opens a window: no earlier request of its host opened one within the minute before it. */
  ghost predicate Opens(trace: seq<Request>, i: nat)
    requires i < |trace|
    decreases i
  {
    forall j: nat :: j < i && trace[j].host == trace[i].host && Opens(trace, j) ==> trace[i].at > trace[j].at + MINUTE
  }

  /** How many requests of a host a stretch of the trace holds, refused ones included. */
  function Requests(trace: seq<Request>, host: Host): nat {
    if trace == [] then 0
    else Requests(trace[..|trace| - 1], host) + (if trace[|trace| - 1].host == host then 1 else 0)
  }

  /** The request falls into the window that an earlier one opened, and is one of its first `limit`. */
  ghost predicate FitsIn(trace: seq<Request>, limit: int, j: nat, i: nat)
    requires j < i < |trace|
  {
    && trace[j].host == trace[i].host && Opens(trace, j) && trace[i].at <= trace[j].at + MINUTE
    && Requests(trace[j..i + 1], trace[i].host) <= limit
  }

  // ---- what the limiter knows after so much of a trace ----------------------------------------------------------

  /** The host's last window among the first `n` requests is the one request `j` opened. */
  ghost predicate LastOpening(trace: seq<Request>, n: nat, host: Host, j: nat)
    requires n <= |trace|
  {
    && j < n && trace[j].host == host && Opens(trace, j)
    && forall k: nat :: j < k < n && trace[k].host == host ==> !Opens(trace, k)
  }

  /** The counters are those of each host's last window. */
  ghost predicate Tracks(clients: Clients, trace: seq<Request>, n: nat)
    requires n <= |trace|
  {
    && (forall host, j: nat :: LastOpening(trace, n, host, j) ==>
          host in clients && clients[host] == Client(Requests(trace[j..n], host), trace[j].at + MINUTE))
    && (forall host :: host in clients ==> exists j: nat :: LastOpening(trace, n, host, j))
  }

  lemma OneMoreRequest(trace: seq<Request>, j: nat, n: nat, host: Host)
    requires j <= n < |trace|
    ensures Requests(trace[j..n + 1], host) == Requests(trace[j..n], host) + (if trace[n].host == host then 1 else 0)
  {
    assert trace[j..n + 1][..n - j] == trace[j..n] && trace[j..n + 1][n - j] == trace[n];
  }

  /** While the clock does not go back, a request opens a window exactly when the last one is over. */
  lemma OpensAfterTheLast(trace: seq<Request>, from: int, n: nat, j: nat)
    requires Monotone(trace, from) && n < |trace| && LastOpening(trace, n, trace[n].host, j)
    ensures Opens(trace, n) <==> trace[n].at > trace[j].at + MINUTE
  {
    forall k: nat | k < n && trace[k].host == trace[n].host && Opens(trace, k) ensures trace[k].at <= trace[j].at {
      assert k <= j;
    }
  }

  lemma OpensOrFollows(trace: seq<Request>, n: nat)
    requires n < |trace|
    ensures Opens(trace, n) || exists j: nat :: LastOpening(trace, n, trace[n].host, j)
  {
    if !Opens(trace, n) {
      var k: nat :| k < n && trace[k].host == trace[n].host && Opens(trace, k) && trace[n].at <= trace[k].at + MINUTE;
      var j := Latest(trace, n, trace[n].host, k);
    }
  }

  lemma {:induction false} Latest(trace: seq<Request>, n: nat, host: Host, j: nat) returns (last: nat)
    requires j < n <= |trace| && trace[j].host == host && Opens(trace, j)
    ensures LastOpening(trace, n, host, last)
    decreases n - j
  {
    if k: nat :| j < k < n && trace[k].host == host && Opens(trace, k) {
      last := Latest(trace, n, host, k);
    } else {
      last := j;
    }
  }

  /** The other hosts' last windows are what they were, and a request that opens one is the last of its own. */
  lemma OpeningsAfter(trace: seq<Request>, n: nat, host: Host, j: nat)
    requires n < |trace|
    ensures LastOpening(trace, n + 1, host, j)
            <==> if trace[n].host == host && Opens(trace, n) then j == n else LastOpening(trace, n, host, j)
  {}

  lemma OnlyOneIsLast(trace: seq<Request>, n: nat, host: Host, j: nat, k: nat)
    requires n <= |trace| && LastOpening(trace, n, host, j) && LastOpening(trace, n, host, k)
    ensures j == k
  {}

  /** One request: what the limiter answers, and that it goes on tracking. */
  lemma OneRequestTracked(clients: Clients, limit: int, trace: seq<Request>, from: int, n: nat)
    requires Monotone(trace, from) && n < |trace| && Tracks(clients, trace, n)
    ensures Tracks(Account(clients, limit, trace[n]).0, trace, n + 1)
    ensures Account(clients, limit, trace[n]).1
            <==> Opens(trace, n) || exists j: nat :: j < n && FitsIn(trace, limit, j, n)
  {
    hide Opens, FitsIn, Account, Monotone;
    var next := Account(clients, limit, trace[n]).0;
    AnswerIs(clients, limit, trace, from, n);
    var m := n + 1;
    forall host, j: nat | LastOpening(trace, m, host, j)
      ensures host in next && next[host] == Client(Requests(trace[j..m], host), trace[j].at + MINUTE)
    {
      NextIs(clients, limit, trace, from, n, host, j);
    }
    forall host | host in next ensures exists j: nat :: LastOpening(trace, m, host, j) {
      OpenedBefore(clients, limit, trace, n, host);
    }
  }

  lemma OpenedBefore(clients: Clients, limit: int, trace: seq<Request>, n: nat, host: Host)
    requires n < |trace| && Tracks(clients, trace, n) && host in Account(clients, limit, trace[n]).0
    ensures var m := n + 1; exists j: nat :: LastOpening(trace, m, host, j)
  {
    hide Opens;
    var m := n + 1;
    if host == trace[n].host && Opens(trace, n) {
      OpeningsAfter(trace, n, host, n);
      assert LastOpening(trace, m, host, n);
    } else {
      var j: nat := SomeOpening(clients, trace, n, host);
      OpeningsAfter(trace, n, host, j);
      assert LastOpening(trace, m, host, j);
    }
  }

  lemma SomeOpening(clients: Clients, trace: seq<Request>, n: nat, host: Host) returns (j: nat)
    requires n < |trace| && Tracks(clients, trace, n)
    requires host in clients || (host == trace[n].host && !Opens(trace, n))
    ensures LastOpening(trace, n, host, j)
  {
    hide Opens;
    if host == trace[n].host { OpensOrFollows(trace, n); }
    assert host in clients;
    j :| LastOpening(trace, n, host, j);
  }

  lemma NextIs(clients: Clients, limit: int, trace: seq<Request>, from: int, n: nat, host: Host, j: nat)
    requires Monotone(trace, from) && n < |trace| && Tracks(clients, trace, n) && LastOpening(trace, n + 1, host, j)
    ensures var next := Account(clients, limit, trace[n]).0;
            host in next && next[host] == Client(Requests(trace[j..n + 1], host), trace[j].at + MINUTE)
  {
    assert j <= n;
    hide Opens, LastOpening, Requests;
    OpeningsAfter(trace, n, host, j);
    OneMoreRequest(trace, j, n, host);
    if host == trace[n].host && Opens(trace, n) {
      WindowIsOver(clients, trace, from, n);
      NothingBefore(trace, n, host);
    } else {
      assert clients[host] == Client(Requests(trace[j..n], host), trace[j].at + MINUTE);
      if host == trace[n].host { OpensAfterTheLast(trace, from, n, j); }
    }
  }

  lemma NothingBefore(trace: seq<Request>, n: nat, host: Host)
    requires n <= |trace|
    ensures Requests(trace[n..n], host) == 0
  {}

  /** Whoever opens a window has none that is still open. */
  lemma WindowIsOver(clients: Clients, trace: seq<Request>, from: int, n: nat)
    requires Monotone(trace, from) && n < |trace| && Tracks(clients, trace, n) && Opens(trace, n)
    ensures trace[n].host in clients ==> trace[n].at > clients[trace[n].host].resetAt
  {
    hide Opens;
    if trace[n].host in clients {
      var last: nat :| LastOpening(trace, n, trace[n].host, last);
      OpensAfterTheLast(trace, from, n, last);
    }
  }

  lemma AnswerIs(clients: Clients, limit: int, trace: seq<Request>, from: int, n: nat)
    requires Monotone(trace, from) && n < |trace| && Tracks(clients, trace, n)
    ensures Account(clients, limit, trace[n]).1
            <==> Opens(trace, n) || exists j: nat :: j < n && FitsIn(trace, limit, j, n)
  {
    hide Opens, FitsIn;
    var host := trace[n].host;
    OpensOrFollows(trace, n);
    if host in clients {
      var last: nat :| LastOpening(trace, n, host, last);
      assert clients[host] == Client(Requests(trace[last..n], host), trace[last].at + MINUTE);
      OpensAfterTheLast(trace, from, n, last);
      OneMoreRequest(trace, last, n, host);
      FitsOnlyInTheLast(trace, limit, from, n, last);
    }
  }

  lemma FitsOnlyInTheLast(trace: seq<Request>, limit: int, from: int, n: nat, last: nat)
    requires Monotone(trace, from) && n < |trace| && LastOpening(trace, n, trace[n].host, last)
    ensures (exists j: nat :: j < n && FitsIn(trace, limit, j, n))
            <==> trace[n].at <= trace[last].at + MINUTE && Requests(trace[last..n + 1], trace[n].host) <= limit
  {
    hide Opens;
    forall j: nat | j < n && FitsIn(trace, limit, j, n) ensures j == last {
      CoveringIsLast(trace, from, n, j, last);
    }
    assert FitsIn(trace, limit, last, n)
        <==> trace[n].at <= trace[last].at + MINUTE && Requests(trace[last..n + 1], trace[n].host) <= limit;
  }

  /** Only the last window can still be open. */
  lemma CoveringIsLast(trace: seq<Request>, from: int, n: nat, j: nat, last: nat)
    requires Monotone(trace, from) && n < |trace| && LastOpening(trace, n, trace[n].host, last)
    requires j < n && trace[j].host == trace[n].host && Opens(trace, j) && trace[n].at <= trace[j].at + MINUTE
    ensures j == last
  {
    assert j <= last && trace[last].at <= trace[n].at;
  }

  // ---- the answers to a whole trace -------------------------------------------------------------------------------

  lemma {:induction false} PlainAnswers(clients: Clients, limit: int, trace: seq<Request>, from: int, n: nat, i: nat)
    requires Monotone(trace, from) && n <= i < |trace| && Tracks(clients, trace, n)
    ensures var answers := PlainDecisions(clients, limit, trace[n..]);
            && |answers| == |trace| - n
            && (answers[i - n] <==> Opens(trace, i) || exists j: nat :: j < i && FitsIn(trace, limit, j, i))
    decreases |trace| - n
  {
    hide Opens, FitsIn, Tracks;
    var (next, admitted) := Account(clients, limit, trace[n]);
    assert trace[n..][0] == trace[n] && trace[n..][1..] == trace[n + 1..];
    OneRequestTracked(clients, limit, trace, from, n);
    AnswersAreAsMany(next, limit, trace[n + 1..]);
    if i > n { PlainAnswers(next, limit, trace, from, n + 1, i); }
  }

  lemma {:induction false} AnswersAreAsMany(clients: Clients, limit: int, trace: seq<Request>)
    ensures |PlainDecisions(clients, limit, trace)| == |trace|
    decreases |trace|
  {
    if trace != [] { AnswersAreAsMany(Account(clients, limit, trace[0]).0, limit, trace[1..]); }
  }

  /**
   Admission, exactly.  On every trace of a clock that does not go back a request is admitted if and only if it
   opens a window of its host, or at most `limit` requests of its host, refused ones included, lie from the
   opening of the window it falls into through itself.
   */
  lemma ARequestIsAdmittedIff(limit: int, trace: seq<Request>, from: int, i: nat)
    requires Monotone(trace, from) && i < |trace|
    ensures var answers := Decisions(Swept(map[], None), limit, trace);
            && |answers| == |trace|
            && (answers[i] <==> Opens(trace, i) || exists j: nat :: j < i && FitsIn(trace, limit, j, i))
  {
    hide Decisions, PlainDecisions, Opens;
    SweepingChangesNoDecision(limit, trace, from);
    assert trace[0..] == trace;
    assert Tracks(map[], trace, 0);
    PlainAnswers(map[], limit, trace, from, 0, i);
  }

  /** So no host is locked out: its first request more than a minute after its window opened is always admitted. */
  lemma APersistentHostIsAdmittedAgain(limit: int, trace: seq<Request>, from: int, j: nat, i: nat)
    requires Monotone(trace, from) && i < |trace| && LastOpening(trace, i, trace[i].host, j)
    requires trace[i].at > trace[j].at + MINUTE
    ensures |Decisions(Swept(map[], None), limit, trace)| == |trace| && Decisions(Swept(map[], None), limit, trace)[i]
  {
    ARequestIsAdmittedIff(limit, trace, from, i);
    OpensAfterTheLast(trace, from, i, j);
  }

  // ---- what is remembered -----------------------------------------------------------------------------------------

  /** The state after a trace. */
  function Kept(s: Swept, limit: int, trace: seq<Request>): Swept
    decreases |trace|
  {
    if trace == [] then s else Kept(Decide(s, limit, trace[0]).0, limit, trace[1..])
  }

  /** Swept at some time, less than a minute before now, when every window that was over went. */
  ghost predicate Recent(s: Swept, now: int) {
    && s.lastPruneAt.Some? && s.lastPruneAt.value <= now < s.lastPruneAt.value + MINUTE
    && forall host :: host in s.clients ==> s.clients[host].resetAt >= s.lastPruneAt.value
  }

  /** Bounded memory: after any trace every window still remembered ended less than a minute before its last request. */
  lemma {:induction false} OnlyRecentWindowsAreKept(s: Swept, limit: int, trace: seq<Request>, from: int)
    requires trace != [] && Monotone(trace, from) && (s.lastPruneAt.Some? ==> s.lastPruneAt.value <= from)
    requires s.lastPruneAt.None? ==> s.clients == map[]
    requires forall host :: host in s.clients ==> s.clients[host].resetAt >= s.lastPruneAt.value
    ensures var now := trace[|trace| - 1].at;
            var t := Kept(s, limit, trace);
            Recent(t, now) && forall host :: host in t.clients ==> now < t.clients[host].resetAt + MINUTE
    decreases |trace|
  {
    var t := Decide(s, limit, trace[0]).0;
    if |trace| == 1 {
      assert trace[1..] == [];
    } else {
      OnlyRecentWindowsAreKept(t, limit, trace[1..], trace[0].at);
    }
  }
}
