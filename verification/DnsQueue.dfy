// The queue itself (dns.c): dns_queue points at the last query, every query at the next one, and the first
// is known only to the lookup that runs. Each operation does to the log what the event of that name does.

module DnsQueue {
  import opened Basics
  import opened DnsLog

  /** The pointers are those of the chain. */
  ghost predicate Chained(tail: Option<nat>, links: map<nat, Option<nat>>, chain: seq<nat>) {
    && tail == (if chain == [] then None else Some(chain[|chain| - 1]))
    && forall i {:trigger chain[i]} :: 0 <= i < |chain| ==>
         chain[i] in links && links[chain[i]] == if i + 1 < |chain| then Some(chain[i + 1]) else None
  }

  ghost predicate AllLive(live: set<nat>, l: Log) {
    forall q :: q in live <==> Live(l, q)
  }

  lemma ChainedBehind(tail: Option<nat>, links: map<nat, Option<nat>>, chain: seq<nat>, q: nat)
    requires Chained(tail, links, chain) && Distinct(chain) && q !in chain && chain != []
    ensures Chained(Some(q), links[q := None][tail.value := Some(q)], chain + [q])
  {
  }

  lemma ChainedRest(tail: Option<nat>, links: map<nat, Option<nat>>, chain: seq<nat>)
    requires Chained(tail, links, chain) && chain != []
    ensures Chained(if chain[1..] == [] then None else tail, links, chain[1..])
    ensures chain[0] in links && links[chain[0]] == if chain[1..] == [] then None else Some(chain[1..][0])
  {
    var rest := chain[1..];
    forall i | 0 <= i < |rest|
      ensures rest[i] in links && links[rest[i]] == if i + 1 < |rest| then Some(rest[i + 1]) else None
    {
      assert rest[i] == chain[i + 1];
      if i + 1 < |rest| {
        assert rest[i + 1] == chain[i + 2];
        assert links[chain[i + 1]] == Some(chain[i + 2]);
      }
    }
    assert chain[0] in links;
    if |chain| > 1 {
      assert links[chain[0]] == Some(chain[0 + 1]);
    }
  }

  lemma LiveRequested(live: set<nat>, l: Log, q: nat, how: Outcome)
    requires AllLive(live, l) && q !in l.killed
    ensures AllLive(live + {q}, Request(l, q, how))
  {
    forall x
      ensures Live(Request(l, q, how), x) <==> x == q || Live(l, x)
    {
    }
  }

  lemma ChainedWithout(tail: Option<nat>, links: map<nat, Option<nat>>, chain: seq<nat>, q: nat)
    requires Chained(tail, links, chain) && q !in chain
    ensures Chained(tail, links - {q}, chain)
  {
    forall i | 0 <= i < |chain|
      ensures chain[i] in links - {q}
    {
      assert chain[i] != q;
    }
  }

  lemma LiveStarted(live: set<nat>, l: Log, how: Outcome)
    requires AllLive(live, l) && l.chain != []
    ensures AllLive(live, NextStarted(l, how))
  {
    assert l.chain == [l.chain[0]] + l.chain[1..];
    forall q
      ensures Live(NextStarted(l, how), q) <==> Live(l, q)
    {
    }
  }

  /** What taking the head off the chain needs. */
  lemma Startable(tail: Option<nat>, links: map<nat, Option<nat>>, live: set<nat>, l: Log, how: Outcome)
    requires Sound(l) && Chained(tail, links, l.chain) && AllLive(live, l) && l.chain != []
    ensures var next := NextStarted(l, how);
            && Sound(next) && AllLive(live, next) && next.finishing == l.finishing + [l.chain[0]]
            && Chained(if next.chain == [] then None else tail, links, next.chain)
            && l.chain[0] in links && links[l.chain[0]] == (if next.chain == [] then None else Some(next.chain[0]))
            && next.lookups == l.lookups + if next.chain == [] then [] else [Lookup(next.chain[0], how, next.chain[0] in live)]
  {
    NextStartedSound(l, how);
    assert l.chain == [l.chain[0]] + l.chain[1..];
    ChainedRest(tail, links, l.chain);
    LiveStarted(live, l, how);
  }

  lemma LiveCalledBack(live: set<nat>, l: Log, q: nat, n: nat)
    requires AllLive(live, l) && Sound(l) && n + 1 == |l.finishing| && q == l.finishing[n]
    ensures AllLive(live - {q}, CallBack(l)) && q !in l.chain && (q in live <==> q !in l.killed)
  {
    assert l.finishing == l.finishing[..n] + [q];
    assert multiset(l.finishing) == multiset(l.finishing[..n]) + multiset{q};
    assert q in multiset(l.started);
    Somewhere(l, q);
    assert q !in multiset(l.chain) && q !in multiset(l.finishing[..n]);
  }

  /** What taking a called-back query out of memory needs. */
  lemma Finishable(tail: Option<nat>, links: map<nat, Option<nat>>, live: set<nat>, l: Log, q: nat)
    requires Sound(l) && Chained(tail, links, l.chain) && AllLive(live, l)
    requires l.finishing != [] && q == l.finishing[|l.finishing| - 1]
    ensures var next := CallBack(l);
            && Sound(next) && AllLive(live - {q}, next) && Chained(tail, links - {q}, next.chain)
            && next.chain == l.chain && next.finishing == l.finishing[..|l.finishing| - 1]
    ensures q in live <==> q !in l.killed
  {
    CallBackSound(l);
    LiveCalledBack(live, l, q, |l.finishing| - 1);
    ChainedWithout(tail, links, l.chain, q);
  }

  class Dns {
    /** dns_queue */
    var tail: Option<nat>
    /** next_in_queue of every query that exists */
    var links: map<nat, Option<nat>>
    /** The queries whose lookup runs in a thread: the end of each will name it. */
    var inFlight: set<nat>
    /** The queries that still have a callback and a place for the address. */
    var live: set<nat>
    /** Queries that have ended and whose callback is due, the innermost last. */
    var finishing: seq<nat>
    /** The lookups really made. */
    ghost var made: seq<Lookup>
    ghost var log: Log

    constructor ()
      ensures Valid() && log == EMPTY
    {
      EmptySound();
      tail, links, inFlight, live, finishing, made, log := None, map[], {}, {}, [], [], EMPTY;
    }

    ghost predicate Consistent()
      reads this
    {
      && Sound(log) && Chained(tail, links, log.chain) && finishing == log.finishing && AllLive(live, log)
      && made == log.lookups
    }

    /** Only the head's lookup runs, and dns_queue is empty exactly when none does. */
    ghost predicate Valid()
      reads this
    {
      Consistent() && inFlight == if log.chain == [] then {} else {log.chain[0]}
    }

    /** At most one lookup runs at a time, and lookups were made for the requests in their order. */
    lemma OneAtATime()
      requires Valid()
      ensures |inFlight| <= 1 && (inFlight == {} <==> tail == None)
      ensures |made| <= |log.arrived| && forall i :: 0 <= i < |made| ==> made[i].query == log.arrived[i]
    {
    }

    /** Lookups are made in a thread if that can be started, else at once (lines 147-165). */
    method DoLookup(q: nat, how: Outcome) returns (ended: bool)
      modifies `inFlight, `made
      ensures ended == how.AtOnce? && inFlight == old(inFlight) + if ended then {} else {q}
      ensures made == old(made) + [Lookup(q, how, q in live)]
    {
      made := made + [Lookup(q, how, q in live)];
      if how.AtOnce? {
        return true;
      }
      inFlight := inFlight + {q};
      return false;
    }

    /** A request (lines 167-185 and 239-254): looked up if dns_queue is empty, else put behind its query. */
    method FindHostNoCache(q: nat, how: Outcome)
      requires Valid() && q !in log.arrived
      modifies this
      ensures Valid() && log == Request(old(log), q, how)
    {
      RequestSound(log, q, how);
      NotThere(log, q);
      if tail.None? {
        RequestDirect(q, how);
      } else {
        RequestQueued(q, how);
      }
    }

    method RequestQueued(q: nat, how: Outcome)
      requires Valid() && tail.Some? && q !in log.chain && q !in log.killed && Sound(Request(log, q, how))
      modifies this
      ensures Valid() && log == Request(old(log), q, how)
    {
      Parts(log);
      ghost var next, chain := Request(log, q, how), log.chain;
      ChainedBehind(tail, links, chain, q);
      LiveRequested(live, log, q, how);
      assert next.chain == chain + [q] && next.chain[0] == chain[0] && next.finishing == log.finishing;
      assert links[chain[|chain| - 1]] == None;
      Enqueue(q, next);
    }

    /** Behind the tail (lines 178-182). */
    method Enqueue(q: nat, ghost next: Log)
      requires tail.Some? && finishing == next.finishing && next.chain != [] && inFlight == {next.chain[0]}
      requires Sound(next) && AllLive(live + {q}, next) && Chained(Some(q), links[q := None][tail.value := Some(q)], next.chain)
      requires tail.value != q && tail.value in links && links[tail.value] == None && made == next.lookups
      modifies this
      ensures Valid() && log == next
    {
      links := links[q := None];
      // The queue is not corrupted: nothing is behind the tail.
      assert links[tail.value] == None;
      links := links[tail.value := Some(q)];
      tail := Some(q);
      live := live + {q};
      log := next;
    }

    method RequestDirect(q: nat, how: Outcome)
      requires Valid() && tail.None? && q !in log.finishing && q !in log.killed && Sound(Request(log, q, how))
      modifies this
      ensures Valid() && log == Request(old(log), q, how)
    {
      LiveRequested(live, log, q, how);
      links := links[q := None];
      tail := Some(q);
      live := live + {q};
      var ended := DoLookup(q, how);
      if ended {
        // end_dns_lookup finds nothing behind the query.
        tail := None;
        finishing := finishing + [q];
      }
      log := Request(log, q, how);
    }

    /** A lookup has ended (lines 200-211): the next one starts, and if it is made at once its end is processed
      * before anything else; `hows` tells how. Then the queries' callbacks are due. */
    method EndDnsLookup(q: nat, hows: seq<Outcome>)
      requires Consistent() && inFlight == {} && log.chain != [] && q == log.chain[0]
      modifies this
      ensures Valid() && log == Ended(old(log), hows)
      decreases |log.chain|
    {
      var how := if hows == [] then Threaded else hows[0];
      var ended := StartNext(q, how);
      if ended {
        EndDnsLookup(links[q].value, hows[1..]);
      }
    }

    method StartNext(q: nat, how: Outcome) returns (ended: bool)
      requires Consistent() && inFlight == {} && log.chain != [] && q == log.chain[0]
      modifies `finishing, `tail, `inFlight, `made, `log
      ensures Consistent() && log == NextStarted(old(log), how)
      ensures ended ==> how.AtOnce? && inFlight == {} && log.chain != [] && links[q] == Some(log.chain[0])
      ensures !ended ==> Valid() && (log.chain == [] || how.Threaded?)
    {
      Startable(tail, links, live, log, how);
      ended := Dequeue(q, how, NextStarted(log, how));
    }

    /** The head leaves the chain (lines 207-210). */
    method Dequeue(q: nat, how: Outcome, ghost next: Log) returns (ended: bool)
      requires q in links && links[q] == (if next.chain == [] then None else Some(next.chain[0])) && finishing + [q] == next.finishing
      requires Sound(next) && AllLive(live, next) && Chained(if next.chain == [] then None else tail, links, next.chain)
      requires inFlight == {}
      requires next.lookups == made + if next.chain == [] then [] else [Lookup(next.chain[0], how, next.chain[0] in live)]
      modifies `finishing, `tail, `inFlight, `made, `log
      ensures Consistent() && log == next
      ensures ended ==> how.AtOnce? && inFlight == {} && next.chain != []
      ensures !ended ==> Valid() && (next.chain == [] || how.Threaded?)
    {
      finishing := finishing + [q];
      ended := false;
      if links[q].Some? {
        ended := DoLookup(links[q].value, how);
      } else {
        tail := None;
      }
      log := next;
    }

    /** The thread that looks up q is done (lines 128-145). */
    method LookupDone(q: nat, hows: seq<Outcome>)
      requires Valid() && q in inFlight
      modifies this
      ensures Valid() && log == Ended(old(log), hows)
    {
      inFlight := inFlight - {q};
      EndDnsLookup(q, hows);
    }

    /** The rest of end_dns_lookup (lines 212-237): the innermost ended query is called back, unless killed. */
    method FinishQuery() returns (q: nat, called: bool)
      requires Valid() && finishing != []
      modifies this
      ensures Valid() && log == CallBack(old(log))
      ensures q == old(finishing)[|old(finishing)| - 1] && called == (q !in log.killed)
    {
      var n := |finishing| - 1;
      q := finishing[n];
      Finishable(tail, links, live, log, q);
      called := q in live;
      Forget(q, CallBack(log));
    }

    method Forget(q: nat, ghost next: Log)
      requires finishing != [] && next.finishing == finishing[..|finishing| - 1]
      requires Sound(next) && AllLive(live - {q}, next) && Chained(tail, links - {q}, next.chain)
      requires inFlight == (if next.chain == [] then {} else {next.chain[0]}) && made == next.lookups
      modifies this
      ensures Valid() && log == next
    {
      finishing := finishing[..|finishing| - 1];
      live := live - {q};
      links := links - {q};
      log := next;
    }

    /** kill_dns_request (lines 270-279): the query stays in the queue, but without callback and place. */
    method KillDnsRequest(q: nat)
      requires Valid() && q in live
      modifies this
      ensures Valid() && log == Kill(old(log), q)
    {
      KillSound(log, q);
      assert AllLive(live - {q}, Kill(log, q));
      live := live - {q};
      log := Kill(log, q);
    }
  }
}
