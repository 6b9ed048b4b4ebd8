// What may happen to host name lookups (dns.c): requests, ends of lookups, callbacks and kills, in any
// order. The log tells what became of every request.

module DnsLog {

  /** How a lookup is made: in a thread, or at once, with or without finding an address. */
  datatype Outcome = Threaded | AtOnce(found: bool)

  /** A lookup that was started, and whether the query still had a place for the address then. */
  datatype Lookup = Lookup(query: nat, outcome: Outcome, hasPlace: bool)

  /** Queries by number. chain: the one whose lookup runs, and those waiting behind it. finishing: those whose
    * lookup has ended and whose callback is due, the innermost last. killedWaiting: those killed behind the head. */
  datatype Log = Log(arrived: seq<nat>, started: seq<nat>, chain: seq<nat>, finishing: seq<nat>,
                     called: seq<nat>, dropped: seq<nat>, killed: set<nat>, killedWaiting: set<nat>,
                     lookups: seq<Lookup>)

  const EMPTY := Log([], [], [], [], [], [], {}, {}, [])

  function Rest(chain: seq<nat>): seq<nat> {
    if chain == [] then [] else chain[1..]
  }

  function Head(chain: seq<nat>): seq<nat> {
    if chain == [] then [] else [chain[0]]
  }

  ghost predicate Distinct(s: seq<nat>) {
    forall i, j :: 0 <= i < j < |s| ==> s[i] != s[j]
  }

  /** First come, first started. */
  ghost predicate InOrder(l: Log) {
    && Distinct(l.arrived) && l.arrived == l.started + Rest(l.chain)
    && (l.chain != [] ==> l.started != [] && l.started[|l.started| - 1] == l.chain[0])
  }

  /** Every query started is running, finishing, called back or dropped, and only one of these. */
  ghost predicate Accounted(l: Log) {
    multiset(l.started) == multiset(l.called) + multiset(l.dropped) + multiset(l.finishing) + multiset(Head(l.chain))
  }

  /** Exactly the killed queries are dropped instead of called back. */
  ghost predicate Answered(l: Log) {
    && (forall q :: q in l.called ==> q !in l.killed)
    && (forall q :: q in l.dropped ==> q in l.killed)
    && (forall q :: q in l.killed ==> q in l.arrived)
  }

  /** One lookup for every start, without a place for the address exactly if its query was killed while it waited. */
  ghost predicate Logged(l: Log) {
    && |l.lookups| == |l.started|
    && forall i :: 0 <= i < |l.lookups| ==>
         l.lookups[i].query == l.started[i] && (l.lookups[i].hasPlace <==> l.started[i] !in l.killedWaiting)
  }

  /** Whoever waits and is killed was killed waiting. */
  ghost predicate Waiting(l: Log) {
    && l.killedWaiting <= l.killed
    && forall q :: q in Rest(l.chain) ==> (q in l.killed <==> q in l.killedWaiting)
  }

  ghost predicate Sound(l: Log) {
    InOrder(l) && Accounted(l) && Answered(l) && Logged(l) && Waiting(l)
  }

  lemma EmptySound()
    ensures Sound(EMPTY)
  {
  }

  predicate Live(l: Log, q: nat) {
    (q in l.chain || q in l.finishing) && q !in l.killed
  }

  // ----- The four events -----

  /** A new query: looked up if nothing runs, else behind the others. */
  function Request(l: Log, q: nat, how: Outcome): Log {
    var a := l.(arrived := l.arrived + [q]);
    if l.chain != [] then a.(chain := l.chain + [q])
    else
      var s := a.(started := l.started + [q], lookups := l.lookups + [Lookup(q, how, true)]);
      if how.Threaded? then s.(chain := [q]) else s.(finishing := l.finishing + [q])
  }

  /** The lookup that runs ends; the next one is started, and if made at once it ends too, and so on. */
  function Ended(l: Log, hows: seq<Outcome>): (r: Log)
    requires l.chain != []
    decreases |l.chain|
  {
    var how := if hows == [] then Threaded else hows[0];
    var r := NextStarted(l, how);
    if r.chain == [] || how.Threaded? then r else Ended(r, hows[1..])
  }

  function NextStarted(l: Log, how: Outcome): Log
    requires l.chain != []
  {
    var e := l.(finishing := l.finishing + [l.chain[0]], chain := l.chain[1..]);
    if e.chain == [] then e
    else
      e.(started := l.started + [e.chain[0]], lookups := l.lookups + [Lookup(e.chain[0], how, e.chain[0] !in l.killed)])
  }

  /** The innermost callback that is due; a killed query gets none. */
  function CallBack(l: Log): Log
    requires l.finishing != []
  {
    var n := |l.finishing| - 1;
    var q := l.finishing[n];
    var f := l.(finishing := l.finishing[..n]);
    if q in l.killed then f.(dropped := l.dropped + [q]) else f.(called := l.called + [q])
  }

  function Kill(l: Log, q: nat): Log {
    l.(killed := l.killed + {q}, killedWaiting := l.killedWaiting + if q in Rest(l.chain) then {q} else {})
  }

  // ----- What every event keeps -----

  lemma {:induction false} DistinctCount(s: seq<nat>, q: nat)
    requires Distinct(s)
    ensures multiset(s)[q] <= 1
  {
    if s != [] {
      var n := |s| - 1;
      assert s == s[..n] + [s[n]];
      DistinctCount(s[..n], q);
      if s[n] == q {
        assert q !in s[..n];
        assert q !in multiset(s[..n]);
      }
    }
  }

  lemma Parts(l: Log)
    requires InOrder(l)
    ensures multiset(l.arrived) == multiset(l.started) + multiset(Rest(l.chain))
    ensures multiset(l.chain) == multiset(Head(l.chain)) + multiset(Rest(l.chain))
    ensures Distinct(l.chain)
  {
    assert l.chain == Head(l.chain) + Rest(l.chain);
    if l.chain != [] {
      var n := |l.started|;
      assert forall i :: 0 <= i < |l.chain| ==> l.arrived[n - 1 + i] == l.chain[i];
    }
  }

  /** A query is in one place only. */
  lemma Somewhere(l: Log, q: nat)
    requires Sound(l) && q in l.arrived
    ensures multiset(l.called)[q] + multiset(l.dropped)[q] + multiset(l.finishing)[q] + multiset(l.chain)[q] == 1
  {
    Parts(l);
    DistinctCount(l.arrived, q);
    assert q in multiset(l.arrived);
  }

  lemma NotThere(l: Log, q: nat)
    requires Sound(l) && q !in l.arrived
    ensures q !in l.chain && q !in l.finishing && q !in l.called && q !in l.dropped && q !in l.started && q !in l.killed
  {
    Parts(l);
    assert q !in multiset(l.arrived);
    assert q !in multiset(l.started) && q !in multiset(Rest(l.chain));
    assert q !in multiset(l.called) && q !in multiset(l.dropped) && q !in multiset(l.finishing) && q !in multiset(Head(l.chain));
    assert q !in multiset(l.chain);
  }

  lemma QueuedSound(l: Log, q: nat, how: Outcome)
    requires Sound(l) && q !in l.arrived && l.chain != []
    ensures Sound(Request(l, q, how))
  {
    NotThere(l, q);
    var r := Request(l, q, how);
    assert Rest(r.chain) == Rest(l.chain) + [q] && Head(r.chain) == Head(l.chain);
    assert InOrder(r) && Accounted(r);
  }

  lemma StartedSound(l: Log, q: nat, how: Outcome)
    requires Sound(l) && q !in l.arrived && l.chain == []
    ensures Sound(Request(l, q, how))
  {
    NotThere(l, q);
    StartedInOrder(l, q, how);
    StartedAccounted(l, q, how);
    StartedLogged(l, q, how);
  }

  lemma StartedInOrder(l: Log, q: nat, how: Outcome)
    requires InOrder(l) && Answered(l) && q !in l.arrived && l.chain == []
    ensures InOrder(Request(l, q, how)) && Answered(Request(l, q, how))
  {
  }

  lemma StartedAccounted(l: Log, q: nat, how: Outcome)
    requires Accounted(l) && l.chain == []
    ensures Accounted(Request(l, q, how))
  {
  }

  lemma StartedLogged(l: Log, q: nat, how: Outcome)
    requires Logged(l) && Waiting(l) && q !in l.killed && l.chain == []
    ensures Logged(Request(l, q, how)) && Waiting(Request(l, q, how))
  {
  }

  lemma RequestSound(l: Log, q: nat, how: Outcome)
    requires Sound(l) && q !in l.arrived
    ensures Sound(Request(l, q, how))
  {
    if l.chain != [] {
      QueuedSound(l, q, how);
    } else {
      StartedSound(l, q, how);
    }
  }

  lemma NextStartedSound(l: Log, how: Outcome)
    requires Sound(l) && l.chain != []
    ensures Sound(NextStarted(l, how))
  {
    NextInOrder(l, how);
    NextAccounted(l, how);
    NextLogged(l, how);
  }

  lemma NextInOrder(l: Log, how: Outcome)
    requires InOrder(l) && Answered(l) && l.chain != []
    ensures InOrder(NextStarted(l, how)) && Answered(NextStarted(l, how))
  {
    if |l.chain| > 1 {
      OneOverMore(l.started, Rest(l.chain));
    }
  }

  lemma OneOverMore(a: seq<nat>, b: seq<nat>)
    requires b != []
    ensures (a + [b[0]]) + Rest(b) == a + b
  {
  }

  lemma NextAccounted(l: Log, how: Outcome)
    requires Accounted(l) && l.chain != []
    ensures Accounted(NextStarted(l, how))
  {
    assert Head(l.chain) == [l.chain[0]];
  }

  lemma NextLogged(l: Log, how: Outcome)
    requires Logged(l) && Waiting(l) && l.chain != []
    ensures Logged(NextStarted(l, how)) && Waiting(NextStarted(l, how))
  {
    var r := NextStarted(l, how);
    if r.chain != [] {
      assert Rest(l.chain) == [r.chain[0]] + Rest(r.chain);
      assert r.chain[0] in Rest(l.chain);
    }
  }

  lemma {:induction false} EndedSound(l: Log, hows: seq<Outcome>)
    requires Sound(l) && l.chain != []
    ensures Sound(Ended(l, hows))
    decreases |l.chain|
  {
    var how := if hows == [] then Threaded else hows[0];
    NextStartedSound(l, how);
    var r := NextStarted(l, how);
    if r.chain != [] && !how.Threaded? {
      EndedSound(r, hows[1..]);
    }
  }

  lemma CallBackSound(l: Log)
    requires Sound(l) && l.finishing != []
    ensures Sound(CallBack(l))
  {
    var n := |l.finishing| - 1;
    CallBackAccounts(l, l.finishing[n], n);
    CallBackAnswered(l, l.finishing[n], n);
    CallBackOrder(l);
  }

  lemma CallBackOrder(l: Log)
    requires InOrder(l) && Logged(l) && Waiting(l) && l.finishing != []
    ensures InOrder(CallBack(l)) && Logged(CallBack(l)) && Waiting(CallBack(l))
  {
  }

  lemma CallBackAnswered(l: Log, q: nat, n: nat)
    requires Answered(l) && n + 1 == |l.finishing| && q == l.finishing[n]
    ensures Answered(CallBack(l))
  {
  }

  lemma CallBackAccounts(l: Log, q: nat, n: nat)
    requires Accounted(l) && n + 1 == |l.finishing| && q == l.finishing[n]
    ensures Accounted(CallBack(l)) && q in l.started
  {
    assert l.finishing == l.finishing[..n] + [q];
    assert q in multiset(l.started);
  }

  lemma KillSound(l: Log, q: nat)
    requires Sound(l) && Live(l, q)
    ensures Sound(Kill(l, q))
  {
    Parts(l);
    if q !in l.arrived {
      NotThere(l, q);
    }
    Somewhere(l, q);
    assert multiset(l.chain)[q] + multiset(l.finishing)[q] >= 1 by {
      if q in l.chain {
        assert q in multiset(l.chain);
      } else {
        assert q in multiset(l.finishing);
      }
    }
    assert q !in multiset(l.called);
    KillLogged(l, q);
  }

  lemma KillLogged(l: Log, q: nat)
    requires InOrder(l) && Logged(l) && Waiting(l)
    ensures Logged(Kill(l, q)) && Waiting(Kill(l, q))
  {
    var n := |l.started|;
    if q in Rest(l.chain) {
      var j :| 0 <= j < |Rest(l.chain)| && Rest(l.chain)[j] == q;
      assert l.arrived[n + j] == q;
      forall i | 0 <= i < |l.started|
        ensures l.started[i] != q
      {
        assert l.arrived[i] == l.started[i];
      }
    }
  }

  // ----- Whole runs -----

  datatype Event = Requested(query: nat, how: Outcome) | LookupEnded(hows: seq<Outcome>) | CalledBack | Killed(query: nat)

  predicate Enabled(l: Log, e: Event) {
    match e
    case Requested(q, _) => q !in l.arrived
    case LookupEnded(_) => l.chain != []
    case CalledBack => l.finishing != []
    case Killed(q) => Live(l, q)
  }

  function Step(l: Log, e: Event): Log
    requires Enabled(l, e)
  {
    match e
    case Requested(q, how) => Request(l, q, how)
    case LookupEnded(hows) => Ended(l, hows)
    case CalledBack => CallBack(l)
    case Killed(q) => Kill(l, q)
  }

  /** An event that cannot happen is left out. */
  function Next(l: Log, e: Event): Log {
    if Enabled(l, e) then Step(l, e) else l
  }

  function Run(l: Log, events: seq<Event>): Log
    decreases |events|
  {
    if events == [] then l else Run(Next(l, events[0]), events[1..])
  }

  lemma {:induction false} RunSnoc(l: Log, events: seq<Event>, e: Event)
    ensures Run(l, events + [e]) == Next(Run(l, events), e)
    decreases |events|
  {
    if events == [] {
      assert [e][1..] == [];
    } else {
      assert (events + [e])[1..] == events[1..] + [e];
      RunSnoc(Next(l, events[0]), events[1..], e);
    }
  }

  lemma StepSound(l: Log, e: Event)
    requires Sound(l) && Enabled(l, e)
    ensures Sound(Step(l, e))
  {
    match e {
      case Requested(q, how) => RequestSound(l, q, how);
      case LookupEnded(hows) => EndedSound(l, hows);
      case CalledBack => CallBackSound(l);
      case Killed(q) => KillSound(l, q);
    }
  }

  lemma {:induction false} RunSound(l: Log, events: seq<Event>)
    requires Sound(l)
    ensures Sound(Run(l, events))
    decreases |events|
  {
    if events != [] {
      if Enabled(l, events[0]) {
        StepSound(l, events[0]);
      }
      RunSound(Next(l, events[0]), events[1..]);
    }
  }

  /** After any run, once nothing runs and no callback is due, every request has been called back exactly once,
    * and lookups were started in the order of the requests; only the killed ones were not called back. */
  lemma {:induction false} EveryoneAnswered(events: seq<Event>, q: nat)
    requires var l := Run(EMPTY, events); l.chain == [] && l.finishing == [] && q in l.arrived
    ensures var l := Run(EMPTY, events);
            && l.started == l.arrived
            && multiset(l.called)[q] == if q in l.killed then 0 else 1
  {
    EmptySound();
    RunSound(EMPTY, events);
    var l := Run(EMPTY, events);
    Somewhere(l, q);
    assert q in l.dropped <==> q in multiset(l.dropped);
    assert q in l.called <==> q in multiset(l.called);
  }

  /** The i-th event kills q while it waits behind a running lookup. */
  predicate KillsWaiting(events: seq<Event>, i: nat, q: nat)
    requires i < |events|
  {
    var l := Run(EMPTY, events[..i]);
    events[i] == Killed(q) && Live(l, q) && q in Rest(l.chain)
  }

  lemma {:induction false} EndedKeepsKilled(l: Log, hows: seq<Outcome>)
    requires l.chain != []
    ensures Ended(l, hows).killedWaiting == l.killedWaiting
    decreases |l.chain|
  {
    var how := if hows == [] then Threaded else hows[0];
    var r := NextStarted(l, how);
    if r.chain != [] && !how.Threaded? {
      EndedKeepsKilled(r, hows[1..]);
    }
  }

  lemma {:induction false} KilledWaitingMeans(events: seq<Event>, q: nat)
    ensures q in Run(EMPTY, events).killedWaiting <==> exists i :: 0 <= i < |events| && KillsWaiting(events, i, q)
    decreases |events|
  {
    if events != [] {
      var n := |events| - 1;
      var front, l := events[..n], Run(EMPTY, events[..n]);
      assert events == front + [events[n]];
      RunSnoc(EMPTY, front, events[n]);
      KilledWaitingMeans(front, q);
      forall i | 0 <= i < n
        ensures KillsWaiting(events, i, q) == KillsWaiting(front, i, q)
      {
        assert events[..i] == front[..i];
      }
      if Enabled(l, events[n]) && events[n].LookupEnded? {
        EndedKeepsKilled(l, events[n].hows);
      }
      assert q in Run(EMPTY, events).killedWaiting <==> q in l.killedWaiting || KillsWaiting(events, n, q);
    }
  }

  /**
   * When a lookup is made without a place for the address: if, and only if, its query was killed while
   * it still waited behind another lookup. It is then made all the same, and at once if no thread can
   * be started. Killing the head of the chain or a query that has ended never leads to this.
   */
  lemma {:induction false} PlaceLost(events: seq<Event>, i: nat)
    requires i < |Run(EMPTY, events).lookups|
    ensures var u := Run(EMPTY, events).lookups[i];
            !u.hasPlace <==> exists k :: 0 <= k < |events| && KillsWaiting(events, k, u.query)
  {
    EmptySound();
    RunSound(EMPTY, events);
    KilledWaitingMeans(events, Run(EMPTY, events).lookups[i].query);
  }

  /** Whoever is killed waiting is looked up none the less, once it is its turn. */
  lemma {:induction false} KilledStillLookedUp(events: seq<Event>, k: nat, q: nat)
    requires k < |events| && KillsWaiting(events, k, q) && q in Run(EMPTY, events).started
    ensures exists i :: 0 <= i < |Run(EMPTY, events).lookups| && Run(EMPTY, events).lookups[i].query == q
                        && !Run(EMPTY, events).lookups[i].hasPlace
  {
    EmptySound();
    RunSound(EMPTY, events);
    KilledWaitingMeans(events, q);
    var l := Run(EMPTY, events);
    var i :| 0 <= i < |l.started| && l.started[i] == q;
    assert l.lookups[i].query == q;
  }

  /** This does happen: a run in which no thread can be started for such a query. */
  lemma AtOnceWithoutPlace()
    ensures var l := Run(EMPTY, [Requested(1, Threaded), Requested(2, Threaded), Killed(2), LookupEnded([AtOnce(true)])]);
            Lookup(2, AtOnce(true), false) in l.lookups
  {
    var l1 := Request(EMPTY, 1, Threaded);
    var l2 := Request(l1, 2, Threaded);
    assert l2.chain == [1, 2] && l2.arrived == [1, 2];
    var l3 := Kill(l2, 2);
    var l4 := Ended(l3, [AtOnce(true)]);
    var n := NextStarted(l3, AtOnce(true));
    assert n.chain == [2];
    assert n.lookups[|n.lookups| - 1] == Lookup(2, AtOnce(true), false);
    assert [AtOnce(true)][1..] == [];
    assert l4 == Ended(n, []) == NextStarted(n, Threaded);
    var es := [Requested(1, Threaded), Requested(2, Threaded), Killed(2), LookupEnded([AtOnce(true)])];
    assert Run(EMPTY, es) == Run(l1, es[1..]);
    assert Run(l1, es[1..]) == Run(l2, es[2..]) by {
      assert es[1..][1..] == es[2..];
    }
    assert Run(l2, es[2..]) == Run(l3, es[3..]) by {
      assert es[2..][1..] == es[3..];
    }
    assert Run(l3, es[3..]) == Run(l4, es[4..]) by {
      assert es[3..][1..] == es[4..];
    }
  }
}
