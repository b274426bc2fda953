/**
  Endpoint failover (clickhouse/client.cpp, clickhouse/base/endpoints_iterator.cpp): round-robin iteration under
  nested retry loops that put the current endpoint back on failure. Connecting and calling are scripts: attempt
  number i ends as the script says.
 */
module Failover {
  import opened Arith
  import opened Optional

  datatype Endpoint = Endpoint(host: string, port: nat)

  /** How an attempt ends: done, with a std::system_error, or with any other exception. */
  datatype Ending = Success | SystemError | OtherError

  /** How many attempts are made until one does not end in a system_error, at most limit. */
  function Attempts(script: nat -> Ending, from: nat, limit: nat): (m: nat)
    requires limit > 0
    ensures 1 <= m <= limit
    decreases limit
  {
    if limit == 1 || script(from) != SystemError then 1 else 1 + Attempts(script, from + 1, limit - 1)
  }

  /** All attempts but the last end in a system_error, and so does the last only at the limit. */
  lemma {:induction false} AttemptsMeaning(script: nat -> Ending, from: nat, limit: nat)
    requires limit > 0
    ensures var m := Attempts(script, from, limit);
            && (forall j :: from <= j < from + m - 1 ==> script(j) == SystemError)
            && (m < limit ==> script(from + m - 1) != SystemError)
    decreases limit
  {
    if limit > 1 && script(from) == SystemError {
      AttemptsMeaning(script, from + 1, limit - 1);
    }
  }

  lemma AttemptsStep(script: nat -> Ending, from: nat, limit: nat)
    requires limit > 0
    ensures limit == 1 || script(from) != SystemError ==> Attempts(script, from, limit) == 1
    ensures limit > 1 && script(from) == SystemError ==>
              Attempts(script, from, limit) == 1 + Attempts(script, from + 1, limit - 1)
  {
  }

  /** How a run of attempts ends, and how many reconnects and calls there have been in all when it does. */
  datatype Trace = Trace(ending: Ending, connected: nat, called: nat)

  /** Reconnect number t and, if that works, call number q. */
  function TryTrace(connects: nat -> Ending, calls: nat -> Ending, t: nat, q: nat): Trace {
    if connects(t) == Success then Trace(calls(q), t + 1, q + 1) else Trace(connects(t), t + 1, q)
  }

  /** Reconnecting and calling until it ends otherwise than in a system_error, at most limit times. */
  function WalkTrace(connects: nat -> Ending, calls: nat -> Ending, t: nat, q: nat, limit: nat): Trace
    requires limit > 0
    decreases limit
  {
    var a := TryTrace(connects, calls, t, q);
    if a.ending == SystemError && limit > 1 then WalkTrace(connects, calls, a.connected, a.called, limit - 1) else a
  }

  lemma WalkStep(connects: nat -> Ending, calls: nat -> Ending, t: nat, q: nat, limit: nat)
    requires limit > 0
    ensures var a := TryTrace(connects, calls, t, q);
            WalkTrace(connects, calls, t, q, limit) ==
              if a.ending == SystemError && limit > 1
              then WalkTrace(connects, calls, a.connected, a.called, limit - 1)
              else a
  {
  }

  /** Calling until it ends otherwise than in a system_error, at most limit times, with reconnects in between. */
  function HereTrace(connects: nat -> Ending, calls: nat -> Ending, t: nat, q: nat, limit: nat): Trace
    requires limit > 0
    decreases limit
  {
    if calls(q) != SystemError || limit == 1 then Trace(calls(q), t, q + 1)
    else if connects(t) == OtherError then Trace(OtherError, t + 1, q + 1)
    else HereTrace(connects, calls, t + 1, q + 1, limit - 1)
  }

  /** Calling on the current endpoint, and then on the others if there are retries and all of that failed. */
  function GuardTrace(connects: nat -> Ending, calls: nat -> Ending, t: nat, q: nat, retries: nat, n: nat): Trace
    requires n > 0
  {
    var here := HereTrace(connects, calls, t, q, Rounds(retries));
    if here.ending != SystemError || retries == 0 then here
    else
      MulLe(n, 1, retries);
      WalkTrace(connects, calls, here.connected, here.called, retries * n)
  }

  /** Of the reconnects of a guarded call, those that moved to another endpoint. */
  function Walked(reconnects: nat, retries: nat): (walked: nat)
    ensures walked <= reconnects
  {
    if 0 < retries <= reconnects then reconnects - (retries - 1) else 0
  }

  function Copies(e: Endpoint, k: nat): (s: seq<Endpoint>)
    ensures |s| == k && forall i :: 0 <= i < k ==> s[i] == e
  {
    if k == 0 then [] else Copies(e, k - 1) + [e]
  }

  /** The iterator's index m steps after k, out of n. */
  function Turn(k: nat, m: nat, n: nat): (i: nat)
    requires k < n
    ensures i < n
  {
    if m == 0 then k else
      var i := Turn(k, m - 1, n);
      if i + 1 == n then 0 else i + 1
  }

  /** m endpoints in cyclic order, starting at index k. */
  function Cycle(endpoints: seq<Endpoint>, k: nat, m: nat): (s: seq<Endpoint>)
    requires k < |endpoints|
    ensures |s| == m && forall j :: 0 <= j < m ==> s[j] == endpoints[Turn(k, j, |endpoints|)]
  {
    if m == 0 then [] else Cycle(endpoints, k, m - 1) + [endpoints[Turn(k, m - 1, |endpoints|)]]
  }

  lemma NextIsTurn(i: nat, n: nat)
    requires i < n
    ensures (i + 1) % n == if i + 1 == n then 0 else i + 1
  {
    if i + 1 == n {
      DivModUnique(i + 1, n, 1, 0);
    } else {
      DivModUnique(i + 1, n, 0, i + 1);
    }
  }

  lemma {:induction false} TurnClosed(k: nat, m: nat, n: nat)
    requires k < n && m <= n
    ensures Turn(k, m, n) == if k + m < n then k + m else k + m - n
  {
    if m != 0 { TurnClosed(k, m - 1, n); }
  }

  lemma {:induction false} TurnAdd(k: nat, a: nat, b: nat, n: nat)
    requires k < n
    ensures Turn(k, a + b, n) == Turn(Turn(k, a, n), b, n)
    decreases b
  {
    if b != 0 { TurnAdd(k, a, b - 1, n); }
  }

  /** Whole rounds bring the iterator back. */
  lemma {:induction false} FullTurns(k: nat, n: nat, times: nat)
    requires k < n
    ensures Turn(k, times * n, n) == k
    decreases times
  {
    if times != 0 {
      FullTurns(k, n, times - 1);
      TurnClosed(k, n, n);
      TurnAdd(k, (times - 1) * n, n, n);
      assert times * n == (times - 1) * n + n;
    }
  }

  /** m moves are a whole number of rounds over n endpoints. */
  predicate Whole(m: nat, n: nat)
    requires n > 0
  {
    m % n == 0
  }

  /** The iterator is back exactly after whole rounds. */
  lemma TurnBack(k: nat, m: nat, n: nat)
    requires k < n
    ensures Turn(k, m, n) == k <==> Whole(m, n)
  {
    var q, r := m / n, m % n;
    DivMod(m, n);
    assert n * q == q * n;
    FullTurns(k, n, q);
    TurnAdd(k, q * n, r, n);
    TurnClosed(k, r, n);
  }

  ghost predicate Distinct(endpoints: seq<Endpoint>) {
    forall i, j :: 0 <= i < j < |endpoints| ==> endpoints[i] != endpoints[j]
  }

  /**
    The condition under which an endpoint that was put back agrees with an iterator that was not: the iterator has
    come to an equal endpoint, which among distinct endpoints means a whole number of rounds.
   */
  lemma SyncAfterMoves(endpoints: seq<Endpoint>, k: nat, m: nat)
    requires k < |endpoints|
    ensures Distinct(endpoints) ==>
              (endpoints[Turn(k, m, |endpoints|)] == endpoints[k] <==> Whole(m, |endpoints|))
  {
    TurnBack(k, m, |endpoints|);
  }

  /** Within one round that is only before the first move. */
  lemma SyncWithinRound(endpoints: seq<Endpoint>, k: nat, m: nat)
    requires k < |endpoints| && m < |endpoints|
    ensures Distinct(endpoints) ==> (endpoints[Turn(k, m, |endpoints|)] == endpoints[k] <==> m == 0)
  {
    TurnClosed(k, m, |endpoints|);
  }

  /** One round visits every index exactly once. */
  lemma OneRound(k: nat, i: nat, n: nat) returns (j: nat)
    requires k < n && i < n
    ensures j < n && Turn(k, j, n) == i
    ensures forall j' :: 0 <= j' < n && Turn(k, j', n) == i ==> j' == j
  {
    j := if i >= k then i - k else i + n - k;
    TurnClosed(k, j, n);
    forall j' | 0 <= j' < n && Turn(k, j', n) == i
      ensures j' == j
    {
      TurnClosed(k, j', n);
    }
  }

  lemma NextTurn(endpoints: seq<Endpoint>, k: nat, m: nat)
    requires k < |endpoints|
    ensures var n, i := |endpoints|, Turn(k, m, |endpoints|);
            && Turn(k, m + 1, n) == (if i + 1 == n then 0 else i + 1)
            && Cycle(endpoints, k, m + 1) == Cycle(endpoints, k, m) + [endpoints[i]]
            && Turn(k, 0, n) == k && Cycle(endpoints, k, 0) == []
  {
  }

  lemma {:induction false} CycleJoin(endpoints: seq<Endpoint>, k: nat, a: nat, b: nat)
    requires k < |endpoints|
    ensures Cycle(endpoints, k, a + b) == Cycle(endpoints, k, a) + Cycle(endpoints, Turn(k, a, |endpoints|), b)
    decreases b
  {
    if b != 0 {
      CycleJoin(endpoints, k, a, b - 1);
      TurnAdd(k, a, b - 1, |endpoints|);
    }
  }

  lemma {:induction false} AttemptsSplit(script: nat -> Ending, from: nat, first: nat, more: nat)
    requires first > 0 && more > 0
    ensures Attempts(script, from, first + more) ==
              if Attempts(script, from, first) == first && script(from + first - 1) == SystemError
              then first + Attempts(script, from + first, more)
              else Attempts(script, from, first)
    decreases first
  {
    if first > 1 && script(from) == SystemError {
      AttemptsSplit(script, from + 1, first - 1, more);
    }
  }

  class Connector {
    const endpoints: seq<Endpoint>
    const sendRetries: nat
    const connects: nat -> Ending
    const calls: nat -> Ending
    var index: nat
    var current: Endpoint
    var tried: seq<Endpoint>
    var called: nat

    ghost predicate Valid()
      reads this
    {
      index < |endpoints|
    }

    /** The current endpoint is the one the iterator points at. */
    ghost predicate InSync()
      reads this
    {
      Valid() && current == endpoints[index]
    }

    constructor (endpoints: seq<Endpoint>, sendRetries: nat, connects: nat -> Ending, calls: nat -> Ending)
      requires endpoints != []
      ensures InSync() && index == 0 && tried == [] && called == 0
      ensures this.endpoints == endpoints && this.sendRetries == sendRetries
      ensures this.connects == connects && this.calls == calls
    {
      this.endpoints, this.sendRetries, this.connects, this.calls := endpoints, sendRetries, connects, calls;
      index := |endpoints| - 1;
      tried, called := [], 0;
      current := endpoints[0];
      new;
      NextIsTurn(|endpoints| - 1, |endpoints|);
      current := Next();
    }

    /** The iterator moves to the next endpoint, wrapping around. */
    method Next() returns (e: Endpoint)
      requires Valid()
      modifies this`index
      ensures Valid() && index == (if old(index) + 1 == |endpoints| then 0 else old(index) + 1) && e == endpoints[index]
    {
      NextIsTurn(index, |endpoints|);
      index := (index + 1) % |endpoints|;
      e := endpoints[index];
    }

    /** One connection attempt to the current endpoint. */
    method ResetConnection() returns (r: Ending)
      modifies this`tried
      ensures r == connects(|old(tried)|) && tried == old(tried) + [current]
    {
      r := connects(|tried|);
      tried := tried + [current];
    }

    /** The loop of one round over the endpoints, starting with the current one. */
    method TryRound() returns (r: Ending)
      requires Valid()
      modifies this`index, this`current, this`tried
      ensures Valid()
      ensures var m := Attempts(connects, |old(tried)|, |endpoints|);
              && |tried| == |old(tried)| + m && r == connects(|old(tried)| + m - 1)
              && (old(InSync()) ==> tried == old(tried) + Cycle(endpoints, old(index), m))
              && (r == SystemError ==> m == |endpoints| && index == old(index) && current == old(current))
              && (r != SystemError ==> index == Turn(old(index), m - 1, |endpoints|))
              && (r == OtherError ==> current == old(current))
              && (r == Success && old(InSync()) ==> InSync())
    {
      hide Turn, Cycle, Attempts;
      var last := current;
      var n := |endpoints|;
      ghost var k, t, synced, m, trail := index, |tried|, InSync(), Attempts(connects, |tried|, |endpoints|), [];
      NextTurn(endpoints, k, 0);
      TurnClosed(k, n, n);
      var i := 1;
      while true
        invariant 1 <= i <= n && Valid() && |trail| == i - 1 && index == Turn(k, i - 1, n)
        invariant i == 1 ==> current == last
        invariant tried == old(tried) + trail
        invariant synced ==> InSync() && trail == Cycle(endpoints, k, i - 1)
        invariant m == i - 1 + Attempts(connects, t + i - 1, n - i + 1)
        decreases n - i
      {
        NextTurn(endpoints, k, i - 1);
        AttemptsStep(connects, t + i - 1, n - i + 1);
        trail := trail + [current];
        r := ResetConnection();
        if r == Success {
          return;
        }
        if r == OtherError {
          current := last;
          return;
        }
        current := Next();
        if i >= n {
          current := last;
          return;
        }
        i := i + 1;
      }
    }

    /** One round, and when endpoint and iterator still agree after it. */
    method ResetConnectionEndpoint() returns (r: Ending)
      requires Valid()
      modifies this`index, this`current, this`tried
      ensures Valid()
      ensures var m := Attempts(connects, |old(tried)|, |endpoints|);
              && |tried| == |old(tried)| + m && r == connects(|old(tried)| + m - 1)
              && (old(InSync()) ==> tried == old(tried) + Cycle(endpoints, old(index), m))
              && (r == SystemError ==> m == |endpoints| && index == old(index) && current == old(current))
              && (r != SystemError ==> index == Turn(old(index), m - 1, |endpoints|))
              && (r == OtherError ==> current == old(current))
              && (r == Success && old(InSync()) ==> InSync())
              && (r == OtherError && old(InSync()) ==>
                    (InSync() <==> endpoints[Turn(old(index), m - 1, |endpoints|)] == endpoints[old(index)]))
              && (r == OtherError && old(InSync()) && Distinct(endpoints) ==> (InSync() <==> m == 1))
    {
      hide Turn, Cycle, Attempts, Distinct;
      SyncWithinRound(endpoints, index, Attempts(connects, |tried|, |endpoints|) - 1);
      r := TryRound();
    }

    /** The loop of rounds over all endpoints until one connects, at least one round. */
    method TryRounds() returns (r: Ending)
      requires Valid()
      modifies this`index, this`current, this`tried
      ensures Valid()
      ensures var m := Attempts(connects, |old(tried)|, Rounds(sendRetries) * |endpoints|);
              && |tried| == |old(tried)| + m && r == connects(|old(tried)| + m - 1)
              && (old(InSync()) ==> tried == old(tried) + Cycle(endpoints, old(index), m))
              && (r == SystemError ==>
                  m == Rounds(sendRetries) * |endpoints| && index == old(index) && current == old(current))
              && (r != SystemError ==> index == Turn(old(index), m - 1, |endpoints|))
              && (r == OtherError ==> current == old(current))
              && (r == Success && old(InSync()) ==> InSync())
    {
      hide Cycle, Attempts, Turn, Distinct;
      var max := Rounds(sendRetries);
      ghost var n, k, t, total := |endpoints|, index, |tried|, Rounds(sendRetries) * |endpoints|;
      ghost var done: nat, left := 0, total;
      var i := 1;
      while true
        invariant 1 <= i <= max && Valid() && index == k && current == old(current)
        invariant done == (i - 1) * n && left == (max - i + 1) * n && done + left == total && left > 0
        invariant |tried| == t + done
        invariant Attempts(connects, t, total) == done + Attempts(connects, t + done, left)
        invariant old(InSync()) ==> tried == old(tried) + Cycle(endpoints, k, done)
        decreases max - i
      {
        ghost var before, m := tried, Attempts(connects, t + done, n);
        RoundSplit(connects, t + done, n, left, max - i);
        r := ResetConnectionEndpoint();
        RoundsJoin(endpoints, k, i - 1, m, old(tried), before, tried);
        if r != SystemError {
          return;
        }
        if i >= max {
          return;
        }
        done, left := done + n, left - n;
        i := i + 1;
      }
    }

    /** The rounds, and when endpoint and iterator still agree after them. */
    method CreateConnection() returns (r: Ending)
      requires Valid()
      modifies this`index, this`current, this`tried
      ensures Valid()
      ensures var m := Attempts(connects, |old(tried)|, Rounds(sendRetries) * |endpoints|);
              && |tried| == |old(tried)| + m && r == connects(|old(tried)| + m - 1)
              && (old(InSync()) ==> tried == old(tried) + Cycle(endpoints, old(index), m))
              && (r == SystemError ==>
                  m == Rounds(sendRetries) * |endpoints| && index == old(index) && current == old(current))
              && (r != SystemError ==> index == Turn(old(index), m - 1, |endpoints|))
              && (r == OtherError ==> current == old(current))
              && (r == Success && old(InSync()) ==> InSync())
              && (r == OtherError && old(InSync()) ==>
                    (InSync() <==> endpoints[Turn(old(index), m - 1, |endpoints|)] == endpoints[old(index)]))
              && (r == OtherError && old(InSync()) && Distinct(endpoints) ==> (InSync() <==> Whole(m - 1, |endpoints|)))
    {
      hide Cycle, Attempts, Turn, Distinct, Whole;
      SyncAfterMoves(endpoints, index, Attempts(connects, |tried|, Rounds(sendRetries) * |endpoints|) - 1);
      r := TryRounds();
    }

    /** Calls the function on the current endpoint, reconnecting in between; None when the retries are used up. */
    method RetryHere() returns (r: Option<Ending>)
      requires Valid()
      modifies this`tried, this`called
      ensures |tried| >= |old(tried)| && tried == old(tried) + Copies(current, |tried| - |old(tried)|)
      ensures var end := HereTrace(connects, calls, |old(tried)|, old(called), Rounds(sendRetries));
              && |tried| == end.connected && called == end.called
              && r == if end.ending == SystemError && sendRetries > 0 then None else Some(end.ending)
    {
      ghost var end := HereTrace(connects, calls, |tried|, called, Rounds(sendRetries));
      var i := 1;
      while true
        invariant 1 <= i <= Rounds(sendRetries) && tried == old(tried) + Copies(current, i - 1)
        invariant end == HereTrace(connects, calls, |tried|, called, Rounds(sendRetries) - i + 1)
        decreases Rounds(sendRetries) - i
      {
        var ending := calls(called);
        called := called + 1;
        if ending != SystemError {
          return Some(ending);
        }
        if sendRetries == 0 {
          return Some(SystemError);
        }
        if i >= sendRetries {
          return None;
        }
        var again := ResetConnection();
        if again == OtherError {
          return Some(OtherError);
        }
        i := i + 1;
      }
    }

    /** Moves to the next endpoint, connects, and calls the function if that worked. */
    method TryNext() returns (r: Ending)
      requires Valid()
      modifies this`index, this`current, this`tried, this`called
      ensures InSync() && index == (if old(index) + 1 == |endpoints| then 0 else old(index) + 1)
      ensures tried == old(tried) + [endpoints[index]]
      ensures Trace(r, |tried|, called) == TryTrace(connects, calls, |old(tried)|, old(called))
    {
      current := Next();
      r := ResetConnection();
      if r == Success {
        r := calls(called);
        called := called + 1;
      }
    }

    /** Walks the endpoints, connecting and calling on each, until something other than a system_error ends it. */
    method Walk(attempts: nat) returns (r: Ending)
      requires Valid() && attempts > 0
      modifies this`index, this`current, this`tried, this`called
      ensures InSync() && |tried| > |old(tried)|
      ensures index == Turn(old(index), |tried| - |old(tried)|, |endpoints|)
      ensures tried == old(tried) + Cycle(endpoints, Turn(old(index), 1, |endpoints|), |tried| - |old(tried)|)
      ensures Trace(r, |tried|, called) == WalkTrace(connects, calls, |old(tried)|, old(called), attempts)
    {
      ghost var n, k, first, tried0 := |endpoints|, index, Turn(index, 1, |endpoints|), tried;
      ghost var end := WalkTrace(connects, calls, |tried|, called, attempts);
      NextTurn(endpoints, k, 0);
      NextTurn(endpoints, first, 0);
      hide Turn, Cycle, WalkTrace, TryTrace;
      ghost var trail := [];
      var i := 0;
      r := SystemError;
      while i < attempts && r == SystemError
        invariant 0 <= i <= attempts && Valid() && |trail| == i && index == Turn(k, i, n)
        invariant tried == tried0 + trail && trail == Cycle(endpoints, first, i)
        invariant i == 0 ==> r == SystemError
        invariant i > 0 ==> InSync()
        invariant if i < attempts && r == SystemError
                  then end == WalkTrace(connects, calls, |tried|, called, attempts - i)
                  else end == Trace(r, |tried|, called)
      {
        NextTurn(endpoints, k, i);
        NextTurn(endpoints, first, i);
        TurnAdd(k, 1, i, n);
        WalkStep(connects, calls, |tried|, called, attempts - i);
        r := TryNext();
        trail := trail + [endpoints[index]];
        i := i + 1;
      }
    }

    /** Walks the endpoints for sendRetries rounds, putting the current endpoint back on failure. */
    method RetryElsewhere() returns (r: Ending)
      requires Valid() && sendRetries > 0
      modifies this`index, this`current, this`tried, this`called
      ensures Valid() && |tried| > |old(tried)|
      ensures index == Turn(old(index), |tried| - |old(tried)|, |endpoints|)
      ensures tried == old(tried) + Cycle(endpoints, Turn(old(index), 1, |endpoints|), |tried| - |old(tried)|)
      ensures r != Success ==> current == old(current)
      ensures r == Success ==> InSync()
      ensures sendRetries * |endpoints| > 0
      ensures Trace(r, |tried|, called) ==
                WalkTrace(connects, calls, |old(tried)|, old(called), sendRetries * |endpoints|)
    {
      hide Turn, Cycle, WalkTrace;
      var last := current;
      MulLe(|endpoints|, 1, sendRetries);
      r := Walk(sendRetries * |endpoints|);
      if r != Success {
        current := last;
      }
    }

    /**
      Runs the function with retries. The scripts decide how it ends and after how many calls and reconnects; the
      reconnects go to the current endpoint and then around the others. On failure the endpoint is put back but the
      iterator stays where the walk has taken it.
     */
    method RetryGuard() returns (r: Ending)
      requires Valid()
      modifies this`index, this`current, this`tried, this`called
      ensures Valid() && |tried| >= |old(tried)|
      ensures Trace(r, |tried|, called) ==
                GuardTrace(connects, calls, |old(tried)|, old(called), sendRetries, |endpoints|)
      ensures var n, reconnects := |endpoints|, |tried| - |old(tried)|;
              var walked := Walked(reconnects, sendRetries);
              && index == Turn(old(index), walked, n)
              && tried == old(tried) + Copies(old(current), reconnects - walked)
                          + Cycle(endpoints, Turn(old(index), 1, n), walked)
              && (r == Success ==> if walked == 0 then current == old(current) else InSync())
              && (r == OtherError && old(InSync()) ==>
                    (InSync() <==> endpoints[Turn(old(index), walked, n)] == endpoints[old(index)]))
              && (r == OtherError && old(InSync()) && Distinct(endpoints) ==> (InSync() <==> Whole(walked, n)))
      ensures r == SystemError ==> index == old(index)
      ensures r != Success ==> current == old(current)
      ensures sendRetries > 0 ==>
                && called - old(called) <= sendRetries + sendRetries * |endpoints|
                && |tried| - |old(tried)| <= sendRetries - 1 + sendRetries * |endpoints|
                && (r == SystemError ==> |tried| - |old(tried)| == sendRetries - 1 + sendRetries * |endpoints|)
    {
      hide Turn, Cycle, HereTrace, WalkTrace, Copies, Distinct, Whole, Quiet, FromLast;
      GuardMeaning(connects, calls, |tried|, called, sendRetries, |endpoints|);
      ghost var end := GuardTrace(connects, calls, |tried|, called, sendRetries, |endpoints|);
      SyncAfterMoves(endpoints, index, Walked(end.connected - |tried|, sendRetries));
      NextTurn(endpoints, index, 0);
      NextTurn(endpoints, Turn(index, 1, |endpoints|), 0);
      HereMeaning(connects, calls, |tried|, called, Rounds(sendRetries));
      FullTurns(index, |endpoints|, sendRetries);
      var here := RetryHere();
      if here.Some? {
        return here.value;
      }
      MulLe(|endpoints|, 1, sendRetries);
      WalkMeaning(connects, calls, |tried|, called, sendRetries * |endpoints|);
      r := RetryElsewhere();
    }
  }

  /** All calls but the last ended in a system_error, and no reconnect but the last in another exception. */
  ghost predicate Quiet(connects: nat -> Ending, calls: nat -> Ending, t: nat, q: nat, end: Trace) {
    && (forall j :: q <= j < end.called - 1 ==> calls(j) == SystemError)
    && (forall j :: t <= j < end.connected - 1 ==> connects(j) != OtherError)
  }

  /** How it ended is how the last call or the last reconnect ended, and success is that of a call. */
  ghost predicate FromLast(connects: nat -> Ending, calls: nat -> Ending, t: nat, q: nat, end: Trace) {
    || (q < end.called && calls(end.called - 1) == end.ending)
    || (t < end.connected && connects(end.connected - 1) == end.ending != Success)
  }

  lemma {:induction false} WalkMeaning(connects: nat -> Ending, calls: nat -> Ending, t: nat, q: nat, limit: nat)
    requires limit > 0
    ensures var end := WalkTrace(connects, calls, t, q, limit);
            && t < end.connected <= t + limit && q <= end.called <= q + (end.connected - t)
            && Quiet(connects, calls, t, q, end) && FromLast(connects, calls, t, q, end)
            && (end.ending == SystemError ==> end.connected == t + limit)
            && (end.ending == SystemError ==> forall j :: q <= j < end.called ==> calls(j) == SystemError)
    decreases limit
  {
    var a := TryTrace(connects, calls, t, q);
    if a.ending == SystemError && limit > 1 {
      WalkMeaning(connects, calls, a.connected, a.called, limit - 1);
    }
  }

  lemma {:induction false} HereMeaning(connects: nat -> Ending, calls: nat -> Ending, t: nat, q: nat, limit: nat)
    requires limit > 0
    ensures var end := HereTrace(connects, calls, t, q, limit);
            && t <= end.connected <= t + limit - 1 && q < end.called <= q + limit
            && Quiet(connects, calls, t, q, end) && FromLast(connects, calls, t, q, end)
            && (end.ending == SystemError ==> end.connected == t + limit - 1 && end.called == q + limit)
            && (end.ending == SystemError ==> calls(end.called - 1) == SystemError)
            && (end.ending == SystemError ==> forall j :: t <= j < end.connected ==> connects(j) != OtherError)
    decreases limit
  {
    if calls(q) == SystemError && limit > 1 && connects(t) != OtherError {
      HereMeaning(connects, calls, t + 1, q + 1, limit - 1);
    }
  }

  /**
    With r > 0 retries and n endpoints a guarded call makes at most r + n * r calls and r - 1 + n * r reconnects,
    exactly the latter if it ends in a system_error; every call before the last ended in a system_error, no reconnect
    before the last in another exception, and what is thrown is what the last call or reconnect threw.
   */
  lemma GuardMeaning(connects: nat -> Ending, calls: nat -> Ending, t: nat, q: nat, r: nat, n: nat)
    requires n > 0
    ensures var end := GuardTrace(connects, calls, t, q, r, n);
            && Quiet(connects, calls, t, q, end) && FromLast(connects, calls, t, q, end)
            && t <= end.connected && q < end.called
            && (r == 0 ==> end == Trace(calls(q), t, q + 1))
            && (r > 0 ==> end.called - q <= r + r * n && end.connected - t <= r - 1 + r * n)
            && (r > 0 && end.ending == SystemError ==> end.connected - t == r - 1 + r * n)
  {
    hide WalkTrace;
    HereMeaning(connects, calls, t, q, Rounds(r));
    var here := HereTrace(connects, calls, t, q, Rounds(r));
    if here.ending == SystemError && r > 0 {
      MulLe(n, 1, r);
      WalkMeaning(connects, calls, here.connected, here.called, r * n);
    }
  }

  /** A script that ends in a system_error before attempt number m and with another exception from there on. */
  function FailsAt(m: nat): nat -> Ending {
    i => if i < m then SystemError else OtherError
  }

  /**
    With two endpoints: a round in which the first attempt throws something else leaves endpoint and iterator
    agreeing, and one in which only the second does leaves them apart unless the endpoints are equal.
   */
  method RoundWitness(a: Endpoint, b: Endpoint, m: nat) returns (agree: bool)
    requires m < 2
    ensures agree <==> m == 0 || a == b
  {
    var c := new Connector([a, b], 1, FailsAt(m), _ => SystemError);
    AttemptsStep(c.connects, 0, 2);
    TurnClosed(0, m, 2);
    var r := c.ResetConnectionEndpoint();
    agree := c.current == c.endpoints[c.index];
  }

  /** In the walk of a guarded call, which moves before it connects, it is the other way round. */
  method WalkWitness(a: Endpoint, b: Endpoint, m: nat) returns (agree: bool)
    requires m < 2
    ensures agree <==> m == 1 || a == b
  {
    var c := new Connector([a, b], 1, FailsAt(m), _ => SystemError);
    TurnClosed(0, m + 1, 2);
    WitnessTrace(m, c.calls);
    var r := c.RetryGuard();
    agree := c.current == c.endpoints[c.index];
  }

  lemma WitnessTrace(m: nat, calls: nat -> Ending)
    requires m < 2 && forall i :: calls(i) == SystemError
    ensures GuardTrace(FailsAt(m), calls, 0, 0, 1, 2) == Trace(OtherError, m + 1, 1)
  {
    assert HereTrace(FailsAt(m), calls, 0, 0, 1) == Trace(SystemError, 0, 1);
    if m == 1 {
      assert WalkTrace(FailsAt(m), calls, 0, 1, 2) == WalkTrace(FailsAt(m), calls, 1, 1, 1);
    }
  }

  /** Whole rounds followed by part of a round are one cycle. */
  lemma RoundsJoin(endpoints: seq<Endpoint>, k: nat, rounds: nat, m: nat, start: seq<Endpoint>,
                   before: seq<Endpoint>, now: seq<Endpoint>)
    requires k < |endpoints|
    ensures before == start + Cycle(endpoints, k, rounds * |endpoints|) && now == before + Cycle(endpoints, k, m) ==>
              now == start + Cycle(endpoints, k, rounds * |endpoints| + m)
    ensures (rounds + 1) * |endpoints| == rounds * |endpoints| + |endpoints|
    ensures m > 0 ==> Turn(k, rounds * |endpoints| + m - 1, |endpoints|) == Turn(k, m - 1, |endpoints|)
  {
    hide Turn, Cycle;
    if m > 0 {
      TurnAdd(k, rounds * |endpoints|, m - 1, |endpoints|);
    }
    FullTurns(k, |endpoints|, rounds);
    CycleJoin(endpoints, k, rounds * |endpoints|, m);
  }

  /** At least one round even without retries. */
  function Rounds(retries: nat): (n: nat)
    ensures n > 0
  {
    if retries > 0 then retries else 1
  }

  lemma RoundSplit(script: nat -> Ending, from: nat, n: nat, left: nat, rounds: nat)
    requires n > 0 && left == (rounds + 1) * n
    ensures left - n == rounds * n
    ensures Attempts(script, from, left) ==
              if rounds > 0 && Attempts(script, from, n) == n && script(from + n - 1) == SystemError
              then n + Attempts(script, from + n, left - n)
              else Attempts(script, from, n)
  {
    if rounds > 0 {
      MulLe(n, 1, rounds);
      AttemptsSplit(script, from, n, left - n);
    }
  }
}
