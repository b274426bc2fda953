/**
  The ping before a query under the retries of RetryGuard (clickhouse/client.cpp): the state machine of the client and
  the retry loops of the failover meet here. The network decides, ping by ping and reconnect by reconnect, what gets
  through.
 */
module GuardedPing {
  import opened Arith
  import opened Optional
  import opened BlockFormat
  import opened ClientProtocol
  import opened ClientMessages
  import F = Failover

  /** What becomes of a ping: answered, lost before it is sent, or sent with its answer not read in time. */
  datatype PingFate = Answered | LostBefore | LostAfter

  datatype Network = Network(ping: nat -> PingFate, link: nat -> Reconnect)

  // ----- the client's side -----

  /** One ping; a lost one ends in a system_error, and one that was sent will still be answered. */
  function PingOnce(o: Setup, c: Client, fate: PingFate): (Client, Outcome<()>) {
    if c.state != Idle || fate.Answered? then Ping(o, c)
    else (if fate.LostAfter? then Deliver(o, c, SendPing) else c, Raise(System))
  }

  function EndingOf(r: Outcome<()>): F.Ending {
    match r
    case Value(_) => F.Success
    case Raise(e) => if e == System then F.SystemError else F.OtherError
  }

  /** A run of attempts: the client, how it ended, and the numbers of reconnects and pings there have been. */
  datatype Attempted = Attempted(client: Client, result: Outcome<()>, connected: nat, called: nat)

  function Summary(a: Attempted): F.Trace {
    F.Trace(EndingOf(a.result), a.connected, a.called)
  }

  /** Pinging the current endpoint up to limit times, with reconnects in between. */
  function PingHere(o: Setup, w: Network, c: Client, t: nat, q: nat, limit: nat): Attempted
    requires limit > 0
    decreases limit
  {
    var (c1, r) := PingOnce(o, c, w.ping(q));
    if EndingOf(r) != F.SystemError || limit == 1 then Attempted(c1, r, t, q + 1)
    else
      var (c2, s) := ResetConnection(c1, w.link(t));
      if EndingOf(s) == F.OtherError then Attempted(c2, s, t + 1, q + 1)
      else PingHere(o, w, c2, t + 1, q + 1, limit - 1)
  }

  /** Reconnecting elsewhere, and pinging if that works. */
  function TryElsewhere(o: Setup, w: Network, c: Client, t: nat, q: nat): Attempted {
    var (c1, s) := ResetConnection(c, w.link(t));
    if s.Raise? then Attempted(c1, s, t + 1, q)
    else
      var (c2, r) := PingOnce(o, c1, w.ping(q));
      Attempted(c2, r, t + 1, q + 1)
  }

  function PingElsewhere(o: Setup, w: Network, c: Client, t: nat, q: nat, limit: nat): Attempted
    requires limit > 0
    decreases limit
  {
    var a := TryElsewhere(o, w, c, t, q);
    if EndingOf(a.result) == F.SystemError && limit > 1
    then PingElsewhere(o, w, a.client, a.connected, a.called, limit - 1)
    else a
  }

  /** RetryGuard around the ping, with so many retries and n endpoints. */
  function PingGuarded(o: Setup, w: Network, c: Client, retries: nat, n: nat): Attempted
    requires n > 0
  {
    var here := PingHere(o, w, c, 0, 0, F.Rounds(retries));
    if EndingOf(here.result) != F.SystemError || retries == 0 then here
    else
      MulLe(n, 1, retries);
      PingElsewhere(o, w, here.client, here.connected, here.called, retries * n)
  }

  // ----- the network's side -----

  /** How the reconnects and the pings end for the retry loops, with a well-behaved server. */
  function Links(w: Network): nat -> F.Ending {
    (t: nat) =>
      match w.link(t) case Refused => F.SystemError case NoHandshake => F.OtherError case Connected => F.Success
  }

  function Pings(w: Network): nat -> F.Ending {
    (q: nat) => if w.ping(q).Answered? then F.Success else F.SystemError
  }

  function Pongs(k: nat): (s: seq<Packet>)
    ensures |s| == k && forall i :: 0 <= i < k ==> s[i] == Pong
  {
    if k == 0 then [] else [Pong] + Pongs(k - 1)
  }

  lemma {:induction false} OneMorePong(k: nat)
    ensures Pongs(k) + [Pong] == Pongs(k + 1)
  {
    if k != 0 {
      OneMorePong(k - 1);
      assert [Pong] + Pongs(k - 1) + [Pong] == [Pong] + (Pongs(k - 1) + [Pong]);
    }
  }

  /** Idle over a connection on which k pongs are still to be read. */
  ghost predicate Waiting(c: Client, k: nat) {
    c.state == Idle && c.server == Resting && c.input == Pongs(k)
  }

  /** How many pongs are unread after m lost pings, each followed by a reconnect: those of the last connection. */
  function Stale(w: Network, k: nat, m: nat): nat {
    if m == 0 then k
    else if !w.link(m - 1).Refused? then 0
    else Stale(w, k, m - 1) + if w.ping(m - 1).LostAfter? then 1 else 0
  }

  lemma PingWaiting(o: Setup, c: Client, fate: PingFate, k: nat)
    requires WellBehaved(o) && Waiting(c, k)
    ensures var (c', r) := PingOnce(o, c, fate);
            && Waiting(c', if fate.LostAfter? then k + 1 else k) && c'.events == c.events
            && (r.Value? <==> fate.Answered?) && (r.Raise? ==> r.error == System)
  {
    hide WellBehaved;
    Answers(o, c.answers);
    OneMorePong(k);
    if fate.Answered? {
      assert Pongs(k + 1)[0] == Pong && Pongs(k + 1)[1..] == Pongs(k);
    }
  }

  lemma LinkWaiting(c: Client, how: Reconnect, k: nat)
    requires Waiting(c, k)
    ensures Waiting(ResetConnection(c, how).0, if how.Refused? then k else 0)
  {
  }

  /** On the current endpoint: the retry loop sees what the network does, and every unread packet is a stale pong. */
  lemma {:induction false} HereMatches(o: Setup, w: Network, c: Client, m: nat, limit: nat, k: nat)
    requires WellBehaved(o) && limit > 0 && Waiting(c, Stale(w, k, m))
    ensures var a := PingHere(o, w, c, m, m, limit);
            && Summary(a) == F.HereTrace(Links(w), Pings(w), m, m, limit)
            && a.client.events == c.events && (exists j :: Waiting(a.client, j))
            && (a.result.Value? ==> a.called == a.connected + 1 && Waiting(a.client, Stale(w, k, a.connected)))
    decreases limit
  {
    hide WellBehaved, PingOnce, Pongs;
    PingWaiting(o, c, w.ping(m), Stale(w, k, m));
    var (c1, r) := PingOnce(o, c, w.ping(m));
    if r.Raise? && limit > 1 {
      LinkWaiting(c1, w.link(m), Stale(w, k, m) + if w.ping(m).LostAfter? then 1 else 0);
      var (c2, s) := ResetConnection(c1, w.link(m));
      if EndingOf(s) != F.OtherError {
        HereMatches(o, w, c2, m + 1, limit - 1, k);
      }
    }
  }

  /** On the way round the endpoints every ping that is answered is the first on its connection. */
  lemma {:induction false} ElsewhereMatches(o: Setup, w: Network, c: Client, t: nat, q: nat, limit: nat, k: nat)
    requires WellBehaved(o) && limit > 0 && Waiting(c, k)
    ensures var a := PingElsewhere(o, w, c, t, q, limit);
            && Summary(a) == F.WalkTrace(Links(w), Pings(w), t, q, limit)
            && a.client.events == c.events && (exists j :: Waiting(a.client, j))
            && (a.result.Value? ==> Waiting(a.client, 0))
    decreases limit
  {
    hide WellBehaved, PingOnce, Pongs;
    var (c1, s) := ResetConnection(c, w.link(t));
    LinkWaiting(c, w.link(t), k);
    var a := TryElsewhere(o, w, c, t, q);
    var now := if s.Raise? then (if w.link(t).Refused? then k else 0) else if w.ping(q).LostAfter? then 1 else 0;
    if s.Value? {
      PingWaiting(o, c1, w.ping(q), 0);
    }
    assert Waiting(a.client, now);
    if EndingOf(a.result) == F.SystemError && limit > 1 {
      ElsewhereMatches(o, w, a.client, a.connected, a.called, limit - 1, now);
    }
  }

  /** How many pongs a guarded ping that returns leaves unread, given how many reconnects it took. */
  function StaleAfter(w: Network, retries: nat, reconnects: nat): nat {
    if F.Walked(reconnects, retries) > 0 then 0 else Stale(w, 0, reconnects)
  }

  /**
    A guarded ping over a well-behaved server, whatever the network does: it ends after as many pings and reconnects
    as the retry loops make of the network, leaves the client idle over a server at rest with its query as it was, and
    nothing unread but pongs; if it returns, exactly those of the pings that were lost on the connection it ended on.
   */
  lemma GuardedPingMeaning(o: Setup, w: Network, c: Client, retries: nat, n: nat)
    requires WellBehaved(o) && Waiting(c, 0) && n > 0
    ensures var a := PingGuarded(o, w, c, retries, n);
            && Summary(a) == F.GuardTrace(Links(w), Pings(w), 0, 0, retries, n)
            && a.client.events == c.events && (exists j :: Waiting(a.client, j))
            && (a.result.Value? ==> Waiting(a.client, StaleAfter(w, retries, a.connected)))
  {
    hide WellBehaved, PingHere, PingElsewhere, Pongs, Stale, F.HereTrace, F.WalkTrace;
    assert Stale(w, 0, 0) == 0 by { StaleStart(w); }
    HereMatches(o, w, c, 0, F.Rounds(retries), 0);
    F.HereMeaning(Links(w), Pings(w), 0, 0, F.Rounds(retries));
    var here := PingHere(o, w, c, 0, 0, F.Rounds(retries));
    if EndingOf(here.result) == F.SystemError && retries > 0 {
      var j :| Waiting(here.client, j);
      MulLe(n, 1, retries);
      ElsewhereMatches(o, w, here.client, here.connected, here.called, retries * n, j);
      F.WalkMeaning(Links(w), Pings(w), here.connected, here.called, retries * n);
    }
  }

  lemma StaleStart(w: Network)
    ensures Stale(w, 0, 0) == 0
  {
  }

  /** Some reconnect from number i on and before number m connected. */
  ghost predicate Renewed(w: Network, i: nat, m: nat) {
    exists j: nat :: i <= j < m && !w.link(j).Refused?
  }

  /** Nothing is unread exactly if each ping that was sent in vain was followed by a reconnect that connected. */
  lemma {:induction false} StaleExactly(w: Network, m: nat)
    ensures Stale(w, 0, m) == 0 <==> forall i: nat :: i < m && w.ping(i).LostAfter? ==> Renewed(w, i, m)
    decreases m
  {
    if m != 0 {
      StaleExactly(w, m - 1);
      forall i: nat | i < m
        ensures Renewed(w, i, m) <==> !w.link(m - 1).Refused? || Renewed(w, i, m - 1)
      {
      }
    }
  }

  /** A ping whose answer came too late, a refused reconnect, and a second ping that reads the first one's answer. */
  lemma StalePongExample()
    ensures var w := Network((q: nat) => if q == 0 then LostAfter else Answered, (_: nat) => Refused);
            var a := PingGuarded(Terse(), w, FRESH, 2, 1);
            a.result == Value(()) && a.client.state == Idle && a.client.input == [Pong]
  {
    var o, w := Terse(), Network((q: nat) => if q == 0 then LostAfter else Answered, (_: nat) => Refused);
    assert WellBehaved(o);
    GuardedPingMeaning(o, w, FRESH, 2, 1);
    assert F.HereTrace(Links(w), Pings(w), 0, 0, 2) == F.HereTrace(Links(w), Pings(w), 1, 1, 1);
    assert Stale(w, 0, 1) == Stale(w, 0, 0) + 1;
    assert Pongs(1) == [Pong] + Pongs(0);
  }

  // ----- what begins after it -----

  lemma {:induction false} PongsFirst(k: nat, s: seq<Packet>)
    ensures Proper(s) ==> Proper(Pongs(k) + s)
    ensures HeaderResponse(s) ==> HeaderResponse(Pongs(k) + s)
    ensures DataBlocks(Pongs(k) + s) == DataBlocks(s)
  {
    if k == 0 {
      assert Pongs(0) + s == s;
    } else {
      PongsFirst(k - 1, s);
      assert Pongs(k) + s == [Pong] + (Pongs(k - 1) + s);
      hide Proper, HeaderResponse, DataBlocks;
      PongFirst(Pongs(k - 1) + s);
    }
  }

  lemma PongFirst(s: seq<Packet>)
    ensures Proper(s) ==> Proper([Pong] + s)
    ensures HeaderResponse(s) ==> HeaderResponse([Pong] + s)
    ensures DataBlocks([Pong] + s) == DataBlocks(s)
  {
    assert ([Pong] + s)[1..] == s;
    assert forall i :: 0 < i <= |s| ==> ([Pong] + s)[i] == s[i - 1];
  }

  /** The options of a client whose ping has been dealt with. */
  function Pinged(o: Setup): Setup {
    o.(pingFirst := false)
  }

  /** A select behind a guarded ping. */
  function SelectGuarded(o: Setup, w: Network, c: Client, q: Query, tables: Option<seq<Table>>, retries: nat, n: nat)
    : (Client, seq<Block>, Outcome<()>)
    requires n > 0
  {
    if c.state != Idle then (c, [], Raise(Validation))
    else
      var a := PingGuarded(o, w, c, retries, n);
      if a.result.Raise? then (a.client, [], a.result) else Execute(Pinged(o), a.client, q, tables)
  }

  /** An insert behind a guarded ping. */
  function InsertGuarded(o: Setup, w: Network, c: Client, b: Block, retries: nat, n: nat): (Client, Outcome<()>)
    requires n > 0
  {
    if c.state != Idle then (c, Raise(Validation))
    else
      var a := PingGuarded(o, w, c, retries, n);
      if a.result.Raise? then (a.client, a.result) else InsertBody(o, a.client, b)
  }

  /** Stale pongs do no harm to a select: it hands over exactly the server's blocks and reads them away. */
  lemma SelectAfterPongs(o: Setup, c: Client, k: nat, q: Query, tables: Option<seq<Table>>)
    requires WellBehaved(o) && !o.pingFirst && Waiting(c, k)
    ensures var response := o.answer(RunQuery, c.answers);
            var (c', blocks, end) := Execute(o, c, q, tables);
            && Proper(response) && blocks == DataBlocks(response) && end == Ending(o, response)
            && c'.state == Idle && c'.input == []
            && c'.written == c.written + QueryMessages(if tables.Some? then tables.value else [])
                             + Refusals(q, response)
  {
    hide WellBehaved, Deliver, SendTables, SendWholeQuery, Pongs, Proper, DataBlocks, PullAll, Refusals;
    var response, ts := o.answer(RunQuery, c.answers), if tables.Some? then tables.value else [];
    Answers(o, c.answers);
    assert response != [] by { ProperNotEmpty(response); }
    BeginWithoutTables(o, c, q);
    QueryAsksOnce(o, c.(state := Selecting, events := Some(q)), ts);
    PongsFirst(k, response);
    var c' := BeginSelectWithTables(o, c, q, ts).0;
    assert c'.input == Pongs(k) + response;
    PullAllProper(o, c');
    PullAllWrites(o, c', q);
    RefusalsConcat(q, Pongs(k), response);
    PongsNotRefused(q, k);
    assert [] + Refusals(q, response) == Refusals(q, response);
  }

  lemma {:induction false} PongsNotRefused(q: Query, k: nat)
    ensures Refusals(q, Pongs(k)) == []
  {
    if k != 0 {
      PongsNotRefused(q, k - 1);
      assert Pongs(k)[1..] == Pongs(k - 1);
    }
  }

  lemma ProperNotEmpty(s: seq<Packet>)
    requires Proper(s)
    ensures s != []
  {
  }

  /** Nor to an insert: it says and returns what it would without them, and reads them away. */
  lemma InsertAfterPongs(o: Setup, c: Client, k: nat, b: Block)
    requires WellBehaved(o) && Waiting(c, k)
    ensures var header, end := StartAnswer(o, c), o.answer(FinishInsert, c.answers + 1);
            var (c', r) := InsertBody(o, c, b);
            && Proper(end)
            && c'.written == c.written + InsertMessages(c.events, b, header, end)
            && r == (if EndsInData(header) then Ending(o, end) else Raise(NoHeader(o, header)))
            && c'.state == (if r.Value? then Idle else Inserting)
            && (!IsMarker(b) || !EndsInData(header) ==> c'.input == [])
  {
    hide WellBehaved, Pongs, HeaderResponse, InsertBody, Proper, Refusals;
    var s := StartAnswer(o, c);
    Answers(o, c.answers);
    PongsFirst(k, s);
    HeaderLast(c.input, s);
    assert s != [] by { HeaderNotEmpty(s); }
    CancelsConcat(c.events, c.input, s);
    if c.events.Some? {
      PongsNotRefused(c.events.value, k);
    }
    assert [] + Cancels(c.events, s) == Cancels(c.events, s);
    InsertBodyExactly(o, c, b);
  }

  lemma PingedWellBehaved(o: Setup)
    requires WellBehaved(o)
    ensures WellBehaved(Pinged(o))
  {
  }

  /**
    A select behind a guarded ping, whatever pings and reconnects fail: either the guard throws and the client is idle
    with nothing unread but pongs, or the select hands over exactly the server's data blocks and leaves nothing unread.
   */
  lemma GuardedSelect(o: Setup, w: Network, c: Client, q: Query, tables: Option<seq<Table>>, retries: nat, n: nat)
    requires WellBehaved(o) && Waiting(c, 0) && n > 0
    ensures var a := PingGuarded(o, w, c, retries, n);
            var (c', blocks, r) := SelectGuarded(o, w, c, q, tables, retries, n);
            if a.result.Raise? then r == a.result && blocks == [] && (exists j :: Waiting(c', j))
            else
              var response := o.answer(RunQuery, a.client.answers);
              && Proper(response) && blocks == DataBlocks(response) && r == Ending(o, response)
              && c'.state == Idle && c'.input == []
              && c'.written == a.client.written + QueryMessages(if tables.Some? then tables.value else [])
                               + Refusals(q, response)
  {
    hide WellBehaved, PingGuarded, QueryMessages, Refusals, Execute, Proper, DataBlocks, Pongs, F.GuardTrace;
    GuardedPingMeaning(o, w, c, retries, n);
    PingedWellBehaved(o);
    var a := PingGuarded(o, w, c, retries, n);
    if a.result.Value? {
      SelectAfterPongs(Pinged(o), a.client, StaleAfter(w, retries, a.connected), q, tables);
    }
  }

  /** The same for an insert: behind the guard it sends the block and returns as on a connection without trouble. */
  lemma GuardedInsert(o: Setup, w: Network, c: Client, b: Block, retries: nat, n: nat)
    requires WellBehaved(o) && Waiting(c, 0) && n > 0
    ensures var a := PingGuarded(o, w, c, retries, n);
            var (c', r) := InsertGuarded(o, w, c, b, retries, n);
            if a.result.Raise? then r == a.result && (exists j :: Waiting(c', j))
            else
              var header, end := StartAnswer(o, a.client), o.answer(FinishInsert, a.client.answers + 1);
              && Proper(end)
              && c'.written == a.client.written + InsertMessages(c.events, b, header, end)
              && r == (if EndsInData(header) then Ending(o, end) else Raise(NoHeader(o, header)))
              && c'.state == (if r.Value? then Idle else Inserting)
              && (!IsMarker(b) || !EndsInData(header) ==> c'.input == [])
  {
    hide WellBehaved, PingGuarded, InsertBody, InsertMessages, Proper, Pongs, F.GuardTrace;
    GuardedPingMeaning(o, w, c, retries, n);
    var a := PingGuarded(o, w, c, retries, n);
    if a.result.Value? {
      InsertAfterPongs(o, a.client, StaleAfter(w, retries, a.connected), b);
    }
  }
}
