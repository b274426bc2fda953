/**
  What the calls of the client say to the server, message by message, what they return, and when they are refused
  (clickhouse/client.cpp).
 */
module ClientMessages {
  import opened Optional
  import opened BlockFormat
  import opened ClientProtocol

  // ----- cancels while reading -----

  /** One cancel for each data packet that the callback refuses, if there is a callback. */
  function Cancels(events: Option<Query>, s: seq<Packet>): seq<Message> {
    match events case None => [] case Some(q) => Refusals(q, s)
  }

  lemma {:induction false} RefusalsConcat(q: Query, s: seq<Packet>, t: seq<Packet>)
    ensures Refusals(q, s + t) == Refusals(q, s) + Refusals(q, t)
    decreases |s|
  {
    if s == [] {
      assert s + t == t;
    } else {
      assert (s + t)[1..] == s[1..] + t;
      RefusalsConcat(q, s[1..], t);
    }
  }

  lemma {:induction false} NoRefusals(s: seq<Packet>)
    ensures Refusals(KEEPS_GOING, s) == []
  {
    if s != [] { NoRefusals(s[1..]); }
  }

  lemma ReceiveWrites(o: Setup, c: Client)
    requires c.input != []
    ensures ReceivePacket(o, c).0.written + Cancels(c.events, c.input[1..]) == c.written + Cancels(c.events, c.input)
  {
    var s := c.input;
    if c.events.Some? {
      var q := c.events.value;
      var one := if s[0].Data? && !q.goesOn(s[0].block) then [SendCancel] else [];
      assert ReceivePacket(o, c).0.written == c.written + one;
      assert c.written + (one + Refusals(q, s[1..])) == c.written + one + Refusals(q, s[1..]);
    }
  }

  /** While an insert waits, it writes the cancels of the packets that it reads. */
  lemma {:induction false} AwaitWrites(o: Setup, c: Client)
    ensures var c' := AwaitData(o, c).0;
            c'.written + Cancels(c.events, c'.input) == c.written + Cancels(c.events, c.input)
    ensures var c' := AwaitEnd(o, c).0;
            c'.written + Cancels(c.events, c'.input) == c.written + Cancels(c.events, c.input)
    decreases |c.input|
  {
    hide Cancels;
    if c.input != [] {
      ReceiveWrites(o, c);
      var (c', p) := ReceivePacket(o, c);
      if p.Value? && !Terminator(p.value) {
        AwaitWrites(o, c');
      }
    }
  }

  lemma CancelsConcat(events: Option<Query>, s: seq<Packet>, t: seq<Packet>)
    ensures Cancels(events, s + t) == Cancels(events, s) + Cancels(events, t) && Cancels(events, []) == []
  {
    if events.Some? { RefusalsConcat(events.value, s, t); }
  }

  lemma DropTail(a: seq<Message>, b: seq<Message>, t: seq<Message>)
    requires a + t == b + t
    ensures a == b
  {
    assert |a| == |b|;
    assert a == (a + t)[..|a|] && b == (b + t)[..|b|];
  }

  // ----- inserts -----

  /** The answer to the query of an insert and whether it ends in the header. */
  function StartAnswer(o: Setup, c: Client): seq<Packet> {
    o.answer(StartInsert, c.answers)
  }

  predicate EndsInData(s: seq<Packet>) {
    s != [] && s[|s| - 1].Data?
  }

  /** How an insert whose header does not arrive is refused. */
  function NoHeader(o: Setup, s: seq<Packet>): Error {
    if s != [] && s[|s| - 1] == Exception && o.rethrow then ServerException else Protocol
  }

  const OPENING: seq<Message> := [SendQuery(true), SendBlock(NO_BLOCK)]

  /** Starting an insert, perhaps behind other packets: the query and its marker are written, and the answer read. */
  lemma StartExactly(o: Setup, c: Client)
    requires HeaderResponse(c.input + StartAnswer(o, c))
    ensures var s := c.input + StartAnswer(o, c);
            var (c', r) := StartInserting(o, c);
            && c'.written == c.written + OPENING + Cancels(c.events, s)
            && c'.input == [] && c'.state == Inserting && c'.events == c.events && c'.answers == c.answers + 1
            && c'.server == (if EndsInData(StartAnswer(o, c)) then Receiving else Resting)
            && (s[|s| - 1].Data? ==> r == Value(Some(s[|s| - 1].block)))
            && (!s[|s| - 1].Data? ==> Plain(r) == Ending(o, s) && (r.Value? ==> r.value == None))
  {
    hide AwaitData, AwaitEnd, HeaderResponse, Cancels;
    var start := c.(state := Inserting);
    var s, sent := c.input + StartAnswer(o, c), SendWholeQuery(o, start, true);
    InsertQuerySent(o, start);
    assert sent.written == c.written + OPENING;
    AwaitHeader(o, sent);
    AwaitKeeps(o, sent);
    AwaitWrites(o, sent);
    CancelsConcat(c.events, s, []);
    assert AwaitData(o, sent).0.written + [] == AwaitData(o, sent).0.written;
  }

  /** Ending an insert writes one marker and reads one answer. */
  lemma EndExactly(o: Setup, c: Client, s: seq<Packet>, tail: seq<Packet>)
    requires c.state == Inserting && Proper(s) && Deliver(o, c, SendBlock(NO_BLOCK)).input == s + tail
    ensures var (c', r) := EndInsert(o, c);
            && c'.written == c.written + [SendBlock(NO_BLOCK)] + Cancels(c.events, s)
            && c'.input == tail && r == Ending(o, s) && c'.state == (if r.Value? then Idle else Inserting)
  {
    hide AwaitData, AwaitEnd, Proper, Cancels;
    var sent := Deliver(o, c, SendBlock(NO_BLOCK));
    AwaitOneResponse(o, sent, s, tail);
    AwaitKeeps(o, sent);
    AwaitWrites(o, sent);
    CancelsConcat(c.events, s, tail);
    var w, cs, ct := sent.written, Cancels(c.events, s), Cancels(c.events, tail);
    assert w + (cs + ct) == w + cs + ct;
    DropTail(AwaitEnd(o, sent).0.written, w + cs, ct);
  }

  /** What an insert writes from its query on, given the packets that it reads for the header and for the end. */
  function InsertMessages(events: Option<Query>, b: Block, header: seq<Packet>, end: seq<Packet>): seq<Message> {
    OPENING + Cancels(events, header)
    + (if EndsInData(header) then [SendBlock(b), SendBlock(NO_BLOCK)] + Cancels(events, end) else [])
  }

  /**
    An insert from its query on, perhaps behind other packets: if the header arrives, the block and then the end marker
    are written, and it ends as the server's answer to them does; otherwise neither is written.
   */
  lemma InsertBodyExactly(o: Setup, c: Client, b: Block)
    requires WellBehaved(o) && HeaderResponse(c.input + StartAnswer(o, c))
    ensures var s, end := c.input + StartAnswer(o, c), o.answer(FinishInsert, c.answers + 1);
            var (c', r) := InsertBody(o, c, b);
            && Proper(end)
            && c'.written == c.written + InsertMessages(c.events, b, s, end)
            && r == (if EndsInData(s) then Ending(o, end) else Raise(NoHeader(o, s)))
            && c'.state == (if r.Value? then Idle else Inserting)
            && c'.input == (if EndsInData(s) && IsMarker(b) then o.answer(Unexpected, c.answers + 2) else [])
  {
    hide WellBehaved, StartInserting, EndInsert, HeaderResponse, Proper, Cancels;
    var s, end := c.input + StartAnswer(o, c), o.answer(FinishInsert, c.answers + 1);
    Answers(o, c.answers);
    Answers(o, c.answers + 1);
    HeaderLast(c.input, StartAnswer(o, c));
    StartExactly(o, c);
    var (c2, header) := StartInserting(o, c);
    if EndsInData(s) {
      var c3 := Deliver(o, c2, SendBlock(b));
      var tail := if IsMarker(b) then o.answer(Unexpected, c.answers + 2) else [];
      assert c3.written == c2.written + [SendBlock(b)];
      assert Deliver(o, c3, SendBlock(NO_BLOCK)).input == end + tail;
      EndExactly(o, c3, end, tail);
    }
    Joined(c.written, OPENING, Cancels(c.events, s), SendBlock(b), SendBlock(NO_BLOCK), Cancels(c.events, end));
  }

  lemma Joined(w: seq<Message>, a: seq<Message>, b: seq<Message>, m: Message, n: Message, d: seq<Message>)
    ensures w + a + b + [m] + [n] + d == w + (a + b + ([m, n] + d))
    ensures w + a + b == w + (a + b + [])
  {
  }

  lemma HeaderLast(before: seq<Packet>, s: seq<Packet>)
    requires HeaderResponse(before + s) && HeaderResponse(s)
    ensures EndsInData(before + s) == EndsInData(s) && (before + s)[|before + s| - 1] == s[|s| - 1]
  {
  }

  function PingMessages(o: Setup): seq<Message> {
    if o.pingFirst then [SendPing] else []
  }

  /**
    A whole insert on a client that reports to no query: the ping if so configured, the query and its marker, and then
    exactly the block and the end marker if the header arrives.
   */
  lemma InsertExactly(o: Setup, c: Client, b: Block)
    requires WellBehaved(o) && c.state == Idle && c.input == []
    ensures var n := c.answers + |PingMessages(o)|;
            var header, end := o.answer(StartInsert, n), o.answer(FinishInsert, n + 1);
            var (c', r) := Insert(o, c, b);
            && c'.written == c.written + PingMessages(o) + InsertMessages(c.events, b, header, end)
            && Proper(end) && r == (if EndsInData(header) then Ending(o, end) else Raise(NoHeader(o, header)))
            && (c.events == None && EndsInData(header) ==>
                  c'.written == c.written + PingMessages(o)
                                + [SendQuery(true), SendBlock(NO_BLOCK), SendBlock(b), SendBlock(NO_BLOCK)])
            && (c.events == None && !EndsInData(header) ==>
                  c'.written == c.written + PingMessages(o) + [SendQuery(true), SendBlock(NO_BLOCK)])
  {
    hide WellBehaved, PingFirst, Ping, InsertBody, InsertMessages, Proper, HeaderResponse;
    PingSettled(o, c);
    PingState(o, c);
    var c1 := PingFirst(o, c).0;
    Answers(o, c1.answers);
    assert c1.input + StartAnswer(o, c1) == StartAnswer(o, c1);
    InsertBodyExactly(o, c1, b);
    MessagesAlone(b, StartAnswer(o, c1), o.answer(FinishInsert, c1.answers + 1));
  }

  lemma MessagesAlone(b: Block, header: seq<Packet>, end: seq<Packet>)
    ensures InsertMessages(None, b, header, end) ==
              if EndsInData(header) then [SendQuery(true), SendBlock(NO_BLOCK), SendBlock(b), SendBlock(NO_BLOCK)]
              else [SendQuery(true), SendBlock(NO_BLOCK)]
  {
  }

  /**
    Inserting a block that has columns, with or without rows: whatever a well-behaved server answers, nothing is left
    unread, and if the insert returns, the client is idle and a ping or a select that follows begins as after any
    other call.
   */
  lemma InsertOfColumns(o: Setup, c: Client, b: Block, q: Query)
    requires WellBehaved(o) && c.state == Idle && c.input == [] && b.columns != []
    ensures var (c', r) := Insert(o, c, b);
            && Settled(c') && c'.input == []
            && (r.Value? ==> c'.state == Idle && Ping(o, c').1 == Value(()) && BeginSelect(o, c', q).1 == Value(()))
  {
    hide WellBehaved, Insert, PingFirst, BeginSelect, Ping;
    InsertSettledExactly(o, c, b);
    InsertState(o, c, b);
    PingSettled(o, c);
    var (c', r) := Insert(o, c, b);
    if r.Value? {
      PingSettled(o, c');
      SelectSettled(o, c', q, None);
    }
  }

  /**
    Beginning an insert returns exactly if the header arrives, and then the header; it writes the ping if so configured,
    the query and its marker, and leaves nothing unread.
   */
  lemma BeginInsertExactly(o: Setup, c: Client)
    requires WellBehaved(o) && c.state == Idle && c.input == []
    ensures var header := o.answer(StartInsert, c.answers + |PingMessages(o)|);
            var (c', r) := BeginInsert(o, c, false);
            && header != []
            && r == (if EndsInData(header) then Value(header[|header| - 1].block) else Raise(NoHeader(o, header)))
            && c'.written == c.written + PingMessages(o) + [SendQuery(true), SendBlock(NO_BLOCK)]
            && c'.state == Inserting && c'.events == None && c'.input == []
            && c'.server == (if EndsInData(header) then Receiving else Resting)
            && c'.answers == c.answers + |PingMessages(o)| + 1
  {
    hide WellBehaved, PingFirst, StartInserting, HeaderResponse, Cancels, Ping;
    var start := c.(events := Some(KEEPS_GOING));
    PingSettled(o, start);
    PingState(o, start);
    StartAlone(o, PingFirst(o, start).0);
  }

  /** Starting an insert with nothing unread and the callback that only keeps the header. */
  lemma StartAlone(o: Setup, c: Client)
    requires WellBehaved(o) && c.input == [] && c.events == Some(KEEPS_GOING)
    ensures var header := StartAnswer(o, c);
            var (c', r) := StartInserting(o, c);
            && header != [] && c'.written == c.written + [SendQuery(true), SendBlock(NO_BLOCK)]
            && c'.input == [] && c'.state == Inserting && c'.answers == c.answers + 1
            && c'.server == (if EndsInData(header) then Receiving else Resting)
            && (EndsInData(header) ==> r == Value(Some(header[|header| - 1].block)))
            && (!EndsInData(header) ==> Plain(r) == Ending(o, header) && (r.Value? ==> r.value == None))
  {
    hide WellBehaved, StartInserting, HeaderResponse;
    var s := StartAnswer(o, c);
    Answers(o, c.answers);
    HeaderNotEmpty(s);
    assert c.input + s == s;
    StartExactly(o, c);
    NoRefusals(s);
    assert c.written + OPENING + [] == c.written + OPENING;
  }

  lemma HeaderNotEmpty(s: seq<Packet>)
    requires HeaderResponse(s)
    ensures s != []
  {
  }

  /** Sending a block while inserting writes exactly it and changes nothing else, unless it is the end marker. */
  lemma SendBlockExactly(o: Setup, c: Client, b: Block)
    requires c.state == Inserting
    ensures var (c', r) := SendInsertBlock(o, c, b);
            && r == Value(()) && c'.written == c.written + [SendBlock(b)]
            && (!IsMarker(b) ==> c' == c.(written := c.written + [SendBlock(b)]))
  {
    assert c.input + [] == c.input;
  }

  function SendCalls(blocks: seq<Block>): (calls: seq<Call>)
    ensures |calls| == |blocks|
  {
    if blocks == [] then [] else [CallSendBlock(blocks[0])] + SendCalls(blocks[1..])
  }

  function BlockMessages(blocks: seq<Block>): seq<Message> {
    if blocks == [] then [] else [SendBlock(blocks[0])] + BlockMessages(blocks[1..])
  }

  lemma {:induction false} RunConcat(o: Setup, c: Client, a: seq<Call>, b: seq<Call>)
    ensures Run(o, c, a + b) == Run(o, Run(o, c, a), b)
    decreases |a|
  {
    if a == [] {
      assert a + b == b;
    } else {
      assert (a + b)[1..] == a[1..] + b;
      RunConcat(o, Step(o, c, a[0]).0, a[1..], b);
    }
  }

  lemma FirstSend(o: Setup, c: Client, blocks: seq<Block>)
    requires blocks != []
    ensures Run(o, c, SendCalls(blocks)) == Run(o, SendInsertBlock(o, c, blocks[0]).0, SendCalls(blocks[1..]))
  {
    assert SendCalls(blocks)[1..] == SendCalls(blocks[1..]);
  }

  lemma {:induction false} SendAll(o: Setup, c: Client, blocks: seq<Block>)
    requires c.state == Inserting && forall i :: 0 <= i < |blocks| ==> !IsMarker(blocks[i])
    ensures Run(o, c, SendCalls(blocks)) == c.(written := c.written + BlockMessages(blocks))
    decreases |blocks|
  {
    if blocks == [] {
      assert c.written + [] == c.written;
    } else {
      var c' := c.(written := c.written + [SendBlock(blocks[0])]);
      SendBlockExactly(o, c, blocks[0]);
      hide Run, Step, SendInsertBlock;
      FirstSend(o, c, blocks);
      SendAll(o, c', blocks[1..]);
      assert c.written + BlockMessages(blocks) == c'.written + BlockMessages(blocks[1..]);
    }
  }

  function Conversation(blocks: seq<Block>): seq<Call> {
    [CallBeginInsert(false)] + SendCalls(blocks) + [CallEndInsert]
  }

  /**
    A whole insert in parts: begun, fed any number of blocks and ended. If the header arrives, the server gets exactly
    those blocks in order between the marker of the query and one end marker, its answer is read whole, and the client
    is idle exactly if that is no rethrown exception.
   */
  lemma ConversationExactly(o: Setup, c: Client, blocks: seq<Block>)
    requires WellBehaved(o) && c.state == Idle && c.input == []
    requires EndsInData(o.answer(StartInsert, c.answers + |PingMessages(o)|))
    requires forall i :: 0 <= i < |blocks| ==> !IsMarker(blocks[i])
    ensures var end := o.answer(FinishInsert, c.answers + |PingMessages(o)| + 1);
            var c' := Run(o, c, Conversation(blocks));
            && c'.written == c.written + PingMessages(o) + [SendQuery(true), SendBlock(NO_BLOCK)]
                             + BlockMessages(blocks) + [SendBlock(NO_BLOCK)]
            && Proper(end) && c'.input == [] && c'.state == (if Ending(o, end).Value? then Idle else Inserting)
  {
    hide WellBehaved, BeginInsert, EndInsert, Proper;
    BeginInsertExactly(o, c);
    var c1 := BeginInsert(o, c, false).0;
    assert Run(o, c, [CallBeginInsert(false)]) == c1 by { OneCall(o, c, CallBeginInsert(false)); }
    SendAll(o, c1, blocks);
    var c2 := Run(o, c1, SendCalls(blocks));
    RunConcat(o, c, [CallBeginInsert(false)], SendCalls(blocks));
    RunConcat(o, c, [CallBeginInsert(false)] + SendCalls(blocks), [CallEndInsert]);
    OneCall(o, c2, CallEndInsert);
    Answers(o, c1.answers);
    var end := o.answer(FinishInsert, c1.answers);
    assert Deliver(o, c2, SendBlock(NO_BLOCK)).input == end + [];
    EndExactly(o, c2, end, []);
    assert c2.written + [SendBlock(NO_BLOCK)] + [] == c2.written + [SendBlock(NO_BLOCK)];
  }

  lemma OneCall(o: Setup, c: Client, call: Call)
    ensures Run(o, c, [call]) == Step(o, c, call).0
  {
    assert [call][1..] == [];
  }

  // ----- refusals and failures -----

  /** In which state a call is allowed. */
  predicate Allowed(state: State, call: Call) {
    match call
    case CallBeginSelect(_) => state == Idle
    case CallExecute(_, _) => state == Idle
    case CallInsert(_) => state == Idle
    case CallBeginInsert(hasCallbacks) => state == Idle && !hasCallbacks
    case CallPing => state == Idle
    case CallNextBlock => state == Selecting
    case CallCancel => state == Selecting
    case CallSendBlock(_) => state == Inserting
    case CallEndInsert => true
    case CallReset(_) => true
  }

  /** A call is refused exactly in a state in which it is not allowed, and then before it has any effect. */
  lemma RefusedExactly(o: Setup, c: Client, call: Call)
    ensures Step(o, c, call).1 == Raise(Validation) <==> !Allowed(c.state, call)
    ensures !Allowed(c.state, call) ==> Step(o, c, call).0 == c
  {
    if Allowed(c.state, call) {
      hide PingFirst, PullAll, PullBlock, EndInsert, InsertBody, SendTables, SendWholeQuery;
      PingState(o, c);
      match call
      case CallNextBlock => PullRaises(o, c);
      case CallExecute(q, tables) =>
        var c' := if tables.Some? then BeginSelectWithTables(o, c, q, tables.value).0 else BeginSelect(o, c, q).0;
        PullAllEnds(o, c');
      case CallCancel => PullAllEnds(o, Deliver(o, c, SendCancel));
      case CallInsert(b) => InsertState(o, c, b);
      case CallBeginInsert(h) => BeginInsertState(o, c, h);
      case CallEndInsert => EndInsertState(o, c);
      case _ =>
    }
  }

  /** The error for a packet that cannot be read. */
  function ReadError(p: Packet): Error {
    if p.Unknown? then Unimplemented else Protocol
  }

  /**
    A packet of an unknown kind or with unreadable content, behind any number of packets that are neither data nor
    terminators: reading stops there with the error, a select is over, and an insert's waiting leaves the state alone.
   */
  lemma {:induction false} BrokenPacket(o: Setup, c: Client, s: seq<Packet>, p: Packet, tail: seq<Packet>)
    requires forall i :: 0 <= i < |s| ==> Benign(s[i]) && !s[i].Data?
    requires (p.Unknown? || p.Undecodable?) && c.input == s + [p] + tail
    ensures PullBlock(o, c) == (c.(input := tail, state := Idle, events := None), Raise(ReadError(p)))
    ensures AwaitData(o, c) == (c.(input := tail), Raise(ReadError(p)))
    ensures AwaitEnd(o, c) == (c.(input := tail), Raise(ReadError(p)))
    decreases |s|
  {
    if s == [] {
      assert c.input[0] == p && c.input[1..] == tail;
    } else {
      assert c.input[0] == s[0] && c.input[1..] == s[1..] + [p] + tail;
      BrokenPacket(o, c.(input := c.input[1..]), s[1..], p, tail);
    }
  }

  /** The same where the connection ends: the packet that should come is missing. */
  lemma {:induction false} EndOfConnection(o: Setup, c: Client)
    requires forall i :: 0 <= i < |c.input| ==> Benign(c.input[i]) && !c.input[i].Data?
    ensures PullBlock(o, c) == (c.(input := [], state := Idle, events := None), Raise(Protocol))
    ensures AwaitData(o, c) == (c.(input := []), Raise(Protocol))
    ensures AwaitEnd(o, c) == (c.(input := []), Raise(Protocol))
    decreases |c.input|
  {
    if c.input != [] {
      EndOfConnection(o, c.(input := c.input[1..]));
    }
  }

  /**
    A reconnect forgets what was unread, and only that: the query to report to and what was said before stay, and a
    following select goes over the new connection from the start.
   */
  lemma ReconnectExactly(o: Setup, c: Client, how: Reconnect)
    ensures var (c', r) := Step(o, c, CallReset(how));
            && c'.events == c.events && c'.written == c.written
            && (how.Refused? ==> c' == c && r == Raise(System))
            && (!how.Refused? ==> c'.state == Idle && c'.input == [] && InStep(c') && Settled(c'))
            && (r == Value(()) <==> how.Connected?) && (how.NoHandshake? ==> r == Raise(Protocol))
  {
  }
}
