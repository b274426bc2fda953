/**
  The client's protocol state machine (clickhouse/client.cpp) at the level of packets. The server sees the messages
  and decides by itself which of them ends the data it is waiting for; what it then answers is a script. Every
  operation is a function from one state of client and server to the next, so that whole runs can be reasoned about.
 */
module ClientProtocol {
  import opened Optional
  import opened BlockFormat

  datatype Packet =
    | Data(block: Block) | Exception | ProfileInfo | Progress | Pong | Hello | EndOfStream
    | Log | TableColumns | ProfileEvents | Unknown | Undecodable(code: nat)

  function Code(p: Packet): nat {
    match p
    case Hello => 0 case Data(_) => 1 case Exception => 2 case Progress => 3 case Pong => 4 case EndOfStream => 5
    case ProfileInfo => 6 case Log => 10 case TableColumns => 11 case ProfileEvents => 14
    case Unknown => 7 case Undecodable(code) => code
  }

  datatype State = Idle | Selecting | Inserting

  /** A query's data callback: whether it lets the query go on after a block. */
  datatype Query = Query(goesOn: Block -> bool)

  /** The query object of BeginInsert, whose callback only keeps the header. */
  const KEEPS_GOING: Query := Query(_ => true)

  datatype Table = Table(name: string, block: Block)

  datatype Message = SendQuery(insert: bool) | SendBlock(block: Block) | SendTable(table: Table) | SendCancel | SendPing

  datatype Error = Validation | Protocol | UnexpectedEnd | ServerException | Unimplemented | System

  datatype Outcome<+T> = Value(value: T) | Raise(error: Error)

  /**
    What the server is asked: to run a query, to start an insert, to finish one, to make sense of an end of data it
    did not expect, or to answer a ping.
   */
  datatype Request = RunQuery | StartInsert | FinishInsert | Unexpected | Echo

  /** The server's script and the client's options. */
  datatype Setup = Setup(answer: (Request, nat) -> seq<Packet>, rethrow: bool, pingFirst: bool)

  /** What the server waits for: a query, the end of a query's external tables, or the data of an insert. */
  datatype Phase = Resting | Collecting(insert: bool) | Receiving

  /** The client's fields, and the other end of its connection: packets to be read, messages sent, the server. */
  datatype Client = Client(
    state: State, events: Option<Query>, input: seq<Packet>, written: seq<Message>, server: Phase, answers: nat)

  // ----- the server -----

  /** The block that marks the end of the data: it has neither columns nor rows. */
  predicate IsMarker(b: Block) {
    b.columns == [] && b.rows == 0
  }

  /** A table that the server would take for the end of the data: one without rows, whatever its columns. */
  predicate IsEmptyTable(t: Table) {
    t.block.rows == 0
  }

  /** A message the server answers: a ping, or any block that ends the data. */
  predicate Prompts(m: Message) {
    m.SendPing? || (m.SendBlock? && IsMarker(m.block)) || (m.SendTable? && IsEmptyTable(m.table))
  }

  /** What a prompting message asks a server in this phase. */
  function Asked(server: Phase, m: Message): Request {
    if m.SendPing? then Echo
    else match server
      case Resting => Unexpected
      case Collecting(insert) => if insert then StartInsert else RunQuery
      case Receiving => FinishInsert
  }

  /** The phase after a message and its answer: an insert receives data once its header has been sent. */
  function Advanced(server: Phase, m: Message, answer: seq<Packet>): Phase {
    if m.SendQuery? then Collecting(m.insert)
    else if m.SendPing? || !Prompts(m) then server
    else if server == Collecting(true) && answer != [] && answer[|answer| - 1].Data? then Receiving
    else Resting
  }

  /** Sends a message: the server takes note of it, and answers it exactly if it prompts. */
  function Deliver(o: Setup, c: Client, m: Message): (c': Client)
    ensures c'.state == c.state && c'.events == c.events && c'.written == c.written + [m]
    ensures !Prompts(m) ==> c'.input == c.input && c'.answers == c.answers
  {
    var answer := if Prompts(m) then o.answer(Asked(c.server, m), c.answers) else [];
    c.(written := c.written + [m],
       input := c.input + answer,
       server := Advanced(c.server, m, answer),
       answers := if Prompts(m) then c.answers + 1 else c.answers)
  }

  // ----- steps -----

  /** SendQuery with its end-of-data marker. */
  function SendWholeQuery(o: Setup, c: Client, insert: bool): Client {
    Deliver(o, Deliver(o, c, SendQuery(insert)), SendBlock(NO_BLOCK))
  }

  function ResetState(c: Client): Client {
    c.(state := Idle, events := None)
  }

  /** One packet from the input, with the effect of its callback; fails at the end of the input. */
  function ReceivePacket(o: Setup, c: Client): (r: (Client, Outcome<Packet>))
    ensures c.input != [] ==> r.0.input == c.input[1..]
    ensures c.input == [] ==> r.1.Raise? && r.0 == c
    ensures r.0.state == c.state && r.0.events == c.events && r.0.server == c.server && r.0.answers == c.answers
    ensures r.1.Value? ==> c.input != [] && r.1.value == c.input[0]
  {
    if c.input == [] then (c, Raise(Protocol))
    else
      var p, c' := c.input[0], c.(input := c.input[1..]);
      match p
      case Unknown => (c', Raise(Unimplemented))
      case Undecodable(_) => (c', Raise(Protocol))
      case Exception => (c', if o.rethrow then Raise(ServerException) else Value(p))
      case Data(b) => (if c.events.Some? && !c.events.value.goesOn(b) then Deliver(o, c', SendCancel) else c', Value(p))
      case _ => (c', Value(p))
  }

  predicate Terminator(p: Packet) {
    p == Exception || p == EndOfStream
  }

  /** The packet loop of NextBlock. */
  function PullBlock(o: Setup, c: Client): (Client, Outcome<Option<Block>>)
    decreases |c.input|
  {
    var (c', p) := ReceivePacket(o, c);
    if p.Raise? then (ResetState(c'), Raise(p.error))
    else if Terminator(p.value) then (ResetState(c'), Value(None))
    else if p.value.Data? && p.value.block.columns != [] then (c', Value(Some(p.value.block)))
    else PullBlock(o, c')
  }

  function NextBlock(o: Setup, c: Client): (Client, Outcome<Option<Block>>) {
    if c.state != Selecting then (c, Raise(Validation)) else PullBlock(o, c)
  }

  /** NextBlock until there is none: the blocks, and how it ended. */
  function PullAll(o: Setup, c: Client): (Client, seq<Block>, Outcome<()>)
    decreases |c.input|
  {
    PullConsumes(o, c);
    var (c', r) := PullBlock(o, c);
    match r
    case Raise(e) => (c', [], Raise(e))
    case Value(None) => (c', [], Value(()))
    case Value(Some(b)) =>
      var (c'', bs, end) := PullAll(o, c');
      (c'', [b] + bs, end)
  }

  /** Every pull takes at least one packet unless there is none, and keeps the rest in order. */
  lemma {:induction false} PullConsumes(o: Setup, c: Client)
    ensures var r := PullBlock(o, c);
            && |r.0.input| <= |c.input| && r.0.input == c.input[|c.input| - |r.0.input|..]
            && (r.1.Value? ==> |r.0.input| < |c.input|)
            && r.0.server == c.server && r.0.answers == c.answers
            && (r.1 == Value(None) || r.1.Raise? ==> r.0.state == Idle && r.0.events == None)
            && (r.1.Value? && r.1.value.Some? ==> r.0.state == c.state && r.0.events == c.events)
    decreases |c.input|
  {
    var (c', p) := ReceivePacket(o, c);
    if p.Value? && !Terminator(p.value) && !(p.value.Data? && p.value.block.columns != []) {
      PullConsumes(o, c');
    }
  }

  function Ping(o: Setup, c: Client): (Client, Outcome<()>) {
    if c.state != Idle then (c, Raise(Validation))
    else
      var (c', p) := ReceivePacket(o, Deliver(o, c, SendPing));
      (c', if p.Raise? then Raise(p.error) else if p.value == Pong then Value(()) else Raise(Protocol))
  }

  function PingFirst(o: Setup, c: Client): (Client, Outcome<()>) {
    if o.pingFirst then Ping(o, c) else (c, Value(()))
  }

  function BeginSelect(o: Setup, c: Client, q: Query): (Client, Outcome<()>) {
    if c.state != Idle then (c, Raise(Validation))
    else
      var (c', p) := PingFirst(o, c);
      if p.Raise? then (c', p)
      else (SendWholeQuery(o, c'.(state := Selecting, events := Some(q)), false), Value(()))
  }

  /** External tables go out between the query and its marker; tables without rows are skipped. */
  function SendTables(o: Setup, c: Client, tables: seq<Table>): Client
    decreases |tables|
  {
    if tables == [] then c
    else SendTables(o, if IsEmptyTable(tables[0]) then c else Deliver(o, c, SendTable(tables[0])), tables[1..])
  }

  function BeginSelectWithTables(o: Setup, c: Client, q: Query, tables: seq<Table>): (Client, Outcome<()>) {
    if c.state != Idle then (c, Raise(Validation))
    else
      var (c', p) := PingFirst(o, c);
      if p.Raise? then (c', p)
      else
        var c1 := Deliver(o, c'.(state := Selecting, events := Some(q)), SendQuery(false));
        (Deliver(o, SendTables(o, c1, tables), SendBlock(NO_BLOCK)), Value(()))
  }

  /** Execute, and SelectWithExternalData: begin, then pull everything. */
  function Execute(o: Setup, c: Client, q: Query, tables: Option<seq<Table>>): (Client, seq<Block>, Outcome<()>) {
    var (c', p) := if tables.Some? then BeginSelectWithTables(o, c, q, tables.value) else BeginSelect(o, c, q);
    if p.Raise? then (c', [], p) else PullAll(o, c')
  }

  function Cancel(o: Setup, c: Client): (Client, Outcome<()>) {
    if c.state != Selecting then (c, Raise(Validation))
    else
      var (c', _, end) := PullAll(o, Deliver(o, c, SendCancel));
      (c', end)
  }

  /** ProcessPacket until a data packet; false when the response ends first. */
  function AwaitData(o: Setup, c: Client): (Client, Outcome<Option<Block>>)
    decreases |c.input|
  {
    var (c', p) := ReceivePacket(o, c);
    if p.Raise? then (c', Raise(p.error))
    else if Terminator(p.value) then (c', Value(None))
    else if p.value.Data? then (c', Value(Some(p.value.block)))
    else AwaitData(o, c')
  }

  /** ProcessPacket until it returns false: the code of the last packet received. */
  function AwaitEnd(o: Setup, c: Client): (Client, Outcome<nat>)
    decreases |c.input|
  {
    var (c', p) := ReceivePacket(o, c);
    if p.Raise? then (c', Raise(p.error))
    else if Terminator(p.value) then (c', Value(Code(p.value)))
    else AwaitEnd(o, c')
  }

  function EndInsert(o: Setup, c: Client): (Client, Outcome<()>) {
    if c.state != Inserting then (c, Value(()))
    else
      var (c', code) := AwaitEnd(o, Deliver(o, c, SendBlock(NO_BLOCK)));
      if code.Raise? then (c', Raise(code.error))
      else if code.value != Code(EndOfStream) && code.value != Code(Exception) && code.value != Code(Log) && o.rethrow
      then (c', Raise(UnexpectedEnd))
      else (c'.(state := Idle), Value(()))
  }

  function StartInserting(o: Setup, c: Client): (Client, Outcome<Option<Block>>) {
    AwaitData(o, SendWholeQuery(o, c.(state := Inserting), true))
  }

  /** An insert from its query on. */
  function InsertBody(o: Setup, c: Client, b: Block): (Client, Outcome<()>) {
    var (c', header) := StartInserting(o, c);
    match header
    case Raise(e) => (c', Raise(e))
    case Value(None) => (c', Raise(Protocol))
    case Value(Some(_)) => EndInsert(o, Deliver(o, c', SendBlock(b)))
  }

  function Insert(o: Setup, c: Client, b: Block): (Client, Outcome<()>) {
    if c.state != Idle then (c, Raise(Validation))
    else
      var (c', p) := PingFirst(o, c);
      if p.Raise? then (c', p) else InsertBody(o, c', b)
  }

  /** The events pointer is set for the duration of the call only; a query with callbacks of its own is refused. */
  function BeginInsert(o: Setup, c: Client, hasCallbacks: bool): (Client, Outcome<Block>) {
    if c.state != Idle || hasCallbacks then (c, Raise(Validation))
    else
      var (c1, p) := PingFirst(o, c.(events := Some(KEEPS_GOING)));
      if p.Raise? then (c1.(events := None), Raise(p.error))
      else
        var (c2, header) := StartInserting(o, c1);
        (c2.(events := None),
         match header
         case Raise(e) => Raise(e)
         case Value(None) => Raise(Protocol)
         case Value(Some(b)) => Value(b))
  }

  function SendInsertBlock(o: Setup, c: Client, b: Block): (Client, Outcome<()>) {
    if c.state != Inserting then (c, Raise(Validation)) else (Deliver(o, c, SendBlock(b)), Value(()))
  }

  /** How a reconnect goes: the connect throws, the handshake fails, or both work. */
  datatype Reconnect = Refused | NoHandshake | Connected

  /**
    New streams to a server at rest; the events pointer is left as it was. A connect that throws changes nothing, a
    failed handshake leaves the client idle all the same.
   */
  function ResetConnection(c: Client, how: Reconnect): (Client, Outcome<()>) {
    if how.Refused? then (c, Raise(System))
    else (c.(input := [], state := Idle, server := Resting), if how.Connected? then Value(()) else Raise(Protocol))
  }

  // ----- calls and runs -----

  datatype Call =
    | CallBeginSelect(query: Query) | CallNextBlock | CallExecute(query: Query, tables: Option<seq<Table>>) | CallCancel
    | CallInsert(block: Block) | CallBeginInsert(hasCallbacks: bool) | CallSendBlock(block: Block) | CallEndInsert
    | CallPing | CallReset(how: Reconnect)

  function Plain<T>(r: Outcome<T>): Outcome<()> {
    match r case Value(_) => Value(()) case Raise(e) => Raise(e)
  }

  function Step(o: Setup, c: Client, call: Call): (Client, Outcome<()>) {
    match call
    case CallBeginSelect(q) => BeginSelect(o, c, q)
    case CallNextBlock => var (c', r) := NextBlock(o, c); (c', Plain(r))
    case CallExecute(q, tables) => var (c', _, r) := Execute(o, c, q, tables); (c', r)
    case CallCancel => Cancel(o, c)
    case CallInsert(b) => Insert(o, c, b)
    case CallBeginInsert(h) => var (c', r) := BeginInsert(o, c, h); (c', Plain(r))
    case CallSendBlock(b) => SendInsertBlock(o, c, b)
    case CallEndInsert => EndInsert(o, c)
    case CallPing => Ping(o, c)
    case CallReset(how) => ResetConnection(c, how)
  }

  function Run(o: Setup, c: Client, calls: seq<Call>): Client
    decreases |calls|
  {
    if calls == [] then c else Run(o, Step(o, c, calls[0]).0, calls[1..])
  }

  const FRESH: Client := Client(Idle, None, [], [], Resting, 0)

  // ----- any server: selecting has a query, a failed insert stays an insert, and no byte is written meanwhile -----

  ghost predicate Linked(c: Client) {
    c.state == Selecting ==> c.events.Some?
  }

  /** An error that comes of what the server sends. */
  predicate FromServer(e: Error) {
    e == Protocol || e == ServerException || e == Unimplemented
  }

  lemma {:induction false} AwaitKeeps(o: Setup, c: Client)
    ensures var c' := AwaitData(o, c).0;
            c'.state == c.state && c'.events == c.events && c'.server == c.server && c'.answers == c.answers
    ensures var c' := AwaitEnd(o, c).0; c'.state == c.state && c'.events == c.events && c'.server == c.server
    ensures AwaitEnd(o, c).1.Value? ==> AwaitEnd(o, c).1.value in {Code(EndOfStream), Code(Exception)}
    ensures AwaitData(o, c).1.Raise? ==> FromServer(AwaitData(o, c).1.error)
    ensures AwaitEnd(o, c).1.Raise? ==> FromServer(AwaitEnd(o, c).1.error)
    decreases |c.input|
  {
    var (c', p) := ReceivePacket(o, c);
    if p.Value? && !Terminator(p.value) {
      AwaitKeeps(o, c');
    }
  }

  lemma {:induction false} PullRaises(o: Setup, c: Client)
    ensures PullBlock(o, c).1.Raise? ==> FromServer(PullBlock(o, c).1.error)
    decreases |c.input|
  {
    var (c', p) := ReceivePacket(o, c);
    if p.Value? && !Terminator(p.value) {
      PullRaises(o, c');
    }
  }

  /** Pulling to the end leaves the client idle, with no query. */
  lemma {:induction false} PullAllEnds(o: Setup, c: Client)
    ensures PullAll(o, c).0.state == Idle && PullAll(o, c).0.events == None && PullAll(o, c).0.server == c.server
    ensures PullAll(o, c).2.Raise? ==> FromServer(PullAll(o, c).2.error)
    decreases |c.input|
  {
    PullConsumes(o, c);
    PullRaises(o, c);
    var (c', r) := PullBlock(o, c);
    if r.Value? && r.value.Some? {
      PullAllEnds(o, c');
    }
  }

  lemma StepLinked(o: Setup, c: Client, call: Call)
    requires Linked(c)
    ensures Linked(Step(o, c, call).0)
  {
    match call
    case CallNextBlock => PullConsumes(o, c);
    case CallExecute(q, tables) =>
      var c' := if tables.Some? then BeginSelectWithTables(o, c, q, tables.value).0 else BeginSelect(o, c, q).0;
      PullAllEnds(o, c');
    case CallCancel => PullAllEnds(o, Deliver(o, c, SendCancel));
    case CallInsert(b) => InsertState(o, c, b);
    case CallBeginInsert(h) => BeginInsertState(o, c, h);
    case CallEndInsert => EndInsertState(o, c);
    case _ =>
  }

  lemma EndInsertState(o: Setup, c: Client)
    ensures var (c', r) := EndInsert(o, c);
            && c'.events == c.events
            && (c.state == Inserting ==> (c'.state == Inserting <==> r.Raise?) && (r.Value? ==> c'.state == Idle))
            && (c.state != Inserting ==> c' == c && r.Value?)
            && (c.state == Inserting && !c.server.Collecting? ==> c'.server == Resting)
            && (r.Raise? ==> FromServer(r.error))
  {
    AwaitKeeps(o, Deliver(o, c, SendBlock(NO_BLOCK)));
  }

  lemma PingState(o: Setup, c: Client)
    ensures var (c', r) := Ping(o, c);
            && c'.state == c.state && c'.events == c.events && c'.server == c.server
            && (r.Raise? ==> r.error == Validation || FromServer(r.error))
            && (r == Raise(Validation) <==> c.state != Idle)
            && (r == Value(()) <==> c.state == Idle && [Pong] <= c.input + o.answer(Echo, c.answers))
    ensures var (c', r) := PingFirst(o, c);
            && c'.state == c.state && c'.events == c.events && c'.server == c.server
            && (r.Raise? ==> r.error == Validation || FromServer(r.error))
            && (c.state == Idle ==> r != Raise(Validation))
  {
  }

  /** An insert ends idle exactly when it returns, and inserting when it throws past its checks. */
  lemma InsertState(o: Setup, c: Client, b: Block)
    ensures var (c', r) := Insert(o, c, b);
            && (c'.state != Selecting || c' == c)
            && c'.events == c.events
            && r != Raise(UnexpectedEnd)
            && (c.state == Idle && r.Raise? ==> FromServer(r.error))
            && (c.state == Idle && PingFirst(o, c).1.Value? ==> c'.state == (if r.Value? then Idle else Inserting))
  {
    hide PingFirst, Ping, AwaitData, AwaitEnd, Advanced;
    PingState(o, c);
    var (c1, p) := PingFirst(o, c);
    AwaitKeeps(o, SendWholeQuery(o, c1.(state := Inserting), true));
    var (c2, header) := StartInserting(o, c1);
    EndInsertState(o, Deliver(o, c2, SendBlock(b)));
  }

  lemma BeginInsertState(o: Setup, c: Client, hasCallbacks: bool)
    ensures var (c', r) := BeginInsert(o, c, hasCallbacks);
            && (c.state != Idle || hasCallbacks ==> c' == c && r == Raise(Validation))
            && (c.state == Idle && !hasCallbacks ==> c'.events == None && c'.state != Selecting)
            && (r.Value? ==> c'.state == Inserting)
            && r != Raise(UnexpectedEnd)
            && (c.state == Idle && !hasCallbacks && r.Raise? ==> FromServer(r.error))
            && (c.state == Idle && !hasCallbacks && PingFirst(o, c.(events := Some(KEEPS_GOING))).1.Value? ==>
                  c'.state == Inserting)
  {
    if c.state == Idle && !hasCallbacks {
      var start := c.(events := Some(KEEPS_GOING));
      PingState(o, start);
      AwaitKeeps(o, SendWholeQuery(o, PingFirst(o, start).0.(state := Inserting), true));
    }
  }

  /** While inserting, everything but the insert's own calls is refused before a byte is written or read. */
  lemma RefusedWhileInserting(o: Setup, c: Client, call: Call)
    requires c.state == Inserting && !call.CallSendBlock? && !call.CallEndInsert? && !call.CallReset?
    ensures Step(o, c, call) == (c, Raise(Validation))
  {
  }

  /** The error that EndInsert keeps for an unexpected last packet never occurs. */
  lemma NoUnexpectedEnd(o: Setup, c: Client, call: Call)
    ensures Step(o, c, call).1 != Raise(UnexpectedEnd)
  {
    match call
    case CallNextBlock => PullRaises(o, c);
    case CallBeginSelect(q) => PingState(o, c);
    case CallExecute(q, tables) =>
      PingState(o, c);
      var c' := if tables.Some? then BeginSelectWithTables(o, c, q, tables.value).0 else BeginSelect(o, c, q).0;
      PullAllEnds(o, c');
    case CallCancel => PullAllEnds(o, Deliver(o, c, SendCancel));
    case CallInsert(b) => InsertState(o, c, b);
    case CallBeginInsert(h) => BeginInsertState(o, c, h);
    case CallEndInsert => EndInsertState(o, c);
    case CallPing => PingState(o, c);
    case _ =>
  }

  /** A call that can end an insert: a reconnect whose connect works, or an EndInsert that returns. */
  predicate Ends(o: Setup, c: Client, call: Call) {
    (call.CallReset? && !call.how.Refused?) || (call.CallEndInsert? && EndInsert(o, c).1.Value?)
  }

  predicate NoneEnds(o: Setup, c: Client, calls: seq<Call>)
    decreases |calls|
  {
    calls == [] || (!Ends(o, c, calls[0]) && NoneEnds(o, Step(o, c, calls[0]).0, calls[1..]))
  }

  lemma InsertingSticks(o: Setup, c: Client, call: Call)
    requires c.state == Inserting
    ensures Step(o, c, call).0.state == Inserting <==> !Ends(o, c, call)
    ensures Ends(o, c, call) ==> Step(o, c, call).0.state == Idle
  {
    if call.CallEndInsert? {
      EndInsertState(o, c);
    } else if !call.CallSendBlock? && !call.CallReset? {
      RefusedWhileInserting(o, c, call);
    }
  }

  /** Over any run, an insert that was entered stays until a reconnect or a successful EndInsert. */
  lemma {:induction false} InsertingSticksOverRuns(o: Setup, c: Client, calls: seq<Call>)
    requires c.state == Inserting && NoneEnds(o, c, calls)
    ensures Run(o, c, calls).state == Inserting
    decreases |calls|
  {
    if calls != [] {
      InsertingSticks(o, c, calls[0]);
      InsertingSticksOverRuns(o, Step(o, c, calls[0]).0, calls[1..]);
    }
  }

  lemma {:induction false} LinkedOverRuns(o: Setup, c: Client, calls: seq<Call>)
    requires Linked(c)
    ensures Linked(Run(o, c, calls))
    decreases |calls|
  {
    if calls != [] {
      StepLinked(o, c, calls[0]);
      LinkedOverRuns(o, Step(o, c, calls[0]).0, calls[1..]);
    }
  }

  // ----- any server: between calls it waits for data only while the client is inserting -----

  ghost predicate InStep(c: Client) {
    c.server == Resting || (c.state == Inserting && c.server == Receiving)
  }

  function TableMessages(tables: seq<Table>): seq<Message> {
    if tables == [] then []
    else (if IsEmptyTable(tables[0]) then [] else [SendTable(tables[0])]) + TableMessages(tables[1..])
  }

  /**
    Exactly the tables that have rows are sent, in order, and because the others are skipped the server takes none of
    them for the end of the data: it answers nothing and goes on collecting.
   */
  lemma {:induction false} TablesPromptNothing(o: Setup, c: Client, tables: seq<Table>)
    requires c.server.Collecting?
    ensures SendTables(o, c, tables) == c.(written := c.written + TableMessages(tables))
    decreases |tables|
  {
    if tables == [] {
      assert c.written + [] == c.written;
    } else if IsEmptyTable(tables[0]) {
      TablesPromptNothing(o, c, tables[1..]);
      assert [] + TableMessages(tables[1..]) == TableMessages(tables[1..]);
    } else {
      var c' := Deliver(o, c, SendTable(tables[0]));
      assert c.input + [] == c.input;
      TablesPromptNothing(o, c', tables[1..]);
      assert c'.written + TableMessages(tables[1..]) ==
          c.written + ([SendTable(tables[0])] + TableMessages(tables[1..]));
    }
  }

  /** A whole query leaves the server at rest, or receiving if it is an insert whose header was sent. */
  lemma SelectInStep(o: Setup, c: Client, q: Query, tables: Option<seq<Table>>)
    requires c.state == Idle && PingFirst(o, c).1.Value?
    ensures var c' := (if tables.Some? then BeginSelectWithTables(o, c, q, tables.value) else BeginSelect(o, c, q)).0;
            c'.server == Resting && c'.state == Selecting
  {
    if tables.Some? {
      var c' := PingFirst(o, c).0.(state := Selecting, events := Some(q));
      TablesPromptNothing(o, Deliver(o, c', SendQuery(false)), tables.value);
    }
  }

  lemma StartInStep(o: Setup, c: Client)
    ensures var c' := StartInserting(o, c).0; c'.state == Inserting && !c'.server.Collecting?
  {
    AwaitKeeps(o, SendWholeQuery(o, c.(state := Inserting), true));
  }

  /** Whatever the server sends, a call leaves it waiting for a query, or for data if the client is inserting. */
  lemma StepInStep(o: Setup, c: Client, call: Call)
    requires InStep(c)
    ensures InStep(Step(o, c, call).0)
  {
    hide PingFirst, SendTables, SendWholeQuery, StartInserting, EndInsert, PullAll, PullBlock;
    PingState(o, c);
    match call
    case CallBeginSelect(q) =>
      if c.state == Idle && PingFirst(o, c).1.Value? { SelectInStep(o, c, q, None); }
    case CallNextBlock => PullConsumes(o, c);
    case CallExecute(q, tables) =>
      if c.state == Idle && PingFirst(o, c).1.Value? { SelectInStep(o, c, q, tables); }
      var c' := if tables.Some? then BeginSelectWithTables(o, c, q, tables.value).0 else BeginSelect(o, c, q).0;
      PullAllEnds(o, c');
    case CallCancel => PullAllEnds(o, Deliver(o, c, SendCancel));
    case CallInsert(b) =>
      StartInStep(o, PingFirst(o, c).0);
      EndInsertState(o, Deliver(o, StartInserting(o, PingFirst(o, c).0).0, SendBlock(b)));
    case CallBeginInsert(h) =>
      var start := c.(events := Some(KEEPS_GOING));
      PingState(o, start);
      StartInStep(o, PingFirst(o, start).0);
    case CallSendBlock(b) =>
    case CallEndInsert => EndInsertState(o, c);
    case CallPing =>
    case CallReset(how) =>
  }

  lemma {:induction false} InStepOverRuns(o: Setup, c: Client, calls: seq<Call>)
    requires InStep(c)
    ensures InStep(Run(o, c, calls))
    decreases |calls|
  {
    if calls != [] {
      StepInStep(o, c, calls[0]);
      InStepOverRuns(o, Step(o, c, calls[0]).0, calls[1..]);
    }
  }

  // ----- well-behaved servers: idle means that every response was read to its end -----

  /** A decodable packet that ends nothing. */
  predicate Benign(p: Packet) {
    !Terminator(p) && !p.Unknown? && !p.Undecodable?
  }

  /** A whole response: benign packets and then one terminator. */
  predicate Proper(s: seq<Packet>) {
    s != [] && Terminator(s[|s| - 1]) && forall i :: 0 <= i < |s| - 1 ==> Benign(s[i])
  }

  /** The response to the start of an insert: no data until the header block, or a terminator instead of it. */
  predicate HeaderResponse(s: seq<Packet>) {
    && s != [] && (s[|s| - 1].Data? || Terminator(s[|s| - 1]))
    && forall i :: 0 <= i < |s| - 1 ==> Benign(s[i]) && !s[i].Data?
  }

  /** Every request gets a whole response, and an end of data that was not expected gets one too. */
  ghost predicate WellBehaved(o: Setup) {
    forall n :: && o.answer(Echo, n) == [Pong] && HeaderResponse(o.answer(StartInsert, n))
                && Proper(o.answer(RunQuery, n)) && Proper(o.answer(FinishInsert, n)) && Proper(o.answer(Unexpected, n))
  }

  lemma Answers(o: Setup, n: nat)
    requires WellBehaved(o)
    ensures o.answer(Echo, n) == [Pong] && HeaderResponse(o.answer(StartInsert, n))
    ensures Proper(o.answer(RunQuery, n)) && Proper(o.answer(FinishInsert, n)) && Proper(o.answer(Unexpected, n))
  {
  }

  /** What is unread: nothing when idle or inserting, the rest of one response when selecting. */
  ghost predicate Settled(c: Client) {
    if c.state == Selecting then Proper(c.input) else c.input == []
  }

  /** The non-empty data blocks of a response, in order. */
  function DataBlocks(s: seq<Packet>): seq<Block> {
    if s == [] then []
    else (if s[0].Data? && s[0].block.columns != [] then [s[0].block] else []) + DataBlocks(s[1..])
  }

  /** How reading a whole response ends. */
  function Ending(o: Setup, s: seq<Packet>): Outcome<()>
    requires s != []
  {
    if s[|s| - 1] == Exception && o.rethrow then Raise(ServerException) else Value(())
  }

  lemma ProperTail(s: seq<Packet>)
    requires Proper(s) && !Terminator(s[0])
    ensures |s| > 1 && Benign(s[0]) && Proper(s[1..]) && s[1..][|s| - 2] == s[|s| - 1]
  {
    assert forall i :: 0 <= i < |s| - 2 ==> s[1..][i] == s[i + 1];
  }

  lemma ProperEnd(s: seq<Packet>)
    requires Proper(s) && Terminator(s[0])
    ensures |s| == 1 && DataBlocks(s) == []
  {
    assert |s| > 1 ==> Benign(s[0]);
    assert s[1..] == [];
  }

  /** The next block is the response's next non-empty data block; without one the response is read to its end. */
  lemma {:induction false} PullProper(o: Setup, c: Client)
    requires Proper(c.input)
    ensures var (c', r) := PullBlock(o, c);
            if DataBlocks(c.input) == [] then
              c'.input == [] && c'.state == Idle && Plain(r) == Ending(o, c.input) && (r.Value? ==> r.value == None)
            else
              && r == Value(Some(DataBlocks(c.input)[0])) && c'.state == c.state
              && Proper(c'.input) && DataBlocks(c'.input) == DataBlocks(c.input)[1..]
              && c'.input[|c'.input| - 1] == c.input[|c.input| - 1]
    decreases |c.input|
  {
    var s := c.input;
    assert s != [];
    hide Proper;
    if Terminator(s[0]) {
      ProperEnd(s);
    } else {
      ProperTail(s);
      var (c', p) := ReceivePacket(o, c);
      if !(s[0].Data? && s[0].block.columns != []) {
        assert DataBlocks(s) == DataBlocks(s[1..]);
        PullProper(o, c');
      }
    }
  }

  /** Pulling a whole response yields exactly its non-empty data blocks in order and leaves nothing unread. */
  lemma {:induction false} PullAllProper(o: Setup, c: Client)
    requires Proper(c.input)
    ensures var (c', blocks, end) := PullAll(o, c);
            blocks == DataBlocks(c.input) && end == Ending(o, c.input) && c'.input == [] && c'.state == Idle
    decreases |c.input|
  {
    hide PullBlock, Proper, DataBlocks;
    PullProper(o, c);
    PullConsumes(o, c);
    var (c', r) := PullBlock(o, c);
    if DataBlocks(c.input) != [] {
      PullAllProper(o, c');
      assert DataBlocks(c.input) == [DataBlocks(c.input)[0]] + DataBlocks(c'.input);
    }
  }

  lemma {:induction false} AwaitHeader(o: Setup, c: Client)
    requires HeaderResponse(c.input)
    ensures var (c', r) := AwaitData(o, c);
            && c'.input == []
            && (c.input[|c.input| - 1].Data? <==> r.Value? && r.value.Some?)
            && (c.input[|c.input| - 1].Data? ==> r == Value(Some(c.input[|c.input| - 1].block)))
            && (!c.input[|c.input| - 1].Data? ==> Plain(r) == Ending(o, c.input))
    decreases |c.input|
  {
    var s := c.input;
    if |s| == 1 {
      assert s[1..] == [];
    } else {
      assert Benign(s[0]) && !s[0].Data?;
      var (c', p) := ReceivePacket(o, c);
      assert forall i :: 0 <= i < |s| - 2 ==> s[1..][i] == s[i + 1];
      AwaitHeader(o, c');
    }
  }

  /** Waiting for the end reads one whole response and no further. */
  lemma {:induction false} AwaitOneResponse(o: Setup, c: Client, s: seq<Packet>, tail: seq<Packet>)
    requires Proper(s) && c.input == s + tail
    ensures AwaitEnd(o, c).0.input == tail && Plain(AwaitEnd(o, c).1) == Ending(o, s)
    decreases |s|
  {
    assert c.input[0] == s[0] && c.input[1..] == s[1..] + tail;
    if Terminator(s[0]) {
      ProperEnd(s);
      assert s[1..] + tail == tail;
    } else {
      ProperTail(s);
      assert Benign(s[0]);
      AwaitOneResponse(o, ReceivePacket(o, c).0, s[1..], tail);
    }
  }

  lemma PingSettled(o: Setup, c: Client)
    requires WellBehaved(o) && c.state == Idle && c.input == []
    ensures var (c', r) := PingFirst(o, c);
            && c'.input == [] && r == Value(()) && c'.state == Idle && c'.server == c.server
            && c'.written == c.written + (if o.pingFirst then [SendPing] else [])
            && c'.answers == c.answers + (if o.pingFirst then 1 else 0)
    ensures var (c', r) := Ping(o, c); c'.input == [] && r == Value(()) && c'.written == c.written + [SendPing]
  {
    PingState(o, c);
    assert c.input + o.answer(Echo, c.answers) == [Pong];
    assert c.written + [] == c.written;
  }

  /** The user does not send the end marker as if it were data. */
  predicate Tidy(call: Call) {
    (call.CallInsert? || call.CallSendBlock?) ==> !IsMarker(call.block)
  }

  /** What the server answers to an end of data in this state. */
  function EndAnswer(o: Setup, c: Client): seq<Packet> {
    o.answer(Asked(c.server, SendBlock(NO_BLOCK)), c.answers)
  }

  lemma EndInsertSettled(o: Setup, c: Client)
    requires WellBehaved(o) && c.state == Inserting && !c.server.Collecting? && c.input == []
    ensures Proper(EndAnswer(o, c))
    ensures EndInsert(o, c).0.input == [] && EndInsert(o, c).1 == Ending(o, EndAnswer(o, c))
    ensures EndInsert(o, c).0.state != Selecting
  {
    EndInsertState(o, c);
    var sent, s := Deliver(o, c, SendBlock(NO_BLOCK)), EndAnswer(o, c);
    assert Proper(s) && sent.input == s + [];
    AwaitOneResponse(o, sent, s, []);
    AwaitKeeps(o, sent);
  }

  lemma InsertQuerySent(o: Setup, c: Client)
    ensures var c', answer := SendWholeQuery(o, c, true), o.answer(StartInsert, c.answers);
            && c'.input == c.input + answer && c'.state == c.state && c'.events == c.events
            && c'.server == (if answer != [] && answer[|answer| - 1].Data? then Receiving else Resting)
            && c'.answers == c.answers + 1
  {
    assert c.input + [] == c.input;
  }

  /** Starting an insert reads the header response whole, and the server waits for data exactly if it was a header. */
  lemma StartSettled(o: Setup, c: Client)
    requires WellBehaved(o) && c.input == []
    ensures var (c', r) := StartInserting(o, c);
            && c'.input == [] && c'.state == Inserting && c'.events == c.events
            && (r.Value? && r.value.Some? <==> HeaderArrives(o, c))
            && HeaderResponse(o.answer(StartInsert, c.answers))
            && (if HeaderArrives(o, c) then r == Value(Some(HeaderOf(o, c)))
                else Plain(r) == Ending(o, o.answer(StartInsert, c.answers)))
            && c'.server == (if HeaderArrives(o, c) then Receiving else Resting) && c'.answers == c.answers + 1
  {
    hide AwaitData, AwaitEnd, WellBehaved, SendWholeQuery, HeaderResponse;
    var start := c.(state := Inserting);
    var sent, s := SendWholeQuery(o, start, true), o.answer(StartInsert, c.answers);
    InsertQuerySent(o, start);
    Answers(o, c.answers);
    assert [] + s == s;
    AwaitHeader(o, sent);
    AwaitKeeps(o, sent);
  }

  ghost predicate HeaderArrives(o: Setup, c: Client)
    requires WellBehaved(o)
  {
    var s := o.answer(StartInsert, c.answers);
    HeaderResponse(s) && s[|s| - 1].Data?
  }

  /** The header block that arrives. */
  ghost function HeaderOf(o: Setup, c: Client): Block
    requires WellBehaved(o) && HeaderArrives(o, c)
  {
    var s := o.answer(StartInsert, c.answers);
    s[|s| - 1].block
  }

  /** What a query writes: itself, the tables that have rows, and the end of the data. */
  function QueryMessages(tables: seq<Table>): seq<Message> {
    [SendQuery(false)] + TableMessages(tables) + [SendBlock(NO_BLOCK)]
  }

  /** A select also pings if so configured. */
  function SelectMessages(o: Setup, tables: Option<seq<Table>>): seq<Message> {
    (if o.pingFirst then [SendPing] else []) + QueryMessages(if tables.Some? then tables.value else [])
  }

  /** Sending a query with tables asks the server exactly once, because no table is taken for the end of the data. */
  lemma QueryAsksOnce(o: Setup, c: Client, tables: seq<Table>)
    ensures var c' := Deliver(o, SendTables(o, Deliver(o, c, SendQuery(false)), tables), SendBlock(NO_BLOCK));
            && c'.input == c.input + o.answer(RunQuery, c.answers) && c'.written == c.written + QueryMessages(tables)
            && c'.state == c.state && c'.events == c.events && c'.server == Resting
  {
    hide TableMessages, SendTables;
    var c1 := Deliver(o, c, SendQuery(false));
    TablesPromptNothing(o, c1, tables);
    assert c.input + [] == c.input;
    var w, q, t, e := c.written, [SendQuery(false)], TableMessages(tables), [SendBlock(NO_BLOCK)];
    assert w + q + t + e == w + (q + t + e);
  }

  lemma BeginWithoutTables(o: Setup, c: Client, q: Query)
    ensures BeginSelect(o, c, q) == BeginSelectWithTables(o, c, q, [])
  {
  }

  /** Beginning a select leaves exactly one response unread. */
  lemma SelectSettled(o: Setup, c: Client, q: Query, tables: Option<seq<Table>>)
    requires WellBehaved(o) && c.state == Idle && c.input == []
    ensures var (c', r) := if tables.Some? then BeginSelectWithTables(o, c, q, tables.value) else BeginSelect(o, c, q);
            && r == Value(()) && c'.state == Selecting && c'.events == Some(q)
            && c'.input == o.answer(RunQuery, PingFirst(o, c).0.answers) && Proper(c'.input)
            && c'.written == c.written + SelectMessages(o, tables)
  {
    hide WellBehaved, PingFirst, QueryMessages, Proper, Deliver, SendTables, SendWholeQuery;
    PingSettled(o, c);
    var c1 := PingFirst(o, c).0;
    Answers(o, c1.answers);
    BeginWithoutTables(o, c, q);
    var ts := if tables.Some? then tables.value else [];
    QueryAsksOnce(o, c1.(state := Selecting, events := Some(q)), ts);
    assert [] + o.answer(RunQuery, c1.answers) == o.answer(RunQuery, c1.answers);
    var ping := if o.pingFirst then [SendPing] else [];
    assert c.written + ping + QueryMessages(ts) == c.written + (ping + QueryMessages(ts));
  }

  /**
    Executing a query hands over exactly the data blocks of the server's response, in order, reads nothing else, and
    sends the query, its tables and one cancel for each data packet that the callback refuses.
   */
  lemma ExecuteYieldsResponse(o: Setup, c: Client, q: Query, tables: Option<seq<Table>>)
    requires WellBehaved(o) && c.state == Idle && c.input == []
    ensures var response := o.answer(RunQuery, PingFirst(o, c).0.answers);
            var (c', blocks, end) := Execute(o, c, q, tables);
            && Proper(response) && blocks == DataBlocks(response) && end == Ending(o, response)
            && c'.state == Idle && c'.input == []
            && c'.written == c.written + SelectMessages(o, tables) + Refusals(q, response)
  {
    SelectSettled(o, c, q, tables);
    var (c', p) := if tables.Some? then BeginSelectWithTables(o, c, q, tables.value) else BeginSelect(o, c, q);
    PullAllProper(o, c');
    PullAllWrites(o, c', q);
  }

  /** Were a table without rows sent, it would end the data: a second response would be waiting behind the first. */
  lemma EmptyTableEndsData(o: Setup, c: Client, table: Table)
    requires WellBehaved(o) && c.server == Collecting(false) && c.input == [] && IsEmptyTable(table)
    ensures !Proper(Deliver(o, Deliver(o, c, SendTable(table)), SendBlock(NO_BLOCK)).input)
  {
    var first, second := o.answer(RunQuery, c.answers), o.answer(Unexpected, c.answers + 1);
    assert Proper(first) && Proper(second);
    var all := Deliver(o, Deliver(o, c, SendTable(table)), SendBlock(NO_BLOCK)).input;
    assert all == first + second;
    assert Terminator(all[|first| - 1]);
  }

  lemma StepSettled(o: Setup, c: Client, call: Call)
    requires WellBehaved(o) && Settled(c) && InStep(c) && Tidy(call)
    ensures Settled(Step(o, c, call).0)
  {
    match call
    case CallBeginSelect(q) => if c.state == Idle { SelectSettled(o, c, q, None); }
    case CallNextBlock => if c.state == Selecting { PullProper(o, c); }
    case CallExecute(q, tables) => if c.state == Idle { ExecuteYieldsResponse(o, c, q, tables); }
    case CallCancel => if c.state == Selecting { PullAllProper(o, Deliver(o, c, SendCancel)); }
    case CallInsert(b) => if c.state == Idle { InsertSettledExactly(o, c, b); }
    case CallBeginInsert(h) =>
      if c.state == Idle && !h {
        var start := c.(events := Some(KEEPS_GOING));
        PingSettled(o, start);
        StartSettled(o, PingFirst(o, start).0);
      }
    case CallEndInsert => if c.state == Inserting { EndInsertSettled(o, c); }
    case CallPing => if c.state == Idle { PingSettled(o, c); }
    case _ =>
  }

  /** After data that were ended already, ending the insert reads the first answer and leaves the second. */
  lemma EndedTwice(o: Setup, c: Client, b: Block)
    requires WellBehaved(o) && c.state == Inserting && c.server == Receiving && c.input == [] && IsMarker(b)
    ensures var (c', r) := EndInsert(o, Deliver(o, c, SendBlock(b)));
            && c'.input == o.answer(Unexpected, c.answers + 1) && !Settled(c') && c'.state != Selecting
            && Proper(EndAnswer(o, c)) && r == Ending(o, EndAnswer(o, c))
  {
    hide WellBehaved, AwaitEnd;
    var c3 := Deliver(o, c, SendBlock(b));
    var first, second, sent := EndAnswer(o, c), EndAnswer(o, c3), Deliver(o, c3, SendBlock(NO_BLOCK));
    Answers(o, c.answers);
    Answers(o, c.answers + 1);
    assert sent.input == first + second;
    AwaitOneResponse(o, sent, first, second);
    AwaitKeeps(o, sent);
    EndInsertState(o, c3);
  }

  /** An insert leaves an answer unread exactly if its block is the end marker itself, which ends the data twice. */
  lemma InsertSettledExactly(o: Setup, c: Client, b: Block)
    requires WellBehaved(o) && c.state == Idle && c.input == []
    ensures Settled(Insert(o, c, b).0) <==> !IsMarker(b) || !HeaderArrives(o, PingFirst(o, c).0)
  {
    hide WellBehaved, PingFirst, StartInserting, Proper, AwaitEnd, EndInsert, HeaderArrives;
    PingSettled(o, c);
    var c1 := PingFirst(o, c).0;
    StartSettled(o, c1);
    var (c2, header) := StartInserting(o, c1);
    if HeaderArrives(o, c1) {
      var c3 := Deliver(o, c2, SendBlock(b));
      if IsMarker(b) {
        EndedTwice(o, c2, b);
      } else {
        assert c3.input == [];
        EndInsertSettled(o, c3);
      }
    }
  }

  lemma SendBlockSettledExactly(o: Setup, c: Client, b: Block)
    requires WellBehaved(o) && Settled(c) && InStep(c) && c.state == Inserting
    ensures Settled(SendInsertBlock(o, c, b).0) <==> !IsMarker(b)
  {
    if IsMarker(b) {
      assert Proper(EndAnswer(o, c));
    }
  }

  /** Over every run with a well-behaved server, the client is idle only when nothing is left unread. */
  lemma {:induction false} SettledOverRuns(o: Setup, c: Client, calls: seq<Call>)
    requires WellBehaved(o) && Settled(c) && InStep(c) && forall i :: 0 <= i < |calls| ==> Tidy(calls[i])
    ensures Settled(Run(o, c, calls))
    ensures Run(o, c, calls).state == Idle ==> Run(o, c, calls).input == []
    decreases |calls|
  {
    if calls != [] {
      StepSettled(o, c, calls[0]);
      StepInStep(o, c, calls[0]);
      SettledOverRuns(o, Step(o, c, calls[0]).0, calls[1..]);
    }
  }

  /** A server that gives every request the shortest whole response. */
  function Terse(): Setup {
    var answer: (Request, nat) -> seq<Packet> := (r: Request, n: nat) =>
      match r case Echo => [Pong] case StartInsert => [Data(NO_BLOCK)] case _ => [EndOfStream];
    Setup(answer, true, false)
  }

  /** Inserting the end marker over a new connection succeeds, leaves a packet unread, and the next ping fails. */
  lemma MarkerInsertExample()
    ensures WellBehaved(Terse())
    ensures var (c, r) := Insert(Terse(), FRESH, NO_BLOCK);
            && r == Value(()) && c.state == Idle && c.input == [EndOfStream] && !Settled(c)
            && Ping(Terse(), c).1 == Raise(Protocol)
  {
    var o := Terse();
    assert WellBehaved(o) && HeaderArrives(o, FRESH);
    hide WellBehaved, StartInserting, AwaitEnd, EndInsert, HeaderArrives;
    StartSettled(o, FRESH);
    EndedTwice(o, StartInserting(o, FRESH).0, NO_BLOCK);
    assert [EndOfStream] + [Pong] == [EndOfStream, Pong];
  }

  // ----- what is written -----

  /** One cancel message for each data packet the callback refuses. */
  function Refusals(q: Query, s: seq<Packet>): seq<Message> {
    if s == [] then []
    else (if s[0].Data? && !q.goesOn(s[0].block) then [SendCancel] else []) + Refusals(q, s[1..])
  }

  lemma {:induction false} PullWrites(o: Setup, c: Client, q: Query)
    requires Proper(c.input) && c.events == Some(q)
    ensures var c' := PullBlock(o, c).0;
            && |c'.input| <= |c.input|
            && c'.written + Refusals(q, c'.input) == c.written + Refusals(q, c.input)
    decreases |c.input|
  {
    var s := c.input;
    var (c', p) := ReceivePacket(o, c);
    var one := if s[0].Data? && !q.goesOn(s[0].block) then [SendCancel] else [];
    assert c.written + (one + Refusals(q, s[1..])) == c.written + one + Refusals(q, s[1..]);
    assert c'.written == c.written + one;
    if Terminator(s[0]) {
      ProperEnd(s);
    } else {
      ProperTail(s);
      assert Benign(s[0]);
      if !(s[0].Data? && s[0].block.columns != []) {
        PullWrites(o, c', q);
      }
    }
  }

  /** Reading a whole response sends exactly one cancel for each data packet that the callback refuses. */
  lemma {:induction false} PullAllWrites(o: Setup, c: Client, q: Query)
    requires Proper(c.input) && c.events == Some(q)
    ensures PullAll(o, c).0.written == c.written + Refusals(q, c.input)
    decreases |c.input|
  {
    PullProper(o, c);
    PullConsumes(o, c);
    PullWrites(o, c, q);
    var (c', r) := PullBlock(o, c);
    if DataBlocks(c.input) != [] {
      PullAllWrites(o, c', q);
    } else {
      assert c'.written + [] == c'.written;
    }
  }

  /** Cancelling tells the server before it reads the rest of the response, and ends as the response does. */
  lemma CancelExactly(o: Setup, c: Client, q: Query)
    requires c.state == Selecting && c.events == Some(q) && Proper(c.input)
    ensures var (c', r) := Cancel(o, c);
            && c'.written == c.written + [SendCancel] + Refusals(q, c.input)
            && r == Ending(o, c.input) && c'.state == Idle && c'.input == []
  {
    PullAllWrites(o, Deliver(o, c, SendCancel), q);
    PullAllProper(o, Deliver(o, c, SendCancel));
  }
}
