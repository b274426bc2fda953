/**
  The client object of clickhouse/client.cpp: its fields change in place and its packet loops run until a terminator.
  Each method is proved against the corresponding step function.
 */
module ClientImpl {
  import opened Optional
  import opened BlockFormat
  import P = ClientProtocol
  import opened ClientProtocol

  class Impl {
    const o: Setup
    var state: State
    var events: Option<Query>
    var input: seq<Packet>
    var written: seq<Message>
    var server: Phase
    var answers: nat

    function View(): Client
      reads this
    {
      Client(state, events, input, written, server, answers)
    }

    constructor (o: Setup)
      ensures this.o == o && View() == FRESH
    {
      this.o, state, events, input, written, server, answers := o, Idle, None, [], [], Resting, 0;
    }

    /** Writes a message; the server reacts to it by itself. */
    method Send(m: Message)
      modifies this`written, this`input, this`server, this`answers
      ensures View() == Deliver(o, old(View()), m)
    {
      written := written + [m];
      if Prompts(m) {
        var answer := o.answer(Asked(server, m), answers);
        input, server, answers := input + answer, Advanced(server, m, answer), answers + 1;
      } else {
        assert input + [] == input;
        server := Advanced(server, m, []);
      }
    }

    method ResetState()
      modifies this`state, this`events
      ensures View() == P.ResetState(old(View()))
    {
      state := Idle;
      events := None;
    }

    method ReceivePacket() returns (r: Outcome<Packet>)
      modifies this
      ensures (View(), r) == P.ReceivePacket(o, old(View()))
    {
      if input == [] {
        return Raise(Protocol);
      }
      var p := input[0];
      input := input[1..];
      match p
      case Unknown => return Raise(Unimplemented);
      case Undecodable(_) => return Raise(Protocol);
      case Exception =>
        if o.rethrow {
          return Raise(ServerException);
        }
        return Value(p);
      case Data(b) =>
        if events.Some? && !events.value.goesOn(b) {
          Send(SendCancel);
        }
        return Value(p);
      case _ => return Value(p);
    }

    /** Whether the response goes on, and the packet's code. */
    method ProcessPacket() returns (r: Outcome<bool>, packet: Option<Packet>)
      modifies this
      ensures var (c, p) := P.ReceivePacket(o, old(View()));
              && View() == c
              && (p.Raise? ==> r == Raise(p.error) && packet == None)
              && (p.Value? ==> r == Value(!Terminator(p.value)) && packet == Some(p.value))
    {
      var p := ReceivePacket();
      if p.Raise? {
        return Raise(p.error), None;
      }
      match p.value
      case Exception => return Value(false), Some(p.value);
      case EndOfStream => return Value(false), Some(p.value);
      case _ => return Value(true), Some(p.value);
    }

    method NextBlock() returns (r: Outcome<Option<Block>>)
      modifies this
      ensures (View(), r) == P.NextBlock(o, old(View()))
    {
      if state != Selecting {
        return Raise(Validation);
      }
      while true
        invariant PullBlock(o, View()) == PullBlock(o, old(View()))
        decreases |input|
      {
        var p := ReceivePacket();
        if p.Raise? {
          ResetState();
          return Raise(p.error);
        }
        match p.value {
          case Data(b) =>
            if b.columns != [] {
              return Value(Some(b));
            }
          case Exception =>
            ResetState();
            return Value(None);
          case EndOfStream =>
            ResetState();
            return Value(None);
          case _ =>
        }
      }
    }

    /** Repeats NextBlock until there is none; the blocks are those handed to the caller. */
    method DrainBlocks() returns (blocks: seq<Block>, r: Outcome<()>)
      requires state == Selecting
      modifies this
      ensures (View(), blocks, r) == PullAll(o, old(View()))
    {
      ghost var all := PullAll(o, View());
      blocks := [];
      assert [] + all.1 == all.1;
      while true
        invariant state == Selecting
        invariant var rest := PullAll(o, View()); rest.0 == all.0 && blocks + rest.1 == all.1 && rest.2 == all.2
        decreases |input|
      {
        ghost var before := View();
        PullConsumes(o, before);
        var b := NextBlock();
        assert blocks + [] == blocks;
        if b.Raise? {
          return blocks, Raise(b.error);
        }
        if b.value.None? {
          return blocks, Value(());
        }
        ghost var bs := PullAll(o, View()).1;
        assert blocks + ([b.value.value] + bs) == (blocks + [b.value.value]) + bs;
        blocks := blocks + [b.value.value];
      }
    }

    method Ping() returns (r: Outcome<()>)
      modifies this
      ensures (View(), r) == P.Ping(o, old(View()))
    {
      if state != Idle {
        return Raise(Validation);
      }
      Send(SendPing);
      var go, packet := ProcessPacket();
      if go.Raise? {
        return Raise(go.error);
      }
      if !go.value || packet != Some(Pong) {
        return Raise(Protocol);
      }
      return Value(());
    }

    method PingFirst() returns (r: Outcome<()>)
      modifies this
      ensures (View(), r) == P.PingFirst(o, old(View()))
    {
      r := Value(());
      if o.pingFirst {
        r := Ping();
      }
    }

    method BeginExecuteQuery(q: Query) returns (r: Outcome<()>)
      modifies this
      ensures (View(), r) == BeginSelect(o, old(View()), q)
    {
      if state != Idle {
        return Raise(Validation);
      }
      r := PingFirst();
      if r.Raise? {
        return;
      }
      events := Some(q);
      state := Selecting;
      Send(SendQuery(false));
      Send(SendBlock(NO_BLOCK));
    }

    method SendExternalData(tables: seq<Table>)
      modifies this`written, this`input, this`server, this`answers
      ensures View() == SendTables(o, old(View()), tables)
    {
      ghost var goal := SendTables(o, View(), tables);
      var i := 0;
      assert tables[0..] == tables;
      while i < |tables|
        invariant 0 <= i <= |tables| && SendTables(o, View(), tables[i..]) == goal
      {
        assert tables[i..][1..] == tables[i + 1..];
        if tables[i].block.rows != 0 {
          Send(SendTable(tables[i]));
        }
        i := i + 1;
      }
    }

    method ExecuteQuery(q: Query) returns (blocks: seq<Block>, r: Outcome<()>)
      modifies this
      ensures (View(), blocks, r) == Execute(o, old(View()), q, None)
    {
      r := BeginExecuteQuery(q);
      if r.Raise? {
        return [], r;
      }
      blocks, r := DrainBlocks();
    }

    method SelectWithExternalData(q: Query, tables: seq<Table>) returns (blocks: seq<Block>, r: Outcome<()>)
      modifies this
      ensures (View(), blocks, r) == Execute(o, old(View()), q, Some(tables))
    {
      if state != Idle {
        return [], Raise(Validation);
      }
      r := PingFirst();
      if r.Raise? {
        return [], r;
      }
      events := Some(q);
      state := Selecting;
      Send(SendQuery(false));
      SendExternalData(tables);
      Send(SendBlock(NO_BLOCK));
      blocks, r := DrainBlocks();
    }

    method Cancel() returns (r: Outcome<()>)
      modifies this
      ensures (View(), r) == P.Cancel(o, old(View()))
    {
      if state != Selecting {
        return Raise(Validation);
      }
      Send(SendCancel);
      var blocks;
      blocks, r := DrainBlocks();
    }

    /** Sends the insert query and reads packets until the header block. */
    method StartInserting() returns (r: Outcome<Option<Block>>)
      modifies this
      ensures (View(), r) == P.StartInserting(o, old(View()))
    {
      state := Inserting;
      Send(SendQuery(true));
      Send(SendBlock(NO_BLOCK));
      ghost var start := View();
      while true
        invariant AwaitData(o, View()) == AwaitData(o, start)
        decreases |input|
      {
        var go, packet := ProcessPacket();
        if go.Raise? {
          return Raise(go.error);
        }
        if !go.value {
          return Value(None);
        }
        if packet.value.Data? {
          return Value(Some(packet.value.block));
        }
      }
    }

    method EndInsert() returns (r: Outcome<()>)
      modifies this
      ensures (View(), r) == P.EndInsert(o, old(View()))
    {
      if state != Inserting {
        return Value(());
      }
      Send(SendBlock(NO_BLOCK));
      ghost var start := View();
      var eos := 0;
      while true
        invariant AwaitEnd(o, View()) == AwaitEnd(o, start)
        decreases |input|
      {
        var go, packet := ProcessPacket();
        if go.Raise? {
          return Raise(go.error);
        }
        eos := Code(packet.value);
        if !go.value {
          break;
        }
      }
      if eos != Code(EndOfStream) && eos != Code(Exception) && eos != Code(Log) && o.rethrow {
        return Raise(UnexpectedEnd);
      }
      state := Idle;
      return Value(());
    }

    method Insert(b: Block) returns (r: Outcome<()>)
      modifies this
      ensures (View(), r) == P.Insert(o, old(View()), b)
    {
      if state != Idle {
        return Raise(Validation);
      }
      r := PingFirst();
      if r.Raise? {
        return;
      }
      var header := StartInserting();
      if header.Raise? {
        return Raise(header.error);
      }
      if header.value.None? {
        return Raise(Protocol);
      }
      Send(SendBlock(b));
      r := EndInsert();
    }

    method BeginInsert(hasCallbacks: bool) returns (r: Outcome<Block>)
      modifies this
      ensures (View(), r) == P.BeginInsert(o, old(View()), hasCallbacks)
    {
      if state != Idle || hasCallbacks {
        return Raise(Validation);
      }
      events := Some(KEEPS_GOING);
      var ping := PingFirst();
      if ping.Raise? {
        events := None;
        return Raise(ping.error);
      }
      var header := StartInserting();
      events := None;
      if header.Raise? {
        return Raise(header.error);
      }
      if header.value.None? {
        return Raise(Protocol);
      }
      return Value(header.value.value);
    }

    method SendInsertBlock(b: Block) returns (r: Outcome<()>)
      modifies this
      ensures (View(), r) == P.SendInsertBlock(o, old(View()), b)
    {
      if state != Inserting {
        return Raise(Validation);
      }
      Send(SendBlock(b));
      return Value(());
    }

    method ResetConnection(how: Reconnect) returns (r: Outcome<()>)
      modifies this
      ensures (View(), r) == P.ResetConnection(old(View()), how)
    {
      if how.Refused? {
        return Raise(System);
      }
      input, server := [], Resting;
      state := Idle;
      return if how.Connected? then Value(()) else Raise(Protocol);
    }

    /** Any call. */
    method Perform(call: Call) returns (r: Outcome<()>)
      modifies this
      ensures (View(), r) == Step(o, old(View()), call)
    {
      match call
      case CallBeginSelect(q) => r := BeginExecuteQuery(q);
      case CallNextBlock =>
        var b := NextBlock();
        r := Plain(b);
      case CallExecute(q, tables) =>
        var blocks;
        if tables.Some? {
          blocks, r := SelectWithExternalData(q, tables.value);
        } else {
          blocks, r := ExecuteQuery(q);
        }
      case CallCancel => r := Cancel();
      case CallInsert(b) => r := Insert(b);
      case CallBeginInsert(h) =>
        var b := BeginInsert(h);
        r := Plain(b);
      case CallSendBlock(b) => r := SendInsertBlock(b);
      case CallEndInsert => r := EndInsert();
      case CallPing => r := Ping();
      case CallReset(how) => r := ResetConnection(how);
    }

    /**
      Any sequence of calls on a client in any state: what the object does is a run of the state machine, so with a
      well-behaved server it is idle only with nothing unread, and an insert that failed stays one.
     */
    method Replay(calls: seq<Call>)
      modifies this
      ensures View() == Run(o, old(View()), calls)
      ensures old(Linked(View())) ==> Linked(View())
      ensures old(InStep(View())) ==> InStep(View())
      ensures WellBehaved(o) && old(Settled(View())) && old(InStep(View())) ==>
                (forall i :: 0 <= i < |calls| ==> Tidy(calls[i])) ==> Settled(View())
      ensures old(state) == Inserting && NoneEnds(o, old(View()), calls) ==> state == Inserting
    {
      ghost var start := View();
      var i := 0;
      assert calls[0..] == calls;
      while i < |calls|
        invariant 0 <= i <= |calls| && Run(o, View(), calls[i..]) == Run(o, start, calls)
      {
        assert calls[i..][1..] == calls[i + 1..];
        var r := Perform(calls[i]);
        i := i + 1;
      }
      if Linked(start) {
        LinkedOverRuns(o, start, calls);
      }
      if InStep(start) {
        InStepOverRuns(o, start, calls);
      }
      if WellBehaved(o) && Settled(start) && InStep(start) && forall i :: 0 <= i < |calls| ==> Tidy(calls[i]) {
        SettledOverRuns(o, start, calls);
      }
      if start.state == Inserting && NoneEnds(o, start, calls) {
        InsertingSticksOverRuns(o, start, calls);
      }
    }
  }
}
