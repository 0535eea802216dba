/** The session object: fields updated command by command, from greeting to close. */
module SessionRun {
  import opened Bytes
  import opened DataWire
  import opened SmtpReader
  import opened Session

  /** The events of a run of commands. */
  ghost function Replay(config: Config, f: Fields, turns: seq<Turn>): seq<Event>
    decreases |turns|
  {
    if turns == [] then []
    else
      var r := React(config, f, turns[0]);
      r.events + Replay(config, r.fields, turns[1..])
  }

  /** Everything a session emits from here on. */
  ghost function Output(config: Config, parse: Parser, f: Fields, conn: Conn, worlds: seq<World>): seq<Event>
    requires Live(conn) && ValidWorlds(worlds)
  {
    var t := Transcribe(config, parse, f, conn, worlds);
    Replay(config, f, t.turns) + if t.lineTooLong then [Reply(500)] else []
  }

  lemma {:induction false} ReplayStep(config: Config, f: Fields, turn: Turn, reaction: Reaction, rest: seq<Turn>)
    requires reaction == React(config, f, turn)
    ensures Replay(config, f, [turn] + rest) == reaction.events + Replay(config, reaction.fields, rest)
  {
    assert ([turn] + rest)[1..] == rest;
  }

  /** One iteration of the session loop: a line read and answered. */
  datatype Iteration = Iteration(fields: Fields, events: seq<Event>, stop: bool, conn: Conn)

  ghost function Iterate(config: Config, parse: Parser, f: Fields, conn: Conn, w: World): (r: Iteration)
    requires Live(conn) && ValidWorld(w)
    ensures Live(r.conn)
  {
    var r := LineFrom(conn, [], COMMAND_LINE_MAX);
    match r.status
    case Eof => Iteration(f, [], true, r.conn)
    case TooLong => Iteration(f, [Reply(500)], true, r.conn)
    case Line =>
      var c := parse(StripEol(r.line));
      var reaction := React(config, f, TurnOf(config, f, c, w, r.conn));
      Iteration(reaction.fields, reaction.events, reaction.stop, NextConn(config, f, c, w, r.conn))
  }

  /** One command's share of the output. */
  lemma {:induction false} OutputStep(config: Config, parse: Parser, f: Fields, conn: Conn, worlds: seq<World>,
                                      r: LineRead, it: Iteration)
    requires Live(conn) && ValidWorlds(worlds) && worlds != []
    requires r == LineFrom(conn, [], COMMAND_LINE_MAX) && r.status.Line?
    requires it == Iterate(config, parse, f, conn, worlds[0])
    ensures Output(config, parse, f, conn, worlds)
         == it.events + if it.stop then [] else Output(config, parse, it.fields, it.conn, worlds[1..])
  {
    var c := parse(StripEol(r.line));
    var turn := TurnOf(config, f, c, worlds[0], r.conn);
    var reaction := React(config, f, turn);
    var rest := if it.stop then Transcript([], false)
                else Transcribe(config, parse, it.fields, it.conn, worlds[1..]);
    TranscribeStep(config, parse, f, conn, worlds, r, c, turn, reaction, rest);
    ReplayStep(config, f, turn, reaction, rest.turns);
    Reassociate(it.events, Replay(config, it.fields, rest.turns), if rest.lineTooLong then [Reply(500)] else []);
  }

  /** The output of a session is that of its first iteration and then of the rest. */
  lemma {:induction false} OutputIterates(config: Config, parse: Parser, f: Fields, conn: Conn,
                                          worlds: seq<World>, it: Iteration)
    requires Live(conn) && ValidWorlds(worlds) && worlds != []
    requires it == Iterate(config, parse, f, conn, worlds[0])
    ensures Output(config, parse, f, conn, worlds)
         == it.events + if it.stop then [] else Output(config, parse, it.fields, it.conn, worlds[1..])
  {
    var r := LineFrom(conn, [], COMMAND_LINE_MAX);
    if r.status == Line {
      OutputStep(config, parse, f, conn, worlds, r, it);
    }
  }

  /** What the loop still emits when it is about to serve the command answered by `worlds[i]`. */
  ghost function Remaining(config: Config, parse: Parser, f: Fields, conn: Conn, worlds: seq<World>, i: nat)
    : seq<Event>
    requires Live(conn) && ValidWorlds(worlds) && i <= |worlds|
    decreases |worlds| - i
  {
    if i == |worlds| then []
    else
      var it := Iterate(config, parse, f, conn, worlds[i]);
      it.events + if it.stop then [] else Remaining(config, parse, it.fields, it.conn, worlds, i + 1)
  }

  lemma {:induction false} RemainingIsOutput(config: Config, parse: Parser, f: Fields, conn: Conn,
                                             worlds: seq<World>, i: nat)
    requires Live(conn) && ValidWorlds(worlds) && i <= |worlds|
    ensures Remaining(config, parse, f, conn, worlds, i) == Output(config, parse, f, conn, worlds[i..])
    decreases |worlds| - i
  {
    if i < |worlds| {
      var it := Iterate(config, parse, f, conn, worlds[i]);
      OutputIterates(config, parse, f, conn, worlds[i..], it);
      assert worlds[i..][1..] == worlds[i + 1..];
      RemainingIsOutput(config, parse, it.fields, it.conn, worlds, i + 1);
    }
  }

  function DataRule(config: Config, f: Fields, w: World, conn: Conn): Reaction
    requires Live(conn)
  {
    React(config, f, TurnOf(config, f, Data, w, conn))
  }

  lemma {:induction false} DataRuleReads(
    config: Config, f: Fields, w: World, conn: Conn, outcome: DataOutcome, r: Reaction, end: Reaction)
    requires Live(conn) && ReadsData(f, Data, w)
    requires outcome == DataFrom(conn, [], false, config.maxMessageSize).0
    requires r == DataRule(config, f, w, conn) && end == Concluded(f, w, outcome)
    ensures r.fields == end.fields && r.events == [Reply(354)] + end.events && r.stop == end.stop
  {
  }

  function TlsRule(config: Config, f: Fields, w: World, conn: Conn): Reaction
    requires Live(conn)
  {
    React(config, f, TurnOf(config, f, StartTls, w, conn))
  }

  class SmtpSession {
    const config: Config
    var helo: Option<string>
    var mailFrom: Option<string>
    var rcpts: seq<string>
    var tlsActive: bool
    var variant: Variant
    var log: seq<Event>

    constructor (config: Config)
      ensures this.config == config && State() == FRESH && log == []
    {
      this.config := config;
      helo, mailFrom, rcpts, tlsActive, variant := None, None, [], false, Plain;
      log := [];
    }

    function State(): Fields
      reads this
    {
      Fields(helo, mailFrom, rcpts, tlsActive, variant)
    }

    method Reply(code: nat)
      modifies this`log
      ensures log == old(log) + [Event.Reply(code)]
    {
      log := log + [Event.Reply(code)];
    }

    method ResetTx()
      modifies this`mailFrom, this`rcpts
      ensures State() == Session.ResetTx(old(State()))
    {
      mailFrom := None;
      rcpts := [];
    }

    method HandleRcpt(recipient: string, w: World)
      modifies this`rcpts, this`log
      ensures State() == RcptReaction(config, old(State()), recipient, w).fields
      ensures log == old(log) + RcptReaction(config, old(State()), recipient, w).events
    {
      if mailFrom.None? {
        Reply(503);
        return;
      }
      if |rcpts| >= config.maxRecipients {
        Reply(452);
        return;
      }
      var v := Check(config, recipient, w);
      match v.check
      case Accept(delivery) =>
        log := log + Creation(v);
        if delivery !in rcpts {
          rcpts := rcpts + [delivery];
        }
        Reply(250);
      case NotOurDomain => Reply(550);
      case NoMailbox => Reply(550);
      case Error => Reply(451);
    }

    /** Saves a copy per recipient, in order, until one save fails. */
    method StoreMessage(data: Bytes, w: World) returns (ok: bool)
      modifies this`log
      ensures ok == (w.saves >= |rcpts|)
      ensures log == old(log) + Copies(rcpts, SaveCount(State(), w), Sender(State()), data)
    {
      var sender := if mailFrom.Some? then mailFrom.value else "";
      var i := 0;
      while i < |rcpts|
        invariant i <= SaveCount(State(), w)
        invariant log == old(log) + Copies(rcpts, i, sender, data)
      {
        if i >= w.saves {
          return false;
        }
        log := log + [Saved(rcpts[i], sender, data)];
        assert Copies(rcpts, i + 1, sender, data) == Copies(rcpts, i, sender, data) + [Saved(rcpts[i], sender, data)];
        i := i + 1;
      }
      ok := true;
    }

    /** Answers a message that has been read, or gives up on one that has not. */
    method Conclude(outcome: DataOutcome, w: World) returns (stop: bool)
      modifies this
      ensures State() == Concluded(old(State()), w, outcome).fields
      ensures log == old(log) + Concluded(old(State()), w, outcome).events
      ensures stop == Concluded(old(State()), w, outcome).stop
    {
      stop := false;
      match outcome
      case Complete(data) =>
        var ok := StoreMessage(data, w);
        Reply(if ok then 250 else 451);
        ResetTx();
      case TooLarge =>
        Reply(552);
        ResetTx();
      case ConnectionClosed =>
        stop := true;
    }

    method HandleData(w: World, stream: ByteStream) returns (stop: bool)
      requires stream.Valid()
      modifies this, stream
      ensures stream.Valid()
      ensures stream.State() == DataOf(config, old(State()), Data, w, old(stream.State())).1
      ensures State() == DataRule(config, old(State()), w, old(stream.State())).fields
      ensures log == old(log) + DataRule(config, old(State()), w, old(stream.State())).events
      ensures stop == DataRule(config, old(State()), w, old(stream.State())).stop
    {
      stop := false;
      if mailFrom.None? {
        Reply(503);
      } else if rcpts == [] {
        Reply(554);
      } else if !w.headroom {
        Reply(452);
      } else {
        stop := Receive(w, stream);
      }
    }

    /** The exchange from 354 on. */
    method Receive(w: World, stream: ByteStream) returns (stop: bool)
      requires stream.Valid() && ReadsData(State(), Data, w)
      modifies this, stream
      ensures stream.Valid()
      ensures stream.State() == DataFrom(old(stream.State()), [], false, config.maxMessageSize).1
      ensures State() == DataRule(config, old(State()), w, old(stream.State())).fields
      ensures log == old(log) + DataRule(config, old(State()), w, old(stream.State())).events
      ensures stop == DataRule(config, old(State()), w, old(stream.State())).stop
    {
      ghost var before, f, conn := log, State(), stream.State();
      Reply(354);
      var outcome := ReadData(stream, config.maxMessageSize);
      stop := Conclude(outcome, w);
      ghost var end := Concluded(f, w, outcome);
      DataRuleReads(config, f, w, conn, outcome, DataRule(config, f, w, conn), end);
      Reassociate(before, [Event.Reply(354)], end.events);
    }

    method HandleStartTls(w: World, stream: ByteStream) returns (stop: bool, next: ByteStream)
      requires stream.Valid() && ValidWorld(w)
      modifies this
      ensures next == stream || fresh(next)
      ensures next.State() == NextConn(config, old(State()), StartTls, w, old(stream.State()))
      ensures State() == TlsRule(config, old(State()), w, old(stream.State())).fields
      ensures log == old(log) + TlsRule(config, old(State()), w, old(stream.State())).events
      ensures stop == TlsRule(config, old(State()), w, old(stream.State())).stop
    {
      stop, next := false, stream;
      if tlsActive {
        Reply(503);
      } else if config.hasTls {
        Reply(220);
        if variant.Tls? {
          next := new ByteStream(stream.socket);
          return;
        }
        match w.accept(stream.socket)
        case Some(decrypted) =>
          next := new ByteStream(decrypted);
          variant := Tls;
          tlsActive := true;
          helo := None;
          ResetTx();
        case None =>
          next := new ByteStream(stream.socket);
          stop := true;
      } else {
        Reply(502);
      }
    }

    method Handle(c: Command, w: World, stream: ByteStream) returns (stop: bool, next: ByteStream)
      requires stream.Valid() && ValidWorld(w)
      modifies this, stream
      ensures next == stream || fresh(next)
      ensures next.Valid()
      ensures next.State() == NextConn(config, old(State()), c, w, old(stream.State()))
      ensures var r := React(config, old(State()), TurnOf(config, old(State()), c, w, old(stream.State())));
              State() == r.fields && log == old(log) + r.events && stop == r.stop
    {
      stop, next := false, stream;
      match c
      case Quit =>
        Reply(221);
        stop := true;
      case Ehlo(domain) =>
        helo := Some(domain);
        ResetTx();
        Reply(250);
      case Helo(domain) =>
        helo := Some(domain);
        ResetTx();
        Reply(250);
      case MailFrom(sender) =>
        if helo.None? {
          Reply(503);
        } else if mailFrom.Some? {
          Reply(503);
        } else {
          mailFrom := Some(sender);
          rcpts := [];
          Reply(250);
        }
      case RcptTo(recipient) => HandleRcpt(recipient, w);
      case Data => stop := HandleData(w, stream);
      case Rset =>
        ResetTx();
        Reply(250);
      case Noop => Reply(250);
      case StartTls => stop, next := HandleStartTls(w, stream);
      case Vrfy => Reply(252);
      case Help => Reply(214);
      case Unknown => Reply(500);
    }

    /** Reads one line and handles it. */
    method Serve(input: ByteStream, parse: Parser, w: World) returns (stop: bool, next: ByteStream)
      requires input.Valid() && ValidWorld(w)
      modifies this, input
      ensures next == input || fresh(next)
      ensures next.Valid()
      ensures var it := Iterate(config, parse, old(State()), old(input.State()), w);
              State() == it.fields && log == old(log) + it.events && stop == it.stop && next.State() == it.conn
    {
      var status, line := ReadLine(input, COMMAND_LINE_MAX);
      stop, next := true, input;
      if status == TooLong {
        Reply(500);
      } else if status == Line {
        stop, next := Handle(parse(StripEol(line)), w, input);
      }
    }

    /** Serves the command answered by `worlds[i]`, paying its share of what is owed. */
    method ServeNext(input: ByteStream, parse: Parser, worlds: seq<World>, i: nat)
      returns (stop: bool, next: ByteStream)
      requires input.Valid() && ValidWorlds(worlds) && i < |worlds|
      modifies this, input
      ensures next == input || fresh(next)
      ensures next.Valid()
      ensures log + (if stop then [] else Remaining(config, parse, State(), next.State(), worlds, i + 1))
           == old(log) + Remaining(config, parse, old(State()), old(input.State()), worlds, i)
    {
      ghost var it := Iterate(config, parse, State(), input.State(), worlds[i]);
      ghost var before := log;
      stop, next := Serve(input, parse, worlds[i]);
      Reassociate(before, it.events,
                  if stop then [] else Remaining(config, parse, it.fields, it.conn, worlds, i + 1));
    }

    /** Serves commands until the session stops or the connection dies. */
    method ServeAll(stream: ByteStream, parse: Parser, worlds: seq<World>)
      requires stream.Valid() && ValidWorlds(worlds)
      modifies this, stream
      ensures log == old(log) + Remaining(config, parse, old(State()), old(stream.State()), worlds, 0)
    {
      ghost var target := log + Remaining(config, parse, State(), stream.State(), worlds, 0);
      var input, i, stop := stream, 0, false;
      while i < |worlds| && !stop
        invariant i <= |worlds|
        invariant input == stream || fresh(input)
        invariant input.Valid()
        invariant target == log + if stop then [] else Remaining(config, parse, State(), input.State(), worlds, i)
      {
        stop, input := ServeNext(input, parse, worlds, i);
        i := i + 1;
      }
    }

    /** A session over a connection emits the greeting and what the transcript calls for. */
    method Run(stream: ByteStream, parse: Parser, worlds: seq<World>)
      requires stream.Valid() && ValidWorlds(worlds)
      modifies this, stream
      ensures log == old(log) + [Event.Reply(220)]
                     + Output(config, parse, old(State()), old(stream.State()), worlds)
    {
      assert worlds[0..] == worlds;
      RemainingIsOutput(config, parse, State(), stream.State(), worlds, 0);
      Reply(220);
      ServeAll(stream, parse, worlds);
    }
  }
}
