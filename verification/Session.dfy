/** The SMTP session: command by command, over the bytes of a connection. */
module Session {
  import opened Bytes
  import opened DataWire
  import opened SmtpReader
  import opened Recipients

  const COMMAND_LINE_MAX: nat := 4096

  /** Capacity of the reader's buffer, and so the most that one refill yields. */
  const BUFFER_CAPACITY: nat := 8192

  datatype Command =
    | Helo(domain: string) | Ehlo(domain: string)
    | MailFrom(sender: string) | RcptTo(recipient: string)
    | Data | Rset | Noop | Quit | StartTls | Vrfy | Help | Unknown

  datatype Config = Config(policy: Policy, maxRecipients: nat, maxMessageSize: nat, hasTls: bool)

  /** The variant of the stream the session reads from. */
  datatype Variant = Plain | Tls

  datatype Fields = Fields(
    helo: Option<string>, mailFrom: Option<string>, rcpts: seq<string>, tlsActive: bool, variant: Variant)

  const FRESH := Fields(None, None, [], false, Plain)

  /**
   * A TLS handshake over a raw socket: it fails, or yields the socket of decrypted bytes.
   * It may do anything with what the raw socket holds.
   */
  type Acceptor = seq<Bytes> -> Option<seq<Bytes>>

  /** What the world answers during one command. */
  datatype World = World(
    store: StoreView,      // recipient lookups
    headroom: bool,        // disk watermark
    saves: nat,            // how many copies are saved before a save fails
    accept: Acceptor)      // TLS handshake

  /** Replies by their code, mailboxes created and copies saved. */
  datatype Event =
    | Reply(code: nat)
    | Created(address: string, mailbox: Mailbox)
    | Saved(rcpt: string, sender: string, data: Bytes)

  /** One command, with all that bore on it. */
  datatype Turn = Turn(
    command: Command,
    world: World,
    outcome: DataOutcome,    // how its message was read, if it reads one
    handshakeOk: bool)       // how its TLS handshake went, if it makes one

  datatype Reaction = Reaction(fields: Fields, events: seq<Event>, stop: bool)

  function ResetTx(f: Fields): Fields {
    f.(mailFrom := None, rcpts := [])
  }

  predicate IsSpace(c: char) {
    c == ' ' || '\t' <= c <= '\r'
  }

  function Trim(s: string): string {
    if s == [] then []
    else if IsSpace(s[0]) then Trim(s[1..])
    else if IsSpace(s[|s| - 1]) then Trim(s[..|s| - 1])
    else s
  }

  /** What `Trim` takes off either end. */
  const WHITESPACE: set<char> := {' ', '\t', '\n', '\U{000B}', '\U{000C}', '\r'}

  lemma SpaceExactly(c: char)
    ensures IsSpace(c) <==> c in WHITESPACE
  {
  }

  /** `s[i..j]` is `s` without the whitespace at both ends. */
  predicate IsTrimmed(s: string, i: nat, j: nat) {
    && i <= j <= |s|
    && (forall k :: 0 <= k < i ==> s[k] in WHITESPACE) && (forall k :: j <= k < |s| ==> s[k] in WHITESPACE)
    && (i < j ==> s[i] !in WHITESPACE && s[j - 1] !in WHITESPACE)
  }

  /** Trimming takes the whitespace at both ends, all of it and nothing else. */
  lemma {:induction false} TrimExactly(s: string) returns (i: nat, j: nat)
    ensures IsTrimmed(s, i, j) && Trim(s) == s[i..j]
    decreases |s|
  {
    i, j := 0, |s|;
    if s != [] {
      SpaceExactly(s[0]);
      SpaceExactly(s[|s| - 1]);
      if IsSpace(s[0]) {
        i, j := TrimExactly(s[1..]);
        assert forall k :: 0 < k < |s| ==> s[k] == s[1..][k - 1];
        i, j := i + 1, j + 1;
      } else if IsSpace(s[|s| - 1]) {
        i, j := TrimExactly(s[..|s| - 1]);
      }
    }
  }

  /** The verdict on a recipient as given in `RCPT TO`. */
  function Check(config: Config, recipient: string, w: World): (r: Validation)
    ensures r.created.Some? ==> r.check.Accept? && r.check.delivery in r.created.value
  {
    Validate(config.policy, ToLower(Trim(recipient)), w.store)
  }

  /** The event of a mailbox created on the way to a verdict. */
  function Creation(v: Validation): seq<Event>
    requires v.created.Some? ==> v.check.Accept? && v.check.delivery in v.created.value
  {
    if v.created.Some? then [Created(v.check.delivery, v.created.value[v.check.delivery])] else []
  }

  function RcptReaction(config: Config, f: Fields, recipient: string, w: World): Reaction {
    if f.mailFrom.None? then Reaction(f, [Reply(503)], false)
    else if |f.rcpts| >= config.maxRecipients then Reaction(f, [Reply(452)], false)
    else
      var v := Check(config, recipient, w);
      match v.check
      case Accept(d) =>
        Reaction(if d in f.rcpts then f else f.(rcpts := f.rcpts + [d]), Creation(v) + [Reply(250)], false)
      case NotOurDomain => Reaction(f, [Reply(550)], false)
      case NoMailbox => Reaction(f, [Reply(550)], false)
      case Error => Reaction(f, [Reply(451)], false)
  }

  /** The copies saved for the first `n` recipients. */
  function Copies(rcpts: seq<string>, n: nat, sender: string, data: Bytes): seq<Event>
    requires n <= |rcpts|
  {
    seq(n, i requires 0 <= i < n => Saved(rcpts[i], sender, data))
  }

  function SaveCount(f: Fields, w: World): nat {
    if w.saves < |f.rcpts| then w.saves else |f.rcpts|
  }

  function Sender(f: Fields): string {
    if f.mailFrom.Some? then f.mailFrom.value else ""
  }

  /** `DATA` is answered with 354 and the message is read. */
  predicate ReadsData(f: Fields, c: Command, w: World) {
    c.Data? && f.mailFrom.Some? && f.rcpts != [] && w.headroom
  }

  /** What follows the 354, once the message has been read. */
  function Concluded(f: Fields, w: World, outcome: DataOutcome): Reaction {
    match outcome
    case Complete(data) =>
      var n := SaveCount(f, w);
      Reaction(ResetTx(f),
               Copies(f.rcpts, n, Sender(f), data) + [Reply(if n == |f.rcpts| then 250 else 451)], false)
    case TooLarge => Reaction(ResetTx(f), [Reply(552)], false)
    case ConnectionClosed => Reaction(f, [], true)
  }

  function DataReaction(f: Fields, w: World, outcome: DataOutcome): Reaction {
    if f.mailFrom.None? then Reaction(f, [Reply(503)], false)
    else if f.rcpts == [] then Reaction(f, [Reply(554)], false)
    else if !w.headroom then Reaction(f, [Reply(452)], false)
    else
      var r := Concluded(f, w, outcome);
      r.(events := [Reply(354)] + r.events)
  }

  /** `STARTTLS` goes as far as a handshake. */
  predicate TriesTls(config: Config, f: Fields, c: Command) {
    c.StartTls? && !f.tlsActive && config.hasTls && f.variant.Plain?
  }

  /** The session swaps its stream for a TLS one. */
  predicate SwapsStream(config: Config, f: Fields, t: Turn) {
    TriesTls(config, f, t.command) && t.handshakeOk
  }

  function TlsReaction(config: Config, f: Fields, handshakeOk: bool): Reaction {
    if f.tlsActive then Reaction(f, [Reply(503)], false)
    else if !config.hasTls then Reaction(f, [Reply(502)], false)
    else if f.variant.Tls? then Reaction(f, [Reply(220)], false)
    else if handshakeOk then
      Reaction(ResetTx(f.(variant := Tls, tlsActive := true, helo := None)), [Reply(220)], false)
    else Reaction(f, [Reply(220)], true)
  }

  /** What one command does. */
  function React(config: Config, f: Fields, t: Turn): Reaction {
    match t.command
    case Quit => Reaction(f, [Reply(221)], true)
    case Ehlo(domain) => Reaction(ResetTx(f.(helo := Some(domain))), [Reply(250)], false)
    case Helo(domain) => Reaction(ResetTx(f.(helo := Some(domain))), [Reply(250)], false)
    case MailFrom(sender) =>
      if f.helo.None? || f.mailFrom.Some? then Reaction(f, [Reply(503)], false)
      else Reaction(f.(mailFrom := Some(sender), rcpts := []), [Reply(250)], false)
    case RcptTo(recipient) => RcptReaction(config, f, recipient, t.world)
    case Data => DataReaction(f, t.world, t.outcome)
    case Rset => Reaction(ResetTx(f), [Reply(250)], false)
    case Noop => Reaction(f, [Reply(250)], false)
    case StartTls => TlsReaction(config, f, t.handshakeOk)
    case Vrfy => Reaction(f, [Reply(252)], false)
    case Help => Reaction(f, [Reply(214)], false)
    case Unknown => Reaction(f, [Reply(500)], false)
  }

  // ----- A whole connection ---------------------------------------------------------

  /** Commands are any function of the stripped line. */
  type Parser = Bytes -> Command

  /** A handshake yields a proper socket, read through a fresh buffer of the usual capacity. */
  ghost predicate ValidWorld(w: World) {
    forall socket :: w.accept(socket).Some? ==>
      Nonempty(w.accept(socket).value) && Within(w.accept(socket).value, BUFFER_CAPACITY)
  }

  ghost predicate ValidWorlds(worlds: seq<World>) {
    forall i :: 0 <= i < |worlds| ==> ValidWorld(worlds[i])
  }

  /** How the message of a command is read, when it has one. */
  function DataOf(config: Config, f: Fields, c: Command, w: World, conn: Conn): (r: (DataOutcome, Conn))
    requires Live(conn)
    ensures Live(r.1)
  {
    if ReadsData(f, c, w) then DataFrom(conn, [], false, config.maxMessageSize) else (ConnectionClosed, conn)
  }

  /** How the handshake of a command goes, when it makes one: on the raw socket, without the buffer. */
  function TlsOf(config: Config, f: Fields, c: Command, w: World, conn: Conn): Option<seq<Bytes>> {
    if TriesTls(config, f, c) then w.accept(conn.socket) else None
  }

  /** The turn that a command makes, read from a connection with `conn` left. */
  function TurnOf(config: Config, f: Fields, c: Command, w: World, conn: Conn): Turn
    requires Live(conn)
  {
    Turn(c, w, DataOf(config, f, c, w, conn).0, TlsOf(config, f, c, w, conn).Some?)
  }

  /** What the next command is read from. Unwrapping the stream for TLS drops the buffer. */
  function NextConn(config: Config, f: Fields, c: Command, w: World, conn: Conn): (r: Conn)
    requires Live(conn) && ValidWorld(w)
    ensures Live(r)
  {
    var tls := TlsOf(config, f, c, w, conn);
    if tls.Some? then Conn([], tls.value)
    else if c.StartTls? && !f.tlsActive && config.hasTls then Conn([], conn.socket)
    else DataOf(config, f, c, w, conn).1
  }

  /** The commands of a connection, and whether it ended on an over-long command line. */
  datatype Transcript = Transcript(turns: seq<Turn>, lineTooLong: bool)

  ghost function Prepend(t: Turn, rest: Transcript): Transcript {
    rest.(turns := [t] + rest.turns)
  }

  /**
   * The commands read from a connection. It dies (time-out, reset) when the worlds run
   * out, so every prefix of a session is covered too.
   */
  ghost function Transcribe(config: Config, parse: Parser, f: Fields, conn: Conn, worlds: seq<World>): Transcript
    requires Live(conn) && ValidWorlds(worlds)
    decreases |worlds|
  {
    if worlds == [] then Transcript([], false)
    else
      var r := LineFrom(conn, [], COMMAND_LINE_MAX);
      match r.status
      case Eof => Transcript([], false)
      case TooLong => Transcript([], true)
      case Line =>
        var c := parse(StripEol(r.line));
        var turn := TurnOf(config, f, c, worlds[0], r.conn);
        var reaction := React(config, f, turn);
        Prepend(turn,
                if reaction.stop then Transcript([], false)
                else Transcribe(config, parse, reaction.fields,
                                NextConn(config, f, c, worlds[0], r.conn), worlds[1..]))
  }

  /** One command of the transcript. */
  lemma {:induction false} TranscribeStep(
    config: Config, parse: Parser, f: Fields, conn: Conn, worlds: seq<World>,
    r: LineRead, c: Command, turn: Turn, reaction: Reaction, rest: Transcript)
    requires Live(conn) && ValidWorlds(worlds) && worlds != []
    requires r == LineFrom(conn, [], COMMAND_LINE_MAX) && r.status.Line? && c == parse(StripEol(r.line))
    requires turn == TurnOf(config, f, c, worlds[0], r.conn) && reaction == React(config, f, turn)
    requires rest == if reaction.stop then Transcript([], false)
                     else Transcribe(config, parse, reaction.fields,
                                     NextConn(config, f, c, worlds[0], r.conn), worlds[1..])
    ensures Transcribe(config, parse, f, conn, worlds) == Prepend(turn, rest)
  {
  }

  // ----- The same, read off the bytes alone --------------------------------------------

  /** What the bytes after a command line call for. */
  function Due(config: Config, f: Fields, c: Command, w: World, left: Bytes): DataResult {
    if ReadsData(f, c, w) then Expected(left, config.maxMessageSize) else DataResult(ConnectionClosed, left)
  }

  /** The handshake of a command when all that is left of the plaintext was in the buffer. */
  function TlsDue(config: Config, f: Fields, c: Command, w: World): Option<seq<Bytes>> {
    if TriesTls(config, f, c) then w.accept([]) else None
  }

  function TurnDue(config: Config, f: Fields, c: Command, w: World, left: Bytes): Turn {
    Turn(c, w, Due(config, f, c, w, left).outcome, TlsDue(config, f, c, w).Some?)
  }

  /** The bytes the next command is due from. */
  function LeftDue(config: Config, f: Fields, c: Command, w: World, left: Bytes): Bytes {
    var tls := TlsDue(config, f, c, w);
    if tls.Some? then Concat(tls.value) else Due(config, f, c, w, left).unread
  }

  ghost function TranscribeBytes(config: Config, parse: Parser, f: Fields, s: Bytes, worlds: seq<World>): Transcript
    decreases |worlds|
  {
    if worlds == [] || s == [] then Transcript([], false)
    else if LineLength(s) > COMMAND_LINE_MAX then Transcript([], true)
    else
      var n := LineLength(s);
      var c, w := parse(StripEol(s[..n])), worlds[0];
      var turn := TurnDue(config, f, c, w, s[n..]);
      var reaction := React(config, f, turn);
      Prepend(turn,
              if reaction.stop then Transcript([], false)
              else TranscribeBytes(config, parse, reaction.fields, LeftDue(config, f, c, w, s[n..]), worlds[1..]))
  }

  lemma {:induction false} TranscribeBytesStep(
    config: Config, parse: Parser, f: Fields, s: Bytes, worlds: seq<World>,
    n: nat, c: Command, turn: Turn, reaction: Reaction, rest: Transcript)
    requires worlds != [] && s != [] && n == LineLength(s) && n <= COMMAND_LINE_MAX
    requires c == parse(StripEol(s[..n]))
    requires turn == TurnDue(config, f, c, worlds[0], s[n..]) && reaction == React(config, f, turn)
    requires rest == if reaction.stop then Transcript([], false)
                     else TranscribeBytes(config, parse, reaction.fields,
                                          LeftDue(config, f, c, worlds[0], s[n..]), worlds[1..])
    ensures TranscribeBytes(config, parse, f, s, worlds) == Prepend(turn, rest)
  {
  }

  /** The handshake does not depend on how much of the pending plaintext was already buffered. */
  ghost predicate Settled(w: World, left: Bytes) {
    forall socket :: Nonempty(socket) && IsSuffix(Concat(socket), left) ==> w.accept(socket) == w.accept([])
  }

  /** No DATA section the session reads has a false end, and no handshake is unsettled. */
  ghost predicate InSync(config: Config, parse: Parser, f: Fields, s: Bytes, worlds: seq<World>)
    decreases |worlds|
  {
    if worlds == [] || s == [] || LineLength(s) > COMMAND_LINE_MAX then true
    else
      var n := LineLength(s);
      var c, w := parse(StripEol(s[..n])), worlds[0];
      var reaction := React(config, f, TurnDue(config, f, c, w, s[n..]));
      && (ReadsData(f, c, w) ==> !FalseEnd(s[n..], config.maxMessageSize, BUFFER_CAPACITY))
      && (TriesTls(config, f, c) ==> Settled(w, s[n..]))
      && (!reaction.stop ==>
            InSync(config, parse, reaction.fields, LeftDue(config, f, c, w, s[n..]), worlds[1..]))
  }

  lemma {:induction false} InSyncStep(
    config: Config, parse: Parser, f: Fields, s: Bytes, worlds: seq<World>,
    n: nat, c: Command, reaction: Reaction)
    requires worlds != [] && s != [] && n == LineLength(s) && n <= COMMAND_LINE_MAX
    requires c == parse(StripEol(s[..n]))
    requires reaction == React(config, f, TurnDue(config, f, c, worlds[0], s[n..]))
    requires InSync(config, parse, f, s, worlds)
    ensures ReadsData(f, c, worlds[0]) ==> !FalseEnd(s[n..], config.maxMessageSize, BUFFER_CAPACITY)
    ensures TriesTls(config, f, c) ==> Settled(worlds[0], s[n..])
    ensures !reaction.stop ==>
              InSync(config, parse, reaction.fields, LeftDue(config, f, c, worlds[0], s[n..]), worlds[1..])
  {
  }
}
