/**
 * Whole sessions over a connection: where each command is read from, what STARTTLS cuts
 * off, and what the copies and mailboxes in a session's log can be traced to.
 */
module SessionDelivery {
  import opened Bytes
  import opened DataWire
  import opened SmtpReader
  import opened DataFraming
  import opened Recipients
  import opened Session
  import opened SessionRun
  import opened SessionSafety

  /** One command of a session, with the fields and the connection it started from. */
  datatype Visit = Visit(fields: Fields, conn: Conn, turn: Turn)

  /** What reading the command line of a visit leaves. */
  function Rest(v: Visit): (r: Conn)
    requires Live(v.conn)
    ensures Live(r)
  {
    LineFrom(v.conn, [], COMMAND_LINE_MAX).conn
  }

  /** The command was read from the connection of the visit. */
  ghost predicate Served(config: Config, parse: Parser, v: Visit) {
    && Live(v.conn) && ValidWorld(v.turn.world)
    && var r := LineFrom(v.conn, [], COMMAND_LINE_MAX);
       r.status.Line? && v.turn == TurnOf(config, v.fields, parse(StripEol(r.line)), v.turn.world, r.conn)
  }

  /** One visit leads to the next. */
  ghost predicate Follows(config: Config, v: Visit, next: Visit)
    requires Live(v.conn) && ValidWorld(v.turn.world)
  {
    && !React(config, v.fields, v.turn).stop
    && next.fields == React(config, v.fields, v.turn).fields
    && next.conn == NextConn(config, v.fields, v.turn.command, v.turn.world, Rest(v))
  }

  /** Visit `k` was served and, if it is not the last, leads to the next. */
  ghost predicate ServedAt(config: Config, parse: Parser, visits: seq<Visit>, k: nat)
    requires k < |visits|
  {
    && Served(config, parse, visits[k])
    && (k + 1 < |visits| ==> Follows(config, visits[k], visits[k + 1]))
  }

  /** The visits of a session that starts with `f` on record. */
  ghost predicate IsSession(config: Config, parse: Parser, f: Fields, conn: Conn, visits: seq<Visit>) {
    && (visits != [] ==> visits[0].fields == f && visits[0].conn == conn)
    && forall k: nat :: k < |visits| ==> ServedAt(config, parse, visits, k)
  }

  ghost function Visits(config: Config, parse: Parser, f: Fields, conn: Conn, worlds: seq<World>): (r: seq<Visit>)
    requires Live(conn) && ValidWorlds(worlds)
    ensures |r| <= |worlds|
    decreases |worlds|
  {
    var r := LineFrom(conn, [], COMMAND_LINE_MAX);
    if worlds == [] || !r.status.Line? then []
    else
      var c := parse(StripEol(r.line));
      var turn := TurnOf(config, f, c, worlds[0], r.conn);
      var reaction := React(config, f, turn);
      [Visit(f, conn, turn)]
      + if reaction.stop then []
        else Visits(config, parse, reaction.fields, NextConn(config, f, c, worlds[0], r.conn), worlds[1..])
  }

  lemma {:induction false} VisitsStep(
    config: Config, parse: Parser, f: Fields, conn: Conn, worlds: seq<World>, it: Iteration, later: seq<Visit>)
    returns (v: Visit)
    requires Live(conn) && ValidWorlds(worlds) && worlds != []
    requires it == Iterate(config, parse, f, conn, worlds[0])
    requires LineFrom(conn, [], COMMAND_LINE_MAX).status.Line?
    requires later == if it.stop then [] else Visits(config, parse, it.fields, it.conn, worlds[1..])
    ensures Visits(config, parse, f, conn, worlds) == [v] + later
    ensures Served(config, parse, v) && v.fields == f && v.conn == conn
    ensures v.turn.world == worlds[0] && React(config, v.fields, v.turn) == Reaction(it.fields, it.events, it.stop)
    ensures it.conn == NextConn(config, f, v.turn.command, v.turn.world, Rest(v))
  {
    var r := LineFrom(conn, [], COMMAND_LINE_MAX);
    v := Visit(f, conn, TurnOf(config, f, parse(StripEol(r.line)), worlds[0], r.conn));
  }

  lemma {:induction false} SessionExtends(
    config: Config, parse: Parser, v: Visit, f: Fields, conn: Conn, later: seq<Visit>)
    requires Served(config, parse, v) && IsSession(config, parse, f, conn, later)
    requires later != [] ==> Follows(config, v, later[0])
    ensures IsSession(config, parse, v.fields, v.conn, [v] + later)
  {
    var visits := [v] + later;
    forall k: nat | k < |visits| ensures ServedAt(config, parse, visits, k) {
      if k > 0 {
        ServedAtLater(config, parse, v, later, k - 1);
      }
    }
  }

  lemma {:induction false} ServedAtLater(config: Config, parse: Parser, v: Visit, later: seq<Visit>, k: nat)
    requires k < |later| && ServedAt(config, parse, later, k)
    ensures ServedAt(config, parse, [v] + later, k + 1)
  {
    var visits := [v] + later;
    assert visits[k + 1] == later[k] && (k + 1 < |later| ==> visits[k + 2] == later[k + 1]);
  }

  lemma {:induction false} VisitsAreSession(
    config: Config, parse: Parser, f: Fields, conn: Conn, worlds: seq<World>)
    requires Live(conn) && ValidWorlds(worlds)
    ensures IsSession(config, parse, f, conn, Visits(config, parse, f, conn, worlds))
    decreases |worlds|
  {
    if worlds != [] && LineFrom(conn, [], COMMAND_LINE_MAX).status.Line? {
      var it := Iterate(config, parse, f, conn, worlds[0]);
      var later := if it.stop then [] else Visits(config, parse, it.fields, it.conn, worlds[1..]);
      if !it.stop {
        VisitsAreSession(config, parse, it.fields, it.conn, worlds[1..]);
      }
      var v := VisitsStep(config, parse, f, conn, worlds, it, later);
      SessionExtends(config, parse, v, it.fields, it.conn, later);
    }
  }

  predicate Emits(config: Config, v: Visit, e: Event) {
    e in React(config, v.fields, v.turn).events
  }

  /** Every event but the closing reply of a session comes from one of its visits. */
  lemma {:induction false} EventFrom(
    config: Config, parse: Parser, f: Fields, conn: Conn, worlds: seq<World>, e: Event, visits: seq<Visit>)
    returns (k: nat)
    requires Live(conn) && ValidWorlds(worlds) && !e.Reply?
    requires e in Output(config, parse, f, conn, worlds) && visits == Visits(config, parse, f, conn, worlds)
    ensures k < |visits| && Emits(config, visits[k], e)
    decreases |worlds|
  {
    var it := EventSplits(config, parse, f, conn, worlds, e);
    var later := if it.stop then [] else Visits(config, parse, it.fields, it.conn, worlds[1..]);
    var v := VisitsStep(config, parse, f, conn, worlds, it, later);
    if e in it.events {
      k := 0;
      assert Emits(config, v, e);
    } else {
      var i := EventFrom(config, parse, it.fields, it.conn, worlds[1..], e, later);
      k := i + 1;
      assert visits[k] == later[i];
    }
  }

  /** An event of a session comes from its first iteration or from the rest. */
  lemma {:induction false} EventSplits(
    config: Config, parse: Parser, f: Fields, conn: Conn, worlds: seq<World>, e: Event)
    returns (it: Iteration)
    requires Live(conn) && ValidWorlds(worlds) && !e.Reply?
    requires e in Output(config, parse, f, conn, worlds)
    ensures worlds != [] && it == Iterate(config, parse, f, conn, worlds[0])
    ensures LineFrom(conn, [], COMMAND_LINE_MAX).status.Line?
    ensures e in it.events || (!it.stop && e in Output(config, parse, it.fields, it.conn, worlds[1..]))
  {
    assert worlds != [];
    it := Iterate(config, parse, f, conn, worlds[0]);
    OutputIterates(config, parse, f, conn, worlds, it);
  }

  // ----- Bytes behind the commands -----------------------------------------------------

  /** The command is the first line of what was left to read, and the rest follows it. */
  ghost predicate Heard(parse: Parser, v: Visit) {
    var s := Stream(v.conn);
    && Live(v.conn) && s != []
    && v.turn.command == parse(StripEol(s[..LineLength(s)]))
    && Stream(Rest(v)) == s[LineLength(s)..]
  }

  lemma {:induction false} ServedIsHeard(config: Config, parse: Parser, v: Visit)
    requires Served(config, parse, v)
    ensures Heard(parse, v)
  {
    var r := ReadOne(v.conn, Stream(v.conn), COMMAND_LINE_MAX);
  }

  /** Unless it swaps the stream, a turn reads on in what its line left. */
  lemma {:induction false} TurnReadsOn(config: Config, parse: Parser, v: Visit, next: Visit)
    requires Served(config, parse, v) && Follows(config, v, next)
    requires !SwapsStream(config, v.fields, v.turn)
    ensures IsSuffix(Stream(next.conn), Stream(v.conn))
  {
    var f, c, w, rest := v.fields, v.turn.command, v.turn.world, Rest(v);
    ServedIsHeard(config, parse, v);
    assert IsSuffix(Stream(rest), Stream(v.conn));
    if c.StartTls? && !f.tlsActive && config.hasTls {
      assert [] + Concat(rest.socket) == Concat(rest.socket);
      SocketIsSuffix(rest);
    } else if ReadsData(f, c, w) {
      DataFromSuffix(rest, [], false, config.maxMessageSize);
    }
    SuffixTransitive(Stream(next.conn), Stream(rest), Stream(v.conn));
  }

  // ----- STARTTLS -----------------------------------------------------------------------

  predicate SwapsAt(config: Config, visits: seq<Visit>, i: nat)
    requires i < |visits|
  {
    SwapsStream(config, visits[i].fields, visits[i].turn)
  }

  /** What the handshake of visit `i` made of the raw socket, the buffer being gone. */
  function Decrypted(visits: seq<Visit>, i: nat): Option<seq<Bytes>>
    requires i < |visits| && Live(visits[i].conn)
  {
    visits[i].turn.world.accept(Rest(visits[i]).socket)
  }

  /** One turn either swaps streams, or keeps its variant and reads on. */
  lemma {:induction false} VariantAfterTurn(config: Config, parse: Parser, v: Visit, next: Visit)
    requires Served(config, parse, v) && Follows(config, v, next)
    ensures SwapsStream(config, v.fields, v.turn) ==>
              && v.fields.variant.Plain? && next.fields == AFTER_TLS
              && v.turn.world.accept(Rest(v).socket).Some?
              && next.conn == Conn([], v.turn.world.accept(Rest(v).socket).value)
    ensures !SwapsStream(config, v.fields, v.turn) ==> next.fields.variant == v.fields.variant
  {
    TurnVariant(config, v.fields, v.turn);
  }

  lemma {:induction false} TurnVariant(config: Config, f: Fields, t: Turn)
    ensures SwapsStream(config, f, t) ==> f.variant.Plain? && React(config, f, t).fields == AFTER_TLS
    ensures !SwapsStream(config, f, t) ==> React(config, f, t).fields.variant == f.variant
  {
  }

  /** The same, for one step of a session. */
  lemma {:induction false} VisitMoves(
    config: Config, parse: Parser, f: Fields, conn: Conn, visits: seq<Visit>, k: nat)
    requires IsSession(config, parse, f, conn, visits) && 0 < k < |visits|
    ensures Live(visits[k - 1].conn)
    ensures SwapsAt(config, visits, k - 1) ==>
              && visits[k - 1].fields.variant.Plain? && visits[k].fields.variant.Tls?
              && Decrypted(visits, k - 1).Some?
              && IsSuffix(Stream(visits[k].conn), Concat(Decrypted(visits, k - 1).value))
    ensures !SwapsAt(config, visits, k - 1) ==>
              && visits[k].fields.variant == visits[k - 1].fields.variant
              && IsSuffix(Stream(visits[k].conn), Stream(visits[k - 1].conn))
  {
    assert ServedAt(config, parse, visits, k - 1);
    VariantAfterTurn(config, parse, visits[k - 1], visits[k]);
    if SwapsAt(config, visits, k - 1) {
      var decrypted := Decrypted(visits, k - 1).value;
      assert [] + Concat(decrypted) == Concat(decrypted);
    } else {
      TurnReadsOn(config, parse, visits[k - 1], visits[k]);
    }
  }

  lemma {:induction false} VisitIsHeard(
    config: Config, parse: Parser, f: Fields, conn: Conn, visits: seq<Visit>, k: nat)
    requires IsSession(config, parse, f, conn, visits) && k < |visits|
    ensures Heard(parse, visits[k])
  {
    assert ServedAt(config, parse, visits, k);
    ServedIsHeard(config, parse, visits[k]);
  }

  lemma {:induction false} TlsStays(
    config: Config, parse: Parser, f: Fields, conn: Conn, visits: seq<Visit>, i: nat, j: nat)
    requires IsSession(config, parse, f, conn, visits) && i < j < |visits|
    requires SwapsAt(config, visits, i) || visits[i].fields.variant.Tls?
    ensures visits[j].fields.variant.Tls?
    decreases j
  {
    VisitMoves(config, parse, f, conn, visits, j);
    if i < j - 1 {
      TlsStays(config, parse, f, conn, visits, i, j - 1);
    }
  }

  /** A session swaps its stream at most once. */
  lemma {:induction false} AtMostOneSwap(
    config: Config, parse: Parser, f: Fields, conn: Conn, visits: seq<Visit>, i: nat, j: nat)
    requires IsSession(config, parse, f, conn, visits) && i < j < |visits|
    ensures !(SwapsAt(config, visits, i) && SwapsAt(config, visits, j))
  {
    if SwapsAt(config, visits, i) {
      TlsStays(config, parse, f, conn, visits, i, j);
    }
  }

  /**
   * Every command of a TLS stream is read from what the one handshake made of the raw
   * socket as the STARTTLS line left it: no byte of the plaintext buffer is in it.
   */
  lemma {:induction false} TlsReadsAcceptor(
    config: Config, parse: Parser, conn: Conn, visits: seq<Visit>, k: nat)
    returns (i: nat)
    requires IsSession(config, parse, FRESH, conn, visits) && k < |visits|
    requires visits[k].fields.variant.Tls?
    ensures i < k && SwapsAt(config, visits, i)
    ensures Live(visits[i].conn) && Decrypted(visits, i).Some?
    ensures IsSuffix(Stream(visits[k].conn), Concat(Decrypted(visits, i).value))
    ensures Heard(parse, visits[k])
  {
    VisitIsHeard(config, parse, FRESH, conn, visits, k);
    VisitMoves(config, parse, FRESH, conn, visits, k);
    if SwapsAt(config, visits, k - 1) {
      i := k - 1;
    } else {
      i := TlsReadsAcceptor(config, parse, conn, visits, k - 1);
      assert IsSuffix(Stream(visits[k].conn), Concat(Decrypted(visits, i).value)) by {
        SuffixTransitive(Stream(visits[k].conn), Stream(visits[k - 1].conn), Concat(Decrypted(visits, i).value));
      }
    }
  }

  /** Every command of a plaintext stream is read from the connection the session began with. */
  lemma {:induction false} PlainReadsConnection(
    config: Config, parse: Parser, conn: Conn, visits: seq<Visit>, k: nat)
    requires IsSession(config, parse, FRESH, conn, visits) && k < |visits|
    requires visits[k].fields.variant.Plain?
    ensures IsSuffix(Stream(visits[k].conn), Stream(conn))
    ensures Heard(parse, visits[k])
  {
    VisitIsHeard(config, parse, FRESH, conn, visits, k);
    if k > 0 {
      VisitMoves(config, parse, FRESH, conn, visits, k);
      PlainReadsConnection(config, parse, conn, visits, k - 1);
      SuffixTransitive(Stream(visits[k].conn), Stream(visits[k - 1].conn), Stream(conn));
    }
  }

  /** Visit `v`, answered by `w`, is followed by the session that it leads to, and by none if it stops. */
  ghost predicate LeadsOn(
    config: Config, parse: Parser, v: Visit, w: World, worlds: seq<World>, after: seq<Visit>)
  {
    && ValidWorlds(worlds) && Served(config, parse, v) && v.turn.world == w
    && var reaction := React(config, v.fields, v.turn);
       after == if reaction.stop then []
                else Visits(config, parse, reaction.fields,
                            NextConn(config, v.fields, v.turn.command, w, Rest(v)), worlds)
  }

  lemma {:induction false} VisitsAfter(
    config: Config, parse: Parser, f: Fields, conn: Conn, worlds: seq<World>, visits: seq<Visit>, k: nat)
    requires Live(conn) && ValidWorlds(worlds)
    requires visits == Visits(config, parse, f, conn, worlds) && k < |visits|
    ensures LeadsOn(config, parse, visits[k], worlds[k], worlds[k + 1..], visits[k + 1..])
    decreases |worlds|
  {
    var it := Iterate(config, parse, f, conn, worlds[0]);
    var later := if it.stop then [] else Visits(config, parse, it.fields, it.conn, worlds[1..]);
    var v := VisitsStep(config, parse, f, conn, worlds, it, later);
    if k > 0 {
      VisitsAfter(config, parse, it.fields, it.conn, worlds[1..], later, k - 1);
      assert visits[0] == v && visits[1..] == later;
      ShiftOne(v, later, visits, k);
      ShiftOne(worlds[0], worlds[1..], worlds, k);
    } else {
      assert visits[0] == v && visits[1..] == later;
    }
  }

  lemma ShiftOne<T>(head: T, tail: seq<T>, all: seq<T>, k: nat)
    requires all != [] && head == all[0] && tail == all[1..] && 0 < k <= |tail|
    ensures all[k] == tail[k - 1] && all[k + 1..] == tail[k..]
  {
  }

  /** The turn of a visit ends the session. */
  predicate Ends(config: Config, v: Visit) {
    || v.turn.command.Quit?
    || (ReadsData(v.fields, v.turn.command, v.turn.world) && v.turn.outcome.ConnectionClosed?)
    || (TriesTls(config, v.fields, v.turn.command) && !v.turn.handshakeOk)
  }

  /** Nothing can be served from these bytes: the stream is at its end, or its first line is too long. */
  predicate Unservable(s: Bytes) {
    s == [] || LineLength(s) > 4096
  }

  /**
   * As long as the connection lives, a visit is the last exactly when its turn ends the
   * session, on QUIT, on DATA broken off or on a failed handshake, or when what it leaves
   * to read is nothing or begins with an over-long line.
   */
  lemma {:induction false} SessionEndsExactly(
    config: Config, parse: Parser, f: Fields, conn: Conn, worlds: seq<World>, visits: seq<Visit>, k: nat, next: Conn)
    requires Live(conn) && ValidWorlds(worlds)
    requires visits == Visits(config, parse, f, conn, worlds) && k < |visits| && k + 1 < |worlds|
    requires Live(visits[k].conn)
    requires next == NextConn(config, visits[k].fields, visits[k].turn.command, worlds[k], Rest(visits[k]))
    ensures k + 1 == |visits| <==> Ends(config, visits[k]) || Unservable(Stream(next))
  {
    VisitsAfter(config, parse, f, conn, worlds, visits, k);
    TurnEndsExactly(config, visits[k].fields, visits[k].turn);
    if !Ends(config, visits[k]) {
      NoneServed(config, parse, React(config, visits[k].fields, visits[k].turn).fields, next, worlds[k + 1..]);
    }
  }

  /** A session has no visits exactly when nothing can be served; an over-long line is answered 500. */
  lemma {:induction false} NoneServed(config: Config, parse: Parser, f: Fields, conn: Conn, worlds: seq<World>)
    requires Live(conn) && ValidWorlds(worlds) && worlds != []
    ensures Visits(config, parse, f, conn, worlds) == [] <==> Unservable(Stream(conn))
    ensures Stream(conn) == [] ==> Output(config, parse, f, conn, worlds) == []
    ensures LineLength(Stream(conn)) > 4096 ==> Output(config, parse, f, conn, worlds) == [Reply(500)]
  {
    var r := ReadOne(conn, Stream(conn), COMMAND_LINE_MAX);
  }

  /** After a swap, the session starts over on what the handshake made of the raw socket. */
  lemma {:induction false} VisitsAfterSwap(
    config: Config, parse: Parser, f: Fields, conn: Conn, worlds: seq<World>, visits: seq<Visit>, i: nat,
    raw: seq<Bytes>)
    requires Live(conn) && ValidWorlds(worlds)
    requires visits == Visits(config, parse, f, conn, worlds) && i < |visits| && SwapsAt(config, visits, i)
    requires Live(visits[i].conn) && raw == Rest(visits[i]).socket
    ensures worlds[i].accept(raw).Some?
    ensures visits[i + 1..] == Visits(config, parse, AFTER_TLS, Conn([], worlds[i].accept(raw).value), worlds[i + 1..])
  {
    VisitsAfter(config, parse, f, conn, worlds, visits, i);
    SwapLeadsTo(config, parse, visits[i], worlds[i], raw);
  }

  lemma {:induction false} SwapLeadsTo(config: Config, parse: Parser, v: Visit, w: World, raw: seq<Bytes>)
    requires Served(config, parse, v) && SwapsStream(config, v.fields, v.turn)
    requires w == v.turn.world && raw == Rest(v).socket
    ensures w.accept(raw).Some? && !React(config, v.fields, v.turn).stop
    ensures React(config, v.fields, v.turn).fields == AFTER_TLS
    ensures NextConn(config, v.fields, v.turn.command, w, Rest(v)) == Conn([], w.accept(raw).value)
  {
    TurnVariant(config, v.fields, v.turn);
  }

  lemma SameTail<T>(a: seq<T>, i: nat, b: seq<T>, j: nat)
    requires i < |a| && j < |b| && a[i..] == b[j..]
    ensures a[i] == b[j] && a[i + 1..] == b[j + 1..]
  {
    assert a[i] == a[i..][0] && b[j] == b[j..][0];
    assert a[i + 1..] == a[i..][1..] && b[j + 1..] == b[j..][1..];
  }

  /**
   * Whatever two clients said in plaintext and whatever of it was still buffered behind
   * STARTTLS, from the same raw socket their sessions go on alike, command for command.
   */
  lemma {:induction false} TlsDiscardsBufferedPlaintext(
    config: Config, parse: Parser, conn: Conn, conn': Conn, worlds: seq<World>, worlds': seq<World>,
    visits: seq<Visit>, visits': seq<Visit>, i: nat, i': nat)
    requires Live(conn) && Live(conn') && ValidWorlds(worlds) && ValidWorlds(worlds')
    requires visits == Visits(config, parse, FRESH, conn, worlds)
    requires visits' == Visits(config, parse, FRESH, conn', worlds')
    requires i < |visits| && SwapsAt(config, visits, i) && i' < |visits'| && SwapsAt(config, visits', i')
    requires Live(visits[i].conn) && Live(visits'[i'].conn)
    requires Rest(visits[i]).socket == Rest(visits'[i']).socket && worlds[i..] == worlds'[i'..]
    ensures visits[i + 1..] == visits'[i' + 1..]
  {
    var raw := Rest(visits[i]).socket;
    VisitsAfterSwap(config, parse, FRESH, conn, worlds, visits, i, raw);
    VisitsAfterSwap(config, parse, FRESH, conn', worlds', visits', i', raw);
    SameTail(worlds, i, worlds', i');
  }

  // ----- Copies and mailboxes in the log -------------------------------------------------

  /** The accepted recipient's mailbox was active at the store call that decided. */
  predicate ActiveWhenAccepted(config: Config, t: Turn, rcpt: string)
    requires t.command.RcptTo?
  {
    var store := t.world.store;
    match Check(config, t.command.recipient, t.world).created
    case Some(after) => Active(after, rcpt, store.createAt) <==> config.policy.defaultTtl > 0
    case None => (store.atLookup.Some? && Active(store.atLookup.value, rcpt, store.lookupAt))
                 || (store.atRecheck.Some? && Active(store.atRecheck.value, rcpt, store.recheckAt))
  }

  lemma {:induction false} AcceptedIsActive(config: Config, f: Fields, t: Turn, rcpt: string)
    requires TakesRcpt(config, f, t, rcpt)
    ensures ActiveWhenAccepted(config, t, rcpt)
  {
    AcceptedIsDeliverable(config.policy, ToLower(Trim(t.command.recipient)), t.world.store, rcpt);
  }

  /**
   * The copy saved for `rcpt` at visit `k` is owed to these visits: a greeting `g`, the
   * sender accepted at `m`, the recipient accepted, on an active mailbox, at `q`, no stream
   * swap since `g` and no reset since `m`; and its data is the payload of the bytes that
   * followed the DATA line.
   */
  ghost predicate Authorises(
    config: Config, parse: Parser, visits: seq<Visit>, g: nat, m: nat, q: nat, k: nat,
    rcpt: string, sender: string, data: Bytes)
  {
    && g < m < q < k < |visits|
    && (forall i :: 0 <= i <= k ==> Heard(parse, visits[i]))
    && Greets(visits[g].turn)
    && TakesSender(visits[m].fields, visits[m].turn, sender)
    && TakesRcpt(config, visits[q].fields, visits[q].turn, rcpt)
    && ActiveWhenAccepted(config, visits[q].turn, rcpt)
    && (forall i :: g < i < k ==> !SwapsAt(config, visits, i))
    && (forall i :: m < i < k ==> !ResetsTx(config, visits[i].fields, visits[i].turn))
    && visits[k].turn.command.Data?
    && AfterEnd(Stream(Rest(visits[k]))).Some?
    && data == Payload(Stream(Rest(visits[k]))) && |data| <= config.maxMessageSize
  }

  ghost predicate Authorised(
    config: Config, parse: Parser, conn: Conn, worlds: seq<World>, rcpt: string, sender: string, data: Bytes)
    requires Live(conn) && ValidWorlds(worlds)
  {
    exists visits, g, m, q, k ::
      && IsSession(config, parse, FRESH, conn, visits)
      && visits == Visits(config, parse, FRESH, conn, worlds)
      && Authorises(config, parse, visits, g, m, q, k, rcpt, sender, data)
  }

  function Turns(visits: seq<Visit>): seq<Turn> {
    seq(|visits|, i requires 0 <= i < |visits| => visits[i].turn)
  }

  /** The fields of a visit are those the turns before it lead to. */
  lemma {:induction false} VisitStates(config: Config, parse: Parser, conn: Conn, visits: seq<Visit>, k: nat)
    requires IsSession(config, parse, FRESH, conn, visits) && k < |visits|
    ensures visits[k].fields == StateAt(config, Turns(visits), k)
  {
    if k > 0 {
      VisitStates(config, parse, conn, visits, k - 1);
      FieldsFollow(config, parse, FRESH, conn, visits, k);
    }
  }

  lemma {:induction false} FieldsFollow(
    config: Config, parse: Parser, f: Fields, conn: Conn, visits: seq<Visit>, k: nat)
    requires IsSession(config, parse, f, conn, visits) && 0 < k < |visits|
    ensures visits[k].fields == FieldsAfter(config, visits[k - 1].fields, visits[k - 1].turn)
  {
    assert ServedAt(config, parse, visits, k - 1);
  }

  /** A message read whole is the payload of the bytes after its DATA line. */
  lemma {:induction false} DataIsPayload(config: Config, parse: Parser, v: Visit, data: Bytes)
    requires Served(config, parse, v) && v.turn.command.Data? && v.turn.outcome == Complete(data)
    ensures AfterEnd(Stream(Rest(v))).Some?
    ensures data == Payload(Stream(Rest(v))) && |data| <= config.maxMessageSize
  {
    var rest := Rest(v);
    assert DataFrom(rest, [], false, config.maxMessageSize).0 == Complete(data);
    CompleteExactly(rest, Stream(rest), config.maxMessageSize);
  }

  /**
   * Every copy in the output of a session, over every connection and in every world, is
   * authorised by the session's own commands and holds the bytes sent after DATA.
   */
  lemma {:induction false} SavedIsAuthorised(
    config: Config, parse: Parser, conn: Conn, worlds: seq<World>, rcpt: string, sender: string, data: Bytes)
    requires Live(conn) && ValidWorlds(worlds)
    requires Saved(rcpt, sender, data) in Output(config, parse, FRESH, conn, worlds)
    ensures Authorised(config, parse, conn, worlds, rcpt, sender, data)
  {
    var visits := Visits(config, parse, FRESH, conn, worlds);
    VisitsAreSession(config, parse, FRESH, conn, worlds);
    var k := EventFrom(config, parse, FRESH, conn, worlds, Saved(rcpt, sender, data), visits);
    var g, m, q := VisitsAuthorise(config, parse, conn, visits, k, rcpt, sender, data);
  }

  lemma {:induction false} VisitsAuthorise(
    config: Config, parse: Parser, conn: Conn, visits: seq<Visit>, k: nat,
    rcpt: string, sender: string, data: Bytes)
    returns (g: nat, m: nat, q: nat)
    requires IsSession(config, parse, FRESH, conn, visits) && k < |visits|
    requires Saved(rcpt, sender, data) in React(config, visits[k].fields, visits[k].turn).events
    ensures Authorises(config, parse, visits, g, m, q, k, rcpt, sender, data)
  {
    g, m, q := VisitsTrace(config, parse, conn, visits, k, rcpt, sender, data);
    forall i | 0 <= i <= k ensures Heard(parse, visits[i]) {
      VisitIsHeard(config, parse, FRESH, conn, visits, i);
    }
    AcceptedIsActive(config, visits[q].fields, visits[q].turn, rcpt);
    assert ServedAt(config, parse, visits, k);
    DataIsPayload(config, parse, visits[k], data);
  }

  /** `CopyIsAuthorised`, carried over from the turns to the visits. */
  lemma {:induction false} VisitsTrace(
    config: Config, parse: Parser, conn: Conn, visits: seq<Visit>, k: nat,
    rcpt: string, sender: string, data: Bytes)
    returns (g: nat, m: nat, q: nat)
    requires IsSession(config, parse, FRESH, conn, visits) && k < |visits|
    requires Saved(rcpt, sender, data) in React(config, visits[k].fields, visits[k].turn).events
    ensures g < m < q < k && Greets(visits[g].turn)
    ensures TakesSender(visits[m].fields, visits[m].turn, sender)
    ensures TakesRcpt(config, visits[q].fields, visits[q].turn, rcpt)
    ensures forall i :: g < i < k ==> !SwapsAt(config, visits, i)
    ensures forall i :: m < i < k ==> !ResetsTx(config, visits[i].fields, visits[i].turn)
    ensures visits[k].turn.command.Data? && visits[k].turn.outcome == Complete(data)
  {
    var turns := Turns(visits);
    VisitStates(config, parse, conn, visits, k);
    g, m, q := CopyIsAuthorised(config, turns, k, rcpt, sender, data);
    VisitStates(config, parse, conn, visits, m);
    VisitStates(config, parse, conn, visits, q);
    forall i | g < i < k ensures !SwapsAt(config, visits, i) {
      VisitStates(config, parse, conn, visits, i);
      assert !Swaps(config, turns, i);
    }
    forall i | m < i < k ensures !ResetsTx(config, visits[i].fields, visits[i].turn) {
      VisitStates(config, parse, conn, visits, i);
      assert !Resets(config, turns, i);
    }
  }

  /** Ownerless, on a configured domain, under a local part that is neither reserved nor tagged. */
  predicate ProperMailbox(policy: Policy, address: string, mailbox: Mailbox) {
    && policy.catchAll && mailbox.owner.None? && Configured(policy, mailbox.domain)
    && RsplitOnce(address).Some? && RsplitOnce(address).value.1 == mailbox.domain
    && RsplitOnce(address).value.0 !in policy.reserved
    && StripPlusTag(address) == address
  }

  lemma {:induction false} CreationIsProper(config: Config, f: Fields, t: Turn, address: string, mailbox: Mailbox)
    requires Created(address, mailbox) in React(config, f, t).events
    ensures t.command.RcptTo? && f.mailFrom.Some? && ProperMailbox(config.policy, address, mailbox)
  {
    assert t.command.RcptTo? && f.mailFrom.Some?;
    var addr := ToLower(Trim(t.command.recipient));
    var v := Check(config, t.command.recipient, t.world);
    assert Created(address, mailbox) in Creation(v);
    CreatedExactly(config.policy, addr, t.world.store);
    AcceptedIsDeliverable(config.policy, addr, t.world.store, address);
  }

  /**
   * A turn logs a mailbox exactly when it is a RCPT with a sender on record and room for a
   * recipient, and catch-all applies; the mailbox is the one catch-all creates.
   */
  lemma {:induction false} CreatedIsLogged(
    config: Config, f: Fields, t: Turn, addr: string, address: string, mailbox: Mailbox)
    requires t.command.RcptTo? ==> addr == ToLower(Trim(t.command.recipient))
    ensures Created(address, mailbox) in React(config, f, t).events <==>
            && t.command.RcptTo? && f.mailFrom.Some? && |f.rcpts| < config.maxRecipients
            && CatchAllApplies(config.policy, addr, t.world.store) && address == StripPlusTag(addr)
            && mailbox == Mailbox(RsplitOnce(addr).value.1, t.world.store.createAt + config.policy.defaultTtl, None)
  {
    if t.command.RcptTo? {
      CreatedExactly(config.policy, addr, t.world.store);
      LoggedExactly(config, f, t, Check(config, t.command.recipient, t.world), address, mailbox);
    } else {
      assert forall e :: e in React(config, f, t).events ==> !e.Created?;
    }
  }

  lemma {:induction false} LoggedExactly(
    config: Config, f: Fields, t: Turn, v: Validation, address: string, mailbox: Mailbox)
    requires t.command.RcptTo? && v == Check(config, t.command.recipient, t.world)
    ensures Created(address, mailbox) in React(config, f, t).events <==>
            && f.mailFrom.Some? && |f.rcpts| < config.maxRecipients && v.created.Some?
            && address == v.check.delivery && mailbox == v.created.value[v.check.delivery]
  {
    if f.mailFrom.Some? && |f.rcpts| < config.maxRecipients && v.check.Accept? {
      var events := React(config, f, t).events;
      assert events == Creation(v) + [Reply(250)];
      assert v.created.Some? ==> events[0] == Created(v.check.delivery, v.created.value[v.check.delivery]);
    }
  }

  /** Every mailbox that a session creates is proper, whatever the session started from. */
  lemma {:induction false} CreatedIsProper(
    config: Config, parse: Parser, f: Fields, conn: Conn, worlds: seq<World>, address: string, mailbox: Mailbox)
    requires Live(conn) && ValidWorlds(worlds)
    requires Created(address, mailbox) in Output(config, parse, f, conn, worlds)
    ensures ProperMailbox(config.policy, address, mailbox)
  {
    var visits := Visits(config, parse, f, conn, worlds);
    var k := EventFrom(config, parse, f, conn, worlds, Created(address, mailbox), visits);
    CreationIsProper(config, visits[k].fields, visits[k].turn, address, mailbox);
  }

  /** A connection handled from accept to close: what its log holds is accounted for. */
  method HandleConnection(config: Config, stream: ByteStream, parse: Parser, worlds: seq<World>)
    returns (log: seq<Event>)
    requires stream.Valid() && ValidWorlds(worlds)
    modifies stream
    ensures log == [Reply(220)] + Output(config, parse, FRESH, old(stream.State()), worlds)
    ensures forall rcpt, sender, data :: Saved(rcpt, sender, data) in log ==>
              Authorised(config, parse, old(stream.State()), worlds, rcpt, sender, data)
    ensures forall address, mailbox :: Created(address, mailbox) in log ==>
              ProperMailbox(config.policy, address, mailbox)
  {
    ghost var conn := stream.State();
    var session := new SmtpSession(config);
    session.Run(stream, parse, worlds);
    log := session.log;
    LogIsAccountedFor(config, parse, conn, worlds, log);
  }

  lemma {:induction false} LogIsAccountedFor(
    config: Config, parse: Parser, conn: Conn, worlds: seq<World>, log: seq<Event>)
    requires Live(conn) && ValidWorlds(worlds)
    requires log == [Reply(220)] + Output(config, parse, FRESH, conn, worlds)
    ensures forall rcpt, sender, data :: Saved(rcpt, sender, data) in log ==>
              Authorised(config, parse, conn, worlds, rcpt, sender, data)
    ensures forall address, mailbox :: Created(address, mailbox) in log ==>
              ProperMailbox(config.policy, address, mailbox)
  {
    forall rcpt, sender, data | Saved(rcpt, sender, data) in log
      ensures Authorised(config, parse, conn, worlds, rcpt, sender, data)
    {
      SavedIsAuthorised(config, parse, conn, worlds, rcpt, sender, data);
    }
    forall address, mailbox | Created(address, mailbox) in log
      ensures ProperMailbox(config.policy, address, mailbox)
    {
      CreatedIsProper(config, parse, FRESH, conn, worlds, address, mailbox);
    }
  }

  // ----- End to end ----------------------------------------------------------------------

  /** A whole command line at the head of the stream. */
  lemma {:induction false} ReadCommand(conn: Conn, line: Bytes, more: Bytes) returns (r: LineRead)
    requires WholeLine(line) && |line| <= 4096 && Delivers(conn, line + more)
    ensures r == LineFrom(conn, [], COMMAND_LINE_MAX) && r.status.Line? && r.line == line
    ensures Delivers(r.conn, more)
  {
    r := ReadOne(conn, line + more, COMMAND_LINE_MAX);
    LineLengthPrefix(line, more);
    assert (line + more)[..|line|] == line && (line + more)[|line|..] == more;
  }

  /** One command that neither reads a message nor shakes hands, and what is served after it. */
  lemma {:induction false} ServeCommand(
    config: Config, parse: Parser, f: Fields, conn: Conn, worlds: seq<World>,
    line: Bytes, more: Bytes, turn: Turn, reaction: Reaction)
    returns (next: Conn)
    requires ValidWorlds(worlds) && worlds != [] && WholeLine(line) && |line| <= 4096
    requires Delivers(conn, line + more) && turn == Turn(parse(StripEol(line)), worlds[0], ConnectionClosed, false)
    requires !turn.command.Data? && !turn.command.StartTls?
    requires reaction == React(config, f, turn) && !reaction.stop
    ensures Delivers(next, more)
    ensures Output(config, parse, f, conn, worlds)
         == reaction.events + Output(config, parse, reaction.fields, next, worlds[1..])
  {
    var r := ReadCommand(conn, line, more);
    next := r.conn;
    ServeTurn(config, parse, f, conn, worlds, r, turn, reaction, next);
  }

  /** DATA and a stuffed body that fits, and what is served after it. */
  lemma {:induction false} ServeBody(
    config: Config, parse: Parser, f: Fields, conn: Conn, worlds: seq<World>, body: Bytes, rest: Bytes)
    returns (next: Conn)
    requires ValidWorlds(worlds) && worlds != [] && parse(StripEol(DATA_LINE)) == Data
    requires f.mailFrom.Some? && |f.rcpts| == 1 && worlds[0].headroom && worlds[0].saves >= 1
    requires WholeLines(body) && |body| <= config.maxMessageSize
    requires Delivers(conn, DATA_LINE + (DotStuff(body) + ([DOT, CR, LF] + rest)))
    ensures Delivers(next, rest)
    ensures Output(config, parse, f, conn, worlds)
         == [Reply(354), Saved(f.rcpts[0], f.mailFrom.value, body), Reply(250)]
            + Output(config, parse, ResetTx(f), next, worlds[1..])
  {
    var r: LineRead;
    r, next := ReadBody(body, rest, conn, config.maxMessageSize);
    var turn := Turn(Data, worlds[0], Complete(body), false);
    var reaction := OneCopy(config, f, turn, body);
    ServeTurn(config, parse, f, conn, worlds, r, turn, reaction, next);
  }

  lemma {:induction false} OneCopy(config: Config, f: Fields, turn: Turn, body: Bytes) returns (reaction: Reaction)
    requires turn.command.Data? && turn.outcome == Complete(body)
    requires f.mailFrom.Some? && |f.rcpts| == 1 && turn.world.headroom && turn.world.saves >= 1
    ensures reaction == React(config, f, turn)
    ensures reaction == Reaction(ResetTx(f), [Reply(354), Saved(f.rcpts[0], f.mailFrom.value, body), Reply(250)], false)
  {
    reaction := CopiesForAll(config, f, turn, body);
    SavedInOrder(f, turn.world, body, reaction.events, 1);
    assert reaction.events == [Reply(354), Saved(f.rcpts[0], f.mailFrom.value, body), Reply(250)];
  }

  /** One turn that does not stop, and what is served after it. */
  lemma {:induction false} ServeTurn(
    config: Config, parse: Parser, f: Fields, conn: Conn, worlds: seq<World>, r: LineRead,
    turn: Turn, reaction: Reaction, next: Conn)
    requires Live(conn) && ValidWorlds(worlds) && worlds != []
    requires r == LineFrom(conn, [], COMMAND_LINE_MAX) && r.status.Line?
    requires turn.command == parse(StripEol(r.line)) && turn == TurnOf(config, f, turn.command, worlds[0], r.conn)
    requires reaction == React(config, f, turn) && !reaction.stop
    requires next == NextConn(config, f, turn.command, worlds[0], r.conn)
    ensures Output(config, parse, f, conn, worlds)
         == reaction.events + Output(config, parse, reaction.fields, next, worlds[1..])
  {
    OutputIterates(config, parse, f, conn, worlds, Iterate(config, parse, f, conn, worlds[0]));
  }

  /** A recipient whose mailbox is active at lookup, on a configured domain, is accepted without more. */
  lemma {:induction false} ActiveIsAccepted(
    config: Config, recipient: string, w: World, local: string, user: string, domain: string, mailbox: string)
    requires '@' !in domain && domain != [] && ToLower(domain) in config.policy.domains
    requires ToLower(Trim(recipient)) == local + ['@'] + domain
    requires mailbox == StripPlusTag(local + ['@'] + domain) == user + ['@'] + domain
    requires w.store.atLookup.Some? && Active(w.store.atLookup.value, mailbox, w.store.lookupAt)
    ensures Check(config, recipient, w) == Validation(Accept(mailbox), None)
  {
    var addr := local + ['@'] + domain;
    VerdictExactly(config.policy, local, user, domain, w.store, addr, mailbox);
    CreatedExactly(config.policy, addr, w.store);
  }

  /** MAIL and RCPT after a greeting: one sender and one recipient are on record. */
  lemma {:induction false} ServeEnvelope(
    config: Config, parse: Parser, f: Fields, conn: Conn, worlds: seq<World>, mail: Bytes, rcpt: Bytes, more: Bytes,
    sender: string, recipient: string, mailbox: string)
    returns (next: Conn)
    requires ValidWorlds(worlds) && |worlds| >= 2 && config.maxRecipients > 0
    requires f.helo.Some? && f.mailFrom.None?
    requires WholeLine(mail) && |mail| <= 4096 && parse(StripEol(mail)) == MailFrom(sender)
    requires WholeLine(rcpt) && |rcpt| <= 4096 && parse(StripEol(rcpt)) == RcptTo(recipient)
    requires Check(config, recipient, worlds[1]) == Validation(Accept(mailbox), None)
    requires Delivers(conn, mail + (rcpt + more))
    ensures Delivers(next, more)
    ensures Output(config, parse, f, conn, worlds)
         == [Reply(250)] + ([Reply(250)]
            + Output(config, parse, f.(mailFrom := Some(sender), rcpts := [mailbox]), next, worlds[2..]))
  {
    var taken := f.(mailFrom := Some(sender), rcpts := []);
    var after := ServeMail(config, parse, f, conn, worlds, mail, rcpt + more, sender);
    assert worlds[1..][0] == worlds[1] && worlds[1..][1..] == worlds[2..];
    next := ServeRcpt(config, parse, taken, after, worlds[1..], rcpt, more, recipient, mailbox);
  }

  lemma {:induction false} ServeMail(
    config: Config, parse: Parser, f: Fields, conn: Conn, worlds: seq<World>, line: Bytes, more: Bytes, sender: string)
    returns (next: Conn)
    requires ValidWorlds(worlds) && worlds != [] && f.helo.Some? && f.mailFrom.None?
    requires WholeLine(line) && |line| <= 4096 && parse(StripEol(line)) == MailFrom(sender)
    requires Delivers(conn, line + more)
    ensures Delivers(next, more)
    ensures Output(config, parse, f, conn, worlds)
         == [Reply(250)] + Output(config, parse, f.(mailFrom := Some(sender), rcpts := []), next, worlds[1..])
  {
    next := ServeCommand(config, parse, f, conn, worlds, line, more,
                         Turn(MailFrom(sender), worlds[0], ConnectionClosed, false),
                         Reaction(f.(mailFrom := Some(sender), rcpts := []), [Reply(250)], false));
  }

  lemma {:induction false} ServeRcpt(
    config: Config, parse: Parser, f: Fields, conn: Conn, worlds: seq<World>, line: Bytes, more: Bytes,
    recipient: string, mailbox: string)
    returns (next: Conn)
    requires ValidWorlds(worlds) && worlds != [] && f.mailFrom.Some? && f.rcpts == [] && config.maxRecipients > 0
    requires WholeLine(line) && |line| <= 4096 && parse(StripEol(line)) == RcptTo(recipient)
    requires Check(config, recipient, worlds[0]) == Validation(Accept(mailbox), None)
    requires Delivers(conn, line + more)
    ensures Delivers(next, more)
    ensures Output(config, parse, f, conn, worlds)
         == [Reply(250)] + Output(config, parse, f.(rcpts := [mailbox]), next, worlds[1..])
  {
    var turn := Turn(RcptTo(recipient), worlds[0], ConnectionClosed, false);
    var reaction := React(config, f, turn);
    assert reaction == Reaction(f.(rcpts := [mailbox]), [Reply(250)], false);
    next := ServeCommand(config, parse, f, conn, worlds, line, more, turn, reaction);
  }

  /**
   * EHLO, MAIL, RCPT to a mailbox active on a configured domain, DATA and a stuffed body that
   * fits, in any reads: the body is saved as it was, for that mailbox and from that sender,
   * every command is answered, and the session goes on with the bytes after the end mark.
   */
  lemma {:induction false} MailIsDelivered(
    config: Config, parse: Parser, conn: Conn, worlds: seq<World>, helo: Bytes, mail: Bytes, rcpt: Bytes,
    name: string, sender: string, recipient: string, local: string, user: string, domain: string,
    mailbox: string, body: Bytes, rest: Bytes)
    returns (next: Conn)
    requires ValidWorlds(worlds) && |worlds| >= 4 && config.maxRecipients > 0
    requires WholeLine(helo) && |helo| <= 4096 && parse(StripEol(helo)) == Ehlo(name)
    requires WholeLine(mail) && |mail| <= 4096 && parse(StripEol(mail)) == MailFrom(sender)
    requires WholeLine(rcpt) && |rcpt| <= 4096 && parse(StripEol(rcpt)) == RcptTo(recipient)
    requires parse(StripEol(DATA_LINE)) == Data
    requires '@' !in domain && domain != [] && ToLower(domain) in config.policy.domains
    requires ToLower(Trim(recipient)) == local + ['@'] + domain
    requires mailbox == StripPlusTag(local + ['@'] + domain) == user + ['@'] + domain
    requires worlds[2].store.atLookup.Some?
    requires Active(worlds[2].store.atLookup.value, mailbox, worlds[2].store.lookupAt)
    requires worlds[3].headroom && worlds[3].saves >= 1 && WholeLines(body) && |body| <= config.maxMessageSize
    requires Delivers(conn, helo + (mail + (rcpt + (DATA_LINE + (DotStuff(body) + ([DOT, CR, LF] + rest))))))
    ensures Delivers(next, rest)
    ensures Output(config, parse, FRESH, conn, worlds)
         == [Reply(250)] + ([Reply(250)] + ([Reply(250)]
            + ([Reply(354), Saved(mailbox, sender, body), Reply(250)]
               + Output(config, parse, Fields(Some(name), None, [], false, Plain), next, worlds[4..]))))
  {
    ActiveIsAccepted(config, recipient, worlds[2], local, user, domain, mailbox);
    var data := DATA_LINE + (DotStuff(body) + ([DOT, CR, LF] + rest));
    var greeted := Fields(Some(name), None, [], false, Plain);
    var after := ServeCommand(config, parse, FRESH, conn, worlds, helo, mail + (rcpt + data),
                              Turn(Ehlo(name), worlds[0], ConnectionClosed, false),
                              Reaction(greeted, [Reply(250)], false));
    assert worlds[1..][1] == worlds[2] && worlds[1..][2..] == worlds[3..];
    var addressed := greeted.(mailFrom := Some(sender), rcpts := [mailbox]);
    after := ServeEnvelope(config, parse, greeted, after, worlds[1..], mail, rcpt, data, sender, recipient, mailbox);
    assert worlds[3..][0] == worlds[3] && worlds[3..][1..] == worlds[4..];
    next := ServeBody(config, parse, addressed, after, worlds[3..], body, rest);
    assert ResetTx(addressed) == greeted;
  }
}
