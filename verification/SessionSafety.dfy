/** What every run of an SMTP session keeps, and what its copies can be traced to. */
module SessionSafety {
  import opened Bytes
  import opened DataWire
  import opened SmtpReader
  import opened DataFraming
  import opened Recipients
  import opened Session

  /** The session fields before turn `k`. */
  function StateAt(config: Config, turns: seq<Turn>, k: nat): Fields
    requires k <= |turns|
    decreases k, 0
  {
    if k == 0 then FRESH else ReactionAt(config, turns, k - 1).fields
  }

  function ReactionAt(config: Config, turns: seq<Turn>, k: nat): Reaction
    requires k < |turns|
    decreases k, 1
  {
    React(config, StateAt(config, turns, k), turns[k])
  }

  predicate Distinct(s: seq<string>) {
    forall i, j :: 0 <= i < j < |s| ==> s[i] != s[j]
  }

  /** A sender implies a greeting, recipients imply a sender, and TLS is flagged exactly when it is on. */
  predicate Sound(config: Config, f: Fields) {
    && (f.mailFrom.Some? ==> f.helo.Some?)
    && (f.rcpts != [] ==> f.mailFrom.Some?)
    && Distinct(f.rcpts) && |f.rcpts| <= config.maxRecipients
    && TlsFlagged(f)
  }

  predicate TlsFlagged(f: Fields) {
    f.tlsActive <==> f.variant.Tls?
  }

  lemma ReactKeepsTlsFlagged(config: Config, f: Fields, t: Turn)
    requires TlsFlagged(f)
    ensures TlsFlagged(React(config, f, t).fields)
  {
  }

  lemma ReactKeepsSound(config: Config, f: Fields, t: Turn)
    requires Sound(config, f)
    ensures Sound(config, React(config, f, t).fields)
  {
  }

  lemma {:induction false} AlwaysSound(config: Config, turns: seq<Turn>, k: nat)
    requires k <= |turns|
    ensures Sound(config, StateAt(config, turns, k))
  {
    if k > 0 {
      AlwaysSound(config, turns, k - 1);
      ReactKeepsSound(config, StateAt(config, turns, k - 1), turns[k - 1]);
    }
  }

  // ----- Where a saved copy comes from -----------------------------------------------

  predicate Greets(t: Turn) {
    t.command.Ehlo? || t.command.Helo?
  }

  /** The transaction is abandoned or finished by this turn. */
  predicate ResetsTx(config: Config, f: Fields, t: Turn) {
    || Greets(t) || t.command.Rset? || SwapsStream(config, f, t)
    || (ReadsData(f, t.command, t.world) && !t.outcome.ConnectionClosed?)
  }

  predicate TakesSender(f: Fields, t: Turn, sender: string) {
    t.command == MailFrom(sender) && f.helo.Some? && f.mailFrom.None?
  }

  predicate TakesRcpt(config: Config, f: Fields, t: Turn, rcpt: string) {
    && t.command.RcptTo? && f.mailFrom.Some? && |f.rcpts| < config.maxRecipients
    && Check(config, t.command.recipient, t.world).check == Accept(rcpt)
  }

  function FieldsAfter(config: Config, f: Fields, t: Turn): Fields {
    React(config, f, t).fields
  }

  /** A turn that leaves a greeting on record gave it or kept it, on the same stream. */
  lemma GreetingAfterTurn(config: Config, f: Fields, t: Turn)
    requires FieldsAfter(config, f, t).helo.Some?
    ensures Greets(t) || (f.helo.Some? && !SwapsStream(config, f, t))
  {
  }

  /** A turn that leaves a sender on record took it, or kept it and did not reset. */
  lemma SenderAfterTurn(config: Config, f: Fields, t: Turn, sender: string)
    requires FieldsAfter(config, f, t).mailFrom == Some(sender)
    ensures (f.mailFrom == Some(sender) && !ResetsTx(config, f, t)) || TakesSender(f, t, sender)
  {
  }

  /** A turn that leaves a recipient on record kept it or took it, and did not reset. */
  lemma RcptsAfterTurn(config: Config, f: Fields, t: Turn, rcpt: string)
    requires rcpt in FieldsAfter(config, f, t).rcpts
    ensures rcpt in f.rcpts || TakesRcpt(config, f, t, rcpt)
    ensures !ResetsTx(config, f, t)
    ensures FieldsAfter(config, f, t).mailFrom == f.mailFrom
  {
  }

  predicate Swaps(config: Config, turns: seq<Turn>, k: nat)
    requires k < |turns|
  {
    SwapsStream(config, StateAt(config, turns, k), turns[k])
  }

  predicate Resets(config: Config, turns: seq<Turn>, k: nat)
    requires k < |turns|
  {
    ResetsTx(config, StateAt(config, turns, k), turns[k])
  }

  predicate AcceptsSender(config: Config, turns: seq<Turn>, k: nat, sender: string)
    requires k < |turns|
  {
    TakesSender(StateAt(config, turns, k), turns[k], sender)
  }

  predicate AcceptsRcpt(config: Config, turns: seq<Turn>, k: nat, rcpt: string)
    requires k < |turns|
  {
    TakesRcpt(config, StateAt(config, turns, k), turns[k], rcpt)
  }

  predicate NoResetBetween(config: Config, turns: seq<Turn>, i: nat, j: nat)
    requires j <= |turns|
  {
    forall m :: i < m < j ==> !Resets(config, turns, m)
  }

  predicate NoSwapBetween(config: Config, turns: seq<Turn>, i: nat, j: nat)
    requires j <= |turns|
  {
    forall m :: i < m < j ==> !Swaps(config, turns, m)
  }

  /** A greeting on record was given on the present stream. */
  lemma {:induction false} GreetingFrom(config: Config, turns: seq<Turn>, k: nat) returns (g: nat)
    requires k <= |turns| && StateAt(config, turns, k).helo.Some?
    ensures g < k && Greets(turns[g]) && NoSwapBetween(config, turns, g, k)
  {
    GreetingAfterTurn(config, StateAt(config, turns, k - 1), turns[k - 1]);
    if Greets(turns[k - 1]) {
      g := k - 1;
    } else {
      g := GreetingFrom(config, turns, k - 1);
    }
  }

  /** A sender on record was accepted, with no reset since. */
  lemma {:induction false} SenderFrom(config: Config, turns: seq<Turn>, k: nat) returns (m: nat)
    requires k <= |turns| && StateAt(config, turns, k).mailFrom.Some?
    ensures m < k && AcceptsSender(config, turns, m, StateAt(config, turns, k).mailFrom.value)
    ensures NoResetBetween(config, turns, m, k)
  {
    SenderAfterTurn(config, StateAt(config, turns, k - 1), turns[k - 1], StateAt(config, turns, k).mailFrom.value);
    if StateAt(config, turns, k - 1).mailFrom.Some? {
      m := SenderFrom(config, turns, k - 1);
    } else {
      m := k - 1;
    }
  }

  /** A recipient on record was accepted after the sender, with no reset since the sender. */
  lemma {:induction false} RcptFrom(config: Config, turns: seq<Turn>, k: nat, rcpt: string)
    returns (m: nat, q: nat)
    requires k <= |turns| && rcpt in StateAt(config, turns, k).rcpts
    ensures m < q < k && AcceptsRcpt(config, turns, q, rcpt) && NoResetBetween(config, turns, m, k)
    ensures StateAt(config, turns, k).mailFrom.Some?
    ensures AcceptsSender(config, turns, m, StateAt(config, turns, k).mailFrom.value)
  {
    RcptsAfterTurn(config, StateAt(config, turns, k - 1), turns[k - 1], rcpt);
    if rcpt in StateAt(config, turns, k - 1).rcpts {
      m, q := RcptFrom(config, turns, k - 1, rcpt);
    } else {
      m := SenderFrom(config, turns, k - 1);
      q := k - 1;
    }
  }

  /**
   * A copy is saved for `rcpt` only in a DATA phase whose message was read whole, and only
   * after a greeting, then an accepted sender, then an accepted recipient resolving to
   * `rcpt`, with no reset between sender and DATA and no stream swap since the greeting.
   */
  lemma {:induction false} CopyIsAuthorised(
    config: Config, turns: seq<Turn>, k: nat, rcpt: string, sender: string, data: Bytes)
    returns (g: nat, m: nat, q: nat)
    requires k < |turns| && Saved(rcpt, sender, data) in ReactionAt(config, turns, k).events
    ensures turns[k].command.Data? && turns[k].outcome == Complete(data)
    ensures g < m < q < k
    ensures Greets(turns[g]) && NoSwapBetween(config, turns, g, k)
    ensures AcceptsSender(config, turns, m, sender) && AcceptsRcpt(config, turns, q, rcpt)
    ensures NoResetBetween(config, turns, m, k)
  {
    var f := StateAt(config, turns, k);
    CopiesAreForRcpts(config, f, turns[k], rcpt, sender, data);
    m, q := RcptFrom(config, turns, k, rcpt);
    g := GreetingFrom(config, turns, m);
    NoSwapSince(config, turns, g, m, k, sender);
  }

  /** Neither taking a sender nor a turn without a reset swaps the stream. */
  lemma {:induction false} NoSwapSince(config: Config, turns: seq<Turn>, g: nat, m: nat, k: nat, sender: string)
    requires g < m < k <= |turns| && NoSwapBetween(config, turns, g, m)
    requires AcceptsSender(config, turns, m, sender) && NoResetBetween(config, turns, m, k)
    ensures NoSwapBetween(config, turns, g, k)
  {
    forall x | g < x < k ensures !Swaps(config, turns, x) {
      if m < x {
        assert !Resets(config, turns, x);
      }
    }
  }

  /** Copies come only from DATA, for the recipients on record, with the sender on record. */
  lemma CopiesAreForRcpts(config: Config, f: Fields, t: Turn, rcpt: string, sender: string, data: Bytes)
    requires Saved(rcpt, sender, data) in React(config, f, t).events
    ensures t.command.Data? && t.outcome == Complete(data)
    ensures rcpt in f.rcpts && f.mailFrom == Some(sender)
  {
    assert t.command.Data? && f.mailFrom.Some? && f.rcpts != [] && t.world.headroom;
    var n := SaveCount(f, t.world);
    assert Saved(rcpt, sender, data) in Copies(f.rcpts, n, Sender(f), t.outcome.data);
  }

  // ----- The record, exactly ---------------------------------------------------------

  predicate GreetsAs(t: Turn, domain: string) {
    t.command == Ehlo(domain) || t.command == Helo(domain)
  }

  /** What one turn makes of the greeting, the sender, the recipients and the TLS flag on record. */
  lemma {:induction false} RecordAfterTurn(config: Config, f: Fields, t: Turn, after: Fields, s: string)
    requires Sound(config, f) && after == FieldsAfter(config, f, t)
    ensures after.helo == Some(s) <==>
            GreetsAs(t, s) || (f.helo == Some(s) && !Greets(t) && !SwapsStream(config, f, t))
    ensures after.mailFrom == Some(s) <==> TakesSender(f, t, s) || (f.mailFrom == Some(s) && !ResetsTx(config, f, t))
    ensures s in after.rcpts <==> TakesRcpt(config, f, t, s) || (s in f.rcpts && !ResetsTx(config, f, t))
    ensures after.tlsActive <==> f.tlsActive || SwapsStream(config, f, t)
  {
  }

  /** The same for turn `k - 1` of a run. */
  lemma {:induction false} RecordStep(config: Config, turns: seq<Turn>, k: nat, before: Fields, after: Fields, s: string)
    requires 0 < k <= |turns| && before == StateAt(config, turns, k - 1) && after == StateAt(config, turns, k)
    ensures after.helo == Some(s) <==>
            || GreetsAs(turns[k - 1], s)
            || (before.helo == Some(s) && !Greets(turns[k - 1]) && !Swaps(config, turns, k - 1))
    ensures after.mailFrom == Some(s) <==>
            AcceptsSender(config, turns, k - 1, s) || (before.mailFrom == Some(s) && !Resets(config, turns, k - 1))
    ensures s in after.rcpts <==>
            AcceptsRcpt(config, turns, k - 1, s) || (s in before.rcpts && !Resets(config, turns, k - 1))
    ensures after.tlsActive <==> before.tlsActive || Swaps(config, turns, k - 1)
  {
    AlwaysSound(config, turns, k - 1);
    assert after == ReactionAt(config, turns, k - 1).fields;
    RecordAfterTurn(config, before, turns[k - 1], after, s);
  }

  /** The greeting at `g` still stands before turn `k`: no other since, and no swap. */
  predicate GreetedAt(config: Config, turns: seq<Turn>, g: nat, k: nat, domain: string)
    requires k <= |turns|
  {
    && g < k && GreetsAs(turns[g], domain) && NoSwapBetween(config, turns, g, k)
    && forall m :: g < m < k ==> !Greets(turns[m])
  }

  /** The sender accepted at `m` still stands before turn `k`: no reset since. */
  predicate SenderSince(config: Config, turns: seq<Turn>, m: nat, k: nat, sender: string)
    requires k <= |turns|
  {
    m < k && AcceptsSender(config, turns, m, sender) && NoResetBetween(config, turns, m, k)
  }

  /** The recipient accepted at `q` still stands before turn `k`: no reset since. */
  predicate RcptSince(config: Config, turns: seq<Turn>, q: nat, k: nat, rcpt: string)
    requires k <= |turns|
  {
    q < k && AcceptsRcpt(config, turns, q, rcpt) && NoResetBetween(config, turns, q, k)
  }

  ghost predicate GreetingStands(config: Config, turns: seq<Turn>, k: nat, domain: string)
    requires k <= |turns|
  {
    exists g: nat :: GreetedAt(config, turns, g, k, domain)
  }

  ghost predicate SenderStands(config: Config, turns: seq<Turn>, k: nat, sender: string)
    requires k <= |turns|
  {
    exists m: nat :: SenderSince(config, turns, m, k, sender)
  }

  ghost predicate RcptStands(config: Config, turns: seq<Turn>, k: nat, rcpt: string)
    requires k <= |turns|
  {
    exists q: nat :: RcptSince(config, turns, q, k, rcpt)
  }

  lemma {:induction false} GreetingStandsStep(config: Config, turns: seq<Turn>, k: nat, domain: string)
    requires k < |turns|
    ensures GreetingStands(config, turns, k + 1, domain) <==>
            || GreetsAs(turns[k], domain)
            || (!Greets(turns[k]) && !Swaps(config, turns, k) && GreetingStands(config, turns, k, domain))
  {
    var next := k + 1;
    if GreetsAs(turns[k], domain) {
      assert GreetedAt(config, turns, k, next, domain);
    } else if GreetingStands(config, turns, next, domain) {
      var g: nat :| GreetedAt(config, turns, g, next, domain);
      assert GreetedAt(config, turns, g, k, domain);
    } else if !Greets(turns[k]) && !Swaps(config, turns, k) {
      if g: nat :| GreetedAt(config, turns, g, k, domain) {
        assert GreetedAt(config, turns, g, next, domain);
      }
    }
  }

  lemma {:induction false} SenderStandsStep(config: Config, turns: seq<Turn>, k: nat, sender: string)
    requires k < |turns|
    ensures SenderStands(config, turns, k + 1, sender) <==>
            || AcceptsSender(config, turns, k, sender)
            || (!Resets(config, turns, k) && SenderStands(config, turns, k, sender))
  {
    var next := k + 1;
    if AcceptsSender(config, turns, k, sender) {
      assert SenderSince(config, turns, k, next, sender);
    } else if SenderStands(config, turns, next, sender) {
      var m: nat :| SenderSince(config, turns, m, next, sender);
      assert SenderSince(config, turns, m, k, sender);
    } else if !Resets(config, turns, k) {
      if m: nat :| SenderSince(config, turns, m, k, sender) {
        assert SenderSince(config, turns, m, next, sender);
      }
    }
  }

  lemma {:induction false} RcptStandsStep(config: Config, turns: seq<Turn>, k: nat, rcpt: string)
    requires k < |turns|
    ensures RcptStands(config, turns, k + 1, rcpt) <==>
            || AcceptsRcpt(config, turns, k, rcpt)
            || (!Resets(config, turns, k) && RcptStands(config, turns, k, rcpt))
  {
    var next := k + 1;
    if AcceptsRcpt(config, turns, k, rcpt) {
      assert RcptSince(config, turns, k, next, rcpt);
    } else if RcptStands(config, turns, next, rcpt) {
      var q: nat :| RcptSince(config, turns, q, next, rcpt);
      assert RcptSince(config, turns, q, k, rcpt);
    } else if !Resets(config, turns, k) {
      if q: nat :| RcptSince(config, turns, q, k, rcpt) {
        assert RcptSince(config, turns, q, next, rcpt);
      }
    }
  }

  /** A greeting is on record exactly when it was the last one given on the present stream. */
  lemma {:induction false} GreetingExactly(config: Config, turns: seq<Turn>, k: nat, domain: string)
    requires k <= |turns|
    ensures StateAt(config, turns, k).helo == Some(domain) <==> GreetingStands(config, turns, k, domain)
  {
    if k > 0 {
      RecordStep(config, turns, k, StateAt(config, turns, k - 1), StateAt(config, turns, k), domain);
      GreetingExactly(config, turns, k - 1, domain);
      GreetingStandsStep(config, turns, k - 1, domain);
    }
  }

  /** A sender is on record exactly when its MAIL was accepted and nothing has reset it since. */
  lemma {:induction false} SenderExactly(config: Config, turns: seq<Turn>, k: nat, sender: string)
    requires k <= |turns|
    ensures StateAt(config, turns, k).mailFrom == Some(sender) <==> SenderStands(config, turns, k, sender)
  {
    if k > 0 {
      RecordStep(config, turns, k, StateAt(config, turns, k - 1), StateAt(config, turns, k), sender);
      SenderExactly(config, turns, k - 1, sender);
      SenderStandsStep(config, turns, k - 1, sender);
    }
  }

  /** A recipient is on record exactly when a RCPT resolving to it was accepted and nothing has reset it since. */
  lemma {:induction false} RcptExactly(config: Config, turns: seq<Turn>, k: nat, rcpt: string)
    requires k <= |turns|
    ensures rcpt in StateAt(config, turns, k).rcpts <==> RcptStands(config, turns, k, rcpt)
  {
    if k > 0 {
      RecordStep(config, turns, k, StateAt(config, turns, k - 1), StateAt(config, turns, k), rcpt);
      RcptExactly(config, turns, k - 1, rcpt);
      RcptStandsStep(config, turns, k - 1, rcpt);
    }
  }

  /** The session is on TLS exactly when some turn before swapped the stream. */
  lemma {:induction false} TlsExactly(config: Config, turns: seq<Turn>, k: nat)
    requires k <= |turns|
    ensures StateAt(config, turns, k).tlsActive <==> OnTls(config, turns, k)
  {
    if k > 0 {
      RecordStep(config, turns, k, StateAt(config, turns, k - 1), StateAt(config, turns, k), "");
      TlsExactly(config, turns, k - 1);
    }
  }

  /** A turn ends the session exactly on QUIT, on DATA broken off, and on a failed handshake. */
  lemma {:induction false} TurnEndsExactly(config: Config, f: Fields, t: Turn)
    ensures React(config, f, t).stop <==>
            || t.command.Quit?
            || (ReadsData(f, t.command, t.world) && t.outcome.ConnectionClosed?)
            || (TriesTls(config, f, t.command) && !t.handshakeOk)
  {
  }

  // ----- The answers, by history ---------------------------------------------------------

  ghost predicate Greeted(config: Config, turns: seq<Turn>, k: nat)
    requires k <= |turns|
  {
    exists domain :: GreetingStands(config, turns, k, domain)
  }

  ghost predicate HasSender(config: Config, turns: seq<Turn>, k: nat)
    requires k <= |turns|
  {
    exists sender :: SenderStands(config, turns, k, sender)
  }

  ghost predicate HasRcpt(config: Config, turns: seq<Turn>, k: nat)
    requires k <= |turns|
  {
    exists rcpt :: RcptStands(config, turns, k, rcpt)
  }

  ghost predicate OnTls(config: Config, turns: seq<Turn>, k: nat)
    requires k <= |turns|
  {
    exists i: nat :: i < k && Swaps(config, turns, i)
  }

  /** The reply codes among some events. */
  function Codes(events: seq<Event>): seq<nat> {
    if events == [] then []
    else (if events[0].Reply? then [events[0].code] else []) + Codes(events[1..])
  }

  /** The reply codes that turn `k` calls for, given what was said before it. */
  ghost function AnswerDue(config: Config, turns: seq<Turn>, k: nat): seq<nat>
    requires k < |turns|
  {
    var t, rcpts := turns[k], StateAt(config, turns, k).rcpts;
    match t.command
    case Quit => [221]
    case Ehlo(_) => [250]
    case Helo(_) => [250]
    case Rset => [250]
    case Noop => [250]
    case Vrfy => [252]
    case Help => [214]
    case Unknown => [500]
    case MailFrom(_) => [if Greeted(config, turns, k) && !HasSender(config, turns, k) then 250 else 503]
    case RcptTo(recipient) =>
      if !HasSender(config, turns, k) then [503]
      else if |rcpts| >= config.maxRecipients then [452]
      else [match Check(config, recipient, t.world).check
            case Accept(_) => 250
            case Error => 451
            case NotOurDomain => 550
            case NoMailbox => 550]
    case Data =>
      if !HasSender(config, turns, k) then [503]
      else if !HasRcpt(config, turns, k) then [554]
      else if !t.world.headroom then [452]
      else
        (match t.outcome
         case Complete(_) => [354, if t.world.saves >= |rcpts| then 250 else 451]
         case TooLarge => [354, 552]
         case ConnectionClosed => [354])
    case StartTls =>
      if OnTls(config, turns, k) then [503] else if !config.hasTls then [502] else [220]
  }

  lemma {:induction false} CodesAppend(a: seq<Event>, b: seq<Event>)
    ensures Codes(a + b) == Codes(a) + Codes(b)
  {
    if a == [] {
      assert a + b == b;
    } else {
      assert (a + b)[1..] == a[1..] + b;
      CodesAppend(a[1..], b);
      Reassociate(if a[0].Reply? then [a[0].code] else [], Codes(a[1..]), Codes(b));
    }
  }

  lemma {:induction false} SilentCodes(events: seq<Event>)
    requires forall i :: 0 <= i < |events| ==> !events[i].Reply?
    ensures Codes(events) == []
  {
    if events != [] {
      SilentCodes(events[1..]);
    }
  }

  lemma {:induction false} OneCode(code: nat)
    ensures Codes([Reply(code)]) == [code]
  {
    assert [Reply(code)][1..] == [];
  }

  /** Saved copies and created mailboxes are silent; the reply comes last. */
  lemma {:induction false} CodesOf(silent: seq<Event>, code: nat)
    requires forall i :: 0 <= i < |silent| ==> !silent[i].Reply?
    ensures Codes(silent + [Reply(code)]) == [code]
  {
    SilentCodes(silent);
    OneCode(code);
    CodesAppend(silent, [Reply(code)]);
  }

  lemma {:induction false} ReadCodes(f: Fields, w: World, outcome: DataOutcome)
    requires ReadsData(f, Data, w)
    ensures Codes(DataReaction(f, w, outcome).events)
         == match outcome
            case Complete(_) => [354, if w.saves >= |f.rcpts| then 250 else 451]
            case TooLarge => [354, 552]
            case ConnectionClosed => [354]
  {
    var end := Concluded(f, w, outcome).events;
    OneCode(354);
    CodesAppend([Reply(354)], end);
    match outcome
    case Complete(data) =>
      var n := SaveCount(f, w);
      CodesOf(Copies(f.rcpts, n, Sender(f), data), if n == |f.rcpts| then 250 else 451);
    case TooLarge => OneCode(552);
    case ConnectionClosed =>
  }

  lemma {:induction false} DataCodes(f: Fields, w: World, outcome: DataOutcome)
    ensures Codes(DataReaction(f, w, outcome).events)
         == if f.mailFrom.None? then [503]
            else if f.rcpts == [] then [554]
            else if !w.headroom then [452]
            else
              match outcome
              case Complete(_) => [354, if w.saves >= |f.rcpts| then 250 else 451]
              case TooLarge => [354, 552]
              case ConnectionClosed => [354]
  {
    OneCode(503);
    OneCode(554);
    OneCode(452);
    if ReadsData(f, Data, w) {
      ReadCodes(f, w, outcome);
    }
  }

  /** What the record before turn `k` says, by history. */
  lemma {:induction false} RecordByHistory(config: Config, turns: seq<Turn>, k: nat, f: Fields)
    requires k <= |turns| && f == StateAt(config, turns, k)
    ensures f.helo.Some? <==> Greeted(config, turns, k)
    ensures f.mailFrom.Some? <==> HasSender(config, turns, k)
    ensures f.rcpts != [] <==> HasRcpt(config, turns, k)
    ensures f.tlsActive <==> OnTls(config, turns, k)
  {
    if f.helo.Some? {
      GreetingExactly(config, turns, k, f.helo.value);
    }
    if s :| GreetingStands(config, turns, k, s) {
      GreetingExactly(config, turns, k, s);
    }
    TransactionByHistory(config, turns, k, f);
    TlsExactly(config, turns, k);
  }

  lemma {:induction false} TransactionByHistory(config: Config, turns: seq<Turn>, k: nat, f: Fields)
    requires k <= |turns| && f == StateAt(config, turns, k)
    ensures f.mailFrom.Some? <==> HasSender(config, turns, k)
    ensures f.rcpts != [] <==> HasRcpt(config, turns, k)
  {
    if f.mailFrom.Some? {
      SenderExactly(config, turns, k, f.mailFrom.value);
    }
    if s :| SenderStands(config, turns, k, s) {
      SenderExactly(config, turns, k, s);
    }
    if f.rcpts != [] {
      assert f.rcpts[0] in f.rcpts;
      RcptExactly(config, turns, k, f.rcpts[0]);
    }
    if r :| RcptStands(config, turns, k, r) {
      RcptExactly(config, turns, k, r);
    }
  }

  /** In every run, each command is answered as what was said before it calls for. */
  lemma {:induction false} AnsweredExactly(config: Config, turns: seq<Turn>, k: nat)
    requires k < |turns|
    ensures Codes(ReactionAt(config, turns, k).events) == AnswerDue(config, turns, k)
  {
    var f, t := StateAt(config, turns, k), turns[k];
    RecordByHistory(config, turns, k, f);
    if t.command.RcptTo? {
      RcptCodes(config, f, t.command.recipient, t.world);
    } else if t.command.Data? {
      DataCodes(f, t.world, t.outcome);
    } else {
      AlwaysSound(config, turns, k);
      PlainCodes(config, f, t);
    }
  }

  lemma {:induction false} RcptCodes(config: Config, f: Fields, recipient: string, w: World)
    ensures Codes(RcptReaction(config, f, recipient, w).events)
         == [if f.mailFrom.None? then 503
             else if |f.rcpts| >= config.maxRecipients then 452
             else match Check(config, recipient, w).check
                  case Accept(_) => 250
                  case Error => 451
                  case NotOurDomain => 550
                  case NoMailbox => 550]
  {
    var v := Check(config, recipient, w);
    CodesOf(Creation(v), 250);
    OneCode(503);
    OneCode(452);
    OneCode(451);
    OneCode(550);
  }

  /** The one reply of the commands that only reply. */
  lemma {:induction false} PlainCodes(config: Config, f: Fields, t: Turn)
    requires TlsFlagged(f) && !t.command.RcptTo? && !t.command.Data?
    ensures Codes(React(config, f, t).events)
         == [if t.command.Quit? then 221
             else if t.command.Vrfy? then 252
             else if t.command.Help? then 214
             else if t.command.Unknown? then 500
             else if t.command.MailFrom? then (if f.helo.Some? && f.mailFrom.None? then 250 else 503)
             else if t.command.StartTls? then (if f.tlsActive then 503 else if !config.hasTls then 502 else 220)
             else 250]
  {
    var events := React(config, f, t).events;
    assert |events| == 1 && events[0].Reply?;
    assert events == [Reply(events[0].code)];
    OneCode(events[0].code);
  }

  /** The copies of a message read whole, in the recipients' order, as far as the saves succeed. */
  lemma {:induction false} SavedInOrder(f: Fields, w: World, data: Bytes, events: seq<Event>, n: nat)
    requires ReadsData(f, Data, w) && events == DataReaction(f, w, Complete(data)).events
    requires n == if w.saves < |f.rcpts| then w.saves else |f.rcpts|
    ensures |events| == n + 2 && events[0] == Reply(354)
    ensures forall i :: 0 <= i < n ==> events[i + 1] == Saved(f.rcpts[i], f.mailFrom.value, data)
    ensures events[n + 1] == Reply(if w.saves >= |f.rcpts| then 250 else 451)
  {
    var copies, last := Copies(f.rcpts, n, Sender(f), data), Reply(if n == |f.rcpts| then 250 else 451);
    assert events == [Reply(354)] + (copies + [last]);
    forall i | 0 <= i < n ensures events[i + 1] == Saved(f.rcpts[i], f.mailFrom.value, data) {
      assert events[i + 1] == copies[i];
    }
  }

  /** The answer to a command that is answered once, after any mailbox it created. */
  predicate AnswersWith(r: Reaction, code: nat) {
    r.events != [] && r.events[|r.events| - 1] == Reply(code)
  }

  /** A 250 to MAIL or RCPT means that it was taken; any other answer leaves the transaction as it was. */
  lemma {:induction false} RepliesTellTheTruth(config: Config, f: Fields, t: Turn, r: Reaction)
    requires (t.command.MailFrom? || t.command.RcptTo?) && r == React(config, f, t)
    ensures !AnswersWith(r, 250) ==> r.fields == f
    ensures t.command.MailFrom? ==> (AnswersWith(r, 250) <==> TakesSender(f, t, t.command.sender))
    ensures t.command.MailFrom? && AnswersWith(r, 250) ==>
              r.fields == Fields(f.helo, Some(t.command.sender), [], f.tlsActive, f.variant)
    ensures t.command.RcptTo? ==> (AnswersWith(r, 250) <==> exists rcpt :: TakesRcpt(config, f, t, rcpt))
    ensures forall rcpt :: TakesRcpt(config, f, t, rcpt) ==> rcpt in r.fields.rcpts && f.rcpts <= r.fields.rcpts
  {
    if t.command.RcptTo? && f.mailFrom.Some? && |f.rcpts| < config.maxRecipients {
      var check := Check(config, t.command.recipient, t.world).check;
      assert check.Accept? ==> TakesRcpt(config, f, t, check.delivery);
    }
  }

  // ----- TLS ----------------------------------------------------------------------------

  /** The branch for a stream that is already TLS is never taken. */
  lemma {:induction false} AlreadyTlsUnreachable(config: Config, turns: seq<Turn>, k: nat)
    requires k < |turns| && turns[k].command.StartTls? && config.hasTls
    ensures StateAt(config, turns, k).variant.Tls? ==> ReactionAt(config, turns, k).events == [Reply(503)]
  {
    AlwaysSound(config, turns, k);
  }

  /** A completed STARTTLS leaves the same fields whatever came before it. */
  const AFTER_TLS := Fields(None, None, [], true, Tls)

  // ----- Chunks do not matter -------------------------------------------------------------

  /** A turn over a clean stream, from whatever reads deliver it. */
  lemma {:induction false} TurnFromBytes(config: Config, f: Fields, c: Command, w: World, conn: Conn, left: Bytes)
    requires Delivers(conn, left) && Capped(conn, BUFFER_CAPACITY) && ValidWorld(w)
    requires ReadsData(f, c, w) ==> !FalseEnd(left, config.maxMessageSize, BUFFER_CAPACITY)
    requires TriesTls(config, f, c) ==> Settled(w, left)
    requires TlsFlagged(f)
    ensures TurnOf(config, f, c, w, conn) == TurnDue(config, f, c, w, left)
    ensures !React(config, f, TurnDue(config, f, c, w, left)).stop ==>
              Delivers(NextConn(config, f, c, w, conn), LeftDue(config, f, c, w, left))
              && Capped(NextConn(config, f, c, w, conn), BUFFER_CAPACITY)
  {
    if ReadsData(f, c, w) {
      ReadAsExpected(conn, left, config.maxMessageSize, BUFFER_CAPACITY);
      DataFromCapped(conn, [], false, config.maxMessageSize, BUFFER_CAPACITY);
    } else if TriesTls(config, f, c) {
      SocketIsSuffix(conn);
      assert w.accept(conn.socket) == w.accept([]);
      if w.accept([]).Some? {
        assert [] + Concat(w.accept([]).value) == Concat(w.accept([]).value);
      }
    }
  }

  /** Nothing to serve, whichever way one looks. */
  lemma {:induction false} NoTurn(
    config: Config, parse: Parser, f: Fields, conn: Conn, s: Bytes, worlds: seq<World>)
    requires Delivers(conn, s) && ValidWorlds(worlds)
    requires worlds == [] || s == [] || LineLength(s) > COMMAND_LINE_MAX
    ensures Transcribe(config, parse, f, conn, worlds) == TranscribeBytes(config, parse, f, s, worlds)
  {
    var r := ReadOne(conn, s, COMMAND_LINE_MAX);
  }

  /** If the rest of the transcript does not depend on the reads, neither does the whole. */
  lemma {:induction false} SameTurn(
    config: Config, parse: Parser, f: Fields, conn: Conn, s: Bytes, worlds: seq<World>,
    n: nat, r: LineRead, c: Command, turn: Turn, reaction: Reaction, rest: Transcript)
    requires Live(conn) && ValidWorlds(worlds) && worlds != []
    requires s != [] && n == LineLength(s) && n <= COMMAND_LINE_MAX
    requires r == LineFrom(conn, [], COMMAND_LINE_MAX) && r.status.Line? && r.line == s[..n]
    requires c == parse(StripEol(s[..n])) && reaction == React(config, f, turn)
    requires turn == TurnOf(config, f, c, worlds[0], r.conn) == TurnDue(config, f, c, worlds[0], s[n..])
    requires reaction.stop ==> rest == Transcript([], false)
    requires !reaction.stop ==>
               rest == Transcribe(config, parse, reaction.fields,
                                  NextConn(config, f, c, worlds[0], r.conn), worlds[1..])
               && rest == TranscribeBytes(config, parse, reaction.fields,
                                          LeftDue(config, f, c, worlds[0], s[n..]), worlds[1..])
    ensures Transcribe(config, parse, f, conn, worlds) == TranscribeBytes(config, parse, f, s, worlds)
  {
    TranscribeStep(config, parse, f, conn, worlds, r, c, turn, reaction, rest);
    TranscribeBytesStep(config, parse, f, s, worlds, n, c, turn, reaction, rest);
  }

  /**
   * As long as no DATA section it reads has a false end and no handshake hangs on what
   * happened to be buffered, a session does the same on every way of cutting its bytes
   * into reads: pipelined commands, split lines and all.
   */
  lemma {:induction false} ChunksDoNotMatter(
    config: Config, parse: Parser, f: Fields, conn: Conn, s: Bytes, worlds: seq<World>)
    requires Delivers(conn, s) && Capped(conn, BUFFER_CAPACITY) && ValidWorlds(worlds)
    requires InSync(config, parse, f, s, worlds) && TlsFlagged(f)
    ensures Transcribe(config, parse, f, conn, worlds) == TranscribeBytes(config, parse, f, s, worlds)
    decreases |worlds|
  {
    var n := LineLength(s);
    if worlds == [] || s == [] || n > COMMAND_LINE_MAX {
      NoTurn(config, parse, f, conn, s, worlds);
    } else {
      var r := ReadOneCapped(conn, s, COMMAND_LINE_MAX, BUFFER_CAPACITY);
      var c := parse(StripEol(s[..n]));
      var turn := TurnDue(config, f, c, worlds[0], s[n..]);
      var reaction := React(config, f, turn);
      InSyncStep(config, parse, f, s, worlds, n, c, reaction);
      TurnFromBytes(config, f, c, worlds[0], r.conn, s[n..]);
      var rest := Transcript([], false);
      if !reaction.stop {
        var next := NextConn(config, f, c, worlds[0], r.conn);
        ReactKeepsTlsFlagged(config, f, turn);
        ChunksDoNotMatter(config, parse, reaction.fields, next,
                          LeftDue(config, f, c, worlds[0], s[n..]), worlds[1..]);
        rest := Transcribe(config, parse, reaction.fields, next, worlds[1..]);
      }
      SameTurn(config, parse, f, conn, s, worlds, n, r, c, turn, reaction, rest);
    }
  }

  /** The bytes of a DATA command line. */
  const DATA_LINE: Bytes := [68, 65, 84, 65, CR, LF]

  /**
   * End to end: with a sender and recipients on record, a stuffed body that fits is taken
   * as it was, a copy is made for each recipient in order, and the session goes on, reset,
   * with exactly the bytes after the end mark.
   */
  lemma {:induction false} BodyIsDelivered(config: Config, parse: Parser, f: Fields, body: Bytes, rest: Bytes,
                                           conn: Conn, worlds: seq<World>, turn: Turn)
    returns (unread: Conn)
    requires ValidWorlds(worlds) && worlds != [] && parse(StripEol(DATA_LINE)) == Data
    requires f.mailFrom.Some? && f.rcpts != [] && worlds[0].headroom && worlds[0].saves >= |f.rcpts|
    requires WholeLines(body) && |body| <= config.maxMessageSize
    requires Delivers(conn, DATA_LINE + (DotStuff(body) + ([DOT, CR, LF] + rest)))
    requires turn == Turn(Data, worlds[0], Complete(body), false)
    ensures Delivers(unread, rest)
    ensures Transcribe(config, parse, f, conn, worlds)
         == Prepend(turn, Transcribe(config, parse, ResetTx(f), unread, worlds[1..]))
    ensures React(config, f, turn)
         == Reaction(ResetTx(f),
                     [Reply(354)] + (Copies(f.rcpts, |f.rcpts|, f.mailFrom.value, body) + [Reply(250)]), false)
  {
    var r: LineRead;
    r, unread := ReadBody(body, rest, conn, config.maxMessageSize);
    assert turn == TurnOf(config, f, Data, worlds[0], r.conn);
    assert unread == NextConn(config, f, Data, worlds[0], r.conn);
    var reaction := CopiesForAll(config, f, turn, body);
    TranscribeStep(config, parse, f, conn, worlds, r, Data, turn, reaction,
                   Transcribe(config, parse, ResetTx(f), unread, worlds[1..]));
  }

  /** A message read whole, with no save failing, is saved for every recipient in order. */
  lemma {:induction false} CopiesForAll(config: Config, f: Fields, turn: Turn, body: Bytes)
    returns (reaction: Reaction)
    requires turn.command.Data? && turn.outcome == Complete(body)
    requires ReadsData(f, Data, turn.world) && turn.world.saves >= |f.rcpts|
    ensures reaction == React(config, f, turn)
    ensures reaction
         == Reaction(ResetTx(f),
                     [Reply(354)] + (Copies(f.rcpts, |f.rcpts|, f.mailFrom.value, body) + [Reply(250)]), false)
  {
    reaction := React(config, f, turn);
  }

  /** A DATA line and a stuffed body that fits, read off the connection. */
  lemma {:induction false} ReadBody(body: Bytes, rest: Bytes, conn: Conn, max: nat)
    returns (r: LineRead, unread: Conn)
    requires WholeLines(body) && |body| <= max
    requires Delivers(conn, DATA_LINE + (DotStuff(body) + ([DOT, CR, LF] + rest)))
    ensures r == LineFrom(conn, [], COMMAND_LINE_MAX) && r.status.Line? && r.line == DATA_LINE
    ensures DataFrom(r.conn, [], false, max) == (Complete(body), unread)
    ensures Delivers(unread, rest)
  {
    var wire := DotStuff(body) + ([DOT, CR, LF] + rest);
    r := ReadOne(conn, DATA_LINE + wire, COMMAND_LINE_MAX);
    LineLengthPrefix(DATA_LINE, wire);
    assert (DATA_LINE + wire)[..6] == DATA_LINE && (DATA_LINE + wire)[6..] == wire;
    DotTransparency(body, rest, r.conn, max);
    unread := DataFrom(r.conn, [], false, max).1;
  }

  /** The recipients for whom the message has been saved. */
  predicate SavedFor(events: seq<Event>, rcpt: string, sender: string, data: Bytes) {
    Saved(rcpt, sender, data) in events
  }

  /**
   * DATA is answered 250 exactly when the message was read whole and a copy saved for every
   * recipient; an oversize or broken-off message saves nothing.
   */
  lemma {:induction false} AcceptedMeansAllSaved(
    config: Config, f: Fields, w: World, outcome: DataOutcome, events: seq<Event>)
    requires Sound(config, f) && ReadsData(f, Data, w)
    requires events == DataReaction(f, w, outcome).events
    ensures Reply(250) in events <==>
            outcome.Complete? && forall r :: r in f.rcpts ==> SavedFor(events, r, f.mailFrom.value, outcome.data)
    ensures !outcome.Complete? ==> forall r, sender, data :: !SavedFor(events, r, sender, data)
  {
    if outcome.Complete? {
      var n := SaveCount(f, w);
      var copies := Copies(f.rcpts, n, Sender(f), outcome.data);
      forall i | 0 <= i < n ensures SavedFor(events, f.rcpts[i], f.mailFrom.value, outcome.data) {
        assert events[i + 1] == copies[i];
      }
      assert events[|events| - 1] == Reply(if n == |f.rcpts| then 250 else 451);
      if n < |f.rcpts| {
        assert Saved(f.rcpts[n], f.mailFrom.value, outcome.data) !in copies;
        assert !SavedFor(events, f.rcpts[n], f.mailFrom.value, outcome.data);
      }
    }
  }
}
