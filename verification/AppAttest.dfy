/**
 * Device attestation and token refresh as a concurrent protocol. Each request is a chain
 * of atomic effects on the challenge table and the device table; requests, idle pruning
 * and challenge issuing interleave freely.
 */
module AppAttest {
  import opened Bytes
  import opened Challenges

  const MAX_KEY_ID_LEN: nat := 64
  const U32_LIMIT: nat := 0x1_0000_0000

  datatype Device = Device(publicKey: Bytes, counter: int, lastSeenAt: int)

  /** Re-attesting refreshes the row; only an unknown key gets a new one, at counter zero. */
  function Upserted(devices: map<string, Device>, key: string, publicKey: Bytes, now: int): map<string, Device> {
    if key in devices then devices[key := devices[key].(lastSeenAt := now)]
    else devices[key := Device(publicKey, 0, now)]
  }

  /** Compare-and-advance: only a strictly larger counter is written. */
  function Advanced(devices: map<string, Device>, key: string, counter: int, now: int): (map<string, Device>, bool) {
    if key in devices && counter > devices[key].counter
    then (devices[key := devices[key].(counter := counter, lastSeenAt := now)], true)
    else (devices, false)
  }

  function Pruned(devices: map<string, Device>, idleBefore: int): map<string, Device> {
    map k | k in devices && devices[k].lastSeenAt >= idleBefore :: devices[k]
  }

  class DeviceTable {
    var devices: map<string, Device>

    constructor ()
      ensures devices == map[]
    {
      devices := map[];
    }

    method Upsert(key: string, publicKey: Bytes, now: int) returns (device: Device)
      modifies this
      ensures devices == Upserted(old(devices), key, publicKey, now)
      ensures key in devices && device == devices[key]
      ensures device.counter == if key in old(devices) then old(devices)[key].counter else 0
      ensures device.publicKey == if key in old(devices) then old(devices)[key].publicKey else publicKey
      ensures device.lastSeenAt == now
      ensures forall k :: k != key ==> (k in devices <==> k in old(devices))
      ensures forall k :: k != key && k in devices ==> devices[k] == old(devices)[k]
    {
      if key in devices {
        devices := devices[key := devices[key].(lastSeenAt := now)];
      } else {
        devices := devices[key := Device(publicKey, 0, now)];
      }
      device := devices[key];
    }

    method AdvanceCounter(key: string, counter: int, now: int) returns (advanced: bool)
      modifies this
      ensures (devices, advanced) == Advanced(old(devices), key, counter, now)
      ensures advanced <==> key in old(devices) && old(devices)[key].counter < counter
      ensures !advanced ==> devices == old(devices)
      ensures advanced ==> devices == old(devices)[key := Device(old(devices)[key].publicKey, counter, now)]
    {
      advanced := key in devices && counter > devices[key].counter;
      if advanced {
        devices := devices[key := devices[key].(counter := counter, lastSeenAt := now)];
      }
    }

    method Prune(idleBefore: int) returns (removed: nat)
      modifies this
      ensures devices == Pruned(old(devices), idleBefore)
      ensures forall k :: k in devices <==> k in old(devices) && old(devices)[k].lastSeenAt >= idleBefore
      ensures forall k :: k in devices ==> devices[k] == old(devices)[k]
      ensures removed == |old(devices)| - |devices|
    {
      var before := |devices|;
      var kept := Pruned(devices, idleBefore);
      assert kept.Keys <= devices.Keys;
      assert devices.Keys == kept.Keys + (devices.Keys - kept.Keys);
      devices := kept;
      removed := before - |devices|;
    }
  }

  // ----- The protocol ---------------------------------------------------------------

  /** Where a request stands between its atomic steps. */
  datatype Phase =
    | Attesting(key: string)                     // challenge consumed, attestation to be verified
    | Asserting(key: string)                     // challenge consumed, device row to be read
    | Reading(key: string, seen: Device)         // row read, assertion to be verified against it
    | Advancing(key: string, counter: int)       // assertion verified, counter to be written

  /** What happened, for the record. */
  datatype Entry =
    | PassedChallenge(challenge: string)
    | Accepted(key: string, counter: int)
    | Deleted(keys: set<string>)

  datatype State = State(
    challenges: map<string, int>, devices: map<string, Device>, requests: map<nat, Phase>, log: seq<Entry>)

  datatype Action =
    | IssueChallenge(challenge: string, now: int)
    | BeginAttest(request: nat, key: string, challenge: string, now: int)
    | BeginAssert(request: nat, key: string, challenge: string, now: int)
    | Register(request: nat, genuine: bool, publicKey: Bytes, now: int)
    | ReadDevice(request: nat)
    | VerifyAssertion(request: nat, signed: bool, claimed: nat)
    | WriteCounter(request: nat, now: int)
    | PruneIdle(idleBefore: int)

  const INITIAL := State(map[], map[], map[], [])

  predicate ValidKeyId(key: string) {
    key != "" && |key| <= MAX_KEY_ID_LEN
  }

  /** The challenge step shared by both requests; it is consumed even when it has expired. */
  function Begun(s: State, request: nat, phase: Phase, challenge: string, now: int, ttl: nat): State {
    if request in s.requests || !ValidKeyId(phase.key) then s
    else if !Redeems(s.challenges, challenge, now, ttl) then s.(challenges := s.challenges - {challenge})
    else s.(challenges := s.challenges - {challenge},
            requests := s.requests[request := phase],
            log := s.log + [PassedChallenge(challenge)])
  }

  /** The assertion check: a good signature over a counter above the one read. */
  predicate Verifies(seen: Device, signed: bool, claimed: nat) {
    signed && claimed < U32_LIMIT && 0 <= seen.counter < U32_LIMIT && claimed > seen.counter
  }

  /** One atomic step; a step that is not the request's turn changes nothing. */
  function Step(s: State, a: Action, ttl: nat): State {
    match a
    case IssueChallenge(c, now) => s.(challenges := Issued(s.challenges, c, now, ttl))
    case BeginAttest(r, key, c, now) => Begun(s, r, Attesting(key), c, now, ttl)
    case BeginAssert(r, key, c, now) => Begun(s, r, Asserting(key), c, now, ttl)
    case Register(r, genuine, publicKey, now) =>
      if r !in s.requests || !s.requests[r].Attesting? then s
      else if !genuine then s.(requests := s.requests - {r})
      else s.(requests := s.requests - {r}, devices := Upserted(s.devices, s.requests[r].key, publicKey, now))
    case ReadDevice(r) =>
      if r !in s.requests || !s.requests[r].Asserting? then s
      else if s.requests[r].key !in s.devices then s.(requests := s.requests - {r})
      else s.(requests := s.requests[r := Reading(s.requests[r].key, s.devices[s.requests[r].key])])
    case VerifyAssertion(r, signed, claimed) =>
      if r !in s.requests || !s.requests[r].Reading? then s
      else if !Verifies(s.requests[r].seen, signed, claimed) then s.(requests := s.requests - {r})
      else s.(requests := s.requests[r := Advancing(s.requests[r].key, claimed)])
    case WriteCounter(r, now) =>
      if r !in s.requests || !s.requests[r].Advancing? then s
      else
        var key, counter := s.requests[r].key, s.requests[r].counter;
        var w := Advanced(s.devices, key, counter, now);
        s.(requests := s.requests - {r}, devices := w.0,
           log := if w.1 then s.log + [Accepted(key, counter)] else s.log)
    case PruneIdle(idleBefore) =>
      var kept := Pruned(s.devices, idleBefore);
      s.(devices := kept, log := s.log + [Deleted(s.devices.Keys - kept.Keys)])
  }

  /** The state after more actions. */
  function RunFrom(s: State, actions: seq<Action>, ttl: nat): State {
    if actions == [] then s
    else Step(RunFrom(s, actions[..|actions| - 1], ttl), actions[|actions| - 1], ttl)
  }

  function Run(actions: seq<Action>, ttl: nat): State {
    RunFrom(INITIAL, actions, ttl)
  }

  lemma RunSnoc(s: State, actions: seq<Action>, a: Action, ttl: nat)
    ensures RunFrom(s, actions + [a], ttl) == Step(RunFrom(s, actions, ttl), a, ttl)
  {
    assert (actions + [a])[..|actions|] == actions;
  }

  lemma {:induction false} RunConcat(s: State, a: seq<Action>, b: seq<Action>, t: State, ttl: nat)
    requires t == RunFrom(s, a, ttl)
    ensures RunFrom(s, a + b, ttl) == RunFrom(t, b, ttl)
    decreases |b|
  {
    if b == [] {
      assert a + b == a;
    } else {
      var init, last := SplitLast(b);
      RunConcat(s, a, init, t, ttl);
      ConcatStep(s, a + init, t, init, last, ttl);
      Reassociate(a, init, [last]);
    }
  }

  lemma SplitLast(b: seq<Action>) returns (init: seq<Action>, last: Action)
    requires b != []
    ensures b == init + [last] && |init| < |b|
  {
    init, last := b[..|b| - 1], b[|b| - 1];
  }

  lemma {:induction false} ConcatStep(s: State, long: seq<Action>, t: State, short: seq<Action>, a: Action, ttl: nat)
    requires RunFrom(s, long, ttl) == RunFrom(t, short, ttl)
    ensures RunFrom(s, long + [a], ttl) == RunFrom(t, short + [a], ttl)
  {
    RunSnoc(s, long, a, ttl);
    RunSnoc(t, short, a, ttl);
  }

  // ----- Counters -------------------------------------------------------------------

  /** No row of `key` was deleted strictly after entry `i`. */
  predicate NoDeletionAfter(log: seq<Entry>, i: nat, key: string) {
    forall m :: i < m < |log| && log[m].Deleted? ==> key !in log[m].keys
  }

  /** Every counter accepted since the row's creation is still covered by the row. */
  predicate CountersCovered(s: State) {
    forall i :: 0 <= i < |s.log| && s.log[i].Accepted? && NoDeletionAfter(s.log, i, s.log[i].key) ==>
      s.log[i].key in s.devices && s.log[i].counter <= s.devices[s.log[i].key].counter
  }

  /** While a row lives, no step lowers its counter, re-attestation included. */
  lemma CounterNeverDrops(s: State, a: Action, ttl: nat, key: string)
    requires key in s.devices && key in Step(s, a, ttl).devices
    ensures s.devices[key].counter <= Step(s, a, ttl).devices[key].counter
    ensures a.Register? ==> s.devices[key].counter == Step(s, a, ttl).devices[key].counter
    ensures s.devices[key].publicKey == Step(s, a, ttl).devices[key].publicKey
  {
  }

  /** The log only grows, by at most one entry a step. */
  lemma StepExtendsLog(s: State, a: Action, ttl: nat)
    ensures var s' := Step(s, a, ttl);
            s'.log == s.log || (|s'.log| == |s.log| + 1 && s'.log[..|s.log|] == s.log)
  {
  }

  /** A row goes only in a step that logs its deletion. */
  lemma RowsGoLogged(s: State, a: Action, ttl: nat, key: string)
    requires key in s.devices && key !in Step(s, a, ttl).devices
    ensures |Step(s, a, ttl).log| == |s.log| + 1 && Step(s, a, ttl).log[|s.log|].Deleted?
    ensures key in Step(s, a, ttl).log[|s.log|].keys
  {
  }

  lemma {:induction false} NoDeletionEarlier(log: seq<Entry>, log': seq<Entry>, i: nat, key: string)
    requires |log| <= |log'| && log'[..|log|] == log && NoDeletionAfter(log', i, key)
    ensures NoDeletionAfter(log, i, key)
  {
    forall m | i < m < |log| && log[m].Deleted? ensures key !in log[m].keys {
      assert log[m] == log'[..|log|][m];
    }
  }

  /** Coverage of one entry of the log, kept by a step. */
  lemma {:induction false} EntryCovered(s: State, s': State, a: Action, ttl: nat, i: nat, key: string)
    requires CountersCovered(s) && s' == Step(s, a, ttl) && i < |s'.log|
    requires s'.log[i].Accepted? && s'.log[i].key == key && NoDeletionAfter(s'.log, i, key)
    ensures key in s'.devices && s'.log[i].counter <= s'.devices[key].counter
  {
    StepExtendsLog(s, a, ttl);
    if i < |s.log| {
      assert s'.log[i] == s'.log[..|s.log|][i];
      NoDeletionEarlier(s.log, s'.log, i, key);
      if key !in s'.devices {
        RowsGoLogged(s, a, ttl, key);
      }
      CounterNeverDrops(s, a, ttl, key);
    }
  }

  lemma {:induction false} CoverageKept(s: State, a: Action, ttl: nat)
    requires CountersCovered(s)
    ensures CountersCovered(Step(s, a, ttl))
  {
    var s' := Step(s, a, ttl);
    forall i: nat | i < |s'.log| && s'.log[i].Accepted? && NoDeletionAfter(s'.log, i, s'.log[i].key)
      ensures s'.log[i].key in s'.devices && s'.log[i].counter <= s'.devices[s'.log[i].key].counter
    {
      EntryCovered(s, s', a, ttl, i, s'.log[i].key);
    }
  }

  lemma {:induction false} AlwaysCovered(actions: seq<Action>, ttl: nat)
    ensures CountersCovered(Run(actions, ttl))
  {
    if actions != [] {
      AlwaysCovered(actions[..|actions| - 1], ttl);
      CoverageKept(Run(actions[..|actions| - 1], ttl), actions[|actions| - 1], ttl);
    }
  }

  /** Entries `i` and `j` accept counters for one row: no deletion of it lies between them. */
  predicate SameRow(log: seq<Entry>, i: nat, j: nat) {
    && i < j < |log| && log[i].Accepted? && log[j].Accepted? && log[i].key == log[j].key
    && NoDeletionAfter(log[..j], i, log[i].key)
  }

  /** An entry just accepted tops every counter accepted for the same row. */
  lemma NewestTops(s: State, a: Action, ttl: nat, i: nat)
    requires CountersCovered(s) && SameRow(Step(s, a, ttl).log, i, |s.log|)
    ensures Step(s, a, ttl).log[i].counter < Step(s, a, ttl).log[|s.log|].counter
  {
    var s' := Step(s, a, ttl);
    StepExtendsLog(s, a, ttl);
    assert s'.log[..|s.log|] == s.log;
    assert s'.log[i] == s.log[i];
  }

  lemma SameRowEarlier(log: seq<Entry>, log': seq<Entry>, i: nat, j: nat)
    requires |log| <= |log'| && log'[..|log|] == log && j < |log| && SameRow(log', i, j)
    ensures SameRow(log, i, j) && log[i] == log'[i] && log[j] == log'[j]
  {
    assert log[i] == log'[..|log|][i] && log[j] == log'[..|log|][j];
    assert log[..j] == log'[..j];
  }

  lemma {:induction false} IncreaseStep(s: State, s': State, a: Action, ttl: nat, i: nat, j: nat)
    requires s' == Step(s, a, ttl) && CountersCovered(s) && SameRow(s'.log, i, j)
    requires SameRow(s.log, i, j) ==> s.log[i].counter < s.log[j].counter
    ensures s'.log[i].counter < s'.log[j].counter
  {
    StepExtendsLog(s, a, ttl);
    if j < |s.log| {
      SameRowEarlier(s.log, s'.log, i, j);
    } else {
      NewestTops(s, a, ttl, i);
    }
  }

  /** Under every interleaving, the counters accepted for a device strictly increase while its row lives. */
  lemma {:induction false} AcceptedCountersIncrease(actions: seq<Action>, ttl: nat, i: nat, j: nat)
    requires SameRow(Run(actions, ttl).log, i, j)
    ensures Run(actions, ttl).log[i].counter < Run(actions, ttl).log[j].counter
  {
    assert actions != [];
    var past, a := actions[..|actions| - 1], actions[|actions| - 1];
    var s := Run(past, ttl);
    AlwaysCovered(past, ttl);
    if SameRow(s.log, i, j) {
      AcceptedCountersIncrease(past, ttl, i, j);
    }
    IncreaseStep(s, Run(actions, ttl), a, ttl, i, j);
  }

  // ----- Challenges -------------------------------------------------------------------

  function IssuedTimes(actions: seq<Action>, c: string): nat {
    if actions == [] then 0
    else
      var a := actions[|actions| - 1];
      IssuedTimes(actions[..|actions| - 1], c) + if a.IssueChallenge? && a.challenge == c then 1 else 0
  }

  function PassedTimes(log: seq<Entry>, c: string): nat {
    if log == [] then 0
    else PassedTimes(log[..|log| - 1], c) + if log[|log| - 1] == PassedChallenge(c) then 1 else 0
  }

  function Spent(s: State, c: string): nat {
    PassedTimes(s.log, c) + if c in s.challenges then 1 else 0
  }

  lemma PassedSnoc(log: seq<Entry>, e: Entry, c: string)
    ensures PassedTimes(log + [e], c) == PassedTimes(log, c) + if e == PassedChallenge(c) then 1 else 0
  {
    assert (log + [e])[..|log|] == log;
  }

  lemma {:induction false} BegunSpends(s: State, r: nat, phase: Phase, d: string, now: int, ttl: nat, c: string)
    ensures Spent(Begun(s, r, phase, d, now, ttl), c) <= Spent(s, c)
  {
    PassedSnoc(s.log, PassedChallenge(d), c);
  }

  /** The other steps neither pass a challenge nor put one back. */
  lemma {:induction false} OtherStep(s: State, a: Action, ttl: nat) returns (added: seq<Entry>)
    requires !a.IssueChallenge? && !a.BeginAttest? && !a.BeginAssert?
    ensures Step(s, a, ttl).challenges == s.challenges && Step(s, a, ttl).log == s.log + added
    ensures added == [] || (|added| == 1 && !added[0].PassedChallenge?)
  {
    var log := Step(s, a, ttl).log;
    added := if log == s.log then [] else [log[|s.log|]];
  }

  lemma {:induction false} OtherStepSpends(s: State, a: Action, ttl: nat, c: string)
    requires !a.IssueChallenge? && !a.BeginAttest? && !a.BeginAssert?
    ensures Spent(Step(s, a, ttl), c) == Spent(s, c)
  {
    var added := OtherStep(s, a, ttl);
    if added == [] {
      assert s.log + added == s.log;
    } else {
      assert added == [added[0]];
      PassedSnoc(s.log, added[0], c);
    }
  }

  /** One step: what it passes was outstanding, and nothing but issuing puts a challenge there. */
  lemma {:induction false} StepSpends(s: State, a: Action, ttl: nat, c: string)
    ensures Spent(Step(s, a, ttl), c) <= Spent(s, c) + if a.IssueChallenge? && a.challenge == c then 1 else 0
  {
    match a
    case IssueChallenge(_, _) =>
    case BeginAttest(r, key, d, now) => BegunSpends(s, r, Attesting(key), d, now, ttl, c);
    case BeginAssert(r, key, d, now) => BegunSpends(s, r, Asserting(key), d, now, ttl, c);
    case _ => OtherStepSpends(s, a, ttl, c);
  }

  /** No more requests get past the challenge step on one challenge than times it was issued. */
  lemma {:induction false} ChallengesAreSingleUse(actions: seq<Action>, ttl: nat, c: string)
    ensures PassedTimes(Run(actions, ttl).log, c) + (if c in Run(actions, ttl).challenges then 1 else 0)
         <= IssuedTimes(actions, c)
  {
    if actions != [] {
      ChallengesAreSingleUse(actions[..|actions| - 1], ttl, c);
      StepSpends(Run(actions[..|actions| - 1], ttl), actions[|actions| - 1], ttl, c);
    }
  }

  // ----- Where grants and rows come from ------------------------------------------------

  /** At `b`, request `r` began on `key`, unused before, with a challenge that was good. */
  predicate BeganAt(actions: seq<Action>, ttl: nat, b: nat, r: nat, key: string, attest: bool)
    requires b < |actions|
  {
    var s, a := Run(actions[..b], ttl), actions[b];
    && (if attest then a.BeginAttest? else a.BeginAssert?)
    && a.request == r && a.key == key && 0 < |key| <= 64 && r !in s.requests
    && Redeems(s.challenges, a.challenge, a.now, ttl)
  }

  /** Request `r` is under way after each of the actions `b` to `n - 1`. */
  predicate Held(actions: seq<Action>, ttl: nat, r: nat, b: nat, n: nat)
    requires n <= |actions|
  {
    forall j :: b < j <= n ==> r in Run(actions[..j], ttl).requests
  }

  /** At `u`, request `r` read the row of `key`, as `seen`. */
  predicate ReadAt(actions: seq<Action>, ttl: nat, u: nat, r: nat, key: string, seen: Device)
    requires u < |actions|
  {
    var devices := Run(actions[..u], ttl).devices;
    actions[u] == ReadDevice(r) && key in devices && devices[key] == seen
  }

  /** How far a request has come, by the actions that brought it there. */
  predicate Traced(actions: seq<Action>, ttl: nat, r: nat, phase: Phase, b: nat, u: nat, v: nat) {
    && b < |actions| && BeganAt(actions, ttl, b, r, phase.key, phase.Attesting?) && Held(actions, ttl, r, b, |actions|)
    && (phase.Reading? ==> b < u < |actions| && ReadAt(actions, ttl, u, r, phase.key, phase.seen))
    && (phase.Advancing? ==> Verified(actions, ttl, r, phase.key, phase.counter, b, u, v))
  }

  /** Between `b` and `v`, request `r` read the row and proved, by signature, a counter above the one read. */
  predicate Verified(actions: seq<Action>, ttl: nat, r: nat, key: string, counter: int, b: nat, u: nat, v: nat) {
    && b < u < v < |actions|
    && key in Run(actions[..u], ttl).devices && Run(actions[..u], ttl).devices[key].counter < counter
    && actions[u] == ReadDevice(r)
    && actions[v].VerifyAssertion? && actions[v].request == r && actions[v].signed && actions[v].claimed == counter
  }

  lemma {:induction false} Earlier(actions: seq<Action>, past: seq<Action>, j: nat)
    requires past <= actions && j <= |past|
    ensures actions[..j] == past[..j]
  {
  }

  lemma {:induction false} BeganStill(
    actions: seq<Action>, past: seq<Action>, ttl: nat, b: nat, r: nat, key: string, attest: bool)
    requires past <= actions && b < |past|
    ensures BeganAt(actions, ttl, b, r, key, attest) == BeganAt(past, ttl, b, r, key, attest)
  {
    Earlier(actions, past, b);
  }

  lemma {:induction false} HeldStill(actions: seq<Action>, past: seq<Action>, ttl: nat, r: nat, b: nat, n: nat)
    requires past <= actions && n <= |past| && Held(past, ttl, r, b, n)
    ensures Held(actions, ttl, r, b, n)
  {
    forall j | b < j <= n ensures r in Run(actions[..j], ttl).requests {
      Earlier(actions, past, j);
    }
  }

  lemma {:induction false} VerifiedStill(
    actions: seq<Action>, past: seq<Action>, ttl: nat, r: nat, key: string, counter: int, b: nat, u: nat, v: nat)
    requires past <= actions && Verified(past, ttl, r, key, counter, b, u, v)
    ensures Verified(actions, ttl, r, key, counter, b, u, v)
  {
    Earlier(actions, past, u);
  }

  /** A request that goes from one phase to another in one action. */
  predicate PhaseStep(before: Phase, phase: Phase, a: Action, r: nat, devices: map<string, Device>) {
    || phase == before
    || (&& a == ReadDevice(r) && before.Asserting? && before.key in devices
        && phase == Reading(before.key, devices[before.key]))
    || (&& a.VerifyAssertion? && a.request == r && a.signed && before.Reading?
        && before.seen.counter < a.claimed && phase == Advancing(before.key, a.claimed))
  }

  /** One step of one request. */
  lemma {:induction false} RequestStep(s: State, s': State, a: Action, ttl: nat, r: nat)
    requires s' == Step(s, a, ttl) && r in s'.requests
    ensures r !in s.requests ==>
              && (a.BeginAttest? || a.BeginAssert?) && a.request == r && ValidKeyId(a.key)
              && s'.requests[r] == (if a.BeginAttest? then Attesting(a.key) else Asserting(a.key))
              && Redeems(s.challenges, a.challenge, a.now, ttl)
    ensures r in s.requests ==> PhaseStep(s.requests[r], s'.requests[r], a, r, s.devices)
  {
  }

  /** A request that has just begun. */
  lemma {:induction false} TraceBegins(actions: seq<Action>, ttl: nat, r: nat, phase: Phase, n: nat, s: State)
    requires n + 1 == |actions| && s == Run(actions[..n], ttl) && r !in s.requests
    requires r in Run(actions, ttl).requests && phase == Run(actions, ttl).requests[r]
    ensures Traced(actions, ttl, r, phase, n, n, n)
  {
    RequestStep(s, Run(actions, ttl), actions[n], ttl, r);
    assert actions[..n + 1] == actions;
  }

  /** A request still under way after one more action is held that much longer. */
  lemma {:induction false} HeldLonger(actions: seq<Action>, past: seq<Action>, ttl: nat, r: nat, b: nat)
    requires past <= actions && |actions| == |past| + 1
    requires Held(past, ttl, r, b, |past|) && r in Run(actions, ttl).requests
    ensures Held(actions, ttl, r, b, |actions|)
  {
    HeldStill(actions, past, ttl, r, b, |past|);
    assert actions[..|actions|] == actions;
  }

  lemma {:induction false} ReadStill(
    actions: seq<Action>, past: seq<Action>, ttl: nat, u: nat, r: nat, key: string, seen: Device)
    requires past <= actions && u < |past| && ReadAt(past, ttl, u, r, key, seen)
    ensures ReadAt(actions, ttl, u, r, key, seen)
  {
    Earlier(actions, past, u);
  }

  /** What the next phase of a request calls for, from what its last phase did. */
  lemma {:induction false} TraceNext(
    actions: seq<Action>, past: seq<Action>, ttl: nat, r: nat, before: Phase, phase: Phase, b: nat, u: nat, v: nat)
    returns (u': nat, v': nat)
    requires past <= actions && |actions| == |past| + 1 && Traced(past, ttl, r, before, b, u, v)
    requires PhaseStep(before, phase, actions[|past|], r, Run(past, ttl).devices)
    requires Held(actions, ttl, r, b, |actions|)
    ensures Traced(actions, ttl, r, phase, b, u', v')
  {
    BeganStill(actions, past, ttl, b, r, phase.key, phase.Attesting?);
    u', v' := u, v;
    if phase == before {
      if phase.Reading? {
        ReadStill(actions, past, ttl, u, r, phase.key, phase.seen);
      } else if phase.Advancing? {
        VerifiedStill(actions, past, ttl, r, phase.key, phase.counter, b, u, v);
      }
    } else if phase.Reading? {
      u' := |past|;
      assert actions[..|past|] == past;
    } else {
      v' := |past|;
      ReadStill(actions, past, ttl, u, r, phase.key, before.seen);
    }
  }

  /** Every request under way has been through the steps its phase calls for. */
  lemma {:induction false} RequestsAreTraced(actions: seq<Action>, ttl: nat, r: nat, phase: Phase)
    returns (b: nat, u: nat, v: nat)
    requires r in Run(actions, ttl).requests && phase == Run(actions, ttl).requests[r]
    ensures Traced(actions, ttl, r, phase, b, u, v)
  {
    assert actions != [];
    var n := |actions| - 1;
    var past := actions[..n];
    var s := Run(past, ttl);
    if r !in s.requests {
      b, u, v := n, n, n;
      TraceBegins(actions, ttl, r, phase, n, s);
    } else {
      RequestStep(s, Run(actions, ttl), actions[n], ttl, r);
      b, u, v := RequestsAreTraced(past, ttl, r, s.requests[r]);
      HeldLonger(actions, past, ttl, r, b);
      u, v := TraceNext(actions, past, ttl, r, s.requests[r], phase, b, u, v);
    }
  }

  /** The steps behind a counter accepted at `w`. */
  ghost predicate Earned(actions: seq<Action>, ttl: nat, key: string, counter: int, r: nat, b: nat, u: nat, v: nat, w: nat) {
    && v < w < |actions| && Verified(actions, ttl, r, key, counter, b, u, v)
    && BeganAt(actions, ttl, b, r, key, false) && Held(actions, ttl, r, b, w)
    && actions[w].WriteCounter? && actions[w].request == r
  }

  lemma {:induction false} EarnedStill(
    actions: seq<Action>, past: seq<Action>, ttl: nat, key: string, counter: int,
    r: nat, b: nat, u: nat, v: nat, w: nat)
    requires past <= actions && Earned(past, ttl, key, counter, r, b, u, v, w)
    ensures Earned(actions, ttl, key, counter, r, b, u, v, w)
  {
    VerifiedStill(actions, past, ttl, r, key, counter, b, u, v);
    BeganStill(actions, past, ttl, b, r, key, false);
    HeldStill(actions, past, ttl, r, b, w);
  }

  /** A counter that has just been accepted. */
  lemma {:induction false} JustEarned(
    actions: seq<Action>, past: seq<Action>, ttl: nat, key: string, counter: int, r: nat)
    returns (b: nat, u: nat, v: nat)
    requires past <= actions && |actions| == |past| + 1
    requires actions[|past|].WriteCounter? && actions[|past|].request == r
    requires r in Run(past, ttl).requests && Run(past, ttl).requests[r] == Advancing(key, counter)
    ensures Earned(actions, ttl, key, counter, r, b, u, v, |past|)
  {
    b, u, v := RequestsAreTraced(past, ttl, r, Advancing(key, counter));
    VerifiedStill(actions, past, ttl, r, key, counter, b, u, v);
    BeganStill(actions, past, ttl, b, r, key, false);
    HeldStill(actions, past, ttl, r, b, |past|);
  }

  /**
   * Every counter accepted for a key was earned by one request: begun on that key with a
   * good challenge, the row read, a signature verified over that counter, above the one read.
   */
  lemma {:induction false} AcceptedWasEarned(actions: seq<Action>, ttl: nat, i: nat, key: string, counter: int)
    returns (r: nat, b: nat, u: nat, v: nat, w: nat)
    requires i < |Run(actions, ttl).log| && Run(actions, ttl).log[i] == Accepted(key, counter)
    ensures Earned(actions, ttl, key, counter, r, b, u, v, w)
  {
    assert actions != [];
    w := |actions| - 1;
    var past, a := actions[..w], actions[w];
    var s := Run(past, ttl);
    OldOrNew(s, Run(actions, ttl), a, ttl, i, key, counter);
    if i < |s.log| {
      r, b, u, v, w := AcceptedWasEarned(past, ttl, i, key, counter);
      EarnedStill(actions, past, ttl, key, counter, r, b, u, v, w);
    } else {
      r := a.request;
      b, u, v := JustEarned(actions, past, ttl, key, counter, r);
    }
  }

  /** An accepted counter in the log was there before, or was just written. */
  lemma {:induction false} OldOrNew(s: State, s': State, a: Action, ttl: nat, i: nat, key: string, counter: int)
    requires s' == Step(s, a, ttl) && i < |s'.log| && s'.log[i] == Accepted(key, counter)
    ensures i < |s.log| ==> s.log[i] == Accepted(key, counter)
    ensures i >= |s.log| ==>
              a.WriteCounter? && a.request in s.requests && s.requests[a.request] == Advancing(key, counter)
  {
    StepExtendsLog(s, a, ttl);
    if i < |s.log| {
      assert s.log[i] == s'.log[..|s.log|][i];
    } else {
      assert s'.log == s.log + [Accepted(key, counter)];
      AcceptedFrom(s, a, ttl, key, counter);
    }
  }

  /** One step of one row. */
  lemma {:induction false} RowStep(s: State, s': State, a: Action, ttl: nat, key: string)
    requires s' == Step(s, a, ttl) && key in s'.devices
    ensures key in s.devices ==> s'.devices[key].publicKey == s.devices[key].publicKey
    ensures key !in s.devices ==>
              && a.Register? && a.genuine && a.request in s.requests && s.requests[a.request] == Attesting(key)
              && s'.devices[key] == Device(a.publicKey, 0, a.now)
  {
  }

  /** At `g`, the genuine attestation of request `r`, begun at `b`, gave `key` a row it did not have. */
  ghost predicate RegisteredAt(actions: seq<Action>, ttl: nat, key: string, publicKey: Bytes, r: nat, b: nat, g: nat) {
    && b < g < |actions| && BeganAt(actions, ttl, b, r, key, true) && Held(actions, ttl, r, b, g)
    && key !in Run(actions[..g], ttl).devices
    && actions[g].Register? && actions[g].request == r && actions[g].genuine && actions[g].publicKey == publicKey
  }

  lemma {:induction false} RegisteredStill(
    actions: seq<Action>, past: seq<Action>, ttl: nat, key: string, publicKey: Bytes, r: nat, b: nat, g: nat)
    requires past <= actions && RegisteredAt(past, ttl, key, publicKey, r, b, g)
    ensures RegisteredAt(actions, ttl, key, publicKey, r, b, g)
  {
    Earlier(actions, past, g);
    HeldStill(actions, past, ttl, r, b, g);
    BeganStill(actions, past, ttl, b, r, key, true);
  }

  lemma {:induction false} JustRegistered(
    actions: seq<Action>, past: seq<Action>, ttl: nat, key: string, publicKey: Bytes, r: nat)
    returns (b: nat)
    requires past <= actions && |actions| == |past| + 1 && key !in Run(past, ttl).devices
    requires var a := actions[|past|]; a.Register? && a.request == r && a.genuine && a.publicKey == publicKey
    requires r in Run(past, ttl).requests && Run(past, ttl).requests[r] == Attesting(key)
    ensures RegisteredAt(actions, ttl, key, publicKey, r, b, |past|)
  {
    var u, v: nat;
    b, u, v := RequestsAreTraced(past, ttl, r, Attesting(key));
    HeldStill(actions, past, ttl, r, b, |past|);
    BeganStill(actions, past, ttl, b, r, key, true);
    assert actions[..|past|] == past;
  }

  /** The row of `key` is there after each of the actions from `g` on. */
  predicate Lived(actions: seq<Action>, ttl: nat, key: string, g: nat) {
    forall j :: g < j <= |actions| ==> key in Run(actions[..j], ttl).devices
  }

  lemma {:induction false} LivedLonger(actions: seq<Action>, past: seq<Action>, ttl: nat, key: string, g: nat)
    requires past <= actions && |actions| == |past| + 1 && key in Run(actions, ttl).devices
    requires Lived(past, ttl, key, g) || g == |past|
    ensures Lived(actions, ttl, key, g)
  {
    forall j | g < j <= |actions| ensures key in Run(actions[..j], ttl).devices {
      if j <= |past| {
        Earlier(actions, past, j);
      } else {
        assert actions[..j] == actions;
      }
    }
  }

  /** Every row comes from a genuine attestation of its key, whose public key it holds, and has lived since. */
  lemma {:induction false} RowsAreRegistered(actions: seq<Action>, ttl: nat, key: string, publicKey: Bytes)
    returns (r: nat, b: nat, g: nat)
    requires key in Run(actions, ttl).devices && publicKey == Run(actions, ttl).devices[key].publicKey
    ensures RegisteredAt(actions, ttl, key, publicKey, r, b, g) && Lived(actions, ttl, key, g)
  {
    assert actions != [];
    g := |actions| - 1;
    var past, a := actions[..g], actions[g];
    var s := Run(past, ttl);
    RowStep(s, Run(actions, ttl), a, ttl, key);
    if key in s.devices {
      r, b, g := RowsAreRegistered(past, ttl, key, publicKey);
      RegisteredStill(actions, past, ttl, key, publicKey, r, b, g);
    } else {
      r := a.request;
      b := JustRegistered(actions, past, ttl, key, publicKey, r);
    }
    LivedLonger(actions, past, ttl, key, g);
  }

  /** A row is deleted exactly when it has been idle since before the cutoff. */
  lemma {:induction false} PrunedExactly(s: State, idleBefore: int, ttl: nat, key: string, next: State)
    requires key in s.devices && next == Step(s, PruneIdle(idleBefore), ttl)
    ensures key in next.devices <==> s.devices[key].lastSeenAt >= idleBefore
    ensures key in next.devices ==> next.devices[key] == s.devices[key]
    ensures next.log == s.log + [Deleted(set k | k in s.devices && s.devices[k].lastSeenAt < idleBefore)]
  {
    assert s.devices.Keys - Pruned(s.devices, idleBefore).Keys
        == set k | k in s.devices && s.devices[k].lastSeenAt < idleBefore;
  }

  // ----- Counters across deletions -----------------------------------------------------

  /** A whole attestation of `key`, on a challenge issued for it. */
  function AttestActions(r: nat, key: string, c: string, now: int): seq<Action> {
    [IssueChallenge(c, now)] + [BeginAttest(r, key, c, now)] + [Register(r, true, [], now)]
  }

  /** A whole refresh of `key` with a counter, on a challenge issued for it. */
  function AssertActions(r: nat, key: string, c: string, counter: nat, now: int): seq<Action> {
    [IssueChallenge(c, now)] + [BeginAssert(r, key, c, now)] + [ReadDevice(r)]
    + [VerifyAssertion(r, true, counter)] + [WriteCounter(r, now)]
  }

  /** Issuing a challenge and passing it at once. */
  lemma {:induction false} PassesFresh(s: State, r: nat, phase: Phase, c: string, now: int, ttl: nat)
    returns (issued: State, t: State)
    requires ttl > 0 && r !in s.requests && ValidKeyId(phase.key)
    ensures issued == Step(s, IssueChallenge(c, now), ttl) && t == Begun(issued, r, phase, c, now, ttl)
    ensures t.devices == s.devices && t.requests == s.requests[r := phase]
    ensures t.log == s.log + [PassedChallenge(c)]
  {
    issued := Step(s, IssueChallenge(c, now), ttl);
    t := Begun(issued, r, phase, c, now, ttl);
  }

  lemma {:induction false} Attests(s: State, r: nat, key: string, c: string, now: int, ttl: nat)
    returns (t: State)
    requires ttl > 0 && r !in s.requests && ValidKeyId(key)
    ensures t == RunFrom(s, AttestActions(r, key, c, now), ttl)
    ensures t.devices == Upserted(s.devices, key, [], now) && t.requests == s.requests
    ensures t.log == s.log + [PassedChallenge(c)]
  {
    var issued, begun := PassesFresh(s, r, Attesting(key), c, now, ttl);
    t := Step(begun, Register(r, true, [], now), ttl);
    assert t.requests == s.requests;
    var one := [IssueChallenge(c, now)];
    RunOne(s, IssueChallenge(c, now), ttl, issued);
    RunNext(s, one, issued, BeginAttest(r, key, c, now), begun, ttl);
    RunNext(s, one + [BeginAttest(r, key, c, now)], begun, Register(r, true, [], now), t, ttl);
  }

  /** The steps of a refresh that nothing disturbs. */
  lemma {:induction false} AssertSteps(
    s: State, r: nat, key: string, c: string, counter: nat, now: int, ttl: nat)
    returns (issued: State, begun: State, read: State, verified: State, t: State)
    requires ttl > 0 && r !in s.requests && ValidKeyId(key)
    requires key in s.devices && Verifies(s.devices[key], true, counter)
    ensures issued == Step(s, IssueChallenge(c, now), ttl)
    ensures begun == Step(issued, BeginAssert(r, key, c, now), ttl)
    ensures read == Step(begun, ReadDevice(r), ttl)
    ensures verified == Step(read, VerifyAssertion(r, true, counter), ttl)
    ensures t == Step(verified, WriteCounter(r, now), ttl)
    ensures t.devices == Advanced(s.devices, key, counter, now).0 && t.requests == s.requests
    ensures t.log == s.log + [PassedChallenge(c)] + [Accepted(key, counter)]
  {
    issued, begun := PassesFresh(s, r, Asserting(key), c, now, ttl);
    read, verified := ReadVerifies(begun, r, key, counter, ttl);
    t := WriteAccepts(verified, r, key, counter, now, ttl);
    assert t.requests == s.requests;
  }

  lemma {:induction false} ReadVerifies(s: State, r: nat, key: string, counter: nat, ttl: nat)
    returns (read: State, verified: State)
    requires r in s.requests && s.requests[r] == Asserting(key)
    requires key in s.devices && Verifies(s.devices[key], true, counter)
    ensures read == Step(s, ReadDevice(r), ttl)
    ensures verified == Step(read, VerifyAssertion(r, true, counter), ttl)
    ensures verified.devices == s.devices && verified.log == s.log
    ensures verified.requests == s.requests[r := Advancing(key, counter)]
  {
    read := Step(s, ReadDevice(r), ttl);
    verified := Step(read, VerifyAssertion(r, true, counter), ttl);
  }

  lemma {:induction false} WriteAccepts(s: State, r: nat, key: string, counter: nat, now: int, ttl: nat)
    returns (t: State)
    requires r in s.requests && s.requests[r] == Advancing(key, counter)
    requires key in s.devices && s.devices[key].counter < counter
    ensures t == Step(s, WriteCounter(r, now), ttl)
    ensures t.devices == Advanced(s.devices, key, counter, now).0
    ensures t.requests == s.requests - {r} && t.log == s.log + [Accepted(key, counter)]
  {
    t := Step(s, WriteCounter(r, now), ttl);
  }

  lemma {:induction false} Asserts(s: State, r: nat, key: string, c: string, counter: nat, now: int, ttl: nat)
    returns (t: State)
    requires ttl > 0 && r !in s.requests && ValidKeyId(key)
    requires key in s.devices && Verifies(s.devices[key], true, counter)
    ensures t == RunFrom(s, AssertActions(r, key, c, counter, now), ttl)
    ensures t.devices == Advanced(s.devices, key, counter, now).0 && t.requests == s.requests
    ensures t.log == s.log + [PassedChallenge(c)] + [Accepted(key, counter)]
  {
    var issued, begun, read, verified: State;
    issued, begun, read, verified, t := AssertSteps(s, r, key, c, counter, now, ttl);
    var one := [IssueChallenge(c, now)];
    var two := one + [BeginAssert(r, key, c, now)];
    var three := two + [ReadDevice(r)];
    var four := three + [VerifyAssertion(r, true, counter)];
    RunOne(s, IssueChallenge(c, now), ttl, issued);
    RunNext(s, one, issued, BeginAssert(r, key, c, now), begun, ttl);
    RunNext(s, two, begun, ReadDevice(r), read, ttl);
    RunNext(s, three, read, VerifyAssertion(r, true, counter), verified, ttl);
    RunNext(s, four, verified, WriteCounter(r, now), t, ttl);
  }

  lemma {:induction false} RunOne(s: State, a: Action, ttl: nat, t: State)
    requires t == Step(s, a, ttl)
    ensures RunFrom(s, [a], ttl) == t
  {
    RunSnoc(s, [], a, ttl);
    assert [] + [a] == [a];
  }

  lemma {:induction false} RunNext(s: State, actions: seq<Action>, t: State, a: Action, next: State, ttl: nat)
    requires t == RunFrom(s, actions, ttl) && next == Step(t, a, ttl)
    ensures RunFrom(s, actions + [a], ttl) == next
  {
    RunSnoc(s, actions, a, ttl);
  }

  /** A device attests and refreshes with one counter. */
  function LifeActions(key: string, c: string, d: string, counter: nat, now: int): seq<Action> {
    AttestActions(0, key, c, now) + AssertActions(0, key, d, counter, now)
  }

  lemma {:induction false} Lives(s: State, key: string, c: string, d: string, counter: nat, now: int, ttl: nat)
    returns (t: State)
    requires ttl > 0 && s.requests == map[] && s.devices == map[]
    requires ValidKeyId(key) && 0 < counter < U32_LIMIT
    ensures t == RunFrom(s, LifeActions(key, c, d, counter, now), ttl)
    ensures t.requests == map[] && t.devices == map[key := Device([], counter, now)]
    ensures t.log == s.log + [PassedChallenge(c), PassedChallenge(d), Accepted(key, counter)]
  {
    var attested := Attests(s, 0, key, c, now, ttl);
    t := Asserts(attested, 0, key, d, counter, now, ttl);
    RunConcat(s, AttestActions(0, key, c, now), AssertActions(0, key, d, counter, now), attested, ttl);
  }

  lemma {:induction false} PruneDeletes(s: State, key: string, device: Device, ttl: nat) returns (t: State)
    requires s.devices == map[key := device]
    ensures t == Step(s, PruneIdle(device.lastSeenAt + 1), ttl)
    ensures t.requests == s.requests && t.devices == map[] && t.log == s.log + [Deleted({key})]
  {
    t := Step(s, PruneIdle(device.lastSeenAt + 1), ttl);
    assert t.devices == map[] && s.devices.Keys == {key};
    assert s.devices.Keys - t.devices.Keys == {key};
  }

  /** Attest, refresh with `high`, lose the row to pruning, attest again, refresh with `low`. */
  function RestartRun(key: string, high: nat, low: nat): seq<Action> {
    LifeActions(key, "a", "b", high, 0) + [PruneIdle(1)] + LifeActions(key, "c", "d", low, 1)
  }

  /** Runs from the start in which one device has any counter accepted after any other. */
  lemma {:induction false} CountersRestart(key: string, high: nat, low: nat, ttl: nat)
    requires ttl > 0 && ValidKeyId(key) && 0 < high < U32_LIMIT && 0 < low < U32_LIMIT
    ensures Run(RestartRun(key, high, low), ttl).log
         == [PassedChallenge("a"), PassedChallenge("b"), Accepted(key, high), Deleted({key}),
             PassedChallenge("c"), PassedChallenge("d"), Accepted(key, low)]
  {
    var life := LifeActions(key, "a", "b", high, 0);
    var first := Lives(INITIAL, key, "a", "b", high, 0, ttl);
    var pruned := PruneDeletes(first, key, Device([], high, 0), ttl);
    RunNext(INITIAL, life, first, PruneIdle(1), pruned, ttl);
    var last := Lives(pruned, key, "c", "d", low, 1, ttl);
    RunConcat(INITIAL, life + [PruneIdle(1)], LifeActions(key, "c", "d", low, 1), pruned, ttl);
  }

  predicate SaneRequests(s: State) {
    forall r :: r in s.requests ==>
      && ValidKeyId(s.requests[r].key)
      && (s.requests[r].Advancing? ==> 0 < s.requests[r].counter < U32_LIMIT)
  }

  predicate SaneDevices(devices: map<string, Device>) {
    forall k :: k in devices ==> 0 <= devices[k].counter < U32_LIMIT
  }

  predicate SaneLog(s: State) {
    forall i :: 0 <= i < |s.log| && s.log[i].Accepted? ==>
      ValidKeyId(s.log[i].key) && 0 < s.log[i].counter < U32_LIMIT
  }

  /** What every reachable state keeps: valid keys everywhere, and counters in range. */
  predicate Sane(s: State) {
    SaneRequests(s) && SaneDevices(s.devices) && SaneLog(s)
  }

  lemma {:induction false} StepKeepsRequests(s: State, a: Action, ttl: nat)
    requires SaneRequests(s)
    ensures SaneRequests(Step(s, a, ttl))
  {
  }

  lemma {:induction false} TablesKeepSane(
    devices: map<string, Device>, key: string, publicKey: Bytes, counter: int, now: int)
    requires SaneDevices(devices)
    ensures SaneDevices(Upserted(devices, key, publicKey, now))
    ensures 0 < counter < U32_LIMIT ==> SaneDevices(Advanced(devices, key, counter, now).0)
    ensures SaneDevices(Pruned(devices, now))
  {
  }

  lemma {:induction false} StepKeepsDevices(s: State, a: Action, ttl: nat)
    requires SaneRequests(s) && SaneDevices(s.devices)
    ensures SaneDevices(Step(s, a, ttl).devices)
  {
    match a
    case Register(r, _, publicKey, now) =>
      if r in s.requests {
        TablesKeepSane(s.devices, s.requests[r].key, publicKey, 0, now);
      }
    case WriteCounter(r, now) =>
      if r in s.requests && s.requests[r].Advancing? {
        TablesKeepSane(s.devices, s.requests[r].key, [], s.requests[r].counter, now);
      }
    case PruneIdle(idleBefore) =>
      TablesKeepSane(s.devices, "", [], 0, idleBefore);
    case _ =>
  }

  /** An entry that accepts a counter comes from a request about to write it. */
  lemma {:induction false} AcceptedFrom(s: State, a: Action, ttl: nat, key: string, counter: int)
    requires Step(s, a, ttl).log == s.log + [Accepted(key, counter)]
    ensures a.WriteCounter? && a.request in s.requests && s.requests[a.request] == Advancing(key, counter)
  {
    assert (s.log + [Accepted(key, counter)])[|s.log|] == Accepted(key, counter);
  }

  lemma {:induction false} StepKeepsLog(s: State, s': State, a: Action, ttl: nat)
    requires SaneRequests(s) && SaneLog(s) && s' == Step(s, a, ttl)
    ensures SaneLog(s')
  {
    StepExtendsLog(s, a, ttl);
    if s'.log != s.log {
      var e := s'.log[|s.log|];
      assert s'.log == s.log + [e];
      if e.Accepted? {
        AcceptedFrom(s, a, ttl, e.key, e.counter);
      }
    }
  }

  lemma {:induction false} StepKeepsSane(s: State, a: Action, ttl: nat)
    requires Sane(s)
    ensures Sane(Step(s, a, ttl))
  {
    StepKeepsRequests(s, a, ttl);
    StepKeepsDevices(s, a, ttl);
    StepKeepsLog(s, Step(s, a, ttl), a, ttl);
  }

  lemma {:induction false} AlwaysSane(actions: seq<Action>, ttl: nat)
    ensures Sane(Run(actions, ttl))
  {
    if actions != [] {
      AlwaysSane(actions[..|actions| - 1], ttl);
      StepKeepsSane(Run(actions[..|actions| - 1], ttl), actions[|actions| - 1], ttl);
    }
  }

  /** From `s` on, `more` deletes no row of `key`. */
  predicate Spares(s: State, more: seq<Action>, ttl: nat, key: string) {
    var log := RunFrom(s, more, ttl).log;
    forall i :: |s.log| <= i < |log| && log[i].Deleted? ==> key !in log[i].keys
  }

  /** From `s` on, `more` accepts a counter for `key`. */
  predicate Accepts(s: State, more: seq<Action>, ttl: nat, key: string, counter: int) {
    var log := RunFrom(s, more, ttl).log;
    exists i :: |s.log| <= i < |log| && log[i] == Accepted(key, counter)
  }

  lemma {:induction false} RunExtendsLog(s: State, more: seq<Action>, ttl: nat)
    ensures |s.log| <= |RunFrom(s, more, ttl).log| && RunFrom(s, more, ttl).log[..|s.log|] == s.log
  {
    if more == [] {
      assert s.log[..|s.log|] == s.log;
    } else {
      var t := RunFrom(s, more[..|more| - 1], ttl);
      RunExtendsLog(s, more[..|more| - 1], ttl);
      StepExtendsLog(t, more[|more| - 1], ttl);
      var t' := RunFrom(s, more, ttl);
      assert t'.log[..|s.log|] == t'.log[..|t.log|][..|s.log|];
    }
  }

  lemma {:induction false} SparesEarlier(s: State, more: seq<Action>, ttl: nat, key: string)
    requires more != [] && Spares(s, more, ttl, key)
    ensures Spares(s, more[..|more| - 1], ttl, key)
  {
    var t, t' := RunFrom(s, more[..|more| - 1], ttl), RunFrom(s, more, ttl);
    StepExtendsLog(t, more[|more| - 1], ttl);
    forall i | |s.log| <= i < |t.log| && t.log[i].Deleted? ensures key !in t.log[i].keys {
      assert t.log[i] == t'.log[..|t.log|][i];
    }
  }

  /** A row that is spared keeps covering what it covered. */
  lemma {:induction false} SparedRowCovers(s: State, more: seq<Action>, ttl: nat, key: string, c: int)
    requires key in s.devices && c <= s.devices[key].counter && Spares(s, more, ttl, key)
    ensures key in RunFrom(s, more, ttl).devices && c <= RunFrom(s, more, ttl).devices[key].counter
  {
    if more != [] {
      var init, a := more[..|more| - 1], more[|more| - 1];
      var t := RunFrom(s, init, ttl);
      SparesEarlier(s, more, ttl, key);
      SparedRowCovers(s, init, ttl, key, c);
      RunExtendsLog(s, init, ttl);
      if key !in Step(t, a, ttl).devices {
        RowsGoLogged(t, a, ttl, key);
      }
      CounterNeverDrops(t, a, ttl, key);
    }
  }

  /** What is accepted for a covered row that is spared lies above what it covers. */
  lemma {:induction false} AcceptedAbove(s: State, more: seq<Action>, ttl: nat, key: string, c: int, c': int)
    requires key in s.devices && c <= s.devices[key].counter && Spares(s, more, ttl, key)
    requires Accepts(s, more, ttl, key, c')
    ensures c' > c
  {
    if more != [] {
      var init, a := more[..|more| - 1], more[|more| - 1];
      var t := RunFrom(s, init, ttl);
      SparesEarlier(s, more, ttl, key);
      StepExtendsLog(t, a, ttl);
      if Accepts(s, init, ttl, key, c') {
        AcceptedAbove(s, init, ttl, key, c, c');
      } else {
        SparedRowCovers(s, init, ttl, key, c);
        LastAccepted(s, t, a, ttl, key, c');
      }
    }
  }

  lemma {:induction false} LastAccepted(s: State, t: State, a: Action, ttl: nat, key: string, c: int)
    requires forall i :: |s.log| <= i < |t.log| ==> t.log[i] != Accepted(key, c)
    requires exists i :: |s.log| <= i < |Step(t, a, ttl).log| && Step(t, a, ttl).log[i] == Accepted(key, c)
    ensures key in t.devices && t.devices[key].counter < c
  {
    var t' := Step(t, a, ttl);
    StepExtendsLog(t, a, ttl);
    assert forall i :: 0 <= i < |t.log| ==> t'.log[i] == t'.log[..|t.log|][i];
  }

  /** A request number not in use. */
  lemma {:induction false} FreshRequest(requests: map<nat, Phase>) returns (r: nat)
    ensures r !in requests
  {
    r := 0;
    var left := requests.Keys;
    while r in left
      invariant left <= requests.Keys && forall x :: x in requests && x >= r ==> x in left
      decreases |left|
    {
      left := left - {r};
      r := r + 1;
    }
  }

  /** Where a counter is not covered by the row, it can be accepted again without a deletion. */
  lemma {:induction false} AcceptedAgain(s: State, ttl: nat, key: string, c: int) returns (more: seq<Action>)
    requires ttl > 0 && Sane(s) && ValidKeyId(key) && 0 < c < U32_LIMIT
    requires key !in s.devices || s.devices[key].counter < c
    ensures Spares(s, more, ttl, key) && Accepts(s, more, ttl, key, c)
  {
    var r := FreshRequest(s.requests);
    var attest, refresh := AttestActions(r, key, "a", 0), AssertActions(r, key, "b", c, 0);
    var attested := Attests(s, r, key, "a", 0, ttl);
    var asserted := Asserts(attested, r, key, "b", c, 0, ttl);
    more := attest + refresh;
    RunConcat(s, attest, refresh, attested, ttl);
    assert asserted.log[|s.log| + 2] == Accepted(key, c);
  }

  /** With a zero lifetime no challenge is ever passed, and so nothing is accepted. */
  lemma {:induction false} NoneWithoutTtl(actions: seq<Action>, ttl: nat)
    ensures ttl == 0 ==> Run(actions, ttl).requests == map[]
    ensures ttl == 0 ==> forall i :: 0 <= i < |Run(actions, ttl).log| ==> !Run(actions, ttl).log[i].Accepted?
  {
    if actions != [] {
      NoneWithoutTtl(actions[..|actions| - 1], ttl);
    }
  }

  /**
   * In every reachable state, the counters that may still be accepted for a device without
   * deleting its row all lie above one accepted before, if and only if the device has a row
   * and that row's counter is no lower.
   */
  lemma {:induction false} IncreaseExactly(actions: seq<Action>, s: State, ttl: nat, key: string, c: int)
    requires s == Run(actions, ttl) && Accepted(key, c) in s.log
    ensures (forall more, c' :: Spares(s, more, ttl, key) && Accepts(s, more, ttl, key, c') ==> c' > c)
       <==> key in s.devices && c <= s.devices[key].counter
  {
    if key in s.devices && c <= s.devices[key].counter {
      forall more, c' | Spares(s, more, ttl, key) && Accepts(s, more, ttl, key, c') ensures c' > c {
        AcceptedAbove(s, more, ttl, key, c, c');
      }
    } else {
      AlwaysSane(actions, ttl);
      NoneWithoutTtl(actions, ttl);
      var i :| 0 <= i < |s.log| && s.log[i] == Accepted(key, c);
      var more := AcceptedAgain(s, ttl, key, c);
    }
  }

  // ----- One request at a time ----------------------------------------------------------

  /** The handlers as they run when nothing interleaves. */
  class ClientApi {
    const challenges: ChallengeStore
    const table: DeviceTable

    constructor (challenges: ChallengeStore, table: DeviceTable)
      ensures this.challenges == challenges && this.table == table
    {
      this.challenges, this.table := challenges, table;
    }

    ghost function View(): State
      reads this, challenges, table
    {
      State(challenges.issued, table.devices, map[], [])
    }

    /** Verify an attestation and register the device; the outcome is that of the protocol steps in order. */
    method Attest(key: string, challenge: string, genuine: bool, publicKey: Bytes, now: int)
      returns (granted: bool)
      modifies challenges, table
      ensures var s := Step(Step(old(View()), BeginAttest(0, key, challenge, now), challenges.ttl),
                            Register(0, genuine, publicKey, now), challenges.ttl);
              challenges.issued == s.challenges && table.devices == s.devices
      ensures granted <==> && 0 < |key| <= 64 && genuine
                           && old(Redeems(challenges.issued, challenge, now, challenges.ttl))
      ensures !granted ==> table.devices == old(table.devices)
    {
      if !ValidKeyId(key) {
        return false;
      }
      var ok := challenges.Consume(challenge, now);
      if !ok || !genuine {
        return false;
      }
      var _ := table.Upsert(key, publicKey, now);
      granted := true;
    }

    /** Refresh on an assertion; a grant strictly raises the device's counter. */
    method Assert(key: string, challenge: string, signed: bool, claimed: nat, now: int)
      returns (granted: bool)
      modifies challenges, table
      ensures var ttl := challenges.ttl;
              var begun := Step(old(View()), BeginAssert(0, key, challenge, now), ttl);
              var verified := Step(Step(begun, ReadDevice(0), ttl), VerifyAssertion(0, signed, claimed), ttl);
              var s := Step(verified, WriteCounter(0, now), ttl);
              && challenges.issued == s.challenges && table.devices == s.devices
              && (granted <==> Accepted(key, claimed) in s.log)
      ensures granted <==> && 0 < |key| <= 64 && signed && key in old(table.devices)
                           && old(Redeems(challenges.issued, challenge, now, challenges.ttl))
                           && 0 <= old(table.devices)[key].counter < claimed < 0x1_0000_0000
      ensures !granted ==> table.devices == old(table.devices)
      ensures granted ==> key in table.devices && table.devices[key].counter == claimed
    {
      if !ValidKeyId(key) {
        return false;
      }
      var ok := challenges.Consume(challenge, now);
      if !ok || key !in table.devices {
        return false;
      }
      var device := table.devices[key];
      if !Verifies(device, signed, claimed) {
        return false;
      }
      granted := table.AdvanceCounter(key, claimed, now);
    }
  }
}
