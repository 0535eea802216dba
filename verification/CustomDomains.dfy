/** Life cycle of a custom domain: the status after each DNS check, and the hourly re-check. */
module CustomDomains {
  import opened Bytes

  /** Times are nanoseconds. */
  const HOUR: int := 3_600_000_000_000
  const GRACE_HOURS: int := 48
  const RECHECK_AFTER_HOURS: int := 24

  datatype Status = Pending | Verified | Failed

  datatype CustomDomain = CustomDomain(
    status: Status, createdAt: int, verifiedAt: Option<int>, lastCheckedAt: Option<int>)

  function Claimed(now: int): CustomDomain {
    CustomDomain(Pending, now, None, None)
  }

  function NextStatus(current: CustomDomain, allOk: bool, now: int): (Status, Option<int>) {
    if allOk then (Verified, Some(now))
    else
      match current.status
      case Pending => (Pending, current.verifiedAt)
      case Failed => (Failed, current.verifiedAt)
      case Verified =>
        var anchor := if current.verifiedAt.Some? then current.verifiedAt.value else current.createdAt;
        (if now - anchor > GRACE_HOURS * HOUR then Failed else Verified, current.verifiedAt)
  }

  /** The record after one check at `now`. */
  function Checked(d: CustomDomain, allOk: bool, now: int): CustomDomain {
    var next := NextStatus(d, allOk, now);
    CustomDomain(next.0, d.createdAt, next.1, Some(now))
  }

  /** The background scan at `now` picks this record. */
  predicate Due(d: CustomDomain, now: int) {
    && !d.status.Pending?
    && (d.lastCheckedAt.Some? ==> d.lastCheckedAt.value <= now - RECHECK_AFTER_HOURS * HOUR)
  }

  function Scanned(d: CustomDomain, allOk: bool, now: int): CustomDomain {
    if Due(d, now) then Checked(d, allOk, now) else d
  }

  function DueNames(domains: map<string, CustomDomain>, now: int): set<string> {
    set name | name in domains && Due(domains[name], now)
  }

  /** The claims after one check of each in `names`, and of no other. */
  function CheckedAt(
    domains: map<string, CustomDomain>, names: set<string>, at: string -> int, dns: string -> bool)
    : map<string, CustomDomain>
  {
    map name | name in domains ::
      if name in names then Checked(domains[name], dns(name), at(name)) else domains[name]
  }

  lemma {:induction false} CheckedOneMore(
    domains: map<string, CustomDomain>, names: set<string>, name: string, at: string -> int, dns: string -> bool)
    requires name in domains && name !in names
    ensures name in CheckedAt(domains, names, at, dns) && CheckedAt(domains, names, at, dns)[name] == domains[name]
    ensures CheckedAt(domains, names + {name}, at, dns)
         == CheckedAt(domains, names, at, dns)[name := Checked(domains[name], dns(name), at(name))]
  {
  }

  class DomainStore {
    var domains: map<string, CustomDomain>

    constructor ()
      ensures domains == map[]
    {
      domains := map[];
    }

    /** Writes only to a claim that still exists. */
    method RecordCheck(name: string, status: Status, verifiedAt: Option<int>, checkedAt: int)
      returns (found: bool)
      modifies this
      ensures found == (name in old(domains))
      ensures domains == if name in old(domains)
                         then old(domains)[name := CustomDomain(status, old(domains)[name].createdAt,
                                                                verifiedAt, Some(checkedAt))]
                         else old(domains)
    {
      found := name in domains;
      if found {
        domains := domains[name := CustomDomain(status, domains[name].createdAt, verifiedAt, Some(checkedAt))];
      }
    }

    /**
     * A check of a claim as it was read earlier: the verdict is applied to the snapshot and
     * the result written to whatever claim the name then has, if any.
     */
    method CheckAndRecord(name: string, snapshot: CustomDomain, allOk: bool, now: int)
      returns (status: Status, verifiedAt: Option<int>)
      modifies this
      ensures (status, verifiedAt) == NextStatus(snapshot, allOk, now)
      ensures domains == if name in old(domains)
                         then old(domains)[name := CustomDomain(status, old(domains)[name].createdAt,
                                                                verifiedAt, Some(now))]
                         else old(domains)
      ensures name in old(domains) && old(domains)[name] == snapshot ==>
                domains == old(domains)[name := Checked(snapshot, allOk, now)]
    {
      var next := NextStatus(snapshot, allOk, now);
      status, verifiedAt := next.0, next.1;
      var _ := RecordCheck(name, status, verifiedAt, now);
    }

    /**
     * One tick of the background task: the due claims are read at `now`, and each is then
     * checked at its own later instant, with the DNS verdict of that instant.
     */
    method Scan(now: int, at: string -> int, dns: string -> bool)
      modifies this
      ensures domains.Keys == old(domains).Keys
      ensures forall name :: name in old(domains) ==>
                domains[name] == if Due(old(domains)[name], now) then Checked(old(domains)[name], dns(name), at(name))
                                 else old(domains)[name]
    {
      ghost var before := domains;
      var due := DueNames(domains, now);
      var snapshots := map name | name in due :: domains[name];
      var left := due;
      while left != {}
        invariant left <= due == snapshots.Keys
        invariant domains == CheckedAt(before, due - left, at, dns)
        decreases |left|
      {
        var name :| name in left;
        CheckedOneMore(before, due - left, name, at, dns);
        var _, _ := CheckAndRecord(name, snapshots[name], dns(name), at(name));
        assert due - (left - {name}) == due - left + {name};
        left := left - {name};
      }
      assert due - {} == due;
    }
  }

  // ----- The status in closed form ----------------------------------------------

  datatype Check = Check(at: int, ok: bool)

  function AfterChecks(createdAt: int, checks: seq<Check>): CustomDomain {
    if checks == [] then Claimed(createdAt)
    else
      var last := checks[|checks| - 1];
      Checked(AfterChecks(createdAt, checks[..|checks| - 1]), last.ok, last.at)
  }

  function LatestPass(checks: seq<Check>): Option<int> {
    if checks == [] then None
    else if checks[|checks| - 1].ok then Some(checks[|checks| - 1].at)
    else LatestPass(checks[..|checks| - 1])
  }

  predicate ChecksInOrder(checks: seq<Check>) {
    forall i, j :: 0 <= i < j < |checks| ==> checks[i].at <= checks[j].at
  }

  /**
   * Over any history of checks: Pending until a check passes; then Verified exactly while
   * the last check is within the grace window of the latest pass, which `verified_at`
   * records, so the creation-time fallback is never consulted.
   */
  lemma {:induction false} StatusInClosedForm(createdAt: int, checks: seq<Check>)
    requires ChecksInOrder(checks)
    ensures var d, pass := AfterChecks(createdAt, checks), LatestPass(checks);
            && d.createdAt == createdAt && d.verifiedAt == pass
            && d.lastCheckedAt == (if checks == [] then None else Some(checks[|checks| - 1].at))
            && d.status == (if pass.None? then Pending
                            else if checks[|checks| - 1].at - pass.value <= 48 * HOUR then Verified
                            else Failed)
    ensures LatestPass(checks).Some? ==> checks != []
  {
    if checks != [] {
      StatusInClosedForm(createdAt, checks[..|checks| - 1]);
      if |checks| > 1 {
        assert checks[|checks| - 2].at <= checks[|checks| - 1].at;
      }
    }
  }

  /** The hourly scan picks a claim exactly when some check of it passed and the last is a day old. */
  lemma {:induction false} DueExactly(createdAt: int, checks: seq<Check>, now: int)
    requires ChecksInOrder(checks)
    ensures Due(AfterChecks(createdAt, checks), now) <==>
            LatestPass(checks).Some? && checks != [] && now - checks[|checks| - 1].at >= 24 * HOUR
  {
    StatusInClosedForm(createdAt, checks);
  }

  // ----- Deadlines ----------------------------------------------------------------

  /** A manual verify or a scan tick, with the DNS verdict of that instant. */
  datatype Event = Manual(at: int, ok: bool) | Tick(at: int, ok: bool)

  function Stepped(d: CustomDomain, e: Event): CustomDomain {
    match e
    case Manual(at, ok) => Checked(d, ok, at)
    case Tick(at, ok) => Scanned(d, ok, at)
  }

  function AfterEvents(d: CustomDomain, events: seq<Event>): CustomDomain {
    if events == [] then d
    else Stepped(AfterEvents(d, events[..|events| - 1]), events[|events| - 1])
  }

  /** Events from time `s` on, in order, all with the same DNS verdict. */
  predicate EventsFrom(s: int, events: seq<Event>, ok: bool) {
    && (forall i :: 0 <= i < |events| ==> s <= events[i].at && events[i].ok == ok)
    && (forall i, j :: 0 <= i < j < |events| ==> events[i].at <= events[j].at)
  }

  /** While checks fail, the record keeps the pass at `s` and its status is decided by its last check. */
  lemma {:induction false} WhileFailing(d: CustomDomain, s: int, events: seq<Event>)
    requires EventsFrom(s, events, false)
    ensures var r := AfterEvents(Checked(d, true, s), events);
            && r.verifiedAt == Some(s)
            && r.lastCheckedAt.Some? && s <= r.lastCheckedAt.value
            && (events != [] ==> r.lastCheckedAt.value <= events[|events| - 1].at)
            && (events == [] ==> r.lastCheckedAt.value == s)
            && r.status == (if r.lastCheckedAt.value - s <= GRACE_HOURS * HOUR then Verified else Failed)
  {
    if events != [] {
      WhileFailing(d, s, events[..|events| - 1]);
      if |events| > 1 {
        assert events[|events| - 2].at <= events[|events| - 1].at;
      }
    }
  }

  /** No run of failing checks ends a verified domain within the grace window. */
  lemma NeverFailedEarly(d: CustomDomain, s: int, events: seq<Event>)
    requires EventsFrom(s, events, false)
    requires forall i :: 0 <= i < |events| ==> events[i].at <= s + 48 * HOUR
    ensures AfterEvents(Checked(d, true, s), events).status == Verified
  {
    WhileFailing(d, s, events);
  }

  /** A tick 72 hours or more after the last pass leaves the domain failed, whatever came before. */
  lemma FailedAtTick(d: CustomDomain, s: int, events: seq<Event>, i: nat)
    requires EventsFrom(s, events, false) && i < |events|
    requires events[i].Tick? && events[i].at >= s + (GRACE_HOURS + RECHECK_AFTER_HOURS) * HOUR
    ensures AfterEvents(Checked(d, true, s), events[..i + 1]).status == Failed
  {
    var before := events[..i];
    WhileFailing(d, s, before);
    assert events[..i + 1][..i] == before;
  }

  /** A status that the DNS verdict agrees with does not change while the verdict lasts. */
  lemma {:induction false} Settled(d: CustomDomain, events: seq<Event>, ok: bool, i: nat, k: nat)
    requires i <= k <= |events| && forall j :: 0 <= j < |events| ==> events[j].ok == ok
    requires AfterEvents(d, events[..i]).status == if ok then Verified else Failed
    ensures AfterEvents(d, events[..k]).status == if ok then Verified else Failed
  {
    if i < k {
      Settled(d, events, ok, i, k - 1);
      assert events[..k][..k - 1] == events[..k - 1];
    }
  }

  /** Ticks at `ticks`: the first within an hour of `s`, none more than an hour after the one before. */
  predicate HourlyTicks(events: seq<Event>, ticks: seq<nat>, s: int) {
    && ticks != []
    && (forall j :: 0 <= j < |ticks| ==> ticks[j] < |events| && events[ticks[j]].Tick?)
    && events[ticks[0]].at <= s + HOUR
    && (forall j :: 0 < j < |ticks| ==> events[ticks[j]].at <= events[ticks[j - 1]].at + HOUR)
  }

  /** Some tick falls in every hour the ticks reach. */
  lemma {:induction false} TickInHour(events: seq<Event>, ticks: seq<nat>, s: int, from: int, j: nat) returns (k: nat)
    requires HourlyTicks(events, ticks, s) && s <= from
    requires j < |ticks| && events[ticks[j]].at >= from
    ensures k < |ticks| && from <= events[ticks[k]].at <= from + HOUR
  {
    if events[ticks[j]].at <= from + HOUR {
      k := j;
    } else {
      k := TickInHour(events, ticks, s, from, j - 1);
    }
  }

  /**
   * With ticks at most an hour apart, a domain whose last check passed at `s` and whose
   * later checks all fail is failed from some event no later than `s` + 73 h on, whatever
   * manual checks occur.
   */
  lemma FailedBy73Hours(d: CustomDomain, s: int, events: seq<Event>, ticks: seq<nat>) returns (i: nat)
    requires EventsFrom(s, events, false) && HourlyTicks(events, ticks, s)
    requires events[ticks[|ticks| - 1]].at >= s + 72 * HOUR
    ensures i < |events| && events[i].at <= s + 73 * HOUR
    ensures forall k :: i < k <= |events| ==> AfterEvents(Checked(d, true, s), events[..k]).status == Failed
  {
    var t := TickInHour(events, ticks, s, s + 72 * HOUR, |ticks| - 1);
    i := ticks[t];
    FailedAtTick(d, s, events, i);
    forall k | i < k <= |events| ensures AfterEvents(Checked(d, true, s), events[..k]).status == Failed {
      Settled(Checked(d, true, s), events, false, i + 1, k);
    }
  }

  /** While checks pass, a record is either verified or has not been checked since. */
  lemma {:induction false} WhilePassing(d: CustomDomain, s: int, events: seq<Event>)
    requires !d.status.Pending? && EventsFrom(s, events, true)
    ensures var r := AfterEvents(d, events);
            r.status == Verified || r == d
  {
    if events != [] {
      WhilePassing(d, s, events[..|events| - 1]);
    }
  }

  /**
   * With ticks at most an hour apart, a claim that was once verified and was last checked by
   * time `s`, whose DNS is right from `s` on, is verified again from some event no later than
   * `s` + 25 h on, without anyone asking.
   */
  lemma HealsBy25Hours(d: CustomDomain, s: int, events: seq<Event>, ticks: seq<nat>) returns (i: nat)
    requires !d.status.Pending? && (d.lastCheckedAt.Some? ==> d.lastCheckedAt.value <= s)
    requires EventsFrom(s, events, true) && HourlyTicks(events, ticks, s)
    requires events[ticks[|ticks| - 1]].at >= s + 24 * HOUR
    ensures i < |events| && events[i].at <= s + 25 * HOUR
    ensures forall k :: i < k <= |events| ==> AfterEvents(d, events[..k]).status == Verified
  {
    var t := TickInHour(events, ticks, s, s + 24 * HOUR, |ticks| - 1);
    i := ticks[t];
    WhilePassing(d, s, events[..i]);
    assert events[..i + 1][..i] == events[..i];
    assert AfterEvents(d, events[..i + 1]).status == Verified;
    forall k | i < k <= |events| ensures AfterEvents(d, events[..k]).status == Verified {
      Settled(d, events, true, i + 1, k);
    }
  }

  /** A claim never verified is left to its owner: ticks alone never change it. */
  lemma {:induction false} PendingIsNotScanned(d: CustomDomain, events: seq<Event>)
    requires d.status.Pending? && forall i :: 0 <= i < |events| ==> events[i].Tick?
    ensures AfterEvents(d, events) == d
  {
    if events != [] {
      PendingIsNotScanned(d, events[..|events| - 1]);
    }
  }

  /** Ticks less than a day after its last check leave a claim alone, whatever DNS says. */
  lemma {:induction false} NotRecheckedEarly(d: CustomDomain, events: seq<Event>)
    requires d.lastCheckedAt.Some?
    requires forall i :: 0 <= i < |events| ==>
               events[i].Tick? && events[i].at - d.lastCheckedAt.value < 24 * HOUR
    ensures AfterEvents(d, events) == d
  {
    if events != [] {
      NotRecheckedEarly(d, events[..|events| - 1]);
    }
  }
}
