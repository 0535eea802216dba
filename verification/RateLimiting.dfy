/**
 * The per-IP connection limiter of the SMTP listener. It prunes its own tables; the
 * claims compare it with limiters that remember everything.
 */
module RateLimiting {
  import opened Bytes
  import opened Net
  import opened Clock

  /** Table size above which stale entries are dropped. */
  const TABLE_LIMIT: nat := 10_000

  /** `retain` of the times less than `window` old. */
  function Recent(times: seq<int>, now: int, window: nat): (r: seq<int>)
    ensures |r| <= |times|
  {
    if times == [] then []
    else Recent(times[..|times| - 1], now, window)
         + (if Since(now, times[|times| - 1]) < window then [times[|times| - 1]] else [])
  }

  function Times(hits: map<Ip, seq<int>>, ip: Ip): seq<int> {
    if ip in hits then hits[ip] else []
  }

  function TrimHits(hits: map<Ip, seq<int>>, now: int, window: nat): map<Ip, seq<int>> {
    if |hits| > TABLE_LIMIT then map ip | ip in hits && Recent(hits[ip], now, window) != [] :: hits[ip]
    else hits
  }

  /** One admission check: the new table and the decision. */
  function Checked(hits: map<Ip, seq<int>>, ip: Ip, now: int, window: nat, max: nat)
    : (map<Ip, seq<int>>, bool)
  {
    var trimmed := TrimHits(hits, now, window);
    var times := Recent(Times(trimmed, ip), now, window);
    if |times| >= max then (trimmed[ip := times], false)
    else (trimmed[ip := times + [now]], true)
  }

  datatype RejectionLog = RejectionLog(lastLogged: int, unreported: nat)

  function TrimLogs(logs: map<Ip, RejectionLog>, now: int, window: nat): map<Ip, RejectionLog> {
    if |logs| > TABLE_LIMIT then map ip | ip in logs && Since(now, logs[ip].lastLogged) < window :: logs[ip]
    else logs
  }

  /** One rejection: the new table and the count to report, if it is time to. */
  function Noted(logs: map<Ip, RejectionLog>, ip: Ip, now: int, window: nat)
    : (map<Ip, RejectionLog>, Option<nat>)
  {
    var trimmed := TrimLogs(logs, now, window);
    if ip !in trimmed then (trimmed[ip := RejectionLog(now, 0)], Some(1))
    else
      var r := trimmed[ip];
      if Since(now, r.lastLogged) < window then
        (trimmed[ip := RejectionLog(r.lastLogged, r.unreported + 1)], None)
      else
        (trimmed[ip := RejectionLog(now, 0)], Some(r.unreported + 1))
  }

  class RateLimiter {
    const window: nat
    const max: nat
    var hits: map<Ip, seq<int>>
    var rejections: map<Ip, RejectionLog>

    constructor (window: nat, max: nat)
      ensures this.window == window && this.max == max && hits == map[] && rejections == map[]
    {
      this.window, this.max := window, max;
      hits, rejections := map[], map[];
    }

    method CheckAt(ip: Ip, now: int) returns (allowed: bool)
      modifies this`hits
      ensures (hits, allowed) == Checked(old(hits), ip, now, window, max)
    {
      if |hits| > TABLE_LIMIT {
        hits := map k | k in hits && Recent(hits[k], now, window) != [] :: hits[k];
      }
      var times := Recent(Times(hits, ip), now, window);
      allowed := |times| < max;
      if allowed {
        times := times + [now];
      }
      hits := hits[ip := times];
    }

    method NoteRejectionAt(ip: Ip, now: int) returns (report: Option<nat>)
      modifies this`rejections
      ensures (rejections, report) == Noted(old(rejections), ip, now, window)
    {
      if |rejections| > TABLE_LIMIT {
        rejections := map k | k in rejections && Since(now, rejections[k].lastLogged) < window :: rejections[k];
      }
      if ip !in rejections {
        rejections := rejections[ip := RejectionLog(now, 0)];
        return Some(1);
      }
      var r := rejections[ip];
      if Since(now, r.lastLogged) < window {
        rejections := rejections[ip := RejectionLog(r.lastLogged, r.unreported + 1)];
        return None;
      }
      rejections := rejections[ip := RejectionLog(now, 0)];
      return Some(r.unreported + 1);
    }
  }

  // ----- Runs -----------------------------------------------------------------

  /** A connection attempt, or a noted rejection. */
  datatype Attempt = Attempt(ip: Ip, at: int)

  predicate InOrder(run: seq<Attempt>) {
    forall i, j :: 0 <= i < j < |run| ==> run[i].at <= run[j].at
  }

  function Past(run: seq<Attempt>): seq<Attempt>
    requires run != []
  {
    run[..|run| - 1]
  }

  function Last(run: seq<Attempt>): Attempt
    requires run != []
  {
    run[|run| - 1]
  }

  /** The limiter's table after a run of attempts. */
  function HitsAfter(run: seq<Attempt>, window: nat, max: nat): map<Ip, seq<int>> {
    if run == [] then map[]
    else Checked(HitsAfter(Past(run), window, max), Last(run).ip, Last(run).at, window, max).0
  }

  /** The limiter's decision on the last attempt of a run. */
  predicate Allowed(run: seq<Attempt>, window: nat, max: nat)
    requires run != []
  {
    Checked(HitsAfter(Past(run), window, max), Last(run).ip, Last(run).at, window, max).1
  }

  /** Times of the attempts of `ip` that the limiter let in. */
  function AllowedTimes(run: seq<Attempt>, ip: Ip, window: nat, max: nat): seq<int> {
    if run == [] then []
    else
      AllowedTimes(Past(run), ip, window, max)
      + (if Last(run).ip == ip && Allowed(run, window, max) then [Last(run).at] else [])
  }

  // ----- Window arithmetic ----------------------------------------------------

  lemma {:induction false} RecentAppend(a: seq<int>, x: int, now: int, window: nat)
    ensures Recent(a + [x], now, window) == Recent(a, now, window) + Recent([x], now, window)
  {
    assert (a + [x])[..|a|] == a;
    assert Recent([x][..0], now, window) == [];
  }

  /** Pruning early never hides a time that is still recent later. */
  lemma {:induction false} RecentTwice(times: seq<int>, now: int, later: int, window: nat)
    requires now <= later
    ensures Recent(Recent(times, now, window), later, window) == Recent(times, later, window)
  {
    if times != [] {
      var init, x := times[..|times| - 1], times[|times| - 1];
      RecentTwice(init, now, later, window);
      if Since(now, x) < window {
        RecentAppend(Recent(init, now, window), x, later, window);
        assert Recent([x][..0], later, window) == [];
      } else {
        assert Recent(init, now, window) + [] == Recent(init, now, window);
      }
    }
  }

  lemma TrimKeepsRecent(hits: map<Ip, seq<int>>, ip: Ip, now: int, later: int, window: nat)
    requires now <= later
    ensures Recent(Times(TrimHits(hits, now, window), ip), later, window)
         == Recent(Times(hits, ip), later, window)
  {
    if ip in hits && ip !in TrimHits(hits, now, window) {
      RecentTwice(hits[ip], now, later, window);
    }
  }

  /** What a check leaves in the table for its own IP, from then on. */
  lemma {:induction false} OwnTimes(hits: map<Ip, seq<int>>, a: Attempt, later: int, window: nat, max: nat, times: seq<int>)
    requires a.at <= later && times == Times(hits, a.ip)
    ensures Recent(Times(Checked(hits, a.ip, a.at, window, max).0, a.ip), later, window)
         == if Checked(hits, a.ip, a.at, window, max).1
            then Recent(times, later, window) + Recent([a.at], later, window)
            else Recent(times, later, window)
  {
    var trimmed := Times(TrimHits(hits, a.at, window), a.ip);
    var recent := Recent(trimmed, a.at, window);
    TrimKeepsRecent(hits, a.ip, a.at, later, window);
    RecentTwice(trimmed, a.at, later, window);
    RecentAppend(recent, a.at, later, window);
  }

  /** What a check leaves in the table for another IP, from then on. */
  lemma {:induction false} OtherTimes(hits: map<Ip, seq<int>>, ip: Ip, a: Attempt, later: int, window: nat, max: nat)
    requires a.at <= later && a.ip != ip
    ensures Recent(Times(Checked(hits, a.ip, a.at, window, max).0, ip), later, window)
         == Recent(Times(hits, ip), later, window)
  {
    OtherEntry(hits, ip, a, window, max);
    TrimKeepsRecent(hits, ip, a.at, later, window);
  }

  lemma {:induction false} OtherEntry(hits: map<Ip, seq<int>>, ip: Ip, a: Attempt, window: nat, max: nat)
    requires a.ip != ip
    ensures Times(Checked(hits, a.ip, a.at, window, max).0, ip) == Times(TrimHits(hits, a.at, window), ip)
  {
  }

  /** One check keeps the table and the record of hits let in alike, from then on. */
  lemma {:induction false} CheckKeepsMatch(
    hits: map<Ip, seq<int>>, record: seq<int>, record': seq<int>, ip: Ip, a: Attempt,
    later: int, window: nat, max: nat)
    requires a.at <= later
    requires Recent(Times(hits, ip), later, window) == Recent(record, later, window)
    requires record' == if a.ip == ip && Checked(hits, a.ip, a.at, window, max).1 then record + [a.at] else record
    ensures Recent(Times(Checked(hits, a.ip, a.at, window, max).0, ip), later, window)
         == Recent(record', later, window)
  {
    if a.ip == ip {
      OwnTimes(hits, a, later, window, max, Times(hits, ip));
      RecentAppend(record, a.at, later, window);
    } else {
      OtherTimes(hits, ip, a, later, window, max);
    }
  }

  /** From now on, the table shows each IP the same recent hits as the full record does. */
  lemma {:induction false} TableMatchesRecord(run: seq<Attempt>, ip: Ip, later: int, window: nat, max: nat)
    requires InOrder(run) && (run != [] ==> Last(run).at <= later)
    ensures Recent(Times(HitsAfter(run, window, max), ip), later, window)
         == Recent(AllowedTimes(run, ip, window, max), later, window)
  {
    if run != [] {
      var record := AllowedTimes(Past(run), ip, window, max);
      TableMatchesRecord(Past(run), ip, later, window, max);
      assert record + [] == record;
      CheckKeepsMatch(HitsAfter(Past(run), window, max), record, AllowedTimes(run, ip, window, max),
                      ip, Last(run), later, window, max);
    }
  }

  predicate Ordered(t: seq<int>) {
    forall i, j :: 0 <= i < j < |t| ==> t[i] <= t[j]
  }

  predicate NoneAfter(t: seq<int>, now: int) {
    forall i :: 0 <= i < |t| ==> t[i] <= now
  }

  lemma {:induction false} AllowedInOrder(run: seq<Attempt>, ip: Ip, window: nat, max: nat)
    requires InOrder(run)
    ensures Ordered(AllowedTimes(run, ip, window, max))
    ensures run != [] ==> NoneAfter(AllowedTimes(run, ip, window, max), Last(run).at)
  {
    if run != [] {
      var past, now := AllowedTimes(Past(run), ip, window, max), Last(run).at;
      AllowedInOrder(Past(run), ip, window, max);
      assert |run| > 1 ==> Last(Past(run)).at <= now;
      assert past + [] == past;
      OrderedAppend(past, now);
    }
  }

  lemma {:induction false} OrderedAppend(t: seq<int>, now: int)
    requires Ordered(t) && NoneAfter(t, now)
    ensures Ordered(t + [now]) && NoneAfter(t + [now], now)
  {
  }

  /** The positions of the times less than `window` before `now`. */
  function Positions(times: seq<int>, now: int, window: nat): set<int> {
    set i | 0 <= i < |times| && now - times[i] < window
  }

  lemma {:induction false} RecentCount(times: seq<int>, now: int, window: nat)
    requires NoneAfter(times, now)
    ensures |Recent(times, now, window)| == |Positions(times, now, window)|
  {
    if times != [] {
      var n := |times| - 1;
      RecentCount(times[..n], now, window);
      assert Positions(times, now, window)
          == Positions(times[..n], now, window) + if now - times[n] < window then {n} else {};
    }
  }

  /**
   * Neither the per-IP pruning nor the table trim ever changes a decision: an attempt is
   * let in exactly when fewer than `max` hits of its IP ever let in are less than `window` old.
   */
  lemma {:induction false} DecisionIsFullHistory(run: seq<Attempt>, window: nat, max: nat, t: seq<int>, now: int)
    requires InOrder(run) && run != [] && now == Last(run).at
    requires t == AllowedTimes(Past(run), Last(run).ip, window, max)
    ensures Allowed(run, window, max) <==> |set i | 0 <= i < |t| && now - t[i] < window| < max
    ensures Allowed(run, window, max) <==> |Recent(t, now, window)| < max
  {
    var ip := Last(run).ip;
    AllowedInOrder(Past(run), ip, window, max);
    assert |run| > 1 ==> Last(Past(run)).at <= now;
    RecentCount(t, now, window);
    assert Positions(t, now, window) == set i | 0 <= i < |t| && now - t[i] < window;
    TableDecides(run, window, max);
  }

  lemma {:induction false} TableDecides(run: seq<Attempt>, window: nat, max: nat)
    requires InOrder(run) && run != []
    ensures Allowed(run, window, max) <==>
            |Recent(AllowedTimes(Past(run), Last(run).ip, window, max), Last(run).at, window)| < max
  {
    var a := Last(run);
    TableMatchesRecord(Past(run), a.ip, a.at, window, max);
    TrimKeepsRecent(HitsAfter(Past(run), window, max), a.ip, a.at, a.at, window);
  }

  /** In an ordered record, everything after a recent hit is recent. */
  lemma {:induction false} RecentSuffix(t: seq<int>, k: nat, now: int, window: nat)
    requires Ordered(t)
    requires k < |t| && Since(now, t[k]) < window
    ensures |Recent(t, now, window)| >= |t| - k
  {
    var init := t[..|t| - 1];
    if k < |t| - 1 {
      RecentSuffix(init, k, now, window);
    }
  }

  /** Any `max + 1` consecutive hits let in from one IP span at least `window`. */
  lemma {:induction false} AllowedHitsSpread(run: seq<Attempt>, ip: Ip, window: nat, max: nat, i: nat)
    requires InOrder(run)
    requires i + max < |AllowedTimes(run, ip, window, max)|
    ensures var t := AllowedTimes(run, ip, window, max);
            t[i + max] - t[i] >= window
  {
    var t, past := AllowedTimes(run, ip, window, max), AllowedTimes(Past(run), ip, window, max);
    AllowedInOrder(run, ip, window, max);
    if i + max < |past| {
      AllowedHitsSpread(Past(run), ip, window, max, i);
    } else {
      TableDecides(run, window, max);
      AllowedInOrder(Past(run), ip, window, max);
      if max > 0 && t[i + max] - t[i] < window {
        RecentSuffix(past, i, Last(run).at, window);
      }
    }
  }

  // ----- Throttled rejection reports --------------------------------------------

  datatype Report = Report(at: int, count: nat)

  function LogsAfter(run: seq<Attempt>, window: nat): map<Ip, RejectionLog> {
    if run == [] then map[] else Noted(LogsAfter(Past(run), window), Last(run).ip, Last(run).at, window).0
  }

  /** What the last rejection of a run made the listener report. */
  function ReportNow(run: seq<Attempt>, window: nat): Option<nat>
    requires run != []
  {
    Noted(LogsAfter(Past(run), window), Last(run).ip, Last(run).at, window).1
  }

  function Reports(run: seq<Attempt>, ip: Ip, window: nat): seq<Report> {
    if run == [] then []
    else
      Reports(Past(run), ip, window)
      + (if Last(run).ip == ip && ReportNow(run, window).Some?
         then [Report(Last(run).at, ReportNow(run, window).value)] else [])
  }

  /** Rejections of `ip` in a run. */
  function Rejections(run: seq<Attempt>, ip: Ip): nat {
    if run == [] then 0 else Rejections(Past(run), ip) + (if Last(run).ip == ip then 1 else 0)
  }

  function Pending(logs: map<Ip, RejectionLog>, ip: Ip): nat {
    if ip in logs then logs[ip].unreported else 0
  }

  /** Unreported rejections of `ip` that table trims threw away. */
  function Dropped(run: seq<Attempt>, ip: Ip, window: nat): nat {
    if run == [] then 0
    else
      var logs := LogsAfter(Past(run), window);
      Dropped(Past(run), ip, window)
      + (if ip in TrimLogs(logs, Last(run).at, window) then 0 else Pending(logs, ip))
  }

  function Total(reports: seq<Report>): nat {
    if reports == [] then 0 else Total(reports[..|reports| - 1]) + reports[|reports| - 1].count
  }

  /** Every rejection is reported, pending, or was thrown away by a trim. */
  lemma {:induction false} RejectionsAreAccounted(run: seq<Attempt>, ip: Ip, window: nat)
    ensures Total(Reports(run, ip, window)) + Pending(LogsAfter(run, window), ip) + Dropped(run, ip, window)
         == Rejections(run, ip)
  {
    if run != [] {
      RejectionsAreAccounted(Past(run), ip, window);
      var past := Reports(Past(run), ip, window);
      assert past + [] == past;
      forall r: Report ensures Total(past + [r]) == Total(past) + r.count {
        assert (past + [r])[..|past|] == past;
      }
    }
  }

  /** The table remembers the last report of `ip`, or that report is `window` old for good. */
  predicate RemembersLast(logs: map<Ip, RejectionLog>, reports: seq<Report>, ip: Ip, now: int, window: nat) {
    && (reports != [] ==> reports[|reports| - 1].at <= now)
    && if ip in logs then reports != [] && logs[ip].lastLogged == reports[|reports| - 1].at
       else reports != [] ==> Since(now, reports[|reports| - 1].at) >= window
  }

  /** One more note keeps the table's memory of the last report. */
  lemma NoteRemembers(logs: map<Ip, RejectionLog>, reports: seq<Report>, reports': seq<Report>, ip: Ip,
                      before: int, a: Attempt, window: nat)
    requires before <= a.at && RemembersLast(logs, reports, ip, before, window)
    requires var r := Noted(logs, a.ip, a.at, window).1;
             reports' == if a.ip == ip && r.Some? then reports + [Report(a.at, r.value)] else reports
    ensures RemembersLast(Noted(logs, a.ip, a.at, window).0, reports', ip, a.at, window)
  {
  }

  lemma {:induction false} LastReportRemembered(run: seq<Attempt>, ip: Ip, window: nat)
    requires InOrder(run) && run != []
    ensures RemembersLast(LogsAfter(run, window), Reports(run, ip, window), ip, Last(run).at, window)
  {
    var past, a := Past(run), Last(run);
    var before := a.at;
    if |run| > 1 {
      LastReportRemembered(past, ip, window);
      before := Last(past).at;
      assert before <= a.at;
    } else {
      assert LogsAfter(past, window) == map[] && Reports(past, ip, window) == [];
    }
    var reports := Reports(past, ip, window);
    assert reports + [] == reports;
    NoteRemembers(LogsAfter(past, window), reports, Reports(run, ip, window), ip, before, a, window);
  }

  /** Successive reports for one IP are at least `window` apart, even across table trims. */
  lemma {:induction false} ReportsSpread(run: seq<Attempt>, ip: Ip, window: nat, i: nat)
    requires InOrder(run)
    requires i + 1 < |Reports(run, ip, window)|
    ensures Reports(run, ip, window)[i + 1].at - Reports(run, ip, window)[i].at >= window
  {
    var past := Reports(Past(run), ip, window);
    if i + 1 < |past| {
      ReportsSpread(Past(run), ip, window, i);
    } else {
      assert past != [] && Past(run) != [];
      LastReportRemembered(Past(run), ip, window);
      assert Last(Past(run)).at <= Last(run).at;
    }
  }

  /**
   * A rejection is reported exactly when no report for its IP is less than `window` old, and
   * a report clears what was pending: with it, everything not thrown away has been reported.
   */
  lemma {:induction false} ReportedExactly(run: seq<Attempt>, window: nat, ip: Ip, now: int, reports: seq<Report>)
    requires InOrder(run) && run != [] && ip == Last(run).ip && now == Last(run).at
    requires reports == Reports(Past(run), ip, window)
    ensures ReportNow(run, window).Some? <==> reports == [] || now - reports[|reports| - 1].at >= window
    ensures ReportNow(run, window).Some? ==>
              Total(Reports(run, ip, window)) + Dropped(run, ip, window) == Rejections(run, ip)
  {
    RejectionsAreAccounted(run, ip, window);
    if |run| > 1 {
      LastReportRemembered(Past(run), ip, window);
      assert Last(Past(run)).at <= now;
    } else {
      assert LogsAfter(Past(run), window) == map[] && reports == [];
    }
  }

  /** Nothing is thrown away while the table holds no more than ten thousand entries. */
  lemma {:induction false} NothingDropped(run: seq<Attempt>, ip: Ip, window: nat)
    requires forall k: nat :: k <= |run| ==> |LogsAfter(run[..k], window)| <= 10_000
    ensures Dropped(run, ip, window) == 0
  {
    if run != [] {
      forall k: nat | k < |run| ensures |LogsAfter(Past(run)[..k], window)| <= 10_000 {
        assert Past(run)[..k] == run[..k];
      }
      NothingDropped(Past(run), ip, window);
      assert |LogsAfter(run[..|run| - 1], window)| <= 10_000;
    }
  }
}
