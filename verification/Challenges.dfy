/** Single-use attestation challenges, held in a table that sheds entries under load. */
module Challenges {
  import opened Clock

  const MAX_OUTSTANDING: nat := 100_000

  /** `retain` of the entries less than `age` old. */
  function Younger(issued: map<string, int>, now: int, age: nat): map<string, int> {
    map c | c in issued && Since(now, issued[c]) < age :: issued[c]
  }

  /** Room made before a new challenge goes in. */
  function Shed(issued: map<string, int>, now: int, ttl: nat): map<string, int> {
    if |issued| < MAX_OUTSTANDING then issued
    else
      var live := Younger(issued, now, ttl);
      if |live| < MAX_OUTSTANDING then live else Younger(live, now, ttl / 2)
  }

  function Issued(issued: map<string, int>, c: string, now: int, ttl: nat): map<string, int> {
    Shed(issued, now, ttl)[c := now]
  }

  predicate Redeems(issued: map<string, int>, c: string, now: int, ttl: nat) {
    c in issued && Since(now, issued[c]) < ttl
  }

  class ChallengeStore {
    const ttl: nat
    var issued: map<string, int>

    constructor (ttl: nat)
      ensures this.ttl == ttl && issued == map[]
    {
      this.ttl := ttl;
      issued := map[];
    }

    /** `c` is the freshly drawn challenge. */
    method Issue(c: string, now: int)
      modifies this
      ensures issued == Issued(old(issued), c, now, ttl)
    {
      if |issued| >= MAX_OUTSTANDING {
        issued := Younger(issued, now, ttl);
        if |issued| >= MAX_OUTSTANDING {
          issued := Younger(issued, now, ttl / 2);
        }
      }
      issued := issued[c := now];
    }

    method Consume(c: string, now: int) returns (ok: bool)
      modifies this
      ensures ok == Redeems(old(issued), c, now, ttl)
      ensures issued == old(issued) - {c}
    {
      ok := c in issued && Since(now, issued[c]) < ttl;
      issued := issued - {c};
    }
  }

  // ----- How large the table gets ------------------------------------------------

  lemma SubmapSize(a: map<string, int>, b: map<string, int>)
    requires a.Keys <= b.Keys
    ensures |a| <= |b|
  {
    assert b.Keys == a.Keys + (b.Keys - a.Keys);
    assert |a| == |a.Keys| && |b| == |b.Keys|;
  }

  lemma YoungerTwice(issued: map<string, int>, now: int, age: nat, half: nat)
    requires half <= age
    ensures Younger(Younger(issued, now, age), now, half) == Younger(issued, now, half)
  {
  }

  /** The outstanding challenges issued less than `age` before `now`. */
  function Fresh(issued: map<string, int>, now: int, age: nat): set<string> {
    set c | c in issued && age > 0 && now - issued[c] < age
  }

  lemma {:induction false} YoungerAreFresh(issued: map<string, int>, now: int, age: nat)
    ensures Younger(issued, now, age).Keys == Fresh(issued, now, age)
    ensures |Younger(issued, now, age)| == |Fresh(issued, now, age)|
  {
    assert Younger(issued, now, age).Keys == Fresh(issued, now, age);
    assert |Younger(issued, now, age)| == |Younger(issued, now, age).Keys|;
  }

  /**
   * The "hard cap" is exceeded by an issue exactly when that many challenges younger than
   * half the TTL are already outstanding; otherwise it holds.
   */
  lemma {:induction false} CapExceededExactly(issued: map<string, int>, c: string, now: int, ttl: nat)
    requires c !in issued
    ensures |Issued(issued, c, now, ttl)| > 100_000 <==> |Fresh(issued, now, ttl / 2)| >= 100_000
    ensures |issued| >= 100_000 && |Fresh(issued, now, ttl)| >= 100_000 ==>
              |Issued(issued, c, now, ttl)| == |Fresh(issued, now, ttl / 2)| + 1
  {
    var young, live := Younger(issued, now, ttl / 2), Younger(issued, now, ttl);
    SubmapSize(young, live);
    SubmapSize(live, issued);
    YoungerTwice(issued, now, ttl, ttl / 2);
    YoungerAreFresh(issued, now, ttl / 2);
    YoungerAreFresh(issued, now, ttl);
    var kept := Shed(issued, now, ttl);
    assert kept[c := now].Keys == kept.Keys + {c};
    assert |kept[c := now]| == |kept| + 1;
  }

  // ----- Runs --------------------------------------------------------------------

  datatype Event = Issue(challenge: string, at: int) | Consume(challenge: string, at: int)

  predicate InOrder(run: seq<Event>) {
    forall i, j :: 0 <= i < j < |run| ==> run[i].at <= run[j].at
  }

  function TableAfter(run: seq<Event>, ttl: nat): map<string, int> {
    if run == [] then map[]
    else
      var past := TableAfter(run[..|run| - 1], ttl);
      match run[|run| - 1]
      case Issue(c, at) => Issued(past, c, at, ttl)
      case Consume(c, at) => past - {c}
  }

  /** The event at `j` issues a challenge and finds the table full of unexpired ones. */
  predicate Sheds(run: seq<Event>, j: nat, ttl: nat)
    requires j < |run|
  {
    run[j].Issue? && |Fresh(TableAfter(run[..j], ttl), run[j].at, ttl)| >= 100_000
  }

  /** The event at `j` leaves a challenge `c` issued at `i`: it is about another, and sheds only older ones. */
  predicate Leaves(run: seq<Event>, c: string, i: nat, j: nat, ttl: nat)
    requires i < |run| && j < |run|
  {
    run[j].challenge != c && (Sheds(run, j, ttl) ==> run[j].at - run[i].at < ttl / 2)
  }

  /**
   * `c` was issued at `i`, nothing has touched it since, and whoever found the table full
   * since then found it less than half the TTL old.
   */
  predicate KeptSince(run: seq<Event>, c: string, i: nat, ttl: nat)
    requires i < |run|
  {
    && run[i].Issue? && run[i].challenge == c
    && forall j: nat :: i < j < |run| ==> Leaves(run, c, i, j, ttl)
  }

  /** What room-making leaves of an entry: all of it, unless expired or shed. */
  lemma {:induction false} ShedKeeps(issued: map<string, int>, c: string, now: int, ttl: nat)
    requires c in issued && issued[c] <= now
    ensures c in Shed(issued, now, ttl) ==> Shed(issued, now, ttl)[c] == issued[c]
    ensures |Fresh(issued, now, ttl)| >= 100_000 ==>
              (c in Shed(issued, now, ttl) <==> now - issued[c] < ttl / 2)
    ensures |Fresh(issued, now, ttl)| < 100_000 && now - issued[c] < ttl ==>
              c in Shed(issued, now, ttl)
  {
    YoungerAreFresh(issued, now, ttl);
    SubmapSize(Younger(issued, now, ttl), issued);
  }

  lemma {:induction false} ShedAddsNothing(issued: map<string, int>, now: int, ttl: nat)
    ensures forall c :: c in Shed(issued, now, ttl) ==> c in issued && Shed(issued, now, ttl)[c] == issued[c]
  {
  }

  lemma {:induction false} LeavesEarlier(run: seq<Event>, past: seq<Event>, c: string, i: nat, j: nat, ttl: nat)
    requires run != [] && past == run[..|run| - 1] && i < |past| && j < |past|
    ensures Leaves(past, c, i, j, ttl) <==> Leaves(run, c, i, j, ttl)
  {
    assert past[..j] == run[..j];
  }

  /** One more event. */
  lemma {:induction false} KeptLonger(run: seq<Event>, past: seq<Event>, c: string, i: nat, ttl: nat)
    requires run != [] && past == run[..|run| - 1] && i < |past|
    ensures KeptSince(run, c, i, ttl) <==> KeptSince(past, c, i, ttl) && Leaves(run, c, i, |past|, ttl)
  {
    forall j: nat | j < |past| ensures Leaves(past, c, i, j, ttl) <==> Leaves(run, c, i, j, ttl) {
      LeavesEarlier(run, past, c, i, j, ttl);
    }
  }

  /** An unexpired challenge that was kept is in the table, with its issue time. */
  lemma {:induction false} KeptIsOutstanding(run: seq<Event>, c: string, i: nat, now: int, ttl: nat)
    requires InOrder(run) && run != [] && run[|run| - 1].at <= now
    requires i < |run| && KeptSince(run, c, i, ttl) && now - run[i].at < ttl
    ensures c in TableAfter(run, ttl) && TableAfter(run, ttl)[c] == run[i].at
  {
    var past, e := run[..|run| - 1], run[|run| - 1];
    if i < |past| {
      KeptLonger(run, past, c, i, ttl);
      KeptIsOutstanding(past, c, i, now, ttl);
      if e.Issue? {
        ShedKeeps(TableAfter(past, ttl), c, e.at, ttl);
      }
    }
  }

  /** A challenge that would be redeemed was issued and kept. */
  lemma {:induction false} OutstandingWasKept(run: seq<Event>, c: string, now: int, ttl: nat) returns (i: nat)
    requires InOrder(run) && (run != [] ==> run[|run| - 1].at <= now)
    requires Redeems(TableAfter(run, ttl), c, now, ttl)
    ensures i < |run| && KeptSince(run, c, i, ttl) && run[i].at == TableAfter(run, ttl)[c]
  {
    var past, e := run[..|run| - 1], run[|run| - 1];
    if e.challenge == c {
      i := |run| - 1;
    } else {
      assert c in TableAfter(past, ttl) && TableAfter(past, ttl)[c] == TableAfter(run, ttl)[c] by {
        ShedAddsNothing(TableAfter(past, ttl), e.at, ttl);
      }
      i := OutstandingWasKept(past, c, now, ttl);
      ShedKeeps(TableAfter(past, ttl), c, e.at, ttl);
      KeptLonger(run, past, c, i, ttl);
    }
  }

  /**
   * A challenge is redeemed exactly when it was issued less than the TTL ago, has been
   * neither consumed nor issued again since, and no issue that found the table full of
   * unexpired challenges found it half the TTL old. Dropping expired entries never shows.
   */
  lemma {:induction false} RedeemExactly(run: seq<Event>, c: string, now: int, ttl: nat)
    requires InOrder(run) && (run != [] ==> run[|run| - 1].at <= now)
    ensures Redeems(TableAfter(run, ttl), c, now, ttl)
       <==> exists i: nat :: i < |run| && KeptSince(run, c, i, ttl) && now - run[i].at < ttl
  {
    if Redeems(TableAfter(run, ttl), c, now, ttl) {
      var i := OutstandingWasKept(run, c, now, ttl);
    }
    if i: nat :| i < |run| && KeptSince(run, c, i, ttl) && now - run[i].at < ttl {
      KeptIsOutstanding(run, c, i, now, ttl);
    }
  }

  function IssueCount(run: seq<Event>, c: string): nat {
    if run == [] then 0
    else IssueCount(run[..|run| - 1], c)
         + (if run[|run| - 1].Issue? && run[|run| - 1].challenge == c then 1 else 0)
  }

  /** Successful redemptions of `c` in a run. */
  function RedeemCount(run: seq<Event>, c: string, ttl: nat): nat {
    if run == [] then 0
    else
      var past, e := run[..|run| - 1], run[|run| - 1];
      RedeemCount(past, c, ttl)
      + (if e.Consume? && e.challenge == c && Redeems(TableAfter(past, ttl), c, e.at, ttl) then 1 else 0)
  }

  /** Never more redemptions than issues; a challenge drawn once is redeemed at most once. */
  lemma {:induction false} RedeemedAtMostOncePerIssue(run: seq<Event>, c: string, ttl: nat)
    ensures RedeemCount(run, c, ttl) + (if c in TableAfter(run, ttl) then 1 else 0) <= IssueCount(run, c)
  {
    if run != [] {
      RedeemedAtMostOncePerIssue(run[..|run| - 1], c, ttl);
    }
  }

  // ----- A flood goes past the cap --------------------------------------------------

  function Name(i: nat): string {
    seq(i, _ => 'x')
  }

  /** `n` distinct challenges, all issued at the same instant. */
  function Flood(n: nat): seq<Event> {
    seq(n, i requires 0 <= i => Issue(Name(i), 0))
  }

  /** Everything in `issued` was issued at the start, under a name shorter than `n`. */
  predicate Flooded(issued: map<string, int>, n: nat) {
    |issued| == n && forall c :: c in issued ==> issued[c] == 0 && |c| < n
  }

  /** However large the flood, all of it is outstanding: the table has no hard cap. */
  lemma {:induction false} FloodIsUnbounded(n: nat, ttl: nat)
    requires ttl >= 2
    ensures Flooded(TableAfter(Flood(n), ttl), n)
  {
    if n > 0 {
      var past := TableAfter(Flood(n - 1), ttl);
      FloodIsUnbounded(n - 1, ttl);
      NothingToShed(past, ttl);
      FloodStep(n, ttl);
      OneMore(past, n);
    }
  }

  lemma {:induction false} FloodStep(n: nat, ttl: nat)
    requires n > 0
    ensures TableAfter(Flood(n), ttl) == Issued(TableAfter(Flood(n - 1), ttl), Name(n - 1), 0, ttl)
  {
    assert Flood(n)[..n - 1] == Flood(n - 1) && Flood(n)[n - 1] == Issue(Name(n - 1), 0);
  }

  lemma {:induction false} OneMore(past: map<string, int>, n: nat)
    requires n > 0 && Flooded(past, n - 1)
    ensures Flooded(past[Name(n - 1) := 0], n)
  {
    assert Name(n - 1) !in past;
    assert past[Name(n - 1) := 0].Keys == past.Keys + {Name(n - 1)};
  }

  lemma NothingToShed(issued: map<string, int>, ttl: nat)
    requires ttl >= 2 && forall c :: c in issued ==> issued[c] == 0
    ensures Shed(issued, 0, ttl) == issued
  {
    assert Younger(issued, 0, ttl) == issued && Younger(issued, 0, ttl / 2) == issued;
  }
}
