/** Keyset listing of a mailbox: the memory store's vector pipeline and the SQL query. */
module Listing {
  import opened Bytes
  import opened Mail
  import opened SqlQuotas

  /** The anchor row of a cursor, looked up in storage order. */
  function FindAnchor(ms: seq<Message>, address: string, id: nat): (r: Option<Message>)
    ensures r.Some? ==> r.value in ms && r.value.mailbox == address && r.value.id == id
    ensures r.None? ==> forall m :: m in ms && m.mailbox == address ==> m.id != id
  {
    if ms == [] then None
    else if ms[0].mailbox == address && ms[0].id == id then Some(ms[0])
    else
      assert ms == [ms[0]] + ms[1..];
      FindAnchor(ms[1..], address, id)
  }

  function Anchor(ms: seq<Message>, address: string, since: Option<nat>): Option<Message> {
    if since.None? then None else FindAnchor(ms, address, since.value)
  }

  function PastAnchor(ms: seq<Message>, anchor: Option<Message>): (r: seq<Message>)
    ensures forall m :: m in r <==> m in ms && (anchor.None? || Newer(m, anchor.value))
  {
    if ms == [] then []
    else
      assert ms == [ms[0]] + ms[1..];
      (if anchor.None? || Newer(ms[0], anchor.value) then [ms[0]] else []) + PastAnchor(ms[1..], anchor)
  }

  /** `LIMIT`, where zero means no limit. */
  function Limited(ms: seq<Message>, limit: nat): seq<Message> {
    if limit == 0 || |ms| <= limit then ms else ms[..limit]
  }

  lemma LimitedIsPrefix(ms: seq<Message>, limit: nat)
    ensures Limited(ms, limit) == ms[..if limit == 0 || |ms| <= limit then |ms| else limit]
  {
  }

  /** What the memory store lists. */
  function Page(ms: seq<Message>, address: string, limit: nat, since: Option<nat>): seq<Message> {
    var anchor := Anchor(ms, address, since);
    Limited(SortNewestFirst(PastAnchor(Of(ms, address), anchor)), limit)
  }

  lemma {:induction false} PastAnchorUnique(ms: seq<Message>, anchor: Option<Message>)
    requires UniqueIds(ms)
    ensures UniqueIds(PastAnchor(ms, anchor))
  {
    if ms != [] {
      PastAnchorUnique(ms[1..], anchor);
      var rest := PastAnchor(ms[1..], anchor);
      forall k | 0 <= k < |rest| ensures rest[k].id != ms[0].id {
        assert rest[k] in rest;
      }
    }
  }

  lemma {:induction false} PastAnchorDescending(ms: seq<Message>, address: string, anchor: Option<Message>)
    requires UniqueIds(ms)
    ensures Descending(SortNewestFirst(PastAnchor(Of(ms, address), anchor)))
  {
    OfUnique(ms, address);
    PastAnchorUnique(Of(ms, address), anchor);
    SortDescending(PastAnchor(Of(ms, address), anchor));
  }

  /** The entries newer than entry `i` are the first `i`. */
  lemma {:induction false} NewerThanEntry(full: seq<Message>, listed: seq<Message>, i: nat)
    requires Descending(full) && Descending(listed) && i < |full|
    requires forall m :: m in listed <==> m in full && Newer(m, full[i])
    ensures listed == full[..i]
  {
    forall m ensures m in listed <==> m in full[..i] {
      if m in listed {
        var k :| 0 <= k < |full| && full[k] == m;
        assert k < i;
        assert m == full[..i][k];
      }
    }
    DescendingUnique(listed, full[..i]);
  }

  /** A cursor at entry `i` of the full listing pages through exactly the entries before it. */
  lemma {:induction false} PageAtCursor(ms: seq<Message>, address: string, limit: nat, i: nat, full: seq<Message>)
    requires UniqueIds(ms) && full == NewestFirst(ms, address) && i < |full|
    ensures Page(ms, address, limit, Some(full[i].id)) == full[..if limit == 0 || i <= limit then i else limit]
  {
    NewestFirstDescending(ms, address);
    assert full[i] in full;
    var anchor := Anchor(ms, address, Some(full[i].id));
    assert anchor == Some(full[i]);
    var listed := SortNewestFirst(PastAnchor(Of(ms, address), anchor));
    PastAnchorDescending(ms, address, anchor);
    NewerThanEntry(full, listed, i);
    LimitedIsPrefix(listed, limit);
    assert full[..i][..if limit == 0 || i <= limit then i else limit]
        == full[..if limit == 0 || i <= limit then i else limit];
  }

  /** No cursor, or one whose message is gone, lists from the newest. */
  lemma {:induction false} PageFromNewest(ms: seq<Message>, address: string, limit: nat, since: Option<nat>)
    requires UniqueIds(ms)
    requires since.Some? ==> forall m :: m in ms && m.mailbox == address ==> m.id != since.value
    ensures var full := NewestFirst(ms, address);
            Page(ms, address, limit, since) == full[..if limit == 0 || |full| <= limit then |full| else limit]
  {
    PastAnchorDescending(ms, address, None);
    NewestFirstDescending(ms, address);
    DescendingUnique(SortNewestFirst(PastAnchor(Of(ms, address), None)), NewestFirst(ms, address));
    LimitedIsPrefix(NewestFirst(ms, address), limit);
  }

  // ----- The SQL query --------------------------------------------------------

  ghost predicate Selected(table: set<Message>, address: string, since: Option<nat>, m: Message) {
    && m in table && m.mailbox == address
    && (since.Some? ==> forall s :: s in table && s.mailbox == address && s.id == since.value ==> Newer(m, s))
  }

  /** `all` is the ordered result of the keyset query over the table, before its `LIMIT`. */
  ghost predicate IsSqlResult(table: set<Message>, address: string, since: Option<nat>, all: seq<Message>) {
    Descending(all) && forall m :: m in all <==> Selected(table, address, since, m)
  }

  /** `rows` is the ordered, limited result of the keyset query over the table. */
  ghost predicate IsSqlPage(table: set<Message>, address: string, limit: nat, since: Option<nat>, rows: seq<Message>) {
    exists all ::
      IsSqlResult(table, address, since, all) && rows == all[..if limit == 0 || |all| <= limit then |all| else limit]
  }

  /** The anchor is the one row that the cursor names. */
  lemma {:induction false} AnchorIsOnly(ms: seq<Message>, address: string, id: nat, s: Message)
    requires UniqueIds(ms) && s in ms && s.mailbox == address && s.id == id
    ensures FindAnchor(ms, address, id) == Some(s)
  {
    var anchor := FindAnchor(ms, address, id);
    assert anchor.Some?;
    var i :| 0 <= i < |ms| && ms[i] == s;
    var j :| 0 <= j < |ms| && ms[j] == anchor.value;
    assert i == j;
  }

  lemma {:induction false} SelectedExactly(ms: seq<Message>, address: string, since: Option<nat>, m: Message)
    requires UniqueIds(ms)
    ensures Selected(Members(ms), address, since, m) <==>
            m in SortNewestFirst(PastAnchor(Of(ms, address), Anchor(ms, address, since)))
  {
    var anchor := Anchor(ms, address, since);
    assert m in SortNewestFirst(PastAnchor(Of(ms, address), anchor)) <==>
           m in ms && m.mailbox == address && (anchor.None? || Newer(m, anchor.value));
    if since.Some? {
      forall s | s in ms && s.mailbox == address && s.id == since.value ensures anchor == Some(s) {
        AnchorIsOnly(ms, address, since.value, s);
      }
    }
  }

  /** All that the memory store would list without a limit. */
  function Listed(ms: seq<Message>, address: string, since: Option<nat>): seq<Message> {
    SortNewestFirst(PastAnchor(Of(ms, address), Anchor(ms, address, since)))
  }

  lemma {:induction false} ResultIsListed(ms: seq<Message>, address: string, since: Option<nat>, all: seq<Message>)
    requires UniqueIds(ms)
    ensures IsSqlResult(Members(ms), address, since, all) <==> all == Listed(ms, address, since)
  {
    var listed := Listed(ms, address, since);
    PastAnchorDescending(ms, address, Anchor(ms, address, since));
    forall m ensures m in listed <==> Selected(Members(ms), address, since, m) {
      SelectedExactly(ms, address, since, m);
    }
    if IsSqlResult(Members(ms), address, since, all) {
      DescendingUnique(all, listed);
    }
  }

  /** The query has exactly one result, the memory store's page, in whatever order rows are stored. */
  lemma {:induction false} SqlPageExactly(
    ms: seq<Message>, address: string, limit: nat, since: Option<nat>, rows: seq<Message>)
    requires UniqueIds(ms)
    ensures IsSqlPage(Members(ms), address, limit, since, rows) <==> rows == Page(ms, address, limit, since)
  {
    var listed := Listed(ms, address, since);
    ResultIsListed(ms, address, since, listed);
    LimitedIsPrefix(listed, limit);
    if IsSqlPage(Members(ms), address, limit, since, rows) {
      var all :| IsSqlResult(Members(ms), address, since, all)
                 && rows == all[..if limit == 0 || |all| <= limit then |all| else limit];
      ResultIsListed(ms, address, since, all);
    }
  }

  /** Listings do not depend on the order messages are stored in. */
  lemma {:induction false} PageIgnoresStorageOrder(
    ms: seq<Message>, ms': seq<Message>, address: string, limit: nat, since: Option<nat>)
    requires UniqueIds(ms) && UniqueIds(ms') && SameMembers(ms, ms')
    ensures Page(ms, address, limit, since) == Page(ms', address, limit, since)
  {
    assert Members(ms) == Members(ms');
    SqlPageExactly(ms, address, limit, since, Page(ms, address, limit, since));
    SqlPageExactly(ms', address, limit, since, Page(ms, address, limit, since));
  }
}
