/** Stored messages, and their newest-first order by `(received_at, id)`. */
module Mail {
  import opened Bytes

  /** `content` stands for every column that quotas and listings do not look at. */
  datatype Message = Message(mailbox: string, receivedAt: int, id: nat, rawSize: int, content: Bytes)

  predicate Newer(a: Message, b: Message) {
    a.receivedAt > b.receivedAt || (a.receivedAt == b.receivedAt && a.id > b.id)
  }

  predicate UniqueIds(ms: seq<Message>) {
    forall i, j :: 0 <= i < j < |ms| ==> ms[i].id != ms[j].id
  }

  predicate Descending(ms: seq<Message>) {
    forall i, j :: 0 <= i < j < |ms| ==> Newer(ms[i], ms[j])
  }

  ghost predicate SameMembers(s: seq<Message>, t: seq<Message>) {
    forall m :: m in s <==> m in t
  }

  /** The messages of one mailbox, in storage order. */
  function Of(ms: seq<Message>, address: string): (r: seq<Message>)
    ensures forall m :: m in r <==> m in ms && m.mailbox == address
  {
    if ms == [] then []
    else
      assert ms == [ms[0]] + ms[1..];
      (if ms[0].mailbox == address then [ms[0]] else []) + Of(ms[1..], address)
  }

  function Insert(m: Message, s: seq<Message>): (r: seq<Message>)
    ensures forall x :: x in r <==> x == m || x in s
    ensures |r| == |s| + 1
  {
    if s == [] || Newer(m, s[0]) then [m] + s
    else
      assert s == [s[0]] + s[1..];
      [s[0]] + Insert(m, s[1..])
  }

  function SortNewestFirst(s: seq<Message>): (r: seq<Message>)
    ensures SameMembers(s, r)
    ensures |r| == |s|
  {
    if s == [] then []
    else
      assert s == [s[0]] + s[1..];
      Insert(s[0], SortNewestFirst(s[1..]))
  }

  function NewestFirst(ms: seq<Message>, address: string): (r: seq<Message>)
    ensures forall m :: m in r <==> m in ms && m.mailbox == address
  {
    SortNewestFirst(Of(ms, address))
  }

  lemma {:induction false} InsertDescending(m: Message, s: seq<Message>)
    requires Descending(s)
    requires forall x :: x in s ==> x.id != m.id
    ensures Descending(Insert(m, s))
  {
    if s != [] && !Newer(m, s[0]) {
      var rest := Insert(m, s[1..]);
      InsertDescending(m, s[1..]);
      forall j | 0 <= j < |rest| ensures Newer(s[0], rest[j]) {
        assert rest[j] in rest;
      }
    }
  }

  lemma {:induction false} SortDescending(s: seq<Message>)
    requires UniqueIds(s)
    ensures Descending(SortNewestFirst(s))
  {
    if s != [] {
      SortDescending(s[1..]);
      InsertDescending(s[0], SortNewestFirst(s[1..]));
    }
  }

  lemma {:induction false} OfUnique(ms: seq<Message>, address: string)
    requires UniqueIds(ms)
    ensures UniqueIds(Of(ms, address))
  {
    if ms != [] {
      OfUnique(ms[1..], address);
    }
  }

  lemma NewestFirstDescending(ms: seq<Message>, address: string)
    requires UniqueIds(ms)
    ensures Descending(NewestFirst(ms, address))
  {
    OfUnique(ms, address);
    SortDescending(Of(ms, address));
  }

  /**
   * A listing is exactly the mailbox's messages, each once, later ones first, and of two
   * received at the same instant the one with the larger id first.
   */
  lemma {:induction false} ListedNewestFirst(ms: seq<Message>, address: string, newest: seq<Message>, i: nat, j: nat)
    requires UniqueIds(ms) && newest == NewestFirst(ms, address) && i < j < |newest|
    ensures newest[i].receivedAt >= newest[j].receivedAt
    ensures newest[i].receivedAt == newest[j].receivedAt ==> newest[i].id > newest[j].id
    ensures newest[i] in ms && newest[i].mailbox == address
    ensures forall m :: m in ms && m.mailbox == address ==> m in newest
  {
    NewestFirstDescending(ms, address);
    assert newest[i] in newest;
  }

  /** A newest-first sequence is determined by its members. */
  lemma {:induction false} DescendingUnique(s: seq<Message>, t: seq<Message>)
    requires Descending(s) && Descending(t) && SameMembers(s, t)
    ensures s == t
  {
    assert |s| > 0 ==> s[0] in t;
    assert |t| > 0 ==> t[0] in s;
    if s != [] && t != [] {
      assert s[0] in t && t[0] in s;
      assert s[0] == t[0];
      forall m ensures m in s[1..] <==> m in t[1..] {
        DescendingTail(s, m);
        DescendingTail(t, m);
      }
      DescendingUnique(s[1..], t[1..]);
    }
  }

  lemma DescendingTail(s: seq<Message>, m: Message)
    requires Descending(s) && s != []
    ensures m in s[1..] <==> m in s && m != s[0]
  {
    if m in s && m != s[0] {
      var i :| 0 <= i < |s| && s[i] == m;
      assert s[1..][i - 1] == m;
    }
  }

  lemma {:induction false} OfAppend(a: seq<Message>, b: seq<Message>, address: string)
    ensures Of(a + b, address) == Of(a, address) + Of(b, address)
  {
    if a == [] {
      assert a + b == b;
    } else {
      assert (a + b)[1..] == a[1..] + b;
      OfAppend(a[1..], b, address);
    }
  }
}
