/**
 * The SQL store's quota enforcement as set expressions over the message table, and its
 * agreement with the memory store.
 */
module SqlQuotas {
  import opened Mail
  import opened Quotas

  function Members(ms: seq<Message>): set<Message> {
    set m | m in ms
  }

  /** Rows of the same mailbox that sort before `m` in `ORDER BY received_at DESC, id DESC`. */
  function Before(table: set<Message>, m: Message): set<Message> {
    set x | x in table && x.mailbox == m.mailbox && Newer(x, m)
  }

  /** `SUM(raw_size)`. */
  ghost function TotalSize(rows: set<Message>): int {
    if rows == {} then 0
    else
      var m :| m in rows;
      m.rawSize + TotalSize(rows - {m})
  }

  /** `value as i64` of an unsigned 64-bit value. */
  function AsI64(value: nat): int {
    if value < I64_LIMIT then value else value - (U64_MAX + 1)
  }

  /** Delete the mailbox's rows outside the newest `limit`. */
  function CountDelete(table: set<Message>, address: string, limit: nat): set<Message> {
    set m | m in table && (m.mailbox != address || |Before(table, m)| < limit)
  }

  /** Delete the mailbox's rows whose running total exceeds `limit`, except row `newId`. */
  ghost function ByteDelete(table: set<Message>, address: string, limit: int, newId: nat): set<Message> {
    set m | m in table &&
            (m.mailbox != address || TotalSize(Before(table, m) + {m}) <= limit || m.id == newId)
  }

  function Trimmed(table: set<Message>, address: string, q: MailboxQuotas): set<Message> {
    if q.maxMessages > 0 then CountDelete(table, address, q.maxMessages) else table
  }

  ghost function SqlEnforced(table: set<Message>, address: string, newId: nat, q: MailboxQuotas): set<Message> {
    var trimmed := Trimmed(table, address, q);
    if q.maxBytes > 0 then ByteDelete(trimmed, address, AsI64(q.maxBytes), newId) else trimmed
  }

  predicate NonNegativeSizes(ms: seq<Message>) {
    forall m :: m in ms ==> m.rawSize >= 0
  }

  ghost predicate StoresAgreeOn(ms: seq<Message>, address: string, newId: nat, q: MailboxQuotas) {
    Members(Enforced(ms, address, newId, q)) == SqlEnforced(Members(ms), address, newId, q)
  }

  // ----- Ranks and running totals, as sets and as prefixes ---------------------

  lemma {:induction false} TotalRemove(rows: set<Message>, m: Message)
    requires m in rows
    ensures TotalSize(rows) == m.rawSize + TotalSize(rows - {m})
  {
    var first :| first in rows && TotalSize(rows) == first.rawSize + TotalSize(rows - {first});
    if first != m {
      TotalRemove(rows - {first}, m);
      TotalRemove(rows - {m}, first);
      assert rows - {first} - {m} == rows - {m} - {first};
    }
  }

  lemma PrefixGrows(newest: seq<Message>, i: nat)
    requires Descending(newest) && 0 < i <= |newest|
    ensures newest[i - 1] !in Members(newest[..i - 1])
    ensures Members(newest[..i]) == Members(newest[..i - 1]) + {newest[i - 1]}
  {
    assert newest[..i] == newest[..i - 1] + [newest[i - 1]];
  }

  /** The first `i` messages of a newest-first listing are `i` rows. */
  lemma {:induction false} PrefixCount(newest: seq<Message>, i: nat)
    requires Descending(newest) && i <= |newest|
    ensures |Members(newest[..i])| == i
  {
    if i > 0 {
      PrefixCount(newest, i - 1);
      PrefixGrows(newest, i);
    }
  }

  /** Their sizes add up to the running total. */
  lemma {:induction false} PrefixTotal(newest: seq<Message>, i: nat)
    requires Descending(newest) && i <= |newest| && NonNegativeSizes(newest)
    ensures TotalSize(Members(newest[..i])) == Sum(newest[..i])
  {
    if i > 0 {
      var m, less, more := newest[i - 1], Members(newest[..i - 1]), Members(newest[..i]);
      PrefixTotal(newest, i - 1);
      PrefixGrows(newest, i);
      TotalRemove(more, m);
      assert more - {m} == less;
      PrefixSum(newest, i, m);
    }
  }

  lemma {:induction false} PrefixSum(newest: seq<Message>, i: nat, m: Message)
    requires 0 < i <= |newest| && NonNegativeSizes(newest) && m == newest[i - 1]
    ensures Sum(newest[..i]) == Sum(newest[..i - 1]) + m.rawSize
  {
    assert m in newest;
    assert newest[..i][..i - 1] == newest[..i - 1];
  }

  /** In a table holding the first `n` listed rows of the mailbox, row `i` comes after the first `i`. */
  lemma BeforeIsPrefix(table: set<Message>, newest: seq<Message>, address: string, n: nat, i: nat)
    requires Descending(newest) && i < n <= |newest|
    requires forall m :: m in table && m.mailbox == address <==> m in newest[..n]
    ensures Before(table, newest[i]) == Members(newest[..i])
  {
    var m := newest[i];
    assert m in newest[..n];
    forall x ensures x in Before(table, m) <==> x in newest[..i] {
      if x in Before(table, m) {
        var k :| 0 <= k < n && newest[k] == x;
        assert k < i;
      }
      if x in newest[..i] {
        var k :| 0 <= k < i && newest[k] == x;
        assert x == newest[..n][k];
      }
    }
  }

  function KeptCount(newest: seq<Message>, q: MailboxQuotas): nat {
    if q.maxMessages > 0 && q.maxMessages < |newest| then q.maxMessages else |newest|
  }

  /** The count delete leaves a prefix of the listing, and every other mailbox. */
  lemma {:induction false} TrimmedIsPrefix(ms: seq<Message>, address: string, q: MailboxQuotas, newest: seq<Message>)
    requires UniqueIds(ms) && NonNegativeSizes(ms) && newest == NewestFirst(ms, address)
    ensures forall m :: m in Trimmed(Members(ms), address, q) && m.mailbox == address
                        <==> m in newest[..KeptCount(newest, q)]
    ensures forall m :: m in ms && m.mailbox != address ==> m in Trimmed(Members(ms), address, q)
  {
    NewestFirstDescending(ms, address);
    var table, n := Members(ms), KeptCount(newest, q);
    assert newest[..|newest|] == newest;
    forall m ensures m in Trimmed(table, address, q) && m.mailbox == address <==> m in newest[..n] {
      if m in newest {
        var i :| 0 <= i < |newest| && newest[i] == m;
        BeforeIsPrefix(table, newest, address, |newest|, i);
        PrefixCount(newest, i);
        if i < n {
          assert m == newest[..n][i];
        }
      }
    }
  }

  /** Running totals over the trimmed table are those over the full listing. */
  lemma {:induction false} ByteDeleteExactly(ms: seq<Message>, address: string, newId: nat, q: MailboxQuotas,
                          newest: seq<Message>, i: nat)
    requires UniqueIds(ms) && NonNegativeSizes(ms) && newest == NewestFirst(ms, address)
    requires i < |newest|
    ensures newest[i] in SqlEnforced(Members(ms), address, newId, q) <==>
            && WithinCount(i + 1, q)
            && (q.maxBytes == 0 || Sum(newest[..i + 1]) <= AsI64(q.maxBytes) || newest[i].id == newId)
  {
    NewestFirstDescending(ms, address);
    TrimmedIsPrefix(ms, address, q, newest);
    var trimmed, n, m := Trimmed(Members(ms), address, q), KeptCount(newest, q), newest[i];
    assert m in newest && m.mailbox == address;
    if i < n {
      assert m == newest[..n][i];
      RunningOverTable(trimmed, newest, address, n, i);
    }
  }

  /** The window sum at row `i`, over any table that holds at least the first `i + 1` listed rows. */
  lemma RunningOverTable(table: set<Message>, newest: seq<Message>, address: string, n: nat, i: nat)
    requires Descending(newest) && NonNegativeSizes(newest) && i < n <= |newest|
    requires forall m :: m in table && m.mailbox == address <==> m in newest[..n]
    ensures TotalSize(Before(table, newest[i]) + {newest[i]}) == Sum(newest[..i + 1])
  {
    BeforeIsPrefix(table, newest, address, n, i);
    PrefixGrows(newest, i + 1);
    PrefixTotal(newest, i + 1);
  }

  /**
   * The one-snapshot eviction and the two successive deletes leave the same messages,
   * for both caps and wherever the new message sorts.
   */
  lemma {:induction false} StoresAgree(ms: seq<Message>, address: string, newId: nat, q: MailboxQuotas)
    requires UniqueIds(ms) && NonNegativeSizes(ms) && q.maxBytes < I64_LIMIT
    ensures StoresAgreeOn(ms, address, newId, q)
  {
    var newest := NewestFirst(ms, address);
    EnforcedExactly(ms, address, newId, q);
    TrimmedIsPrefix(ms, address, q, newest);
    forall m | m in ms
      ensures m in Enforced(ms, address, newId, q) <==> m in SqlEnforced(Members(ms), address, newId, q)
    {
      if m.mailbox == address {
        assert m in newest;
        var i :| 0 <= i < |newest| && newest[i] == m;
        ByteDeleteExactly(ms, address, newId, q, newest, i);
      }
    }
  }

  /**
   * From 2^63 on the bound limit turns negative, and the SQL store drops what the memory
   * store keeps. Unless the count cap leaves room for one message only, this takes no more
   * than saving a newest message beside another.
   */
  lemma {:induction false} HugeCapDisagrees(q: MailboxQuotas) returns (ms: seq<Message>, saved: Message)
    requires ValidQuotas(q) && q.maxBytes >= I64_LIMIT
    ensures UniqueIds(ms) && NonNegativeSizes(ms) && saved in ms
    ensures q.maxMessages != 1 ==> forall m :: m in ms && m != saved ==> Newer(saved, m)
    ensures !StoresAgreeOn(ms, saved.mailbox, saved.id, q)
  {
    var other := Message("a", 1, 1, 0, []);
    saved := Message("a", if q.maxMessages == 1 then 0 else 2, 2, 0, []);
    ms := if q.maxMessages == 1 then [other, saved] else [saved, other];
    var k := if q.maxMessages == 1 then 0 else 1;
    assert saved == ms[1 - k] && other == ms[k];
    DisagreeOn(ms, other, saved, k, q);
  }

  lemma {:induction false} DisagreeOn(ms: seq<Message>, other: Message, saved: Message, k: nat, q: MailboxQuotas)
    requires ValidQuotas(q) && q.maxBytes >= I64_LIMIT && (q.maxMessages > 0 ==> k < q.maxMessages)
    requires |ms| == 2 && k < 2 && ms[k] == other && ms[1 - k] == saved && Descending(ms) && UniqueIds(ms)
    requires other.mailbox == saved.mailbox && other.rawSize == saved.rawSize == 0
    ensures !StoresAgreeOn(ms, saved.mailbox, saved.id, q)
  {
    var address := saved.mailbox;
    assert other in ms && saved in ms && (forall m :: m in ms ==> m == other || m == saved);
    NewestFirstDescending(ms, address);
    var newest := NewestFirst(ms, address);
    DescendingUnique(newest, ms);
    SizelessSum(newest[..k + 1]);
    EnforcedExactly(ms, address, saved.id, q);
    ByteDeleteExactly(ms, address, saved.id, q, newest, k);
    assert other in Members(Enforced(ms, address, saved.id, q));
    assert other !in SqlEnforced(Members(ms), address, saved.id, q);
  }

  /** The stores agree on every mailbox and every saved message exactly when the byte cap fits an `i64`. */
  lemma {:induction false} StoresAgreeExactly(q: MailboxQuotas)
    requires ValidQuotas(q)
    ensures (forall ms, address, newId ::
               UniqueIds(ms) && NonNegativeSizes(ms) ==> StoresAgreeOn(ms, address, newId, q))
       <==> q.maxBytes < 0x8000_0000_0000_0000
  {
    if q.maxBytes < I64_LIMIT {
      forall ms, address, newId | UniqueIds(ms) && NonNegativeSizes(ms)
        ensures StoresAgreeOn(ms, address, newId, q)
      {
        StoresAgree(ms, address, newId, q);
      }
    } else {
      var ms, saved := HugeCapDisagrees(q);
    }
  }
}
