/**
 * Drop-oldest mailbox quotas: the memory store's single pass over a snapshot, and the
 * plain statement of which messages stay.
 */
module Quotas {
  import opened Mail

  const U64_MAX: nat := 0xFFFF_FFFF_FFFF_FFFF
  const I64_LIMIT: nat := 0x8000_0000_0000_0000

  /** Zero disables a cap. */
  datatype MailboxQuotas = MailboxQuotas(maxMessages: nat, maxBytes: nat)

  predicate ValidQuotas(q: MailboxQuotas) {
    q.maxBytes <= U64_MAX
  }

  function Size(m: Message): nat {
    if m.rawSize < 0 then 0 else m.rawSize
  }

  function Sum(ms: seq<Message>): nat {
    if ms == [] then 0 else Sum(ms[..|ms| - 1]) + Size(ms[|ms| - 1])
  }

  /** Bytes of the first `i` messages, added with saturation. */
  function Running(ms: seq<Message>, i: nat): nat
    requires i <= |ms|
  {
    if i == 0 then 0 else SaturatingAdd(Running(ms, i - 1), Size(ms[i - 1]))
  }

  function SaturatingAdd(a: nat, b: nat): nat {
    if a + b > U64_MAX then U64_MAX else a + b
  }

  /** The byte cap admits a run of this total; a saturated total never exceeds the largest cap. */
  predicate WithinBytes(total: nat, q: MailboxQuotas) {
    q.maxBytes == 0 || total <= q.maxBytes || q.maxBytes == U64_MAX
  }

  predicate WithinCount(n: nat, q: MailboxQuotas) {
    q.maxMessages == 0 || n <= q.maxMessages
  }

  lemma {:induction false} RunningIsSum(ms: seq<Message>, i: nat)
    requires i <= |ms|
    ensures Running(ms, i) == (if Sum(ms[..i]) > U64_MAX then U64_MAX else Sum(ms[..i]))
  {
    if i > 0 {
      RunningIsSum(ms, i - 1);
      assert ms[..i][..i - 1] == ms[..i - 1];
    }
  }

  lemma {:induction false} SumMonotone(ms: seq<Message>, i: nat, j: nat)
    requires i <= j <= |ms|
    ensures Sum(ms[..i]) <= Sum(ms[..j])
  {
    if i < j {
      SumMonotone(ms, i, j - 1);
      assert ms[..j][..j - 1] == ms[..j - 1];
    }
  }

  // ----- The memory store -----------------------------------------------------

  /** The count cap marks message `i` of the newest-first snapshot for dropping. */
  predicate OverCount(i: nat, q: MailboxQuotas) {
    q.maxMessages > 0 && i >= q.maxMessages
  }

  /** The byte cap marks message `i`; the message just saved is exempt. */
  predicate OverBytes(newest: seq<Message>, i: nat, newId: nat, q: MailboxQuotas)
    requires i < |newest|
  {
    q.maxBytes > 0 && Running(newest, i + 1) > q.maxBytes && newest[i].id != newId
  }

  /** Ids marked by the count cap among the first `n` messages. */
  function CountMarks(newest: seq<Message>, n: nat, q: MailboxQuotas): set<nat> {
    set i | 0 <= i < |newest| && i < n && OverCount(i, q) :: newest[i].id
  }

  /** Ids marked by the byte cap among the first `n` messages. */
  function ByteMarks(newest: seq<Message>, n: nat, newId: nat, q: MailboxQuotas): set<nat> {
    set i | 0 <= i < |newest| && i < n && OverBytes(newest, i, newId, q) :: newest[i].id
  }

  function MarkedIds(newest: seq<Message>, newId: nat, q: MailboxQuotas): set<nat> {
    CountMarks(newest, |newest|, q) + ByteMarks(newest, |newest|, newId, q)
  }

  /** `Vec::retain` by id. */
  function Without(ms: seq<Message>, drop: set<nat>): (r: seq<Message>)
    ensures forall m :: m in r <==> m in ms && m.id !in drop
  {
    if ms == [] then []
    else
      assert ms == [ms[0]] + ms[1..];
      (if ms[0].id in drop then [] else [ms[0]]) + Without(ms[1..], drop)
  }

  function Enforced(ms: seq<Message>, address: string, newId: nat, q: MailboxQuotas): seq<Message> {
    Without(ms, MarkedIds(NewestFirst(ms, address), newId, q))
  }

  function Saved(ms: seq<Message>, m: Message, q: MailboxQuotas): seq<Message> {
    Enforced(ms + [m], m.mailbox, m.id, q)
  }

  method MarkOverCount(newest: seq<Message>, q: MailboxQuotas) returns (drop: set<nat>)
    ensures drop == CountMarks(newest, |newest|, q)
  {
    drop := {};
    if q.maxMessages > 0 {
      var i := q.maxMessages;
      assert CountMarks(newest, i, q) == {};
      while i < |newest|
        invariant i >= q.maxMessages
        invariant drop == CountMarks(newest, i, q)
      {
        drop := drop + {newest[i].id};
        i := i + 1;
      }
      assert CountMarks(newest, i, q) == CountMarks(newest, |newest|, q);
    }
  }

  method MarkOverBytes(newest: seq<Message>, newId: nat, q: MailboxQuotas) returns (drop: set<nat>)
    ensures drop == ByteMarks(newest, |newest|, newId, q)
  {
    drop := {};
    if q.maxBytes > 0 {
      var running := 0;
      for i := 0 to |newest|
        invariant running == Running(newest, i)
        invariant drop == ByteMarks(newest, i, newId, q)
      {
        running := SaturatingAdd(running, Size(newest[i]));
        if running > q.maxBytes && newest[i].id != newId {
          drop := drop + {newest[i].id};
        }
      }
    }
  }

  class MemoryStore {
    var messages: seq<Message>
    const quotas: MailboxQuotas

    constructor (quotas: MailboxQuotas)
      ensures messages == [] && this.quotas == quotas
    {
      messages := [];
      this.quotas := quotas;
    }

    method EnforceQuotas(address: string, newId: nat)
      modifies this
      ensures messages == Enforced(old(messages), address, newId, quotas)
    {
      var newest := NewestFirst(messages, address);
      var overCount := MarkOverCount(newest, quotas);
      var overBytes := MarkOverBytes(newest, newId, quotas);
      var drop := overCount + overBytes;
      if drop != {} {
        messages := Without(messages, drop);
      } else {
        WithoutNone(messages);
      }
    }

    method SaveMessage(m: Message)
      modifies this
      ensures messages == Saved(old(messages), m, quotas)
    {
      messages := messages + [m];
      EnforceQuotas(m.mailbox, m.id);
    }
  }

  lemma {:induction false} WithoutNone(ms: seq<Message>)
    ensures Without(ms, {}) == ms
  {
    if ms != [] {
      WithoutNone(ms[1..]);
    }
  }

  // ----- What one save leaves -------------------------------------------------

  /** Message `i` of the newest-first listing is kept: its rank and the bytes up to it decide. */
  predicate Kept(newest: seq<Message>, i: nat, newId: nat, q: MailboxQuotas)
    requires i < |newest|
  {
    WithinCount(i + 1, q) && (WithinBytes(Sum(newest[..i + 1]), q) || newest[i].id == newId)
  }

  lemma SameIdSameMessage(ms: seq<Message>, a: Message, b: Message)
    requires UniqueIds(ms) && a in ms && b in ms && a.id == b.id
    ensures a == b
  {
  }

  lemma MarkedExactly(ms: seq<Message>, address: string, i: nat, newId: nat, q: MailboxQuotas)
    requires UniqueIds(ms) && ValidQuotas(q)
    requires i < |NewestFirst(ms, address)|
    ensures var newest := NewestFirst(ms, address);
            newest[i].id in MarkedIds(newest, newId, q) <==> !Kept(newest, i, newId, q)
  {
    var newest := NewestFirst(ms, address);
    NewestFirstDescending(ms, address);
    RunningIsSum(newest, i + 1);
    assert newest[i].id in MarkedIds(newest, newId, q) <==>
           OverCount(i, q) || OverBytes(newest, i, newId, q) by {
      forall k | 0 <= k < |newest| && newest[k].id == newest[i].id ensures k == i {
        assert newest[k] in ms && newest[i] in ms;
        SameIdSameMessage(ms, newest[k], newest[i]);
      }
    }
  }

  /** One enforcement: which messages of the mailbox stay, and that no other mailbox notices. */
  lemma EnforcedExactly(ms: seq<Message>, address: string, newId: nat, q: MailboxQuotas)
    requires UniqueIds(ms) && ValidQuotas(q)
    ensures var newest := NewestFirst(ms, address);
            forall i :: 0 <= i < |newest| ==>
              (newest[i] in Enforced(ms, address, newId, q) <==> Kept(newest, i, newId, q))
    ensures forall m :: m in ms && m.mailbox != address ==> m in Enforced(ms, address, newId, q)
  {
    var newest := NewestFirst(ms, address);
    forall i | 0 <= i < |newest|
      ensures newest[i] in Enforced(ms, address, newId, q) <==> Kept(newest, i, newId, q)
    {
      assert newest[i] in newest;
      MarkedExactly(ms, address, i, newId, q);
    }
    forall m | m in ms && m.mailbox != address ensures m in Enforced(ms, address, newId, q) {
      forall k | 0 <= k < |newest| ensures newest[k].id != m.id {
        assert newest[k] in newest;
        if newest[k].id == m.id {
          SameIdSameMessage(ms, newest[k], m);
        }
      }
    }
  }

  /**
   * The documented promise that the message just saved is never dropped holds exactly
   * when its rank is within the count cap: a clock that stepped back can break it.
   */
  lemma NewMessageSurvivesExactly(ms: seq<Message>, address: string, i: nat, q: MailboxQuotas)
    requires UniqueIds(ms) && ValidQuotas(q) && i < |NewestFirst(ms, address)|
    ensures var m := NewestFirst(ms, address)[i];
            m in Enforced(ms, address, m.id, q) <==> q.maxMessages == 0 || i < q.maxMessages
  {
    EnforcedExactly(ms, address, NewestFirst(ms, address)[i].id, q);
  }

  /** Without a count cap, messages of no or negative recorded size all stay, whatever the byte cap. */
  lemma {:induction false} SizelessStay(ms: seq<Message>, address: string, newId: nat, q: MailboxQuotas, m: Message)
    requires UniqueIds(ms) && ValidQuotas(q) && q.maxMessages == 0 && m in ms
    requires forall x :: x in ms ==> x.rawSize <= 0
    ensures m in Enforced(ms, address, newId, q)
  {
    var newest := NewestFirst(ms, address);
    EnforcedExactly(ms, address, newId, q);
    if m.mailbox == address {
      var i :| 0 <= i < |newest| && newest[i] == m;
      forall k | 0 <= k < |newest| ensures newest[k].rawSize <= 0 {
        assert newest[k] in newest;
      }
      SizelessSum(newest[..i + 1]);
    }
  }

  lemma {:induction false} SizelessSum(ms: seq<Message>)
    requires forall i :: 0 <= i < |ms| ==> ms[i].rawSize <= 0
    ensures Sum(ms) == 0
  {
    if ms != [] {
      SizelessSum(ms[..|ms| - 1]);
    }
  }

  lemma NewMessageCanBeDropped()
    ensures var older := Message("a", 1, 7, 10, []);
            var saved := Message("a", 0, 8, 10, []);
            saved !in Saved([older], saved, MailboxQuotas(1, 0))
  {
    var older := Message("a", 1, 7, 10, []);
    var saved := Message("a", 0, 8, 10, []);
    var ms := [older] + [saved];
    assert ms == [older, saved];
    assert Of(ms, "a") == [older, saved] by {
      assert ms[1..] == [saved];
      assert Of([saved], "a") == [saved];
    }
    NewestFirstDescending(ms, "a");
    DescendingUnique(NewestFirst(ms, "a"), [older, saved]);
    NewMessageSurvivesExactly(ms, "a", 1, MailboxQuotas(1, 0));
  }
}
