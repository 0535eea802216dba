/**
 * Evicting at every save is as good as recomputing from the whole history: each mailbox
 * holds the longest newest-first run of everything ever saved to it that fits the caps.
 */
module OnlineEviction {
  import opened Mail
  import opened Quotas

  /** The store after saving a history, oldest first, into an empty store. */
  function AfterSaves(history: seq<Message>, q: MailboxQuotas): seq<Message> {
    if history == [] then []
    else Saved(AfterSaves(history[..|history| - 1], q), history[|history| - 1], q)
  }

  /** Within each mailbox, every save is newer than all before it. */
  predicate Chronological(history: seq<Message>) {
    forall i, j :: 0 <= i < j < |history| && history[i].mailbox == history[j].mailbox ==>
      Newer(history[j], history[i])
  }

  predicate Fits(run: seq<Message>, q: MailboxQuotas) {
    WithinCount(|run|, q) && WithinBytes(Sum(run), q)
  }

  /** `k` messages from the newest on: all that fit, or the newest alone when even it does not. */
  ghost predicate LongestRun(all: seq<Message>, k: nat, q: MailboxQuotas) {
    && k <= |all|
    && (all != [] ==> k > 0)
    && (k > 1 ==> Fits(all[..k], q))
    && forall j :: k < j <= |all| ==> !Fits(all[..j], q)
  }

  lemma FitsShorter(all: seq<Message>, i: nat, j: nat, q: MailboxQuotas)
    requires i <= j <= |all| && Fits(all[..j], q)
    ensures Fits(all[..i], q)
  {
    SumMonotone(all, i, j);
  }

  lemma {:induction false} SumCons(m: Message, s: seq<Message>)
    ensures Sum([m] + s) == Size(m) + Sum(s)
  {
    if s == [] {
      assert [m] + s == [m];
    } else {
      assert ([m] + s)[..|s|] == [m] + s[..|s| - 1];
      SumCons(m, s[..|s| - 1]);
    }
  }

  /** A run that fits with one more message in front fits without it. */
  lemma FitsWithout(m: Message, s: seq<Message>, q: MailboxQuotas)
    requires Fits([m] + s, q)
    ensures Fits(s, q)
  {
    SumCons(m, s);
  }

  /** The longest run over what earlier evictions left is the longest over the whole history. */
  lemma {:induction false} LongestComposes(m: Message, all: seq<Message>, k: nat, c: nat, q: MailboxQuotas)
    requires LongestRun(all, k, q) && LongestRun([m] + all[..k], c, q)
    ensures ([m] + all[..k])[..c] == ([m] + all)[..c]
    ensures LongestRun([m] + all, c, q)
  {
    var whole, short := [m] + all, [m] + all[..k];
    assert short == whole[..k + 1];
    forall j | c < j <= |whole| ensures !Fits(whole[..j], q) {
      if j <= k + 1 {
        assert short[..j] == whole[..j];
      } else if Fits(whole[..j], q) {
        assert whole[..j] == [m] + all[..j - 1];
        FitsWithout(m, all[..j - 1], q);
      }
    }
    assert short[..c] == whole[..c];
  }

  /** With the new message newest, one enforcement keeps exactly the longest run. */
  lemma KeptIsLongestRun(newest: seq<Message>, q: MailboxQuotas) returns (c: nat)
    requires newest != [] && forall i :: 0 < i < |newest| ==> newest[i].id != newest[0].id
    ensures LongestRun(newest, c, q)
    ensures forall i :: 0 <= i < |newest| ==> (Kept(newest, i, newest[0].id, q) <==> i < c)
  {
    c := 1;
    while c < |newest| && Fits(newest[..c + 1], q)
      invariant 1 <= c <= |newest|
      invariant c > 1 ==> Fits(newest[..c], q)
    {
      c := c + 1;
    }
    forall j | c < j <= |newest| ensures !Fits(newest[..j], q) {
      if Fits(newest[..j], q) {
        FitsShorter(newest, c + 1, j, q);
      }
    }
    forall i | 0 <= i < |newest| ensures Kept(newest, i, newest[0].id, q) <==> i < c {
      if 0 < i < c {
        FitsShorter(newest, i + 1, c, q);
      }
    }
  }

  lemma {:induction false} WithoutUnique(ms: seq<Message>, drop: set<nat>)
    requires UniqueIds(ms)
    ensures UniqueIds(Without(ms, drop))
  {
    if ms != [] {
      WithoutUnique(ms[1..], drop);
      var rest := Without(ms[1..], drop);
      forall k | 0 <= k < |rest| ensures rest[k].id != ms[0].id {
        assert rest[k] in rest;
      }
    }
  }

  lemma {:induction false} NewestFirstAppend(ms: seq<Message>, m: Message, newest: seq<Message>)
    requires UniqueIds(ms + [m]) && newest == NewestFirst(ms, m.mailbox)
    requires forall x :: x in ms && x.mailbox == m.mailbox ==> Newer(m, x)
    ensures NewestFirst(ms + [m], m.mailbox) == [m] + newest
    ensures Descending([m] + newest)
  {
    UniquePrefix(ms, m);
    NewestFirstDescending(ms, m.mailbox);
    NewestFirstDescending(ms + [m], m.mailbox);
    var all := [m] + newest;
    forall j | 0 < j < |all| ensures Newer(m, all[j]) {
      assert all[j] in newest;
    }
    DescendingUnique(NewestFirst(ms + [m], m.mailbox), all);
  }

  lemma UniquePrefix(ms: seq<Message>, m: Message)
    requires UniqueIds(ms + [m])
    ensures UniqueIds(ms)
    ensures forall x :: x in ms ==> x.id != m.id
  {
    var all := ms + [m];
    forall i | 0 <= i < |ms| ensures ms[i].id != m.id {
      assert all[i] == ms[i] && all[|ms|] == m;
    }
    forall i, j | 0 <= i < j < |ms| ensures ms[i].id != ms[j].id {
      assert all[i] == ms[i] && all[j] == ms[j];
    }
  }

  /** What is left of a newest-first listing, when exactly the first `c` stay. */
  lemma {:induction false} PrefixByMembers(all: seq<Message>, left: seq<Message>, c: nat)
    requires Descending(all) && Descending(left) && c <= |all|
    requires forall x :: x in left ==> x in all
    requires forall i :: 0 <= i < |all| ==> (all[i] in left <==> i < c)
    ensures left == all[..c]
  {
    forall x ensures x in left <==> x in all[..c] {
      if x in left {
        var i :| 0 <= i < |all| && all[i] == x;
        assert x == all[..c][i];
      }
    }
    DescendingUnique(left, all[..c]);
  }

  /** One save of a newest message: the mailbox becomes a longest run. */
  lemma {:induction false} SaveKeepsLongestRun(ms: seq<Message>, m: Message, q: MailboxQuotas, newest: seq<Message>)
    returns (c: nat)
    requires UniqueIds(ms + [m]) && ValidQuotas(q) && newest == NewestFirst(ms, m.mailbox)
    requires forall x :: x in ms && x.mailbox == m.mailbox ==> Newer(m, x)
    ensures LongestRun([m] + newest, c, q)
    ensures NewestFirst(Saved(ms, m, q), m.mailbox) == ([m] + newest)[..c]
  {
    var all, kept := [m] + newest, Saved(ms, m, q);
    NewestFirstAppend(ms, m, newest);
    UniquePrefix(ms, m);
    forall i | 0 < i < |all| ensures all[i].id != m.id {
      assert all[i] in newest;
    }
    c := KeptIsLongestRun(all, q);
    EnforcedExactly(ms + [m], m.mailbox, m.id, q);
    WithoutUnique(ms + [m], MarkedIds(all, m.id, q));
    NewestFirstDescending(kept, m.mailbox);
    PrefixByMembers(all, NewestFirst(kept, m.mailbox), c);
  }

  /** One save leaves every other mailbox as it was. */
  lemma {:induction false} SaveLeavesOthers(ms: seq<Message>, m: Message, q: MailboxQuotas, address: string)
    requires UniqueIds(ms + [m]) && ValidQuotas(q) && address != m.mailbox
    ensures NewestFirst(Saved(ms, m, q), address) == NewestFirst(ms, address)
  {
    UniquePrefix(ms, m);
    EnforcedExactly(ms + [m], m.mailbox, m.id, q);
    WithoutUnique(ms + [m], MarkedIds(NewestFirst(ms + [m], m.mailbox), m.id, q));
    NewestFirstDescending(Saved(ms, m, q), address);
    NewestFirstDescending(ms, address);
    DescendingUnique(NewestFirst(Saved(ms, m, q), address), NewestFirst(ms, address));
  }

  /** Nothing is stored that was not saved, and ids stay unique. */
  lemma {:induction false} StoredWereSaved(history: seq<Message>, q: MailboxQuotas)
    requires UniqueIds(history)
    ensures UniqueIds(AfterSaves(history, q))
    ensures forall m :: m in AfterSaves(history, q) ==> m in history
  {
    if history != [] {
      var past, m := history[..|history| - 1], history[|history| - 1];
      assert history == past + [m];
      UniquePrefix(past, m);
      StoredWereSaved(past, q);
      var ms := AfterSaves(past, q);
      AppendUnique(ms, m);
      WithoutUnique(ms + [m], MarkedIds(NewestFirst(ms + [m], m.mailbox), m.id, q));
    }
  }

  lemma AppendUnique(ms: seq<Message>, m: Message)
    requires UniqueIds(ms) && forall x :: x in ms ==> x.id != m.id
    ensures UniqueIds(ms + [m])
  {
  }

  /**
   * After any chronological history of saves, every mailbox holds exactly the longest
   * newest-first run of its own history that fits both caps, or its newest message
   * alone when even that does not fit.
   */
  lemma {:induction false} OnlineIsOffline(history: seq<Message>, q: MailboxQuotas, address: string)
    returns (k: nat)
    requires UniqueIds(history) && Chronological(history) && ValidQuotas(q)
    ensures LongestRun(NewestFirst(history, address), k, q)
    ensures NewestFirst(AfterSaves(history, q), address) == NewestFirst(history, address)[..k]
  {
    if history == [] {
      k := 0;
    } else {
      var past, m := history[..|history| - 1], history[|history| - 1];
      assert history == past + [m];
      UniquePrefix(past, m);
      StoredWereSaved(past, q);
      var ms := AfterSaves(past, q);
      AppendUnique(ms, m);
      k := OnlineIsOffline(past, q, address);
      var all := NewestFirst(past, address);
      if m.mailbox == address {
        NewestFirstAppend(past, m, all);
        var c := SaveKeepsLongestRun(ms, m, q, all[..k]);
        LongestComposes(m, all, k, c, q);
        k := c;
      } else {
        SaveLeavesOthers(ms, m, q, address);
        NewestFirstSkip(past, m, address);
      }
    }
  }

  lemma {:induction false} NewestFirstSkip(ms: seq<Message>, m: Message, address: string)
    requires m.mailbox != address
    ensures NewestFirst(ms + [m], address) == NewestFirst(ms, address)
  {
    OfAppend(ms, [m], address);
    assert Of([m], address) == [];
    assert Of(ms + [m], address) == Of(ms, address);
  }
}
