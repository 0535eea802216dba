/** Which recipients the SMTP receiver takes, and the mailboxes it creates on the way. */
module Recipients {
  import opened Bytes

  // ----- Addresses -------------------------------------------------------------------

  /** Split at the last `@`. */
  function RsplitOnce(s: string): Option<(string, string)> {
    if s == [] then None
    else
      var init, last := s[..|s| - 1], s[|s| - 1];
      if last == '@' then Some((init, []))
      else
        var r := RsplitOnce(init);
        if r.None? then None else Some((r.value.0, r.value.1 + [last]))
  }

  lemma {:induction false} RsplitParts(s: string)
    ensures RsplitOnce(s).Some? ==>
              s == RsplitOnce(s).value.0 + ['@'] + RsplitOnce(s).value.1 && '@' !in RsplitOnce(s).value.1
    ensures RsplitOnce(s).None? ==> '@' !in s
  {
    if s != [] {
      assert s == s[..|s| - 1] + [s[|s| - 1]];
      RsplitParts(s[..|s| - 1]);
    }
  }

  /** The split is determined by where the last `@` is. */
  lemma {:induction false} RsplitUnique(local: string, domain: string)
    requires '@' !in domain
    ensures RsplitOnce(local + ['@'] + domain) == Some((local, domain))
  {
    var s := local + ['@'] + domain;
    if domain == [] {
      assert s[..|s| - 1] == local;
    } else {
      assert s[..|s| - 1] == local + ['@'] + domain[..|domain| - 1];
      RsplitUnique(local, domain[..|domain| - 1]);
      assert domain == domain[..|domain| - 1] + [domain[|domain| - 1]];
    }
  }

  /** Index of the first `+`, or the length. */
  function FindPlus(s: string): (i: nat)
    ensures i <= |s| && '+' !in s[..i]
    ensures i < |s| ==> s[i] == '+'
  {
    if s == [] || s[0] == '+' then 0
    else
      assert s[..FindPlus(s[1..]) + 1] == [s[0]] + s[1..][..FindPlus(s[1..])];
      1 + FindPlus(s[1..])
  }

  /** `user+tag@d` becomes `user@d`; a leading `+` is left alone. */
  function StripPlusTag(addr: string): string {
    var parts := RsplitOnce(addr);
    if parts.None? then addr
    else
      var pos := FindPlus(parts.value.0);
      if 0 < pos < |parts.value.0| then parts.value.0[..pos] + ['@'] + parts.value.1 else addr
  }

  /** The tag goes, the domain stays, and a nonempty local part stays nonempty. */
  lemma StripKeepsDomain(addr: string, local: string, domain: string)
    requires RsplitOnce(addr) == Some((local, domain))
    ensures RsplitOnce(StripPlusTag(addr)).Some?
    ensures RsplitOnce(StripPlusTag(addr)).value.1 == domain
    ensures var stripped := RsplitOnce(StripPlusTag(addr)).value.0;
            stripped <= local && (local != [] ==> stripped != [])
            && ('+' in stripped ==> stripped == local && local[0] == '+')
  {
    var pos := FindPlus(local);
    RsplitParts(addr);
    if 0 < pos < |local| {
      RsplitUnique(local[..pos], domain);
    } else if pos == |local| {
      assert local[..pos] == local;
    }
  }

  lemma {:induction false} FirstPlus(base: string, tag: string)
    requires '+' !in base
    ensures FindPlus(base + ['+'] + tag) == |base|
  {
    var local := base + ['+'] + tag;
    if base != [] {
      assert local[0] == base[0];
      assert local[1..] == base[1..] + ['+'] + tag;
      FirstPlus(base[1..], tag);
    }
  }

  /** `base+tag@domain` is delivered to `base@domain`, whatever the tag holds. */
  lemma {:induction false} TagIsStripped(base: string, tag: string, domain: string)
    requires base != [] && '+' !in base && '@' !in domain
    ensures StripPlusTag(base + ['+'] + tag + ['@'] + domain) == base + ['@'] + domain
  {
    var local := base + ['+'] + tag;
    RsplitUnique(local, domain);
    FirstPlus(base, tag);
    assert local[..|base|] == base;
  }

  /** An address without a tag, or with a leading plus, is delivered as it is. */
  lemma {:induction false} UntaggedIsKept(local: string, domain: string)
    requires '@' !in domain && ('+' !in local || local[0] == '+')
    ensures StripPlusTag(local + ['@'] + domain) == local + ['@'] + domain
  {
    RsplitUnique(local, domain);
    assert '+' !in local ==> FindPlus(local) == |local|;
  }

  lemma {:induction false} NoAtIsKept(addr: string)
    requires '@' !in addr
    ensures StripPlusTag(addr) == addr && RsplitOnce(addr).None?
  {
    if addr != [] {
      NoAtIsKept(addr[..|addr| - 1]);
    }
  }

  lemma StripIdempotent(addr: string)
    ensures StripPlusTag(StripPlusTag(addr)) == StripPlusTag(addr)
  {
    var parts := RsplitOnce(addr);
    if parts.Some? {
      var local, domain := parts.value.0, parts.value.1;
      RsplitParts(addr);
      StripKeepsDomain(addr, local, domain);
      var pos := FindPlus(local);
      if 0 < pos < |local| {
        RsplitUnique(local[..pos], domain);
        assert FindPlus(local[..pos]) == pos;
      }
    }
  }

  function LowerChar(c: char): char {
    if 'A' <= c <= 'Z' then c + 32 as char else c
  }

  function ToLower(s: string): string {
    seq(|s|, i requires 0 <= i < |s| => LowerChar(s[i]))
  }

  /** ASCII capitals move to their small letters; everything else stays, and once is enough. */
  lemma {:induction false} LowerExactly(s: string, i: nat)
    requires i < |s|
    ensures |ToLower(s)| == |s| && ToLower(ToLower(s)) == ToLower(s)
    ensures if 'A' <= s[i] <= 'Z' then ToLower(s)[i] as int == s[i] as int - 'A' as int + 'a' as int
            else ToLower(s)[i] == s[i]
  {
    forall k | 0 <= k < |s| ensures LowerChar(LowerChar(s[k])) == LowerChar(s[k]) {
    }
    assert ToLower(ToLower(s)) == ToLower(s);
  }

  // ----- Validation --------------------------------------------------------------------

  datatype Policy = Policy(
    domains: set<string>, reserved: set<string>, customDomains: bool, catchAll: bool, defaultTtl: nat)

  datatype Mailbox = Mailbox(domain: string, expiresAt: int, owner: Option<string>)

  type Mailboxes = map<string, Mailbox>

  predicate Active(mailboxes: Mailboxes, address: string, now: int) {
    address in mailboxes && mailboxes[address].expiresAt > now
  }

  /**
   * What the store answers at each of the four calls, each at its own instant and with
   * other clients free to act in between. `None` is a failed call.
   */
  datatype StoreView = StoreView(
    verified: Option<set<string>>,
    atLookup: Option<Mailboxes>, lookupAt: int,
    atCreate: Option<Mailboxes>, createAt: int,
    atRecheck: Option<Mailboxes>, recheckAt: int)

  datatype RecipientCheck = Accept(delivery: string) | NotOurDomain | NoMailbox | Error

  /** A verdict, and the store after the create call when one succeeded. */
  datatype Validation = Validation(check: RecipientCheck, created: Option<Mailboxes>)

  predicate Configured(policy: Policy, domain: string) {
    ToLower(domain) in policy.domains
  }

  function TryCatchAll(policy: Policy, delivery: string, v: StoreView): (r: Validation)
    ensures r.created.Some? ==> r.check == Accept(delivery) && delivery in r.created.value
  {
    var parts := RsplitOnce(delivery);
    if !policy.catchAll || parts.None? || parts.value.0 in policy.reserved then Validation(NoMailbox, None)
    else if v.atCreate.None? then Validation(Error, None)
    else if delivery !in v.atCreate.value then
      Validation(Accept(delivery),
                 Some(v.atCreate.value[delivery := Mailbox(parts.value.1, v.createAt + policy.defaultTtl, None)]))
    else if v.atRecheck.None? then Validation(Error, None)
    else Validation(if Active(v.atRecheck.value, delivery, v.recheckAt) then Accept(delivery) else NoMailbox, None)
  }

  function Validate(policy: Policy, addr: string, v: StoreView): (r: Validation)
    ensures r.created.Some? ==> r.check.Accept? && r.check.delivery in r.created.value
  {
    var parts := RsplitOnce(addr);
    if parts.None? || parts.value.1 == [] then Validation(NotOurDomain, None)
    else
      var domain := parts.value.1;
      var configured := Configured(policy, domain);
      if !configured && !policy.customDomains then Validation(NotOurDomain, None)
      else if !configured && v.verified.None? then Validation(Error, None)
      else if !configured && domain !in v.verified.value then Validation(NotOurDomain, None)
      else
        var delivery := StripPlusTag(addr);
        if v.atLookup.None? then Validation(Error, None)
        else if Active(v.atLookup.value, delivery, v.lookupAt) then Validation(Accept(delivery), None)
        else if configured then TryCatchAll(policy, delivery, v)
        else Validation(NoMailbox, None)
  }

  /**
   * An accepted recipient is the address without its plus tag, on the domain it was sent
   * to, which is configured or verified; and it names a mailbox that exists and is active
   * at the store call that decided, unless that call created it with a zero lifetime.
   */
  lemma AcceptedIsDeliverable(policy: Policy, addr: string, v: StoreView, delivery: string)
    requires Validate(policy, addr, v).check == Accept(delivery)
    ensures RsplitOnce(addr).Some? && RsplitOnce(addr).value.1 != []
    ensures delivery == StripPlusTag(addr) && StripPlusTag(delivery) == delivery
    ensures RsplitOnce(delivery).Some? && RsplitOnce(delivery).value.1 == RsplitOnce(addr).value.1
    ensures Configured(policy, RsplitOnce(addr).value.1)
            || (policy.customDomains && v.verified.Some? && RsplitOnce(addr).value.1 in v.verified.value)
    ensures match Validate(policy, addr, v).created
            case Some(after) => Active(after, delivery, v.createAt) <==> policy.defaultTtl > 0
            case None => (v.atLookup.Some? && Active(v.atLookup.value, delivery, v.lookupAt))
                         || (v.atRecheck.Some? && Active(v.atRecheck.value, delivery, v.recheckAt))
  {
    StripKeepsDomain(addr, RsplitOnce(addr).value.0, RsplitOnce(addr).value.1);
    StripIdempotent(addr);
  }

  /** The domain is configured, or known to be a verified custom domain. */
  predicate Ours(policy: Policy, domain: string, v: StoreView) {
    && domain != []
    && (ToLower(domain) in policy.domains
        || (policy.customDomains && v.verified.Some? && domain in v.verified.value))
  }

  /** Catch-all is on for this domain and this user. */
  predicate CatchAllFor(policy: Policy, user: string, domain: string) {
    ToLower(domain) in policy.domains && policy.catchAll && user !in policy.reserved
  }

  /** A store call that the verdict depends on fails. */
  predicate LookupFails(policy: Policy, user: string, domain: string, mailbox: string, v: StoreView) {
    if !Ours(policy, domain, v) then
      domain != [] && ToLower(domain) !in policy.domains && policy.customDomains && v.verified.None?
    else
      v.atLookup.None?
      || (!Active(v.atLookup.value, mailbox, v.lookupAt) && CatchAllFor(policy, user, domain)
          && (v.atCreate.None? || (mailbox in v.atCreate.value && v.atRecheck.None?)))
  }

  /** The mailbox is there at lookup, or catch-all creates it or finds that it just appeared. */
  predicate Deliverable(policy: Policy, user: string, domain: string, mailbox: string, v: StoreView) {
    && Ours(policy, domain, v) && v.atLookup.Some?
    && (Active(v.atLookup.value, mailbox, v.lookupAt)
        || (CatchAllFor(policy, user, domain) && v.atCreate.Some?
            && (mailbox !in v.atCreate.value
                || (v.atRecheck.Some? && Active(v.atRecheck.value, mailbox, v.recheckAt)))))
  }

  /** Which verdict every address gets: `local@domain`, whose mailbox is `user@domain`. */
  lemma {:induction false} VerdictExactly(
    policy: Policy, local: string, user: string, domain: string, v: StoreView, addr: string, mailbox: string)
    requires '@' !in domain && addr == local + ['@'] + domain
    requires mailbox == StripPlusTag(addr) == user + ['@'] + domain
    ensures Validate(policy, addr, v).check == Accept(mailbox) <==> Deliverable(policy, user, domain, mailbox, v)
    ensures Validate(policy, addr, v).check == Error <==> LookupFails(policy, user, domain, mailbox, v)
    ensures Validate(policy, addr, v).check == NotOurDomain <==>
            !Ours(policy, domain, v) && !LookupFails(policy, user, domain, mailbox, v)
    ensures Validate(policy, addr, v).check == NoMailbox <==>
            && Ours(policy, domain, v) && !LookupFails(policy, user, domain, mailbox, v)
            && !Deliverable(policy, user, domain, mailbox, v)
  {
    RsplitUnique(local, domain);
    RsplitUnique(user, domain);
    CatchAllVerdict(policy, user, domain, v, mailbox);
  }

  lemma {:induction false} CatchAllVerdict(
    policy: Policy, user: string, domain: string, v: StoreView, mailbox: string)
    requires RsplitOnce(mailbox) == Some((user, domain))
    ensures TryCatchAll(policy, mailbox, v).check
         == if !policy.catchAll || user in policy.reserved then NoMailbox
            else if v.atCreate.None? then Error
            else if mailbox !in v.atCreate.value then Accept(mailbox)
            else if v.atRecheck.None? then Error
            else if Active(v.atRecheck.value, mailbox, v.recheckAt) then Accept(mailbox)
            else NoMailbox
  {
  }

  /** An address without `@` is nobody's. */
  lemma {:induction false} NoAtIsRefused(policy: Policy, addr: string, v: StoreView)
    requires '@' !in addr
    ensures Validate(policy, addr, v) == Validation(NotOurDomain, None)
  {
    NoAtIsKept(addr);
  }

  /** The recipient's mailbox is created exactly in this situation. */
  predicate CatchAllApplies(policy: Policy, addr: string, v: StoreView) {
    && RsplitOnce(addr).Some? && RsplitOnce(addr).value.1 != []
    && Configured(policy, RsplitOnce(addr).value.1)
    && policy.catchAll
    && v.atLookup.Some? && !Active(v.atLookup.value, StripPlusTag(addr), v.lookupAt)
    && RsplitOnce(StripPlusTag(addr)).Some? && RsplitOnce(StripPlusTag(addr)).value.0 !in policy.reserved
    && v.atCreate.Some? && StripPlusTag(addr) !in v.atCreate.value
  }

  /**
   * SMTP creates a mailbox exactly when catch-all applies; it is then accepted, ownerless,
   * on the configured domain it was addressed to, never under a reserved local part, and
   * no other mailbox is touched.
   */
  lemma {:induction false} CreatedExactly(policy: Policy, addr: string, v: StoreView)
    ensures Validate(policy, addr, v).created.Some? <==> CatchAllApplies(policy, addr, v)
    ensures Validate(policy, addr, v).created.Some? ==>
              && Validate(policy, addr, v).check == Accept(StripPlusTag(addr))
              && Validate(policy, addr, v).created.value == v.atCreate.value[StripPlusTag(addr) :=
                   Mailbox(RsplitOnce(addr).value.1, v.createAt + policy.defaultTtl, None)]
  {
    var parts := RsplitOnce(addr);
    if parts.Some? && parts.value.1 != [] && Configured(policy, parts.value.1) {
      StripKeepsDomain(addr, parts.value.0, parts.value.1);
      CatchAllCreates(policy, StripPlusTag(addr), v);
    }
  }

  lemma {:induction false} CatchAllCreates(policy: Policy, delivery: string, v: StoreView)
    ensures TryCatchAll(policy, delivery, v).created.Some? <==>
            && policy.catchAll && RsplitOnce(delivery).Some? && RsplitOnce(delivery).value.0 !in policy.reserved
            && v.atCreate.Some? && delivery !in v.atCreate.value
    ensures TryCatchAll(policy, delivery, v).created.Some? ==>
              TryCatchAll(policy, delivery, v).created.value == v.atCreate.value[delivery :=
                Mailbox(RsplitOnce(delivery).value.1, v.createAt + policy.defaultTtl, None)]
  {
  }
}
