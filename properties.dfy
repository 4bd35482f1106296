/** The invariants the club pallet keeps and the properties of its operations:
    error precedence, what a successful call writes, that every call and the
    expiration hook keep the invariants, how the hook drains one bucket, and
    the round trip from admission to expiry. */
module ClubProperties {
  import opened ClubTypes
  import opened ClubStore

  // ================================================================ invariants

  /** For every (account, club), at most one of a request, a membership and an
      expired record exists. */
  ghost predicate Exclusive(s: Store) {
    && (forall k | k in s.membershipRequest :: k !in s.clubMembership && k !in s.expiredMemberships)
    && (forall k | k in s.clubMembership :: k !in s.expiredMemberships)
  }

  /** The club ids carried by the `ClubCreated` events of `events`, in order. */
  function CreatedIds(events: seq<Event>): seq<ClubId>
    decreases |events|
  {
    if events == [] then []
    else
      var last := events[|events| - 1];
      CreatedIds(events[..|events| - 1]) + (if last.ClubCreated? then [last.clubId] else [])
  }

  /** The ids 1, 2, ..., n - 1, in that order. */
  function IdsBelow(n: nat): seq<ClubId>
    decreases n
  {
    if n <= 1 then [] else IdsBelow(n - 1) + [n - 1]
  }

  /** The clubs are exactly the ids 1 ..< nextClubId, and the `ClubCreated`
      events announced them in ascending order, one each. */
  ghost predicate IdsIssued(s: Store) {
    && 1 <= s.nextClubId
    && (forall id :: id in s.clubs <==> 1 <= id < s.nextClubId)
    && CreatedIds(s.events) == IdsBelow(s.nextClubId)
  }

  /** Requests, memberships and expired records name existing clubs. */
  ghost predicate KnownClubs(s: Store) {
    && (forall k | k in s.membershipRequest :: k.1 in s.clubs)
    && (forall k | k in s.clubMembership :: k.1 in s.clubs)
    && (forall k | k in s.expiredMemberships :: k.1 in s.clubs)
  }

  /** The bucket index: a bucket counter is positive, and every scheduled entry
      (b, i) lies inside bucket b, so 1 <= i <= ExpirationsPerBlock[b]. */
  ghost predicate Indexed(s: Store) {
    && (forall b | b in s.expirationsPerBlock :: 1 <= s.expirationsPerBlock[b])
    && (forall e | e in s.clubMemberFutureExpirations ::
          e.0 in s.expirationsPerBlock && 1 <= e.1 <= s.expirationsPerBlock[e.0])
  }

  /** The converse of Indexed: every slot 1 ..= count of a bucket holds an
      entry, so a bucket's count is the number of entries scheduled at its
      block and not yet expired. */
  ghost predicate Dense(s: Store) {
    forall b, i | b in s.expirationsPerBlock && 1 <= i <= s.expirationsPerBlock[b] ::
      (b, i) in s.clubMemberFutureExpirations
  }

  ghost predicate Injective(m: map<ExpiryKey, MemberKey>) {
    forall e1, e2 | e1 in m && e2 in m && e1 != e2 :: m[e1] != m[e2]
  }

  /** Every membership has exactly one scheduled entry, and every scheduled
      entry names a membership. */
  ghost predicate Linked(s: Store) {
    && Injective(s.clubMemberFutureExpirations)
    && s.clubMemberFutureExpirations.Values == s.clubMembership.Keys
  }

  ghost predicate Valid(s: Store) {
    Exclusive(s) && IdsIssued(s) && KnownClubs(s) && Indexed(s) && Dense(s) && Linked(s)
  }

  // ================================================================ helpers about the invariants

  lemma CreatedIdsSnoc(es: seq<Event>, e: Event)
    ensures CreatedIds(es + [e]) == CreatedIds(es) + (if e.ClubCreated? then [e.clubId] else [])
  {
    assert (es + [e])[..|es|] == es;
  }

  lemma {:induction false} IdsBelowAt(n: nat)
    ensures |IdsBelow(n)| == if n == 0 then 0 else n - 1
    ensures forall j | 0 <= j < |IdsBelow(n)| :: IdsBelow(n)[j] == j + 1
  {
    if n > 1 { IdsBelowAt(n - 1); }
  }

  lemma ValuesAfterInsert(m: map<ExpiryKey, MemberKey>, e: ExpiryKey, v: MemberKey)
    requires e !in m
    ensures m[e := v].Values == m.Values + {v}
  {
    var m' := m[e := v];
    forall x | x in m.Values ensures x in m'.Values {
      var e' :| e' in m && m[e'] == x;
      assert m'[e'] == x;
    }
    assert m'[e] == v;
  }

  lemma ValuesAfterRemove(m: map<ExpiryKey, MemberKey>, e: ExpiryKey)
    requires e in m && Injective(m)
    ensures (m - {e}).Values == m.Values - {m[e]}
  {
    var m' := m - {e};
    forall x | x in m.Values && x != m[e] ensures x in m'.Values {
      var e' :| e' in m && m[e'] == x;
      assert m'[e'] == x;
    }
    forall x | x in m'.Values ensures x in m.Values && x != m[e] {
      var e' :| e' in m' && m'[e'] == x;
      assert m[e'] == x;
    }
  }

  lemma GenesisValid(rootAccount: Option<AccountId>, clubCreationFee: Balance)
    ensures Valid(Genesis(rootAccount, clubCreationFee))
  {
  }

  // ================================================================ club registry

  /** `create_club`: `NoRootConfiguredAtGenesis`, then `UserIsNotRoot`, then
      the ledger; on success the club is stored under the old counter value,
      which no club had, the counter grows by exactly 1 and `ClubCreated`
      carries the id. Every rejection leaves the storage as it was. */
  lemma CreateClubOutcome(s: Store, transfer: Transfer, caller: AccountId, owner: AccountId,
                          expensePerYear: Balance)
    requires Valid(s) && CreateClubFits(s, transfer, caller)
    ensures var t := CreateClub(s, transfer, caller, owner, expensePerYear);
      && (s.rootAccount.None? ==> t == Reject(s, NoRootConfiguredAtGenesis))
      && (s.rootAccount.Some? && caller != s.rootAccount.value ==> t == Reject(s, UserIsNotRoot))
      && (s.rootAccount == Some(caller) && transfer(caller, s.clubCreationFee).Some? ==>
            t == Transition(Err(Ledger(transfer(caller, s.clubCreationFee).value)), s))
      && (t.result.Ok? <==> s.rootAccount == Some(caller) && transfer(caller, s.clubCreationFee).None?)
      && (t.result.Err? ==> t.store == s)
      && (t.result.Ok? ==>
            && s.nextClubId !in s.clubs
            && (forall id | id in s.clubs :: id < s.nextClubId)
            && t.store == s.(clubs := s.clubs[s.nextClubId := ClubDetails(owner, expensePerYear)],
                             nextClubId := s.nextClubId + 1,
                             events := s.events + [ClubCreated(s.nextClubId, owner, expensePerYear)]))
  {
  }

  /** `transfer_club_ownership`: `ClubNotFound`, then `NotClubOwner`; on success
      only the owner of that one club changes and the event carries the old and
      the new owner. */
  lemma TransferClubOwnershipOutcome(s: Store, caller: AccountId, clubId: ClubId, newOwner: AccountId)
    ensures var t := TransferClubOwnership(s, caller, clubId, newOwner);
      && (clubId !in s.clubs ==> t == Reject(s, ClubNotFound))
      && (clubId in s.clubs && s.clubs[clubId].owner != caller ==> t == Reject(s, NotClubOwner))
      && (t.result.Ok? <==> clubId in s.clubs && s.clubs[clubId].owner == caller)
      && (t.result.Ok? ==>
            && t.store.clubs.Keys == s.clubs.Keys
            && t.store.clubs[clubId].owner == newOwner
            && t.store.clubs[clubId].expensePerYear == s.clubs[clubId].expensePerYear
            && (forall id | id in s.clubs && id != clubId :: t.store.clubs[id] == s.clubs[id])
            && t.store == s.(clubs := t.store.clubs,
                             events := s.events + [ClubOwnerChanged(clubId, s.clubs[clubId].owner, newOwner)]))
  {
  }

  /** `change_club_expense`: same checks; on success only the expense of that
      one club changes and the event carries the old and the new expense. */
  lemma ChangeClubExpenseOutcome(s: Store, caller: AccountId, clubId: ClubId, newExpensePerYear: Balance)
    ensures var t := ChangeClubExpense(s, caller, clubId, newExpensePerYear);
      && (clubId !in s.clubs ==> t == Reject(s, ClubNotFound))
      && (clubId in s.clubs && s.clubs[clubId].owner != caller ==> t == Reject(s, NotClubOwner))
      && (t.result.Ok? <==> clubId in s.clubs && s.clubs[clubId].owner == caller)
      && (t.result.Ok? ==>
            && t.store.clubs.Keys == s.clubs.Keys
            && t.store.clubs[clubId].expensePerYear == newExpensePerYear
            && t.store.clubs[clubId].owner == s.clubs[clubId].owner
            && (forall id | id in s.clubs && id != clubId :: t.store.clubs[id] == s.clubs[id])
            && t.store == s.(clubs := t.store.clubs,
                             events := s.events + [AnnualExpenseSet(clubId, s.clubs[clubId].expensePerYear,
                                                                    newExpensePerYear)]))
  {
  }

  lemma CreateClubPreservesValid(s: Store, transfer: Transfer, caller: AccountId, owner: AccountId,
                                 expensePerYear: Balance)
    requires Valid(s) && CreateClubFits(s, transfer, caller)
    ensures Valid(CreateClub(s, transfer, caller, owner, expensePerYear).store)
  {
    var t := CreateClub(s, transfer, caller, owner, expensePerYear);
    if t.result.Ok? {
      CreatedIdsSnoc(s.events, ClubCreated(s.nextClubId, owner, expensePerYear));
      assert IdsBelow(s.nextClubId + 1) == IdsBelow(s.nextClubId) + [s.nextClubId];
      assert IdsIssued(t.store);
    }
  }

  lemma TransferClubOwnershipPreservesValid(s: Store, caller: AccountId, clubId: ClubId, newOwner: AccountId)
    requires Valid(s)
    ensures Valid(TransferClubOwnership(s, caller, clubId, newOwner).store)
  {
    if clubId in s.clubs {
      CreatedIdsSnoc(s.events, ClubOwnerChanged(clubId, caller, newOwner));
    }
  }

  lemma ChangeClubExpensePreservesValid(s: Store, caller: AccountId, clubId: ClubId, newExpensePerYear: Balance)
    requires Valid(s)
    ensures Valid(ChangeClubExpense(s, caller, clubId, newExpensePerYear).store)
  {
    if clubId in s.clubs {
      CreatedIdsSnoc(s.events, AnnualExpenseSet(clubId, s.clubs[clubId].expensePerYear, newExpensePerYear));
    }
  }

  // ================================================================ membership requests

  /** The shared tail of both request operations: `MembershipTimeExceeded` for
      more than the maximum number of years (0 years is accepted), then an
      arithmetic overflow when the charge `expense * years` does not fit the
      balance type, then the ledger's own error; on success the request records
      the charge, the years and the renewal flag. */
  lemma ChargeAndRequestOutcome(s: Store, cfg: Config, transfer: Transfer, caller: AccountId,
                                clubId: ClubId, years: Years, isRenewal: bool)
    requires clubId in s.clubs
    ensures var t := ChargeAndRequest(s, cfg, transfer, caller, clubId, years, isRenewal);
            var expense := s.clubs[clubId].expensePerYear * years;
            var key := (caller, clubId);
      && (years > cfg.maxNumberOfYears ==> t == Reject(s, MembershipTimeExceeded))
      && (years <= cfg.maxNumberOfYears && (years > cfg.maxBalance || expense > cfg.maxBalance) ==>
            t == Transition(Err(ArithmeticOverflow), s))
      && (years <= cfg.maxNumberOfYears && years <= cfg.maxBalance && expense <= cfg.maxBalance &&
          transfer(caller, expense).Some? ==>
            t == Transition(Err(Ledger(transfer(caller, expense).value)), s))
      && (t.result.Ok? <==>
            years <= cfg.maxNumberOfYears && years <= cfg.maxBalance && expense <= cfg.maxBalance &&
            transfer(caller, expense).None?)
      && (t.result.Ok? ==>
            t.store == s.(expiredMemberships := if isRenewal then s.expiredMemberships - {key}
                                                else s.expiredMemberships,
                          membershipRequest := s.membershipRequest[key := MembershipRequestDetails(expense, years, isRenewal)],
                          events := s.events + [MembershipRequested(clubId, caller, expense, years, isRenewal)]))
  {
  }

  /** `request_membership`: `ClubNotFound`, `MembershipAlreadyRequested`,
      `AlreadyMember`, `ExpiredMember`, in that order, before the shared tail
      with the renewal flag false. */
  lemma RequestMembershipOutcome(s: Store, cfg: Config, transfer: Transfer, caller: AccountId,
                                 clubId: ClubId, years: Years)
    ensures var t := RequestMembership(s, cfg, transfer, caller, clubId, years);
            var key := (caller, clubId);
      && (clubId !in s.clubs ==> t == Reject(s, ClubNotFound))
      && (clubId in s.clubs && key in s.membershipRequest ==> t == Reject(s, MembershipAlreadyRequested))
      && (clubId in s.clubs && key !in s.membershipRequest && key in s.clubMembership ==>
            t == Reject(s, AlreadyMember))
      && ((clubId in s.clubs && key !in s.membershipRequest && key !in s.clubMembership &&
           key in s.expiredMemberships) ==> t == Reject(s, ExpiredMember))
      && ((clubId in s.clubs && key !in s.membershipRequest && key !in s.clubMembership &&
           key !in s.expiredMemberships) ==> t == ChargeAndRequest(s, cfg, transfer, caller, clubId, years, false))
  {
  }

  /** `request_membership_renewal`: as `request_membership`, except that the
      expired record is required (`NoMembershipExpirationFound`), and the
      shared tail runs with the renewal flag true and drops that record. */
  lemma RequestMembershipRenewalOutcome(s: Store, cfg: Config, transfer: Transfer, caller: AccountId,
                                        clubId: ClubId, years: Years)
    ensures var t := RequestMembershipRenewal(s, cfg, transfer, caller, clubId, years);
            var key := (caller, clubId);
      && (clubId !in s.clubs ==> t == Reject(s, ClubNotFound))
      && (clubId in s.clubs && key in s.membershipRequest ==> t == Reject(s, MembershipAlreadyRequested))
      && (clubId in s.clubs && key !in s.membershipRequest && key in s.clubMembership ==>
            t == Reject(s, AlreadyMember))
      && ((clubId in s.clubs && key !in s.membershipRequest && key !in s.clubMembership &&
           key !in s.expiredMemberships) ==> t == Reject(s, NoMembershipExpirationFound))
      && ((clubId in s.clubs && key !in s.membershipRequest && key !in s.clubMembership &&
           key in s.expiredMemberships) ==> t == ChargeAndRequest(s, cfg, transfer, caller, clubId, years, true))
      && (t.result.Ok? ==> key !in t.store.expiredMemberships && key in t.store.membershipRequest &&
                           t.store.membershipRequest[key].isRenewal)
  {
  }

  lemma ChargeAndRequestPreservesValid(s: Store, cfg: Config, transfer: Transfer, caller: AccountId,
                                       clubId: ClubId, years: Years, isRenewal: bool)
    requires Valid(s) && clubId in s.clubs
    requires (caller, clubId) !in s.membershipRequest && (caller, clubId) !in s.clubMembership
    requires isRenewal || (caller, clubId) !in s.expiredMemberships
    ensures Valid(ChargeAndRequest(s, cfg, transfer, caller, clubId, years, isRenewal).store)
  {
    var expense := s.clubs[clubId].expensePerYear * years;
    CreatedIdsSnoc(s.events, MembershipRequested(clubId, caller, expense, years, isRenewal));
  }

  lemma RequestMembershipPreservesValid(s: Store, cfg: Config, transfer: Transfer, caller: AccountId,
                                        clubId: ClubId, years: Years)
    requires Valid(s)
    ensures Valid(RequestMembership(s, cfg, transfer, caller, clubId, years).store)
  {
    var key := (caller, clubId);
    if clubId in s.clubs && key !in s.membershipRequest && key !in s.clubMembership &&
       key !in s.expiredMemberships {
      ChargeAndRequestPreservesValid(s, cfg, transfer, caller, clubId, years, false);
    }
  }

  lemma RequestMembershipRenewalPreservesValid(s: Store, cfg: Config, transfer: Transfer, caller: AccountId,
                                               clubId: ClubId, years: Years)
    requires Valid(s)
    ensures Valid(RequestMembershipRenewal(s, cfg, transfer, caller, clubId, years).store)
  {
    var key := (caller, clubId);
    if clubId in s.clubs && key !in s.membershipRequest && key !in s.clubMembership &&
       key in s.expiredMemberships {
      ChargeAndRequestPreservesValid(s, cfg, transfer, caller, clubId, years, true);
    }
  }

  // ================================================================ admission

  /** `add_member`: `ClubNotFound`, `NotClubOwner`, `MembershipRequestNotFound`,
      then an arithmetic overflow when `BlocksPerYear * years` does not fit the
      block number type. On success the expiry block is the current block plus
      that product, the entry goes to index old count + 1 (1 for a new bucket)
      in a slot that was free, the bucket count becomes that index, and the
      request turns into a membership with the request's renewal flag. */
  lemma AddMemberOutcome(s: Store, cfg: Config, now: BlockNumber, caller: AccountId, clubId: ClubId,
                         requester: AccountId)
    requires Valid(s) && AddMemberFits(s, cfg, now, caller, clubId, requester)
    ensures var t := AddMember(s, cfg, now, caller, clubId, requester);
            var key := (requester, clubId);
      && (clubId !in s.clubs ==> t == Reject(s, ClubNotFound))
      && (clubId in s.clubs && s.clubs[clubId].owner != caller ==> t == Reject(s, NotClubOwner))
      && (clubId in s.clubs && s.clubs[clubId].owner == caller && key !in s.membershipRequest ==>
            t == Reject(s, MembershipRequestNotFound))
      && (clubId in s.clubs && s.clubs[clubId].owner == caller && key in s.membershipRequest &&
          cfg.blocksPerYear * s.membershipRequest[key].timeInYear > cfg.maxBlock ==>
            t == Transition(Err(ArithmeticOverflow), s))
      && (t.result.Ok? <==>
            clubId in s.clubs && s.clubs[clubId].owner == caller && key in s.membershipRequest &&
            cfg.blocksPerYear * s.membershipRequest[key].timeInYear <= cfg.maxBlock)
      && (t.result.Err? ==> t.store == s)
      && (t.result.Ok? ==>
            var request := s.membershipRequest[key];
            var expiry := now + cfg.blocksPerYear * request.timeInYear;
            var index := if expiry in s.expirationsPerBlock then s.expirationsPerBlock[expiry] + 1 else 1;
            && expiry <= cfg.maxBlock
            && (expiry, index) !in s.clubMemberFutureExpirations
            && t.store == s.(expirationsPerBlock := s.expirationsPerBlock[expiry := index],
                             clubMemberFutureExpirations := s.clubMemberFutureExpirations[(expiry, index) := key],
                             membershipRequest := s.membershipRequest - {key},
                             clubMembership := s.clubMembership[key := MembershipDetails(request.isRenewal)],
                             events := s.events + [MemberAdded(clubId, requester, expiry)]))
  {
  }

  lemma ScheduleIndexed(s: Store, key: MemberKey, b: BlockNumber, details: MembershipDetails, ev: Event)
    requires Indexed(s)
    ensures Indexed(Schedule(s, key, b, details, ev))
  {
    var r := Schedule(s, key, b, details, ev);
    forall e | e in r.clubMemberFutureExpirations
      ensures e.0 in r.expirationsPerBlock && 1 <= e.1 <= r.expirationsPerBlock[e.0]
    {
      if e != (b, NextIndex(s, b)) {
        assert e in s.clubMemberFutureExpirations;
      }
    }
  }

  lemma ScheduleDense(s: Store, key: MemberKey, b: BlockNumber, details: MembershipDetails, ev: Event)
    requires Dense(s)
    ensures Dense(Schedule(s, key, b, details, ev))
  {
    var r := Schedule(s, key, b, details, ev);
    forall b', i | b' in r.expirationsPerBlock && 1 <= i <= r.expirationsPerBlock[b']
      ensures (b', i) in r.clubMemberFutureExpirations
    {
      if b' != b || i < NextIndex(s, b) {
        assert (b', i) in s.clubMemberFutureExpirations;
      }
    }
  }

  lemma ScheduleLinked(s: Store, key: MemberKey, b: BlockNumber, details: MembershipDetails, ev: Event)
    requires Indexed(s) && Linked(s) && key !in s.clubMembership
    ensures Linked(Schedule(s, key, b, details, ev))
  {
    var fe := s.clubMemberFutureExpirations;
    var slot := (b, NextIndex(s, b));
    assert slot !in fe;
    assert key !in fe.Values;
    ValuesAfterInsert(fe, slot, key);
    var fe' := fe[slot := key];
    forall e1, e2 | e1 in fe' && e2 in fe' && e1 != e2 ensures fe'[e1] != fe'[e2] {
      if e1 != slot && e2 != slot {
        assert fe'[e1] == fe[e1] && fe'[e2] == fe[e2];
      } else if e1 == slot {
        assert fe[e2] in fe.Values;
      } else {
        assert fe[e1] in fe.Values;
      }
    }
  }

  lemma ScheduleKeepsValid(s: Store, key: MemberKey, b: BlockNumber, details: MembershipDetails, ev: Event)
    requires Valid(s) && key in s.membershipRequest && !ev.ClubCreated?
    ensures Valid(Schedule(s, key, b, details, ev))
  {
    CreatedIdsSnoc(s.events, ev);
    ScheduleIndexed(s, key, b, details, ev);
    ScheduleDense(s, key, b, details, ev);
    ScheduleLinked(s, key, b, details, ev);
  }

  lemma AddMemberPreservesValid(s: Store, cfg: Config, now: BlockNumber, caller: AccountId, clubId: ClubId,
                                requester: AccountId)
    requires Valid(s) && AddMemberFits(s, cfg, now, caller, clubId, requester)
    ensures Valid(AddMember(s, cfg, now, caller, clubId, requester).store)
  {
    var key := (requester, clubId);
    if clubId in s.clubs && s.clubs[clubId].owner == caller && key in s.membershipRequest &&
       cfg.blocksPerYear * s.membershipRequest[key].timeInYear <= cfg.maxBlock {
      var request := s.membershipRequest[key];
      var expiry := now + cfg.blocksPerYear * request.timeInYear;
      var details := MembershipDetails(request.isRenewal);
      var ev := MemberAdded(clubId, requester, expiry);
      assert AddMember(s, cfg, now, caller, clubId, requester).store == Schedule(s, key, expiry, details, ev);
      ScheduleKeepsValid(s, key, expiry, details, ev);
    }
  }

  // ================================================================ the expiration hook

  /** The memberships named by the entries (n, i) ..= (n, count) of the expiration index. */
  function DueKeys(fe: map<ExpiryKey, MemberKey>, n: BlockNumber, i: nat, count: nat): set<MemberKey>
    decreases count + 1 - i
  {
    if i > count then {}
    else (if (n, i) in fe then {fe[(n, i)]} else {}) + DueKeys(fe, n, i + 1, count)
  }

  /** One `MembershipExpired` event per entry (n, i) ..= (n, count), in index order. */
  function ExpiryEvents(fe: map<ExpiryKey, MemberKey>, n: BlockNumber, i: nat, count: nat): seq<Event>
    decreases count + 1 - i
  {
    if i > count then []
    else
      (if (n, i) in fe then [MembershipExpired(fe[(n, i)].1, fe[(n, i)].0)] else []) +
      ExpiryEvents(fe, n, i + 1, count)
  }

  /** The expiration index without the entries (n, i) ..= (n, count). */
  function WithoutSlots(fe: map<ExpiryKey, MemberKey>, n: BlockNumber, i: nat, count: nat): map<ExpiryKey, MemberKey> {
    map e | e in fe && !(e.0 == n && i <= e.1 <= count) :: fe[e]
  }

  /** The expired records that the memberships `keys` of `members` turn into. */
  function ExpiryRecords(members: map<MemberKey, MembershipDetails>, keys: set<MemberKey>): map<MemberKey, ExpirationDetails> {
    map k | k in keys && k in members :: ExpirationDetails(members[k])
  }

  /** DueKeys and ExpiryEvents look only at the entries (n, i) ..= (n, count). */
  lemma {:induction false} DueAgree(fe: map<ExpiryKey, MemberKey>, fe': map<ExpiryKey, MemberKey>,
                                    n: BlockNumber, i: nat, count: nat)
    requires forall j | i <= j <= count :: ((n, j) in fe <==> (n, j) in fe')
    requires forall j | i <= j <= count && (n, j) in fe :: fe[(n, j)] == fe'[(n, j)]
    ensures DueKeys(fe, n, i, count) == DueKeys(fe', n, i, count)
    ensures ExpiryEvents(fe, n, i, count) == ExpiryEvents(fe', n, i, count)
    decreases count + 1 - i
  {
    if i <= count { DueAgree(fe, fe', n, i + 1, count); }
  }

  lemma {:induction false} EntryIsDue(fe: map<ExpiryKey, MemberKey>, n: BlockNumber, i: nat, count: nat, j: nat)
    requires i <= j <= count && (n, j) in fe
    ensures fe[(n, j)] in DueKeys(fe, n, i, count)
    decreases count + 1 - i
  {
    if i < j { EntryIsDue(fe, n, i + 1, count, j); }
  }

  lemma {:induction false} NotDue(fe: map<ExpiryKey, MemberKey>, n: BlockNumber, i: nat, count: nat, k: MemberKey)
    requires forall j | i <= j <= count && (n, j) in fe :: fe[(n, j)] != k
    ensures k !in DueKeys(fe, n, i, count)
    decreases count + 1 - i
  {
    if i <= count { NotDue(fe, n, i + 1, count, k); }
  }

  lemma {:induction false} ExpiryEventAt(fe: map<ExpiryKey, MemberKey>, n: BlockNumber, i: nat, count: nat, j: nat)
    requires i <= j <= count && (n, j) in fe
    ensures MembershipExpired(fe[(n, j)].1, fe[(n, j)].0) in ExpiryEvents(fe, n, i, count)
    decreases count + 1 - i
  {
    if i < j { ExpiryEventAt(fe, n, i + 1, count, j); }
  }

  /** The storage items the hook's loop never writes. */
  predicate LoopFrame(r: Store, s: Store) {
    && r.rootAccount == s.rootAccount
    && r.clubCreationFee == s.clubCreationFee
    && r.nextClubId == s.nextClubId
    && r.clubs == s.clubs
    && r.expirationsPerBlock == s.expirationsPerBlock
    && r.membershipRequest == s.membershipRequest
  }

  lemma ExpireEntryFrame(s: Store, n: BlockNumber, i: nat)
    ensures var r := ExpireEntry(s, n, i);
      && LoopFrame(r, s)
      && r.clubMemberFutureExpirations == s.clubMemberFutureExpirations - {(n, i)}
      && CreatedIds(r.events) == CreatedIds(s.events)
  {
    var fe := s.clubMemberFutureExpirations;
    if (n, i) in fe {
      var key := fe[(n, i)];
      CreatedIdsSnoc(s.events, MembershipExpired(key.1, key.0));
    } else {
      assert fe - {(n, i)} == fe;
    }
  }

  lemma WithoutSlotsStep(fe: map<ExpiryKey, MemberKey>, n: BlockNumber, i: nat, count: nat)
    requires i <= count
    ensures WithoutSlots(fe - {(n, i)}, n, i + 1, count) == WithoutSlots(fe, n, i, count)
  {
  }

  /** What the loop leaves alone: everything except the entries (n, i) ..= (n, count),
      the memberships, the expired records and the `MembershipExpired` events. */
  lemma {:induction false} DrainFrame(s: Store, n: BlockNumber, i: nat, count: nat)
    ensures var r := DrainFrom(s, n, i, count);
      && LoopFrame(r, s)
      && r.clubMemberFutureExpirations == WithoutSlots(s.clubMemberFutureExpirations, n, i, count)
      && CreatedIds(r.events) == CreatedIds(s.events)
    decreases count + 1 - i
  {
    var fe := s.clubMemberFutureExpirations;
    if i > count {
      assert WithoutSlots(fe, n, i, count) == fe;
    } else {
      ExpireEntryFrame(s, n, i);
      DrainFrame(ExpireEntry(s, n, i), n, i + 1, count);
      WithoutSlotsStep(fe, n, i, count);
    }
  }

  /** One iteration keeps the exclusivity of the three records, the club
      references and the entry/membership correspondence. */
  lemma ExpireEntryPreserves(s: Store, n: BlockNumber, i: nat)
    requires Exclusive(s) && KnownClubs(s) && Linked(s)
    ensures var r := ExpireEntry(s, n, i);
      Exclusive(r) && KnownClubs(r) && Linked(r)
  {
    var fe := s.clubMemberFutureExpirations;
    if (n, i) in fe {
      var key := fe[(n, i)];
      assert key in fe.Values;
      ValuesAfterRemove(fe, (n, i));
    }
  }

  lemma {:induction false} DrainPreserves(s: Store, n: BlockNumber, i: nat, count: nat)
    requires Exclusive(s) && KnownClubs(s) && Linked(s)
    ensures var r := DrainFrom(s, n, i, count); Exclusive(r) && KnownClubs(r) && Linked(r)
    decreases count + 1 - i
  {
    if i <= count {
      var s1 := ExpireEntry(s, n, i);
      ExpireEntryPreserves(s, n, i);
      DrainPreserves(s1, n, i + 1, count);
      var r := DrainFrom(s1, n, i + 1, count);
      assert Exclusive(r) && KnownClubs(r) && Linked(r);
      assert DrainFrom(s, n, i, count) == r;
    }
  }

  /** One iteration on a live entry: its membership becomes an expired record
      with the same details, and `MembershipExpired` is deposited. */
  lemma ExpireLiveEntry(s: Store, n: BlockNumber, i: nat)
    requires Linked(s) && (n, i) in s.clubMemberFutureExpirations
    ensures var key := s.clubMemberFutureExpirations[(n, i)];
            var r := ExpireEntry(s, n, i);
      && key in s.clubMembership
      && r.clubMemberFutureExpirations == s.clubMemberFutureExpirations - {(n, i)}
      && r.clubMembership == s.clubMembership - {key}
      && r.expiredMemberships == s.expiredMemberships[key := ExpirationDetails(s.clubMembership[key])]
      && r.events == s.events + [MembershipExpired(key.1, key.0)]
      && Linked(r)
  {
    var fe := s.clubMemberFutureExpirations;
    assert fe[(n, i)] in fe.Values;
    ValuesAfterRemove(fe, (n, i));
  }

  lemma ExpiryRecordsStep(members: map<MemberKey, MembershipDetails>, expired: map<MemberKey, ExpirationDetails>,
                          key: MemberKey, rest: set<MemberKey>)
    requires key in members && key !in rest
    ensures expired[key := ExpirationDetails(members[key])] + ExpiryRecords(members - {key}, rest)
         == expired + ExpiryRecords(members, {key} + rest)
  {
  }

  /** What the loop over (n, i) ..= (n, count) does to the memberships, the
      expired records and the events, when it leaves `r` behind from `s`. */
  predicate ExpiresDue(s: Store, r: Store, n: BlockNumber, i: nat, count: nat) {
    var due := DueKeys(s.clubMemberFutureExpirations, n, i, count);
    && r.clubMembership == s.clubMembership - due
    && r.expiredMemberships == s.expiredMemberships + ExpiryRecords(s.clubMembership, due)
    && r.events == s.events + ExpiryEvents(s.clubMemberFutureExpirations, n, i, count)
  }

  /** Under the entry/membership correspondence, the loop over (n, i) ..= (n, count)
      expires exactly the memberships those entries name: each leaves
      `ClubMembership` and becomes an expired record that keeps its details,
      and one `MembershipExpired` event is deposited per entry, in index order. */
  lemma {:induction false} DrainExpiresDue(s: Store, n: BlockNumber, i: nat, count: nat)
    requires Linked(s)
    ensures ExpiresDue(s, DrainFrom(s, n, i, count), n, i, count)
    decreases count + 1 - i
  {
    if i > count {
      ExpiresNothing(s, n, i, count);
    } else if (n, i) !in s.clubMemberFutureExpirations {
      DrainExpiresDue(s, n, i + 1, count);
      ExpiresDueSkip(s, n, i, count, DrainFrom(s, n, i + 1, count));
    } else {
      var s1 := ExpireEntry(s, n, i);
      ExpireLiveEntry(s, n, i);
      DrainExpiresDue(s1, n, i + 1, count);
      DrainExpiresDueStep(s, s1, n, i, count, DrainFrom(s1, n, i + 1, count));
    }
  }

  lemma ExpiresNothing(s: Store, n: BlockNumber, i: nat, count: nat)
    requires i > count
    ensures ExpiresDue(s, s, n, i, count)
  {
    assert ExpiryRecords(s.clubMembership, {}) == map[];
    assert s.clubMembership - {} == s.clubMembership;
  }

  /** The inductive step of DrainExpiresDue past a missing entry (n, i). */
  lemma ExpiresDueSkip(s: Store, n: BlockNumber, i: nat, count: nat, r: Store)
    requires i <= count && (n, i) !in s.clubMemberFutureExpirations
    requires ExpiresDue(s, r, n, i + 1, count)
    ensures ExpiresDue(s, r, n, i, count)
  {
  }

  /** The inductive step of DrainExpiresDue for a live entry (n, i), with the
      iteration's effect and the claim for the remaining iterations as premises. */
  lemma DrainExpiresDueStep(s: Store, s1: Store, n: BlockNumber, i: nat, count: nat, r: Store)
    requires i <= count && (n, i) in s.clubMemberFutureExpirations
    requires Injective(s.clubMemberFutureExpirations)
    requires var key := s.clubMemberFutureExpirations[(n, i)];
      && key in s.clubMembership
      && s1.clubMemberFutureExpirations == s.clubMemberFutureExpirations - {(n, i)}
      && s1.clubMembership == s.clubMembership - {key}
      && s1.expiredMemberships == s.expiredMemberships[key := ExpirationDetails(s.clubMembership[key])]
      && s1.events == s.events + [MembershipExpired(key.1, key.0)]
    requires ExpiresDue(s1, r, n, i + 1, count)
    ensures ExpiresDue(s, r, n, i, count)
  {
    var fe := s.clubMemberFutureExpirations;
    var key := fe[(n, i)];
    DueAgree(fe, s1.clubMemberFutureExpirations, n, i + 1, count);
    NotDue(fe, n, i + 1, count, key);
    var rest := DueKeys(fe, n, i + 1, count);
    assert DueKeys(fe, n, i, count) == {key} + rest;
    assert s1.clubMembership - rest == s.clubMembership - ({key} + rest);
    ExpiryRecordsStep(s.clubMembership, s.expiredMemberships, key, rest);
    assert ExpiryEvents(fe, n, i, count) == [MembershipExpired(key.1, key.0)] + ExpiryEvents(fe, n, i + 1, count);
  }

  lemma OnInitializePreservesValid(s: Store, n: BlockNumber)
    requires Valid(s)
    ensures Valid(OnInitialize(s, n).store)
  {
    if n in s.expirationsPerBlock {
      var count := s.expirationsPerBlock[n];
      var s0 := s.(expirationsPerBlock := s.expirationsPerBlock - {n});
      var r := DrainFrom(s0, n, 1, count);
      assert OnInitialize(s, n).store == r;
      DrainFrame(s0, n, 1, count);
      DrainPreserves(s0, n, 1, count);
      assert IdsIssued(r);
      OnInitializeIndexed(s, n);
      OnInitializeDense(s, n);
    }
  }

  /** The hook removes block n's counter together with every entry of block n. */
  lemma OnInitializeIndexed(s: Store, n: BlockNumber)
    requires Indexed(s)
    ensures Indexed(OnInitialize(s, n).store)
  {
    var o := OnInitialize(s, n).store;
    OnInitializeFrame(s, n);
    if n in s.expirationsPerBlock {
      var s0 := s.(expirationsPerBlock := s.expirationsPerBlock - {n});
      DrainFrame(s0, n, 1, s.expirationsPerBlock[n]);
      assert o == DrainFrom(s0, n, 1, s.expirationsPerBlock[n]);
    }
    forall e | e in o.clubMemberFutureExpirations
      ensures e.0 in o.expirationsPerBlock && 1 <= e.1 <= o.expirationsPerBlock[e.0]
    {
      assert e in s.clubMemberFutureExpirations;
    }
  }

  /** The hook removes block n's counter together with the slots it covered,
      so the remaining buckets stay full. */
  lemma OnInitializeDense(s: Store, n: BlockNumber)
    requires Dense(s)
    ensures Dense(OnInitialize(s, n).store)
  {
    var o := OnInitialize(s, n).store;
    OnInitializeFrame(s, n);
    forall b, i | b in o.expirationsPerBlock && 1 <= i <= o.expirationsPerBlock[b]
      ensures (b, i) in o.clubMemberFutureExpirations
    {
      assert b != n && (b, i) in s.clubMemberFutureExpirations;
    }
  }

  /** `on_initialize(n)` touches no other block: the counter of block n is gone
      afterwards, every entry of another block is still there unchanged, no
      entry is added, the registry and the requests are unchanged, and the
      weight is computed from the bucket's count, not from the entries actually
      found. With no bucket for n nothing changes and the count is 0. */
  lemma OnInitializeFrame(s: Store, n: BlockNumber)
    ensures var o := OnInitialize(s, n);
            var fe := s.clubMemberFutureExpirations;
      && o.store.expirationsPerBlock == s.expirationsPerBlock - {n}
      && (forall e | e in fe && e.0 != n :: e in o.store.clubMemberFutureExpirations &&
                                            o.store.clubMemberFutureExpirations[e] == fe[e])
      && (forall e | e in o.store.clubMemberFutureExpirations :: e in fe && o.store.clubMemberFutureExpirations[e] == fe[e])
      && o.store.clubs == s.clubs && o.store.nextClubId == s.nextClubId
      && o.store.membershipRequest == s.membershipRequest
      && o.expirations == (if n in s.expirationsPerBlock then s.expirationsPerBlock[n] else 0)
      && (n !in s.expirationsPerBlock ==> o.store == s)
  {
    if n in s.expirationsPerBlock {
      DrainFrame(s.(expirationsPerBlock := s.expirationsPerBlock - {n}), n, 1, s.expirationsPerBlock[n]);
    } else {
      assert s.expirationsPerBlock - {n} == s.expirationsPerBlock;
    }
  }

  /** The counter is removed before the loop, so running the hook a second time
      for the same block finds no bucket, reports 0 and changes nothing. */
  lemma OnInitializeIdempotent(s: Store, n: BlockNumber)
    ensures var first := OnInitialize(s, n).store;
      OnInitialize(first, n) == HookOutcome(first, 0)
  {
    OnInitializeFrame(s, n);
  }

  /** On a valid storage, `on_initialize(n)` removes every entry of block n and
      expires exactly the memberships they name, keeping each one's renewal
      flag in the expired record, with one `MembershipExpired` per entry in
      index order. */
  lemma OnInitializeExpiresBucket(s: Store, n: BlockNumber)
    requires Valid(s)
    ensures var o := OnInitialize(s, n);
            var count := if n in s.expirationsPerBlock then s.expirationsPerBlock[n] else 0;
      && (forall e | e in o.store.clubMemberFutureExpirations :: e.0 != n)
      && ExpiresDue(s, o.store, n, 1, count)
  {
    if n in s.expirationsPerBlock {
      var count := s.expirationsPerBlock[n];
      var s0 := s.(expirationsPerBlock := s.expirationsPerBlock - {n});
      var r := DrainFrom(s0, n, 1, count);
      assert OnInitialize(s, n).store == r;
      DrainFrame(s0, n, 1, count);
      DrainExpiresDue(s0, n, 1, count);
      assert ExpiresDue(s, r, n, 1, count);
      forall e | e in r.clubMemberFutureExpirations
        ensures e.0 != n
      {
        assert e in s.clubMemberFutureExpirations;
      }
    } else {
      ExpiresNothing(s, n, 1, 0);
    }
  }

  /** The hook of block b expires the membership named by any entry (b, i) of a
      valid storage: the expired record keeps the membership's details, neither
      a membership nor a request for that (account, club) is left, and
      `MembershipExpired` for it is deposited. */
  lemma DueEntryExpires(u: Store, e: ExpiryKey)
    requires Valid(u) && e in u.clubMemberFutureExpirations
    ensures var key := u.clubMemberFutureExpirations[e];
            var o := OnInitialize(u, e.0).store;
      && key in u.clubMembership
      && key in o.expiredMemberships
      && o.expiredMemberships[key] == ExpirationDetails(u.clubMembership[key])
      && key !in o.clubMembership
      && key !in o.membershipRequest
      && MembershipExpired(key.1, key.0) in o.events
  {
    var fe := u.clubMemberFutureExpirations;
    var key := fe[e];
    var b := e.0;
    assert key in fe.Values;
    var count := u.expirationsPerBlock[b];
    var o := OnInitialize(u, b).store;
    OnInitializeExpiresBucket(u, b);
    OnInitializeFrame(u, b);
    assert ExpiresDue(u, o, b, 1, count);
    EntryIsDue(fe, b, 1, count, e.1);
    ExpiryEventAt(fe, b, 1, count, e.1);
    var due := DueKeys(fe, b, 1, count);
    assert key in due;
    assert o.expiredMemberships[key] == ExpiryRecords(u.clubMembership, due)[key];
  }

  /** The hook of another block n leaves an entry (b, i) of a valid storage
      where it is, and the membership it names unchanged. */
  lemma OtherBlockKeepsEntry(s: Store, n: BlockNumber, e: ExpiryKey)
    requires Valid(s) && e in s.clubMemberFutureExpirations && e.0 != n
    ensures var key := s.clubMemberFutureExpirations[e];
            var o := OnInitialize(s, n).store;
      && e in o.clubMemberFutureExpirations && o.clubMemberFutureExpirations[e] == key
      && key in s.clubMembership && key in o.clubMembership
      && o.clubMembership[key] == s.clubMembership[key]
  {
    var fe := s.clubMemberFutureExpirations;
    var key := fe[e];
    assert key in fe.Values;
    OnInitializeFrame(s, n);
    if n in s.expirationsPerBlock {
      var count := s.expirationsPerBlock[n];
      OnInitializeExpiresBucket(s, n);
      assert ExpiresDue(s, OnInitialize(s, n).store, n, 1, count);
      NotDue(fe, n, 1, count, key);
    }
  }

  /** An admission keeps every existing entry and the membership it names:
      the entry it adds is in a fresh slot, and for a key that was requested,
      hence not a member. */
  lemma AddMemberKeepsEntry(s: Store, cfg: Config, now: BlockNumber, caller: AccountId,
                            clubId: ClubId, requester: AccountId, e: ExpiryKey)
    requires Valid(s) && AddMemberFits(s, cfg, now, caller, clubId, requester)
    requires e in s.clubMemberFutureExpirations
    ensures var key := s.clubMemberFutureExpirations[e];
            var t := AddMember(s, cfg, now, caller, clubId, requester).store;
      && e in t.clubMemberFutureExpirations && t.clubMemberFutureExpirations[e] == key
      && key in s.clubMembership && key in t.clubMembership
      && t.clubMembership[key] == s.clubMembership[key]
  {
    var key := s.clubMemberFutureExpirations[e];
    assert key in s.clubMemberFutureExpirations.Values;
    AddMemberOutcome(s, cfg, now, caller, clubId, requester);
  }

  /** The round trip of the lifecycle, with the hook of the expiry block b run
      straight after the admission: it leaves an expired record carrying the
      request's renewal flag, and neither a membership nor a request for that
      (account, club). ClubRuntime.AdmittedMemberExpiresAfterAnyRun allows any
      calls and other blocks' hooks in between. */
  lemma AdmittedMemberExpiresAtExpiryBlock(s: Store, cfg: Config, now: BlockNumber, caller: AccountId,
                                           clubId: ClubId, requester: AccountId)
    requires Valid(s) && AddMemberFits(s, cfg, now, caller, clubId, requester)
    requires AddMember(s, cfg, now, caller, clubId, requester).result.Ok?
    ensures var key := (requester, clubId);
            var request := s.membershipRequest[key];
            var expiry := now + cfg.blocksPerYear * request.timeInYear;
            var u := OnInitialize(AddMember(s, cfg, now, caller, clubId, requester).store, expiry).store;
      && key in u.expiredMemberships
      && u.expiredMemberships[key].previousMembershipDetails.isRenewal == request.isRenewal
      && key !in u.clubMembership
      && key !in u.membershipRequest
      && MembershipExpired(clubId, requester) in u.events
  {
    var key := (requester, clubId);
    var request := s.membershipRequest[key];
    var expiry := now + cfg.blocksPerYear * request.timeInYear;
    AdmissionSchedules(s, cfg, now, caller, clubId, requester);
    AddMemberPreservesValid(s, cfg, now, caller, clubId, requester);
    var t := AddMember(s, cfg, now, caller, clubId, requester).store;
    DueEntryExpires(t, (expiry, NextIndex(s, expiry)));
  }

  /** A successful admission leaves the entry
      (expiry block, old count + 1) naming the new member, whose membership
      carries the request's renewal flag. */
  lemma AdmissionSchedules(s: Store, cfg: Config, now: BlockNumber, caller: AccountId,
                           clubId: ClubId, requester: AccountId)
    requires AddMemberFits(s, cfg, now, caller, clubId, requester)
    requires AddMember(s, cfg, now, caller, clubId, requester).result.Ok?
    ensures var key := (requester, clubId);
            var request := s.membershipRequest[key];
            var expiry := now + cfg.blocksPerYear * request.timeInYear;
            var e := (expiry, NextIndex(s, expiry));
            var t := AddMember(s, cfg, now, caller, clubId, requester).store;
      && e in t.clubMemberFutureExpirations && t.clubMemberFutureExpirations[e] == key
      && key in t.clubMembership && t.clubMembership[key] == MembershipDetails(request.isRenewal)
  {
    var key := (requester, clubId);
    var request := s.membershipRequest[key];
    var expiry := now + cfg.blocksPerYear * request.timeInYear;
    var details := MembershipDetails(request.isRenewal);
    var ev := MemberAdded(clubId, requester, expiry);
    var t := Schedule(s, key, expiry, details, ev);
    assert AddMember(s, cfg, now, caller, clubId, requester) == Transition(Ok, t);
  }

  /** Over full slots (n, i) ..= (n, count) there is one event per index. */
  lemma {:induction false} FullEvents(fe: map<ExpiryKey, MemberKey>, n: BlockNumber, i: nat, count: nat)
    requires i <= count + 1
    requires forall j | i <= j <= count :: (n, j) in fe
    ensures |ExpiryEvents(fe, n, i, count)| == count + 1 - i
    decreases count + 1 - i
  {
    if i <= count { FullEvents(fe, n, i + 1, count); }
  }

  /** On a valid storage every slot (n, 1) ..= (n, count) of a bucket holds
      an entry whose membership exists, so neither skip of the hook's loop is
      taken on it. */
  lemma BucketIsLive(s: Store, n: BlockNumber)
    requires Dense(s) && Linked(s) && n in s.expirationsPerBlock
    ensures forall j | 1 <= j <= s.expirationsPerBlock[n] ::
      (n, j) in s.clubMemberFutureExpirations && s.clubMemberFutureExpirations[(n, j)] in s.clubMembership
  {
    var fe := s.clubMemberFutureExpirations;
    forall j | 1 <= j <= s.expirationsPerBlock[n]
      ensures (n, j) in fe && fe[(n, j)] in s.clubMembership
    {
      assert fe[(n, j)] in fe.Values;
    }
  }

  /** On a valid storage every slot of the bucket is live (BucketIsLive), so
      the count the hook reports, from which its weight is computed, is the
      number of memberships it expires: one `MembershipExpired` event each. */
  lemma ReportedCountIsWork(s: Store, n: BlockNumber)
    requires Valid(s)
    ensures var o := OnInitialize(s, n);
      |o.store.events| == |s.events| + o.expirations
  {
    var fe := s.clubMemberFutureExpirations;
    var o := OnInitialize(s, n);
    OnInitializeFrame(s, n);
    OnInitializeExpiresBucket(s, n);
    if n in s.expirationsPerBlock {
      var count := s.expirationsPerBlock[n];
      assert o.store.events == s.events + ExpiryEvents(fe, n, 1, count);
      FullEvents(fe, n, 1, count);
    }
  }
}
