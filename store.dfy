/** The pallet's storage as one value, and each dispatchable and the
    `on_initialize` hook as a function from the storage before the call to the
    result and the storage after it. */
module ClubStore {
  import opened ClubTypes

  /** Every storage item of the pallet, plus the events deposited so far. */
  datatype Store = Store(
    rootAccount: Option<AccountId>,
    clubCreationFee: Balance,
    nextClubId: ClubId,
    clubs: map<ClubId, ClubDetails>,
    clubMembership: map<MemberKey, MembershipDetails>,
    expirationsPerBlock: map<BlockNumber, nat>,
    clubMemberFutureExpirations: map<ExpiryKey, MemberKey>,
    expiredMemberships: map<MemberKey, ExpirationDetails>,
    membershipRequest: map<MemberKey, MembershipRequestDetails>,
    events: seq<Event>)

  /** A dispatchable's result together with the storage it leaves behind. */
  datatype Transition = Transition(result: DispatchResult, store: Store)

  /** What `on_initialize` leaves behind, and the expiration count its weight is computed from. */
  datatype HookOutcome = HookOutcome(store: Store, expirations: nat)

  /** The storage after genesis: the root account and the club creation fee are
      set, the club id counter holds its default 1, every map is empty. */
  function Genesis(rootAccount: Option<AccountId>, clubCreationFee: Balance): Store {
    Store(rootAccount, clubCreationFee, 1, map[], map[], map[], map[], map[], map[], [])
  }

  function Reject(s: Store, e: Error): Transition {
    Transition(Err(Module(e)), s)
  }

  // ---------------------------------------------------------------- club registry

  /** The source adds 1 to the club id counter without a check, once the caller
      is the root and the fee is paid. This predicate says that this addition
      does not overflow whenever `create_club` reaches it. */
  predicate CreateClubFits(s: Store, transfer: Transfer, caller: AccountId) {
    s.rootAccount == Some(caller) && transfer(caller, s.clubCreationFee).None? ==> s.nextClubId < MAX_U64
  }

  /** `create_club`. */
  function CreateClub(s: Store, transfer: Transfer, caller: AccountId, owner: AccountId,
                      expensePerYear: Balance): (r: Transition)
    requires CreateClubFits(s, transfer, caller)
    ensures r.result.Err? ==> r.store == s
    ensures r.result.Ok? ==> |r.store.events| == |s.events| + 1 && s.events <= r.store.events
    ensures r.store.clubMembership == s.clubMembership
    ensures r.store.clubMemberFutureExpirations == s.clubMemberFutureExpirations
  {
    if s.rootAccount.None? then Reject(s, NoRootConfiguredAtGenesis)
    else if caller != s.rootAccount.value then Reject(s, UserIsNotRoot)
    else match transfer(caller, s.clubCreationFee)
      case Some(e) => Transition(Err(Ledger(e)), s)
      case None =>
        var id := s.nextClubId;
        Transition(Ok, s.(clubs := s.clubs[id := ClubDetails(owner, expensePerYear)],
                          nextClubId := id + 1,
                          events := s.events + [ClubCreated(id, owner, expensePerYear)]))
  }

  /** `transfer_club_ownership`. */
  function TransferClubOwnership(s: Store, caller: AccountId, clubId: ClubId,
                                 newOwner: AccountId): (r: Transition)
    ensures r.result.Err? ==> r.store == s
    ensures r.result.Ok? ==> |r.store.events| == |s.events| + 1 && s.events <= r.store.events
    ensures r.store.clubMembership == s.clubMembership
    ensures r.store.clubMemberFutureExpirations == s.clubMemberFutureExpirations
  {
    if clubId !in s.clubs then Reject(s, ClubNotFound)
    else if s.clubs[clubId].owner != caller then Reject(s, NotClubOwner)
    else
      var club := s.clubs[clubId].(owner := newOwner);
      Transition(Ok, s.(clubs := s.clubs[clubId := club],
                        events := s.events + [ClubOwnerChanged(clubId, caller, newOwner)]))
  }

  /** `change_club_expense`. */
  function ChangeClubExpense(s: Store, caller: AccountId, clubId: ClubId,
                             newExpensePerYear: Balance): (r: Transition)
    ensures r.result.Err? ==> r.store == s
    ensures r.result.Ok? ==> |r.store.events| == |s.events| + 1 && s.events <= r.store.events
    ensures r.store.clubMembership == s.clubMembership
    ensures r.store.clubMemberFutureExpirations == s.clubMemberFutureExpirations
  {
    if clubId !in s.clubs then Reject(s, ClubNotFound)
    else if s.clubs[clubId].owner != caller then Reject(s, NotClubOwner)
    else
      var previous := s.clubs[clubId].expensePerYear;
      var club := s.clubs[clubId].(expensePerYear := newExpensePerYear);
      Transition(Ok, s.(clubs := s.clubs[clubId := club],
                        events := s.events + [AnnualExpenseSet(clubId, previous, newExpensePerYear)]))
  }

  // ---------------------------------------------------------------- membership requests

  /** The charge for `years` years: the `u8` converted into the balance type,
      then multiplied with overflow checking; `None` is an arithmetic overflow. */
  function MembershipExpense(cfg: Config, expensePerYear: Balance, years: Years): Option<Balance> {
    if years > cfg.maxBalance then None else CheckedMul(expensePerYear, years, cfg.maxBalance)
  }

  /** The part `request_membership` and `request_membership_renewal` share once
      the three exclusive records have been examined: the duration bound, the
      checked charge, the ledger transfer and the new request. A renewal also
      drops the expired record, after the transfer. */
  function ChargeAndRequest(s: Store, cfg: Config, transfer: Transfer, caller: AccountId,
                            clubId: ClubId, years: Years, isRenewal: bool): (r: Transition)
    requires clubId in s.clubs
    ensures r.result.Err? ==> r.store == s
    ensures r.result.Ok? ==> |r.store.events| == |s.events| + 1 && s.events <= r.store.events
    ensures r.store.clubMembership == s.clubMembership
    ensures r.store.clubMemberFutureExpirations == s.clubMemberFutureExpirations
  {
    var key := (caller, clubId);
    if years > cfg.maxNumberOfYears then Reject(s, MembershipTimeExceeded)
    else match MembershipExpense(cfg, s.clubs[clubId].expensePerYear, years)
      case None => Transition(Err(ArithmeticOverflow), s)
      case Some(expense) =>
        match transfer(caller, expense)
        case Some(e) => Transition(Err(Ledger(e)), s)
        case None =>
          var expired := if isRenewal then s.expiredMemberships - {key} else s.expiredMemberships;
          var request := MembershipRequestDetails(expense, years, isRenewal);
          Transition(Ok, s.(expiredMemberships := expired,
                            membershipRequest := s.membershipRequest[key := request],
                            events := s.events + [MembershipRequested(clubId, caller, expense, years, isRenewal)]))
  }

  /** `request_membership`. */
  function RequestMembership(s: Store, cfg: Config, transfer: Transfer, caller: AccountId,
                             clubId: ClubId, years: Years): (r: Transition)
    ensures r.result.Err? ==> r.store == s
    ensures r.result.Ok? ==> |r.store.events| == |s.events| + 1 && s.events <= r.store.events
    ensures r.store.clubMembership == s.clubMembership
    ensures r.store.clubMemberFutureExpirations == s.clubMemberFutureExpirations
  {
    var key := (caller, clubId);
    if clubId !in s.clubs then Reject(s, ClubNotFound)
    else if key in s.membershipRequest then Reject(s, MembershipAlreadyRequested)
    else if key in s.clubMembership then Reject(s, AlreadyMember)
    else if key in s.expiredMemberships then Reject(s, ExpiredMember)
    else ChargeAndRequest(s, cfg, transfer, caller, clubId, years, false)
  }

  /** `request_membership_renewal`. */
  function RequestMembershipRenewal(s: Store, cfg: Config, transfer: Transfer, caller: AccountId,
                                    clubId: ClubId, years: Years): (r: Transition)
    ensures r.result.Err? ==> r.store == s
    ensures r.result.Ok? ==> |r.store.events| == |s.events| + 1 && s.events <= r.store.events
    ensures r.store.clubMembership == s.clubMembership
    ensures r.store.clubMemberFutureExpirations == s.clubMemberFutureExpirations
  {
    var key := (caller, clubId);
    if clubId !in s.clubs then Reject(s, ClubNotFound)
    else if key in s.membershipRequest then Reject(s, MembershipAlreadyRequested)
    else if key in s.clubMembership then Reject(s, AlreadyMember)
    else if key !in s.expiredMemberships then Reject(s, NoMembershipExpirationFound)
    else ChargeAndRequest(s, cfg, transfer, caller, clubId, years, true)
  }

  // ---------------------------------------------------------------- admission and scheduling

  /** The source adds the current block to the checked product without a check,
      and adds 1 to the bucket's previous count without a check. This predicate
      says that neither addition overflows whenever `add_member` reaches it. */
  predicate AddMemberFits(s: Store, cfg: Config, now: BlockNumber, caller: AccountId, clubId: ClubId,
                          requester: AccountId) {
    var key := (requester, clubId);
    clubId in s.clubs && s.clubs[clubId].owner == caller &&
    key in s.membershipRequest && cfg.blocksPerYear * s.membershipRequest[key].timeInYear <= cfg.maxBlock ==>
      var expiry := now + cfg.blocksPerYear * s.membershipRequest[key].timeInYear;
      expiry <= cfg.maxBlock &&
      (expiry in s.expirationsPerBlock ==> s.expirationsPerBlock[expiry] < MAX_U64)
  }

  /** The index the next entry for block `b` receives: one past the bucket's count, 1 for a new bucket. */
  function NextIndex(s: Store, b: BlockNumber): nat {
    if b in s.expirationsPerBlock then s.expirationsPerBlock[b] + 1 else 1
  }

  /** `add_member`, at block `now`. */
  function AddMember(s: Store, cfg: Config, now: BlockNumber, caller: AccountId, clubId: ClubId,
                     requester: AccountId): (r: Transition)
    requires AddMemberFits(s, cfg, now, caller, clubId, requester)
    ensures r.result.Err? ==> r.store == s
    ensures r.result.Ok? ==> |r.store.events| == |s.events| + 1 && s.events <= r.store.events
  {
    var key := (requester, clubId);
    if clubId !in s.clubs then Reject(s, ClubNotFound)
    else if s.clubs[clubId].owner != caller then Reject(s, NotClubOwner)
    else if key !in s.membershipRequest then Reject(s, MembershipRequestNotFound)
    else
      var request := s.membershipRequest[key];
      match CheckedMul(cfg.blocksPerYear, request.timeInYear, cfg.maxBlock)
      case None => Transition(Err(ArithmeticOverflow), s)
      case Some(offset) =>
        var expiry := now + offset;
        Transition(Ok, Schedule(s, key, expiry, MembershipDetails(request.isRenewal),
                                MemberAdded(clubId, requester, expiry)))
  }

  /** What a successful `add_member` writes: the request `key` is removed and
      becomes a membership with `details`, scheduled as the next entry of block
      `b`, whose bucket count grows to that entry's index; `ev` is deposited. */
  function Schedule(s: Store, key: MemberKey, b: BlockNumber, details: MembershipDetails, ev: Event): Store {
    var index := NextIndex(s, b);
    s.(expirationsPerBlock := s.expirationsPerBlock[b := index],
       clubMemberFutureExpirations := s.clubMemberFutureExpirations[(b, index) := key],
       membershipRequest := s.membershipRequest - {key},
       clubMembership := s.clubMembership[key := details],
       events := s.events + [ev])
  }

  // ---------------------------------------------------------------- the expiration hook

  /** One iteration of the hook's loop, for entry `(n, i)`: a missing entry is
      skipped; otherwise the entry is removed, and if its membership still
      exists it becomes an expired record and `MembershipExpired` is deposited. */
  function ExpireEntry(s: Store, n: BlockNumber, i: nat): Store {
    if (n, i) !in s.clubMemberFutureExpirations then s
    else
      var key := s.clubMemberFutureExpirations[(n, i)];
      var s1 := s.(clubMemberFutureExpirations := s.clubMemberFutureExpirations - {(n, i)});
      if key !in s1.clubMembership then s1
      else
        s1.(clubMembership := s1.clubMembership - {key},
            expiredMemberships := s1.expiredMemberships[key := ExpirationDetails(s1.clubMembership[key])],
            events := s1.events + [MembershipExpired(key.1, key.0)])
  }

  /** The iterations `i..=count` of the hook's loop for block `n`, in ascending order. */
  function DrainFrom(s: Store, n: BlockNumber, i: nat, count: nat): (r: Store)
    ensures s.events <= r.events
    ensures r.clubMemberFutureExpirations.Keys <= s.clubMemberFutureExpirations.Keys
    ensures r.clubs == s.clubs && r.membershipRequest == s.membershipRequest
    decreases count + 1 - i
  {
    if i > count then s else DrainFrom(ExpireEntry(s, n, i), n, i + 1, count)
  }

  /** `on_initialize(n)`: nothing when block `n` has no bucket; otherwise the
      bucket's counter is removed first and then entries `1..=count` are processed. */
  function OnInitialize(s: Store, n: BlockNumber): HookOutcome {
    if n !in s.expirationsPerBlock then HookOutcome(s, 0)
    else
      var count := s.expirationsPerBlock[n];
      HookOutcome(DrainFrom(s.(expirationsPerBlock := s.expirationsPerBlock - {n}), n, 1, count), count)
  }
}
