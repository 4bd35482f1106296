/** The pallet inside a chain: a block runs `on_initialize` and then the
    extrinsics included in it. A run is a sequence of such steps applied to the
    storage, starting from genesis. */
module ClubRuntime {
  import opened ClubTypes
  import opened ClubStore
  import P = ClubProperties

  /** A signed (or root) call of one of the pallet's dispatchables, with the
      ledger's answers for the transfer it may make. */
  datatype Call =
    | CreateClub(caller: AccountId, owner: AccountId, expensePerYear: Balance, transfer: Transfer)
    | TransferClubOwnership(caller: AccountId, clubId: ClubId, newOwner: AccountId)
    | ChangeClubExpense(caller: AccountId, clubId: ClubId, newExpensePerYear: Balance)
    | RequestMembership(caller: AccountId, clubId: ClubId, timeInYear: Years, transfer: Transfer)
    | RequestMembershipRenewal(caller: AccountId, clubId: ClubId, timeInYear: Years, transfer: Transfer)
    | AddMember(caller: AccountId, clubId: ClubId, requester: AccountId, currentBlock: BlockNumber)

  datatype Step = Extrinsic(call: Call) | Initialize(block: BlockNumber)

  /** The unchecked additions of a call do not overflow. */
  predicate Fits(s: Store, cfg: Config, c: Call) {
    match c
    case CreateClub(caller, _, _, transfer) => CreateClubFits(s, transfer, caller)
    case AddMember(caller, clubId, requester, now) => AddMemberFits(s, cfg, now, caller, clubId, requester)
    case _ => true
  }

  function Dispatch(s: Store, cfg: Config, c: Call): Transition
    requires Fits(s, cfg, c)
  {
    match c
    case CreateClub(caller, owner, expense, transfer) =>
      ClubStore.CreateClub(s, transfer, caller, owner, expense)
    case TransferClubOwnership(caller, clubId, newOwner) =>
      ClubStore.TransferClubOwnership(s, caller, clubId, newOwner)
    case ChangeClubExpense(caller, clubId, expense) =>
      ClubStore.ChangeClubExpense(s, caller, clubId, expense)
    case RequestMembership(caller, clubId, years, transfer) =>
      ClubStore.RequestMembership(s, cfg, transfer, caller, clubId, years)
    case RequestMembershipRenewal(caller, clubId, years, transfer) =>
      ClubStore.RequestMembershipRenewal(s, cfg, transfer, caller, clubId, years)
    case AddMember(caller, clubId, requester, now) =>
      ClubStore.AddMember(s, cfg, now, caller, clubId, requester)
  }

  predicate StepFits(s: Store, cfg: Config, st: Step) {
    st.Extrinsic? ==> Fits(s, cfg, st.call)
  }

  /** The storage after one step; a rejected extrinsic is rolled back. */
  function Apply(s: Store, cfg: Config, st: Step): Store
    requires StepFits(s, cfg, st)
  {
    match st
    case Extrinsic(c) => Dispatch(s, cfg, c).store
    case Initialize(n) => OnInitialize(s, n).store
  }

  /** Every step of the run meets its calls' no-overflow conditions. */
  predicate Feasible(s: Store, cfg: Config, steps: seq<Step>)
    decreases |steps|
  {
    steps != [] ==> StepFits(s, cfg, steps[0]) && Feasible(Apply(s, cfg, steps[0]), cfg, steps[1..])
  }

  function Run(s: Store, cfg: Config, steps: seq<Step>): Store
    requires Feasible(s, cfg, steps)
    decreases |steps|
  {
    if steps == [] then s else Run(Apply(s, cfg, steps[0]), cfg, steps[1..])
  }

  /** A rejected call writes nothing: the storage is exactly as before. A call
      that succeeds deposits exactly one event after the earlier ones. */
  lemma DispatchEffect(s: Store, cfg: Config, c: Call)
    requires Fits(s, cfg, c)
    ensures var t := Dispatch(s, cfg, c);
      && (t.result.Err? ==> t.store == s)
      && (t.result.Ok? ==> |t.store.events| == |s.events| + 1 && s.events <= t.store.events)
  {
  }

  lemma DispatchPreservesValid(s: Store, cfg: Config, c: Call)
    requires P.Valid(s) && Fits(s, cfg, c)
    ensures P.Valid(Dispatch(s, cfg, c).store)
  {
    match c
    case CreateClub(caller, owner, expense, transfer) =>
      P.CreateClubPreservesValid(s, transfer, caller, owner, expense);
    case TransferClubOwnership(caller, clubId, newOwner) =>
      P.TransferClubOwnershipPreservesValid(s, caller, clubId, newOwner);
    case ChangeClubExpense(caller, clubId, expense) =>
      P.ChangeClubExpensePreservesValid(s, caller, clubId, expense);
    case RequestMembership(caller, clubId, years, transfer) =>
      P.RequestMembershipPreservesValid(s, cfg, transfer, caller, clubId, years);
    case RequestMembershipRenewal(caller, clubId, years, transfer) =>
      P.RequestMembershipRenewalPreservesValid(s, cfg, transfer, caller, clubId, years);
    case AddMember(caller, clubId, requester, now) =>
      P.AddMemberPreservesValid(s, cfg, now, caller, clubId, requester);
  }

  /** Every step keeps the invariants, and only appends events. */
  lemma StepPreservesValid(s: Store, cfg: Config, st: Step)
    requires P.Valid(s) && StepFits(s, cfg, st)
    ensures P.Valid(Apply(s, cfg, st))
    ensures s.events <= Apply(s, cfg, st).events
  {
    match st
    case Initialize(n) =>
      P.OnInitializePreservesValid(s, n);
      P.OnInitializeExpiresBucket(s, n);
    case Extrinsic(c) =>
      DispatchPreservesValid(s, cfg, c);
      DispatchEffect(s, cfg, c);
  }

  lemma {:induction false} RunPreservesValid(s: Store, cfg: Config, steps: seq<Step>)
    requires P.Valid(s) && Feasible(s, cfg, steps)
    ensures P.Valid(Run(s, cfg, steps))
    ensures s.events <= Run(s, cfg, steps).events
    decreases |steps|
  {
    if steps != [] {
      StepPreservesValid(s, cfg, steps[0]);
      RunPreservesValid(Apply(s, cfg, steps[0]), cfg, steps[1..]);
    }
  }

  /** From genesis, the clubs are numbered 1, 2, 3, ... in creation order:
      the j-th `ClubCreated` event carries id j + 1, every created club is
      still registered, and the counter is one past the last id. */
  lemma ClubIdsAssignedInOrder(rootAccount: Option<AccountId>, clubCreationFee: Balance, cfg: Config,
                               steps: seq<Step>)
    requires Feasible(Genesis(rootAccount, clubCreationFee), cfg, steps)
    ensures var r := Run(Genesis(rootAccount, clubCreationFee), cfg, steps);
            var ids := P.CreatedIds(r.events);
      && |ids| == r.nextClubId - 1
      && (forall j | 0 <= j < |ids| :: ids[j] == j + 1 && ids[j] in r.clubs)
      && (forall id | id in r.clubs :: id in ids)
  {
    var g := Genesis(rootAccount, clubCreationFee);
    P.GenesisValid(rootAccount, clubCreationFee);
    RunPreservesValid(g, cfg, steps);
    var r := Run(g, cfg, steps);
    P.IdsBelowAt(r.nextClubId);
    var ids := P.CreatedIds(r.events);
    forall id | id in r.clubs ensures id in ids {
      assert ids[id - 1] == id;
    }
  }

  /** No call moves or drops an entry (b, i) of a valid storage, nor changes
      the membership it names: an admission only adds a fresh entry for a key
      that was requested and so was not a member. */
  lemma DispatchKeepsEntry(s: Store, cfg: Config, c: Call, e: ExpiryKey)
    requires P.Valid(s) && Fits(s, cfg, c) && e in s.clubMemberFutureExpirations
    ensures var key := s.clubMemberFutureExpirations[e];
            var t := Dispatch(s, cfg, c).store;
      && e in t.clubMemberFutureExpirations && t.clubMemberFutureExpirations[e] == key
      && key in s.clubMembership && key in t.clubMembership
      && t.clubMembership[key] == s.clubMembership[key]
  {
    assert s.clubMemberFutureExpirations[e] in s.clubMemberFutureExpirations.Values;
    match c
    case AddMember(caller, clubId, requester, now) =>
      P.AddMemberKeepsEntry(s, cfg, now, caller, clubId, requester, e);
    case _ =>
  }

  /** Any step other than the hook of block b keeps an entry (b, i) and the
      membership it names. */
  lemma StepKeepsEntry(s: Store, cfg: Config, st: Step, e: ExpiryKey)
    requires P.Valid(s) && StepFits(s, cfg, st) && e in s.clubMemberFutureExpirations
    requires !(st.Initialize? && st.block == e.0)
    ensures var key := s.clubMemberFutureExpirations[e];
            var t := Apply(s, cfg, st);
      && e in t.clubMemberFutureExpirations && t.clubMemberFutureExpirations[e] == key
      && key in s.clubMembership && key in t.clubMembership
      && t.clubMembership[key] == s.clubMembership[key]
  {
    match st
    case Initialize(n) => P.OtherBlockKeepsEntry(s, n, e);
    case Extrinsic(c) => DispatchKeepsEntry(s, cfg, c, e);
  }

  /** A run without the hook of block b keeps an entry (b, i) and the
      membership it names. */
  lemma {:induction false} RunKeepsEntry(s: Store, cfg: Config, steps: seq<Step>, e: ExpiryKey)
    requires P.Valid(s) && Feasible(s, cfg, steps) && e in s.clubMemberFutureExpirations
    requires forall k | 0 <= k < |steps| :: !(steps[k].Initialize? && steps[k].block == e.0)
    ensures var key := s.clubMemberFutureExpirations[e];
            var t := Run(s, cfg, steps);
      && e in t.clubMemberFutureExpirations && t.clubMemberFutureExpirations[e] == key
      && key in s.clubMembership && key in t.clubMembership
      && t.clubMembership[key] == s.clubMembership[key]
    decreases |steps|
  {
    var key := s.clubMemberFutureExpirations[e];
    assert key in s.clubMemberFutureExpirations.Values;
    if steps != [] {
      StepKeepsEntry(s, cfg, steps[0], e);
      StepPreservesValid(s, cfg, steps[0]);
      var s1 := Apply(s, cfg, steps[0]);
      assert forall k | 0 <= k < |steps[1..]| :: steps[1..][k] == steps[k + 1];
      RunKeepsEntry(s1, cfg, steps[1..], e);
    }
  }

  /** However many calls and hooks of other blocks come after it, an entry
      (b, i) naming `key` in a valid storage is honoured by the hook of b: the
      membership becomes an expired record with the same renewal flag, no
      membership or request is left for `key`, and `MembershipExpired` is
      deposited. */
  lemma {:induction false} MemberExpiresAfterAnyRun(s: Store, cfg: Config, steps: seq<Step>, e: ExpiryKey,
                                                    key: MemberKey, isRenewal: bool)
    requires P.Valid(s) && Feasible(s, cfg, steps)
    requires e in s.clubMemberFutureExpirations && s.clubMemberFutureExpirations[e] == key
    requires key in s.clubMembership && s.clubMembership[key] == MembershipDetails(isRenewal)
    requires forall k | 0 <= k < |steps| :: !(steps[k].Initialize? && steps[k].block == e.0)
    ensures var u := OnInitialize(Run(s, cfg, steps), e.0).store;
      && key in u.expiredMemberships
      && u.expiredMemberships[key].previousMembershipDetails.isRenewal == isRenewal
      && key !in u.clubMembership
      && key !in u.membershipRequest
      && MembershipExpired(key.1, key.0) in u.events
  {
    RunKeepsEntry(s, cfg, steps, e);
    RunPreservesValid(s, cfg, steps);
    P.DueEntryExpires(Run(s, cfg, steps), e);
  }

  /** The round trip of the lifecycle over any run: a member admitted with
      expiry block b, followed by any feasible run of calls and hooks of blocks
      other than b, is expired by the hook of b, which leaves an expired record
      carrying the request's renewal flag, neither a membership nor a request
      for that (account, club), and a `MembershipExpired` event. */
  lemma {:induction false} AdmittedMemberExpiresAfterAnyRun(s: Store, cfg: Config, now: BlockNumber, caller: AccountId,
                                         clubId: ClubId, requester: AccountId, steps: seq<Step>)
    requires P.Valid(s) && AddMemberFits(s, cfg, now, caller, clubId, requester)
    requires ClubStore.AddMember(s, cfg, now, caller, clubId, requester).result.Ok?
    requires Feasible(ClubStore.AddMember(s, cfg, now, caller, clubId, requester).store, cfg, steps)
    requires var expiry := now + cfg.blocksPerYear * s.membershipRequest[(requester, clubId)].timeInYear;
      forall k | 0 <= k < |steps| :: !(steps[k].Initialize? && steps[k].block == expiry)
    ensures var key := (requester, clubId);
            var request := s.membershipRequest[key];
            var expiry := now + cfg.blocksPerYear * request.timeInYear;
            var t := ClubStore.AddMember(s, cfg, now, caller, clubId, requester).store;
            var u := OnInitialize(Run(t, cfg, steps), expiry).store;
      && key in u.expiredMemberships
      && u.expiredMemberships[key].previousMembershipDetails.isRenewal == request.isRenewal
      && key !in u.clubMembership
      && key !in u.membershipRequest
      && MembershipExpired(clubId, requester) in u.events
  {
    var key := (requester, clubId);
    var request := s.membershipRequest[key];
    var expiry := now + cfg.blocksPerYear * request.timeInYear;
    P.AdmissionSchedules(s, cfg, now, caller, clubId, requester);
    P.AddMemberPreservesValid(s, cfg, now, caller, clubId, requester);
    var t := ClubStore.AddMember(s, cfg, now, caller, clubId, requester).store;
    MemberExpiresAfterAnyRun(t, cfg, steps, (expiry, NextIndex(s, expiry)), key, request.isRenewal);
  }

  /** On every storage reachable from genesis, each slot of block n's bucket
      holds an entry naming an existing membership, so neither skip of the
      hook's loop is ever taken, and the count `on_initialize(n)` reports for
      its weight is the number of memberships it expires: it deposits exactly
      that many events. */
  lemma ReachableHookReportsWork(rootAccount: Option<AccountId>, clubCreationFee: Balance, cfg: Config,
                                 steps: seq<Step>, n: BlockNumber)
    requires Feasible(Genesis(rootAccount, clubCreationFee), cfg, steps)
    ensures var r := Run(Genesis(rootAccount, clubCreationFee), cfg, steps);
            var o := OnInitialize(r, n);
      && (n in r.expirationsPerBlock ==>
            forall j | 1 <= j <= r.expirationsPerBlock[n] ::
              (n, j) in r.clubMemberFutureExpirations && r.clubMemberFutureExpirations[(n, j)] in r.clubMembership)
      && |o.store.events| == |r.events| + o.expirations
  {
    P.GenesisValid(rootAccount, clubCreationFee);
    RunPreservesValid(Genesis(rootAccount, clubCreationFee), cfg, steps);
    var r := Run(Genesis(rootAccount, clubCreationFee), cfg, steps);
    P.ReportedCountIsWork(r, n);
    if n in r.expirationsPerBlock {
      P.BucketIsLive(r, n);
    }
  }
}
