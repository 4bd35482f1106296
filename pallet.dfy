/** The pallet as the runtime executes it: each storage item is a field, and
    each dispatchable and the hook is a method that reads and writes those
    fields in the order the pallet does. Every dispatchable and the hook is
    proved to leave exactly the storage the corresponding function of
    ClubStore describes, and to keep the invariants of ClubProperties; the
    helper methods Charge, Schedule and ExpireEntry are proved against the
    functions they share with those. */
module ClubPallet {
  import opened ClubTypes
  import opened ClubStore
  import P = ClubProperties

  class Pallet {
    const config: Config

    var rootAccount: Option<AccountId>
    var clubCreationFee: Balance
    var nextClubId: ClubId
    var clubs: map<ClubId, ClubDetails>
    var clubMembership: map<MemberKey, MembershipDetails>
    var expirationsPerBlock: map<BlockNumber, nat>
    var clubMemberFutureExpirations: map<ExpiryKey, MemberKey>
    var expiredMemberships: map<MemberKey, ExpirationDetails>
    var membershipRequest: map<MemberKey, MembershipRequestDetails>
    var events: seq<Event>

    /** The storage as one value. */
    function Snapshot(): Store
      reads this
    {
      Store(rootAccount, clubCreationFee, nextClubId, clubs, clubMembership, expirationsPerBlock,
            clubMemberFutureExpirations, expiredMemberships, membershipRequest, events)
    }

    ghost predicate Valid()
      reads this
    {
      config.Valid() && P.Valid(Snapshot())
    }

    /** Genesis: the configured root account and club creation fee. */
    constructor (config: Config, rootAccount: Option<AccountId>, clubCreationFee: Balance)
      requires config.Valid()
      ensures this.config == config
      ensures Snapshot() == Genesis(rootAccount, clubCreationFee)
      ensures Valid()
    {
      this.config := config;
      this.rootAccount := rootAccount;
      this.clubCreationFee := clubCreationFee;
      nextClubId := 1;
      clubs := map[];
      clubMembership := map[];
      expirationsPerBlock := map[];
      clubMemberFutureExpirations := map[];
      expiredMemberships := map[];
      membershipRequest := map[];
      events := [];
      new;
      P.GenesisValid(rootAccount, clubCreationFee);
    }

    method CreateClub(caller: AccountId, owner: AccountId, expensePerYear: Balance, transfer: Transfer)
      returns (r: DispatchResult)
      requires Valid() && CreateClubFits(Snapshot(), transfer, caller)
      modifies this
      ensures Transition(r, Snapshot()) == ClubStore.CreateClub(old(Snapshot()), transfer, caller, owner, expensePerYear)
      ensures Valid()
    {
      ghost var s := Snapshot();
      if rootAccount.None? {
        return Err(Module(NoRootConfiguredAtGenesis));
      }
      var root := rootAccount.value;
      if caller != root {
        return Err(Module(UserIsNotRoot));
      }
      var club := ClubDetails(owner, expensePerYear);
      var nextId := nextClubId;
      var failure := transfer(caller, clubCreationFee);
      if failure.Some? {
        return Err(Ledger(failure.value));
      }
      clubs := clubs[nextId := club];
      nextClubId := nextId + 1;
      events := events + [ClubCreated(nextId, owner, expensePerYear)];
      r := Ok;
      P.CreateClubPreservesValid(s, transfer, caller, owner, expensePerYear);
    }

    method TransferClubOwnership(caller: AccountId, clubId: ClubId, newOwner: AccountId)
      returns (r: DispatchResult)
      requires Valid()
      modifies this
      ensures Transition(r, Snapshot()) == ClubStore.TransferClubOwnership(old(Snapshot()), caller, clubId, newOwner)
      ensures Valid()
    {
      ghost var s := Snapshot();
      if clubId !in clubs {
        return Err(Module(ClubNotFound));
      }
      var club := clubs[clubId];
      if club.owner != caller {
        return Err(Module(NotClubOwner));
      }
      club := club.(owner := newOwner);
      clubs := clubs[clubId := club];
      events := events + [ClubOwnerChanged(clubId, caller, newOwner)];
      r := Ok;
      P.TransferClubOwnershipPreservesValid(s, caller, clubId, newOwner);
    }

    method ChangeClubExpense(caller: AccountId, clubId: ClubId, newExpensePerYear: Balance)
      returns (r: DispatchResult)
      requires Valid()
      modifies this
      ensures Transition(r, Snapshot()) == ClubStore.ChangeClubExpense(old(Snapshot()), caller, clubId, newExpensePerYear)
      ensures Valid()
    {
      ghost var s := Snapshot();
      if clubId !in clubs {
        return Err(Module(ClubNotFound));
      }
      var club := clubs[clubId];
      if club.owner != caller {
        return Err(Module(NotClubOwner));
      }
      var oldAnnualExpense := club.expensePerYear;
      club := club.(expensePerYear := newExpensePerYear);
      clubs := clubs[clubId := club];
      events := events + [AnnualExpenseSet(clubId, oldAnnualExpense, newExpensePerYear)];
      r := Ok;
      P.ChangeClubExpensePreservesValid(s, caller, clubId, newExpensePerYear);
    }

    /** The duration bound, the checked charge and the transfer, shared by
        both request methods; nothing is written when it fails. */
    method Charge(caller: AccountId, clubId: ClubId, timeInYear: Years, transfer: Transfer)
      returns (r: DispatchResult, expense: Balance)
      requires clubId in clubs
      ensures forall isRenewal: bool ::
        var t := ClubStore.ChargeAndRequest(Snapshot(), config, transfer, caller, clubId, timeInYear, isRenewal);
        && (r.Err? <==> t.result.Err?)
        && (r.Err? ==> r == t.result)
      ensures r.Ok? ==> expense == clubs[clubId].expensePerYear * timeInYear &&
                        MembershipExpense(config, clubs[clubId].expensePerYear, timeInYear) == Some(expense) &&
                        transfer(caller, expense).None?
    {
      expense := 0;
      if timeInYear > config.maxNumberOfYears {
        return Err(Module(MembershipTimeExceeded)), expense;
      }
      if timeInYear > config.maxBalance {
        return Err(ArithmeticOverflow), expense;
      }
      var perYear := clubs[clubId].expensePerYear;
      if perYear * timeInYear > config.maxBalance {
        return Err(ArithmeticOverflow), expense;
      }
      expense := perYear * timeInYear;
      var failure := transfer(caller, expense);
      if failure.Some? {
        return Err(Ledger(failure.value)), expense;
      }
      r := Ok;
    }

    method RequestMembership(caller: AccountId, clubId: ClubId, timeInYear: Years, transfer: Transfer)
      returns (r: DispatchResult)
      requires Valid()
      modifies this
      ensures Transition(r, Snapshot()) == ClubStore.RequestMembership(old(Snapshot()), config, transfer, caller, clubId, timeInYear)
      ensures Valid()
    {
      ghost var s := Snapshot();
      var key := (caller, clubId);
      if clubId !in clubs {
        return Err(Module(ClubNotFound));
      }
      if key in membershipRequest {
        return Err(Module(MembershipAlreadyRequested));
      }
      if key in clubMembership {
        return Err(Module(AlreadyMember));
      }
      if key in expiredMemberships {
        return Err(Module(ExpiredMember));
      }
      var expense;
      r, expense := Charge(caller, clubId, timeInYear, transfer);
      ghost var charged := ClubStore.ChargeAndRequest(Snapshot(), config, transfer, caller, clubId, timeInYear, false);
      assert r.Err? <==> charged.result.Err?;
      if r.Err? {
        return;
      }
      assert ClubStore.RequestMembership(s, config, transfer, caller, clubId, timeInYear) ==
             ClubStore.ChargeAndRequest(s, config, transfer, caller, clubId, timeInYear, false);
      membershipRequest := membershipRequest[key := MembershipRequestDetails(expense, timeInYear, false)];
      events := events + [MembershipRequested(clubId, caller, expense, timeInYear, false)];
      P.RequestMembershipPreservesValid(s, config, transfer, caller, clubId, timeInYear);
    }

    method RequestMembershipRenewal(caller: AccountId, clubId: ClubId, timeInYear: Years, transfer: Transfer)
      returns (r: DispatchResult)
      requires Valid()
      modifies this
      ensures Transition(r, Snapshot()) ==
              ClubStore.RequestMembershipRenewal(old(Snapshot()), config, transfer, caller, clubId, timeInYear)
      ensures Valid()
    {
      ghost var s := Snapshot();
      var key := (caller, clubId);
      if clubId !in clubs {
        return Err(Module(ClubNotFound));
      }
      if key in membershipRequest {
        return Err(Module(MembershipAlreadyRequested));
      }
      if key in clubMembership {
        return Err(Module(AlreadyMember));
      }
      if key !in expiredMemberships {
        return Err(Module(NoMembershipExpirationFound));
      }
      var expense;
      r, expense := Charge(caller, clubId, timeInYear, transfer);
      ghost var charged := ClubStore.ChargeAndRequest(Snapshot(), config, transfer, caller, clubId, timeInYear, true);
      assert r.Err? <==> charged.result.Err?;
      if r.Err? {
        return;
      }
      assert ClubStore.RequestMembershipRenewal(s, config, transfer, caller, clubId, timeInYear) ==
             ClubStore.ChargeAndRequest(s, config, transfer, caller, clubId, timeInYear, true);
      expiredMemberships := expiredMemberships - {key};
      membershipRequest := membershipRequest[key := MembershipRequestDetails(expense, timeInYear, true)];
      events := events + [MembershipRequested(clubId, caller, expense, timeInYear, true)];
      P.RequestMembershipRenewalPreservesValid(s, config, transfer, caller, clubId, timeInYear);
    }

    /** The writes of a successful `add_member`: the entry goes to the next
        index of block `expiryBlock`, whose count becomes that index, and the
        request becomes a membership. */
    method Schedule(key: MemberKey, expiryBlock: BlockNumber, details: MembershipDetails, ev: Event)
      modifies this
      ensures Snapshot() == ClubStore.Schedule(old(Snapshot()), key, expiryBlock, details, ev)
    {
      var index := 1;
      if expiryBlock in expirationsPerBlock {
        index := expirationsPerBlock[expiryBlock] + 1;
      }
      expirationsPerBlock := expirationsPerBlock[expiryBlock := index];
      clubMemberFutureExpirations := clubMemberFutureExpirations[(expiryBlock, index) := key];
      membershipRequest := membershipRequest - {key};
      clubMembership := clubMembership[key := details];
      events := events + [ev];
    }

    /** `add_member`, with `currentBlock` the block it runs in. */
    method AddMember(caller: AccountId, clubId: ClubId, requester: AccountId, currentBlock: BlockNumber)
      returns (r: DispatchResult)
      requires Valid() && AddMemberFits(Snapshot(), config, currentBlock, caller, clubId, requester)
      modifies this
      ensures Transition(r, Snapshot()) ==
              ClubStore.AddMember(old(Snapshot()), config, currentBlock, caller, clubId, requester)
      ensures Valid()
    {
      ghost var s := Snapshot();
      if clubId !in clubs {
        return Err(Module(ClubNotFound));
      }
      if clubs[clubId].owner != caller {
        return Err(Module(NotClubOwner));
      }
      var key := (requester, clubId);
      if key !in membershipRequest {
        return Err(Module(MembershipRequestNotFound));
      }
      var request := membershipRequest[key];
      if config.blocksPerYear * request.timeInYear > config.maxBlock {
        return Err(ArithmeticOverflow);
      }
      var expiryBlock := currentBlock + config.blocksPerYear * request.timeInYear;
      var details := MembershipDetails(request.isRenewal);
      var ev := MemberAdded(clubId, requester, expiryBlock);
      assert ClubStore.AddMember(s, config, currentBlock, caller, clubId, requester) ==
             Transition(Ok, ClubStore.Schedule(s, key, expiryBlock, details, ev));
      Schedule(key, expiryBlock, details, ev);
      r := Ok;
      P.AddMemberPreservesValid(s, config, currentBlock, caller, clubId, requester);
    }

    /** One iteration of the hook's loop for entry (n, i). */
    method ExpireEntry(n: BlockNumber, i: nat)
      modifies this
      ensures Snapshot() == ClubStore.ExpireEntry(old(Snapshot()), n, i)
    {
      if (n, i) !in clubMemberFutureExpirations {
        return;
      }
      var key := clubMemberFutureExpirations[(n, i)];
      clubMemberFutureExpirations := clubMemberFutureExpirations - {(n, i)};
      if key !in clubMembership {
        return;
      }
      var details := clubMembership[key];
      clubMembership := clubMembership - {key};
      expiredMemberships := expiredMemberships[key := ExpirationDetails(details)];
      events := events + [MembershipExpired(key.1, key.0)];
    }

    /** `on_initialize(n)`; the result is the expiration count the hook's
        weight is computed from. */
    method OnInitialize(n: BlockNumber) returns (expirations: nat)
      requires Valid()
      modifies this
      ensures HookOutcome(Snapshot(), expirations) == ClubStore.OnInitialize(old(Snapshot()), n)
      ensures Valid()
    {
      ghost var s := Snapshot();
      if n !in expirationsPerBlock {
        return 0;
      }
      expirations := expirationsPerBlock[n];
      expirationsPerBlock := expirationsPerBlock - {n};
      ghost var start := Snapshot();
      assert ClubStore.OnInitialize(s, n) == HookOutcome(DrainFrom(start, n, 1, expirations), expirations);
      for i := 1 to expirations + 1
        invariant DrainFrom(Snapshot(), n, i, expirations) == DrainFrom(start, n, 1, expirations)
      {
        ghost var before := Snapshot();
        ExpireEntry(n, i);
        assert DrainFrom(before, n, i, expirations) == DrainFrom(Snapshot(), n, i + 1, expirations);
      }
      assert Snapshot() == DrainFrom(start, n, 1, expirations);
      P.OnInitializePreservesValid(s, n);
    }
  }
}
