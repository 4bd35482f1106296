/** Concrete runs with the values of the pallet's mock runtime: 10 blocks per
    year, at most 100 years, `u128` balances, `u64` block numbers, account 1
    as root and a club creation fee of 1. */
module ClubScenarios {
  import opened ClubTypes
  import opened ClubStore

  const MockConfig: Config := Config(10, 100, 0xFFFF_FFFF_FFFF_FFFF_FFFF_FFFF_FFFF_FFFF, MAX_U64)

  /** A ledger on which every transfer goes through. */
  function Pays(payer: AccountId, amount: Balance): Option<LedgerError> {
    None
  }

  /** A ledger on which account `poor` cannot pay anything. */
  function Broke(poor: AccountId, payer: AccountId, amount: Balance): Option<LedgerError> {
    if payer == poor then Some(FundsUnavailable) else None
  }

  /** Only the root may create a club, the root must be able to pay the fee,
      and the first club gets id 1 and moves the counter to 2. */
  lemma ClubCreationScenario()
    ensures var g := Genesis(Some(1), 1);
      && CreateClub(g, Pays, 2, 2, 100) == Transition(Err(Module(UserIsNotRoot)), g)
      && CreateClub(g, (p: AccountId, a: Balance) => Broke(1, p, a), 1, 2, 100) == Transition(Err(Ledger(FundsUnavailable)), g)
      && var t := CreateClub(g, Pays, 1, 2, 100);
         && t.result == Ok
         && t.store.clubs == map[1 := ClubDetails(2, 100)]
         && t.store.nextClubId == 2
         && t.store.events == [ClubCreated(1, 2, 100)]
  {
  }

  /** Five years of a club costing 100 a year are charged 500. */
  lemma ChargeScenario()
    ensures MembershipExpense(MockConfig, 100, 5) == Some(500)
    ensures MembershipExpense(MockConfig, 0xFFFF_FFFF_FFFF_FFFF_FFFF_FFFF_FFFF_FFFF, 2) == None
  {
  }

  /** The storage once account 2 owns club 1 (100 a year) and accounts 3 and 4
      have each requested one year in it. */
  function Requested(): Store {
    var request := MembershipRequestDetails(100, 1, false);
    Store(Some(1), 1, 2, map[1 := ClubDetails(2, 100)], map[], map[], map[], map[],
          map[(3, 1) := request, (4, 1) := request],
          [ClubCreated(1, 2, 100), MembershipRequested(1, 3, 100, 1, false),
           MembershipRequested(1, 4, 100, 1, false)])
  }

  /** The storage once both requests are admitted at block 100. */
  function Admitted(): Store {
    var member := MembershipDetails(false);
    Requested().(clubMembership := map[(3, 1) := member, (4, 1) := member],
                 expirationsPerBlock := map[110 := 2],
                 clubMemberFutureExpirations := map[(110, 1) := (3, 1), (110, 2) := (4, 1)],
                 membershipRequest := map[],
                 events := Requested().events + [MemberAdded(1, 3, 110), MemberAdded(1, 4, 110)])
  }

  /** Each request charges one year at 100 and records it. */
  lemma RequestScenario()
    ensures var s1 := CreateClub(Genesis(Some(1), 1), Pays, 1, 2, 100).store;
            var s2 := RequestMembership(s1, MockConfig, Pays, 3, 1, 1).store;
            RequestMembership(s2, MockConfig, Pays, 4, 1, 1).store == Requested()
  {
  }

  /** Both admissions at block 100 land in the bucket of block 110, at indices
      1 and 2; after the first the bucket count is 1, after the second 2. */
  lemma AdmissionScenario()
    ensures var s4 := AddMember(Requested(), MockConfig, 100, 2, 1, 3).store;
      && s4.expirationsPerBlock == map[110 := 1]
      && s4.clubMemberFutureExpirations == map[(110, 1) := (3, 1)]
      && AddMember(s4, MockConfig, 100, 2, 1, 4).store == Admitted()
  {
  }

  /** `on_initialize(110)` expires both members, in index order, reports 2 and
      leaves no bucket and no entry behind. */
  lemma ExpiryScenario()
    ensures var o := OnInitialize(Admitted(), 110);
            var expired := ExpirationDetails(MembershipDetails(false));
      && o.expirations == 2
      && o.store == Admitted().(clubMembership := map[],
                                expirationsPerBlock := map[],
                                clubMemberFutureExpirations := map[],
                                expiredMemberships := map[(3, 1) := expired, (4, 1) := expired],
                                events := Admitted().events + [MembershipExpired(1, 3), MembershipExpired(1, 4)])
  {
  }
}
