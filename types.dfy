/** Value types of the club pallet: identifiers, configuration, the records kept
    in storage, errors and events. */
module ClubTypes {

  /** Account identities are opaque; only equality matters. */
  type AccountId = nat

  /** Club ids are `u64` values handed out by a counter that starts at 1. */
  type ClubId = nat

  /** Block numbers; the width of the runtime's block number type is `Config.maxBlock`. */
  type BlockNumber = nat

  /** Balances; the width of the runtime's balance type is `Config.maxBalance`. */
  type Balance = nat

  const MAX_U8: nat := 0xFF
  const MAX_U64: nat := 0xFFFF_FFFF_FFFF_FFFF

  /** A membership duration in years is a `u8`. */
  type Years = y: nat | y <= MAX_U8

  /** A membership is keyed by (account, club id). */
  type MemberKey = (AccountId, ClubId)

  /** An entry of the expiration index is keyed by (expiry block, index within that block). */
  type ExpiryKey = (BlockNumber, nat)

  datatype Option<T> = None | Some(value: T)

  /** The runtime's configuration constants, plus the largest value of the
      runtime's balance and block number types. */
  datatype Config = Config(
    blocksPerYear: BlockNumber,
    maxNumberOfYears: Years,
    maxBalance: nat,
    maxBlock: nat)
  {
    /** `BlocksPerYear` is a block number, and the block number type converts every `u8`. */
    predicate Valid() {
      blocksPerYear <= maxBlock && MAX_U8 <= maxBlock
    }
  }

  datatype ClubDetails = ClubDetails(owner: AccountId, expensePerYear: Balance)

  datatype MembershipDetails = MembershipDetails(isRenewal: bool)

  datatype ExpirationDetails = ExpirationDetails(previousMembershipDetails: MembershipDetails)

  datatype MembershipRequestDetails = MembershipRequestDetails(
    amountPaid: Balance,
    timeInYear: Years,
    isRenewal: bool)

  /** The pallet's own errors. `MemberNotFound` is declared by the pallet but no
      operation returns it. */
  datatype Error =
    | NoRootConfiguredAtGenesis
    | UserIsNotRoot
    | ClubNotFound
    | NotClubOwner
    | AlreadyMember
    | ExpiredMember
    | NoMembershipExpirationFound
    | MemberNotFound
    | MembershipAlreadyRequested
    | MembershipRequestNotFound
    | MembershipTimeExceeded

  /** Failures reported by the currency ledger; their causes are outside this model. */
  datatype LedgerError = FundsUnavailable | NotExpendable | OtherLedgerError(code: nat)

  datatype DispatchError =
    | Module(error: Error)
    | ArithmeticOverflow
    | Ledger(reason: LedgerError)

  datatype DispatchResult = Ok | Err(dispatchError: DispatchError)

  /** The ledger's answer to "transfer `amount` from `payer` to the pallet's own
      account, keeping `payer` alive": `None` when the transfer happens. */
  type Transfer = (AccountId, Balance) -> Option<LedgerError>

  /** Events, in the order the pallet deposits them. `MembershipRenewed` is
      declared by the pallet but never deposited. */
  datatype Event =
    | ClubCreated(clubId: ClubId, clubOwner: AccountId, annualExpense: Balance)
    | ClubOwnerChanged(clubId: ClubId, oldOwner: AccountId, newOwner: AccountId)
    | AnnualExpenseSet(clubId: ClubId, oldAnnualExpense: Balance, newAnnualExpense: Balance)
    | MembershipRequested(clubId: ClubId, requester: AccountId, expenseToBeCharged: Balance,
                          timeInYear: Years, isRenewal: bool)
    | MemberAdded(clubId: ClubId, member: AccountId, membershipExpiryBlock: BlockNumber)
    | MembershipExpired(clubId: ClubId, member: AccountId)
    | MembershipRenewed(clubId: ClubId, member: AccountId)

  /** Checked multiplication within a type whose largest value is `max`. */
  function CheckedMul(a: nat, b: nat, max: nat): Option<nat> {
    if a * b <= max then Some(a * b) else None
  }
}
