# Club pallet: a verified model

This project models the club pallet of a Substrate node (`pallets/club/src/lib.rs`). The pallet has three parts that share one storage:

- **The club registry.** The root account creates clubs and pays a creation fee. Ids come from a counter that starts at 1. A club's owner may hand the club to someone else or change its yearly expense.
- **A membership state machine per (account, club).** A paid request becomes a membership when the owner admits it. A membership becomes an expired record at its expiry block. An expired record becomes a renewal request when the account pays again. At most one of the three records exists at a time.
- **A block-bucketed expiration index.** Admission appends the entry `(expiry block, count + 1) -> (account, club)` and raises that block's counter. The `on_initialize` hook of block `n` removes the counter, then walks indices `1..=count`. It skips missing entries, and entries whose membership is already gone. Each remaining membership becomes an expired record.

The model comes in six modules:

- `ClubTypes` (`types.dfy`): the identifiers, the configuration, the stored records, the errors and the events.
- `ClubStore` (`store.dfy`): the whole storage as one value `Store`, with one function per dispatchable and one for the hook. Each function returns the call's result and the storage it leaves.
- `ClubProperties` (`properties.dfy`): the storage invariant `Valid`, and lemmas about each operation. They cover error precedence, what a successful call writes, preservation of `Valid`, how the hook drains a bucket, and the round trip from admission to expiry.
- `ClubRuntime` (`runtime.dfy`): runs of calls and hook invocations from genesis. Every reachable storage is valid, and clubs are numbered 1, 2, 3, … in creation order.
- `ClubPallet` (`pallet.dfy`): the pallet as it executes. The class `Pallet` has one field per storage item. Its methods read and write them in the pallet's order, with early returns, and the hook is a `for` loop. Every dispatchable and the hook is proved to leave exactly the storage the matching `ClubStore` function describes, and to keep `Valid`. The helper methods `Charge`, `Schedule` and `ExpireEntry` are proved against the `ClubStore` functions they share with those; `Charge` writes nothing.
- `ClubScenarios` (`scenarios.dfy`): concrete runs with the mock runtime's values (10 blocks per year, at most 100 years).

How the model treats the environment:

- **Widths.** Generic numeric types become `nat` with explicit bounds. Club ids and bucket counters are `u64` (`MAX_U64`) and years are `u8` (`Years`). The runtime's balance and block number types have their largest values in `Config.maxBalance` and `Config.maxBlock`.
- **Checked arithmetic.** The pallet checks only its multiplications. `MembershipExpense` and the `add_member` product model them and fail with `ArithmeticOverflow`, as does the conversion of the `u8` years into the balance type.
- **Unchecked additions.** The three unchecked additions get no error. `next_id + 1`, `current_block + offset` and `previous_expirations + 1` are preconditions instead (`CreateClubFits`, `AddMemberFits`). Each precondition applies only on the path that reaches the addition: `CreateClubFits` asks for `nextClubId < MAX_U64` only when the caller is the root and the fee transfer succeeds, and `AddMemberFits` bounds the two sums only when the club exists, the caller owns it, the request exists and the checked product fits.
- **The currency ledger.** Every call that transfers takes a `Transfer` function that gives the ledger's answer for (payer, amount). `None` means the money moved to the pallet's account.
- **The current block.** `add_member` takes it as a parameter.
- **Events.** Deposited events are kept as a sequence in the storage.

Two points where the code differs from a natural reading of the pallet's design; the model follows the code:

- The expiry block is `current_block + BlocksPerYear * years`. Only the product is checked; the addition has no overflow check (lib.rs:516-520).
- The hook's weight comes from the bucket's count, not from the number of entries it actually processed (lib.rs:247-251). `ClubStore.OnInitialize` returns that count. On every reachable storage the two agree: the invariant `Dense` says every slot `1..=count` of a bucket holds an entry, and `Linked` says every entry names a membership. So the loop's two skips (lib.rs:224-227, 231-233) are never taken, and the count equals the number of memberships expired (`ClubRuntime.ReachableHookReportsWork`).

`time_in_year = 0` is accepted (lib.rs:391 rejects only values above the maximum). It gives an expiry block equal to the admission block. On a running chain that block's hook has already run, so such a membership is never expired by the hook. The model states this through the formula in `AddMemberOutcome`; nothing here treats it as an error.

## Model

| member | source | states |
|---|---|---|
| ClubProperties.GenesisValid | pallets/club/src/lib.rs:103-145 | The storage after genesis satisfies every invariant: the counter holds its default 1, no club exists and every map is empty. |
| ClubProperties.CreateClubOutcome | pallets/club/src/lib.rs:260-297 | `NoRootConfiguredAtGenesis` when no root is stored, then `UserIsNotRoot` for any other caller, then the ledger's own error for the fee stored at genesis. Success holds exactly in the remaining case. A rejection leaves the storage unchanged. On success the club is stored under the counter's old value, which no club held and which exceeds every existing id. The counter grows by exactly 1 and `ClubCreated` carries that id. |
| ClubProperties.TransferClubOwnershipOutcome | pallets/club/src/lib.rs:302-328 | `ClubNotFound`, then `NotClubOwner`; success exactly for the owner of an existing club. On success only that club's owner changes: its expense and every other club stay the same. The event carries the old and the new owner. |
| ClubProperties.ChangeClubExpenseOutcome | pallets/club/src/lib.rs:333-361 | The same checks. On success only that club's expense changes, and the event carries the old and the new expense. |
| ClubProperties.ChargeAndRequestOutcome | pallets/club/src/lib.rs:389-420 | `MembershipTimeExceeded` only above the maximum, so 0 years is accepted. Then `ArithmeticOverflow` when the years do not fit the balance type or `expense * years` overflows. Then the ledger's error. Success holds exactly when none applies. A successful request records the charge `expense * years`, the years and the renewal flag. A renewal also drops the expired record. |
| ClubProperties.RequestMembershipOutcome | pallets/club/src/lib.rs:366-423 | `ClubNotFound`, `MembershipAlreadyRequested`, `AlreadyMember`, `ExpiredMember`, in that order, before the shared charge with the renewal flag false. |
| ClubProperties.RequestMembershipRenewalOutcome | pallets/club/src/lib.rs:428-488 | The same precedence, but without an expired record the call fails with `NoMembershipExpirationFound`. On success the expired record is gone and a request with the renewal flag set exists. |
| ClubProperties.AddMemberOutcome | pallets/club/src/lib.rs:493-547 | `ClubNotFound`, `NotClubOwner`, `MembershipRequestNotFound`, then `ArithmeticOverflow` when `BlocksPerYear * years` overflows the block number type. Success holds exactly when none applies, and a rejection changes nothing. On success the expiry block is the current block plus that product. The entry takes index old count + 1 (1 for a new bucket), a slot that was free. The bucket count becomes that index. The request becomes a membership carrying its renewal flag. |
| ClubProperties.CreateClubPreservesValid | pallets/club/src/lib.rs:288-295 | `create_club` keeps the invariants. In particular the clubs stay exactly the ids 1 ..< counter, announced in ascending order. |
| ClubProperties.TransferClubOwnershipPreservesValid | pallets/club/src/lib.rs:318-325 | `transfer_club_ownership` keeps the invariants. |
| ClubProperties.ChangeClubExpensePreservesValid | pallets/club/src/lib.rs:350-358 | `change_club_expense` keeps the invariants. |
| ClubProperties.ChargeAndRequestPreservesValid | pallets/club/src/lib.rs:406-420 | A new request for a key with neither a request nor a membership, and with no expired record unless it is a renewal, keeps the invariants. |
| ClubProperties.RequestMembershipPreservesValid | pallets/club/src/lib.rs:372-420 | `request_membership` keeps the invariants, including that at most one record exists per (account, club). |
| ClubProperties.RequestMembershipRenewalPreservesValid | pallets/club/src/lib.rs:434-485 | `request_membership_renewal` keeps the invariants: the expired record is replaced by the request. |
| ClubProperties.ScheduleIndexed | pallets/club/src/lib.rs:521-532 | Appending at old count + 1 and raising the counter keeps every entry inside its block's bucket. |
| ClubProperties.ScheduleDense | pallets/club/src/lib.rs:521-532 | Appending at old count + 1 and raising the counter to it keeps every slot 1 ..= count of every bucket filled. |
| ClubProperties.ScheduleLinked | pallets/club/src/lib.rs:521-538 | Scheduling a new member keeps two things: entries name distinct memberships, and the entries name exactly the memberships. |
| ClubProperties.ScheduleKeepsValid | pallets/club/src/lib.rs:521-544 | The writes of a successful admission keep every invariant. |
| ClubProperties.AddMemberPreservesValid | pallets/club/src/lib.rs:493-547 | `add_member` keeps the invariants. |
| ClubProperties.DrainFrame | pallets/club/src/lib.rs:222-245 | The hook's loop over indices i..=count writes none of these: the root, the fee, the counter, the clubs, the bucket counters, the requests. From the index it removes exactly the entries (n, i..=count). It adds no `ClubCreated` event. |
| ClubProperties.DrainPreserves | pallets/club/src/lib.rs:222-245 | The loop keeps the exclusivity of the three records, the club references and the entry/membership correspondence. |
| ClubProperties.ExpireLiveEntry | pallets/club/src/lib.rs:223-245 | On a live entry one iteration removes the entry and the membership it names, records that membership's details as expired, and deposits `MembershipExpired` for it. |
| ClubProperties.DrainExpiresDue | pallets/club/src/lib.rs:222-245 | Indices are visited in ascending order, and missing entries are skipped. The loop expires exactly the memberships named by entries (n, i..=count): each leaves the memberships and becomes an expired record with its details. One `MembershipExpired` per entry is appended, in index order. |
| ClubProperties.OnInitializePreservesValid | pallets/club/src/lib.rs:212-252 | The hook keeps every invariant. |
| ClubProperties.OnInitializeIndexed | pallets/club/src/lib.rs:214-245 | The hook removes block n's counter and every entry of block n, so each remaining entry still lies inside its block's bucket. |
| ClubProperties.OnInitializeDense | pallets/club/src/lib.rs:214-245 | The hook removes block n's counter together with the slots it covered, so every remaining bucket stays full. |
| ClubProperties.OnInitializeFrame | pallets/club/src/lib.rs:212-252 | Block n's counter is gone afterwards. Every entry of another block is untouched, and no entry is added. Clubs, counter and requests are unchanged. The reported count is the bucket's count, or 0 without a bucket. Without a bucket nothing changes. |
| ClubProperties.OnInitializeIdempotent | pallets/club/src/lib.rs:214-219 | Running the hook a second time for the same block reports 0 and changes nothing. |
| ClubProperties.OnInitializeExpiresBucket | pallets/club/src/lib.rs:212-245 | On a valid storage the hook leaves no entry of block n. It expires exactly the memberships those entries name, keeping each one's renewal flag. It appends their `MembershipExpired` events in index order. |
| ClubProperties.AdmittedMemberExpiresAtExpiryBlock | pallets/club/src/lib.rs:516-538 | Round trip: after an admission with expiry block b, the hook of block b run straight afterwards leaves an expired record carrying the request's renewal flag. Neither a membership nor a request for the pair is left, and `MembershipExpired` for it has been deposited. |
| ClubProperties.DueEntryExpires | pallets/club/src/lib.rs:212-245 | On a valid storage, the hook of block b honours each entry (b, i): the membership it names existed and becomes an expired record with the same details. No membership or request is left for that pair, and `MembershipExpired` for it is deposited. |
| ClubProperties.OtherBlockKeepsEntry | pallets/club/src/lib.rs:212-245 | The hook of a block n other than b leaves an entry (b, i) in place, and the membership it names unchanged. |
| ClubProperties.AdmissionSchedules | pallets/club/src/lib.rs:516-544 | A successful admission leaves a storage whose entry (expiry block, old count + 1) names the new member. The new membership carries the request's renewal flag. |
| ClubProperties.AddMemberKeepsEntry | pallets/club/src/lib.rs:521-544 | An admission keeps every existing entry and the membership it names: its own entry goes into a fresh slot, for a key that was requested and so was not a member. |
| ClubRuntime.DispatchKeepsEntry | pallets/club/src/lib.rs:260-547 | No dispatchable moves or drops an entry (b, i) of a valid storage, or changes the membership it names. |
| ClubRuntime.StepKeepsEntry | pallets/club/src/lib.rs:212-547 | Every step other than the hook of block b keeps an entry (b, i) and the membership it names. |
| ClubRuntime.RunKeepsEntry | pallets/club/src/lib.rs:212-547 | A feasible run containing no hook of block b keeps an entry (b, i) and the membership it names. |
| ClubRuntime.MemberExpiresAfterAnyRun | pallets/club/src/lib.rs:212-245 | After any feasible run without the hook of block b, the hook of b expires the member named by an entry (b, i). The expired record keeps the renewal flag, no membership or request is left for the pair, and `MembershipExpired` is deposited. |
| ClubRuntime.AdmittedMemberExpiresAfterAnyRun | pallets/club/src/lib.rs:212-547 | Round trip over any history: an admission with expiry block b, then any feasible run of calls and other blocks' hooks, then the hook of b. The result is an expired record carrying the request's renewal flag, no membership or request for the pair, and a `MembershipExpired` event. |
| ClubProperties.FullEvents | pallets/club/src/lib.rs:222-245 | Over slots (n, i) ..= (n, count) that all hold entries, the loop's events number exactly count + 1 - i. |
| ClubProperties.BucketIsLive | pallets/club/src/lib.rs:222-233 | On a valid storage every slot 1 ..= count of a bucket holds an entry naming an existing membership, so neither skip of the loop applies. |
| ClubProperties.ReportedCountIsWork | pallets/club/src/lib.rs:212-251 | On a valid storage the count the hook reports for its weight equals the number of `MembershipExpired` events it deposits. |
| ClubRuntime.ReachableHookReportsWork | pallets/club/src/lib.rs:212-251 | On every storage reachable from genesis: every slot of block n's bucket holds a live entry, and the hook's reported count equals the number of memberships it expires. |
| ClubStore.CreateClub | pallets/club/src/lib.rs:265-296 | A rejected call writes nothing. A successful one appends exactly one event after the earlier ones. It writes no membership and no expiry entry. |
| ClubStore.AddMember | pallets/club/src/lib.rs:498-546 | A rejected call writes nothing. A successful one appends exactly one event. |
| ClubStore.RequestMembership | pallets/club/src/lib.rs:371-422 | A rejected call writes nothing. A successful one appends exactly one event. It writes no membership and no expiry entry. |
| ClubStore.RequestMembershipRenewal | pallets/club/src/lib.rs:433-487 | A rejected call writes nothing. A successful one appends exactly one event. It writes no membership and no expiry entry. |
| ClubStore.TransferClubOwnership | pallets/club/src/lib.rs:307-327 | A rejected call writes nothing. A successful one appends exactly one event. It writes no membership and no expiry entry. |
| ClubStore.ChangeClubExpense | pallets/club/src/lib.rs:338-360 | A rejected call writes nothing. A successful one appends exactly one event. It writes no membership and no expiry entry. |
| ClubStore.ChargeAndRequest | pallets/club/src/lib.rs:389-420 | A failed charge writes nothing. A successful one appends exactly one event. It writes no membership and no expiry entry. |
| ClubStore.DrainFrom | pallets/club/src/lib.rs:222-245 | The loop only appends events, never adds an entry to the index, and leaves the clubs and the requests alone. |
| ClubRuntime.DispatchEffect | pallets/club/src/lib.rs:260-547 | For every dispatchable: a rejection leaves the whole storage unchanged, and a success deposits exactly one event. |
| ClubRuntime.DispatchPreservesValid | pallets/club/src/lib.rs:260-547 | Every dispatchable keeps the invariants. |
| ClubRuntime.StepPreservesValid | pallets/club/src/lib.rs:212-547 | A call or a hook invocation keeps the invariants and only appends events. |
| ClubRuntime.RunPreservesValid | pallets/club/src/lib.rs:212-547 | Any run of calls and hook invocations keeps the invariants and only appends events. |
| ClubRuntime.ClubIdsAssignedInOrder | pallets/club/src/lib.rs:278-295 | From genesis, the j-th `ClubCreated` event carries id j + 1. Every such club is registered, every registered club was announced, and the counter is one past the last id. |
| ClubPallet.Pallet.constructor | pallets/club/src/lib.rs:65-78 | The fields hold the genesis storage for the given root and fee, and the invariants hold. |
| ClubPallet.Pallet.CreateClub | pallets/club/src/lib.rs:260-297 | The method's result and new fields are exactly those of `ClubStore.CreateClub`, and the invariants are kept. |
| ClubPallet.Pallet.TransferClubOwnership | pallets/club/src/lib.rs:302-328 | Result and new fields as `ClubStore.TransferClubOwnership`; invariants kept. |
| ClubPallet.Pallet.ChangeClubExpense | pallets/club/src/lib.rs:333-361 | Result and new fields as `ClubStore.ChangeClubExpense`; invariants kept. |
| ClubPallet.Pallet.Charge | pallets/club/src/lib.rs:389-405 | It fails exactly when the shared charge fails, with the same error. On success the charge is `expense * years`, it fits the balance type, and the ledger accepted it. |
| ClubPallet.Pallet.RequestMembership | pallets/club/src/lib.rs:366-423 | Result and new fields as `ClubStore.RequestMembership`; invariants kept. |
| ClubPallet.Pallet.RequestMembershipRenewal | pallets/club/src/lib.rs:428-488 | Result and new fields as `ClubStore.RequestMembershipRenewal`; invariants kept. |
| ClubPallet.Pallet.Schedule | pallets/club/src/lib.rs:521-544 | The new fields are exactly `ClubStore.Schedule` of the old ones. |
| ClubPallet.Pallet.AddMember | pallets/club/src/lib.rs:493-547 | Result and new fields as `ClubStore.AddMember`; invariants kept. |
| ClubPallet.Pallet.ExpireEntry | pallets/club/src/lib.rs:223-245 | One loop iteration; the new fields are exactly `ClubStore.ExpireEntry` of the old ones. |
| ClubPallet.Pallet.OnInitialize | pallets/club/src/lib.rs:212-252 | The loop's new fields and reported count are exactly `ClubStore.OnInitialize`. The loop invariant ties the remaining iterations to `DrainFrom`. The invariants are kept. |
| ClubScenarios.ClubCreationScenario | pallets/club/src/tests.rs:10-34 | A caller other than the root gets `UserIsNotRoot`. A root that cannot pay gets `FundsUnavailable`, and the storage is unchanged. Otherwise the first club has id 1, the counter becomes 2 and `ClubCreated(1, 2, 100)` is deposited. |
| ClubScenarios.ChargeScenario | pallets/club/src/benchmarking.rs:106-114 | Five years at 100 cost 500. A charge beyond the `u128` range is an arithmetic overflow. |
| ClubScenarios.RequestScenario | pallets/club/src/tests.rs:91-150 | Two one-year requests in a club costing 100 record a charge of 100 each. |
| ClubScenarios.AdmissionScenario | pallets/club/src/tests.rs:141-193 | Two admissions at block 100 with 10 blocks per year share bucket 110, at indices 1 and 2. The bucket counts are 1 and then 2. |
| ClubScenarios.ExpiryScenario | pallets/club/src/lib.rs:212-252 | The hook of block 110 expires both members in index order and reports 2. No bucket and no entry is left afterwards. |

## Left out

- Origins: `ensure_signed` is replaced by an explicit caller account. An unsigned origin's `BadOrigin` is not modelled.
- The currency ledger's rules are not modelled: balances, keep-alive, minimum balance. Each transfer is a parameter giving the ledger's answer. The model does not track the pallet account's balance either; it is derived from a `PalletId`.
- Weights: `ClubPallet.Pallet.OnInitialize` and `ClubStore.OnInitialize` return the expiration count the weight function is applied to. The weight function itself is not modelled. Neither is the panic of `try_into().expect` when the count exceeds `u32`.
- Genesis: the constructor does not require a root account or a fee above the ledger's minimum balance, although the genesis build asserts both. Without the first assumption, `NoRootConfiguredAtGenesis` stays reachable, as it is for a chain built without this pallet's genesis configuration.
- ClubStore.CreateClub: `next_id + 1` is unchecked in the source. The precondition `CreateClubFits` asks for `nextClubId < MAX_U64` whenever the call reaches that addition (root caller, fee paid), instead of modelling a wrap-around or a panic.
- ClubStore.AddMember: the unchecked `current_block + offset` and `previous_expirations + 1` are covered by the precondition `AddMemberFits`, which bounds them only when every earlier check passes, instead of by an overflow outcome.
- The `MembershipRenewed` event and the `MemberNotFound` error are declared by the pallet and never produced. The model declares them and gives them no behaviour.
- Storage hashers, encoding, event transport, and FRAME's transactional rollback are not modelled. Every rejection in the source happens before the first write, so rollback would change nothing.
- Benchmarks and the mock runtime are not modelled. Their constants appear only in `ClubScenarios`.
