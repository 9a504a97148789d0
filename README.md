# Restaking engine of the Lyfebloc network

This project models, in Dafny, the two modules that put staking rewards back to work on the
Lyfebloc chain:

- `x/restaking` keeps one stored parameter, the auto-restake ratio. This is a decimal in
  [0, 1] that defaults to 0.25. At the end of every block its `EndBlocker` scans the block's
  `withdraw_rewards` events. For each one it computes the ratio's share of every withdrawn
  coin (truncated to an integer) and re-delegates the bond-denomination part of that share to
  the same validator.
- `x/blocrestake` is a message server with three messages. `Delegate` moves coins from the
  delegator's account to the bonded pool, then delegates them. `Undelegate` passes through to
  staking. `ClaimAndRestake` withdraws the pending rewards of one delegation, moves their
  bond-denomination amount to the bonded pool, delegates it to the same validator and emits a
  `claim_and_restake` event.

The bank, staking and distribution keepers are modelled after the in-memory mocks of the
message-server test. The staking mock additionally gets a set of operations that fail
(`faults`), so that every error branch of the core can be reached. The mock's `Delegate` and
`Undelegate` are recorded as call logs.

`LegacyDec` is modelled by its raw integer on the 10^18 scale, with `Mul` rounding half to
even and `TruncateInt` rounding toward zero. `sdk.Coins` is a sequence of coins, and a bank
balance is a map from denomination to amount. Bech32 address decoding and coin-string parsing
are opaque partial functions (`Coins.Codec`). The restaking keeper's store item is an
`Option` field whose `None` means "never set".

Behaviour of the source worth knowing:

- `Delegate` and `ClaimAndRestake` call staking's `Delegate` with the subtract-account flag set
  (`true`). `RestakeDelegate` does the same. The model records the flag in the
  call log.
- `AutoRestakeRewards` returns `nil` for zero rewards, for a zero ratio and when every share
  truncates to zero. The model writes this as `None`, which is distinct from an empty coin list.
- The staking mock keeps delegations per delegator; the validator is not part of the key.
  `Delegated(a)` is that per-delegator total.
- A `ClaimAndRestake` that fails after the withdrawal leaves the withdrawal in place. This
  includes a reward with no bond-denomination coin, which yields "no … rewards available to
  restake". Undoing the withdrawal is left to the transaction rollback around the handler,
  and that rollback is not part of this model. The contract of
  `BlocRestake.MsgServer.ClaimAndRestake` states the state as the handler leaves it.
- `EndBlocker` logs "auto-restake executed" even when the portion holds no bond-denomination
  coin. In that case `RestakeDelegate` returns `nil` without delegating anything; see
  `Restaking.StepExecutedWithoutBondDenom`.

## Model

| member | source | states |
|---|---|---|
| Types.DecimalStringRoundTrip | x/blocrestake/keeper/msg_server_claim_and_restake.go:66 | the decimal rendering of the restaked amount in the event reads back as the same number |
| LegacyDec.MulIntExact | x/restaking/keeper/keeper.go:79 | multiplying an integer-valued Dec by the ratio rounds nothing: the raw product is exact |
| LegacyDec.TruncateIntIsFloor | x/restaking/keeper/keeper.go:79 | for a non-negative Dec, `TruncateInt` is the largest integer not above it |
| Params.DefaultAutoRestakeRatioDec | x/restaking/types/params.go:10-15 | the default ratio is exactly one quarter of `LegacyOneDec` |
| Params.ValidateAutoRestakeRatio | x/restaking/types/params.go:17-22 | no error exactly when 0 <= r <= 1; otherwise the out-of-range error |
| Params.DefaultRatioIsValid | x/restaking/types/params.go:10-22 | the default ratio passes validation |
| Params.ValidationBoundaries | x/restaking/types/params.go:17-22 | 0 and 1 are accepted; the nearest raw values outside them, and -0.01 and 1.01, are rejected |
| Coins.AddCoin | x/restaking/keeper/keeper.go:81 | `Coins.Add` of one coin raises that denomination's amount by the coin's and leaves every other amount unchanged |
| Coins.AddCoinValid | x/restaking/keeper/keeper.go:80-81 | adding a positive coin keeps denominations distinct and amounts positive |
| Coins.IsZeroIffNoAmount | x/restaking/keeper/keeper.go:68 | `IsZero` holds exactly when every denomination's amount is zero |
| Coins.CoversIffEveryDenom | x/blocrestake/keeper/keeper_test.go:142-146 | a balance covers a valid coin list exactly when it holds at least each denomination's amount |
| Coins.Minus | x/blocrestake/keeper/keeper_test.go:147 | the subtracted balance plus the amount gives back the old balance, per denomination |
| Coins.Plus | x/blocrestake/keeper/keeper_test.go:150 | each denomination's amount is the old amount plus the added amount |
| Collaborators.HasFunds | x/blocrestake/keeper/keeper_test.go:142-146 | the per-coin loop finds no shortfall exactly when the balance covers the amount |
| Collaborators.Bank.constructor | x/blocrestake/keeper/keeper_test.go:114-119 | a new bank holds no account and no module balance |
| Collaborators.Bank.GetBalance | x/blocrestake/keeper/keeper_test.go:175-178 | the coin has the asked denomination and the account's amount of it; zero for an unknown account |
| Collaborators.Bank.SendCoinsFromAccountToModule | x/blocrestake/keeper/keeper_test.go:139-152 | succeeds exactly when the account covers the amount; on success the account loses and the module gains exactly the amount; on failure nothing changes and the error is insufficient funds |
| Collaborators.Bank.SendCoinsFromModuleToAccount | x/blocrestake/keeper/keeper_test.go:154-167 | succeeds exactly when the module covers the amount; the module loses and the account gains exactly the amount; on failure nothing changes |
| Collaborators.Bank.MintCoins | x/blocrestake/keeper/keeper_test.go:169-173 | the module's balance rises by the amount; accounts and other modules are unchanged |
| Collaborators.StakingState.GetValidator | x/blocrestake/keeper/keeper_test.go:200-206 | succeeds exactly for a registered validator and returns it; an unknown one gives `ErrNoValidatorFound` |
| Collaborators.StakingState.BondDenom | x/blocrestake/keeper/keeper_test.go:222-224 | returns the configured bond denomination |
| Collaborators.StakingState.Delegate | x/blocrestake/keeper/keeper_test.go:208-216 | the delegator's delegated total rises by the amount and nobody else's changes; shares equal the amount as a Dec; the call is logged |
| Collaborators.StakingState.Undelegate | x/blocrestake/keeper/keeper_test.go:218-220 | only the call log changes; no error unless injected |
| Collaborators.Staking.constructor | x/blocrestake/keeper/keeper_test.go:188-194 | no validators, no delegations, the given bond denomination |
| Collaborators.Staking.AddValidator | x/blocrestake/keeper/keeper_test.go:196-198 | registers the validator under its operator address and changes nothing else |
| Collaborators.Staking.Delegate | x/blocrestake/keeper/keeper_test.go:208-216 | the new state and result are those of `StakingState.Delegate` |
| Collaborators.Staking.Undelegate | x/blocrestake/keeper/keeper_test.go:218-220 | the new state and result are those of `StakingState.Undelegate` |
| Collaborators.Distribution.constructor | x/blocrestake/keeper/keeper_test.go:237-242 | no pending rewards; pays through the given bank |
| Collaborators.Distribution.SetRewards | x/blocrestake/keeper/keeper_test.go:248-250 | the pending rewards of the pair become the given coins |
| Collaborators.Distribution.WithdrawDelegationRewards | x/blocrestake/keeper/keeper_test.go:252-263 | a pair with no entry gives `ErrNoValidatorDistInfo` and changes nothing; otherwise the module pays the rewards to the delegator and the entry is deleted, or, if the module cannot pay, the bank error with nothing changed |
| RestakingKeeper.CoinPortion | x/restaking/keeper/keeper.go:79 | for a non-negative ratio the share equals `TruncateInt(Mul(FromInt(amount), ratio))`, i.e. floor(amount × ratio); within [0, amount] for a ratio in [0, 1] |
| RestakingKeeper.AccumulateAmountOf | x/restaking/keeper/keeper.go:77-83 | each denomination's accumulated amount is the start amount plus the sum of its positive shares |
| RestakingKeeper.AccumulateValid | x/restaking/keeper/keeper.go:77-83 | the accumulated coins stay valid |
| RestakingKeeper.AccumulateDenoms | x/restaking/keeper/keeper.go:77-83 | no denomination appears that was not in the rewards |
| RestakingKeeper.PortionSumValid | x/restaking/keeper/keeper.go:78-82 | for valid rewards the sum of shares of a denomination is that denomination's positive share |
| RestakingKeeper.PortionSumBounded | x/restaking/keeper/keeper.go:78-82 | the shares of a denomination never exceed its reward amount |
| RestakingKeeper.AccumulateCorrect | x/restaking/keeper/keeper.go:77-83 | each denomination of the restake equals floor(reward × ratio) |
| RestakingKeeper.AllPortionsZero | x/restaking/keeper/keeper.go:78-87 | every coin truncates to zero exactly when every denomination does |
| RestakingKeeper.AccumulateZeroIff | x/restaking/keeper/keeper.go:77-87 | the loop result is all zero exactly when every denomination's share truncates to zero |
| RestakingKeeper.RestakePortionCorrect | x/restaking/keeper/keeper.go:67-90 | `nil` exactly when every share truncates to zero; otherwise non-empty valid coins, each denomination floor(reward × ratio), never more than the reward, only denominations of the rewards |
| RestakingKeeper.RestakeDelegateEffect | x/restaking/keeper/autorestake.go:11-40 | a zero portion or one with no bond-denomination coin returns nil untouched; a bond-denomination or validator error is returned with nothing delegated; otherwise the state is exactly that after one Unbonded delegation of the bond-denomination amount, with the subtract flag set, to the given validator, and the error is nil exactly when that delegation does not fail |
| RestakingKeeper.Keeper.constructor | x/restaking/keeper/keeper.go:23-39 | the ratio item starts unset |
| RestakingKeeper.Keeper.GetAutoRestakeRatio | x/restaking/keeper/keeper.go:47-56 | an unset item yields the default 0.25; a valid keeper's ratio is in [0, 1] |
| RestakingKeeper.Keeper.SetAutoRestakeRatio | x/restaking/keeper/keeper.go:59-64 | the error is the validation's; on error the stored ratio is unchanged, otherwise it is the new ratio |
| RestakingKeeper.Keeper.AutoRestakeRewards | x/restaking/keeper/keeper.go:67-90 | the loop returns `RestakePortion` of the rewards and the current ratio |
| RestakingKeeper.Keeper.RestakeDelegate | x/restaking/keeper/autorestake.go:11-40 | the staking state and the error are those of `RestakeDelegateEffect` |
| Restaking.LastParsedSnoc | x/restaking/abci.go:23-41 | one more attribute keeps "the value of the last attribute of this key that decodes" |
| Restaking.ScanIsLastParsed | x/restaking/abci.go:23-41 | delegator, validator and rewards are each the last decodable attribute of their key, or absent if none decodes |
| Restaking.RestakedTransitive | x/restaking/abci.go:12-58 | the restake relation composes across events |
| Restaking.StepRestakes | x/restaking/abci.go:13-15 | any other event type is skipped untouched; a withdrawal changes staking only by restaking, with at most one delegation |
| Restaking.Step | x/restaking/abci.go:13-57 | one event's handling: a result without a log line leaves the staking state as it was |
| Restaking.StepSkipsIncomplete | x/restaking/abci.go:43-45 | a withdrawal event missing its delegator, validator or rewards, or with empty rewards, changes nothing and logs nothing |
| Restaking.StepLogsFailure | x/restaking/abci.go:52-55 | when the restaking delegation fails with an error, the step keeps the state the failed call left and logs a failure naming the delegator, validator and that error |
| Restaking.StepLogNamesEvent | x/restaking/abci.go:52-57 | a log line only comes from a reward-withdrawal event and names the delegator and validator read from that event |
| Restaking.HarvestSnoc | x/restaking/abci.go:12 | processing one more event continues from the state the previous events left |
| Restaking.FoldSteps | x/restaking/abci.go:12-58 | the loop over a block's events as a left fold through any per-event step; it logs at most one line per event |
| Restaking.FoldStepsAppend | x/restaking/abci.go:12-58 | folding two event lists in turn equals folding their concatenation, for any step |
| Restaking.HarvestIsFold | x/restaking/abci.go:12-58 | `Harvest` is that fold through `Step` |
| Restaking.HarvestAppend | x/restaking/abci.go:12-58 | processing two event lists in turn equals processing their concatenation |
| Restaking.HarvestIgnoresOtherEvents | x/restaking/abci.go:13-15 | a block without withdrawal events changes nothing and logs nothing |
| Restaking.HarvestZeroRatio | x/restaking/abci.go:47-50 | with ratio zero nothing is restaked and nothing logged |
| Restaking.HarvestRestakes | x/restaking/abci.go:10-59 | staking changes only by positive Unbonded delegations to registered validators; delegated totals never fall; at most one delegation and one log line per event |
| Restaking.StepRestakesPortion | x/restaking/abci.go:43-57 | with no failures and a registered validator, the delegator's total rises by floor(bond-denomination reward × ratio) and nobody else's changes; a log line appears exactly when some share is positive, and it says executed |
| Restaking.StepExecutedWithoutBondDenom | x/restaking/abci.go:52-57 | a portion without bond-denomination coins changes nothing but is logged as executed |
| Restaking.ReadAttributes | x/restaking/abci.go:23-41 | the attribute loop yields `Scan` of the attributes |
| Restaking.EndBlocker | x/restaking/abci.go:10-59 | the new staking state and the log are `Harvest` of the block's events with the keeper's ratio; each event is handled by `RestakeEvent` |
| Restaking.HarvestNext | x/restaking/abci.go:12-58 | one more pass of the loop extends the state and log of the events handled so far by exactly one `Step` |
| Restaking.RestakeEvent | x/restaking/abci.go:13-57 | the keeper's new staking state and the returned log line are `Step` of the event with the keeper's ratio |
| BlocRestake.ParseAddresses | x/blocrestake/keeper/msg_server_delegate.go:17-25 | succeeds exactly when both addresses decode; a bad delegator gives "invalid delegator address", and every failure is an `ErrInvalidAddress` |
| BlocRestake.LookupValidator | x/blocrestake/keeper/msg_server_delegate.go:31-37 | succeeds exactly for a known validator; an unknown one gives `ErrValidatorNotFound` unwrapped |
| BlocRestake.ClaimAndRestakeEvent | x/blocrestake/keeper/msg_server_claim_and_restake.go:61-68 | a `claim_and_restake` event with the message's delegator and validator and the amount in decimal |
| BlocRestake.MsgServer.constructor | x/blocrestake/keeper/keeper_test.go:44-63 | the server uses the given keepers; the distribution pays through the same bank |
| BlocRestake.MsgServer.Delegate | x/blocrestake/keeper/msg_server_delegate.go:16-59 | a failed check (address, zero amount, validator, bond denomination) changes nothing; a short account gives "bank transfer failed" and changes nothing; otherwise the amount moves to the bonded pool and one Unbonded delegation is made, whose failure is "staking delegate failed" |
| BlocRestake.MsgServer.Undelegate | x/blocrestake/keeper/msg_server_delegate.go:61-89 | bad addresses or a zero amount change nothing; otherwise exactly one undelegation of shares equal to the amount, whose failure is "undelegate failed" |
| BlocRestake.DelegatePrecheck | x/blocrestake/keeper/msg_server_delegate.go:17-47 | success only with parsed addresses, a positive amount, a registered validator and an available bond denomination, returning that account, validator and denomination; a bond-denomination fault gives "failed to fetch bond denom" |
| BlocRestake.DelegatePrecheckErrors | x/blocrestake/keeper/msg_server_delegate.go:17-47 | a bad address is an invalid-address error, a non-positive amount "amount must be positive", an unknown validator (with a working lookup) not-found; with no staking faults, success exactly when the addresses parse, the amount is positive and the validator is registered |
| BlocRestake.ClaimPrecheck | x/blocrestake/keeper/msg_server_claim_and_restake.go:18-34 | success exactly when both addresses parse and the validator is found, returning them with the validator; a bad address is invalid-address, an unknown validator not-found, a lookup fault "failed to fetch validator" |
| BlocRestake.MsgServer.ClaimAndRestake | x/blocrestake/keeper/msg_server_claim_and_restake.go:15-71 | a failed check changes nothing; a missing reward entry or an unpaying module gives "failed to withdraw rewards" and changes nothing; otherwise the rewards reach the account and the entry is deleted; then a zero bond-denomination reward is insufficient funds; otherwise exactly that amount moves to the bonded pool, is delegated to the same validator, and is announced by one event only on success |
| BlocRestake.MsgServer.RestakeWithdrawn | x/blocrestake/keeper/msg_server_claim_and_restake.go:42-68 | a bond-denomination error or a zero bond-denomination reward changes nothing; otherwise exactly the reward's bond-denomination amount leaves the account for the bonded pool, one Unbonded delegation of it is made, and the event is emitted only if that succeeds |
| Scenarios.HasEventOfKind | x/blocrestake/keeper/keeper_test.go:94-102 | found exactly when some event has the type |
| Scenarios.ClaimAndRestakeScenario | x/blocrestake/keeper/keeper_test.go:36-103 | 100000 ulbt of rewards are fully re-delegated; the account ends at zero and the event was emitted |
| Scenarios.WithdrawEventScan | x/restaking/abci.go:23-41 | the sample withdrawal event decodes to its delegator, validator and 1000ulbt |
| Scenarios.QuarterOfThousand | x/restaking/keeper/keeper.go:67-90 | at the default ratio, 1000ulbt yields a 250ulbt portion |
| Scenarios.ScenarioBlockHarvest | x/restaking/abci.go:10-59 | a block with an unrelated event and the withdrawal restakes 250 and logs it once |
| Scenarios.EndBlockerScenario | x/restaking/abci.go:10-59 | the end-of-block hook restakes 250 at the default ratio; after the ratio is set to zero the next block restakes nothing |

## Left out

- The `x/restake` module, application wiring, CLI, simulation, genesis and gRPC queries are not part of this model.
- Bech32 decoding and `ParseCoinsNormalized` are opaque partial functions supplied as a `Codec`. Their own error text, which `Delegate` and `Undelegate` format into the wrap message, is dropped; the wrap keeps only its fixed prefix.
- Coins are not sorted by denomination. `Coins.Add` is modelled as an update of the matching entry or an append. Every contract states amounts per denomination, so the order does not matter to it.
- `math.Int` is unbounded here. Its 256-bit overflow panic is not modelled.
- The store's panic on any error other than "not found" (keeper.go:53), and the schema build panic (keeper.go:33-35), are not modelled. The store is an in-memory field.
- The transaction rollback that undoes a failed message handler is not part of this model. Each handler's contract describes the state the handler itself leaves behind.
- `ctx.Logger()` output is modelled as returned `LogEntry` values rather than text lines.
- The `!amount.IsPositive()` re-check in `Delegate` and `Undelegate` is unreachable after the zero check on a `uint64`, so it is omitted.
- The mock bank's `ensureAccount`/`ensureModule` insert empty entries that no reader can tell apart from absent ones. They are not modelled.
- The subtract-account flag is recorded but does not change the staking state. The mock ignores it, so a real double debit is not modelled.
- The event-type and attribute-key strings of the distribution module and of `x/blocrestake/types` are not part of the source modelled. The model uses their published values ("withdraw_rewards", "delegator", "validator", "amount", "claim_and_restake").
- Injected staking failures (`faults`) and the call logs are extensions of the test mocks, added so that the error paths of the core can be stated.
- Collaborators.Bank.SendCoinsFromAccountToModule: requires valid coins (distinct denominations, positive amounts) instead of handling arbitrary `sdk.Coins`, because every caller passes `sdk.NewCoins` of one positive coin.
- Collaborators.Bank.SendCoinsFromModuleToAccount: requires valid coins for the same reason; the rewards it pays are set through `SetRewards`, which requires them valid.
- Collaborators.Distribution.SetRewards: requires valid coins, as `sdk.NewCoins` guarantees at the only call site.
- RestakingKeeper.Keeper.SetAutoRestakeRatio: requires the keeper's stored ratio to be valid, which holds because the ratio is only ever stored through this method.
- BlocRestake.MsgServer.ClaimAndRestake: requires the distribution keeper to pay through the server's own bank, as the test wires it.
- BlocRestake.MsgServer.RestakeWithdrawn: requires the account to hold the bond-denomination reward, which its only caller has just paid in. The "bank transfer failed" branch at msg_server_claim_and_restake.go:53-55 is therefore unreachable in this model.
