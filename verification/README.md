# ViTrader data layer in Dafny

A model of the data layer of the ViTrader trading server: user accounts,
the position ledger, trade settlement, strategies with their triggers, and
the validation of the records the API receives.

The relational store is an immutable value, `Store.Store`. It holds one
sequence of rows per table and a fresh-id counter standing for
`LAST_INSERT_ID()`. Each operation is a function from a store to an
`Outcome`: the store after the call together with the value returned or the
exception thrown.

- **Rollback.** An operation that throws returns the store it was given
  (`Store.Abort`, `Store.Settle`). This is how a rolled-back transaction
  behaves.
- **Errors.** The exception types become the `Errors.Error` constructors
  `BadRequest`, `NotFound`, `Unauthorized` and `InternalServerError`. Each
  carries the source's message. A dereference of a missing row and a
  division by zero become `InternalServerError` with the runtime's message.
- **Positions as balances.** `Ledger.Balances` maps each (user, crypto) pair
  to its amount. The settlement lemmas describe a BUY or SELL as an edit of
  that map.
- **Well-formed table.** `Settlement.LedgerReady` means one row per pair,
  unique row ids, and every id below the counter. The lemmas prove that each
  trade keeps the table well formed.
- **Base currency.** It is the crypto named `Tether`. Every user starts with
  1000 of it.
- **Aliasing.** A trade in Tether itself reads the same in-memory position
  object as both the base row and the target row. The model carries this as
  the `aliased` flag, and the `*Tether*` lemmas state what follows from it.

The external inputs are parameters:

- the spot price of a crypto (a `Result<real>`, since the lookup can fail);
- the password hash function;
- the salt;
- the decryption of a verification link;
- the outcome of sending the verification mail;
- the current time.

## Where the code and its evident intent differ

The model follows the code in each case.

- **SELL dust check.** The SELL closes the target position when the **base
  currency** balance, less the quantity of the target crypto sold, falls
  under 2. The evident rule is that a position is closed when what remains
  of the **target holding** is under 2, so that a near-empty position
  disappears. `Trades.Sell` and `Trades.CreateTrade` do what the code does.
  `Trades.SellIntended` follows the evident rule. See "Findings".
- **Position amount limit.** The position validator refuses amounts above
  10000, although its message says 100000.
- **Id checks.** The id checks written `is not 0 and < 1` refuse negative
  ids only. The same holds for the status id, whose message says "greater
  than 0": a status id of 0 passes.
- **Rename.** `UpdateUser` refuses a username that any account holds,
  including the account's own current name.
- **Trade bounds.** `CreateTrade` itself enforces only the lower bound of 10.
  The upper bound of 100000 is checked by the trade validator.
- **Trade types.** A trade whose type is neither BUY nor SELL is still
  recorded, and it leaves every position as it was.

## Model

| member | source | states |
|---|---|---|
| Validation.FirstViolation | DTOs/TradeDTO.cs:28-44 | A validator reports nothing exactly when every check passes. Otherwise it reports the message of a check that fails. |
| Validation.FirstViolationAt | DTOs/UserDTO.cs:31-47 | The check reported is the first failing one in declaration order. |
| TradeDto.Validate | DTOs/TradeDTO.cs:28-44 | A trade passes exactly when every id is non-negative and the amount lies in [10, 100000]. On success the record comes back unchanged. Otherwise the first failing check's message is thrown. |
| TradeDto.AmountBoundaries | DTOs/TradeDTO.cs:39-40 | 10 and 100000 pass. 9.99 and 100000.01 are refused with the amount message. |
| PositionDto.Validate | DTOs/PositionDTO.cs:21-37 | A position passes exactly when every id is non-negative and the amount lies in [0, 10000]. The checks run in order. |
| PositionDto.AmountBoundaries | DTOs/PositionDTO.cs:32-36 | 0 and 10000 pass. -0.01 is refused as negative. 10000.01 is refused with the message that names 100000. |
| UserDto.Validate | DTOs/UserDTO.cs:31-47 | A user passes exactly when the id and status id are non-negative and each present username, password and email has a length in 5-15, 7-25 and 10-30. Absent fields are not checked. |
| StrategyDto.Validate | DTOs/StrategyDTO.cs:22-32 | A strategy passes exactly when its ids are non-negative and a present name has 5-20 characters. |
| StrategyDto.TriggersNotInspected | DTOs/StrategyDTO.cs:22-32 | The verdict does not depend on the trigger list. |
| Ledger.BalancesAppend | Database.cs:437-438 | Inserting a position row sets the balance of its pair to the row's amount. |
| Ledger.BalancesUpdate | Database.cs:482-483 | With one row per pair, updating a row's amount overwrites that pair's balance and no other. |
| Ledger.BalancesRemove | Database.cs:508 | With one row per pair, deleting a row removes that pair's balance and no other. |
| Ledger.HoldingIsBalance | Database.cs:536-539 | The user's position for a crypto is found exactly when the pair has a balance, and the balance is that row's amount. |
| Ledger.EditRow | Database.cs:482-483 | The update aimed at one row keeps the table well formed and overwrites the balance of that row's pair. |
| Ledger.AppendRow | Database.cs:437-440 | Inserting a row under the counter's id, for a pair without a balance, keeps the table well formed and adds the pair's balance. |
| Ledger.RemoveRow | Database.cs:508 | The delete aimed at one row keeps the table well formed and removes the balance of that row's pair. |
| Positions.GetPosition | Database.cs:456-467 | Returns row (id, userId) when it exists. Otherwise throws NotFound with the position message. |
| Positions.GetPositions | Database.cs:469-476 | Returns every row of the user and only rows of the user. |
| Positions.CreatePositionTx | Database.cs:427-443 | An unknown crypto throws NotFound. An existing (user, crypto) row is refused with "Position already exists…". Otherwise the insert succeeds. |
| Positions.CreateAppendsRow | Database.cs:437-442 | A successful insert appends exactly one row with a fresh id and the given amount, advances the counter, and changes nothing else. |
| Positions.CreateAddsBalance | Database.cs:427-443 | An insert adds the balance of a pair that had none and keeps one row per pair. |
| Positions.UpdatePositionTx | Database.cs:478-486 | Fails with NotFound exactly when row (id, userId) is missing. |
| Positions.UpdateEditsRow | Database.cs:482-483 | A successful update rewrites the amount of the selected rows only. Ids, owners, cryptos and every other table are unchanged. |
| Positions.UpdateSetsBalance | Database.cs:478-486 | An update sets the balance of the updated row's pair and keeps the table's keys and ids unique. |
| Positions.UpdatePosition | Database.cs:488-498 | Throws NotFound exactly when the row is missing, and then nothing is written. Otherwise the store is that of the transactional update, so `Positions.UpdateEditsRow` and `Positions.UpdateSetsBalance` apply: only that row's amount changes. The returned row has the requested amount and is in the table. |
| Positions.DeletePositionTx | Database.cs:500-509 | A missing row throws NotFound, and an unknown crypto throws NotFound. A row in the base currency is refused with "Can't delete that position.". An existing row in any other known crypto is deleted, and a delete succeeds only then. |
| Positions.DeleteRemovesRow | Database.cs:508 | A successful delete removes exactly the selected rows and keeps every other row and table. |
| Positions.DeleteDropsBalance | Database.cs:500-509 | A delete removes the balance of the deleted row's pair and no other. |
| Positions.DeletePosition | Database.cs:511-522 | Succeeds exactly when the transactional delete would, with the same resulting store. A refused delete writes nothing. |
| Trades.Buy | Database.cs:575-600 | Throws in this order: no base row gives a null reference, a base balance under the amount gives "Not enough USD.", and a zero price gives a division by zero. Otherwise the BUY legs run with `amount / price`. |
| Trades.BuyLegs | Database.cs:582-599 | The BUY legs touch only the position table, and the counter never goes back. |
| Trades.Sell | Database.cs:602-621 | Refuses with "Can't sell more than you own." when there is no target row or it holds less than `amount / price`. A zero price is a division by zero. Otherwise the SELL legs run. |
| Trades.SellLegs | Database.cs:609-620 | The SELL legs touch only the position table. |
| Trades.CloseLegs | Database.cs:609-620 | Deleting the target row and crediting the base row touch only the position table. |
| Trades.ReduceLegs | Database.cs:613-620 | Debiting the target row and crediting the base row touch only the position table. |
| Trades.SellIntended | Database.cs:602-621 | The corrected SELL: the same checks and error cases as `Trades.Sell`, followed by the corrected legs. |
| Trades.SellLegsIntended | Database.cs:609-617 | The corrected SELL legs touch only the position table. |
| Trades.Legs | Database.cs:548-555 | The legs of any trade type leave users, trades, strategies, triggers and cryptos alone. |
| Trades.CreateTrade | Database.cs:528-573 | An amount under 10 and an unknown user are refused before anything is written. Without a Tether crypto, a user who has positions gets a null reference, because the position search dereferences the missing crypto. Any failure rolls everything back. Success requires every lookup and the price to succeed. It appends one trade row carrying the user, crypto, amount, type and time under a fresh id, and changes no other table than positions. |
| Trades.GetTrade | Database.cs:623-634 | Returns trade (id, userId) when it exists. Otherwise throws NotFound. |
| Trades.GetTrades | Database.cs:636-643 | Returns every trade of the user and only those. |
| Trades.DeleteTrade | Database.cs:645-652 | Throws NotFound exactly when the trade is missing. Otherwise it removes exactly that trade row and touches no position. |
| Settlement.HoldingIsHeld | Database.cs:536-539 | In a well-formed table a user's position for a crypto is found exactly when the pair has a balance. |
| Settlement.BuyNewRowStatements | Database.cs:582-599 | A BUY of a crypto without a row inserts a row holding `amount / price`, then debits the base row. |
| Settlement.BuyHeldRowStatements | Database.cs:592-599 | A BUY of a held crypto credits its row with `amount / price`, then debits the base row. |
| Settlement.BuyIntoNewRow | Database.cs:582-599 | A BUY into a new row keeps the table well formed and gives the new pair `amount / price`. |
| Settlement.BuyIntoHeldRow | Database.cs:592-599 | A BUY into a held row keeps the table well formed and moves the two balances. |
| Settlement.BuySettles | Database.cs:575-600 | A BUY succeeds exactly when the base balance covers the amount. The base balance then falls by the amount, and the target balance (zero when absent) rises by `amount / price`. Otherwise "Not enough USD." is thrown. |
| Settlement.CloseLegsStatements | Database.cs:609-620 | The closing legs delete the target row, then credit the base row with the amount. |
| Settlement.ReduceLegsStatements | Database.cs:613-620 | The reducing legs debit the target row with the quantity sold, then credit the base row. |
| Settlement.SellClosingRow | Database.cs:609-611 | A SELL whose base balance less the quantity sold is under 2 removes the target pair's balance and credits the base balance. |
| Settlement.SellKeepingRow | Database.cs:613-617 | A SELL otherwise debits the target balance by the quantity sold and credits the base balance. |
| Settlement.SellSettles | Database.cs:602-621 | A SELL succeeds exactly when the target balance covers `amount / price`. The base balance then rises by the amount, and the target pair is removed when the base balance less the quantity sold is under 2; otherwise it is debited. Otherwise "Can't sell more than you own." is thrown. |
| Settlement.SellIntendedClosingRow | Database.cs:609-611 | The corrected SELL removes the target pair when the target balance less the quantity sold is under 2. |
| Settlement.SellIntendedKeepingRow | Database.cs:613-617 | The corrected SELL otherwise debits the target balance by the quantity sold. |
| Settlement.SellIntendedSettles | Database.cs:602-621 | The corrected SELL conserves value: the crypto balance afterwards is the old one less the quantity sold, or the pair is gone when that remainder is under 2. The base balance rises by the amount. |
| Settlement.SellClosesUnsoldHolding | Database.cs:609 | The SELL as written deletes a holding of which 2 or more would remain whenever the base balance is low. The corrected SELL keeps that holding, less the quantity sold. |
| Settlement.BuyTetherStatements | Database.cs:594-599 | A BUY of Tether with Tether writes the one row twice: first credited with `amount / price`, then debited with the amount. |
| Settlement.BuyTetherSettles | Database.cs:575-600 | A BUY of Tether succeeds exactly when the balance covers the amount. Then that one balance moves by `amount / price - amount`. |
| Settlement.SellTetherStatements | Database.cs:615-620 | A SELL of Tether for Tether that keeps the row writes it twice: debited, then credited. |
| Settlement.SellTetherRefused | Database.cs:609-611 | A SELL of Tether that would leave under 2 tries to delete the base row, which the delete refuses with "Can't delete that position.". |
| Settlement.SellTetherSettles | Database.cs:602-621 | A SELL of Tether is refused when the balance does not cover `amount / price`, and refused by the delete when under 2 would remain. Otherwise the one balance moves by `amount - amount / price`. |
| Trading.TradeRunsLegs | Database.cs:528-573 | Once the lookups succeed, a trade succeeds exactly when its legs do. A failing leg rolls back everything. A succeeding one is followed by the insert of the trade row. |
| Trading.TradeBuySettles | Database.cs:528-600 | `CreateTrade` of a BUY succeeds exactly when the base balance covers the amount. Nothing is written otherwise. On success the two balances move, the trade row is appended and the table stays well formed. |
| Trading.TradeSellSettles | Database.cs:528-621 | `CreateTrade` of a SELL succeeds exactly when the holding covers `amount / price`. On success the balances move as `Settlement.SellSettles` states, and the trade row is appended. |
| Trading.TradeBuyTetherSettles | Database.cs:535-600 | `CreateTrade` of a BUY of Tether moves the one Tether balance by `amount / price - amount`, or is refused with nothing written. |
| Trading.TradeSellTetherSettles | Database.cs:535-621 | `CreateTrade` of a SELL of Tether succeeds exactly when 2 or more would remain, and then moves the one balance. |
| Trading.TradeOtherType | Database.cs:548-558 | A trade of any other type is recorded under a fresh id and changes nothing else. |
| Trading.TradeWithoutBaseCurrency | Database.cs:535-558 | Without a Tether crypto and with no position of the user, both position searches come back empty without failing. A BUY then fails with a null reference on the missing base row (line 578). A SELL is refused with "Can't sell more than you own." (line 605). A trade of another type is recorded. |
| Trading.RepeatedTradeRecordedTwice | Database.cs:557-558 | The same trade placed twice yields two trade rows with increasing ids. Trades are not deduplicated. |
| Strategies.GetStrategy | Database.cs:722-736 | Returns strategy (id, userId) when it exists. Otherwise throws NotFound. |
| Strategies.CreateTriggerTx | Database.cs:830-847 | An unknown indicator throws NotFound, then an unknown trigger type throws NotFound. Then a second trigger on the same indicator of a strategy is refused with the duplicate-trigger message. Success happens exactly when none of these applies, and then exactly one row is appended under a fresh id. |
| Strategies.TriggerForAppend | Database.cs:835-842 | After an insert, a (strategy, indicator) pair is free exactly when it was free before and is not the pair just inserted. |
| Strategies.CreateTriggersTx | Database.cs:702-706 | On success the triggers are appended in request order under consecutive ids, and nothing else changes. |
| Strategies.CreateTriggersAdmissible | Database.cs:775-779 | The trigger loop succeeds exactly when the list is admissible. Admissible means known indicators and trigger types, no repeated indicator, and none already used by the strategy. |
| Strategies.AdmissibleStep | Database.cs:830-842 | A list is admissible exactly when its tail is admissible once its head is stored. |
| Strategies.CreateStrategy | Database.cs:679-720 | An unknown user throws NotFound and a taken name "Name already exists.". Success requires admissible triggers. It appends the strategy and its triggers, and a rejected trigger rolls back the strategy row. |
| Strategies.UpdateStrategy | Database.cs:752-793 | A missing strategy throws NotFound. A name held by another strategy is refused. Success happens exactly when the strategy exists, its new name is free or its own, and the new triggers are admissible once its old triggers are gone. On success the strategy is renamed and its trigger set is replaced by the requested one. Users, positions and trades are untouched. |
| Strategies.DeleteStrategyTx | Database.cs:819-824 | Throws NotFound exactly when the strategy is missing. Otherwise it removes the strategy row and every trigger of that strategy. |
| Strategies.DeleteStrategy | Database.cs:795-817 | On success no trigger of the strategy and no row (id, userId) remain. The store is exactly that of the transactional delete, so every other strategy, trigger and table is untouched. On failure nothing is written. |
| Strategies.UpdateKeepsOwnName | Database.cs:757-767 | With names unique, a strategy may keep its own name. The update then succeeds exactly when the new triggers are admissible, and always succeeds with no triggers. |
| Strategies.InstantiateUnique | Database.cs:835-842 | Storing an admissible trigger list keeps at most one trigger per (strategy, indicator). |
| Strategies.AppendStrategyReady | Database.cs:684-706 | A strategy inserted under a fresh id with a free name, followed by an admissible trigger list, keeps names unique, ids unique and one trigger per (strategy, indicator). |
| Strategies.CreateKeepsStrategiesReady | Database.cs:679-720 | Every call of CreateStrategy, successful or not, keeps names unique, ids unique and below the counter, and one trigger per (strategy, indicator). |
| Strategies.RenameKeepsUnique | Database.cs:757-772 | With ids unique, renaming a strategy to a name that is free or its own keeps names and ids unique. |
| Strategies.ReplaceStrategyReady | Database.cs:757-779 | Renaming a strategy as the name check allows and replacing its triggers by an admissible list keeps the strategy tables well formed. |
| Strategies.UpdateKeepsStrategiesReady | Database.cs:752-793 | Every call of UpdateStrategy keeps names unique, ids unique and below the counter, and one trigger per (strategy, indicator). |
| Strategies.DeleteKeepsStrategiesReady | Database.cs:795-824 | Every call of DeleteStrategy keeps the same three properties, since it only removes rows. |
| Strategies.DeleteStrategiesTx | Database.cs:368-372 | Deleting a list of strategies one by one succeeds exactly when each is found. It removes all of them and all their triggers. |
| Strategies.DeleteStrategiesStep | Database.cs:368-372 | Deleting the first strategy, then the rest, is deleting the whole list. |
| Users.CreateUser | Database.cs:174-233 | A taken username, then a taken e-mail, is refused before anything is written. A missing Tether crypto or a failed mail rolls back. On success one account (status 1, salted hash) and one Tether position of 1000 are added, and the account is returned without hash or salt. |
| Users.GetUser | Database.cs:265-275 | Returns account `id` when it exists. Otherwise throws NotFound. |
| Users.VerifyUserAuthentication | Database.cs:298-324 | An unknown username throws NotFound. A login is accepted only for an account whose stored hash matches the salted password and whose status is not UNVERIFIED. |
| Users.LoginIffCredentials | Database.cs:298-324 | With unique usernames, login succeeds exactly when the salted hash matches and the status is known and not UNVERIFIED. A wrong password gives "Incorrect credentials.". |
| Users.ValidateUser | Database.cs:326-355 | A cipher failure is "Invalid link.". An unknown user is NotFound. An account that is not UNVERIFIED is refused. Success requires an UNVERIFIED account and sets exactly that account's status to VERIFIED. |
| Users.UpdateUser | Database.cs:277-296 | An unknown id is NotFound. Any taken username is refused. On success only the account's name changes, and it is returned without hash or salt. |
| Users.RenameToOwnNameRefused | Database.cs:282-289 | Renaming an account to its current name is refused with "Username already exists.". |
| Users.DeleteUser | Database.cs:357-387 | An unknown id is NotFound. Otherwise the account is removed together with its positions, its trades, its strategies and their triggers. |
| Users.OwnedStrategiesExist | Database.cs:368-372 | Each strategy listed for the user passes the existence check of its deletion. |
| Users.OwnedStrategiesAreAll | Database.cs:368-372 | Deleting the listed strategies deletes every strategy the user owns. |
| Users.VerifiedStatusIsVerified | Database.cs:348 | With unique status ids, the status VERIFIED accounts are given looks up as VERIFIED. |
| Users.Registered | Database.cs:199-209 | Registration appends the account as the last row, where the lookup by its username finds it. |
| Users.NewAccountIsUnverified | Database.cs:298-324 | A freshly registered account cannot log in with its own password until verified. A wrong password is refused as incorrect credentials. |
| Users.ValidatedRow | Database.cs:348-352 | Verification changes the status of the named account and no username or password. |
| Users.ValidateThenLogin | Database.cs:326-355 | Verifying an UNVERIFIED account lets its password log in. |
| Users.RegisterValidateLogin | Database.cs:174-355 | Register, follow the verification link, log in with the registered password: the login succeeds. |
| Users.ValidateTwiceFails | Database.cs:343-346 | Using a verification link a second time is refused with "Only unverified users can be verified.". |

## Left out

- The HTTP server (`Server.cs`), routing and XML serialization are not part of this model. Neither are the read-only listings `GetStatuses`, `GetCryptos`, `GetTradeTypes`, `GetIndicators` and `GetTriggerTypes`. The model uses them only as lookups.
- Connections and concurrency: calls are atomic and never interleave. The existence checks that the source makes on a separate connection read the committed store. `Strategies.DeleteStrategiesTx` models this explicitly. For the trade legs the committed and working answers coincide.
- The insert of a new user runs on the transaction's connection. The model treats it as part of the transaction, so a rollback removes it.
- Auto-increment ids: one counter serves all tables. Ids are fresh and increasing, but not consecutive per table.
- `decimal` arithmetic is modelled as exact real arithmetic: no 28-digit rounding and no overflow. Only the division by zero is modelled.
- `int` ids and `(int)` casts of `LAST_INSERT_ID()` are unbounded integers, with no 32-bit wrap-around.
- String lengths are sequence lengths. C# counts UTF-16 code units.
- String comparison is exact. MySQL's default collation compares usernames, e-mails and names case-insensitively, and the model does not.
- SHA-256 hashing, salt generation, AES decryption, sending mail, the price lookup and the clock are not modelled. They are parameters.
- Users.CreateUser, Users.UpdateUser, Strategies.CreateStrategy and Strategies.UpdateStrategy take the username, e-mail and strategy name as strings, so an absent field cannot be passed. The record validators let an absent field through, and the server passes the record on unchanged. A lookup `where name = NULL` selects no row, so the uniqueness check passes and the statement writes NULL. Whether that write succeeds depends on a NOT NULL constraint in the table schema. The schema is not part of this model, so the model does not choose between the two outcomes.
- `Strategies.CreateStrategy` and `Strategies.UpdateStrategy` return the strategy row without its trigger list. The triggers are the store's rows with that strategy id.
- Trades.BuyLegs: the contract states only that the legs write nothing but positions. What they do to the balances is stated by Settlement.BuySettles.
- Trades.SellLegs: the contract states only that the legs write nothing but positions. Settlement.SellSettles states their effect.
- Trades.CloseLegs: the contract states only that the legs write nothing but positions. Settlement.CloseLegsStatements states their effect.
- Trades.ReduceLegs: the contract states only that the legs write nothing but positions. Settlement.ReduceLegsStatements states their effect.
- Trades.SellLegsIntended: the contract states only that the legs write nothing but positions. Settlement.SellIntendedSettles states their effect.
- Trades.Legs: the contract states only the frame. The `Trading` lemmas state the effect of each trade type.
- Settlement.BuySettles, Settlement.SellSettles and the `Trading` settlement lemmas require a well-formed position table: one row per (user, crypto) pair, unique ids, and ids below the counter. The source relies on this without checking it.

## Findings

| source | as written | input that shows it | evidently intended | confidence | as-written member | corrected member |
|---|---|---|---|---|---|---|
| Database.cs:609 | the SELL deletes the target position when the user's Tether balance less the quantity sold is under 2 | Tether balance 1, holding 10 BTC, price 10, SELL of 10: 1 BTC is sold, yet the whole BTC row is deleted and 9 BTC are lost | delete the target position only when the target holding less the quantity sold is under 2 | not executed | Settlement.SellClosesUnsoldHolding | Settlement.SellIntendedSettles |

`Trades.Sell` is the SELL as written, and `Trades.CreateTrade` uses it, so the
trade model does what the code does. `Trades.SellIntended` is the corrected
SELL: the same checks, but the dust comparison uses the target holding.
`Settlement.SellIntendedSettles` proves the conservation property for it: the
holding afterwards is the old one less the quantity sold, or the position is
closed when that remainder is dust.
