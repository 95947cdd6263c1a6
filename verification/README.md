# NovaFund: a verified model of its state machines

NovaFund is a crowdfunding platform. Money that backers put into a project sits in an escrow
contract and is released milestone by milestone when validators approve; a jury drawn by lot
decides disputes. Around the escrow stand a constant-product liquidity pool, a limit-order book,
an oracle network, an insurance pool and an auto-invest pool, and a backend that talks to the
chain through a circuit breaker and splits payouts by a waterfall of tiers.

This project models those components in Dafny and proves what each of them keeps over every call
and every run.

| file | component |
|---|---|
| `Milestones.dfy`, `MilestoneProofs.dfy` | deposits, milestones and validator votes of one escrow |
| `Jury.dfy`, `Tally.dfy`, `Court.dfy`, `CourtProofs.dfy` | jurors, panels, blinded votes, settlement, appeals |
| `Escrow.dfy` | the whole contract as a state machine, and its invariant |
| `Effects.dfy` | when each call on the escrow and the court succeeds and all that it changes |
| `EscrowRuns.dfy`, `EscrowLaws.dfy` | the course of disputes, and which runs keep money, votes and tokens right |
| `EscrowExamples.dfy` | runs from the empty contract that break what its users would expect |
| `EscrowContract.dfy` | the contract as a class over its stored maps, method by method |
| `Amm.dfy`, `AmmProofs.dfy`, `AmmEffects.dfy` | the liquidity pool and its integer square root; when each call succeeds and what it moves |
| `OrderBook.dfy`, `OrderBooks.dfy` | one limit-order book and market orders; the books of all pools |
| `OracleNetwork.dfy` | insertion sort, median, rounds and rewards |
| `InsurancePool.dfy` | coverage, reserves and claims |
| `AutoInvest.dfy` | project ranking by bubble sort, and drips |
| `RpcFallback.dfy` | circuit breaker and failover of the backend |
| `Waterfall.dfy` | tiered payouts of the backend |
| `Outcomes.dfy`, `Sums.dfy`, `Sorting.dfy` | results, machine integers, sums over maps, stable sorting |

How the model is built:

- Each component has its calls as functions from a stored state to `Ok(new state)` or `Err(error)`,
  with the branches, constants and order of checks of the code. A call that returns an error or
  panics is rolled back by the host, so in a run it leaves the state unchanged. Contracts are built
  with overflow checks, so an overflow is a failing call wherever it is modelled.
- The code's own form is a class whose methods change the stored fields, and loops over arrays and
  sequences. Each method is proved to leave exactly the state its function gives, or the old one.
- What those functions compute is then told a second time without them: lemmas named `...Exactly` and
  `...SucceedsIff` say in the fields of the records, with inequalities for every rounding, when a call
  succeeds and all that it changes. The laws over runs are proved beside them.
- `held`, `paid`, `ledger` and `dripped` count the tokens moved by transfers, and `releases` how often a
  milestone was paid. A call whose transfer, or
  whose call into another contract, is refused is rolled back as a whole; in a run it is as if it had
  not been made. The clock, random
  draws, answers of other contracts and of the network are parameters of the calls. SHA-256 is an
  arbitrary function.

What the code does otherwise than its documents say is proved as it is in the code:

- `contracts/limit-orders/src/lib.rs:157` and `:171` overwrite the first order that a new price
  beats, although the comments speak of inserting (`OrderBookProofs.PlaceKeepsEveryOrderIff`).
- `contracts/escrow/IMPLEMENTATION.md:407` says that funds are never released more than once. A
  milestone is paid twice, within what was deposited, in two ways: a jury rules on one that the
  validators approved meanwhile, or an appeal resets such a milestone, and it is submitted and
  approved again. `EscrowExamples.PaidTwiceByRuling` and `EscrowExamples.PaidTwiceByAppeal` are runs
  that do it. `EscrowLaws.NoMilestoneIsPaidTwiceIff` says exactly which runs pay no milestone twice,
  `EscrowLaws.MilestonesArePaidOnceIff` in which of them payment and approval stay together, and
  `EscrowLaws.ReleasesAreExactIff` in which the sums agree.
- Ballots of a dispute are stored by juror only and survive an appeal. A juror of the first round
  can be drawn again on the second appeal and then counts with the old ballot
  (`CourtProofs.AppealIsFreshIff`, `EscrowExamples.OldAndLateBallotsCount`).
- A reveal does not look at the status of the dispute. A ballot opened after the tally can so become
  a vote of a later round: exactly when is told by `EscrowRuns.LateRevealCountsNextIff` and
  `EscrowRuns.LateRevealCountsLaterIff`, and `EscrowExamples.OldAndLateBallotsCount` is a run in which
  it does;
  on a final dispute it never counts (`EscrowRuns.LateRevealOnFinalIsIdle`).
- The validators of a project can be replaced in the middle of a vote, and votes of replaced ones stay
  counted (`EscrowLaws.VotesAreCountedIff`, `EscrowExamples.DroppedVoteStaysCounted`).
- A list of validators may name somebody twice. Everybody can then have voted on a milestone that is
  neither approved nor rejected (`MilestoneProofs.CompleteVoteLeavesOpenIff`,
  `EscrowExamples.RepeatedValidatorLeavesOpen`).
- The juror token can be replaced while stakes are held, which are then paid out in another token
  (`EscrowLaws.StakesAreInTheTokenIff`, `EscrowExamples.ReplacedTokenIsOverdrawn`).
- The liquidity pool checks the sign of no amount and accepts one-sided first deposits. Which calls
  are fair to those who hold shares is told exactly, for amounts of any sign, by
  `AmmProofs.FirstDepositSoundIff`, `AmmProofs.AddFairIff`, `AmmProofs.RemoveFairIff` and
  `AmmProofs.SwapFairIff`, and for runs by `AmmProofs.RunSoundIff`; an unfair call of each kind is in
  `AmmProofs.OneSidedPoolIsStuck`, `AmmProofs.NegativeOfferDilutes`, `AmmProofs.NegativeRemovalDilutes`
  and `AmmProofs.NegativeSwapLowersProduct`.
- The auto-invest pool does not itself refuse a negative withdrawal; it is left to the token to do so
  (`AutoInvestProofs.WithdrawNeverRaisesIff`, `AutoInvestProofs.NegativeWithdrawalRaises`).
- The failure count of the circuit breaker is never reset by success, so in a long-lived service one
  failure opens the breaker with healthy nodes untried (`RpcFallbackProofs.FailoverFindsIff`,
  `RpcFallbackProofs.HealthyNodeLeftUntried`).

## Model

The main results come first, then what they rest on, then the methods that have the code's own form.

| member | source | states |
|---|---|---|
| `EscrowProofs.ReachableStatesAreOk` | contracts/escrow/src/lib.rs:64-1467 | in every state reachable by any calls: stakes plus fee pool are what was taken in for them and not paid out, over all juror tokens; the active list is the register without repeats; every panel under vote is distinct registered jurors; each counter of active disputes is the number of panels under vote; releases stay within deposits in every project and equal the approved amounts where no dispute was opened |
| `EscrowLaws.ReleasesAreExactIff` | contracts/escrow/src/lib.rs:160-1467 | over any run releases on a project equal its approved amounts, at every point, if and only if no successful appeal resets an approved milestone of it and no enforced ruling releases other than what it approves; opening a dispute does no harm |
| `EscrowLaws.MilestonesArePaidOnceIff` | contracts/escrow/src/lib.rs:160-1467 | over any run each milestone of a project was paid exactly once if it is approved and never otherwise, at every point, if and only if no successful appeal resets an approved one, and every enforced ruling pays one exactly when it approves it |
| `EscrowLaws.NoMilestoneIsPaidTwiceIff` | contracts/escrow/src/lib.rs:160-1467 | over any run no milestone of a project is ever paid twice if and only if no deciding vote and no ruling that releases something is about one that was paid before; so it never is under the condition of the row above |
| `EscrowLaws.VotesAreCountedIff` | contracts/escrow/src/lib.rs:261-487 | over any run and with any lists of validators, the counts of every submitted milestone are its recorded voters and neither outcome is reached yet, at every point, if and only if each list that replaces another still names, for every submitted milestone, as many of its voters as it counts, and does not decide it by its length |
| `EscrowLaws.StakesAreInTheTokenIff` | contracts/escrow/src/lib.rs:566-723 | over any run all stakes and fees are in the configured token, at every point, if and only if it is only replaced by itself or while nothing is held; its balance is then the stakes plus the fee pool and covers every juror |
| `EscrowRuns.DisputesComeToAnEnd` | contracts/escrow/src/lib.rs:956-1467 | in any run a dispute moves at most 2 * MAX_APPEALS + 3 times, and its resolution has been enforced exactly once if it is final and never otherwise |
| `EscrowRuns.RoundInOrder` | contracts/escrow/src/lib.rs:1045-1190 | in any run, within one round of a dispute (no move of it in between) every successful commit is made at an earlier time than every successful reveal, and these before the tally; with a clock that does not run backwards they also come in that order |
| `EscrowLaws.ApprovalIsPaid` | contracts/escrow/src/lib.rs:369-390 | in a run whose appeals and rulings leave releases equal to approvals on a project, the vote that reaches the required approvals of one of its milestones succeeds and pays the whole amount |
| `MilestoneProofs.VoteExactly` | contracts/escrow/src/lib.rs:312-418 | a vote is accepted if and only if it is the first of a validator on a submitted milestone, the contract is not paused, and the escrow can pay if it decides; it leaves exactly: the voter recorded, one count more, and the milestone approved and paid in full, or rejected, or still open, by the numbers of approvals that threshold and amount call for |
| `EscrowEffects.ExecuteExactly` | contracts/escrow/src/lib.rs:1277-1405 | enforcement succeeds if and only if the dispute is resolved, its time lock and (while an appeal is left) its appeal window are over and the deposits cover what the ruling releases; it pays exactly that (all, nothing, or amount times payload in parts of ten thousand rounded down, all of it from ten thousand on), sets the status of that milestone and closes the dispute, and changes nothing else |
| `EscrowEffects.FileAppealExactly` | contracts/escrow/src/lib.rs:1421-1467 | an appeal succeeds if and only if the dispute is resolved, its window open, fewer than the most appeals were made, a token is set and 13 registered jurors are neither creator nor initiator nor on the present panel; it takes the fee into the pool, seats 13 of them, restarts the vote and puts the milestone back to pending without votes, and changes nothing else |
| `EscrowEffects.DepositedIsPaidIn` | contracts/escrow/src/lib.rs:160-187 | over any run what counts as deposited in a project is the sum of its successful deposits: no other call of the contract changes it |
| `SettlementProofs.TallyConserves` | contracts/escrow/src/lib.rs:1223-1251 | a tally as a whole neither creates nor loses value and leaves no stake negative |
| `SettlementProofs.TallyRecords` | contracts/escrow/src/lib.rs:1223-1251 | every juror record after a tally: the winners (panel members who revealed the outcome) gain a successful vote and one equal share of the old pool and all fines, the rest of the panel a missed vote, and they end with nothing if ten times their stake is below the minimum stake and otherwise with a tenth of the minimum less; all of the panel lose one active dispute, nobody else changes |
| `CourtEffects.TallyExactly` | contracts/escrow/src/lib.rs:1175-1263 | in a sound court, for the outcome that a tally records: the losers on the panel are fined a tenth of the minimum stake or all they have, these fines and the old pool are shared equally among the winners, less than one unit each staying in the pool, and without winners all of it stays; every other record is as before |
| `CourtEffects.TallyDecides` | contracts/escrow/src/lib.rs:1191-1263 | a tally records the option with the most panel members who revealed it, first to get that far in panel order, with the payload of the vote that did it (without a revealed vote the refund, with payload 0), and the present time; nothing else changes but the jurors and the pool |
| `CourtProofs.TallyPicksPlurality` | contracts/escrow/src/lib.rs:1191-1221 | the recorded outcome is an option that no other outnumbers on the panel; without a revealed vote it is the refund |
| `CourtProofs.SeatSucceedsIff` | contracts/escrow/src/lib.rs:969-1004 | a selection succeeds if and only if it is due and at least 7 registered jurors (13 on appeal) are neither the creator nor the initiator nor, on appeal, on the panel before, whatever the random numbers |
| `CourtProofs.AppealIsFreshIff` | contracts/escrow/src/lib.rs:979-997 | an appeal that can be seated starts without old ballots whatever the draw if and only if no impartial juror has one from an earlier round |
| `EscrowRuns.LateRevealCountsNextIff` | contracts/escrow/src/lib.rs:1105-1160 | a ballot revealed after the tally counts in the round after the next appeal, for some draw, if and only if its juror is impartial again and a panel can be seated; the members of the panel just tallied are not |
| `EscrowRuns.LateRevealCountsLaterIff` | contracts/escrow/src/lib.rs:1105-1467 | a ballot revealed after the tally by a member of the panel just tallied counts after the appeal after next, for some draws, if and only if its juror is registered and has no interest in the dispute and two panels can be seated one after the other |
| `MilestoneProofs.OutcomeIgnoresOrder` | contracts/escrow/src/lib.rs:312-418 | once each of a list of distinct validators has voted, in any order, the milestone is approved if and only if the approvals, in parts of ten thousand, reach the threshold of all validators rounded down, and are at least 2, 3, 4 or 5 for amounts up to 1_000, 10_000, 100_000 or more, or all validators; otherwise it is rejected |
| `MilestoneProofs.CompleteVoteLeavesOpenIff` | contracts/escrow/src/lib.rs:83-135 | votes of everybody on the list can leave a milestone undecided, with nobody left to vote, if and only if the list repeats somebody or the escrow cannot pay the milestone |
| `EscrowExamples.PaidTwiceByRuling` | contracts/escrow/src/lib.rs:160-1405 | a run from the empty contract in which a milestone of 10 is approved, paid, ruled on and paid again |
| `EscrowExamples.PaidTwiceByAppeal` | contracts/escrow/src/lib.rs:160-1467 | a run without any enforced ruling in which an appeal reopens a paid milestone, which is submitted, approved and paid again |
| `EscrowExamples.OldAndLateBallotsCount` | contracts/escrow/src/lib.rs:1045-1467 | a run with two appeals in which a ballot of the first round, and one revealed only after its tally, are both counted in the third |
| `AmmProofs.RunSoundIff` | contracts/amm-liquidity-pools/src/lib.rs:133-348 | a run is sound at every step if and only if all its successful calls are fair, and then ends in a pool that is empty or has positive reserves, positive liquidity L and L * L at most their product; no sign is assumed |
| `AmmProofs.SharesNeverLoseValue` | contracts/amm-liquidity-pools/src/lib.rs:133-348 | over any run of fair calls that does not empty the pool, the product of the reserves per squared share does not fall |
| `AmmProofs.SplittingNeverPays` | contracts/amm-liquidity-pools/src/lib.rs:323-337 | however an order is cut into pieces, they never pay more than the whole at once |
| `AmmProofs.ThereAndBack` | contracts/amm-liquidity-pools/src/lib.rs:299-348 | swapping and swapping all the proceeds back returns at most what was put in, in either direction |
| `AmmEffects.SwapExactly` | contracts/amm-liquidity-pools/src/lib.rs:299-348 | on positive reserves a swap of an amount that is not negative succeeds if and only if no product or sum overflows and the output is at least the minimum of the caller; the output is the floor of r * net / (s + net), net being the floor of amount * (10_000 - fee) / 10_000, and just the amount and the output move |
| `AmmEffects.AddExactly` | contracts/amm-liquidity-pools/src/lib.rs:133-229 | a deposit of offers that are not negative into a trading pool succeeds if and only if nothing overflows and the shares reach the minimum of the caller; it takes of the second token the offer or what matches the first at the present price, whichever is less, of the first what matches that, and mints the most shares that neither amount pays too little for |
| `AmmEffects.RemoveExactly` | contracts/amm-liquidity-pools/src/lib.rs:231-297 | burning shares succeeds if and only if there are as many, nothing overflows and both amounts reach the minima of the caller; it pays that part of either reserve, rounded down |
| `AmmProofs.AddThenRemoveIff` | contracts/amm-liquidity-pools/src/lib.rs:133-264 | burning the shares just minted takes nothing out of the pool if and only if it was empty before or the deposit had nothing to gain, by a condition on the offers; for offers that are not negative it always holds |
| `AmmProofs.AddNotDilutedIff` | contracts/amm-liquidity-pools/src/lib.rs:147-184 | for offers of any sign, a deposit into a trading pool dilutes nobody if and only if the amount it moves of the second token is not negative or costs shares that come out even |
| `AmmProofs.RemoveFairIff` | contracts/amm-liquidity-pools/src/lib.rs:250-264 | for amounts of any sign, a withdrawal dilutes nobody if and only if it burns, or mints shares for which both reserves divide evenly; burning all shares empties the pool, and a fair withdrawal of less leaves it sound |
| `AmmProofs.SwapFairIff` | contracts/amm-liquidity-pools/src/lib.rs:318-337 | for amounts of any sign, a swap keeps the pool sound and its product per share if and only if the amount is not negative, or there is no fee and it divides out evenly |
| `SquareRoot.Sqrt` | contracts/amm-liquidity-pools/src/lib.rs:384-396 | the Newton iteration terminates and returns the floor of the square root of every n |
| `OrderBookProofs.GreedyIsOptimal` | contracts/limit-orders/src/lib.rs:342-422 | no other feasible way of taking the same quantity has a lower total for a buyer or a higher one for a seller |
| `OrderBookProofs.FlooredGreedyIsBest` | contracts/limit-orders/src/lib.rs:342-445 | with every trade rounded down to the price scale, the total of the loop is within one unit per order of any feasible way of taking the same quantity |
| `OrderBookProofs.MarketOrderIsExactAndBest` | contracts/limit-orders/src/lib.rs:319-432 | a market order that goes through fills min(amount, total open), eats a prefix, leaves the other side alone, and no other way of taking that quantity has a better total |
| `OrderEffects.ExecuteExactly` | contracts/limit-orders/src/lib.rs:319-432 | a market order goes through if and only if it is in time, the pool has a book, no trade overflows and min(amount, total open) reaches the minimum of the caller; it takes whole orders from the front and at most part of the next, and leaves the other side, all other books and the next number as they were |
| `OrderEffects.PlaceExactly` | contracts/limit-orders/src/lib.rs:110-202 | a placement succeeds if and only if it is in time with a positive price and amount; the order is stored active and unfilled under the next number, behind all that its price does not beat and in place of the first that it beats, and nothing else changes |
| `OrderBooksProofs.ReachableBooksAreValid` | contracts/limit-orders/src/lib.rs:110-432 | in every reachable storage, in the book of every pool, both sides are in price order, every order is live with a positive price and 0 <= filled < wanted, and no id occurs twice in any books |
| `OrderBookProofs.PlaceKeepsEveryOrderIff` | contracts/limit-orders/src/lib.rs:150-180 | a placement loses no order if and only if its price beats none; otherwise exactly one is overwritten, the best-priced of those it beats |
| `Median.MedianBetweenHonest` | contracts/oracle-network/src/lib.rs:423-454 | with fewer than half of the reports bad the median lies between two honest values |
| `OracleNetwork.ReachableFeedsAreValid` | contracts/oracle-network/src/lib.rs:43-377 | in every reachable network every open round is short of full with reports from distinct oracles, and rewards owed plus paid are those of the closed rounds of all feeds |
| `OracleNetwork.PublishedValueIsHonest` | contracts/oracle-network/src/lib.rs:257-310 | in any run, the value published by a round in which fewer than half of the oracles who reported are bad lies between the reports of two that are not |
| `OracleEffects.SubmitExactly` | contracts/oracle-network/src/lib.rs:224-311 | a report that does not fill its round is only added to it; one that does publishes under the next number, with the time of the report and the present time, the value that more than half of the reports do not exceed and no more than half are below, empties the round and credits each of its reporters, and nobody else, one reward |
| `InsuranceProofs.ReachablePoolsAreValid` | contracts/insurance-pool/src/lib.rs:140-318 | in every reachable pool locked reserves are the sum of unclaimed cover, 0 <= locked <= reserves = tokens held, and each project total is the sum of its positions and within its maximum |
| `InsuranceProofs.EveryEntitledClaimIsPaid` | contracts/insurance-pool/src/lib.rs:280-318 | all entitled positions, in any order of claiming, are each paid cover times rate in parts of ten thousand, rounded down, out of what the pool holds |
| `InsuranceProofs.ClaimSucceedsIff` | contracts/insurance-pool/src/lib.rs:280-318 | a claim succeeds if and only if the position is unclaimed, its project has failed, and cover times rate is at least ten thousand and fits in 128 bits: the underfunded branch and the underflow of the locked reserves are never reached |
| `InsuranceProofs.PurchaseExactly` | contracts/insurance-pool/src/lib.rs:192-265 | the premium is amount times rate in parts of ten thousand, rounded down; a purchase succeeds if and only if the project is open, the position unclaimed, the limits of investor and project hold, the premium is positive, the reserves with it back what is then locked and nothing overflows; it moves exactly amount and premium |
| `Ranking.StableSortUnique` | contracts/auto-invest-pool/src/lib.rs:488-502 | there is only one stable descending order, so any such sort gives the same ranking |
| `AutoInvestProofs.MatchesInOrder` | contracts/auto-invest-pool/src/lib.rs:440-509 | an earlier match has more tags that the user prefers than a later one, counted as places of its list, or as many and was registered before it |
| `AutoInvestProofs.ReachableStatesAreValid` | contracts/auto-invest-pool/src/lib.rs:121-394 | in every reachable state each user has deposited = remaining + dripped + withdrawn, remaining is not negative, and each project is listed once |
| `AutoInvestProofs.DripsAreAMonthApart` | contracts/auto-invest-pool/src/lib.rs:182-259 | any two drips of a user in a run are at least a month apart, withdrawals and new deposits in between included, up to the saturation of the clock |
| `AutoInvestProofs.DripExactly` | contracts/auto-invest-pool/src/lib.rs:182-259 | a drip spends on the first five matches, or all if they are fewer, the same amount each, as much of the monthly amount as divides, adds them to what the user invested in and starts the next month; without a match only the month starts; nobody else is touched |
| `AutoInvestProofs.DeregisteredIsNeverMatched` | contracts/auto-invest-pool/src/lib.rs:337-395 | in any run, once a project is deregistered it is never matched again, because it cannot be registered anew |
| `AutoInvestProofs.EarlierIsListedFirst` | contracts/auto-invest-pool/src/lib.rs:337-376 | in any run, of two projects the one registered first is first in the list, on which ties of the ranking are decided |
| `RpcFallbackProofs.ServeSettles` | backend/src/stellar/rpc-fallback.service.ts:101-140 | a call for a node returns with the breaker closed, the index in range and a current node that has just responded, or throws with the breaker open: half-open never survives a call |
| `RpcFallbackProofs.FailoverFindsIff` | backend/src/stellar/rpc-fallback.service.ts:101-140 | from any state a call finds a node if and only if the breaker lets it in and a node in the order of tries responds before a failure opens the breaker for good; it is the first in that order to respond |
| `RpcFallbackProofs.OperationGoesRound` | backend/src/stellar/rpc-fallback.service.ts:145-172 | with all nodes healthy and responding an operation that fails is run again on the next node, and so on: the call succeeds if and only if the operation does at one of its attempts, and then returns the node whose turn it was |
| `RpcFallbackProofs.ExecuteWalks` | backend/src/stellar/rpc-fallback.service.ts:145-172 | from any state every attempt at an operation starts in the service as the one before left it, but from the node after the current one; the call ends with the first success, or with the last error once the attempts are used up, and has then moved on once more |
| `WaterfallProofs.PayoutsCompose` | backend/src/yield/waterfall-engine.service.ts:18-52 | two payouts, the second against the caps left over, give every recipient and the remainder what one payout of the sum would |
| `WaterfallProofs.PayoutFollowsOrder` | backend/src/yield/waterfall-engine.service.ts:18-52 | the tiers are paid in some arrangement by their order field: a tier is paid only when every tier of a smaller order is full, something is left over only when all are, and every recipient gets the sum over the places of its tiers |
| `WaterfallProofs.EarlierTiersFirst` | backend/src/yield/waterfall-engine.service.ts:31-46 | a tier is paid only when every earlier one is full, and something is left over only when all are |
| `WaterfallProofs.CalculationConserves` | backend/src/yield/waterfall-engine.service.ts:18-52 | the four allocations and the remainder add up to the payout |
| `EscrowProofs.CallKeepsOk` | contracts/escrow/src/lib.rs:64-1467 | each of the seventeen calls, a change of the juror token included, keeps that invariant |
| `EscrowProofs.AppealKeepsStateOk` | contracts/escrow/src/lib.rs:1421-1467 | an appeal, with its fee, its reset milestone and its new panel at once, keeps the invariant of court and project together |
| `EscrowProofs.ExecuteKeepsOk` | contracts/escrow/src/lib.rs:1277-1405 | enforcing a resolution keeps the invariant; the dispute and the project change together |
| `EscrowLaws.UndisputedApprovalIsPaid` | contracts/escrow/src/lib.rs:369-390 | in every reachable state, on a project without disputes, the vote that reaches the required approvals succeeds and pays the whole amount: it never fails for lack of escrow |
| `EscrowLaws.CallKeepsExactIff` | contracts/escrow/src/lib.rs:160-1467 | for every single call the same condition decides whether releases stay equal to approvals |
| `EscrowEffects.SelectExactly` | contracts/escrow/src/lib.rs:956-1023 | a first selection succeeds if and only if the dispute is pending and at least 7 registered jurors are neither the creator of the project nor the initiator; it seats 7 such jurors, distinct, and opens the vote at the present time |
| `EscrowEffects.InitiateExactly` | contracts/escrow/src/lib.rs:892-942 | a dispute is opened if and only if the milestone exists and is submitted or rejected, and the initiator is the creator or contributed the minimum; it is pending, on that milestone, under the next number, and nothing else changes |
| `EscrowEffects.ProjectCallsStay` | contracts/escrow/src/lib.rs:83-487 | a successful call on a project changes no other project, nothing of the court and not the pause; except to create it, the project must exist |
| `EscrowLaws.AlwaysIff` | contracts/escrow/src/lib.rs:64-1467 | what decides a property call by call decides it over whole runs, in both directions |
| `EscrowRuns.DisputeMoves` | contracts/escrow/src/lib.rs:956-1467 | any successful call leaves a dispute as it is or makes one of four moves: pending to voting, voting to resolved, resolved to voting with one more appeal, resolved to final; only the tally ends a vote and only a resolved dispute can be enforced |
| `EscrowRuns.FinalStaysFinal` | contracts/escrow/src/lib.rs:1277-1311 | no successful call changes a final dispute, enforces it again or appeals it |
| `EscrowRuns.AppealBeforeEnforcement` | contracts/escrow/src/lib.rs:1277-1301 | in any run, while one resolved record stands, every time at which an appeal would be accepted lies before every time at which it could be enforced |
| `EscrowRuns.LateRevealIsAccepted` | contracts/escrow/src/lib.rs:1105-1160 | a reveal in a window counted from the tally is accepted although the dispute is resolved or even final; it opens that ballot and changes nothing else |
| `EscrowRuns.LateRevealOnFinalIsIdle` | contracts/escrow/src/lib.rs:1176-1180 | a ballot opened on a final dispute never counts: no tally of it can follow |
| `EscrowExamples.ReplacedTokenIsOverdrawn` | contracts/escrow/src/lib.rs:566-723 | a run in which a stake taken in one token is paid out in another, if the contract holds that from elsewhere; otherwise the transfer is refused and the juror cannot leave |
| `EscrowExamples.DroppedVoteStaysCounted` | contracts/escrow/src/lib.rs:312-487 | a run in which the vote of a replaced validator stays in the count |
| `EscrowExamples.RepeatedValidatorLeavesOpen` | contracts/escrow/src/lib.rs:83-418 | a run with the validators 1, 1 and 2 in which all of them have voted and the milestone is neither approved nor rejected |
| `MilestoneProofs.TotalIsSum` | contracts/escrow/src/storage.rs:159-171 | that sum is the total of all stored amounts and never overflows while they are covered by deposits |
| `MilestoneProofs.CreateSucceedsIff` | contracts/escrow/src/lib.rs:204-221 | a milestone can be created if and only if its amount is positive, all milestones with it are covered by the deposits, and the contract is not paused |
| `MilestoneEffects.CreateExactly` | contracts/escrow/src/lib.rs:194-253 | a new milestone gets the next number, which no milestone had, its amount, status pending, no votes and no payment; the sum of all amounts grows by it and nothing else changes |
| `MilestoneEffects.SubmitExactly` | contracts/escrow/src/lib.rs:261-303 | a submission succeeds if and only if the milestone is pending and the contract not paused; it is then submitted with both counts zero, nobody on the present list is recorded as its voter, and no other vote or milestone changes |
| `MilestoneEffects.ResetExactly` | contracts/escrow/src/lib.rs:1453-1459 | the reset of an appeal takes a milestone of any status back to pending with both counts zero and nobody on the present list recorded, and changes no other |
| `MilestoneProofs.CreateKeepsFunded` | contracts/escrow/src/lib.rs:194-253 | creating keeps milestone amounts within deposits |
| `MilestoneProofs.VoteKeepsFunded` | contracts/escrow/src/lib.rs:312-418 | a vote keeps 0 <= released <= deposited, and released equal to what was paid |
| `MilestoneProofs.EnforceKeepsFunded` | contracts/escrow/src/lib.rs:1353-1405 | a ruling keeps 0 <= released <= deposited, and released equal to what was paid |
| `MilestoneProofs.RulingWithinAmount` | contracts/escrow/src/lib.rs:1361-1382 | a ruling releases between nothing and the whole amount, for every payload |
| `MilestoneProofs.PartialRelease` | contracts/escrow/src/lib.rs:1372-1376 | for every payload below ten thousand a partial release is the floor of amount times payload over ten thousand; from ten thousand on it is the whole amount |
| `MilestoneEffects.EnforceExactly` | contracts/escrow/src/lib.rs:1353-1405 | a ruling that is enforced raises payments and releases by exactly what it releases, counts the payment if there is one, sets the status (approved, rejected, or as it was without a ruling) and changes nothing else |
| `MilestoneProofs.VoteKeepsExact` | contracts/escrow/src/lib.rs:369-411 | a vote keeps releases equal to the approved amounts |
| `MilestoneProofs.ReleaseAffordable` | contracts/escrow/src/lib.rs:1616-1633 | while releases equal approvals, releasing any other milestone in full is affordable |
| `MilestoneProofs.EnforceSucceedsIff` | contracts/escrow/src/lib.rs:1353-1405 | a ruling can be enforced if and only if what it releases is still within the deposits; an earlier release of the same milestone does not stop it |
| `MilestoneProofs.EnforceKeepsExactIff` | contracts/escrow/src/lib.rs:1353-1405 | a ruling keeps releases equal to approvals if and only if the milestone was not approved already (or a partial release of it rounds to nothing) and a partial release of any other is of the whole |
| `MilestoneProofs.RequiredInRange` | contracts/escrow/src/lib.rs:137-153 | required approvals lie between 1 and the number of validators, so their difference does not underflow |
| `MilestoneProofs.RequiredIff` | contracts/escrow/src/lib.rs:137-153 | so many approvals reach the required number if and only if, in parts of ten thousand, they reach the threshold of all validators rounded down, and they are at least 2, 3, 4 or 5 for amounts up to 1_000, 10_000, 100_000 or more, or all validators |
| `MilestoneProofs.VoteKeepsCounts` | contracts/escrow/src/lib.rs:312-418 | a vote keeps the counts of every submitted milestone equal to its recorded voters, and short of both outcomes |
| `MilestoneProofs.VoteDecidesIff` | contracts/escrow/src/lib.rs:358-415 | after a vote a milestone is approved if and only if its approvals reach the threshold of all validators and the number that its amount calls for, and rejected if and only if not even the approval of all who have not rejected it would |
| `MilestoneProofs.UndecidedMeansVotesMissing` | contracts/escrow/src/lib.rs:368-415 | a milestone still under vote has a validator who has not voted |
| `MilestoneProofs.ReplaceKeepsCountsIff` | contracts/escrow/src/lib.rs:459-487 | replacing the validators keeps the counts right if and only if as many voters of each submitted milestone are on the new list as it counts, and the length of the list does not decide it |
| `MilestoneProofs.ResetKeepsExactIff` | contracts/escrow/src/lib.rs:1453-1459 | the reset of an appeal keeps releases equal to approvals if and only if the milestone was not approved |
| `MilestoneProofs.EnforceKeepsPaidIff` | contracts/escrow/src/lib.rs:1353-1405 | a ruling keeps every milestone paid once if approved and else never if and only if it pays this one exactly when it approves it; and it pays none twice if and only if it does not release something on one that was paid |
| `MilestoneProofs.ResetKeepsPaidIff` | contracts/escrow/src/lib.rs:1453-1459 | the reset of an appeal parts payment from approval if and only if the milestone was approved; it pays nothing |
| `MilestoneProofs.VoteKeepsPaidIff` | contracts/escrow/src/lib.rs:369-411 | a vote keeps payment and approval together, and pays none twice if and only if it does not decide one that was paid before |
| `Jury.DrawSeats` | contracts/escrow/src/lib.rs:987-1000 | a draw ends with distinct impartial members, as many as the jury needs or all there are |
| `Jury.DrawFillsIff` | contracts/escrow/src/lib.rs:987-1004 | the jury is filled if and only if enough members of the pool are impartial, whatever the random numbers |
| `Jury.EveryJuryCanBeDrawn` | contracts/escrow/src/lib.rs:987-1000 | every impartial jury in every order comes of some random numbers |
| `Tally.LeaderIsAhead` | contracts/escrow/src/lib.rs:1198-1214 | no option has more revealed votes than the leader; there is none only without votes |
| `Tally.LeaderWasFirst` | contracts/escrow/src/lib.rs:1207-1211 | the leader and its payload come from the vote at which it reached its final count, when every other option had fewer |
| `Tally.FirstToTheTopIsUnique` | contracts/escrow/src/lib.rs:1207-1211 | only one option can be first to the greatest count, and it is the leader: ties go to the one that got there first |
| `Tally.BigEndian` | contracts/escrow/src/lib.rs:1137-1140 | the four bytes, most significant first, have the value of the payload |
| `Tally.OpeningsAgree` | contracts/escrow/src/lib.rs:1130-1152 | two openings of one commitment give the same vote and, for a partial release, the same payload, or else they are a hash collision |
| `Tally.PayloadNotBound` | contracts/escrow/src/lib.rs:1130-1152 | for the two other options the revealed payload is not bound by the commitment |
| `SettlementProofs.SummonAddsOne` | contracts/escrow/src/lib.rs:1007-1011 | exactly the panel members get one more active dispute, and nothing else of any juror changes |
| `SettlementProofs.SettlesEachOnce` | contracts/escrow/src/lib.rs:1225-1249 | each panel member is counted with the majority or slashed, exactly once and never both; nobody else is touched |
| `SettlementProofs.SettleConserves` | contracts/escrow/src/lib.rs:1315-1332 | slashing is capped at the stake and moves it into the pool: the sum of stakes and pool stays |
| `SettlementProofs.RewardConserves` | contracts/escrow/src/lib.rs:1334-1351 | rewards move the pool into stakes and leave less than one unit per winner in it: the sum stays |
| `CourtProofs.PanelMembersStay` | contracts/escrow/src/lib.rs:693-700 | a member of a panel under vote is registered, has a positive counter and cannot leave |
| `CourtProofs.DeregisterSucceedsIff` | contracts/escrow/src/lib.rs:693-710 | a juror can leave if and only if registered, on no panel under vote, and a token is configured; the whole stake is paid out |
| `CourtProofs.RegisterKeepsOk` | contracts/escrow/src/lib.rs:584-618 | registering keeps tokens, register, panels, counters, disputes and ballots of the court consistent |
| `CourtProofs.DeregisterKeepsOk` | contracts/escrow/src/lib.rs:693-723 | leaving keeps the court consistent: the stake paid out leaves tokens and stakes equal, and no panel loses a member |
| `CourtProofs.SeatIsImpartial` | contracts/escrow/src/lib.rs:963-1017 | the seated panel is 7 distinct registered jurors (13 on appeal), none of them the creator, the initiator or, on appeal, on the panel before |
| `CourtProofs.CandidatesAreNotBarred` | contracts/escrow/src/lib.rs:976-992 | the jurors that the draw does not pass over are exactly the registered ones other than the creator, the initiator and, on appeal, the members of the panel before |
| `CourtEffects.SeatExactly` | contracts/escrow/src/lib.rs:963-1017 | seating a panel counts one more active dispute for each of its members and nobody else, opens the vote at the present time and changes nothing else |
| `CourtEffects.RegisterExactly` | contracts/escrow/src/lib.rs:584-618 | a registration succeeds if and only if the stake is at least the minimum, the juror is not registered and a token is set; the whole stake comes in, in that token, and the record and the place at the end of the list are all that is new |
| `CourtEffects.DeregisterExactly` | contracts/escrow/src/lib.rs:693-723 | a juror can leave if and only if registered, without active disputes and with a token set; exactly the recorded stake goes out and exactly this juror leaves register and list |
| `CourtEffects.CommitExactly` | contracts/escrow/src/lib.rs:1045-1087 | a commitment is taken if and only if the dispute is under vote and its commit period not over, from a panel member who has no ballot yet; only that ballot is new |
| `CourtEffects.PreimageExactly` | contracts/escrow/src/lib.rs:1131-1144 | what is hashed is one byte for the option, for a partial release then four bytes whose value is the payload, then the salt |
| `CourtEffects.RevealExactly` | contracts/escrow/src/lib.rs:1105-1160 | a reveal succeeds if and only if it is made in the reveal period, on an unopened ballot, with an option, payload and salt that hash to the commitment; exactly these are recorded |
| `CourtEffects.CommitThenReveal` | contracts/escrow/src/lib.rs:1045-1160 | whoever commits to an option can reveal it throughout the reveal period and it is recorded; anything else opens the ballot only if it hashes to the same value |
| `CourtEffects.CountIsSupporters` | contracts/escrow/src/lib.rs:1192-1214 | the count of an option is the number of panel members who revealed it |
| `CourtEffects.OutcomeExactly` | contracts/escrow/src/lib.rs:1191-1221 | the outcome is the option that most panel members revealed; of several the one that had all its votes before any other had as many, with the payload of the last of them |
| `CourtEffects.TallySucceedsIff` | contracts/escrow/src/lib.rs:1175-1190 | a tally succeeds if and only if the dispute is under vote and its reveal period is over; no panel is ever missing |
| `CourtEffects.AppealSucceedsIff` | contracts/escrow/src/lib.rs:1424-1464 | the part of the court in an appeal succeeds if and only if the dispute is resolved, its window open, an appeal left, a token set and 13 registered jurors are left outside the panel, other than creator and initiator |
| `CourtEffects.AppealExactly` | contracts/escrow/src/lib.rs:1424-1464 | an appeal takes the fee in and into the pool, counts itself, and seats 13 registered jurors who are neither creator nor initiator nor on the panel before, each with one more active dispute, for a vote that starts now |
| `CourtEffects.FinalizeExactly` | contracts/escrow/src/lib.rs:1277-1311 | a dispute is closed if and only if it is resolved, its time lock is over and, while an appeal is left, its appeal window too; with the appeals used up the time lock alone decides |
| `CourtProofs.SeatKeepsOk` | contracts/escrow/src/lib.rs:956-1023 | seating keeps the court invariant, the counters included |
| `CourtProofs.TallyKeepsOk` | contracts/escrow/src/lib.rs:1175-1263 | a tally keeps the court consistent: no counter goes below zero and no token is created or lost |
| `CourtProofs.AppealKeepsOk` | contracts/escrow/src/lib.rs:1421-1467 | an appeal keeps the court invariant; its fee is in the pool |
| `CourtProofs.FinalizeKeepsOk` | contracts/escrow/src/lib.rs:1277-1304 | closing a dispute keeps the court invariant |
| `CourtProofs.FirstAppealIsFresh` | contracts/escrow/src/lib.rs:979-997 | nobody on the panel of a first appeal has a ballot stored for the dispute |
| `CourtProofs.OldBallotReturns` | contracts/escrow/src/lib.rs:1071-1073 | where an impartial juror has a ballot from an earlier round, some draw seats that juror; if the ballot is a revealed one it is among the votes of the new round |
| `CourtProofs.ConfigureKeepsOneTokenIff` | contracts/escrow/src/lib.rs:566-572 | configuring a token keeps everything in one token if and only if it is the same one or no stake and no fee is held |
| `CourtProofs.ChosenSeat` | contracts/escrow/src/lib.rs:963-1017 | every list of the right size of distinct registered jurors who are neither creator nor initiator nor on the panel appealed against is seated by some random numbers |
| `AmmProofs.FirstDepositSoundIff` | contracts/amm-liquidity-pools/src/lib.rs:147-184 | the first deposit leaves a sound pool if and only if both offers are positive, or the first is zero and the second not negative |
| `AmmProofs.OneSidedPoolIsStuck` | contracts/amm-liquidity-pools/src/lib.rs:147-184 | a one-sided first deposit leaves a pool on which every deposit, withdrawal and swap fails |
| `AmmProofs.NegativeOfferDilutes` | contracts/amm-liquidity-pools/src/lib.rs:147-184 | an example: a negative offer takes a third of both reserves and burns no share |
| `AmmProofs.SwapPaysQuote` | contracts/amm-liquidity-pools/src/lib.rs:318-337 | a swap in either direction moves exactly the quoted amounts and leaves liquidity alone |
| `AmmProofs.QuoteBounds` | contracts/amm-liquidity-pools/src/lib.rs:323-324 | with all floors, the output stays below the reserve and the product of the reserves does not fall, even against the net input |
| `AmmProofs.SplitTwo` | contracts/amm-liquidity-pools/src/lib.rs:323-337 | two swaps of x and y never pay more than one of x + y |
| `AmmProofs.ReachablePoolsAreValid` | contracts/amm-liquidity-pools/src/lib.rs:133-348 | with offers positive and other amounts not negative, every call is fair, so every reachable pool is sound |
| `AmmProofs.AddFairIff` | contracts/amm-liquidity-pools/src/lib.rs:147-184 | for offers of any sign, a deposit into a trading pool leaves it sound and dilutes nobody if and only if the amount it moves of the second token is not negative, or is no more than there is and costs shares that come out even |
| `AmmProofs.TakesAtMostOfferIff` | contracts/amm-liquidity-pools/src/lib.rs:147-164 | a deposit never takes more of the second token than offered, nor of the first unless a negative offer of it is rounded up; the exact condition is given |
| `AmmProofs.NegativeRemovalDilutes` | contracts/amm-liquidity-pools/src/lib.rs:250-264 | an example: burning -1 shares mints one below its price |
| `AmmProofs.NegativeSwapLowersProduct` | contracts/amm-liquidity-pools/src/lib.rs:318-337 | an example: a swap of -1 takes one token out for nothing |
| `AmmProofs.NegativePieceGains` | contracts/amm-liquidity-pools/src/lib.rs:318-337 | an example: the pieces -5 and 5 pay out 74 in all, while a swap of their sum pays nothing |
| `AmmProofs.CallFairIff` | contracts/amm-liquidity-pools/src/lib.rs:133-348 | every successful call keeps the pool sound and its shares undiluted if and only if it is fair, told from the call and the pool before it |
| `AmmEffects.FirstAddExactly` | contracts/amm-liquidity-pools/src/lib.rs:147-184 | the first deposit takes the whole first offer and of the second no more units than that, mints the floor of the root of their product, and fails only if the product overflows or the shares are below the minimum of the caller |
| `AmmEffects.SwapPaysMinimum` | contracts/amm-liquidity-pools/src/lib.rs:318-337 | for amounts of any sign, a successful swap takes in its amount and pays at least the minimum of the caller out of the other reserve |
| `AmmEffects.AddMintsMinimum` | contracts/amm-liquidity-pools/src/lib.rs:166-184 | for offers of any sign, a successful deposit mints at least the minimum of the caller |
| `AmmEffects.RemovePaysMinimum` | contracts/amm-liquidity-pools/src/lib.rs:250-264 | for amounts of any sign, a successful withdrawal burns what it says, no more than there is, and pays at least both minima of the caller |
| `SquareRoot.NewtonStaysAbove` | contracts/amm-liquidity-pools/src/lib.rs:392-393 | a step from any positive x does not go below the root |
| `SquareRoot.NewtonStops` | contracts/amm-liquidity-pools/src/lib.rs:391-395 | when a step no longer goes down, x is at most the root |
| `OrderBookProofs.PlacedIsSound` | contracts/limit-orders/src/lib.rs:150-180 | placing keeps the price order, live orders and distinct ids |
| `OrderBooksProofs.HigherBidErasesLower` | contracts/limit-orders/src/lib.rs:150-164 | a run from the empty storage in which a higher bid erases a lower one |
| `OrderBookProofs.WithoutIsExact` | contracts/limit-orders/src/lib.rs:213-250 | a cancellation takes out the orders of that id and no other |
| `OrderBookProofs.FillsExactly` | contracts/limit-orders/src/lib.rs:342-422 | a market order fills min(amount, total open), and open quantity plus fills is conserved |
| `OrderBookProofs.EatsAPrefix` | contracts/limit-orders/src/lib.rs:342-422 | a market order consumes a prefix of its side, reduces at most one more order and leaves every later one as it was; it overflows if and only if one of those trades does |
| `OrderBookProofs.MatchedIsSound` | contracts/limit-orders/src/lib.rs:342-422 | what a market order leaves is still in price order, live and with distinct ids |
| `OrderBookProofs.MatchedTakesGreedily` | contracts/limit-orders/src/lib.rs:342-422 | the loop takes greedily: the remaining side is the one reduced by the greedy amounts |
| `OrderBooksProofs.CancelSucceedsIff` | contracts/limit-orders/src/lib.rs:204-264 | an order can be cancelled if and only if some book holds it: no stored order is past cancelling |
| `OrderBooksProofs.CancelInIsExact` | contracts/limit-orders/src/lib.rs:204-264 | a cancelled order is in no book any more, and every other order of every book is still there |
| `Median.MedianCounts` | contracts/oracle-network/src/lib.rs:452-453 | a bound is at least the median if and only if more than half of the reports are at most it |
| `Median.HalfCanCapture` | contracts/oracle-network/src/lib.rs:423-454 | for every size, half of the reports (rounded up) can push the median above every honest value: the bound of a minority is tight |
| `Sorting.SortedIsASort` | contracts/oracle-network/src/lib.rs:434-450 | the sort by a key, used for reports, project scores and waterfall tiers, is ascending and a permutation of what it was given |
| `Sorting.SortedOfAscending` | backend/src/yield/waterfall-engine.service.ts:23 | tiers already in order are paid as listed |
| `OracleNetwork.CreditsEachReporterOnce` | contracts/oracle-network/src/lib.rs:456-469 | every reporter of a closed round is credited exactly one reward and nobody else any |
| `OracleNetwork.BadReportsAreBadOracles` | contracts/oracle-network/src/lib.rs:266-270 | in a round without repeats there are exactly as many bad reports as bad oracles who reported |
| `OracleNetwork.SubmitKeepsValid` | contracts/oracle-network/src/lib.rs:224-311 | a report keeps the open round short of full and free of repeated oracles, and the rewards balanced |
| `OracleEffects.SubmitSucceedsIff` | contracts/oracle-network/src/lib.rs:224-272 | a report is taken if and only if the feed exists, it comes from one of its oracles, is dated no further ahead than the heartbeat, and is the first of that oracle in the round |
| `OracleEffects.CreateExactly` | contracts/oracle-network/src/lib.rs:59-141 | a feed is created if and only if it has one to sixteen oracles and a new name; a heartbeat of zero becomes 60 and a minimum of zero reports becomes one |
| `OracleEffects.ClaimExactly` | contracts/oracle-network/src/lib.rs:352-377 | a claim pays exactly what is owed to the oracle and leaves what others are owed; it fails only when something is owed and no reward token is set |
| `OracleNetwork.RewardsAddUp` | contracts/oracle-network/src/lib.rs:352-377 | rewards owed plus rewards paid are, summed over all feeds, one for each of the minimal number of reports of every closed round |
| `InsuranceProofs.PurchaseKeepsValid` | contracts/insurance-pool/src/lib.rs:192-265 | a purchase keeps solvency and the project limits |
| `InsuranceProofs.ConfigureKeepsValid` | contracts/insurance-pool/src/lib.rs:154-190 | a new configuration keeps solvency and the project limits, whatever the new rates |
| `InsuranceProofs.EntitledIsCovered` | contracts/insurance-pool/src/lib.rs:280-310 | what an entitled position is owed is at most its cover, which is at most the locked reserves, which are at most the reserves |
| `InsuranceProofs.PayoutExactly` | contracts/insurance-pool/src/lib.rs:280-310 | the checks of a claim pass if and only if the position is unclaimed, its project failed and cover times rate is at least ten thousand and fits in 128 bits; the payout is then the floor of it over ten thousand |
| `InsuranceProofs.ClaimPays` | contracts/insurance-pool/src/lib.rs:305-318 | a claim takes exactly what is owed out of reserves and tokens and the cover out of the locked reserves, and marks the position |
| `InsuranceProofs.ConfigureExactly` | contracts/insurance-pool/src/lib.rs:154-190 | a configuration succeeds if and only if the premium rate is at least 10 (and positive as a signed number), the coverage rate between 1 and 10_000 and the maximum positive and no less than what is covered; it sets these, keeps the cover sold and the mark of failure, and changes no other project |
| `InsuranceProofs.MarkFailedExactly` | contracts/insurance-pool/src/lib.rs:267-278 | a project marked as failed stays so and no cover on it can be bought any more |
| `InsuranceProofs.ClaimKeepsValid` | contracts/insurance-pool/src/lib.rs:280-318 | a claim keeps solvency and the project limits |
| `Ranking.RankedIsStable` | contracts/auto-invest-pool/src/lib.rs:488-502 | the ranking keeps the order of equal scores |
| `Ranking.TiesKeepTheirOrder` | contracts/auto-invest-pool/src/lib.rs:488-502 | of two entries of equal score the one ranked first was registered first |
| `AutoInvestProofs.MatchesExactly` | contracts/auto-invest-pool/src/lib.rs:440-509 | a project is matched if and only if it is listed, active, no riskier than the user accepts and with a minimum of at most the monthly amount |
| `AutoInvestProofs.DripSpendsTheMonthlyAmount` | contracts/auto-invest-pool/src/lib.rs:216-249 | a drip invests one equal amount in a prefix of the matches and leaves less than one unit per project of the monthly amount |
| `AutoInvestProofs.ScoreCountsPreferred` | contracts/auto-invest-pool/src/lib.rs:474-483 | the score of a project is the number of places in its list of tags that hold one the user prefers |
| `AutoInvestProofs.DripSucceedsIff` | contracts/auto-invest-pool/src/lib.rs:182-206 | a drip succeeds if and only if neither contract nor user is paused, a month has passed since the last one (or the clock is at its end), and a monthly amount remains |
| `AutoInvestProofs.PausingExactly` | contracts/auto-invest-pool/src/lib.rs:261-298 | only a user with an entry can pause or resume; drips then fail while paused, and no balance and no other entry changes |
| `AutoInvestProofs.DepositExactly` | contracts/auto-invest-pool/src/lib.rs:121-173 | a deposit succeeds if and only if nothing is paused, the monthly amount is positive and at most the deposit, there is a tag, and the user has no entry; all of it then remains |
| `AutoInvestProofs.WithdrawExactly` | contracts/auto-invest-pool/src/lib.rs:300-334 | a withdrawal succeeds if and only if the user has an entry with as much remaining; just that amount leaves it, and the entry goes exactly when nothing remains |
| `AutoInvestProofs.WithdrawNeverRaisesIff` | contracts/auto-invest-pool/src/lib.rs:300-334 | a withdrawal never raises what remains if and only if its amount is absent or not negative |
| `AutoInvestProofs.DripMovesMoney` | contracts/auto-invest-pool/src/lib.rs:182-259 | a drip moves between nothing and the monthly amount from what is left to what was dripped, and touches no other user |
| `AutoInvestProofs.NegativeWithdrawalRaises` | contracts/auto-invest-pool/src/lib.rs:300-334 | a run in which a withdrawal of -50 raises what remains from 100 to 150 |
| `RpcFallbackProofs.ServeKeepsHealth` | backend/src/stellar/rpc-fallback.service.ts:101-140 | no node gains health in a search |
| `RpcFallbackProofs.ServeCounts` | backend/src/stellar/rpc-fallback.service.ts:101-140 | every try but the last costs exactly one healthy node and one unit of the failure count |
| `RpcFallbackProofs.ServeLeavesNodes` | backend/src/stellar/rpc-fallback.service.ts:101-140 | of the nodes in the order of tries, the first so many as there were tries but one are marked down with one failure more, the next one is the node returned, up with its count cleared, and all others stay as they were |
| `RpcFallbackProofs.LastNodeTrips` | backend/src/stellar/rpc-fallback.service.ts:101-140 | when a call finds no healthy node left, the breaker is open and counts its time-out from the last try |
| `RpcFallbackProofs.CheckedNodesAreTried` | backend/src/stellar/rpc-fallback.service.ts:251-283 | after a health check the nodes that a call tries are exactly those that passed, whatever they were before |
| `RpcFallbackProofs.SwitchedNodeIsTriedFirst` | backend/src/stellar/rpc-fallback.service.ts:313-325 | after a switch to a healthy node a call tries it first and the others by priority; a switch to another node changes nothing |
| `RpcFallbackProofs.ResetStartsAnew` | backend/src/stellar/rpc-fallback.service.ts:330-335 | after a reset a healthy node that responds is reached, however often the service failed before, if the threshold is at least the number of healthy nodes |
| `RpcFallbackProofs.SearchIsBounded` | backend/src/stellar/rpc-fallback.service.ts:101-140 | a search makes at most one try per healthy node and one more |
| `RpcFallbackProofs.ExecuteOutcome` | backend/src/stellar/rpc-fallback.service.ts:145-172 | the retry loop leaves the breaker settled, succeeds only with a closed one, and gives up only after as many calls as there are nodes |
| `RpcFallbackProofs.ReachableServicesAreSettled` | backend/src/stellar/rpc-fallback.service.ts:101-335 | after any sequence of calls, health checks, switches and resets the breaker is closed or open and the index is a node |
| `RpcFallbackProofs.TryOrderIsRight` | backend/src/stellar/rpc-fallback.service.ts:196-216 | the order of tries is exactly the healthy nodes, each once: the current one first if healthy, the others by priority and then position |
| `RpcFallbackProofs.RespondingNodeIsReached` | backend/src/stellar/rpc-fallback.service.ts:101-140 | a healthy node that always responds saves the call, as long as the breaker is not open and the failure of all other healthy nodes would not reach the threshold |
| `RpcFallbackProofs.HealthyNodeLeftUntried` | backend/src/stellar/rpc-fallback.service.ts:222-238 | an example: with four failures behind it, one more opens the breaker with a healthy, responding node untried |
| `RpcFallback.Best` | backend/src/stellar/rpc-fallback.service.ts:203-213 | the node found is healthy and has the best priority, the earliest of equals; none only if none is healthy |
| `WaterfallProofs.PaymentsWithinBounds` | backend/src/yield/waterfall-engine.service.ts:31-46 | no tier is paid less than nothing or more than its cap |
| `WaterfallProofs.MorePaysMore` | backend/src/yield/waterfall-engine.service.ts:31-46 | a larger payout gives no tier and no recipient less |
| `WaterfallProofs.PaymentsCompose` | backend/src/yield/waterfall-engine.service.ts:31-46 | tier by tier, paying x and then y against the caps left over is paying x + y at once |
| `WaterfallProofs.ShareIsSum` | backend/src/yield/waterfall-engine.service.ts:31-46 | the allocation of a recipient is the sum of what is paid over the set of places of its tiers |
| `EscrowContract.Contract.constructor` | contracts/escrow/src/lib.rs:64-74 | a new contract stores nothing and satisfies the invariant |
| `EscrowContract.Contract.Initialize` | contracts/escrow/src/lib.rs:83-135 | an escrow for a new project is stored, or nothing changes; like every method of the class it keeps the invariant and returns the error of the failing check |
| `EscrowContract.Contract.CreateMilestone` | contracts/escrow/src/lib.rs:194-253 | a pending milestone under the next number is added, or nothing changes |
| `EscrowContract.Contract.SubmitMilestone` | contracts/escrow/src/lib.rs:261-303 | a pending milestone is submitted with counts at zero and without recorded voters, or nothing changes |
| `EscrowContract.Contract.VoteMilestone` | contracts/escrow/src/lib.rs:312-418 | the vote is recorded, counted and, when decisive, pays or rejects, or nothing changes |
| `EscrowContract.Contract.CastVote` | contracts/escrow/src/lib.rs:323-418 | the vote on one record gives the specified record or the specified error |
| `EscrowContract.Contract.RegisterAsJuror` | contracts/escrow/src/lib.rs:584-618 | a stake of at least the minimum makes a new juror with no disputes and is taken in, unless registered already or no token is set |
| `EscrowContract.Contract.DeregisterAsJuror` | contracts/escrow/src/lib.rs:693-723 | a juror without active disputes leaves register and list with the whole stake, unless no token is set |
| `EscrowContract.Contract.InitiateDispute` | contracts/escrow/src/lib.rs:892-942 | a fresh number is returned and its pending dispute stored |
| `EscrowContract.Contract.SelectJury` | contracts/escrow/src/lib.rs:956-1023 | the specified panel is seated for those random draws, or nothing changes |
| `EscrowContract.Contract.SeatPanel` | contracts/escrow/src/lib.rs:963-1017 | drawing, summoning and opening the vote give the court or the error that the state machine specifies |
| `EscrowContract.Contract.CommitVote` | contracts/escrow/src/lib.rs:1045-1087 | one unrevealed ballot is stored, or nothing changes |
| `EscrowContract.Contract.RevealVote` | contracts/escrow/src/lib.rs:1105-1160 | one ballot is opened if vote, payload and salt hash to its commitment, or nothing changes |
| `EscrowContract.Contract.TallyVotes` | contracts/escrow/src/lib.rs:1175-1263 | outcome, slashes, rewards and counters afterwards are the specified ones, or nothing changes |
| `EscrowContract.Contract.TallyDispute` | contracts/escrow/src/lib.rs:1176-1257 | the two loops and the rewards give the specified court; no panel member is missing from the register |
| `EscrowContract.Contract.FileAppeal` | contracts/escrow/src/lib.rs:1421-1467 | fee, appeal count, reset milestone and new panel all happen, or nothing does |
| `EscrowContract.Contract.AppealDispute` | contracts/escrow/src/lib.rs:1424-1464 | the court part of an appeal |
| `EscrowContract.Contract.ReopenMilestone` | contracts/escrow/src/lib.rs:1453-1459 | the milestone part of an appeal |
| `EscrowContract.Contract.ExecuteResolution` | contracts/escrow/src/lib.rs:1277-1311 | the dispute becomes final and the project is ruled on, or nothing changes |
| `EscrowContract.Contract.EnforceResolution` | contracts/escrow/src/lib.rs:1353-1405 | the ruling on one record releases and marks as specified |
| `EscrowContract.ClearMilestoneVoters` | contracts/escrow/src/storage.rs:130-138 | removing the present validators one by one removes exactly their votes on that milestone |
| `EscrowContract.GetTotalMilestoneAmount` | contracts/escrow/src/storage.rs:159-171 | the loop returns the checked sum over all numbers below the counter, or an overflow error |
| `Court.SummonAll` | contracts/escrow/src/lib.rs:1007-1011 | the loop over the panel adds what is specified |
| `Court.SettleAll` | contracts/escrow/src/lib.rs:1225-1249 | the settlement loop computes the specified records, pool and majority |
| `Court.RewardAll` | contracts/escrow/src/lib.rs:1334-1351 | the reward loop computes the specified stakes and pool |
| `Jury.DrawJury` | contracts/escrow/src/lib.rs:974-1000 | the drawing loop computes the specified jury for any sequence of random numbers |
| `Tally.FindLeader` | contracts/escrow/src/lib.rs:1192-1214 | the counting loop returns the leading option, its payload and its count |
| `AmmPool.Pool.Add` | contracts/amm-liquidity-pools/src/lib.rs:133-229 | reserves and liquidity afterwards are the specified ones and the shares minted are returned, or nothing changes |
| `AmmPool.Pool.MintFor` | contracts/amm-liquidity-pools/src/lib.rs:166-175 | the shares minted, by square root on the first deposit and in proportion later |
| `AmmPool.Pool.Remove` | contracts/amm-liquidity-pools/src/lib.rs:231-297 | the specified amounts leave the reserves and are returned, or nothing changes |
| `AmmPool.Pool.Trade` | contracts/amm-liquidity-pools/src/lib.rs:299-348 | the specified amounts move between the reserves and the output is returned, or nothing changes |
| `OrderBook.Inserted` | contracts/limit-orders/src/lib.rs:151-180 | the scan for the slot of a new order gives the specified side |
| `OrderBook.Eat` | contracts/limit-orders/src/lib.rs:342-422 | the matching loop leaves the specified orders and fills the specified total, or overflows |
| `OrderBook.Removed` | contracts/limit-orders/src/lib.rs:216-250 | the loop leaves the orders of that id out and says whether there were any; one that is not live stops it |
| `OrderBooks.LimitOrders.PlaceOrder` | contracts/limit-orders/src/lib.rs:110-202 | the book of one pool, created if there is none, takes the order as specified and the fresh id is returned, or nothing changes |
| `OrderBooks.LimitOrders.CancelOrder` | contracts/limit-orders/src/lib.rs:204-264 | the order leaves the first book that holds it, or nothing changes |
| `OrderBooks.LimitOrders.ExecuteMarketOrder` | contracts/limit-orders/src/lib.rs:319-432 | one side of one book is matched and the filled total returned, or nothing changes; a missing book is an error |
| `Median.InsertAt` | contracts/oracle-network/src/lib.rs:434-450 | one pass of the inner loop, in place, puts the key at its place and moves nothing behind it |
| `Median.InsertionSort` | contracts/oracle-network/src/lib.rs:434-450 | the two loops, in place, compute the sort function |
| `Median.Aggregate` | contracts/oracle-network/src/lib.rs:423-454 | the aggregate of the reports is their median, zero without reports |
| `OracleNetwork.Contract.SubmitReport` | contracts/oracle-network/src/lib.rs:224-311 | the network afterwards is the specified one, or nothing changes; like every call of the class it keeps rounds and rewards in order |
| `OracleNetwork.Contract.CloseRound` | contracts/oracle-network/src/lib.rs:273-300 | a full round publishes the median under the next number, credits its reporters and is emptied; other feeds stay |
| `OracleNetwork.Contract.ClaimRewards` | contracts/oracle-network/src/lib.rs:352-377 | what is owed over all feeds is paid out and set to zero; without a reward token nothing changes |
| `OracleNetwork.Contract.AddFeed` | contracts/oracle-network/src/lib.rs:59-141 | a feed with its defaults filled in and no reports is stored, unless it exists |
| `InsuranceContract.Contract.ConfigureProject` | contracts/insurance-pool/src/lib.rs:154-190 | limits and rates are replaced and the coverage sold is kept, or nothing changes; like every method of the class it keeps solvency and the project limits |
| `InsuranceContract.Contract.PurchaseCoverage` | contracts/insurance-pool/src/lib.rs:192-265 | position, project total, reserves and locked reserves move as specified, or nothing changes; solvency and limits are kept |
| `InsuranceContract.Contract.ClaimPayout` | contracts/insurance-pool/src/lib.rs:280-318 | exactly what an entitled position is owed leaves the reserves and is returned, the position is claimed and its cover unlocked; the only errors are those of the entitlement; solvency and limits are kept |
| `Ranking.BubbleSort` | contracts/auto-invest-pool/src/lib.rs:488-502 | the two loops, in place, compute the ranking |
| `AutoInvest.ScoreOf` | contracts/auto-invest-pool/src/lib.rs:474-483 | the nested loops count the project tags that the user prefers |
| `AutoInvest.MatchProjects` | contracts/auto-invest-pool/src/lib.rs:440-509 | filtering, scoring and sorting give the specified list |
| `AutoInvestContract.AutoInvestPool.MakeDeposit` | contracts/auto-invest-pool/src/lib.rs:121-173 | a new entry with the whole amount is created, or nothing changes; like every method of the class it keeps every account balanced |
| `AutoInvestContract.AutoInvestPool.RunDrip` | contracts/auto-invest-pool/src/lib.rs:182-259 | balance, drip time and invested projects move as specified, or nothing changes |
| `AutoInvestContract.AutoInvestPool.TakeOut` | contracts/auto-invest-pool/src/lib.rs:300-334 | the amount, or all of it, leaves the balance and is returned, or nothing changes |
| `RpcFallback.RpcFallbackService.GetRpcServer` | backend/src/stellar/rpc-fallback.service.ts:101-140 | the recursion terminates, the healthy nodes being its measure, and leaves the specified fields and result |
| `RpcFallback.RpcFallbackService.SelectHealthyNode` | backend/src/stellar/rpc-fallback.service.ts:196-216 | the current node if healthy, else the healthy node of best priority, which becomes current |
| `RpcFallback.RpcFallbackService.HandleNodeFailure` | backend/src/stellar/rpc-fallback.service.ts:222-238 | the node becomes unhealthy, both counts grow, and at the threshold the breaker opens |
| `RpcFallback.RpcFallbackService.ExecuteRpcOperation` | backend/src/stellar/rpc-fallback.service.ts:145-172 | the retry loop leaves the specified fields and result |
| `Waterfall.CalculatePayout` | backend/src/yield/waterfall-engine.service.ts:18-52 | the loop over the sorted tiers gives every recipient its share and the specified remainder; a negative total is refused |

## Left out

- AmmProofs.ReachablePoolsAreValid: is about runs with offers positive and other amounts not negative; for all amounts see `AmmProofs.RunSoundIff`.
- AmmProofs.SharesNeverLoseValue: is about runs of fair calls, because the code accepts others; an unfair one can lower it.
- AmmProofs.SplittingNeverPays: is about pieces that are not negative; with a negative one it is false (`AmmProofs.NegativePieceGains`).
- AmmProofs.SplitTwo: is about amounts that are not negative.
- AmmProofs.QuoteBounds: is about amounts that are not negative; for the others see `AmmProofs.SwapFairIff`.
- AmmProofs.SwapPaysQuote: is about amounts that are not negative.
- AmmProofs.ThereAndBack: is about amounts that are not negative; for single swaps of others see `AmmProofs.SwapFairIff`.
- AmmPool.Pool.Add: does not model the map of pools, the lookup by token pair (which takes the pair in either order but the amounts in the order given) and the positions of users, all of which the code books on the contract's own address.
- AmmPool.Pool.Remove: does not model the map of pools and the positions of users.
- AmmPool.Pool.Trade: does not model the map of pools and the lookup by token pair.
- AutoInvestContract.AutoInvestPool.MakeDeposit: does not model the token, whose address the caller chooses call by call, so that a deposit and its withdrawal may be in different tokens.
- AutoInvestContract.AutoInvestPool.TakeOut: does not model the token either.
- AutoInvestContract.AutoInvestPool.RunDrip: takes the investment call into each project to succeed and not to call back; the number of projects per drip is a constant, as nothing changes it after initialisation.
- Escrow: `require_auth`, events, upgrades, the delay before a resume (pausing is a switch), emergency withdrawals, the yield router, `claim_yield`, deadline extensions, milestone deadlines and proof hashes.
- Escrow: overflow of juror stakes, of the fee pool and of `amount * percent` in 128 bits, and of 32-bit counters and `validators * threshold`; these are unbounded here.
- Escrow: the tokens of deposits and payments are counted and not transferred. Stakes and fees are counted token by token (`configure_dispute_token` may change the token in the middle of a run); `held` is what came in less what went out and not the balance of the contract, which may hold other tokens as well.
- Liquidity pool: overflow of the positions of users in 64 bits, flash loans, exact-output quotes, and dynamic fees in floating point.
- Order books: the lists of orders per user and reading single orders. The maker of every order is the contract itself, so the check of who cancels always passes.
- Oracle network: overflow of the 64-bit sum of the clock and the heartbeat in a report, stakes, slashing, feed types, staleness and fallbacks on reading, and the overflow of rewards in 128 bits.
- Auto-invest pool: balances are unbounded.
- RPC service: calls run one after another; overlap of asynchronous calls with each other and with the health check, request time-outs and logging are not modelled. A try that times out is one that fails.
- Waterfall: rule labels are not modelled.
- Governance: stake-weighted votes on proposals with a quorum and a time lock; stakes are not slashed or shared out, so nothing there moves value as the jury does.
- Cross-chain bridge: amounts locked and wrapped for each chain, released on confirmations by relayers; what the other chains do is outside the repository.
- Perk auction, identity, multi-party payment: a price that falls with time, a register of verified addresses, and shares in basis points of one payment.
- Profit distribution, treasury, subscription pool, reputation, smart wallet: money and scores kept by contracts that the ones modelled here do not call, except for yield, which is left out.
- Base token and milestone oracle: balances of zero are not written, and a second request to unstake replaces the first; neither conserves what it counts, as the code stands.
