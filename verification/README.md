# Vesting contract: a Dafny model

This project models the core of a NEAR token-vesting contract
(`src/investment/investment.rs` with the `Contract` state of `src/lib.rs`) and proves
properties of that model.

The contract's owner registers investors. Each investor gets a schedule:
- a start date;
- a number of vesting months;
- a cycle length in months;
- a total amount.

A permissionless `distribute_token` pass looks at every investor. For each one whose next installment is due by the block's calendar date, it sends an `ft_transfer`. Attached to that transfer is the investor's record as it will be once the installment is paid. The `on_ft_transfer_success` callback stores that record only if the transfer succeeded.

The model has five modules:

- `Wrappers` holds `Option`.
- `Text` (text.dfy) holds the Rust string and integer behaviour the contract relies on:
  - `str::split`, which keeps empty pieces;
  - `parse::<u32>`, `parse::<i32>` and `parse::<u128>`, which accept a leading `+`, and for `i32` a leading `-`;
  - `to_string`, and `format!("{:0N}")` zero padding.
- `Calendar` (calendar.dfy) holds the date functions:
  - `is_leap_year`;
  - `add_month`;
  - `get_current_date`, a method with the source's two loops and its month-length array. It is proved to return the one calendar date whose day number is `timestamp / 86400`.
  - the date-key comparison;
  - `is_valid_date_format`, and the date format `{:04}-{:02}-{:02}`.
- `Vesting` (investment.dfy) holds the `Investment`, `InvestmentJson` and `InvestmentInput` records, plus the two `From` conversions and their round trip.
  - It defines the invariant `WellFormed`. In that invariant:
    - the remaining count fixes how many installments are committed;
    - the paid amount is what that count calls for;
    - the last payment date reads back as the due date of the last committed installment.
  - It defines the scheduler step on one record: the due date, the installment, and the speculative next record.
  - It proves that a step keeps the invariant.
  - It proves that running a schedule to its end pays exactly the total.
- `Ledger` (ledger.dfy) holds the `Contract` class, with fields `ownerId`, `tokenContractAddress`, `totalSupply` and `investors`. There is also a `keys` sequence, which stands for the iteration order of the `UnorderedMap`. The class has three methods:
  - `AddInvestor` checks the guards in the source's order, then does an overwriting insert.
  - `DistributeToken` is a loop over the keys. It returns the transfers it would start, and it leaves the ledger untouched.
  - `OnFtTransferSuccess` commits on success and changes nothing on failure.

The caller, the block timestamp and the outcome of the transfer are method parameters.

Two facts about the code, stated as written:
- `add_investor` replaces an existing record for the same account (src/investment/investment.rs:109).
- Block timestamp 1693274924 s is the date 2023-08-29 UTC (`Calendar.TimestampExample`).

Some behaviours are kept as written and stated as lemmas:
- **The two "first installment" tests disagree.** The due date uses `vesting / cycle == remaining`, but the last-payment rewrite uses `vesting != remaining`. When the cycle is above one month, the first payment rewrites `last_payment_date` to the re-formatted start date (`Vesting.FirstInstallmentDate`).
- **A schedule with `vesting < cycle` gets zero installments and is never paid** (`Vesting.NeverPaidWhenVestingBelowCycle`).
- **`add_month` does not clamp the day.** So 2023-01-31 plus one month is 2023-02-31, which the validator would reject (`Calendar.AddMonthExamples`). The scheduler computes such dates and compares them by key. Once an installment is paid, it stores them as the last payment date.
- **The validator checks the length and the values, not the layout.** It accepts `+2023-1-01` and `2023-1-001` (`Calendar.LenientSignAccepted`, `Calendar.LenientPaddingAccepted`).

## Model

| member | source | states |
|---|---|---|
| Text.Decimal | src/investment/investment.rs:36-37 | `to_string` of a balance is a non-empty run of decimal digits |
| Text.DecimalRoundTrip | src/investment/investment.rs:36-54 | the digits `to_string` writes read back as the same number |
| Text.PaddedRoundTrip | src/investment/investment.rs:141-143 | a `{:0N}`-padded number is all digits and parses back to itself, as any unsigned type wide enough for it |
| Text.Split | src/investment/investment.rs:243 | `split` always yields at least one piece |
| Text.SplitThree | src/investment/investment.rs:243-246 | a string with two separators and no others splits into exactly the three pieces around them |
| Text.SplitAtSeparator | src/investment/investment.rs:243 | splitting peels off the piece before the first separator and splits the rest |
| Text.ParseUnsigned | src/investment/investment.rs:53-54 | `parse::<u32>` / `parse::<u128>` (also at lines 125 and 128): an accepted string gives a value below the type's bound, and an empty string or a lone `+` is rejected; `Text.PaddedRoundTrip` and `Vesting.DecimalParses` pin what it reads back |
| Text.ParseI32 | src/investment/investment.rs:248-250 | `parse::<i32>` (also at lines 125 and 128): an accepted string gives a value within `i32`, and an empty string or a lone sign is rejected; `Calendar.FormatDateRoundTrip` and `Calendar.LenientSignAccepted` pin what it reads back |
| Calendar.MonthLength | src/investment/investment.rs:214-217 | every entry of the leap-patched month table is 28..31 days |
| Calendar.IsLeapYear | src/investment/investment.rs:234-236 | a leap year is divisible by 4, and from 2000 to 2099 divisibility by 4 is the whole rule; `Calendar.FourYearBlock` and `Calendar.AcceptedLeapDay` pin it further |
| Calendar.FourYearBlock | src/investment/investment.rs:234-236 | by the leap rule, each four-year block starting at 1970, 1974, …, 2094 holds exactly 1461 days |
| Calendar.CurrentDate | src/investment/investment.rs:192-232 | the loops return a real date from 1970 on whose day number is `timestamp / 10^9 / 86400` |
| Calendar.DateOfDayUnique | src/investment/investment.rs:192-232 | two real dates with the same day number are equal, so the date `get_current_date` returns is the only correct one |
| Calendar.TimestampExample | tests/main.rs:170-175 | block timestamp 1693274924000000000 ns is 2023-08-29 |
| Calendar.AddMonth | src/investment/investment.rs:181-190 | the result's month is 1..12, its day is the input day, and it lies exactly `cycle` months after the input on the month scale |
| Calendar.AddMonthExamples | src/investment/investment.rs:181-190 | December rolls over into January of the next year, twelve months keeps the month, and January 31 plus one month is February 31, which is not a real date |
| Calendar.AddTwelveMonths | src/investment/investment.rs:181-190 | twelve months on from any real month is the same month and day of the next year |
| Calendar.DateKey | src/investment/investment.rs:131 | `y*10000 + m*100 + d`: for years up to 400 000, months up to 12 and days up to 31 the key fits in `u32`, so the source's `u32` arithmetic does not wrap; `Calendar.DateKeyOrder` states the order it gives |
| Calendar.AddMonthEarlyDayValid | tests/main.rs:143-168 | any cycle applied to a real date with day 1..28 gives a date the validator accepts once formatted, as long as the year stays at or below 9999 |
| Calendar.DateKeyOrder | src/investment/investment.rs:131-133 | for months 1..12 and days below 100, comparing `y*10000 + m*100 + d` keys is the same as calendar order, in both directions |
| Calendar.IsValidDateFormat | src/investment/investment.rs:238-277 | accepted exactly when the string has 10 characters, splits into three `i32` pieces, and they form a real date in 2000..9999; the source tests the UTF-8 byte length, which gives the same verdict because an accepted string holds only ASCII digits, `+` and `-` |
| Calendar.DayFitsMonth | src/investment/investment.rs:265-276 | the per-month day limit, leap February included, is exactly the calendar's month length |
| Calendar.FormatDate | src/investment/investment.rs:142 | `{:04}-{:02}-{:02}` of non-negative fields is at least ten characters long; `Calendar.FormatDateRoundTrip` states that it reads back as the same date |
| Calendar.ParseDate | src/investment/investment.rs:124-128 | a date read by the scheduler has an `i32` year and `u32` month and day, and a string with fewer than three `-`-separated pieces is the panic of `components[2]`; `Calendar.ValidFormatParses` and `Calendar.FormatDateRoundTrip` state what it reads |
| Calendar.FormatDateRoundTrip | src/investment/investment.rs:141-143 | a date written as `{:04}-{:02}-{:02}` reads back as itself, both as the scheduler reads dates (`i32`, `u32`, `u32`) and as the validator reads them (`i32` ×3) |
| Calendar.FormattedDateValidity | src/investment/investment.rs:238-277 | a formatted date is accepted exactly when it is a real date with a year in 2000..9999 |
| Calendar.ValidFormatParses | src/investment/investment.rs:123-125 | a start date the validator accepted is read by the scheduler as the same real date |
| Calendar.RejectedExamples | src/investment/investment.rs:261-276 | "2023-02-30" (tests/main.rs:80-101), "2023-00-10" and "2023-13-01" (month out of 1..12) and "2023-02-29" (February 29th of a common year) are each rejected |
| Calendar.AcceptedLeapDay | src/investment/investment.rs:268-273 | "2024-02-29" is accepted |
| Calendar.AcceptedNewYear | tests/main.rs:103-124 | "2023-01-01" is accepted |
| Calendar.LenientSignAccepted | src/investment/investment.rs:238-258 | "+2023-1-01" is accepted, as the date 2023-01-01 |
| Calendar.LenientPaddingAccepted | src/investment/investment.rs:238-258 | "2023-1-001" is accepted, as the date 2023-01-01 |
| Vesting.JsonRoundTrip | src/investment/investment.rs:34-66 | converting a record to `InvestmentJson` and back gives the same record, so the callback's parse never panics on a record the scheduler built |
| Vesting.ToJson | src/investment/investment.rs:34-49 | both balances are written as non-empty runs of decimal digits; `Vesting.JsonRoundTrip` states that they read back |
| Vesting.FromJson | src/investment/investment.rs:51-66 | a successful conversion copies the schedule fields, the count and the last payment date unchanged, and an empty balance string is a panic; `Vesting.JsonRoundTrip` states that it inverts `Vesting.ToJson` |
| Vesting.PaidAfterBound | src/investment/investment.rs:135-139 | before the last installment, `k` installments of `(total / vesting) * cycle` have been paid, and never more than the total |
| Vesting.PaidWithinTotal | src/investment/investment.rs:136 | in a record that keeps the invariant, `total_amount - paid_amount` cannot underflow |
| Vesting.InstallmentFits | src/investment/investment.rs:138 | before the last installment, one more `(total / vesting) * cycle` still fits in what is left of the total |
| Vesting.Installment | src/investment/investment.rs:135-139 | the exact remainder on the last installment, `(total / vesting) * cycle` otherwise; either way it is no more than what is left, so `paid_amount += amount` cannot exceed the total; see `Vesting.InstallmentAmount`, `Vesting.PaidAfterStep` |
| Vesting.NewInvestment | src/investment/investment.rs:95-103 | the new record carries the given schedule, has no installment committed and nothing paid; `Vesting.NewInvestmentWellFormed` states that it keeps the invariant |
| Vesting.NextDue | src/investment/investment.rs:123-129 | the due date has a month in 1..12; `Vesting.NextDueIsScheduled` states that it is the schedule's date for the next installment |
| Vesting.IsDue | src/investment/investment.rs:117-133 | only a record with installments left is due; `Vesting.DueMeansNotLater` states that due means the due date is not later than today |
| Vesting.Speculative | src/investment/investment.rs:141-145 | the next record keeps the schedule and has one installment fewer to go; `Vesting.SpeculativeStep` and `Vesting.SpeculativeLastPayment` state that it keeps the invariant with the paid installment committed |
| Vesting.DueDateMonths | src/investment/investment.rs:123-129 | installment `j` falls `j * cycle` months after the start date |
| Vesting.DueDateYear | src/investment/investment.rs:123-129 | every due date of a schedule is within 22 years of the start and keeps the start's day of the month |
| Vesting.NextDueIsScheduled | src/investment/investment.rs:123-129 | the due date the scheduler computes from a stored record is the schedule's date for the next installment |
| Vesting.PaidAfterStep | src/investment/investment.rs:135-145 | adding the installment to the paid amount gives what one more committed installment calls for, which is within the total |
| Vesting.PayInstallment | src/investment/investment.rs:135-145 | the in-place update of a due record yields the installment amount and the speculative record |
| Vesting.InstallmentAmount | src/investment/investment.rs:135-139 | every installment but the last is `(total / vesting) * cycle`, and the last is what the others leave of the total |
| Vesting.NewInvestmentWellFormed | src/investment/investment.rs:95-103 | a record `add_investor` accepts keeps the invariant, with no installment committed |
| Vesting.DueDateFormatted | src/investment/investment.rs:141-143 | a due date of a valid schedule, once formatted, reads back as itself |
| Vesting.SpeculativeLastPayment | src/investment/investment.rs:141-143 | the speculative record's last payment date reads back as the due date just paid |
| Vesting.SpeculativeStep | src/investment/investment.rs:135-145 | a step keeps the invariant: one more installment committed, the installment added to the paid amount, and the schedule itself unchanged |
| Vesting.FullyPaidAtEnd | src/investment/investment.rs:135-139 | for a schedule with at least one installment (`cycle <= vesting`), once none remains the paid amount is the total; `Vesting.NeverPaidWhenVestingBelowCycle` covers the other case |
| Vesting.NeverPaidWhenVestingBelowCycle | src/investment/investment.rs:117-119 | with `vesting < cycle`, a new record has no installments, is never due and stays unpaid |
| Vesting.FirstInstallmentDate | src/investment/investment.rs:123-143 | the first installment is due on the start date; with a cycle above one month its last payment date is rewritten to the formatted start date, and with a monthly cycle it is kept |
| Vesting.DueMeansNotLater | src/investment/investment.rs:131-133 | for a stored record, due by the date key means the due date is not later than today in calendar order, and conversely |
| Vesting.AdvanceKeepsInvariant | src/investment/investment.rs:135-145 | committing any number of installments in turn keeps the invariant |
| Vesting.AdvanceCounts | src/investment/investment.rs:144 | committing `k` installments uses up `k` and leaves the schedule as it was |
| Vesting.AdvanceAccounts | src/investment/investment.rs:145 | committing `k` installments adds exactly their amounts to the paid amount |
| Vesting.ScheduleCompletes | src/investment/investment.rs:135-145 | a new schedule with at least one installment, run to its end, has nothing left and has paid exactly the total, and its installments sum to the total |
| Vesting.ThreeInstallmentsExample | src/investment/investment.rs:135-139 | 1000 over three monthly installments is paid as 333, 333, then 334 |
| Ledger.KeysAfterInsert | src/investment/investment.rs:109 | after an insert the key order holds the new key and every old one, with at most one key added |
| Ledger.InsertKeepsConsistent | src/investment/investment.rs:109 | storing a well-formed record keeps the ledger invariant: each stored account is listed once, and every record is well formed |
| Ledger.CheckInvestor | src/investment/investment.rs:86-107 | accepted exactly when every guard passes; each panic is raised exactly when its guard fails and all earlier ones pass (owner, date, cycle, vesting, amount > 0, amount ≤ supply) |
| Ledger.DateGuardBeforeSupply | tests/main.rs:80-101 | an invalid date is reported even when the amount also exceeds the supply |
| Ledger.CycleGuardBeforeSupply | tests/main.rs:103-124 | a zero cycle is reported even when the amount also exceeds the supply |
| Ledger.DispatchesSound | src/investment/investment.rs:113-160 | every transfer of a pass goes to a listed key whose record is due, for that record's installment, and carries that record's next state |
| Ledger.DispatchesReachDueKeys | src/investment/investment.rs:114-133 | the receivers of a pass are exactly the due keys, in key order |
| Ledger.DispatchesOncePerDueKey | src/investment/investment.rs:114-133 | with distinct keys, a pass sends one transfer to each account whose record is due and none to any other account |
| Ledger.TransferRecordCommits | src/investment/investment.rs:160-171 | the record a transfer carries reads back from JSON as the next state of the paid record, which keeps the invariant |
| Ledger.Contract.constructor | src/lib.rs:27-39 | a new contract has the given owner, supply and token contract, and an empty ledger |
| Ledger.Contract.AddInvestor | src/investment/investment.rs:86-110 | the outcome is the first failing guard; on failure nothing changes; on success the new record replaces any previous one under that account, and the new account is appended to the key order |
| Ledger.Contract.DistributeToken | src/investment/investment.rs:113-163 | returns the block's calendar date (the one date whose day number is the timestamp's) and the transfers of one pass: exactly one per due key, in key order; the ledger is not written |
| Ledger.Contract.DistributeTo | src/investment/investment.rs:116-160 | one loop iteration skips a missing, finished or not-yet-due record, and otherwise yields that record's installment and next state |
| Ledger.Contract.OnFtTransferSuccess | src/investment/investment.rs:166-178 | it panics exactly when a balance fails to parse, whatever the transfer outcome; on a successful transfer it stores the record; otherwise nothing changes; the invariant is kept |

## Left out

- Ledger.Contract.OnFtTransferSuccess: requires that the record it gets, once parsed, keeps the invariant. The callback is `#[private]` and only ever gets records built by `distribute_token`. `Ledger.TransferRecordCommits` proves this holds for those records.
- Ledger.Contract.DistributeToken: computes the block's date once, before the loop, and returns it with the transfers; the source returns nothing. The source computes it inside the loop for each record with installments left, but every call reads the same block timestamp.
- Calendar.AddMonth: requires `month + cycle` to stay within `i32`. That leaves out the `u32` overflow of `month + cycle - 1` and the wrapping `as i32` cast for months of 2^31 and above. The year addition is modelled without `i32` overflow. Records that keep the invariant have months 1..12 and years below 10101, so none of these arise.
- Calendar.DateKey: the `u32` date key is modelled on unbounded integers. It cannot overflow for years 0 to 429 496, which covers every date the contract computes; a negative year would wrap in the source's `as u32` cast.
- `get_all_investors` is a read-only listing and is not modelled.
- The `Promise` call, the `ft_transfer` JSON arguments, `NO_DEPOSIT` and `GAS_FOR_FT_TRANSFER` are not modelled; a transfer is the receiver, the amount and the attached record.
- The environment (`predecessor_account_id`, `block_timestamp`, the promise result) becomes method parameters. Logging is not modelled.
- Storage is not modelled. The `UnorderedMap` is a map plus the key order it iterates in. Borsh and serde encodings are not modelled.
- Overlapping `distribute_token` calls can pay the same installment twice before either callback commits. Each pass is modelled on its own, so the model does not capture that race.
- A panic is an error result. Because a NEAR call that panics rolls back its state, a failed guard or parse leaves the state unchanged.
