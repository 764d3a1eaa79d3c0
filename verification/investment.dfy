/**
 * The vesting record of src/investment/investment.rs, its JSON form, and the pure
 * step the payout scheduler takes on one record: when the next installment is due,
 * how large it is, and the speculative record that a confirmed transfer commits.
 */
module Vesting {
  import opened Wrappers
  import opened Text
  import opened Calendar

  /** `Investment`: one beneficiary's schedule and what has been paid on it so far. */
  datatype Investment = Investment(
    startDate: string,
    vesting: U8,
    cycle: U8,
    remainingPayouts: U8,
    totalAmount: U128,
    paidAmount: U128,
    lastPaymentDate: string)

  /** `InvestmentJson`: the same record with both balances carried as decimal strings. */
  datatype InvestmentJson = InvestmentJson(
    startDate: string,
    vesting: U8,
    cycle: U8,
    remainingPayouts: U8,
    totalAmount: string,
    paidAmount: string,
    lastPaymentDate: string)

  /** `InvestmentInput`: what the owner supplies to create a record. */
  datatype InvestmentInput = InvestmentInput(startDate: string, vesting: U8, cycle: U8, totalAmount: U128)

  // ------------------------------------------------------------- JSON form

  /** `From<Investment> for InvestmentJson`: balances rendered with `to_string`. */
  function ToJson(r: Investment): (j: InvestmentJson)
    ensures 1 <= |j.totalAmount| && AllDigits(j.totalAmount)
    ensures 1 <= |j.paidAmount| && AllDigits(j.paidAmount)
  {
    InvestmentJson(r.startDate, r.vesting, r.cycle, r.remainingPayouts,
                   Decimal(r.totalAmount), Decimal(r.paidAmount), r.lastPaymentDate)
  }

  /** `From<InvestmentJson> for Investment`: balances parsed as `u128`; None is the panic of a failed `expect`. */
  function FromJson(j: InvestmentJson): (r: Option<Investment>)
    ensures r.Some? ==> r.value.startDate == j.startDate && r.value.lastPaymentDate == j.lastPaymentDate
    ensures r.Some? ==> r.value.vesting == j.vesting && r.value.cycle == j.cycle && r.value.remainingPayouts == j.remainingPayouts
    ensures j.totalAmount == [] || j.paidAmount == [] ==> r.None?
  {
    match (ParseUnsigned(j.totalAmount, U128_LIMIT), ParseUnsigned(j.paidAmount, U128_LIMIT))
    case (Some(total), Some(paid)) =>
      Some(Investment(j.startDate, j.vesting, j.cycle, j.remainingPayouts, total, paid, j.lastPaymentDate))
    case _ => None
  }

  lemma DecimalParses(n: nat, bound: nat)
    requires n < bound
    ensures ParseUnsigned(Decimal(n), bound) == Some(n)
  {
    PaddedRoundTrip(n, 0, bound);
  }

  /** A record survives the trip through its JSON form unchanged. */
  lemma JsonRoundTrip(r: Investment)
    ensures FromJson(ToJson(r)) == Some(r)
  {
    DecimalParses(r.totalAmount, U128_LIMIT);
    DecimalParses(r.paidAmount, U128_LIMIT);
  }

  // ------------------------------------------------------ schedule arithmetic

  /** The part of a record that never changes after `add_investor`: the schedule itself. */
  datatype Plan = Plan(startDate: string, vesting: U8, cycle: U8, totalAmount: U128)

  function Schedule(r: Investment): Plan
  {
    Plan(r.startDate, r.vesting, r.cycle, r.totalAmount)
  }

  /** `vesting / cycle`: the number of installments, fixed when the record is created. */
  function Payouts(p: Plan): nat
    requires p.cycle > 0
  {
    p.vesting / p.cycle
  }

  /** The installments already committed to the record. */
  function Committed(r: Investment): int
    requires r.cycle > 0
  {
    Payouts(Schedule(r)) - r.remainingPayouts
  }

  /** `(total_amount / vesting) * cycle`: the size of every installment but the last. */
  function InstallmentSize(p: Plan): nat
    requires p.vesting > 0
  {
    (p.totalAmount / p.vesting) * p.cycle
  }

  /** What has been paid after `k` committed installments: full-size ones, then the whole amount once the last is in. */
  function PaidAfter(p: Plan, k: nat): nat
    requires p.vesting > 0 && p.cycle > 0
  {
    if k == 0 then 0
    else if k == Payouts(p) then p.totalAmount
    else PaidAfter(p, k - 1) + InstallmentSize(p)
  }

  /** The start date as `distribute_token` reads it. */
  function StartOf(p: Plan): Date
    requires ParseDate(p.startDate).Some?
  {
    ParseDate(p.startDate).value
  }

  /** `d` is `n` months after `s`, on the same day of the month. */
  predicate MonthsAfter(d: Date, s: Date, n: int)
  {
    1 <= d.month <= 12 && d.day == s.day && MonthIndex(d) == MonthIndex(s) + n
  }

  /** The due date of installment `j` (counting from 0): the start date advanced `j` times by `cycle` months. */
  function DueDate(p: Plan, j: nat): (d: Date)
    requires p.cycle > 0 && ParseDate(p.startDate).Some? && 1 <= StartOf(p).month <= 12
    ensures 1 <= d.month <= 12
  {
    if j == 0 then StartOf(p) else AddMonth(DueDate(p, j - 1), p.cycle)
  }

  /** A schedule `add_investor` accepts: non-zero vesting and cycle, a start date that reads as a real date. */
  predicate ValidPlan(p: Plan)
  {
    p.cycle > 0 && p.vesting > 0 && ParseDate(p.startDate).Some? && ValidDate(StartOf(p))
  }

  /**
   * The invariant of every stored record: it was created by `add_investor` and has
   * since had `Committed(r)` installments committed, each exactly as the scheduler
   * computed it. The paid amount and the last payment date follow from that count.
   */
  predicate WellFormed(r: Investment)
  {
    && ValidPlan(Schedule(r))
    && Accounted(r)
    && (Committed(r) == 0 ==> r.lastPaymentDate == r.startDate)
    && (Committed(r) > 0 ==> ParseDate(r.lastPaymentDate) == Some(DueDate(Schedule(r), Committed(r) - 1)))
  }

  /** The amounts half of the invariant: no more installments left than scheduled, and the paid amount they call for. */
  predicate Accounted(r: Investment)
  {
    && r.cycle > 0 && r.vesting > 0
    && r.remainingPayouts <= Payouts(Schedule(r))
    && r.paidAmount == PaidAfter(Schedule(r), Committed(r))
  }

  lemma DivBelowDivisor(a: nat, b: nat)
    requires a < b
    ensures a / b == 0
  {
  }

  lemma DivAtLeastOne(a: nat, b: nat)
    requires 0 < b <= a
    ensures a / b >= 1
  {
  }

  /** There are never more installments than vesting periods. */
  lemma DivAtMost(a: nat, b: nat)
    requires b > 0
    ensures a / b <= a
  {
    var q := a / b;
    assert q * b + a % b == a;
    MulMonotone(1, b, q);
  }

  /** With a cycle above one month there are fewer installments than vesting periods. */
  lemma DivByMoreThanOne(a: nat, b: nat)
    requires a > 0 && b > 1
    ensures a / b < a
  {
    var q := a / b;
    assert q * b <= a;
    if q >= a {
      MulMonotone(a, q, b);
      MulMonotone(2, b, a);
    }
  }

  lemma MulMonotone(a: nat, b: nat, c: nat)
    requires a <= b
    ensures a * c <= b * c
  {
  }

  /** `j` installments of `j <= vesting / cycle` take at most `vesting` months. */
  lemma CycleMonthsWithinVesting(j: nat, cycle: nat, vesting: nat)
    requires cycle > 0 && j <= vesting / cycle
    ensures j * cycle <= vesting
  {
    MulMonotone(j, vesting / cycle, cycle);
  }

  /** No number of full-size installments up to `vesting / cycle` exceeds the total amount. */
  lemma InstallmentsWithinTotal(p: Plan, j: nat)
    requires p.vesting > 0 && p.cycle > 0 && j <= Payouts(p)
    ensures j * InstallmentSize(p) <= p.totalAmount
  {
    var q := p.totalAmount / p.vesting;
    CycleMonthsWithinVesting(j, p.cycle, p.vesting);
    assert j * InstallmentSize(p) == (j * p.cycle) * q;
    MulMonotone(j * p.cycle, p.vesting, q);
  }

  /** Before the last installment `k` full-size installments have been paid; at no point more than the total. */
  lemma {:induction false} PaidAfterBound(p: Plan, k: nat)
    requires p.vesting > 0 && p.cycle > 0 && k <= Payouts(p)
    ensures k < Payouts(p) ==> PaidAfter(p, k) == k * InstallmentSize(p)
    ensures PaidAfter(p, k) <= p.totalAmount
  {
    InstallmentsWithinTotal(p, k);
    if 0 < k < Payouts(p) {
      PaidAfterBound(p, k - 1);
      assert (k - 1) * InstallmentSize(p) + InstallmentSize(p) == k * InstallmentSize(p);
    }
  }

  /** The amount paid never exceeds the total, so `total_amount - paid_amount` cannot underflow. */
  lemma PaidWithinTotal(r: Investment)
    requires Accounted(r)
    ensures r.paidAmount <= r.totalAmount
  {
    PaidAfterBound(Schedule(r), Committed(r));
  }

  /** Installment `j` falls `j * cycle` months after the start date, on the start date's day of the month. */
  lemma {:induction false} DueDateMonths(p: Plan, j: nat)
    requires p.cycle > 0 && ParseDate(p.startDate).Some? && 1 <= StartOf(p).month <= 12
    ensures MonthsAfter(DueDate(p, j), StartOf(p), j * p.cycle)
  {
    if j > 0 {
      DueDateMonths(p, j - 1);
      assert (j - 1) * p.cycle + p.cycle == j * p.cycle;
    }
  }

  /** Due dates of a schedule stay within 22 years of its start, well inside `i32`. */
  lemma DueDateYear(p: Plan, j: nat)
    requires p.cycle > 0 && ParseDate(p.startDate).Some? && 1 <= StartOf(p).month <= 12
    requires j <= Payouts(p)
    ensures StartOf(p).year <= DueDate(p, j).year <= StartOf(p).year + 22
    ensures DueDate(p, j).day == StartOf(p).day
  {
    DueDateMonths(p, j);
    CycleMonthsWithinVesting(j, p.cycle, p.vesting);
  }

  // ------------------------------------------------------------ scheduler step

  /** `add_investor`'s record: `vesting / cycle` installments to go, nothing paid, last payment on the start date. */
  function NewInvestment(input: InvestmentInput): (r: Investment)
    requires input.cycle > 0
    ensures Schedule(r) == Plan(input.startDate, input.vesting, input.cycle, input.totalAmount)
    ensures Committed(r) == 0 && r.paidAmount == 0
  {
    Investment(input.startDate, input.vesting, input.cycle, input.vesting / input.cycle,
               input.totalAmount, 0, input.startDate)
  }

  /**
   * The due date `distribute_token` computes: the start date while the count test
   * `vesting / cycle == remaining_payouts` says no installment has been paid yet,
   * otherwise `cycle` months after the last payment date.
   */
  function NextDue(r: Investment): (d: Date)
    requires WellFormed(r)
    ensures 1 <= d.month <= 12
  {
    if r.vesting / r.cycle == r.remainingPayouts then StartOf(Schedule(r))
    else AddMonth(ParseDate(r.lastPaymentDate).value, r.cycle)
  }

  /** The installment is due when it has not run out and its due date is not later than `today` by the date key. */
  predicate IsDue(r: Investment, today: Date): (due: bool)
    requires WellFormed(r)
    ensures due ==> r.remainingPayouts > 0
  {
    r.remainingPayouts > 0 && DateKey(NextDue(r)) <= DateKey(today)
  }

  /** The installment amount: the exact remainder for the last installment, the fixed size otherwise. */
  function Installment(r: Investment): (amount: U128)
    requires Accounted(r) && r.remainingPayouts > 0
    ensures amount <= r.totalAmount - r.paidAmount
  {
    PaidWithinTotal(r);
    InstallmentsWithinTotal(Schedule(r), 1);
    if r.remainingPayouts == 1 then r.totalAmount - r.paidAmount
    else InstallmentFits(r); (r.totalAmount / r.vesting) * r.cycle
  }

  /** Before the last installment one more full-size installment still fits in the total. */
  lemma InstallmentFits(r: Investment)
    requires Accounted(r) && r.remainingPayouts > 1
    ensures r.paidAmount + InstallmentSize(Schedule(r)) <= r.totalAmount
  {
    var p, k := Schedule(r), Committed(r);
    PaidAfterBound(p, k);
    InstallmentsWithinTotal(p, k + 1);
    assert k * InstallmentSize(p) + InstallmentSize(p) == (k + 1) * InstallmentSize(p);
  }

  /** The next due date is the scheduled date of the next installment. */
  lemma NextDueIsScheduled(r: Investment)
    requires WellFormed(r) && r.remainingPayouts > 0
    ensures NextDue(r) == DueDate(Schedule(r), Committed(r))
    ensures StartOf(Schedule(r)).year <= NextDue(r).year <= StartOf(Schedule(r)).year + 22
    ensures NextDue(r).day == StartOf(Schedule(r)).day
  {
    DueDateYear(Schedule(r), Committed(r));
  }

  /** The paid amount after one more installment, as the invariant counts it. */
  lemma PaidAfterStep(r: Investment)
    requires Accounted(r) && r.remainingPayouts > 0
    ensures r.paidAmount + Installment(r) == PaidAfter(Schedule(r), Committed(r) + 1)
    ensures PaidAfter(Schedule(r), Committed(r) + 1) <= r.totalAmount
  {
    var p, k := Schedule(r), Committed(r);
    PaidAfterBound(p, k + 1);
    if r.remainingPayouts == 1 {
      assert k + 1 == Payouts(p);
    } else {
      assert PaidAfter(p, k + 1) == PaidAfter(p, k) + InstallmentSize(p);
    }
  }

  /**
   * The record `distribute_token` sends along with the transfer: one installment
   * fewer, the amount added to what was paid, and the last payment date replaced by
   * the formatted due date when `vesting != remaining_payouts`.
   */
  function Speculative(r: Investment): (next: Investment)
    requires WellFormed(r) && r.remainingPayouts > 0
    ensures Schedule(next) == Schedule(r) && next.remainingPayouts == r.remainingPayouts - 1
  {
    NextDueIsScheduled(r);
    PaidAfterStep(r);
    var due := NextDue(r);
    var amount := Installment(r);
    r.(lastPaymentDate := if r.vesting != r.remainingPayouts then FormatDate(due) else r.lastPaymentDate,
       remainingPayouts := r.remainingPayouts - 1,
       paidAmount := r.paidAmount + amount)
  }

  /**
   * The in-place update `distribute_token` makes on its copy of a due record: the
   * installment, then the last payment date, the count and the paid amount.
   */
  method PayInstallment(investment: Investment, next: Date) returns (amount: U128, paid: Investment)
    requires WellFormed(investment) && investment.remainingPayouts > 0 && next == NextDue(investment)
    ensures amount == Installment(investment) && paid == Speculative(investment)
  {
    amount := Installment(investment);
    PaidAfterStep(investment);
    paid := investment;
    if paid.vesting != paid.remainingPayouts {
      paid := paid.(lastPaymentDate := FormatDate(next));
    }
    paid := paid.(remainingPayouts := paid.remainingPayouts - 1, paidAmount := paid.paidAmount + amount);
  }

  // ------------------------------------------------------------------ lemmas

  /**
   * Every installment but the last is `(total_amount / vesting) * cycle`; the last one
   * is what the others leave of the total.
   */
  lemma InstallmentAmount(r: Investment)
    requires Accounted(r) && r.remainingPayouts > 0
    ensures r.remainingPayouts > 1 ==> Installment(r) == InstallmentSize(Schedule(r))
    ensures r.remainingPayouts == 1 ==>
      Installment(r) == r.totalAmount - (Payouts(Schedule(r)) - 1) * InstallmentSize(Schedule(r))
  {
    PaidAfterBound(Schedule(r), Committed(r));
  }

  /** A record `add_investor` accepts satisfies the invariant, with no installment committed. */
  lemma NewInvestmentWellFormed(input: InvestmentInput)
    requires input.cycle > 0 && input.vesting > 0 && IsValidDateFormat(input.startDate)
    ensures WellFormed(NewInvestment(input)) && Committed(NewInvestment(input)) == 0
  {
    ValidFormatParses(input.startDate);
  }

  /** Every due date of a valid schedule is a plausible calendar date: year 2000..10100, day 1..31. */
  lemma DueDateInRange(p: Plan, j: nat)
    requires ValidPlan(p) && j <= Payouts(p)
    ensures 2000 <= DueDate(p, j).year <= 10100 && 1 <= DueDate(p, j).day <= 31
  {
    DueDateYear(p, j);
  }

  /** A due date of the schedule, written as `{:04}-{:02}-{:02}`, reads back as itself. */
  lemma DueDateFormatted(p: Plan, j: nat)
    requires ValidPlan(p) && j <= Payouts(p)
    ensures DueDate(p, j).year >= 0 && DueDate(p, j).day >= 0
    ensures ParseDate(FormatDate(DueDate(p, j))) == Some(DueDate(p, j))
  {
    DueDateInRange(p, j);
    FormatDateRoundTrip(DueDate(p, j));
  }

  /** The last payment date of the speculative record reads back as the due date just paid. */
  lemma SpeculativeLastPayment(r: Investment)
    requires WellFormed(r) && r.remainingPayouts > 0
    ensures ParseDate(Speculative(r).lastPaymentDate) == Some(DueDate(Schedule(r), Committed(r)))
  {
    NextDueIsScheduled(r);
    if r.vesting != r.remainingPayouts {
      DueDateFormatted(Schedule(r), Committed(r));
      assert Speculative(r).lastPaymentDate == FormatDate(DueDate(Schedule(r), Committed(r)));
    } else {
      DivAtMost(r.vesting, r.cycle);
    }
  }

  /**
   * The invariant carries over to any record on the same schedule with one more
   * installment committed, the paid amount that count calls for, and the due date
   * just paid as its last payment date.
   */
  lemma StepKeepsInvariant(r: Investment, next: Investment)
    requires WellFormed(r) && r.remainingPayouts > 0
    requires Schedule(next) == Schedule(r) && next.remainingPayouts == r.remainingPayouts - 1
    requires next.paidAmount == PaidAfter(Schedule(r), Committed(r) + 1)
    requires ParseDate(next.lastPaymentDate) == Some(DueDate(Schedule(r), Committed(r)))
    ensures WellFormed(next) && Committed(next) == Committed(r) + 1
  {
    StepCommitsOne(r, next);
  }

  /** On the same schedule, one fewer remaining installment is one more committed. */
  lemma StepCommitsOne(r: Investment, next: Investment)
    requires r.cycle > 0
    requires Schedule(next) == Schedule(r) && next.remainingPayouts == r.remainingPayouts - 1
    ensures Committed(next) == Committed(r) + 1
  {
  }

  /**
   * One scheduler step keeps the invariant: the speculative record has one more
   * installment committed, its paid amount grows by exactly the installment, and the
   * schedule itself (start, vesting, cycle, total) is untouched.
   */
  lemma SpeculativeStep(r: Investment)
    requires WellFormed(r) && r.remainingPayouts > 0
    ensures var next := Speculative(r);
      && WellFormed(next)
      && Committed(next) == Committed(r) + 1
      && next.remainingPayouts == r.remainingPayouts - 1
      && next.paidAmount == r.paidAmount + Installment(r)
      && Schedule(next) == Schedule(r)
  {
    PaidAfterStep(r);
    SpeculativeLastPayment(r);
    StepKeepsInvariant(r, Speculative(r));
  }

  /** Once every installment of a non-empty schedule is committed, the whole amount has been paid. */
  lemma FullyPaidAtEnd(r: Investment)
    requires WellFormed(r) && r.remainingPayouts == 0 && Payouts(Schedule(r)) > 0
    ensures r.paidAmount == r.totalAmount
  {
  }

  /** A schedule with more months per cycle than vesting periods gets no installment and is never paid. */
  lemma NeverPaidWhenVestingBelowCycle(input: InvestmentInput, today: Date)
    requires 0 < input.vesting < input.cycle && IsValidDateFormat(input.startDate)
    ensures var r := NewInvestment(input);
      r.remainingPayouts == 0 && !IsDue(r, today) && r.paidAmount == 0
  {
    DivBelowDivisor(input.vesting, input.cycle);
    NewInvestmentWellFormed(input);
  }

  /**
   * The two "first installment" tests differ when `cycle > 1`: the due date comes from
   * the start date, yet the last payment date is rewritten, to the start date as
   * formatted by `{:04}-{:02}-{:02}`. With `cycle == 1` it is kept as stored.
   */
  lemma FirstInstallmentDate(r: Investment)
    requires WellFormed(r) && r.remainingPayouts > 0 && Committed(r) == 0
    ensures NextDue(r) == StartOf(Schedule(r))
    ensures r.cycle > 1 ==> Speculative(r).lastPaymentDate == FormatDate(StartOf(Schedule(r)))
    ensures r.cycle == 1 ==> Speculative(r).lastPaymentDate == r.startDate
  {
    assert r.vesting / r.cycle == r.remainingPayouts;
    if r.cycle > 1 {
      DivByMoreThanOne(r.vesting, r.cycle);
      assert r.vesting != r.remainingPayouts;
    } else {
      assert r.cycle == 1 && r.vesting / 1 == r.vesting;
    }
  }

  /** For a stored record, "due" by the date key means the due date is not later than `today` in calendar order. */
  lemma DueMeansNotLater(r: Investment, today: Date)
    requires WellFormed(r) && r.remainingPayouts > 0
    requires 1 <= today.month <= 12 && 0 <= today.day < 100
    ensures IsDue(r, today) <==> ChronologicallyNotAfter(NextDue(r), today)
  {
    NextDueIsScheduled(r);
    DateKeyOrder(NextDue(r), today);
  }

  // ------------------------------------------------- a schedule run to its end

  /** The record after `k` successive installments are each committed. */
  function Advance(r: Investment, k: nat): Investment
    requires WellFormed(r) && k <= r.remainingPayouts
    decreases k
  {
    if k == 0 then r
    else
      SpeculativeStep(r);
      Advance(Speculative(r), k - 1)
  }

  /** The amounts of the next `k` installments. */
  function Installments(r: Investment, k: nat): seq<nat>
    requires WellFormed(r) && k <= r.remainingPayouts
    decreases k
  {
    if k == 0 then []
    else
      SpeculativeStep(r);
      [Installment(r) as nat] + Installments(Speculative(r), k - 1)
  }

  function Sum(s: seq<nat>): nat
  {
    if s == [] then 0 else s[0] + Sum(s[1..])
  }

  /** Committing `k` installments keeps the invariant. */
  lemma {:induction false} AdvanceKeepsInvariant(r: Investment, k: nat)
    requires WellFormed(r) && k <= r.remainingPayouts
    ensures WellFormed(Advance(r, k))
    decreases k
  {
    if k > 0 {
      var next := Speculative(r);
      SpeculativeStep(r);
      AdvanceKeepsInvariant(next, k - 1);
      assert Advance(r, k) == Advance(next, k - 1);
    }
  }

  /** Committing `k` installments uses up `k` of the remaining ones and leaves the schedule as it was. */
  lemma {:induction false} AdvanceCounts(r: Investment, k: nat)
    requires WellFormed(r) && k <= r.remainingPayouts
    ensures Advance(r, k).remainingPayouts == r.remainingPayouts - k
    ensures Schedule(Advance(r, k)) == Schedule(r)
    decreases k
  {
    if k > 0 {
      var next := Speculative(r);
      SpeculativeStep(r);
      AdvanceCounts(next, k - 1);
      assert Advance(r, k) == Advance(next, k - 1);
    }
  }

  /** Committing `k` installments adds exactly their amounts to what was paid. */
  lemma {:induction false} AdvanceAccounts(r: Investment, k: nat)
    requires WellFormed(r) && k <= r.remainingPayouts
    ensures Advance(r, k).paidAmount == r.paidAmount + Sum(Installments(r, k))
    decreases k
  {
    if k > 0 {
      var next := Speculative(r);
      SpeculativeStep(r);
      AdvanceAccounts(next, k - 1);
      var rest := Installments(next, k - 1);
      assert Installments(r, k) == [Installment(r) as nat] + rest;
      assert ([Installment(r) as nat] + rest)[1..] == rest;
    }
  }

  /**
   * Full distribution: a new record with at least one installment, run through all
   * `vesting / cycle` of them, ends with nothing left to pay and the installments
   * add up to the total amount exactly.
   */
  lemma ScheduleCompletes(input: InvestmentInput)
    requires 0 < input.cycle <= input.vesting && IsValidDateFormat(input.startDate)
    ensures var r := NewInvestment(input);
      && Advance(r, r.remainingPayouts).remainingPayouts == 0
      && Advance(r, r.remainingPayouts).paidAmount == input.totalAmount
      && Sum(Installments(r, r.remainingPayouts)) == input.totalAmount
  {
    var r := NewInvestment(input);
    NewInvestmentWellFormed(input);
    DivAtLeastOne(input.vesting, input.cycle);
    AdvanceKeepsInvariant(r, r.remainingPayouts);
    AdvanceCounts(r, r.remainingPayouts);
    AdvanceAccounts(r, r.remainingPayouts);
    FullyPaidAtEnd(Advance(r, r.remainingPayouts));
  }

  /** 1000 over three monthly installments pays 333, 333 and then the remainder 334. */
  lemma ThreeInstallmentsExample(r: Investment)
    requires Accounted(r) && r.totalAmount == 1000 && r.vesting == 3 && r.cycle == 1
    requires r.remainingPayouts > 0
    ensures Installment(r) == if r.remainingPayouts == 1 then 334 else 333
  {
    InstallmentAmount(r);
  }
}
