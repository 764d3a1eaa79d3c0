/**
 * The contract state of src/lib.rs and the three entry points of
 * src/investment/investment.rs that act on it: `add_investor`, `distribute_token`
 * and the `on_ft_transfer_success` callback. The caller, the block timestamp and the
 * outcome of the token transfer are parameters; the outgoing transfer promises are
 * returned as a sequence.
 */
module Ledger {
  import opened Wrappers
  import opened Text
  import opened Calendar
  import opened Vesting

  type AccountId = string

  /** The panics of `add_investor`, one per guard, in the order they are checked. */
  datatype AddError = NotOwner | InvalidDate | ZeroCycle | ZeroVesting | ZeroAmount | ExceedsSupply

  /** A pending `ft_transfer` promise and the record its callback is to commit. */
  datatype Transfer = Transfer(receiver: AccountId, amount: U128, record: InvestmentJson)

  predicate Distinct(s: seq<AccountId>)
  {
    forall i, j :: 0 <= i < j < |s| ==> s[i] != s[j]
  }

  predicate AllWellFormed(investors: map<AccountId, Investment>)
  {
    forall a | a in investors :: WellFormed(investors[a])
  }

  /** `keys` lists every stored account exactly once. */
  ghost predicate KeyedBy(investors: map<AccountId, Investment>, keys: seq<AccountId>)
  {
    && (forall a :: a in investors <==> a in keys)
    && Distinct(keys)
  }

  /** The ledger invariant: the keys are in order and every stored record is well formed. */
  ghost predicate Consistent(investors: map<AccountId, Investment>, keys: seq<AccountId>)
  {
    KeyedBy(investors, keys) && AllWellFormed(investors)
  }

  /** The key order after storing under `id`: unchanged for a known key, `id` appended for a new one. */
  function KeysAfterInsert(keys: seq<AccountId>, id: AccountId): (k: seq<AccountId>)
    ensures id in k && (forall a :: a in keys ==> a in k)
    ensures |k| <= |keys| + 1
  {
    if id in keys then keys else keys + [id]
  }

  /** Storing under any key keeps the key order in step with the map. */
  lemma InsertKeepsKeys(investors: map<AccountId, Investment>, keys: seq<AccountId>, id: AccountId, r: Investment)
    requires KeyedBy(investors, keys)
    ensures KeyedBy(investors[id := r], KeysAfterInsert(keys, id))
  {
    var k := KeysAfterInsert(keys, id);
    forall a
      ensures a in investors[id := r] <==> a in k
    {
      if a != id && a in k && id !in keys {
        assert k == keys + [id];
        assert a in keys;
      }
    }
    if id !in keys {
      forall i, j | 0 <= i < j < |k|
        ensures k[i] != k[j]
      {
        if j == |keys| {
          assert k[i] == keys[i];
        }
      }
    }
  }

  /** Storing a well-formed record keeps the ledger invariant. */
  lemma InsertKeepsConsistent(investors: map<AccountId, Investment>, keys: seq<AccountId>, id: AccountId, r: Investment)
    requires Consistent(investors, keys) && WellFormed(r)
    ensures Consistent(investors[id := r], KeysAfterInsert(keys, id))
  {
    InsertKeepsKeys(investors, keys, id, r);
  }

  // ------------------------------------------------------------ add_investor

  /**
   * The guards of `add_investor`: the first one that fails, or None when the record
   * is accepted. Each error is reported exactly when every earlier guard passed.
   */
  function CheckInvestor(owner: AccountId, supply: U128, caller: AccountId, input: InvestmentInput): (e: Option<AddError>)
    ensures e.None? <==>
      && caller == owner && IsValidDateFormat(input.startDate)
      && input.cycle > 0 && input.vesting > 0
      && 0 < input.totalAmount <= supply
    ensures e == Some(NotOwner) <==> caller != owner
    ensures e == Some(InvalidDate) <==> caller == owner && !IsValidDateFormat(input.startDate)
    ensures e == Some(ZeroCycle) <==> caller == owner && IsValidDateFormat(input.startDate) && input.cycle == 0
    ensures e == Some(ZeroVesting) <==>
      caller == owner && IsValidDateFormat(input.startDate) && input.cycle > 0 && input.vesting == 0
    ensures e == Some(ZeroAmount) <==>
      caller == owner && IsValidDateFormat(input.startDate) && input.cycle > 0 && input.vesting > 0 && input.totalAmount == 0
    ensures e == Some(ExceedsSupply) <==>
      caller == owner && IsValidDateFormat(input.startDate) && input.cycle > 0 && input.vesting > 0 && input.totalAmount > supply
  {
    if caller != owner then Some(NotOwner)
    else if !IsValidDateFormat(input.startDate) then Some(InvalidDate)
    else if input.cycle == 0 then Some(ZeroCycle)
    else if input.vesting == 0 then Some(ZeroVesting)
    else if input.totalAmount == 0 then Some(ZeroAmount)
    else if input.totalAmount > supply then Some(ExceedsSupply)
    else None
  }

  /** An invalid start date is reported before an amount over the supply, as the contract's tests expect. */
  lemma DateGuardBeforeSupply(owner: AccountId, supply: U128, input: InvestmentInput)
    requires input.startDate == "2023-02-30" && input.totalAmount > supply
    ensures CheckInvestor(owner, supply, owner, input) == Some(InvalidDate)
  {
    RejectedExamples(input.startDate);
  }

  /** A zero cycle is reported before an amount over the supply, as the contract's tests expect. */
  lemma CycleGuardBeforeSupply(owner: AccountId, supply: U128, input: InvestmentInput)
    requires input.startDate == "2023-01-01" && input.cycle == 0 && input.totalAmount > supply
    ensures CheckInvestor(owner, supply, owner, input) == Some(ZeroCycle)
  {
    AcceptedNewYear(input.startDate);
  }

  // -------------------------------------------------------- distribute_token

  /** What `distribute_token` sends to one key: one transfer when its record is due today, nothing otherwise. */
  function DispatchFor(investors: map<AccountId, Investment>, today: Date, id: AccountId): seq<Transfer>
    requires AllWellFormed(investors)
  {
    if id in investors && IsDue(investors[id], today) then
      var r := investors[id];
      [Transfer(id, Installment(r), ToJson(Speculative(r)))]
    else []
  }

  /** The transfers of one pass over `keys`, in key order. */
  function Dispatches(keys: seq<AccountId>, investors: map<AccountId, Investment>, today: Date): seq<Transfer>
    requires AllWellFormed(investors)
  {
    if keys == [] then []
    else Dispatches(keys[..|keys| - 1], investors, today) + DispatchFor(investors, today, keys[|keys| - 1])
  }

  lemma DispatchesExtend(keys: seq<AccountId>, i: nat, investors: map<AccountId, Investment>, today: Date)
    requires AllWellFormed(investors) && i < |keys|
    ensures Dispatches(keys[..i + 1], investors, today)
         == Dispatches(keys[..i], investors, today) + DispatchFor(investors, today, keys[i])
  {
    assert keys[..i + 1][..i] == keys[..i];
  }

  /** A due record is sent its installment and its next state. */
  lemma DueDispatch(investors: map<AccountId, Investment>, today: Date, id: AccountId)
    requires AllWellFormed(investors) && id in investors
    requires investors[id].remainingPayouts > 0 && DateKey(NextDue(investors[id])) <= DateKey(today)
    ensures DispatchFor(investors, today, id) == [Transfer(id, Installment(investors[id]), ToJson(Speculative(investors[id])))]
  {
  }

  /** What one key contributes: at most one transfer, addressed to that key, exactly when its record is due. */
  lemma DispatchForShape(investors: map<AccountId, Investment>, today: Date, id: AccountId)
    requires AllWellFormed(investors)
    ensures |DispatchFor(investors, today, id)| <= 1
    ensures DispatchFor(investors, today, id) != [] <==> id in investors && IsDue(investors[id], today)
    ensures forall t | t in DispatchFor(investors, today, id) :: t.receiver == id && Pays(investors, today, t)
  {
  }

  /** `t` pays the installment due on its receiver's stored record and carries that record's next state. */
  predicate Pays(investors: map<AccountId, Investment>, today: Date, t: Transfer)
    requires AllWellFormed(investors)
  {
    && t.receiver in investors
    && IsDue(investors[t.receiver], today)
    && t.amount == Installment(investors[t.receiver])
    && t.record == ToJson(Speculative(investors[t.receiver]))
  }

  /** Every transfer of a pass goes to one of the keys and pays exactly what its record is due. */
  lemma {:induction false} DispatchesSound(keys: seq<AccountId>, investors: map<AccountId, Investment>, today: Date)
    requires AllWellFormed(investors)
    ensures forall i :: 0 <= i < |Dispatches(keys, investors, today)| ==>
      Dispatches(keys, investors, today)[i].receiver in keys && Pays(investors, today, Dispatches(keys, investors, today)[i])
  {
    if keys != [] {
      var init := keys[..|keys| - 1];
      DispatchesSound(init, investors, today);
      var ts := Dispatches(keys, investors, today);
      var head := Dispatches(init, investors, today);
      var one := DispatchFor(investors, today, keys[|keys| - 1]);
      DispatchForShape(investors, today, keys[|keys| - 1]);
      forall i | 0 <= i < |ts|
        ensures ts[i].receiver in keys && Pays(investors, today, ts[i])
      {
        if i < |head| {
          assert ts[i] == head[i];
          assert head[i].receiver in init;
        } else {
          assert ts[i] == one[i - |head|] && one[i - |head|] in one;
        }
      }
    }
  }

  /** The receivers of the transfers, in order. */
  function Receivers(ts: seq<Transfer>): (rs: seq<AccountId>)
    ensures |rs| == |ts|
  {
    if ts == [] then [] else Receivers(ts[..|ts| - 1]) + [ts[|ts| - 1].receiver]
  }

  lemma {:induction false} ReceiversAppend(xs: seq<Transfer>, ys: seq<Transfer>)
    ensures Receivers(xs + ys) == Receivers(xs) + Receivers(ys)
    decreases |ys|
  {
    if ys != [] {
      var init, zs := ys[..|ys| - 1], xs + ys;
      assert zs[..|zs| - 1] == xs + init;
      assert zs[|zs| - 1] == ys[|ys| - 1];
      ReceiversAppend(xs, init);
    } else {
      assert xs + ys == xs;
    }
  }

  /** The accounts whose stored record is due today. */
  ghost function DueSet(investors: map<AccountId, Investment>, today: Date): set<AccountId>
    requires AllWellFormed(investors)
  {
    set a | a in investors && IsDue(investors[a], today)
  }

  /** The keys that belong to `due`, in key order. */
  function Filter(keys: seq<AccountId>, due: set<AccountId>): seq<AccountId>
  {
    if keys == [] then [] else Filter(keys[..|keys| - 1], due) + (if keys[|keys| - 1] in due then [keys[|keys| - 1]] else [])
  }

  lemma {:induction false} FilterKeeps(keys: seq<AccountId>, due: set<AccountId>)
    ensures forall a :: a in Filter(keys, due) <==> a in keys && a in due
    ensures Distinct(keys) ==> Distinct(Filter(keys, due))
  {
    if keys != [] {
      var init, last := keys[..|keys| - 1], keys[|keys| - 1];
      FilterKeeps(init, due);
      assert keys == init + [last];
      if Distinct(keys) {
        assert Distinct(init);
        assert last !in init;
      }
    }
  }

  /** A sequence without repeats holds each element once. */
  lemma {:induction false} DistinctOnce(s: seq<AccountId>, a: AccountId)
    requires Distinct(s)
    ensures multiset(s)[a] == if a in s then 1 else 0
  {
    if s != [] {
      var init := s[..|s| - 1];
      assert s == init + [s[|s| - 1]];
      assert Distinct(init);
      DistinctOnce(init, a);
    }
  }

  /** A pass pays exactly the due keys, in key order. */
  lemma {:induction false} DispatchesReachDueKeys(keys: seq<AccountId>, investors: map<AccountId, Investment>, today: Date)
    requires AllWellFormed(investors)
    ensures Receivers(Dispatches(keys, investors, today)) == Filter(keys, DueSet(investors, today))
  {
    if keys != [] {
      var init, last := keys[..|keys| - 1], keys[|keys| - 1];
      DispatchesReachDueKeys(init, investors, today);
      var one := DispatchFor(investors, today, last);
      ReceiversAppend(Dispatches(init, investors, today), one);
      DispatchForShape(investors, today, last);
      if one != [] {
        assert one == [one[0]] && one[0] in one;
        assert Receivers(one) == [last] by { assert one[..0] == []; }
      }
    }
  }

  /**
   * With distinct keys, a pass sends exactly one transfer to each key whose record
   * is due today and none to any other account.
   */
  lemma DispatchesOncePerDueKey(keys: seq<AccountId>, investors: map<AccountId, Investment>, today: Date, a: AccountId)
    requires AllWellFormed(investors) && Distinct(keys)
    ensures multiset(Receivers(Dispatches(keys, investors, today)))[a]
         == if a in keys && a in investors && IsDue(investors[a], today) then 1 else 0
  {
    DispatchesReachDueKeys(keys, investors, today);
    FilterKeeps(keys, DueSet(investors, today));
    DistinctOnce(Filter(keys, DueSet(investors, today)), a);
  }

  /** The record a transfer carries reads back from its JSON form as a record that keeps the invariant. */
  lemma TransferRecordCommits(investors: map<AccountId, Investment>, today: Date, t: Transfer)
    requires AllWellFormed(investors) && Pays(investors, today, t)
    ensures FromJson(t.record) == Some(Speculative(investors[t.receiver]))
    ensures WellFormed(FromJson(t.record).value)
  {
    var r := investors[t.receiver];
    JsonRoundTrip(Speculative(r));
    SpeculativeStep(r);
  }

  // ---------------------------------------------------------------- contract

  /** `Contract`: the owner, the token contract, the supply cap and the investor ledger. */
  class Contract {
    var ownerId: AccountId
    var tokenContractAddress: AccountId
    var totalSupply: U128
    var investors: map<AccountId, Investment>
    /** The iteration order of the `UnorderedMap`: every key once. */
    var keys: seq<AccountId>

    ghost predicate Valid()
      reads this
    {
      Consistent(investors, keys)
    }

    /** `Contract::new`: an empty ledger. */
    constructor (ownerId: AccountId, totalSupply: U128, tokenContractAddress: AccountId)
      ensures Valid()
      ensures this.ownerId == ownerId && this.totalSupply == totalSupply
      ensures this.tokenContractAddress == tokenContractAddress
      ensures investors == map[] && keys == []
    {
      this.ownerId := ownerId;
      this.tokenContractAddress := tokenContractAddress;
      this.totalSupply := totalSupply;
      investors := map[];
      keys := [];
    }

    /**
     * `add_investor`: after the guards, inserts the new record under `accountId`,
     * replacing any record already there. A failed guard changes nothing.
     */
    method AddInvestor(caller: AccountId, accountId: AccountId, input: InvestmentInput) returns (err: Option<AddError>)
      requires Valid()
      modifies this
      ensures Valid()
      ensures err == CheckInvestor(ownerId, totalSupply, caller, input)
      ensures ownerId == old(ownerId) && totalSupply == old(totalSupply)
      ensures tokenContractAddress == old(tokenContractAddress)
      ensures err.Some? ==> investors == old(investors) && keys == old(keys)
      ensures err.None? ==> investors == old(investors)[accountId := NewInvestment(input)]
      ensures err.None? ==> keys == KeysAfterInsert(old(keys), accountId)
    {
      if caller != ownerId {
        return Some(NotOwner);
      }
      if !IsValidDateFormat(input.startDate) {
        return Some(InvalidDate);
      }
      if input.cycle == 0 {
        return Some(ZeroCycle);
      }
      if input.vesting == 0 {
        return Some(ZeroVesting);
      }
      var converted := NewInvestment(input);
      if converted.totalAmount == 0 {
        return Some(ZeroAmount);
      }
      if converted.totalAmount > totalSupply {
        return Some(ExceedsSupply);
      }
      NewInvestmentWellFormed(input);
      InsertKeepsConsistent(investors, keys, accountId, converted);
      if accountId !in investors {
        keys := keys + [accountId];
      }
      investors := investors[accountId := converted];
      err := None;
    }

    /**
     * `distribute_token`: one pass over the keys. A record with installments left
     * whose due date is not after today gets a transfer of its installment, carrying
     * the record as it will be once that transfer is confirmed. The ledger itself is
     * not written. `today`, the calendar date of the block, is returned alongside.
     */
    method DistributeToken(blockTimestamp: U64) returns (transfers: seq<Transfer>, today: Date)
      requires Valid()
      ensures IsDateOfDay(today, blockTimestamp / NANOS_PER_SECOND / SECONDS_PER_DAY)
      ensures transfers == Dispatches(keys, investors, today)
    {
      today := CurrentDate(blockTimestamp);
      transfers := [];
      for i := 0 to |keys|
        invariant transfers == Dispatches(keys[..i], investors, today)
      {
        DispatchesExtend(keys, i, investors, today);
        var sent := DistributeTo(keys[i], today);
        transfers := transfers + sent;
      }
      assert keys[..|keys|] == keys;
    }

    /**
     * The body of the `distribute_token` loop for one key: skip a missing record, one
     * with no installments left, or one whose due date is after `current`; otherwise
     * compute the installment and the record after it, and send the transfer.
     */
    method DistributeTo(id: AccountId, current: Date) returns (sent: seq<Transfer>)
      requires Valid()
      ensures sent == DispatchFor(investors, current, id)
    {
      DispatchForShape(investors, current, id);
      if id !in investors {
        return [];
      }
      var investment := investors[id];
      if investment.remainingPayouts == 0 {
        return [];
      }
      var next := NextDue(investment);
      if DateKey(next) > DateKey(current) {
        return [];
      }
      var amount, paid := PayInstallment(investment, next);
      DueDispatch(investors, current, id);
      sent := [Transfer(id, amount, ToJson(paid))];
    }

    /**
     * `on_ft_transfer_success`: reads the record back from its JSON form (a failed
     * balance parse panics, which leaves the state as it was) and stores it under
     * `accountId` only when the transfer succeeded.
     */
    method OnFtTransferSuccess(succeeded: bool, accountId: AccountId, record: InvestmentJson) returns (panicked: bool)
      requires Valid()
      requires FromJson(record).Some? ==> WellFormed(FromJson(record).value)
      modifies this
      ensures Valid()
      ensures panicked <==> FromJson(record).None?
      ensures ownerId == old(ownerId) && totalSupply == old(totalSupply)
      ensures tokenContractAddress == old(tokenContractAddress)
      ensures panicked || !succeeded ==> investors == old(investors) && keys == old(keys)
      ensures !panicked && succeeded ==> investors == old(investors)[accountId := FromJson(record).value]
      ensures !panicked && succeeded ==> keys == KeysAfterInsert(old(keys), accountId)
    {
      var investment := FromJson(record);
      if investment.None? {
        return true;
      }
      panicked := false;
      if succeeded {
        InsertKeepsConsistent(investors, keys, accountId, investment.value);
        if accountId !in investors {
          keys := keys + [accountId];
        }
        investors := investors[accountId := investment.value];
      }
    }
  }
}
