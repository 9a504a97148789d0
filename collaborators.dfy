/** The bank, staking and distribution collaborators, modelled on the in-memory
    keepers the message-server test runs against. Each keeps its maps as fields and
    updates them in place. */
module Collaborators {
  import opened Types
  import opened Coins
  import LegacyDec

  /** `stakingtypes.BondedPoolName` and `distributiontypes.ModuleName`. */
  const BondedPoolName: string := "bonded_tokens_pool"
  const DistributionModuleName: string := "distribution"

  /** The bank's pre-transfer check: walks the coins to send and fails on the first
      one the balance cannot cover. */
  method HasFunds(bal: Balance, amt: Coins) returns (ok: bool)
    ensures ok <==> Covers(bal, amt)
  {
    var i := 0;
    while i < |amt|
      invariant 0 <= i <= |amt|
      invariant forall k :: 0 <= k < i ==> amt[k].amount <= AmountIn(bal, amt[k].denom)
    {
      if AmountIn(bal, amt[i].denom) < amt[i].amount {
        return false;
      }
      i := i + 1;
    }
    return true;
  }

  class Bank {
    var accounts: map<AccAddress, Balance>
    var modules: map<string, Balance>

    constructor ()
      ensures accounts == map[] && modules == map[]
    {
      accounts := map[];
      modules := map[];
    }

    /** Neither the accounts nor the module accounts differ from the pre-state. */
    twostate predicate Unchanged()
      reads this
    {
      accounts == old(accounts) && modules == old(modules)
    }

    function AccountOf(a: AccAddress): Balance
      reads this
    {
      if a in accounts then accounts[a] else map[]
    }

    function ModuleOf(m: string): Balance
      reads this
    {
      if m in modules then modules[m] else map[]
    }

    function AccountBalance(a: AccAddress, d: Denom): nat
      reads this
    {
      AmountIn(AccountOf(a), d)
    }

    function ModuleBalance(m: string, d: Denom): nat
      reads this
    {
      AmountIn(ModuleOf(m), d)
    }

    /** `GetBalance`: the account's coin of one denomination; zero for an account never seen. */
    function GetBalance(a: AccAddress, d: Denom): (c: Coin)
      reads this
      ensures c.denom == d
      ensures c.amount == AccountBalance(a, d)
      ensures a !in accounts ==> c.amount == 0
      ensures c.amount > 0 ==> a in accounts && d in accounts[a]
    {
      Coin(d, AccountBalance(a, d))
    }

    /** `SendCoinsFromAccountToModule`: all or nothing. On success the sender loses
        exactly what the module gains, in every denomination. */
    method SendCoinsFromAccountToModule(sender: AccAddress, recipient: string, amt: Coins)
      returns (err: Option<Error>)
      requires ValidCoins(amt)
      modifies this
      ensures err.None? <==> Covers(old(AccountOf(sender)), amt)
      ensures err.Some? ==> err.value == BankInsufficientFunds
      ensures err.Some? ==> Unchanged()
      ensures err.None? ==> forall a, d ::
        AccountBalance(a, d) + (if a == sender then AmountOf(amt, d) else 0) == old(AccountBalance(a, d))
      ensures err.None? ==> forall m, d ::
        ModuleBalance(m, d) == old(ModuleBalance(m, d)) + (if m == recipient then AmountOf(amt, d) else 0)
    {
      var bal := AccountOf(sender);
      var ok := HasFunds(bal, amt);
      if !ok {
        return Some(BankInsufficientFunds);
      }
      CoversIffEveryDenom(bal, amt);
      accounts := accounts[sender := Minus(bal, amt)];
      modules := modules[recipient := Plus(ModuleOf(recipient), amt)];
      return None;
    }

    /** `SendCoinsFromModuleToAccount`: the mirror image of the transfer above. */
    method SendCoinsFromModuleToAccount(sender: string, recipient: AccAddress, amt: Coins)
      returns (err: Option<Error>)
      requires ValidCoins(amt)
      modifies this
      ensures err.None? <==> Covers(old(ModuleOf(sender)), amt)
      ensures err.Some? ==> err.value == BankInsufficientFunds
      ensures err.Some? ==> Unchanged()
      ensures err.None? ==> forall m, d ::
        ModuleBalance(m, d) + (if m == sender then AmountOf(amt, d) else 0) == old(ModuleBalance(m, d))
      ensures err.None? ==> forall a, d ::
        AccountBalance(a, d) == old(AccountBalance(a, d)) + (if a == recipient then AmountOf(amt, d) else 0)
    {
      var bal := ModuleOf(sender);
      var ok := HasFunds(bal, amt);
      if !ok {
        return Some(BankInsufficientFunds);
      }
      CoversIffEveryDenom(bal, amt);
      modules := modules[sender := Minus(bal, amt)];
      accounts := accounts[recipient := Plus(AccountOf(recipient), amt)];
      return None;
    }

    /** `MintCoins`: only the named module's balance grows; it never fails. */
    method MintCoins(m: string, amt: Coins)
      modifies this
      ensures accounts == old(accounts)
      ensures forall n, d ::
        ModuleBalance(n, d) == old(ModuleBalance(n, d)) + (if n == m then AmountOf(amt, d) else 0)
    {
      modules := modules[m := Plus(ModuleOf(m), amt)];
    }
  }

  datatype Validator = Validator(operatorAddress: ValAddress)

  datatype BondStatus = Unspecified | Unbonded | Unbonding | Bonded

  /** The arguments of one staking `Delegate` invocation. */
  datatype DelegateCall = DelegateCall(
    delegator: AccAddress, amount: int, status: BondStatus, validator: Validator, subtractAccount: bool)

  /** The arguments of one staking `Undelegate` invocation; `shares` is a raw Dec. */
  datatype UndelegateCall = UndelegateCall(delegator: AccAddress, validator: ValAddress, shares: int)

  /** The staking collaborator's state as a value. `delegations` is keyed by
      delegator alone, as in the test keeper. `faults` lists the operations whose
      error return is taken (none in the test keeper). The two call records keep
      the arguments of every Delegate and Undelegate invocation. */
  datatype StakingState = StakingState(
    validators: map<ValAddress, Validator>,
    delegations: map<AccAddress, int>,
    bondDenom: Denom,
    faults: set<StakingOp>,
    delegateCalls: seq<DelegateCall>,
    undelegateCalls: seq<UndelegateCall>)
  {
    /** `delegatedAmount`: zero for a delegator never seen. */
    function Delegated(a: AccAddress): int
    {
      if a in delegations then delegations[a] else 0
    }

    /** `GetValidator`: the registered validator, or the staking "not found" error. */
    function GetValidator(addr: ValAddress): (r: Result<Validator>)
      ensures r.Success? <==> GetValidatorOp !in faults && addr in validators
      ensures r.Success? ==> r.value == validators[addr]
      ensures r.Failure? && GetValidatorOp !in faults ==> r.error == NoValidatorFound
    {
      if GetValidatorOp in faults then Failure(Failed(GetValidatorOp))
      else if addr in validators then Success(validators[addr])
      else Failure(NoValidatorFound)
    }

    function BondDenom(): (r: Result<Denom>)
      ensures r.Success? <==> BondDenomOp !in faults
      ensures r.Success? ==> r.value == bondDenom
    {
      if BondDenomOp in faults then Failure(Failed(BondDenomOp)) else Success(bondDenom)
    }

    /** `Delegate`: adds the amount to the delegator's total whatever the validator,
        status or subtractAccount flag; the call is recorded either way. */
    function Delegate(call: DelegateCall): (r: (StakingState, Result<int>))
      ensures r.0.delegateCalls == delegateCalls + [call]
      ensures r.0.validators == validators && r.0.bondDenom == bondDenom && r.0.faults == faults
      ensures r.0.undelegateCalls == undelegateCalls
      ensures r.1.Success? <==> DelegateOp !in faults
      ensures r.1.Success? ==> r.1.value == LegacyDec.FromInt(call.amount)
      ensures forall a ::
        r.0.Delegated(a) == Delegated(a) + (if r.1.Success? && a == call.delegator then call.amount else 0)
    {
      var recorded := this.(delegateCalls := delegateCalls + [call]);
      if DelegateOp in faults then
        (recorded, Failure(Failed(DelegateOp)))
      else
        (recorded.(delegations := delegations[call.delegator := Delegated(call.delegator) + call.amount]),
         Success(LegacyDec.FromInt(call.amount)))
    }

    /** `Undelegate`: the test keeper does nothing; only the call is recorded. */
    function Undelegate(call: UndelegateCall): (r: (StakingState, Option<Error>))
      ensures r.0 == this.(undelegateCalls := undelegateCalls + [call])
      ensures r.1.None? <==> UndelegateOp !in faults
    {
      (this.(undelegateCalls := undelegateCalls + [call]),
       if UndelegateOp in faults then Some(Failed(UndelegateOp)) else None)
    }
  }

  class Staking {
    var validators: map<ValAddress, Validator>
    var delegations: map<AccAddress, int>
    var bondDenom: Denom
    var faults: set<StakingOp>
    var delegateCalls: seq<DelegateCall>
    var undelegateCalls: seq<UndelegateCall>

    function State(): StakingState
      reads this
    {
      StakingState(validators, delegations, bondDenom, faults, delegateCalls, undelegateCalls)
    }

    /** The test keeper: no validators, no delegations, no faults. */
    constructor (bondDenom: Denom)
      ensures State() == StakingState(map[], map[], bondDenom, {}, [], [])
    {
      this.validators := map[];
      this.delegations := map[];
      this.bondDenom := bondDenom;
      this.faults := {};
      this.delegateCalls := [];
      this.undelegateCalls := [];
    }

    method AddValidator(v: Validator)
      modifies this
      ensures State() == old(State()).(validators := old(validators)[v.operatorAddress := v])
    {
      validators := validators[v.operatorAddress := v];
    }

    function Delegated(a: AccAddress): int
      reads this
    {
      State().Delegated(a)
    }

    function GetValidator(addr: ValAddress): Result<Validator>
      reads this
    {
      State().GetValidator(addr)
    }

    function BondDenom(): Result<Denom>
      reads this
    {
      State().BondDenom()
    }

    method Delegate(delegator: AccAddress, amount: int, status: BondStatus, validator: Validator,
                    subtractAccount: bool)
      returns (r: Result<int>)
      modifies this
      ensures (State(), r) ==
        old(State()).Delegate(DelegateCall(delegator, amount, status, validator, subtractAccount))
    {
      delegateCalls := delegateCalls + [DelegateCall(delegator, amount, status, validator, subtractAccount)];
      if DelegateOp in faults {
        return Failure(Failed(DelegateOp));
      }
      var current := if delegator in delegations then delegations[delegator] else 0;
      delegations := delegations[delegator := current + amount];
      return Success(LegacyDec.FromInt(amount));
    }

    method Undelegate(delegator: AccAddress, validator: ValAddress, shares: int)
      returns (err: Option<Error>)
      modifies this
      ensures (State(), err) == old(State()).Undelegate(UndelegateCall(delegator, validator, shares))
    {
      undelegateCalls := undelegateCalls + [UndelegateCall(delegator, validator, shares)];
      err := if UndelegateOp in faults then Some(Failed(UndelegateOp)) else None;
    }
  }

  class Distribution {
    const bank: Bank
    var rewards: map<(AccAddress, ValAddress), Coins>

    ghost predicate Valid()
      reads this
    {
      forall k | k in rewards :: ValidCoins(rewards[k])
    }

    constructor (bank: Bank)
      ensures this.bank == bank && rewards == map[] && Valid()
    {
      this.bank := bank;
      rewards := map[];
    }

    /** `setRewards`: the pending rewards of one delegation. */
    method SetRewards(delegator: AccAddress, validator: ValAddress, coins: Coins)
      requires Valid() && ValidCoins(coins)
      modifies this
      ensures Valid() && rewards == old(rewards)[(delegator, validator) := coins]
    {
      rewards := rewards[(delegator, validator) := coins];
    }

    /** `WithdrawDelegationRewards`: pays the pending rewards out of the distribution
        module into the delegator's account and forgets them, so a second withdrawal fails. */
    method WithdrawDelegationRewards(delegator: AccAddress, validator: ValAddress)
      returns (r: Result<Coins>)
      requires Valid()
      modifies this, bank
      ensures Valid()
      ensures (delegator, validator) !in old(rewards) ==>
        r == Failure(NoValidatorDistInfo) && rewards == old(rewards) && bank.Unchanged()
      ensures (delegator, validator) in old(rewards) ==>
        var coins := old(rewards[(delegator, validator)]);
        && (r.Success? <==> Covers(old(bank.ModuleOf(DistributionModuleName)), coins))
        && (r.Failure? ==> r.error == BankInsufficientFunds && rewards == old(rewards) && bank.Unchanged())
        && (r.Success? ==>
              && r.value == coins
              && ValidCoins(coins)
              && rewards == old(rewards) - {(delegator, validator)}
              && (forall a, d :: bank.AccountBalance(a, d) ==
                    old(bank.AccountBalance(a, d)) + (if a == delegator then AmountOf(coins, d) else 0))
              && (forall m, d :: bank.ModuleBalance(m, d) + (if m == DistributionModuleName then AmountOf(coins, d) else 0) ==
                    old(bank.ModuleBalance(m, d))))
    {
      var key := (delegator, validator);
      if key !in rewards {
        return Failure(NoValidatorDistInfo);
      }
      var coins := rewards[key];
      var err := bank.SendCoinsFromModuleToAccount(DistributionModuleName, delegator, coins);
      if err.Some? {
        return Failure(err.value);
      }
      rewards := rewards - {key};
      return Success(coins);
    }
  }
}
