/** The x/blocrestake message server: `Delegate`, `Undelegate` and `ClaimAndRestake`,
    each a fixed chain of checks followed by moves through the bank, staking and
    distribution collaborators. */
module BlocRestake {
  import opened Types
  import opened Coins
  import opened Collaborators
  import LegacyDec

  /** A protobuf `uint64` message field. */
  type Uint64 = x: int | 0 <= x < 0x1_0000_0000_0000_0000

  datatype MsgDelegate = MsgDelegate(delegator: string, validator: string, amount: Uint64)
  datatype MsgUndelegate = MsgUndelegate(delegator: string, validator: string, amount: Uint64)
  datatype MsgClaimAndRestake = MsgClaimAndRestake(delegator: string, validator: string)

  /** `types.EventTypeClaimAndRestake` and the attribute keys of that event. */
  const EventTypeClaimAndRestake: string := "claim_and_restake"
  const AttributeKeyDelegator: string := "delegator"
  const AttributeKeyValidator: string := "validator"
  const AttributeKeyAmount: string := "amount"

  /** The address checks every message starts with: the delegator is decoded first,
      then the validator; the first that fails is reported as an invalid address. */
  function ParseAddresses(codec: Codec, delegator: string, validator: string): (r: Result<(AccAddress, ValAddress)>)
    ensures r.Success? <==> codec.accAddress(delegator).Some? && codec.valAddress(validator).Some?
    ensures r.Success? ==> r.value == (codec.accAddress(delegator).value, codec.valAddress(validator).value)
    ensures r.Failure? ==> Is(r.error, InvalidAddress)
    ensures codec.accAddress(delegator).None? ==> r == Failure(Wrapped(InvalidAddress, "invalid delegator address"))
  {
    match codec.accAddress(delegator)
    case None => Failure(Wrapped(InvalidAddress, "invalid delegator address"))
    case Some(del) =>
      match codec.valAddress(validator)
      case None => Failure(Wrapped(InvalidAddress, "invalid validator address"))
      case Some(val) => Success((del, val))
  }

  /** The validator lookup shared by `Delegate` and `ClaimAndRestake`: staking's
      "not found" becomes the module's own `ErrValidatorNotFound`; any other error is
      wrapped. */
  function LookupValidator(st: StakingState, addr: ValAddress): (r: Result<Validator>)
    ensures r.Success? <==> st.GetValidator(addr).Success?
    ensures r.Success? ==> r.value == st.validators[addr]
    ensures GetValidatorOp !in st.faults && addr !in st.validators ==> r == Failure(ValidatorNotFound)
  {
    match st.GetValidator(addr)
    case Success(v) => Success(v)
    case Failure(e) =>
      if Is(e, NoValidatorFound) then Failure(ValidatorNotFound) else Failure(Wrapped(e, "failed to fetch validator"))
  }

  /** What `Delegate` decides before it moves any funds, in the order of its checks:
      the first failing check's error, or the decoded delegator, the looked-up
      validator and the bond denomination. */
  function DelegatePrecheck(st: StakingState, codec: Codec, msg: MsgDelegate)
    : (r: Result<(AccAddress, Validator, Denom)>)
    ensures r.Success? ==>
              && ParseAddresses(codec, msg.delegator, msg.validator).Success? && msg.amount > 0
              && codec.valAddress(msg.validator).value in st.validators && BondDenomOp !in st.faults
              && r.value == (codec.accAddress(msg.delegator).value,
                             st.validators[codec.valAddress(msg.validator).value], st.bondDenom)
    ensures (ParseAddresses(codec, msg.delegator, msg.validator).Success? && msg.amount > 0 &&
             LookupValidator(st, codec.valAddress(msg.validator).value).Success? && BondDenomOp in st.faults) ==>
              r == Failure(Wrapped(Failed(BondDenomOp), "failed to fetch bond denom"))
  {
    match ParseAddresses(codec, msg.delegator, msg.validator)
    case Failure(e) => Failure(e)
    case Success((del, valAddr)) =>
      if msg.amount == 0 then Failure(Wrapped(InvalidAmount, "amount must be positive"))
      else
        match LookupValidator(st, valAddr)
        case Failure(e) => Failure(e)
        case Success(val) =>
          match st.BondDenom()
          case Failure(e) => Failure(Wrapped(e, "failed to fetch bond denom"))
          case Success(bondDenom) => Success((del, val, bondDenom))
  }

  /** The checks of `Delegate` and the errors they give: an undecodable address is an
      invalid address whatever the amount; with good addresses a zero amount is an
      invalid amount whatever the staking state; only then does an unknown validator
      give `ErrValidatorNotFound`; with the test keeper (no faults) the checks pass
      exactly for decodable addresses, a positive amount and a registered validator. */
  lemma DelegatePrecheckErrors(st: StakingState, codec: Codec, msg: MsgDelegate)
    ensures ParseAddresses(codec, msg.delegator, msg.validator).Failure? ==>
              DelegatePrecheck(st, codec, msg).Failure? && Is(DelegatePrecheck(st, codec, msg).error, InvalidAddress)
    ensures ParseAddresses(codec, msg.delegator, msg.validator).Success? && msg.amount == 0 ==>
              DelegatePrecheck(st, codec, msg) == Failure(Wrapped(InvalidAmount, "amount must be positive"))
    ensures ParseAddresses(codec, msg.delegator, msg.validator).Success? && msg.amount > 0 &&
            GetValidatorOp !in st.faults && codec.valAddress(msg.validator).value !in st.validators ==>
              DelegatePrecheck(st, codec, msg) == Failure(ValidatorNotFound)
    ensures st.faults == {} ==>
              (DelegatePrecheck(st, codec, msg).Success? <==>
                 ParseAddresses(codec, msg.delegator, msg.validator).Success? && msg.amount > 0 &&
                 codec.valAddress(msg.validator).value in st.validators)
  {
  }

  /** What `ClaimAndRestake` decides before it withdraws anything: the address checks,
      then the validator lookup. */
  function ClaimPrecheck(st: StakingState, codec: Codec, msg: MsgClaimAndRestake)
    : (r: Result<(AccAddress, ValAddress, Validator)>)
    ensures r.Success? <==>
              && ParseAddresses(codec, msg.delegator, msg.validator).Success?
              && st.GetValidator(codec.valAddress(msg.validator).value).Success?
    ensures r.Success? ==>
              r.value == (codec.accAddress(msg.delegator).value, codec.valAddress(msg.validator).value,
                          st.validators[codec.valAddress(msg.validator).value])
    ensures ParseAddresses(codec, msg.delegator, msg.validator).Failure? ==>
              r.Failure? && Is(r.error, InvalidAddress)
    ensures (ParseAddresses(codec, msg.delegator, msg.validator).Success? && GetValidatorOp !in st.faults &&
             codec.valAddress(msg.validator).value !in st.validators) ==> r == Failure(ValidatorNotFound)
    ensures (ParseAddresses(codec, msg.delegator, msg.validator).Success? && GetValidatorOp in st.faults) ==>
              r == Failure(Wrapped(Failed(GetValidatorOp), "failed to fetch validator"))
  {
    match ParseAddresses(codec, msg.delegator, msg.validator)
    case Failure(e) => Failure(e)
    case Success((del, valAddr)) =>
      match LookupValidator(st, valAddr)
      case Failure(e) => Failure(e)
      case Success(val) => Success((del, valAddr, val))
  }

  /** The event `ClaimAndRestake` emits on success: the message's own address strings
      and the restaked amount in decimal. */
  function ClaimAndRestakeEvent(msg: MsgClaimAndRestake, amount: nat): (e: Event)
    ensures e.kind == EventTypeClaimAndRestake && |e.attributes| == 3
    ensures e.attributes[0] == Attribute(AttributeKeyDelegator, msg.delegator)
    ensures e.attributes[1] == Attribute(AttributeKeyValidator, msg.validator)
    ensures e.attributes[2].key == AttributeKeyAmount && DigitsValue(e.attributes[2].value) == amount
  {
    DecimalStringRoundTrip(amount);
    Event(EventTypeClaimAndRestake, [
      Attribute(AttributeKeyDelegator, msg.delegator),
      Attribute(AttributeKeyValidator, msg.validator),
      Attribute(AttributeKeyAmount, DecimalString(amount))])
  }

  class MsgServer {
    const bank: Bank
    const staking: Staking
    const distribution: Distribution

    /** The distribution keeper pays out of the same bank the server moves funds with. */
    ghost predicate Valid()
      reads this, distribution
    {
      distribution.bank == bank && distribution.Valid()
    }

    constructor (bank: Bank, staking: Staking, distribution: Distribution)
      requires distribution.bank == bank && distribution.Valid()
      ensures this.bank == bank && this.staking == staking && this.distribution == distribution
      ensures Valid()
    {
      this.bank := bank;
      this.staking := staking;
      this.distribution := distribution;
    }

    /** `Delegate`: after the checks, moves `amount` of the bond denomination from the
        delegator's account to the bonded pool, then asks staking to delegate it. A
        failed check changes nothing; a failed transfer changes nothing and staking is
        not called; a staking failure leaves the transfer in place (the enclosing
        transaction is what discards it). */
    method Delegate(codec: Codec, msg: MsgDelegate) returns (err: Option<Error>)
      modifies bank, staking
      ensures var pre := DelegatePrecheck(old(staking.State()), codec, msg);
              pre.Failure? ==>
                err == Some(pre.error) && bank.Unchanged() && staking.State() == old(staking.State())
      ensures var pre := DelegatePrecheck(old(staking.State()), codec, msg);
              pre.Success? && msg.amount > AmountIn(old(bank.AccountOf(pre.value.0)), pre.value.2) ==>
                && err == Some(Wrapped(BankInsufficientFunds, "bank transfer failed"))
                && bank.Unchanged() && staking.State() == old(staking.State())
      ensures var pre := DelegatePrecheck(old(staking.State()), codec, msg);
              pre.Success? && msg.amount <= AmountIn(old(bank.AccountOf(pre.value.0)), pre.value.2) ==>
                var (del, val, bondDenom) := pre.value;
                && (forall a, d :: bank.AccountBalance(a, d) +
                      (if a == del && d == bondDenom then msg.amount else 0) == old(bank.AccountBalance(a, d)))
                && (forall m, d :: bank.ModuleBalance(m, d) ==
                      old(bank.ModuleBalance(m, d)) + (if m == BondedPoolName && d == bondDenom then msg.amount else 0))
                && staking.State() ==
                     old(staking.State()).Delegate(DelegateCall(del, msg.amount, Unbonded, val, true)).0
                && (err.None? <==> DelegateOp !in old(staking.faults))
                && (err.Some? ==> err.value == Wrapped(Failed(DelegateOp), "staking delegate failed"))
    {
      var addrs := ParseAddresses(codec, msg.delegator, msg.validator);
      if addrs.Failure? {
        return Some(addrs.error);
      }
      var (delegator, valAddr) := addrs.value;
      if msg.amount == 0 {
        return Some(Wrapped(InvalidAmount, "amount must be positive"));
      }
      var val := LookupValidator(staking.State(), valAddr);
      if val.Failure? {
        return Some(val.error);
      }
      var amount := msg.amount;
      var bondDenom := staking.BondDenom();
      if bondDenom.Failure? {
        return Some(Wrapped(bondDenom.error, "failed to fetch bond denom"));
      }
      var coins := [Coin(bondDenom.value, amount)];
      SingleCoin(bank.AccountOf(delegator), bondDenom.value, amount);
      var sendErr := bank.SendCoinsFromAccountToModule(delegator, BondedPoolName, coins);
      if sendErr.Some? {
        return Some(Wrapped(sendErr.value, "bank transfer failed"));
      }
      var res := staking.Delegate(delegator, amount, Unbonded, val.value, true);
      if res.Failure? {
        return Some(Wrapped(res.error, "staking delegate failed"));
      }
      return None;
    }

    /** `Undelegate`: after the address and amount checks, asks staking to undelegate
        shares equal to the amount, one share per token. No validator lookup and no
        bank movement; a staking error comes back wrapped. */
    method Undelegate(codec: Codec, msg: MsgUndelegate) returns (err: Option<Error>)
      modifies staking
      ensures var addrs := ParseAddresses(codec, msg.delegator, msg.validator);
              addrs.Failure? ==> err == Some(addrs.error) && staking.State() == old(staking.State())
      ensures ParseAddresses(codec, msg.delegator, msg.validator).Success? && msg.amount == 0 ==>
                err == Some(Wrapped(InvalidAmount, "amount must be positive")) &&
                staking.State() == old(staking.State())
      ensures var addrs := ParseAddresses(codec, msg.delegator, msg.validator);
              addrs.Success? && msg.amount > 0 ==>
                var (del, valAddr) := addrs.value;
                var (next, stakingErr) :=
                  old(staking.State()).Undelegate(UndelegateCall(del, valAddr, LegacyDec.FromInt(msg.amount)));
                && staking.State() == next
                && err == (match stakingErr case None => None case Some(e) => Some(Wrapped(e, "undelegate failed")))
    {
      var addrs := ParseAddresses(codec, msg.delegator, msg.validator);
      if addrs.Failure? {
        return Some(addrs.error);
      }
      var (delegator, valAddr) := addrs.value;
      if msg.amount == 0 {
        return Some(Wrapped(InvalidAmount, "amount must be positive"));
      }
      var shares := LegacyDec.FromInt(msg.amount);
      var stakingErr := staking.Undelegate(delegator, valAddr, shares);
      if stakingErr.Some? {
        return Some(Wrapped(stakingErr.value, "undelegate failed"));
      }
      return None;
    }

    /** `ClaimAndRestake`: after the checks, withdraws the delegation's pending rewards
        into the delegator's account, moves their bond-denomination amount to the
        bonded pool, delegates it to the same validator and emits `claim_and_restake`.
        Rewards in other denominations stay in the account. */
    method ClaimAndRestake(codec: Codec, em: EventManager, msg: MsgClaimAndRestake) returns (err: Option<Error>)
      requires Valid()
      modifies bank, staking, distribution, em
      ensures Valid()
      // the checks: nothing changes and nothing is emitted
      ensures var pre := ClaimPrecheck(old(staking.State()), codec, msg);
              pre.Failure? ==>
                && err == Some(pre.error)
                && bank.Unchanged() && staking.State() == old(staking.State())
                && distribution.rewards == old(distribution.rewards) && em.events == old(em.events)
      // no pending rewards for the delegation: the withdrawal's error, wrapped
      ensures var pre := ClaimPrecheck(old(staking.State()), codec, msg);
              pre.Success? && (pre.value.0, pre.value.1) !in old(distribution.rewards) ==>
                && err == Some(Wrapped(NoValidatorDistInfo, "failed to withdraw rewards"))
                && bank.Unchanged() && staking.State() == old(staking.State())
                && distribution.rewards == old(distribution.rewards) && em.events == old(em.events)
      // past the withdrawal: the rewards are paid out and forgotten whatever follows
      ensures var pre := ClaimPrecheck(old(staking.State()), codec, msg);
              pre.Success? && (pre.value.0, pre.value.1) in old(distribution.rewards) &&
              Covers(old(bank.ModuleOf(DistributionModuleName)), old(distribution.rewards[(pre.value.0, pre.value.1)])) ==>
                var (del, valAddr, val) := pre.value;
                var rewards := old(distribution.rewards[(del, valAddr)]);
                var bondDenom := old(staking.bondDenom);
                var restaked := if BondDenomOp in old(staking.faults) then 0 else AmountOf(rewards, bondDenom);
                && distribution.rewards == old(distribution.rewards) - {(del, valAddr)}
                && (forall a, d :: bank.AccountBalance(a, d) + (if a == del && d == bondDenom then restaked else 0) ==
                      old(bank.AccountBalance(a, d)) + (if a == del then AmountOf(rewards, d) else 0))
                && (forall m, d :: bank.ModuleBalance(m, d) + (if m == DistributionModuleName then AmountOf(rewards, d) else 0) ==
                      old(bank.ModuleBalance(m, d)) + (if m == BondedPoolName && d == bondDenom then restaked else 0))
                && (BondDenomOp in old(staking.faults) ==>
                      && err == Some(Wrapped(Failed(BondDenomOp), "failed to fetch bond denom"))
                      && staking.State() == old(staking.State()) && em.events == old(em.events))
                && (BondDenomOp !in old(staking.faults) && restaked == 0 ==>
                      && err == Some(Wrapped(InsufficientFunds, "no " + bondDenom + " rewards available to restake"))
                      && staking.State() == old(staking.State()) && em.events == old(em.events))
                && (BondDenomOp !in old(staking.faults) && restaked > 0 ==>
                      && staking.State() == old(staking.State()).Delegate(DelegateCall(del, restaked, Unbonded, val, true)).0
                      && (err.None? <==> DelegateOp !in old(staking.faults))
                      && (err.Some? ==> err.value == Wrapped(Failed(DelegateOp), "restake delegation failed"))
                      && em.events == old(em.events) + (if err.None? then [ClaimAndRestakeEvent(msg, restaked)] else []))
      // the distribution module cannot pay: the bank's error, wrapped, and nothing changes
      ensures var pre := ClaimPrecheck(old(staking.State()), codec, msg);
              pre.Success? && (pre.value.0, pre.value.1) in old(distribution.rewards) &&
              !Covers(old(bank.ModuleOf(DistributionModuleName)), old(distribution.rewards[(pre.value.0, pre.value.1)])) ==>
                && err == Some(Wrapped(BankInsufficientFunds, "failed to withdraw rewards"))
                && bank.Unchanged() && staking.State() == old(staking.State())
                && distribution.rewards == old(distribution.rewards) && em.events == old(em.events)
    {
      var pre := ClaimPrecheck(staking.State(), codec, msg);
      if pre.Failure? {
        return Some(pre.error);
      }
      var (delAddr, valAddr, val) := pre.value;
      var rewards := distribution.WithdrawDelegationRewards(delAddr, valAddr);
      if rewards.Failure? {
        return Some(Wrapped(rewards.error, "failed to withdraw rewards"));
      }
      label Withdrawn:
      err := RestakeWithdrawn(delAddr, val, rewards.value, msg, em);
      forall a, d
        ensures bank.AccountBalance(a, d) + (if a == delAddr && d == old(staking.bondDenom) &&
                                                BondDenomOp !in old(staking.faults)
                                             then AmountOf(rewards.value, d) else 0) ==
                old(bank.AccountBalance(a, d)) + (if a == delAddr then AmountOf(rewards.value, d) else 0)
      {
        assert old@Withdrawn(bank.AccountBalance(a, d)) ==
               old(bank.AccountBalance(a, d)) + (if a == delAddr then AmountOf(rewards.value, d) else 0);
      }
      forall m, d
        ensures bank.ModuleBalance(m, d) + (if m == DistributionModuleName then AmountOf(rewards.value, d) else 0) ==
                old(bank.ModuleBalance(m, d)) + (if m == BondedPoolName && d == old(staking.bondDenom) &&
                                                    BondDenomOp !in old(staking.faults)
                                                 then AmountOf(rewards.value, d) else 0)
      {
        assert old@Withdrawn(bank.ModuleBalance(m, d)) + (if m == DistributionModuleName then AmountOf(rewards.value, d) else 0) ==
               old(bank.ModuleBalance(m, d));
      }
    }

    /** The part of `ClaimAndRestake` after the withdrawal: fetches the bond
        denomination, moves the withdrawn bond-denomination amount from the delegator's
        account to the bonded pool, delegates it to the validator and emits the event.
        The caller has just paid `rewards` into the account, so the transfer is covered. */
    method RestakeWithdrawn(del: AccAddress, val: Validator, rewards: Coins, msg: MsgClaimAndRestake, em: EventManager)
      returns (err: Option<Error>)
      requires BondDenomOp !in staking.faults ==> AmountOf(rewards, staking.bondDenom) <= bank.AccountBalance(del, staking.bondDenom)
      modifies bank, staking, em
      ensures var bondDenom := old(staking.bondDenom);
              var restaked := if BondDenomOp in old(staking.faults) then 0 else AmountOf(rewards, bondDenom);
              && (forall a, d :: bank.AccountBalance(a, d) + (if a == del && d == bondDenom then restaked else 0) ==
                    old(bank.AccountBalance(a, d)))
              && (forall m, d :: bank.ModuleBalance(m, d) ==
                    old(bank.ModuleBalance(m, d)) + (if m == BondedPoolName && d == bondDenom then restaked else 0))
              && (BondDenomOp in old(staking.faults) ==>
                    && err == Some(Wrapped(Failed(BondDenomOp), "failed to fetch bond denom"))
                    && staking.State() == old(staking.State()) && em.events == old(em.events))
              && (BondDenomOp !in old(staking.faults) && restaked == 0 ==>
                    && err == Some(Wrapped(InsufficientFunds, "no " + bondDenom + " rewards available to restake"))
                    && staking.State() == old(staking.State()) && em.events == old(em.events))
              && (BondDenomOp !in old(staking.faults) && restaked > 0 ==>
                    && staking.State() == old(staking.State()).Delegate(DelegateCall(del, restaked, Unbonded, val, true)).0
                    && (err.None? <==> DelegateOp !in old(staking.faults))
                    && (err.Some? ==> err.value == Wrapped(Failed(DelegateOp), "restake delegation failed"))
                    && em.events == old(em.events) + (if err.None? then [ClaimAndRestakeEvent(msg, restaked)] else []))
    {
      var bondDenom := staking.BondDenom();
      if bondDenom.Failure? {
        return Some(Wrapped(bondDenom.error, "failed to fetch bond denom"));
      }
      var amount := AmountOf(rewards, bondDenom.value);
      if amount == 0 {
        return Some(Wrapped(InsufficientFunds, "no " + bondDenom.value + " rewards available to restake"));
      }
      var coins := [Coin(bondDenom.value, amount)];
      SingleCoin(bank.AccountOf(del), bondDenom.value, amount);
      var sendErr := bank.SendCoinsFromAccountToModule(del, BondedPoolName, coins);
      match sendErr {
        case Some(e) =>
          err := Some(Wrapped(e, "bank transfer failed"));
        case None =>
          var res := staking.Delegate(del, amount, Unbonded, val, true);
          if res.Failure? {
            err := Some(Wrapped(res.error, "restake delegation failed"));
          } else {
            em.Emit(ClaimAndRestakeEvent(msg, amount));
            err := None;
          }
      }
    }
  }
}
