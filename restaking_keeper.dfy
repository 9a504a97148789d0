/** The restaking keeper: the stored auto-restake ratio, the calculator that turns a
    reward payout into the portion to restake, and the delegation of that portion. */
module RestakingKeeper {
  import opened Types
  import opened Coins
  import opened Collaborators
  import LegacyDec
  import Params

  /** The restake share of one reward coin: the integer part of `amount × ratio`,
      computed as `LegacyNewDecFromInt(amount).Mul(ratio).TruncateInt()`. */
  function CoinPortion(amount: nat, ratio: int): (p: int)
    ensures 0 <= ratio ==> p == LegacyDec.TruncateInt(LegacyDec.Mul(LegacyDec.FromInt(amount), ratio))
    ensures 0 <= ratio ==> p * LegacyDec.Precision <= amount * ratio < (p + 1) * LegacyDec.Precision
    ensures 0 <= ratio <= LegacyDec.One ==> 0 <= p <= amount
    ensures ratio <= 0 ==> p <= 0
  {
    LegacyDec.MulIntExact(amount, ratio);
    var raw := amount * ratio;
    if 0 <= ratio then
      assert 0 <= raw;
      LegacyDec.TruncateIntIsFloor(raw);
      var p := LegacyDec.TruncateInt(raw);
      assert ratio <= LegacyDec.One ==> raw <= amount * LegacyDec.One by {
        if ratio <= LegacyDec.One {
          MulMonotone(amount, ratio, LegacyDec.One);
        }
      }
      p
    else
      assert raw <= 0 by {
        MulMonotone(amount, ratio, 0);
      }
      LegacyDec.TruncateInt(raw)
  }

  lemma MulMonotone(a: nat, x: int, y: int)
    requires x <= y
    ensures a * x <= a * y
  {
  }

  /** The positive part of a coin's portion: what the loop adds for it. */
  function Kept(amount: nat, ratio: int): nat
  {
    var p := CoinPortion(amount, ratio);
    if p > 0 then p else 0
  }

  /** One iteration of the calculator's loop: a positive portion joins the restake coins. */
  function AddPortion(restake: Coins, c: Coin, ratio: int): Coins
  {
    var p := CoinPortion(c.amount, ratio);
    if p > 0 then AddCoin(restake, Coin(c.denom, p)) else restake
  }

  /** The calculator's loop from some point on: the rest of the rewards added to `restake`. */
  function Accumulate(restake: Coins, rest: Coins, ratio: int): Coins
    decreases |rest|
  {
    if rest == [] then restake else Accumulate(AddPortion(restake, rest[0], ratio), rest[1..], ratio)
  }

  /** `AutoRestakeRewards` as a function of the rewards and the ratio; `None` is `nil`. */
  function RestakePortion(rewards: Coins, ratio: int): Option<Coins>
  {
    if IsZero(rewards) then None
    else if ratio == 0 then None
    else
      var restake := Accumulate([], rewards, ratio);
      if IsZero(restake) then None else Some(restake)
  }

  /** The amount of a denomination in a possibly-nil coin set. */
  function AmountOfOpt(c: Option<Coins>, d: Denom): nat
  {
    if c.None? then 0 else AmountOf(c.value, d)
  }

  /** The total kept portion of one denomination's coins. */
  function PortionSum(rewards: Coins, ratio: int, d: Denom): nat
  {
    if rewards == [] then 0
    else (if rewards[0].denom == d then Kept(rewards[0].amount, ratio) else 0) + PortionSum(rewards[1..], ratio, d)
  }

  lemma {:induction false} AccumulateAmountOf(restake: Coins, rest: Coins, ratio: int, d: Denom)
    ensures AmountOf(Accumulate(restake, rest, ratio), d) == AmountOf(restake, d) + PortionSum(rest, ratio, d)
    decreases |rest|
  {
    if rest != [] {
      AccumulateAmountOf(AddPortion(restake, rest[0], ratio), rest[1..], ratio, d);
    }
  }

  lemma {:induction false} AccumulateValid(restake: Coins, rest: Coins, ratio: int)
    requires ValidCoins(restake)
    ensures ValidCoins(Accumulate(restake, rest, ratio))
    decreases |rest|
  {
    if rest != [] {
      var p := CoinPortion(rest[0].amount, ratio);
      if p > 0 {
        AddCoinValid(restake, Coin(rest[0].denom, p));
      }
      AccumulateValid(AddPortion(restake, rest[0], ratio), rest[1..], ratio);
    }
  }

  lemma {:induction false} AccumulateDenoms(restake: Coins, rest: Coins, ratio: int)
    ensures Denoms(Accumulate(restake, rest, ratio)) <= Denoms(restake) + Denoms(rest)
    decreases |rest|
  {
    if rest != [] {
      AccumulateDenoms(AddPortion(restake, rest[0], ratio), rest[1..], ratio);
      DenomsCons(rest);
    }
  }

  lemma {:induction false} PortionSumAbsent(rewards: Coins, ratio: int, d: Denom)
    requires d !in Denoms(rewards)
    ensures PortionSum(rewards, ratio, d) == 0
  {
    if rewards != [] {
      DenomsCons(rewards);
      PortionSumAbsent(rewards[1..], ratio, d);
    }
  }

  /** With one coin per denomination, a denomination's kept portion is the portion of its amount. */
  lemma {:induction false} PortionSumValid(rewards: Coins, ratio: int, d: Denom)
    requires ValidCoins(rewards)
    ensures PortionSum(rewards, ratio, d) == Kept(AmountOf(rewards, d), ratio)
  {
    if rewards == [] {
      assert CoinPortion(0, ratio) <= 0 by {
        assert 0 * ratio == 0;
        if ratio >= 0 {
          assert CoinPortion(0, ratio) * LegacyDec.Precision <= 0;
        }
      }
    } else {
      var rest := rewards[1..];
      assert ValidCoins(rest) by {
        forall k, j | 0 <= k < j < |rest| ensures rest[k].denom != rest[j].denom {
          assert rest[k] == rewards[k + 1] && rest[j] == rewards[j + 1];
        }
      }
      if rewards[0].denom == d {
        assert d !in Denoms(rest) by {
          forall k | 0 <= k < |rest| ensures rest[k].denom != d {
            assert rest[k] == rewards[k + 1];
          }
        }
        PortionSumAbsent(rest, ratio, d);
        AmountOfAbsent(rest, d);
      } else {
        PortionSumValid(rest, ratio, d);
      }
    }
  }

  /** With a ratio of at most one, no denomination's kept portion exceeds its reward. */
  lemma {:induction false} PortionSumBounded(rewards: Coins, ratio: int, d: Denom)
    requires 0 <= ratio <= LegacyDec.One
    ensures PortionSum(rewards, ratio, d) <= AmountOf(rewards, d)
  {
    if rewards != [] {
      PortionSumBounded(rewards[1..], ratio, d);
    }
  }

  /** For valid rewards and a ratio in range, the loop from an empty set keeps
      `floor(amount × ratio)` of each denomination, as valid coins of those denominations. */
  lemma AccumulateCorrect(rewards: Coins, ratio: int)
    requires ValidCoins(rewards) && 0 <= ratio <= LegacyDec.One
    ensures ValidCoins(Accumulate([], rewards, ratio))
    ensures Denoms(Accumulate([], rewards, ratio)) <= Denoms(rewards)
    ensures forall d :: AmountOf(Accumulate([], rewards, ratio), d) == CoinPortion(AmountOf(rewards, d), ratio)
  {
    AccumulateValid([], rewards, ratio);
    AccumulateDenoms([], rewards, ratio);
    forall d ensures AmountOf(Accumulate([], rewards, ratio), d) == CoinPortion(AmountOf(rewards, d), ratio) {
      AccumulateAmountOf([], rewards, ratio, d);
      PortionSumValid(rewards, ratio, d);
    }
  }

  /** For valid rewards, every coin's portion is zero exactly when every denomination's is. */
  lemma AllPortionsZero(rewards: Coins, ratio: int)
    requires ValidCoins(rewards) && 0 <= ratio <= LegacyDec.One
    ensures (forall i :: 0 <= i < |rewards| ==> CoinPortion(rewards[i].amount, ratio) == 0) <==>
            (forall d :: CoinPortion(AmountOf(rewards, d), ratio) == 0)
  {
    if forall i :: 0 <= i < |rewards| ==> CoinPortion(rewards[i].amount, ratio) == 0 {
      forall d ensures CoinPortion(AmountOf(rewards, d), ratio) == 0 {
        if d in Denoms(rewards) {
          var i :| 0 <= i < |rewards| && rewards[i].denom == d;
          AmountOfValid(rewards, i);
        } else {
          AmountOfAbsent(rewards, d);
        }
      }
    } else {
      var i :| 0 <= i < |rewards| && CoinPortion(rewards[i].amount, ratio) != 0;
      AmountOfValid(rewards, i);
    }
  }

  /** The loop's result is all zero exactly when every denomination's portion is. */
  lemma AccumulateZeroIff(rewards: Coins, ratio: int)
    requires ValidCoins(rewards) && 0 <= ratio <= LegacyDec.One
    ensures IsZero(Accumulate([], rewards, ratio)) <==> forall d :: CoinPortion(AmountOf(rewards, d), ratio) == 0
  {
    var restake := Accumulate([], rewards, ratio);
    AccumulateCorrect(rewards, ratio);
    IsZeroIffNoAmount(restake);
    if IsZero(restake) {
      forall d ensures CoinPortion(AmountOf(rewards, d), ratio) == 0 {
        assert AmountOf(restake, d) == 0;
      }
    } else {
      var d :| AmountOf(restake, d) != 0;
      assert CoinPortion(AmountOf(rewards, d), ratio) != 0;
    }
  }

  /** The calculator's promise: a per-denomination amount of `floor(amount × ratio)`,
      no denomination the rewards lack, no zero coin, and `nil` rather than an empty
      set exactly when every portion truncates to zero. */
  lemma RestakePortionCorrect(rewards: Coins, ratio: int)
    requires ValidCoins(rewards) && 0 <= ratio <= LegacyDec.One
    ensures forall d :: AmountOfOpt(RestakePortion(rewards, ratio), d) == CoinPortion(AmountOf(rewards, d), ratio)
    ensures forall d :: AmountOfOpt(RestakePortion(rewards, ratio), d) <= AmountOf(rewards, d)
    ensures RestakePortion(rewards, ratio).None? <==>
            forall i :: 0 <= i < |rewards| ==> CoinPortion(rewards[i].amount, ratio) == 0
    ensures RestakePortion(rewards, ratio).Some? ==>
              var out := RestakePortion(rewards, ratio).value;
              && out != []
              && ValidCoins(out)
              && Denoms(out) <= Denoms(rewards)
              && forall d :: d in Denoms(out) <==> CoinPortion(AmountOf(rewards, d), ratio) > 0
  {
    var restake := Accumulate([], rewards, ratio);
    AllPortionsZero(rewards, ratio);
    if IsZero(rewards) {
      IsZeroIffNoAmount(rewards);
      assert forall d :: CoinPortion(AmountOf(rewards, d), ratio) == 0;
    } else if ratio == 0 {
      forall d ensures CoinPortion(AmountOf(rewards, d), ratio) == 0 {
        assert AmountOf(rewards, d) * ratio == 0;
      }
    } else {
      AccumulateCorrect(rewards, ratio);
      AccumulateZeroIff(rewards, ratio);
      DenomsIffPositive(restake);
    }
  }

  /** `RestakeDelegate` as a function of the staking collaborator's state: what it
      returns and the state it leaves. */
  function RestakeDelegateEffect(st: StakingState, delegator: AccAddress, validator: ValAddress, portion: Coins)
    : (r: (StakingState, Option<Error>))
    // a zero portion returns nil without consulting staking
    ensures IsZero(portion) ==> r == (st, None)
    // a BondDenom error or an unknown validator is returned unchanged and nothing is delegated
    ensures !IsZero(portion) && BondDenomOp in st.faults ==> r == (st, Some(Failed(BondDenomOp)))
    ensures (!IsZero(portion) && BondDenomOp !in st.faults && AmountOf(portion, st.bondDenom) > 0 &&
             st.GetValidator(validator).Failure?) ==> r == (st, Some(st.GetValidator(validator).error))
    // a portion without bond-denomination coins delegates nothing
    ensures BondDenomOp !in st.faults && AmountOf(portion, st.bondDenom) == 0 ==> r == (st, None)
    // otherwise Delegate is invoked exactly once, with the bond-denomination amount only
    ensures (!IsZero(portion) && BondDenomOp !in st.faults && GetValidatorOp !in st.faults &&
             AmountOf(portion, st.bondDenom) > 0 && validator in st.validators) ==>
              && r.0 == st.Delegate(DelegateCall(delegator, AmountOf(portion, st.bondDenom), Unbonded,
                                                 st.validators[validator], true)).0
              && (r.1.None? <==> DelegateOp !in st.faults)
    ensures r.0 != st ==>
              && !IsZero(portion) && BondDenomOp !in st.faults && validator in st.validators
              && r.0.delegateCalls == st.delegateCalls +
                   [DelegateCall(delegator, AmountOf(portion, st.bondDenom), Unbonded, st.validators[validator], true)]
    ensures r.0.validators == st.validators && r.0.bondDenom == st.bondDenom && r.0.faults == st.faults
    ensures r.0.undelegateCalls == st.undelegateCalls
    ensures |st.delegateCalls| <= |r.0.delegateCalls| <= |st.delegateCalls| + 1
    ensures r.0.delegateCalls[..|st.delegateCalls|] == st.delegateCalls
    ensures forall a :: r.0.Delegated(a) ==
              st.Delegated(a) + (if r.1.None? && a == delegator then AmountOf(portion, st.bondDenom) else 0)
  {
    if IsZero(portion) then
      IsZeroAmountOf(portion, st.bondDenom);
      (st, None)
    else
      match st.BondDenom()
      case Failure(e) => (st, Some(e))
      case Success(bondDenom) =>
        var amount := AmountOf(portion, bondDenom);
        if amount == 0 then (st, None)
        else
          match st.GetValidator(validator)
          case Failure(e) => (st, Some(e))
          case Success(val) =>
            var (next, res) := st.Delegate(DelegateCall(delegator, amount, Unbonded, val, true));
            (next, if res.Failure? then Some(res.error) else None)
  }

  class Keeper {
    /** The `auto_restake_ratio` item of the module store; `None` until first set. */
    var autoRestakeRatio: Option<int>
    const staking: Staking

    /** Every stored ratio passed validation. */
    ghost predicate Valid()
      reads this
    {
      autoRestakeRatio.Some? ==> 0 <= autoRestakeRatio.value <= LegacyDec.One
    }

    constructor (staking: Staking)
      ensures Valid() && autoRestakeRatio.None? && this.staking == staking
    {
      this.staking := staking;
      autoRestakeRatio := None;
    }

    /** `GetAutoRestakeRatio`: the stored ratio, or 0.25 while none is stored. */
    function GetAutoRestakeRatio(): (r: int)
      reads this
      ensures autoRestakeRatio.None? ==> r == Params.DefaultAutoRestakeRatioDec()
      ensures Valid() ==> 0 <= r <= LegacyDec.One
    {
      match autoRestakeRatio
      case None => Params.DefaultAutoRestakeRatioDec()
      case Some(ratio) => ratio
    }

    /** `SetAutoRestakeRatio`: stores a validated ratio; an out-of-range one is refused
        and the stored value is left as it was. */
    method SetAutoRestakeRatio(ratio: int) returns (err: Option<Error>)
      requires Valid()
      modifies this`autoRestakeRatio
      ensures Valid()
      ensures err == Params.ValidateAutoRestakeRatio(ratio)
      ensures err.Some? ==> autoRestakeRatio == old(autoRestakeRatio)
      ensures err.None? ==> GetAutoRestakeRatio() == ratio
    {
      err := Params.ValidateAutoRestakeRatio(ratio);
      if err.Some? {
        return;
      }
      autoRestakeRatio := Some(ratio);
    }

    /** `AutoRestakeRewards`: the portion of `rewards` to restake at the stored ratio.
        It only reads the keeper. */
    method AutoRestakeRewards(rewards: Coins) returns (restake: Option<Coins>)
      ensures restake == RestakePortion(rewards, GetAutoRestakeRatio())
    {
      if IsZero(rewards) {
        return None;
      }
      var ratio := GetAutoRestakeRatio();
      if ratio == 0 {
        return None;
      }
      var acc: Coins := [];
      var i := 0;
      while i < |rewards|
        invariant 0 <= i <= |rewards|
        invariant Accumulate(acc, rewards[i..], ratio) == Accumulate([], rewards, ratio)
      {
        assert rewards[i..][1..] == rewards[i + 1..];
        var portion := CoinPortion(rewards[i].amount, ratio);
        if portion > 0 {
          acc := AddCoin(acc, Coin(rewards[i].denom, portion));
        }
        i := i + 1;
      }
      if IsZero(acc) {
        return None;
      }
      return Some(acc);
    }

    /** `RestakeDelegate`: delegates the bond-denomination part of `portion` back to the validator. */
    method RestakeDelegate(delegator: AccAddress, validator: ValAddress, portion: Coins)
      returns (err: Option<Error>)
      modifies staking
      ensures (staking.State(), err) == RestakeDelegateEffect(old(staking.State()), delegator, validator, portion)
    {
      if IsZero(portion) {
        return None;
      }
      var bondDenom := staking.BondDenom();
      if bondDenom.Failure? {
        return Some(bondDenom.error);
      }
      var amount := AmountOf(portion, bondDenom.value);
      if amount == 0 {
        return None;
      }
      var val := staking.GetValidator(validator);
      if val.Failure? {
        return Some(val.error);
      }
      var res := staking.Delegate(delegator, amount, Unbonded, val.value, true);
      if res.Failure? {
        return Some(res.error);
      }
      return None;
    }
  }
}
