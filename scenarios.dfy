/** End-to-end runs against the in-memory collaborators: the message-server test's
    claim-and-restake scenario, and a block whose reward withdrawal is auto-restaked. */
module Scenarios {
  import opened Types
  import opened Coins
  import opened Collaborators
  import opened RestakingKeeper
  import opened Restaking
  import opened BlocRestake
  import LegacyDec
  import Params

  /** The test's delegator (twenty 0x01 bytes) and validator (twenty 0x02 bytes). */
  function DelegatorBytes(): AccAddress
  {
    seq(20, _ => 1 as bv8)
  }

  function ValidatorBytes(): ValAddress
  {
    seq(20, _ => 2 as bv8)
  }

  /** A codec that knows exactly the two Bech32 strings of the scenario and one coin string. */
  function ScenarioCodec(): Codec
  {
    Codec(
      s => if s == "lyfe1delegator" then Some(DelegatorBytes()) else None,
      s => if s == "lyfevaloper1validator" then Some(ValidatorBytes()) else None,
      s => if s == "1000ulbt" then Some([Coin("ulbt", 1000)]) else None)
  }

  /** Whether some emitted event has the given type, searched as the test does. */
  method HasEventOfKind(events: seq<Event>, kind: string) returns (found: bool)
    ensures found <==> exists i :: 0 <= i < |events| && events[i].kind == kind
  {
    var i := 0;
    while i < |events| && events[i].kind != kind
      invariant 0 <= i <= |events|
      invariant forall k :: 0 <= k < i ==> events[k].kind != kind
    {
      i := i + 1;
    }
    found := i < |events|;
  }

  /** `TestMsgServerClaimAndRestake`: 100000 ulbt of pending rewards and an empty
      account; after `ClaimAndRestake` the whole reward is delegated, the account is
      back to zero and a `claim_and_restake` event was emitted. */
  method ClaimAndRestakeScenario() returns (err: Option<Error>, delegated: int, balance: nat, emitted: bool)
    ensures err.None? && delegated == 100_000 && balance == 0 && emitted
  {
    var bank := new Bank();
    var staking := new Staking("ulbt");
    var distribution := new Distribution(bank);
    var delegator, validator := DelegatorBytes(), ValidatorBytes();
    staking.AddValidator(Validator(validator));
    var bondDenom := staking.BondDenom();
    var rewardCoin := Coin(bondDenom.value, 100_000);
    SingleCoin(map[], "ulbt", 100_000);
    bank.MintCoins(DistributionModuleName, [rewardCoin]);
    assert bank.ModuleBalance(DistributionModuleName, "ulbt") == 100_000;
    distribution.SetRewards(delegator, validator, [rewardCoin]);
    var beforeBal := bank.GetBalance(delegator, bondDenom.value);
    assert beforeBal.amount == 0;

    var server := new MsgServer(bank, staking, distribution);
    var em := new EventManager();
    var msg := MsgClaimAndRestake("lyfe1delegator", "lyfevaloper1validator");
    SingleCoin(bank.ModuleOf(DistributionModuleName), "ulbt", 100_000);
    assert ClaimPrecheck(staking.State(), ScenarioCodec(), msg) == Success((delegator, validator, Validator(validator)));
    assert (delegator, validator) in distribution.rewards;
    assert Covers(bank.ModuleOf(DistributionModuleName), distribution.rewards[(delegator, validator)]);
    err := server.ClaimAndRestake(ScenarioCodec(), em, msg);

    delegated := staking.Delegated(delegator);
    balance := bank.GetBalance(delegator, bondDenom.value).amount;
    emitted := HasEventOfKind(em.events, EventTypeClaimAndRestake);
    assert em.events[0].kind == EventTypeClaimAndRestake;
  }

  /** The event a withdrawal of 1000 ulbt by the scenario's delegator leaves in a block. */
  function WithdrawEvent(): Event
  {
    Event(Restaking.EventTypeWithdrawRewards, [
      Attribute(Restaking.AttributeKeyDelegator, "lyfe1delegator"),
      Attribute(Restaking.AttributeKeyValidator, "lyfevaloper1validator"),
      Attribute(Restaking.AttributeKeyAmount, "1000ulbt")])
  }

  lemma WithdrawEventScan()
    ensures Scan(WithdrawEvent().attributes, ScenarioCodec()) ==
            Fields(Some(DelegatorBytes()), Some(ValidatorBytes()), Some([Coin("ulbt", 1000)]))
  {
    var attrs := WithdrawEvent().attributes;
    assert attrs[..|attrs| - 1] == attrs[..2];
    assert attrs[..2][..1] == attrs[..1];
    assert attrs[..1][..0] == [];
  }

  lemma QuarterOfThousand()
    ensures RestakePortion([Coin("ulbt", 1000)], Params.DefaultAutoRestakeRatio) == Some([Coin("ulbt", 250)])
  {
    var rewards := [Coin("ulbt", 1000)];
    assert CoinPortion(1000, Params.DefaultAutoRestakeRatio) == 250;
    assert rewards[1..] == [];
    assert AddPortion([], rewards[0], Params.DefaultAutoRestakeRatio) == [Coin("ulbt", 250)];
  }

  /** The scenario's block: an unrelated event, then the withdrawal. */
  function ScenarioBlock(): seq<Event>
  {
    [Event("transfer", []), WithdrawEvent()]
  }

  lemma ScenarioBlockHarvest(st: StakingState, height: int)
    requires st.faults == {} && st.bondDenom == "ulbt" && ValidatorBytes() in st.validators
    ensures Harvest(st, Params.DefaultAutoRestakeRatio, ScenarioCodec(), ScenarioBlock(), height).1 ==
            [RestakeExecuted(DelegatorBytes(), ValidatorBytes(), [Coin("ulbt", 250)], height)]
    ensures Harvest(st, Params.DefaultAutoRestakeRatio, ScenarioCodec(), ScenarioBlock(), height).0.Delegated(DelegatorBytes()) ==
            st.Delegated(DelegatorBytes()) + 250
  {
    var ratio, codec, evs := Params.DefaultAutoRestakeRatio, ScenarioCodec(), ScenarioBlock();
    HarvestSnoc(st, ratio, codec, [evs[0]], evs[1], height);
    HarvestSnoc(st, ratio, codec, [], evs[0], height);
    assert [evs[0]] + [evs[1]] == evs;
    assert [] + [evs[0]] == [evs[0]];
    WithdrawEventScan();
    QuarterOfThousand();
    var step := Step(st, ratio, codec, evs[1], height);
    assert AmountOf([Coin("ulbt", 250)], "ulbt") == 250;
    assert step.1 == Some(RestakeExecuted(DelegatorBytes(), ValidatorBytes(), [Coin("ulbt", 250)], height));
  }

  /** With the default ratio of 0.25, a block withdrawing 1000 ulbt restakes 250 ulbt
      and logs it; once the ratio is set to zero the same block restakes nothing. */
  method EndBlockerScenario() returns (first: int, log1: seq<LogEntry>, second: int, log2: seq<LogEntry>)
    ensures first == 250 && log1 == [RestakeExecuted(DelegatorBytes(), ValidatorBytes(), [Coin("ulbt", 250)], 7)]
    ensures second == 250 && log2 == []
  {
    var staking := new Staking("ulbt");
    staking.AddValidator(Validator(ValidatorBytes()));
    var k := new Keeper(staking);
    var em := new EventManager();
    em.Emit(Event("transfer", []));
    em.Emit(WithdrawEvent());
    var codec := ScenarioCodec();

    ScenarioBlockHarvest(staking.State(), 7);
    assert em.events == ScenarioBlock();
    log1 := EndBlocker(k, em, codec, 7);
    first := staking.Delegated(DelegatorBytes());

    var setErr := k.SetAutoRestakeRatio(0);
    assert setErr.None?;
    ghost var st1 := staking.State();
    HarvestZeroRatio(st1, codec, em.events, 8);
    log2 := EndBlocker(k, em, codec, 8);
    second := staking.Delegated(DelegatorBytes());
  }
}
