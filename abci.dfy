/** The restaking module's end-of-block hook: it reads the block's reward-withdrawal
    events and restakes the configured share of each withdrawal with the same
    validator. */
module Restaking {
  import opened Types
  import opened Coins
  import opened Collaborators
  import opened RestakingKeeper
  import LegacyDec

  /** `distributiontypes.EventTypeWithdrawRewards` and the attribute keys it carries. */
  const EventTypeWithdrawRewards: string := "withdraw_rewards"
  const AttributeKeyDelegator: string := "delegator"
  const AttributeKeyValidator: string := "validator"
  const AttributeKeyAmount: string := "amount"

  /** The three local variables the attribute loop fills in; `None` is Go's `nil`. */
  datatype Fields = Fields(delegator: Option<AccAddress>, validator: Option<ValAddress>, rewards: Option<Coins>)

  /** One pass of the attribute switch: a value that decodes replaces the field of its
      key; a value that does not decode, or an unknown key, changes nothing. */
  function ReadAttribute(f: Fields, attr: Attribute, codec: Codec): Fields
  {
    if attr.key == AttributeKeyDelegator then
      (match codec.accAddress(attr.value) case Some(a) => f.(delegator := Some(a)) case None => f)
    else if attr.key == AttributeKeyValidator then
      (match codec.valAddress(attr.value) case Some(v) => f.(validator := Some(v)) case None => f)
    else if attr.key == AttributeKeyAmount then
      (match codec.coins(attr.value) case Some(c) => f.(rewards := Some(c)) case None => f)
    else f
  }

  /** The attribute loop over a prefix of an event's attributes. */
  function Scan(attrs: seq<Attribute>, codec: Codec): Fields
    decreases |attrs|
  {
    if attrs == [] then Fields(None, None, None)
    else ReadAttribute(Scan(attrs[..|attrs| - 1], codec), attrs[|attrs| - 1], codec)
  }

  /** `v` is what the last attribute named `key` whose value `parse` accepts decodes to,
      or `None` when no attribute named `key` decodes. */
  ghost predicate IsLastParsed<T>(attrs: seq<Attribute>, key: string, parse: string -> Option<T>, v: Option<T>)
  {
    if v.None? then
      forall i :: 0 <= i < |attrs| && attrs[i].key == key ==> parse(attrs[i].value).None?
    else
      exists i :: 0 <= i < |attrs| && attrs[i].key == key && parse(attrs[i].value) == v &&
        forall j :: i < j < |attrs| && attrs[j].key == key ==> parse(attrs[j].value).None?
  }

  /** Appending one attribute: a decodable value under `key` becomes the last parsed one;
      anything else leaves it as it was. */
  lemma LastParsedSnoc<T>(attrs: seq<Attribute>, a: Attribute, key: string, parse: string -> Option<T>, v: Option<T>)
    requires IsLastParsed(attrs, key, parse, v)
    ensures IsLastParsed(attrs + [a], key, parse,
                         if a.key == key && parse(a.value).Some? then parse(a.value) else v)
  {
    var all := attrs + [a];
    if a.key == key && parse(a.value).Some? {
      assert all[|attrs|] == a;
    } else if v.None? {
      forall i | 0 <= i < |all| && all[i].key == key ensures parse(all[i].value).None? {
        if i < |attrs| {
          assert all[i] == attrs[i];
        }
      }
    } else {
      var i :| 0 <= i < |attrs| && attrs[i].key == key && parse(attrs[i].value) == v &&
        forall j :: i < j < |attrs| && attrs[j].key == key ==> parse(attrs[j].value).None?;
      assert all[i] == attrs[i];
      forall j | i < j < |all| && all[j].key == key ensures parse(all[j].value).None? {
        if j < |attrs| {
          assert all[j] == attrs[j];
        }
      }
    }
  }

  /** The attribute loop keeps, for each key, the last value that decodes: a later
      undecodable value does not erase an earlier good one, and a field stays `nil`
      only when no value under its key decodes. */
  lemma {:induction false} ScanIsLastParsed(attrs: seq<Attribute>, codec: Codec)
    ensures IsLastParsed(attrs, AttributeKeyDelegator, codec.accAddress, Scan(attrs, codec).delegator)
    ensures IsLastParsed(attrs, AttributeKeyValidator, codec.valAddress, Scan(attrs, codec).validator)
    ensures IsLastParsed(attrs, AttributeKeyAmount, codec.coins, Scan(attrs, codec).rewards)
    decreases |attrs|
  {
    if attrs != [] {
      var init := attrs[..|attrs| - 1];
      var a := attrs[|attrs| - 1];
      assert attrs == init + [a];
      ScanIsLastParsed(init, codec);
      var f := Scan(init, codec);
      LastParsedSnoc(init, a, AttributeKeyDelegator, codec.accAddress, f.delegator);
      LastParsedSnoc(init, a, AttributeKeyValidator, codec.valAddress, f.validator);
      LastParsedSnoc(init, a, AttributeKeyAmount, codec.coins, f.rewards);
    }
  }

  /** What the hook logs for one event: the failed restake with its error, or the
      executed one with the restaked coins and the block height. */
  datatype LogEntry =
    | RestakeFailed(delegator: AccAddress, validator: ValAddress, err: Error)
    | RestakeExecuted(delegator: AccAddress, validator: ValAddress, amount: Coins, height: int)

  /** The staking state after a block's restakes, compared with the state before:
      only delegations and the Delegate call log move; every new call delegates a
      positive amount, as unbonded tokens taken from the account, to a registered
      validator; and no delegator's total goes down. */
  ghost predicate Restaked(st: StakingState, st2: StakingState)
  {
    && st2.validators == st.validators
    && st2.bondDenom == st.bondDenom
    && st2.faults == st.faults
    && st2.undelegateCalls == st.undelegateCalls
    && |st.delegateCalls| <= |st2.delegateCalls|
    && st2.delegateCalls[..|st.delegateCalls|] == st.delegateCalls
    && (forall k :: |st.delegateCalls| <= k < |st2.delegateCalls| ==>
          && st2.delegateCalls[k].amount > 0
          && st2.delegateCalls[k].status == Unbonded
          && st2.delegateCalls[k].subtractAccount
          && st2.delegateCalls[k].validator in st.validators.Values)
    && (forall a :: st.Delegated(a) <= st2.Delegated(a))
  }

  lemma RestakedTransitive(s1: StakingState, s2: StakingState, s3: StakingState)
    requires Restaked(s1, s2) && Restaked(s2, s3)
    ensures Restaked(s1, s3)
  {
    forall k | |s1.delegateCalls| <= k < |s3.delegateCalls|
      ensures s3.delegateCalls[k].amount > 0 && s3.delegateCalls[k].validator in s1.validators.Values
    {
      if k < |s2.delegateCalls| {
        assert s3.delegateCalls[k] == s2.delegateCalls[k];
      }
    }
    assert s3.delegateCalls[..|s1.delegateCalls|] == s2.delegateCalls[..|s2.delegateCalls|][..|s1.delegateCalls|];
  }

  /** The loop body for one event. Anything but a reward withdrawal, a withdrawal
      missing a decodable delegator, validator or non-empty amount, or one whose
      restake portion is nil, is skipped without a log line. */
  function Step(st: StakingState, ratio: int, codec: Codec, ev: Event, height: int)
    : (r: (StakingState, Option<LogEntry>))
    // without a log line the staking state is untouched
    ensures r.1.None? ==> r.0 == st
  {
    if ev.kind != EventTypeWithdrawRewards then (st, None)
    else
      var f := Scan(ev.attributes, codec);
      if f.delegator.None? || f.validator.None? || f.rewards.None? || |f.rewards.value| == 0 then (st, None)
      else
        var del, val, rewards := f.delegator.value, f.validator.value, f.rewards.value;
        match RestakePortion(rewards, ratio)
        case None => (st, None)
        case Some(portion) =>
          if IsZero(portion) then (st, None)
          else
            var (next, err) := RestakeDelegateEffect(st, del, val, portion);
            (next, match err
                   case Some(e) => Some(RestakeFailed(del, val, e))
                   case None => Some(RestakeExecuted(del, val, portion, height)))
  }

  /** A single event changes only what `Restaked` allows, with at most one Delegate call. */
  lemma StepRestakes(st: StakingState, ratio: int, codec: Codec, ev: Event, height: int)
    ensures ev.kind != EventTypeWithdrawRewards ==> Step(st, ratio, codec, ev, height) == (st, None)
    ensures Restaked(st, Step(st, ratio, codec, ev, height).0)
    ensures |Step(st, ratio, codec, ev, height).0.delegateCalls| <= |st.delegateCalls| + 1
  {
    var next := Step(st, ratio, codec, ev, height).0;
    if next != st {
      assert next.delegateCalls[|st.delegateCalls|].amount > 0;
    }
  }

  /** A log line only comes from a reward withdrawal and names that event's own
      delegator and validator. */
  lemma StepLogNamesEvent(st: StakingState, ratio: int, codec: Codec, ev: Event, height: int)
    ensures var r := Step(st, ratio, codec, ev, height);
            r.1.Some? ==>
              && ev.kind == EventTypeWithdrawRewards
              && Scan(ev.attributes, codec).delegator == Some(r.1.value.delegator)
              && Scan(ev.attributes, codec).validator == Some(r.1.value.validator)
  {
  }

  /** A withdrawal without a decodable delegator, validator or non-empty amount is
      skipped: nothing is delegated and nothing is logged. */
  lemma StepSkipsIncomplete(st: StakingState, ratio: int, codec: Codec, ev: Event, height: int)
    requires var f := Scan(ev.attributes, codec);
             f.delegator.None? || f.validator.None? || f.rewards.None? || |f.rewards.value| == 0
    ensures Step(st, ratio, codec, ev, height) == (st, None)
  {
  }

  /** A failed restake is logged as a failure with its error, and the staking state is
      whatever the failed `RestakeDelegate` left. */
  lemma StepLogsFailure(st: StakingState, ratio: int, codec: Codec, ev: Event, height: int, e: Error)
    requires ev.kind == EventTypeWithdrawRewards
    requires var f := Scan(ev.attributes, codec);
             && f.delegator.Some? && f.validator.Some? && f.rewards.Some? && |f.rewards.value| > 0
             && RestakePortion(f.rewards.value, ratio).Some?
             && RestakeDelegateEffect(st, f.delegator.value, f.validator.value,
                                      RestakePortion(f.rewards.value, ratio).value).1 == Some(e)
    ensures var f := Scan(ev.attributes, codec);
            var eff := RestakeDelegateEffect(st, f.delegator.value, f.validator.value,
                                             RestakePortion(f.rewards.value, ratio).value);
            Step(st, ratio, codec, ev, height) == (eff.0, Some(RestakeFailed(f.delegator.value, f.validator.value, e)))
  {
  }

  function Entries(e: Option<LogEntry>): seq<LogEntry>
  {
    if e.None? then [] else [e.value]
  }

  /** The event loop over a prefix of the block's events: the staking state it leaves
      and the log lines it writes, in event order. */
  function Harvest(st: StakingState, ratio: int, codec: Codec, evs: seq<Event>, height: int)
    : (StakingState, seq<LogEntry>)
    decreases |evs|
  {
    if evs == [] then (st, [])
    else
      var prev := Harvest(st, ratio, codec, evs[..|evs| - 1], height);
      var step := Step(prev.0, ratio, codec, evs[|evs| - 1], height);
      (step.0, prev.1 + Entries(step.1))
  }

  /** One more event at the end of the block is one more step of the loop. */
  lemma HarvestSnoc(st: StakingState, ratio: int, codec: Codec, evs: seq<Event>, ev: Event, height: int)
    ensures var prev := Harvest(st, ratio, codec, evs, height);
            var step := Step(prev.0, ratio, codec, ev, height);
            Harvest(st, ratio, codec, evs + [ev], height) == (step.0, prev.1 + Entries(step.1))
  {
    assert (evs + [ev])[..|evs|] == evs;
  }

  /** The left fold of a block's events through any per-event step, collecting the
      log lines; `Harvest` is this fold through `Step`. */
  function FoldSteps(f: (StakingState, Event) -> (StakingState, Option<LogEntry>),
                     st: StakingState, evs: seq<Event>): (r: (StakingState, seq<LogEntry>))
    ensures |r.1| <= |evs|
    decreases |evs|
  {
    if evs == [] then (st, [])
    else
      var prev := FoldSteps(f, st, evs[..|evs| - 1]);
      var step := f(prev.0, evs[|evs| - 1]);
      (step.0, prev.1 + Entries(step.1))
  }

  /** Folding a concatenation is folding the second part from where the first left off. */
  lemma {:induction false} FoldStepsAppend(f: (StakingState, Event) -> (StakingState, Option<LogEntry>),
                                           st: StakingState, evs1: seq<Event>, evs2: seq<Event>)
    ensures var first := FoldSteps(f, st, evs1);
            var second := FoldSteps(f, first.0, evs2);
            FoldSteps(f, st, evs1 + evs2) == (second.0, first.1 + second.1)
    decreases |evs2|
  {
    var first := FoldSteps(f, st, evs1);
    if evs2 == [] {
      assert evs1 + evs2 == evs1;
      assert first.1 + [] == first.1;
    } else {
      var init, last := evs2[..|evs2| - 1], evs2[|evs2| - 1];
      FoldStepsAppend(f, st, evs1, init);
      var mid := FoldSteps(f, first.0, init);
      var step := f(mid.0, last);
      assert (evs1 + evs2)[..|evs1 + evs2| - 1] == evs1 + init;
      assert (first.1 + mid.1) + Entries(step.1) == first.1 + (mid.1 + Entries(step.1));
    }
  }

  /** `Harvest` is the fold of `Step` over the block. */
  lemma {:induction false} HarvestIsFold(f: (StakingState, Event) -> (StakingState, Option<LogEntry>),
                                         st: StakingState, ratio: int, codec: Codec,
                                         evs: seq<Event>, height: int)
    requires forall s, ev :: f(s, ev) == Step(s, ratio, codec, ev, height)
    ensures Harvest(st, ratio, codec, evs, height) == FoldSteps(f, st, evs)
    decreases |evs|
  {
    if evs != [] {
      HarvestIsFold(f, st, ratio, codec, evs[..|evs| - 1], height);
    }
  }

  /** Events are handled one after another and independently: a block's events split
      anywhere give the same result run in two parts. */
  lemma HarvestAppend(st: StakingState, ratio: int, codec: Codec,
                      evs1: seq<Event>, evs2: seq<Event>, height: int)
    ensures var first := Harvest(st, ratio, codec, evs1, height);
            var second := Harvest(first.0, ratio, codec, evs2, height);
            Harvest(st, ratio, codec, evs1 + evs2, height) == (second.0, first.1 + second.1)
  {
    var f := (s, ev) => Step(s, ratio, codec, ev, height);
    var first := Harvest(st, ratio, codec, evs1, height);
    HarvestIsFold(f, st, ratio, codec, evs1, height);
    HarvestIsFold(f, first.0, ratio, codec, evs2, height);
    HarvestIsFold(f, st, ratio, codec, evs1 + evs2, height);
    FoldStepsAppend(f, st, evs1, evs2);
  }

  /** A block without reward withdrawals changes nothing and logs nothing. */
  lemma {:induction false} HarvestIgnoresOtherEvents(st: StakingState, ratio: int, codec: Codec,
                                                     evs: seq<Event>, height: int)
    requires forall i :: 0 <= i < |evs| ==> evs[i].kind != EventTypeWithdrawRewards
    ensures Harvest(st, ratio, codec, evs, height) == (st, [])
    decreases |evs|
  {
    if evs != [] {
      HarvestIgnoresOtherEvents(st, ratio, codec, evs[..|evs| - 1], height);
      var step := Step(st, ratio, codec, evs[|evs| - 1], height);
      StepRestakes(st, ratio, codec, evs[|evs| - 1], height);
      assert [] + Entries(step.1) == [];
    }
  }

  /** A ratio of zero turns the hook off: nothing is delegated and nothing is logged. */
  lemma {:induction false} HarvestZeroRatio(st: StakingState, codec: Codec, evs: seq<Event>, height: int)
    ensures Harvest(st, 0, codec, evs, height) == (st, [])
    decreases |evs|
  {
    if evs != [] {
      HarvestZeroRatio(st, codec, evs[..|evs| - 1], height);
      var step := Step(st, 0, codec, evs[|evs| - 1], height);
      assert step == (st, None);
      assert [] + Entries(step.1) == [];
    }
  }

  /** Over a whole block: only delegations and the Delegate call log change, at most
      one Delegate call and one log line per event, and no delegation shrinks. */
  lemma {:induction false} HarvestRestakes(st: StakingState, ratio: int, codec: Codec, evs: seq<Event>, height: int)
    ensures Restaked(st, Harvest(st, ratio, codec, evs, height).0)
    ensures |Harvest(st, ratio, codec, evs, height).0.delegateCalls| <= |st.delegateCalls| + |evs|
    ensures |Harvest(st, ratio, codec, evs, height).1| <= |evs|
    decreases |evs|
  {
    if evs != [] {
      var init := evs[..|evs| - 1];
      HarvestRestakes(st, ratio, codec, init, height);
      var s := Harvest(st, ratio, codec, init, height).0;
      StepRestakes(s, ratio, codec, evs[|evs| - 1], height);
      RestakedTransitive(st, s, Step(s, ratio, codec, evs[|evs| - 1], height).0);
    }
  }

  /** One withdrawal of valid coins, with a ratio in range, a registered validator and
      no staking failure, delegates exactly `floor(reward × ratio)` of the bond
      denomination for the delegator and nothing for anyone else; it logs an executed
      restake whenever some coin's share is positive. */
  lemma StepRestakesPortion(st: StakingState, ratio: int, codec: Codec, ev: Event, height: int)
    requires ev.kind == EventTypeWithdrawRewards
    requires 0 <= ratio <= LegacyDec.One && st.faults == {}
    requires Scan(ev.attributes, codec).delegator.Some?
    requires Scan(ev.attributes, codec).validator.Some?
    requires Scan(ev.attributes, codec).validator.value in st.validators
    requires Scan(ev.attributes, codec).rewards.Some? && ValidCoins(Scan(ev.attributes, codec).rewards.value)
    ensures var f := Scan(ev.attributes, codec);
            forall a :: Step(st, ratio, codec, ev, height).0.Delegated(a) ==
              st.Delegated(a) +
              (if a == f.delegator.value then CoinPortion(AmountOf(f.rewards.value, st.bondDenom), ratio) else 0)
    ensures var r := Step(st, ratio, codec, ev, height).1;
            var f := Scan(ev.attributes, codec);
            && (r.Some? ==> r.value.RestakeExecuted? && r.value.delegator == f.delegator.value)
            && (r.Some? <==> exists i :: 0 <= i < |f.rewards.value| && CoinPortion(f.rewards.value[i].amount, ratio) > 0)
  {
    var f := Scan(ev.attributes, codec);
    var rewards := f.rewards.value;
    RestakePortionCorrect(rewards, ratio);
    if |rewards| == 0 {
      AmountOfAbsent(rewards, st.bondDenom);
    }
  }

  /** A restake whose portion holds no bond-denomination coin delegates nothing, yet
      the hook still logs it as executed, because `RestakeDelegate` returns nil. */
  lemma StepExecutedWithoutBondDenom(st: StakingState, ratio: int, codec: Codec, ev: Event, height: int)
    requires ev.kind == EventTypeWithdrawRewards && BondDenomOp !in st.faults
    requires Scan(ev.attributes, codec).delegator.Some? && Scan(ev.attributes, codec).validator.Some?
    requires Scan(ev.attributes, codec).rewards.Some? && |Scan(ev.attributes, codec).rewards.value| > 0
    requires RestakePortion(Scan(ev.attributes, codec).rewards.value, ratio).Some?
    requires AmountOf(RestakePortion(Scan(ev.attributes, codec).rewards.value, ratio).value, st.bondDenom) == 0
    ensures var f := Scan(ev.attributes, codec);
            Step(st, ratio, codec, ev, height) ==
              (st, Some(RestakeExecuted(f.delegator.value, f.validator.value,
                                        RestakePortion(f.rewards.value, ratio).value, height)))
  {
  }

  /** The attribute loop of one withdrawal event: the switch on each key, keeping a
      value only when it decodes. */
  method ReadAttributes(attrs: seq<Attribute>, codec: Codec) returns (f: Fields)
    ensures f == Scan(attrs, codec)
  {
    var delAddr: Option<AccAddress> := None;
    var valAddr: Option<ValAddress> := None;
    var rewards: Option<Coins> := None;
    var j := 0;
    while j < |attrs|
      invariant 0 <= j <= |attrs|
      invariant Fields(delAddr, valAddr, rewards) == Scan(attrs[..j], codec)
    {
      var attr := attrs[j];
      assert attrs[..j + 1][..j] == attrs[..j];
      if attr.key == AttributeKeyDelegator {
        var addr := codec.accAddress(attr.value);
        if addr.Some? {
          delAddr := addr;
        }
      } else if attr.key == AttributeKeyValidator {
        var addr := codec.valAddress(attr.value);
        if addr.Some? {
          valAddr := addr;
        }
      } else if attr.key == AttributeKeyAmount {
        var coins := codec.coins(attr.value);
        if coins.Some? {
          rewards := coins;
        }
      }
      j := j + 1;
    }
    assert attrs[..j] == attrs;
    return Fields(delAddr, valAddr, rewards);
  }

  /** The invariant step of `EndBlocker`: one more event continues `Harvest`. */
  lemma HarvestNext(st0: StakingState, ratio: int, codec: Codec, evs: seq<Event>, ev: Event, height: int,
                    st: StakingState, log: seq<LogEntry>, st2: StakingState, entry: Option<LogEntry>)
    requires (st, log) == Harvest(st0, ratio, codec, evs, height)
    requires (st2, entry) == Step(st, ratio, codec, ev, height)
    ensures (st2, log + Entries(entry)) == Harvest(st0, ratio, codec, evs + [ev], height)
  {
    HarvestSnoc(st0, ratio, codec, evs, ev, height);
  }

  /** The loop body of `EndBlocker` for one event: a reward withdrawal with a decodable
      delegator, validator and non-empty amount has the keeper's share of it restaked;
      the result is the log line, if any. The staking state it leaves and the line are
      those of `Step`. */
  method RestakeEvent(k: Keeper, codec: Codec, ev: Event, height: int) returns (entry: Option<LogEntry>)
    modifies k.staking
    ensures (k.staking.State(), entry) == Step(old(k.staking.State()), k.GetAutoRestakeRatio(), codec, ev, height)
  {
    entry := None;
    if ev.kind == EventTypeWithdrawRewards {
      var fields := ReadAttributes(ev.attributes, codec);
      var delAddr, valAddr, rewards := fields.delegator, fields.validator, fields.rewards;
      if delAddr.Some? && valAddr.Some? && rewards.Some? && |rewards.value| != 0 {
        var portion := k.AutoRestakeRewards(rewards.value);
        if portion.Some? && !IsZero(portion.value) {
          var err := k.RestakeDelegate(delAddr.value, valAddr.value, portion.value);
          if err.Some? {
            entry := Some(RestakeFailed(delAddr.value, valAddr.value, err.value));
          } else {
            entry := Some(RestakeExecuted(delAddr.value, valAddr.value, portion.value, height));
          }
        }
      }
    }
  }

  /** `EndBlocker`: walks the block's events in order and restakes each reward
      withdrawal as `RestakeEvent` does; a failed restake is logged and the walk goes
      on. The staking state it leaves and the lines it logs are those of `Harvest`. */
  method EndBlocker(k: Keeper, em: EventManager, codec: Codec, height: int) returns (log: seq<LogEntry>)
    modifies k.staking
    ensures (k.staking.State(), log) ==
      Harvest(old(k.staking.State()), k.GetAutoRestakeRatio(), codec, em.events, height)
  {
    var events := em.events;
    ghost var st0, ratio := k.staking.State(), k.GetAutoRestakeRatio();
    log := [];
    var i := 0;
    while i < |events|
      invariant 0 <= i <= |events|
      invariant ratio == k.GetAutoRestakeRatio()
      invariant (k.staking.State(), log) == Harvest(st0, ratio, codec, events[..i], height)
    {
      var ev := events[i];
      ghost var before := k.staking.State();
      var entry := RestakeEvent(k, codec, ev, height);
      HarvestNext(st0, ratio, codec, events[..i], ev, height, before, log, k.staking.State(), entry);
      log := log + Entries(entry);
      assert events[..i + 1] == events[..i] + [ev];
      i := i + 1;
    }
    assert events[..i] == events;
  }
}
