/** Shared vocabulary of the restaking engine: addresses, errors, events and the
    event manager that collects them. */
module Types {

  datatype Option<+T> = None | Some(value: T)

  /** The value-or-error pair that Go functions return as `(T, error)`. */
  datatype Result<+T> = Success(value: T) | Failure(error: Error)

  /** Raw address bytes, as decoded from their Bech32 form. */
  type AccAddress = seq<bv8>
  type ValAddress = seq<bv8>

  /** The staking collaborator's operations whose error returns the model can switch on. */
  datatype StakingOp = GetValidatorOp | DelegateOp | UndelegateOp | BondDenomOp

  /** The errors the core returns or passes through.
      - InvalidAddress .. InsufficientFunds: the x/blocrestake sentinels with codes 1502-1505;
      - NoValidatorFound: the staking module's "validator does not exist";
      - NoValidatorDistInfo: the distribution module's "no validator distribution info";
      - BankInsufficientFunds: the SDK's own insufficient-funds error raised by the bank;
      - RatioOutOfRange: the restaking params' validation error;
      - Failed(op): an error return of a staking collaborator operation;
      - Wrapped(cause, context): `errorsmod.Wrap(cause, context)`. */
  datatype Error =
    | InvalidAddress
    | InvalidAmount
    | ValidatorNotFound
    | InsufficientFunds
    | NoValidatorFound
    | NoValidatorDistInfo
    | BankInsufficientFunds
    | RatioOutOfRange
    | Failed(op: StakingOp)
    | Wrapped(cause: Error, context: string)

  /** `errors.Is`: an error is its own target or wraps it. */
  function Is(e: Error, target: Error): bool
  {
    e == target || (e.Wrapped? && Is(e.cause, target))
  }

  /** An event attribute and an ABCI event, as the event manager records them. */
  datatype Attribute = Attribute(key: string, value: string)
  datatype Event = Event(kind: string, attributes: seq<Attribute>)

  /** Collects the events emitted while a block is processed (the context's event manager). */
  class EventManager {
    var events: seq<Event>

    constructor ()
      ensures events == []
    {
      events := [];
    }

    method Emit(e: Event)
      modifies this
      ensures events == old(events) + [e]
    {
      events := events + [e];
    }
  }

  /** Decimal rendering of a non-negative integer, as `math.Int.String()` gives it. */
  function DecimalString(n: nat): (s: string)
    ensures |s| > 0
    ensures forall i :: 0 <= i < |s| ==> '0' <= s[i] <= '9'
  {
    var digit := ['0' + (n % 10) as char];
    if n < 10 then digit else DecimalString(n / 10) + digit
  }

  /** Reading the digits back gives the number: the rendering loses nothing. */
  function DigitsValue(s: string): int
  {
    if s == [] then 0 else DigitsValue(s[..|s| - 1]) * 10 + (s[|s| - 1] as int - '0' as int)
  }

  lemma {:induction false} DecimalStringRoundTrip(n: nat)
    ensures DigitsValue(DecimalString(n)) == n
  {
    var s := DecimalString(n);
    var digit := ['0' + (n % 10) as char];
    if n >= 10 {
      DecimalStringRoundTrip(n / 10);
      assert s[..|s| - 1] == DecimalString(n / 10);
    } else {
      assert s[..|s| - 1] == [];
    }
  }
}
