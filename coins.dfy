/** Multi-denomination amounts: `sdk.Coin`, `sdk.Coins` (a slice of coins) and the
    per-denomination balances the bank stores. */
module Coins {
  import opened Types

  type Denom = string

  datatype Coin = Coin(denom: Denom, amount: nat)

  type Coins = seq<Coin>

  /** `Coins.AmountOf`: the amount held in one denomination. Summing every coin of
      that denomination gives the sdk value for valid coins, which hold at most one. */
  function AmountOf(c: Coins, d: Denom): nat
  {
    if c == [] then 0 else (if c[0].denom == d then c[0].amount else 0) + AmountOf(c[1..], d)
  }

  /** `Coins.IsZero`: no coins, or every coin zero. */
  predicate IsZero(c: Coins)
  {
    forall i :: 0 <= i < |c| ==> c[i].amount == 0
  }

  function Denoms(c: Coins): set<Denom>
  {
    set i | 0 <= i < |c| :: c[i].denom
  }

  /** What `Coins.Validate` and `NewCoins` guarantee (sorting aside): one coin per
      denomination, every amount positive. */
  predicate ValidCoins(c: Coins)
  {
    && (forall i :: 0 <= i < |c| ==> c[i].amount > 0)
    && (forall i, j :: 0 <= i < j < |c| ==> c[i].denom != c[j].denom)
  }

  lemma {:induction false} AmountOfAbsent(c: Coins, d: Denom)
    requires d !in Denoms(c)
    ensures AmountOf(c, d) == 0
  {
    if c != [] {
      assert c[0].denom in Denoms(c);
      assert Denoms(c[1..]) <= Denoms(c) by {
        forall e | e in Denoms(c[1..]) ensures e in Denoms(c) {
          var i :| 0 <= i < |c[1..]| && c[1..][i].denom == e;
          assert c[i + 1].denom == e;
        }
      }
      AmountOfAbsent(c[1..], d);
    }
  }

  lemma AmountOfOutside(c: Coins)
    ensures forall d :: d !in Denoms(c) ==> AmountOf(c, d) == 0
  {
    forall d | d !in Denoms(c) ensures AmountOf(c, d) == 0 {
      AmountOfAbsent(c, d);
    }
  }

  /** In valid coins, the amount of a present denomination is that coin's amount. */
  lemma {:induction false} AmountOfValid(c: Coins, i: int)
    requires ValidCoins(c) && 0 <= i < |c|
    ensures AmountOf(c, c[i].denom) == c[i].amount
  {
    var rest := c[1..];
    assert ValidCoins(rest) by {
      forall k, j | 0 <= k < j < |rest| ensures rest[k].denom != rest[j].denom {
        assert rest[k] == c[k + 1] && rest[j] == c[j + 1];
      }
    }
    if i == 0 {
      assert c[0].denom !in Denoms(rest) by {
        forall k | 0 <= k < |rest| ensures rest[k].denom != c[0].denom {
          assert rest[k] == c[k + 1];
        }
      }
      AmountOfAbsent(rest, c[0].denom);
    } else {
      assert c[0].denom != c[i].denom;
      assert rest[i - 1] == c[i];
      AmountOfValid(rest, i - 1);
    }
  }

  /** A coin's amount is part of the total of its denomination. */
  lemma {:induction false} AmountOfAtLeast(c: Coins, i: int)
    requires 0 <= i < |c|
    ensures AmountOf(c, c[i].denom) >= c[i].amount
  {
    if i > 0 {
      assert c[1..][i - 1] == c[i];
      AmountOfAtLeast(c[1..], i - 1);
    }
  }

  /** IsZero says exactly that every denomination has amount zero. */
  lemma {:induction false} IsZeroIffNoAmount(c: Coins)
    ensures IsZero(c) <==> forall d :: AmountOf(c, d) == 0
  {
    if IsZero(c) {
      forall d ensures AmountOf(c, d) == 0 {
        IsZeroAmountOf(c, d);
      }
    } else {
      var i :| 0 <= i < |c| && c[i].amount != 0;
      AmountOfAtLeast(c, i);
    }
  }

  lemma {:induction false} IsZeroAmountOf(c: Coins, d: Denom)
    requires IsZero(c)
    ensures AmountOf(c, d) == 0
  {
    if c != [] {
      assert IsZero(c[1..]) by {
        forall k | 0 <= k < |c[1..]| ensures c[1..][k].amount == 0 {
          assert c[1..][k] == c[k + 1];
        }
      }
      IsZeroAmountOf(c[1..], d);
    }
  }

  /** In valid coins, a denomination is present exactly when its amount is positive. */
  lemma DenomsIffPositive(c: Coins)
    requires ValidCoins(c)
    ensures forall d :: d in Denoms(c) <==> AmountOf(c, d) > 0
  {
    forall d ensures d in Denoms(c) <==> AmountOf(c, d) > 0 {
      if d in Denoms(c) {
        var i :| 0 <= i < |c| && c[i].denom == d;
        AmountOfValid(c, i);
      } else {
        AmountOfAbsent(c, d);
      }
    }
  }

  /** `Coins.Add` of one coin: merged into the coin of its denomination, or appended. */
  function AddCoin(c: Coins, x: Coin): (r: Coins)
    ensures forall d :: AmountOf(r, d) == AmountOf(c, d) + (if d == x.denom then x.amount else 0)
    ensures Denoms(r) == Denoms(c) + {x.denom}
    ensures |r| <= |c| + 1
  {
    if c == [] then
      assert Denoms([x]) == {x.denom} by {
        assert [x][0] == x;
      }
      [x]
    else
      var r := if c[0].denom == x.denom then [Coin(x.denom, c[0].amount + x.amount)] + c[1..]
               else [c[0]] + AddCoin(c[1..], x);
      assert r[1..] == if c[0].denom == x.denom then c[1..] else AddCoin(c[1..], x);
      DenomsCons(c);
      DenomsCons(r);
      r
  }

  lemma DenomsCons(c: Coins)
    requires c != []
    ensures Denoms(c) == {c[0].denom} + Denoms(c[1..])
  {
    forall e | e in Denoms(c) ensures e in {c[0].denom} + Denoms(c[1..]) {
      var i :| 0 <= i < |c| && c[i].denom == e;
      if i > 0 {
        assert c[1..][i - 1] == c[i];
      }
    }
    forall e | e in Denoms(c[1..]) ensures e in Denoms(c) {
      var i :| 0 <= i < |c[1..]| && c[1..][i].denom == e;
      assert c[i + 1] == c[1..][i];
    }
  }

  /** Adding a positive coin to valid coins keeps them valid. */
  lemma {:induction false} AddCoinValid(c: Coins, x: Coin)
    requires ValidCoins(c) && x.amount > 0
    ensures ValidCoins(AddCoin(c, x))
  {
    var r := AddCoin(c, x);
    if c != [] {
      var rest := c[1..];
      assert ValidCoins(rest) by {
        forall k, j | 0 <= k < j < |rest| ensures rest[k].denom != rest[j].denom {
          assert rest[k] == c[k + 1] && rest[j] == c[j + 1];
        }
      }
      assert c[0].denom !in Denoms(rest) by {
        forall k | 0 <= k < |rest| ensures rest[k].denom != c[0].denom {
          assert rest[k] == c[k + 1];
        }
      }
      if c[0].denom == x.denom {
        assert r == [Coin(x.denom, c[0].amount + x.amount)] + rest;
        forall k, j | 0 <= k < j < |r| ensures r[k].denom != r[j].denom {
          assert r[j] == c[j];
          if k > 0 {
            assert r[k] == c[k];
          }
        }
      } else {
        AddCoinValid(rest, x);
        var tail := AddCoin(rest, x);
        assert r == [c[0]] + tail;
        assert c[0].denom !in Denoms(tail);
        forall k, j | 0 <= k < j < |r| ensures r[k].denom != r[j].denom {
          assert r[j] == tail[j - 1];
          if k > 0 {
            assert r[k] == tail[k - 1];
          } else {
            assert r[j].denom in Denoms(tail);
          }
        }
      }
    }
  }

  /** A stored balance: the amount per denomination (absent means zero). */
  type Balance = map<Denom, nat>

  function AmountIn(b: Balance, d: Denom): nat
  {
    if d in b then b[d] else 0
  }

  /** The bank mock's pre-check: no coin of `amt` exceeds the balance of its denomination. */
  predicate Covers(b: Balance, amt: Coins)
  {
    forall i :: 0 <= i < |amt| ==> amt[i].amount <= AmountIn(b, amt[i].denom)
  }

  /** For valid coins the per-coin check is the per-denomination one. */
  lemma CoversIffEveryDenom(b: Balance, amt: Coins)
    requires ValidCoins(amt)
    ensures Covers(b, amt) <==> forall d :: AmountOf(amt, d) <= AmountIn(b, d)
  {
    AmountOfOutside(amt);
    if Covers(b, amt) {
      forall d ensures AmountOf(amt, d) <= AmountIn(b, d) {
        if d in Denoms(amt) {
          var i :| 0 <= i < |amt| && amt[i].denom == d;
          AmountOfValid(amt, i);
        }
      }
    } else {
      var i :| 0 <= i < |amt| && amt[i].amount > AmountIn(b, amt[i].denom);
      AmountOfValid(amt, i);
    }
  }

  /** `NewCoins(NewCoin(d, n))` for a positive `n`: one coin, valid, covered by a
      balance exactly when the balance holds `n` of `d`. */
  lemma SingleCoin(b: Balance, d: Denom, n: nat)
    requires n > 0
    ensures ValidCoins([Coin(d, n)])
    ensures forall e :: AmountOf([Coin(d, n)], e) == if e == d then n else 0
    ensures Covers(b, [Coin(d, n)]) <==> n <= AmountIn(b, d)
  {
    assert [Coin(d, n)][1..] == [];
  }

  /** `bal.Add(amt...)` as a stored balance. */
  function Plus(b: Balance, amt: Coins): (r: Balance)
    ensures forall d :: AmountIn(r, d) == AmountIn(b, d) + AmountOf(amt, d)
  {
    AmountOfOutside(amt);
    map d | d in b.Keys + Denoms(amt) :: AmountIn(b, d) + AmountOf(amt, d)
  }

  /** `bal.Sub(amt...)` as a stored balance; the sdk panics on a negative result. */
  function Minus(b: Balance, amt: Coins): (r: Balance)
    requires forall d :: AmountOf(amt, d) <= AmountIn(b, d)
    ensures forall d :: AmountIn(r, d) + AmountOf(amt, d) == AmountIn(b, d)
  {
    AmountOfOutside(amt);
    map d | d in b.Keys :: AmountIn(b, d) - AmountOf(amt, d)
  }

  /** The decoders the core calls: `sdk.AccAddressFromBech32`,
      `sdk.ValAddressFromBech32` and `sdk.ParseCoinsNormalized`. Each is a partial
      function whose `None` stands for its error return. */
  datatype Codec = Codec(
    accAddress: string -> Option<AccAddress>,
    valAddress: string -> Option<ValAddress>,
    coins: string -> Option<Coins>)
}
