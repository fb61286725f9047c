/** One swap through one constant-product pool: `_calculate_output_amount`
    (app/services/graph_solver.py, lines 184-235). */
module Swap {
  import opened Models
  import opened Decimals

  /** The share of the constant-product output kept after the 0.3% fee. */
  const FeeFactor: real := 0.997

  /** The reserves (in, out) for a swap entering the pool with `tokenIn`:
      token0 selects (reserve0, reserve1); every other address, a member of
      the pool or not, selects (reserve1, reserve0). */
  function Reserves(pool: Pool, tokenIn: Address): (real, real) {
    if tokenIn == pool.token0.address then (pool.reserve0, pool.reserve1)
    else (pool.reserve1, pool.reserve0)
  }

  /** The output before the fee: what leaves the pool if the product of the
      reserves is to stay the same. */
  function Gross(reserveIn: real, reserveOut: real, amountIn: real): real
    requires reserveIn + amountIn != 0.0
  {
    reserveOut - reserveIn * reserveOut / (reserveIn + amountIn)
  }

  /** The output of one hop. It is zero when the new input reserve would not
      be positive, when the output token is missing from the token cache, and
      when that token's decimals are negative (the quantum `1e--d` does not
      parse); otherwise it is the fee-adjusted constant-product output
      rounded toward zero to the output token's decimals. The input reserve
      itself may be zero or negative. */
  function HopOutput(pool: Pool, tokenIn: Address, tokenOut: Address, amountIn: real,
                     tokens: map<Address, Token>): (out: real)
    ensures Reserves(pool, tokenIn).0 + amountIn <= 0.0 ==> out == 0.0
    ensures tokenOut !in tokens || tokens[tokenOut].decimals < 0 ==> out == 0.0
    ensures Reserves(pool, tokenIn).0 + amountIn > 0.0 && tokenOut in tokens && tokens[tokenOut].decimals >= 0 ==>
      IsTruncation(FeeFactor * Gross(Reserves(pool, tokenIn).0, Reserves(pool, tokenIn).1, amountIn),
                   tokens[tokenOut].decimals, out)
  {
    var (reserveIn, reserveOut) := Reserves(pool, tokenIn);
    if reserveIn + amountIn > 0.0 then
      if tokenOut in tokens && tokens[tokenOut].decimals >= 0 then
        Truncate(FeeFactor * Gross(reserveIn, reserveOut, amountIn), tokens[tokenOut].decimals)
      else
        0.0
    else
      0.0
  }

  /** The constant-product rule: after the input is added and the gross
      output removed, the product of the reserves is what it was. */
  lemma ConstantProductKept(reserveIn: real, reserveOut: real, amountIn: real)
    requires reserveIn + amountIn != 0.0
    ensures (reserveIn + amountIn) * (reserveOut - Gross(reserveIn, reserveOut, amountIn)) == reserveIn * reserveOut
  {
    var n := reserveIn + amountIn;
    assert reserveOut - Gross(reserveIn, reserveOut, amountIn) == reserveIn * reserveOut / n;
  }

  /** The usual closed form of the constant-product output. */
  lemma GrossClosedForm(reserveIn: real, reserveOut: real, amountIn: real)
    requires reserveIn + amountIn != 0.0
    ensures Gross(reserveIn, reserveOut, amountIn) == reserveOut * amountIn / (reserveIn + amountIn)
  {
    var n := reserveIn + amountIn;
    calc {
      Gross(reserveIn, reserveOut, amountIn);
      reserveOut * n / n - reserveIn * reserveOut / n;
      (reserveOut * n - reserveIn * reserveOut) / n;
      { assert reserveOut * n - reserveIn * reserveOut == reserveOut * amountIn; }
      reserveOut * amountIn / n;
    }
  }

  /** With a funded input side, the gross output is never negative, never
      more than the output reserve, and strictly less than it. */
  lemma GrossBounds(reserveIn: real, reserveOut: real, amountIn: real)
    requires reserveIn > 0.0 && reserveOut >= 0.0 && amountIn >= 0.0
    ensures 0.0 <= Gross(reserveIn, reserveOut, amountIn) <= reserveOut
    ensures reserveOut > 0.0 ==> Gross(reserveIn, reserveOut, amountIn) < reserveOut
    ensures reserveOut > 0.0 && amountIn > 0.0 ==> Gross(reserveIn, reserveOut, amountIn) > 0.0
  {
    GrossClosedForm(reserveIn, reserveOut, amountIn);
    var n := reserveIn + amountIn;
    var g := reserveOut * amountIn / n;
    assert g * n == reserveOut * amountIn;
    assert 0.0 <= g by {
      assert reserveOut * amountIn >= 0.0;
    }
    if reserveOut > 0.0 {
      assert reserveOut * amountIn < reserveOut * n;
      assert g < reserveOut;
      if amountIn > 0.0 {
        assert reserveOut * amountIn > 0.0;
      }
    }
  }

  /** Putting more in never gets less out. */
  lemma GrossMonotone(reserveIn: real, reserveOut: real, a1: real, a2: real)
    requires reserveIn > 0.0 && reserveOut >= 0.0 && 0.0 <= a1 <= a2
    ensures Gross(reserveIn, reserveOut, a1) <= Gross(reserveIn, reserveOut, a2)
  {
    var n1, n2 := reserveIn + a1, reserveIn + a2;
    var k := reserveIn * reserveOut;
    assert k >= 0.0;
    assert k / n2 <= k / n1 by {
      assert k / n1 - k / n2 == k * (n2 - n1) / (n1 * n2);
      assert k * (n2 - n1) >= 0.0;
      assert n1 * n2 > 0.0;
    }
  }

  /** The hop output, for a pool whose input reserve is positive and output
      reserve non-negative and a non-negative input, is never negative, never
      more than the fee-adjusted gross output, below the output reserve when
      that is positive, and at most one step of 10^-d below the fee-adjusted
      gross output. */
  lemma HopBounds(pool: Pool, tokenIn: Address, tokenOut: Address, amountIn: real, tokens: map<Address, Token>)
    requires Reserves(pool, tokenIn).0 > 0.0 && Reserves(pool, tokenIn).1 >= 0.0 && amountIn >= 0.0
    ensures var (rIn, rOut) := Reserves(pool, tokenIn);
      var out := HopOutput(pool, tokenIn, tokenOut, amountIn, tokens);
      && 0.0 <= out <= FeeFactor * Gross(rIn, rOut, amountIn)
      && (rOut > 0.0 ==> out < rOut)
      && (tokenOut in tokens && tokens[tokenOut].decimals >= 0 ==>
            var s := Scale(tokens[tokenOut].decimals);
            FeeFactor * Gross(rIn, rOut, amountIn) * s < out * s + 1.0)
  {
    var (rIn, rOut) := Reserves(pool, tokenIn);
    GrossBounds(rIn, rOut, amountIn);
    var x := FeeFactor * Gross(rIn, rOut, amountIn);
    assert 0.0 <= x;
    if tokenOut in tokens && tokens[tokenOut].decimals >= 0 {
      TruncateBounds(x, tokens[tokenOut].decimals);
    }
  }

  /** More input never yields less output through the same pool. */
  lemma HopMonotone(pool: Pool, tokenIn: Address, tokenOut: Address, a1: real, a2: real, tokens: map<Address, Token>)
    requires Reserves(pool, tokenIn).0 > 0.0 && Reserves(pool, tokenIn).1 >= 0.0 && 0.0 <= a1 <= a2
    ensures HopOutput(pool, tokenIn, tokenOut, a1, tokens) <= HopOutput(pool, tokenIn, tokenOut, a2, tokens)
  {
    var (rIn, rOut) := Reserves(pool, tokenIn);
    GrossMonotone(rIn, rOut, a1, a2);
    if tokenOut in tokens && tokens[tokenOut].decimals >= 0 {
      TruncateMonotone(FeeFactor * Gross(rIn, rOut, a1), FeeFactor * Gross(rIn, rOut, a2), tokens[tokenOut].decimals);
    }
  }

  /** The pool with its two sides listed the other way round. */
  function Flip(pool: Pool): Pool {
    Pool(pool.address, pool.token1, pool.token0, pool.reserve1, pool.reserve0)
  }

  /** For the pool's own tokens the direction does not depend on which side
      is listed first ... */
  lemma MemberDirectionIgnoresListing(pool: Pool, tokenIn: Address, tokenOut: Address, amountIn: real,
                                      tokens: map<Address, Token>)
    requires pool.token0.address != pool.token1.address
    requires tokenIn == pool.token0.address || tokenIn == pool.token1.address
    ensures HopOutput(Flip(pool), tokenIn, tokenOut, amountIn, tokens) == HopOutput(pool, tokenIn, tokenOut, amountIn, tokens)
  {
  }

  /** ... while an address that is neither token is never rejected: it is
      priced as token1, whichever token that is. */
  lemma NonMemberPricedAsToken1(pool: Pool, tokenIn: Address, tokenOut: Address, amountIn: real,
                                tokens: map<Address, Token>)
    requires tokenIn != pool.token0.address && pool.token1.address != pool.token0.address
    ensures HopOutput(pool, tokenIn, tokenOut, amountIn, tokens)
         == HopOutput(pool, pool.token1.address, tokenOut, amountIn, tokens)
  {
  }

  /** An empty input reserve is not rejected: any positive input then
      drains the whole output reserve, less the fee. */
  lemma EmptyInputReserveDrainsPool(pool: Pool, tokenIn: Address, tokenOut: Address, amountIn: real,
                                    tokens: map<Address, Token>)
    requires Reserves(pool, tokenIn).0 == 0.0 && amountIn > 0.0
    requires tokenOut in tokens && tokens[tokenOut].decimals >= 0
    ensures HopOutput(pool, tokenIn, tokenOut, amountIn, tokens)
         == Truncate(FeeFactor * Reserves(pool, tokenIn).1, tokens[tokenOut].decimals)
  {
  }

  /** A worked hop: 10 units into reserves of 1000 and 2000, with a 5-decimal
      output token, gives 19.74257. */
  lemma WorkedHop(pool: Pool, tokens: map<Address, Token>)
    requires pool.reserve0 == 1000.0 && pool.reserve1 == 2000.0
    requires pool.token1.address in tokens && tokens[pool.token1.address].decimals == 5
    ensures HopOutput(pool, pool.token0.address, pool.token1.address, 10.0, tokens) == 19.74257
  {
    var x := FeeFactor * Gross(1000.0, 2000.0, 10.0);
    assert x == 1994.0 / 101.0;
    assert Scale(5) == 100000.0;
    var y := Truncate(x, 5);
    assert IsTruncation(x, 5, 19.74257);
    TruncationUnique(x, 5, y, 19.74257);
  }
}
