/**
 The compounding ledger of the trading growth calculator: from an initial
 balance, a percentage rate and a number of trades it builds one "Start" row
 followed by one row per trade, each trade growing the balance it starts from
 by `rate` percent. Balances are exact reals; rounding belongs to the
 currency formatter, which is not part of this model.
 */
module Ledger {

  /** One row of the ledger. Row 0 is the "Start" row. */
  datatype Trade = Trade(tradeNumber: int, startingBalance: real, change: real, endingBalance: real)

  /** The fraction a percentage rate stands for: 30 percent grows a balance by 0.3 of itself. */
  function GrowthRate(rate: real): real
  {
    rate / 100.0
  }

  /** A configuration produces rows only when both the balance and the trade count are positive. */
  predicate ValidConfig(initialBalance: real, numberOfTrades: int)
  {
    initialBalance > 0.0 && numberOfTrades > 0
  }

  /** The "Start" row: no change, the balance is the initial balance on both sides. */
  function Opening(initialBalance: real): Trade
  {
    Trade(0, initialBalance, 0.0, initialBalance)
  }

  /** The trade that follows `prev`: it starts from `prev`'s ending balance and grows it by `growth`. */
  function NextTrade(prev: Trade, growth: real): Trade
  {
    var start := prev.endingBalance;
    var change := start * growth;
    Trade(prev.tradeNumber + 1, start, change, start + change)
  }

  /** `cur` is the trade after `prev`: it starts where `prev` ended, changes by
      `growth` times its starting balance, and ends at start plus change. */
  predicate Follows(prev: Trade, cur: Trade, growth: real)
  {
    && cur.startingBalance == prev.endingBalance
    && cur.change == cur.startingBalance * growth
    && cur.endingBalance == cur.startingBalance + cur.change
  }

  /** `s` is a ledger of `n` trades from `initialBalance` growing by `growth` per trade:
      numbered 0..n, opened by the Start row, every later row following the one before. */
  ghost predicate IsLedger(s: seq<Trade>, initialBalance: real, growth: real, n: nat)
  {
    && |s| == n + 1
    && s[0] == Opening(initialBalance)
    && (forall i :: 0 <= i < |s| ==> s[i].tradeNumber == i)
    && (forall i, j :: 0 <= i < j < |s| && j == i + 1 ==> Follows(s[i], s[j], growth))
  }

  /** Appending the next trade to a ledger of `n` trades gives a ledger of `n + 1`. */
  lemma ExtendLedger(s: seq<Trade>, initialBalance: real, growth: real, n: nat)
    requires IsLedger(s, initialBalance, growth, n)
    ensures IsLedger(s + [NextTrade(s[n], growth)], initialBalance, growth, n + 1)
  {
    var t := s + [NextTrade(s[n], growth)];
    forall i | 0 <= i < |t|
      ensures t[i].tradeNumber == i
    {
      if i < |s| { assert t[i] == s[i]; }
    }
    forall i, j | 0 <= i < j < |t| && j == i + 1
      ensures Follows(t[i], t[j], growth)
    {
      if j < |s| { assert t[i] == s[i] && t[j] == s[j]; }
      else { assert t[j] == NextTrade(s[n], growth) && t[i] == s[n]; }
    }
  }

  /** The rows 0..n, built one trade at a time. */
  function Chain(initialBalance: real, growth: real, n: nat): (r: seq<Trade>)
    ensures IsLedger(r, initialBalance, growth, n)
  {
    if n == 0 then [Opening(initialBalance)]
    else
      var prev := Chain(initialBalance, growth, n - 1);
      ExtendLedger(prev, initialBalance, growth, n - 1);
      prev + [NextTrade(prev[n - 1], growth)]
  }

  /** The ledger the calculator shows for a configuration; empty when the configuration is not valid. */
  function GenerateTrades(initialBalance: real, rate: real, numberOfTrades: int): (r: seq<Trade>)
    ensures !ValidConfig(initialBalance, numberOfTrades) <==> r == []
    ensures ValidConfig(initialBalance, numberOfTrades) ==>
              IsLedger(r, initialBalance, GrowthRate(rate), numberOfTrades)
  {
    if !ValidConfig(initialBalance, numberOfTrades) then []
    else Chain(initialBalance, GrowthRate(rate), numberOfTrades)
  }

  /** The generator as the calculator runs it: push the Start row, then loop over
      trades 1..numberOfTrades carrying the current balance forward. */
  method GenerateTradesLoop(initialBalance: real, rate: real, numberOfTrades: int) returns (trades: seq<Trade>)
    ensures trades == GenerateTrades(initialBalance, rate, numberOfTrades)
  {
    if initialBalance <= 0.0 || numberOfTrades <= 0 {
      return [];
    }
    var currentBalance := initialBalance;
    var growthRate := rate / 100.0;
    trades := [Trade(0, initialBalance, 0.0, initialBalance)];
    var i := 1;
    while i <= numberOfTrades
      invariant 1 <= i <= numberOfTrades + 1
      invariant trades == Chain(initialBalance, growthRate, i - 1)
      invariant currentBalance == trades[i - 1].endingBalance
    {
      assert Chain(initialBalance, growthRate, i) == trades + [NextTrade(trades[i - 1], growthRate)];
      var startingBalance := currentBalance;
      var change := startingBalance * growthRate;
      var endingBalance := startingBalance + change;
      assert trades[i - 1].tradeNumber == i - 1;
      assert Trade(i, startingBalance, change, endingBalance) == NextTrade(trades[i - 1], growthRate);
      trades := trades + [Trade(i, startingBalance, change, endingBalance)];
      currentBalance := endingBalance;
      i := i + 1;
    }
  }

  /** A ledger is determined by its configuration: any sequence with the ledger
      shape is exactly the one `Chain` builds, and `Chain` builds one. */
  lemma {:induction false} LedgerUnique(s: seq<Trade>, initialBalance: real, growth: real, n: nat)
    ensures IsLedger(s, initialBalance, growth, n) <==> s == Chain(initialBalance, growth, n)
  {
    if IsLedger(s, initialBalance, growth, n) {
      if n > 0 {
        var prefix := s[..n];
        assert IsLedger(prefix, initialBalance, growth, n - 1) by {
          assert forall i :: 0 <= i < |prefix| ==> prefix[i] == s[i];
        }
        LedgerUnique(prefix, initialBalance, growth, n - 1);
        assert s == prefix + [s[n]];
        assert s[n] == NextTrade(prefix[n - 1], growth);
      }
    }
  }

  /** `x` raised to the natural power `i`. */
  function Pow(x: real, i: nat): real
  {
    if i == 0 then 1.0 else x * Pow(x, i - 1)
  }

  /** Every trade multiplies the balance by `1 + growth`, so row `i` ends at
      `initialBalance * (1 + growth)^i`, and trade `i` starts at the power `i - 1`. */
  lemma {:induction false} LedgerClosedForm(s: seq<Trade>, initialBalance: real, growth: real, n: nat, i: nat)
    requires IsLedger(s, initialBalance, growth, n)
    requires i <= n
    ensures s[i].endingBalance == initialBalance * Pow(1.0 + growth, i)
    ensures i >= 1 ==> s[i].startingBalance == initialBalance * Pow(1.0 + growth, i - 1)
  {
    if i > 0 {
      LedgerClosedForm(s, initialBalance, growth, n, i - 1);
      var p := Pow(1.0 + growth, i - 1);
      calc {
        s[i].endingBalance;
        s[i].startingBalance + s[i].startingBalance * growth;
        { assert s[i].startingBalance == initialBalance * p; }
        initialBalance * p + initialBalance * p * growth;
        initialBalance * ((1.0 + growth) * p);
      }
    }
  }

  /** The closed form of the generated ledger: row `i` ends at
      `initialBalance * (1 + rate/100)^i`. */
  lemma GenerateTradesClosedForm(initialBalance: real, rate: real, numberOfTrades: int, i: nat)
    requires ValidConfig(initialBalance, numberOfTrades)
    requires i <= numberOfTrades
    ensures GenerateTrades(initialBalance, rate, numberOfTrades)[i].endingBalance
            == initialBalance * Pow(1.0 + rate / 100.0, i)
  {
    LedgerClosedForm(GenerateTrades(initialBalance, rate, numberOfTrades),
                     initialBalance, GrowthRate(rate), numberOfTrades, i);
  }

  /** The last row of any ledger of `n` trades ends at the compounded balance. */
  lemma ClosedFormOfLast(trades: seq<Trade>, initialBalance: real)
    ensures forall n: nat, growth: real :: IsLedger(trades, initialBalance, growth, n) ==>
              |trades| > 0 && trades[|trades| - 1].endingBalance == initialBalance * Pow(1.0 + growth, n)
  {
    forall n: nat, growth: real | IsLedger(trades, initialBalance, growth, n)
      ensures |trades| > 0 && trades[|trades| - 1].endingBalance == initialBalance * Pow(1.0 + growth, n)
    {
      LedgerClosedForm(trades, initialBalance, growth, n, n);
    }
  }

  /** The balance shown as the final balance: the last row's ending balance,
      or the configured initial balance while there are no rows. */
  function FinalBalance(trades: seq<Trade>, initialBalance: real): (r: real)
    ensures |trades| == 0 ==> r == initialBalance
    ensures |trades| > 0 ==> r == trades[|trades| - 1].endingBalance
    ensures forall n: nat, growth: real :: IsLedger(trades, initialBalance, growth, n) ==>
              r == initialBalance * Pow(1.0 + growth, n)
  {
    ClosedFormOfLast(trades, initialBalance);
    if |trades| == 0 then initialBalance else trades[|trades| - 1].endingBalance
  }

  /** The total profit or loss shown beside the final balance. */
  function TotalChange(trades: seq<Trade>, initialBalance: real): (r: real)
    ensures |trades| == 0 ==> r == 0.0
    ensures r >= 0.0 <==> FinalBalance(trades, initialBalance) >= initialBalance
  {
    FinalBalance(trades, initialBalance) - initialBalance
  }

  /** Right after a generation from the current configuration, the final balance
      is the compounded balance, and with no rows it is the initial balance. */
  lemma FinalBalanceOfGenerated(initialBalance: real, rate: real, numberOfTrades: int)
    ensures ValidConfig(initialBalance, numberOfTrades) ==>
              FinalBalance(GenerateTrades(initialBalance, rate, numberOfTrades), initialBalance)
              == initialBalance * Pow(1.0 + rate / 100.0, numberOfTrades)
    ensures !ValidConfig(initialBalance, numberOfTrades) ==>
              FinalBalance(GenerateTrades(initialBalance, rate, numberOfTrades), initialBalance) == initialBalance
              && TotalChange(GenerateTrades(initialBalance, rate, numberOfTrades), initialBalance) == 0.0
  {
    if ValidConfig(initialBalance, numberOfTrades) {
      GenerateTradesClosedForm(initialBalance, rate, numberOfTrades, numberOfTrades);
    }
  }

  /** A base of at least one keeps every power at least one. */
  lemma {:induction false} PowAtLeastOne(x: real, i: nat)
    requires x >= 1.0
    ensures Pow(x, i) >= 1.0
  {
    if i > 0 {
      PowAtLeastOne(x, i - 1);
      assert x * Pow(x, i - 1) >= Pow(x, i - 1);
    }
  }

  /** A base in [0, 1) keeps every positive power in [0, 1). */
  lemma {:induction false} PowBelowOne(x: real, i: nat)
    requires 0.0 <= x < 1.0
    requires i >= 1
    ensures 0.0 <= Pow(x, i) < 1.0
  {
    if i > 1 {
      PowBelowOne(x, i - 1);
      assert x * Pow(x, i - 1) <= Pow(x, i - 1);
    }
  }

  /** The total change is labelled a profit exactly as the rate is: a non-negative
      rate never loses, and a loss rate of at most 100 percent always loses. */
  lemma ProfitFollowsRate(initialBalance: real, rate: real, numberOfTrades: int)
    requires ValidConfig(initialBalance, numberOfTrades)
    ensures rate >= 0.0 ==> TotalChange(GenerateTrades(initialBalance, rate, numberOfTrades), initialBalance) >= 0.0
    ensures -100.0 <= rate < 0.0 ==> TotalChange(GenerateTrades(initialBalance, rate, numberOfTrades), initialBalance) < 0.0
  {
    FinalBalanceOfGenerated(initialBalance, rate, numberOfTrades);
    var p := Pow(1.0 + rate / 100.0, numberOfTrades);
    assert TotalChange(GenerateTrades(initialBalance, rate, numberOfTrades), initialBalance)
           == initialBalance * (p - 1.0);
    if rate >= 0.0 {
      PowAtLeastOne(1.0 + rate / 100.0, numberOfTrades);
    } else if -100.0 <= rate {
      PowBelowOne(1.0 + rate / 100.0, numberOfTrades);
      assert initialBalance * (1.0 - p) > 0.0;
    }
  }

  /** A worked example: 100 at 30 percent over two trades. */
  lemma ExampleThirtyPercent()
    ensures GenerateTrades(100.0, 30.0, 2)
            == [Trade(0, 100.0, 0.0, 100.0), Trade(1, 100.0, 30.0, 130.0), Trade(2, 130.0, 39.0, 169.0)]
  {
  }
}
