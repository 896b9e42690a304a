// The venue's fee and rebate rules (research/run85_trackb_fees.py). Money that
// is paid out is a whole number of cents; everything unrounded is an exact real
// number of dollars.
module FeeRounding {
  import opened Arithmetic
  import opened Rounding

  const THETA_TAKER := 0.06
  const THETA_MAKER := -0.0125
  const MAX_FILL := 10_000_000

  /** bankers_cents, as a number of cents. */
  function BankersCents(dollars: real): int {
    RoundHalfEven(100.0 * dollars)
  }

  function ExactFee(theta: real, contracts: real, price: real): real {
    theta * contracts * price * (1.0 - price)
  }

  function ExactRebate(contracts: real, price: real): real {
    -ExactFee(THETA_MAKER, contracts, price)
  }

  function RoundedRebate(contracts: real, price: real): int {
    BankersCents(ExactRebate(contracts, price))
  }

  /** The cents one fill of `k` whole contracts earns. */
  function FillRebate(k: nat, price: real): int {
    RoundedRebate(k as real, price)
  }

  function RebatePerContract(price: real): real {
    ExactRebate(1.0, price)
  }

  lemma RebateScales(contracts: real, price: real)
    ensures ExactRebate(contracts, price) == RebatePerContract(price) * contracts
  {
    Regroup(THETA_MAKER, contracts, price, 1.0 - price);
  }

  lemma Regroup(a: real, b: real, c: real, d: real)
    ensures -(a * b * c * d) == -(a * 1.0 * c * d) * b
  {
    assert a * b * c * d == a * c * d * b;
  }

  /** What makes the price worth a rebate at all: strictly between 0 and 1. */
  lemma RebatePositiveIff(price: real)
    ensures RebatePerContract(price) > 0.0 <==> 0.0 < price < 1.0
  {
    var rest := 1.0 - price;
    assert RebatePerContract(price) == 0.0125 * (price * rest);
    if 0.0 < price < 1.0 {
      MulPositive(price, rest);
    } else if price <= 0.0 {
      MulNonnegative(-price, rest);
      assert -price * rest == -(price * rest);
    } else {
      MulNonnegative(price, -rest);
      assert price * -rest == -(price * rest);
    }
  }

  function Product(x: real, y: real): real {
    x * y
  }

  /** The cents k contracts earn at `per` dollars each. */
  function CentsOf(per: real, k: nat): int {
    BankersCents(Product(per, k as real))
  }

  lemma FillIsScaled(k: nat, price: real)
    ensures FillRebate(k, price) == CentsOf(RebatePerContract(price), k)
  {
    RebateScales(k as real, price);
    assert ExactRebate(k as real, price) == Product(RebatePerContract(price), k as real);
  }

  lemma CentsOfNothing(per: real)
    ensures CentsOf(per, 0) == 0
  {
    assert Product(per, 0.0) == 0.0;
    RoundInteger(0);
  }

  /** Larger fills earn no less. */
  lemma CentsMonotone(per: real, c: nat, k: nat)
    requires per > 0.0 && c <= k
    ensures CentsOf(per, c) <= CentsOf(per, k)
  {
    ProductOrder(per, c as real, k as real);
    BankersMonotone(Product(per, c as real), Product(per, k as real));
  }

  lemma BankersMonotone(x: real, y: real)
    requires x <= y
    ensures BankersCents(x) <= BankersCents(y)
  {
    RoundMonotone(100.0 * x, 100.0 * y);
  }

  lemma ProductOrder(p: real, x: real, y: real)
    requires p >= 0.0 && x <= y
    ensures Product(p, x) <= Product(p, y)
  {
    MulNonnegative(p, y - x);
    assert p * (y - x) == p * y - p * x;
  }

  /** The search for the least fill that earns a cent, with its bail-out. */
  method LeastFill(per: real) returns (c: int)
    requires per > 0.0
    ensures c == -1 || 1 <= c <= MAX_FILL
    ensures c > 0 ==> forall k: nat :: CentsOf(per, k) >= 1 <==> k >= c
    ensures c > 0 ==> forall k: nat :: k < c ==> CentsOf(per, k) == 0
    ensures c == -1 ==> forall k: nat :: k <= MAX_FILL ==> CentsOf(per, k) == 0
  {
    c := 1;
    CentsOfNothing(per);
    while BankersCents(Product(per, c as real)) < 1
      invariant 1 <= c <= MAX_FILL && CentsOf(per, c - 1) <= 0
      decreases MAX_FILL - c
    {
      assert CentsOf(per, c) <= 0;
      c := c + 1;
      if c > MAX_FILL {
        NothingBelow(per, MAX_FILL);
        return -1;
      }
    }
    assert CentsOf(per, c) >= 1;
    NothingBelow(per, c - 1);
    SomethingAbove(per, c);
  }

  lemma NothingBelow(per: real, c: nat)
    requires per > 0.0 && CentsOf(per, c) <= 0
    ensures forall k: nat :: k <= c ==> CentsOf(per, k) == 0
  {
    CentsOfNothing(per);
    forall k: nat | k <= c
      ensures CentsOf(per, k) == 0
    {
      CentsMonotone(per, 0, k);
      CentsMonotone(per, k, c);
    }
  }

  lemma SomethingAbove(per: real, c: nat)
    requires per > 0.0 && CentsOf(per, c) >= 1
    ensures forall k: nat :: k >= c ==> CentsOf(per, k) >= 1
  {
    forall k: nat | k >= c
      ensures CentsOf(per, k) >= 1
    {
      CentsMonotone(per, c, k);
    }
  }

  lemma FillsAreScaled(price: real)
    ensures forall k: nat :: FillRebate(k, price) == CentsOf(RebatePerContract(price), k)
  {
    forall k: nat
      ensures FillRebate(k, price) == CentsOf(RebatePerContract(price), k)
    {
      FillIsScaled(k, price);
    }
  }

  method MinContractsForACent(price: real) returns (c: int)
    ensures c == 0 <==> !(0.0 < price < 1.0)
    ensures c == -1 <==> 0.0 < price < 1.0 && FillRebate(MAX_FILL, price) == 0
    ensures c != 0 && c != -1 ==> 1 <= c <= MAX_FILL
    ensures c > 0 ==> forall k: nat :: FillRebate(k, price) >= 1 <==> k >= c
    ensures c > 0 ==> forall k: nat :: k < c ==> FillRebate(k, price) == 0
    ensures c == -1 ==> forall k: nat :: k <= MAX_FILL ==> FillRebate(k, price) == 0
  {
    var per := RebatePerContract(price);
    RebatePositiveIff(price);
    if per <= 0.0 {
      return 0;
    }
    FillsAreScaled(price);
    c := LeastFill(per);
  }

  // ---- fragmentation ------------------------------------------------------

  /** lost_to_rounding: cents one fill earns minus cents `fills` equal fills earn. */
  function LostToRounding(contracts: real, price: real, fills: int): int
    requires fills != 0
  {
    RoundedRebate(contracts, price) - RoundedRebate(contracts / fills as real, price) * fills
  }

  lemma FragmentationBounded(contracts: real, price: real, fills: int)
    requires fills != 0
    ensures var bound := (if fills > 0 then fills else -fills) + 1;
      -bound <= 2 * LostToRounding(contracts, price, fills) <= bound
  {
    PiecesMakeWhole(contracts, price, fills);
    SplitRoundingError(ExactCents(contracts, price), ExactCents(contracts / fills as real, price), fills);
  }

  /** What a size earns in cents before any rounding. */
  function ExactCents(contracts: real, price: real): real {
    100.0 * ExactRebate(contracts, price)
  }

  lemma PiecesMakeWhole(contracts: real, price: real, fills: int)
    requires fills != 0
    ensures ExactCents(contracts / fills as real, price) * fills as real == ExactCents(contracts, price)
  {
    RebateScales(contracts, price);
    RebateScales(contracts / fills as real, price);
    SplitAmount(RebatePerContract(price), contracts, fills as real);
  }

  lemma SplitRoundingError(one: real, each: real, fills: int)
    requires each * fills as real == one
    ensures var bound := (if fills > 0 then fills else -fills) + 1;
      -bound <= 2 * (RoundHalfEven(one) - RoundHalfEven(each) * fills) <= bound
  {
    var r, s := RoundHalfEven(one), RoundHalfEven(each);
    RoundedIff(r, one);
    RoundedIff(s, each);
    var pieces, err := PiecesError(s, each, fills, one);
    ErrorsAdd(r, pieces, if fills > 0 then fills else -fills, one, err);
  }

  /** How far the rounded pieces together are from the exact whole. */
  lemma PiecesError(s: int, each: real, fills: int, one: real) returns (pieces: int, err: real)
    requires -0.5 <= s as real - each <= 0.5 && each * fills as real == one
    ensures pieces == s * fills && pieces as real == err + one
    ensures var m := if fills > 0 then fills else -fills; -0.5 * m as real <= err <= 0.5 * m as real
  {
    var f := fills as real;
    pieces := s * fills;
    err := (s as real - each) * f;
    ScaledError(s as real - each, f);
    ErrorTimes(s as real, each, f);
    ProductAsReal(s, fills);
  }

  lemma ErrorTimes(s: real, each: real, f: real)
    ensures (s - each) * f == s * f - each * f
  {
  }

  /** Half a cent on the whole and at most half a cent on each of m pieces. */
  lemma ErrorsAdd(whole: int, pieces: int, m: int, exact: real, err: real)
    requires -0.5 <= whole as real - exact <= 0.5
    requires pieces as real == err + exact && -0.5 * m as real <= err <= 0.5 * m as real
    ensures -(m + 1) <= 2 * (whole - pieces) <= m + 1
  {
  }

  lemma ProductAsReal(s: int, n: int)
    ensures (s * n) as real == s as real * n as real
  {
  }

  lemma SplitAmount(per: real, contracts: real, f: real)
    requires f != 0.0
    ensures 100.0 * (per * (contracts / f)) * f == 100.0 * (per * contracts)
  {
    assert contracts / f * f == contracts;
    calc {
      100.0 * (per * (contracts / f)) * f;
      100.0 * per * (contracts / f * f);
    }
  }

  lemma ScaledError(err: real, f: real)
    requires -0.5 <= err <= 0.5
    ensures var m := if f >= 0.0 then f else -f; -0.5 * m <= err * f <= 0.5 * m
  {
    if f >= 0.0 {
      MulNonnegative(0.5 - err, f);
      MulNonnegative(0.5 + err, f);
    } else {
      MulNonnegative(0.5 - err, -f);
      MulNonnegative(0.5 + err, -f);
    }
  }

  /** Volume broken up earns nothing exactly when one piece is worth at most half a cent. */
  lemma FragmentedEarnsNothingIff(contracts: real, price: real, fills: int)
    requires fills != 0
    ensures RoundedRebate(contracts / fills as real, price) * fills == 0
       <==> -0.005 <= ExactRebate(contracts / fills as real, price) <= 0.005
  {
    var each := ExactRebate(contracts / fills as real, price);
    RoundsToZeroIff(100.0 * each);
    var r := RoundedRebate(contracts / fills as real, price);
    if r != 0 {
      assert r * fills != 0;
    }
  }

  /** A rounded amount lies below a whole number n exactly when n is more than half
      above it, or exactly half above it and odd. */
  lemma RoundsBelowIff(x: real, n: int)
    ensures RoundHalfEven(x) < n <==> n as real - x > 0.5 || (n as real - x == 0.5 && n % 2 == 1)
  {
    var r := RoundHalfEven(x);
    RoundedIff(r, x);
    RoundedIff(n, x);
    RoundedIff(n - 1, x);
  }

  lemma RoundsAboveIff(x: real, n: int)
    ensures RoundHalfEven(x) > n <==> x - n as real > 0.5 || (x - n as real == 0.5 && n % 2 == 1)
  {
    RoundNegated(x);
    RoundsBelowIff(-x, -n);
  }

  /** How far one of `fills` equal pieces is rounded up, in cents; negative when it
      is rounded down. */
  function RoundedUpBy(contracts: real, price: real, fills: int): real
    requires fills != 0
  {
    RoundedRebate(contracts / fills as real, price) as real - ExactCents(contracts / fills as real, price)
  }

  /** Each of `fills` pieces is rounded up by `up` cents and they are paid `pieces`
      cents in all: when that is less, and when more, than the one fill lost. */
  ghost predicate Decides(up: real, pieces: int, fills: int, lost: int) {
    var gain := Product(up, fills as real);
    && (lost < 0 <==> gain > 0.5 || (gain == 0.5 && pieces % 2 == 1))
    && (lost > 0 <==> gain < -0.5 || (gain == -0.5 && pieces % 2 == 1))
    && (fills > 0 && lost < 0 ==> up > 0.0)
    && (fills > 0 && lost > 0 ==> up < 0.0)
  }

  /** When splitting a fill gains and when it loses, for every size, price and split:
      the rounding error of one exact piece, times the number of pieces, must exceed
      half a cent, or be half a cent with an odd number of cents paid. So a split
      into a positive number of fills gains only if a piece is rounded up, and loses
      only if one is rounded down. */
  lemma FragmentationSign(contracts: real, price: real, fills: int)
    requires fills != 0
    ensures Decides(RoundedUpBy(contracts, price, fills), RoundedRebate(contracts / fills as real, price) * fills,
                    fills, LostToRounding(contracts, price, fills))
  {
    PiecesMakeWhole(contracts, price, fills);
    SplitSign(ExactCents(contracts, price), ExactCents(contracts / fills as real, price),
              RoundedRebate(contracts / fills as real, price), fills);
  }

  /** The same of `fills` pieces of `each` cents, paid s each, that make up a whole. */
  lemma SplitSign(whole: real, each: real, s: int, fills: int)
    requires each * fills as real == whole
    ensures Decides(s as real - each, s * fills, fills, RoundHalfEven(whole) - s * fills)
  {
    ErrorTimes(s as real, each, fills as real);
    ProductAsReal(s, fills);
    RoundsBelowIff(whole, s * fills);
    RoundsAboveIff(whole, s * fills);
    if fills > 0 {
      SignOfProduct(s as real - each, fills as real);
    }
  }

  lemma SignOfProduct(x: real, f: real)
    requires f > 0.0
    ensures Product(x, f) > 0.0 ==> x > 0.0
    ensures Product(x, f) < 0.0 ==> x < 0.0
  {
    if x > 0.0 {
      MulPositive(x, f);
    } else if x < 0.0 {
      MulPositive(-x, f);
    }
  }

  /** Four contracts at one half: the whole is a cent and a quarter, two pieces round
      to a cent each, so the split gains. */
  lemma FragmentationCanGain()
    ensures LostToRounding(4.0, 0.5, 2) < 0
  {
    assert ExactRebate(4.0, 0.5) == 0.0125;
    assert ExactRebate(2.0, 0.5) == 0.00625;
    RoundedIff(1, 0.625);
    assert 4.0 / (2 as real) == 2.0;
    FragmentationSign(4.0, 0.5, 2);
  }

  // ---- the passive pair ---------------------------------------------------

  datatype MakerPair = MakerPair(
    spread: real, longPrice: real, shortPrice: real, pairCost: real,
    longExact: real, longRounded: int, shortExact: real, shortRounded: int,
    budgetExact: real, budgetRounded: real)

  function MakePair(contracts: real, bid: real, ask: real): MakerPair {
    var spread, long, short := ask - bid, bid, 1.0 - ask;
    var displayed := spread * contracts;
    var le, lr := ExactRebate(contracts, long), RoundedRebate(contracts, long);
    var se, sr := ExactRebate(contracts, short), RoundedRebate(contracts, short);
    MakerPair(spread, long, short, long + short, le, lr, se, sr,
              displayed + le + se, displayed + lr as real / 100.0 + sr as real / 100.0)
  }

  /** The pair costs one dollar less the spread, and cent rounding moves the
      whole budget by at most one cent, whatever the size. */
  lemma PairBudget(contracts: real, bid: real, ask: real)
    ensures var p := MakePair(contracts, bid, ask);
      && p.pairCost == 1.0 - p.spread
      && -0.01 <= p.budgetRounded - p.budgetExact <= 0.01
  {
    var p := MakePair(contracts, bid, ask);
    RoundedIff(p.longRounded, 100.0 * p.longExact);
    RoundedIff(p.shortRounded, 100.0 * p.shortExact);
  }

  /** A leg may be evaluated at either spelling of its price. */
  lemma RebateSymmetric(contracts: real, price: real)
    ensures ExactRebate(contracts, price) == ExactRebate(contracts, 1.0 - price)
  {
    assert 1.0 - (1.0 - price) == price;
    assert ExactRebate(contracts, price) == 0.0125 * contracts * (price * (1.0 - price));
    assert ExactRebate(contracts, 1.0 - price) == 0.0125 * contracts * ((1.0 - price) * price);
  }

  /** The two legs earn the same exact rebate on a zero spread, on a zero size,
      and also whenever the book is centred on one half; never otherwise. */
  lemma LegsEarnEqualRebateIff(contracts: real, bid: real, ask: real)
    ensures var p := MakePair(contracts, bid, ask);
      p.longExact == p.shortExact <==> contracts == 0.0 || bid == ask || bid + ask == 1.0
  {
    RebateSymmetric(contracts, ask);
    var d := (ask - bid) * (1.0 - bid - ask);
    calc {
      ExactRebate(contracts, ask) - ExactRebate(contracts, bid);
      { RebateScales(contracts, ask); RebateScales(contracts, bid); }
      (RebatePerContract(ask) - RebatePerContract(bid)) * contracts;
      { assert RebatePerContract(ask) == 0.0125 * (ask * (1.0 - ask));
        assert RebatePerContract(bid) == 0.0125 * (bid * (1.0 - bid)); }
      0.0125 * (ask * (1.0 - ask) - bid * (1.0 - bid)) * contracts;
      { assert ask * (1.0 - ask) - bid * (1.0 - bid) == d; }
      0.0125 * d * contracts;
    }
    assert d == 0.0 <==> bid == ask || bid + ask == 1.0;
    if contracts != 0.0 && d != 0.0 {
      assert 0.0125 * d != 0.0;
      assert 0.0125 * d * contracts != 0.0;
    }
  }

  // ---- what is rounded ----------------------------------------------------

  /** A rebate is a whole number of cents: the nearest to 0.0125 dollars times contracts,
      price and its complement, and the even one of two. */
  lemma RebateMeaning(contracts: real, price: real, cents: int)
    ensures RoundedRebate(contracts, price) == cents
       <==> IsRounded(cents, 100.0 * (0.0125 * contracts * price * (1.0 - price)))
  {
    RoundedIff(cents, 100.0 * ExactRebate(contracts, price));
    assert ExactRebate(contracts, price) == 0.0125 * contracts * price * (1.0 - price);
  }

  /** What fragmentation reports lost is one fill's cents less what the pieces earn. */
  lemma LostMeaning(contracts: real, price: real, fills: int)
    requires fills != 0
    ensures LostToRounding(contracts, price, fills) + fills * RoundedRebate(contracts / fills as real, price)
         == RoundedRebate(contracts, price)
  {
  }

  /** The fields of a maker pair. */
  lemma MakerPairMeaning(contracts: real, bid: real, ask: real)
    ensures var p := MakePair(contracts, bid, ask);
      && p.longPrice == bid && p.shortPrice + ask == 1.0 && p.spread + bid == ask
      && p.pairCost == p.longPrice + p.shortPrice
      && p.longRounded == RoundedRebate(contracts, bid) && p.shortRounded == RoundedRebate(contracts, ask)
      && p.budgetExact == contracts * (ask - bid) + p.longExact + p.shortExact
      && p.budgetRounded == contracts * (ask - bid) + (p.longRounded + p.shortRounded) as real / 100.0
  {
    RebateSymmetric(contracts, ask);
  }
}
