// Both legs of a hedge at one size (pair_economics and the fee state machine,
// research/run85_phasex_economics.py, lines 488-599).
module PairEconomics {
  import opened Arithmetic
  import opened Wrappers
  import opened DepthWalk
  import opened BookRecord
  import F = FeeRounding
  import R = Rounding

  datatype Component = TakerFeeFormula | RoundingRule | PerFillVsAggregateRounding

  const REQUIRED_FOR_NET := [TakerFeeFormula, RoundingRule, PerFillVsAggregateRounding]

  /** What is known of one venue's fees: its verified components, the taker
      coefficient, and whether the rounding rule is banker's rounding. */
  datatype Schedule = Schedule(verified: set<Component>, coefficient: real, bankers: bool)

  datatype Registry = Registry(pmus: Schedule, kalshi: Schedule)

  function MissingForNet(s: Schedule): set<Component> {
    set c | c in REQUIRED_FOR_NET && c !in s.verified
  }

  datatype Net = NotIdentifiedFees(pmusMissing: set<Component>, kalshiMissing: set<Component>)
               | NetPnl(pmusFee: real, kalshiFee: real, pnl: real)

  datatype Economics =
    | NoCommonHedgeableSize(size: real)
    | Priced(size: real, pmusCost: real, kalshiCost: real, gross: real, grossBps: Option<real>, net: Net)

  function PmusTakerFee(contracts: real, price: real): real {
    F.BankersCents(F.ExactFee(F.THETA_TAKER, contracts, price)) as real / 100.0
  }

  function KalshiTakerFee(s: Schedule, contracts: real, price: real): real {
    var raw := F.ExactFee(s.coefficient, contracts, price);
    if s.bankers then F.BankersCents(raw) as real / 100.0 else raw
  }

  function PairEconomics(p: Leg, k: Leg, reg: Registry): Economics {
    var size := Min(p.filled, k.filled);
    if size <= 0.0 || p.vwap.None? || k.vwap.None? then NoCommonHedgeableSize(size)
    else
      var pc, kc := size * p.vwap.value, size * k.vwap.value;
      var gross := size - (pc + kc);
      var bps := if pc + kc > 0.0 then Some(10000.0 * gross / (pc + kc)) else None;
      var pm, km := MissingForNet(reg.pmus), MissingForNet(reg.kalshi);
      if pm != {} || km != {} then Priced(size, pc, kc, gross, bps, NotIdentifiedFees(pm, km))
      else
        var pf, kf := PmusTakerFee(size, p.vwap.value), KalshiTakerFee(reg.kalshi, size, k.vwap.value);
        Priced(size, pc, kc, gross, bps, NetPnl(pf, kf, size - (pc + kc + pf + kf)))
  }

  /** Money made by buying exactly `size` on both ladders and settling at one dollar a pair. */
  function RewalkedPnl(pmus: seq<Level>, kalshi: seq<Level>, size: real): real {
    size - (ByQuantity(pmus, size).cost + ByQuantity(kalshi, size).cost)
  }

  /** Paying the leg's average price for `size` shares pays at least `cost`. */
  ghost predicate Overpays(leg: Leg, size: real, cost: real) {
    && leg.vwap.Some?
    && size * leg.vwap.value >= cost
    && (size == leg.filled ==> size * leg.vwap.value == cost)
  }

  lemma LegOverpays(levels: seq<Level>, want: real, leg: Leg, size: real)
    requires Ascending(levels) && IsVwapLeg(leg, levels, want) && 0.0 < size <= leg.filled
    ensures Overpays(leg, size, ByQuantity(levels, size).cost)
  {
    FillIsMin(levels, want);
    FillIsMin(levels, size);
    VwapMonotone(levels, size, want);
    AskForFill(levels, want);
    OverpaysFromAverage(leg, size, ByQuantity(levels, size).cost);
  }

  lemma OverpaysFromAverage(leg: Leg, size: real, c: real)
    requires 0.0 < size <= leg.filled && leg.vwap == Some(leg.notional / leg.filled)
    requires c / size <= leg.vwap.value
    requires size == leg.filled ==> c == leg.notional
    ensures Overpays(leg, size, c)
  {
    Quotient(c, size);
    MulMonotone(c / size, leg.vwap.value, size);
    Quotient(leg.notional, leg.filled);
  }

  /** Pricing each leg at its own, larger fill understates the hedge: gross P&L
      never exceeds what re-walking both ladders at the hedged size makes, and is
      exactly that when both legs filled alike. */
  lemma GrossIsConservative(pmus: seq<Level>, kalshi: seq<Level>, pWant: real, kWant: real, p: Leg, k: Leg,
                            reg: Registry)
    requires Ascending(pmus) && IsVwapLeg(p, pmus, pWant)
    requires Ascending(kalshi) && IsVwapLeg(k, kalshi, kWant)
    ensures var e := PairEconomics(p, k, reg);
      && e.size == Min(p.filled, k.filled)
      && (e.Priced? <==> e.size > 0.0)
      && (e.Priced? ==> e.gross <= RewalkedPnl(pmus, kalshi, e.size))
      && (e.Priced? && p.filled == k.filled ==> e.gross == RewalkedPnl(pmus, kalshi, e.size))
  {
    var size := Min(p.filled, k.filled);
    if size > 0.0 {
      LegOverpays(pmus, pWant, p, size);
      LegOverpays(kalshi, kWant, k, size);
      GrossOfOverpaidLegs(p, k, reg, ByQuantity(pmus, size).cost, ByQuantity(kalshi, size).cost);
    }
  }

  /** The same from the two venues' payloads, with nothing assumed of them: the
      records' own sorting supplies the order of both ladders. */
  lemma PayloadGrossIsConservative(offers: seq<Raw>, noRaw: seq<Raw>, scaleNo: bool, pmus: seq<Level>,
                                   kalshi: seq<Level>, pWant: real, kWant: real, p: Leg, k: Leg, reg: Registry)
    requires IsPmusAsks(pmus, offers) && IsVwapLeg(p, pmus, pWant)
    requires IsKalshiAsks(kalshi, noRaw, scaleNo) && IsVwapLeg(k, kalshi, kWant)
    ensures var e := PairEconomics(p, k, reg);
      && e.size == Min(p.filled, k.filled)
      && (e.Priced? <==> e.size > 0.0)
      && (e.Priced? ==> e.gross <= RewalkedPnl(pmus, kalshi, e.size))
      && (e.Priced? && p.filled == k.filled ==> e.gross == RewalkedPnl(pmus, kalshi, e.size))
  {
    PmusAsksAscend(pmus, offers);
    KalshiAsksAscend(kalshi, noRaw, scaleNo);
    GrossIsConservative(pmus, kalshi, pWant, kWant, p, k, reg);
  }

  lemma GrossOfOverpaidLegs(p: Leg, k: Leg, reg: Registry, pc: real, kc: real)
    requires var size := Min(p.filled, k.filled); size > 0.0 && Overpays(p, size, pc) && Overpays(k, size, kc)
    ensures var e := PairEconomics(p, k, reg);
      && e.Priced? && e.size == Min(p.filled, k.filled)
      && e.gross <= e.size - (pc + kc)
      && (p.filled == k.filled ==> e.gross == e.size - (pc + kc))
  {
  }

  /** A net number exists exactly when both venues' required fee components are verified. */
  lemma NetReportedIff(p: Leg, k: Leg, reg: Registry)
    requires PairEconomics(p, k, reg).Priced?
    ensures PairEconomics(p, k, reg).net.NetPnl?
       <==> forall c :: c in REQUIRED_FOR_NET ==> c in reg.pmus.verified && c in reg.kalshi.verified
  {
    if forall c :: c in REQUIRED_FOR_NET ==> c in reg.pmus.verified && c in reg.kalshi.verified {
      assert MissingForNet(reg.pmus) == {} && MissingForNet(reg.kalshi) == {};
    } else {
      var c :| c in REQUIRED_FOR_NET && !(c in reg.pmus.verified && c in reg.kalshi.verified);
      assert c in MissingForNet(reg.pmus) || c in MissingForNet(reg.kalshi);
    }
  }

  ghost predicate WithinUnit(a: Walk) {
    a.fill >= 0.0 && 0.0 <= a.cost <= a.fill
  }

  lemma UnitStep(lv: Level, t: real, a: Walk)
    requires WithinUnit(a) && t >= 0.0 && 0.0 <= lv.price <= 1.0
    ensures WithinUnit(AddLevel(lv, t, a))
  {
    MulMonotone(0.0, lv.price, t);
    MulMonotone(lv.price, 1.0, t);
    var c := t * lv.price;
    assert 0.0 <= c <= t && AddLevel(lv, t, a).cost == c + a.cost;
  }

  lemma {:induction false} UnitWalk(levels: seq<Level>, want: real)
    requires UnitPrices(levels)
    ensures WithinUnit(ByQuantity(levels, want))
  {
    if levels != [] {
      var take := Take(levels[0], want);
      assert levels[0] in levels;
      UnitWalk(levels[1..], want - take);
      UnitStep(levels[0], take, ByQuantity(levels[1..], want - take));
    }
  }

  lemma UnitVwap(levels: seq<Level>, want: real, leg: Leg)
    requires UnitPrices(levels) && IsVwapLeg(leg, levels, want) && leg.vwap.Some?
    ensures 0.0 <= leg.vwap.value <= 1.0
  {
    UnitWalk(levels, want);
    Quotient(leg.notional, leg.filled);
    CancelFactor(leg.filled, leg.vwap.value, 1.0);
    CancelFactor(leg.filled, 0.0, leg.vwap.value);
  }

  lemma FeeNonnegative(theta: real, contracts: real, price: real)
    requires theta >= 0.0 && contracts >= 0.0 && 0.0 <= price <= 1.0
    ensures F.ExactFee(theta, contracts, price) >= 0.0
    ensures F.BankersCents(F.ExactFee(theta, contracts, price)) >= 0
  {
    MulMonotone(0.0, theta, contracts);
    MulMonotone(0.0, theta * contracts, price);
    MulMonotone(0.0, theta * contracts * price, 1.0 - price);
    R.RoundInteger(0);
    R.RoundMonotone(0.0, 100.0 * F.ExactFee(theta, contracts, price));
  }

  /** Fees only ever lower the number: a reported net P&L is at most the gross one,
      hence at most what the two ladders really offer at that size. */
  lemma NetIsConservative(pmus: seq<Level>, kalshi: seq<Level>, pWant: real, kWant: real, p: Leg, k: Leg, reg: Registry)
    requires Ascending(pmus) && UnitPrices(pmus) && IsVwapLeg(p, pmus, pWant)
    requires Ascending(kalshi) && UnitPrices(kalshi) && IsVwapLeg(k, kalshi, kWant)
    requires reg.kalshi.coefficient >= 0.0
    ensures var e := PairEconomics(p, k, reg);
      e.Priced? && e.net.NetPnl? ==> e.net.pnl <= e.gross && e.net.pnl <= RewalkedPnl(pmus, kalshi, e.size)
  {
    var e := PairEconomics(p, k, reg);
    if e.Priced? && e.net.NetPnl? {
      GrossIsConservative(pmus, kalshi, pWant, kWant, p, k, reg);
      UnitVwap(pmus, pWant, p);
      UnitVwap(kalshi, kWant, k);
      FeeNonnegative(F.THETA_TAKER, e.size, p.vwap.value);
      FeeNonnegative(reg.kalshi.coefficient, e.size, k.vwap.value);
    }
  }
  /** The same from the payloads: prices between zero and one dollar are all that is
      asked of them. */
  lemma PayloadNetIsConservative(offers: seq<Raw>, noRaw: seq<Raw>, scaleNo: bool, pmus: seq<Level>,
                                 kalshi: seq<Level>, pWant: real, kWant: real, p: Leg, k: Leg, reg: Registry)
    requires IsPmusAsks(pmus, offers) && IsVwapLeg(p, pmus, pWant) && UnitQuotes(Parsed(offers, false))
    requires IsKalshiAsks(kalshi, noRaw, scaleNo) && IsVwapLeg(k, kalshi, kWant)
    requires UnitQuotes(Parsed(noRaw, scaleNo)) && reg.kalshi.coefficient >= 0.0
    ensures var e := PairEconomics(p, k, reg);
      e.Priced? && e.net.NetPnl? ==> e.net.pnl <= e.gross && e.net.pnl <= RewalkedPnl(pmus, kalshi, e.size)
  {
    PmusAsksAscend(pmus, offers);
    PmusAsksAreUnit(pmus, offers);
    KalshiAsksAscend(kalshi, noRaw, scaleNo);
    KalshiAsksAreUnit(kalshi, noRaw, scaleNo);
    NetIsConservative(pmus, kalshi, pWant, kWant, p, k, reg);
  }

  // ---- every number of a priced pair --------------------------------------

  predicate IsRequired(c: Component) {
    c == TakerFeeFormula || c == RoundingRule || c == PerFillVsAggregateRounding
  }

  lemma MissingMeaning(s: Schedule, c: Component)
    ensures c in MissingForNet(s) <==> IsRequired(c) && c !in s.verified
  {
    if IsRequired(c) {
      var k := if c == TakerFeeFormula then 0 else if c == RoundingRule then 1 else 2;
      assert REQUIRED_FOR_NET[k] == c;
    }
  }

  /** cents is the exact fee in cents, to the nearest whole one, even on ties. */
  ghost predicate IsNearestCents(cents: int, dollars: real) {
    && -0.5 <= cents as real - 100.0 * dollars <= 0.5
    && (cents as real - 100.0 * dollars == 0.5 || cents as real - 100.0 * dollars == -0.5 ==> cents % 2 == 0)
  }

  ghost predicate IsRoundedFee(fee: real, dollars: real) {
    exists cents :: IsNearestCents(cents, dollars) && fee == cents as real / 100.0
  }

  function ExactFee(theta: real, contracts: real, price: real): real {
    theta * contracts * price * (1.0 - price)
  }

  /** The two fees of a net number: theta times contracts, price and its complement. */
  lemma FeeMeaning(s: Schedule, contracts: real, price: real)
    ensures IsRoundedFee(PmusTakerFee(contracts, price), ExactFee(0.06, contracts, price))
    ensures s.bankers ==> IsRoundedFee(KalshiTakerFee(s, contracts, price), ExactFee(s.coefficient, contracts, price))
    ensures !s.bankers ==> KalshiTakerFee(s, contracts, price) == ExactFee(s.coefficient, contracts, price)
  {
    CentsMeaning(ExactFee(0.06, contracts, price));
    CentsMeaning(ExactFee(s.coefficient, contracts, price));
  }

  lemma CentsMeaning(dollars: real)
    ensures IsNearestCents(F.BankersCents(dollars), dollars)
    ensures IsRoundedFee(F.BankersCents(dollars) as real / 100.0, dollars)
  {
    var cents := F.BankersCents(dollars);
    R.RoundedIff(cents, 100.0 * dollars);
    assert IsNearestCents(cents, dollars);
  }

  /** The size is the smaller fill, and it is priced when it is anything. */
  lemma SizeMeaning(p: Leg, k: Leg, reg: Registry)
    ensures var e := PairEconomics(p, k, reg);
      && e.size <= p.filled && e.size <= k.filled && (e.size == p.filled || e.size == k.filled)
      && (e.Priced? <==> e.size > 0.0 && p.vwap.Some? && k.vwap.Some?)
  {
  }

  lemma PricedFields(p: Leg, k: Leg, reg: Registry)
    requires PairEconomics(p, k, reg).Priced?
    ensures var e := PairEconomics(p, k, reg);
      && p.vwap.Some? && k.vwap.Some?
      && e.pmusCost == e.size * p.vwap.value && e.kalshiCost == e.size * k.vwap.value
      && e.gross == e.size - (e.pmusCost + e.kalshiCost)
      && e.grossBps == (if e.pmusCost + e.kalshiCost > 0.0 then Some(10000.0 * e.gross / (e.pmusCost + e.kalshiCost))
                        else None)
  {
  }

  /** The numbers of a priced pair, against the two legs. */
  lemma EconomicsMeaning(p: Leg, k: Leg, reg: Registry)
    requires PairEconomics(p, k, reg).Priced?
    ensures var e := PairEconomics(p, k, reg);
      && p.vwap.Some? && k.vwap.Some?
      && e.pmusCost == e.size * p.vwap.value && e.kalshiCost == e.size * k.vwap.value
      && e.gross + (e.pmusCost + e.kalshiCost) == e.size
      && IsBps(e.grossBps, e.gross, e.pmusCost + e.kalshiCost)
  {
    var e := PairEconomics(p, k, reg);
    PricedFields(p, k, reg);
    BpsMeaning(e.grossBps, e.gross, e.pmusCost + e.kalshiCost);
  }

  /** Ten thousand times the gross number over what the pair costs, when it costs anything. */
  ghost predicate IsBps(bps: Option<real>, gross: real, cost: real) {
    && (bps.Some? <==> cost > 0.0)
    && (bps.Some? ==> bps.value * cost == 10000.0 * gross)
  }

  lemma BpsMeaning(bps: Option<real>, gross: real, cost: real)
    requires bps == if cost > 0.0 then Some(10000.0 * gross / cost) else None
    ensures IsBps(bps, gross, cost)
  {
    if cost > 0.0 {
      Quotient(10000.0 * gross, cost);
    }
  }

  /** Its net number, or what is missing for one. */
  lemma NetMeaning(p: Leg, k: Leg, reg: Registry)
    requires PairEconomics(p, k, reg).Priced?
    ensures var e := PairEconomics(p, k, reg);
      match e.net
      case NotIdentifiedFees(pm, km) =>
        && (forall c :: c in pm <==> IsRequired(c) && c !in reg.pmus.verified)
        && (forall c :: c in km <==> IsRequired(c) && c !in reg.kalshi.verified)
      case NetPnl(pf, kf, pnl) =>
        && pf == PmusTakerFee(e.size, p.vwap.value) && kf == KalshiTakerFee(reg.kalshi, e.size, k.vwap.value)
        && pnl + e.pmusCost + e.kalshiCost + pf + kf == e.size
  {
    forall c
      ensures c in MissingForNet(reg.pmus) <==> IsRequired(c) && c !in reg.pmus.verified
      ensures c in MissingForNet(reg.kalshi) <==> IsRequired(c) && c !in reg.kalshi.verified
    {
      MissingMeaning(reg.pmus, c);
      MissingMeaning(reg.kalshi, c);
    }
  }
}
