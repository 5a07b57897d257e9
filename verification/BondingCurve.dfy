/** The constant-product quotes of common/bonding_curve.rs and common/global.rs, with their
    u128 intermediates and u64 results, and what they mean for whole runs of trades. */
module BondingCurve {
  import opened Wrappers
  import opened Bits

  const U128: nat := U64 * U64

  /** The reserves of a curve, each a u64. */
  datatype Curve = Curve(virtualToken: nat, virtualSol: nat, realToken: nat, realSol: nat,
                         complete: bool)
  {
    predicate Fits() {
      virtualToken < U64 && virtualSol < U64 && realToken < U64 && realSol < U64
    }

    function Product(): nat {
      virtualSol * virtualToken
    }
  }

  /** `Trap` is an arithmetic overflow, underflow or division by zero. */
  datatype Failure = CurveIsComplete | Trap

  type Quote = Result<nat, Failure>

  /** A u128 narrowed with `as u64`. */
  function Narrow(n: nat): (r: nat)
    ensures r < U64
    ensures n < U64 ==> r == n
  {
    n % U64
  }

  function Min(a: nat, b: nat): nat {
    if a < b then a else b
  }

  /** The virtual tokens that stay behind when `amount` comes in: the quotient that holds the
      product, and one more. */
  function TokensKept(virtualSol: nat, virtualToken: nat, amount: nat): nat
    requires amount > 0
  {
    virtualSol * virtualToken / (virtualSol + amount) + 1
  }

  /** `get_buy_price` */
  function GetBuyPrice(c: Curve, amount: nat): Quote {
    if c.complete then Err(CurveIsComplete)
    else if amount == 0 then Ok(0)
    else
      var r := TokensKept(c.virtualSol, c.virtualToken, amount);
      if r > c.virtualToken then Err(Trap)
      else Ok(Min(Narrow(c.virtualToken - r), c.realToken))
  }

  /** `get_sell_price`, before the fee. */
  function GrossSale(c: Curve, amount: nat): nat
    requires amount > 0
  {
    amount * c.virtualSol / (c.virtualToken + amount)
  }

  function Fee(gross: nat, feeBasisPoints: nat): nat {
    gross * feeBasisPoints / 10000
  }

  /** `get_sell_price` */
  function GetSellPrice(c: Curve, amount: nat, feeBasisPoints: nat): Quote {
    if c.complete then Err(CurveIsComplete)
    else if amount == 0 then Ok(0)
    else
      var n := GrossSale(c, amount);
      var a := Fee(n, feeBasisPoints);
      if a > n then Err(Trap) else Ok(Narrow(n - a))
  }

  /** `get_buy_out_price` */
  function GetBuyOutPrice(c: Curve, amount: nat, feeBasisPoints: nat): Quote {
    var solTokens := if amount < c.realSol then c.realSol else amount;
    if solTokens >= c.virtualToken then Err(Trap)
    else
      var total := solTokens * c.virtualSol / (c.virtualToken - solTokens) + 1;
      if total * feeBasisPoints >= U128 || total + Fee(total, feeBasisPoints) >= U128
      then Err(Trap)
      else Ok(Narrow(total + Fee(total, feeBasisPoints)))
  }

  // ----- Arithmetic of floor division -----

  /** `q` is the quotient of `n` by `d`. */
  lemma QuotientBounds(n: nat, d: nat)
    requires d > 0
    ensures d * (n / d) <= n < d * (n / d + 1)
  {
    MulDistributes(d, n / d, 1);
  }

  lemma MulMonotone(d: nat, a: nat, b: nat)
    requires a <= b
    ensures d * a <= d * b
  {
    assert d * (b - a) >= 0;
    MulDistributes(d, a, b - a);
  }

  lemma QuotientBelow(n: nat, d: nat, k: nat)
    requires d > 0
    ensures n / d < k <==> n < d * k
  {
    QuotientBounds(n, d);
    if n / d < k {
      MulMonotone(d, n / d + 1, k);
    } else {
      MulMonotone(d, k, n / d);
    }
  }

  // ----- The buy quote -----

  /** What the buy quote promises about the reserves, without its divisions: `s` tokens leave
      and the product of the virtual reserves stays above what it was, and no larger amount
      would do. */
  lemma UncappedBuy(c: Curve, amount: nat, s: nat)
    requires amount > 0
    requires s + c.Product() / (c.virtualSol + amount) + 1 == c.virtualToken
    ensures c.Product() < (c.virtualSol + amount) * (c.virtualToken - s)
    ensures (c.virtualSol + amount) * (c.virtualToken - s - 1) <= c.Product()
  {
    QuotientBounds(c.Product(), c.virtualSol + amount);
  }

  /** The u128 subtraction underflows exactly when the virtual token reserve is empty, and
      the u64 result is lossless. */
  lemma BuyNeverTraps(c: Curve, amount: nat)
    requires c.Fits() && !c.complete && amount > 0
    ensures GetBuyPrice(c, amount).Ok? <==> c.virtualToken >= 1
    ensures c.virtualToken >= 1 ==>
      GetBuyPrice(c, amount)
      == Ok(Min(c.virtualToken - TokensKept(c.virtualSol, c.virtualToken, amount), c.realToken))
  {
    var d := c.virtualSol + amount;
    if c.virtualToken >= 1 {
      MulDistributes(c.virtualToken, c.virtualSol, amount);
      assert c.virtualToken * amount >= 1 by { MulMonotone(c.virtualToken, 1, amount); }
      assert c.Product() == c.virtualToken * c.virtualSol;
      assert d * c.virtualToken == c.virtualToken * (c.virtualSol + amount);
      QuotientBelow(c.Product(), d, c.virtualToken);
    }
  }

  /** The quotient that prices `a` tokens: `a * sol / (token - a)`. */
  function SolFor(c: Curve, a: nat): nat
    requires a < c.virtualToken
  {
    a * c.virtualSol / (c.virtualToken - a)
  }

  lemma CrossProducts(sol: nat, x: nat, rest: nat, a: nat)
    ensures sol * (rest + a) < (sol + x) * rest <==> a * sol < rest * x
  {
    MulDistributes(sol, rest, a);
    MulDistributes(rest, sol, x);
  }

  lemma KeptAtMostIff(sol: nat, token: nat, a: nat, x: nat)
    requires a < token && x > 0
    ensures TokensKept(sol, token, x) <= token - a <==> x > a * sol / (token - a)
  {
    var rest := token - a;
    QuotientBelow(sol * token, sol + x, rest);
    CrossProducts(sol, x, rest, a);
    QuotientBelow(a * sol, rest, x);
  }

  /** A buy yields at least `a` tokens exactly when it pays more than that quotient. */
  lemma BuysAtLeastIff(c: Curve, a: nat, x: nat)
    requires c.Fits() && !c.complete && 1 <= a <= c.realToken && a < c.virtualToken
    ensures
      GetBuyPrice(c, x).Ok? && (GetBuyPrice(c, x).value >= a <==> x > SolFor(c, a))
  {
    if x > 0 {
      BuyNeverTraps(c, x);
      KeptAtMostIff(c.virtualSol, c.virtualToken, a, x);
    }
  }

  ghost predicate IsLeastPrice(c: Curve, a: nat, price: nat) {
    forall x: nat :: Pays(c, a, x) <==> x >= price
  }

  predicate Pays(c: Curve, a: nat, x: nat) {
    GetBuyPrice(c, x).Ok? && GetBuyPrice(c, x).value >= a
  }

  /** `get_buy_out_price(a, 0)` is exactly the least SOL amount that buys at least `a` tokens,
      whenever the amount is not below the real SOL reserve and the result fits a u64. */
  lemma BuyOutIsLeast(c: Curve, a: nat)
    requires c.Fits() && !c.complete && 1 <= a <= c.realToken && a < c.virtualToken
    requires c.realSol <= a && SolFor(c, a) + 1 < U64
    ensures GetBuyOutPrice(c, a, 0).Ok? && IsLeastPrice(c, a, GetBuyOutPrice(c, a, 0).value)
  {
    assert GetBuyOutPrice(c, a, 0) == Ok(SolFor(c, a) + 1);
    PaysIff(c, a);
  }

  /** Whether `b` tokens are priced like `a`, in terms of the reserves. */
  predicate PricedAlike(c: Curve, a: nat, b: nat)
    requires a < c.virtualToken && b < c.virtualToken
  {
    b * c.virtualSol < (SolFor(c, a) + 1) * (c.virtualToken - b)
  }

  lemma PricedAlikeIff(c: Curve, a: nat, b: nat)
    requires a <= b < c.virtualToken
    ensures PricedAlike(c, a, b) <==> SolFor(c, a) == SolFor(c, b)
  {
    QuotientGrows(c, a, b);
    QuotientBelow(b * c.virtualSol, c.virtualToken - b, SolFor(c, a) + 1);
  }

  /** For an amount below the real SOL reserve the function prices the reserve instead: the
      result still buys enough, and it is the least price exactly when the reserve is priced
      like the amount. */
  lemma BuyOutBelowReserve(c: Curve, a: nat)
    requires c.Fits() && !c.complete && 1 <= a <= c.realToken && a < c.realSol
    requires c.realSol < c.virtualToken && SolFor(c, c.realSol) + 1 < U64
    ensures GetBuyOutPrice(c, a, 0).Ok? && Pays(c, a, GetBuyOutPrice(c, a, 0).value)
    ensures IsLeastPrice(c, a, GetBuyOutPrice(c, a, 0).value) <==> PricedAlike(c, a, c.realSol)
  {
    assert GetBuyOutPrice(c, a, 0) == Ok(SolFor(c, c.realSol) + 1);
    QuotientGrows(c, a, c.realSol);
    PricedAlikeIff(c, a, c.realSol);
    PaysIff(c, a);
    LeastIsNext(c, a, SolFor(c, c.realSol) + 1);
  }

  lemma LeastIsNext(c: Curve, a: nat, price: nat)
    requires a < c.virtualToken
    requires forall x: nat :: Pays(c, a, x) <==> x >= SolFor(c, a) + 1
    ensures IsLeastPrice(c, a, price) <==> price == SolFor(c, a) + 1
  {
    if IsLeastPrice(c, a, price) {
      assert Pays(c, a, price) && Pays(c, a, SolFor(c, a) + 1);
    }
  }

  lemma PaysIff(c: Curve, a: nat)
    requires c.Fits() && !c.complete && 1 <= a <= c.realToken && a < c.virtualToken
    ensures forall x: nat :: Pays(c, a, x) <==> x >= SolFor(c, a) + 1
  {
    forall x: nat ensures Pays(c, a, x) <==> x >= SolFor(c, a) + 1 {
      BuysAtLeastIff(c, a, x);
    }
  }

  lemma QuotientGrows(c: Curve, a: nat, b: nat)
    requires a <= b < c.virtualToken
    ensures SolFor(c, a) <= SolFor(c, b)
  {
    var da, db, q := c.virtualToken - a, c.virtualToken - b, SolFor(c, b);
    QuotientBounds(b * c.virtualSol, db);
    MulMonotone(c.virtualSol, a, b);
    MulMonotone(q + 1, db, da);
    QuotientBelow(a * c.virtualSol, da, q + 1);
  }

  /** Such a price can be far above the least one. */
  lemma BuyOutCanOverprice()
    ensures
      var c := Curve(1000, 1000, 900, 500, false);
      GetBuyOutPrice(c, 100, 0) == Ok(1001) && Pays(c, 100, 112) && !IsLeastPrice(c, 100, 1001)
  {
    var c := Curve(1000, 1000, 900, 500, false);
    assert GetBuyPrice(c, 112) == Ok(100);
    assert Pays(c, 100, 112);
  }

  // ----- The sell quote -----

  /** The gross amount leaves the product no smaller. */
  lemma SaleKeepsProduct(c: Curve, amount: nat)
    requires amount > 0
    ensures GrossSale(c, amount) <= c.virtualSol
    ensures (c.virtualToken + amount) * GrossSale(c, amount) <= amount * c.virtualSol
    ensures c.Product() <= (c.virtualSol - GrossSale(c, amount)) * (c.virtualToken + amount)
  {
    QuotientBounds(amount * c.virtualSol, c.virtualToken + amount);
    ShareKeepsProduct(c.virtualSol, c.virtualToken, amount, GrossSale(c, amount));
  }

  lemma ShareIsAtMostAll(sol: nat, d: nat, amount: nat, n: nat)
    requires 0 < amount <= d && d * n <= amount * sol
    ensures n <= sol
  {
    MulMonotone(sol, amount, d);
    if n > sol { MulStep(d, sol, n); }
  }

  lemma ShareKeepsProduct(sol: nat, token: nat, amount: nat, n: nat)
    requires amount > 0 && (token + amount) * n <= amount * sol
    ensures n <= sol && sol * token <= (sol - n) * (token + amount)
  {
    ShareIsAtMostAll(sol, token + amount, amount, n);
    MulDistributes(sol, token, amount);
    MulDistributes(token + amount, sol - n, n);
  }

  /** Up to 10000 basis points nothing traps and the u64 result is lossless. */
  lemma SellNeverTraps(c: Curve, amount: nat, feeBasisPoints: nat)
    requires c.Fits() && !c.complete && amount > 0 && feeBasisPoints <= 10000
    ensures GetSellPrice(c, amount, feeBasisPoints)
            == Ok(GrossSale(c, amount) - Fee(GrossSale(c, amount), feeBasisPoints))
  {
    var n := GrossSale(c, amount);
    SaleKeepsProduct(c, amount);
    FeeIsAtMost(n, feeBasisPoints);
  }

  lemma FeeIsAtMost(gross: nat, feeBasisPoints: nat)
    requires feeBasisPoints <= 10000
    ensures Fee(gross, feeBasisPoints) <= gross
  {
    MulMonotone(gross, feeBasisPoints, 10000);
  }

  lemma FloorOf10000(x: nat)
    ensures 10000 * (x / 10000) <= x < 10000 * (x / 10000 + 1)
  {}

  /** For every amount and fee: the gross amount is the largest the proportion allows, and what
      is kept back the largest fee of at most so many basis points of it. */
  lemma SellQuote(c: Curve, amount: nat, feeBasisPoints: nat) returns (gross: nat, fee: nat)
    requires c.Fits() && !c.complete && amount > 0 && feeBasisPoints <= 10000
    ensures (c.virtualToken + amount) * gross <= amount * c.virtualSol
            < (c.virtualToken + amount) * (gross + 1)
    ensures 10000 * fee <= gross * feeBasisPoints < 10000 * (fee + 1) && fee <= gross
    ensures GetSellPrice(c, amount, feeBasisPoints) == Ok(gross - fee)
  {
    gross := GrossSale(c, amount);
    fee := Fee(gross, feeBasisPoints);
    QuotientBounds(amount * c.virtualSol, c.virtualToken + amount);
    FloorOf10000(gross * feeBasisPoints);
    FeeIsAtMost(gross, feeBasisPoints);
    SellNeverTraps(c, amount, feeBasisPoints);
  }

  /** For every fee: what the buy-out quote adds is the largest fee of at most so many basis
      points of the fee-free total, and the sum wraps at a u64. */
  lemma BuyOutQuote(c: Curve, amount: nat, feeBasisPoints: nat) returns (total: nat, fee: nat)
    requires (if amount < c.realSol then c.realSol else amount) < c.virtualToken
    ensures total == SolFor(c, if amount < c.realSol then c.realSol else amount) + 1
    ensures 10000 * fee <= total * feeBasisPoints < 10000 * (fee + 1)
    ensures GetBuyOutPrice(c, amount, feeBasisPoints)
            == if total * feeBasisPoints < U64 * U64 && total + fee < U64 * U64
               then Ok((total + fee) % U64) else Err(Trap)
  {
    total := SolFor(c, if amount < c.realSol then c.realSol else amount) + 1;
    fee := Fee(total, feeBasisPoints);
    FloorOf10000(total * feeBasisPoints);
  }

  /** A complete curve quotes neither way; nothing is quoted for nothing; and no reserve is
      bought out that the virtual tokens do not exceed. */
  lemma EdgeQuotes(c: Curve, amount: nat, feeBasisPoints: nat)
    ensures c.complete ==> GetBuyPrice(c, amount) == Err(CurveIsComplete)
                           && GetSellPrice(c, amount, feeBasisPoints) == Err(CurveIsComplete)
    ensures !c.complete ==>
              GetBuyPrice(c, 0) == Ok(0) && GetSellPrice(c, 0, feeBasisPoints) == Ok(0)
    ensures amount >= c.virtualToken || c.realSol >= c.virtualToken ==>
              GetBuyOutPrice(c, amount, feeBasisPoints) == Err(Trap)
  {}

  // ----- Trades and runs of trades -----

  datatype Trade = Buy(sol: nat) | Sell(tokens: nat, feeBasisPoints: nat)

  /** The curve after a trade, the SOL the trader paid and received, and the tokens. */
  datatype Done = Done(curve: Curve, paid: nat, earned: nat, tokensOut: nat, tokensIn: nat)

  /** The reserves move as `from_dev_trade` moves them; None when a quote fails or a reserve
      leaves the u64 range. */
  function Exec(c: Curve, trade: Trade): Option<Done> {
    match trade
    case Buy(sol) =>
      (match GetBuyPrice(c, sol)
       case Err(_) => None
       case Ok(tokens) =>
         if tokens > c.virtualToken || tokens > c.realToken || c.virtualSol + sol >= U64
            || c.realSol + sol >= U64 then None
         else Some(Done(Curve(c.virtualToken - tokens, c.virtualSol + sol, c.realToken - tokens,
                              c.realSol + sol, false), sol, 0, tokens, 0)))
    case Sell(tokens, feeBasisPoints) =>
      (match GetSellPrice(c, tokens, feeBasisPoints)
       case Err(_) => None
       case Ok(net) =>
         var gross := if tokens == 0 then 0 else GrossSale(c, tokens);
         if gross > c.virtualSol || gross > c.realSol || c.virtualToken + tokens >= U64
            || c.realToken + tokens >= U64 then None
         else Some(Done(Curve(c.virtualToken + tokens, c.virtualSol - gross,
                              c.realToken + tokens, c.realSol - gross, false),
                        0, net, 0, tokens)))
  }

  /** Totals over a run, by whoever makes the trades. */
  function Run(c: Curve, trades: seq<Trade>): Option<Done>
    decreases |trades|
  {
    if trades == [] then Some(Done(c, 0, 0, 0, 0))
    else
      match Exec(c, trades[0])
      case None => None
      case Some(d) =>
        match Run(d.curve, trades[1..])
        case None => None
        case Some(e) => Some(Done(e.curve, d.paid + e.paid, d.earned + e.earned,
                                  d.tokensOut + e.tokensOut, d.tokensIn + e.tokensIn))
  }

  predicate FeesOk(trades: seq<Trade>) {
    forall i :: 0 <= i < |trades| && trades[i].Sell? ==> trades[i].feeBasisPoints <= 10000
  }

  /** A trade moves tokens and SOL between the traders and the reserves, and never lowers the
      product of the virtual reserves. */
  predicate FairMove(c: Curve, d: Done) {
    && d.curve.Fits()
    && d.curve.Product() >= c.Product()
    && d.curve.virtualToken + d.tokensOut == c.virtualToken + d.tokensIn
    && d.curve.virtualSol + d.earned <= c.virtualSol + d.paid
  }

  lemma BuyIsFair(c: Curve, sol: nat)
    requires c.Fits() && Exec(c, Buy(sol)).Some?
    ensures FairMove(c, Exec(c, Buy(sol)).value)
    ensures sol > 0 ==> Exec(c, Buy(sol)).value.curve.Product() > c.Product()
  {
    var d := Exec(c, Buy(sol)).value;
    if sol > 0 {
      BuyNeverTraps(c, sol);
      var s := c.virtualToken - (c.Product() / (c.virtualSol + sol) + 1);
      UncappedBuy(c, sol, s);
      MulMonotone(c.virtualSol + sol, c.virtualToken - s, d.curve.virtualToken);
    }
  }

  lemma SellIsFair(c: Curve, tokens: nat, feeBasisPoints: nat)
    requires c.Fits() && Exec(c, Sell(tokens, feeBasisPoints)).Some? && feeBasisPoints <= 10000
    ensures FairMove(c, Exec(c, Sell(tokens, feeBasisPoints)).value)
  {
    if tokens > 0 {
      SellNeverTraps(c, tokens, feeBasisPoints);
      SaleKeepsProduct(c, tokens);
    }
  }

  /** Over every run of buys and sells, with any fee up to 100%, the product never falls. */
  lemma {:induction false} RunIsFair(c: Curve, trades: seq<Trade>)
    requires c.Fits() && FeesOk(trades) && Run(c, trades).Some?
    ensures FairMove(c, Run(c, trades).value)
    decreases |trades|
  {
    if trades != [] {
      match trades[0] {
        case Buy(sol) => BuyIsFair(c, sol);
        case Sell(tokens, fee) => SellIsFair(c, tokens, fee);
      }
      RunIsFair(Exec(c, trades[0]).value.curve, trades[1..]);
    }
  }

  /** What the trades of a run put in. */
  function Offered(trades: seq<Trade>): (int, int) {
    if trades == [] then (0, 0)
    else
      var rest := Offered(trades[1..]);
      match trades[0]
      case Buy(sol) => (sol + rest.0, rest.1)
      case Sell(tokens, _) => (rest.0, tokens + rest.1)
  }

  /** The virtual and real reserves move together, and tokens only change hands; without fees
      SOL only changes hands too. */
  predicate Conserves(c: Curve, d: Done, free: bool) {
    && d.curve.realToken + d.tokensOut == c.realToken + d.tokensIn
    && d.curve.virtualToken + d.tokensOut == c.virtualToken + d.tokensIn
    && d.curve.virtualSol - c.virtualSol == d.curve.realSol - c.realSol <= d.paid - d.earned
    && (free ==> d.curve.realSol + d.earned == c.realSol + d.paid)
  }

  predicate Free(trades: seq<Trade>) {
    forall i :: 0 <= i < |trades| && trades[i].Sell? ==> trades[i].feeBasisPoints == 0
  }

  lemma ExecConserves(c: Curve, trade: Trade)
    requires c.Fits() && FeesOk([trade]) && Exec(c, trade).Some?
    ensures Conserves(c, Exec(c, trade).value, Free([trade]))
    ensures (Exec(c, trade).value.paid, Exec(c, trade).value.tokensIn) == Offered([trade])
    ensures Exec(c, trade).value.curve.Fits()
  {
    assert [trade][0] == trade && Offered([trade][1..]) == (0, 0);
    match trade {
      case Buy(_) =>
      case Sell(tokens, fee) =>
        if tokens > 0 { SellNeverTraps(c, tokens, fee); }
    }
  }

  /** A sale takes the whole gross amount out of the reserves: the largest the proportion allows,
      of which the trader gets all but the fee. */
  lemma SaleTakesGross(c: Curve, tokens: nat, feeBasisPoints: nat)
    requires c.Fits() && tokens > 0 && feeBasisPoints <= 10000
    requires Exec(c, Sell(tokens, feeBasisPoints)).Some?
    ensures
      var d := Exec(c, Sell(tokens, feeBasisPoints)).value;
      var gross := c.realSol - d.curve.realSol;
      var fee := gross - d.earned;
      && (c.virtualToken + tokens) * gross <= tokens * c.virtualSol
         < (c.virtualToken + tokens) * (gross + 1)
      && 10000 * fee <= gross * feeBasisPoints < 10000 * (fee + 1)
  {
    var gross, fee := SellQuote(c, tokens, feeBasisPoints);
    SameQuotient(c.virtualToken + tokens, tokens * c.virtualSol, gross);
  }

  lemma SameQuotient(d: nat, n: nat, q: nat)
    requires d > 0 && d * q <= n < d * (q + 1)
    ensures n / d == q
  {
    RemainderIsUnique(n, d, q, n - d * q);
  }

  /** A run executes every trade and conserves what it trades. */
  lemma {:induction false} RunConserves(c: Curve, trades: seq<Trade>)
    requires c.Fits() && FeesOk(trades) && Run(c, trades).Some?
    ensures Conserves(c, Run(c, trades).value, Free(trades))
    ensures (Run(c, trades).value.paid, Run(c, trades).value.tokensIn) == Offered(trades)
    decreases |trades|
  {
    if trades != [] {
      ExecConserves(c, trades[0]);
      RunConserves(Exec(c, trades[0]).value.curve, trades[1..]);
      OfferedFirst(trades);
    }
  }

  lemma OfferedFirst(trades: seq<Trade>)
    requires trades != []
    ensures Offered([trades[0]]).0 + Offered(trades[1..]).0 == Offered(trades).0
    ensures Offered([trades[0]]).1 + Offered(trades[1..]).1 == Offered(trades).1
  {
    assert [trades[0]][1..] == [];
  }

  /** No run that gives back no more tokens than it took is profitable: the SOL reserve is no lower
      than before, and the traders together have paid at least what they earned. */
  lemma NoProfitableRun(c: Curve, trades: seq<Trade>)
    requires c.Fits() && FeesOk(trades) && Run(c, trades).Some? && c.virtualToken >= 1
    requires Run(c, trades).value.tokensIn <= Run(c, trades).value.tokensOut
    ensures Run(c, trades).value.curve.virtualSol >= c.virtualSol
    ensures Run(c, trades).value.paid >= Run(c, trades).value.earned
  {
    RunIsFair(c, trades);
    ReservesBack(c, Run(c, trades).value.curve);
  }

  lemma ReservesBack(c: Curve, end: Curve)
    requires c.virtualToken >= 1 && end.virtualToken <= c.virtualToken
    requires end.Product() >= c.Product()
    ensures end.virtualSol >= c.virtualSol
  {
    if end.virtualSol < c.virtualSol {
      MulMonotone(end.virtualSol, end.virtualToken, c.virtualToken);
      MulStep(c.virtualToken, end.virtualSol, c.virtualSol);
    }
  }

  /** Buying and selling the tokens straight back pays strictly less than was spent. */
  lemma RoundTripLoses(c: Curve, x: nat, feeBasisPoints: nat)
    requires c.Fits() && x > 0 && feeBasisPoints <= 10000
    requires Exec(c, Buy(x)).Some?
    ensures
      var d := Exec(c, Buy(x)).value;
      && GetSellPrice(d.curve, d.tokensOut, feeBasisPoints).Ok?
      && GetSellPrice(d.curve, d.tokensOut, feeBasisPoints).value < x
  {
    var d := Exec(c, Buy(x)).value;
    var after, t := d.curve, d.tokensOut;
    BuyNeverTraps(c, x);
    if t > 0 {
      SellNeverTraps(after, t, feeBasisPoints);
      SaleKeepsProduct(after, t);
      BuyIsFair(c, x);
      SoldBackForLess(c.virtualSol, after.virtualToken, t, x, GrossSale(after, t));
    }
  }

  /** The arithmetic of a round trip: `t` of the `rest + t` tokens were bought for `x`. */
  lemma SoldBackForLess(sol: nat, rest: nat, t: nat, x: nat, gross: nat)
    requires (sol + x) * rest > sol * (rest + t)
    requires (rest + t) * gross <= t * (sol + x)
    ensures gross < x
  {
    MulDistributes(sol + x, rest, t);
    MulDistributes(rest + t, sol, x);
    assert (rest + t) * gross < (rest + t) * x;
    if gross >= x { MulMonotone(rest + t, x, gross); }
  }

  // ----- Splitting a trade -----

  function SumSol(buys: seq<nat>): nat {
    if buys == [] then 0 else buys[0] + SumSol(buys[1..])
  }

  function Buys(buys: seq<nat>): seq<Trade> {
    seq(|buys|, i requires 0 <= i < |buys| => Buy(buys[i]))
  }

  function Sells(sells: seq<nat>, feeBasisPoints: nat): seq<Trade> {
    seq(|sells|, i requires 0 <= i < |sells| => Sell(sells[i], feeBasisPoints))
  }

  lemma BuyCapped(c: Curve, x: nat)
    requires c.Fits() && !c.complete && x > 0 && c.virtualToken >= 1
    ensures GetBuyPrice(c, x).Ok? && GetBuyPrice(c, x).value <= c.realToken
    ensures GetBuyPrice(c, x).value < c.virtualToken
  {
    BuyNeverTraps(c, x);
  }

  /** Two buys in a row give at most what one buy of the sum gives, cap included. */
  lemma TwoBuys(c: Curve, x: nat, y: nat)
    requires c.Fits() && Exec(c, Buy(x)).Some? && Exec(Exec(c, Buy(x)).value.curve, Buy(y)).Some?
    requires c.virtualToken >= 1
    ensures GetBuyPrice(c, x + y).Ok?
    ensures Exec(c, Buy(x)).value.tokensOut
            + Exec(Exec(c, Buy(x)).value.curve, Buy(y)).value.tokensOut
            <= GetBuyPrice(c, x + y).value
  {
    var d := Exec(c, Buy(x)).value;
    var mid, t1 := d.curve, d.tokensOut;
    if x > 0 && y > 0 {
      BuyCapped(c, x);
      BuyNeverTraps(c, x + y);
      BuyNeverTraps(mid, y);
      BuyIsFair(c, x);
      QuotientMonotone(c.Product(), mid.Product(), c.virtualSol + x + y);
    }
  }

  lemma QuotientMonotone(m: nat, n: nat, d: nat)
    requires d > 0 && m <= n
    ensures m / d <= n / d
  {
    QuotientBounds(n, d);
    QuotientBelow(m, d, n / d + 1);
  }

  /** Splitting a buy never pays: however the SOL is split, the tokens add up to at most those
      of a single buy. */
  lemma {:induction false} SplitBuysGiveNoMore(c: Curve, buys: seq<nat>)
    requires c.Fits() && !c.complete && c.virtualToken >= 1 && Run(c, Buys(buys)).Some?
    ensures GetBuyPrice(c, SumSol(buys)).Ok?
    ensures Run(c, Buys(buys)).value.tokensOut <= GetBuyPrice(c, SumSol(buys)).value
    decreases |buys|
  {
    if buys != [] {
      var x := buys[0];
      assert Buys(buys)[0] == Buy(x);
      assert Buys(buys)[1..] == Buys(buys[1..]);
      var mid := Exec(c, Buy(x)).value.curve;
      if x > 0 { BuyCapped(c, x); }
      BuyIsFair(c, x);
      SplitBuysGiveNoMore(mid, buys[1..]);
      SumReached(mid, buys[1..]);
      TwoBuys(c, x, SumSol(buys[1..]));
    }
  }

  /** A run of buys brings in the sum, so the sum still fits a u64. */
  lemma {:induction false} SumReached(c: Curve, buys: seq<nat>)
    requires c.Fits() && !c.complete && c.virtualToken >= 1 && Run(c, Buys(buys)).Some?
    ensures c.virtualSol + SumSol(buys) < U64 && c.realSol + SumSol(buys) < U64
    ensures Exec(c, Buy(SumSol(buys))).Some?
    decreases |buys|
  {
    if buys != [] {
      assert Buys(buys)[0] == Buy(buys[0]);
      assert Buys(buys)[1..] == Buys(buys[1..]);
      var mid := Exec(c, Buy(buys[0])).value.curve;
      if buys[0] > 0 { BuyCapped(c, buys[0]); }
      BuyIsFair(c, buys[0]);
      SumReached(mid, buys[1..]);
    }
    if SumSol(buys) > 0 { BuyCapped(c, SumSol(buys)); }
  }

  /** Whatever SOL can leave while `v` tokens end up in the reserve and the product does not
      fall below `k` is at most one gross sale's worth. */
  lemma SaleIsBest(c: Curve, amount: nat, taken: nat)
    requires amount > 0 && taken <= c.virtualSol
    requires c.Product() <= (c.virtualSol - taken) * (c.virtualToken + amount)
    ensures taken <= GrossSale(c, amount)
  {
    var d, n := c.virtualToken + amount, GrossSale(c, amount);
    QuotientBounds(amount * c.virtualSol, d);
    MulDistributes(d, c.virtualSol - taken, taken);
    MulDistributes(c.virtualSol, c.virtualToken, amount);
    if taken > n {
      MulMonotone(d, n + 1, taken);
    }
  }

  /** Splitting a sell never pays either, as long as no fee is rounded away. */
  lemma SplitSellsGiveNoMore(c: Curve, sells: seq<nat>)
    requires c.Fits() && !c.complete && Run(c, Sells(sells, 0)).Some?
    ensures GetSellPrice(c, SumSol(sells), 0).Ok?
    ensures Run(c, Sells(sells, 0)).value.earned <= GetSellPrice(c, SumSol(sells), 0).value
  {
    var total := SumSol(sells);
    SellsTotals(c, sells);
    if total > 0 {
      RunIsFair(c, Sells(sells, 0));
      SellOfRun(c, total, Run(c, Sells(sells, 0)).value);
    }
  }

  lemma SellOfRun(c: Curve, total: nat, d: Done)
    requires c.Fits() && !c.complete && total > 0 && FairMove(c, d)
    requires d.curve.virtualSol + d.earned == c.virtualSol
    requires d.curve.virtualToken == c.virtualToken + total
    ensures GetSellPrice(c, total, 0).Ok? && d.earned <= GetSellPrice(c, total, 0).value
  {
    SellNeverTraps(c, total, 0);
    SaleIsBest(c, total, d.earned);
  }

  lemma {:induction false} SellsTotals(c: Curve, sells: seq<nat>)
    requires c.Fits() && !c.complete && Run(c, Sells(sells, 0)).Some?
    ensures Run(c, Sells(sells, 0)).value.curve.virtualSol + Run(c, Sells(sells, 0)).value.earned
            == c.virtualSol
    ensures Run(c, Sells(sells, 0)).value.curve.virtualToken == c.virtualToken + SumSol(sells)
    ensures SumSol(sells) == 0 ==> Run(c, Sells(sells, 0)).value.earned == 0
    decreases |sells|
  {
    if sells != [] {
      assert Sells(sells, 0)[0] == Sell(sells[0], 0);
      assert Sells(sells, 0)[1..] == Sells(sells[1..], 0);
      if sells[0] > 0 { SellNeverTraps(c, sells[0], 0); }
      SellIsFair(c, sells[0], 0);
      SellsTotals(Exec(c, Sell(sells[0], 0)).value.curve, sells[1..]);
    }
  }

  /** With the whole amount taken as the fee, nothing is ever paid out. */
  lemma {:induction false} FullFeePaysNothing(c: Curve, sells: seq<nat>)
    requires c.Fits() && !c.complete && Run(c, Sells(sells, 10000)).Some?
    ensures Run(c, Sells(sells, 10000)).value.earned == 0
    decreases |sells|
  {
    if sells != [] {
      assert Sells(sells, 10000)[0] == Sell(sells[0], 10000);
      assert Sells(sells, 10000)[1..] == Sells(sells[1..], 10000);
      SellIsFair(c, sells[0], 10000);
      if sells[0] > 0 { SellNeverTraps(c, sells[0], 10000); }
      FullFeePaysNothing(Exec(c, Sell(sells[0], 10000)).value.curve, sells[1..]);
    }
  }

  /** No split of a sale at this fee earns more than the sale in one piece, on any curve. */
  ghost predicate SplittingNeverPays(feeBasisPoints: nat) {
    forall c: Curve, sells: seq<nat> ::
      c.Fits() && !c.complete && Run(c, Sells(sells, feeBasisPoints)).Some? ==>
        SplitEarnsNoMore(c, sells, feeBasisPoints)
  }

  predicate SplitEarnsNoMore(c: Curve, sells: seq<nat>, feeBasisPoints: nat)
    requires Run(c, Sells(sells, feeBasisPoints)).Some?
  {
    var one := GetSellPrice(c, SumSol(sells), feeBasisPoints);
    one.Ok? && Run(c, Sells(sells, feeBasisPoints)).value.earned <= one.value
  }

  /** Splitting never pays exactly when there is no fee, or nothing but the fee: for every fee
      in between the rounding of the fee can be split away. */
  lemma SplittingNeverPaysIff(feeBasisPoints: nat)
    requires feeBasisPoints <= 10000
    ensures SplittingNeverPays(feeBasisPoints) <==> feeBasisPoints == 0 || feeBasisPoints == 10000
  {
    if feeBasisPoints == 0 || feeBasisPoints == 10000 {
      forall c: Curve, sells: seq<nat>
        | c.Fits() && !c.complete && Run(c, Sells(sells, feeBasisPoints)).Some?
        ensures SplitEarnsNoMore(c, sells, feeBasisPoints)
      {
        if feeBasisPoints == 0 {
          SplitSellsGiveNoMore(c, sells);
        } else {
          FullFeePaysNothing(c, sells);
          if SumSol(sells) > 0 { SellNeverTraps(c, SumSol(sells), 10000); }
        }
      }
    } else {
      SplitCanPay(feeBasisPoints, RoundedGross(feeBasisPoints));
    }
  }

  /** A gross amount whose fee is rounded down to nothing, but not that of twice the amount. */
  function RoundedGross(feeBasisPoints: nat): (g: nat)
    requires 0 < feeBasisPoints < 10000
    ensures 1 <= g <= 5000 && 5000 <= g * feeBasisPoints < 10000
  {
    if feeBasisPoints >= 5000 then 1
    else
      CeilingOf5000(feeBasisPoints);
      (4999 + feeBasisPoints) / feeBasisPoints
  }

  lemma CeilingOf5000(f: nat)
    requires 0 < f < 5000
    ensures
      var g := (4999 + f) / f;
      1 <= g <= 5000 && 5000 <= g * f < 10000
  {
    QuotientBounds(4999 + f, f);
    var g := (4999 + f) / f;
    MulDistributes(f, g, 1);
    assert f * 1 == f && f * g == g * f;
    if g > 5000 {
      MulMonotone(f, 5001, g);
    }
  }

  /** A curve that pays `g` for each of two tokens and `2 g` for both at once. */
  function EvenCurve(g: nat): Curve {
    var sol := g * (4 * g + 5) + 2 * g;
    Curve(4 * g + 4, sol, 0, sol, false)
  }

  lemma EvenSales(g: nat)
    requires g >= 1
    ensures
      var c := EvenCurve(g);
      && GrossSale(c, 1) == g && GrossSale(c, 2) == 2 * g && g <= c.virtualSol
      && GrossSale(Curve(4 * g + 5, c.virtualSol - g, 1, c.realSol - g, false), 1) == g
  {
    var sol := g * (4 * g + 5) + 2 * g;
    RemainderIsUnique(sol, 4 * g + 5, g, 2 * g);
    MulDistributes(g, 4 * g + 5, 1);
    assert sol - g == g * (4 * g + 6) && 2 * sol == 2 * g * (4 * g + 6) + 2 * g;
    RemainderIsUnique(sol - g, 4 * g + 6, g, 0);
    RemainderIsUnique(2 * sol, 4 * g + 6, 2 * g, 2 * g);
  }

  lemma ExecSell(c: Curve, amount: nat, feeBasisPoints: nat, gross: nat)
    requires c.Fits() && !c.complete && amount > 0 && GrossSale(c, amount) == gross
    requires gross <= c.realSol && gross <= c.virtualSol && Fee(gross, feeBasisPoints) <= gross
    requires c.virtualToken + amount < U64 && c.realToken + amount < U64
    ensures
      var net := gross - Fee(gross, feeBasisPoints);
      && GetSellPrice(c, amount, feeBasisPoints) == Ok(net)
      && Exec(c, Sell(amount, feeBasisPoints))
         == Some(Done(Curve(c.virtualToken + amount, c.virtualSol - gross, c.realToken + amount,
                            c.realSol - gross, false), 0, net, 0, amount))
  {}

  lemma EvenCurveFits(g: nat)
    requires 1 <= g <= 5000
    ensures EvenCurve(g).Fits() && EvenCurve(g).virtualToken <= 20004
    ensures 2 * g <= EvenCurve(g).virtualSol
  {
    MulMonotone(g, 4 * g + 5, 20005);
    assert g * (4 * g + 5) <= 5000 * 20005;
  }

  lemma RoundedFees(f: nat, g: nat)
    requires 5000 <= g * f < 10000
    ensures Fee(g, f) == 0 && Fee(2 * g, f) == 1
  {
    assert 2 * g * f == 2 * (g * f);
  }

  lemma SplitCanPay(feeBasisPoints: nat, g: nat)
    requires 1 <= g <= 5000 && 5000 <= g * feeBasisPoints < 10000
    ensures EvenCurve(g).Fits() && !EvenCurve(g).complete
    ensures Run(EvenCurve(g), Sells([1, 1], feeBasisPoints)).Some?
    ensures !SplitEarnsNoMore(EvenCurve(g), [1, 1], feeBasisPoints)
  {
    var c := EvenCurve(g);
    var trade := Sell(1, feeBasisPoints);
    EvenSales(g);
    EvenCurveFits(g);
    RoundedFees(feeBasisPoints, g);
    ExecSell(c, 2, feeBasisPoints, 2 * g);
    ExecSell(c, 1, feeBasisPoints, g);
    var d := Exec(c, trade).value;
    ExecSell(d.curve, 1, feeBasisPoints, g);
    RunTwice(c, trade, d, Exec(d.curve, trade).value);
    assert Sells([1, 1], feeBasisPoints) == [trade, trade];
    assert [1, 1][1..] == [1] && SumSol([1]) == 1;
  }

  lemma RunTwice(c: Curve, trade: Trade, d: Done, e: Done)
    requires Exec(c, trade) == Some(d) && Exec(d.curve, trade) == Some(e)
    ensures Run(c, [trade, trade]).Some?
    ensures Run(c, [trade, trade]).value.earned == d.earned + e.earned
  {
    assert [trade, trade][1..] == [trade] && [trade][1..] == [];
    assert Run(e.curve, []) == Some(Done(e.curve, 0, 0, 0, 0));
    assert Run(d.curve, [trade]).Some?;
  }

  /** At a fee of one percent, for instance: the fee is rounded down on each part. */
  lemma SplitSellCanSaveFee()
    ensures
      var c := Curve(1_000_000, 99_400_000, 0, 99_400_000, false);
      var one := GetSellPrice(c, 2, 100);
      var parts := Run(c, [Sell(1, 100), Sell(1, 100)]);
      one.Ok? && parts.Some? && parts.value.earned > one.value
  {
    var c := Curve(1_000_000, 99_400_000, 0, 99_400_000, false);
    var trades := [Sell(1, 100), Sell(1, 100)];
    assert trades[1..] == [Sell(1, 100)] && [Sell(1, 100)][1..] == [];
    var d := Exec(c, Sell(1, 100)).value;
    assert GrossSale(c, 1) == 99 && d.earned == 99;
    assert GrossSale(d.curve, 1) == 99;
    assert GrossSale(c, 2) == 198;
    assert Run(d.curve, trades[1..]).value.earned == 99;
  }

  // ----- New curves -----

  /** The initial reserves are constants of a file that is not part of this model. */
  datatype Initial = Initial(virtualToken: nat, virtualSol: nat, realToken: nat)

  /** `from_dev_trade` */
  function FromDevTrade(g: Initial, devTokens: nat, devSol: nat): Option<Curve> {
    if devTokens > g.virtualToken || devTokens > g.realToken || g.virtualSol + devSol >= U64
    then None
    else Some(Curve(g.virtualToken - devTokens, g.virtualSol + devSol, g.realToken - devTokens,
                    devSol, false))
  }

  /** `get_initial_buy_price`, which compares before it narrows. */
  function GetInitialBuyPrice(g: Initial, amount: nat): Quote {
    if amount == 0 then Ok(0)
    else
      var r := TokensKept(g.virtualSol, g.virtualToken, amount);
      if r > g.virtualToken then Err(Trap)
      else
        var s := g.virtualToken - r;
        Ok(if s < g.realToken then Narrow(s) else g.realToken)
  }

  predicate InitialFits(g: Initial) {
    g.virtualToken < U64 && g.virtualSol < U64 && g.realToken < U64
  }

  /** The global account quotes what the untouched curve quotes. */
  lemma InitialQuotesAgree(g: Initial, amount: nat)
    requires InitialFits(g)
    ensures GetInitialBuyPrice(g, amount)
            == GetBuyPrice(Curve(g.virtualToken, g.virtualSol, g.realToken, 0, false), amount)
  {}

  /** The curve built from the developer's trade is the untouched curve after that buy. */
  lemma DevTradeIsFirstBuy(g: Initial, sol: nat)
    requires InitialFits(g) && 1 <= g.realToken <= g.virtualToken
    requires g.virtualSol + sol < U64
    ensures
      var untouched := Curve(g.virtualToken, g.virtualSol, g.realToken, 0, false);
      && GetInitialBuyPrice(g, sol).Ok? && Exec(untouched, Buy(sol)).Some?
      && FromDevTrade(g, GetInitialBuyPrice(g, sol).value, sol)
         == Some(Exec(untouched, Buy(sol)).value.curve)
  {
    var untouched := Curve(g.virtualToken, g.virtualSol, g.realToken, 0, false);
    InitialQuotesAgree(g, sol);
    if sol > 0 { BuyCapped(untouched, sol); }
  }
}
