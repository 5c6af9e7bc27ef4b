/** `main`: the checks that stop the run early, in the order the code makes
    them, then the position loop, the price lookup and the valuation loop.
    Everything the run learns from outside is a field of `World`. */
module Report {
  import opened Base
  import opened Text
  import opened EnvFile
  import opened Tokens
  import opened Prices
  import opened Range
  import opened Positions
  import opened Valuation

  /** The answers of the outside world: whether the JSON-RPC provider could
      be built (the message otherwise), `balanceOf` (the slots of the
      wallet's positions, one per index, or the failure message), the token
      reads, the two price providers, `getPool` and `slot0().tick`. */
  datatype World = World(providerError: Option<string>, balance: Result<seq<Slot>>,
                         tokens: Addr -> TokenReads,
                         primary: seq<Addr> -> map<Addr, Quote>,
                         secondary: seq<Addr> -> seq<(string, LlamaCoin)>,
                         getPool: (Addr, Addr, nat) -> Result<Addr>,
                         slot0: Addr -> Result<int>)

  /** Why a run printed `UNI $: 0.00` and stopped. */
  datatype Halt =
    | MissingConfig
    | ProviderFailed(message: string)
    | BalanceFailed(message: string)
    | NoPositions
    | NoActivePositions

  /** The outcome of a run: stopped early, or the valued entries and their total. */
  datatype Report = Halted(reason: Halt) | Done(positions: seq<Entry>, totalUsd: real)

  /** The run without caches, as a function of the configuration and the world. */
  function ReportOf(cfg: Config, w: World): (r: Report)
    ensures r.Done? ==> w.balance.Ok? && 0 < |r.positions| <= |w.balance.value|
                        && r.totalUsd == SumKnown(r.positions)
    ensures cfg.wallet == "" || cfg.rpcUrl == "" ==> r == Halted(MissingConfig)
  {
    if cfg.wallet == "" || cfg.rpcUrl == "" then Halted(MissingConfig)
    else if w.providerError.Some? then Halted(ProviderFailed(w.providerError.value))
    else match w.balance
      case Fail(m) => Halted(BalanceFailed(m))
      case Ok(slots) =>
        if |slots| == 0 then Halted(NoPositions)
        else
          var ps := Collect(slots, w.tokens);
          if |ps| == 0 then Halted(NoActivePositions)
          else
            var prices := FetchPrices(TokenAddrs(ps), w.primary, w.secondary).prices;
            var vs := ValuedAll(ps, prices, w.getPool, w.slot0);
            Done(vs, SumKnown(vs))
  }

  /** The number in the title line, `UNI $: <total>`. */
  function TitleUsd(r: Report): real {
    if r.Done? then r.totalUsd else 0.0
  }

  /** `main()`, run with its caches. Its outcome is that of the uncached run. */
  method BuildReport(cfg: Config, w: World) returns (r: Report)
    ensures r == ReportOf(cfg, w)
  {
    if cfg.wallet == "" || cfg.rpcUrl == "" {
      return Halted(MissingConfig);
    }
    if w.providerError.Some? {
      return Halted(ProviderFailed(w.providerError.value));
    }
    if w.balance.Fail? {
      return Halted(BalanceFailed(w.balance.message));
    }
    var slots := w.balance.value;
    if |slots| == 0 {
      return Halted(NoPositions);
    }
    var positions, tokenAddrSet, metaCache := CollectPositions(slots, w.tokens);
    if |positions| == 0 {
      return Halted(NoActivePositions);
    }
    var priceMap := FetchPrices(tokenAddrSet, w.primary, w.secondary).prices;
    var valued, totalUsd, poolTickCache, slot0Reads := Valuate(positions, priceMap, w.getPool, w.slot0);
    r := Done(valued, totalUsd);
  }

  /** The early stops come in the order the code makes them: configuration,
      provider, `balanceOf`, an empty wallet, then no retained position. */
  lemma HaltOrder(cfg: Config, w: World)
    ensures ReportOf(cfg, w) == Halted(MissingConfig) <==> cfg.wallet == "" || cfg.rpcUrl == ""
    ensures ReportOf(cfg, w).Halted? && ReportOf(cfg, w).reason.ProviderFailed? <==>
              cfg.wallet != "" && cfg.rpcUrl != "" && w.providerError.Some?
    ensures ReportOf(cfg, w).Halted? && ReportOf(cfg, w).reason.BalanceFailed? <==>
              cfg.wallet != "" && cfg.rpcUrl != "" && w.providerError.None? && w.balance.Fail?
    ensures ReportOf(cfg, w) == Halted(NoPositions) <==>
              cfg.wallet != "" && cfg.rpcUrl != "" && w.providerError.None? && w.balance == Ok([])
    ensures ReportOf(cfg, w) == Halted(NoActivePositions) <==>
              cfg.wallet != "" && cfg.rpcUrl != "" && w.providerError.None? && w.balance.Ok?
              && |w.balance.value| > 0 && Collect(w.balance.value, w.tokens) == []
  {
  }

  /** Every price either provider reports is non-negative. */
  ghost predicate QuotesNonNegative(w: World) {
    && (forall q: seq<Addr>, a: Addr :: a in w.primary(q) && w.primary(q)[a].Quote? && w.primary(q)[a].usd.Some?
          ==> w.primary(q)[a].usd.value >= 0.0)
    && (forall q: seq<Addr>, i ::
          0 <= i < |w.secondary(q)| && w.secondary(q)[i].1.Coin? && w.secondary(q)[i].1.price.Some?
          ==> w.secondary(q)[i].1.price.value >= 0.0)
  }

  lemma LlamaNonNegative(coins: seq<(string, LlamaCoin)>, a: Addr)
    requires forall i :: 0 <= i < |coins| && coins[i].1.Coin? && coins[i].1.price.Some? ==> coins[i].1.price.value >= 0.0
    requires a in LlamaPrices(coins)
    ensures LlamaPrices(coins)[a].Quote? && LlamaPrices(coins)[a].usd.Some? && LlamaPrices(coins)[a].usd.value >= 0.0
  {
    LlamaPricesLastWins(coins, a);
    LlamaPricesKeys(coins, a);
  }

  /** Every price the merged map yields is non-negative. */
  lemma PricesNonNegative(addresses: seq<Addr>, w: World, a: Addr)
    requires QuotesNonNegative(w)
    ensures var m := FetchPrices(addresses, w.primary, w.secondary).prices;
            PriceOf(m, a).Some? ==> PriceOf(m, a).value >= 0.0
  {
    var r := FetchPrices(addresses, w.primary, w.secondary);
    if |addresses| > 0 && a in r.prices {
      FetchPricesMerge(addresses, w.primary, w.secondary);
      var fromCg := w.primary(r.primaryQuery.value);
      if a !in fromCg {
        var coins := w.secondary(r.secondaryQuery.value);
        LlamaNonNegative(coins, a);
      }
    }
  }

  /** Fees are amounts scaled down, so never negative. */
  lemma CollectFeesNonNegative(slots: seq<Slot>, chain: Addr -> TokenReads, k: nat)
    requires k < |Collect(slots, chain)|
    ensures var e := Collect(slots, chain)[k];
            e.PositionEntry? ==> e.fees0 >= 0.0 && e.fees1 >= 0.0
  {
    CollectByIndex(slots, chain);
  }

  /** Non-negative fees valued at non-negative prices give only
      non-negative known values. */
  lemma ValuedAllNonNegative(ps: seq<Entry>, prices: map<Addr, Quote>,
                             getPool: (Addr, Addr, nat) -> Result<Addr>, slot0: Addr -> Result<int>)
    requires forall k :: 0 <= k < |ps| && ps[k].PositionEntry? ==> ps[k].fees0 >= 0.0 && ps[k].fees1 >= 0.0
    requires forall a :: PriceOf(prices, a).Some? ==> PriceOf(prices, a).value >= 0.0
    ensures SumKnown(ValuedAll(ps, prices, getPool, slot0)) >= 0.0
  {
    var vs := ValuedAll(ps, prices, getPool, slot0);
    forall k | 0 <= k < |vs|
      ensures Known(vs[k]) >= 0.0
    {
      var e := ps[k];
      if e.PositionEntry? {
        UsdValueNonNegative(e.fees0, PriceOf(prices, ToLower(e.token0)), e.fees1, PriceOf(prices, ToLower(e.token1)));
      }
    }
    SumKnownNonNegative(vs);
  }

  /** With non-negative quotes the title total is never negative. */
  lemma TotalNonNegative(cfg: Config, w: World)
    requires QuotesNonNegative(w)
    ensures TitleUsd(ReportOf(cfg, w)) >= 0.0
  {
    var r := ReportOf(cfg, w);
    if r.Done? {
      var slots := w.balance.value;
      var ps := Collect(slots, w.tokens);
      ReportOfDone(cfg, w, ps);
      var prices := FetchPrices(TokenAddrs(ps), w.primary, w.secondary).prices;
      forall k | 0 <= k < |ps| && ps[k].PositionEntry?
        ensures ps[k].fees0 >= 0.0 && ps[k].fees1 >= 0.0
      {
        CollectFeesNonNegative(slots, w.tokens, k);
      }
      forall a | PriceOf(prices, a).Some?
        ensures PriceOf(prices, a).value >= 0.0
      {
        PricesNonNegative(TokenAddrs(ps), w, a);
      }
      ValuedAllNonNegative(ps, prices, w.getPool, w.slot0);
    }
  }

  /** A wallet holding no positions stops with the no-positions message and
      a zero title. */
  lemma EmptyWallet(cfg: Config, w: World)
    requires cfg.wallet != "" && cfg.rpcUrl != "" && w.providerError.None? && w.balance == Ok([])
    ensures ReportOf(cfg, w) == Halted(NoPositions) && TitleUsd(ReportOf(cfg, w)) == 0.0
  {
  }

  /** A run that gets past every early stop reports the valuation of the
      collected entries. */
  lemma ReportOfDone(cfg: Config, w: World, ps: seq<Entry>)
    requires cfg.wallet != "" && cfg.rpcUrl != "" && w.providerError.None?
    requires w.balance.Ok? && |w.balance.value| > 0
    requires ps == Collect(w.balance.value, w.tokens) && |ps| > 0
    ensures var vs := ValuedAll(ps, FetchPrices(TokenAddrs(ps), w.primary, w.secondary).prices, w.getPool, w.slot0);
            ReportOf(cfg, w) == Done(vs, SumKnown(vs))
  {
  }

  /** What one visited slot contributes to `positions`. */
  function Contribution(o: Option<Entry>): seq<Entry> {
    if o.Some? then [o.value] else []
  }

  lemma FlattenOne(o: Option<Entry>)
    ensures Flatten([o]) == Contribution(o)
  {
    assert [o][..0] == [];
  }

  lemma CollectOne(s: Slot, chain: Addr -> TokenReads)
    ensures Collect([s], chain) == Contribution(StepAt(0, s, chain))
  {
    var os := Steps([s], chain);
    assert os == [StepAt(0, s, chain)];
    FlattenOne(os[0]);
  }

  lemma FlattenTwo(o0: Option<Entry>, o1: Option<Entry>)
    ensures Flatten([o0, o1]) == Contribution(o0) + Contribution(o1)
  {
    assert [o0, o1][..1] == [o0];
    FlattenOne(o0);
  }

  lemma CollectTwo(s0: Slot, s1: Slot, chain: Addr -> TokenReads)
    ensures Collect([s0, s1], chain) == Contribution(StepAt(0, s0, chain)) + Contribution(StepAt(1, s1, chain))
  {
    var os := Steps([s0, s1], chain);
    assert os == [StepAt(0, s0, chain), StepAt(1, s1, chain)];
    FlattenTwo(os[0], os[1]);
  }

  /** A kept position whose `collect` returned nothing has zero fees. */
  lemma ZeroFeesEntry(s: Slot, chain: Addr -> TokenReads)
    requires s.tokenId.Ok? && s.position.Ok? && s.collect == Ok(Collected(0, 0))
    requires StepAt(0, s, chain).Some?
    ensures StepAt(0, s, chain).value.PositionEntry?
    ensures StepAt(0, s, chain).value.fees0 == 0.0 && StepAt(0, s, chain).value.fees1 == 0.0
  {
  }

  lemma ValuedAllOne(e: Entry, prices: map<Addr, Quote>,
                     getPool: (Addr, Addr, nat) -> Result<Addr>, slot0: Addr -> Result<int>)
    ensures ValuedAll([e], prices, getPool, slot0) == [Valued(e, prices, getPool, slot0)]
  {
  }

  lemma ValuedAllTwo(e0: Entry, e1: Entry, prices: map<Addr, Quote>,
                     getPool: (Addr, Addr, nat) -> Result<Addr>, slot0: Addr -> Result<int>)
    ensures ValuedAll([e0, e1], prices, getPool, slot0)
              == [Valued(e0, prices, getPool, slot0), Valued(e1, prices, getPool, slot0)]
  {
  }

  lemma SumKnownTwo(e0: Entry, e1: Entry)
    ensures SumKnown([e0, e1]) == Known(e0) + Known(e1)
  {
    assert [e0, e1][..1] == [e0];
    SumKnownOne(e0);
  }

  /** A live position with no unclaimed fees is still listed, with fees `0`
      and no USD value (not a value of zero), and the total is zero. */
  lemma LiveWithoutFees(cfg: Config, w: World, id: nat, pos: RawPosition, trimNum: real -> string)
    requires cfg.wallet != "" && cfg.rpcUrl != "" && w.providerError.None?
    requires pos.liquidity > 0
    requires w.balance == Ok([Slot(Ok(id), Ok(pos), Ok(Collected(0, 0)))])
    ensures var r := ReportOf(cfg, w);
            && r.Done? && |r.positions| == 1 && r.positions[0].PositionEntry?
            && r.positions[0].tokenId == DecimalString(id)
            && r.positions[0].usd.None? && r.totalUsd == 0.0
            && FormatFees(r.positions[0].fees0, r.positions[0].sym0, r.positions[0].fees1,
                          r.positions[0].sym1, trimNum) == "0"
  {
    var s := w.balance.value[0];
    CollectOne(s, w.tokens);
    var e := StepAt(0, s, w.tokens).value;
    ZeroFeesEntry(s, w.tokens);
    var ps := [e];
    ReportOfDone(cfg, w, ps);
    var prices := FetchPrices(TokenAddrs(ps), w.primary, w.secondary).prices;
    var v := Valued(e, prices, w.getPool, w.slot0);
    ValuedAllOne(e, prices, w.getPool, w.slot0);
    SumKnownOne(v);
  }

  /** A failed read at index 0 leaves a placeholder first and the next
      position after it; the total is that position's value alone. */
  lemma FailureThenPosition(cfg: Config, w: World, m: Message, p0: Result<RawPosition>, c0: Result<Collected>,
                            good: Slot)
    requires cfg.wallet != "" && cfg.rpcUrl != "" && w.providerError.None?
    requires w.balance == Ok([Slot(Fail(m), p0, c0), good])
    requires StepAt(1, good, w.tokens).Some? && StepAt(1, good, w.tokens).value.PositionEntry?
    ensures var r := ReportOf(cfg, w);
            && r.Done? && |r.positions| == 2
            && r.positions[0] == ErrorEntry(ErrTokenId(0), m)
            && r.positions[1].PositionEntry?
            && r.totalUsd == Known(r.positions[1])
  {
    var s0 := w.balance.value[0];
    CollectTwo(s0, good, w.tokens);
    var e0 := ErrorEntry(ErrTokenId(0), m);
    var e1 := StepAt(1, good, w.tokens).value;
    assert StepAt(0, s0, w.tokens) == Some(e0);
    var ps := [e0, e1];
    assert Collect(w.balance.value, w.tokens) == ps;
    ReportOfDone(cfg, w, ps);
    var prices := FetchPrices(TokenAddrs(ps), w.primary, w.secondary).prices;
    var v1 := Valued(e1, prices, w.getPool, w.slot0);
    ValuedAllTwo(e0, e1, prices, w.getPool, w.slot0);
    var vs := ValuedAll(ps, prices, w.getPool, w.slot0);
    assert vs == [e0, v1];
    SumKnownTwo(e0, v1);
    assert ReportOf(cfg, w) == Done([e0, v1], Known(e0) + Known(v1));
  }
}
