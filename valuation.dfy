/** The valuation loop of `main`: for each retained position, look up the
    two token prices, compute its USD value (known or unknown), add known
    values to `totalUsd`, and ask `isInRange` for its range status, sharing
    one `poolTickCache` across positions. Also `formatFees`. */
module Valuation {
  import opened Base
  import opened Text
  import opened Prices
  import opened Range
  import opened Positions

  /** A price term counts when the price is known and the fees are positive. */
  predicate Counts(fees: real, price: Option<real>) {
    price.Some? && fees > 0.0
  }

  function Term(fees: real, price: Option<real>): real {
    if Counts(fees, price) then fees * price.value else 0.0
  }

  /** The `usd` / `hasUsd` computation: unknown when neither term counts,
      otherwise the sum of the terms that count. */
  function UsdValue(fees0: real, price0: Option<real>, fees1: real, price1: Option<real>): (r: Option<real>)
    ensures r.None? <==> !Counts(fees0, price0) && !Counts(fees1, price1)
    ensures r.Some? ==> r.value == Term(fees0, price0) + Term(fees1, price1)
  {
    var (usd, hasUsd) := if price0.Some? && fees0 > 0.0 then (fees0 * price0.value, true) else (0.0, false);
    var (usd', hasUsd') := if price1.Some? && fees1 > 0.0 then (usd + fees1 * price1.value, true) else (usd, hasUsd);
    if hasUsd' then Some(usd') else None
  }

  /** With non-negative fees and prices a known value is never negative. */
  lemma UsdValueNonNegative(fees0: real, price0: Option<real>, fees1: real, price1: Option<real>)
    requires fees0 >= 0.0 && fees1 >= 0.0
    requires price0.Some? ==> price0.value >= 0.0
    requires price1.Some? ==> price1.value >= 0.0
    ensures UsdValue(fees0, price0, fees1, price1).Some? ==> UsdValue(fees0, price0, fees1, price1).value >= 0.0
  {
    assert Term(fees0, price0) >= 0.0;
    assert Term(fees1, price1) >= 0.0;
  }

  /** A position after the valuation loop: only its `usd` and `inRange`
      change, its value is unknown exactly when neither price term counts;
      error entries are left as they are. */
  function Valued(e: Entry, prices: map<Addr, Quote>, getPool: (Addr, Addr, nat) -> Result<Addr>,
                  slot0: Addr -> Result<int>): (r: Entry)
    ensures e.ErrorEntry? ==> r == e
    ensures e.PositionEntry? ==> r.PositionEntry? && r.(usd := e.usd, inRange := e.inRange) == e
    ensures e.PositionEntry? ==>
              (r.usd.None? <==> !Counts(e.fees0, PriceOf(prices, ToLower(e.token0)))
                                && !Counts(e.fees1, PriceOf(prices, ToLower(e.token1))))
    // the USD value prices each side by its lower-cased address; the range
    // status reads the pool of the entry's own pair and fee tier
    ensures e.PositionEntry? ==>
              && r.usd == UsdValue(e.fees0, PriceOf(prices, ToLower(e.token0)),
                                   e.fees1, PriceOf(prices, ToLower(e.token1)))
              && r.inRange == RangeStatus(e.token0, e.token1, e.feeRaw, e.tickLower, e.tickUpper, getPool, slot0)
  {
    match e
    case ErrorEntry(_, _) => e
    case PositionEntry(_, _, _, _, _, _, _, _, _, _, _, _) =>
      e.(usd := UsdValue(e.fees0, PriceOf(prices, ToLower(e.token0)), e.fees1, PriceOf(prices, ToLower(e.token1))),
         inRange := RangeStatus(e.token0, e.token1, e.feeRaw, e.tickLower, e.tickUpper, getPool, slot0))
  }

  /** The `positions` array after the valuation loop: the same entries in
      the same order, placeholders untouched. */
  function ValuedAll(es: seq<Entry>, prices: map<Addr, Quote>, getPool: (Addr, Addr, nat) -> Result<Addr>,
                     slot0: Addr -> Result<int>): (r: seq<Entry>)
    ensures |r| == |es|
    ensures forall k :: 0 <= k < |es| ==> r[k].tokenId == es[k].tokenId && r[k].ErrorEntry? == es[k].ErrorEntry?
    ensures forall k :: 0 <= k < |es| && es[k].ErrorEntry? ==> r[k] == es[k]
    ensures forall k :: 0 <= k < |es| ==> r[k] == Valued(es[k], prices, getPool, slot0)
  {
    seq(|es|, k requires 0 <= k < |es| => Valued(es[k], prices, getPool, slot0))
  }

  /** What an entry adds to `totalUsd`. */
  function Known(e: Entry): real {
    if e.PositionEntry? && e.usd.Some? then e.usd.value else 0.0
  }

  /** The sum of the known USD values, in order. */
  function SumKnown(es: seq<Entry>): real {
    if |es| == 0 then 0.0 else SumKnown(es[..|es| - 1]) + Known(es[|es| - 1])
  }

  lemma {:induction false} SumKnownNonNegative(es: seq<Entry>)
    requires forall k :: 0 <= k < |es| ==> Known(es[k]) >= 0.0
    ensures SumKnown(es) >= 0.0
  {
    if |es| > 0 {
      SumKnownNonNegative(es[..|es| - 1]);
    }
  }

  lemma {:induction false} SumKnownAppend(a: seq<Entry>, b: seq<Entry>)
    ensures SumKnown(a + b) == SumKnown(a) + SumKnown(b)
    decreases |b|
  {
    if |b| == 0 {
      assert a + b == a;
    } else {
      var n := |b| - 1;
      SumKnownAppend(a, b[..n]);
      assert (a + b)[..|a + b| - 1] == a + b[..n];
    }
  }

  /** Error entries and entries of unknown value add nothing to the total. */
  lemma SumKnownSkips(a: seq<Entry>, e: Entry, b: seq<Entry>)
    requires e.ErrorEntry? || e.usd.None?
    ensures SumKnown(a + [e] + b) == SumKnown(a + b)
  {
    SumKnownAppend(a + [e], b);
    SumKnownAppend(a, [e]);
    SumKnownAppend(a, b);
    assert SumKnown([e]) == SumKnown([e][..0]) + Known(e);
  }

  lemma MultisetRemove(ys: seq<Entry>, j: nat)
    requires j < |ys|
    ensures multiset(ys) == multiset(ys[..j] + ys[j + 1..]) + multiset{ys[j]}
  {
    assert ys == ys[..j] + [ys[j]] + ys[j + 1..];
  }

  lemma MultisetCancel(a: multiset<Entry>, b: multiset<Entry>, x: Entry)
    requires a + multiset{x} == b + multiset{x}
    ensures a == b
  {
    forall e
      ensures a[e] == b[e]
    {
      assert (a + multiset{x})[e] == (b + multiset{x})[e];
    }
  }

  lemma SumKnownOne(e: Entry)
    ensures SumKnown([e]) == Known(e)
  {
    assert [e][..0] == [];
  }

  /** Taking one entry out of the sum. */
  lemma SumKnownRemove(ys: seq<Entry>, j: nat)
    requires j < |ys|
    ensures SumKnown(ys) == SumKnown(ys[..j] + ys[j + 1..]) + Known(ys[j])
  {
    var a, x, b := ys[..j], [ys[j]], ys[j + 1..];
    assert a + x == ys[..j + 1];
    assert ys[..j + 1] + b == ys;
    SumKnownAppend(a + x, b);
    SumKnownAppend(a, x);
    SumKnownAppend(a, b);
    SumKnownOne(ys[j]);
  }

  /** The total does not depend on the order of the entries: any
      rearrangement of them has the same total. */
  lemma {:induction false} SumKnownOrder(xs: seq<Entry>, ys: seq<Entry>)
    requires multiset(xs) == multiset(ys)
    ensures SumKnown(xs) == SumKnown(ys)
    decreases |xs|
  {
    if |xs| == 0 {
      assert |ys| == 0;
    } else {
      var n := |xs| - 1;
      var x := xs[n];
      assert x in multiset(ys) by {
        assert x in multiset(xs);
      }
      var j :| 0 <= j < |ys| && ys[j] == x;
      var rest := ys[..j] + ys[j + 1..];
      assert multiset(xs[..n]) == multiset(rest) by {
        MultisetRemove(xs, n);
        assert xs[..n] + xs[n + 1..] == xs[..n];
        MultisetRemove(ys, j);
        MultisetCancel(multiset(xs[..n]), multiset(rest), x);
      }
      SumKnownOrder(xs[..n], rest);
      SumKnownRemove(ys, j);
    }
  }

  /** No pool whose tick read succeeds appears twice among the reads. */
  ghost predicate TicksReadOnce(queries: seq<Addr>, slot0: Addr -> Result<int>) {
    forall i, j :: 0 <= i < j < |queries| && queries[i] == queries[j] ==> slot0(queries[i]).Fail?
  }

  /** The tick cache is sound, holds every pool whose tick read succeeded,
      and no such pool was read twice. */
  ghost predicate TickState(ticks: map<Addr, int>, done: seq<Addr>, slot0: Addr -> Result<int>) {
    && TickCacheSound(ticks, slot0)
    && (forall q :: 0 <= q < |done| && slot0(done[q]).Ok? ==> done[q] in ticks)
    && TicksReadOnce(done, slot0)
  }

  /** A range check that reads only an uncached pool, and caches what it
      read successfully, keeps the tick state. */
  lemma TickStateStep(ticks: map<Addr, int>, done: seq<Addr>, slot0: Addr -> Result<int>,
                      ticks': map<Addr, int>, queried: Option<Addr>)
    requires TickState(ticks, done, slot0)
    requires TickCacheSound(ticks', slot0)
    requires queried.None? ==> ticks' == ticks
    requires queried.Some? ==> queried.value !in ticks
    requires queried.Some? ==>
               ticks' == if slot0(queried.value).Ok? then ticks[queried.value := slot0(queried.value).value] else ticks
    ensures TickState(ticks', if queried.Some? then done + [queried.value] else done, slot0)
  {
  }

  /** The pool the range check of an entry looks at; error entries are
      skipped by the valuation loop and look at none. */
  function PoolOf(e: Entry, getPool: (Addr, Addr, nat) -> Result<Addr>): Option<Addr> {
    if e.PositionEntry? then ExistingPool(e.token0, e.token1, e.feeRaw, getPool) else None
  }

  /** Some entry's range check looks at pool `p`. */
  ghost predicate Pooled(es: seq<Entry>, getPool: (Addr, Addr, nat) -> Result<Addr>, p: Addr) {
    exists i :: 0 <= i < |es| && PoolOf(es[i], getPool) == Some(p)
  }

  /** `poolTickCache` and the pools whose `slot0()` was called, in order. */
  datatype Ticks = Ticks(cache: map<Addr, int>, calls: seq<Addr>)

  /** One range check on `pool`: an uncached pool is read, and stored when
      the read succeeds; a cached pool or no pool changes nothing. */
  function TickStep(t: Ticks, pool: Option<Addr>, slot0: Addr -> Result<int>): Ticks {
    if pool.Some? && pool.value !in t.cache then
      var p := pool.value;
      Ticks(if slot0(p).Ok? then t.cache[p := slot0(p).value] else t.cache, t.calls + [p])
    else t
  }

  /** The tick cache and the reads after the range checks of `es`, in order,
      starting from the empty cache. */
  function TickRun(es: seq<Entry>, getPool: (Addr, Addr, nat) -> Result<Addr>, slot0: Addr -> Result<int>): Ticks {
    if |es| == 0 then Ticks(map[], [])
    else TickStep(TickRun(es[..|es| - 1], getPool, slot0), PoolOf(es[|es| - 1], getPool), slot0)
  }

  lemma PooledSnoc(es: seq<Entry>, getPool: (Addr, Addr, nat) -> Result<Addr>, p: Addr)
    requires |es| > 0
    ensures Pooled(es, getPool, p) <==>
              Pooled(es[..|es| - 1], getPool, p) || PoolOf(es[|es| - 1], getPool) == Some(p)
  {
    var n := |es| - 1;
    if Pooled(es, getPool, p) && PoolOf(es[n], getPool) != Some(p) {
      var i :| 0 <= i < |es| && PoolOf(es[i], getPool) == Some(p);
      assert es[..n][i] == es[i];
    }
    if Pooled(es[..n], getPool, p) {
      var i :| 0 <= i < n && PoolOf(es[..n][i], getPool) == Some(p);
      assert es[i] == es[..n][i];
    }
  }

  /** The reads of a run keep the tick state: the cache is sound, holds
      every pool read successfully, and no such pool is read twice. */
  lemma {:induction false} TickRunState(es: seq<Entry>, getPool: (Addr, Addr, nat) -> Result<Addr>,
                                        slot0: Addr -> Result<int>)
    ensures TickState(TickRun(es, getPool, slot0).cache, TickRun(es, getPool, slot0).calls, slot0)
  {
    if |es| > 0 {
      var t := TickRun(es[..|es| - 1], getPool, slot0);
      TickRunState(es[..|es| - 1], getPool, slot0);
      var pool := PoolOf(es[|es| - 1], getPool);
      var queried := if pool.Some? && pool.value !in t.cache then pool else None;
      TickStateStep(t.cache, t.calls, slot0, TickStep(t, pool, slot0).cache, queried);
    }
  }

  /** Every pool some position looks at is read at least once, and it ends
      up cached exactly when its `slot0()` succeeds. */
  lemma {:induction false} TickRunContents(es: seq<Entry>, getPool: (Addr, Addr, nat) -> Result<Addr>,
                                           slot0: Addr -> Result<int>, p: Addr)
    ensures p in TickRun(es, getPool, slot0).calls <==> Pooled(es, getPool, p)
    ensures p in TickRun(es, getPool, slot0).cache <==> Pooled(es, getPool, p) && slot0(p).Ok?
  {
    if |es| > 0 {
      var n := |es| - 1;
      TickRunContents(es[..n], getPool, slot0, p);
      TickRunState(es[..n], getPool, slot0);
      PooledSnoc(es, getPool, p);
    }
  }

  /** The contents of the cache and of the reads after a whole run. */
  lemma TickRunKeys(es: seq<Entry>, getPool: (Addr, Addr, nat) -> Result<Addr>, slot0: Addr -> Result<int>)
    ensures forall p :: p in TickRun(es, getPool, slot0).cache <==> Pooled(es, getPool, p) && slot0(p).Ok?
    ensures forall p :: p in TickRun(es, getPool, slot0).calls <==> Pooled(es, getPool, p)
  {
    forall p {
      TickRunContents(es, getPool, slot0, p);
    }
  }

  /** Valuing one more entry of `ps` extends the valued prefix and its total. */
  lemma ValuedAllSnoc(ps: seq<Entry>, k: nat, prices: map<Addr, Quote>,
                      getPool: (Addr, Addr, nat) -> Result<Addr>, slot0: Addr -> Result<int>)
    requires k < |ps|
    ensures ValuedAll(ps[..k + 1], prices, getPool, slot0)
              == ValuedAll(ps[..k], prices, getPool, slot0) + [Valued(ps[k], prices, getPool, slot0)]
    ensures SumKnown(ValuedAll(ps[..k + 1], prices, getPool, slot0))
              == SumKnown(ValuedAll(ps[..k], prices, getPool, slot0)) + Known(Valued(ps[k], prices, getPool, slot0))
  {
    var vs := ValuedAll(ps[..k + 1], prices, getPool, slot0);
    assert vs[..k] == ValuedAll(ps[..k], prices, getPool, slot0);
  }

  /** The valuation loop's array after `k` passes: the first `k` entries
      valued, the rest as the position loop left them. */
  lemma ValuedUpdate(ps: seq<Entry>, k: nat, prices: map<Addr, Quote>,
                     getPool: (Addr, Addr, nat) -> Result<Addr>, slot0: Addr -> Result<int>, v: Entry)
    requires k < |ps|
    requires v == Valued(ps[k], prices, getPool, slot0)
    ensures (ValuedAll(ps[..k], prices, getPool, slot0) + ps[k..])[k := v]
              == ValuedAll(ps[..k + 1], prices, getPool, slot0) + ps[k + 1..]
  {
    ValuedAllSnoc(ps, k, prices, getPool, slot0);
    var lhs := (ValuedAll(ps[..k], prices, getPool, slot0) + ps[k..])[k := v];
    var rhs := ValuedAll(ps[..k + 1], prices, getPool, slot0) + ps[k + 1..];
    assert |lhs| == |rhs|;
    forall j | 0 <= j < |lhs|
      ensures lhs[j] == rhs[j]
    {
      if j > k {
        assert ps[k..][j - k] == ps[k + 1..][j - k - 1];
      }
    }
  }

  /** The valuation loop's array and total after one more pass. */
  lemma ValuateStep(ps: seq<Entry>, k: nat, prices: map<Addr, Quote>,
                    getPool: (Addr, Addr, nat) -> Result<Addr>, slot0: Addr -> Result<int>,
                    valued: seq<Entry>, total: real, v: Entry)
    requires k < |ps|
    requires valued == ValuedAll(ps[..k], prices, getPool, slot0) + ps[k..]
    requires total == SumKnown(ValuedAll(ps[..k], prices, getPool, slot0))
    requires v == Valued(ps[k], prices, getPool, slot0)
    ensures valued[k := v] == ValuedAll(ps[..k + 1], prices, getPool, slot0) + ps[k + 1..]
    ensures total + Known(v) == SumKnown(ValuedAll(ps[..k + 1], prices, getPool, slot0))
  {
    ValuedAllSnoc(ps, k, prices, getPool, slot0);
    ValuedUpdate(ps, k, prices, getPool, slot0, v);
  }

  /** The range checks of one more entry extend the run by its step. */
  lemma TickRunSnoc(ps: seq<Entry>, k: nat, getPool: (Addr, Addr, nat) -> Result<Addr>, slot0: Addr -> Result<int>)
    requires k < |ps|
    ensures TickRun(ps[..k + 1], getPool, slot0) == TickStep(TickRun(ps[..k], getPool, slot0), PoolOf(ps[k], getPool), slot0)
    ensures TickState(TickRun(ps[..k], getPool, slot0).cache, TickRun(ps[..k], getPool, slot0).calls, slot0)
  {
    assert ps[..k + 1][..k] == ps[..k];
    TickRunState(ps[..k], getPool, slot0);
  }

  /** One pass of the valuation loop's body: a placeholder is skipped;
      a position gets its value and range status, adds its known value to
      `totalUsd`, and its range check updates the tick cache and the reads
      exactly as the specification's step does. */
  method ValueEntry(p: Entry, priceMap: map<Addr, Quote>,
                    getPool: (Addr, Addr, nat) -> Result<Addr>, slot0: Addr -> Result<int>,
                    poolTickCache: map<Addr, int>, slot0Reads: seq<Addr>)
    returns (v: Entry, added: real, ticks: map<Addr, int>, calls: seq<Addr>)
    ensures TickCacheSound(poolTickCache, slot0) ==>
              v == Valued(p, priceMap, getPool, slot0) && TickCacheSound(ticks, slot0)
    ensures v.PositionEntry? == p.PositionEntry? && added == Known(v)
    ensures p.ErrorEntry? ==> v == p && ticks == poolTickCache && calls == slot0Reads
    ensures Ticks(ticks, calls) == TickStep(Ticks(poolTickCache, slot0Reads), PoolOf(p, getPool), slot0)
  {
    v, added, ticks, calls := p, 0.0, poolTickCache, slot0Reads;
    if p.ErrorEntry? {
      return;
    }
    var price0 := PriceOf(priceMap, ToLower(p.token0));
    var price1 := PriceOf(priceMap, ToLower(p.token1));
    var usd := UsdValue(p.fees0, price0, p.fees1, price1);
    if usd.Some? {
      added := usd.value;
    }
    var inRange, queried;
    inRange, ticks, queried := IsInRange(p.token0, p.token1, p.feeRaw, p.tickLower, p.tickUpper,
                                         getPool, slot0, poolTickCache);
    if queried.Some? {
      calls := calls + [queried.value];
    }
    v := p.(usd := usd, inRange := inRange);
  }

  /** The valuation loop. It assigns `usd` and `inRange` in place, entry by
      entry, and accumulates `totalUsd`; the result is the uncached
      valuation of every entry, the total is the sum of the known values.
      The cache and the `slot0()` reads are those of `TickRun`: every pool a
      position looks at is read, a pool's tick is read again only after a
      failed read, and the cache ends holding exactly the pools read
      successfully. */
  method Valuate(positions: seq<Entry>, priceMap: map<Addr, Quote>,
                 getPool: (Addr, Addr, nat) -> Result<Addr>, slot0: Addr -> Result<int>)
    returns (valued: seq<Entry>, totalUsd: real, poolTickCache: map<Addr, int>, slot0Reads: seq<Addr>)
    ensures valued == ValuedAll(positions, priceMap, getPool, slot0)
    ensures totalUsd == SumKnown(valued)
    ensures Ticks(poolTickCache, slot0Reads) == TickRun(positions, getPool, slot0)
    ensures TickCacheSound(poolTickCache, slot0)
    ensures TicksReadOnce(slot0Reads, slot0)
    ensures forall p :: p in poolTickCache <==> Pooled(positions, getPool, p) && slot0(p).Ok?
    ensures forall p :: p in slot0Reads <==> Pooled(positions, getPool, p)
  {
    valued, totalUsd, poolTickCache, slot0Reads := positions, 0.0, map[], [];
    var k := 0;
    assert positions[..0] == [] && positions[0..] == positions;
    while k < |positions|
      invariant 0 <= k <= |positions|
      invariant valued == ValuedAll(positions[..k], priceMap, getPool, slot0) + positions[k..]
      invariant totalUsd == SumKnown(ValuedAll(positions[..k], priceMap, getPool, slot0))
      invariant Ticks(poolTickCache, slot0Reads) == TickRun(positions[..k], getPool, slot0)
    {
      TickRunSnoc(positions, k, getPool, slot0);
      var p := valued[k];
      assert p == positions[k];
      var v, added;
      v, added, poolTickCache, slot0Reads := ValueEntry(p, priceMap, getPool, slot0, poolTickCache, slot0Reads);
      ValuateStep(positions, k, priceMap, getPool, slot0, valued, totalUsd, v);
      valued := valued[k := v];
      totalUsd := totalUsd + added;
      k := k + 1;
    }
    assert positions[..k] == positions;
    TickRunState(positions, getPool, slot0);
    TickRunKeys(positions, getPool, slot0);
  }

  /** `formatFees`, with `trimNum` (fixed-point rendering) as a parameter:
      `'0'` exactly when neither fee is positive; otherwise the positive
      parts, the token0 part first, joined by ` + `. */
  function FormatFees(fees0: real, sym0: string, fees1: real, sym1: string, trimNum: real -> string): (r: string)
    ensures r == "0" <==> !(fees0 > 0.0) && !(fees1 > 0.0)
    ensures fees0 > 0.0 && fees1 > 0.0 ==> r == trimNum(fees0) + " " + sym0 + " + " + trimNum(fees1) + " " + sym1
    ensures fees0 > 0.0 && !(fees1 > 0.0) ==> r == trimNum(fees0) + " " + sym0
    ensures !(fees0 > 0.0) && fees1 > 0.0 ==> r == trimNum(fees1) + " " + sym1
  {
    var parts := (if fees0 > 0.0 then [trimNum(fees0) + " " + sym0] else [])
                 + (if fees1 > 0.0 then [trimNum(fees1) + " " + sym1] else []);
    if |parts| == 0 then "0"
    else
      var first := if fees0 > 0.0 then trimNum(fees0) else trimNum(fees1);
      var r := if |parts| == 1 then parts[0] else parts[0] + " + " + parts[1];
      assert r[|first|] == ' ';
      r
  }
}
