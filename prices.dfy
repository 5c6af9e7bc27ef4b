/** `fetchPrices` and the response handling of its two providers. A
    provider is a function from the list of addresses it is asked about to
    its parsed response, the empty one on any transport or parse failure:
    the primary (CoinGecko) answers with its JSON object, the secondary
    (DefiLlama) with the entries of its `coins` object. */
module Prices {
  import opened Base
  import opened Text

  /** A value of a price object: a falsy JSON value (null, 0, "", false), or
      a truthy one whose `usd` member is a number or not. */
  datatype Quote = Blank | Quote(usd: Option<real>)

  /** A value of DefiLlama's `coins` object: falsy, or an object whose
      `price` member is a number or not. */
  datatype LlamaCoin = NoCoin | Coin(price: Option<real>)

  /** `priceMap[a]` is truthy. */
  predicate PricedBy(m: map<Addr, Quote>, a: Addr) {
    a in m && m[a].Quote?
  }

  /** `priceMap[a] && typeof priceMap[a].usd === 'number' ? priceMap[a].usd : null` */
  function PriceOf(m: map<Addr, Quote>, a: Addr): (r: Option<real>)
    ensures r.Some? <==> PricedBy(m, a) && m[a].usd.Some?
    ensures r.Some? ==> r.value == m[a].usd.value
  {
    if PricedBy(m, a) then m[a].usd else None
  }

  /** `addresses.map((a) => a.toLowerCase())`: every address in canonical
      form, which lower-casing again leaves as it is. */
  function Lowered(xs: seq<Addr>): (r: seq<Addr>)
    ensures |r| == |xs| && forall k :: 0 <= k < |xs| ==> r[k] == ToLower(xs[k])
    ensures forall a :: a in r ==> ToLower(a) == a
  {
    forall k | 0 <= k < |xs| {
      ToLowerIdempotent(xs[k]);
    }
    seq(|xs|, k requires 0 <= k < |xs| => ToLower(xs[k]))
  }

  /** `uniq.filter((a) => !fromCg[a])`: the addresses the primary did not
      price, in order. */
  function Missing(uniq: seq<Addr>, fromCg: map<Addr, Quote>): (r: seq<Addr>)
    ensures forall a :: a in r <==> a in uniq && !PricedBy(fromCg, a)
    ensures NoDuplicates(uniq) ==> NoDuplicates(r)
  {
    if |uniq| == 0 then []
    else
      var rest := Missing(uniq[..|uniq| - 1], fromCg);
      var a := uniq[|uniq| - 1];
      assert uniq == uniq[..|uniq| - 1] + [a];
      if PricedBy(fromCg, a) then rest else rest + [a]
  }

  /** The chain prefix DefiLlama coin keys carry (`ethereum:${a}`). */
  const ChainPrefix: string := "ethereum"

  /** `k.split(':')[1]?.toLowerCase()`, where an undefined or empty result
      means the entry is dropped. */
  function LlamaKey(k: string): (r: Option<Addr>)
    ensures r.Some? <==> |Split(k, ':')| >= 2 && Split(k, ':')[1] != []
    ensures r.Some? ==> r.value == ToLower(Split(k, ':')[1]) && r.value != []
  {
    var parts := Split(k, ':');
    if |parts| < 2 || parts[1] == [] then None else Some(ToLower(parts[1]))
  }

  /** A key without `:` has no second piece and is dropped. */
  lemma LlamaKeyNoColon(k: string)
    requires ':' !in k
    ensures LlamaKey(k) == None
  {
    assert Split(k, ':') == [k];
  }

  /** For any chain prefix without `:`, the key is what follows the first
      `:` up to the next one, lower-cased; an empty piece is dropped. */
  lemma LlamaKeyAfterPrefix(p: string, q: string)
    requires ':' !in p
    ensures var piece := Split(q, ':')[0];
            LlamaKey(p + [':'] + q) == if piece == [] then None else Some(ToLower(piece))
  {
    SplitAfterFirst(p, ':', q);
  }

  /** The key of the coin asked for as `ethereum:${a}` is `a` in lower case. */
  lemma LlamaKeyOfQuery(a: Addr)
    requires a != [] && ':' !in a
    ensures LlamaKey(ChainPrefix + [':'] + a) == Some(ToLower(a))
  {
    SplitAfterFirst(ChainPrefix, ':', a);
    assert Split(a, ':') == [a];
  }

  /** The entry at index `i` sets the price of `a`. */
  predicate LlamaEntryFor(coins: seq<(string, LlamaCoin)>, i: nat, a: Addr)
    requires i < |coins|
  {
    LlamaKey(coins[i].0) == Some(a) && coins[i].1.Coin? && coins[i].1.price.Some?
  }

  /** The map built from DefiLlama's entries in order: entries without a key
      or without a numeric price are dropped, a later entry overwrites an
      earlier one. */
  function LlamaPrices(coins: seq<(string, LlamaCoin)>): (r: map<Addr, Quote>)
    ensures forall a :: a in r ==> a != [] && r[a].Quote? && r[a].usd.Some?
  {
    if |coins| == 0 then map[]
    else
      var out := LlamaPrices(coins[..|coins| - 1]);
      var (k, v) := coins[|coins| - 1];
      match LlamaKey(k)
      case Some(a) => if v.Coin? && v.price.Some? then out[a := Quote(v.price)] else out
      case None => out
  }

  /** What the last entry does to the price of `a`: sets it when it prices
      `a`, and leaves it as the earlier entries made it otherwise. */
  lemma LlamaPricesLast(coins: seq<(string, LlamaCoin)>, a: Addr)
    requires |coins| > 0
    ensures var n := |coins| - 1;
            var before, after := LlamaPrices(coins[..n]), LlamaPrices(coins);
            && (LlamaEntryFor(coins, n, a) ==> a in after && after[a] == Quote(coins[n].1.price))
            && (!LlamaEntryFor(coins, n, a) ==> (a in after <==> a in before) && (a in before ==> after[a] == before[a]))
  {
  }

  /** Every value DefiLlama contributes is numeric, and an address is in the
      map exactly when some entry prices it. */
  lemma {:induction false} LlamaPricesKeys(coins: seq<(string, LlamaCoin)>, a: Addr)
    ensures a in LlamaPrices(coins) ==> LlamaPrices(coins)[a].Quote? && LlamaPrices(coins)[a].usd.Some?
    ensures a in LlamaPrices(coins) <==> exists i :: 0 <= i < |coins| && LlamaEntryFor(coins, i, a)
  {
    if |coins| > 0 {
      var n := |coins| - 1;
      var init := coins[..n];
      LlamaPricesKeys(init, a);
      LlamaPricesLast(coins, a);
      if LlamaEntryFor(coins, n, a) {
        assert a in LlamaPrices(coins);
      } else {
        if a in LlamaPrices(coins) {
          var i :| 0 <= i < n && LlamaEntryFor(init, i, a);
          assert coins[i] == init[i];
          assert LlamaEntryFor(coins, i, a);
        }
        if exists i :: 0 <= i < |coins| && LlamaEntryFor(coins, i, a) {
          var i :| 0 <= i < |coins| && LlamaEntryFor(coins, i, a);
          assert i != n;
          assert coins[i] == init[i];
          assert LlamaEntryFor(init, i, a);
        }
      }
    }
  }

  /** The price kept for an address is that of the LAST entry pricing it. */
  lemma {:induction false} LlamaPricesLastWins(coins: seq<(string, LlamaCoin)>, a: Addr)
    requires a in LlamaPrices(coins)
    ensures exists i :: 0 <= i < |coins| && LlamaEntryFor(coins, i, a)
                        && LlamaPrices(coins)[a] == Quote(coins[i].1.price)
                        && forall j :: i < j < |coins| ==> !LlamaEntryFor(coins, j, a)
  {
    var n := |coins| - 1;
    var init := coins[..n];
    LlamaPricesLast(coins, a);
    if LlamaEntryFor(coins, n, a) {
      assert LlamaPrices(coins)[a] == Quote(coins[n].1.price);
    } else {
      assert a in LlamaPrices(init);
      LlamaPricesLastWins(init, a);
      var i :| 0 <= i < n && LlamaEntryFor(init, i, a)
               && LlamaPrices(init)[a] == Quote(init[i].1.price)
               && forall j :: i < j < n ==> !LlamaEntryFor(init, j, a);
      assert coins[i] == init[i];
      forall j | i < j < |coins|
        ensures !LlamaEntryFor(coins, j, a)
      {
        if j < n {
          assert coins[j] == init[j];
          assert !LlamaEntryFor(init, j, a);
        } else {
          assert j == n;
        }
      }
      assert LlamaPrices(coins)[a] == Quote(coins[i].1.price);
    }
  }

  /** The loop of `fetchFromLlama` that builds `out` from `json.coins`. */
  method NormalizeLlama(coins: seq<(string, LlamaCoin)>) returns (out: map<Addr, Quote>)
    ensures out == LlamaPrices(coins)
  {
    out := map[];
    for i := 0 to |coins|
      invariant out == LlamaPrices(coins[..i])
    {
      assert coins[..i + 1][..i] == coins[..i];
      var (k, v) := coins[i];
      var addr := LlamaKey(k);
      if addr.None? || !v.Coin? || v.price.None? {
        continue;
      }
      out := out[addr.value := Quote(v.price)];
    }
    assert coins[..|coins|] == coins;
  }

  /** What `fetchPrices` returns, with the two queries it issued (None: that
      provider was not called). */
  datatype PriceFetch = PriceFetch(prices: map<Addr, Quote>, primaryQuery: Option<seq<Addr>>,
                                   secondaryQuery: Option<seq<Addr>>)

  /** `fetchPrices(addresses)`: lower-case and de-duplicate; ask the primary
      about all of them; ask the secondary only about those the primary did
      not price, and only if there are any; merge with `{...fromLlama,
      ...fromCg}`. */
  function FetchPrices(addresses: seq<Addr>, primary: seq<Addr> -> map<Addr, Quote>,
                       secondary: seq<Addr> -> seq<(string, LlamaCoin)>): (r: PriceFetch)
    ensures r.primaryQuery.None? <==> |addresses| == 0
    ensures r.primaryQuery.None? ==> r.secondaryQuery.None? && r.prices == map[]
    ensures r.primaryQuery.Some? ==>
              NoDuplicates(r.primaryQuery.value)
              && forall a :: a in r.primaryQuery.value <==> a in Lowered(addresses)
  {
    var uniq := Unique(Lowered(addresses));
    assert |addresses| > 0 ==> Lowered(addresses)[0] in uniq;
    if |uniq| == 0 then
      PriceFetch(map[], None, None)
    else
      var fromCg := primary(uniq);
      var missing := Missing(uniq, fromCg);
      if |missing| == 0 then PriceFetch(fromCg, Some(uniq), None)
      else PriceFetch(LlamaPrices(secondary(missing)) + fromCg, Some(uniq), Some(missing))
  }

  /** The two queries and the precedence of the merge: the primary is asked
      about the normalised addresses; the secondary exactly about those the
      primary left unpriced, and not at all when there are none; every entry
      of the primary's answer is kept as it is; every price of the
      secondary's answer fills the gap of an address the primary did not
      answer, and nothing else enters the result. */
  lemma FetchPricesMerge(addresses: seq<Addr>, primary: seq<Addr> -> map<Addr, Quote>,
                         secondary: seq<Addr> -> seq<(string, LlamaCoin)>)
    requires |addresses| > 0
    ensures var r := FetchPrices(addresses, primary, secondary);
            var fromCg := primary(r.primaryQuery.value);
            && (r.secondaryQuery.None? <==> forall a :: a in r.primaryQuery.value ==> PricedBy(fromCg, a))
            && (r.secondaryQuery.Some? ==>
                  NoDuplicates(r.secondaryQuery.value)
                  && forall a :: a in r.secondaryQuery.value <==> a in Lowered(addresses) && !PricedBy(fromCg, a))
            && (forall a :: a in fromCg ==> a in r.prices && r.prices[a] == fromCg[a])
            && (forall a :: a in r.prices && a !in fromCg ==>
                  r.secondaryQuery.Some? && a in LlamaPrices(secondary(r.secondaryQuery.value))
                  && r.prices[a] == LlamaPrices(secondary(r.secondaryQuery.value))[a])
            && (r.secondaryQuery.Some? ==>
                  forall a :: a !in fromCg && a in LlamaPrices(secondary(r.secondaryQuery.value)) ==>
                    a in r.prices && r.prices[a] == LlamaPrices(secondary(r.secondaryQuery.value))[a])
            && (r.secondaryQuery.None? ==> r.prices == fromCg)
  {
    var r := FetchPrices(addresses, primary, secondary);
    var uniq := Unique(Lowered(addresses));
    assert Lowered(addresses)[0] in uniq;
    var missing := Missing(uniq, primary(uniq));
    if |missing| > 0 {
      assert missing[0] in missing;
    }
  }

  /** A primary entry that is present but falsy counts as unpriced, so the
      secondary is asked about it, yet the merge keeps the falsy primary
      value and the address stays without a price. */
  lemma BlankPrimaryWinsMerge(addresses: seq<Addr>, primary: seq<Addr> -> map<Addr, Quote>,
                              secondary: seq<Addr> -> seq<(string, LlamaCoin)>, a: Addr)
    requires a in Lowered(addresses)
    requires var q := Unique(Lowered(addresses)); a in primary(q) && primary(q)[a] == Blank
    ensures var r := FetchPrices(addresses, primary, secondary);
            r.secondaryQuery.Some? && a in r.secondaryQuery.value && PriceOf(r.prices, a).None?
  {
    FetchPricesMerge(addresses, primary, secondary);
  }
}
