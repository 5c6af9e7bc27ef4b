/** `getTokenMeta`: symbol and decimals of an ERC-20 token, read once per
    address and kept in `tokenMetaCache` for the rest of the run. The two
    chain reads are inputs: for each address, what `symbol()` and
    `decimals()` return or the failure they raise. */
module Tokens {
  import opened Base
  import opened Text

  type Uint8 = x: nat | x < 256

  datatype TokenMeta = TokenMeta(symbol: string, decimals: nat)
  datatype TokenReads = TokenReads(symbol: Result<string>, decimals: Result<Uint8>)

  /** Decimals assumed when `decimals()` cannot be read. */
  const DefaultDecimals: nat := 18

  /** What a fresh lookup of `addr` yields: a failed `symbol()` falls back to
      the shortened address, a failed `decimals()` to 18. */
  function ResolveMeta(addr: Addr, answers: TokenReads): (r: TokenMeta)
    ensures r.symbol == (if answers.symbol.Ok? then answers.symbol.value else Shorten(addr))
    ensures answers.decimals.Fail? ==> r.decimals == 18
    ensures answers.decimals.Ok? ==> r.decimals == answers.decimals.value < 256
  {
    TokenMeta(
      match answers.symbol { case Ok(s) => s case Fail(_) => Shorten(addr) },
      match answers.decimals { case Ok(d) => d case Fail(_) => DefaultDecimals })
  }

  /** Every cached entry is what a fresh lookup of its address gives. */
  ghost predicate MetaCacheSound(cache: map<Addr, TokenMeta>, chain: Addr -> TokenReads) {
    forall a :: a in cache ==> cache[a] == ResolveMeta(a, chain(a))
  }

  /** `getTokenMeta(addr)`. A cached address is answered from the cache and
      no call is made (`queried` is false); otherwise both reads are made,
      their fallbacks applied, and the result stored. Over a sound cache the
      answer is always that of a fresh lookup. */
  method GetTokenMeta(cache: map<Addr, TokenMeta>, addr: Addr, chain: Addr -> TokenReads)
    returns (meta: TokenMeta, cache': map<Addr, TokenMeta>, queried: bool)
    ensures queried <==> addr !in cache
    ensures !queried ==> meta == cache[addr] && cache' == cache
    ensures queried ==> cache' == cache[addr := meta]
    ensures queried ==> meta.symbol == (if chain(addr).symbol.Ok? then chain(addr).symbol.value else Shorten(addr))
    ensures queried ==> meta.decimals == (if chain(addr).decimals.Ok? then chain(addr).decimals.value else 18)
    ensures MetaCacheSound(cache, chain) ==> MetaCacheSound(cache', chain) && meta == ResolveMeta(addr, chain(addr))
  {
    if addr in cache {
      return cache[addr], cache, false;
    }
    var answers := chain(addr);
    var symbol: string;
    var decimals: nat := DefaultDecimals;
    match answers.symbol {
      case Ok(s) => symbol := s;
      case Fail(_) => symbol := Shorten(addr);
    }
    match answers.decimals {
      case Ok(d) => decimals := d;
      case Fail(_) => decimals := DefaultDecimals;
    }
    meta := TokenMeta(symbol, decimals);
    cache' := cache[addr := meta];
    queried := true;
  }
}
