/** `isInRange` and the range label / colour of the report line. The
    factory's `getPool` and the pool's `slot0().tick` are inputs: what each
    returns, or the failure it raises. The tri-state result is
    `Option<bool>`, None standing for `null`. */
module Range {
  import opened Base


  const AddressZero: Addr := "0x0000000000000000000000000000000000000000"

  /** `poolAddr && poolAddr !== ethers.constants.AddressZero` */
  predicate PoolExists(pool: Addr) {
    pool != "" && pool != AddressZero
  }

  /** The range status of a position, computed without a cache: unknown when
      the pool lookup fails, returns no pool, or the tick cannot be read;
      otherwise whether the tick lies within the inclusive bounds. */
  function RangeStatus(token0: Addr, token1: Addr, fee: nat, tickLower: int, tickUpper: int,
                       getPool: (Addr, Addr, nat) -> Result<Addr>, slot0: Addr -> Result<int>): (r: Option<bool>)
    ensures r.Some? <==> getPool(token0, token1, fee).Ok? && PoolExists(getPool(token0, token1, fee).value)
                         && slot0(getPool(token0, token1, fee).value).Ok?
    ensures r == Some(true) <==> r.Some? && tickLower <= slot0(getPool(token0, token1, fee).value).value <= tickUpper
  {
    match getPool(token0, token1, fee)
    case Fail(_) => None
    case Ok(pool) =>
      if !PoolExists(pool) then None
      else match slot0(pool)
        case Fail(_) => None
        case Ok(tick) => Some(tick >= tickLower && tick <= tickUpper)
  }

  /** The pool a range check looks at: `getPool`'s answer, when the call
      succeeds and the address is neither empty nor zero. */
  function ExistingPool(token0: Addr, token1: Addr, fee: nat, getPool: (Addr, Addr, nat) -> Result<Addr>): (r: Option<Addr>)
    ensures r.Some? ==> getPool(token0, token1, fee) == Ok(r.value) && r.value != AddressZero && r.value != ""
    ensures r.None? <==> getPool(token0, token1, fee).Fail? || getPool(token0, token1, fee).value in {"", AddressZero}
  {
    var found := getPool(token0, token1, fee);
    if found.Ok? && PoolExists(found.value) then Some(found.value) else None
  }

  /** Every cached tick is what `slot0()` returns for its pool. */
  ghost predicate TickCacheSound(ticks: map<Addr, int>, slot0: Addr -> Result<int>) {
    forall p :: p in ticks ==> slot0(p) == Ok(ticks[p])
  }

  /** `isInRange(p, factory, provider, poolTickCache)`. The pool's tick is
      read exactly when the pool exists and is not in the cache (`queried`
      names the pool read), and stored exactly when the read succeeds. Over
      a sound cache the answer is the uncached range status. */
  method IsInRange(token0: Addr, token1: Addr, fee: nat, tickLower: int, tickUpper: int,
                   getPool: (Addr, Addr, nat) -> Result<Addr>, slot0: Addr -> Result<int>,
                   ticks: map<Addr, int>)
    returns (r: Option<bool>, ticks': map<Addr, int>, queried: Option<Addr>)
    ensures TickCacheSound(ticks, slot0) ==>
              r == RangeStatus(token0, token1, fee, tickLower, tickUpper, getPool, slot0)
              && TickCacheSound(ticks', slot0)
    ensures var pool := ExistingPool(token0, token1, fee, getPool);
            queried == if pool.Some? && pool.value !in ticks then pool else None
    ensures queried.None? ==> ticks' == ticks
    ensures queried.Some? ==> getPool(token0, token1, fee) == Ok(queried.value) && queried.value !in ticks
    ensures queried.Some? ==>
              ticks' == if slot0(queried.value).Ok? then ticks[queried.value := slot0(queried.value).value] else ticks
  {
    ticks', queried := ticks, None;
    var found := getPool(token0, token1, fee);
    if found.Fail? {
      return None, ticks', queried;
    }
    var pool := found.value;
    if !PoolExists(pool) {
      return None, ticks', queried;
    }
    if pool !in ticks' {
      queried := Some(pool);
      var read := slot0(pool);
      if read.Fail? {
        return None, ticks', queried;
      }
      ticks' := ticks'[pool := read.value];
    }
    var tick := ticks'[pool];
    r := Some(tick >= tickLower && tick <= tickUpper);
  }

  /** The two worked cases of a position spanning ticks -100..100, and a
      pair with no pool. */
  lemma RangeExamples(getPool: (Addr, Addr, nat) -> Result<Addr>, slot0: Addr -> Result<int>,
                      token0: Addr, token1: Addr, fee: nat)
    requires getPool(token0, token1, fee).Ok? && PoolExists(getPool(token0, token1, fee).value)
    ensures var pool := getPool(token0, token1, fee).value;
            && (slot0(pool) == Ok(0) ==> RangeStatus(token0, token1, fee, -100, 100, getPool, slot0) == Some(true))
            && (slot0(pool) == Ok(150) ==> RangeStatus(token0, token1, fee, -100, 100, getPool, slot0) == Some(false))
            && RangeStatus(token0, token1, fee, -100, 100,
                           (a: Addr, b: Addr, f: nat) => Ok(AddressZero), slot0) == None
  {
  }

  /** `rangeLabel`: `RANGE ?` for unknown, `IN RANGE`, `OUT RANGE`. */
  function RangeLabel(status: Option<bool>): (r: string)
    ensures r == "RANGE ?" <==> status.None?
    ensures r == "IN RANGE" <==> status == Some(true)
    ensures r == "OUT RANGE" <==> status == Some(false)
  {
    match status
    case None => "RANGE ?"
    case Some(b) => if b then "IN RANGE" else "OUT RANGE"
  }

  /** `color`: gray for unknown, green in range, orange out of range. */
  function RangeColour(status: Option<bool>): (r: string)
    ensures r == "gray" <==> status.None?
    ensures r == "green" <==> status == Some(true)
    ensures r == "orange" <==> status == Some(false)
  {
    match status
    case None => "gray"
    case Some(b) => if b then "green" else "orange"
  }

  /** The three states get three different labels and three different
      colours, so the report line tells them apart. */
  lemma RangeDisplayDistinct(s: Option<bool>, t: Option<bool>)
    requires s != t
    ensures RangeLabel(s) != RangeLabel(t) && RangeColour(s) != RangeColour(t)
  {
  }
}
