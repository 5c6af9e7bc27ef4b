/** The position loop of `main`: for each index below the wallet's position
    count, read the token id and the position, simulate `collect` to learn
    the unclaimed fees, skip closed positions with nothing to collect,
    resolve token metadata and record the entry; any failure becomes an
    `err-i` placeholder and the loop goes on. */
module Positions {
  import opened Base
  import opened Text
  import opened Tokens

  /** 2^128 - 1, the ceiling asked for in both `amount0Max` and `amount1Max`
      of the simulated `collect`, so the amounts it returns never exceed it. */
  const MAX_UINT128: nat := 0xffff_ffff_ffff_ffff_ffff_ffff_ffff_ffff

  type U128 = x: nat | x <= MAX_UINT128

  /** The fields of `positions(tokenId)` the loop uses. */
  datatype RawPosition = RawPosition(token0: Addr, token1: Addr, fee: nat, tickLower: int,
                                     tickUpper: int, liquidity: U128)

  datatype Collected = Collected(amount0: U128, amount1: U128)

  /** What the chain answers at one index: `tokenOfOwnerByIndex`, then
      `positions` and `callStatic.collect` for that token id. */
  datatype Slot = Slot(tokenId: Result<nat>, position: Result<RawPosition>, collect: Result<Collected>)

  /** An entry of the `positions` array: an error placeholder, or a position
      whose `usd` and `inRange` the valuation loop fills in later. */
  datatype Entry =
    | ErrorEntry(tokenId: string, error: Message)
    | PositionEntry(tokenId: string, token0: Addr, token1: Addr, sym0: string, sym1: string,
                    feeRaw: nat, fees0: real, fees1: real, tickLower: int, tickUpper: int,
                    usd: Option<real>, inRange: Option<bool>)

  function Pow10(n: nat): (r: nat)
    ensures r >= 1
  {
    if n == 0 then 1 else 10 * Pow10(n - 1)
  }

  /** `parseFloat(formatUnits(raw, decimals))`, exactly: raw / 10^decimals. */
  function HumanAmount(raw: nat, decimals: nat): (r: real)
    ensures r >= 0.0 && (r > 0.0 <==> raw > 0)
  {
    raw as real / Pow10(decimals) as real
  }

  /** Scaling a human amount back by 10^decimals gives the raw amount. */
  lemma HumanAmountScales(raw: nat, decimals: nat)
    ensures HumanAmount(raw, decimals) * Pow10(decimals) as real == raw as real
  {
  }

  lemma HumanAmountExample()
    ensures HumanAmount(1500000, 6) == 1.5
  {
    assert Pow10(6) == 1000000 by {
      assert Pow10(3) == 1000;
    }
  }

  /** The fees are the amounts the `collect` simulation returns; a failed
      simulation counts as zero fees. */
  function CollectedFees(c: Result<Collected>): (f: Collected)
    ensures c.Ok? ==> f == c.value
    ensures c.Fail? ==> f == Collected(0, 0)
  {
    match c
    case Ok(v) => v
    case Fail(_) => Collected(0, 0)
  }

  /** The token id of the placeholder for index `i`. */
  function ErrTokenId(i: nat): (r: string)
    ensures |r| > 4 && r[..4] == "err-" && IsDigits(r[4..]) && DigitsValue(r[4..]) == i
  {
    var r := "err-" + DecimalString(i);
    assert r[4..] == DecimalString(i);
    r
  }

  /** A placeholder never carries the id of a real position, which is all
      digits. */
  lemma ErrTokenIdIsNotTokenId(i: nat, id: nat)
    ensures ErrTokenId(i) != DecimalString(id)
  {
    assert ErrTokenId(i)[0] == 'e';
  }

  /** What index `i` contributes: an error placeholder when a read fails,
      nothing when the position is closed and has nothing to collect, an
      entry otherwise. An index contributes nothing exactly when both reads
      succeed, the liquidity is zero and both fees are zero (a failed
      `collect` counting as zero fees); any failed read gives the `err-i`
      placeholder with its message; a retained position carries its token id
      in decimal and its two tokens, and has no value or range status yet. */
  function StepAt(i: nat, s: Slot, chain: Addr -> TokenReads): (r: Option<Entry>)
    ensures r.None? <==>
              s.tokenId.Ok? && s.position.Ok? && s.position.value.liquidity == 0
              && CollectedFees(s.collect) == Collected(0, 0)
    ensures s.tokenId.Fail? ==> r == Some(ErrorEntry(ErrTokenId(i), s.tokenId.message))
    ensures s.tokenId.Ok? && s.position.Fail? ==> r == Some(ErrorEntry(ErrTokenId(i), s.position.message))
    ensures s.tokenId.Ok? && s.position.Ok? && r.Some? ==> r.value.PositionEntry?
    ensures r.Some? && r.value.PositionEntry? ==>
              && s.tokenId.Ok? && s.position.Ok?
              && r.value.tokenId == DecimalString(s.tokenId.value)
              && r.value.token0 == s.position.value.token0 && r.value.token1 == s.position.value.token1
              && r.value.feeRaw == s.position.value.fee
              && r.value.tickLower == s.position.value.tickLower
              && r.value.tickUpper == s.position.value.tickUpper
              && r.value.usd.None? && r.value.inRange.None?
    // symbols and decimals come from each token's own reads, in pool order
    ensures r.Some? && r.value.PositionEntry? ==>
              var meta0 := ResolveMeta(r.value.token0, chain(r.value.token0));
              var meta1 := ResolveMeta(r.value.token1, chain(r.value.token1));
              && r.value.sym0 == meta0.symbol && r.value.sym1 == meta1.symbol
              && r.value.fees0 == HumanAmount(CollectedFees(s.collect).amount0, meta0.decimals)
              && r.value.fees1 == HumanAmount(CollectedFees(s.collect).amount1, meta1.decimals)
    // a failed fee simulation keeps a live position, with zero fees
    ensures r.Some? && r.value.PositionEntry? && s.collect.Fail? ==>
              r.value.fees0 == 0.0 && r.value.fees1 == 0.0
  {
    match s.tokenId
    case Fail(m) => Some(ErrorEntry(ErrTokenId(i), m))
    case Ok(id) =>
      match s.position
      case Fail(m) => Some(ErrorEntry(ErrTokenId(i), m))
      case Ok(pos) =>
        var fees := CollectedFees(s.collect);
        var hasFees := fees.amount0 != 0 || fees.amount1 != 0;
        if pos.liquidity == 0 && !hasFees then None
        else
          var meta0 := ResolveMeta(pos.token0, chain(pos.token0));
          var meta1 := ResolveMeta(pos.token1, chain(pos.token1));
          Some(PositionEntry(DecimalString(id), pos.token0, pos.token1, meta0.symbol, meta1.symbol,
                             pos.fee, HumanAmount(fees.amount0, meta0.decimals),
                             HumanAmount(fees.amount1, meta1.decimals),
                             pos.tickLower, pos.tickUpper, None, None))
  }

  /** What every index contributes, in order. */
  function Steps(slots: seq<Slot>, chain: Addr -> TokenReads): seq<Option<Entry>> {
    seq(|slots|, i requires 0 <= i < |slots| => StepAt(i, slots[i], chain))
  }

  /** The contributions that exist, in order. */
  function Flatten(os: seq<Option<Entry>>): seq<Entry> {
    if |os| == 0 then []
    else Flatten(os[..|os| - 1]) + (if os[|os| - 1].Some? then [os[|os| - 1].value] else [])
  }

  /** The indices of the contributions that exist, in order. */
  function Kept(os: seq<Option<Entry>>): seq<nat> {
    if |os| == 0 then []
    else Kept(os[..|os| - 1]) + (if os[|os| - 1].Some? then [|os| - 1] else [])
  }

  /** The `positions` array after the loop has visited every slot: never
      more entries than positions, each one the contribution of some index. */
  function Collect(slots: seq<Slot>, chain: Addr -> TokenReads): (r: seq<Entry>)
    ensures |r| <= |slots|
    ensures forall e :: e in r ==> exists i :: 0 <= i < |slots| && StepAt(i, slots[i], chain) == Some(e)
  {
    var os := Steps(slots, chain);
    FlattenByIndex(os);
    var es, ks := Flatten(os), Kept(os);
    assert forall e :: e in es ==> exists k :: 0 <= k < |es| && es[k] == e;
    assert forall k :: 0 <= k < |es| ==> os[ks[k]] == StepAt(ks[k], slots[ks[k]], chain);
    Flatten(os)
  }

  /** The indices that contribute an entry, in visiting order. */
  function KeptIndices(slots: seq<Slot>, chain: Addr -> TokenReads): seq<nat> {
    Kept(Steps(slots, chain))
  }

  lemma {:induction false} FlattenByIndex(os: seq<Option<Entry>>)
    ensures var es, ks := Flatten(os), Kept(os);
            && |es| == |ks| <= |os|
            && forall k :: 0 <= k < |ks| ==> ks[k] < |os| && os[ks[k]] == Some(es[k])
  {
    if |os| > 0 {
      var n := |os| - 1;
      var init := os[..n];
      FlattenByIndex(init);
      var es0, ks0 := Flatten(init), Kept(init);
      var es, ks := Flatten(os), Kept(os);
      assert es == es0 + (if os[n].Some? then [os[n].value] else []);
      assert ks == ks0 + (if os[n].Some? then [n] else []);
      forall k | 0 <= k < |ks|
        ensures ks[k] < |os| && os[ks[k]] == Some(es[k])
      {
        if k < |ks0| {
          assert ks[k] == ks0[k] && es[k] == es0[k];
          assert os[ks0[k]] == init[ks0[k]];
        } else {
          assert ks[k] == n && es[k] == os[n].value;
        }
      }
    }
  }

  lemma {:induction false} KeptOrdered(os: seq<Option<Entry>>)
    ensures forall k :: 0 <= k < |Kept(os)| ==> Kept(os)[k] < |os|
    ensures forall k, l :: 0 <= k < l < |Kept(os)| ==> Kept(os)[k] < Kept(os)[l]
    ensures forall i :: 0 <= i < |os| && os[i].Some? ==> i in Kept(os)
  {
    if |os| > 0 {
      var n := |os| - 1;
      var init := os[..n];
      KeptOrdered(init);
      var ks0, ks := Kept(init), Kept(os);
      assert ks == ks0 + (if os[n].Some? then [n] else []);
      assert |init| == n;
      forall k | 0 <= k < |ks|
        ensures ks[k] < |os|
      {
        if k < |ks0| {
          assert ks[k] == ks0[k];
        } else {
          assert |ks| == |ks0| + 1;
          assert ks[k] == n;
        }
      }
      forall k, l | 0 <= k < l < |ks|
        ensures ks[k] < ks[l]
      {
        if l < |ks0| {
          assert ks[k] == ks0[k] && ks[l] == ks0[l];
        } else {
          assert ks[k] == ks0[k] && ks0[k] < n && ks[l] == n;
        }
      }
      forall i | 0 <= i < |os| && os[i].Some?
        ensures i in ks
      {
        if i < n {
          assert os[i] == init[i];
          assert i in ks0;
        } else {
          assert i == n;
        }
      }
    }
  }

  /** The k-th entry is what the k-th kept index contributes, and there are
      never more entries than positions. */
  lemma CollectByIndex(slots: seq<Slot>, chain: Addr -> TokenReads)
    ensures var es, ks := Collect(slots, chain), KeptIndices(slots, chain);
            && |es| == |ks| <= |slots|
            && forall k :: 0 <= k < |ks| ==> ks[k] < |slots| && StepAt(ks[k], slots[ks[k]], chain) == Some(es[k])
  {
    var os := Steps(slots, chain);
    FlattenByIndex(os);
    var es, ks := Collect(slots, chain), KeptIndices(slots, chain);
    forall k | 0 <= k < |ks|
      ensures ks[k] < |slots| && StepAt(ks[k], slots[ks[k]], chain) == Some(es[k])
    {
      assert os[ks[k]] == StepAt(ks[k], slots[ks[k]], chain);
    }
  }

  /** Entries keep index order: kept indices strictly increase, and every
      index that contributes something is kept. */
  lemma KeptIndicesOrdered(slots: seq<Slot>, chain: Addr -> TokenReads)
    ensures var ks := KeptIndices(slots, chain);
            && (forall k :: 0 <= k < |ks| ==> ks[k] < |slots|)
            && (forall k, l :: 0 <= k < l < |ks| ==> ks[k] < ks[l])
            && (forall i :: 0 <= i < |slots| && StepAt(i, slots[i], chain).Some? ==> i in ks)
  {
    var os := Steps(slots, chain);
    KeptOrdered(os);
    assert |os| == |slots|;
    forall i | 0 <= i < |slots| && StepAt(i, slots[i], chain).Some?
      ensures i in KeptIndices(slots, chain)
    {
      assert os[i].Some?;
    }
  }

  /** `tokenAddrSet` after the loop: each retained position adds its two
      token addresses in lower case. */
  function TokenAddrs(es: seq<Entry>): (r: seq<Addr>)
    ensures NoDuplicates(r)
  {
    if |es| == 0 then []
    else
      var prev := TokenAddrs(es[..|es| - 1]);
      match es[|es| - 1]
      case ErrorEntry(_, _) => prev
      case PositionEntry(_, t0, t1, _, _, _, _, _, _, _, _, _) => SetAdd(SetAdd(prev, ToLower(t0)), ToLower(t1))
  }

  /** The entry is a retained position with token `a` (lower-cased). */
  predicate Mentions(e: Entry, a: Addr) {
    e.PositionEntry? && (a == ToLower(e.token0) || a == ToLower(e.token1))
  }

  /** The set holds exactly the lower-cased token addresses of the retained
      positions; error entries add nothing. */
  lemma {:induction false} TokenAddrsContents(es: seq<Entry>, a: Addr)
    ensures a in TokenAddrs(es) <==> exists k :: 0 <= k < |es| && Mentions(es[k], a)
  {
    if |es| > 0 {
      var n := |es| - 1;
      var init := es[..n];
      TokenAddrsContents(init, a);
      if Mentions(es[n], a) {
        assert a in TokenAddrs(es);
      } else {
        assert a in TokenAddrs(es) <==> a in TokenAddrs(init);
        if a in TokenAddrs(init) {
          var k :| 0 <= k < n && Mentions(init[k], a);
          assert es[k] == init[k];
        } else {
          forall k | 0 <= k < |es|
            ensures !Mentions(es[k], a)
          {
            if k < n {
              assert es[k] == init[k];
            } else {
              assert k == n;
            }
          }
        }
      }
    }
  }

  /** The addresses `tokenMetaCache` ends up holding (as read, not lower-cased). */
  function MetaKeys(es: seq<Entry>): set<Addr> {
    if |es| == 0 then {}
    else
      MetaKeys(es[..|es| - 1])
      + match es[|es| - 1] {
          case ErrorEntry(_, _) => {}
          case PositionEntry(_, t0, t1, _, _, _, _, _, _, _, _, _) => {t0, t1}
        }
  }

  /** One more visited index appends its contribution, if any. */
  lemma CollectSnoc(slots: seq<Slot>, i: nat, chain: Addr -> TokenReads)
    requires i < |slots|
    ensures var step := StepAt(i, slots[i], chain);
            Collect(slots[..i + 1], chain) == Collect(slots[..i], chain) + (if step.Some? then [step.value] else [])
  {
    var os := Steps(slots[..i + 1], chain);
    assert os[..i] == Steps(slots[..i], chain);
    assert os[i] == StepAt(i, slots[i], chain);
  }

  lemma AppendEntry(es: seq<Entry>, e: Entry)
    ensures TokenAddrs(es + [e]) == if e.ErrorEntry? then TokenAddrs(es)
                                    else SetAdd(SetAdd(TokenAddrs(es), ToLower(e.token0)), ToLower(e.token1))
    ensures MetaKeys(es + [e]) == if e.ErrorEntry? then MetaKeys(es) else MetaKeys(es) + {e.token0, e.token1}
  {
    assert (es + [e])[..|es|] == es;
  }

  /** The `try` block of one index: the entry it pushes (None when the
      position is skipped) and the metadata cache after it. Over a sound
      cache the entry is what `StepAt` says, and the cache stays sound and
      gains the two token addresses of a retained position. */
  method VisitIndex(i: nat, s: Slot, chain: Addr -> TokenReads, metaCache: map<Addr, TokenMeta>)
    returns (entry: Option<Entry>, metaCache': map<Addr, TokenMeta>)
    ensures MetaCacheSound(metaCache, chain) ==> entry == StepAt(i, s, chain) && MetaCacheSound(metaCache', chain)
    ensures metaCache'.Keys == if entry.Some? && entry.value.PositionEntry?
                               then metaCache.Keys + {entry.value.token0, entry.value.token1}
                               else metaCache.Keys
  {
    metaCache' := metaCache;
    if s.tokenId.Fail? {
      return Some(ErrorEntry(ErrTokenId(i), s.tokenId.message)), metaCache';
    }
    if s.position.Fail? {
      return Some(ErrorEntry(ErrTokenId(i), s.position.message)), metaCache';
    }
    var id, pos := s.tokenId.value, s.position.value;
    var fees: Collected;
    match s.collect {
      case Ok(c) => fees := c;
      case Fail(_) => fees := Collected(0, 0);
    }
    var hasFees := fees.amount0 != 0 || fees.amount1 != 0;
    if pos.liquidity == 0 && !hasFees {
      return None, metaCache';
    }
    var meta0, meta1, q0, q1;
    meta0, metaCache', q0 := GetTokenMeta(metaCache', pos.token0, chain);
    meta1, metaCache', q1 := GetTokenMeta(metaCache', pos.token1, chain);
    var fees0 := HumanAmount(fees.amount0, meta0.decimals);
    var fees1 := HumanAmount(fees.amount1, meta1.decimals);
    entry := Some(PositionEntry(DecimalString(id), pos.token0, pos.token1, meta0.symbol,
                                meta1.symbol, pos.fee, fees0, fees1, pos.tickLower,
                                pos.tickUpper, None, None));
  }

  /** The loop of `main` over the position indices. It pushes onto
      `positions`, adds to `tokenAddrSet` and fills `tokenMetaCache`; its
      result is the uncached `Collect`, and the cache it leaves behind is
      sound and keyed by the retained positions' tokens. */
  method CollectPositions(slots: seq<Slot>, chain: Addr -> TokenReads)
    returns (positions: seq<Entry>, tokenAddrSet: seq<Addr>, metaCache: map<Addr, TokenMeta>)
    ensures positions == Collect(slots, chain)
    ensures tokenAddrSet == TokenAddrs(positions)
    ensures MetaCacheSound(metaCache, chain) && metaCache.Keys == MetaKeys(positions)
  {
    positions, tokenAddrSet, metaCache := [], [], map[];
    var i := 0;
    while i < |slots|
      invariant 0 <= i <= |slots|
      invariant positions == Collect(slots[..i], chain)
      invariant tokenAddrSet == TokenAddrs(positions)
      invariant MetaCacheSound(metaCache, chain) && metaCache.Keys == MetaKeys(positions)
    {
      CollectSnoc(slots, i, chain);
      var entry;
      entry, metaCache := VisitIndex(i, slots[i], chain, metaCache);
      if entry.Some? {
        var e := entry.value;
        if e.PositionEntry? {
          tokenAddrSet := SetAdd(SetAdd(tokenAddrSet, ToLower(e.token0)), ToLower(e.token1));
        }
        AppendEntry(positions, e);
        positions := positions + [e];
      }
      i := i + 1;
    }
    assert slots[..|slots|] == slots;
  }
}
