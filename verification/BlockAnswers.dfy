/** When a read of the cached object fails, and when it may return wrong bytes: in terms of the answers alone. */
module BlockAnswers {
  import opened Arithmetic
  import opened Blocks
  import opened BlockCache

  /** Number of bytes in block idx; the last block may be short. */
  function BlockBytes(cfg: Config, idx: nat): int
  {
    if idx * cfg.blocksize + cfg.blocksize <= cfg.Size() then cfg.blocksize else cfg.Size() - idx * cfg.blocksize
  }

  /** No body, a body of the wrong length that ends in a read error,
      or a body of the right length that is not written. */
  predicate Errs(cfg: Config, idx: nat, r: Response)
  {
    match r
    case TransportError => true
    case BadStatus => true
    case OptionError => true
    case Body(buf, readFailed, written) => if |buf| == BlockBytes(cfg, idx) then written.WriteFailed? else readFailed
  }

  /** A body of the wrong length without a read error. */
  predicate FallsShort(cfg: Config, idx: nat, r: Response)
  {
    r.Body? && |r.buf| != BlockBytes(cfg, idx) && !r.readFailed
  }

  lemma JudgeIs(cfg: Config, idx: nat, r: Response)
    ensures Judge(cfg, idx, r).Failed? <==> Errs(cfg, idx, r)
    ensures Judge(cfg, idx, r).Silent? <==> FallsShort(cfg, idx, r)
  {
  }

  predicate ThreeErrors(cfg: Config, net: Network, k: nat, idx: nat)
  {
    Errs(cfg, idx, net(k, idx)) && Errs(cfg, idx, net(k + 1, idx)) && Errs(cfg, idx, net(k + 2, idx))
  }

  /** Requests made for a block that is not ready, if the first of them is number k. */
  function Asked(cfg: Config, net: Network, k: nat, idx: nat): (n: nat)
    ensures 1 <= n <= 3
  {
    if !Errs(cfg, idx, net(k, idx)) then 1 else if !Errs(cfg, idx, net(k + 1, idx)) then 2 else 3
  }

  /** One block: the third error in a row is final, and a short body is taken for an answer. */
  lemma FetchThree(cfg: Config, net: Network, c: Cache, idx: nat)
    requires Fits(cfg, c) && idx < cfg.Count() && cfg.tries == 3
    ensures Gives(cfg, net, c, idx, 3) <==> c.ready[idx] || !ThreeErrors(cfg, net, c.sent, idx)
    ensures Fetch(cfg, net, c, idx, 3).sent == c.sent + if c.ready[idx] then 0 else Asked(cfg, net, c.sent, idx)
    ensures Gives(cfg, net, c, idx, 3) ==> (SilentFetch(cfg, net, c, idx, 3) <==>
              !c.ready[idx] && FallsShort(cfg, idx, net(c.sent + Asked(cfg, net, c.sent, idx) - 1, idx)))
  {
    if !c.ready[idx] {
      var c1 := FetchOnce(cfg, net, c, idx);
      var c2 := FetchOnce(cfg, net, c1, idx);
      JudgeIs(cfg, idx, net(c.sent, idx));
      JudgeIs(cfg, idx, net(c.sent + 1, idx));
      JudgeIs(cfg, idx, net(c.sent + 2, idx));
      assert Gives(cfg, net, c1, idx, 2) <==>
          c1.ready[idx] || !FetchFails(cfg, net, c1, idx) || Gives(cfg, net, c2, idx, 1);
    }
  }

  /** Number of the first request for block idx,
      if requests go to blocks from..idx in turn and the first is number k. */
  ghost function Counter(cfg: Config, net: Network, ready: seq<bool>, k: nat, from: nat, idx: nat): nat
    requires from <= idx <= |ready|
    decreases idx
  {
    if idx == from then k
    else
      var before := Counter(cfg, net, ready, k, from, idx - 1);
      if ready[idx - 1] then before else before + Asked(cfg, net, before, idx - 1)
  }

  /** Block idx is not ready and its three requests all err. */
  ghost predicate FailsAt(cfg: Config, net: Network, ready: seq<bool>, k: nat, from: nat, idx: nat)
  {
    from <= idx < |ready| && !ready[idx] && ThreeErrors(cfg, net, Counter(cfg, net, ready, k, from, idx), idx)
  }

  /** Block idx is not ready and the answer taken for it is short. */
  ghost predicate ShortAt(cfg: Config, net: Network, ready: seq<bool>, k: nat, from: nat, idx: nat)
  {
    from <= idx < |ready| && !ready[idx] &&
    var first := Counter(cfg, net, ready, k, from, idx);
    FallsShort(cfg, idx, net(first + Asked(cfg, net, first, idx) - 1, idx))
  }

  lemma {:induction false} CounterShift(cfg: Config, net: Network, ready: seq<bool>, ready': seq<bool>, k: nat,
      from: nat, idx: nat)
    requires from < idx <= |ready| == |ready'| && forall i :: from < i < |ready| ==> ready'[i] == ready[i]
    ensures Counter(cfg, net, ready, k, from, idx)
         == Counter(cfg, net, ready', Counter(cfg, net, ready, k, from, from + 1), from + 1, idx)
    decreases idx
  {
    if idx > from + 1 {
      CounterShift(cfg, net, ready, ready', k, from, idx - 1);
    }
  }

  /** What the first block leaves for a later one: bits behind it unchanged, and the next request number. */
  ghost predicate Passed(cfg: Config, net: Network, ready: seq<bool>, k: nat, ready': seq<bool>, k': nat, from: nat)
  {
    && from < |ready| == |ready'| && (forall i :: from < i < |ready| ==> ready'[i] == ready[i])
    && k' == Counter(cfg, net, ready, k, from, from + 1)
  }

  lemma FetchPasses(cfg: Config, net: Network, c: Cache, from: nat)
    requires Fits(cfg, c) && from < cfg.Count() && cfg.tries == 3
    ensures var c1 := Fetch(cfg, net, c, from, 3); Passed(cfg, net, c.ready, c.sent, c1.ready, c1.sent, from)
  {
    FetchThree(cfg, net, c, from);
    forall i: nat | from < i < |c.ready|
      ensures Fetch(cfg, net, c, from, 3).ready[i] == c.ready[i]
    {
      FetchReady(cfg, net, c, from, 3, i);
    }
  }

  lemma AfterFirst(cfg: Config, net: Network, ready: seq<bool>, k: nat, ready': seq<bool>, k': nat, from: nat, idx: nat)
    requires Passed(cfg, net, ready, k, ready', k', from) && from < idx
    ensures FailsAt(cfg, net, ready, k, from, idx) <==> FailsAt(cfg, net, ready', k', from + 1, idx)
    ensures ShortAt(cfg, net, ready, k, from, idx) <==> ShortAt(cfg, net, ready', k', from + 1, idx)
  {
    if idx < |ready| {
      CounterShift(cfg, net, ready, ready', k, from, idx);
    }
  }

  /** Some block from..last fails. */
  ghost predicate SomeFails(cfg: Config, net: Network, ready: seq<bool>, k: nat, from: nat, last: int)
  {
    exists idx: nat :: idx <= last && FailsAt(cfg, net, ready, k, from, idx)
  }

  ghost predicate SomeShort(cfg: Config, net: Network, ready: seq<bool>, k: nat, from: nat, last: int)
  {
    exists idx: nat :: idx <= last && ShortAt(cfg, net, ready, k, from, idx)
  }

  lemma FailsFirst(cfg: Config, net: Network, ready: seq<bool>, k: nat, ready': seq<bool>, k': nat, from: nat,
      last: int)
    requires Passed(cfg, net, ready, k, ready', k', from) && from <= last
    ensures SomeFails(cfg, net, ready, k, from, last) <==>
            FailsAt(cfg, net, ready, k, from, from) || SomeFails(cfg, net, ready', k', from + 1, last)
  {
    if SomeFails(cfg, net, ready, k, from, last) {
      var idx: nat :| idx <= last && FailsAt(cfg, net, ready, k, from, idx);
      if idx > from {
        AfterFirst(cfg, net, ready, k, ready', k', from, idx);
      }
    }
    if SomeFails(cfg, net, ready', k', from + 1, last) {
      var idx: nat :| idx <= last && FailsAt(cfg, net, ready', k', from + 1, idx);
      AfterFirst(cfg, net, ready, k, ready', k', from, idx);
    }
  }

  lemma ShortFirst(cfg: Config, net: Network, ready: seq<bool>, k: nat, ready': seq<bool>, k': nat, from: nat,
      last: int)
    requires Passed(cfg, net, ready, k, ready', k', from) && from <= last
    ensures SomeShort(cfg, net, ready, k, from, last) <==>
            ShortAt(cfg, net, ready, k, from, from) || SomeShort(cfg, net, ready', k', from + 1, last)
  {
    if SomeShort(cfg, net, ready, k, from, last) {
      var idx: nat :| idx <= last && ShortAt(cfg, net, ready, k, from, idx);
      if idx > from {
        AfterFirst(cfg, net, ready, k, ready', k', from, idx);
      }
    }
    if SomeShort(cfg, net, ready', k', from + 1, last) {
      var idx: nat :| idx <= last && ShortAt(cfg, net, ready', k', from + 1, idx);
      AfterFirst(cfg, net, ready, k, ready', k', from, idx);
    }
  }

  /** A load fails if and only if one of its blocks does. */
  lemma {:induction false} LoadFailsExact(cfg: Config, net: Network, c: Cache, from: nat, last: int)
    requires Fits(cfg, c) && last < cfg.Count() && cfg.tries == 3
    ensures !Load(cfg, net, c, from, last).ok <==> SomeFails(cfg, net, c.ready, c.sent, from, last)
    decreases last - from + 1
  {
    if from <= last {
      var c1 := Fetch(cfg, net, c, from, 3);
      FetchThree(cfg, net, c, from);
      FetchPasses(cfg, net, c, from);
      FailsFirst(cfg, net, c.ready, c.sent, c1.ready, c1.sent, from, last);
      LoadFailsExact(cfg, net, c1, from + 1, last);
    }
  }

  /** A load that does not fail meets a short body if and only if one of its blocks does. */
  lemma {:induction false} LoadShortExact(cfg: Config, net: Network, c: Cache, from: nat, last: int)
    requires Fits(cfg, c) && last < cfg.Count() && cfg.tries == 3 && Load(cfg, net, c, from, last).ok
    ensures SilentLoad(cfg, net, c, from, last) <==> SomeShort(cfg, net, c.ready, c.sent, from, last)
    decreases last - from + 1
  {
    if from <= last {
      var c1 := Fetch(cfg, net, c, from, 3);
      FetchThree(cfg, net, c, from);
      assert Gives(cfg, net, c, from, 3) && Load(cfg, net, c, from, last) == Load(cfg, net, c1, from + 1, last);
      FetchPasses(cfg, net, c, from);
      ShortFirst(cfg, net, c.ready, c.sent, c1.ready, c1.sent, from, last);
      LoadShortExact(cfg, net, c1, from + 1, last);
    }
  }

  /** Some block of the read is not ready, and three requests for it in a row err. */
  ghost predicate ReadFails(cfg: Config, net: Network, c: Cache, n: nat, offset: nat)
    requires cfg.blocksize > 0
  {
    SomeFails(cfg, net, c.ready, c.sent, offset / cfg.blocksize, TruncDiv(offset + n - 1, cfg.blocksize))
  }

  /** Some block of the read is not ready, and a short body is taken for it. */
  ghost predicate ReadShort(cfg: Config, net: Network, c: Cache, n: nat, offset: nat)
    requires cfg.blocksize > 0
  {
    SomeShort(cfg, net, c.ready, c.sent, offset / cfg.blocksize, TruncDiv(offset + n - 1, cfg.blocksize))
  }

  /** Main result: when a read fails, and when what it returns need not be the remote bytes. */
  lemma ReadExact(cfg: Config, net: Network, c: Cache, n: nat, offset: nat)
    requires Fits(cfg, c) && cfg.tries == 3 && offset < cfg.Size() && offset + n <= cfg.Size()
    ensures var r := ReadLoad(cfg, net, c, n, offset);
            && (r.ok <==> !ReadFails(cfg, net, c, n, offset))
            && (r.ok ==> (SilentRead(cfg, net, c, n, offset) <==> ReadShort(cfg, net, c, n, offset)))
  {
    ReadInside(cfg, n, offset);
    var first, last := FirstBlock(offset, cfg.blocksize), LastBlock(n, offset, cfg.blocksize);
    LoadFailsExact(cfg, net, c, first, last);
    if ReadLoad(cfg, net, c, n, offset).ok {
      LoadShortExact(cfg, net, c, first, last);
    }
  }

  /** Every request is answered by a body of the right length, which is written. */
  ghost predicate Delivers(cfg: Config, net: Network)
  {
    forall k: nat, idx: nat :: net(k, idx).Body? && |net(k, idx).buf| == BlockBytes(cfg, idx)
        && net(k, idx).written.WriteOk?
  }

  lemma DeliversReads(cfg: Config, net: Network, c: Cache, n: nat, offset: nat)
    requires cfg.blocksize > 0 && Delivers(cfg, net)
    ensures !ReadFails(cfg, net, c, n, offset) && !ReadShort(cfg, net, c, n, offset)
  {
  }

  /** What a read is worth: success, the bytes of any beginning of it, and success on a network that delivers. */
  lemma ReadWorth(cfg: Config, net: Network, c: Cache, n: nat, offset: nat, k: nat)
    requires Inv(cfg, c) && Honest(cfg, net) && cfg.tries == 3
    requires offset < cfg.Size() && offset + n <= cfg.Size() && k <= n
    ensures var r := ReadLoad(cfg, net, c, n, offset);
            && Inv(cfg, r.cache) && (r.ok <==> !ReadFails(cfg, net, c, n, offset))
            && (r.ok && !ReadShort(cfg, net, c, n, offset) ==>
                  r.cache.local[offset..offset + k] == cfg.remote[offset..offset + k])
            && (Delivers(cfg, net) ==> r.ok && !ReadShort(cfg, net, c, n, offset))
  {
    ReadBeginning(cfg, net, c, n, offset, k);
    ReadExact(cfg, net, c, n, offset);
    if Delivers(cfg, net) {
      DeliversReads(cfg, net, c, n, offset);
    }
  }

  /** A read goes to no block but those of its own bytes. */
  lemma ReadTight(n: nat, offset: nat, size: nat, bs: int, idx: nat)
    requires bs > 0 && n > 0 && offset + n <= size && offset / bs <= idx <= TruncDiv(offset + n - 1, bs)
    ensures exists p :: offset <= p < offset + n && InRange(p, idx, size, bs)
  {
    var last := offset + n - 1;
    DivMono(0, offset, bs);
    if idx == offset / bs {
      OwnBlock(offset, size, bs);
    } else {
      DivBounds(offset, bs);
      DivBounds(last, bs);
      MulMono(offset / bs + 1, idx, bs);
      MulMono(idx, last / bs, bs);
      var p := idx * bs;
      assert (offset / bs + 1) * bs == (offset / bs) * bs + bs;
      assert offset <= p <= last;
      assert InRange(p, idx, size, bs);
    }
  }
}
