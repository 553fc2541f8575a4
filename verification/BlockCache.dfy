/**
 The lazily filled local copy of a remote object (cmd/fetcherfs/fs.go), as a value: what one request, one
 block with its retries and one read do to it, whatever the network and the disk answer.
 */
module BlockCache {
  import opened Arithmetic
  import opened Blocks

  type Byte = b: int | 0 <= b < 256

  /** The remote object, whose length is the Content-Length, and the number of tries for a block. */
  datatype Config = Config(blocksize: int, remote: seq<Byte>, tries: nat)
  {
    predicate Valid() { blocksize > 0 }
    function Size(): nat { |remote| }
    function Count(): nat requires Valid() { BlockCount(|remote|, blocksize) }
    function Start(idx: int): int { RangeStart(idx, blocksize) }
    function Len(idx: int): int { RangeLen(idx, |remote|, blocksize) }
  }

  /** Outcome of WriteAt; a failing write may have written a beginning. */
  datatype Written = WriteOk | WriteFailed(n: nat)

  /** One answer of the outside world; a body may end in a read error. */
  datatype Response = TransportError | BadStatus | OptionError | Body(buf: seq<Byte>, readFailed: bool,
      written: Written)

  /** The answer to the k-th request, if that is for block idx. */
  type Network = (nat, nat) -> Response

  /** What doFetchData makes of an answer. A body of the wrong length without a read error is no error. */
  datatype Verdict = Stored | Silent | Failed

  function Judge(cfg: Config, idx: nat, r: Response): Verdict
  {
    if !r.Body? then Failed
    else if |r.buf| != cfg.Len(idx) then if r.readFailed then Failed else Silent
    else if r.written.WriteOk? then Stored
    else Failed
  }

  /** A full-length body for a block holds the bytes of the requested range. */
  ghost predicate Honest(cfg: Config, net: Network)
    requires cfg.Valid()
  {
    forall k: nat, idx: nat :: idx < cfg.Count() && net(k, idx).Body? && |net(k, idx).buf| == cfg.Len(idx) ==>
      IsRange(cfg, idx, net(k, idx).buf)
  }

  ghost predicate IsRange(cfg: Config, idx: nat, buf: seq<Byte>)
    requires cfg.Valid() && idx < cfg.Count()
  {
    RangeLenBounds(idx, cfg.Size(), cfg.blocksize);
    buf == cfg.remote[cfg.Start(idx)..cfg.Start(idx) + cfg.Len(idx)]
  }

  /** Bitmap, local file, the two counters, and the number of requests sent. */
  datatype Cache = Cache(ready: seq<bool>, local: seq<Byte>, received: int, fetched: int, sent: nat)

  ghost predicate Fits(cfg: Config, c: Cache)
  {
    cfg.Valid() && |c.ready| == cfg.Count() && |c.local| == cfg.Size()
  }

  /** The file after `buf` has been written at `start`. */
  function Splice(s: seq<Byte>, start: int, buf: seq<Byte>): seq<Byte>
  {
    seq(|s|, p requires 0 <= p < |s| => if start <= p < start + |buf| then buf[p - start] else s[p])
  }

  function Prefix(buf: seq<Byte>, n: nat): seq<Byte>
  {
    if n <= |buf| then buf[..n] else buf
  }

  /** What reaches the disk. */
  function Payload(cfg: Config, idx: nat, r: Response): seq<Byte>
  {
    if !r.Body? || |r.buf| != cfg.Len(idx) then []
    else match r.written
      case WriteOk => r.buf
      case WriteFailed(n) => Prefix(r.buf, n)
  }

  lemma PayloadFits(cfg: Config, idx: nat, r: Response)
    requires cfg.Valid() && idx < cfg.Count()
    ensures 0 <= cfg.Start(idx) && cfg.Start(idx) + |Payload(cfg, idx, r)| <= cfg.Size()
  {
    RangeLenBounds(idx, cfg.Size(), cfg.blocksize);
  }

  /** What doFetchData does with the answer. */
  ghost function Receive(cfg: Config, c: Cache, idx: nat, r: Response): (c': Cache)
    requires Fits(cfg, c) && idx < cfg.Count()
    ensures Fits(cfg, c')
  {
    PayloadFits(cfg, idx, r);
    var c1 := c.(sent := c.sent + 1, local := Splice(c.local, cfg.Start(idx), Payload(cfg, idx, r)));
    if Judge(cfg, idx, r).Stored? then
      c1.(ready := c.ready[idx := true], received := c.received + |r.buf|, fetched := c.fetched + 1)
    else c1
  }

  /** doFetchData. */
  ghost function FetchOnce(cfg: Config, net: Network, c: Cache, idx: nat): (r: Cache)
    requires Fits(cfg, c) && idx < cfg.Count()
    ensures Fits(cfg, r)
  {
    if c.ready[idx] then c else Receive(cfg, c, idx, net(c.sent, idx))
  }

  predicate FetchFails(cfg: Config, net: Network, c: Cache, idx: nat)
    requires idx < |c.ready|
  {
    !c.ready[idx] && Judge(cfg, idx, net(c.sent, idx)).Failed?
  }

  /** fetchData: at most n tries, until one is no error. */
  ghost function Fetch(cfg: Config, net: Network, c: Cache, idx: nat, n: nat): (r: Cache)
    requires Fits(cfg, c) && idx < cfg.Count()
    ensures Fits(cfg, r)
    decreases n
  {
    if n == 0 then c
    else if FetchFails(cfg, net, c, idx) then Fetch(cfg, net, FetchOnce(cfg, net, c, idx), idx, n - 1)
    else FetchOnce(cfg, net, c, idx)
  }

  /** Whether the last try was an error too. */
  ghost predicate Gives(cfg: Config, net: Network, c: Cache, idx: nat, n: nat)
    requires Fits(cfg, c) && idx < cfg.Count()
    decreases n
  {
    n > 0 && (FetchFails(cfg, net, c, idx) ==> Gives(cfg, net, FetchOnce(cfg, net, c, idx), idx, n - 1))
  }

  datatype Loaded = Loaded(cache: Cache, ok: bool)

  /** The loop of doRead over blocks idx..last. */
  ghost function Load(cfg: Config, net: Network, c: Cache, idx: nat, last: int): (r: Loaded)
    requires Fits(cfg, c) && last < cfg.Count()
    ensures Fits(cfg, r.cache)
    decreases last - idx + 1
  {
    if idx > last then Loaded(c, true)
    else
      var c1 := Fetch(cfg, net, c, idx, cfg.tries);
      if Gives(cfg, net, c, idx, cfg.tries) then Load(cfg, net, c1, idx + 1, last) else Loaded(c1, false)
  }

  // ---------------------------------------------------------------- invariants

  /** Every ready block holds the remote bytes. */
  ghost predicate Agrees(cfg: Config, c: Cache)
  {
    forall idx {:trigger BlockAgrees(cfg, c, idx)} :: 0 <= idx < |c.ready| && c.ready[idx] ==> BlockAgrees(cfg, c, idx)
  }

  ghost predicate BlockAgrees(cfg: Config, c: Cache, idx: nat)
  {
    |c.local| == cfg.Size() &&
    forall p :: 0 <= p < cfg.Size() && InRange(p, idx, cfg.Size(), cfg.blocksize) ==> c.local[p] == cfg.remote[p]
  }

  /** Any other byte is still the zero of the preallocated file, or already the remote byte. */
  ghost predicate Untorn(cfg: Config, c: Cache)
  {
    |c.local| == cfg.Size() && forall p :: 0 <= p < cfg.Size() ==> c.local[p] == 0 || c.local[p] == cfg.remote[p]
  }

  function ReadyCount(ready: seq<bool>): nat
  {
    if ready == [] then 0 else ReadyCount(ready[..|ready| - 1]) + if ready[|ready| - 1] then 1 else 0
  }

  function ReadyLen(cfg: Config, ready: seq<bool>): int
  {
    if ready == [] then 0
    else ReadyLen(cfg, ready[..|ready| - 1]) + if ready[|ready| - 1] then cfg.Len(|ready| - 1) else 0
  }

  /** The counters are the number and the total length of the ready blocks. */
  ghost predicate Counted(cfg: Config, c: Cache)
  {
    c.fetched == ReadyCount(c.ready) && c.received == ReadyLen(cfg, c.ready)
  }

  ghost predicate Inv(cfg: Config, c: Cache)
  {
    Fits(cfg, c) && Agrees(cfg, c) && Untorn(cfg, c) && Counted(cfg, c)
  }

  /** A fresh cache: nothing fetched, a file of zeros. */
  function Fresh(cfg: Config): Cache
    requires cfg.Valid()
  {
    Cache(seq(cfg.Count(), _ => false), seq(cfg.Size(), _ => 0), 0, 0, 0)
  }

  lemma {:induction false} NoneReady(cfg: Config, ready: seq<bool>)
    requires forall i :: 0 <= i < |ready| ==> !ready[i]
    ensures ReadyCount(ready) == 0 && ReadyLen(cfg, ready) == 0
  {
    if ready != [] {
      NoneReady(cfg, ready[..|ready| - 1]);
    }
  }

  lemma FreshInv(cfg: Config)
    requires cfg.Valid()
    ensures Inv(cfg, Fresh(cfg))
  {
    NoneReady(cfg, Fresh(cfg).ready);
  }

  lemma {:induction false} MarkReady(cfg: Config, ready: seq<bool>, idx: nat)
    requires idx < |ready| && !ready[idx]
    ensures ReadyCount(ready[idx := true]) == ReadyCount(ready) + 1
    ensures ReadyLen(cfg, ready[idx := true]) == ReadyLen(cfg, ready) + cfg.Len(idx)
  {
    var last := |ready| - 1;
    if idx < last {
      MarkReady(cfg, ready[..last], idx);
      assert ready[idx := true][..last] == ready[..last][idx := true];
    } else {
      assert ready[idx := true][..last] == ready[..last];
    }
  }

  /** The payload is a beginning of the requested range. */
  lemma PayloadHonest(cfg: Config, net: Network, k: nat, idx: nat)
    requires cfg.Valid() && Honest(cfg, net) && idx < cfg.Count()
    ensures var pl, start := Payload(cfg, idx, net(k, idx)), cfg.Start(idx);
            && 0 <= start && |pl| <= cfg.Len(idx) && start + |pl| <= cfg.Size()
            && (forall i :: 0 <= i < |pl| ==> pl[i] == cfg.remote[start + i])
            && (Judge(cfg, idx, net(k, idx)).Stored? ==> |pl| == cfg.Len(idx))
  {
    RangeLenBounds(idx, cfg.Size(), cfg.blocksize);
    var r := net(k, idx);
    if r.Body? && |r.buf| == cfg.Len(idx) {
      assert IsRange(cfg, idx, r.buf);
    }
  }

  lemma FetchOnceLocal(cfg: Config, net: Network, c: Cache, idx: nat)
    requires Inv(cfg, c) && Honest(cfg, net) && idx < cfg.Count()
    ensures Agrees(cfg, FetchOnce(cfg, net, c, idx)) && Untorn(cfg, FetchOnce(cfg, net, c, idx))
  {
    PayloadHonest(cfg, net, c.sent, idx);
    var c' := FetchOnce(cfg, net, c, idx);
    if !c.ready[idx] {
      var pl, start := Payload(cfg, idx, net(c.sent, idx)), cfg.Start(idx);
      assert forall p :: 0 <= p < cfg.Size() ==>
          c'.local[p] == if start <= p < start + |pl| then cfg.remote[p] else c.local[p];
      forall i: nat | i < |c'.ready| && c'.ready[i]
        ensures BlockAgrees(cfg, c', i)
      {
        assert c.ready[i] ==> BlockAgrees(cfg, c, i);
      }
    }
  }

  /** One request keeps the invariant, whatever is answered. */
  lemma FetchOnceInv(cfg: Config, net: Network, c: Cache, idx: nat)
    requires Inv(cfg, c) && Honest(cfg, net) && idx < cfg.Count()
    ensures Inv(cfg, FetchOnce(cfg, net, c, idx))
  {
    FetchOnceLocal(cfg, net, c, idx);
    if !c.ready[idx] {
      MarkReady(cfg, c.ready, idx);
    }
  }

  lemma {:induction false} FetchInv(cfg: Config, net: Network, c: Cache, idx: nat, n: nat)
    requires Inv(cfg, c) && Honest(cfg, net) && idx < cfg.Count()
    ensures Inv(cfg, Fetch(cfg, net, c, idx, n))
    decreases n
  {
    if n > 0 {
      FetchOnceInv(cfg, net, c, idx);
      if FetchFails(cfg, net, c, idx) {
        FetchInv(cfg, net, FetchOnce(cfg, net, c, idx), idx, n - 1);
      }
    }
  }

  /** The block loop keeps whatever every fetch keeps. */
  lemma {:induction false} LoadKeeps(cfg: Config, net: Network, c: Cache, idx: nat, last: int, kept: Cache -> bool)
    requires Fits(cfg, c) && last < cfg.Count() && kept(c)
    requires forall c1, i: nat :: Fits(cfg, c1) && i < cfg.Count() && kept(c1) ==>
        kept(Fetch(cfg, net, c1, i, cfg.tries))
    ensures kept(Load(cfg, net, c, idx, last).cache)
    decreases last - idx + 1
  {
    if idx <= last && Gives(cfg, net, c, idx, cfg.tries) {
      LoadKeeps(cfg, net, Fetch(cfg, net, c, idx, cfg.tries), idx + 1, last, kept);
    }
  }

  /** One read keeps the invariant, whatever fails in it and wherever it stops. */
  lemma LoadInv(cfg: Config, net: Network, c: Cache, idx: nat, last: int)
    requires Inv(cfg, c) && Honest(cfg, net) && last < cfg.Count()
    ensures Inv(cfg, Load(cfg, net, c, idx, last).cache)
  {
    var kept := (c1: Cache) => Inv(cfg, c1);
    forall c1, i: nat | Fits(cfg, c1) && i < cfg.Count() && kept(c1)
      ensures kept(Fetch(cfg, net, c1, i, cfg.tries))
    {
      FetchInv(cfg, net, c1, i, cfg.tries);
    }
    LoadKeeps(cfg, net, c, idx, last, kept);
  }

  // -------------------------------------------------------------------- reads

  /** Some block of the read was answered, at the try that counts, by a body of the wrong length and no error. */
  ghost predicate SilentFetch(cfg: Config, net: Network, c: Cache, idx: nat, n: nat)
    requires Fits(cfg, c) && idx < cfg.Count()
    decreases n
  {
    n > 0 && !c.ready[idx] &&
    match Judge(cfg, idx, net(c.sent, idx))
    case Stored => false
    case Silent => true
    case Failed => SilentFetch(cfg, net, FetchOnce(cfg, net, c, idx), idx, n - 1)
  }

  ghost predicate SilentLoad(cfg: Config, net: Network, c: Cache, idx: nat, last: int)
    requires Fits(cfg, c) && last < cfg.Count()
    decreases last - idx + 1
  {
    idx <= last
    && (SilentFetch(cfg, net, c, idx, cfg.tries)
        || (Gives(cfg, net, c, idx, cfg.tries)
            && SilentLoad(cfg, net, Fetch(cfg, net, c, idx, cfg.tries), idx + 1, last)))
  }

  /** Ready bits are never cleared, and only the fetched block can get one. */
  lemma {:induction false} FetchReady(cfg: Config, net: Network, c: Cache, idx: nat, n: nat, i: nat)
    requires Fits(cfg, c) && idx < cfg.Count() && i < cfg.Count()
    ensures c.ready[i] ==> Fetch(cfg, net, c, idx, n).ready[i]
    ensures i != idx ==> Fetch(cfg, net, c, idx, n).ready[i] == c.ready[i]
    decreases n
  {
    if n > 0 && FetchFails(cfg, net, c, idx) {
      FetchReady(cfg, net, FetchOnce(cfg, net, c, idx), idx, n - 1, i);
    }
  }

  /** After a fetch without error the block is ready, unless the answer that counted was silent. */
  lemma {:induction false} FetchExact(cfg: Config, net: Network, c: Cache, idx: nat, n: nat)
    requires Fits(cfg, c) && idx < cfg.Count() && Gives(cfg, net, c, idx, n)
    ensures Fetch(cfg, net, c, idx, n).ready[idx] <==> !SilentFetch(cfg, net, c, idx, n)
    decreases n
  {
    if FetchFails(cfg, net, c, idx) {
      FetchExact(cfg, net, FetchOnce(cfg, net, c, idx), idx, n - 1);
    }
  }

  lemma {:induction false} LoadReady(cfg: Config, net: Network, c: Cache, idx: nat, last: int, i: nat)
    requires Fits(cfg, c) && last < cfg.Count() && i < cfg.Count()
    ensures c.ready[i] ==> Load(cfg, net, c, idx, last).cache.ready[i]
    ensures i < idx || i > last ==> Load(cfg, net, c, idx, last).cache.ready[i] == c.ready[i]
    decreases last - idx + 1
  {
    if idx <= last {
      FetchReady(cfg, net, c, idx, cfg.tries, i);
      if Gives(cfg, net, c, idx, cfg.tries) {
        LoadReady(cfg, net, Fetch(cfg, net, c, idx, cfg.tries), idx + 1, last, i);
      }
    }
  }

  /** A read that reports no error has all its blocks ready exactly when no answer that counted was silent. */
  lemma {:induction false} LoadExact(cfg: Config, net: Network, c: Cache, idx: nat, last: int)
    requires Fits(cfg, c) && last < cfg.Count() && Load(cfg, net, c, idx, last).ok
    ensures (forall i :: idx <= i <= last ==> Load(cfg, net, c, idx, last).cache.ready[i]) <==>
        !SilentLoad(cfg, net, c, idx, last)
    decreases last - idx + 1
  {
    if idx <= last {
      var c1 := Fetch(cfg, net, c, idx, cfg.tries);
      FetchExact(cfg, net, c, idx, cfg.tries);
      LoadExact(cfg, net, c1, idx + 1, last);
      LoadReady(cfg, net, c1, idx + 1, last, idx);
      var r := Load(cfg, net, c, idx, last).cache;
      assert r == Load(cfg, net, c1, idx + 1, last).cache;
    }
  }

  /** The blocks of any read that Content.Read lets through exist. */
  lemma ReadInside(cfg: Config, n: nat, offset: nat)
    requires cfg.Valid() && offset < cfg.Size() && offset + n <= cfg.Size()
    ensures 0 <= FirstBlock(offset, cfg.blocksize) && LastBlock(n, offset, cfg.blocksize) < cfg.Count()
  {
    DivMono(0, offset, cfg.blocksize);
    if n > 0 {
      ReadCovered(n, offset, cfg.Size(), cfg.blocksize, offset);
    } else if FirstBlock(offset, cfg.blocksize) <= LastBlock(0, offset, cfg.blocksize) {
      EmptyRead(offset, cfg.Size(), cfg.blocksize, LastBlock(0, offset, cfg.blocksize));
    } else {
      OwnBlock(offset, cfg.Size(), cfg.blocksize);
    }
  }

  /** The block loop of doRead. */
  ghost function ReadLoad(cfg: Config, net: Network, c: Cache, n: nat, offset: nat): (r: Loaded)
    requires Fits(cfg, c) && offset < cfg.Size() && offset + n <= cfg.Size()
    ensures Fits(cfg, r.cache)
  {
    ReadInside(cfg, n, offset);
    Load(cfg, net, c, FirstBlock(offset, cfg.blocksize), LastBlock(n, offset, cfg.blocksize))
  }

  ghost predicate SilentRead(cfg: Config, net: Network, c: Cache, n: nat, offset: nat)
    requires Fits(cfg, c) && offset < cfg.Size() && offset + n <= cfg.Size()
  {
    ReadInside(cfg, n, offset);
    SilentLoad(cfg, net, c, FirstBlock(offset, cfg.blocksize), LastBlock(n, offset, cfg.blocksize))
  }

  /** Every block that the read touches is ready. */
  ghost predicate Covered(cfg: Config, c: Cache, n: nat, offset: nat)
    requires Fits(cfg, c)
  {
    var first, last := FirstBlock(offset, cfg.blocksize), LastBlock(n, offset, cfg.blocksize);
    forall i :: 0 <= i < cfg.Count() && first <= i <= last ==> c.ready[i]
  }

  lemma CoveredBytes(cfg: Config, c: Cache, n: nat, offset: nat)
    requires Inv(cfg, c) && offset < cfg.Size() && offset + n <= cfg.Size() && Covered(cfg, c, n, offset)
    ensures c.local[offset..offset + n] == cfg.remote[offset..offset + n]
  {
    forall p: nat | offset <= p < offset + n
      ensures c.local[p] == cfg.remote[p]
    {
      ReadCovered(n, offset, cfg.Size(), cfg.blocksize, p);
      assert BlockAgrees(cfg, c, p / cfg.blocksize);
    }
  }

  /**
   Main result for reads, from any state that earlier reads, errors and retries can leave. A read without error has
   its blocks ready exactly when no answer that counted was silent; then it returns exactly the remote bytes, and
   otherwise every byte is the remote one or a zero never fetched.
   */
  lemma ReadCorrect(cfg: Config, net: Network, c: Cache, n: nat, offset: nat)
    requires Inv(cfg, c) && Honest(cfg, net) && offset < cfg.Size() && offset + n <= cfg.Size()
    ensures var r := ReadLoad(cfg, net, c, n, offset);
            && Inv(cfg, r.cache)
            && (r.ok ==> (Covered(cfg, r.cache, n, offset) <==> !SilentRead(cfg, net, c, n, offset)))
            && (r.ok && !SilentRead(cfg, net, c, n, offset) ==>
                r.cache.local[offset..offset + n] == cfg.remote[offset..offset + n])
            && (forall p :: offset <= p < offset + n ==> r.cache.local[p] == 0 || r.cache.local[p] == cfg.remote[p])
  {
    ReadInside(cfg, n, offset);
    var r := ReadLoad(cfg, net, c, n, offset);
    LoadInv(cfg, net, c, FirstBlock(offset, cfg.blocksize), LastBlock(n, offset, cfg.blocksize));
    if r.ok {
      LoadExact(cfg, net, c, FirstBlock(offset, cfg.blocksize), LastBlock(n, offset, cfg.blocksize));
      if !SilentRead(cfg, net, c, n, offset) {
        CoveredBytes(cfg, r.cache, n, offset);
      }
    }
  }

  /** So does every beginning of it, for a short read of the local file. */
  lemma ReadBeginning(cfg: Config, net: Network, c: Cache, n: nat, offset: nat, k: nat)
    requires Inv(cfg, c) && Honest(cfg, net) && offset < cfg.Size() && offset + n <= cfg.Size() && k <= n
    ensures var r := ReadLoad(cfg, net, c, n, offset);
            && Inv(cfg, r.cache)
            && (r.ok && !SilentRead(cfg, net, c, n, offset) ==>
                r.cache.local[offset..offset + k] == cfg.remote[offset..offset + k])
  {
    var r := ReadLoad(cfg, net, c, n, offset);
    ReadCorrect(cfg, net, c, n, offset);
    assert r.cache.local[offset..offset + n][..k] == r.cache.local[offset..offset + k];
    assert cfg.remote[offset..offset + n][..k] == cfg.remote[offset..offset + k];
  }

  /** A body of the wrong length without a read error: the read succeeds and returns a byte the object does not have. */
  lemma SilentReadHappens() returns (cfg: Config, net: Network)
    ensures cfg.Valid() && cfg.Size() == 1 && Honest(cfg, net) && Inv(cfg, Fresh(cfg))
    ensures var r := ReadLoad(cfg, net, Fresh(cfg), 1, 0); r.ok && r.cache.local[0..1] != cfg.remote[0..1]
  {
    cfg := Config(1, [7], 3);
    net := (k, idx) => Body([], false, WriteOk);
    FreshInv(cfg);
    var c := Fresh(cfg);
    assert Judge(cfg, 0, net(0, 0)).Silent?;
    var c1 := FetchOnce(cfg, net, c, 0);
    assert Fetch(cfg, net, c, 0, cfg.tries) == c1 && Gives(cfg, net, c, 0, cfg.tries);
    assert Load(cfg, net, c1, 1, 0) == Loaded(c1, true);
    assert Load(cfg, net, c, 0, 0) == Loaded(c1, true);
    assert c1.local[0..1][0] == 0 && cfg.remote[0..1][0] == 7;
  }

  /** A read as FUSE asks for it: size and offset. */
  datatype Request = Request(n: nat, offset: nat)

  /** Any sequence of reads, each let through by Content.Read, failing or not. */
  ghost function Reads(cfg: Config, net: Network, reqs: seq<Request>): (c: Cache)
    requires cfg.Valid() && forall r :: r in reqs ==> r.offset < cfg.Size() && r.offset + r.n <= cfg.Size()
    ensures Fits(cfg, c)
  {
    if reqs == [] then Fresh(cfg)
    else
      var last := reqs[|reqs| - 1];
      ReadLoad(cfg, net, Reads(cfg, net, reqs[..|reqs| - 1]), last.n, last.offset).cache
  }

  /** Every reachable cache agrees with the remote object on its ready blocks and counts them right. */
  lemma {:induction false} ReachableInv(cfg: Config, net: Network, reqs: seq<Request>)
    requires cfg.Valid() && Honest(cfg, net) && forall r :: r in reqs ==>
        r.offset < cfg.Size() && r.offset + r.n <= cfg.Size()
    ensures Inv(cfg, Reads(cfg, net, reqs))
  {
    if reqs == [] {
      FreshInv(cfg);
    } else {
      var last := reqs[|reqs| - 1];
      ReachableInv(cfg, net, reqs[..|reqs| - 1]);
      ReadCorrect(cfg, net, Reads(cfg, net, reqs[..|reqs| - 1]), last.n, last.offset);
    }
  }

  lemma {:induction false} AllReadyLen(cfg: Config, ready: seq<bool>)
    requires forall i :: 0 <= i < |ready| ==> ready[i]
    ensures ReadyLen(cfg, ready) == TotalLen(|ready|, cfg.Size(), cfg.blocksize) && ReadyCount(ready) == |ready|
  {
    if ready != [] {
      AllReadyLen(cfg, ready[..|ready| - 1]);
    }
  }

  /** When every block is ready the counters say so, and the local file is the object. */
  lemma Complete(cfg: Config, c: Cache)
    requires Inv(cfg, c) && forall i :: 0 <= i < |c.ready| ==> c.ready[i]
    ensures c.received == cfg.Size() && c.fetched == cfg.Count() && c.local == cfg.remote
  {
    AllReadyLen(cfg, c.ready);
    WholeObject(cfg.Size(), cfg.blocksize);
    forall p: nat | p < cfg.Size()
      ensures c.local[p] == cfg.remote[p]
    {
      OwnBlock(p, cfg.Size(), cfg.blocksize);
      DivMono(0, p, cfg.blocksize);
      assert BlockAgrees(cfg, c, p / cfg.blocksize);
    }
  }
}
