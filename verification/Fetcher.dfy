/** FetcherFs and Content.Read in place (cmd/fetcherfs/fs.go, cmd/fetcherfs/dir.go), refining BlockCache. */
module Fetcher {
  import opened Arithmetic
  import opened Blocks
  import opened BitMaps
  import opened BlockCache
  import opened BlockAnswers

  const RETRIES := 3

  datatype ReadResult = Data(bytes: seq<Byte>) | Nothing | BadOffset | FetchError | FileError

  /** Seeking or reading the local file fails, or the read gives at most that many bytes. */
  datatype FileRead = FileFails | FileGives(most: nat)

  class FetcherFs {
    const blocksize: int
    const size: int
    const blockCount: int
    const blockBitMap: BitMap
    const localFile: array<Byte>
    ghost const cfg: Config
    var receivedSize: int
    var fetchedCount: int
    var sent: nat
    ghost var cache: Cache

    /** The constants describe the object; they never change. */
    ghost predicate Sized()
    {
      && cfg.Valid() && cfg.blocksize == blocksize && cfg.Size() == size && cfg.Count() == blockCount
          && cfg.tries == RETRIES
      && blockBitMap.Valid() && blockBitMap.size == blockCount && localFile.Length == size
      && localFile as object != blockBitMap.bits
    }

    /** `cache` is what bitmap, local file and counters hold. */
    ghost predicate Valid()
      reads this, blockBitMap.bits, localFile
    {
      && Sized() && Fits(cfg, cache)
      && (forall i :: 0 <= i < blockCount ==> (cache.ready[i] <==> blockBitMap.Flag(i)))
      && cache.local == localFile[..]
      && cache.received == receivedSize && cache.fetched == fetchedCount && cache.sent == sent
    }

    /** fetchMetaInfo and the preallocated local file; `length` is the Content-Length of the object. */
    constructor (blocksize: int, length: nat, ghost object': seq<Byte>)
      requires blocksize > 0 && length == |object'|
      ensures Valid() && fresh(blockBitMap.bits) && fresh(localFile)
      ensures cfg == Config(blocksize, object', RETRIES) && cache == Fresh(cfg)
    {
      this.blocksize, size, cfg := blocksize, length, Config(blocksize, object', RETRIES);
      var count := length / blocksize;
      if length % blocksize > 0 {
        count := count + 1;
      }
      blockCount := count;
      blockBitMap := new BitMap(count);
      localFile := new Byte[length](_ => 0);
      receivedSize, fetchedCount, sent := 0, 0, 0;
      cache := Fresh(Config(blocksize, object', RETRIES));
    }

    /** os.File.WriteAt inside the file. */
    method WriteAt(buf: seq<Byte>, start: int)
      requires 0 <= start && start + |buf| <= localFile.Length
      modifies localFile
      ensures localFile[..] == Splice(old(localFile[..]), start, buf)
    {
      var i := 0;
      while i < |buf|
        invariant 0 <= i <= |buf|
        invariant forall p :: 0 <= p < localFile.Length ==>
            localFile[p] == if start <= p < start + i then buf[p - start] else old(localFile[p])
      {
        localFile[start + i] := buf[i];
        i := i + 1;
      }
    }

    /** doFetchData once the answer is there; start and end are the requested range. */
    method Handle(idx: nat, res: Response, start: int, end: int) returns (failed: bool)
      requires Valid() && idx < blockCount && start == cfg.Start(idx) && end - start + 1 == cfg.Len(idx)
      modifies this, blockBitMap.bits, localFile
      ensures Valid() && cache == Receive(cfg, old(cache), idx, res)
      ensures failed == Judge(cfg, idx, res).Failed?
    {
      PayloadFits(cfg, idx, res);
      NoSplice(localFile[..], start);
      cache := Receive(cfg, cache, idx, res);
      sent := sent + 1;
      if !res.Body? {
        return true;
      }
      if |res.buf| != end - start + 1 {
        return res.readFailed;
      }
      if res.written.WriteFailed? {
        WriteAt(Prefix(res.buf, res.written.n), start);
        return true;
      }
      WriteAt(res.buf, start);
      blockBitMap.Set(idx);
      receivedSize := receivedSize + |res.buf|;
      fetchedCount := fetchedCount + 1;
      return false;
    }

    method DoFetchData(idx: nat, net: Network) returns (failed: bool)
      requires Valid() && idx < blockCount
      modifies this, blockBitMap.bits, localFile
      ensures Valid() && cache == FetchOnce(cfg, net, old(cache), idx)
      ensures failed == FetchFails(cfg, net, old(cache), idx)
    {
      var has := blockBitMap.Has(idx);
      if has {
        return false;
      }
      var start := idx * blocksize;
      var end := start + blocksize - 1;
      if end >= size {
        end := size - 1;
      }
      failed := Handle(idx, net(sent, idx), start, end);
    }

    /** At most three tries. */
    method FetchData(idx: nat, net: Network) returns (failed: bool)
      requires Valid() && idx < blockCount
      modifies this, blockBitMap.bits, localFile
      ensures Valid() && cache == Fetch(cfg, net, old(cache), idx, cfg.tries)
      ensures failed <==> !Gives(cfg, net, old(cache), idx, cfg.tries)
    {
      failed := true;
      var i := 0;
      while i < RETRIES && failed
        invariant 0 <= i <= RETRIES && Valid()
        invariant failed ==> Fetch(cfg, net, cache, idx, cfg.tries - i) == Fetch(cfg, net, old(cache), idx, cfg.tries)
        invariant failed ==> (Gives(cfg, net, cache, idx, cfg.tries - i) <==>
            Gives(cfg, net, old(cache), idx, cfg.tries))
        invariant !failed ==> cache == Fetch(cfg, net, old(cache), idx, cfg.tries)
        invariant !failed ==> Gives(cfg, net, old(cache), idx, cfg.tries)
        decreases RETRIES - i
      {
        failed := DoFetchData(idx, net);
        i := i + 1;
      }
    }

    /** One turn of the block loop. */
    method LoadOne(idx: nat, ghost last: int, net: Network) returns (failed: bool)
      requires Valid() && idx <= last < blockCount
      modifies this, blockBitMap.bits, localFile
      ensures Valid()
      ensures Load(cfg, net, old(cache), idx, last) == if failed then Loaded(cache, false)
          else Load(cfg, net, cache, idx + 1, last)
    {
      failed := FetchData(idx, net);
    }

    /** The block loop of doRead. */
    method LoadBlocks(first: nat, last: int, net: Network) returns (failed: bool)
      requires Valid() && last < blockCount
      modifies this, blockBitMap.bits, localFile
      ensures Valid() && Loaded(cache, !failed) == Load(cfg, net, old(cache), first, last)
    {
      var idx := first;
      while idx <= last
        invariant 0 <= idx && Valid() && Load(cfg, net, cache, idx, last) == Load(cfg, net, old(cache), first, last)
        decreases last - idx
      {
        failed := LoadOne(idx, last, net);
        if failed {
          return;
        }
        idx := idx + 1;
      }
      failed := false;
    }

    /** The read of the local file may be short; what it gives is returned. */
    method DoRead(n: nat, offset: nat, net: Network, file: FileRead) returns (r: ReadResult)
      requires Valid() && offset < size && offset + n <= size
      modifies this, blockBitMap.bits, localFile
      ensures Valid() && cache == ReadLoad(cfg, net, old(cache), n, offset).cache
      ensures r == if !ReadLoad(cfg, net, old(cache), n, offset).ok then FetchError
                   else if file.FileFails? then FileError
                   else Data(cache.local[offset..offset + Least(n, file.most)])
    {
      ReadInside(cfg, n, offset);
      var failed := LoadBlocks(TruncDiv(offset, blocksize), TruncDiv(offset + n - 1, blocksize), net);
      if failed {
        return FetchError;
      }
      if file.FileFails? {
        return FileError;
      }
      r := Data(localFile[offset..offset + Least(n, file.most)]);
    }

    /** A read inside the object, and what it is worth. */
    method ReadInObject(m: nat, offset: nat, net: Network, file: FileRead) returns (r: ReadResult)
      requires Valid() && Inv(cfg, cache) && Honest(cfg, net) && offset < size && offset + m <= size
      modifies this, blockBitMap.bits, localFile
      ensures Valid() && Inv(cfg, cache) && cache == ReadLoad(cfg, net, old(cache), m, offset).cache
      ensures !r.BadOffset? && !r.Nothing? && (r.FetchError? <==> ReadFails(cfg, net, old(cache), m, offset))
      ensures r.Data? ==> file.FileGives? && |r.bytes| == Least(m, file.most)
      ensures r.Data? && !ReadShort(cfg, net, old(cache), m, offset) ==>
          r.bytes == cfg.remote[offset..offset + |r.bytes|]
      ensures file.FileGives? && Delivers(cfg, net) ==> r.Data? && !ReadShort(cfg, net, old(cache), m, offset)
    {
      ReadWorth(cfg, net, cache, m, offset, if file.FileFails? then 0 else Least(m, file.most));
      r := DoRead(m, offset, net, file);
    }

    /**
     Content.Read: the size is clamped to the object, offsets outside it are refused. It fails if and only if three
     requests in a row err for a block of the range that is not ready, or the local file fails.
     */
    method Read(n: nat, offset: int, net: Network, file: FileRead) returns (r: ReadResult)
      requires Valid() && Inv(cfg, cache) && Honest(cfg, net)
      modifies this, blockBitMap.bits, localFile
      ensures Valid() && Inv(cfg, cache)
      ensures r.BadOffset? <==> offset < 0 || offset > size
      ensures r.Nothing? <==> offset == size
      ensures offset < 0 || offset >= size ==> cache == old(cache)
      ensures 0 <= offset < size ==> cache == ReadLoad(cfg, net, old(cache), Least(n, size - offset), offset).cache
      ensures r.FetchError? <==> 0 <= offset < size && ReadFails(cfg, net, old(cache), Least(n, size - offset), offset)
      ensures r.Data? ==> file.FileGives? && |r.bytes| == Least(Least(n, size - offset), file.most)
      ensures r.Data? && !ReadShort(cfg, net, old(cache), Least(n, size - offset), offset) ==>
                r.bytes == cfg.remote[offset..offset + |r.bytes|]
      ensures 0 <= offset < size && file.FileGives? && Delivers(cfg, net) ==>
                r.Data? && r.bytes == cfg.remote[offset..offset + |r.bytes|]
    {
      if 0 <= offset < size {
        var m := n;
        if offset + n > size {
          m := size - offset;
        }
        r := ReadInObject(m, offset, net, file);
      } else if offset == size {
        r := Nothing;
      } else {
        r := BadOffset;
      }
    }
  }

  function Least(a: nat, b: nat): nat
  {
    if a < b then a else b
  }

  lemma NoSplice(s: seq<Byte>, start: int)
    requires 0 <= start <= |s|
    ensures Splice(s, start, []) == s
  {
  }
}
