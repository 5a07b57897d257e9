/** Writing into the blocks of perf/zero_copy_io.rs: the rounded copies stay inside the block,
    and so the owners of different blocks never touch a common byte. */
module BlockWrites {
  import opened Wrappers
  import opened Bits
  import opened SimdMemory
  import opened SharedMemory
  import ConcurrentPool

  /** The copy of what fits a block whose size is a multiple of 64 stays inside it. */
  lemma CopyStaysInBlock(len: nat, size: nat)
    requires len <= size && size % 64 == 0
    ensures Footprint(len) <= size
  {}

  /** Byte `i` of the region is one that writing `len` bytes at `offset` moves something to. */
  predicate Touches(offset: nat, len: nat, i: nat) {
    offset <= i < offset + Footprint(len)
  }

  /** `write_bytes`; `data` is the caller's slice and the memory after it. */
  method WriteBytes(region: array<byte>, block: ZeroCopyBlock, data: array<byte>, len: nat,
                    avx512: bool) returns (r: Result<(), string>)
    requires data != region && data.Length == len + SLACK
    requires block.size % 64 == 0 && block.offset + block.size <= region.Length
    modifies region
    ensures r.Ok? <==> len <= block.size
    ensures r.Err? ==> region[..] == old(region[..])
    ensures r.Ok? ==> region[block.offset..block.offset + len] == data[..len]
    ensures forall i :: 0 <= i < region.Length && !(block.offset <= i < block.offset + block.size)
              ==> region[i] == old(region[i])
    ensures r.Ok? ==> forall i :: 0 <= i < region.Length ==>
      region[i] == if Touches(block.offset, len, i) then data[i - block.offset]
                   else old(region[i])
  {
    if len > block.size {
      return Err("Data too large for block");
    }
    CopyStaysInBlock(len, block.size);
    ghost var before := region[..];
    MemcpySimdOptimized(region, block.offset, data, 0, len, avx512);
    assert region[..] == Copied(before, block.offset, data[..], 0, Footprint(len));
    forall i | 0 <= i < region.Length
      ensures region[i] == if block.offset <= i < block.offset + Footprint(len)
                           then data[i - block.offset] else before[i]
    {
      CopiedAt(before, block.offset, data[..], 0, Footprint(len), i);
      assert region[i] == region[..][i];
    }
    return Ok(());
  }

  /** `read_bytes` */
  method ReadBytes(region: array<byte>, block: ZeroCopyBlock, len: nat)
    returns (r: Result<seq<byte>, string>)
    requires block.offset + block.size <= region.Length
    ensures r == if len <= block.size then Ok(region[block.offset..block.offset + len])
                 else Err("Read length exceeds block size")
  {
    if len > block.size {
      return Err("Read length exceeds block size");
    }
    return Ok(region[block.offset..block.offset + len]);
  }

  lemma TouchedOnce(blockSize: nat, total: nat, b: nat, c: nat, len: nat, len': nat, i: nat)
    requires blockSize > 0 && blockSize % 64 == 0 && b < c < total
    requires len <= blockSize && len' <= blockSize
    ensures !(Touches(b * blockSize, len, i) && Touches(c * blockSize, len', i))
  {
    BlocksAreDisjoint(blockSize, total, b, c);
    CopyStaysInBlock(len, blockSize);
  }

  /** Whatever any number of threads do, accepted writes by two owners never touch a common
      byte. */
  lemma OwnersNeverMeet(total: nat, s: ConcurrentPool.Pool, blockSize: nat, t: nat, u: nat,
                        b: nat, c: nat, len: nat, len': nat, i: nat)
    requires ConcurrentPool.Reachable(total, s) && blockSize > 0 && blockSize % 64 == 0
    requires t < |s.threads| && u < |s.threads| && t != u
    requires b in ConcurrentPool.Claim(s.threads[t]) && c in ConcurrentPool.Claim(s.threads[u])
    requires len <= blockSize && len' <= blockSize
    ensures !(Touches(b * blockSize, len, i) && Touches(c * blockSize, len', i))
  {
    ConcurrentPool.NoBlockHasTwoOwners(total, s, t, b);
    ConcurrentPool.ReachableInv(total, s);
    ConcurrentPool.ClaimedBlock(total, s, t, b);
    ConcurrentPool.ClaimedBlock(total, s, u, c);
    if b < c {
      TouchedOnce(blockSize, total, b, c, len, len', i);
    } else {
      TouchedOnce(blockSize, total, c, b, len', len, i);
    }
  }
}
