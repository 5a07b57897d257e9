/** The size-class copy and compare routines of perf/hardware_optimizations.rs and the
    chunked loops of perf/simd.rs. A pointer is an array and an offset into it. */
module SimdMemory {
  import opened Bits

  function RoundUp32(n: nat): nat {
    (n + 31) / 32 * 32
  }

  /** No copy reaches more than this many bytes past its request. */
  const SLACK: nat := 31

  /** How many bytes `memcpy_simd_optimized` reads and writes for a request of `len`. */
  function Footprint(len: nat): (n: nat)
    ensures len <= n <= len + SLACK
  {
    if len <= 4 then len
    else if len <= 8 then 8
    else if len <= 16 then 16
    else RoundUp32(len)
  }

  /** `to` with `n` bytes from offset `d` replaced by those of `from` from offset `s`. */
  function Copied(to: seq<byte>, d: nat, from: seq<byte>, s: nat, n: nat): (r: seq<byte>)
    requires d + n <= |to| && s + n <= |from|
    ensures |r| == |to|
  {
    seq(|to|, i requires 0 <= i < |to| => if d <= i < d + n then from[s + i - d] else to[i])
  }

  lemma CopiedAt(to: seq<byte>, d: nat, from: seq<byte>, s: nat, n: nat, i: nat)
    requires d + n <= |to| && s + n <= |from| && i < |to|
    ensures Copied(to, d, from, s, n)[i] == if d <= i < d + n then from[s + i - d] else to[i]
  {}

  /** Copying `n` bytes and then the next `m` is copying `n + m`. */
  lemma CopiedContinues(to: seq<byte>, d: nat, from: seq<byte>, s: nat, n: nat, m: nat)
    requires d + n + m <= |to| && s + n + m <= |from|
    ensures Copied(Copied(to, d, from, s, n), d + n, from, s + n, m)
            == Copied(to, d, from, s, n + m)
  {}

  predicate ExactSize(len: nat) {
    len <= 4 || len == 8 || len == 16 || len % 32 == 0
  }

  lemma ExactIsWhole(len: nat)
    ensures ExactSize(len) <==> Footprint(len) == len
  {}

  /** The footprint is the least exact size that holds the request. */
  lemma FootprintIsLeast(len: nat)
    ensures len <= Footprint(len) && ExactSize(Footprint(len))
    ensures forall m :: len <= m < Footprint(len) ==> !ExactSize(m)
  {
    RoundUpIsLeast(len);
  }

  lemma RoundUpIsLeast(len: nat)
    ensures RoundUp32(len) % 32 == 0
    ensures forall m :: len <= m < RoundUp32(len) ==> m % 32 != 0
  {}

  /** The copy leaves alone every byte past the request, whatever the memory holds, exactly
      for these sizes. */
  lemma CopyIsExactIff(len: nat)
    ensures ExactSize(len) <==>
            forall to: seq<byte>, from: seq<byte> ::
              |to| == |from| == Footprint(len) ==>
                Copied(to, 0, from, 0, Footprint(len)) == Copied(to, 0, from, 0, len)
  {
    ExactIsWhole(len);
    if !ExactSize(len) {
      var n := Footprint(len);
      var to: seq<byte>, from: seq<byte> := seq(n, i => 0), seq(n, i => 1);
      CopiedAt(to, 0, from, 0, n, len);
      CopiedAt(to, 0, from, 0, len, len);
      assert Copied(to, 0, from, 0, n)[len] != Copied(to, 0, from, 0, len)[len];
    }
  }

  /** One load and one store of `n` bytes. */
  method Move(dst: array<byte>, d: nat, src: array<byte>, s: nat, n: nat)
    requires dst != src && d + n <= dst.Length && s + n <= src.Length
    modifies dst
    ensures dst[..] == Copied(old(dst[..]), d, src[..], s, n)
  {
    forall i | 0 <= i < n {
      dst[d + i] := src[s + i];
    }
  }

  /** The 5 to 8 byte class moves a whole word. */
  method MemcpySmall(dst: array<byte>, d: nat, src: array<byte>, s: nat, len: nat)
    requires dst != src && 1 <= len <= 8
    requires d + Footprint(len) <= dst.Length && s + Footprint(len) <= src.Length
    modifies dst
    ensures dst[..] == Copied(old(dst[..]), d, src[..], s, Footprint(len))
  {
    if len == 1 {
      Move(dst, d, src, s, 1);
    } else if len == 2 {
      Move(dst, d, src, s, 2);
    } else if len == 3 {
      Move(dst, d, src, s, 2);
      Move(dst, d + 2, src, s + 2, 1);
      CopiedContinues(old(dst[..]), d, src[..], s, 2, 1);
    } else if len == 4 {
      Move(dst, d, src, s, 4);
    } else {
      Move(dst, d, src, s, 8);
    }
  }

  method MemcpySse(dst: array<byte>, d: nat, src: array<byte>, s: nat, len: nat)
    requires dst != src && len <= 16 && d + 16 <= dst.Length && s + 16 <= src.Length
    modifies dst
    ensures dst[..] == Copied(old(dst[..]), d, src[..], s, 16)
  {
    Move(dst, d, src, s, 16);
  }

  method MemcpyAvx(dst: array<byte>, d: nat, src: array<byte>, s: nat, len: nat)
    requires dst != src && len <= 32 && d + 32 <= dst.Length && s + 32 <= src.Length
    modifies dst
    ensures dst[..] == Copied(old(dst[..]), d, src[..], s, 32)
  {
    Move(dst, d, src, s, 32);
  }

  method MemcpyAvx2(dst: array<byte>, d: nat, src: array<byte>, s: nat, len: nat)
    requires dst != src && 1 <= len <= 64
    requires d + RoundUp32(len) <= dst.Length && s + RoundUp32(len) <= src.Length
    modifies dst
    ensures dst[..] == Copied(old(dst[..]), d, src[..], s, RoundUp32(len))
  {
    Move(dst, d, src, s, 32);
    if len > 32 {
      var remaining := len - 32;
      if remaining <= 32 {
        Move(dst, d + 32, src, s + 32, 32);
        CopiedContinues(old(dst[..]), d, src[..], s, 32, 32);
      }
    }
  }

  lemma RoundUpAfter(k: nat, r: nat)
    ensures RoundUp32(32 * k + r) == 32 * k + RoundUp32(r)
  {
    RemainderIsUnique(32 * k + r + 31, 32, k + (r + 31) / 32, (r + 31) % 32);
  }

  lemma ChunksOf32(len: nat)
    ensures len == len / 32 * 32 + len % 32
    ensures RoundUp32(len) == len / 32 * 32 + RoundUp32(len % 32)
    ensures RoundUp32(len % 32) == if len % 32 == 0 then 0 else 32
  {
    RoundUpAfter(len / 32, len % 32);
  }

  lemma ChunksOf64(len: nat)
    ensures len == len / 64 * 64 + len % 64
    ensures RoundUp32(len) == len / 64 * 64 + RoundUp32(len % 64)
  {
    RoundUpAfter(2 * (len / 64), len % 64);
  }

  /** The next `n` bytes of a copy that has done the first `done` ones. */
  method MoveNext(dst: array<byte>, d: nat, src: array<byte>, s: nat, n: nat,
                  done: nat, ghost before: seq<byte>)
    requires dst != src && |before| == dst.Length
    requires d + done + n <= dst.Length && s + done + n <= src.Length
    requires dst[..] == Copied(before, d, src[..], s, done)
    modifies dst
    ensures dst[..] == Copied(before, d, src[..], s, done + n)
  {
    Move(dst, d + done, src, s + done, n);
    CopiedContinues(before, d, src[..], s, done, n);
  }

  method MemcpyAvx2Next(dst: array<byte>, d: nat, src: array<byte>, s: nat, len: nat,
                        done: nat, ghost before: seq<byte>)
    requires dst != src && 1 <= len <= 64 && |before| == dst.Length
    requires d + done + RoundUp32(len) <= dst.Length && s + done + RoundUp32(len) <= src.Length
    requires dst[..] == Copied(before, d, src[..], s, done)
    modifies dst
    ensures dst[..] == Copied(before, d, src[..], s, done + RoundUp32(len))
  {
    MemcpyAvx2(dst, d + done, src, s + done, len);
    CopiedContinues(before, d, src[..], s, done, RoundUp32(len));
  }

  method MemcpyAvxNext(dst: array<byte>, d: nat, src: array<byte>, s: nat, len: nat,
                       done: nat, ghost before: seq<byte>)
    requires dst != src && len <= 32 && |before| == dst.Length
    requires d + done + 32 <= dst.Length && s + done + 32 <= src.Length
    requires dst[..] == Copied(before, d, src[..], s, done)
    modifies dst
    ensures dst[..] == Copied(before, d, src[..], s, done + 32)
  {
    MemcpyAvx(dst, d + done, src, s + done, len);
    CopiedContinues(before, d, src[..], s, done, 32);
  }

  /** More than 64 bytes with AVX-512: 64-byte chunks, then the AVX2 class. */
  method MemcpyAvx512(dst: array<byte>, d: nat, src: array<byte>, s: nat, len: nat)
    requires dst != src
    requires d + RoundUp32(len) <= dst.Length && s + RoundUp32(len) <= src.Length
    modifies dst
    ensures dst[..] == Copied(old(dst[..]), d, src[..], s, RoundUp32(len))
  {
    ghost var before := dst[..];
    ChunksOf64(len);
    var chunks := len / 64;
    var offset := 0;
    for i := 0 to chunks
      invariant offset == 64 * i
      invariant dst[..] == Copied(before, d, src[..], s, offset)
    {
      MoveNext(dst, d, src, s, 64, offset, before);
      offset := offset + 64;
    }
    var remaining := len % 64;
    if remaining > 0 {
      MemcpyAvx2Next(dst, d, src, s, remaining, offset, before);
    }
  }

  /** More than 64 bytes without AVX-512: 32-byte chunks. */
  method MemcpyFallback(dst: array<byte>, d: nat, src: array<byte>, s: nat, len: nat)
    requires dst != src
    requires d + RoundUp32(len) <= dst.Length && s + RoundUp32(len) <= src.Length
    modifies dst
    ensures dst[..] == Copied(old(dst[..]), d, src[..], s, RoundUp32(len))
  {
    ghost var before := dst[..];
    ChunksOf32(len);
    var chunks := len / 32;
    var offset := 0;
    for i := 0 to chunks
      invariant offset == 32 * i
      invariant dst[..] == Copied(before, d, src[..], s, offset)
    {
      MemcpyAvx2Next(dst, d, src, s, 32, offset, before);
      offset := offset + 32;
    }
    var remaining := len % 32;
    if remaining > 0 {
      MemcpyAvxNext(dst, d, src, s, remaining, offset, before);
    }
  }

  /** On x86_64, with or without AVX-512: the bytes moved are exactly the footprint. */
  method MemcpySimdOptimized(dst: array<byte>, d: nat, src: array<byte>, s: nat, len: nat,
                             avx512: bool)
    requires dst != src
    requires d + Footprint(len) <= dst.Length && s + Footprint(len) <= src.Length
    modifies dst
    ensures dst[..] == Copied(old(dst[..]), d, src[..], s, Footprint(len))
  {
    if len == 0 {
      return;
    } else if len <= 8 {
      MemcpySmall(dst, d, src, s, len);
    } else if len <= 16 {
      MemcpySse(dst, d, src, s, len);
    } else if len <= 32 {
      MemcpyAvx(dst, d, src, s, len);
    } else if len <= 64 {
      MemcpyAvx2(dst, d, src, s, len);
    } else if avx512 {
      MemcpyAvx512(dst, d, src, s, len);
    } else {
      MemcpyFallback(dst, d, src, s, len);
    }
  }

  /** `movemask(cmpeq(a, b))`: bit `i` says whether byte `i` agrees. */
  function Movemask(a: seq<byte>, b: seq<byte>): nat
    requires |a| == |b|
  {
    if a == [] then 0 else 2 * Movemask(a[1..], b[1..]) + if a[0] == b[0] then 1 else 0
  }

  lemma BitOfDouble(m: nat, low: nat, i: nat)
    requires low < 2
    ensures Bit(2 * m + low, i) <==> if i == 0 then low == 1 else Bit(m, i - 1)
  {
    assert (2 * m + low) / 2 == m;
  }

  lemma {:induction false} MovemaskBit(a: seq<byte>, b: seq<byte>, i: nat)
    requires |a| == |b|
    ensures Movemask(a, b) < Pow2(|a|)
    ensures Bit(Movemask(a, b), i) <==> i < |a| && a[i] == b[i]
  {
    if a == [] {
      BitOfZero(i);
    } else {
      MovemaskBit(a[1..], b[1..], if i == 0 then 0 else i - 1);
      BitOfDouble(Movemask(a[1..], b[1..]), if a[0] == b[0] then 1 else 0, i);
    }
  }

  predicate LowBitsSet(mask: nat, n: nat) {
    forall i: nat :: i < n ==> Bit(mask, i)
  }

  /** `(mask & valid_mask) == valid_mask` asks for the lowest `n` bits of `mask`. */
  lemma ValidMaskTest(mask: nat, n: nat)
    ensures And(mask, Shl1(n) - 1) == Shl1(n) - 1 <==> LowBitsSet(mask, n)
  {
    var valid := Shl1(n) - 1;
    AndLowMask(mask, n);
    forall i: nat ensures Bit(And(mask, valid), i) <==> Bit(mask, i) && Bit(valid, i) {
      BitOfAnd(mask, valid, i);
    }
    forall i: nat ensures Bit(valid, i) <==> i < n {
      BitOfLowMask(n, i);
    }
    if And(mask, valid) == valid {
      forall i | 0 <= i < n ensures Bit(mask, i) {
        BitOfAnd(mask, valid, i);
      }
    } else if LowBitsSet(mask, n) {
      SameBits(And(mask, valid), valid, n);
    }
  }

  lemma FullMasks()
    ensures Shl1(16) - 1 == 0xFFFF && Shl1(32) - 1 == 0xFFFF_FFFF
  {
    Pow64();
  }

  predicate Agree(a: seq<byte>, i: nat, b: seq<byte>, j: nat, n: nat)
    requires i + n <= |a| && j + n <= |b|
  {
    forall k :: 0 <= k < n ==> SameByte(a, i, b, j, k)
  }

  predicate SameByte(a: seq<byte>, i: nat, b: seq<byte>, j: nat, k: nat)
    requires i + k < |a| && j + k < |b|
  {
    a[i + k] == b[j + k]
  }

  /** Comparing words, or slices, is comparing their bytes. */
  lemma AgreeIsEqual(a: seq<byte>, i: nat, b: seq<byte>, j: nat, n: nat)
    requires i + n <= |a| && j + n <= |b|
    ensures Agree(a, i, b, j, n) <==> a[i..i + n] == b[j..j + n]
  {
    if a[i..i + n] == b[j..j + n] {
      forall k | 0 <= k < n ensures SameByte(a, i, b, j, k) {
        assert a[i..i + n][k] == b[j..j + n][k];
      }
    } else if Agree(a, i, b, j, n) {
      var va, vb := a[i..i + n], b[j..j + n];
      forall k | 0 <= k < n ensures va[k] == vb[k] {
        assert SameByte(a, i, b, j, k);
      }
    }
  }

  lemma AgreeJoins(a: seq<byte>, i: nat, b: seq<byte>, j: nat, n: nat, m: nat)
    requires i + n + m <= |a| && j + n + m <= |b|
    ensures Agree(a, i, b, j, n + m) <==> Agree(a, i, b, j, n) && Agree(a, i + n, b, j + n, m)
  {
    var i', j' := i + n, j + n;
    if Agree(a, i, b, j, n + m) {
      forall k | 0 <= k < m ensures SameByte(a, i', b, j', k) {
        assert SameByte(a, i, b, j, n + k);
      }
    } else if Agree(a, i, b, j, n) && Agree(a, i + n, b, j + n, m) {
      forall k | 0 <= k < n + m ensures SameByte(a, i, b, j, k) {
        assert k >= n ==> SameByte(a, i', b, j', k - n);
      }
    }
  }

  /** The masked compare of a register of `width` bytes decides the first `len` of them. */
  lemma MaskedCompare(a: seq<byte>, i: nat, b: seq<byte>, j: nat, len: nat, width: nat)
    requires len <= width && i + width <= |a| && j + width <= |b|
    ensures
      var mask := Movemask(a[i..i + width], b[j..j + width]);
      And(mask, Shl1(len) - 1) == Shl1(len) - 1 <==> Agree(a, i, b, j, len)
  {
    var va, vb := a[i..i + width], b[j..j + width];
    var mask := Movemask(va, vb);
    ValidMaskTest(mask, len);
    forall k: nat | k < len ensures Bit(mask, k) <==> SameByte(a, i, b, j, k) {
      MovemaskBit(va, vb, k);
    }
  }

  method MemcmpSse(a: array<byte>, i: nat, b: array<byte>, j: nat, len: nat)
    returns (same: bool)
    requires len <= 16 && i + 16 <= a.Length && j + 16 <= b.Length
    ensures same <==> Agree(a[..], i, b[..], j, len)
  {
    var mask := Movemask(a[i..i + 16], b[j..j + 16]);
    var validMask := if len >= 16 then 0xFFFF else Shl1(len) - 1;
    same := And(mask, validMask) == validMask;
    FullMasks();
    assert a[..][i..i + 16] == a[i..i + 16] && b[..][j..j + 16] == b[j..j + 16];
    MaskedCompare(a[..], i, b[..], j, len, 16);
  }

  method MemcmpAvx2(a: array<byte>, i: nat, b: array<byte>, j: nat, len: nat)
    returns (same: bool)
    requires len <= 32 && i + 32 <= a.Length && j + 32 <= b.Length
    ensures same <==> Agree(a[..], i, b[..], j, len)
  {
    var mask := Movemask(a[i..i + 32], b[j..j + 32]);
    var validMask := if len >= 32 then 0xFFFF_FFFF else Shl1(len) - 1;
    same := And(mask, validMask) == validMask;
    FullMasks();
    assert a[..][i..i + 32] == a[i..i + 32] && b[..][j..j + 32] == b[j..j + 32];
    MaskedCompare(a[..], i, b[..], j, len, 32);
  }

  method MemcmpLarge(a: array<byte>, i: nat, b: array<byte>, j: nat, len: nat)
    returns (same: bool)
    requires i + RoundUp32(len) <= a.Length && j + RoundUp32(len) <= b.Length
    ensures same <==> Agree(a[..], i, b[..], j, len)
  {
    ChunksOf32(len);
    var chunks := len / 32;
    for c := 0 to chunks
      invariant Agree(a[..], i, b[..], j, c * 32)
    {
      var offset := c * 32;
      var equal := MemcmpAvx2(a, i + offset, b, j + offset, 32);
      AgreeJoins(a[..], i, b[..], j, offset, 32);
      if !equal {
        AgreeJoins(a[..], i, b[..], j, offset + 32, len - offset - 32);
        return false;
      }
    }
    var remaining := len % 32;
    if remaining > 0 {
      same := MemcmpAvx2(a, i + chunks * 32, b, j + chunks * 32, remaining);
      AgreeJoins(a[..], i, b[..], j, chunks * 32, remaining);
      return;
    }
    same := true;
  }

  /** How many bytes `memcmp_simd_optimized` compares for a request of `len`. */
  function Compared(len: nat): (n: nat)
    ensures len <= n <= Footprint(len)
  {
    if 5 <= len <= 8 then 8 else len
  }

  method MemcmpSmall(a: array<byte>, i: nat, b: array<byte>, j: nat, len: nat)
    returns (same: bool)
    requires 1 <= len <= 8
    requires i + Compared(len) <= a.Length && j + Compared(len) <= b.Length
    ensures same <==> Agree(a[..], i, b[..], j, Compared(len))
  {
    if len == 3 {
      same := a[i..i + 2] == b[j..j + 2] && a[i + 2] == b[j + 2];
      AgreeIsEqual(a[..], i, b[..], j, 3);
      assert a[i..i + 3] == a[i..i + 2] + [a[i + 2]] && b[j..j + 3] == b[j..j + 2] + [b[j + 2]];
    } else if len <= 4 {
      same := a[i..i + len] == b[j..j + len];
      AgreeIsEqual(a[..], i, b[..], j, len);
    } else {
      same := a[i..i + 8] == b[j..j + 8];
      AgreeIsEqual(a[..], i, b[..], j, 8);
    }
  }

  /** On x86_64: true exactly when the compared bytes agree. */
  method MemcmpSimdOptimized(a: array<byte>, i: nat, b: array<byte>, j: nat, len: nat)
    returns (same: bool)
    requires i + Footprint(len) <= a.Length && j + Footprint(len) <= b.Length
    ensures same <==> Agree(a[..], i, b[..], j, Compared(len))
  {
    if len == 0 {
      same := true;
    } else if len <= 8 {
      same := MemcmpSmall(a, i, b, j, len);
    } else if len <= 16 {
      same := MemcmpSse(a, i, b, j, len);
    } else if len <= 32 {
      same := MemcmpAvx2(a, i, b, j, len);
    } else {
      same := MemcmpLarge(a, i, b, j, len);
    }
  }

  /** The compare decides the requested bytes, whatever follows them, except for 5 to 7. */
  lemma CompareIsExactIff(len: nat)
    ensures !(5 <= len <= 7) <==>
            forall a: seq<byte>, b: seq<byte> :: |a| == |b| == Footprint(len) ==>
              (Agree(a, 0, b, 0, Compared(len)) <==> Agree(a, 0, b, 0, len))
  {
    if 5 <= len <= 7 {
      var a: seq<byte>, b: seq<byte> := seq(8, i => 0), seq(8, i => if i < len then 0 else 1);
      assert !SameByte(a, 0, b, 0, len);
      assert Agree(a, 0, b, 0, len);
    }
  }

  /** Zeroing in 32-byte chunks with a byte tail: exactly `len` bytes. */
  method MemzeroSimdOptimized(p: array<byte>, at: nat, len: nat)
    requires at + len <= p.Length
    modifies p
    ensures p[..] == old(p[..at]) + seq(len, i => 0) + old(p[at + len..])
  {
    var chunks := len / 32;
    var offset := 0;
    for c := 0 to chunks
      invariant offset == 32 * c
      invariant forall k :: 0 <= k < p.Length ==>
                  p[k] == if at <= k < at + offset then 0 else old(p[k])
    {
      forall k | 0 <= k < 32 {
        p[at + offset + k] := 0;
      }
      offset := offset + 32;
    }
    var remaining := len % 32;
    for i := 0 to remaining
      invariant forall k :: 0 <= k < p.Length ==>
                  p[k] == if at <= k < at + offset + i then 0 else old(p[k])
    {
      p[at + offset + i] := 0;
    }
  }

  /** `copy_avx2` of perf/simd.rs: its byte-wise tail makes the copy exact. */
  method CopyAvx2(dst: array<byte>, d: nat, src: array<byte>, s: nat, len: nat)
    requires dst != src && d + len <= dst.Length && s + len <= src.Length
    modifies dst
    ensures dst[..] == Copied(old(dst[..]), d, src[..], s, len)
  {
    ghost var before := dst[..];
    var offset := 0;
    while offset + 32 <= len
      invariant offset <= len && dst[..] == Copied(before, d, src[..], s, offset)
    {
      MoveNext(dst, d, src, s, 32, offset, before);
      offset := offset + 32;
    }
    while offset < len
      invariant offset <= len && dst[..] == Copied(before, d, src[..], s, offset)
    {
      MoveNext(dst, d, src, s, 1, offset, before);
      offset := offset + 1;
    }
  }

  /** `compare_avx2` of perf/simd.rs: exactly the requested bytes. */
  method CompareAvx2(a: array<byte>, i: nat, b: array<byte>, j: nat, len: nat)
    returns (same: bool)
    requires i + len <= a.Length && j + len <= b.Length
    ensures same <==> Agree(a[..], i, b[..], j, len)
  {
    var offset := 0;
    while offset + 32 <= len
      invariant offset <= len && Agree(a[..], i, b[..], j, offset)
    {
      var mask := Movemask(a[i + offset..i + offset + 32], b[j + offset..j + offset + 32]);
      AllLanes(a[..], i + offset, b[..], j + offset);
      assert a[..][i + offset..i + offset + 32] == a[i + offset..i + offset + 32];
      assert b[..][j + offset..j + offset + 32] == b[j + offset..j + offset + 32];
      AgreeJoins(a[..], i, b[..], j, offset, 32);
      if mask != 0xFFFF_FFFF {
        AgreeJoins(a[..], i, b[..], j, offset + 32, len - offset - 32);
        return false;
      }
      offset := offset + 32;
    }
    while offset < len
      invariant offset <= len && Agree(a[..], i, b[..], j, offset)
    {
      AgreeJoins(a[..], i, b[..], j, offset, 1);
      assert SameByte(a[..], i + offset, b[..], j + offset, 0)
             <==> a[i + offset] == b[j + offset];
      if a[i + offset] != b[j + offset] {
        AgreeJoins(a[..], i, b[..], j, offset + 1, len - offset - 1);
        return false;
      }
      offset := offset + 1;
    }
    same := true;
  }

  /** A 32-lane mask equals -1 exactly when all 32 bytes agree. */
  lemma AllLanes(a: seq<byte>, i: nat, b: seq<byte>, j: nat)
    requires i + 32 <= |a| && j + 32 <= |b|
    ensures Movemask(a[i..i + 32], b[j..j + 32]) == 0xFFFF_FFFF <==> Agree(a, i, b, j, 32)
  {
    var va, vb := a[i..i + 32], b[j..j + 32];
    MovemaskBit(va, vb, 0);
    MaskedCompare(a, i, b, j, 32, 32);
    FullLanes(Movemask(va, vb), 32);
    FullMasks();
  }

  lemma FullLanes(mask: nat, k: nat)
    requires mask < Pow2(k)
    ensures And(mask, Shl1(k) - 1) == Shl1(k) - 1 <==> mask == Shl1(k) - 1
  {
    AndLowMask(mask, k);
    RemainderIsUnique(mask, Pow2(k), 0, mask);
  }

  /** `add_u64_batch`: lane-wise wrapping sums, four at a time with a scalar tail. */
  method AddU64Batch(a: array<nat>, b: array<nat>, result: array<nat>)
    requires a.Length == b.Length == result.Length && result != a && result != b
    modifies result
    ensures forall i :: 0 <= i < a.Length ==> result[i] == (a[i] + b[i]) % U64
  {
    var len := a.Length;
    var i := 0;
    while i + 4 <= len
      invariant i <= len && forall k :: 0 <= k < i ==> result[k] == (a[k] + b[k]) % U64
    {
      forall k | 0 <= k < 4 {
        result[i + k] := (a[i + k] + b[i + k]) % U64;
      }
      i := i + 4;
    }
    while i < len
      invariant i <= len && forall k :: 0 <= k < i ==> result[k] == (a[k] + b[k]) % U64
    {
      result[i] := (a[i] + b[i]) % U64;
      i := i + 1;
    }
  }
}
