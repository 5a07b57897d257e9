/** The memory-mapped byte ring of perf/zero_copy_io.rs, copying with the routine of
    perf/hardware_optimizations.rs and so sometimes past the bytes it was asked for. */
module ByteRing {
  import opened Bits
  import opened SimdMemory
  import opened Wrappers

  /** `arena` holds the mapping, its first `size` bytes, and the bytes after the mapping. */
  datatype Ring = Ring(arena: seq<byte>, readPos: nat, writePos: nat, size: nat) {
    predicate Valid() {
      size >= 1 && |arena| == size + SLACK && readPos < size && writePos < size
    }

    function AvailableData(): (n: nat)
      requires Valid()
      ensures n < size
    {
      if writePos >= readPos then writePos - readPos else size - (readPos - writePos)
    }

    /** As `write_data` computes it. */
    function FreeSpace(): nat
      requires Valid()
    {
      if writePos >= readPos then size - (writePos - readPos) - 1 else readPos - writePos - 1
    }

    /** The bytes written and not yet read. */
    function Contents(): seq<byte>
      requires Valid()
    {
      if writePos >= readPos then arena[readPos..writePos]
      else arena[readPos..size] + arena[..writePos]
    }

    function PastMapping(): seq<byte>
      requires Valid()
    {
      arena[size..]
    }
  }

  /** How many bytes the one or two copies of a call touch. */
  datatype Reach = Reach(first: nat, second: nat)

  /** The copies of `len` bytes at offset `at` touch at least what they are asked for. */
  predicate Fits(c: Reach, at: nat, len: nat, size: nat)
    requires at < size
  {
    if at + len <= size then len <= c.first <= len + SLACK && c.second == 0
    else
      && size - at <= c.first <= size - at + SLACK
      && at + len - size <= c.second <= at + len - size + SLACK
  }

  /** The bytes touched by the program's copy routine, or by one that keeps to its request. */
  function Touched(simd: bool, n: nat): (r: nat)
    ensures n <= r <= n + SLACK
  {
    if simd then Footprint(n) else n
  }

  function ReachOf(simd: bool, at: nat, len: nat, size: nat): (c: Reach)
    requires at < size
    ensures Fits(c, at, len, size)
  {
    if at + len <= size then Reach(Touched(simd, len), 0)
    else Reach(Touched(simd, size - at), Touched(simd, at + len - size))
  }

  /** The index `k` bytes on from a position, going round once: `(pos + k) % size`. */
  function WrapIndex(pos: nat, size: nat, k: nat): (i: nat)
    requires pos < size && k < size
    ensures i < size
  {
    if pos + k < size then pos + k else pos + k - size
  }

  lemma WrapIsModulo(pos: nat, size: nat, k: nat)
    requires pos < size && k < size
    ensures WrapIndex(pos, size, k) == (pos + k) % size
  {
    RemainderIsUnique(pos + k, size, if pos + k < size then 0 else 1, WrapIndex(pos, size, k));
  }

  /** `write_data`; `source` is the caller's slice and the memory after it. */
  function Write(s: Ring, source: seq<byte>, len: nat, c: Reach): (t: Ring)
    requires s.Valid() && |source| == len + SLACK && len <= s.FreeSpace()
    requires Fits(c, s.writePos, len, s.size)
    ensures t.Valid() && t.size == s.size && t.readPos == s.readPos
    ensures t.writePos == WrapIndex(s.writePos, s.size, len)
    ensures t.arena == WriteArena(s, source, len, c)
  {
    Ring(WriteArena(s, source, len, c), s.readPos, WrapIndex(s.writePos, s.size, len),
         s.size)
  }

  function WriteArena(s: Ring, source: seq<byte>, len: nat, c: Reach): (arena: seq<byte>)
    requires s.Valid() && |source| == len + SLACK && len <= s.FreeSpace()
    requires Fits(c, s.writePos, len, s.size)
    ensures |arena| == |s.arena|
  {
    var once := Copied(s.arena, s.writePos, source, 0, c.first);
    if s.writePos + len <= s.size then once
    else Copied(once, 0, source, s.size - s.writePos, c.second)
  }

  function ReadLen(s: Ring, n: nat): nat
    requires s.Valid()
  {
    if n < s.AvailableData() then n else s.AvailableData()
  }

  /** `read_data` into a buffer of `n` bytes; `out` is that buffer and the memory after it. */
  function ReadInto(s: Ring, out: seq<byte>, n: nat, c: Reach): (r: seq<byte>)
    requires s.Valid() && |out| == n + SLACK
    requires Fits(c, s.readPos, ReadLen(s, n), s.size)
    ensures |r| == |out|
  {
    var len := ReadLen(s, n);
    if len == 0 then out
    else
      var once := Copied(out, 0, s.arena, s.readPos, c.first);
      if s.readPos + len <= s.size then once
      else Copied(once, s.size - s.readPos, s.arena, 0, c.second)
  }

  function AfterRead(s: Ring, n: nat): (r: Ring)
    requires s.Valid()
    ensures r.Valid() && r.size == s.size && r.arena == s.arena
  {
    s.(readPos := WrapIndex(s.readPos, s.size, ReadLen(s, n)))
  }

  /** Every byte of the mapping but one can be used, always. */
  lemma SpaceIsAccounted(s: Ring)
    requires s.Valid()
    ensures s.AvailableData() + s.FreeSpace() == s.size - 1
    ensures |s.Contents()| == s.AvailableData()
  {}

  lemma WriteCounts(s: Ring, source: seq<byte>, len: nat, c: Reach)
    requires s.Valid() && |source| == len + SLACK && len <= s.FreeSpace()
    requires Fits(c, s.writePos, len, s.size)
    ensures Write(s, source, len, c).AvailableData() == s.AvailableData() + len
  {}

  /** A write appends when what waits to be read afterwards is what waited and the data. */
  predicate Appends(s: Ring, source: seq<byte>, len: nat, c: Reach)
    requires s.Valid() && |source| == len + SLACK && len <= s.FreeSpace()
    requires Fits(c, s.writePos, len, s.size)
  {
    Write(s, source, len, c).Contents() == s.Contents() + source[..len]
  }

  /** It is clean when it also leaves everything outside the mapping alone. */
  predicate Clean(s: Ring, source: seq<byte>, len: nat, c: Reach)
    requires s.Valid() && |source| == len + SLACK && len <= s.FreeSpace()
    requires Fits(c, s.writePos, len, s.size)
  {
    && Appends(s, source, len, c)
    && Write(s, source, len, c).PastMapping() == s.PastMapping()
  }

  /** The copies' reach ends before the unread bytes. */
  predicate KeepsQueue(s: Ring, len: nat, c: Reach)
    requires s.Valid() && len <= s.FreeSpace() && Fits(c, s.writePos, len, s.size)
  {
    var w, r := s.writePos, s.readPos;
    if w + len <= s.size then w < r ==> w + c.first <= r else c.second <= r
  }

  /** It also ends before the end of the mapping. */
  predicate Roomy(s: Ring, len: nat, c: Reach)
    requires s.Valid() && len <= s.FreeSpace() && Fits(c, s.writePos, len, s.size)
  {
    KeepsQueue(s, len, c) && s.writePos + c.first <= s.size
  }

  /** Which byte of the source a write leaves in byte `i` of the arena, if any. */
  function SourceIndex(s: Ring, len: nat, c: Reach, i: nat): (j: Option<nat>)
    requires s.Valid() && len <= s.FreeSpace() && Fits(c, s.writePos, len, s.size)
    ensures j.Some? ==> j.value < len + SLACK
  {
    var w := s.writePos;
    if w + len > s.size && i < c.second then Some(s.size - w + i)
    else if w <= i < w + c.first then Some(i - w)
    else None
  }

  lemma WrittenAt(s: Ring, source: seq<byte>, len: nat, c: Reach, i: nat)
    requires s.Valid() && |source| == len + SLACK && len <= s.FreeSpace() && i < |s.arena|
    requires Fits(c, s.writePos, len, s.size)
    ensures WriteArena(s, source, len, c)[i]
            == match SourceIndex(s, len, c, i) case Some(j) => source[j] case None => s.arena[i]
  {
    if s.writePos + len <= s.size {
      CopiedAt(s.arena, s.writePos, source, 0, c.first, i);
    } else {
      CopiedTwiceAt(s.arena, s.writePos, source, c.first, s.size - s.writePos, c.second, i);
    }
  }

  lemma CopiedTwiceAt(to: seq<byte>, d: nat, from: seq<byte>, n: nat, s: nat, m: nat, i: nat)
    requires d + n <= |to| && n <= |from| && m <= |to| && s + m <= |from| && i < |to|
    ensures Copied(Copied(to, d, from, 0, n), 0, from, s, m)[i]
            == if i < m then from[s + i] else if d <= i < d + n then from[i - d] else to[i]
  {
    CopiedAt(to, d, from, 0, n, i);
    CopiedAt(Copied(to, d, from, 0, n), 0, from, s, m, i);
  }

  lemma ContentsAt(s: Ring, k: nat)
    requires s.Valid() && k < s.AvailableData()
    ensures |s.Contents()| == s.AvailableData()
    ensures s.Contents()[k] == s.arena[WrapIndex(s.readPos, s.size, k)]
  {}

  /** With room before them the unread bytes stay and each data byte lands in its place. */
  lemma RoomyIndex(s: Ring, len: nat, c: Reach, k: nat)
    requires s.Valid() && len <= s.FreeSpace() && Fits(c, s.writePos, len, s.size)
    requires KeepsQueue(s, len, c) && k < s.AvailableData() + len
    ensures SourceIndex(s, len, c, WrapIndex(s.readPos, s.size, k))
            == if k < s.AvailableData() then None else Some(k - s.AvailableData())
  {}

  lemma RoomyByte(s: Ring, source: seq<byte>, len: nat, c: Reach, k: nat)
    requires s.Valid() && |source| == len + SLACK && len <= s.FreeSpace()
    requires Fits(c, s.writePos, len, s.size) && KeepsQueue(s, len, c)
    requires k < s.AvailableData() + len
    ensures
      var t := Write(s, source, len, c);
      && |t.Contents()| == s.AvailableData() + len
      && t.Contents()[k]
         == if k < s.AvailableData() then s.Contents()[k] else source[k - s.AvailableData()]
  {
    var t := Write(s, source, len, c);
    WriteCounts(s, source, len, c);
    RoomyIndex(s, len, c, k);
    WrittenAt(s, source, len, c, WrapIndex(s.readPos, s.size, k));
    ContentsAt(t, k);
    if k < s.AvailableData() { ContentsAt(s, k); }
  }

  lemma KeepingAppends(s: Ring, source: seq<byte>, len: nat, c: Reach)
    requires s.Valid() && |source| == len + SLACK && len <= s.FreeSpace()
    requires Fits(c, s.writePos, len, s.size) && KeepsQueue(s, len, c)
    ensures Appends(s, source, len, c)
  {
    var t := Write(s, source, len, c);
    var had, has := s.Contents() + source[..len], t.Contents();
    WriteCounts(s, source, len, c);
    SpaceIsAccounted(s);
    SpaceIsAccounted(t);
    forall k: nat | k < |had| ensures has[k] == had[k] {
      RoomyByte(s, source, len, c, k);
    }
    assert has == had;
  }

  lemma RoomyIsClean(s: Ring, source: seq<byte>, len: nat, c: Reach)
    requires s.Valid() && |source| == len + SLACK && len <= s.FreeSpace()
    requires Fits(c, s.writePos, len, s.size) && Roomy(s, len, c)
    ensures Clean(s, source, len, c)
  {
    var t := Write(s, source, len, c);
    KeepingAppends(s, source, len, c);
    forall i: nat | s.size <= i < |s.arena| ensures t.arena[i] == s.arena[i] {
      WrittenAt(s, source, len, c, i);
    }
    assert t.PastMapping() == s.PastMapping();
  }

  /** `len` data bytes that are all `data`, and after them in memory bytes that are `rest`. */
  function Bytes(len: nat, data: byte, rest: byte): (source: seq<byte>)
    ensures |source| == len + SLACK
  {
    seq(len + SLACK, i => if i < len then data else rest)
  }

  function OtherByte(b: byte): (c: byte)
    ensures c != b
  {
    if b == 0 then 1 else 0
  }

  lemma FirstByte(s: Ring, data: seq<byte>)
    requires s.Valid() && data != [] && data[0] == s.arena[s.readPos]
    ensures s.Contents() + data != [] && (s.Contents() + data)[0] == s.arena[s.readPos]
  {
    if s.AvailableData() > 0 { ContentsAt(s, 0); } else { assert s.Contents() == []; }
  }

  lemma FirstByteChanges(s: Ring, source: seq<byte>, len: nat, c: Reach)
    requires s.Valid() && |source| == len + SLACK && 0 < len <= s.FreeSpace()
    requires Fits(c, s.writePos, len, s.size) && source[0] == s.arena[s.readPos]
    requires WriteArena(s, source, len, c)[s.readPos] != s.arena[s.readPos]
    ensures !Appends(s, source, len, c)
  {
    var t := Write(s, source, len, c);
    WriteCounts(s, source, len, c);
    ContentsAt(t, 0);
    FirstByte(s, source[..len]);
    assert t.Contents()[0] != (s.Contents() + source[..len])[0];
  }

  /** A write that reaches the unread bytes changes the first of them, past the data. */
  lemma ReachesUnread(s: Ring, len: nat, c: Reach)
    requires s.Valid() && len <= s.FreeSpace() && Fits(c, s.writePos, len, s.size)
    requires (len > 0 || c.first == 0) && !KeepsQueue(s, len, c)
    ensures len > 0 && SourceIndex(s, len, c, s.readPos).Some?
    ensures SourceIndex(s, len, c, s.readPos).value >= len
  {}

  /** Then some caller's data is not appended. */
  lemma UnreadIsLost(s: Ring, len: nat, c: Reach) returns (source: seq<byte>)
    requires s.Valid() && len <= s.FreeSpace() && Fits(c, s.writePos, len, s.size)
    requires (len > 0 || c.first == 0) && !KeepsQueue(s, len, c)
    ensures |source| == len + SLACK && !Appends(s, source, len, c)
  {
    ReachesUnread(s, len, c);
    var was := s.arena[s.readPos];
    source := Bytes(len, was, OtherByte(was));
    WrittenAt(s, source, len, c, s.readPos);
    FirstByteChanges(s, source, len, c);
  }

  /** An accepted write appends exactly its data for every caller exactly when the reach of
      its copies ends before the unread bytes. */
  lemma WriteAppendsIff(simd: bool, s: Ring, len: nat)
    requires s.Valid() && len <= s.FreeSpace()
    ensures
      var c := ReachOf(simd, s.writePos, len, s.size);
      KeepsQueue(s, len, c) <==>
      forall source: seq<byte> :: |source| == len + SLACK ==> Appends(s, source, len, c)
  {
    var c := ReachOf(simd, s.writePos, len, s.size);
    if KeepsQueue(s, len, c) {
      forall source: seq<byte> | |source| == len + SLACK ensures Appends(s, source, len, c) {
        KeepingAppends(s, source, len, c);
      }
    } else {
      var source := UnreadIsLost(s, len, c);
    }
  }

  /** A write that reaches past the mapping shows there for some caller. */
  lemma OverrunShows(s: Ring, len: nat, c: Reach) returns (source: seq<byte>)
    requires s.Valid() && len <= s.FreeSpace() && Fits(c, s.writePos, len, s.size)
    requires s.writePos + c.first > s.size
    ensures |source| == len + SLACK && !Clean(s, source, len, c)
  {
    var other := OtherByte(s.arena[s.size]);
    source := Bytes(len, other, other);
    WrittenAt(s, source, len, c, s.size);
    assert Write(s, source, len, c).PastMapping()[0] != s.PastMapping()[0];
  }

  /** An accepted write is clean for every caller exactly when the ring has room for the
      reach of its copies, and not only for the data. */
  lemma WriteIsCleanIff(simd: bool, s: Ring, len: nat)
    requires s.Valid() && len <= s.FreeSpace()
    ensures
      var c := ReachOf(simd, s.writePos, len, s.size);
      Roomy(s, len, c) <==>
      forall source: seq<byte> :: |source| == len + SLACK ==> Clean(s, source, len, c)
  {
    var c := ReachOf(simd, s.writePos, len, s.size);
    if Roomy(s, len, c) {
      forall source: seq<byte> | |source| == len + SLACK ensures Clean(s, source, len, c) {
        RoomyIsClean(s, source, len, c);
      }
    } else if KeepsQueue(s, len, c) {
      var source := OverrunShows(s, len, c);
    } else {
      var source := UnreadIsLost(s, len, c);
    }
  }

  /** Copies that keep to their request always have room. */
  lemma ExactCopiesAreRoomy(s: Ring, len: nat)
    requires s.Valid() && len <= s.FreeSpace()
    ensures Roomy(s, len, ReachOf(false, s.writePos, len, s.size))
  {}

  /** An accepted 5-byte write that destroys an unread byte: a ring of 16 bytes with 10
      unread from offset 6, written at offset 0. */
  lemma WriteCanDestroyUnreadData()
    ensures
      var s, c := Ring(seq(16 + SLACK, i => 7), 6, 0, 16), ReachOf(true, 0, 5, 16);
      && s.Valid() && 5 <= s.FreeSpace() && !KeepsQueue(s, 5, c)
      && !Appends(s, Bytes(5, 7, 2), 5, c)
  {
    var s := Ring(seq(16 + SLACK, i => 7), 6, 0, 16);
    WrittenAt(s, Bytes(5, 7, 2), 5, Reach(8, 0), 6);
    FirstByteChanges(s, Bytes(5, 7, 2), 5, Reach(8, 0));
  }

  lemma ReadByte(s: Ring, out: seq<byte>, n: nat, c: Reach, k: nat)
    requires s.Valid() && |out| == n + SLACK && k < ReadLen(s, n)
    requires Fits(c, s.readPos, ReadLen(s, n), s.size)
    ensures ReadInto(s, out, n, c)[k] == s.arena[WrapIndex(s.readPos, s.size, k)]
  {
    CopiedAt(out, 0, s.arena, s.readPos, c.first, k);
    if s.readPos + ReadLen(s, n) > s.size {
      var once := Copied(out, 0, s.arena, s.readPos, c.first);
      CopiedAt(once, s.size - s.readPos, s.arena, 0, c.second, k);
    }
  }

  lemma AfterReadCounts(s: Ring, n: nat)
    requires s.Valid()
    ensures AfterRead(s, n).AvailableData() == s.AvailableData() - ReadLen(s, n)
    ensures forall k: nat :: k < AfterRead(s, n).AvailableData() ==>
              WrapIndex(AfterRead(s, n).readPos, s.size, k)
              == WrapIndex(s.readPos, s.size, ReadLen(s, n) + k)
  {}

  /** A read hands out the oldest bytes and keeps the others, however far the copies reach. */
  lemma ReadTakesOldest(s: Ring, out: seq<byte>, n: nat, c: Reach)
    requires s.Valid() && |out| == n + SLACK
    requires Fits(c, s.readPos, ReadLen(s, n), s.size)
    ensures
      var len := ReadLen(s, n);
      && len <= |s.Contents()|
      && ReadInto(s, out, n, c)[..len] == s.Contents()[..len]
      && AfterRead(s, n).Contents() == s.Contents()[len..]
  {
    var len, t := ReadLen(s, n), AfterRead(s, n);
    var got, had, has := ReadInto(s, out, n, c), s.Contents(), t.Contents();
    SpaceIsAccounted(s);
    SpaceIsAccounted(t);
    AfterReadCounts(s, n);
    forall k: nat | k < len ensures got[k] == had[k] {
      ReadByte(s, out, n, c, k);
      ContentsAt(s, k);
    }
    forall k: nat | k < t.AvailableData() ensures has[k] == had[len + k] {
      ContentsAt(t, k);
      ContentsAt(s, len + k);
    }
    assert has == had[len..];
  }

  /** How far into the caller's buffer a read writes. */
  function ReadReach(s: Ring, n: nat, c: Reach): (r: nat)
    requires s.Valid() && Fits(c, s.readPos, ReadLen(s, n), s.size)
    ensures r <= n + SLACK
  {
    var len, first := ReadLen(s, n), s.size - s.readPos;
    if len == 0 then 0
    else if s.readPos + len <= s.size || c.first > first + c.second then c.first
    else first + c.second
  }

  lemma ReadAt(s: Ring, out: seq<byte>, other: seq<byte>, n: nat, c: Reach, i: nat)
    requires s.Valid() && |out| == |other| == n + SLACK && i < n + SLACK
    requires Fits(c, s.readPos, ReadLen(s, n), s.size)
    ensures i >= ReadReach(s, n, c) ==> ReadInto(s, out, n, c)[i] == out[i]
    ensures i < ReadReach(s, n, c) ==> ReadInto(s, out, n, c)[i] == ReadInto(s, other, n, c)[i]
  {
    var len := ReadLen(s, n);
    if len > 0 {
      CopiedAt(out, 0, s.arena, s.readPos, c.first, i);
      CopiedAt(other, 0, s.arena, s.readPos, c.first, i);
      if s.readPos + len > s.size {
        var once := Copied(out, 0, s.arena, s.readPos, c.first);
        var other' := Copied(other, 0, s.arena, s.readPos, c.first);
        CopiedAt(once, s.size - s.readPos, s.arena, 0, c.second, i);
        CopiedAt(other', s.size - s.readPos, s.arena, 0, c.second, i);
      }
    }
  }

  lemma ReadStays(s: Ring, out: seq<byte>, n: nat, c: Reach)
    requires s.Valid() && |out| == n + SLACK
    requires Fits(c, s.readPos, ReadLen(s, n), s.size) && ReadReach(s, n, c) <= n
    ensures ReadInto(s, out, n, c)[n..] == out[n..]
  {
    var got := ReadInto(s, out, n, c);
    forall i: nat | n <= i < n + SLACK ensures got[i] == out[i] {
      ReadAt(s, out, out, n, c, i);
    }
  }

  /** Memory a read that reaches past the caller's buffer changes. */
  lemma ReadOverruns(s: Ring, n: nat, c: Reach) returns (out: seq<byte>)
    requires s.Valid() && Fits(c, s.readPos, ReadLen(s, n), s.size)
    requires ReadReach(s, n, c) > n
    ensures |out| == n + SLACK && ReadInto(s, out, n, c)[n..] != out[n..]
  {
    var zeros := Bytes(n, 0, 0);
    var landed := ReadInto(s, zeros, n, c)[n];
    out := Bytes(n, 0, OtherByte(landed));
    ReadAt(s, out, zeros, n, c, n);
    assert ReadInto(s, out, n, c)[n..][0] == landed;
    assert out[n..][0] == OtherByte(landed);
  }

  /** A read leaves the memory after the caller's buffer alone, whatever it holds, exactly
      when its reach fits the buffer. */
  lemma ReadStaysInBufferIff(simd: bool, s: Ring, n: nat)
    requires s.Valid()
    ensures
      var c := ReachOf(simd, s.readPos, ReadLen(s, n), s.size);
      ReadReach(s, n, c) <= n <==>
      forall out: seq<byte> :: |out| == n + SLACK ==> ReadInto(s, out, n, c)[n..] == out[n..]
  {
    var c := ReachOf(simd, s.readPos, ReadLen(s, n), s.size);
    if ReadReach(s, n, c) <= n {
      forall out: seq<byte> | |out| == n + SLACK
        ensures ReadInto(s, out, n, c)[n..] == out[n..]
      {
        ReadStays(s, out, n, c);
      }
    } else {
      var out := ReadOverruns(s, n, c);
    }
  }

  /** One call by the producer, or one by the consumer. */
  datatype Call = WriteCall(source: seq<byte>, len: nat) | ReadCall(out: seq<byte>, n: nat) {
    predicate Ok() {
      match this
      case WriteCall(source, len) => |source| == len + SLACK
      case ReadCall(out, n) => |out| == n + SLACK
    }
  }

  predicate Accepted(s: Ring, call: Call)
    requires s.Valid()
  {
    call.WriteCall? && call.len <= s.FreeSpace()
  }

  function CallReach(simd: bool, s: Ring, call: Call): Reach
    requires s.Valid()
  {
    match call
    case WriteCall(_, len) => ReachOf(simd, s.writePos, len, s.size)
    case ReadCall(_, n) => ReachOf(simd, s.readPos, ReadLen(s, n), s.size)
  }

  /** A write that does not fit is refused and changes nothing. */
  function Next(simd: bool, s: Ring, call: Call): (t: Ring)
    requires s.Valid() && call.Ok()
    ensures t.Valid() && t.size == s.size
  {
    match call
    case WriteCall(source, len) =>
      if Accepted(s, call) then Write(s, source, len, CallReach(simd, s, call)) else s
    case ReadCall(_, n) => AfterRead(s, n)
  }

  /** The bytes the call puts in, if it is an accepted write. */
  function PutBy(s: Ring, call: Call): seq<byte>
    requires s.Valid() && call.Ok()
  {
    if Accepted(s, call) then call.source[..call.len] else []
  }

  /** The bytes the caller receives, if it is a read. */
  function GotBy(simd: bool, s: Ring, call: Call): seq<byte>
    requires s.Valid() && call.Ok()
  {
    if call.ReadCall? then
      ReadInto(s, call.out, call.n, CallReach(simd, s, call))[..ReadLen(s, call.n)]
    else []
  }

  predicate KeepingCall(simd: bool, s: Ring, call: Call)
    requires s.Valid() && call.Ok()
  {
    Accepted(s, call) ==> KeepsQueue(s, call.len, CallReach(simd, s, call))
  }

  predicate AllOk(calls: seq<Call>) {
    forall i :: 0 <= i < |calls| ==> calls[i].Ok()
  }

  /** What a run leaves: the ring, the bytes put in and got out, and whether the reach of every
      accepted write ended before the bytes unread at its time. */
  datatype Outcome = Outcome(ring: Ring, put: seq<byte>, got: seq<byte>, keeping: bool)

  function Run(simd: bool, s: Ring, calls: seq<Call>): (o: Outcome)
    requires s.Valid() && AllOk(calls)
    ensures o.ring.Valid() && o.ring.size == s.size
    decreases |calls|
  {
    if calls == [] then Outcome(s, [], [], true)
    else
      var call := calls[0];
      var o := Run(simd, Next(simd, s, call), calls[1..]);
      Outcome(o.ring, PutBy(s, call) + o.put, GotBy(simd, s, call) + o.got,
              KeepingCall(simd, s, call) && o.keeping)
  }

  lemma ReadIsFifo(s: Ring, out: seq<byte>, n: nat, c: Reach)
    requires s.Valid() && |out| == n + SLACK
    requires Fits(c, s.readPos, ReadLen(s, n), s.size)
    ensures ReadInto(s, out, n, c)[..ReadLen(s, n)] + AfterRead(s, n).Contents() == s.Contents()
  {
    ReadTakesOldest(s, out, n, c);
    var had, len := s.Contents(), ReadLen(s, n);
    assert had == had[..len] + had[len..];
  }

  lemma CallIsFifo(simd: bool, s: Ring, call: Call)
    requires s.Valid() && call.Ok() && KeepingCall(simd, s, call)
    ensures GotBy(simd, s, call) + Next(simd, s, call).Contents()
            == s.Contents() + PutBy(s, call)
  {
    var c := CallReach(simd, s, call);
    if call.ReadCall? {
      ReadIsFifo(s, call.out, call.n, c);
    } else if Accepted(s, call) {
      KeepingAppends(s, call.source, call.len, c);
    }
  }

  lemma FifoJoins(got: seq<byte>, got': seq<byte>, before: seq<byte>, between: seq<byte>,
                  after: seq<byte>, put: seq<byte>, put': seq<byte>)
    requires got + between == before + put && got' + after == between + put'
    ensures got + got' + after == before + (put + put')
  {
    assert got + got' + after == got + (got' + after);
    assert got + (between + put') == (got + between) + put';
    assert before + put + put' == before + (put + put');
  }

  /** First in, first out over a run: what came out and what waits is what waited and what
      went in, in order, none lost, none twice. */
  predicate Fifo(simd: bool, s: Ring, calls: seq<Call>)
    requires s.Valid() && AllOk(calls)
  {
    var o := Run(simd, s, calls);
    o.got + o.ring.Contents() == s.Contents() + o.put
  }

  lemma {:induction false} RunIsFifo(simd: bool, s: Ring, calls: seq<Call>)
    requires s.Valid() && AllOk(calls) && Run(simd, s, calls).keeping
    ensures Fifo(simd, s, calls)
    decreases |calls|
  {
    if calls != [] {
      var call := calls[0];
      var next := Next(simd, s, call);
      var o := Run(simd, next, calls[1..]);
      CallIsFifo(simd, s, call);
      RunIsFifo(simd, next, calls[1..]);
      FifoJoins(GotBy(simd, s, call), o.got, s.Contents(), next.Contents(),
                o.ring.Contents(), PutBy(s, call), o.put);
    } else {
      assert s.Contents() + [] == s.Contents();
    }
  }

  /** The same calls with other bytes: writes of the same lengths, reads of the same sizes. */
  predicate SameCall(a: Call, b: Call) {
    match a
    case WriteCall(_, len) => b.WriteCall? && b.len == len
    case ReadCall(_, n) => b.ReadCall? && b.n == n
  }

  predicate SameCalls(a: seq<Call>, b: seq<Call>) {
    |a| == |b| && forall i :: 0 <= i < |a| ==> SameCall(a[i], b[i])
  }

  predicate SamePositions(s: Ring, t: Ring) {
    s.size == t.size && s.readPos == t.readPos && s.writePos == t.writePos
  }

  /** Positions, and so the reach of the copies, do not depend on the bytes. */
  lemma {:induction false} ReachIgnoresBytes(simd: bool, s: Ring, t: Ring, a: seq<Call>,
                                             b: seq<Call>)
    requires s.Valid() && t.Valid() && SamePositions(s, t)
    requires AllOk(a) && AllOk(b) && SameCalls(a, b)
    ensures Run(simd, s, a).keeping == Run(simd, t, b).keeping
    decreases |a|
  {
    if a != [] {
      assert SameCall(a[0], b[0]);
      forall i | 0 <= i < |a| - 1 ensures SameCall(a[1..][i], b[1..][i]) {
        assert SameCall(a[i + 1], b[i + 1]);
      }
      ReachIgnoresBytes(simd, Next(simd, s, a[0]), Next(simd, t, b[0]), a[1..], b[1..]);
    }
  }

  /** FIFO at every moment of the run. */
  ghost predicate FifoThroughout(simd: bool, s: Ring, calls: seq<Call>)
    requires s.Valid() && AllOk(calls)
  {
    forall k :: 0 <= k <= |calls| ==> Fifo(simd, s, calls[..k])
  }

  lemma RunFirst(simd: bool, s: Ring, call: Call, rest: seq<Call>)
    requires s.Valid() && call.Ok() && AllOk(rest)
    ensures AllOk([call] + rest)
    ensures
      var o := Run(simd, Next(simd, s, call), rest);
      Run(simd, s, [call] + rest)
      == Outcome(o.ring, PutBy(s, call) + o.put, GotBy(simd, s, call) + o.got,
                 KeepingCall(simd, s, call) && o.keeping)
  {
    assert ([call] + rest)[1..] == rest;
  }

  lemma RunOne(simd: bool, s: Ring, call: Call)
    requires s.Valid() && call.Ok()
    ensures Run(simd, s, [call]) == Outcome(Next(simd, s, call), PutBy(s, call),
                                            GotBy(simd, s, call), KeepingCall(simd, s, call))
  {
    RunFirst(simd, s, call, []);
    assert [call] + [] == [call];
    assert PutBy(s, call) + [] == PutBy(s, call);
    assert GotBy(simd, s, call) + [] == GotBy(simd, s, call);
  }

  lemma {:induction false} PrefixKeeps(simd: bool, s: Ring, calls: seq<Call>, k: nat)
    requires s.Valid() && AllOk(calls) && Run(simd, s, calls).keeping && k <= |calls|
    ensures Run(simd, s, calls[..k]).keeping
    decreases k
  {
    if k > 0 {
      var call, rest := calls[0], calls[1..];
      assert calls == [call] + rest && calls[..k] == [call] + rest[..k - 1];
      RunFirst(simd, s, call, rest);
      RunFirst(simd, s, call, rest[..k - 1]);
      PrefixKeeps(simd, Next(simd, s, call), rest, k - 1);
    }
  }

  lemma LostIsNotFifo(s: Ring, source: seq<byte>, len: nat, c: Reach)
    requires s.Valid() && |source| == len + SLACK && len <= s.FreeSpace()
    requires Fits(c, s.writePos, len, s.size) && !Appends(s, source, len, c)
    ensures [] + Write(s, source, len, c).Contents() != s.Contents() + source[..len]
  {}

  /** A call that does not keep the queue, with bytes for which it is not FIFO. */
  lemma CallCanLose(simd: bool, s: Ring, call: Call) returns (bad: Call)
    requires s.Valid() && call.Ok() && !KeepingCall(simd, s, call)
    ensures bad.Ok() && SameCall(call, bad) && !Fifo(simd, s, [bad])
  {
    var c := CallReach(simd, s, call);
    var source := UnreadIsLost(s, call.len, c);
    bad := WriteCall(source, call.len);
    RunOne(simd, s, bad);
    LostIsNotFifo(s, source, call.len, c);
  }

  lemma FifoAfter(simd: bool, s: Ring, call: Call, rest: seq<Call>)
    requires s.Valid() && call.Ok() && AllOk(rest) && KeepingCall(simd, s, call)
    requires AllOk([call] + rest) && Fifo(simd, s, [call] + rest)
    ensures Fifo(simd, Next(simd, s, call), rest)
  {
    var next := Next(simd, s, call);
    var o := Run(simd, next, rest);
    assert ([call] + rest)[1..] == rest;
    CallIsFifo(simd, s, call);
    FifoCancels(GotBy(simd, s, call), o.got, s.Contents(), next.Contents(), o.ring.Contents(),
                PutBy(s, call), o.put);
  }

  lemma FifoCancels(got: seq<byte>, got': seq<byte>, before: seq<byte>, between: seq<byte>,
                    after: seq<byte>, put: seq<byte>, put': seq<byte>)
    requires got + between == before + put && got + got' + after == before + (put + put')
    ensures got' + after == between + put'
  {
    assert got + got' + after == got + (got' + after);
    assert before + (put + put') == (before + put) + put';
    assert (got + between) + put' == got + (between + put');
    assert (got + (got' + after))[|got|..] == got' + after;
    assert (got + (between + put'))[|got|..] == between + put';
  }

  lemma SamePrepends(a: Call, b: Call, more: seq<Call>, others: seq<Call>)
    requires SameCall(a, b) && SameCalls(more, others) && b.Ok() && AllOk(others)
    ensures SameCalls([a] + more, [b] + others) && AllOk([b] + others)
  {
    forall i | 0 <= i < |more| + 1 ensures SameCall(([a] + more)[i], ([b] + others)[i]) {
      if i > 0 { assert SameCall(more[i - 1], others[i - 1]); }
    }
  }

  lemma StillLost(simd: bool, s: Ring, call: Call, rest: seq<Call>, m: nat)
    requires s.Valid() && call.Ok() && AllOk(rest) && KeepingCall(simd, s, call) && m <= |rest|
    requires !Fifo(simd, Next(simd, s, call), rest[..m])
    ensures AllOk([call] + rest) && !Fifo(simd, s, ([call] + rest)[..m + 1])
  {
    assert ([call] + rest)[..m + 1] == [call] + rest[..m];
    if Fifo(simd, s, [call] + rest[..m]) {
      FifoAfter(simd, s, call, rest[..m]);
    }
  }

  /** A run of which some write does not keep the queue is not FIFO for some bytes. */
  lemma {:induction false} RunCanLose(simd: bool, s: Ring, calls: seq<Call>)
    returns (bad: seq<Call>, k: nat)
    requires s.Valid() && AllOk(calls) && !Run(simd, s, calls).keeping
    ensures AllOk(bad) && SameCalls(calls, bad) && k <= |bad| && !Fifo(simd, s, bad[..k])
    decreases |calls|
  {
    var call, more := calls[0], calls[1..];
    assert calls == [call] + more;
    if KeepingCall(simd, s, call) {
      var rest, m := RunCanLose(simd, Next(simd, s, call), more);
      bad, k := [call] + rest, m + 1;
      SamePrepends(call, call, more, rest);
      StillLost(simd, s, call, rest, m);
    } else {
      var first := CallCanLose(simd, s, call);
      bad, k := [first] + more, 1;
      SamePrepends(call, first, more, more);
      assert bad[..1] == [first];
    }
  }

  /** Calls of these kinds and lengths are FIFO at every moment, whatever the bytes, exactly
      when the reach of each accepted write ends before the bytes unread at its time. */
  lemma RunIsFifoIff(simd: bool, s: Ring, calls: seq<Call>)
    requires s.Valid() && AllOk(calls)
    ensures Run(simd, s, calls).keeping <==>
            forall others :: AllOk(others) && SameCalls(calls, others) ==>
              FifoThroughout(simd, s, others)
  {
    if Run(simd, s, calls).keeping {
      forall others | AllOk(others) && SameCalls(calls, others)
        ensures FifoThroughout(simd, s, others)
      {
        ReachIgnoresBytes(simd, s, s, calls, others);
        forall k | 0 <= k <= |others| ensures Fifo(simd, s, others[..k]) {
          PrefixKeeps(simd, s, others, k);
          RunIsFifo(simd, s, others[..k]);
        }
      }
    } else {
      var bad, k := RunCanLose(simd, s, calls);
      assert !FifoThroughout(simd, s, bad);
    }
  }

  /** With copies that keep to their request every run keeps the queue, and so is FIFO. */
  lemma {:induction false} ExactRunsKeepQueue(s: Ring, calls: seq<Call>)
    requires s.Valid() && AllOk(calls)
    ensures Run(false, s, calls).keeping
    decreases |calls|
  {
    if calls != [] {
      var call := calls[0];
      if Accepted(s, call) { ExactCopiesAreRoomy(s, call.len); }
      ExactRunsKeepQueue(Next(false, s, call), calls[1..]);
    }
  }

  /** `ReadInto` with the program's copy routine. */
  function SimdReadInto(s: Ring, out: seq<byte>, n: nat): seq<byte>
    requires s.Valid() && |out| == n + SLACK
  {
    ReadInto(s, out, n, ReachOf(true, s.readPos, ReadLen(s, n), s.size))
  }

  lemma NothingRead(s: Ring, out: seq<byte>, n: nat)
    requires s.Valid() && |out| == n + SLACK && ReadLen(s, n) == 0
    ensures AfterRead(s, n) == s && SimdReadInto(s, out, n) == out
  {}

  method CopyTouching(dst: array<byte>, d: nat, src: array<byte>, s: nat, n: nat, avx512: bool)
    requires dst != src && d + n + SLACK <= dst.Length && s + n + SLACK <= src.Length
    modifies dst
    ensures dst[..] == Copied(old(dst[..]), d, src[..], s, Touched(true, n))
  {
    MemcpySimdOptimized(dst, d, src, s, n, avx512);
  }

  /** Two copies in a row, as a transfer that wraps makes them. */
  method CopyTwice(dst: array<byte>, d: nat, src: array<byte>, s: nat, first: nat,
                   d': nat, s': nat, second: nat, avx512: bool)
    requires dst != src
    requires d + first + SLACK <= dst.Length && s + first + SLACK <= src.Length
    requires d' + second + SLACK <= dst.Length && s' + second + SLACK <= src.Length
    modifies dst
    ensures dst[..] == Copied(Copied(old(dst[..]), d, src[..], s, Touched(true, first)),
                              d', src[..], s', Touched(true, second))
  {
    CopyTouching(dst, d, src, s, first, avx512);
    CopyTouching(dst, d', src, s', second, avx512);
  }

  class MemoryMappedBuffer {
    const mmap: array<byte>
    const size: nat
    var readPos: nat
    var writePos: nat

    function View(): Ring
      reads this, mmap
    {
      Ring(mmap[..], readPos, writePos, size)
    }

    constructor (size: nat)
      requires size >= 1
      ensures View().Valid() && View().Contents() == [] && this.size == size && fresh(mmap)
    {
      this.mmap := new byte[size + SLACK](_ => 0);
      this.size := size;
      readPos, writePos := 0, 0;
    }

    /** The copies of a write: one, or two when the data wraps. */
    method CopyIn(data: array<byte>, dataLen: nat, avx512: bool)
      requires View().Valid() && data != mmap && data.Length == dataLen + SLACK
      requires dataLen <= View().FreeSpace()
      modifies mmap
      ensures mmap[..] == WriteArena(old(View()), data[..], dataLen,
                                     ReachOf(true, writePos, dataLen, size))
    {
      if writePos + dataLen <= size {
        CopyTouching(mmap, writePos, data, 0, dataLen, avx512);
      } else {
        var firstPart := size - writePos;
        var secondPart := dataLen - firstPart;
        CopyTwice(mmap, writePos, data, 0, firstPart, 0, firstPart, secondPart, avx512);
      }
    }

    /** The copies of a read. */
    method CopyOut(buffer: array<byte>, bufferLen: nat, n: nat, avx512: bool)
      requires View().Valid() && buffer != mmap && buffer.Length == bufferLen + SLACK
      requires 0 < View().AvailableData() && n == ReadLen(View(), bufferLen)
      modifies buffer
      ensures buffer[..] == ReadInto(old(View()), old(buffer[..]), bufferLen,
                                     ReachOf(true, readPos, n, size))
    {
      if readPos + n <= size {
        CopyTouching(buffer, 0, mmap, readPos, n, avx512);
      } else {
        var firstPart := size - readPos;
        var secondPart := n - firstPart;
        CopyTwice(buffer, 0, mmap, readPos, firstPart, firstPart, 0, secondPart, avx512);
      }
    }

    /** Writes all the data, or nothing when the ring has too little space. */
    method WriteData(data: array<byte>, dataLen: nat, avx512: bool)
      returns (r: Result<nat, string>)
      requires View().Valid() && data != mmap && data.Length == dataLen + SLACK
      modifies this`writePos, mmap
      ensures r == if dataLen <= old(View()).FreeSpace() then Ok(dataLen)
                   else Err("Insufficient buffer space")
      ensures r.Ok? ==>
        View() == Write(old(View()), data[..], dataLen, ReachOf(true, old(writePos), dataLen, size))
      ensures r.Err? ==> View() == old(View())
    {
      var currentWrite, currentRead := writePos, readPos;
      var space := if currentWrite >= currentRead then size - (currentWrite - currentRead) - 1
                   else currentRead - currentWrite - 1;
      if dataLen > space {
        return Err("Insufficient buffer space");
      }
      CopyIn(data, dataLen, avx512);
      WrapIsModulo(currentWrite, size, dataLen);
      writePos := (currentWrite + dataLen) % size;
      r := Ok(dataLen);
    }

    /** Reads as many bytes as the buffer holds and the ring has. */
    method ReadData(buffer: array<byte>, bufferLen: nat, avx512: bool) returns (n: nat)
      requires View().Valid() && buffer != mmap && buffer.Length == bufferLen + SLACK
      modifies this`readPos, buffer
      ensures n == ReadLen(old(View()), bufferLen)
      ensures View() == AfterRead(old(View()), bufferLen)
      ensures buffer[..] == SimdReadInto(old(View()), old(buffer[..]), bufferLen)
    {
      var currentRead, currentWrite := readPos, writePos;
      var available := if currentWrite >= currentRead then currentWrite - currentRead
                       else size - (currentRead - currentWrite);
      ghost var s, out := View(), buffer[..];
      if available == 0 {
        NothingRead(s, out, bufferLen);
        return 0;
      }
      n := if bufferLen < available then bufferLen else available;
      assert n == ReadLen(s, bufferLen);
      CopyOut(buffer, bufferLen, n, avx512);
      assert buffer[..] == SimdReadInto(s, out, bufferLen);
      WrapIsModulo(currentRead, size, n);
      readPos := (currentRead + n) % size;
      assert View() == AfterRead(s, bufferLen);
    }

    method AvailableData() returns (n: nat)
      requires View().Valid()
      ensures n == |View().Contents()|
    {
      n := if writePos >= readPos then writePos - readPos else size - (readPos - writePos);
    }

    method AvailableSpace() returns (n: nat)
      requires View().Valid()
      ensures n == size - 1 - |View().Contents()|
    {
      var data := AvailableData();
      n := size - data - 1;
    }
  }
}
