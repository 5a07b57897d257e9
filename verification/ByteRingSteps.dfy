/** The byte ring of perf/zero_copy_io.rs shared by one writing and one reading thread: every
    load of a position, every copied byte and every store of a position is one step. The
    writer's copies are the rounded ones of perf/hardware_optimizations.rs (`simd`), or keep to
    their request. */
module ByteRingSteps {
  import opened Wrappers
  import opened Bits
  import opened SimdMemory
  import ByteRing

  /** Where a `write_data` of `len` bytes stands; `data` is the caller's slice and the memory
      after it, `first` and `second` the bytes its one or two copies have moved so far. */
  datatype Writer =
    | WriteIdle
    | WriteLoaded(data: seq<byte>, len: nat, pos: nat)
    | Writing(data: seq<byte>, len: nat, pos: nat, first: set<nat>, second: set<nat>)

  /** Where a `read_data` stands, for a buffer of `room` bytes. Bytes that its copies read past
      the request enter neither the ring nor the answer. */
  datatype Reader =
    | ReadIdle
    | ReadLoaded(room: nat, pos: nat)
    | Reading(len: nat, pos: nat, got: map<nat, byte>)

  /** `arena` holds the mapping, its first `size` bytes, and the bytes after it. `written` and
      `read` are the bytes of the calls that have returned, in order. `kept` says that the reach
      of every accepted write ended before the bytes unread as it loaded the read position. */
  datatype Ring = Ring(arena: seq<byte>, size: nat, readPos: nat, writePos: nat, writer: Writer,
                       reader: Reader, written: seq<byte>, read: seq<byte>, kept: bool)
  {
    predicate Shaped() {
      && size >= 1 && |arena| == size + SLACK && readPos < size && writePos < size
      && (!writer.WriteIdle? ==> |writer.data| == writer.len + SLACK && writer.pos < size)
      && (writer.Writing? ==> writer.len < size)
      && (!reader.ReadIdle? ==> reader.pos < size)
      && (reader.Reading? ==> reader.len < size)
    }

    /** The ring between calls. */
    function View(): ByteRing.Ring {
      ByteRing.Ring(arena, readPos, writePos, size)
    }

    /** As the writer sees it, from the position it loaded. */
    function WriterView(): ByteRing.Ring
      requires !writer.WriteIdle?
    {
      ByteRing.Ring(arena, readPos, writer.pos, size)
    }

    function ReaderView(): ByteRing.Ring
      requires !reader.ReadIdle?
    {
      ByteRing.Ring(arena, reader.pos, writePos, size)
    }
  }

  datatype Step =
    | WriteLoadOwn(data: seq<byte>, len: nat)
    | WriteLoadOther
    | WriteFirst(k: nat)
    | WriteSecond(k: nat)
    | WriteStore
    | ReadLoadOwn(room: nat)
    | ReadLoadOther
    | ReadByte(k: nat)
    | ReadStore

  function ReachOf(simd: bool, s: Ring): (c: ByteRing.Reach)
    requires s.Shaped() && !s.writer.WriteIdle?
    ensures ByteRing.Fits(c, s.writer.pos, s.writer.len, s.size)
  {
    ByteRing.ReachOf(simd, s.writer.pos, s.writer.len, s.size)
  }

  function GotBytes(got: map<nat, byte>, len: nat): (bytes: seq<byte>)
    requires AllDone(got.Keys, len)
    ensures |bytes| == len
  {
    seq(len, k requires 0 <= k < len => got[k])
  }

  predicate AllDone(done: set<nat>, len: nat) {
    forall k: nat :: k < len ==> k in done
  }

  /** What loading the read position decides: a refusal, or a write whose reach may or may not
      end before the unread bytes. */
  function Accept(simd: bool, s: Ring): Ring
    requires s.Shaped() && s.writer.WriteLoaded?
  {
    var WriteLoaded(data, len, pos) := s.writer;
    if len > s.WriterView().FreeSpace() then s.(writer := WriteIdle)
    else s.(writer := Writing(data, len, pos, {}, {}),
            kept := s.kept && ByteRing.KeepsQueue(s.WriterView(), len, ReachOf(simd, s)))
  }

  /** One byte of the first copy, or of the second. */
  function MoveFirst(simd: bool, s: Ring, k: nat): (t: Ring)
    requires s.Shaped() && s.writer.Writing? && k < ReachOf(simd, s).first
    ensures t.Shaped()
  {
    s.(arena := s.arena[s.writer.pos + k := s.writer.data[k]],
       writer := s.writer.(first := s.writer.first + {k}))
  }

  function MoveSecond(simd: bool, s: Ring, k: nat): (t: Ring)
    requires s.Shaped() && s.writer.Writing? && k < ReachOf(simd, s).second
    ensures t.Shaped()
  {
    s.(arena := s.arena[k := s.writer.data[s.size - s.writer.pos + k]],
       writer := s.writer.(second := s.writer.second + {k}))
  }

  function StoreWrite(s: Ring): (t: Ring)
    requires s.Shaped() && s.writer.Writing?
    ensures t.Shaped()
  {
    s.(writePos := ByteRing.WrapIndex(s.writer.pos, s.size, s.writer.len), writer := WriteIdle,
       written := s.written + s.writer.data[..s.writer.len])
  }

  function StoreRead(s: Ring): (t: Ring)
    requires s.Shaped() && s.reader.Reading? && AllDone(s.reader.got.Keys, s.reader.len)
    ensures t.Shaped()
  {
    s.(readPos := ByteRing.WrapIndex(s.reader.pos, s.size, s.reader.len), reader := ReadIdle,
       read := s.read + GotBytes(s.reader.got, s.reader.len))
  }

  /** One atomic step; None when it is not one its thread can take. A copy moves its bytes in
      any order, the second after the first is complete. */
  function Do(simd: bool, s: Ring, step: Step): (t: Option<Ring>)
    requires s.Shaped()
    ensures t.Some? ==> t.value.Shaped() && t.value.size == s.size
  {
    match step
    case WriteLoadOwn(data, len) =>
      if !s.writer.WriteIdle? || |data| != len + SLACK then None
      else Some(s.(writer := WriteLoaded(data, len, s.writePos)))
    case WriteLoadOther =>
      if !s.writer.WriteLoaded? then None else Some(Accept(simd, s))
    case WriteFirst(k) =>
      if !s.writer.Writing? || k >= ReachOf(simd, s).first || k in s.writer.first then None
      else Some(MoveFirst(simd, s, k))
    case WriteSecond(k) =>
      if !s.writer.Writing? || !AllDone(s.writer.first, ReachOf(simd, s).first)
         || k >= ReachOf(simd, s).second || k in s.writer.second then None
      else Some(MoveSecond(simd, s, k))
    case WriteStore =>
      if !s.writer.Writing? || !AllDone(s.writer.first, ReachOf(simd, s).first)
         || !AllDone(s.writer.second, ReachOf(simd, s).second) then None
      else Some(StoreWrite(s))
    case ReadLoadOwn(room) =>
      if s.reader.ReadIdle? then Some(s.(reader := ReadLoaded(room, s.readPos))) else None
    case ReadLoadOther =>
      if !s.reader.ReadLoaded? then None
      else
        var len := ByteRing.ReadLen(s.ReaderView(), s.reader.room);
        Some(s.(reader := if s.ReaderView().AvailableData() == 0 then ReadIdle
                          else Reading(len, s.reader.pos, map[])))
    case ReadByte(k) =>
      if !s.reader.Reading? || k >= s.reader.len || k in s.reader.got then None
      else
        var byte := s.arena[ByteRing.WrapIndex(s.reader.pos, s.size, k)];
        Some(s.(reader := s.reader.(got := s.reader.got[k := byte])))
    case ReadStore =>
      if !s.reader.Reading? || !AllDone(s.reader.got.Keys, s.reader.len) then None
      else Some(StoreRead(s))
  }

  /** Any interleaving of the two threads. */
  function Run(simd: bool, s: Ring, steps: seq<Step>): (t: Option<Ring>)
    requires s.Shaped()
    ensures t.Some? ==> t.value.Shaped() && t.value.size == s.size
    decreases |steps|
  {
    if steps == [] then Some(s)
    else
      match Do(simd, s, steps[0])
      case None => None
      case Some(t) => Run(simd, t, steps[1..])
  }

  function Empty(arena: seq<byte>, size: nat): Ring {
    Ring(arena, size, 0, 0, WriteIdle, ReadIdle, [], [], true)
  }

  /** Every write asks for a length of the set. */
  predicate Allowed(lens: set<nat>, steps: seq<Step>) {
    forall i :: 0 <= i < |steps| ==> AllowedStep(lens, steps[i])
  }

  predicate AllowedStep(lens: set<nat>, step: Step) {
    step.WriteLoadOwn? ==> step.len in lens
  }

  /** Steps with such writes lead from one state to the other. */
  ghost predicate Leads(simd: bool, lens: set<nat>, s: Ring, t: Ring)
    requires s.Shaped()
  {
    exists steps :: Allowed(lens, steps) && Run(simd, s, steps) == Some(t)
  }

  ghost predicate Reachable(simd: bool, lens: set<nat>, s: Ring) {
    exists arena: seq<byte> ::
      |arena| == s.size + SLACK && s.size >= 1 && Leads(simd, lens, Empty(arena, s.size), s)
  }

  /** The bytes written and not yet read. */
  function Queue(s: Ring): seq<byte>
    requires |s.read| <= |s.written|
  {
    s.written[|s.read|..]
  }

  /** First in, first out: the bytes read are a prefix of the bytes written, and the rest waits
      in the ring. */
  predicate Fifo(s: Ring)
    requires s.Shaped()
  {
    s.read <= s.written && s.View().Contents() == Queue(s)
  }

  // ----- Positions -----

  /** Where byte number `i` of everything ever written goes: round and round, `i % size`. */
  function PlaceIn(size: nat, i: nat): (p: nat)
    requires size >= 1
    ensures p < size
  {
    if i < size then i else PlaceIn(size, i - size)
  }

  function Place(s: Ring, i: nat): (p: nat)
    requires s.size >= 1
    ensures p < s.size
  {
    PlaceIn(s.size, i)
  }

  lemma {:induction false} PlaceIsModulo(size: nat, i: nat)
    requires size >= 1
    ensures PlaceIn(size, i) == i % size
  {
    if i < size {
      RemainderIsUnique(i, size, 0, i);
    } else {
      PlaceIsModulo(size, i - size);
      var q := (i - size) / size;
      MulDistributes(size, q, 1);
      RemainderIsUnique(i, size, q + 1, (i - size) % size);
    }
  }

  ghost predicate Positions(s: Ring) {
    && s.Shaped()
    && s.readPos == Place(s, |s.read|) && s.writePos == Place(s, |s.written|)
    && |s.read| <= |s.written| < |s.read| + s.size
    && (!s.writer.WriteIdle? ==> s.writer.pos == s.writePos)
    && (s.writer.Writing? ==> |s.written| + s.writer.len < |s.read| + s.size)
    && (!s.reader.ReadIdle? ==> s.reader.pos == s.readPos)
    && (s.reader.Reading? ==>
          |s.read| + s.reader.len <= |s.written|
          && forall k :: k in s.reader.got ==> k < s.reader.len)
  }

  lemma {:induction false} StepsOn(n: nat, size: nat, k: nat)
    requires k < size
    ensures ByteRing.WrapIndex(PlaceIn(size, n), size, k) == PlaceIn(size, n + k)
  {
    if n >= size { StepsOn(n - size, size, k); }
  }

  /** The formulas on positions count what waits. */
  lemma PositionsCount(s: Ring)
    requires Positions(s)
    ensures s.View().AvailableData() == |s.written| - |s.read|
    ensures s.View().FreeSpace() == s.size - 1 - (|s.written| - |s.read|)
  {
    StepsOn(|s.read|, s.size, |s.written| - |s.read|);
  }

  lemma StepKeepsPositions(simd: bool, s: Ring, step: Step)
    requires Positions(s) && Do(simd, s, step).Some?
    ensures Positions(Do(simd, s, step).value)
  {
    match step
    case WriteStore => StoreKeepsPositions(simd, s, step);
    case ReadStore => StoreKeepsPositions(simd, s, step);
    case _ => PositionsCount(s);
  }

  lemma StoreKeepsPositions(simd: bool, s: Ring, step: Step)
    requires Positions(s) && Do(simd, s, step).Some? && (step.WriteStore? || step.ReadStore?)
    ensures Positions(Do(simd, s, step).value)
  {
    if step.WriteStore? {
      StepsOn(|s.written|, s.size, s.writer.len);
    } else {
      StepsOn(|s.read|, s.size, s.reader.len);
    }
  }

  /** Index `p` is between the read and the write position, going round. */
  predicate IsUnread(v: ByteRing.Ring, p: nat) {
    if v.readPos < v.writePos then v.readPos <= p < v.writePos
    else v.writePos < v.readPos && (v.readPos <= p < v.size || p < v.writePos)
  }

  /** An unread byte lies between the read and the write position, going round. */
  lemma UnreadPlace(s: Ring, i: nat)
    requires Positions(s) && |s.read| <= i < |s.written|
    ensures Place(s, i) == ByteRing.WrapIndex(s.readPos, s.size, i - |s.read|)
    ensures IsUnread(s.View(), Place(s, i))
  {
    StepsOn(|s.read|, s.size, i - |s.read|);
    StepsOn(|s.read|, s.size, |s.written| - |s.read|);
  }

  // ----- What kept interleavings keep -----

  /** The copies of the write in flight reach index `p` of the mapping. */
  predicate Reaches(simd: bool, s: Ring, p: nat)
    requires s.Shaped() && s.writer.Writing?
  {
    var c := ReachOf(simd, s);
    s.writer.pos <= p < s.writer.pos + c.first || p < c.second
  }

  ghost predicate ArenaHoldsQueue(s: Ring)
    requires s.Shaped()
  {
    forall i :: |s.read| <= i < |s.written| ==> s.arena[Place(s, i)] == s.written[i]
  }

  /** The write in flight reaches no unread byte, and its second copy not its first. */
  ghost predicate ReachesNoUnread(simd: bool, s: Ring)
    requires s.Shaped() && s.writer.Writing?
  {
    && ReachOf(simd, s).second <= s.writer.pos
    && forall i :: |s.read| <= i < |s.written| ==> !Reaches(simd, s, Place(s, i))
  }

  /** Data byte `j` has been copied. */
  predicate IsCopied(s: Ring, j: nat)
    requires s.Shaped() && s.writer.Writing?
  {
    if s.writer.pos + j < s.size then j in s.writer.first
    else j - (s.size - s.writer.pos) in s.writer.second
  }

  predicate CopiedRight(s: Ring, j: nat)
    requires s.Shaped() && s.writer.Writing? && j < s.writer.len
  {
    IsCopied(s, j) ==>
      s.arena[ByteRing.WrapIndex(s.writer.pos, s.size, j)] == s.writer.data[j]
  }

  ghost predicate WriterRight(simd: bool, s: Ring)
    requires s.Shaped()
  {
    s.writer.Writing? ==>
      ReachesNoUnread(simd, s) && forall j :: 0 <= j < s.writer.len ==> CopiedRight(s, j)
  }

  predicate ReadRight(s: Ring, k: nat)
    requires s.reader.Reading? && k in s.reader.got
  {
    |s.read| + k < |s.written| && s.reader.got[k] == s.written[|s.read| + k]
  }

  ghost predicate ReaderRight(s: Ring) {
    s.reader.Reading? ==> forall k :: k in s.reader.got ==> ReadRight(s, k)
  }

  ghost predicate Inv(simd: bool, s: Ring) {
    && Positions(s) && s.read <= s.written
    && ArenaHoldsQueue(s) && WriterRight(simd, s) && ReaderRight(s)
  }

  lemma WaitingByte(s: Ring, k: nat)
    requires Positions(s) && ArenaHoldsQueue(s) && k < |s.written| - |s.read|
    ensures |s.View().Contents()| == |s.written| - |s.read|
    ensures s.View().Contents()[k] == s.written[|s.read| + k]
  {
    PositionsCount(s);
    ByteRing.ContentsAt(s.View(), k);
    StepsOn(|s.read|, s.size, k);
    assert s.arena[Place(s, |s.read| + k)] == s.written[|s.read| + k];
  }

  lemma InvIsFifo(simd: bool, s: Ring)
    requires Inv(simd, s)
    ensures Fifo(s)
  {
    PositionsCount(s);
    ByteRing.SpaceIsAccounted(s.View());
    var waiting := s.View().Contents();
    forall k: nat | k < |waiting| ensures waiting[k] == Queue(s)[k] {
      WaitingByte(s, k);
    }
  }

  /** A reach that ends before the unread bytes reaches none of them. */
  lemma KeepsOff(v: ByteRing.Ring, len: nat, c: ByteRing.Reach, p: nat)
    requires v.Valid() && len <= v.FreeSpace() && ByteRing.Fits(c, v.writePos, len, v.size)
    requires ByteRing.KeepsQueue(v, len, c)
    ensures c.second <= v.writePos
    ensures IsUnread(v, p) ==> !(v.writePos <= p < v.writePos + c.first) && !(p < c.second)
  {}

  /** Accepting leaves the reach and the ring as they were. */
  lemma AcceptedReach(simd: bool, s: Ring)
    requires Positions(s) && s.writer.WriteLoaded? && Accept(simd, s).writer.Writing?
    ensures s.writer.len <= s.View().FreeSpace()
    ensures Accept(simd, s).Shaped() && ReachOf(simd, Accept(simd, s)) == ReachOf(simd, s)
    ensures Accept(simd, s).kept <==>
            s.kept && ByteRing.KeepsQueue(s.View(), s.writer.len, ReachOf(simd, s))
  {
    assert s.WriterView() == s.View();
  }

  lemma AcceptReachesNoUnread(simd: bool, s: Ring)
    requires Positions(s) && s.writer.WriteLoaded? && Accept(simd, s).writer.Writing?
    requires Accept(simd, s).kept
    ensures Accept(simd, s).Shaped() && ReachesNoUnread(simd, Accept(simd, s))
  {
    AcceptedReach(simd, s);
    AcceptedSecond(simd, s);
    var t := Accept(simd, s);
    forall i | |t.read| <= i < |t.written| ensures !Reaches(simd, t, Place(t, i)) {
      AcceptReachesNot(simd, s, i);
    }
  }

  lemma AcceptedSecond(simd: bool, s: Ring)
    requires Positions(s) && s.writer.WriteLoaded? && Accept(simd, s).writer.Writing?
    requires Accept(simd, s).kept && Accept(simd, s).Shaped()
    ensures ReachOf(simd, Accept(simd, s)).second <= Accept(simd, s).writer.pos
  {
    AcceptedReach(simd, s);
    KeepsOff(s.View(), s.writer.len, ReachOf(simd, s), 0);
  }

  lemma AcceptReachesNot(simd: bool, s: Ring, i: nat)
    requires Positions(s) && s.writer.WriteLoaded? && Accept(simd, s).writer.Writing?
    requires Accept(simd, s).kept && |s.read| <= i < |s.written|
    ensures Accept(simd, s).Shaped() && !Reaches(simd, Accept(simd, s), Place(s, i))
  {
    AcceptedReach(simd, s);
    UnreadPlace(s, i);
    KeepsOff(s.View(), s.writer.len, ReachOf(simd, s), Place(s, i));
  }

  lemma WriteLoadKeepsInv(simd: bool, s: Ring, step: Step)
    requires Inv(simd, s) && Do(simd, s, step).Some? && Do(simd, s, step).value.kept
    requires step.WriteLoadOwn? || step.WriteLoadOther?
    ensures Inv(simd, Do(simd, s, step).value)
  {
    var t := Do(simd, s, step).value;
    StepKeepsPositions(simd, s, step);
    if t.writer.Writing? { AcceptReachesNoUnread(simd, s); }
    ReaderStays(s, t);
  }

  lemma ReadLoadKeepsInv(simd: bool, s: Ring, step: Step)
    requires Inv(simd, s) && Do(simd, s, step).Some?
    requires step.ReadLoadOwn? || step.ReadLoadOther?
    ensures Inv(simd, Do(simd, s, step).value)
  {
    var t := Do(simd, s, step).value;
    StepKeepsPositions(simd, s, step);
    WriterStays(simd, s, t);
    ReaderStays(s, t);
  }

  /** The writer's claims outlive what does not touch the arena. */
  lemma WriterStays(simd: bool, s: Ring, t: Ring)
    requires s.Shaped() && t.Shaped() && WriterRight(simd, s) && t.writer == s.writer
    requires t.arena == s.arena && t.size == s.size && t.written == s.written
    requires |s.read| <= |t.read|
    ensures WriterRight(simd, t)
  {
    if t.writer.Writing? {
      forall j | 0 <= j < t.writer.len ensures CopiedRight(t, j) {
        assert CopiedRight(s, j);
      }
      forall i | |t.read| <= i < |t.written| ensures !Reaches(simd, t, Place(t, i)) {
        assert !Reaches(simd, s, Place(s, i));
      }
    }
  }

  /** The reader's claims outlive what the writer does. */
  lemma ReaderStays(s: Ring, t: Ring)
    requires ReaderRight(s) && s.read == t.read && s.written <= t.written
    requires t.reader.Reading? ==> t.reader == s.reader || t.reader.got == map[]
    ensures ReaderRight(t)
  {
    if t.reader.Reading? && t.reader == s.reader {
      forall k | k in t.reader.got ensures ReadRight(t, k) {
        assert ReadRight(s, k);
      }
    }
  }

  lemma CopyKeepsCopied(simd: bool, s: Ring, step: Step, j: nat)
    requires Inv(simd, s) && Do(simd, s, step).Some? && (step.WriteFirst? || step.WriteSecond?)
    requires j < s.writer.len
    ensures CopiedRight(Do(simd, s, step).value, j)
  {
    assert CopiedRight(s, j);
  }

  lemma CopyKeepsQueue(simd: bool, s: Ring, step: Step, i: nat)
    requires Inv(simd, s) && Do(simd, s, step).Some? && (step.WriteFirst? || step.WriteSecond?)
    requires |s.read| <= i < |s.written|
    ensures Do(simd, s, step).value.arena[Place(s, i)] == s.written[i]
    ensures !Reaches(simd, Do(simd, s, step).value, Place(s, i))
  {
    assert !Reaches(simd, s, Place(s, i));
  }

  lemma CopyKeepsInv(simd: bool, s: Ring, step: Step)
    requires Inv(simd, s) && Do(simd, s, step).Some? && (step.WriteFirst? || step.WriteSecond?)
    ensures Inv(simd, Do(simd, s, step).value)
  {
    var t := Do(simd, s, step).value;
    StepKeepsPositions(simd, s, step);
    forall i | |t.read| <= i < |t.written|
      ensures t.arena[Place(t, i)] == t.written[i] && !Reaches(simd, t, Place(t, i))
    {
      CopyKeepsQueue(simd, s, step, i);
    }
    forall j | 0 <= j < t.writer.len ensures CopiedRight(t, j) {
      CopyKeepsCopied(simd, s, step, j);
    }
    ReaderStays(s, t);
  }

  lemma WholeWriteIsCopied(simd: bool, s: Ring, j: nat)
    requires Inv(simd, s) && Do(simd, s, WriteStore).Some? && j < s.writer.len
    ensures s.arena[Place(s, |s.written| + j)] == s.writer.data[j]
  {
    assert CopiedRight(s, j);
    StepsOn(|s.written|, s.size, j);
  }

  lemma WriteStoreKeepsInv(simd: bool, s: Ring)
    requires Inv(simd, s) && Do(simd, s, WriteStore).Some?
    ensures Inv(simd, Do(simd, s, WriteStore).value)
  {
    var t := Do(simd, s, WriteStore).value;
    StepKeepsPositions(simd, s, WriteStore);
    forall i | |t.read| <= i < |t.written| ensures t.arena[Place(t, i)] == t.written[i] {
      if i >= |s.written| { WholeWriteIsCopied(simd, s, i - |s.written|); }
    }
    ReaderStays(s, t);
  }

  lemma CopiesUnread(simd: bool, s: Ring, k: nat)
    requires Positions(s) && ArenaHoldsQueue(s) && ReaderRight(s)
    requires Do(simd, s, ReadByte(k)).Some?
    ensures ReaderRight(Do(simd, s, ReadByte(k)).value)
  {
    var t := Do(simd, s, ReadByte(k)).value;
    StepsOn(|s.read|, s.size, k);
    assert s.arena[Place(s, |s.read| + k)] == s.written[|s.read| + k];
    forall j | j in t.reader.got ensures ReadRight(t, j) {
      if j != k { assert ReadRight(s, j); }
    }
  }

  lemma ReadByteKeepsInv(simd: bool, s: Ring, k: nat)
    requires Inv(simd, s) && Do(simd, s, ReadByte(k)).Some?
    ensures Inv(simd, Do(simd, s, ReadByte(k)).value)
  {
    StepKeepsPositions(simd, s, ReadByte(k));
    WriterStays(simd, s, Do(simd, s, ReadByte(k)).value);
    CopiesUnread(simd, s, k);
  }

  /** A finished read has copied the oldest waiting bytes. */
  lemma GotOldest(s: Ring)
    requires Positions(s) && ReaderRight(s)
    requires s.reader.Reading? && AllDone(s.reader.got.Keys, s.reader.len)
    ensures GotBytes(s.reader.got, s.reader.len)
            == s.written[|s.read|..|s.read| + s.reader.len]
  {
    forall k: nat | k < s.reader.len
      ensures GotBytes(s.reader.got, s.reader.len)[k] == s.written[|s.read| + k]
    {
      assert ReadRight(s, k);
    }
  }

  lemma PrefixGrows(prefix: seq<byte>, all: seq<byte>, n: nat)
    requires prefix <= all && |prefix| + n <= |all|
    ensures prefix + all[|prefix|..|prefix| + n] <= all
  {}

  lemma ReadStoreKeepsPrefix(simd: bool, s: Ring)
    requires Positions(s) && ReaderRight(s) && s.read <= s.written
    requires Do(simd, s, ReadStore).Some?
    ensures Do(simd, s, ReadStore).value.read <= s.written
  {
    GotOldest(s);
    PrefixGrows(s.read, s.written, s.reader.len);
  }

  lemma ReadStoreKeepsInv(simd: bool, s: Ring)
    requires Inv(simd, s) && Do(simd, s, ReadStore).Some?
    ensures Inv(simd, Do(simd, s, ReadStore).value)
  {
    var t := Do(simd, s, ReadStore).value;
    StepKeepsPositions(simd, s, ReadStore);
    ReadStoreKeepsPrefix(simd, s);
    forall i | |t.read| <= i < |t.written| ensures t.arena[Place(t, i)] == t.written[i] {
      assert s.arena[Place(s, i)] == s.written[i];
    }
    WriterStays(simd, s, t);
  }

  /** Every step of either thread keeps the invariant, as long as accepted writes do not reach
      the unread bytes. */
  lemma StepKeepsInv(simd: bool, s: Ring, step: Step)
    requires Inv(simd, s) && Do(simd, s, step).Some? && Do(simd, s, step).value.kept
    ensures Inv(simd, Do(simd, s, step).value)
  {
    match step
    case WriteFirst(_) => CopyKeepsInv(simd, s, step);
    case WriteSecond(_) => CopyKeepsInv(simd, s, step);
    case WriteStore => WriteStoreKeepsInv(simd, s);
    case ReadByte(k) => ReadByteKeepsInv(simd, s, k);
    case ReadStore => ReadStoreKeepsInv(simd, s);
    case WriteLoadOwn(_, _) => WriteLoadKeepsInv(simd, s, step);
    case WriteLoadOther => WriteLoadKeepsInv(simd, s, step);
    case _ => ReadLoadKeepsInv(simd, s, step);
  }

  lemma {:induction false} RunKeepsInv(simd: bool, s: Ring, steps: seq<Step>)
    requires Positions(s) && (s.kept ==> Inv(simd, s)) && Run(simd, s, steps).Some?
    ensures Positions(Run(simd, s, steps).value)
    ensures Run(simd, s, steps).value.kept ==> Inv(simd, Run(simd, s, steps).value)
    decreases |steps|
  {
    if steps != [] {
      var next := Do(simd, s, steps[0]).value;
      StepKeepsPositions(simd, s, steps[0]);
      if next.kept { StepKeepsInv(simd, s, steps[0]); }
      RunKeepsInv(simd, next, steps[1..]);
    }
  }

  lemma EmptyInv(simd: bool, arena: seq<byte>, size: nat)
    requires size >= 1 && |arena| == size + SLACK
    ensures Inv(simd, Empty(arena, size))
  {}

  lemma ReachableInv(simd: bool, lens: set<nat>, s: Ring)
    requires Reachable(simd, lens, s)
    ensures Positions(s) && (s.kept ==> Inv(simd, s))
  {
    var arena: seq<byte> :|
      |arena| == s.size + SLACK && s.size >= 1 && Leads(simd, lens, Empty(arena, s.size), s);
    var steps :| Allowed(lens, steps) && Run(simd, Empty(arena, s.size), steps) == Some(s);
    EmptyInv(simd, arena, s.size);
    RunKeepsInv(simd, Empty(arena, s.size), steps);
  }

  /** In every interleaving whose accepted writes kept off the unread bytes, the bytes read are
      a prefix of the bytes written, at most size - 1 wait, and they wait in the ring. */
  lemma KeptIsFifo(simd: bool, lens: set<nat>, s: Ring)
    requires Reachable(simd, lens, s) && s.kept
    ensures s.Shaped() && Fifo(s) && |s.written| - |s.read| <= s.size - 1
  {
    ReachableInv(simd, lens, s);
    InvIsFifo(simd, s);
  }

  /** There a write in flight, with all that its copies reach, never touches a byte that a read
      in flight was asked for. */
  lemma NoByteRace(simd: bool, lens: set<nat>, s: Ring, j: nat)
    requires Reachable(simd, lens, s) && s.kept && s.writer.Writing? && s.reader.Reading?
    requires j < s.reader.len
    ensures s.Shaped() && !Reaches(simd, s, ByteRing.WrapIndex(s.reader.pos, s.size, j))
  {
    ReachableInv(simd, lens, s);
    UnreadPlace(s, |s.read| + j);
    assert !Reaches(simd, s, Place(s, |s.read| + j));
  }

  /** In every interleaving a write is refused exactly when its data exceeds the space left as
      it loads the read position; a read finds nothing exactly when nothing waits as it loads
      the write position, and otherwise copies as much as waits and fits. */
  lemma RefusalsAreExact(simd: bool, lens: set<nat>, s: Ring)
    requires Reachable(simd, lens, s)
    ensures s.Shaped() && |s.read| <= |s.written|
    ensures s.writer.WriteLoaded? ==>
              (Do(simd, s, WriteLoadOther).value.writer.WriteIdle? <==>
               s.writer.len + |Queue(s)| > s.size - 1)
    ensures s.reader.ReadLoaded? ==>
              var next := Do(simd, s, ReadLoadOther).value.reader;
              && (next.ReadIdle? <==> Queue(s) == [])
              && (next.Reading? ==>
                    next.len == if s.reader.room < |Queue(s)| then s.reader.room else |Queue(s)|)
  {
    ReachableInv(simd, lens, s);
    PositionsCount(s);
  }

  predicate QueueMoves(s: Ring, step: Step, t: Ring) {
    && |s.read| <= |s.written| && |t.read| <= |t.written|
    && match step
       case WriteStore =>
         s.writer.Writing? && s.writer.len <= |s.writer.data|
         && Queue(t) == Queue(s) + s.writer.data[..s.writer.len]
       case ReadStore =>
         s.reader.Reading? && AllDone(s.reader.got.Keys, s.reader.len)
         && Queue(s) == GotBytes(s.reader.got, s.reader.len) + Queue(t)
       case _ => Queue(t) == Queue(s)
  }

  lemma StoreRemoves(simd: bool, s: Ring)
    requires Positions(s) && ReaderRight(s) && Do(simd, s, ReadStore).Some?
    ensures QueueMoves(s, ReadStore, Do(simd, s, ReadStore).value)
  {
    var t := Do(simd, s, ReadStore).value;
    GotOldest(s);
    assert |t.read| == |s.read| + s.reader.len && t.written == s.written;
    assert Queue(s) == GotBytes(s.reader.got, s.reader.len) + Queue(t);
  }

  lemma QueueMovesOn(simd: bool, s: Ring, step: Step)
    requires Positions(s) && ReaderRight(s) && Do(simd, s, step).Some?
    ensures QueueMoves(s, step, Do(simd, s, step).value)
  {
    if step.ReadStore? { StoreRemoves(simd, s); }
  }

  /** Every step of a kept interleaving is, on the waiting bytes, the appending of the written
      data, the removal of the oldest bytes, or nothing. */
  lemma StepRefinesQueue(simd: bool, lens: set<nat>, s: Ring, step: Step)
    requires Reachable(simd, lens, s) && s.kept && s.Shaped() && Do(simd, s, step).Some?
    ensures QueueMoves(s, step, Do(simd, s, step).value)
  {
    ReachableInv(simd, lens, s);
    QueueMovesOn(simd, s, step);
  }

  // ----- Steps that lead on -----

  lemma {:induction false} RunJoins(simd: bool, s: Ring, a: seq<Step>, b: seq<Step>)
    requires s.Shaped() && Run(simd, s, a).Some?
    ensures Run(simd, s, a + b) == Run(simd, Run(simd, s, a).value, b)
    decreases |a|
  {
    if a == [] {
      assert a + b == b;
    } else {
      assert (a + b)[1..] == a[1..] + b;
      RunJoins(simd, Do(simd, s, a[0]).value, a[1..], b);
    }
  }

  lemma LeadsNowhere(simd: bool, lens: set<nat>, s: Ring)
    requires s.Shaped()
    ensures Leads(simd, lens, s, s)
  {
    assert Allowed(lens, []) && Run(simd, s, []) == Some(s);
  }

  lemma LeadsJoins(simd: bool, lens: set<nat>, s: Ring, t: Ring, u: Ring)
    requires s.Shaped() && t.Shaped() && Leads(simd, lens, s, t) && Leads(simd, lens, t, u)
    ensures Leads(simd, lens, s, u)
  {
    var a :| Allowed(lens, a) && Run(simd, s, a) == Some(t);
    var b :| Allowed(lens, b) && Run(simd, t, b) == Some(u);
    RunJoins(simd, s, a, b);
    assert Allowed(lens, a + b);
  }

  lemma LeadsOn(simd: bool, lens: set<nat>, s: Ring, t: Ring, step: Step, u: Ring)
    requires s.Shaped() && t.Shaped() && Leads(simd, lens, s, t)
    requires AllowedStep(lens, step) && Do(simd, t, step) == Some(u)
    ensures Leads(simd, lens, s, u)
  {
    assert Run(simd, u, []) == Some(u);
    assert Allowed(lens, [step]) && Run(simd, t, [step]) == Some(u);
    LeadsJoins(simd, lens, s, t, u);
  }

  lemma ReachableOn(simd: bool, lens: set<nat>, s: Ring, t: Ring)
    requires Reachable(simd, lens, s) && s.Shaped() && Leads(simd, lens, s, t)
    ensures Reachable(simd, lens, t)
  {
    var arena: seq<byte> :|
      |arena| == s.size + SLACK && s.size >= 1 && Leads(simd, lens, Empty(arena, s.size), s);
    LeadsJoins(simd, lens, Empty(arena, s.size), s, t);
    var steps :| Allowed(lens, steps) && Run(simd, s, steps) == Some(t);
  }

  // ----- A whole write -----

  function Below(n: nat): (done: set<nat>)
    ensures forall k: nat :: k in done <==> k < n
  {
    if n == 0 then {} else Below(n - 1) + {n - 1}
  }

  /** The first copy of a write in flight with its first `n` bytes moved. */
  function FirstMoved(simd: bool, s: Ring, n: nat): (t: Ring)
    requires s.Shaped() && s.writer.Writing? && n <= ReachOf(simd, s).first
    ensures t.Shaped() && t.writer.Writing?
  {
    s.(arena := Copied(s.arena, s.writer.pos, s.writer.data, 0, n),
       writer := s.writer.(first := Below(n), second := {}))
  }

  lemma FirstNext(simd: bool, s: Ring, n: nat)
    requires s.Shaped() && s.writer.Writing? && n < ReachOf(simd, s).first
    ensures Do(simd, FirstMoved(simd, s, n), WriteFirst(n)) == Some(FirstMoved(simd, s, n + 1))
  {
    var t := FirstMoved(simd, s, n);
    assert ReachOf(simd, t) == ReachOf(simd, s);
    assert MoveFirst(simd, t, n).arena == FirstMoved(simd, s, n + 1).arena;
  }

  lemma {:induction false} MovesFirst(simd: bool, lens: set<nat>, s: Ring, n: nat)
    requires s.Shaped() && s.writer.Writing? && s.writer.first == s.writer.second == {}
    requires n <= ReachOf(simd, s).first
    ensures Leads(simd, lens, s, FirstMoved(simd, s, n))
    decreases n
  {
    var t := FirstMoved(simd, s, n);
    if n == 0 {
      assert t.arena == s.arena && Below(0) == {};
      LeadsNowhere(simd, lens, s);
    } else {
      MovesFirst(simd, lens, s, n - 1);
      FirstNext(simd, s, n - 1);
      LeadsOn(simd, lens, s, FirstMoved(simd, s, n - 1), WriteFirst(n - 1), t);
    }
  }

  /** The second copy of a write that wraps, with its first `n` bytes moved. */
  function SecondMoved(simd: bool, s: Ring, n: nat): (t: Ring)
    requires s.Shaped() && s.writer.Writing? && n <= ReachOf(simd, s).second
    requires s.writer.pos + s.writer.len > s.size
    ensures t.Shaped() && t.writer.Writing?
  {
    s.(arena := Copied(s.arena, 0, s.writer.data, s.size - s.writer.pos, n),
       writer := s.writer.(second := Below(n)))
  }

  lemma SecondNext(simd: bool, s: Ring, n: nat)
    requires s.Shaped() && s.writer.Writing? && AllDone(s.writer.first, ReachOf(simd, s).first)
    requires s.writer.pos + s.writer.len > s.size && n < ReachOf(simd, s).second
    ensures Do(simd, SecondMoved(simd, s, n), WriteSecond(n))
            == Some(SecondMoved(simd, s, n + 1))
  {
    var t := SecondMoved(simd, s, n);
    assert ReachOf(simd, t) == ReachOf(simd, s);
    assert MoveSecond(simd, t, n).arena == SecondMoved(simd, s, n + 1).arena;
  }

  lemma {:induction false} MovesSecond(simd: bool, lens: set<nat>, s: Ring, n: nat)
    requires s.Shaped() && s.writer.Writing? && s.writer.second == {}
    requires AllDone(s.writer.first, ReachOf(simd, s).first)
    requires s.writer.pos + s.writer.len > s.size && n <= ReachOf(simd, s).second
    ensures Leads(simd, lens, s, SecondMoved(simd, s, n))
    decreases n
  {
    var t := SecondMoved(simd, s, n);
    if n == 0 {
      assert t.arena == s.arena && Below(0) == {};
      LeadsNowhere(simd, lens, s);
    } else {
      MovesSecond(simd, lens, s, n - 1);
      SecondNext(simd, s, n - 1);
      LeadsOn(simd, lens, s, SecondMoved(simd, s, n - 1), WriteSecond(n - 1), t);
    }
  }

  /** The state after an uninterrupted write: the memory and position of the whole call. */
  function AfterWrite(simd: bool, s: Ring): (t: Ring)
    requires Positions(s) && s.writer.Writing?
    requires s.writer.len <= s.View().FreeSpace()
    ensures t.Shaped()
  {
    var Writing(data, len, _, _, _) := s.writer;
    var after := ByteRing.Write(s.View(), data, len, ReachOf(simd, s));
    s.(arena := after.arena, writePos := after.writePos, writer := WriteIdle,
       written := s.written + data[..len])
  }

  /** A write in flight with all its bytes moved. */
  function AllMoved(simd: bool, s: Ring, first: set<nat>, second: set<nat>): (t: Ring)
    requires Positions(s) && s.writer.Writing? && s.writer.len <= s.View().FreeSpace()
    ensures t.Shaped() && t.writer.Writing?
  {
    var Writing(data, len, pos, _, _) := s.writer;
    s.(arena := ByteRing.WriteArena(s.View(), data, len, ReachOf(simd, s)),
       writer := Writing(data, len, pos, first, second))
  }

  lemma StoresWrite(simd: bool, s: Ring, first: set<nat>, second: set<nat>)
    requires Positions(s) && s.writer.Writing? && s.writer.len <= s.View().FreeSpace()
    requires AllDone(first, ReachOf(simd, s).first) && AllDone(second, ReachOf(simd, s).second)
    ensures Do(simd, AllMoved(simd, s, first, second), WriteStore) == Some(AfterWrite(simd, s))
  {
    assert ReachOf(simd, AllMoved(simd, s, first, second)) == ReachOf(simd, s);
  }

  lemma MovesAll(simd: bool, lens: set<nat>, s: Ring) returns (second: set<nat>)
    requires Positions(s) && s.writer.Writing? && s.writer.first == s.writer.second == {}
    requires s.writer.len <= s.View().FreeSpace()
    ensures AllDone(second, ReachOf(simd, s).second)
    ensures Leads(simd, lens, s, AllMoved(simd, s, Below(ReachOf(simd, s).first), second))
  {
    var c := ReachOf(simd, s);
    var moved := FirstMoved(simd, s, c.first);
    MovesFirst(simd, lens, s, c.first);
    if s.writer.pos + s.writer.len > s.size {
      second := Below(c.second);
      SecondAfterFirst(simd, s);
      MovesSecond(simd, lens, moved, c.second);
      LeadsJoins(simd, lens, s, moved, AllMoved(simd, s, Below(c.first), second));
    } else {
      second := {};
      OnlyFirst(simd, s);
    }
  }

  lemma OnlyFirst(simd: bool, s: Ring)
    requires Positions(s) && s.writer.Writing? && s.writer.len <= s.View().FreeSpace()
    requires s.writer.pos + s.writer.len <= s.size
    ensures
      var n := ReachOf(simd, s).first;
      FirstMoved(simd, s, n) == AllMoved(simd, s, Below(n), {})
  {}

  lemma SecondAfterFirst(simd: bool, s: Ring)
    requires Positions(s) && s.writer.Writing? && s.writer.len <= s.View().FreeSpace()
    requires s.writer.pos + s.writer.len > s.size
    ensures
      var c := ReachOf(simd, s);
      var moved := FirstMoved(simd, s, c.first);
      && ReachOf(simd, moved) == c
      && SecondMoved(simd, moved, c.second)
         == AllMoved(simd, s, Below(c.first), Below(c.second))
  {}

  lemma CompletesWrite(simd: bool, lens: set<nat>, s: Ring)
    requires Positions(s) && s.writer.Writing? && s.writer.first == s.writer.second == {}
    requires s.writer.len <= s.View().FreeSpace()
    ensures Leads(simd, lens, s, AfterWrite(simd, s))
  {
    var second := MovesAll(simd, lens, s);
    var first := Below(ReachOf(simd, s).first);
    StoresWrite(simd, s, first, second);
    LeadsOn(simd, lens, s, AllMoved(simd, s, first, second), WriteStore, AfterWrite(simd, s));
  }

  /** An accepted write that is not interrupted is the write of the whole-call model. */
  lemma WholeWrite(simd: bool, lens: set<nat>, s: Ring) returns (t: Ring)
    requires Positions(s) && s.writer.WriteLoaded? && s.writer.len <= s.View().FreeSpace()
    ensures Leads(simd, lens, s, t) && t.Shaped()
    ensures t.View() == ByteRing.Write(s.View(), s.writer.data, s.writer.len, ReachOf(simd, s))
    ensures t.written == s.written + s.writer.data[..s.writer.len] && t.read == s.read
    ensures t.writer.WriteIdle? && t.reader == s.reader
    ensures t.kept == Accept(simd, s).kept
  {
    var accepted := Accept(simd, s);
    StepKeepsPositions(simd, s, WriteLoadOther);
    LeadsNowhere(simd, lens, s);
    LeadsOn(simd, lens, s, s, WriteLoadOther, accepted);
    CompletesWrite(simd, lens, accepted);
    t := AfterWrite(simd, accepted);
    LeadsJoins(simd, lens, s, accepted, t);
  }

  // ----- Exactly when every interleaving is first in, first out -----

  /** Every state two threads can reach with writes of these lengths is FIFO. */
  ghost predicate AlwaysFifo(simd: bool, size: nat, lens: set<nat>) {
    forall s :: Reachable(simd, lens, s) && s.size == size && s.Shaped() ==> Fifo(s)
  }

  /** In none of them has an accepted write reached the bytes unread as it loaded the read
      position. */
  ghost predicate AlwaysKept(simd: bool, size: nat, lens: set<nat>) {
    forall s :: Reachable(simd, lens, s) && s.size == size ==> s.kept
  }

  /** The last step before the first write that reaches unread bytes. */
  lemma {:induction false} FirstUnkept(simd: bool, lens: set<nat>, s: Ring, steps: seq<Step>)
    returns (t: Ring)
    requires s.Shaped() && s.kept && Allowed(lens, steps)
    requires Run(simd, s, steps).Some? && !Run(simd, s, steps).value.kept
    ensures Leads(simd, lens, s, t) && t.Shaped() && t.kept && t.size == s.size
    ensures t.writer.WriteLoaded? && !Accept(simd, t).kept
    decreases |steps|
  {
    var next := Do(simd, s, steps[0]).value;
    LeadsNowhere(simd, lens, s);
    if next.kept {
      assert Allowed(lens, steps[1..]);
      t := FirstUnkept(simd, lens, next, steps[1..]);
      LeadsOn(simd, lens, s, s, steps[0], next);
      LeadsJoins(simd, lens, s, next, t);
    } else {
      t := s;
    }
  }

  function WithData(s: Ring, data: seq<byte>): Ring
    requires s.writer.WriteLoaded?
  {
    s.(writer := WriteLoaded(data, s.writer.len, s.writer.pos))
  }

  lemma RunLast(simd: bool, s: Ring, steps: seq<Step>, t: Ring)
    returns (before: Ring)
    requires s.Shaped() && steps != [] && Run(simd, s, steps) == Some(t)
    ensures Run(simd, s, steps[..|steps| - 1]) == Some(before)
    ensures before.Shaped() && Do(simd, before, steps[|steps| - 1]) == Some(t)
    decreases |steps|
  {
    var n := |steps| - 1;
    if n == 0 {
      before := s;
      assert Run(simd, t, []) == Some(t);
    } else {
      before := RunLast(simd, Do(simd, s, steps[0]).value, steps[1..], t);
      assert steps[..n][1..] == steps[1..][..n - 1];
    }
  }

  /** Nothing a reader does depends on the bytes a write is about to carry. */
  lemma OtherDataStep(simd: bool, before: Ring, step: Step, t: Ring, data: seq<byte>)
    requires before.Shaped() && Do(simd, before, step) == Some(t) && t.writer.WriteLoaded?
    requires |data| == |t.writer.data| && !step.WriteLoadOwn?
    ensures before.writer == t.writer && WithData(before, data).Shaped()
    ensures Do(simd, WithData(before, data), step) == Some(WithData(t, data))
  {}

  /** Until it is accepted, a write could as well carry other bytes. */
  lemma {:induction false} OtherData(simd: bool, lens: set<nat>, s: Ring, steps: seq<Step>,
                                     t: Ring, data: seq<byte>)
    requires s.Shaped() && s.writer.WriteIdle? && t.Shaped() && t.writer.WriteLoaded?
    requires Allowed(lens, steps) && Run(simd, s, steps) == Some(t)
    requires |data| == |t.writer.data|
    ensures Leads(simd, lens, s, WithData(t, data))
    decreases |steps|
  {
    var n := |steps| - 1;
    var before := RunLast(simd, s, steps, t);
    var init, last := steps[..n], steps[n];
    assert AllowedStep(lens, last);
    assert Allowed(lens, init) by {
      forall i | 0 <= i < n ensures AllowedStep(lens, init[i]) {
        assert AllowedStep(lens, steps[i]);
      }
    }
    if last.WriteLoadOwn? {
      assert Leads(simd, lens, s, before);
      LeadsOn(simd, lens, s, before, WriteLoadOwn(data, last.len), WithData(t, data));
    } else {
      OtherDataStep(simd, before, last, t, data);
      OtherData(simd, lens, s, init, before, data);
      LeadsOn(simd, lens, s, WithData(before, data), last, WithData(t, data));
    }
  }

  /** After a write that does not append its data the ring is not FIFO. */
  lemma SpoiledIsNotFifo(s: Ring, t: Ring, data: seq<byte>)
    requires s.Shaped() && t.Shaped() && Fifo(s)
    requires t.read == s.read && t.written == s.written + data
    requires t.View().Contents() != s.View().Contents() + data
    ensures !Fifo(t)
  {
    assert Queue(t) == Queue(s) + data;
  }

  /** A write about to be accepted could as well carry other bytes. */
  lemma OtherDataReachable(simd: bool, lens: set<nat>, s: Ring, data: seq<byte>)
    requires Reachable(simd, lens, s) && s.Shaped() && s.writer.WriteLoaded?
    requires |data| == |s.writer.data|
    ensures Reachable(simd, lens, WithData(s, data))
  {
    var arena: seq<byte> :|
      |arena| == s.size + SLACK && s.size >= 1 && Leads(simd, lens, Empty(arena, s.size), s);
    var steps :| Allowed(lens, steps) && Run(simd, Empty(arena, s.size), steps) == Some(s);
    OtherData(simd, lens, Empty(arena, s.size), steps, s, data);
  }

  /** A write that reaches unread bytes spoils the ring, for some bytes of its caller. */
  lemma UnkeptLoses(simd: bool, lens: set<nat>, s: Ring) returns (t: Ring)
    requires Reachable(simd, lens, s) && s.Shaped() && s.kept
    requires s.writer.WriteLoaded? && !Accept(simd, s).kept
    ensures Reachable(simd, lens, t) && t.size == s.size && t.Shaped() && !Fifo(t)
  {
    ReachableInv(simd, lens, s);
    var source := ByteRing.UnreadIsLost(s.View(), s.writer.len, ReachOf(simd, s));
    var s' := WithData(s, source);
    OtherDataReachable(simd, lens, s, source);
    ReachableInv(simd, lens, s');
    t := WholeWrite(simd, lens, s');
    ReachableOn(simd, lens, s', t);
    InvIsFifo(simd, s');
    SpoiledIsNotFifo(s', t, source[..s.writer.len]);
  }

  /** Every interleaving is first in, first out, whatever the bytes, exactly when in none an
      accepted write reaches the bytes unread as it loads the read position. */
  lemma AlwaysFifoIff(simd: bool, size: nat, lens: set<nat>)
    ensures AlwaysFifo(simd, size, lens) <==> AlwaysKept(simd, size, lens)
  {
    if AlwaysKept(simd, size, lens) {
      forall s | Reachable(simd, lens, s) && s.size == size && s.Shaped() ensures Fifo(s) {
        KeptIsFifo(simd, lens, s);
      }
    } else {
      var s :| Reachable(simd, lens, s) && s.size == size && !s.kept;
      var arena: seq<byte> :|
        |arena| == size + SLACK && size >= 1 && Leads(simd, lens, Empty(arena, size), s);
      var steps :| Allowed(lens, steps) && Run(simd, Empty(arena, size), steps) == Some(s);
      var first := FirstUnkept(simd, lens, Empty(arena, size), steps);
      assert Reachable(simd, lens, first);
      var t := UnkeptLoses(simd, lens, first);
    }
  }

  // ----- The sizes at which that is so -----

  /** Copies that keep to their request, and those of small rings, never reach unread bytes. */
  lemma SmallKeepsQueue(simd: bool, v: ByteRing.Ring, len: nat)
    requires v.Valid() && len <= v.FreeSpace() && (simd ==> v.size <= 6)
    ensures ByteRing.KeepsQueue(v, len, ByteRing.ReachOf(simd, v.writePos, len, v.size))
  {}

  lemma {:induction false} SmallRunsKeep(simd: bool, s: Ring, steps: seq<Step>)
    requires s.Shaped() && s.kept && (simd ==> s.size <= 6) && Run(simd, s, steps).Some?
    ensures Run(simd, s, steps).value.kept
    decreases |steps|
  {
    if steps != [] {
      if steps[0].WriteLoadOther? && s.writer.len <= s.WriterView().FreeSpace() {
        SmallKeepsQueue(simd, s.WriterView(), s.writer.len);
      }
      SmallRunsKeep(simd, Do(simd, s, steps[0]).value, steps[1..]);
    }
  }

  lemma SmallAlwaysKept(simd: bool, size: nat, lens: set<nat>)
    requires simd ==> size <= 6
    ensures AlwaysKept(simd, size, lens)
  {
    forall s | Reachable(simd, lens, s) && s.size == size ensures s.kept {
      var arena: seq<byte> :|
        |arena| == size + SLACK && size >= 1 && Leads(simd, lens, Empty(arena, size), s);
      var steps :| Allowed(lens, steps) && Run(simd, Empty(arena, size), steps) == Some(s);
      SmallRunsKeep(simd, Empty(arena, size), steps);
    }
  }

  function GotMap(s: Ring, n: nat): (got: map<nat, byte>)
    requires s.Shaped() && s.reader.Reading? && n <= s.reader.len
    ensures forall k: nat :: k in got <==> k < n
  {
    if n == 0 then map[]
    else GotMap(s, n - 1)[n - 1 := s.arena[ByteRing.WrapIndex(s.reader.pos, s.size, n - 1)]]
  }

  /** A read in flight with its first `n` bytes copied. */
  function GotSome(s: Ring, n: nat): (t: Ring)
    requires s.Shaped() && s.reader.Reading? && n <= s.reader.len
    ensures t.Shaped() && t.reader.Reading?
  {
    s.(reader := Reading(s.reader.len, s.reader.pos, GotMap(s, n)))
  }

  lemma GetsNext(simd: bool, s: Ring, n: nat)
    requires s.Shaped() && s.reader.Reading? && n < s.reader.len
    ensures Do(simd, GotSome(s, n), ReadByte(n)) == Some(GotSome(s, n + 1))
  {}

  lemma {:induction false} CopiesRead(simd: bool, lens: set<nat>, s: Ring, n: nat)
    requires s.Shaped() && s.reader.Reading? && s.reader.got == map[] && n <= s.reader.len
    ensures Leads(simd, lens, s, GotSome(s, n))
    decreases n
  {
    if n == 0 {
      assert GotSome(s, 0) == s;
      LeadsNowhere(simd, lens, s);
    } else {
      CopiesRead(simd, lens, s, n - 1);
      GetsNext(simd, s, n - 1);
      LeadsOn(simd, lens, s, GotSome(s, n - 1), ReadByte(n - 1), GotSome(s, n));
    }
  }

  lemma ReadBegins(simd: bool, lens: set<nat>, s: Ring, room: nat)
    requires s.Shaped() && s.reader.ReadIdle? && s.View().AvailableData() > 0
    ensures
      var len := ByteRing.ReadLen(s.View(), room);
      Leads(simd, lens, s, s.(reader := Reading(len, s.readPos, map[])))
  {
    var loaded := s.(reader := ReadLoaded(room, s.readPos));
    assert loaded.ReaderView() == s.View();
    LeadsNowhere(simd, lens, s);
    LeadsOn(simd, lens, s, s, ReadLoadOwn(room), loaded);
    LeadsOn(simd, lens, s, loaded, ReadLoadOther, Do(simd, loaded, ReadLoadOther).value);
  }

  lemma ReadEnds(simd: bool, lens: set<nat>, s: Ring) returns (t: Ring)
    requires s.Shaped() && s.reader.Reading? && s.reader.got == map[]
    ensures Leads(simd, lens, s, t) && t.Shaped()
    ensures t == s.(readPos := ByteRing.WrapIndex(s.reader.pos, s.size, s.reader.len),
                    reader := ReadIdle, read := t.read)
  {
    var got := GotSome(s, s.reader.len);
    CopiesRead(simd, lens, s, s.reader.len);
    t := Do(simd, got, ReadStore).value;
    LeadsOn(simd, lens, s, got, ReadStore, t);
  }

  /** All lengths a write can be accepted with. */
  function AnyLength(size: nat): (lens: set<nat>)
    ensures forall n: nat :: n in lens <==> n < size
  {
    Below(size)
  }

  /** A state between calls that callers of any length can reach, with these positions. */
  ghost predicate Between(size: nat, s: Ring, r: nat, w: nat) {
    && Reachable(true, AnyLength(size), s) && s.Shaped() && s.size == size
    && s.writer.WriteIdle? && s.reader.ReadIdle? && s.readPos == r && s.writePos == w
  }

  lemma StartsBetween(size: nat) returns (s: Ring)
    requires size >= 1
    ensures Between(size, s, 0, 0)
  {
    var arena: seq<byte> := seq(size + SLACK, i => 0);
    s := Empty(arena, size);
    LeadsNowhere(true, AnyLength(size), s);
  }

  lemma LoadsWrite(size: nat, s: Ring, r: nat, w: nat, len: nat) returns (t: Ring)
    requires Between(size, s, r, w) && len < size
    ensures Reachable(true, AnyLength(size), t) && t.Shaped()
    ensures t == s.(writer := t.writer) && t.writer.WriteLoaded?
    ensures t.writer.len == len && t.writer.pos == w
  {
    var step := WriteLoadOwn(ByteRing.Bytes(len, 0, 0), len);
    t := Do(true, s, step).value;
    LeadsNowhere(true, AnyLength(size), s);
    LeadsOn(true, AnyLength(size), s, s, step, t);
    ReachableOn(true, AnyLength(size), s, t);
  }

  lemma WriteMoves(simd: bool, lens: set<nat>, s: Ring) returns (t: Ring)
    requires Positions(s) && s.writer.WriteLoaded?
    requires s.writer.len <= s.View().FreeSpace()
    ensures Leads(simd, lens, s, t) && t.Shaped() && t.size == s.size
    ensures t.readPos == s.readPos
    ensures t.writePos == if s.writePos + s.writer.len < s.size then s.writePos + s.writer.len
                          else s.writePos + s.writer.len - s.size
    ensures t.writer.WriteIdle? && t.reader == s.reader
  {
    t := WholeWrite(simd, lens, s);
    var v := t.View();
    assert v.size == s.size && v.readPos == s.readPos;
    assert v.writePos == ByteRing.WrapIndex(s.writePos, s.size, s.writer.len);
  }

  lemma WritesBetween(size: nat, s: Ring, r: nat, w: nat, len: nat, w': nat) returns (t: Ring)
    requires Between(size, s, r, w) && len <= s.View().FreeSpace()
    requires w' == if w + len < size then w + len else w + len - size
    ensures Between(size, t, r, w')
  {
    var loaded := LoadsWrite(size, s, r, w, len);
    ReachableInv(true, AnyLength(size), loaded);
    t := WriteMoves(true, AnyLength(size), loaded);
    ReachableOn(true, AnyLength(size), loaded, t);
  }

  lemma ReadsBetween(size: nat, s: Ring, w: nat, room: nat) returns (t: Ring)
    requires Between(size, s, 0, w) && 0 < room <= w
    ensures Between(size, t, room, w)
  {
    var reading := s.(reader := Reading(room, 0, map[]));
    ReadBegins(true, AnyLength(size), s, room);
    t := ReadEnds(true, AnyLength(size), reading);
    LeadsJoins(true, AnyLength(size), s, reading, t);
    ReachableOn(true, AnyLength(size), s, t);
  }

  /** Five bytes written at offset 0 reach an unread byte at offset 6. */
  lemma FiveAtZero(s: Ring)
    requires s.Shaped() && s.size >= 7 && s.readPos == 6
    requires s.writer.WriteLoaded? && s.writer.pos == 0 && s.writer.len == 5
    ensures !Accept(true, s).kept
  {
    assert ReachOf(true, s) == ByteRing.Reach(8, 0);
  }

  lemma FiveReachSix(size: nat, s: Ring)
    requires size >= 7 && Between(size, s, 6, 0)
    ensures !AlwaysKept(true, size, AnyLength(size))
  {
    var loaded := LoadsWrite(size, s, 6, 0, 5);
    FiveAtZero(loaded);
    var t := Do(true, loaded, WriteLoadOther).value;
    LeadsNowhere(true, AnyLength(size), loaded);
    LeadsOn(true, AnyLength(size), loaded, loaded, WriteLoadOther, t);
    ReachableOn(true, AnyLength(size), loaded, t);
  }

  /** From seven bytes on a write can reach unread bytes: fill the ring, read six, write one,
      and write five more. */
  lemma LargeIsNotKept(size: nat)
    requires size >= 7
    ensures !AlwaysKept(true, size, AnyLength(size))
  {
    var s := StartsBetween(size);
    s := WritesBetween(size, s, 0, 0, size - 1, size - 1);
    s := ReadsBetween(size, s, size - 1, 6);
    s := WritesBetween(size, s, 6, size - 1, 1, 0);
    FiveReachSix(size, s);
  }

  /** With the program's copies and callers that may write any length, every interleaving is
      first in, first out exactly for rings of at most six bytes; with copies that keep to their
      request, for all. */
  lemma AnyLengthsFifoIff(size: nat)
    ensures AlwaysFifo(true, size, AnyLength(size)) <==> size <= 6
    ensures AlwaysFifo(false, size, AnyLength(size))
  {
    AlwaysFifoIff(true, size, AnyLength(size));
    AlwaysFifoIff(false, size, AnyLength(size));
    SmallAlwaysKept(false, size, AnyLength(size));
    if size <= 6 {
      SmallAlwaysKept(true, size, AnyLength(size));
    } else {
      LargeIsNotKept(size);
    }
  }
}
