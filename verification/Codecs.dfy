/** Two encodings the program writes by hand: the hex seed of common/seed.rs and the batch of
    little-endian u64 values of perf/simd.rs. */
module Codecs {
  import opened Bits
  import opened Wrappers

  // ----- The hex seed -----

  function HexDigit(nibble: nat): (b: byte)
    requires nibble < 16
  {
    if nibble <= 9 then 48 + nibble else 97 + (nibble - 10)
  }

  /** The digits of the seed alphabet. */
  lemma HexDigitIs(nibble: nat)
    requires nibble < 16
    ensures HexDigit(nibble) == "0123456789abcdef"[nibble] as int
  {
    assert "0123456789abcdef"[nibble] as int
           == if nibble < 10 then '0' as int + nibble else 'a' as int + (nibble - 10);
  }

  /** A lowercase hex digit; anything else is not one. */
  function DigitValue(b: byte): (v: Option<nat>)
    ensures v.Some? ==> v.value < 16 && HexDigit(v.value) == b
  {
    if 48 <= b <= 57 then Some(b - 48)
    else if 97 <= b <= 102 then Some(b - 87)
    else None
  }

  /** The last `n` hex digits of `v`, most significant first. */
  function Hex(v: nat, n: nat): (s: seq<byte>)
    ensures |s| == n
  {
    if n == 0 then [] else Hex(v / 16, n - 1) + [HexDigit(v % 16)]
  }

  function FromHex(s: seq<byte>): Option<nat> {
    if s == [] then Some(0)
    else
      match (FromHex(s[..|s| - 1]), DigitValue(s[|s| - 1]))
      case (Some(high), Some(low)) => Some(16 * high + low)
      case _ => None
  }

  lemma Pow2Plus4(k: nat)
    ensures Pow2(k + 4) == 16 * Pow2(k)
  {
    assert Pow2(k + 2) == 4 * Pow2(k);
    assert Pow2(k + 4) == 4 * Pow2(k + 2);
  }

  lemma Pow2Plus8(k: nat)
    ensures Pow2(k + 8) == 256 * Pow2(k)
  {
    Pow2Plus4(k);
    Pow2Plus4(k + 4);
  }

  lemma FromHexAppends(s: seq<byte>, nibble: nat)
    requires nibble < 16 && FromHex(s).Some?
    ensures FromHex(s + [HexDigit(nibble)]) == Some(16 * FromHex(s).value + nibble)
  {
    assert (s + [HexDigit(nibble)])[..|s|] == s;
    assert DigitValue(HexDigit(nibble)) == Some(nibble);
  }

  lemma {:induction false} HexDecodes(v: nat, n: nat)
    requires v < Pow2(4 * n)
    ensures FromHex(Hex(v, n)) == Some(v)
  {
    if n > 0 {
      Pow2Plus4(4 * (n - 1));
      HexDecodes(v / 16, n - 1);
      FromHexAppends(Hex(v / 16, n - 1), v % 16);
    }
  }

  lemma {:induction false} HexEncodesBack(s: seq<byte>)
    requires FromHex(s).Some?
    ensures FromHex(s).value < Pow2(4 * |s|) && Hex(FromHex(s).value, |s|) == s
  {
    if s != [] {
      var n := |s| - 1;
      var high, low := FromHex(s[..n]).value, DigitValue(s[n]).value;
      HexEncodesBack(s[..n]);
      Pow2Plus4(4 * n);
      HexAppends(high, low, n);
      assert s == s[..n] + [s[n]];
    }
  }

  lemma HexAppends(high: nat, low: nat, n: nat)
    requires low < 16
    ensures Hex(16 * high + low, n + 1) == Hex(high, n) + [HexDigit(low)]
  {
    var v := 16 * high + low;
    assert v / 16 == high && v % 16 == low;
  }

  /** Digit `i` of `n` comes from the nibble `4 (n - 1 - i)` bits up. */
  lemma {:induction false} HexNibble(v: nat, n: nat, i: nat)
    requires i < n
    ensures Hex(v, n)[i] == HexDigit(Shr(v, 4 * (n - 1 - i)) % 16)
  {
    if i < n - 1 {
      HexNibble(v / 16, n - 1, i);
      NibbleUp(v, 4 * (n - 2 - i));
    } else {
      assert Shr(v, 0) == v;
    }
  }

  lemma {:induction false} NibbleUp(v: nat, k: nat)
    ensures Shr(v / 16, k) == Shr(v, k + 4)
  {
    if k > 0 {
      NibbleUp(v / 2, k - 1);
      assert v / 16 / 2 == v / 2 / 16;
    } else {
      assert Shr(v, 4) == Shr(v / 2, 3) == Shr(v / 2 / 2, 2) == Shr(v / 2 / 2 / 2, 1);
    }
  }

  lemma NibbleMask(v: nat)
    ensures And(v, 0xF) == v % 16
  {
    assert Pow2(4) == 16;
    AndLowMask(v, 4);
  }

  /** The loop of both seed functions: `buf` gets the eight digits of a 32-bit value. */
  method EncodeSeed(v: nat) returns (seed: seq<byte>)
    requires v < 0x1_0000_0000
    ensures seed == Hex(v, 8)
    ensures FromHex(seed) == Some(v)
  {
    var buf := new byte[8](_ => 0);
    for i := 0 to 8
      invariant forall j :: 0 <= j < i ==> buf[j] == Hex(v, 8)[j]
    {
      var nibble := And(Shr(v, 28 - i * 4), 0xF);
      NibbleMask(Shr(v, 28 - i * 4));
      HexNibble(v, 8, i);
      buf[i] := if nibble <= 9 then 48 + nibble else 97 + (nibble - 10);
    }
    seed := buf[..];
    Pow64();
    HexDecodes(v, 8);
  }

  /** Different 32-bit values have different seeds, and every eight-digit lowercase hex string
      is the seed of its value. */
  lemma SeedsAreHexStrings(v: nat, w: nat, s: seq<byte>)
    requires v < 0x1_0000_0000 && w < 0x1_0000_0000
    ensures Hex(v, 8) == Hex(w, 8) ==> v == w
    ensures |s| == 8 && FromHex(s).Some? ==>
              FromHex(s).value < 0x1_0000_0000 && Hex(FromHex(s).value, 8) == s
  {
    Pow64();
    HexDecodes(v, 8);
    HexDecodes(w, 8);
    if FromHex(s).Some? { HexEncodesBack(s); }
  }

  // ----- The u64 batch -----

  type U64Value = v: nat | v < U64

  /** The `n` lowest bytes of `v`, least significant first: `to_le_bytes` for 8. */
  function LeBytes(v: nat, n: nat): (s: seq<byte>)
    ensures |s| == n
  {
    if n == 0 then [] else [v % 256] + LeBytes(v / 256, n - 1)
  }

  /** `from_le_bytes` */
  function FromLe(s: seq<byte>): nat {
    if s == [] then 0 else s[0] + 256 * FromLe(s[1..])
  }

  /** Byte `i` holds the bits from `8 i` up. */
  lemma {:induction false} LeByte(v: nat, n: nat, i: nat)
    requires i < n
    ensures LeBytes(v, n)[i] == Shr(v, 8 * i) % 256
  {
    if i > 0 {
      LeByte(v / 256, n - 1, i - 1);
      ByteUp(v, 8 * (i - 1));
    }
  }

  lemma ByteUp(v: nat, k: nat)
    ensures Shr(v / 256, k) == Shr(v, k + 8)
  {
    NibbleUp(v, k + 4);
    NibbleUp(v / 16, k);
    assert v / 16 / 16 == v / 256;
  }

  lemma {:induction false} LeDecodes(v: nat, n: nat)
    requires v < Pow2(8 * n)
    ensures FromLe(LeBytes(v, n)) == v
  {
    if n > 0 {
      Pow2Plus8(8 * (n - 1));
      LeDecodes(v / 256, n - 1);
      assert LeBytes(v, n)[1..] == LeBytes(v / 256, n - 1);
    }
  }

  lemma LePrepends(low: byte, high: nat, n: nat)
    ensures LeBytes(low + 256 * high, n + 1) == [low] + LeBytes(high, n)
  {
    var v := low + 256 * high;
    assert v / 256 == high && v % 256 == low;
  }

  lemma {:induction false} LeEncodesBack(s: seq<byte>)
    ensures FromLe(s) < Pow2(8 * |s|) && LeBytes(FromLe(s), |s|) == s
  {
    if s != [] {
      var n := |s| - 1;
      LeEncodesBack(s[1..]);
      Pow2Plus8(8 * n);
      LePrepends(s[0], FromLe(s[1..]), n);
      assert s == [s[0]] + s[1..];
    }
  }

  lemma EightBytes(v: U64Value, s: seq<byte>)
    ensures FromLe(LeBytes(v, 8)) == v
    ensures |s| == 8 ==> FromLe(s) < U64 && LeBytes(FromLe(s), 8) == s
  {
    Pow64();
    LeDecodes(v, 8);
    LeEncodesBack(s);
  }

  function Serialized(xs: seq<U64Value>): (s: seq<byte>)
    ensures |s| == 8 * |xs|
  {
    if xs == [] then [] else Serialized(xs[..|xs| - 1]) + LeBytes(xs[|xs| - 1], 8)
  }

  function Group(s: seq<byte>, i: nat): (v: U64Value)
    requires 8 * i + 8 <= |s|
  {
    EightBytes(0, s[8 * i..8 * i + 8]);
    FromLe(s[8 * i..8 * i + 8])
  }

  /** Trailing bytes that do not fill a group are ignored. */
  function Deserialized(s: seq<byte>): (xs: seq<U64Value>)
    ensures |xs| == |s| / 8
  {
    seq(|s| / 8, i requires 0 <= i < |s| / 8 => Group(s, i))
  }

  method SerializeU64Batch(data: seq<U64Value>) returns (result: seq<byte>)
    ensures result == Serialized(data)
  {
    result := [];
    for i := 0 to |data|
      invariant result == Serialized(data[..i])
    {
      assert data[..i + 1][..i] == data[..i];
      result := result + LeBytes(data[i], 8);
    }
    assert data[..|data|] == data;
  }

  method DeserializeU64Batch(data: seq<byte>) returns (result: seq<U64Value>)
    ensures result == Deserialized(data)
  {
    var count := |data| / 8;
    result := [];
    for i := 0 to count
      invariant result == Deserialized(data)[..i]
    {
      var offset := i * 8;
      var bytes := EightFrom(data, offset);
      EightBytes(0, bytes);
      result := result + [FromLe(bytes)];
      assert Deserialized(data)[i] == Group(data, i);
    }
  }

  /** `[data[offset], .., data[offset + 7]]` */
  function EightFrom(data: seq<byte>, offset: nat): (bytes: seq<byte>)
    requires offset + 8 <= |data|
    ensures bytes == data[offset..offset + 8]
  {
    [data[offset], data[offset + 1], data[offset + 2], data[offset + 3],
     data[offset + 4], data[offset + 5], data[offset + 6], data[offset + 7]]
  }

  lemma {:induction false} SerializedGroup(xs: seq<U64Value>, i: nat)
    requires i < |xs|
    ensures Serialized(xs)[8 * i..8 * i + 8] == LeBytes(xs[i], 8)
  {
    var n := |xs| - 1;
    if i < n {
      SerializedGroup(xs[..n], i);
    }
  }

  /** Every batch comes back as it was. */
  lemma BatchRoundTrip(xs: seq<U64Value>)
    ensures Deserialized(Serialized(xs)) == xs
  {
    forall i | 0 <= i < |xs| ensures Group(Serialized(xs), i) == xs[i] {
      SerializedGroup(xs, i);
      EightBytes(xs[i], []);
    }
  }

  lemma AppendedGroup(before: seq<byte>, group: seq<byte>, n: nat)
    requires |before| == 8 * n && |group| == 8
    ensures Serialized(Deserialized(before + group)) == Serialized(Deserialized(before)) + group
  {
    var s := before + group;
    assert s[..8 * n] == before && s[8 * n..8 * n + 8] == group;
    LastGroup(s, n);
    SerializedLast(Deserialized(before), Group(s, n));
    GroupEncodesBack(s, n);
  }

  lemma {:induction false} GroupsRoundTrip(s: seq<byte>, n: nat)
    requires |s| == 8 * n
    ensures Serialized(Deserialized(s)) == s
    decreases n
  {
    if n > 0 {
      var before, group := s[..8 * (n - 1)], s[8 * (n - 1)..];
      GroupsRoundTrip(before, n - 1);
      AppendedGroup(before, group, n - 1);
      assert s == before + group;
    }
  }

  lemma GroupEncodesBack(s: seq<byte>, i: nat)
    requires 8 * i + 8 <= |s|
    ensures LeBytes(Group(s, i), 8) == s[8 * i..8 * i + 8]
  {
    EightBytes(0, s[8 * i..8 * i + 8]);
  }

  /** Serialising what was decoded gives back the longest prefix of whole groups. */
  lemma BytesRoundTrip(s: seq<byte>)
    ensures Serialized(Deserialized(s)) == s[..8 * (|s| / 8)]
  {
    var whole := s[..8 * (|s| / 8)];
    GroupsRoundTrip(whole, |s| / 8);
    forall i | 0 <= i < |s| / 8 ensures Group(s, i) == Group(whole, i) {
      assert whole[8 * i..8 * i + 8] == s[8 * i..8 * i + 8];
    }
    assert Deserialized(s) == Deserialized(whole);
  }

  lemma SerializedLast(xs: seq<U64Value>, v: U64Value)
    ensures Serialized(xs + [v]) == Serialized(xs) + LeBytes(v, 8)
  {
    assert (xs + [v])[..|xs|] == xs;
  }

  lemma LastGroup(s: seq<byte>, n: nat)
    requires |s| == 8 * n + 8
    ensures Deserialized(s) == Deserialized(s[..8 * n]) + [Group(s, n)]
  {
    forall i | 0 <= i < n ensures Group(s, i) == Group(s[..8 * n], i) {
      assert s[..8 * n][8 * i..8 * i + 8] == s[8 * i..8 * i + 8];
    }
  }
}
