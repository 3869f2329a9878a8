/** Base 128 varints as the generated protobuf code reads and writes them,
    in 64-bit arithmetic. */
module WireVarint {
  import opened Options
  import opened Powers

  type byte = x: int | 0 <= x < 256

  const TWO63: int := 0x8000_0000_0000_0000
  const TWO64: int := 0x1_0000_0000_0000_0000

  /** A Go string or byte slice: its length fits a signed 64-bit int. */
  type Slice = s: seq<byte> | |s| < TWO63

  type uint64 = x: int | 0 <= x < TWO64

  /** Go's conversion of a uint64 to int. */
  function ToInt(v: uint64): (r: int)
    ensures -TWO63 <= r < TWO63
    ensures r >= 0 <==> v < TWO63
    ensures r >= 0 ==> r == v
  {
    if v < TWO63 then v else v - TWO64
  }

  /** The sum of two non-negative Go ints. */
  function Add(a: int, b: int): (r: int)
    requires 0 <= a < TWO63 && 0 <= b < TWO63
    ensures r >= 0 <==> a + b < TWO63
    ensures r >= 0 ==> r == a + b
  {
    if a + b < TWO63 then a + b else a + b - TWO64
  }

  datatype WireError =
    | IntOverflow | UnexpectedEOF | InvalidLength | UnexpectedEndOfGroup | IllegalWireType
    | EndGroupForNonGroup | IllegalTag | WrongWireType

  datatype VarintRead = Varint(value: uint64, next: nat) | VarintError(err: WireError)

  /** `acc | uint64(b & 0x7F) << shift` on uint64, for an `acc` whose bits all
      lie below `shift`; BitsOfOr shows that this sum is the bitwise or. */
  function OrShifted(acc: uint64, b: byte, shift: nat): (r: uint64)
    requires acc < Pow2(shift)
    ensures r < Pow2(shift + 7)
  {
    OrShiftedBound(acc, b % 128, shift);
    (acc + b % 128 * Pow2(shift)) % TWO64
  }

  lemma OrShiftedBound(acc: nat, group: nat, shift: nat)
    requires acc < Pow2(shift) && group < 128
    ensures acc + group * Pow2(shift) < Pow2(shift + 7)
  {
    Pow2Seven(shift);
    var p := Pow2(shift);
    hide Pow2;
    assert group * p <= 127 * p;
  }

  lemma Pow2Seven(n: nat)
    ensures Pow2(n + 7) == 128 * Pow2(n)
  {
    assert Pow2(n + 7) == 2 * Pow2(n + 6) == 4 * Pow2(n + 5) == 8 * Pow2(n + 4) == 16 * Pow2(n + 3)
      == 32 * Pow2(n + 2) == 64 * Pow2(n + 1);
  }

  /** The read loop from byte `i`, `shift` bits having been read into `acc`. */
  function ReadFrom(d: seq<byte>, i: nat, shift: nat, acc: uint64): (r: VarintRead)
    requires acc < Pow2(shift)
    ensures r.Varint? ==> i < r.next <= |d|
    decreases 70 - shift
  {
    if shift >= 64 then VarintError(IntOverflow)
    else if i >= |d| then VarintError(UnexpectedEOF)
    else
      var acc' := OrShifted(acc, d[i], shift);
      if d[i] < 128 then Varint(acc', i + 1) else ReadFrom(d, i + 1, shift + 7, acc')
  }

  function ReadVarint(d: seq<byte>, i: nat): (r: VarintRead)
    ensures r.Varint? ==> i < r.next <= |d|
  {
    ReadFrom(d, i, 0, 0)
  }

  method DecodeVarint(dAtA: seq<byte>, index: nat) returns (r: VarintRead)
    ensures r == ReadVarint(dAtA, index)
  {
    var l := |dAtA|;
    var i, shift, wire: uint64 := index, 0, 0;
    while true
      invariant 0 <= shift <= 70 && 0 <= i && wire < Pow2(shift)
      invariant ReadFrom(dAtA, i, shift, wire) == ReadVarint(dAtA, index)
      decreases 70 - shift
    {
      if shift >= 64 {
        return VarintError(IntOverflow);
      }
      if i >= l {
        return VarintError(UnexpectedEOF);
      }
      var b := dAtA[i];
      i := i + 1;
      wire := OrShifted(wire, b, shift);
      if b < 0x80 {
        return Varint(wire, i);
      }
      shift := shift + 7;
    }
  }

  // ----- the bits of an or

  /** Bit `n` of a number. */
  predicate BitAt(v: nat, n: nat)
    decreases n
  {
    if n == 0 then v % 2 == 1 else BitAt(v / 2, n - 1)
  }

  lemma {:induction false} NoBitsInZero(n: nat)
    ensures !BitAt(0, n)
  {
    if n > 0 {
      NoBitsInZero(n - 1);
    }
  }

  /** Below `shift` the bits of a sum are those of the low part, above it those
      of the high part. */
  lemma {:induction false} BitsOfSum(low: nat, high: nat, shift: nat, n: nat)
    requires low < Pow2(shift)
    ensures BitAt(low + high * Pow2(shift), n) <==> if n < shift then BitAt(low, n) else BitAt(high, n - shift)
    decreases shift
  {
    if shift > 0 {
      var p := Pow2(shift - 1);
      assert high * Pow2(shift) == 2 * (high * p);
      assert (low + 2 * (high * p)) / 2 == low / 2 + high * p && (low + 2 * (high * p)) % 2 == low % 2;
      if n > 0 {
        BitsOfSum(low / 2, high, shift - 1, n - 1);
      }
    }
  }

  lemma WordIsPow2()
    ensures TWO64 == Pow2(64)
  {
    Pow2Seven(0);
    Pow2Seven(7);
    Pow2Seven(14);
    Pow2Seven(21);
    Pow2Seven(28);
    Pow2Seven(35);
    Pow2Seven(42);
    Pow2Seven(49);
    Pow2Seven(56);
    assert Pow2(63) == 0x8000_0000_0000_0000;
  }

  lemma BitsOfWrapped(v: nat, n: nat)
    requires n < 64
    ensures BitAt(v % TWO64, n) <==> BitAt(v, n)
  {
    WordIsPow2();
    hide Pow2, BitAt;
    assert v == v % TWO64 + v / TWO64 * TWO64;
    BitsOfSum(v % TWO64, v / TWO64, 64, n);
  }

  /** Each bit of what the loop computes is the or of the bits of its operands,
      the shifted one being cut off at 64 bits. */
  lemma BitsOfOr(acc: uint64, b: byte, shift: nat, n: nat)
    requires acc < Pow2(shift) && n < 64
    ensures BitAt(OrShifted(acc, b, shift), n) <==> BitAt(acc, n) || BitAt(b % 128 * Pow2(shift), n)
  {
    var group := b % 128;
    var sum := acc + group * Pow2(shift);
    BitsOfWrapped(sum, n);
    hide Pow2, BitAt;
    BitsOfSum(acc, group, shift, n);
    BitsOfSum(0, group, shift, n);
    BitsOfSum(acc, 0, shift, n);
    NoBitsInZero(n);
    if n >= shift {
      NoBitsInZero(n - shift);
    }
  }

  /** Numbers of `width` bits with the same bits are equal. */
  lemma {:induction false} SameBits(v: nat, w: nat, width: nat)
    requires v < Pow2(width) && w < Pow2(width)
    requires forall n :: 0 <= n < width ==> (BitAt(v, n) <==> BitAt(w, n))
    ensures v == w
  {
    if width > 0 {
      forall n | 0 <= n < width - 1 ensures BitAt(v / 2, n) <==> BitAt(w / 2, n) {
        assert BitAt(v, n + 1) <==> BitAt(w, n + 1);
      }
      SameBits(v / 2, w / 2, width - 1);
      assert BitAt(v, 0) <==> BitAt(w, 0);
    }
  }

  /** So the sum is the only uint64 with the bits of the or. */
  lemma OrIsSum(acc: uint64, b: byte, shift: nat, r: uint64)
    requires acc < Pow2(shift)
    requires forall n :: 0 <= n < 64 ==> (BitAt(r, n) <==> BitAt(acc, n) || BitAt(b % 128 * Pow2(shift), n))
    ensures r == OrShifted(acc, b, shift)
  {
    WordIsPow2();
    hide Pow2, BitAt, OrShifted;
    forall n | 0 <= n < 64 ensures BitAt(r, n) <==> BitAt(OrShifted(acc, b, shift), n) {
      BitsOfOr(acc, b, shift, n);
    }
    SameBits(r, OrShifted(acc, b, shift), 64);
  }

  // ----- what a varint means

  /** A varint: up to ten bytes, all but the last with the continuation bit. */
  ghost predicate VarintBytes(bs: seq<byte>) {
    1 <= |bs| <= 10 && bs[|bs| - 1] < 128 && forall k :: 0 <= k < |bs| - 1 ==> bs[k] >= 128
  }

  /** The payload bits, least significant group first. */
  function Base128(bs: seq<byte>): nat {
    if bs == [] then 0 else bs[0] % 128 + 128 * Base128(bs[1..])
  }

  ghost predicate AllContinue(d: seq<byte>, i: int, j: int)
    requires 0 <= i && j <= |d|
  {
    forall k :: i <= k < j ==> d[k] >= 128
  }

  lemma ModAbsorb(a: int, b: int)
    ensures (a % TWO64 + b) % TWO64 == (a + b) % TWO64
  {
    var q := a / TWO64;
    assert a + b == (a % TWO64 + b) + q * TWO64;
  }

  /** One turn of the loop: what is read next sits seven bits higher. */
  lemma ReadStep(acc: uint64, b: byte, rest: nat, shift: nat)
    requires acc < Pow2(shift)
    ensures (OrShifted(acc, b, shift) + rest * Pow2(shift + 7)) % TWO64
      == (acc + (b % 128 + 128 * rest) * Pow2(shift)) % TWO64
  {
    var p := Pow2(shift);
    Pow2Seven(shift);
    hide Pow2;
    ModAbsorb(acc + b % 128 * p, rest * (128 * p));
    assert (b % 128 + 128 * rest) * p == b % 128 * p + rest * (128 * p);
  }

  lemma VarintCons(b: byte, rest: seq<byte>)
    ensures Base128([b] + rest) == b % 128 + 128 * Base128(rest)
    ensures b >= 128 && |rest| < 10 && VarintBytes(rest) ==> VarintBytes([b] + rest)
    ensures b < 128 ==> VarintBytes([b]) && Base128([b]) == b % 128 + 128 * 0
  {
    assert Base128([b]) == b % 128 + 128 * Base128([]);
  }

  /** A successful loop has read a varint, and added its payload above `shift`. */
  lemma {:induction false} ReadFromValue(d: seq<byte>, i: nat, k: nat, acc: uint64)
    requires k <= 10 && i <= |d| && acc < Pow2(7 * k) && ReadFrom(d, i, 7 * k, acc).Varint?
    ensures var Varint(v, j) := ReadFrom(d, i, 7 * k, acc);
      && j - i <= 10 - k && VarintBytes(d[i..j])
      && v == (acc + Base128(d[i..j]) * Pow2(7 * k)) % TWO64
    decreases 10 - k
  {
    hide OrShifted, Pow2, Base128, VarintBytes;
    if d[i] < 128 {
      assert d[i..i + 1] == [d[i]];
      VarintCons(d[i], []);
      ReadStep(acc, d[i], 0, 7 * k);
    } else {
      var acc' := OrShifted(acc, d[i], 7 * k);
      assert ReadFrom(d, i, 7 * k, acc) == ReadFrom(d, i + 1, 7 * (k + 1), acc');
      ReadFromValue(d, i + 1, k + 1, acc');
      var j := ReadFrom(d, i, 7 * k, acc).next;
      hide ReadFrom;
      assert d[i..j] == [d[i]] + d[i + 1..j];
      VarintCons(d[i], d[i + 1..j]);
      ReadStep(acc, d[i], Base128(d[i + 1..j]), 7 * k);
    }
  }

  /** The loop fails on too many continuation bytes or on a cut-off varint. */
  lemma {:induction false} ReadFromFails(d: seq<byte>, i: nat, k: nat, acc: uint64)
    requires k <= 10 && i <= |d| && acc < Pow2(7 * k) && ReadFrom(d, i, 7 * k, acc).VarintError?
    ensures match ReadFrom(d, i, 7 * k, acc).err
      case IntOverflow => i + 10 - k <= |d| && AllContinue(d, i, i + 10 - k)
      case UnexpectedEOF => |d| < i + 10 - k && AllContinue(d, i, |d|)
      case _ => false
    decreases 10 - k
  {
    hide OrShifted, Pow2;
    if k < 10 && i < |d| {
      ReadFromFails(d, i + 1, k + 1, OrShifted(acc, d[i], 7 * k));
    }
  }

  /** Reading succeeds on exactly the varints, and yields their value modulo
      2^64; the two failures are ten continuation bytes and a cut-off varint. */
  lemma ReadVarintMeaning(d: seq<byte>, i: nat)
    requires i <= |d|
    ensures match ReadVarint(d, i)
      case Varint(v, j) => i < j <= |d| && VarintBytes(d[i..j]) && v == Base128(d[i..j]) % TWO64
      case VarintError(IntOverflow) => i + 10 <= |d| && AllContinue(d, i, i + 10)
      case VarintError(UnexpectedEOF) => |d| < i + 10 && AllContinue(d, i, |d|)
      case VarintError(_) => false
  {
    if ReadVarint(d, i).Varint? {
      ReadFromValue(d, i, 0, 0);
    } else {
      ReadFromFails(d, i, 0, 0);
    }
  }

  /** A varint ends at the first byte without the continuation bit. */
  lemma VarintEnds(d: seq<byte>, i: nat, j: nat)
    requires i < j <= |d| && VarintBytes(d[i..j])
    ensures d[j - 1] < 128 && AllContinue(d, i, j - 1) && j <= i + 10
  {
    assert d[j - 1] == d[i..j][j - i - 1];
    assert forall k :: i <= k < j - 1 ==> d[k] == d[i..j][k - i];
  }

  /** A varint standing anywhere in a buffer is read as itself. */
  lemma ReadVarintAt(d: seq<byte>, i: nat, j: nat)
    requires i < j <= |d| && VarintBytes(d[i..j])
    ensures ReadVarint(d, i) == Varint(Base128(d[i..j]) % TWO64, j)
  {
    ReadVarintMeaning(d, i);
    VarintEnds(d, i, j);
    if ReadVarint(d, i).Varint? {
      VarintEnds(d, i, ReadVarint(d, i).next);
    }
    hide ReadVarint, Base128, VarintBytes;
  }

  // ----- writing

  /** The shortest varint of a value. */
  function Shortest(v: nat): (bs: seq<byte>)
    ensures bs != []
  {
    if v < 128 then [v] else [v % 128 + 128] + Shortest(v / 128)
  }

  /** Number of significant bits (bits.Len64). */
  function Len64(v: nat): nat {
    if v == 0 then 0 else 1 + Len64(v / 2)
  }

  /** `v | 1`. */
  function OrOne(v: nat): nat {
    if v % 2 == 0 then v + 1 else v
  }

  function Sov(v: nat): nat {
    (Len64(OrOne(v)) + 6) / 7
  }

  lemma {:induction false} Len64Quarter(v: nat)
    requires v >= 4
    ensures Len64(v) == 2 + Len64(v / 4)
  {
    assert v / 2 / 2 == v / 4;
  }

  lemma {:induction false} Len64Shift(v: nat)
    requires v >= 128
    ensures Len64(v) == 7 + Len64(v / 128)
  {
    Len64Quarter(v);
    Len64Quarter(v / 4);
    Len64Quarter(v / 16);
    assert v / 4 / 4 == v / 16 && v / 16 / 4 == v / 64 && v / 64 / 2 == v / 128;
  }

  lemma {:induction false} Len64OrOne(v: nat)
    requires v > 0
    ensures Len64(OrOne(v)) == Len64(v)
  {
    assert OrOne(v) / 2 == v / 2;
  }

  /** The size function counts exactly the bytes the writer produces. */
  lemma {:induction false} SovIsLength(v: nat)
    ensures Sov(v) == |Shortest(v)|
  {
    if v < 128 {
      SmallLen64(OrOne(v));
    } else {
      SovIsLength(v / 128);
      Len64OrOne(v);
      Len64OrOne(v / 128);
      Len64Shift(v);
    }
  }

  lemma SmallLen64(v: nat)
    requires 1 <= v < 128
    ensures 1 <= Len64(v) <= 7
  {
    assert Len64(v) == 1 + Len64(v / 2);
    assert v / 128 == 0;
    Len64Monotone(v / 2, 63);
    assert Len64(63) == 6;
  }

  lemma Len64Monotone(v: nat, w: nat)
    requires v <= w
    ensures Len64(v) <= Len64(w)
  {
  }

  lemma {:induction false} ShortestIsVarint(v: nat, n: nat)
    requires 1 <= n <= 10 && v < Pow2(7 * n)
    ensures VarintBytes(Shortest(v)) && |Shortest(v)| <= n && Base128(Shortest(v)) == v
  {
    if v >= 128 {
      Pow2Seven(7 * (n - 1));
      assert n > 1;
      ShortestIsVarint(v / 128, n - 1);
      assert Shortest(v)[1..] == Shortest(v / 128);
    } else {
      assert Base128([v]) == v % 128 + 128 * Base128([]);
    }
  }

  lemma SeventyBits()
    ensures Pow2(70) >= TWO64
  {
    WordIsPow2();
    assert Pow2(70) == 2 * Pow2(69) == 4 * Pow2(68) == 8 * Pow2(67) == 16 * Pow2(66) == 32 * Pow2(65);
    assert Pow2(65) == 2 * Pow2(64);
  }

  /** Every uint64 is written as a varint that reads back as itself. */
  lemma ShortestRoundTrip(v: uint64, rest: seq<byte>)
    ensures VarintBytes(Shortest(v)) && Base128(Shortest(v)) == v
    ensures ReadVarint(Shortest(v) + rest, 0) == Varint(v, |Shortest(v)|)
  {
    SeventyBits();
    ShortestIsVarint(v, 10);
    var n := |Shortest(v)|;
    assert n > 0;
    hide ReadVarint, Base128, VarintBytes, Shortest, Pow2;
    assert (Shortest(v) + rest)[0..n] == Shortest(v);
    ReadVarintAt(Shortest(v) + rest, 0, n);
  }

  /** The example of Protocol Buffers Encoding, section "Base 128 Varints". */
  lemma KnownVarint()
    ensures Shortest(150) == [0x96, 0x01] && Base128([0x96, 0x01]) == 150
  {
    assert Shortest(1) == [1];
    assert [0x96, 0x01][1..] == [0x01] && Base128([0x01]) == 1;
  }

  method EncodeVarint(dAtA: array<byte>, end: nat, value: uint64) returns (base: nat)
    requires Sov(value) <= end <= dAtA.Length
    modifies dAtA
    ensures base == end - Sov(value)
    ensures dAtA[base..end] == Shortest(value)
    ensures forall k :: 0 <= k < dAtA.Length && !(base <= k < end) ==> dAtA[k] == old(dAtA[k])
  {
    SovIsLength(value);
    var offset, v := end - Sov(value), value;
    base := offset;
    while v >= 0x80
      invariant base <= offset && offset + |Shortest(v)| == end
      invariant dAtA[base..offset] + Shortest(v) == Shortest(value)
      invariant forall k :: 0 <= k < dAtA.Length && !(base <= k < end) ==> dAtA[k] == old(dAtA[k])
    {
      assert Shortest(v) == [v % 128 + 128] + Shortest(v / 128);
      dAtA[offset] := v % 128 + 0x80;
      v := v / 128;
      offset := offset + 1;
    }
    dAtA[offset] := v;
  }
}
