/** The field-dispatch decoder shared by the generated Unmarshal functions: it
    merges the fields it knows into the receiver and skips the others. */
module WireDecode {
  import opened Options
  import opened Powers
  import opened WireVarint
  import opened WireSkip

  /** The receiver after decoding, and the error that stopped it if any. */
  datatype Decoded<+M> = Decoded(msg: M, err: Option<WireError>)

  /** One turn of the decode loop. */
  datatype Turn = Known(num: int, payload: Slice, next: nat) | Unknown(next: nat) | Bad(err: WireError)

  /** int32(wire >> 3). */
  function FieldNum(wire: uint64): int {
    var low := wire / 8 % 0x1_0000_0000;
    if low < 0x8000_0000 then low else low - 0x1_0000_0000
  }

  /** The number a tag carries is its value divided by eight, up to 2^31; the
      numbers from 2^31 to 2^32 come out negative, and higher bits are lost. */
  lemma FieldNumOf(wire: uint64)
    ensures var n := wire / 8 % 0x1_0000_0000;
      FieldNum(wire) == if n < 0x8000_0000 then n else n - 0x1_0000_0000
  {
  }

  /** A length-delimited payload whose length varint stands at `j`. */
  function KnownPayload(d: seq<byte>, num: int, j: nat): (r: Turn)
    requires Sliceable(d) && j <= |d|
    ensures !r.Unknown?
    ensures r.Known? ==> j < r.next <= |d|
  {
    match ReadVarint(d, j)
    case VarintError(err) => Bad(err)
    case Varint(v, k) =>
      if ToInt(v) < 0 then Bad(InvalidLength)
      else
        var post := Add(k, ToInt(v));
        if post < 0 then Bad(InvalidLength)
        else if post > |d| then Bad(UnexpectedEOF)
        else Known(num, d[k..post], post)
  }

  function SkipUnknown(d: seq<byte>, i: nat): (r: Turn)
    requires Sliceable(d) && i < |d|
    ensures !r.Known?
    ensures r.Unknown? ==> i < r.next <= |d|
  {
    SkipFits(d[i..], 0, 0);
    match Skip(d[i..])
    case SkipError(err) => Bad(err)
    case Skipped(n) =>
      if Add(i, n) < 0 then Bad(InvalidLength)
      else if i + n > |d| then Bad(UnexpectedEOF)
      else Unknown(i + n)
  }

  function NextField(d: seq<byte>, i: nat, known: set<int>): (r: Turn)
    requires Sliceable(d) && i < |d|
    ensures !r.Bad? ==> i < r.next <= |d|
  {
    match ReadVarint(d, i)
    case VarintError(err) => Bad(err)
    case Varint(wire, j) =>
      if wire % 8 == 4 then Bad(EndGroupForNonGroup)
      else if FieldNum(wire) <= 0 then Bad(IllegalTag)
      else if FieldNum(wire) in known then
        if wire % 8 != 2 then Bad(WrongWireType) else KnownPayload(d, FieldNum(wire), j)
      else SkipUnknown(d, i)
  }

  /** One turn, by the tag read and, for a known field, the length behind it:
      which errors it gives, and that a known field is the one its tag names,
      with the bytes its length says. */
  lemma TurnCases(d: seq<byte>, i: nat, known: set<int>)
    requires Sliceable(d) && i < |d|
    ensures match ReadVarint(d, i)
      case VarintError(err) => NextField(d, i, known) == Bad(err)
      case Varint(wire, j) =>
        var n, t := wire / 8 % 0x1_0000_0000, wire % 8;
        if t == 4 then NextField(d, i, known) == Bad(EndGroupForNonGroup)
        else if n == 0 || n >= 0x8000_0000 then NextField(d, i, known) == Bad(IllegalTag)
        else if n !in known then !NextField(d, i, known).Known?
        else if t != 2 then NextField(d, i, known) == Bad(WrongWireType)
        else
          match ReadVarint(d, j)
          case VarintError(err) => NextField(d, i, known) == Bad(err)
          case Varint(length, k) =>
            if k + length >= TWO63 then NextField(d, i, known) == Bad(InvalidLength)
            else if k + length > |d| then NextField(d, i, known) == Bad(UnexpectedEOF)
            else NextField(d, i, known) == Known(n, d[k..k + length], k + length)
  {
    hide ReadVarint, SkipUnknown;
  }

  /** Decoding from byte `i` into `m`; `merge` takes a known field's payload. */
  function DecodeFrom<M>(d: seq<byte>, i: nat, known: set<int>,
                         merge: (M, int, Slice) -> Decoded<M>, m: M): Decoded<M>
    requires Sliceable(d)
    decreases |d| - i
  {
    if i >= |d| then Decoded(m, None)
    else
      match NextField(d, i, known)
      case Bad(err) => Decoded(m, Some(err))
      case Unknown(next) => DecodeFrom(d, next, known, merge, m)
      case Known(num, payload, next) =>
        var r := merge(m, num, payload);
        if r.err.Some? then r else DecodeFrom(d, next, known, merge, r.msg)
  }

  // ----- concatenation

  /** Two outcomes with the same receiver that both succeed or both fail. */
  ghost predicate Alike<M>(a: Decoded<M>, b: Decoded<M>) {
    a.msg == b.msg && (a.err.None? <==> b.err.None?)
  }

  ghost predicate TurnAlike(a: Turn, b: Turn, shift: nat) {
    match a
    case Bad(_) => b.Bad?
    case Unknown(next) => b.Unknown? && b.next == next + shift
    case Known(num, payload, next) => b == Known(num, payload, next + shift)
  }

  /** Reading a varint does not depend on where the buffer it is in starts. */
  lemma VarintShift(a: seq<byte>, b: seq<byte>, i: nat)
    requires i <= |b|
    ensures match ReadVarint(b, i)
      case Varint(v, j) => ReadVarint(a + b, |a| + i) == Varint(v, |a| + j)
      case VarintError(err) => ReadVarint(a + b, |a| + i) == VarintError(err)
  {
    VarintShiftFrom(a, b, i, 0, 0);
  }

  lemma {:induction false} VarintShiftFrom(a: seq<byte>, b: seq<byte>, i: nat, shift: nat, acc: uint64)
    requires i <= |b| && acc < Pow2(shift)
    ensures match ReadFrom(b, i, shift, acc)
      case Varint(v, j) => ReadFrom(a + b, |a| + i, shift, acc) == Varint(v, |a| + j)
      case VarintError(err) => ReadFrom(a + b, |a| + i, shift, acc) == VarintError(err)
    decreases 70 - shift
  {
    if shift < 64 && i < |b| {
      assert (a + b)[|a| + i] == b[i];
      VarintShiftFrom(a, b, i + 1, shift + 7, OrShifted(acc, b[i], shift));
    }
  }

  lemma PayloadShift(a: seq<byte>, b: seq<byte>, num: int, j: nat)
    requires Sliceable(a + b) && j <= |b|
    ensures TurnAlike(KnownPayload(b, num, j), KnownPayload(a + b, num, |a| + j), |a|)
  {
    hide ReadVarint;
    VarintShift(a, b, j);
    match KnownPayload(b, num, j)
    case Known(_, payload, next) =>
      var k := ReadVarint(b, j).next;
      assert (a + b)[|a| + k..|a| + next] == b[k..next];
    case _ =>
  }

  lemma TurnShift(a: seq<byte>, b: seq<byte>, i: nat, known: set<int>)
    requires Sliceable(a + b) && i < |b|
    ensures TurnAlike(NextField(b, i, known), NextField(a + b, |a| + i, known), |a|)
  {
    hide ReadVarint, KnownPayload, Skip;
    VarintShift(a, b, i);
    assert (a + b)[|a| + i..] == b[i..];
    match ReadVarint(b, i)
    case Varint(wire, j) => PayloadShift(a, b, FieldNum(wire), j);
    case VarintError(_) =>
  }

  /** What stands before the position does not matter. */
  lemma {:induction false} DecodeShift<M>(a: seq<byte>, b: seq<byte>, i: nat, known: set<int>,
                                          merge: (M, int, Slice) -> Decoded<M>, m: M)
    requires Sliceable(a + b) && i <= |b|
    ensures Alike(DecodeFrom(b, i, known, merge, m), DecodeFrom(a + b, |a| + i, known, merge, m))
    decreases |b| - i
  {
    hide NextField;
    if i < |b| {
      TurnShift(a, b, i, known);
      match NextField(b, i, known)
      case Bad(_) =>
      case Unknown(next) => DecodeShift(a, b, next, known, merge, m);
      case Known(num, payload, next) =>
        if merge(m, num, payload).err.None? {
          DecodeShift(a, b, next, known, merge, merge(m, num, payload).msg);
        }
    }
  }

  lemma VarintPrefix(a: seq<byte>, b: seq<byte>, i: nat)
    requires i <= |a| && ReadVarint(a, i).Varint?
    ensures ReadVarint(a + b, i) == ReadVarint(a, i)
  {
    ReadVarintMeaning(a, i);
    var j := ReadVarint(a, i).next;
    assert (a + b)[i..j] == a[i..j];
    ReadVarintAt(a + b, i, j);
  }

  /** A turn that succeeds is not changed by bytes added behind the buffer. */
  lemma TurnPrefix(a: seq<byte>, b: seq<byte>, i: nat, known: set<int>)
    requires Sliceable(a + b) && i < |a| && !NextField(a, i, known).Bad?
    ensures NextField(a + b, i, known) == NextField(a, i, known)
  {
    hide ReadVarint, Skip, VarintBytes, Base128;
    VarintPrefix(a, b, i);
    var j := ReadVarint(a, i).next;
    match NextField(a, i, known)
    case Known(_, payload, next) =>
      VarintPrefix(a, b, j);
      var k := ReadVarint(a, j).next;
      assert (a + b)[k..next] == a[k..next];
    case Unknown(next) =>
      SkipPrefix(a, b, i, next - i);
  }

  lemma SkipPrefix(a: seq<byte>, b: seq<byte>, i: nat, n: nat)
    requires Sliceable(a + b) && i < |a| && i + n <= |a| && Skip(a[i..]) == Skipped(n)
    ensures Skip((a + b)[i..]) == Skipped(n)
  {
    hide Skip;
    SkipIsExact(a[i..], n);
    assert (a + b)[i..][..n] == a[i..][..n];
    SkipIsExact((a + b)[i..], n);
  }

  /** Decoding a concatenation is decoding one part after the other into the
      same receiver, whether or not the second part decodes. */
  lemma {:induction false} DecodeConcat<M>(a: seq<byte>, b: seq<byte>, i: nat, known: set<int>,
                                           merge: (M, int, Slice) -> Decoded<M>, m: M)
    requires Sliceable(a + b) && i <= |a| && DecodeFrom(a, i, known, merge, m).err.None?
    ensures Alike(DecodeFrom(a + b, i, known, merge, m),
                  DecodeFrom(b, 0, known, merge, DecodeFrom(a, i, known, merge, m).msg))
    decreases |a| - i
  {
    hide NextField;
    if i == |a| {
      DecodeShift(a, b, 0, known, merge, m);
    } else {
      TurnPrefix(a, b, i, known);
      match NextField(a, i, known)
      case Unknown(next) => DecodeConcat(a, b, next, known, merge, m);
      case Known(num, payload, next) =>
        DecodeConcat(a, b, next, known, merge, merge(m, num, payload).msg);
    }
  }

  // ----- fields by themselves

  /** A length-delimited field with a one-byte tag, as Marshal writes it. */
  function LenField(tag: byte, payload: Slice): seq<byte> {
    [tag] + (Shortest(|payload|) + payload)
  }

  lemma DecodeLenField<M>(num: int, payload: Slice, known: set<int>,
                          merge: (M, int, Slice) -> Decoded<M>, m: M)
    requires num in known && 0 < num < 16 && Sliceable(LenField(8 * num + 2, payload))
    ensures DecodeFrom(LenField(8 * num + 2, payload), 0, known, merge, m) == merge(m, num, payload)
  {
    var tag: byte := 8 * num + 2;
    var d := LenField(tag, payload);
    LenFieldTurn(num, payload, known);
    hide NextField;
    assert DecodeFrom(d, |d|, known, merge, merge(m, num, payload).msg).err == None;
  }

  lemma LenFieldTurn(num: int, payload: Slice, known: set<int>)
    requires num in known && 0 < num < 16 && Sliceable(LenField(8 * num + 2, payload))
    ensures var d := LenField(8 * num + 2, payload); NextField(d, 0, known) == Known(num, payload, |d|)
  {
    var tag: byte := 8 * num + 2;
    OneByteVarint(tag, Shortest(|payload|) + payload);
    assert FieldNum(tag) == num && tag % 8 == 2;
    LenFieldPayload(tag, num, payload);
    hide ReadVarint, KnownPayload, FieldNum, Shortest;
  }

  lemma OneByteVarint(b: byte, rest: seq<byte>)
    requires b < 128
    ensures ReadVarint([b] + rest, 0) == Varint(b, 1)
  {
    VarintCons(b, []);
    assert ([b] + rest)[0..1] == [b];
    ReadVarintAt([b] + rest, 0, 1);
  }

  lemma LenFieldPayload(tag: byte, num: int, payload: Slice)
    requires Sliceable(LenField(tag, payload))
    ensures var d := LenField(tag, payload); KnownPayload(d, num, 1) == Known(num, payload, |d|)
  {
    var len := Shortest(|payload|);
    ShortestRoundTrip(|payload|, payload);
    hide ReadVarint, Shortest, VarintBytes, Base128;
    VarintShift([tag], len + payload, 0);
    assert LenField(tag, payload)[1 + |len|..] == payload;
  }

  /** A well-formed field the message does not know decodes to nothing. */
  lemma DecodeUnknown<M>(f: Field, known: set<int>, merge: (M, int, Slice) -> Decoded<M>, m: M)
    requires Sliceable(Enc(f)) && WellFormed(f)
    requires var n := Base128(f.tag) % TWO64 / 8 % 0x1_0000_0000; 0 < n < 0x8000_0000 && n !in known
    ensures DecodeFrom(Enc(f), 0, known, merge, m) == Decoded(m, None)
  {
    var d := Enc(f);
    assert d[0..|f.tag|] == f.tag;
    assert VarintBytes(f.tag) && WireType(f.tag) != 4;
    ReadVarintAt(d, 0, |f.tag|);
    hide Base128, VarintBytes, Enc, WellFormed, ReadVarint, Skip;
    assert d[0..] == d && d[..|d|] == d;
    SkipIsExact(d, |d|);
  }

  /** Inserting such a field between two parts of a message changes nothing. */
  lemma UnknownIgnored<M>(a: seq<byte>, f: Field, b: seq<byte>, known: set<int>,
                          merge: (M, int, Slice) -> Decoded<M>, m: M)
    requires Sliceable(a + (Enc(f) + b)) && WellFormed(f)
    requires var n := Base128(f.tag) % TWO64 / 8 % 0x1_0000_0000; 0 < n < 0x8000_0000 && n !in known
    requires DecodeFrom(a, 0, known, merge, m).err.None?
    ensures Alike(DecodeFrom(a + (Enc(f) + b), 0, known, merge, m), DecodeFrom(a + b, 0, known, merge, m))
  {
    hide DecodeFrom, Enc, WellFormed, FieldNum;
    var m' := DecodeFrom(a, 0, known, merge, m).msg;
    DecodeConcat(a, Enc(f) + b, 0, known, merge, m);
    DecodeConcat(a, b, 0, known, merge, m);
    DecodeUnknown(f, known, merge, m');
    DecodeConcat(Enc(f), b, 0, known, merge, m');
  }
}
