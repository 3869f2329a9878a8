/** What decoding means: a buffer is accepted exactly if it is a sequence of
    well-formed fields, and the receiver is the fold of the known ones. */
module WireMeaning {
  import opened Options
  import opened WireVarint
  import opened WireSkip
  import opened WireDecode

  /** The number on a field's tag: its low 61 bits without the wire type, of
      which 32 are kept. */
  function Number(f: Field): nat {
    Base128(f.tag) % TWO64 / 8 % 0x1_0000_0000
  }

  lemma NumberOf(f: Field, n: nat, t: nat)
    requires t < 8 && n < 0x8000_0000 && Base128(f.tag) == 8 * n + t
    ensures Number(f) == n && FieldNum(Base128(f.tag) % TWO64) == n
  {
  }

  /** A field some message with the known numbers accepts at its top level. */
  ghost predicate Accepted(f: Field, known: set<int>) {
    WellFormed(f) && 0 < Number(f) < 0x8000_0000 && (Number(f) in known ==> f.body.Delimited?)
  }

  ghost predicate AllAccepted(fs: seq<Field>, known: set<int>) {
    forall f :: f in fs ==> Accepted(f, known)
  }

  lemma NumberIsFieldNum(f: Field, known: set<int>)
    requires Accepted(f, known)
    ensures FieldNum(Base128(f.tag) % TWO64) == Number(f) > 0
  {
    hide Base128, WellFormed;
  }

  /** Merging the known fields in order, up to the first that does not merge. */
  function MergeAll<M>(fs: seq<Field>, known: set<int>, merge: (M, int, Slice) -> Decoded<M>, m: M): Decoded<M> {
    if fs == [] then Decoded(m, None)
    else if Number(fs[0]) in known && fs[0].body.Delimited? then
      var r := merge(m, Number(fs[0]), fs[0].body.payload);
      if r.err.Some? then r else MergeAll(fs[1..], known, merge, r.msg)
    else MergeAll(fs[1..], known, merge, m)
  }

  /** The turn a known field gives, wherever it stands. */
  lemma KnownTurn(f: Field, rest: seq<byte>, known: set<int>)
    requires Sliceable(Enc(f) + rest) && Accepted(f, known) && Number(f) in known
    ensures Enc(f) != []
    ensures NextField(Enc(f) + rest, 0, known) == Known(Number(f), f.body.payload, |Enc(f)|)
  {
    var d := Enc(f) + rest;
    var Delimited(len, bs) := f.body;
    NumberIsFieldNum(f, known);
    hide Number, FieldNum;
    assert f.tag != [] && WireType(f.tag) == 2;
    assert At(d, 0, f.tag + (len + bs)) by { assert d[0..|Enc(f)|] == Enc(f); }
    AtParts(d, 0, f.tag, len + bs);
    AtParts(d, |f.tag|, len, bs);
    ReadVarintOf(d, 0, f.tag);
    ReadVarintOf(d, |f.tag|, len);
    assert |Enc(f)| == |f.tag| + |len| + |bs| && d[|f.tag| + |len|..|Enc(f)|] == bs;
    hide Base128, VarintBytes, ReadVarint, Enc, WellFormed, At;
    assert KnownPayload(d, Number(f), |f.tag|) == Known(Number(f), bs, |Enc(f)|);
  }

  lemma UnknownTurn(f: Field, rest: seq<byte>, known: set<int>)
    requires Sliceable(Enc(f) + rest) && Accepted(f, known) && Number(f) !in known
    ensures Enc(f) != []
    ensures NextField(Enc(f) + rest, 0, known) == Unknown(|Enc(f)|)
  {
    var d := Enc(f) + rest;
    NumberIsFieldNum(f, known);
    hide Number, FieldNum;
    assert f.tag != [] && WireType(f.tag) != 4;
    assert d[0..|f.tag|] == f.tag;
    ReadVarintAt(d, 0, |f.tag|);
    hide Base128, VarintBytes, Enc, WellFormed, ReadVarint, Skip;
    assert d[0..] == d && d[..|Enc(f)|] == Enc(f);
    SkipIsExact(d, |Enc(f)|);
  }

  /** Decoding a sequence of fields merges the known ones and skips the rest. */
  lemma {:induction false} DecodeFields<M>(fs: seq<Field>, known: set<int>,
                                           merge: (M, int, Slice) -> Decoded<M>, m: M)
    requires Sliceable(EncAll(fs)) && AllAccepted(fs, known)
    ensures Alike(DecodeFrom(EncAll(fs), 0, known, merge, m), MergeAll(fs, known, merge, m))
    decreases |fs|
  {
    hide NextField, Enc, Accepted, Number;
    if fs != [] {
      var f, rest := fs[0], EncAll(fs[1..]);
      var d := Enc(f) + rest;
      assert f in fs && AllAccepted(fs[1..], known);
      var next := m;
      if Number(f) in known {
        KnownTurn(f, rest, known);
        KnownIsDelimited(f, known);
        next := merge(m, Number(f), f.body.payload).msg;
      } else {
        UnknownTurn(f, rest, known);
      }
      DecodeFields(fs[1..], known, merge, next);
      DecodeShift(Enc(f), rest, 0, known, merge, next);
    }
  }

  lemma KnownIsDelimited(f: Field, known: set<int>)
    requires Accepted(f, known) && Number(f) in known
    ensures f.body.Delimited?
  {
  }

  /** A turn that succeeds has consumed one accepted field. */
  lemma FieldOfTurn(d: seq<byte>, i: nat, known: set<int>) returns (f: Field)
    requires Sliceable(d) && i < |d| && !NextField(d, i, known).Bad?
    ensures var t := NextField(d, i, known);
      && Accepted(f, known) && Enc(f) == d[i..t.next]
      && match t
         case Known(num, payload, _) =>
           Number(f) == num && num in known && f.body.Delimited? && f.body.payload == payload
         case Unknown(_) => Number(f) !in known
  {
    var t := NextField(d, i, known);
    ReadVarintMeaning(d, i);
    var j := ReadVarint(d, i).next;
    hide Base128, VarintBytes, ReadVarint, KnownPayload, SkipUnknown, Enc, WellFormed;
    match t
    case Known(num, payload, next) => f := KnownOfTurn(d, i, j, num, payload, next);
    case Unknown(next) => f := UnknownOfTurn(d, i, j, next);
  }

  lemma KnownOfTurn(d: seq<byte>, i: nat, j: nat, num: int, payload: Slice, next: nat) returns (f: Field)
    requires Sliceable(d) && i < j <= |d| && Tag(d[i..j], 2)
    requires KnownPayload(d, num, j) == Known(num, payload, next)
    ensures WellFormed(f) && Enc(f) == d[i..next] && Base128(f.tag) == Base128(d[i..j])
    ensures f.body.Delimited? && f.body.payload == payload
  {
    ReadVarintMeaning(d, j);
    var k := ReadVarint(d, j).next;
    hide Base128, VarintBytes, ReadVarint, WellFormed, Enc, Tag;
    DelimitedField(d, i, j, k, next);
    f := Field(d[i..j], Delimited(d[j..k], d[k..next]));
  }

  lemma UnknownOfTurn(d: seq<byte>, i: nat, j: nat, next: nat) returns (f: Field)
    requires Sliceable(d) && i < j <= |d| && next <= |d| && VarintBytes(d[i..j])
    requires SkipUnknown(d, i) == Unknown(next)
    ensures WellFormed(f) && Enc(f) == d[i..next] && Base128(f.tag) == Base128(d[i..j])
  {
    SkipIsExact(d[i..], next - i);
    f :| WellFormed(f) && Enc(f) == d[i..][..next - i];
    var t := f.tag;
    assert VarintBytes(t) && t <= Enc(f);
    SameTag(d[i..], t, d[i..j]);
    assert d[i..][..next - i] == d[i..next];
  }

  /** A buffer starts with at most one varint. */
  lemma SameTag(d: seq<byte>, a: seq<byte>, b: seq<byte>)
    requires a <= d && b <= d && VarintBytes(a) && VarintBytes(b)
    ensures a == b
  {
    assert d[0..|a|] == a && d[0..|b|] == b;
    ReadVarintAt(d, 0, |a|);
    ReadVarintAt(d, 0, |b|);
  }

  lemma {:induction false} FieldsOf<M>(d: seq<byte>, i: nat, known: set<int>,
                                       merge: (M, int, Slice) -> Decoded<M>, m: M) returns (fs: seq<Field>)
    requires Sliceable(d) && i <= |d| && DecodeFrom(d, i, known, merge, m).err.None?
    ensures EncAll(fs) == d[i..] && AllAccepted(fs, known)
    ensures MergeAll(fs, known, merge, m) == DecodeFrom(d, i, known, merge, m)
    decreases |d| - i
  {
    hide NextField, Enc, Accepted, Number;
    if i == |d| {
      fs := [];
    } else {
      var t := NextField(d, i, known);
      var f := FieldOfTurn(d, i, known);
      var m' := if t.Known? then merge(m, t.num, t.payload).msg else m;
      var rest := FieldsOf(d, t.next, known, merge, m');
      fs := [f] + rest;
      assert fs[1..] == rest;
      assert d[i..] == d[i..t.next] + d[t.next..];
    }
  }

  /** A buffer decodes exactly if it is a sequence of accepted fields whose known
      payloads all merge, and the receiver ends as that merge. */
  lemma DecodeMeaning<M(!new)>(d: seq<byte>, known: set<int>,
                               merge: (M, int, Slice) -> Decoded<M>, m: M, r: M)
    requires Sliceable(d)
    ensures DecodeFrom(d, 0, known, merge, m) == Decoded(r, None)
      <==> exists fs :: EncAll(fs) == d && AllAccepted(fs, known) && MergeAll(fs, known, merge, m) == Decoded(r, None)
  {
    hide DecodeFrom, MergeAll, EncAll;
    if DecodeFrom(d, 0, known, merge, m) == Decoded(r, None) {
      var fs := FieldsOf(d, 0, known, merge, m);
      assert d[0..] == d;
    }
    if fs :| EncAll(fs) == d && AllAccepted(fs, known) && MergeAll(fs, known, merge, m) == Decoded(r, None) {
      DecodeFields(fs, known, merge, m);
    }
  }
}
