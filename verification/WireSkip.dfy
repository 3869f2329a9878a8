/** The skipper for fields the decoder does not know, and the grammar of the
    fields it accepts. */
module WireSkip {
  import opened Options
  import opened WireVarint

  datatype SkipResult = Skipped(n: nat) | SkipError(err: WireError)

  /** Position and group depth after the payload that follows a tag. */
  datatype Payload = Payload(next: int, depth: nat) | PayloadError(err: WireError)

  /** Whether `d` is short enough to be a Go slice. */
  predicate Sliceable(d: seq<byte>) {
    |d| < TWO63
  }

  function SkipPayload(d: seq<byte>, j: nat, wireType: nat, depth: nat): (r: Payload)
    requires Sliceable(d) && j <= |d|
    ensures r.Payload? ==> r.next < 0 || r.next >= j
  {
    match wireType
    case 0 =>
      (match ReadVarint(d, j)
       case Varint(_, next) => Payload(next, depth)
       case VarintError(err) => PayloadError(err))
    case 1 => Payload(Add(j, 8), depth)
    case 2 =>
      (match ReadVarint(d, j)
       case Varint(v, next) =>
         if ToInt(v) < 0 then PayloadError(InvalidLength) else Payload(Add(next, ToInt(v)), depth)
       case VarintError(err) => PayloadError(err))
    case 3 => Payload(j, depth + 1)
    case 4 => if depth == 0 then PayloadError(UnexpectedEndOfGroup) else Payload(j, depth - 1)
    case 5 => Payload(Add(j, 4), depth)
    case _ => PayloadError(IllegalWireType)
  }

  /** Skipping from byte `i` inside `depth` open groups. */
  function SkipFrom(d: seq<byte>, i: nat, depth: nat): (r: SkipResult)
    requires Sliceable(d)
    ensures r.Skipped? ==> r.n > i
    decreases |d| - i
  {
    if i >= |d| then SkipError(UnexpectedEOF)
    else
      match ReadVarint(d, i)
      case VarintError(err) => SkipError(err)
      case Varint(wire, j) =>
        match SkipPayload(d, j, wire % 8, depth)
        case PayloadError(err) => SkipError(err)
        case Payload(next, depth') =>
          if next < 0 then SkipError(InvalidLength)
          else if depth' == 0 then Skipped(next)
          else SkipFrom(d, next, depth')
  }

  /** Skipping one field at the start of `d`. */
  function Skip(d: seq<byte>): (r: SkipResult)
    requires Sliceable(d)
    ensures r.Skipped? ==> r.n > 0
  {
    SkipFrom(d, 0, 0)
  }

  lemma {:induction false} SkipFits(d: seq<byte>, i: nat, depth: nat)
    requires Sliceable(d)
    ensures SkipFrom(d, i, depth).Skipped? ==> SkipFrom(d, i, depth).n < TWO63
    decreases |d| - i
  {
    hide ReadVarint;
    if i < |d| && ReadVarint(d, i).Varint? {
      var p := SkipPayload(d, ReadVarint(d, i).next, ReadVarint(d, i).value % 8, depth);
      if p.Payload? && p.next >= 0 {
        SkipFits(d, p.next, p.depth);
      }
    }
  }

  method SkipTx(dAtA: seq<byte>) returns (r: SkipResult)
    requires Sliceable(dAtA)
    ensures r == Skip(dAtA)
  {
    hide ReadVarint, Add, ToInt;
    var l := |dAtA|;
    var i, depth := 0, 0;
    while i < l
      invariant 0 <= i && 0 <= depth
      invariant SkipFrom(dAtA, i, depth) == Skip(dAtA)
      decreases l - i
    {
      ghost var i0 := i;
      var tag := DecodeVarint(dAtA, i);
      if tag.VarintError? {
        return SkipError(tag.err);
      }
      i := tag.next;
      match tag.value % 8 {
        case 0 =>
          var v := DecodeVarint(dAtA, i);
          if v.VarintError? {
            return SkipError(v.err);
          }
          i := v.next;
        case 1 => i := Add(i, 8);
        case 2 =>
          var v := DecodeVarint(dAtA, i);
          if v.VarintError? {
            return SkipError(v.err);
          }
          if ToInt(v.value) < 0 {
            return SkipError(InvalidLength);
          }
          i := Add(v.next, ToInt(v.value));
        case 3 => depth := depth + 1;
        case 4 =>
          if depth == 0 {
            return SkipError(UnexpectedEndOfGroup);
          }
          depth := depth - 1;
        case 5 => i := Add(i, 4);
        case _ => return SkipError(IllegalWireType);
      }
      if i < 0 {
        return SkipError(InvalidLength);
      }
      if depth == 0 {
        return Skipped(i);
      }
      assert i > i0;
    }
    return SkipError(UnexpectedEOF);
  }

  // ----- the grammar

  /** A field with its tag as it stands on the wire. */
  datatype Field = Field(tag: seq<byte>, body: Body)

  datatype Body =
    | VarintBody(bytes: seq<byte>)
    | Fixed64(bytes: seq<byte>)
    | Delimited(length: seq<byte>, payload: Slice)
    | Group(fields: seq<Field>, end: seq<byte>)
    | Fixed32(bytes: seq<byte>)

  function WireType(tag: seq<byte>): nat {
    Base128(tag) % TWO64 % 8
  }

  ghost predicate Tag(bs: seq<byte>, wireType: nat) {
    VarintBytes(bs) && WireType(bs) == wireType
  }

  ghost predicate WellFormed(f: Field) {
    match f.body
    case VarintBody(bs) => Tag(f.tag, 0) && VarintBytes(bs)
    case Fixed64(bs) => Tag(f.tag, 1) && |bs| == 8
    case Delimited(len, bs) => Tag(f.tag, 2) && VarintBytes(len) && Base128(len) % TWO64 == |bs|
    case Group(fs, end) => Tag(f.tag, 3) && Tag(end, 4) && AllWellFormed(fs)
    case Fixed32(bs) => Tag(f.tag, 5) && |bs| == 4
  }

  ghost predicate AllWellFormed(fs: seq<Field>) {
    forall f :: f in fs ==> WellFormed(f)
  }

  function Enc(f: Field): seq<byte> {
    f.tag +
    match f.body
    case VarintBody(bs) => bs
    case Fixed64(bs) => bs
    case Delimited(len, bs) => len + bs
    case Group(fs, end) => EncAll(fs) + end
    case Fixed32(bs) => bs
  }

  function EncAll(fs: seq<Field>): seq<byte> {
    if fs == [] then [] else Enc(fs[0]) + EncAll(fs[1..])
  }

  /** `part` stands in `d` at position `i`. */
  ghost predicate At(d: seq<byte>, i: nat, part: seq<byte>) {
    i + |part| <= |d| && d[i..i + |part|] == part
  }

  lemma AtParts(d: seq<byte>, i: nat, a: seq<byte>, b: seq<byte>)
    ensures At(d, i, a + b) <==> At(d, i, a) && At(d, i + |a|, b)
  {
    if At(d, i, a) && At(d, i + |a|, b) {
      assert d[i..i + |a + b|] == d[i..i + |a|] + d[i + |a|..i + |a| + |b|];
    }
    if At(d, i, a + b) {
      assert d[i..i + |a|] == (a + b)[..|a|];
      assert d[i + |a|..i + |a| + |b|] == (a + b)[|a|..];
    }
  }

  lemma ReadVarintOf(d: seq<byte>, i: nat, bs: seq<byte>)
    requires At(d, i, bs) && VarintBytes(bs)
    ensures ReadVarint(d, i) == Varint(Base128(bs) % TWO64, i + |bs|)
  {
    var j := i + |bs|;
    assert bs != [] && d[i..j] == bs && j <= |d|;
    hide ReadVarint, Base128, VarintBytes, At;
    ReadVarintAt(d, i, j);
  }

  /** Where skipping stands after a whole field. */
  ghost function After(d: seq<byte>, i: nat, depth: nat): SkipResult
    requires Sliceable(d)
  {
    if depth == 0 then Skipped(i) else SkipFrom(d, i, depth)
  }

  /** One turn of the skip loop. */
  lemma SkipStep(d: seq<byte>, i: nat, depth: nat, tag: seq<byte>, next: int, depth': nat)
    requires Sliceable(d) && At(d, i, tag) && VarintBytes(tag)
    requires SkipPayload(d, i + |tag|, WireType(tag), depth) == Payload(next, depth') && next >= 0
    ensures SkipFrom(d, i, depth) == After(d, next, depth')
  {
    hide SkipPayload, ReadVarint, VarintBytes, Base128, At;
    ReadVarintOf(d, i, tag);
  }

  lemma DelimitedPayload(d: seq<byte>, j: nat, depth: nat, len: seq<byte>, bs: seq<byte>)
    requires Sliceable(d) && At(d, j, len) && At(d, j + |len|, bs)
    requires VarintBytes(len) && Base128(len) % TWO64 == |bs|
    ensures SkipPayload(d, j, 2, depth) == Payload(j + |len| + |bs|, depth)
  {
    hide VarintBytes, Base128, ReadVarint;
    ReadVarintOf(d, j, len);
  }

  lemma SkipDelimited(d: seq<byte>, i: nat, depth: nat, tag: seq<byte>, len: seq<byte>, bs: seq<byte>)
    requires Sliceable(d) && At(d, i, tag + (len + bs))
    requires Tag(tag, 2) && VarintBytes(len) && Base128(len) % TWO64 == |bs|
    ensures SkipFrom(d, i, depth) == After(d, i + |tag| + |len| + |bs|, depth)
  {
    hide SkipFrom, VarintBytes, Base128, After, SkipPayload, WireType, At;
    var j := i + |tag|;
    AtParts(d, i, tag, len + bs);
    AtParts(d, j, len, bs);
    DelimitedPayload(d, j, depth, len, bs);
    SkipStep(d, i, depth, tag, j + |len| + |bs|, depth);
  }

  lemma SkipLeaf(d: seq<byte>, i: nat, depth: nat, f: Field)
    requires Sliceable(d) && WellFormed(f) && !f.body.Group? && At(d, i, Enc(f))
    ensures SkipFrom(d, i, depth) == After(d, i + |Enc(f)|, depth)
  {
    var j := i + |f.tag|;
    hide SkipFrom, VarintBytes, Base128, After, ReadVarint;
    match f.body
    case VarintBody(bs) =>
      AtParts(d, i, f.tag, bs);
      ReadVarintOf(d, j, bs);
      SkipStep(d, i, depth, f.tag, j + |bs|, depth);
    case Fixed64(bs) =>
      AtParts(d, i, f.tag, bs);
      SkipStep(d, i, depth, f.tag, j + 8, depth);
    case Delimited(len, bs) =>
      SkipDelimited(d, i, depth, f.tag, len, bs);
    case Fixed32(bs) =>
      AtParts(d, i, f.tag, bs);
      SkipStep(d, i, depth, f.tag, j + 4, depth);
  }

  /** A well-formed field, nested groups included, is skipped as a unit. */
  lemma {:induction false} SkipField(d: seq<byte>, i: nat, depth: nat, f: Field)
    requires Sliceable(d) && WellFormed(f) && At(d, i, Enc(f))
    ensures SkipFrom(d, i, depth) == After(d, i + |Enc(f)|, depth)
    decreases f
  {
    hide SkipFrom, VarintBytes, Base128;
    match f.body
    case Group(fs, end) =>
      var j := i + |f.tag|;
      AtParts(d, i, f.tag, EncAll(fs) + end);
      AtParts(d, j, EncAll(fs), end);
      SkipStep(d, i, depth, f.tag, j, depth + 1);
      SkipFields(d, j, depth + 1, fs);
      SkipStep(d, j + |EncAll(fs)|, depth + 1, end, j + |EncAll(fs)| + |end|, depth);
    case _ =>
      SkipLeaf(d, i, depth, f);
  }

  lemma {:induction false} SkipFields(d: seq<byte>, i: nat, depth: nat, fs: seq<Field>)
    requires Sliceable(d) && AllWellFormed(fs) && At(d, i, EncAll(fs)) && depth > 0
    ensures SkipFrom(d, i, depth) == SkipFrom(d, i + |EncAll(fs)|, depth)
    decreases fs
  {
    hide SkipFrom, WellFormed, Enc;
    if fs != [] {
      AtParts(d, i, Enc(fs[0]), EncAll(fs[1..]));
      assert AllWellFormed(fs[1..]);
      SkipField(d, i, depth, fs[0]);
      SkipFields(d, i + |Enc(fs[0])|, depth, fs[1..]);
    }
  }

  // ----- only well-formed fields are skipped

  lemma DelimitedField(d: seq<byte>, i: nat, j: nat, k: nat, next: nat)
    requires Sliceable(d) && i < j <= k <= next <= |d| && Tag(d[i..j], 2)
    requires VarintBytes(d[j..k]) && Base128(d[j..k]) % TWO64 == next - k
    ensures var f := Field(d[i..j], Delimited(d[j..k], d[k..next]));
      WellFormed(f) && Enc(f) == d[i..next]
  {
    hide Base128, VarintBytes, WireType;
    assert d[i..next] == d[i..j] + (d[j..k] + d[k..next]);
  }

  lemma DelimitedAt(d: seq<byte>, i: nat, j: nat, depth: nat, next: int) returns (f: Field)
    requires Sliceable(d) && i < j <= |d| && Tag(d[i..j], 2)
    requires SkipPayload(d, j, 2, depth) == Payload(next, depth) && 0 <= next <= |d|
    ensures WellFormed(f) && Enc(f) == d[i..next]
  {
    ReadVarintMeaning(d, j);
    var k := ReadVarint(d, j).next;
    hide Base128, ReadVarint, VarintBytes, WellFormed, Enc, Tag;
    DelimitedField(d, i, j, k, next);
    f := Field(d[i..j], Delimited(d[j..k], d[k..next]));
  }

  lemma VarintFieldAt(d: seq<byte>, i: nat, j: nat, depth: nat, next: int) returns (f: Field)
    requires Sliceable(d) && i < j <= |d| && Tag(d[i..j], 0)
    requires SkipPayload(d, j, 0, depth) == Payload(next, depth) && 0 <= next <= |d|
    ensures WellFormed(f) && Enc(f) == d[i..next]
  {
    hide Base128, ReadVarint, VarintBytes, Tag;
    ReadVarintMeaning(d, j);
    f := Field(d[i..j], VarintBody(d[j..next]));
    assert d[i..next] == d[i..j] + d[j..next];
  }

  lemma FixedFieldAt(d: seq<byte>, i: nat, j: nat, depth: nat, wireType: nat, next: int) returns (f: Field)
    requires Sliceable(d) && i < j <= |d| && wireType in {1, 5} && Tag(d[i..j], wireType)
    requires SkipPayload(d, j, wireType, depth) == Payload(next, depth) && 0 <= next <= |d|
    ensures WellFormed(f) && Enc(f) == d[i..next]
  {
    hide Base128, ReadVarint, VarintBytes, Tag;
    f := Field(d[i..j], if wireType == 1 then Fixed64(d[j..next]) else Fixed32(d[j..next]));
    assert d[i..next] == d[i..j] + d[j..next];
  }

  /** A tag and the payload behind it, when that payload opens or closes no group. */
  lemma LeafAt(d: seq<byte>, i: nat, j: nat, depth: nat, next: int) returns (f: Field)
    requires Sliceable(d) && i < j <= |d| && VarintBytes(d[i..j])
    requires WireType(d[i..j]) in {0, 1, 2, 5}
    requires SkipPayload(d, j, WireType(d[i..j]), depth) == Payload(next, depth) && 0 <= next <= |d|
    ensures WellFormed(f) && Enc(f) == d[i..next]
  {
    hide Base128, VarintBytes, WireType, WellFormed, Enc, SkipPayload;
    match WireType(d[i..j])
    case 0 => f := VarintFieldAt(d, i, j, depth, next);
    case 2 => f := DelimitedAt(d, i, j, depth, next);
    case wireType => f := FixedFieldAt(d, i, j, depth, wireType, next);
  }

  /** A skip that succeeds has read a tag. */
  lemma TagAt(d: seq<byte>, i: nat, depth: nat) returns (k: nat)
    requires Sliceable(d) && SkipFrom(d, i, depth).Skipped?
    ensures i < k <= |d| && VarintBytes(d[i..k])
    ensures ReadVarint(d, i) == Varint(Base128(d[i..k]) % TWO64, k)
  {
    ReadVarintMeaning(d, i);
    k := ReadVarint(d, i).next;
  }

  /** Inside a group, skipping reads fields up to the tag that closes it. */
  lemma {:induction false} GroupAt(d: seq<byte>, i: nat, depth: nat)
      returns (fs: seq<Field>, end: seq<byte>, j: nat)
    requires Sliceable(d) && depth > 0
    requires SkipFrom(d, i, depth).Skipped? && SkipFrom(d, i, depth).n <= |d|
    ensures AllWellFormed(fs) && Tag(end, 4) && i < j <= |d| && d[i..j] == EncAll(fs) + end
    ensures After(d, j, depth - 1) == SkipFrom(d, i, depth)
    decreases |d| - i, 1
  {
    var k := TagAt(d, i, depth);
    hide Base128, WellFormed, Enc, ReadVarint, SkipFrom, SkipPayload, VarintBytes;
    var tag := d[i..k];
    var next, depth' := NextAt(d, i, k, depth);
    if WireType(tag) == 4 {
      fs, end, j := [], tag, k;
      assert EncAll([]) + tag == tag;
    } else {
      var first, m := FirstOf(d, i, k, depth, next, depth');
      fs, end, j := GroupAt(d, m, depth);
      ConsFields(d, i, m, j, first, fs, end);
      fs := [first] + fs;
    }
  }

  /** The field that starts at `i` inside a group, and where it ends. */
  lemma {:induction false} FirstOf(d: seq<byte>, i: nat, k: nat, depth: nat, next: nat, depth': nat)
      returns (f: Field, m: nat)
    requires Sliceable(d) && depth > 0 && i < k <= next <= |d| && VarintBytes(d[i..k])
    requires SkipPayload(d, k, WireType(d[i..k]), depth) == Payload(next, depth')
    requires SkipFrom(d, i, depth).Skipped? && SkipFrom(d, i, depth).n <= |d|
    requires After(d, next, depth') == SkipFrom(d, i, depth)
    requires WireType(d[i..k]) in {0, 1, 2, 3, 5}
    requires if WireType(d[i..k]) == 3 then depth' == depth + 1 && next == k else depth' == depth
    ensures i < m <= |d| && WellFormed(f) && Enc(f) == d[i..m] && SkipFrom(d, m, depth) == SkipFrom(d, i, depth)
    decreases |d| - i, 0
  {
    hide Base128, WellFormed, Enc, ReadVarint, SkipFrom, SkipPayload, VarintBytes;
    if WireType(d[i..k]) == 3 {
      var fs, end, n := GroupAt(d, k, depth + 1);
      f, m := Field(d[i..k], Group(fs, end)), n;
      GroupEnc(d, i, k, m, f);
    } else {
      f := LeafAt(d, i, k, depth, next);
      m := next;
    }
  }

  lemma ConsFields(d: seq<byte>, i: nat, m: nat, j: nat, f: Field, fs: seq<Field>, end: seq<byte>)
    requires i <= m <= j <= |d| && Enc(f) == d[i..m] && d[m..j] == EncAll(fs) + end
    requires WellFormed(f) && AllWellFormed(fs)
    ensures AllWellFormed([f] + fs) && EncAll([f] + fs) + end == d[i..j]
  {
    hide Enc, WellFormed;
    assert ([f] + fs)[1..] == fs;
    assert d[i..j] == d[i..m] + d[m..j];
  }

  lemma GroupEnc(d: seq<byte>, i: nat, k: nat, m: nat, f: Field)
    requires i < k < m <= |d| && f.tag == d[i..k] && f.body.Group?
    requires Tag(f.tag, 3) && Tag(f.body.end, 4) && AllWellFormed(f.body.fields)
    requires d[k..m] == EncAll(f.body.fields) + f.body.end
    ensures WellFormed(f) && Enc(f) == d[i..m]
  {
    assert d[i..m] == d[i..k] + d[k..m];
  }

  /** The position and depth a successful skip goes on from. */
  lemma NextAt(d: seq<byte>, i: nat, k: nat, depth: nat) returns (next: int, depth': nat)
    requires Sliceable(d) && i < |d|
    requires SkipFrom(d, i, depth).Skipped? && SkipFrom(d, i, depth).n <= |d|
    requires i < k <= |d| && ReadVarint(d, i) == Varint(Base128(d[i..k]) % TWO64, k)
    ensures SkipPayload(d, k, WireType(d[i..k]), depth) == Payload(next, depth')
    ensures k <= next <= |d| && After(d, next, depth') == SkipFrom(d, i, depth)
    ensures WireType(d[i..k]) in {0, 1, 2, 5} ==> depth' == depth
    ensures WireType(d[i..k]) == 3 ==> depth' == depth + 1 && next == k
    ensures WireType(d[i..k]) == 4 ==> depth > 0 && depth' == depth - 1 && next == k
    ensures WireType(d[i..k]) < 6
  {
    var p := SkipPayload(d, k, WireType(d[i..k]), depth);
    next, depth' := p.next, p.depth;
  }

  /** skipTx succeeds within the buffer exactly on a buffer that starts with a
      well-formed field, and returns that field's length. */
  lemma SkipIsExact(d: seq<byte>, n: nat)
    requires Sliceable(d) && n <= |d|
    ensures Skip(d) == Skipped(n) <==> exists f :: WellFormed(f) && Enc(f) == d[..n]
  {
    hide Enc, WellFormed, SkipFrom;
    if f :| WellFormed(f) && Enc(f) == d[..n] {
      assert d[0..n] == d[..n];
      SkipField(d, 0, 0, f);
    }
    if Skip(d) == Skipped(n) {
      var f := FieldAt(d, n);
    }
  }

  lemma LowBits(tag: seq<byte>)
    ensures WireType(tag) == Base128(tag) % 8
  {
    hide Base128;
    ModEight(Base128(tag) % TWO64, 0x2000_0000_0000_0000 * (Base128(tag) / TWO64));
  }

  lemma ModEight(r: nat, k: nat)
    ensures (r + 8 * k) % 8 == r % 8
  {
  }

  lemma SkipRefuses(d: seq<byte>, tag: seq<byte>)
    requires Sliceable(d) && tag != [] && tag <= d
    requires ReadVarint(d, 0) == Varint(Base128(tag) % TWO64, |tag|)
    ensures WireType(tag) == 4 ==> Skip(d) == SkipError(UnexpectedEndOfGroup)
    ensures WireType(tag) >= 6 ==> Skip(d) == SkipError(IllegalWireType)
  {
    hide ReadVarint, Base128;
  }

  lemma SkipAs(f: Field, rest: seq<byte>)
    requires WellFormed(f) && Sliceable(Enc(f) + rest)
    ensures Skip(Enc(f) + rest) == Skipped(|Enc(f)|)
  {
    hide WellFormed, Enc, SkipFrom;
    assert (Enc(f) + rest)[0..|Enc(f)|] == Enc(f);
    SkipField(Enc(f) + rest, 0, 0, f);
  }

  /** What is skipped behind a tag of wire type 0, 1 or 5: a varint, eight bytes
      or four. */
  lemma SkipScalar(tag: seq<byte>, body: seq<byte>, rest: seq<byte>)
    requires VarintBytes(tag) && Sliceable(tag + body + rest)
    requires
      || (Base128(tag) % 8 == 0 && VarintBytes(body))
      || (Base128(tag) % 8 == 1 && |body| == 8)
      || (Base128(tag) % 8 == 5 && |body| == 4)
    ensures Skip(tag + body + rest) == Skipped(|tag| + |body|)
  {
    hide Base128, VarintBytes, Skip;
    LowBits(tag);
    var t := WireType(tag);
    hide WireType;
    var f := Field(tag, if t == 0 then VarintBody(body) else if t == 1 then Fixed64(body) else Fixed32(body));
    SkipAs(f, rest);
  }

  /** Behind a tag of wire type 2: a length and as many bytes. */
  lemma SkipBytes(tag: seq<byte>, length: seq<byte>, payload: Slice, rest: seq<byte>)
    requires VarintBytes(tag) && VarintBytes(length) && Sliceable(tag + (length + payload) + rest)
    requires Base128(tag) % 8 == 2 && Base128(length) % TWO64 == |payload|
    ensures Skip(tag + (length + payload) + rest) == Skipped(|tag| + |length| + |payload|)
  {
    hide Base128, VarintBytes, Skip;
    LowBits(tag);
    hide WireType;
    SkipAs(Field(tag, Delimited(length, payload)), rest);
  }

  /** From a tag of wire type 3 up to one of wire type 4. */
  lemma SkipGroup(tag: seq<byte>, fields: seq<Field>, end: seq<byte>, rest: seq<byte>)
    requires VarintBytes(tag) && VarintBytes(end) && Base128(tag) % 8 == 3 && Base128(end) % 8 == 4
    requires AllWellFormed(fields) && Sliceable(tag + (EncAll(fields) + end) + rest)
    ensures Skip(tag + (EncAll(fields) + end) + rest) == Skipped(|tag| + |EncAll(fields)| + |end|)
  {
    hide Base128, VarintBytes, Skip;
    LowBits(tag);
    LowBits(end);
    hide WireType, AllWellFormed;
    SkipAs(Field(tag, Group(fields, end)), rest);
  }

  /** A group end outside a group and the wire types 6 and 7 are refused. */
  lemma SkipRefused(tag: seq<byte>, rest: seq<byte>)
    requires VarintBytes(tag) && Sliceable(tag + rest)
    ensures Base128(tag) % 8 == 4 ==> Skip(tag + rest) == SkipError(UnexpectedEndOfGroup)
    ensures Base128(tag) % 8 >= 6 ==> Skip(tag + rest) == SkipError(IllegalWireType)
  {
    LowBits(tag);
    assert (tag + rest)[0..|tag|] == tag && tag != [];
    ReadVarintOf(tag + rest, 0, tag);
    hide Base128, VarintBytes, ReadVarint;
    SkipRefuses(tag + rest, tag);
  }

  lemma FieldAt(d: seq<byte>, n: nat) returns (f: Field)
    requires Sliceable(d) && Skip(d) == Skipped(n) && n <= |d|
    ensures WellFormed(f) && Enc(f) == d[..n]
  {
    var k := TagAt(d, 0, 0);
    hide Base128, Enc, ReadVarint, SkipFrom, SkipPayload, VarintBytes;
    var next, depth' := NextAt(d, 0, k, 0);
    if WireType(d[0..k]) == 3 {
      var fs, end, m := GroupAt(d, k, 1);
      f := Field(d[0..k], Group(fs, end));
      GroupEnc(d, 0, k, m, f);
    } else {
      f := LeafAt(d, 0, k, 0, next);
    }
  }
}
