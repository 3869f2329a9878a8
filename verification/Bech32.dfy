/** Bech32 strings (BIP-173, section "Bech32") as the genesis scripts and the
    faucet read and write them; no limit is put on their length. */
module Bech32 {
  import opened Options
  import opened Bech32Checksum

  /** A 5-bit symbol. */
  type Sym = x: int | 0 <= x < 32

  const CHARSET: string := "qpzry9x8gf2tvdw0s3jn54khce6mua7l"

  datatype DecodeError = InvalidCharacter | MixedCase | BadSeparator | InvalidDataCharacter | BadChecksum
  datatype Result<+T> = Ok(value: T) | Err(error: DecodeError)

  /** A prefix with the payload symbols behind it. */
  datatype Address = Address(hrp: string, data: seq<Sym>)

  // ----- strings

  /** str.lower and str.upper on ASCII. */
  function LowerChar(c: char): char {
    if 'A' <= c <= 'Z' then (c as int + 32) as char else c
  }

  lemma LowerCharIs(c: char)
    ensures 'A' <= c <= 'Z' ==> LowerChar(c) as int == c as int + 32 && 'a' <= LowerChar(c) <= 'z'
    ensures !('A' <= c <= 'Z') ==> LowerChar(c) == c
  {
  }

  function UpperChar(c: char): char {
    if 'a' <= c <= 'z' then (c as int - 32) as char else c
  }

  function Lower(s: string): (r: string)
    ensures |r| == |s| && forall i :: 0 <= i < |s| ==> r[i] == LowerChar(s[i])
  {
    seq(|s|, i requires 0 <= i < |s| => LowerChar(s[i]))
  }

  function Upper(s: string): (r: string)
    ensures |r| == |s| && forall i :: 0 <= i < |s| ==> r[i] == UpperChar(s[i])
  {
    seq(|s|, i requires 0 <= i < |s| => UpperChar(s[i]))
  }

  predicate Printable(s: string) {
    forall i :: 0 <= i < |s| ==> 33 <= s[i] as int <= 126
  }

  predicate MixedCased(s: string) {
    Lower(s) != s && Upper(s) != s
  }

  /** Position of the last occurrence, or -1 (str.rfind). */
  function RFind(s: string, c: char): (r: int)
    ensures -1 <= r < |s|
    ensures r >= 0 ==> s[r] == c
    ensures forall i :: r < i < |s| ==> s[i] != c
  {
    if s == [] then -1
    else if s[|s| - 1] == c then |s| - 1
    else RFind(s[..|s| - 1], c)
  }

  /** Position of the first occurrence, or -1. */
  function Index(s: string, c: char): (r: int)
    ensures -1 <= r < |s|
    ensures r >= 0 ==> s[r] == c
    ensures forall i :: 0 <= i < (if r < 0 then |s| else r) ==> s[i] != c
  {
    if s == [] then -1
    else if s[0] == c then 0
    else
      var r := Index(s[1..], c);
      assert r >= 0 ==> s[r + 1] == s[1..][r];
      assert forall i :: 1 <= i < |s| ==> s[i] == s[1..][i - 1];
      if r < 0 then -1 else r + 1
  }

  // ----- words

  function ToBv(x: Sym): bv30 {
    x as bv30
  }

  function Bvs(data: seq<Sym>): (r: seq<bv30>)
    ensures |r| == |data| && forall i :: 0 <= i < |data| ==> r[i] == ToBv(data[i])
  {
    seq(|data|, i requires 0 <= i < |data| => ToBv(data[i]))
  }

  function HrpExpand(hrp: string): seq<bv30> {
    seq(|hrp|, i requires 0 <= i < |hrp| => (hrp[i] as int / 32) as bv30)
    + [0]
    + seq(|hrp|, i requires 0 <= i < |hrp| => (hrp[i] as int % 32) as bv30)
  }

  function DigitSym(w: bv30, i: nat): Sym
    requires i < 6
  {
    DigitBound(w, i);
    Digit(w, i) as int
  }

  lemma DigitBound(w: bv30, i: nat)
    requires i < 6
    ensures 0 <= Digit(w, i) as int < 32 && (Digit(w, i) as int) as bv30 == Digit(w, i)
  {
    PackDigits(w);
    SmallBv(Digit(w, i));
  }

  lemma SmallBv(v: bv30)
    requires v < 32
    ensures 0 <= v as int < 32 && (v as int) as bv30 == v
  {
  }

  lemma SymBv(x: Sym)
    ensures ToBv(x) as int == x && IsSymbol(ToBv(x))
  {
  }

  function CreateChecksum(hrp: string, data: seq<Sym>): (r: seq<Sym>)
    ensures |r| == 6
  {
    var polymod := Plus(Polymod(HrpExpand(hrp) + Bvs(data) + ZEROS), 1);
    seq(6, i requires 0 <= i < 6 => DigitSym(polymod, i))
  }

  function Chars(data: seq<Sym>): (r: string)
    ensures |r| == |data|
  {
    seq(|data|, i requires 0 <= i < |data| => CHARSET[data[i]])
  }

  function Encode(a: Address): string {
    a.hrp + "1" + Chars(a.data + CreateChecksum(a.hrp, a.data))
  }

  /** The symbols of a data part, or the error its first foreign character is. */
  function Symbols(s: string): Result<seq<Sym>> {
    if s == [] then Ok([])
    else
      match Symbols(s[..|s| - 1])
      case Err(e) => Err(e)
      case Ok(data) =>
        var d := Index(CHARSET, s[|s| - 1]);
        if d < 0 then Err(InvalidDataCharacter) else Ok(data + [d])
  }

  /** Decoding a string already known to be printable and in one case. */
  function DecodeLower(s: string): Result<Address> {
    var pos := RFind(s, '1');
    if pos < 1 || pos + 7 > |s| then Err(BadSeparator)
    else
      match Symbols(s[pos + 1..])
      case Err(e) => Err(e)
      case Ok(data) =>
        SymbolsLength(s[pos + 1..]);
        if Polymod(HrpExpand(s[..pos]) + Bvs(data)) != 1 then Err(BadChecksum)
        else Ok(Address(s[..pos], data[..|data| - 6]))
  }

  function Decode(s: string): Result<Address> {
    if !Printable(s) then Err(InvalidCharacter)
    else if MixedCased(s) then Err(MixedCase)
    else DecodeLower(Lower(s))
  }

  lemma {:induction false} SymbolsLength(s: string)
    ensures Symbols(s).Ok? ==> |Symbols(s).value| == |s|
  {
    if s != [] {
      SymbolsLength(s[..|s| - 1]);
    }
  }

  method ComputeDecode(input: string) returns (r: Result<Address>)
    ensures r == Decode(input)
  {
    hide Symbols, Polymod, HrpExpand;
    if exists i :: 0 <= i < |input| && (input[i] as int < 33 || input[i] as int > 126) {
      return Err(InvalidCharacter);
    }
    if Lower(input) != input && Upper(input) != input {
      return Err(MixedCase);
    }
    var bech := Lower(input);
    var pos := RFind(bech, '1');
    if pos < 1 || pos + 7 > |bech| {
      return Err(BadSeparator);
    }
    var hrp := bech[..pos];
    var read := ReadSymbols(bech[pos + 1..]);
    if read.Err? {
      return Err(read.error);
    }
    var data := read.value;
    SymbolsLength(bech[pos + 1..]);
    var chk := ComputePolymod(HrpExpand(hrp) + Bvs(data));
    if chk != 1 {
      return Err(BadChecksum);
    }
    return Ok(Address(hrp, data[..|data| - 6]));
  }

  /** The loop that turns the data part into symbols. */
  method ReadSymbols(dataPart: string) returns (r: Result<seq<Sym>>)
    ensures r == Symbols(dataPart)
  {
    var data: seq<Sym> := [];
    for i := 0 to |dataPart|
      invariant Symbols(dataPart[..i]) == Ok(data)
    {
      assert dataPart[..i + 1][..i] == dataPart[..i];
      var d := Index(CHARSET, dataPart[i]);
      if d < 0 {
        SymbolsPrefix(dataPart, i + 1);
        return Err(InvalidDataCharacter);
      }
      data := data + [d];
    }
    assert dataPart[..|dataPart|] == dataPart;
    return Ok(data);
  }

  lemma {:induction false} SymbolsPrefix(s: string, i: nat)
    requires i <= |s| && Symbols(s[..i]).Err?
    ensures Symbols(s) == Symbols(s[..i])
    decreases |s|
  {
    if i == |s| {
      assert s[..i] == s;
    } else {
      assert s[..|s| - 1][..i] == s[..i];
      SymbolsPrefix(s[..|s| - 1], i);
    }
  }

  /** bech32_reencode.py's main: the same data under another prefix. */
  function Reencode(address: string, newHrp: string): Result<string> {
    match Decode(address)
    case Err(e) => Err(e)
    case Ok(a) => Ok(Encode(a.(hrp := newHrp)))
  }

  // ----- the alphabet

  /** Prefixes that decoding can give back. */
  predicate ValidHrp(hrp: string) {
    hrp != [] && Printable(hrp) && Lower(hrp) == hrp
  }

  lemma CharsetDistinct(i: nat, j: nat)
    requires i < j < 32
    ensures CHARSET[i] != CHARSET[j]
  {
  }

  lemma CharsetPlain(d: Sym)
    ensures var c := CHARSET[d];
      33 <= c as int <= 126 && c != '1' && LowerChar(c) == c
  {
  }

  lemma IndexOfChar(d: Sym)
    ensures Index(CHARSET, CHARSET[d]) == d
  {
    var r := Index(CHARSET, CHARSET[d]);
    if 0 <= r < d {
      CharsetDistinct(r, d);
    }
  }

  lemma {:induction false} SymbolsOfChars(data: seq<Sym>)
    ensures Symbols(Chars(data)) == Ok(data)
    decreases |data|
  {
    hide CHARSET, Index;
    if data != [] {
      var n := |data| - 1;
      assert Chars(data)[..n] == Chars(data[..n]);
      SymbolsOfChars(data[..n]);
      IndexOfChar(data[n]);
      assert data == data[..n] + [data[n]];
    }
  }

  lemma {:induction false} CharsOfSymbols(s: string)
    requires Symbols(s).Ok?
    ensures Chars(Symbols(s).value) == s
    decreases |s|
  {
    if s != [] {
      var n := |s| - 1;
      CharsOfSymbols(s[..n]);
      var data := Symbols(s[..n]).value;
      assert Chars(data + [Index(CHARSET, s[n])]) == Chars(data) + [s[n]];
      assert s == s[..n] + [s[n]];
    }
  }

  // ----- encode and decode are inverse

  /** The word whose checksum a string must satisfy. */
  function Word(hrp: string, data: seq<Sym>): seq<bv30> {
    HrpExpand(hrp) + Bvs(data)
  }

  lemma ChecksumSymbols(hrp: string, data: seq<Sym>)
    ensures Bvs(CreateChecksum(hrp, data)) == Unpack(Plus(Polymod(HrpExpand(hrp) + Bvs(data) + ZEROS), 1))
  {
    var w := Plus(Polymod(HrpExpand(hrp) + Bvs(data) + ZEROS), 1);
    forall i | 0 <= i < 6 ensures ToBv(DigitSym(w, i)) == Digit(w, i) { DigitBound(w, i); }
  }

  lemma BvsSymbols(tail: seq<Sym>)
    requires |tail| == 6
    ensures SixSymbols(Bvs(tail))
  {
    forall i | 0 <= i < 6 ensures IsSymbol(Bvs(tail)[i]) { SymBv(tail[i]); }
  }

  lemma BvsInjective(a: seq<Sym>, b: seq<Sym>)
    requires Bvs(a) == Bvs(b)
    ensures a == b
  {
    forall i | 0 <= i < |a| ensures a[i] == b[i] {
      SymBv(a[i]);
      SymBv(b[i]);
      assert Bvs(a)[i] == Bvs(b)[i];
    }
  }

  lemma BvsParts(a: seq<Sym>, b: seq<Sym>)
    ensures Bvs(a + b) == Bvs(a) + Bvs(b)
  {
    hide ToBv;
  }

  /** The six checksum symbols are the only ones that complete the word. */
  lemma ChecksumUnique(hrp: string, data: seq<Sym>, tail: seq<Sym>)
    requires |tail| == 6
    ensures Polymod(Word(hrp, data + tail)) == 1 <==> tail == CreateChecksum(hrp, data)
  {
    hide Bvs, Polymod, PolymodFrom, Plus, Unpack, HrpExpand, SixSymbols, CreateChecksum;
    BvsParts(data, tail);
    BvsSymbols(tail);
    ChecksumSymbols(hrp, data);
    var sum := CreateChecksum(hrp, data);
    if Bvs(tail) == Bvs(sum) {
      BvsInjective(tail, sum);
    }
    var head := HrpExpand(hrp) + Bvs(data);
    assert Word(hrp, data + tail) == head + Bvs(tail);
    PolymodOf(head, Bvs(tail));
    PolymodOf(head, ZEROS);
    UniqueCompletion(PolymodFrom(1, head), Bvs(tail), 1);
  }

  lemma PolymodOf(a: seq<bv30>, b: seq<bv30>)
    ensures Polymod(a + b) == PolymodFrom(PolymodFrom(1, a), b)
  {
    PolymodConcat(1, a, b);
  }

  lemma CharsPlain(data: seq<Sym>)
    ensures Printable(Chars(data)) && Lower(Chars(data)) == Chars(data)
    ensures forall i :: 0 <= i < |data| ==> Chars(data)[i] != '1'
  {
    forall i | 0 <= i < |data|
      ensures 33 <= Chars(data)[i] as int <= 126 && Chars(data)[i] != '1'
        && LowerChar(Chars(data)[i]) == Chars(data)[i]
    {
      CharsetPlain(data[i]);
    }
  }

  /** The separator is the last '1' even if the prefix contains others. */
  lemma DecodeLowerOfParts(hrp: string, all: seq<Sym>)
    requires hrp != [] && |all| >= 6
    ensures DecodeLower(hrp + "1" + Chars(all))
      == if Polymod(Word(hrp, all)) != 1 then Err(BadChecksum) else Ok(Address(hrp, all[..|all| - 6]))
  {
    hide Polymod, HrpExpand, Symbols;
    var s := hrp + "1" + Chars(all);
    CharsPlain(all);
    assert s[|hrp|] == '1' && forall i :: |hrp| < i < |s| ==> s[i] == Chars(all)[i - |hrp| - 1];
    assert RFind(s, '1') == |hrp|;
    assert s[..|hrp|] == hrp && s[|hrp| + 1..] == Chars(all);
    SymbolsOfChars(all);
  }

  /** Decoding an encoding gives back its parts exactly if the prefix is one
      that decoding can give back. */
  lemma EncodeDecode(a: Address)
    ensures Decode(Encode(a)) == Ok(a) <==>
      a.hrp != [] && forall c :: c in a.hrp ==> 33 <= c as int <= 126 && !('A' <= c <= 'Z')
  {
    HrpIs(a.hrp);
    hide Polymod, HrpExpand, CreateChecksum, Symbols, DecodeLower;
    var all := a.data + CreateChecksum(a.hrp, a.data);
    var s := Encode(a);
    CharsPlain(all);
    ChecksumUnique(a.hrp, a.data, CreateChecksum(a.hrp, a.data));
    assert all[..|all| - 6] == a.data;
    if ValidHrp(a.hrp) {
      LowerParts(a.hrp, all);
      DecodeLowerOfParts(a.hrp, all);
    }
    if Decode(s) == Ok(a) {
      DecodedHrp(s);
      assert forall i :: 0 <= i < |a.hrp| ==> a.hrp[i] == s[i];
    }
  }

  lemma HrpIs(hrp: string)
    ensures ValidHrp(hrp) <==> hrp != [] && forall c :: c in hrp ==> 33 <= c as int <= 126 && !('A' <= c <= 'Z')
  {
    if ValidHrp(hrp) {
      forall c | c in hrp ensures 33 <= c as int <= 126 && !('A' <= c <= 'Z') {
        var i :| 0 <= i < |hrp| && hrp[i] == c;
        assert Lower(hrp)[i] == hrp[i];
      }
    }
    if hrp != [] && forall c :: c in hrp ==> 33 <= c as int <= 126 && !('A' <= c <= 'Z') {
      assert forall i :: 0 <= i < |hrp| ==> hrp[i] in hrp;
    }
  }

  lemma LowerParts(hrp: string, all: seq<Sym>)
    requires ValidHrp(hrp)
    ensures var s := hrp + "1" + Chars(all); Printable(s) && Lower(s) == s
  {
    CharsPlain(all);
    var s := hrp + "1" + Chars(all);
    forall i | 0 <= i < |s| ensures 33 <= s[i] as int <= 126 && LowerChar(s[i]) == s[i] {
      if i < |hrp| {
        assert Lower(hrp)[i] == hrp[i] == s[i];
      } else if i > |hrp| {
        assert s[i] == Chars(all)[i - |hrp| - 1];
        assert Lower(Chars(all))[i - |hrp| - 1] == Chars(all)[i - |hrp| - 1];
      }
    }
  }

  /** The prefix a decode returns. */
  lemma DecodedHrp(s: string)
    requires Decode(s).Ok?
    ensures ValidHrp(Decode(s).value.hrp)
  {
    hide Polymod, HrpExpand, Symbols;
    var l := Lower(s);
    var hrp := Decode(s).value.hrp;
    assert hrp == l[..RFind(l, '1')];
    forall i | 0 <= i < |hrp| ensures 33 <= hrp[i] as int <= 126 && LowerChar(hrp[i]) == hrp[i] {
      assert hrp[i] == LowerChar(s[i]);
    }
  }

  /** What an accepted string is made of. */
  lemma AcceptedParts(s: string) returns (hrp: string, all: seq<Sym>)
    requires Decode(s).Ok?
    ensures |hrp| == RFind(Lower(s), '1') && |hrp| + 7 <= |s| && |all| == |s| - |hrp| - 1
    ensures Lower(s) == hrp + "1" + Chars(all) && Polymod(Word(hrp, all)) == 1
    ensures Decode(s).value == Address(hrp, all[..|all| - 6])
  {
    hide Polymod, HrpExpand, Bvs, Chars, Printable, MixedCased, Symbols, RFind, Lower;
    var l := Lower(s);
    var pos := RFind(l, '1');
    hrp, all := l[..pos], Symbols(l[pos + 1..]).value;
    SymbolsLength(l[pos + 1..]);
    CharsOfSymbols(l[pos + 1..]);
    assert l == l[..pos] + "1" + l[pos + 1..];
  }

  /** An accepted string is, up to case, the encoding of what it decodes to. */
  lemma DecodeEncode(s: string)
    requires Decode(s).Ok?
    ensures Encode(Decode(s).value) == Lower(s)
  {
    hide Decode, Polymod, HrpExpand, CreateChecksum, Chars, Word;
    var hrp, all := AcceptedParts(s);
    var n := |all| - 6;
    assert all == all[..n] + all[n..];
    ChecksumUnique(hrp, all[..n], all[n..]);
  }

  /** No character outside 33 to 126. */
  lemma PrintableIs(s: string)
    ensures Printable(s) <==> forall c :: c in s ==> 33 <= c as int <= 126
  {
    if forall c :: c in s ==> 33 <= c as int <= 126 {
      assert forall i :: 0 <= i < |s| ==> s[i] in s;
    }
  }

  /** Both a capital and a small letter. */
  lemma MixedCasedIs(s: string)
    ensures MixedCased(s) <==> (exists c :: c in s && 'A' <= c <= 'Z') && exists c :: c in s && 'a' <= c <= 'z'
  {
    if c :| c in s && 'A' <= c <= 'Z' {
      var i :| 0 <= i < |s| && s[i] == c;
      assert Lower(s)[i] != s[i];
    }
    if c :| c in s && 'a' <= c <= 'z' {
      var i :| 0 <= i < |s| && s[i] == c;
      assert Upper(s)[i] != s[i];
    }
    if Lower(s) != s {
      var i :| 0 <= i < |s| && Lower(s)[i] != s[i];
      assert s[i] in s && 'A' <= s[i] <= 'Z';
    }
    if Upper(s) != s {
      var i :| 0 <= i < |s| && Upper(s)[i] != s[i];
      assert s[i] in s && 'a' <= s[i] <= 'z';
    }
  }

  /** The accepted strings are exactly the single-case spellings of encodings. */
  lemma AcceptedStrings(s: string)
    ensures Decode(s).Ok?
      <==> (&& (forall c :: c in s ==> 33 <= c as int <= 126)
            && !((exists c :: c in s && 'A' <= c <= 'Z') && exists c :: c in s && 'a' <= c <= 'z')
            && exists a: Address :: ValidHrp(a.hrp) && Lower(s) == Encode(a))
  {
    PrintableIs(s);
    MixedCasedIs(s);
    hide Encode, DecodeLower, ValidHrp, Printable, MixedCased;
    if Decode(s).Ok? {
      DecodeEncode(s);
      DecodedHrp(s);
    }
    if a: Address :| ValidHrp(a.hrp) && Lower(s) == Encode(a) {
      HrpIs(a.hrp);
      EncodeDecode(a);
      LowerTwice(s);
    }
  }

  /** Whether the separator leaves a prefix in front and six symbols behind. */
  ghost predicate Placed(l: string) {
    1 <= RFind(l, '1') && RFind(l, '1') + 7 <= |l|
  }

  ghost predicate Foreign(l: string) {
    exists i :: RFind(l, '1') < i < |l| && l[i] !in CHARSET
  }

  lemma DecodeLowerErrors(l: string)
    ensures DecodeLower(l) == Err(BadSeparator) <==> !Placed(l)
    ensures DecodeLower(l) == Err(InvalidDataCharacter) <==> Placed(l) && Foreign(l)
    ensures DecodeLower(l).Err? ==> DecodeLower(l).error in {BadSeparator, InvalidDataCharacter, BadChecksum}
  {
    hide Polymod, HrpExpand, Symbols;
    if Placed(l) {
      var pos := RFind(l, '1');
      var tail := l[pos + 1..];
      SymbolsOkIf(tail);
      SymbolsLength(tail);
      hide RFind;
      if i :| pos < i < |l| && l[i] !in CHARSET {
        assert tail[i - pos - 1] == l[i];
      }
      if k :| 0 <= k < |tail| && tail[k] !in CHARSET {
        assert tail[k] == l[pos + 1 + k];
      }
    }
  }

  /** The first check that fails decides the error. */
  lemma DecodeErrors(s: string)
    ensures
      var printable := forall c :: c in s ==> 33 <= c as int <= 126;
      var mixed := (exists c :: c in s && 'A' <= c <= 'Z') && exists c :: c in s && 'a' <= c <= 'z';
      var l := Lower(s);
      && (Decode(s) == Err(InvalidCharacter) <==> !printable)
      && (Decode(s) == Err(MixedCase) <==> printable && mixed)
      && (Decode(s) == Err(BadSeparator) <==> printable && !mixed && !Placed(l))
      && (Decode(s) == Err(InvalidDataCharacter) <==> printable && !mixed && Placed(l) && Foreign(l))
      && (Decode(s) == Err(BadChecksum) ==> printable && !mixed && Placed(l) && !Foreign(l))
  {
    PrintableIs(s);
    MixedCasedIs(s);
    DecodeLowerErrors(Lower(s));
    hide Printable, MixedCased, DecodeLower, Placed, Foreign, Lower;
  }

  lemma {:induction false} SymbolsOkIf(s: string)
    ensures Symbols(s).Ok? <==> forall k :: 0 <= k < |s| ==> s[k] in CHARSET
    ensures Symbols(s).Err? ==> Symbols(s).error == InvalidDataCharacter
  {
    hide CHARSET, Index;
    if s != [] {
      SymbolsOkIf(s[..|s| - 1]);
      InAlphabet(s[|s| - 1]);
    }
  }

  lemma InAlphabet(c: char)
    ensures Index(CHARSET, c) >= 0 <==> c in CHARSET
  {
  }

  lemma LowerTwice(s: string)
    ensures Lower(Lower(s)) == Lower(s)
  {
  }

  /** Re-encoding keeps the data and puts the new prefix in front; what does not
      decode is refused for the same reason.  Re-encoding back is then the
      identity, up to case. */
  lemma ReencodeRoundTrip(s: string, newHrp: string)
    ensures Decode(s).Err? ==> Reencode(s, newHrp) == Err(Decode(s).error)
    ensures Decode(s).Ok? ==> Reencode(s, newHrp).Ok? && newHrp + "1" <= Reencode(s, newHrp).value
    ensures Decode(s).Ok? && ValidHrp(newHrp) ==>
      && Decode(Reencode(s, newHrp).value) == Ok(Address(newHrp, Decode(s).value.data))
      && Reencode(Reencode(s, newHrp).value, Decode(s).value.hrp) == Ok(Lower(s))
  {
    if Decode(s).Ok? {
      var a := Decode(s).value;
      assert newHrp + "1" <= Encode(a.(hrp := newHrp));
      HrpIs(newHrp);
      hide Encode, Decode, ValidHrp;
      EncodeDecode(a.(hrp := newHrp));
      DecodeEncode(s);
      assert a.(hrp := newHrp).(hrp := a.hrp) == a;
    }
  }

  // ----- corrupted strings

  /** Replacing characters of an accepted string inside a window of six
      consecutive data-part positions, by anything but a new separator and by
      more than a change of case, always gives a rejected string. */
  lemma BurstRejected(s: string, t: string, k: nat)
    requires Decode(s).Ok? && |s| == |t|
    requires RFind(Lower(s), '1') < k && k + 6 <= |s|
    requires Lower(s)[..k] == Lower(t)[..k] && Lower(s)[k + 6..] == Lower(t)[k + 6..]
    requires '1' !in t[k..k + 6] && Lower(s) != Lower(t)
    ensures Decode(t).Err?
  {
    hide Decode, RFind;
    if Decode(t).Ok? {
      var l, m := Lower(s), Lower(t);
      var pos := RFind(l, '1');
      forall i | k <= i < k + 6 ensures m[i] != '1' {
        assert t[i] == t[k..k + 6][i - k];
      }
      assert forall i :: 0 <= i < k ==> m[i] == m[..k][i] == l[..k][i] == l[i];
      assert forall i :: k + 6 <= i < |m| ==> m[i] == m[k + 6..][i - k - 6] == l[k + 6..][i - k - 6] == l[i];
      var hrp, all := AcceptedParts(s);
      assert RFind(m, '1') == pos;
      CorruptionDetected(s, t, k);
    }
  }

  /** Two accepted strings that agree outside such a window agree altogether. */
  lemma CorruptionDetected(s: string, t: string, k: nat)
    requires Decode(s).Ok? && Decode(t).Ok? && |s| == |t|
    requires var pos := RFind(Lower(s), '1');
      pos < k && k + 6 <= |s| && RFind(Lower(t), '1') == pos
    requires Lower(s)[..k] == Lower(t)[..k] && Lower(s)[k + 6..] == Lower(t)[k + 6..]
    ensures Lower(s) == Lower(t)
  {
    hide Decode, Polymod, HrpExpand, Word, Chars, RFind, Lower;
    var hrp, a := AcceptedParts(s);
    var hrp', b := AcceptedParts(t);
    assert hrp == Lower(s)[..k][..|hrp|] && hrp' == Lower(t)[..k][..|hrp|];
    var j := k - |hrp| - 1;
    TailSlices(hrp, Chars(a), j);
    TailSlices(hrp, Chars(b), j);
    SameSymbols(a, b, j);
    WordsDetected(hrp, a, b, j);
  }

  lemma TailSlices(hrp: string, tail: string, j: nat)
    requires j + 6 <= |tail|
    ensures var l := hrp + "1" + tail; var k := |hrp| + 1 + j;
      tail[..j] == l[..k][|hrp| + 1..] && tail[j + 6..] == l[k + 6..]
  {
  }

  lemma SameSymbols(a: seq<Sym>, b: seq<Sym>, j: nat)
    requires |a| == |b| && j + 6 <= |a|
    requires Chars(a)[..j] == Chars(b)[..j] && Chars(a)[j + 6..] == Chars(b)[j + 6..]
    ensures a[..j] == b[..j] && a[j + 6..] == b[j + 6..]
  {
    forall i | 0 <= i < |a| && !(j <= i < j + 6) ensures a[i] == b[i] {
      if i < j {
        assert Chars(a)[i] == Chars(a)[..j][i] && Chars(b)[i] == Chars(b)[..j][i];
      } else {
        assert Chars(a)[i] == Chars(a)[j + 6..][i - j - 6] && Chars(b)[i] == Chars(b)[j + 6..][i - j - 6];
      }
      IndexOfChar(a[i]);
      IndexOfChar(b[i]);
    }
  }

  lemma WordsDetected(hrp: string, a: seq<Sym>, b: seq<Sym>, j: nat)
    requires |a| == |b| && j + 6 <= |a| && a[..j] == b[..j] && a[j + 6..] == b[j + 6..]
    requires Polymod(Word(hrp, a)) == Polymod(Word(hrp, b))
    ensures a == b
  {
    BvsWindow(a, b, j);
    hide Polymod, DifferInWindow, HrpExpand, Bvs;
    var h := HrpExpand(hrp);
    PrefixWindow(h, Bvs(a), Bvs(b), j);
    BurstDetected(h + Bvs(a), h + Bvs(b), |h| + j);
    assert Bvs(a) == (h + Bvs(a))[|h|..] && Bvs(b) == (h + Bvs(b))[|h|..];
    BvsInjective(a, b);
  }

  lemma BvsWindow(a: seq<Sym>, b: seq<Sym>, j: nat)
    requires |a| == |b| && j + 6 <= |a| && a[..j] == b[..j] && a[j + 6..] == b[j + 6..]
    ensures DifferInWindow(Bvs(a), Bvs(b), j)
  {
    BvsSlices(a, j);
    BvsSlices(b, j);
    BvsSymbols(a[j..j + 6]);
    BvsSymbols(b[j..j + 6]);
    hide Bvs, SixSymbols;
  }

  lemma BvsSlices(a: seq<Sym>, j: nat)
    requires j + 6 <= |a|
    ensures Bvs(a)[..j] == Bvs(a[..j]) && Bvs(a)[j..j + 6] == Bvs(a[j..j + 6])
    ensures Bvs(a)[j + 6..] == Bvs(a[j + 6..])
  {
    hide ToBv;
  }

  lemma PrefixWindow(h: seq<bv30>, a: seq<bv30>, b: seq<bv30>, j: nat)
    requires DifferInWindow(a, b, j)
    ensures DifferInWindow(h + a, h + b, |h| + j)
  {
    hide SixSymbols;
    assert (h + a)[..|h| + j] == h + a[..j] && (h + b)[..|h| + j] == h + b[..j];
    assert (h + a)[|h| + j..|h| + j + 6] == a[j..j + 6] && (h + b)[|h| + j..|h| + j + 6] == b[j..j + 6];
    assert (h + a)[|h| + j + 6..] == a[j + 6..] && (h + b)[|h| + j + 6..] == b[j + 6..];
  }

  // ----- the checksum covers the prefix

  /** Prefixes that agree outside six consecutive characters, and inside them
      in all the low bits or in all the high ones. */
  ghost predicate CloseHrps(h: string, h': string, k: nat) {
    && |h| == |h'| && k <= |h|
    && (forall i :: 0 <= i < |h| && !(k <= i < k + 6) ==> h[i] == h'[i])
    && (|| (forall i :: 0 <= i < |h| ==> h[i] as int / 32 == h'[i] as int / 32)
        || (forall i :: 0 <= i < |h| ==> h[i] as int % 32 == h'[i] as int % 32))
  }

  lemma HrpAt(h: string, i: nat)
    requires Printable(h) && i < |h|
    ensures |HrpExpand(h)| == 2 * |h| + 1 && HrpExpand(h)[|h|] == 0
    ensures HrpExpand(h)[i] == ToBv(h[i] as int / 32) && IsSymbol(HrpExpand(h)[i])
    ensures HrpExpand(h)[|h| + 1 + i] == ToBv(h[i] as int % 32) && IsSymbol(HrpExpand(h)[|h| + 1 + i])
  {
    SymBv(h[i] as int / 32);
    SymBv(h[i] as int % 32);
  }

  lemma WordSymbols(h: string, rest: seq<Sym>, i: nat)
    requires Printable(h) && i < |Word(h, rest)|
    ensures |Word(h, rest)| == 2 * |h| + 1 + |rest| && IsSymbol(Word(h, rest)[i])
  {
    assert |HrpExpand(h)| == 2 * |h| + 1;
    if i < |h| {
      HrpAt(h, i);
    } else if |h| < i < 2 * |h| + 1 {
      HrpAt(h, i - |h| - 1);
    } else if i > |h| {
      SymBv(rest[i - 2 * |h| - 1]);
    } else {
      assert HrpExpand(h)[|h|] == 0;
    }
  }

  /** Where the words of close prefixes differ. */
  lemma WordsClose(h: string, h': string, rest: seq<Sym>, k: nat, pos: nat, i: nat)
    requires Printable(h) && Printable(h') && CloseHrps(h, h', k) && i < 2 * |h| + 1 + |rest|
    requires pos == if SameHigh(h, h') then |h| + 1 + k else k
    ensures |Word(h, rest)| == |Word(h', rest)| == 2 * |h| + 1 + |rest|
    ensures !(pos <= i < pos + 6) ==> Word(h, rest)[i] == Word(h', rest)[i]
  {
    HrpMiddle(h);
    HrpMiddle(h');
    hide HrpExpand, ToBv, Bvs;
    var j := if i < |h| then i else i - |h| - 1;
    if 0 <= j < |h| {
      HrpAt(h, j);
      HrpAt(h', j);
      assert !(k <= j < k + 6) ==> h[j] == h'[j];
      assert SameHigh(h, h') ==> h[j] as int / 32 == h'[j] as int / 32;
      assert !SameHigh(h, h') ==> h[j] as int % 32 == h'[j] as int % 32;
    }
  }

  lemma HrpMiddle(h: string)
    ensures |HrpExpand(h)| == 2 * |h| + 1 && HrpExpand(h)[|h|] == 0
  {
  }

  ghost predicate SameHigh(h: string, h': string)
    requires |h| == |h'|
  {
    forall i :: 0 <= i < |h| ==> h[i] as int / 32 == h'[i] as int / 32
  }

  /** The checksum of a word tells close prefixes apart. */
  lemma PrefixDetected(h: string, h': string, rest: seq<Sym>, k: nat)
    requires Printable(h) && Printable(h') && CloseHrps(h, h', k) && |rest| >= 6
    requires Polymod(Word(h, rest)) == Polymod(Word(h', rest))
    ensures h == h'
  {
    assert |h| == |h'|;
    hide Polymod, Word, HrpExpand, ToBv, Bvs, Printable, CloseHrps, SameHigh, IsSymbol;
    var pos := if SameHigh(h, h') then |h| + 1 + k else k;
    var a, b := Word(h, rest), Word(h', rest);
    PrefixLength(h, h', rest, k, pos);
    forall i | 0 <= i < |a| ensures IsSymbol(a[i]) && IsSymbol(b[i]) && (!(pos <= i < pos + 6) ==> a[i] == b[i]) {
      WordsClose(h, h', rest, k, pos, i);
      WordSymbols(h, rest, i);
      WordSymbols(h', rest, i);
    }
    assert DifferInWindow(a, b, pos);
    BurstDetected(a, b, pos);
    SameWords(h, h', rest);
  }

  lemma PrefixLength(h: string, h': string, rest: seq<Sym>, k: nat, pos: nat)
    requires CloseHrps(h, h', k) && |rest| >= 6
    requires pos == if SameHigh(h, h') then |h| + 1 + k else k
    ensures |Word(h, rest)| == |Word(h', rest)| == 2 * |h| + 1 + |rest| && pos + 6 <= |Word(h, rest)|
  {
  }

  lemma SameWords(h: string, h': string, rest: seq<Sym>)
    requires Printable(h) && Printable(h') && |h| == |h'| && Word(h, rest) == Word(h', rest)
    ensures h == h'
  {
    forall i | 0 <= i < |h| ensures h[i] == h'[i] {
      HrpAt(h, i);
      HrpAt(h', i);
      assert HrpExpand(h)[i] == Word(h, rest)[i] && HrpExpand(h')[i] == Word(h', rest)[i];
      assert HrpExpand(h)[|h| + 1 + i] == Word(h, rest)[|h| + 1 + i];
      assert HrpExpand(h')[|h| + 1 + i] == Word(h', rest)[|h| + 1 + i];
      SameChar(h[i], h'[i]);
    }
  }

  lemma SameChar(c: char, d: char)
    requires 33 <= c as int <= 126 && 33 <= d as int <= 126
    requires ToBv(c as int / 32) == ToBv(d as int / 32) && ToBv(c as int % 32) == ToBv(d as int % 32)
    ensures c == d
  {
    SymBv(c as int / 32);
    SymBv(d as int / 32);
    SymBv(c as int % 32);
    SymBv(d as int % 32);
    hide ToBv;
  }

  /** Replacing characters of the prefix of an accepted string inside a window
      of six, all of them by characters with the same high bits (a lower-case
      letter by another) or all with the same low bits, gives a rejected one:
      an address under one prefix is no address under another. */
  lemma PrefixRejected(s: string, t: string, k: nat)
    requires Decode(s).Ok? && |s| == |t| && Lower(s) != Lower(t)
    requires var pos := RFind(Lower(s), '1');
      && RFind(Lower(t), '1') == pos && Lower(s)[pos..] == Lower(t)[pos..]
      && CloseHrps(Lower(s)[..pos], Lower(t)[..pos], k)
    ensures Decode(t).Err?
  {
    if Decode(t).Ok? {
      DecodedHrp(s);
      DecodedHrp(t);
      hide Decode, Polymod, Word, HrpExpand, CloseHrps, RFind, Chars, Lower, Printable;
      var h, a := AcceptedParts(s);
      var h', b := AcceptedParts(t);
      Parts(Lower(s), h, Chars(a));
      Parts(Lower(t), h', Chars(b));
      CharsInjective(a, b);
      PrefixDetected(h, h', a, k);
    }
  }

  lemma Parts(l: string, hrp: string, tail: string)
    requires l == hrp + "1" + tail
    ensures l[..|hrp|] == hrp && l[|hrp|..][1..] == tail
  {
  }

  lemma CharsInjective(a: seq<Sym>, b: seq<Sym>)
    requires Chars(a) == Chars(b)
    ensures a == b
  {
    SymbolsOfChars(a);
    SymbolsOfChars(b);
  }
}
