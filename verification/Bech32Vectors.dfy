/** A known answer: a valid string of BIP-173, section "Test vectors", that runs
    through the whole alphabet and all five generators. */
module Bech32Vectors {
  import opened Bech32Checksum
  import opened Bech32

  function If(top: bv30, bit: bv30, generator: bv30): bv30 {
    if top & bit == bit then generator else 0
  }

  function ShiftIn(chk: bv30, v: bv30): bv30 {
    ((chk & 0x1FFFFFF) << 5) ^ v
  }

  function Sum6(s: bv30, a: bv30, b: bv30, c: bv30, d: bv30, e: bv30): bv30 {
    Plus(Plus(Plus(Plus(Plus(s, a), b), c), d), e)
  }

  lemma PlusIsSum6(a: bv30, b: bv30)
    ensures Plus(a, b) == a ^ b
  {
  }

  /** The step as the standard writes it, with its five constants. */
  function Closed(chk: bv30, v: bv30): bv30 {
    var top := chk >> 25;
    Sum6(ShiftIn(chk, v), If(top, 1, 0x3B6A57B2), If(top, 2, 0x26508E6D), If(top, 4, 0x1EA119FA),
        If(top, 8, 0x3D4233DD), If(top, 16, 0x2A1462B3))
  }

  lemma BitsClosed(top: bv30)
    ensures Bit(top, 0) != 0 <==> top & 1 == 1
    ensures Bit(top, 1) != 0 <==> top & 2 == 2
    ensures Bit(top, 2) != 0 <==> top & 4 == 4
    ensures Bit(top, 3) != 0 <==> top & 8 == 8
    ensures Bit(top, 4) != 0 <==> top & 16 == 16
  {
  }

  lemma TermsClosed(top: bv30)
    ensures Term(top, 0) == If(top, 1, 0x3B6A57B2)
    ensures Term(top, 1) == If(top, 2, 0x26508E6D)
    ensures Term(top, 2) == If(top, 4, 0x1EA119FA)
    ensures Term(top, 3) == If(top, 8, 0x3D4233DD)
    ensures Term(top, 4) == If(top, 16, 0x2A1462B3)
  {
    BitsClosed(top);
    hide Bit;
  }

  lemma PlusChain(s: bv30, a: bv30, b: bv30, c: bv30, d: bv30, e: bv30)
    ensures Plus(s, Plus(Plus(Plus(Plus(a, b), c), d), e)) == Sum6(s, a, b, c, d, e)
  {
    hide Plus;
    PlusLaws(s, a, b);
    PlusLaws(s, Plus(a, b), c);
    PlusLaws(s, Plus(Plus(a, b), c), d);
    PlusLaws(s, Plus(Plus(Plus(a, b), c), d), e);
  }

  lemma ShiftedIn(chk: bv30, v: bv30)
    ensures Plus(Shift(chk), v) == ShiftIn(chk, v) && Top(chk) == chk >> 25
  {
  }

  lemma StepIsClosed(chk: bv30, v: bv30)
    ensures Step(chk, v) == Closed(chk, v)
  {
    hide Bit, Feedback, Plus, Term, Shift, Top, If, Sum6, ShiftIn;
    var top := Top(chk);
    FeedbackExplicit(top);
    TermsClosed(top);
    ShiftedIn(chk, v);
    PlusChain(Plus(Shift(chk), v), Term(top, 0), Term(top, 1), Term(top, 2), Term(top, 3), Term(top, 4));
  }

  ghost predicate Passes(states: seq<bv30>, values: seq<bv30>) {
    && |states| == 7 && |values| == 6
    && Closed(states[0], values[0]) == states[1] && Closed(states[1], values[1]) == states[2]
    && Closed(states[2], values[2]) == states[3] && Closed(states[3], values[3]) == states[4]
    && Closed(states[4], values[4]) == states[5] && Closed(states[5], values[5]) == states[6]
  }

  lemma SixClosed(states: seq<bv30>, values: seq<bv30>, rest: seq<bv30>)
    requires Passes(states, values)
    ensures PolymodFrom(states[0], values + rest) == PolymodFrom(states[6], rest)
  {
    hide Step, Closed, PolymodFrom;
    StepIsClosed(states[0], values[0]);
    StepIsClosed(states[1], values[1]);
    StepIsClosed(states[2], values[2]);
    StepIsClosed(states[3], values[3]);
    StepIsClosed(states[4], values[4]);
    StepIsClosed(states[5], values[5]);
    SixSteps(states[0], values);
    PolymodConcat(states[0], values, rest);
  }

  lemma OneClosed(state: bv30, value: bv30, rest: seq<bv30>)
    ensures PolymodFrom(state, [value] + rest) == PolymodFrom(Closed(state, value), rest)
  {
    hide Step, Closed;
    StepIsClosed(state, value);
    assert ([value] + rest)[1..] == rest;
  }

  lemma Prefix0(rest: seq<bv30>)
    ensures PolymodFrom(0x1, [3, 3, 3, 3, 3, 3] + rest) == PolymodFrom(0x3D5BDBD1, rest)
  {
    hide PolymodFrom;
    var states: seq<bv30> := [0x1, 0x23, 0x463, 0x8C63, 0x118C63, 0x2318C63, 0x3D5BDBD1];
    SixClosed(states, [3, 3, 3, 3, 3, 3], rest);
  }

  lemma Prefix1(rest: seq<bv30>)
    ensures PolymodFrom(0x3D5BDBD1, [0, 1, 2, 3, 4, 5] + rest) == PolymodFrom(0x266635A8, rest)
  {
    hide PolymodFrom;
    var states: seq<bv30> := [0x3D5BDBD1, 0x4DCBCD9, 0x3DC7154C, 0x17456F7B, 0x8D50561, 0x401B5DE, 0x266635A8];
    SixClosed(states, [0, 1, 2, 3, 4, 5], rest);
  }

  lemma Data0(rest: seq<bv30>)
    ensures PolymodFrom(0x3BE80E6A, [0, 1, 2, 3, 4, 5] + rest) == PolymodFrom(0x2FD98D2C, rest)
  {
    hide PolymodFrom;
    var states: seq<bv30> := [0x3BE80E6A, 0xF9CD266, 0x30018CE4, 0x1767CDEC, 0xC815781, 0x28DB67B3, 0x2FD98D2C];
    SixClosed(states, [0, 1, 2, 3, 4, 5], rest);
  }

  lemma Data1(rest: seq<bv30>)
    ensures PolymodFrom(0x2FD98D2C, [6, 7, 8, 9, 10, 11] + rest) == PolymodFrom(0x2F8CCEDD, rest)
  {
    hide PolymodFrom;
    var states: seq<bv30> := [0x2FD98D2C, 0x12BE0710, 0x11E88668, 0x52FED5, 0xA5FDAA9, 0x2E301B62, 0x2F8CCEDD];
    SixClosed(states, [6, 7, 8, 9, 10, 11], rest);
  }

  lemma Data2(rest: seq<bv30>)
    ensures PolymodFrom(0x2F8CCEDD, [12, 13, 14, 15, 16, 17] + rest) == PolymodFrom(0xE08010D, rest)
  {
    hide PolymodFrom;
    var states: seq<bv30> := [0x2F8CCEDD, 0x1816793A, 0x212C0D6A, 0xF95CFFD, 0x31223F8A, 0x3311A03E, 0xE08010D];
    SixClosed(states, [12, 13, 14, 15, 16, 17], rest);
  }

  lemma Data3(rest: seq<bv30>)
    ensures PolymodFrom(0xE08010D, [18, 19, 20, 21, 22, 23] + rest) == PolymodFrom(0x297C48E0, rest)
  {
    hide PolymodFrom;
    var states: seq<bv30> := [0xE08010D, 0x29BE197, 0x28166541, 0x3679D37D, 0x556E704, 0xC8C6EFB, 0x297C48E0];
    SixClosed(states, [18, 19, 20, 21, 22, 23], rest);
  }

  lemma Data4(rest: seq<bv30>)
    ensures PolymodFrom(0x297C48E0, [24, 25, 26, 27, 28, 29] + rest) == PolymodFrom(0x2E07D307, rest)
  {
    hide PolymodFrom;
    var states: seq<bv30> := [0x297C48E0, 0x1B3C6751, 0x3F0597AC, 0x347F64D1, 0x3EEA4538, 0x9853657, 0x2E07D307];
    SixClosed(states, [24, 25, 26, 27, 28, 29], rest);
  }

  lemma Checksum0(rest: seq<bv30>)
    ensures PolymodFrom(0x1A0D3656, [27, 0, 0, 0, 6, 14] + rest) == PolymodFrom(0x1, rest)
  {
    hide PolymodFrom;
    var states: seq<bv30> := [0x1A0D3656, 0x192FB74E, 0x615C3E7, 0x1F82A53F, 0xE8D5418, 0x12314323, 0x1];
    SixClosed(states, [27, 0, 0, 0, 6, 14], rest);
  }

  lemma PrefixState()
    ensures PolymodFrom(1, [3, 3, 3, 3, 3, 3, 0, 1, 2, 3, 4, 5, 6]) == 0x3BE80E6A
  {
    hide PolymodFrom, Closed;
    var last: seq<bv30> := [6];
    var low: seq<bv30> := [0, 1, 2, 3, 4, 5] + last;
    assert [3, 3, 3, 3, 3, 3, 0, 1, 2, 3, 4, 5, 6] == [3, 3, 3, 3, 3, 3] + low;
    Prefix0(low);
    Prefix1(last);
    OneClosed(0x266635A8, 6, []);
    assert last + [] == last;
    SingleSteps();
    Empty(0x3BE80E6A);
  }

  lemma Empty(state: bv30)
    ensures PolymodFrom(state, []) == state
  {
  }

  lemma SingleSteps()
    ensures Closed(0x266635A8, 6) == 0x3BE80E6A
    ensures Closed(0x2E07D307, 30) == 0x2975C268 && Closed(0x2975C268, 31) == 0x1A0D3656
  {
  }

  const NUMBERS: seq<bv30> := [
    0, 1, 2, 3, 4, 5, 6, 7, 8, 9, 10, 11, 12, 13, 14, 15,
    16, 17, 18, 19, 20, 21, 22, 23, 24, 25, 26, 27, 28, 29, 30, 31]

  lemma DataState()
    ensures PolymodFrom(0x3BE80E6A, NUMBERS) == 0x1A0D3656
  {
    hide PolymodFrom, Closed;
    var r6: seq<bv30> := [31];
    var r5: seq<bv30> := [30] + r6;
    var r4: seq<bv30> := [24, 25, 26, 27, 28, 29] + r5;
    var r3: seq<bv30> := [18, 19, 20, 21, 22, 23] + r4;
    var r2: seq<bv30> := [12, 13, 14, 15, 16, 17] + r3;
    var r1: seq<bv30> := [6, 7, 8, 9, 10, 11] + r2;
    assert NUMBERS == [0, 1, 2, 3, 4, 5] + r1;
    Data0(r1);
    Data1(r2);
    Data2(r3);
    Data3(r4);
    Data4(r5);
    SingleSteps();
    OneClosed(0x2E07D307, 30, r6);
    OneClosed(0x2975C268, 31, []);
    assert r6 + [] == r6;
    Empty(0x1A0D3656);
  }

  lemma ChecksumState()
    ensures PolymodFrom(0x1A0D3656, [27, 0, 0, 0, 6, 14]) == 1
  {
    hide PolymodFrom, Closed;
    var checksum: seq<bv30> := [27, 0, 0, 0, 6, 14];
    Checksum0([]);
    assert checksum + [] == checksum;
    Empty(1);
  }

  /** Every symbol once, and the checksum that belongs to them. */
  const DATA: seq<Sym> := seq(32, i requires 0 <= i < 32 => i)
  const TAIL: seq<Sym> := [27, 0, 0, 0, 6, 14]

  lemma ExpandedAt(hrp: string, i: nat)
    requires i < |hrp|
    ensures |HrpExpand(hrp)| == 2 * |hrp| + 1 && HrpExpand(hrp)[|hrp|] == 0
    ensures HrpExpand(hrp)[i] == (hrp[i] as int / 32) as bv30
    ensures HrpExpand(hrp)[|hrp| + 1 + i] == (hrp[i] as int % 32) as bv30
  {
  }

  lemma Letters()
    ensures ('a' as int / 32) as bv30 == 3 && ('a' as int % 32) as bv30 == 1
    ensures ('b' as int / 32) as bv30 == 3 && ('b' as int % 32) as bv30 == 2
    ensures ('c' as int / 32) as bv30 == 3 && ('c' as int % 32) as bv30 == 3
    ensures ('d' as int / 32) as bv30 == 3 && ('d' as int % 32) as bv30 == 4
    ensures ('e' as int / 32) as bv30 == 3 && ('e' as int % 32) as bv30 == 5
    ensures ('f' as int / 32) as bv30 == 3 && ('f' as int % 32) as bv30 == 6
  {
  }

  lemma ExpandedPrefix()
    ensures HrpExpand("abcdef") == [3, 3, 3, 3, 3, 3, 0, 1, 2, 3, 4, 5, 6]
  {
    hide HrpExpand;
    Letters();
    ExpandedAt("abcdef", 0);
    ExpandedAt("abcdef", 1);
    ExpandedAt("abcdef", 2);
    ExpandedAt("abcdef", 3);
    ExpandedAt("abcdef", 4);
    ExpandedAt("abcdef", 5);
  }

  lemma SmallSymbols()
    ensures ToBv(0) == 0 && ToBv(1) == 1 && ToBv(2) == 2 && ToBv(3) == 3
    ensures ToBv(4) == 4 && ToBv(5) == 5 && ToBv(6) == 6 && ToBv(7) == 7
    ensures ToBv(8) == 8 && ToBv(9) == 9 && ToBv(10) == 10 && ToBv(11) == 11
    ensures ToBv(12) == 12 && ToBv(13) == 13 && ToBv(14) == 14 && ToBv(15) == 15
    ensures ToBv(16) == 16 && ToBv(17) == 17 && ToBv(18) == 18 && ToBv(19) == 19
    ensures ToBv(20) == 20 && ToBv(21) == 21 && ToBv(22) == 22 && ToBv(23) == 23
    ensures ToBv(24) == 24 && ToBv(25) == 25 && ToBv(26) == 26 && ToBv(27) == 27
    ensures ToBv(28) == 28 && ToBv(29) == 29 && ToBv(30) == 30 && ToBv(31) == 31
  {
  }

  lemma DataWord()
    ensures Bvs(DATA) == NUMBERS && Bvs(TAIL) == [27, 0, 0, 0, 6, 14]
  {
    SmallSymbols();
    hide ToBv;
  }

  lemma WordChecks()
    ensures |TAIL| == 6 && Polymod(Word("abcdef", DATA + TAIL)) == 1
  {
    ExpandedPrefix();
    DataWord();
    assert |TAIL| == 6;
    hide HrpExpand, Bvs, PolymodFrom, DATA, TAIL, NUMBERS;
    BvsParts(DATA, TAIL);
    PolymodConcat(1, HrpExpand("abcdef"), Bvs(DATA) + Bvs(TAIL));
    PrefixState();
    PolymodConcat(0x3BE80E6A, Bvs(DATA), Bvs(TAIL));
    DataState();
    ChecksumState();
  }

  lemma KnownChars()
    ensures Chars(DATA + TAIL) == "qpzry9x8gf2tvdw0s3jn54khce6mua7lmqqqxw"
  {
    assert CHARSET + "mqqqxw" == "qpzry9x8gf2tvdw0s3jn54khce6mua7lmqqqxw";
    assert CHARSET[27] == 'm' && CHARSET[0] == 'q' && CHARSET[6] == 'x' && CHARSET[14] == 'w';
    assert Chars(DATA + TAIL) == CHARSET + "mqqqxw";
  }

  lemma EncodesTo(a: Address, tail: seq<Sym>)
    requires |tail| == 6 && Polymod(Word(a.hrp, a.data + tail)) == 1
    ensures Encode(a) == a.hrp + "1" + Chars(a.data + tail)
  {
    ChecksumUnique(a.hrp, a.data, tail);
    hide CreateChecksum, Polymod, Word, Chars;
  }

  lemma Spelling()
    ensures "abcdef" + "1" + "qpzry9x8gf2tvdw0s3jn54khce6mua7lmqqqxw"
         == "abcdef1qpzry9x8gf2tvdw0s3jn54khce6mua7lmqqqxw"
  {
  }

  lemma PlainPrefix()
    ensures ValidHrp("abcdef")
  {
  }

  /** One of the valid strings the standard lists. */
  lemma KnownAnswer()
    ensures Encode(Address("abcdef", DATA)) == "abcdef1qpzry9x8gf2tvdw0s3jn54khce6mua7lmqqqxw"
    ensures Decode("abcdef1qpzry9x8gf2tvdw0s3jn54khce6mua7lmqqqxw") == Ok(Address("abcdef", DATA))
  {
    hide *;
    WordChecks();
    EncodesTo(Address("abcdef", DATA), TAIL);
    KnownChars();
    PlainPrefix();
    Spelling();
    EncodeDecode(Address("abcdef", DATA));
  }
}
