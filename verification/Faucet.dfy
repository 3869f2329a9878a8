/** The devnet faucet: address normalisation, and the cap on what one address
    is paid within a day. */
module Faucet {
  import opened Options
  import opened Powers
  import opened Bech32Checksum
  import Bech32
  import opened BitRegroup

  const HRP: string := "ark"

  // ----- addresses

  predicate IsHex(c: char) {
    '0' <= c <= '9' || 'a' <= c <= 'f' || 'A' <= c <= 'F'
  }

  function HexValue(c: char): (v: nat)
    requires IsHex(c)
    ensures v < 16
  {
    if c <= '9' then c as int - '0' as int
    else if c <= 'F' then c as int - 'A' as int + 10
    else c as int - 'a' as int + 10
  }

  predicate HexPairs(s: string) {
    |s| % 2 == 0 && forall i :: 0 <= i < |s| ==> IsHex(s[i])
  }

  /** bytes.fromhex on an even number of hexadecimal digits. */
  function FromHex(s: string): seq<nat>
    requires HexPairs(s)
  {
    if s == [] then [] else [16 * HexValue(s[0]) + HexValue(s[1])] + FromHex(s[2..])
  }

  /** str.replace("0x", ""). */
  function Without0x(s: string): string {
    if |s| < 2 then s
    else if s[0] == '0' && s[1] == 'x' then Without0x(s[2..])
    else [s[0]] + Without0x(s[1..])
  }

  /** ^0x[0-9a-fA-F]{40}$ */
  predicate Matches0x(s: string) {
    |s| == 42 && s[..2] == "0x" && forall i :: 2 <= i < 42 ==> IsHex(s[i])
  }

  /** ^ark1[0-9a-z]{38}$ */
  predicate MatchesBech32(s: string) {
    |s| == 42 && s[..4] == HRP + "1" && forall i :: 4 <= i < 42 ==> '0' <= s[i] <= '9' || 'a' <= s[i] <= 'z'
  }

  /** Characters str.strip removes. */
  predicate IsSpace(c: char) {
    var n := c as int;
    || 9 <= n <= 13 || 28 <= n <= 32 || n == 0x85 || n == 0xA0 || n == 0x1680 || 0x2000 <= n <= 0x200A
    || n == 0x2028 || n == 0x2029 || n == 0x202F || n == 0x205F || n == 0x3000
  }

  function StripLeft(s: string): string {
    if s != [] && IsSpace(s[0]) then StripLeft(s[1..]) else s
  }

  function StripRight(s: string): string {
    if s != [] && IsSpace(s[|s| - 1]) then StripRight(s[..|s| - 1]) else s
  }

  function Strip(s: string): string {
    StripRight(StripLeft(s))
  }

  function ToSyms(d: seq<nat>): (r: seq<Bech32.Sym>)
    requires Fits(d, 5)
    ensures |r| == |d| && forall i :: 0 <= i < |d| ==> r[i] == d[i]
  {
    assert Pow2(5) == 32 by { Pow2Five(); }
    seq(|d|, i requires 0 <= i < |d| => d[i])
  }

  lemma Pow2Five()
    ensures Pow2(5) == 32 && Pow2(8) == 256
  {
    assert Pow2(3) == 8;
    assert Pow2(5) == 4 * Pow2(3) == 32;
    assert Pow2(6) == 2 * Pow2(5) && Pow2(7) == 2 * Pow2(6) && Pow2(8) == 2 * Pow2(7);
  }

  /** The address of `raw` bytes. */
  function AddressOf(raw: seq<nat>): string
    requires Fits(raw, 8)
  {
    RegroupRoundTrip(raw, 8, 5);
    Bech32.Encode(Bech32.Address(HRP, ToSyms(Regroup(raw, 8, 5, true))))
  }

  /** The twenty bytes a hexadecimal address names. */
  function RawBytes(s: string): (raw: seq<nat>)
    requires Matches0x(s)
    ensures |raw| == 20 && Fits(raw, 8)
  {
    var h := Bech32.Lower(s);
    HexBody(s);
    FromHexSize(Without0x(h));
    FromHex(Without0x(h))
  }

  function EthHexToBech32(s: string): string
    requires Matches0x(s)
  {
    AddressOf(RawBytes(s))
  }

  function NormalizeAddress(raw: string): Option<string> {
    var s := Strip(raw);
    if Matches0x(s) then Some(EthHexToBech32(s))
    else if MatchesBech32(s) then Some(s)
    else None
  }

  // ----- lemmas about hexadecimal

  lemma {:induction false} NothingToRemove(s: string)
    requires forall i :: 0 <= i < |s| ==> s[i] != 'x'
    ensures Without0x(s) == s
  {
    if |s| >= 2 {
      NothingToRemove(s[1..]);
      assert s == [s[0]] + s[1..];
    }
  }

  /** Only the leading "0x" is removed: no hexadecimal digit is an 'x'. */
  lemma HexBody(s: string)
    requires Matches0x(s)
    ensures var h := Bech32.Lower(s); Without0x(h) == h[2..] && |h| == 42
    ensures forall i :: 0 <= i < 40 ==> IsHex(Bech32.Lower(s)[2..][i])
  {
    var h := Bech32.Lower(s);
    assert s[0] == s[..2][0] == '0' && s[1] == s[..2][1] == 'x';
    assert h[0] == '0' && h[1] == 'x';
    assert forall i :: 2 <= i < 42 ==> IsHex(h[i]) && h[i] != 'x';
    NothingToRemove(h[2..]);
  }

  lemma {:induction false} FromHexSize(s: string)
    requires |s| % 2 == 0 && forall i :: 0 <= i < |s| ==> IsHex(s[i])
    ensures |FromHex(s)| * 2 == |s| && Fits(FromHex(s), 8)
  {
    Pow2Five();
    if s != [] {
      FromHexSize(s[2..]);
    }
  }

  /** Lower-case hexadecimal spells each list of bytes in one way. */
  lemma {:induction false} FromHexInjective(s: string, t: string)
    requires |s| % 2 == 0 && |t| % 2 == 0
    requires forall i :: 0 <= i < |s| ==> IsHex(s[i]) && Bech32.LowerChar(s[i]) == s[i]
    requires forall i :: 0 <= i < |t| ==> IsHex(t[i]) && Bech32.LowerChar(t[i]) == t[i]
    requires FromHex(s) == FromHex(t)
    ensures s == t
  {
    FromHexSize(s);
    FromHexSize(t);
    hide HexValue, Bech32.LowerChar, IsHex;
    if s != [] {
      assert FromHex(s)[0] == FromHex(t)[0];
      assert FromHex(s)[1..] == FromHex(s[2..]) && FromHex(t)[1..] == FromHex(t[2..]);
      FromHexInjective(s[2..], t[2..]);
      HexPairInjective(s[0], s[1], t[0], t[1]);
      assert s == [s[0], s[1]] + s[2..] && t == [t[0], t[1]] + t[2..];
    }
  }

  predicate LowerHex(c: char) {
    IsHex(c) && Bech32.LowerChar(c) == c
  }

  lemma HexPairInjective(a: char, b: char, c: char, d: char)
    requires LowerHex(a) && LowerHex(b) && LowerHex(c) && LowerHex(d)
    requires 16 * HexValue(a) + HexValue(b) == 16 * HexValue(c) + HexValue(d)
    ensures a == c && b == d
  {
  }

  // ----- what normalisation guarantees

  /** Different bytes have different addresses. */
  lemma AddressOfInjective(a: seq<nat>, b: seq<nat>)
    requires Fits(a, 8) && Fits(b, 8) && AddressOf(a) == AddressOf(b)
    ensures a == b
  {
    RegroupRoundTrip(a, 8, 5);
    RegroupRoundTrip(b, 8, 5);
    var p, q := Regroup(a, 8, 5, true), Regroup(b, 8, 5, true);
    HrpIsValid();
    Bech32.EncodeDecode(Bech32.Address(HRP, ToSyms(p)));
    Bech32.EncodeDecode(Bech32.Address(HRP, ToSyms(q)));
    hide Regroup, Bech32.Decode, Bech32.Encode;
    assert ToSyms(p) == ToSyms(q);
    assert forall i :: 0 <= i < |p| ==> p[i] == ToSyms(p)[i] == ToSyms(q)[i] == q[i];
    assert p == q;
  }

  lemma HrpIsValid()
    ensures Bech32.ValidHrp(HRP)
  {
  }

  /** An address made from twenty bytes is one the second pattern accepts. */
  lemma AddressOfShape(raw: seq<nat>)
    requires Fits(raw, 8) && |raw| == 20
    ensures MatchesBech32(AddressOf(raw))
  {
    RegroupRoundTrip(raw, 8, 5);
    RegroupSize(raw, 8, 5);
    var data := ToSyms(Regroup(raw, 8, 5, true));
    assert |data| == 32;
    hide Regroup, Bech32.CreateChecksum;
    var all := data + Bech32.CreateChecksum(HRP, data);
    var s := AddressOf(raw);
    assert s == HRP + "1" + Bech32.Chars(all);
    forall i | 4 <= i < 42 ensures '0' <= s[i] <= '9' || 'a' <= s[i] <= 'z' {
      assert s[i] == Bech32.CHARSET[all[i - 4]];
      CharsetAlphanumeric(all[i - 4]);
    }
    assert s[..4] == HRP + "1";
  }

  lemma CharsetAlphanumeric(d: Bech32.Sym)
    ensures var c := Bech32.CHARSET[d]; '0' <= c <= '9' || 'a' <= c <= 'z'
  {
  }

  lemma Starts(s: string)
    ensures Matches0x(s) ==> s[0] == '0'
    ensures MatchesBech32(s) ==> s[0] == 'a'
  {
    if Matches0x(s) {
      assert s[0] == s[..2][0];
    }
    if MatchesBech32(s) {
      assert s[0] == s[..4][0];
    }
  }

  lemma NothingToStrip(s: string)
    requires MatchesBech32(s)
    ensures Strip(s) == s && !Matches0x(s)
  {
    Starts(s);
  }

  /** Normalising an address again changes nothing. */
  lemma NormalizeIdempotent(raw: string)
    requires NormalizeAddress(raw).Some?
    ensures NormalizeAddress(NormalizeAddress(raw).value) == NormalizeAddress(raw)
  {
    var s := Strip(raw);
    if Matches0x(s) {
      AddressOfShape(RawBytes(s));
    }
    hide Strip, AddressOf, RawBytes;
    NothingToStrip(NormalizeAddress(raw).value);
  }

  /** Two hexadecimal addresses are the same account exactly if they are the
      same up to the case of their digits. */
  lemma NormalizeHex(a: string, b: string)
    requires Matches0x(Strip(a)) && Matches0x(Strip(b))
    ensures NormalizeAddress(a) == NormalizeAddress(b) <==> Bech32.Lower(Strip(a)) == Bech32.Lower(Strip(b))
  {
    var s, t := Strip(a), Strip(b);
    hide Strip;
    HexBody(s);
    HexBody(t);
    var g, h := Bech32.Lower(s), Bech32.Lower(t);
    if NormalizeAddress(a) == NormalizeAddress(b) {
      AddressOfInjective(RawBytes(s), RawBytes(t));
      hide AddressOf;
      forall i | 0 <= i < 40
        ensures Bech32.LowerChar(g[2..][i]) == g[2..][i] && Bech32.LowerChar(h[2..][i]) == h[2..][i]
      {
        assert g[2..][i] == Bech32.LowerChar(s[i + 2]) && h[2..][i] == Bech32.LowerChar(t[i + 2]);
      }
      FromHexInjective(g[2..], h[2..]);
      assert s[..2] == t[..2] == "0x";
      assert g[..2] == "0x" && h[..2] == "0x";
      assert g == g[..2] + g[2..] && h == h[..2] + h[2..];
    }
  }

  // ----- which account an address names

  const DIGITS: string := "0123456789abcdef"

  /** Each byte as two hexadecimal digits, the high one first. */
  function Hex(raw: seq<nat>): string
    requires forall i :: 0 <= i < |raw| ==> raw[i] < 256
  {
    if raw == [] then ""
    else [DIGITS[raw[0] / 16], DIGITS[raw[0] % 16]] + Hex(raw[1..])
  }

  lemma DigitValue(d: nat)
    requires d < 16
    ensures LowerHex(DIGITS[d]) && HexValue(DIGITS[d]) == d
  {
  }

  lemma {:induction false} HexRead(raw: seq<nat>)
    requires forall i :: 0 <= i < |raw| ==> raw[i] < 256
    ensures |Hex(raw)| == 2 * |raw| && forall i :: 0 <= i < |Hex(raw)| ==> LowerHex(Hex(raw)[i])
    ensures HexPairs(Hex(raw)) && FromHex(Hex(raw)) == raw
  {
    assert |DIGITS| == 16;
    hide LowerHex, HexValue, IsHex, DIGITS, FromHex, HexPairs;
    if raw == [] {
      NoHex();
    } else {
      var high, low := DIGITS[raw[0] / 16], DIGITS[raw[0] % 16];
      HexRead(raw[1..]);
      DigitValue(raw[0] / 16);
      DigitValue(raw[0] % 16);
      FromHexCons(high, low, raw[0], Hex(raw[1..]));
      assert Hex(raw) == [high, low] + Hex(raw[1..]);
      assert raw == [raw[0]] + raw[1..];
    }
  }

  lemma NoHex()
    ensures HexPairs("") && FromHex("") == []
  {
  }

  lemma FromHexCons(high: char, low: char, v: nat, rest: string)
    requires LowerHex(high) && LowerHex(low) && HexPairs(rest)
    requires 16 * HexValue(high) + HexValue(low) == v
    ensures HexPairs([high, low] + rest) && FromHex([high, low] + rest) == [v] + FromHex(rest)
  {
    var s := [high, low] + rest;
    assert IsHex(high) && IsHex(low);
    hide IsHex, HexValue, LowerHex;
    assert s[0] == high && s[1] == low && s[2..] == rest;
    forall i | 0 <= i < |s| ensures IsHex(s[i]) {
      if i >= 2 {
        assert s[i] == rest[i - 2];
      }
    }
    assert |s| == |rest| + 2;
  }

  lemma LowerHexIsHex(s: string)
    ensures forall i :: 0 <= i < |s| && LowerHex(s[i]) ==> IsHex(s[i]) && Bech32.LowerChar(s[i]) == s[i]
  {
  }

  /** The hexadecimal spelling of twenty bytes names their address. */
  lemma HexNames(raw: seq<nat>)
    requires |raw| == 20 && forall i :: 0 <= i < 20 ==> raw[i] < 256
    ensures Fits(raw, 8) && NormalizeAddress("0x" + Hex(raw)) == Some(AddressOf(raw))
  {
    Pow2Five();
    HexRead(raw);
    var s := "0x" + Hex(raw);
    LowerHexIsHex(Hex(raw));
    assert forall i :: 2 <= i < 42 ==> s[i] == Hex(raw)[i - 2];
    assert s[..2] == "0x" && s[2..] == Hex(raw);
    hide LowerHex, HexValue, IsHex, DIGITS, AddressOf;
    assert Matches0x(s);
    HexBody(s);
    LowerSame(s);
    SurroundedByNothing(s);
  }

  lemma LowerSame(s: string)
    requires Matches0x(s) && forall i :: 2 <= i < 42 ==> Bech32.LowerChar(s[i]) == s[i]
    ensures Bech32.Lower(s) == s
  {
    assert s[0] == s[..2][0] && s[1] == s[..2][1];
  }

  lemma SurroundedByNothing(s: string)
    requires s != [] && !IsSpace(s[0]) && !IsSpace(s[|s| - 1])
    ensures Strip(s) == s
  {
  }

  lemma AddressDecodes(raw: seq<nat>)
    requires Fits(raw, 8)
    ensures Fits(Regroup(raw, 8, 5, true), 5)
    ensures Bech32.Decode(AddressOf(raw)) == Bech32.Ok(Bech32.Address(HRP, ToSyms(Regroup(raw, 8, 5, true))))
  {
    RegroupRoundTrip(raw, 8, 5);
    HrpIsValid();
    Bech32.HrpIs(HRP);
    hide Regroup, Bech32.Decode, Bech32.Encode, Bech32.ValidHrp;
    Bech32.EncodeDecode(Bech32.Address(HRP, ToSyms(Regroup(raw, 8, 5, true))));
  }

  lemma SymbolsCarry(raw: seq<nat>)
    requires |raw| == 20 && Fits(raw, 8)
    ensures var d := Regroup(raw, 8, 5, true); |d| == 32 && BigEndian(d, 5) == BigEndian(raw, 8)
  {
    RegroupSize(raw, 8, 5);
    RegroupValue(raw, 8, 5);
    assert Pow2(0) == 1;
    hide Regroup, BigEndian, Pow2;
  }

  /** That address carries the same number in 5-bit symbols, under the prefix
      of the chain. */
  lemma AddressCarries(raw: seq<nat>)
    requires |raw| == 20 && Fits(raw, 8)
    ensures
      var r := Bech32.Decode(AddressOf(raw));
      r.Ok? && r.value.hrp == "ark" && |r.value.data| == 32
      && BigEndian(r.value.data, 5) == BigEndian(raw, 8)
  {
    AddressDecodes(raw);
    SymbolsCarry(raw);
    hide Regroup, Bech32.Decode, AddressOf, BigEndian, Fits;
    var d := Regroup(raw, 8, 5, true);
    var numbers: seq<nat> := ToSyms(d);
    assert numbers == d;
  }

  // ----- which strings are addresses

  lemma {:induction false} StripLeftOf(pre: string, s: string)
    requires forall i :: 0 <= i < |pre| ==> IsSpace(pre[i])
    requires s != [] ==> !IsSpace(s[0])
    ensures StripLeft(pre + s) == s
  {
    hide IsSpace;
    if pre == [] {
      assert pre + s == s;
    } else {
      assert (pre + s)[1..] == pre[1..] + s;
      StripLeftOf(pre[1..], s);
    }
  }

  lemma {:induction false} StripRightOf(s: string, post: string)
    requires forall i :: 0 <= i < |post| ==> IsSpace(post[i])
    requires s != [] ==> !IsSpace(s[|s| - 1])
    ensures StripRight(s + post) == s
  {
    hide IsSpace;
    if post == [] {
      assert s + post == s;
    } else {
      assert (s + post)[..|s + post| - 1] == s + post[..|post| - 1];
      StripRightOf(s, post[..|post| - 1]);
    }
  }

  lemma SpaceIs(c: char)
    requires c as int < 128
    ensures IsSpace(c) <==> c as int in {9, 10, 11, 12, 13, 28, 29, 30, 31, 32}
  {
  }

  /** White space around an address does not matter. */
  lemma NormalizeSurrounded(pre: string, core: string, post: string)
    requires forall i :: 0 <= i < |pre| ==> IsSpace(pre[i])
    requires forall i :: 0 <= i < |post| ==> IsSpace(post[i])
    requires core != [] && !IsSpace(core[0]) && !IsSpace(core[|core| - 1])
    ensures NormalizeAddress(pre + core + post) == NormalizeAddress(core)
  {
    hide IsSpace, Matches0x, MatchesBech32, EthHexToBech32;
    assert pre + core + post == pre + (core + post);
    StripLeftOf(pre, core + post);
    StripRightOf(core, post);
    SurroundedByNothing(core);
  }

  /** What is left must be 0x and forty hexadecimal digits, or ark1 and 38 small
      letters or digits, which stands for itself; its checksum is not looked at. */
  lemma NormalizeAccepts(core: string)
    requires core != [] && !IsSpace(core[0]) && !IsSpace(core[|core| - 1])
    ensures
      var hex := |core| == 42 && core[0] == '0' && core[1] == 'x'
        && forall i :: 2 <= i < 42 ==> core[i] in DIGITS + "ABCDEF";
      var bech := |core| == 42 && core[0] == 'a' && core[1] == 'r' && core[2] == 'k' && core[3] == '1'
        && forall i :: 4 <= i < 42 ==> '0' <= core[i] <= '9' || 'a' <= core[i] <= 'z';
      && (NormalizeAddress(core).Some? <==> hex || bech)
      && (bech ==> NormalizeAddress(core) == Some(core))
  {
    SurroundedByNothing(core);
    hide IsSpace, EthHexToBech32;
    if |core| == 42 {
      assert core[..2] == [core[0], core[1]] && core[..4] == [core[0], core[1], core[2], core[3]];
      assert HRP + "1" == "ark1";
      forall i | 2 <= i < 42 ensures IsHex(core[i]) <==> core[i] in DIGITS + "ABCDEF" {
        HexDigits(core[i]);
      }
      hide IsHex, DIGITS;
      Starts(core);
    }
  }

  lemma HexDigits(c: char)
    ensures IsHex(c) <==> c in DIGITS + "ABCDEF"
  {
    var all := DIGITS + "ABCDEF";
    assert all == "0123456789abcdefABCDEF";
    if IsHex(c) {
      var i := if c <= '9' then HexValue(c) else if c <= 'F' then HexValue(c) + 6 else HexValue(c);
      assert all[i] == c;
    }
  }
}
