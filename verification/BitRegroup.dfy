/** convertbits: regrouping a list of `from`-bit numbers into `to`-bit ones. */
module BitRegroup {
  import opened Powers

  type Bits = seq<bool>

  /** The number a bit string denotes, most significant bit first. */
  function Value(b: Bits): nat {
    if b == [] then 0 else 2 * Value(b[..|b| - 1]) + if b[|b| - 1] then 1 else 0
  }

  /** `v` written with `w` bits. */
  function BitsOf(v: nat, w: nat): (b: Bits)
    ensures |b| == w
  {
    if w == 0 then [] else BitsOf(v / 2, w - 1) + [v % 2 == 1]
  }

  function AllBits(d: seq<nat>, w: nat): Bits {
    if d == [] then [] else AllBits(d[..|d| - 1], w) + BitsOf(d[|d| - 1], w)
  }

  /** The numbers denoted by the full `t`-bit groups of a bit string, in order. */
  function Groups(b: Bits, t: nat): seq<nat>
    requires t > 0
  {
    if |b| < t then [] else [Value(b[..t])] + Groups(b[t..], t)
  }

  function Zeros(n: nat): Bits {
    seq(n, i => false)
  }

  /** `n` bits make whole groups of `t`. */
  predicate Whole(n: nat, t: nat)
    requires t > 0
    decreases n
  {
    n == 0 || (n >= t && Whole(n - t, t))
  }

  /** Bits missing from the last group of `n` bits. */
  function PadLength(n: nat, t: nat): (r: nat)
    requires t > 0
    ensures r < t
    decreases n
  {
    if n == 0 then 0 else if n < t then t - n else PadLength(n - t, t)
  }

  /** The regrouped list; `pad` completes the last group with zeros, and without
      it an incomplete last group is dropped. */
  function Regroup(d: seq<nat>, from: nat, to: nat, pad: bool): seq<nat>
    requires to > 0
  {
    var b := AllBits(d, from);
    Groups(if pad then b + Zeros(PadLength(|b|, to)) else b, to)
  }

  ghost predicate Fits(d: seq<nat>, w: nat) {
    forall i :: 0 <= i < |d| ==> d[i] < Pow2(w)
  }

  method ConvertBits(data: seq<nat>, from: nat, to: nat, pad: bool) returns (ret: seq<nat>)
    requires to > 0 && Fits(data, from)
    ensures ret == Regroup(data, from, to, pad)
  {
    hide Value, Pow2, BitsOf, Whole, Groups, PadLength;
    var acc: nat, bits: nat := 0, 0;
    ret := [];
    ghost var b: Bits := [];
    NoBits(to);
    for i := 0 to |data|
      invariant b == AllBits(data[..i], from) && acc == Value(b)
      invariant bits <= |b| && bits < to && Whole(|b| - bits, to)
      invariant ret == Groups(b, to)
    {
      assert data[..i + 1][..i] == data[..i];
      ghost var next := b + BitsOf(data[i], from);
      Shifted(b, data[i], from);
      DropPartial(b, to, bits);
      acc := acc * Pow2(from) + data[i];
      assert next[..|b| - bits] == b[..|b| - bits];
      bits := bits + from;
      while bits >= to
        invariant bits <= |next| && Whole(|next| - bits, to)
        invariant ret == Groups(next[..|next| - bits], to)
        decreases bits
      {
        bits := bits - to;
        OneMore(next, to, bits);
        ret := ret + [acc / Pow2(bits) % Pow2(to)];
      }
      b := next;
      DropPartial(b, to, bits);
    }
    assert data[..|data|] == data;
    PadLengthIs(|b|, to, bits);
    DropPartial(b, to, bits);
    if pad && bits > 0 {
      Padded(b, to, bits);
      ret := ret + [acc * Pow2(to - bits) % Pow2(to)];
    } else {
      assert b + Zeros(0) == b;
    }
  }

  lemma NoBits(t: nat)
    requires t > 0
    ensures Value([]) == 0 && Groups([], t) == [] && Whole(0, t)
  {
  }

  // ----- numbers and bits

  lemma Shifted(b: Bits, v: nat, w: nat)
    requires v < Pow2(w)
    ensures Value(b + BitsOf(v, w)) == Value(b) * Pow2(w) + v
  {
    ValueConcat(b, BitsOf(v, w));
    ValueOfBits(v, w);
  }

  lemma {:induction false} ValueConcat(a: Bits, b: Bits)
    ensures Value(a + b) == Value(a) * Pow2(|b|) + Value(b)
    decreases |b|
  {
    if b == [] {
      assert a + b == a;
    } else {
      var n := |b| - 1;
      assert (a + b)[..|a| + n] == a + b[..n];
      ValueConcat(a, b[..n]);
      Double(Value(a), Pow2(n), Value(b[..n]));
    }
  }

  lemma Double(x: nat, p: nat, y: nat)
    ensures 2 * (x * p + y) == x * (2 * p) + 2 * y
  {
  }

  lemma {:induction false} ValueBound(b: Bits)
    ensures Value(b) < Pow2(|b|)
  {
    if b != [] {
      ValueBound(b[..|b| - 1]);
    }
  }

  lemma {:induction false} ValueZeros(n: nat)
    ensures Value(Zeros(n)) == 0
  {
    if n > 0 {
      assert Zeros(n)[..n - 1] == Zeros(n - 1);
      ValueZeros(n - 1);
    }
  }

  lemma {:induction false} ValueOfBits(v: nat, w: nat)
    requires v < Pow2(w)
    ensures Value(BitsOf(v, w)) == v
  {
    if w > 0 {
      ValueOfBits(v / 2, w - 1);
      assert BitsOf(v, w)[..w - 1] == BitsOf(v / 2, w - 1);
    }
  }

  lemma {:induction false} BitsOfValue(b: Bits)
    ensures BitsOf(Value(b), |b|) == b
  {
    if b != [] {
      var n := |b| - 1;
      BitsOfValue(b[..n]);
      assert Value(b) / 2 == Value(b[..n]);
      assert b == b[..n] + [b[n]];
    }
  }

  lemma DivMod(q: nat, m: nat, s: nat)
    requires s < m
    ensures (q * m + s) / m == q && (q * m + s) % m == s
  {
    var n := q * m + s;
    var d, r := n / m, n % m;
    assert n == m * d + r;
    assert m * (d - q) == m * d - q * m;
    MulSign(m, d - q);
  }

  lemma MulSign(m: int, x: int)
    requires m >= 0
    ensures x >= 1 ==> m * x >= m
    ensures x <= -1 ==> m * x <= -m
  {
    if x >= 1 {
      assert m * x == m * (x - 1) + m && m * (x - 1) >= 0;
    } else if x <= -1 {
      assert m * x == m * (x + 1) - m && m * (x + 1) <= 0;
    }
  }

  /** Shifting and masking a number picks out a stretch of its bits. */
  lemma ShiftAndMask(x: Bits, g: Bits, y: Bits)
    ensures Value(x + g + y) / Pow2(|y|) % Pow2(|g|) == Value(g)
  {
    hide Value, Pow2;
    ValueConcat(x + g, y);
    ValueConcat(x, g);
    ValueBound(y);
    ValueBound(g);
    DivMod(Value(x + g), Pow2(|y|), Value(y));
    DivMod(Value(x), Pow2(|g|), Value(g));
  }

  // ----- groups

  lemma {:induction false} GroupsAppend(a: Bits, b: Bits, t: nat)
    requires t > 0 && Whole(|a|, t)
    ensures Groups(a + b, t) == Groups(a, t) + Groups(b, t)
    decreases |a|
  {
    if a == [] {
      assert a + b == b;
    } else {
      assert (a + b)[..t] == a[..t] && (a + b)[t..] == a[t..] + b;
      GroupsAppend(a[t..], b, t);
    }
  }

  /** An incomplete last group contributes nothing. */
  lemma DropPartial(b: Bits, t: nat, rest: nat)
    requires t > 0 && rest <= |b| && rest < t && Whole(|b| - rest, t)
    ensures Groups(b, t) == Groups(b[..|b| - rest], t)
  {
    var n := |b| - rest;
    assert b == b[..n] + b[n..];
    GroupsAppend(b[..n], b[n..], t);
  }

  lemma OneGroup(g: Bits, t: nat)
    requires t > 0 && |g| == t
    ensures Groups(g, t) == [Value(g)]
  {
    assert g[..t] == g && g[t..] == [];
  }

  lemma {:induction false} WholeMore(n: nat, t: nat)
    requires t > 0 && Whole(n, t)
    ensures Whole(n + t, t)
  {
  }

  /** The next group of a bit string, as shifting and masking its value. */
  lemma OneMore(b: Bits, t: nat, rest: nat)
    requires t > 0 && t + rest <= |b| && Whole(|b| - rest - t, t)
    ensures Whole(|b| - rest, t)
    ensures Groups(b[..|b| - rest], t)
      == Groups(b[..|b| - rest - t], t) + [Value(b) / Pow2(rest) % Pow2(t)]
  {
    hide Value, Pow2, Groups, Whole;
    var n := |b| - rest - t;
    WholeMore(n, t);
    var x, g, y := b[..n], b[n..n + t], b[n + t..];
    assert b == x + g + y && b[..n + t] == x + g;
    ShiftAndMask(x, g, y);
    GroupsAppend(x, g, t);
    OneGroup(g, t);
  }

  lemma {:induction false} PadLengthIs(n: nat, t: nat, rest: nat)
    requires t > 0 && rest <= n && rest < t && Whole(n - rest, t)
    ensures PadLength(n, t) == if rest == 0 then 0 else t - rest
  {
    if n >= t {
      PadLengthIs(n - t, t, rest);
    }
  }

  lemma Prefix(b: Bits, z: Bits, n: nat)
    requires n <= |b|
    ensures (b + z)[..n] == b[..n] && (b + z)[..|b + z|] == b + z
  {
  }

  /** The padded last group. */
  lemma Padded(b: Bits, t: nat, rest: nat)
    requires t > 0 && 0 < rest <= |b| && rest < t && Whole(|b| - rest, t)
    ensures Groups(b + Zeros(t - rest), t)
      == Groups(b[..|b| - rest], t) + [Value(b) * Pow2(t - rest) % Pow2(t)]
  {
    var z := Zeros(t - rest);
    assert Pow2(0) == 1;
    hide Value, Pow2, Groups, Whole;
    ValueConcat(b, z);
    ValueZeros(t - rest);
    OneMore(b + z, t, 0);
    Prefix(b, z, |b| - rest);
    assert Value(b + z) / 1 == Value(b + z);
  }

  // ----- round trip

  lemma {:induction false} AllBitsConcat(a: seq<nat>, b: seq<nat>, w: nat)
    ensures AllBits(a + b, w) == AllBits(a, w) + AllBits(b, w)
    decreases |b|
  {
    hide BitsOf;
    if b == [] {
      assert a + b == a;
    } else {
      var n := |b| - 1;
      assert (a + b)[..|a| + n] == a + b[..n];
      AllBitsConcat(a, b[..n], w);
    }
  }

  lemma OneNumber(v: nat, w: nat)
    ensures AllBits([v], w) == BitsOf(v, w)
  {
    assert [v][..0] == [];
    assert AllBits([v], w) == AllBits([], w) + BitsOf(v, w);
  }

  lemma GroupsCons(head: Bits, tail: Bits, t: nat)
    requires t > 0 && |head| == t
    ensures Groups(head + tail, t) == [Value(head)] + Groups(tail, t)
  {
    assert (head + tail)[..t] == head && (head + tail)[t..] == tail;
  }

  lemma {:induction false} BitsOfGroups(b: Bits, t: nat)
    requires t > 0 && Whole(|b|, t)
    ensures AllBits(Groups(b, t), t) == b && Fits(Groups(b, t), t)
    decreases |b|
  {
    hide Value, Pow2, BitsOf, AllBits, Groups;
    if b == [] {
      NoBits(t);
      NoNumbers(t);
    } else {
      var head, tail := b[..t], b[t..];
      BitsOfGroups(tail, t);
      assert b == head + tail;
      GroupsCons(head, tail, t);
      BitsOfValue(head);
      ValueBound(head);
      AllBitsConcat([Value(head)], Groups(tail, t), t);
      OneNumber(Value(head), t);
    }
  }

  lemma NoNumbers(w: nat)
    ensures AllBits([], w) == []
  {
  }

  lemma {:induction false} GroupsOfBits(d: seq<nat>, w: nat, rest: Bits)
    requires w > 0 && Fits(d, w)
    ensures Groups(AllBits(d, w) + rest, w) == d + Groups(rest, w)
    decreases |d|
  {
    hide Value, Pow2, BitsOf, AllBits, Groups;
    if d == [] {
      NoNumbers(w);
      assert [] + rest == rest;
    } else {
      GroupsOfBits(d[1..], w, rest);
      SplitFirst(d, w, rest);
      ValueOfBits(d[0], w);
      GroupsCons(BitsOf(d[0], w), AllBits(d[1..], w) + rest, w);
      assert d + Groups(rest, w) == [d[0]] + (d[1..] + Groups(rest, w));
    }
  }

  lemma SplitFirst(d: seq<nat>, w: nat, rest: Bits)
    requires d != []
    ensures AllBits(d, w) + rest == BitsOf(d[0], w) + (AllBits(d[1..], w) + rest)
  {
    hide AllBits, BitsOf;
    AllBitsConcat([d[0]], d[1..], w);
    OneNumber(d[0], w);
    assert [d[0]] + d[1..] == d;
  }

  lemma {:induction false} PadCompletes(n: nat, t: nat)
    requires t > 0
    ensures Whole(n + PadLength(n, t), t)
  {
    if n >= t {
      PadCompletes(n - t, t);
    }
  }

  /** Regrouping with padding and back without it is the identity exactly if
      the padding is too short to be read as a number of its own; always, when
      the second width is at most the first. */
  lemma RegroupRoundTrip(d: seq<nat>, from: nat, to: nat)
    requires from > 0 && to > 0 && Fits(d, from)
    ensures Fits(Regroup(d, from, to, true), to)
    ensures Regroup(Regroup(d, from, to, true), to, from, false) == d
      <==> PadLength(|AllBits(d, from)|, to) < from
    ensures to <= from ==> Regroup(Regroup(d, from, to, true), to, from, false) == d
  {
    var b := AllBits(d, from);
    var z := Zeros(PadLength(|b|, to));
    PadCompletes(|b|, to);
    BitsOfGroups(b + z, to);
    GroupsOfBits(d, from, z);
    assert Groups(z, from) == [] <==> |z| < from;
    hide Groups, AllBits, Whole, PadLength;
    if Groups(z, from) != [] {
      assert |d + Groups(z, from)| > |d|;
    }
  }

  // ----- sizes

  lemma {:induction false} AllBitsLength(d: seq<nat>, w: nat)
    ensures |AllBits(d, w)| == |d| * w
  {
    hide BitsOf;
    if d != [] {
      AllBitsLength(d[..|d| - 1], w);
      assert |d| * w == (|d| - 1) * w + w;
    }
  }

  lemma {:induction false} GroupCount(b: Bits, t: nat)
    requires t > 0 && Whole(|b|, t)
    ensures |Groups(b, t)| * t == |b|
    decreases |b|
  {
    if b != [] {
      GroupCount(b[t..], t);
      assert |Groups(b, t)| * t == |Groups(b[t..], t)| * t + t;
    }
  }

  /** A padded regrouping has just as many symbols as the bits need. */
  lemma RegroupSize(d: seq<nat>, from: nat, to: nat)
    requires to > 0
    ensures |Regroup(d, from, to, true)| == (|d| * from + to - 1) / to
  {
    var b := AllBits(d, from);
    var p := PadLength(|b|, to);
    AllBitsLength(d, from);
    PadCompletes(|b|, to);
    GroupCount(b + Zeros(p), to);
    hide Groups, AllBits, Whole, PadLength;
    DivMod(|Regroup(d, from, to, true)|, to, to - 1 - p);
  }

  // ----- the order of the bits

  /** The number a list denotes, its first element most significant. */
  function BigEndian(d: seq<nat>, w: nat): nat {
    if d == [] then 0 else BigEndian(d[..|d| - 1], w) * Pow2(w) + d[|d| - 1]
  }

  lemma {:induction false} BigEndianBits(d: seq<nat>, w: nat)
    requires Fits(d, w)
    ensures BigEndian(d, w) == Value(AllBits(d, w))
  {
    hide Value, Pow2, BitsOf;
    if d == [] {
      NoNumbers(w);
      NoBits(1);
    } else {
      var n := |d| - 1;
      BigEndianBits(d[..n], w);
      Shifted(AllBits(d[..n], w), d[n], w);
    }
  }

  /** A padded regrouping denotes the same number, moved up by the padding. */
  lemma RegroupValue(d: seq<nat>, from: nat, to: nat)
    requires to > 0 && Fits(d, from)
    ensures
      var r := Regroup(d, from, to, true);
      && Fits(r, to) && |d| * from <= |r| * to < |d| * from + to
      && BigEndian(r, to) == BigEndian(d, from) * Pow2(|r| * to - |d| * from)
  {
    var b := AllBits(d, from);
    var p := PadLength(|b|, to);
    var r := Regroup(d, from, to, true);
    PadCompletes(|b|, to);
    BitsOfGroups(b + Zeros(p), to);
    hide Value, Pow2, Groups, AllBits, Whole, PadLength, BigEndian;
    AllBitsLength(d, from);
    AllBitsLength(r, to);
    BigEndianBits(d, from);
    BigEndianBits(r, to);
    ValueConcat(b, Zeros(p));
    ValueZeros(p);
  }
}
