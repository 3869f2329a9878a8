/** The BCH checksum of BIP-173, section "Checksum": a recurrence on 30-bit
    states that is linear over GF(2), one 5-bit symbol at a time. */
module Bech32Checksum {
  const GENERATOR: seq<bv30> := [0x3B6A57B2, 0x26508E6D, 0x1EA119FA, 0x3D4233DD, 0x2A1462B3]

  /** Addition over GF(2). */
  function Plus(a: bv30, b: bv30): bv30 {
    a ^ b
  }

  function Top(chk: bv30): bv30 {
    chk >> 25
  }

  function Shift(chk: bv30): bv30 {
    (chk & 0x1FFFFFF) << 5
  }

  function Bit(top: bv30, i: nat): bv30
    requires i < 5
  {
    (top >> i) & 1
  }

  function Term(top: bv30, i: nat): bv30
    requires i < 5
  {
    if Bit(top, i) != 0 then GENERATOR[i] else 0
  }

  /** What the lowest `i` of the five top bits feed back. */
  function Feedback(top: bv30, i: nat): bv30
    requires i <= 5
  {
    if i == 0 then 0 else Plus(Feedback(top, i - 1), Term(top, i - 1))
  }

  /** One turn of the polymod loop. */
  function Step(chk: bv30, v: bv30): bv30 {
    Plus(Plus(Shift(chk), v), Feedback(Top(chk), 5))
  }

  function PolymodFrom(chk: bv30, values: seq<bv30>): bv30
    decreases values
  {
    if values == [] then chk else PolymodFrom(Step(chk, values[0]), values[1..])
  }

  function Polymod(values: seq<bv30>): bv30 {
    PolymodFrom(1, values)
  }

  method ComputePolymod(values: seq<bv30>) returns (chk: bv30)
    ensures chk == Polymod(values)
  {
    hide Plus, Shift, Top, Bit;
    chk := 1;
    for k := 0 to |values|
      invariant PolymodFrom(chk, values[k..]) == Polymod(values)
    {
      ghost var before := chk;
      var top := Top(chk);
      chk := Plus(Shift(chk), values[k]);
      ghost var shifted := chk;
      PlusLaws(shifted, 0, 0);
      for i := 0 to 5
        invariant chk == Plus(shifted, Feedback(top, i))
      {
        PlusLaws(shifted, Feedback(top, i), Term(top, i));
        chk := Plus(chk, if Bit(top, i) != 0 then GENERATOR[i] else 0);
      }
      assert chk == Step(before, values[k]);
      assert values[k..][1..] == values[k + 1..];
    }
  }

  // ----- linearity

  lemma PlusLaws(a: bv30, b: bv30, c: bv30)
    ensures Plus(a, 0) == a && Plus(0, a) == a && Plus(a, a) == 0
    ensures Plus(a, b) == Plus(b, a) && Plus(Plus(a, b), c) == Plus(a, Plus(b, c))
  {
  }

  lemma PlusSwap(a: bv30, b: bv30, c: bv30, d: bv30)
    ensures Plus(Plus(a, b), Plus(c, d)) == Plus(Plus(a, c), Plus(b, d))
  {
    hide Plus;
    PlusLaws(a, b, Plus(c, d));
    PlusLaws(b, c, d);
    PlusLaws(c, b, d);
    PlusLaws(a, c, Plus(b, d));
  }

  lemma PlusCancel(a: bv30, b: bv30, c: bv30)
    requires Plus(a, b) == Plus(a, c)
    ensures b == c
  {
  }

  lemma BitLinear(a: bv30, b: bv30, i: nat)
    requires i < 5
    ensures Bit(Plus(a, b), i) == Plus(Bit(a, i), Bit(b, i))
  {
    match i
    case 0 => assert ((a ^ b) >> 0) & 1 == ((a >> 0) & 1) ^ ((b >> 0) & 1);
    case 1 => assert ((a ^ b) >> 1) & 1 == ((a >> 1) & 1) ^ ((b >> 1) & 1);
    case 2 => assert ((a ^ b) >> 2) & 1 == ((a >> 2) & 1) ^ ((b >> 2) & 1);
    case 3 => assert ((a ^ b) >> 3) & 1 == ((a >> 3) & 1) ^ ((b >> 3) & 1);
    case 4 => assert ((a ^ b) >> 4) & 1 == ((a >> 4) & 1) ^ ((b >> 4) & 1);
  }

  lemma BitRange(a: bv30, i: nat)
    requires i < 5
    ensures Bit(a, i) == 0 || Bit(a, i) == 1
  {
  }

  lemma TermLinear(a: bv30, b: bv30, i: nat)
    requires i < 5
    ensures Term(Plus(a, b), i) == Plus(Term(a, i), Term(b, i))
  {
    hide Plus, Bit;
    BitLinear(a, b, i);
    BitRange(a, i);
    BitRange(b, i);
    PlusLaws(GENERATOR[i], 0, 0);
    PlusLaws(1, 0, 0);
    PlusLaws(0, 0, 0);
  }

  lemma {:induction false} FeedbackLinear(a: bv30, b: bv30, i: nat)
    requires i <= 5
    ensures Feedback(Plus(a, b), i) == Plus(Feedback(a, i), Feedback(b, i))
  {
    hide Plus, Term;
    if i == 0 {
      PlusLaws(0, 0, 0);
    } else {
      FeedbackLinear(a, b, i - 1);
      TermLinear(a, b, i - 1);
      PlusSwap(Feedback(a, i - 1), Feedback(b, i - 1), Term(a, i - 1), Term(b, i - 1));
    }
  }

  lemma ShiftLinear(a: bv30, b: bv30)
    ensures Shift(Plus(a, b)) == Plus(Shift(a), Shift(b))
    ensures Top(Plus(a, b)) == Plus(Top(a), Top(b))
  {
  }

  lemma StepLinear(a: bv30, b: bv30, v: bv30, w: bv30)
    ensures Step(Plus(a, b), Plus(v, w)) == Plus(Step(a, v), Step(b, w))
  {
    hide Plus, Shift, Top, Feedback;
    ShiftLinear(a, b);
    FeedbackLinear(Top(a), Top(b), 5);
    PlusSwap(Shift(a), Shift(b), v, w);
    PlusSwap(Plus(Shift(a), v), Plus(Shift(b), w), Feedback(Top(a), 5), Feedback(Top(b), 5));
  }

  /** Element-wise sum. */
  function Sum(a: seq<bv30>, b: seq<bv30>): (r: seq<bv30>)
    requires |a| == |b|
    ensures |r| == |a| && forall i :: 0 <= i < |r| ==> r[i] == Plus(a[i], b[i])
  {
    seq(|a|, i requires 0 <= i < |a| => Plus(a[i], b[i]))
  }

  /** The checksum of a sum of words is the sum of their checksums. */
  lemma {:induction false} PolymodLinear(c: bv30, d: bv30, a: seq<bv30>, b: seq<bv30>)
    requires |a| == |b|
    ensures PolymodFrom(Plus(c, d), Sum(a, b)) == Plus(PolymodFrom(c, a), PolymodFrom(d, b))
    decreases |a|
  {
    hide Step, Plus;
    if a != [] {
      StepLinear(c, d, a[0], b[0]);
      PolymodLinear(Step(c, a[0]), Step(d, b[0]), a[1..], b[1..]);
      assert Sum(a, b)[1..] == Sum(a[1..], b[1..]);
    }
  }

  lemma {:induction false} PolymodConcat(c: bv30, a: seq<bv30>, b: seq<bv30>)
    ensures PolymodFrom(c, a + b) == PolymodFrom(PolymodFrom(c, a), b)
    decreases |a|
  {
    hide Step;
    if a == [] {
      assert a + b == b;
    } else {
      PolymodConcat(Step(c, a[0]), a[1..], b);
      assert (a + b)[1..] == a[1..] + b;
    }
  }

  // ----- injectivity

  lemma FeedbackExplicit(top: bv30)
    ensures Feedback(top, 5)
      == Plus(Plus(Plus(Plus(Term(top, 0), Term(top, 1)), Term(top, 2)), Term(top, 3)), Term(top, 4))
  {
    hide Plus, Term;
    assert Feedback(top, 0) == 0;
    assert Feedback(top, 1) == Plus(0, Term(top, 0));
    assert Feedback(top, 2) == Plus(Feedback(top, 1), Term(top, 1));
    assert Feedback(top, 3) == Plus(Feedback(top, 2), Term(top, 2));
    assert Feedback(top, 4) == Plus(Feedback(top, 3), Term(top, 3));
    PlusLaws(Term(top, 0), 0, 0);
  }

  /** The feedback of different top bits differs in its low five bits. */
  lemma StepKernel(a: bv30)
    requires Step(a, 0) == 0
    ensures a == 0
  {
    FeedbackExplicit(Top(a));
    hide Feedback;
  }

  lemma StepInjective(a: bv30, b: bv30, v: bv30)
    requires Step(a, v) == Step(b, v)
    ensures a == b
  {
    hide Step, Plus;
    StepLinear(a, b, v, v);
    PlusLaws(v, 0, 0);
    PlusLaws(Step(a, v), 0, 0);
    StepKernel(Plus(a, b));
    PlusLaws(b, 0, 0);
    PlusLaws(a, b, 0);
    PlusCancel(b, a, b);
  }

  /** States that differ stay different as long as they read the same symbols. */
  lemma {:induction false} PolymodInjective(a: bv30, b: bv30, values: seq<bv30>)
    requires PolymodFrom(a, values) == PolymodFrom(b, values)
    ensures a == b
    decreases |values|
  {
    hide Step;
    if values != [] {
      PolymodInjective(Step(a, values[0]), Step(b, values[0]), values[1..]);
      StepInjective(a, b, values[0]);
    }
  }

  // ----- six symbols

  ghost predicate IsSymbol(v: bv30) {
    v < 32
  }

  ghost predicate SixSymbols(s: seq<bv30>) {
    |s| == 6 && forall i :: 0 <= i < 6 ==> IsSymbol(s[i])
  }

  /** A state with the top symbol zero, shifted to make room for `v`. */
  function Next(c: bv30, v: bv30): bv30 {
    Plus(Shift(c), v)
  }

  /** Six 5-bit symbols as one 30-bit word, and back. */
  function Pack(a: bv30, b: bv30, c: bv30, d: bv30, e: bv30, f: bv30): bv30 {
    Next(Next(Next(Next(Next(a, b), c), d), e), f)
  }

  function PackSeq(s: seq<bv30>): bv30
    requires |s| == 6
  {
    Pack(s[0], s[1], s[2], s[3], s[4], s[5])
  }

  function Digit(w: bv30, i: nat): bv30
    requires i < 6
  {
    match i
    case 0 => (w >> 25) & 31
    case 1 => (w >> 20) & 31
    case 2 => (w >> 15) & 31
    case 3 => (w >> 10) & 31
    case 4 => (w >> 5) & 31
    case 5 => w & 31
  }

  function Unpack(w: bv30): (s: seq<bv30>)
    ensures |s| == 6 && forall i :: 0 <= i < 6 ==> s[i] == Digit(w, i)
  {
    seq(6, i requires 0 <= i < 6 => Digit(w, i))
  }

  lemma PackDigits(w: bv30)
    ensures Pack(Digit(w, 0), Digit(w, 1), Digit(w, 2), Digit(w, 3), Digit(w, 4), Digit(w, 5)) == w
    ensures forall i :: 0 <= i < 6 ==> Digit(w, i) < 32
  {
    RawPack(w);
  }

  lemma RawPack(w: bv30)
    ensures
      var ab := ((((w >> 25) & 31) & 0x1FFFFFF) << 5) ^ ((w >> 20) & 31);
      var abc := ((ab & 0x1FFFFFF) << 5) ^ ((w >> 15) & 31);
      var abcd := ((abc & 0x1FFFFFF) << 5) ^ ((w >> 10) & 31);
      var abcde := ((abcd & 0x1FFFFFF) << 5) ^ ((w >> 5) & 31);
      ((abcde & 0x1FFFFFF) << 5) ^ (w & 31) == w
    ensures (w >> 25) & 31 < 32 && (w >> 20) & 31 < 32 && (w >> 15) & 31 < 32
    ensures (w >> 10) & 31 < 32 && (w >> 5) & 31 < 32 && w & 31 < 32
  {
  }

  lemma RawDigits(a: bv30, b: bv30, c: bv30, d: bv30, e: bv30, f: bv30)
    requires a < 32 && b < 32 && c < 32 && d < 32 && e < 32 && f < 32
    ensures
      var ab := ((a & 0x1FFFFFF) << 5) ^ b;
      var abc := ((ab & 0x1FFFFFF) << 5) ^ c;
      var abcd := ((abc & 0x1FFFFFF) << 5) ^ d;
      var abcde := ((abcd & 0x1FFFFFF) << 5) ^ e;
      var w := ((abcde & 0x1FFFFFF) << 5) ^ f;
      && (w >> 25) & 31 == a && (w >> 20) & 31 == b && (w >> 15) & 31 == c
      && (w >> 10) & 31 == d && (w >> 5) & 31 == e && w & 31 == f
  {
  }

  lemma DigitsPack(a: bv30, b: bv30, c: bv30, d: bv30, e: bv30, f: bv30)
    requires a < 32 && b < 32 && c < 32 && d < 32 && e < 32 && f < 32
    ensures var w := Pack(a, b, c, d, e, f);
      && Digit(w, 0) == a && Digit(w, 1) == b && Digit(w, 2) == c
      && Digit(w, 3) == d && Digit(w, 4) == e && Digit(w, 5) == f
  {
    RawDigits(a, b, c, d, e, f);
  }

  lemma UnpackPack(s: seq<bv30>)
    requires SixSymbols(s)
    ensures Unpack(PackSeq(s)) == s
  {
    assert IsSymbol(s[0]) && IsSymbol(s[1]) && IsSymbol(s[2]) && IsSymbol(s[3]) && IsSymbol(s[4]) && IsSymbol(s[5]);
    DigitsPack(s[0], s[1], s[2], s[3], s[4], s[5]);
    hide Pack, Digit, IsSymbol;
  }

  lemma PackUnpack(w: bv30)
    ensures SixSymbols(Unpack(w)) && PackSeq(Unpack(w)) == w
  {
    PackDigits(w);
    hide Pack, Digit;
  }

  const ZEROS: seq<bv30> := [0, 0, 0, 0, 0, 0]

  lemma SixSteps(c: bv30, s: seq<bv30>)
    requires |s| == 6
    ensures PolymodFrom(c, s) == Step(Step(Step(Step(Step(Step(c, s[0]), s[1]), s[2]), s[3]), s[4]), s[5])
  {
    hide Step;
    var c1 := Step(c, s[0]);
    var c2 := Step(c1, s[1]);
    var c3 := Step(c2, s[2]);
    var c4 := Step(c3, s[3]);
    var c5 := Step(c4, s[4]);
    assert PolymodFrom(c1, s[1..]) == PolymodFrom(c2, s[2..]) by { assert s[1..][1..] == s[2..]; }
    assert PolymodFrom(c2, s[2..]) == PolymodFrom(c3, s[3..]) by { assert s[2..][1..] == s[3..]; }
    assert PolymodFrom(c3, s[3..]) == PolymodFrom(c4, s[4..]) by { assert s[3..][1..] == s[4..]; }
    assert PolymodFrom(c4, s[4..]) == PolymodFrom(c5, s[5..]) by { assert s[4..][1..] == s[5..]; }
    assert PolymodFrom(c5, s[5..]) == Step(c5, s[5]) by { assert s[5..][1..] == []; }
  }

  lemma {:induction false} NoFeedback(i: nat)
    requires i <= 5
    ensures Feedback(0, i) == 0
  {
    hide Plus;
    PlusLaws(0, 0, 0);
    if i > 0 {
      NoFeedback(i - 1);
    }
  }

  /** A state whose top symbol is zero is only shifted. */
  lemma PlainStep(c: bv30, v: bv30)
    requires Top(c) == 0
    ensures Step(c, v) == Next(c, v)
  {
    hide Feedback, Plus, Shift, Top;
    NoFeedback(5);
    PlusLaws(Plus(Shift(c), v), 0, 0);
  }

  /** From state 0 six symbols are not reduced: they are shifted in whole. */
  lemma SixFromZero(s: seq<bv30>)
    requires SixSymbols(s)
    ensures PolymodFrom(0, s) == PackSeq(s)
  {
    assert IsSymbol(s[0]) && IsSymbol(s[1]) && IsSymbol(s[2]) && IsSymbol(s[3]) && IsSymbol(s[4]) && IsSymbol(s[5]);
    SixShifts(s[0], s[1], s[2], s[3], s[4], s[5]);
    SixSteps(0, s);
    hide Step, Pack;
  }

  lemma SixShifts(a: bv30, b: bv30, c: bv30, d: bv30, e: bv30, f: bv30)
    requires a < 32 && b < 32 && c < 32 && d < 32 && e < 32 && f < 32
    ensures Step(Step(Step(Step(Step(Step(0, a), b), c), d), e), f) == Pack(a, b, c, d, e, f)
  {
    SmallTops(a, b, c, d, e);
    hide Step, Top, Next, Pack;
    PlainStep(0, a);
    PlainStep(a, b);
    PlainStep(Next(a, b), c);
    PlainStep(Next(Next(a, b), c), d);
    PlainStep(Next(Next(Next(a, b), c), d), e);
    PlainStep(Next(Next(Next(Next(a, b), c), d), e), f);
  }

  lemma SmallTops(a: bv30, b: bv30, c: bv30, d: bv30, e: bv30)
    requires a < 32 && b < 32 && c < 32 && d < 32 && e < 32
    ensures Next(0, a) == a && Top(0) == 0 && Top(a) == 0 && Top(Next(a, b)) == 0
    ensures Top(Next(Next(a, b), c)) == 0 && Top(Next(Next(Next(a, b), c), d)) == 0
    ensures Top(Next(Next(Next(Next(a, b), c), d), e)) == 0
  {
    RawTops(a, b, c, d, e);
  }

  lemma RawTops(a: bv30, b: bv30, c: bv30, d: bv30, e: bv30)
    requires a < 32 && b < 32 && c < 32 && d < 32 && e < 32
    ensures
      var ab := ((a & 0x1FFFFFF) << 5) ^ b;
      var abc := ((ab & 0x1FFFFFF) << 5) ^ c;
      var abcd := ((abc & 0x1FFFFFF) << 5) ^ d;
      var abcde := ((abcd & 0x1FFFFFF) << 5) ^ e;
      a >> 25 == 0 && ab >> 25 == 0 && abc >> 25 == 0 && abcd >> 25 == 0 && abcde >> 25 == 0
    ensures ((0 as bv30 & 0x1FFFFFF) << 5) ^ a == a
  {
  }

  /** Reading six symbols adds their packing to what reading zeros gives. */
  lemma SixAdded(p: bv30, s: seq<bv30>)
    requires SixSymbols(s)
    ensures PolymodFrom(p, s) == Plus(PolymodFrom(p, ZEROS), PackSeq(s))
  {
    PolymodLinear(p, 0, ZEROS, s);
    SixFromZero(s);
    PlusLaws(p, 0, 0);
    SumZeros(s);
    hide Step, PolymodFrom, PackSeq, Plus;
  }

  lemma SumZeros(s: seq<bv30>)
    requires |s| == 6
    ensures Sum(ZEROS, s) == s
  {
    forall i | 0 <= i < 6 ensures Plus(ZEROS[i], s[i]) == s[i] { PlusLaws(s[i], 0, 0); }
    hide Plus;
  }

  /** Exactly one choice of six symbols completes a state to a given checksum. */
  lemma UniqueCompletion(p: bv30, s: seq<bv30>, target: bv30)
    requires SixSymbols(s)
    ensures PolymodFrom(p, s) == target <==> s == Unpack(Plus(PolymodFrom(p, ZEROS), target))
  {
    var z := PolymodFrom(p, ZEROS);
    hide PolymodFrom, PackSeq, Plus, Unpack;
    SixAdded(p, s);
    if PolymodFrom(p, s) == target {
      PlusUndo(z, PackSeq(s));
      UnpackPack(s);
    }
    if s == Unpack(Plus(z, target)) {
      PackUnpack(Plus(z, target));
      PlusUndo(z, target);
    }
  }

  lemma PlusUndo(a: bv30, b: bv30)
    ensures Plus(a, Plus(a, b)) == b
  {
  }

  // ----- burst errors

  /** Words of the same length that differ only in `[k, k + 6)`, in symbols. */
  ghost predicate DifferInWindow(a: seq<bv30>, b: seq<bv30>, k: nat) {
    && |a| == |b| && k + 6 <= |a|
    && a[..k] == b[..k] && a[k + 6..] == b[k + 6..]
    && SixSymbols(a[k..k + 6]) && SixSymbols(b[k..k + 6])
  }

  lemma Split(a: seq<bv30>, k: nat)
    requires k + 6 <= |a|
    ensures Polymod(a) == PolymodFrom(PolymodFrom(PolymodFrom(1, a[..k]), a[k..k + 6]), a[k + 6..])
    ensures a == a[..k] + a[k..k + 6] + a[k + 6..]
  {
    hide Step;
    assert a == a[..k] + (a[k..k + 6] + a[k + 6..]);
    PolymodConcat(1, a[..k], a[k..k + 6] + a[k + 6..]);
    PolymodConcat(PolymodFrom(1, a[..k]), a[k..k + 6], a[k + 6..]);
  }

  /** No error confined to six consecutive symbols escapes the checksum,
      however long the word. */
  lemma BurstDetected(a: seq<bv30>, b: seq<bv30>, k: nat)
    requires DifferInWindow(a, b, k) && Polymod(a) == Polymod(b)
    ensures a == b
  {
    hide PolymodFrom, Polymod, PackSeq, Plus, SixSymbols, Unpack;
    Split(a, k);
    Split(b, k);
    var p := PolymodFrom(1, a[..k]);
    var wa, wb := a[k..k + 6], b[k..k + 6];
    PolymodInjective(PolymodFrom(p, wa), PolymodFrom(p, wb), a[k + 6..]);
    UniqueCompletion(p, wa, PolymodFrom(p, wa));
    UniqueCompletion(p, wb, PolymodFrom(p, wa));
  }

  /** Six is the best possible: the generator polynomial itself is a window of
      seven symbols whose error goes unnoticed, in every word and anywhere. */
  const UNNOTICED: seq<bv30> := [1, 29, 22, 20, 21, 29, 18]

  lemma UnnoticedIsZero()
    ensures PolymodFrom(0, UNNOTICED) == 0
  {
    var tail: seq<bv30> := [29, 22, 20, 21, 29, 18];
    assert UNNOTICED[1..] == tail;
    PlainStep(0, 1);
    assert Step(0, 1) == 1;
    SixAdded(1, tail);
    ShiftOutOne();
    hide Step;
    assert PackSeq(tail) == 0x3B6A57B2;
  }

  lemma ShiftOutOne()
    ensures PolymodFrom(1, ZEROS) == 0x3B6A57B2
  {
    SixSteps(1, ZEROS);
    PlainStep(1, 0);
    PlainStep(0x20, 0);
    PlainStep(0x400, 0);
    PlainStep(0x8000, 0);
    PlainStep(0x100000, 0);
    FeedbackExplicit(1);
    assert Step(0x2000000, 0) == 0x3B6A57B2 by {
      hide Feedback;
    }
    hide Step;
  }

  lemma SevenEscape(prefix: seq<bv30>, window: seq<bv30>, suffix: seq<bv30>)
    requires |window| == 7
    ensures Polymod(prefix + (Sum(window, UNNOTICED) + suffix)) == Polymod(prefix + (window + suffix))
    ensures Sum(window, UNNOTICED)[0] != window[0]
  {
    var p := PolymodFrom(1, prefix);
    assert Plus(window[0], 1) != window[0];
    UnnoticedIsZero();
    PolymodLinear(p, 0, window, UNNOTICED);
    PlusLaws(p, 0, 0);
    PlusLaws(PolymodFrom(p, window), 0, 0);
    hide PolymodFrom, Plus;
    PolymodConcat(1, prefix, Sum(window, UNNOTICED) + suffix);
    PolymodConcat(1, prefix, window + suffix);
    PolymodConcat(p, Sum(window, UNNOTICED), suffix);
    PolymodConcat(p, window, suffix);
  }
}
