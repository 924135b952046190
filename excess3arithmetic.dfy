/** Excess-3 arithmetic: the digit-serial adder that the two Excess-3
    simulations run inline (simulacion.cpp:383-421 and 474-512), and the
    bit inversion that serves as the Excess-3 nines' complement
    (simulacion.cpp:41-47, 465). */
module Excess3Arithmetic {
  import opened BitStrings
  import opened DecimalCodes
  import opened DigitAdders

  /** One digit position of the Excess-3 adder: binary sum of the two groups
      and the carry; with a binary carry out the group takes +3, without one
      it takes -3. */
  method Excess3DigitStep(x: int, y: int, carry: int) returns (group: seq<Bit>, carryNext: int)
    requires 0 <= x < 16 && 0 <= y < 16 && 0 <= carry <= 1
    ensures group == Bin4(Excess3Digit(x, y, carry).value) && carryNext == Excess3Digit(x, y, carry).carry
  {
    ghost var d := Excess3Digit(x, y, carry);
    var partial := x + y + carry;
    if partial > 15 {
      carryNext := 1;
      partial := partial - 16;
    } else {
      carryNext := 0;
    }
    var corrected;
    if carryNext == 1 {
      corrected := partial + 3;
    } else {
      corrected := partial - 3;
    }
    Bin4Congruent(corrected, d.value);
    group := IntToBin4(corrected);
  }

  /** The Excess-3 adder loop: adds two Excess-3 strings of the same number
      of groups from the rightmost group to the leftmost, starting from
      `carryIn` (0 for the sum, 1 for the "+1" of the subtraction). */
  method AddExcess3(a: seq<Bit>, b: seq<Bit>, carryIn: int) returns (sum: seq<Bit>, carry: int)
    requires IsGroups(a) && |a| == |b| && 0 <= carryIn <= 1
    ensures SumResult(sum, carry) == GroupSum(Excess3, a, b, carryIn)
    ensures ValidCode(a, Excess3) && ValidCode(b, Excess3) ==>
              ValidCode(sum, Excess3) && 0 <= carry <= 1
              && CodeValue(sum, Excess3) + carry * Pow10(|a| / 4)
                 == CodeValue(a, Excess3) + CodeValue(b, Excess3) + carryIn
  {
    sum := [];
    carry := carryIn;
    var groups := |a| / 4;
    WholeGroups(|a|);
    assert a[..4 * groups] == a && b[..4 * groups] == b;
    ghost var whole := GroupSum(Excess3, a, b, carryIn);
    assert whole == SumResult(whole.groups + sum, whole.carry);
    for i := groups downto 0
      invariant 4 * i <= |a| && IsGroups(a[..4 * i])
      invariant 0 <= carry <= 1
      invariant whole == SumResult(GroupSum(Excess3, a[..4 * i], b[..4 * i], carry).groups + sum,
                                   GroupSum(Excess3, a[..4 * i], b[..4 * i], carry).carry)
    {
      GroupSumLoopStep(Excess3, a, b, i, carry, sum, whole);
      var x, y := BinToInt(a[4 * i..4 * i + 4]), BinToInt(b[4 * i..4 * i + 4]);
      GroupBound(a[4 * i..4 * i + 4]);
      GroupBound(b[4 * i..4 * i + 4]);
      var group;
      group, carry := Excess3DigitStep(x, y, carry);
      sum := group + sum;
    }
    assert a[..0] == [] && b[..0] == [];
    if ValidCode(a, Excess3) && ValidCode(b, Excess3) {
      GroupSumCorrect(Excess3, a, b, carryIn);
    }
  }

  /** Inversion works character by character, so it distributes over
      concatenation. */
  lemma {:induction false} InvertedConcat(a: seq<Bit>, b: seq<Bit>)
    ensures Inverted(a + b) == Inverted(a) + Inverted(b)
  {
    var l, r := Inverted(a + b), Inverted(a) + Inverted(b);
    forall i | 0 <= i < |l|
      ensures l[i] == r[i]
    {
      if i < |a| {
        assert (a + b)[i] == a[i];
      } else {
        assert (a + b)[i] == b[i - |a|];
      }
    }
  }

  /** Excess-3 is self-complementing: inverting the bits of a valid
      Excess-3 code of k groups gives a valid Excess-3 code that stands for
      10^k - 1 minus the original value, its nines' complement. */
  lemma {:induction false} InvertedExcess3(s: seq<Bit>)
    requires ValidCode(s, Excess3)
    ensures IsGroups(Inverted(s)) && ValidCode(Inverted(s), Excess3)
    ensures CodeValue(Inverted(s), Excess3) == Pow10(|s| / 4) - 1 - CodeValue(s, Excess3)
    decreases |s|
  {
    if |s| > 0 {
      var k := |s| - 4;
      SplitLast(s, Excess3);
      var h, last := s[..k], s[k..];
      InvertedExcess3(h);
      InvertedConcat(h, last);
      var v: int := BinToInt(last);
      InvertedValue(last);
      assert Pow2(4) == 16;
      var w: int := BinToInt(Inverted(last));
      assert w == 15 - v;
      CodeValueAppend(Inverted(h), Inverted(last), Excess3);
      Pow10Next(k / 4);
      ComplementStep(CodeValue(s, Excess3), CodeValue(h, Excess3), v - 3, Pow10(k / 4));
    }
  }
}
