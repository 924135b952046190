/** The four simulations of the program: BCD addition and subtraction,
    Excess-3 addition and subtraction (simulacion.cpp:227-548), with the
    two numbers read from the console taken as parameters and the narration
    left out. Each one returns the code it ends with and the decimal result
    it compares against the integer arithmetic. */
module Simulations {
  import opened BitStrings
  import opened DecimalCodes
  import opened Aligner
  import opened DigitAdders
  import opened BcdArithmetic
  import opened Excess3Arithmetic

  /** A number of `enc / 4` digits still fits after one more group has been
      put in front of it and it has been padded to `padded / 4` groups. */
  lemma {:induction false} FitsInPadded(n: nat, enc: int, padded: int)
    requires enc % 4 == 0 && padded % 4 == 0 && 0 <= enc && enc + 4 <= padded && n < Pow10(enc / 4)
    ensures padded >= 4 && n < Pow10(padded / 4 - 1)
  {
    Multiples4(padded, 4);
    Multiples4(padded - 4, enc);
    Pow10Monotone(enc / 4, padded / 4 - 1);
  }

  /** One operand after the opening every simulation shares: the number
      encoded, the group for decimal 0 put in front of it to hold the final
      carry, and groups for decimal 0 put in front until it is as long as
      the other operand. It stands for the number, and the number is below
      10^(k-1) for a code of k groups. */
  function Operand(e: Encoding, n: nat, other: nat): (r: seq<Bit>)
    ensures |r| >= 4
  {
    var x, y := ZeroGroup(e) + Encode(e, n), ZeroGroup(e) + Encode(e, other);
    Repeat(ZeroGroup(e), PadCount(x, y)) + x
  }

  /** Padding a string of whole groups with copies of a group up to the
      length of another string of whole groups. */
  lemma {:induction false} PaddedGroups(z: seq<Bit>, x: seq<Bit>, y: seq<Bit>)
    requires |z| == 4 && IsGroups(x) && IsGroups(y)
    ensures |Repeat(z, PadCount(x, y)) + x| == Max(|x|, |y|)
  {
    Multiples4(|y|, |x|);
    WholeGroups(|y| - |x|);
  }

  /** An operand is one group longer than the longer of the two encodings. */
  lemma {:induction false} OperandLength(e: Encoding, n: nat, other: nat)
    ensures IsGroups(Operand(e, n, other))
    ensures |Operand(e, n, other)| == Max(|Encode(e, n)|, |Encode(e, other)|) + 4
  {
    var z := ZeroGroup(e);
    var en, eo := Encode(e, n), Encode(e, other);
    var x, y := z + en, z + eo;
    Multiples4(4, |en|);
    Multiples4(4, |eo|);
    assert Operand(e, n, other) == Repeat(z, PadCount(x, y)) + x;
    PaddedGroups(z, x, y);
  }

  lemma {:induction false} OperandCode(e: Encoding, n: nat, other: nat)
    ensures ValidCode(Operand(e, n, other), e) && CodeValue(Operand(e, n, other), e) == n
    ensures |Operand(e, n, other)| == |Operand(e, other, n)|
    ensures n < Pow10(|Operand(e, n, other)| / 4 - 1)
  {
    var z := ZeroGroup(e);
    var en := Encode(e, n);
    var x, y := z + en, z + Encode(e, other);
    var r := Operand(e, n, other);
    OperandLength(e, n, other);
    OperandLength(e, other, n);
    Multiples4(4, |en|);
    assert r == Repeat(z, PadCount(x, y)) + x;
    ZeroPadding(e, PadCount(x, y), x);
    EncodeRoundTrip(e, n);
    FitsInPadded(n, |en|, |r|);
    assert Repeat(z, 1) == z;
    ZeroPadding(e, 1, en);
  }

  /** decimal_a_bcd or decimal_a_exceso3, as the encoding asks. */
  method EncodeNumber(e: Encoding, n: nat) returns (r: seq<Bit>)
    ensures r == Encode(e, n)
  {
    if e == Bcd {
      r := DecimalToBcd(n);
    } else {
      r := DecimalToExcess3(n);
    }
  }

  /** The opening every simulation shares, for both numbers: decimal_a_bcd
      or decimal_a_exceso3, the group for decimal 0 put in front of each,
      and pad_numeros with that group. */
  method PrepareOperands(e: Encoding, num1: nat, num2: nat) returns (a: seq<Bit>, b: seq<Bit>)
    ensures a == Operand(e, num1, num2) && b == Operand(e, num2, num1)
  {
    a := EncodeNumber(e, num1);
    b := EncodeNumber(e, num2);
    var zero := ZeroGroup(e);
    Multiples4(4, |a|);
    Multiples4(4, |b|);
    a := zero + a;
    b := zero + b;
    ghost var x, y := a, b;
    assert IsGroups(x) && IsGroups(y);
    a, b := PadNumbers(a, b, zero);
    AlignTo4Shape(x);
    AlignTo4Shape(y);
  }

  /** The two operands of a simulation are valid codes of the same number
      of groups k that stand for the two numbers, both below 10^(k-1). */
  lemma {:induction false} OperandPair(e: Encoding, num1: nat, num2: nat)
    ensures var a, b := Operand(e, num1, num2), Operand(e, num2, num1);
            ValidCode(a, e) && ValidCode(b, e) && |a| == |b| && |a| >= 4
            && CodeValue(a, e) == num1 && CodeValue(b, e) == num2
            && num1 < Pow10(|a| / 4 - 1) && num2 < Pow10(|a| / 4 - 1)
  {
    OperandCode(e, num1, num2);
    OperandCode(e, num2, num1);
  }

  /** An addition whose true total fits below 10^k leaves no carry. */
  lemma {:induction false} NoCarry(v: int, carry: int, p: int, total: int)
    requires 0 <= v && 0 <= carry <= 1 && v + carry * p == total && 0 <= total < p
    ensures carry == 0 && v == total
  {
  }

  /** Two numbers below 10^(k-1) add up to less than 10^k. */
  lemma {:induction false} SumFits(x: int, y: int, k: nat)
    requires k >= 1 && 0 <= x < Pow10(k - 1) && 0 <= y < Pow10(k - 1)
    ensures x + y < Pow10(k)
  {
    Pow10Next(k - 1);
  }

  /** Adding x and the nines' complement of y plus one, in k digits: the
      carry out says whether x >= y, and the k digits hold x - y, or
      10^k + x - y when y is larger. */
  lemma {:induction false} BorrowCases(v: int, carry: int, p: int, x: int, y: int)
    requires 0 <= v < p && 0 <= carry <= 1 && 0 <= x < p && 0 <= y < p
    requires v + carry * p == x + (p - 1 - y) + 1
    ensures carry == 1 <==> x >= y
    ensures carry == 1 ==> v == x - y
    ensures carry == 0 ==> v == p + x - y
  {
  }

  /** simular_suma_bcd: the BCD sum of the two numbers; the extra leading
      group takes the carry, so none is left over, and the result is the
      integer sum. */
  method SimulateBcdAddition(num1: nat, num2: nat) returns (sum: seq<Bit>, carry: int, result: int)
    ensures ValidCode(sum, Bcd) && carry == 0
    ensures CodeValue(sum, Bcd) == num1 + num2 && result == num1 + num2
  {
    var a, b := PrepareOperands(Bcd, num1, num2);
    OperandPair(Bcd, num1, num2);
    carry := 0;
    sum, carry := AddBcd(a, b, carry);
    CodeValueBound(sum, Bcd);
    SumFits(num1, num2, |a| / 4);
    NoCarry(CodeValue(sum, Bcd), carry, Pow10(|a| / 4), num1 + num2);
    result := BcdToDecimal(sum);
  }

  /** uno_bcd: '0' characters followed by the group 0001 make the BCD code
      for 1. */
  lemma {:induction false} BcdOne(len: nat)
    requires len % 4 == 0
    ensures ValidCode(Zeros(len) + "0001", Bcd) && CodeValue(Zeros(len) + "0001", Bcd) == 1
    ensures |Zeros(len) + "0001"| == len + 4
  {
    WholeGroups(len);
    ZerosAreZeroGroups(len / 4);
    BinToInt4("0001");
    OneCode(Bcd, len / 4, "0001");
  }

  /** Adding uno_bcd, the BCD code for 1 of the same length, with no carry
      in. */
  method IncrementBcd(s: seq<Bit>) returns (r: seq<Bit>, carry: int)
    requires ValidCode(s, Bcd) && |s| >= 4
    ensures ValidCode(r, Bcd) && |r| == |s| && 0 <= carry <= 1
    ensures CodeValue(r, Bcd) + carry * Pow10(|s| / 4) == CodeValue(s, Bcd) + 1
  {
    var len := |s| - 4;
    var one := Zeros(len) + "0001";
    Multiples4(|s|, 4);
    BcdOne(len);
    carry := 0;
    r, carry := AddBcd(s, one, carry);
    assert |r| == |s|;
  }

  /** The recomplement step of simular_resta_bcd: the nines' complement of
      `s` plus the BCD code for 1. It is the ten's complement: 10^k - s,
      with the carry out worth 10^k. */
  method TensComplementBcd(s: seq<Bit>) returns (r: seq<Bit>, carry: int)
    requires ValidCode(s, Bcd) && |s| >= 4
    ensures ValidCode(r, Bcd) && |r| == |s| && 0 <= carry <= 1
    ensures CodeValue(r, Bcd) + carry * Pow10(|s| / 4) == Pow10(|s| / 4) - CodeValue(s, Bcd)
  {
    var c9 := NinesComplementBcd(s);
    r, carry := IncrementBcd(c9);
  }

  /** The first step of simular_resta_bcd, A - B as A + C9(B) + 1: the
      nines' complement of `b` added to `a` with a carry in of 1. */
  method AddComplementBcd(a: seq<Bit>, b: seq<Bit>) returns (sum: seq<Bit>, carry: int)
    requires ValidCode(a, Bcd) && ValidCode(b, Bcd) && |a| == |b|
    ensures ValidCode(sum, Bcd) && |sum| == |a| && 0 <= carry <= 1
    ensures CodeValue(sum, Bcd) + carry * Pow10(|a| / 4)
            == CodeValue(a, Bcd) + (Pow10(|a| / 4) - 1 - CodeValue(b, Bcd)) + 1
  {
    var c9b := NinesComplementBcd(b);
    carry := 1;
    sum, carry := AddBcd(a, c9b, carry);
    assert |sum| == |a|;
  }

  /** simular_resta_bcd: A + C9(B) + 1. A carry out means A >= B and the
      sum is the difference; no carry means the sum holds the ten's
      complement of B - A, and its nines' complement plus one is the
      magnitude, shown with a minus sign. */
  method SimulateBcdSubtraction(num1: nat, num2: nat) returns (magnitude: seq<Bit>, carry: int, result: int)
    ensures 0 <= carry <= 1 && (carry == 1 <==> num1 >= num2)
    ensures ValidCode(magnitude, Bcd)
    ensures CodeValue(magnitude, Bcd) == if num1 >= num2 then num1 - num2 else num2 - num1
    ensures result == num1 - num2
  {
    var a, b := PrepareOperands(Bcd, num1, num2);
    OperandPair(Bcd, num1, num2);
    ghost var p := Pow10(|a| / 4);
    Pow10Monotone(|a| / 4 - 1, |a| / 4);
    var partial;
    partial, carry := AddComplementBcd(a, b);
    ghost var vp := CodeValue(partial, Bcd);
    CodeValueBound(partial, Bcd);
    BorrowCases(vp, carry, p, num1, num2);
    if carry == 1 {
      magnitude := partial;
      result := BcdToDecimal(magnitude);
    } else {
      var carryRecomp;
      magnitude, carryRecomp := TensComplementBcd(partial);
      ghost var vm := CodeValue(magnitude, Bcd);
      CodeValueBound(magnitude, Bcd);
      NoCarry(vm, carryRecomp, p, num2 - num1);
      var v := BcdToDecimal(magnitude);
      result := -v;
    }
  }

  /** simular_suma_exceso3: the Excess-3 sum of the two numbers, with the
      same extra leading group as the BCD sum. */
  method SimulateExcess3Addition(num1: nat, num2: nat) returns (sum: seq<Bit>, carry: int, result: int)
    ensures ValidCode(sum, Excess3) && carry == 0
    ensures CodeValue(sum, Excess3) == num1 + num2 && result == num1 + num2
  {
    var a, b := PrepareOperands(Excess3, num1, num2);
    OperandPair(Excess3, num1, num2);
    carry := 0;
    sum, carry := AddExcess3(a, b, carry);
    CodeValueBound(sum, Excess3);
    SumFits(num1, num2, |a| / 4);
    NoCarry(CodeValue(sum, Excess3), carry, Pow10(|a| / 4), num1 + num2);
    result := Excess3ToDecimal(sum);
  }

  /** The first step of simular_resta_exceso3, A - B as A + C9(B) + 1: the
      bits of `b` inverted (its nines' complement) and added to `a` with a
      carry in of 1. */
  method AddComplementExcess3(a: seq<Bit>, b: seq<Bit>) returns (sum: seq<Bit>, carry: int)
    requires ValidCode(a, Excess3) && ValidCode(b, Excess3) && |a| == |b|
    ensures ValidCode(sum, Excess3) && |sum| == |a| && 0 <= carry <= 1
    ensures CodeValue(sum, Excess3) + carry * Pow10(|a| / 4)
            == CodeValue(a, Excess3) + (Pow10(|a| / 4) - 1 - CodeValue(b, Excess3)) + 1
  {
    var c9b := InvertBits(b);
    InvertedExcess3(b);
    carry := 1;
    sum, carry := AddExcess3(a, c9b, carry);
    assert |sum| == |a|;
  }

  /** simular_resta_exceso3 as the program has it: A + C9(B) + 1 with the
      nines' complement taken by inverting the bits. With a carry the
      result is A - B; without one the program inverts the sum and stops,
      which gives B - A - 1 as the magnitude, so the result for A < B is
      A - B + 1. */
  method SimulateExcess3Subtraction(num1: nat, num2: nat) returns (magnitude: seq<Bit>, carry: int, result: int)
    ensures 0 <= carry <= 1 && (carry == 1 <==> num1 >= num2)
    ensures ValidCode(magnitude, Excess3)
    ensures num1 >= num2 ==> CodeValue(magnitude, Excess3) == num1 - num2 && result == num1 - num2
    ensures num1 < num2 ==> CodeValue(magnitude, Excess3) == num2 - num1 - 1 && result == num1 - num2 + 1
  {
    var a, b := PrepareOperands(Excess3, num1, num2);
    OperandPair(Excess3, num1, num2);
    ghost var p := Pow10(|a| / 4);
    Pow10Monotone(|a| / 4 - 1, |a| / 4);
    var sum;
    sum, carry := AddComplementExcess3(a, b);
    ghost var vs := CodeValue(sum, Excess3);
    CodeValueBound(sum, Excess3);
    BorrowCases(vs, carry, p, num1, num2);
    if carry == 1 {
      magnitude := sum;
      result := Excess3ToDecimal(magnitude);
    } else {
      magnitude := InvertBits(sum);
      InvertedExcess3(sum);
      var v := Excess3ToDecimal(magnitude);
      result := -v;
    }
  }

  /** The subtraction as written gets 5 - 7 wrong: it reports -1. */
  method Excess3SubtractionCounterexample() returns (result: int)
    ensures result == -1 && result != 5 - 7
  {
    var magnitude, carry;
    magnitude, carry, result := SimulateExcess3Subtraction(5, 7);
  }

  /** The step simular_resta_exceso3 leaves out: the bit inversion of `s`
      (its nines' complement) plus the Excess-3 code for 1, added with no
      carry in. It is the ten's complement: 10^k - s, with the carry out
      worth 10^k. */
  method TensComplementExcess3(s: seq<Bit>) returns (r: seq<Bit>, carry: int)
    requires ValidCode(s, Excess3) && |s| >= 4
    ensures ValidCode(r, Excess3) && |r| == |s| && 0 <= carry <= 1
    ensures CodeValue(r, Excess3) + carry * Pow10(|s| / 4) == Pow10(|s| / 4) - CodeValue(s, Excess3)
  {
    var inverted := InvertBits(s);
    InvertedExcess3(s);
    Multiples4(|inverted|, 4);
    var one := Repeat("0011", (|inverted| - 4) / 4) + "0100";
    assert "0011" == ZeroGroup(Excess3);
    BinToInt4("0100");
    OneCode(Excess3, (|inverted| - 4) / 4, "0100");
    WholeGroups(|inverted| - 4);
    carry := 0;
    r, carry := AddExcess3(inverted, one, carry);
  }

  /** simular_resta_exceso3 with the missing step: without a carry, the
      inverted sum is B - A - 1, and adding the Excess-3 code for 1 to it,
      as the BCD subtraction does, gives the magnitude B - A. */
  method SimulateExcess3SubtractionCorrected(num1: nat, num2: nat) returns (magnitude: seq<Bit>, carry: int, result: int)
    ensures 0 <= carry <= 1 && (carry == 1 <==> num1 >= num2)
    ensures ValidCode(magnitude, Excess3)
    ensures CodeValue(magnitude, Excess3) == if num1 >= num2 then num1 - num2 else num2 - num1
    ensures result == num1 - num2
  {
    var a, b := PrepareOperands(Excess3, num1, num2);
    OperandPair(Excess3, num1, num2);
    ghost var p := Pow10(|a| / 4);
    Pow10Monotone(|a| / 4 - 1, |a| / 4);
    var sum;
    sum, carry := AddComplementExcess3(a, b);
    ghost var vs := CodeValue(sum, Excess3);
    CodeValueBound(sum, Excess3);
    BorrowCases(vs, carry, p, num1, num2);
    if carry == 1 {
      magnitude := sum;
      result := Excess3ToDecimal(magnitude);
    } else {
      var carryRecomp;
      magnitude, carryRecomp := TensComplementExcess3(sum);
      ghost var vm := CodeValue(magnitude, Excess3);
      CodeValueBound(magnitude, Excess3);
      NoCarry(vm, carryRecomp, p, num2 - num1);
      var v := Excess3ToDecimal(magnitude);
      result := -v;
    }
  }
}
