/** The digit-serial adders shared by the BCD and the Excess-3 paths: one
    group of each operand and the incoming carry give one group of the sum
    and the outgoing carry, from the rightmost group to the leftmost
    (simulacion.cpp:141-207, 383-421, 474-512). */
module DigitAdders {
  import opened BitStrings
  import opened DecimalCodes

  /** The value of the group one digit position writes, and its carry. */
  datatype DigitSum = DigitSum(value: int, carry: int)

  /** The digit step of realizar_suma_bcd in closed form, for any two
      four-bit groups and a carry of 0 or 1: a decimal carry exactly when
      the binary sum reaches ten, and the sum less ten masked to four bits. */
  function BcdDigit(x: int, y: int, c: int): (d: DigitSum)
    ensures d.carry == 1 <==> x + y + c >= 10
    ensures 0 <= x + y + c < 26 ==> 0 <= d.value <= 15 && d.value + 10 * d.carry == x + y + c
  {
    var raw := x + y + c;
    if raw >= 10 then DigitSum((raw - 10) % 16, 1) else DigitSum(raw % 16, 0)
  }

  /** The digit step of the Excess-3 adders: a carry exactly when the binary
      sum exceeds 15, then 3 added back (carry) or taken off (no carry),
      masked to four bits by int_a_bin4. */
  function Excess3Digit(x: int, y: int, c: int): (d: DigitSum)
    ensures d.carry == 1 <==> x + y + c > 15
    ensures 3 <= x + y + c <= 28 ==> 0 <= d.value <= 15 && d.value + 10 * d.carry == x + y + c - 3
  {
    var raw := x + y + c;
    if raw > 15 then DigitSum((raw - 16 + 3) % 16, 1) else DigitSum((raw - 3) % 16, 0)
  }

  /** The digit step of the adder for `e`; whatever the groups, it carries
      0 or 1 and writes a value that int_a_bin4 keeps whole. */
  function AddDigit(e: Encoding, x: int, y: int, c: int): (d: DigitSum)
    ensures 0 <= d.carry <= 1 && 0 <= d.value < 16
  {
    match e
    case Bcd => BcdDigit(x, y, c)
    case Excess3 => Excess3Digit(x, y, c)
  }

  /** On two digits of `e` and a carry of 0 or 1 the step is decimal
      addition: it writes the digit (x + y + c) mod 10 in the code of `e` and
      carries exactly when the digit sum reaches ten. */
  lemma {:induction false} AddDigitCorrect(e: Encoding, x: int, y: int, c: int)
    requires IsDigitGroup(x, e) && IsDigitGroup(y, e) && 0 <= c <= 1
    ensures var d := AddDigit(e, x, y, c);
            IsDigitGroup(d.value, e) && (d.carry == 1 <==> (x - Bias(e)) + (y - Bias(e)) + c >= 10)
            && 0 <= d.carry <= 1
            && (d.value - Bias(e)) + 10 * d.carry == (x - Bias(e)) + (y - Bias(e)) + c
  {
  }

  /** The groups of the sum and the final carry. */
  datatype SumResult = SumResult(groups: seq<Bit>, carry: int)

  /** What the adders compute: the rightmost groups are added first and
      their carry goes into the groups to their left. */
  function GroupSum(e: Encoding, a: seq<Bit>, b: seq<Bit>, c: int): (r: SumResult)
    requires IsGroups(a) && |a| == |b|
    ensures |r.groups| == |a|
    decreases |a|
  {
    if |a| == 0 then SumResult([], c)
    else
      var k := |a| - 4;
      Multiples4(|a|, 4);
      var d := AddDigit(e, BinToInt(a[k..]), BinToInt(b[k..]), c);
      var high := GroupSum(e, a[..k], b[..k], d.carry);
      SumResult(high.groups + Bin4(d.value), high.carry)
  }

  /** One step of the right-to-left adder loop: if the groups written so
      far (`sum`) complete GroupSum of `a` and `b` to `whole`, then after
      writing the digit of their last group they complete GroupSum of the
      groups before it, taken with that digit's carry. */
  lemma {:induction false} GroupSumStep(e: Encoding, a: seq<Bit>, b: seq<Bit>, c: int,
                                        sum: seq<Bit>, whole: SumResult)
    requires IsGroups(a) && |a| == |b| && |a| >= 4
    requires whole == SumResult(GroupSum(e, a, b, c).groups + sum, GroupSum(e, a, b, c).carry)
    ensures IsGroups(a[..|a| - 4])
    ensures var d := AddDigit(e, BinToInt(a[|a| - 4..]), BinToInt(b[|a| - 4..]), c);
            whole == SumResult(GroupSum(e, a[..|a| - 4], b[..|a| - 4], d.carry).groups + (Bin4(d.value) + sum),
                               GroupSum(e, a[..|a| - 4], b[..|a| - 4], d.carry).carry)
  {
    Multiples4(|a|, 4);
    var k := |a| - 4;
    var d := AddDigit(e, BinToInt(a[k..]), BinToInt(b[k..]), c);
    var high := GroupSum(e, a[..k], b[..k], d.carry);
    assert high.groups + Bin4(d.value) + sum == high.groups + (Bin4(d.value) + sum);
  }

  /** The step of an adder loop that has just handled the groups to the
      right of position i: peeling group i off the prefix of i + 1 groups. */
  lemma {:induction false} GroupSumLoopStep(e: Encoding, a: seq<Bit>, b: seq<Bit>, i: nat, c: int,
                                            sum: seq<Bit>, whole: SumResult)
    requires 4 * (i + 1) <= |a| == |b| && IsGroups(a[..4 * (i + 1)])
    requires whole == SumResult(GroupSum(e, a[..4 * (i + 1)], b[..4 * (i + 1)], c).groups + sum,
                                GroupSum(e, a[..4 * (i + 1)], b[..4 * (i + 1)], c).carry)
    ensures IsGroups(a[..4 * i])
    ensures var d := AddDigit(e, BinToInt(a[4 * i..4 * i + 4]), BinToInt(b[4 * i..4 * i + 4]), c);
            whole == SumResult(GroupSum(e, a[..4 * i], b[..4 * i], d.carry).groups + (Bin4(d.value) + sum),
                               GroupSum(e, a[..4 * i], b[..4 * i], d.carry).carry)
  {
    PrefixSlices(a, i);
    PrefixSlices(b, i);
    GroupSumStep(e, a[..4 * (i + 1)], b[..4 * (i + 1)], c, sum, whole);
  }

  /** The prefix of i + 1 groups splits into the prefix of i groups and
      group i. */
  lemma {:induction false} PrefixSlices(a: seq<Bit>, i: nat)
    requires 4 * (i + 1) <= |a|
    ensures a[..4 * (i + 1)][..4 * i] == a[..4 * i] && a[..4 * (i + 1)][4 * i..] == a[4 * i..4 * i + 4]
  {
  }

  /** The last group of the sum: the step on the operands' last groups,
      behind the sum of the groups in front with the step's carry. */
  lemma {:induction false} SumLast(e: Encoding, a: seq<Bit>, b: seq<Bit>, c: int)
    requires IsGroups(a) && |a| == |b| && |a| > 0
    ensures IsGroups(a[..|a| - 4]) && |b[..|b| - 4]| == |a| - 4
    ensures var d := AddDigit(e, BinToInt(a[|a| - 4..]), BinToInt(b[|b| - 4..]), c);
            var high := GroupSum(e, a[..|a| - 4], b[..|b| - 4], d.carry);
            var r := GroupSum(e, a, b, c);
            r.carry == high.carry
            && (0 <= d.value < 16 ==>
                  (ValidCode(r.groups, e) <==> ValidCode(high.groups, e) && IsDigitGroup(d.value, e))
                  && CodeValue(r.groups, e) == 10 * CodeValue(high.groups, e) + (d.value - Bias(e)))
  {
    Multiples4(|a|, 4);
    var d := AddDigit(e, BinToInt(a[|a| - 4..]), BinToInt(b[|b| - 4..]), c);
    var high := GroupSum(e, a[..|a| - 4], b[..|b| - 4], d.carry);
    var g := Bin4(d.value);
    assert GroupSum(e, a, b, c).groups == high.groups + g;
    if 0 <= d.value < 16 {
      Bin4Small(d.value);
      CodeValueAppend(high.groups, g, e);
    }
  }

  lemma {:induction false} SumArithmetic(vr: int, hi: int, va: int, ha: int, vb: int, hb: int,
                                         carry: int, co: int, bigP: int, p: int,
                                         dr: int, da: int, db: int, c: int)
    requires hi + co * p == ha + hb + carry
    requires dr + 10 * carry == da + db + c
    requires vr == 10 * hi + dr && va == 10 * ha + da && vb == 10 * hb + db && bigP == 10 * p
    ensures vr + co * bigP == va + vb + c
  {
    assert co * bigP == 10 * (co * p);
  }

  /** Adding two valid codes of k groups with a carry-in of 0 or 1 gives a
      valid code of k groups and a carry of 0 or 1 with
      value(sum) + carry * 10^k == value(a) + value(b) + carry-in. */
  lemma {:induction false} GroupSumCorrect(e: Encoding, a: seq<Bit>, b: seq<Bit>, c: int)
    requires ValidCode(a, e) && ValidCode(b, e) && |a| == |b| && 0 <= c <= 1
    ensures var r := GroupSum(e, a, b, c);
            ValidCode(r.groups, e) && 0 <= r.carry <= 1
            && CodeValue(r.groups, e) + r.carry * Pow10(|a| / 4) == CodeValue(a, e) + CodeValue(b, e) + c
    decreases |a|
  {
    if |a| > 0 {
      var k := |a| - 4;
      var x, y := BinToInt(a[k..]), BinToInt(b[k..]);
      var ha, hb := a[..k], b[..k];
      assert IsGroups(ha) && |hb| == |ha| && ValidCode(ha, e) && ValidCode(hb, e)
             && IsDigitGroup(x, e) && IsDigitGroup(y, e) && k / 4 + 1 == |a| / 4
             && CodeValue(a, e) == 10 * CodeValue(ha, e) + (x - Bias(e))
             && CodeValue(b, e) == 10 * CodeValue(hb, e) + (y - Bias(e)) by {
        SplitLast(a, e);
        SplitLast(b, e);
      }
      var d := AddDigit(e, x, y, c);
      assert IsDigitGroup(d.value, e) && 0 <= d.carry <= 1
             && (d.value - Bias(e)) + 10 * d.carry == (x - Bias(e)) + (y - Bias(e)) + c by {
        AddDigitCorrect(e, x, y, c);
      }
      var high := GroupSum(e, ha, hb, d.carry);
      GroupSumCorrect(e, ha, hb, d.carry);
      var r := GroupSum(e, a, b, c);
      assert r.carry == high.carry && ValidCode(r.groups, e)
             && CodeValue(r.groups, e) == 10 * CodeValue(high.groups, e) + (d.value - Bias(e)) by {
        SumLast(e, a, b, c);
      }
      Pow10Next(k / 4);
      SumArithmetic(CodeValue(r.groups, e), CodeValue(high.groups, e), CodeValue(a, e), CodeValue(ha, e),
                    CodeValue(b, e), CodeValue(hb, e), d.carry, r.carry, Pow10(|a| / 4), Pow10(k / 4),
                    d.value - Bias(e), x - Bias(e), y - Bias(e), c);
    }
  }
}
