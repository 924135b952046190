/** BCD arithmetic: the digit-serial adder with its correction by six and
    the nines' complement (simulacion.cpp:141-222). */
module BcdArithmetic {
  import opened BitStrings
  import opened DecimalCodes
  import opened DigitAdders

  /** One digit position of realizar_suma_bcd: binary sum of the two groups
      and the carry, a binary carry above 15, and the correction by six when
      the sum is not a decimal digit. */
  method BcdDigitStep(x: int, y: int, carry: int) returns (group: seq<Bit>, carryNext: int)
    requires 0 <= x < 16 && 0 <= y < 16 && 0 <= carry <= 1
    ensures group == Bin4(BcdDigit(x, y, carry).value) && carryNext == BcdDigit(x, y, carry).carry
  {
    ghost var d := BcdDigit(x, y, carry);
    var partial := x + y + carry;
    var carryOut := 0;
    if partial > 15 {
      carryOut := 1;
      partial := partial - 16;
    }
    if partial > 9 || carryOut == 1 {
      var corrected := partial + 6;
      if corrected > 15 {
        carryNext := 1;
        corrected := corrected - 16;
      } else {
        carryNext := 0;
      }
      if carryOut == 1 {
        carryNext := 1;
      }
      assert corrected == d.value && carryNext == d.carry;
      group := IntToBin4(corrected);
    } else {
      carryNext := 0;
      assert partial == d.value && carryNext == d.carry;
      group := IntToBin4(partial);
    }
  }

  /** realizar_suma_bcd: adds two BCD strings of the same number of groups
      from the rightmost group to the leftmost, the carry going on from
      group to group; `carryIn` is the carry the caller passes in and
      `carry` the one it gets back. */
  method AddBcd(a: seq<Bit>, b: seq<Bit>, carryIn: int) returns (sum: seq<Bit>, carry: int)
    requires IsGroups(a) && |a| == |b| && 0 <= carryIn <= 1
    ensures SumResult(sum, carry) == GroupSum(Bcd, a, b, carryIn)
    ensures ValidCode(a, Bcd) && ValidCode(b, Bcd) ==>
              ValidCode(sum, Bcd) && 0 <= carry <= 1
              && CodeValue(sum, Bcd) + carry * Pow10(|a| / 4) == CodeValue(a, Bcd) + CodeValue(b, Bcd) + carryIn
  {
    sum := [];
    carry := carryIn;
    var groups := |a| / 4;
    WholeGroups(|a|);
    assert a[..4 * groups] == a && b[..4 * groups] == b;
    ghost var whole := GroupSum(Bcd, a, b, carryIn);
    assert whole == SumResult(whole.groups + sum, whole.carry);
    for i := groups downto 0
      invariant 4 * i <= |a| && IsGroups(a[..4 * i])
      invariant 0 <= carry <= 1
      invariant whole == SumResult(GroupSum(Bcd, a[..4 * i], b[..4 * i], carry).groups + sum,
                                   GroupSum(Bcd, a[..4 * i], b[..4 * i], carry).carry)
    {
      GroupSumLoopStep(Bcd, a, b, i, carry, sum, whole);
      var x, y := BinToInt(a[4 * i..4 * i + 4]), BinToInt(b[4 * i..4 * i + 4]);
      GroupBound(a[4 * i..4 * i + 4]);
      GroupBound(b[4 * i..4 * i + 4]);
      var group;
      group, carry := BcdDigitStep(x, y, carry);
      sum := group + sum;
    }
    assert a[..0] == [] && b[..0] == [];
    if ValidCode(a, Bcd) && ValidCode(b, Bcd) {
      GroupSumCorrect(Bcd, a, b, carryIn);
    }
  }

  /** complemento_a9_bcd as a value: every group g replaced by the four
      bits of 9 - g. */
  function NinesBcd(s: seq<Bit>): (r: seq<Bit>)
    requires IsGroups(s)
    ensures |r| == |s|
    decreases |s|
  {
    if |s| == 0 then []
    else
      Multiples4(|s|, 4);
      NinesBcd(s[..|s| - 4]) + Bin4(9 - BinToInt(s[|s| - 4..]))
  }

  /** The nines' complement works group by group: complementing a code with
      one more group at its right end appends that group's complement. */
  lemma {:induction false} NinesBcdAppend(h: seq<Bit>, g: seq<Bit>)
    requires IsGroups(h) && |g| == 4
    ensures IsGroups(h + g) && NinesBcd(h + g) == NinesBcd(h) + Bin4(9 - BinToInt(g))
  {
    Multiples4(|h|, 4);
    var s := h + g;
    assert s[..|s| - 4] == h && s[|s| - 4..] == g;
  }

  /** complemento_a9_bcd. */
  method NinesComplementBcd(s: seq<Bit>) returns (r: seq<Bit>)
    requires IsGroups(s)
    ensures r == NinesBcd(s)
    ensures ValidCode(s, Bcd) ==>
              ValidCode(r, Bcd) && CodeValue(r, Bcd) == Pow10(|s| / 4) - 1 - CodeValue(s, Bcd)
  {
    r := [];
    var i := 0;
    while i < |s|
      invariant 0 <= i <= |s| && i % 4 == 0
      invariant r == NinesBcd(s[..i])
    {
      Multiples4(|s|, i);
      var digit: int := BinToInt(s[i..i + 4]);
      var nine := 9 - digit;
      var g := IntToBin4(nine);
      assert s[..i + 4] == s[..i] + s[i..i + 4];
      NinesBcdAppend(s[..i], s[i..i + 4]);
      r := r + g;
      Multiples4(i, 4);
      i := i + 4;
    }
    assert s[..i] == s;
    if ValidCode(s, Bcd) {
      NinesBcdValue(s);
    }
  }

  /** The nines' complement of a valid BCD code of k groups is a valid BCD
      code of k groups that stands for 10^k - 1 minus the original value. */
  lemma {:induction false} NinesBcdValue(s: seq<Bit>)
    requires ValidCode(s, Bcd)
    ensures ValidCode(NinesBcd(s), Bcd) && CodeValue(NinesBcd(s), Bcd) == Pow10(|s| / 4) - 1 - CodeValue(s, Bcd)
    decreases |s|
  {
    if |s| > 0 {
      var k := |s| - 4;
      SplitLast(s, Bcd);
      var h := s[..k];
      var d: int := BinToInt(s[k..]);
      NinesBcdValue(h);
      var g := Bin4(9 - d);
      Bin4Small(9 - d);
      assert NinesBcd(s) == NinesBcd(h) + g;
      CodeValueAppend(NinesBcd(h), g, Bcd);
      Pow10Next(k / 4);
      ComplementStep(CodeValue(s, Bcd), CodeValue(h, Bcd), d, Pow10(k / 4));
    }
  }

  lemma {:induction false} NinesTwice(d: int, n: int)
    requires 0 <= d < 16 && n == (9 - d) % 16
    ensures (9 - n) % 16 == d % 16
  {
  }

  /** On one group, complementing twice gives the group back: 9 - (9 - g)
      is g again modulo 16. */
  lemma {:induction false} NinesGroupTwice(g: seq<Bit>)
    requires |g| == 4
    ensures Bin4(9 - BinToInt(Bin4(9 - BinToInt(g)))) == g
  {
    var d: int := BinToInt(g);
    GroupBound(g);
    Bin4Value(9 - d);
    var n: int := BinToInt(Bin4(9 - d));
    NinesTwice(d, n);
    Bin4Congruent(9 - n, d);
    Bin4OfBinToInt(g);
    assert Bin4(9 - n) == Bin4(d) == g;
  }

  /** Taking the nines' complement twice gives back any string of whole
      groups. */
  lemma {:induction false} NinesBcdInvolution(s: seq<Bit>)
    requires IsGroups(s)
    ensures NinesBcd(NinesBcd(s)) == s
    decreases |s|
  {
    if |s| > 0 {
      Multiples4(|s|, 4);
      var k := |s| - 4;
      var h, last := s[..k], s[k..];
      assert s == h + last;
      var g := Bin4(9 - BinToInt(last));
      assert NinesBcd(s) == NinesBcd(h) + g by {
        NinesBcdAppend(h, last);
      }
      var n := NinesBcd(h);
      assert IsGroups(n);
      assert NinesBcd(n + g) == NinesBcd(n) + Bin4(9 - BinToInt(g)) by {
        NinesBcdAppend(n, g);
      }
      assert NinesBcd(n) == h by {
        NinesBcdInvolution(h);
      }
      assert Bin4(9 - BinToInt(g)) == last by {
        NinesGroupTwice(last);
      }
    }
  }
}
