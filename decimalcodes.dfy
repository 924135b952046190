/** Decimal digit codes: a non-negative number as a string of four-bit groups,
    one group per decimal digit, most significant digit first. BCD stores
    digit d as d, Excess-3 stores it as d + 3 (simulacion.cpp:49-101). */
module DecimalCodes {
  import opened BitStrings

  datatype Encoding = Bcd | Excess3

  /** What a group stores on top of its decimal digit. */
  function Bias(e: Encoding): nat {
    match e
    case Bcd => 0
    case Excess3 => 3
  }

  /** The group for decimal 0, the literal the program pads with. */
  function ZeroGroup(e: Encoding): (g: seq<Bit>)
    ensures |g| == 4 && BinToInt(g) == Bias(e)
  {
    var g := match e case Bcd => "0000" case Excess3 => "0011";
    BinToInt4(g);
    g
  }

  function Pow10(k: nat): (r: nat)
    ensures r >= 1
  {
    if k == 0 then 1 else 10 * Pow10(k - 1)
  }

  lemma {:induction false} Pow10Next(k: nat)
    ensures Pow10(k + 1) == 10 * Pow10(k)
  {
  }

  lemma {:induction false} Pow10Monotone(i: nat, j: nat)
    requires i <= j
    ensures Pow10(i) <= Pow10(j)
  {
    if i < j {
      Pow10Monotone(i, j - 1);
    }
  }

  // ---------------------------------------------------------------------
  // Decimal text: what to_string writes and what stoi reads

  predicate IsDigitText(t: seq<char>) {
    forall i :: 0 <= i < |t| ==> '0' <= t[i] <= '9'
  }

  /** `c - '0'`. */
  function CharDigit(c: char): (d: int)
    ensures '0' <= c <= '9' <==> 0 <= d <= 9
  {
    c as int - '0' as int
  }

  /** The character a stringstream writes for a one-digit value. */
  function DigitChar(d: int): (c: char)
    requires 0 <= d <= 9
    ensures '0' <= c <= '9' && CharDigit(c) == d
  {
    ('0' as int + d) as char
  }

  /** stoi on a string of decimal digits (leading zeros allowed). */
  function DecimalValue(t: seq<char>): (v: int)
    ensures IsDigitText(t) ==> v >= 0
  {
    if |t| == 0 then 0 else 10 * DecimalValue(t[..|t| - 1]) + CharDigit(t[|t| - 1])
  }

  lemma {:induction false} DecimalValueAppend(t: seq<char>, c: char)
    ensures DecimalValue(t + [c]) == 10 * DecimalValue(t) + CharDigit(c)
  {
    assert (t + [c])[..|t|] == t;
  }

  /** to_string of a non-negative int: its decimal digits, most significant
      first. */
  function DecimalText(n: nat): (t: seq<char>)
    ensures |t| >= 1
    decreases n
  {
    if n < 10 then [DigitChar(n)] else DecimalText(n / 10) + [DigitChar(n % 10)]
  }

  /** to_string writes digits only, reads back as the number, uses no more
      digits than needed and starts with '0' only for 0 itself. */
  lemma {:induction false} DecimalTextValue(n: nat)
    ensures IsDigitText(DecimalText(n)) && DecimalValue(DecimalText(n)) == n
    ensures n < Pow10(|DecimalText(n)|)
    ensures DecimalText(n)[0] == '0' <==> n == 0
    decreases n
  {
    if n >= 10 {
      var p, c := DecimalText(n / 10), DigitChar(n % 10);
      DecimalTextValue(n / 10);
      DecimalValueAppend(p, c);
      assert DecimalText(n) == p + [c];
      assert DecimalText(n)[0] == p[0];
    }
  }

  // ---------------------------------------------------------------------
  // Strings of digit groups

  /** Lengths that are whole numbers of groups stay so under sums and
      differences, and so do their group counts. */
  lemma {:induction false} Multiples4(x: int, y: int)
    requires x % 4 == 0 && y % 4 == 0
    ensures (x + y) % 4 == 0 && (x - y) % 4 == 0
    ensures (x + y) / 4 == x / 4 + y / 4 && (x - y) / 4 == x / 4 - y / 4
  {
    var p, q := x / 4, y / 4;
    assert x == 4 * p && y == 4 * q;
    assert x + y == 4 * (p + q) && x - y == 4 * (p - q);
  }

  lemma {:induction false} Quadruple(k: int)
    ensures (4 * k) % 4 == 0 && (4 * k) / 4 == k
  {
  }

  lemma {:induction false} WholeGroups(x: int)
    requires x % 4 == 0
    ensures 4 * (x / 4) == x
  {
  }

  /** A string of whole four-bit groups. */
  predicate IsGroups(s: seq<Bit>) {
    |s| % 4 == 0
  }

  /** The values of the four-bit groups of `s`, left to right. */
  function Nibbles(s: seq<Bit>): (r: seq<nat>)
    requires IsGroups(s)
    ensures 4 * |r| == |s|
    decreases |s|
  {
    if |s| == 0 then [] else Nibbles(s[..|s| - 4]) + [BinToInt(s[|s| - 4..])]
  }

  /** One value per group. */
  lemma {:induction false} NibblesLength(s: seq<Bit>)
    requires IsGroups(s)
    ensures |Nibbles(s)| == |s| / 4
    decreases |s|
  {
    if |s| > 0 {
      Multiples4(|s|, 4);
      NibblesLength(s[..|s| - 4]);
    }
  }

  lemma {:induction false} NibblesGroup(g: seq<Bit>)
    requires |g| == 4
    ensures Nibbles(g) == [BinToInt(g)]
  {
    assert g[..0] == [] && g[0..] == g;
  }

  /** Reading groups distributes over concatenation at a group boundary. */
  lemma {:induction false} NibblesConcat(a: seq<Bit>, b: seq<Bit>)
    requires IsGroups(a) && IsGroups(b)
    ensures IsGroups(a + b) && Nibbles(a + b) == Nibbles(a) + Nibbles(b)
    decreases |b|
  {
    Multiples4(|a|, |b|);
    if |b| == 0 {
      assert a + b == a;
    } else {
      var p := b[..|b| - 4];
      Multiples4(|b|, 4);
      Multiples4(|a|, |p|);
      assert (a + b)[..|a + b| - 4] == a + p;
      assert (a + b)[|a + b| - 4..] == b[|b| - 4..];
      NibblesConcat(a, p);
    }
  }

  /** The groups of `s` split at a group boundary i. */
  lemma {:induction false} NibblesSplit(s: seq<Bit>, i: nat)
    requires IsGroups(s) && i % 4 == 0 && i <= |s|
    ensures IsGroups(s[..i]) && IsGroups(s[i..])
    ensures Nibbles(s) == Nibbles(s[..i]) + Nibbles(s[i..])
  {
    Multiples4(|s|, i);
    assert s == s[..i] + s[i..];
    NibblesConcat(s[..i], s[i..]);
  }

  /** A group value that stands for a decimal digit under `e`. */
  predicate IsDigitGroup(v: int, e: Encoding) {
    Bias(e) <= v <= Bias(e) + 9
  }

  predicate AllDigits(v: seq<int>, e: Encoding) {
    forall k :: 0 <= k < |v| ==> IsDigitGroup(v[k], e)
  }

  /** Whole groups, every one of them a digit of `e`. */
  predicate ValidCode(s: seq<Bit>, e: Encoding) {
    IsGroups(s) && AllDigits(Nibbles(s), e)
  }

  /** The number a list of group values stands for: each value less the bias
      is one decimal digit, most significant first. */
  function DigitsValue(v: seq<int>, e: Encoding): (r: int)
  {
    if |v| == 0 then 0 else 10 * DigitsValue(v[..|v| - 1], e) + (v[|v| - 1] - Bias(e))
  }

  /** The number a string of groups stands for under `e`. */
  function CodeValue(s: seq<Bit>, e: Encoding): (v: int)
    requires IsGroups(s)
  {
    DigitsValue(Nibbles(s), e)
  }

  lemma {:induction false} ShiftDigits(hi: int, p: int, mid: int, lo: int)
    ensures 10 * (hi * p + mid) + lo == hi * (10 * p) + (10 * mid + lo)
  {
  }

  /** The digits in front count 10^k times as much as the k digits behind. */
  lemma {:induction false} DigitsValueConcat(u: seq<int>, v: seq<int>, e: Encoding)
    ensures DigitsValue(u + v, e) == DigitsValue(u, e) * Pow10(|v|) + DigitsValue(v, e)
    decreases |v|
  {
    if |v| == 0 {
      assert u + v == u;
    } else {
      var p, x := v[..|v| - 1], v[|v| - 1];
      assert (u + v)[..|u + v| - 1] == u + p;
      DigitsValueConcat(u, p, e);
      ShiftDigits(DigitsValue(u, e), Pow10(|p|), DigitsValue(p, e), x - Bias(e));
    }
  }

  /** k digits stand for a number in 0 .. 10^k - 1. */
  lemma {:induction false} DigitsValueBound(v: seq<int>, e: Encoding)
    requires AllDigits(v, e)
    ensures 0 <= DigitsValue(v, e) < Pow10(|v|)
  {
    if |v| > 0 {
      var p := v[..|v| - 1];
      assert AllDigits(p, e) by {
        forall k | 0 <= k < |p| ensures IsDigitGroup(p[k], e) {
          assert p[k] == v[k];
        }
      }
      DigitsValueBound(p, e);
      assert IsDigitGroup(v[|v| - 1], e);
    }
  }

  lemma {:induction false} AllDigitsConcat(u: seq<int>, v: seq<int>, e: Encoding)
    ensures AllDigits(u + v, e) <==> AllDigits(u, e) && AllDigits(v, e)
  {
    if AllDigits(u + v, e) {
      forall k | 0 <= k < |u| ensures IsDigitGroup(u[k], e) {
        assert u[k] == (u + v)[k];
      }
      forall k | 0 <= k < |v| ensures IsDigitGroup(v[k], e) {
        assert v[k] == (u + v)[|u| + k];
      }
    }
  }

  lemma {:induction false} ValidConcat(a: seq<Bit>, b: seq<Bit>, e: Encoding)
    requires IsGroups(a) && IsGroups(b)
    ensures IsGroups(a + b)
    ensures ValidCode(a + b, e) <==> ValidCode(a, e) && ValidCode(b, e)
  {
    NibblesConcat(a, b);
    AllDigitsConcat(Nibbles(a), Nibbles(b), e);
  }

  /** The groups left and right of a group boundary of a valid code are
      valid codes. */
  lemma {:induction false} ValidSplit(s: seq<Bit>, e: Encoding, i: nat)
    requires ValidCode(s, e) && i % 4 == 0 && i <= |s|
    ensures ValidCode(s[..i], e) && ValidCode(s[i..], e)
  {
    NibblesSplit(s, i);
    AllDigitsConcat(Nibbles(s[..i]), Nibbles(s[i..]), e);
  }

  /** A group in front adds its digit times 10^k to the value of the k groups
      behind it. */
  lemma {:induction false} CodeValuePrepend(g: seq<Bit>, s: seq<Bit>, e: Encoding)
    requires IsGroups(s) && |g| == 4
    ensures IsGroups(g + s)
    ensures CodeValue(g + s, e) == (BinToInt(g) - Bias(e)) * Pow10(|s| / 4) + CodeValue(s, e)
    ensures ValidCode(g + s, e) <==> IsDigitGroup(BinToInt(g), e) && ValidCode(s, e)
  {
    Multiples4(4, |s|);
    NibblesGroup(g);
    NibblesConcat(g, s);
    ValidConcat(g, s, e);
    DigitsValueConcat([BinToInt(g)], Nibbles(s), e);
    NibblesLength(s);
    assert DigitsValue([BinToInt(g)], e) == BinToInt(g) - Bias(e);
  }

  /** A group at the end: ten times the value in front, plus its digit. */
  lemma {:induction false} CodeValueAppend(s: seq<Bit>, g: seq<Bit>, e: Encoding)
    requires IsGroups(s) && |g| == 4
    ensures IsGroups(s + g)
    ensures CodeValue(s + g, e) == 10 * CodeValue(s, e) + (BinToInt(g) - Bias(e))
    ensures ValidCode(s + g, e) <==> ValidCode(s, e) && IsDigitGroup(BinToInt(g), e)
  {
    Multiples4(|s|, 4);
    NibblesGroup(g);
    NibblesConcat(s, g);
    ValidConcat(s, g, e);
    assert (Nibbles(s) + [BinToInt(g)])[..|Nibbles(s)|] == Nibbles(s);
  }

  /** A non-empty code is the code in front of its last group followed by
      that group. */
  lemma {:induction false} SplitLast(s: seq<Bit>, e: Encoding)
    requires IsGroups(s) && |s| > 0
    ensures IsGroups(s[..|s| - 4]) && |s[|s| - 4..]| == 4 && s == s[..|s| - 4] + s[|s| - 4..]
    ensures (|s| - 4) / 4 + 1 == |s| / 4
    ensures CodeValue(s, e) == 10 * CodeValue(s[..|s| - 4], e) + (BinToInt(s[|s| - 4..]) - Bias(e))
    ensures ValidCode(s, e) <==> ValidCode(s[..|s| - 4], e) && IsDigitGroup(BinToInt(s[|s| - 4..]), e)
  {
    Multiples4(|s|, 4);
    assert s == s[..|s| - 4] + s[|s| - 4..];
    CodeValueAppend(s[..|s| - 4], s[|s| - 4..], e);
  }

  /** A valid code of k groups stands for a number in 0 .. 10^k - 1. */
  lemma {:induction false} CodeValueBound(s: seq<Bit>, e: Encoding)
    requires ValidCode(s, e)
    ensures 0 <= CodeValue(s, e) < Pow10(|s| / 4)
  {
    DigitsValueBound(Nibbles(s), e);
    NibblesLength(s);
  }

  /** The digit arithmetic of a nines' complement: complementing the
      digits of 10h + d one by one gives 10^(k+1) - 1 - (10h + d) when
      complementing h gives 10^k - 1 - h. */
  lemma {:induction false} ComplementStep(v: int, h: int, d: int, p: int)
    requires v == 10 * h + d && p >= 1
    ensures 10 * (p - 1 - h) + (9 - d) == 10 * p - 1 - v
  {
  }

  /** A single group is a code of one digit. */
  lemma {:induction false} GroupCode(g: seq<Bit>, e: Encoding)
    requires |g| == 4
    ensures IsGroups(g)
    ensures ValidCode(g, e) <==> IsDigitGroup(BinToInt(g), e)
    ensures CodeValue(g, e) == BinToInt(g) - Bias(e)
  {
    assert [] + g == g;
    CodeValueAppend([], g, e);
  }

  /** Zero groups in front change neither validity nor value. */
  lemma {:induction false} ZeroPadding(e: Encoding, m: nat, s: seq<Bit>)
    requires IsGroups(s)
    ensures IsGroups(Repeat(ZeroGroup(e), m) + s)
    ensures ValidCode(Repeat(ZeroGroup(e), m) + s, e) <==> ValidCode(s, e)
    ensures CodeValue(Repeat(ZeroGroup(e), m) + s, e) == CodeValue(s, e)
  {
    var z := ZeroGroup(e);
    if m == 0 {
      assert Repeat(z, m) + s == s;
    } else {
      var rest := Repeat(z, m - 1) + s;
      Quadruple(m - 1);
      Multiples4(4 * (m - 1), |s|);
      ZeroPadding(e, m - 1, s);
      assert Repeat(z, m) + s == z + rest;
      CodeValuePrepend(z, rest, e);
      assert BinToInt(z) - Bias(e) == 0;
    }
  }
  /** A run of 4m '0' characters is m BCD zero groups. */
  lemma {:induction false} ZerosAreZeroGroups(m: nat)
    ensures Zeros(4 * m) == Repeat(ZeroGroup(Bcd), m)
  {
    if m > 0 {
      ZerosAreZeroGroups(m - 1);
      assert Zeros(4 * m) == ZeroGroup(Bcd) + Zeros(4 * (m - 1));
    }
  }

  /** Zero groups in front of the group for decimal 1: the code for 1. */
  lemma {:induction false} OneCode(e: Encoding, m: nat, g: seq<Bit>)
    requires |g| == 4 && BinToInt(g) == 1 + Bias(e)
    ensures IsGroups(Repeat(ZeroGroup(e), m) + g) && |Repeat(ZeroGroup(e), m) + g| == 4 * m + 4
    ensures ValidCode(Repeat(ZeroGroup(e), m) + g, e) && CodeValue(Repeat(ZeroGroup(e), m) + g, e) == 1
  {
    GroupCode(g, e);
    ZeroPadding(e, m, g);
  }


  // ---------------------------------------------------------------------
  // Number codecs

  /** The groups that the encoding loops write for decimal text `t`. */
  function EncodeText(e: Encoding, t: seq<char>): (r: seq<Bit>)
    ensures |r| == 4 * |t|
  {
    if |t| == 0 then [] else EncodeText(e, t[..|t| - 1]) + Bin4(CharDigit(t[|t| - 1]) + Bias(e))
  }

  /** decimal_a_bcd / decimal_a_exceso3 as a value. */
  function Encode(e: Encoding, n: nat): (r: seq<Bit>)
    ensures |r| == 4 * |DecimalText(n)| && IsGroups(r)
  {
    var t := DecimalText(n);
    var r := EncodeText(e, t);
    assert |r| == 4 * |t|;
    r
  }

  /** The group values that encoding decimal text writes. */
  function DigitValues(e: Encoding, t: seq<char>): (v: seq<int>)
    ensures |v| == |t|
  {
    if |t| == 0 then [] else DigitValues(e, t[..|t| - 1]) + [CharDigit(t[|t| - 1]) + Bias(e)]
  }

  /** One more group written behind whole groups adds its value behind theirs. */
  lemma NibblesAppendDigit(x: seq<Bit>, v: seq<int>, d: int)
    requires IsGroups(x) && Nibbles(x) == v && 0 <= d < 16
    ensures IsGroups(x + Bin4(d)) && Nibbles(x + Bin4(d)) == v + [d]
  {
    var g := Bin4(d);
    Bin4Small(d);
    NibblesGroup(g);
    NibblesConcat(x, g);
  }

  /** The groups encoding writes hold the digit values of the text. */
  lemma {:induction false} EncodeTextNibbles(e: Encoding, t: seq<char>)
    requires IsDigitText(t)
    ensures IsGroups(EncodeText(e, t)) && Nibbles(EncodeText(e, t)) == DigitValues(e, t)
  {
    if |t| == 0 {
      assert EncodeText(e, t) == [];
    } else {
      var p, c := t[..|t| - 1], t[|t| - 1];
      var d := CharDigit(c) + Bias(e);
      assert EncodeText(e, t) == EncodeText(e, p) + Bin4(d);
      assert DigitValues(e, t) == DigitValues(e, p) + [d];
      assert IsDigitText(p) && '0' <= c <= '9';
      EncodeTextNibbles(e, p);
      NibblesAppendDigit(EncodeText(e, p), DigitValues(e, p), d);
    }
  }

  /** The digit values of decimal text are digits of `e` and stand for the
      number the text stands for. */
  lemma {:induction false} DigitValuesValue(e: Encoding, t: seq<char>)
    requires IsDigitText(t)
    ensures AllDigits(DigitValues(e, t), e) && DigitsValue(DigitValues(e, t), e) == DecimalValue(t)
  {
    if |t| > 0 {
      var p, v := t[..|t| - 1], DigitValues(e, t);
      DigitValuesValue(e, p);
      assert v[..|t| - 1] == DigitValues(e, p);
      assert AllDigits(v, e) by {
        forall k | 0 <= k < |v| ensures IsDigitGroup(v[k], e) {
          if k < |p| {
            assert v[k] == DigitValues(e, p)[k];
          }
        }
      }
    }
  }

  /** Encoding decimal text gives a valid code of one group per character
      that stands for the number the text stands for. */
  lemma {:induction false} EncodeTextValue(e: Encoding, t: seq<char>)
    requires IsDigitText(t)
    ensures IsGroups(EncodeText(e, t)) && ValidCode(EncodeText(e, t), e)
    ensures CodeValue(EncodeText(e, t), e) == DecimalValue(t)
  {
    EncodeTextNibbles(e, t);
    DigitValuesValue(e, t);
  }

  /** Round trip: decoding the encoding of n gives n back, for both codes. */
  lemma {:induction false} EncodeRoundTrip(e: Encoding, n: nat)
    ensures ValidCode(Encode(e, n), e)
    ensures CodeValue(Encode(e, n), e) == n
    ensures n < Pow10(|Encode(e, n)| / 4)
  {
    var t := DecimalText(n);
    DecimalTextValue(n);
    EncodeTextValue(e, t);
    Quadruple(|t|);
    assert Encode(e, n) == EncodeText(e, t);
  }

  /** decimal_a_bcd: one BCD group per character of to_string(n). */
  method DecimalToBcd(n: nat) returns (r: seq<Bit>)
    ensures r == Encode(Bcd, n)
    ensures ValidCode(r, Bcd) && CodeValue(r, Bcd) == n && n < Pow10(|r| / 4)
  {
    var text := DecimalText(n);
    r := [];
    for i := 0 to |text|
      invariant r == EncodeText(Bcd, text[..i])
    {
      assert text[..i + 1][..i] == text[..i];
      var digit := text[i] as int - '0' as int;
      var g := IntToBin4(digit);
      r := r + g;
    }
    assert text[..|text|] == text;
    EncodeRoundTrip(Bcd, n);
  }

  /** decimal_a_exceso3: one group holding digit + 3 per character of
      to_string(n). */
  method DecimalToExcess3(n: nat) returns (r: seq<Bit>)
    ensures r == Encode(Excess3, n)
    ensures ValidCode(r, Excess3) && CodeValue(r, Excess3) == n && n < Pow10(|r| / 4)
  {
    var text := DecimalText(n);
    r := [];
    for i := 0 to |text|
      invariant r == EncodeText(Excess3, text[..i])
    {
      assert text[..i + 1][..i] == text[..i];
      var digit := text[i] as int - '0' as int;
      var g := IntToBin4(digit + 3);
      r := r + g;
    }
    assert text[..|text|] == text;
    EncodeRoundTrip(Excess3, n);
  }

  /** One step of the decoding loops: the text of the first i/4 digits read
      as a number is the value of the first i/4 groups. */
  lemma {:induction false} DecodeStep(s: seq<Bit>, e: Encoding, i: nat, text: seq<char>)
    requires ValidCode(s, e) && i % 4 == 0 && i + 4 <= |s|
    requires DecimalValue(text) == CodeValue(s[..i], e)
    ensures IsDigitGroup(BinToInt(s[i..i + 4]), e)
    ensures DecimalValue(text + [DigitChar(BinToInt(s[i..i + 4]) - Bias(e))]) == CodeValue(s[..i + 4], e)
  {
    var g, pre := s[i..i + 4], s[..i + 4];
    Multiples4(i, 4);
    ValidSplit(s, e, i + 4);
    assert pre == s[..i] + g;
    CodeValueAppend(s[..i], g, e);
    DecimalValueAppend(text, DigitChar(BinToInt(g) - Bias(e)));
  }

  /** bcd_a_decimal: writes the value of each group as decimal text and reads
      the text back with stoi. */
  method BcdToDecimal(s: seq<Bit>) returns (v: int)
    requires ValidCode(s, Bcd)
    ensures v == CodeValue(s, Bcd)
    ensures 0 <= v < Pow10(|s| / 4)
  {
    var text := [];
    var i := 0;
    while i < |s|
      invariant 0 <= i <= |s| && i % 4 == 0
      invariant DecimalValue(text) == CodeValue(s[..i], Bcd)
    {
      var group := s[i..i + 4];
      var val := BinToInt(group);
      DecodeStep(s, Bcd, i, text);
      Multiples4(i, 4);
      text := text + [DigitChar(val)];
      i := i + 4;
    }
    if |text| == 0 {
      v := 0;
    } else {
      v := DecimalValue(text);
    }
    assert s[..i] == s;
    CodeValueBound(s, Bcd);
  }

  /** exceso3_a_decimal: writes each group's value less 3 as decimal text and
      reads the text back with stoi. */
  method Excess3ToDecimal(s: seq<Bit>) returns (v: int)
    requires ValidCode(s, Excess3)
    ensures v == CodeValue(s, Excess3)
    ensures 0 <= v < Pow10(|s| / 4)
  {
    var text := [];
    var i := 0;
    while i < |s|
      invariant 0 <= i <= |s| && i % 4 == 0
      invariant DecimalValue(text) == CodeValue(s[..i], Excess3)
    {
      var group := s[i..i + 4];
      var val := BinToInt(group);
      DecodeStep(s, Excess3, i, text);
      Multiples4(i, 4);
      text := text + [DigitChar(val - 3)];
      i := i + 4;
    }
    if |text| == 0 {
      v := 0;
    } else {
      v := DecimalValue(text);
    }
    assert s[..i] == s;
    CodeValueBound(s, Excess3);
  }
}
