/** Bit strings: unsigned numbers written as sequences of the characters '0'
    and '1', most significant bit first (simulacion.cpp:10-47). */
module BitStrings {

  /** The characters the program's bit strings are made of. */
  type Bit = c: char | c == '0' || c == '1' witness '0'

  function BitValue(c: Bit): nat {
    if c == '1' then 1 else 0
  }

  function BitChar(b: int): Bit {
    if b == 0 then '0' else '1'
  }

  function Pow2(k: nat): (r: nat)
    ensures r >= 1
  {
    if k == 0 then 1 else 2 * Pow2(k - 1)
  }

  /** `n` copies of the character '0'. */
  function Zeros(n: nat): (r: seq<Bit>)
    ensures |r| == n
    ensures forall i :: 0 <= i < n ==> r[i] == '0'
  {
    seq(n, _ => '0')
  }

  /** `m` copies of `p`, one after the other. */
  function Repeat(p: seq<Bit>, m: nat): (r: seq<Bit>)
    ensures |p| == 4 ==> |r| == 4 * m
  {
    if m == 0 then [] else p + Repeat(p, m - 1)
  }

  /** bin_a_int: the base-2 reading of a string of bits; the empty string
      reads as 0. */
  function BinToInt(s: seq<Bit>): (r: nat)
  {
    if |s| == 0 then 0 else 2 * BinToInt(s[..|s| - 1]) + BitValue(s[|s| - 1])
  }

  /** A k-bit string reads as a number below 2^k. */
  lemma {:induction false} BinToIntBound(s: seq<Bit>)
    ensures BinToInt(s) < Pow2(|s|)
  {
    if |s| > 0 {
      BinToIntBound(s[..|s| - 1]);
    }
  }

  /** The value of a four-bit group, bit by bit. */
  lemma BinToInt4(s: seq<Bit>)
    requires |s| == 4
    ensures BinToInt(s) == 8 * BitValue(s[0]) + 4 * BitValue(s[1]) + 2 * BitValue(s[2]) + BitValue(s[3])
  {
    assert s[..3][..2] == s[..2] && s[..2][..1] == s[..1] && s[..1][..0] == [];
    assert BinToInt(s[..1]) == BitValue(s[0]);
    assert BinToInt(s[..2]) == 2 * BitValue(s[0]) + BitValue(s[1]);
    assert BinToInt(s[..3]) == 4 * BitValue(s[0]) + 2 * BitValue(s[1]) + BitValue(s[2]);
  }

  /** The low `w` bits of `n`, most significant first. */
  function Bits(w: nat, n: int): (r: seq<Bit>)
    ensures |r| == w
  {
    if w == 0 then [] else Bits(w - 1, n / 2) + [BitChar(n % 2)]
  }

  /** Reading back the `w` bits of a number below 2^w gives the number. */
  lemma {:induction false} BitsValue(w: nat, n: int)
    requires 0 <= n < Pow2(w)
    ensures BinToInt(Bits(w, n)) == n
  {
    if w > 0 {
      var r := Bits(w, n);
      assert r[..w - 1] == Bits(w - 1, n / 2);
      BitsValue(w - 1, n / 2);
    }
  }

  /** Writing the value of a bit string back in as many bits gives the
      string. */
  lemma {:induction false} BitsOfBinToInt(s: seq<Bit>)
    ensures Bits(|s|, BinToInt(s)) == s
  {
    if |s| > 0 {
      var p, v := s[..|s| - 1], BinToInt(s);
      assert v / 2 == BinToInt(p) && BitChar(v % 2) == s[|s| - 1];
      BitsOfBinToInt(p);
    }
  }

  /** A four-bit group reads as a number in 0 .. 15. */
  lemma {:induction false} GroupBound(g: seq<Bit>)
    requires |g| == 4
    ensures BinToInt(g) < 16
  {
    BinToIntBound(g);
    assert Pow2(4) == 16;
  }

  /** The four bits that int_a_bin4 writes: `n` masked with 0x0F. Dafny's `%`
      is Euclidean, so for a negative `n` this is the same group that the
      two's-complement mask `n & 0x0F` keeps. */
  function Bin4(n: int): (r: seq<Bit>)
    ensures |r| == 4
  {
    Bits(4, n % 16)
  }

  /** The group int_a_bin4 writes reads back as `n` modulo 16. */
  lemma {:induction false} Bin4Value(n: int)
    ensures BinToInt(Bin4(n)) == n % 16
  {
    BitsValue(4, n % 16);
  }

  /** A value that fits in four bits reads back unchanged. */
  lemma {:induction false} Bin4Small(n: int)
    requires 0 <= n < 16
    ensures BinToInt(Bin4(n)) == n
  {
    Bin4Value(n);
  }

  /** Two numbers equal modulo 16 are written as the same group. */
  lemma {:induction false} Bin4Congruent(x: int, y: int)
    requires x % 16 == y % 16
    ensures Bin4(x) == Bin4(y)
  {
  }

  /** int_a_bin4: masks `n` to four bits and writes bit 3 down to bit 0. */
  method IntToBin4(n: int) returns (r: seq<Bit>)
    ensures r == Bin4(n)
  {
    var m := n % 16;
    r := [];
    for i := 4 downto 0
      invariant r == Bits(4 - i, m / Pow2(i))
    {
      var p := Pow2(i);
      assert p == if i == 3 then 8 else if i == 2 then 4 else if i == 1 then 2 else 1;
      assert Pow2(i + 1) == 2 * p;
      assert m / p / 2 == m / Pow2(i + 1);
      r := r + [BitChar(m / p % 2)];
    }
  }

  /** On four-bit groups, Bin4 undoes BinToInt: int_a_bin4 and bin_a_int are
      inverse to each other. */
  lemma {:induction false} Bin4OfBinToInt(s: seq<Bit>)
    requires |s| == 4
    ensures Bin4(BinToInt(s)) == s
  {
    BinToIntBound(s);
    assert BinToInt(s) % 16 == BinToInt(s);
    BitsOfBinToInt(s);
  }

  /** The flip that invertir_bits applies to each character. */
  function Flip(c: Bit): (r: Bit)
    ensures r != c
  {
    if c == '0' then '1' else '0'
  }

  /** invertir_bits as a value: every character flipped. */
  function Inverted(s: seq<Bit>): (r: seq<Bit>)
    ensures |r| == |s|
    ensures forall i :: 0 <= i < |s| ==> r[i] == Flip(s[i])
  {
    if |s| == 0 then [] else Inverted(s[..|s| - 1]) + [Flip(s[|s| - 1])]
  }

  /** invertir_bits. */
  method InvertBits(s: seq<Bit>) returns (r: seq<Bit>)
    ensures r == Inverted(s)
  {
    r := [];
    for i := 0 to |s|
      invariant r == Inverted(s[..i])
    {
      assert s[..i + 1][..i] == s[..i];
      r := r + [if s[i] == '0' then '1' else '0'];
    }
    assert s[..|s|] == s;
  }

  /** Inverting twice gives back any string of bits. */
  lemma InvertedInvolution(s: seq<Bit>)
    ensures Inverted(Inverted(s)) == s
  {
  }

  /** Inverting the bits of a k-bit string takes its value v to 2^k - 1 - v. */
  lemma {:induction false} InvertedValue(s: seq<Bit>)
    ensures BinToInt(Inverted(s)) == Pow2(|s|) - 1 - BinToInt(s)
  {
    if |s| > 0 {
      var n := |s|;
      assert Inverted(s)[..n - 1] == Inverted(s[..n - 1]);
      InvertedValue(s[..n - 1]);
    }
  }
}
