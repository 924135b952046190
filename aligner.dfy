/** pad_numeros: bringing two bit strings to the same whole number of
    four-bit groups before they are added group by group
    (simulacion.cpp:106-133). */
module Aligner {
  import opened BitStrings
  import opened DecimalCodes

  /** Stage 1: as many '0' characters in front as make the length a
      multiple of four. */
  function AlignTo4(s: seq<Bit>): (r: seq<Bit>)
    ensures |r| >= |s|
  {
    if |s| % 4 == 0 then s else Zeros(4 - |s| % 4) + s
  }

  /** Stage 1 gives whole groups, adds fewer than four characters, only in
      front, and leaves a string of whole groups alone. */
  lemma {:induction false} AlignTo4Shape(s: seq<Bit>)
    ensures IsGroups(AlignTo4(s)) && |AlignTo4(s)| < |s| + 4
    ensures AlignTo4(s)[|AlignTo4(s)| - |s|..] == s
    ensures (forall i :: 0 <= i < |AlignTo4(s)| - |s| ==> AlignTo4(s)[i] == '0')
    ensures IsGroups(s) ==> AlignTo4(s) == s
  {
    var r := AlignTo4(s);
    if |s| % 4 != 0 {
      assert r == Zeros(4 - |s| % 4) + s;
      assert r[|r| - |s|..] == s;
    }
  }

  /** Leading '0' characters do not change the value of a bit string. */
  lemma {:induction false} ZerosInFront(n: nat, s: seq<Bit>)
    ensures BinToInt(Zeros(n) + s) == BinToInt(s)
    decreases |s|
  {
    var t := Zeros(n) + s;
    if |s| == 0 {
      assert t == Zeros(n);
      ZerosValue(n);
    } else {
      assert t[..|t| - 1] == Zeros(n) + s[..|s| - 1];
      ZerosInFront(n, s[..|s| - 1]);
    }
  }

  lemma {:induction false} ZerosValue(n: nat)
    ensures BinToInt(Zeros(n)) == 0
  {
    if n > 0 {
      assert Zeros(n)[..n - 1] == Zeros(n - 1);
      ZerosValue(n - 1);
    }
  }

  /** Stage 1 keeps the value of the string as a binary number. */
  lemma {:induction false} AlignTo4Value(s: seq<Bit>)
    ensures BinToInt(AlignTo4(s)) == BinToInt(s)
  {
    if |s| % 4 != 0 {
      ZerosInFront(4 - |s| % 4, s);
    }
  }

  function Max(x: int, y: int): int {
    if x < y then y else x
  }

  /** How many copies of the pad group stage 2 puts in front of `x` to
      reach the length of `y` (both already aligned): never so many that `x`
      grows past the longer length. */
  function PadCount(x: seq<Bit>, y: seq<Bit>): (n: nat)
    ensures |x| + 4 * n <= Max(|x|, |y|)
  {
    if |x| < |y| then (|y| - |x|) / 4 else 0
  }

  /** pad_numeros: both strings aligned to whole groups, then the shorter
      one prefixed with copies of `pad` until the lengths agree. */
  method PadNumbers(a: seq<Bit>, b: seq<Bit>, pad: seq<Bit>) returns (ra: seq<Bit>, rb: seq<Bit>)
    ensures ra == Repeat(pad, PadCount(AlignTo4(a), AlignTo4(b))) + AlignTo4(a)
    ensures rb == Repeat(pad, PadCount(AlignTo4(b), AlignTo4(a))) + AlignTo4(b)
  {
    ra, rb := a, b;
    if |ra| % 4 != 0 {
      ra := Zeros(4 - |ra| % 4) + ra;
    }
    if |rb| % 4 != 0 {
      rb := Zeros(4 - |rb| % 4) + rb;
    }
    ghost var alignedA, alignedB := ra, rb;
    if |ra| < |rb| {
      var count := (|rb| - |ra|) / 4;
      for i := 0 to count
        invariant ra == Repeat(pad, i) + alignedA
      {
        ra := pad + ra;
      }
    } else if |rb| < |ra| {
      var count := (|ra| - |rb|) / 4;
      for i := 0 to count
        invariant rb == Repeat(pad, i) + alignedB
      {
        rb := pad + rb;
      }
    }
  }

  /** With a one-group pad, pad_numeros gives two strings of whole groups of
      the same length, the longer aligned length; each input is a suffix of
      its result, and the operand that is already the longer one gets no
      pad group. */
  lemma {:induction false} PaddedLengths(a: seq<Bit>, b: seq<Bit>, pad: seq<Bit>)
    requires |pad| == 4
    ensures var ra, rb := Repeat(pad, PadCount(AlignTo4(a), AlignTo4(b))) + AlignTo4(a),
                          Repeat(pad, PadCount(AlignTo4(b), AlignTo4(a))) + AlignTo4(b);
            |ra| == |rb| == Max(|AlignTo4(a)|, |AlignTo4(b)|) && IsGroups(ra)
            && |a| <= |ra| && ra[|ra| - |a|..] == a
            && (|AlignTo4(a)| >= |AlignTo4(b)| ==> ra == AlignTo4(a))
  {
    var x, y := AlignTo4(a), AlignTo4(b);
    AlignTo4Shape(a);
    AlignTo4Shape(b);
    Multiples4(|y|, |x|);
    Multiples4(|x|, |y|);
    Quadruple(PadCount(x, y));
    var ra := Repeat(pad, PadCount(x, y)) + x;
    assert ra[|ra| - |x|..] == x;
    assert ra[|ra| - |a|..] == x[|x| - |a|..];
  }

  /** Padding with the group for decimal 0 keeps a valid code valid and
      keeps the number it stands for. */
  lemma {:induction false} PaddingKeepsValue(e: Encoding, a: seq<Bit>, b: seq<Bit>)
    requires IsGroups(a)
    ensures var ra := Repeat(ZeroGroup(e), PadCount(AlignTo4(a), AlignTo4(b))) + AlignTo4(a);
            IsGroups(ra) && (ValidCode(ra, e) <==> ValidCode(a, e)) && CodeValue(ra, e) == CodeValue(a, e)
  {
    AlignTo4Shape(a);
    ZeroPadding(e, PadCount(AlignTo4(a), AlignTo4(b)), a);
  }
}
