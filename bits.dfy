/**
 Binary strings: text made of the characters '0' and '1', most significant
 bit first, and the conversions the cipher makes between them and numbers:
 base-2 parsing, base-2 formatting left-padded with zeros, and the integer
 exclusive or of two parsed strings.
 */
module BinaryStrings {

  predicate IsBinary(s: string) {
    forall i :: 0 <= i < |s| ==> s[i] == '0' || s[i] == '1'
  }

  function Pow2(n: nat): (p: nat)
    ensures p >= 1
  {
    if n == 0 then 1 else 2 * Pow2(n - 1)
  }

  lemma Pow2Values()
    ensures Pow2(2) == 4 && Pow2(4) == 16 && Pow2(6) == 64
    ensures Pow2(8) == 256 && Pow2(10) == 1024 && Pow2(12) == 4096
  {
  }

  function DigitValue(c: char): nat {
    if c == '1' then 1 else 0
  }

  function Digit(b: nat): char
    requires b < 2
  {
    if b == 1 then '1' else '0'
  }

  function Zeros(k: nat): string {
    seq(k, _ => '0')
  }

  /** Base-2 parsing: the value a binary string denotes (the empty string denotes 0). */
  function BitsToNat(s: string): (n: nat)
    requires IsBinary(s)
    ensures n < Pow2(|s|)
  {
    if s == [] then 0 else 2 * BitsToNat(s[..|s| - 1]) + DigitValue(s[|s| - 1])
  }

  /** Base-2 formatting without padding: "0" for zero, otherwise no leading zero. */
  function ToBinary(n: nat): (s: string)
    ensures IsBinary(s) && |s| >= 1
    ensures s[0] == '1' || s == "0"
    ensures BitsToNat(s) == n
  {
    if n < 2 then [Digit(n)]
    else
      var s := ToBinary(n / 2) + [Digit(n % 2)];
      assert s[..|s| - 1] == ToBinary(n / 2);
      s
  }

  /** Left-pads s with '0' up to width w; a string already as wide is left alone. */
  function PadLeft(s: string, w: nat): string {
    if |s| < w then Zeros(w - |s|) + s else s
  }

  /** The padded string is w long, or s itself when s is already as wide; it ends with s, preceded by '0' only. */
  lemma PadLeftShape(s: string, w: nat)
    ensures var r := PadLeft(s, w);
      |r| == (if |s| < w then w else |s|) &&
      r[|r| - |s|..] == s &&
      forall i :: 0 <= i < |r| - |s| ==> r[i] == '0'
  {
  }

  /** Base-2 formatting left-padded with zeros to width w. */
  function NatToBits(n: nat, w: nat): (s: string)
    ensures IsBinary(s) && |s| >= w
    ensures BitsToNat(s) == n
    ensures 0 < w && n < Pow2(w) ==> |s| == w
  {
    var b := ToBinary(n);
    LeadingZeros(if |b| < w then w - |b| else 0, b);
    ToBinaryWidth(n, w);
    PadLeft(b, w)
  }

  lemma {:induction false} LeadingZeros(k: nat, s: string)
    requires IsBinary(s)
    ensures IsBinary(Zeros(k) + s) && BitsToNat(Zeros(k) + s) == BitsToNat(s)
    decreases |s|
  {
    if s == [] {
      assert Zeros(k) + s == Zeros(k);
      ZerosValue(k);
    } else {
      var s' := s[..|s| - 1];
      assert (Zeros(k) + s)[..|Zeros(k) + s| - 1] == Zeros(k) + s';
      LeadingZeros(k, s');
    }
  }

  lemma {:induction false} ZerosValue(k: nat)
    ensures BitsToNat(Zeros(k)) == 0
  {
    if k > 0 {
      assert Zeros(k)[..k - 1] == Zeros(k - 1);
      ZerosValue(k - 1);
    }
  }

  lemma {:induction false} ToBinaryWidth(n: nat, w: nat)
    ensures 0 < w && n < Pow2(w) ==> |ToBinary(n)| <= w
  {
    if 0 < w && n >= 2 {
      ToBinaryWidth(n / 2, w - 1);
    }
  }

  /** The w low-order bits of n, most significant first. */
  function FixedBits(n: nat, w: nat): (s: string)
    ensures |s| == w && IsBinary(s)
  {
    if w == 0 then [] else FixedBits(n / 2, w - 1) + [Digit(n % 2)]
  }

  lemma {:induction false} FixedBitsOfZero(w: nat)
    ensures FixedBits(0, w) == Zeros(w)
  {
    if w > 0 {
      FixedBitsOfZero(w - 1);
      assert Zeros(w) == Zeros(w - 1) + ['0'];
    }
  }

  /** Formatting a number that fits in w > 0 bits, padded to w, gives exactly its w low-order bits. */
  lemma {:induction false} NatToBitsIsFixed(n: nat, w: nat)
    requires 0 < w && n < Pow2(w)
    ensures NatToBits(n, w) == FixedBits(n, w)
  {
    if n < 2 {
      var d := Digit(n % 2);
      assert FixedBits(n, w) == FixedBits(n / 2, w - 1) + [d];
      assert ToBinary(n) == [d];
      FixedBitsOfZero(w - 1);
      PadLeftSnoc([], d, w);
    } else {
      assert w >= 2 && n / 2 < Pow2(w - 1);
      NatToBitsIsFixed(n / 2, w - 1);
      NatToBitsStep(n, w);
    }
  }

  /** The inductive step: if the formatting of n / 2 is exact at w - 1, that of n is exact at w. */
  lemma NatToBitsStep(n: nat, w: nat)
    requires 2 <= n && 2 <= w && NatToBits(n / 2, w - 1) == FixedBits(n / 2, w - 1)
    ensures NatToBits(n, w) == FixedBits(n, w)
  {
    var d := Digit(n % 2);
    var b := ToBinary(n / 2);
    assert ToBinary(n) == b + [d];
    PadLeftSnoc(b, d, w);
  }

  /** Padding a string with one more character at its end to w is padding the rest to w - 1. */
  lemma PadLeftSnoc(b: string, c: char, w: nat)
    requires w >= 1
    ensures PadLeft(b + [c], w) == PadLeft(b, w - 1) + [c]
  {
    if |b| + 1 < w {
      var z := Zeros(w - 1 - |b|);
      assert z + (b + [c]) == (z + b) + [c];
    }
  }

  lemma {:induction false} FixedBitsOfValue(s: string)
    requires IsBinary(s)
    ensures FixedBits(BitsToNat(s), |s|) == s
    decreases |s|
  {
    if s != [] {
      var s' := s[..|s| - 1];
      FixedBitsOfValue(s');
      var n := BitsToNat(s);
      assert n / 2 == BitsToNat(s') && n % 2 == DigitValue(s[|s| - 1]);
      assert s == s' + [s[|s| - 1]];
    }
  }

  /** Parsing then re-formatting to the same width gives the string back: the padding is exact. */
  lemma NatToBitsRoundTrip(s: string)
    requires IsBinary(s) && |s| > 0
    ensures NatToBits(BitsToNat(s), |s|) == s
  {
    NatToBitsIsFixed(BitsToNat(s), |s|);
    FixedBitsOfValue(s);
  }

  /** The value of a binary string split at k: the prefix, shifted, plus the suffix. */
  lemma {:induction false} BitsToNatSplit(s: string, k: nat)
    requires IsBinary(s) && k <= |s|
    ensures BitsToNat(s) == BitsToNat(s[..k]) * Pow2(|s| - k) + BitsToNat(s[k..])
    decreases |s|
  {
    if k == |s| {
      assert s[..k] == s && s[k..] == [];
    } else {
      var s' := s[..|s| - 1];
      BitsToNatSplit(s', k);
      assert s'[..k] == s[..k];
      assert s[k..][..|s[k..]| - 1] == s'[k..];
      MulShift(BitsToNat(s[..k]), Pow2(|s'| - k), BitsToNat(s'[k..]), DigitValue(s[|s| - 1]));
    }
  }

  lemma MulShift(a: int, p: int, b: int, d: int)
    ensures 2 * (a * p + b) + d == a * (2 * p) + (2 * b + d)
  {
  }

  /** Bitwise exclusive or of two naturals (the integer `^` on non-negative values). */
  function NatXor(a: nat, b: nat): (n: nat)
    ensures n == 0 <==> a == b
    decreases a + b
  {
    if a == 0 && b == 0 then 0
    else (if a % 2 == b % 2 then 0 else 1) + 2 * NatXor(a / 2, b / 2)
  }

  /** Character-wise exclusive or of two binary strings of the same width. */
  function XorBits(a: string, b: string): (r: string)
    requires |a| == |b|
    ensures |r| == |a| && IsBinary(r)
  {
    seq(|a|, i requires 0 <= i < |a| => if a[i] == b[i] then '0' else '1')
  }

  /** The cipher's XOR helper: parse both strings in base 2 and exclusive-or the values. */
  function Xor(s1: string, s2: string): (n: nat)
    requires IsBinary(s1) && IsBinary(s2)
    ensures |s1| == |s2| ==> n == BitsToNat(XorBits(s1, s2))
  {
    XorOfValues(s1, s2);
    NatXor(BitsToNat(s1), BitsToNat(s2))
  }

  /** Integer XOR of the parsed values is the value of the character-wise XOR. */
  lemma {:induction false} XorOfValues(s1: string, s2: string)
    requires IsBinary(s1) && IsBinary(s2)
    ensures |s1| == |s2| ==> NatXor(BitsToNat(s1), BitsToNat(s2)) == BitsToNat(XorBits(s1, s2))
    decreases |s1|
  {
    if |s1| == |s2| && s1 != [] {
      var n := |s1|;
      var a, b := s1[..n - 1], s2[..n - 1];
      XorOfValues(a, b);
      assert XorBits(s1, s2)[..n - 1] == XorBits(a, b);
      var x, y := BitsToNat(s1), BitsToNat(s2);
      assert x / 2 == BitsToNat(a) && x % 2 == DigitValue(s1[n - 1]);
      assert y / 2 == BitsToNat(b) && y % 2 == DigitValue(s2[n - 1]);
    }
  }

  /** Exclusive or with the same string twice cancels out. */
  lemma XorBitsCancel(x: string, y: string)
    requires |x| == |y| && IsBinary(x) && IsBinary(y)
    ensures XorBits(x, XorBits(x, y)) == y
  {
  }
}
