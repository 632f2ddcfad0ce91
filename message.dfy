/**
 The message driver as pure functions: characters packed as 8-bit strings
 and paired into 16-bit blocks, and each block's output halves unpacked back
 into characters. Text is limited to code points below 256.
 */
module Message {
  import opened BinaryStrings
  import opened Feistel

  /** The pad that completes an odd message: the 8-bit code of a space. */
  const Pad: string := "00100000"

  predicate IsByteText(m: string) {
    forall i :: 0 <= i < |m| ==> m[i] as int < 256
  }

  /** A character as its 8-bit code. */
  function Bin8(c: char): (s: string)
    requires c as int < 256
    ensures IsHalf(s) && BitsToNat(s) == c as int
  {
    Pow2Values();
    NatToBits(c as int, 8)
  }

  /** The 8-bit codes of the characters in order, with the pad appended after an odd count. */
  function Codes(m: string): (cs: seq<string>)
    requires IsByteText(m)
    ensures |cs| == |m| + |m| % 2
  {
    seq(|m| + |m| % 2, j requires 0 <= j < |m| + |m| % 2 => if j < |m| then Bin8(m[j]) else Pad)
  }

  /** Consecutive elements joined two by two. */
  function Pairs<T>(cs: seq<seq<T>>): (ps: seq<seq<T>>)
    ensures |ps| == |cs| / 2
  {
    seq(|cs| / 2, i requires 0 <= i < |cs| / 2 => cs[2 * i] + cs[2 * i + 1])
  }

  /** The blocks of a message: its codes paired. */
  function MessageBlocks(m: string): (bs: seq<string>)
    requires IsByteText(m)
    ensures |bs| == (|m| + 1) / 2
  {
    Pairs(Codes(m))
  }

  /** Block i holds the codes of characters 2i and 2i+1, the pad standing in for a missing partner. */
  lemma MessageBlocksAt(m: string, i: nat)
    requires IsByteText(m) && i < (|m| + 1) / 2
    ensures MessageBlocks(m)[i] == Bin8(m[2 * i]) + (if 2 * i + 1 < |m| then Bin8(m[2 * i + 1]) else Pad)
  {
    PairIndex(|m|, i);
    PairsAt(Codes(m), i);
    CodesAt(m, 2 * i);
    CodesAt(m, 2 * i + 1);
  }

  lemma PairsAt<T>(cs: seq<seq<T>>, i: nat)
    requires i < |cs| / 2
    ensures Pairs(cs)[i] == cs[2 * i] + cs[2 * i + 1]
  {
  }

  lemma CodesAt(m: string, j: nat)
    requires IsByteText(m) && j < |m| + |m| % 2
    ensures Codes(m)[j] == if j < |m| then Bin8(m[j]) else Pad
  {
  }

  lemma PairIndex(n: nat, i: nat)
    requires i < (n + 1) / 2
    ensures 2 * i < n && 2 * i + 1 < n + n % 2 && i < (n + n % 2) / 2
  {
  }

  /** Every block of a message is a 16-bit binary string. */
  lemma MessageBlocksValid(m: string)
    requires IsByteText(m)
    ensures AllBlocks(MessageBlocks(m))
  {
    forall i | 0 <= i < |MessageBlocks(m)|
      ensures IsBlock(MessageBlocks(m)[i])
    {
      MessageBlocksAt(m, i);
    }
  }

  /** Cutting an even-length message in two cuts its blocks at the same place. */
  lemma MessageBlocksAppend(a: string, b: string)
    requires IsByteText(a) && IsByteText(b) && |a| % 2 == 0
    ensures IsByteText(a + b)
    ensures MessageBlocks(a + b) == MessageBlocks(a) + MessageBlocks(b)
  {
    ByteTextAppend(a, b);
    CodesAppend(a, b);
    PairsAppend(Codes(a), Codes(b));
  }

  lemma ByteTextAppend(a: string, b: string)
    requires IsByteText(a) && IsByteText(b)
    ensures IsByteText(a + b)
  {
    forall j | 0 <= j < |a + b| ensures (a + b)[j] as int < 256 {
      if j >= |a| { assert (a + b)[j] == b[j - |a|]; }
    }
  }

  lemma CodesAppend(a: string, b: string)
    requires IsByteText(a) && IsByteText(b) && IsByteText(a + b) && |a| % 2 == 0
    ensures Codes(a + b) == Codes(a) + Codes(b)
  {
    forall k | 0 <= k < |Codes(a + b)|
      ensures Codes(a + b)[k] == (Codes(a) + Codes(b))[k]
    {
      CodesAppendAt(a, b, k);
    }
  }

  lemma CodesAppendAt(a: string, b: string, k: nat)
    requires IsByteText(a) && IsByteText(b) && IsByteText(a + b) && |a| % 2 == 0
    requires k < |a + b| + |a + b| % 2
    ensures Codes(a + b)[k] == (Codes(a) + Codes(b))[k]
  {
    var ca, cb := Codes(a), Codes(b);
    if k < |a| {
      CodesAppendLeft(a, b, k);
      assert (ca + cb)[k] == ca[k];
    } else {
      CodesAppendRight(a, b, k - |a|);
      assert (ca + cb)[k] == cb[k - |a|];
    }
  }

  lemma CodesAppendLeft(a: string, b: string, k: nat)
    requires IsByteText(a) && IsByteText(a + b) && k < |a|
    ensures Codes(a + b)[k] == Codes(a)[k]
  {
    CodesAt(a + b, k);
    CodesAt(a, k);
    assert (a + b)[k] == a[k];
  }

  lemma CodesAppendRight(a: string, b: string, j: nat)
    requires IsByteText(a) && IsByteText(b) && IsByteText(a + b) && |a| % 2 == 0
    requires j < |b| + |b| % 2
    ensures Codes(a + b)[|a| + j] == Codes(b)[j]
  {
    CodesAt(a + b, |a| + j);
    CodesAt(b, j);
    if j < |b| {
      assert (a + b)[|a| + j] == b[j];
    }
  }

  lemma PairsAppend<T>(x: seq<seq<T>>, y: seq<seq<T>>)
    requires |x| % 2 == 0
    ensures Pairs(x + y) == Pairs(x) + Pairs(y)
  {
    forall i | 0 <= i < |Pairs(x + y)|
      ensures Pairs(x + y)[i] == (Pairs(x) + Pairs(y))[i]
    {
      if i >= |x| / 2 {
        var j := i - |x| / 2;
        assert (x + y)[2 * i] == y[2 * j] && (x + y)[2 * i + 1] == y[2 * j + 1];
      }
    }
  }

  /** The character whose code an 8-bit string holds. */
  function ByteChar(bits: string): (c: char)
    requires IsHalf(bits)
    ensures c as int < 256
  {
    Pow2Values();
    BitsToNat(bits) as char
  }

  /** Every 8 characters of a binary string read back as one character. */
  function Unpack(bits: string): (text: string)
    requires IsBinary(bits)
    ensures |text| == |bits| / 8 && IsByteText(text)
  {
    seq(|bits| / 8, i requires 0 <= i < |bits| / 8 => ByteChar(bits[8 * i..8 * i + 8]))
  }

  /** Unpacking two packed characters gives the two characters back. */
  lemma UnpackBin8(c0: char, c1: char)
    requires c0 as int < 256 && c1 as int < 256
    ensures Unpack(Bin8(c0) + Bin8(c1)) == [c0, c1]
  {
    var a, b := Bin8(c0), Bin8(c1);
    var t := Unpack(a + b);
    SlicesOfConcat(a, b);
    assert t[0] == ByteChar(a) && t[1] == ByteChar(b);
    ByteCharOfBin8(c0);
    ByteCharOfBin8(c1);
  }

  lemma ByteCharOfBin8(c: char)
    requires c as int < 256
    ensures ByteChar(Bin8(c)) == c
  {
  }

  lemma SlicesOfConcat<T>(a: seq<T>, b: seq<T>)
    ensures (a + b)[0..|a|] == a && (a + b)[|a|..|a| + |b|] == b
  {
  }

  /** Packing the character an 8-bit string holds gives the string back. */
  lemma Bin8OfByteChar(h: string)
    requires IsHalf(h)
    ensures Bin8(ByteChar(h)) == h
  {
    NatToBitsRoundTrip(h);
  }

  /** The two characters of a 16-bit block pack back to its two halves. */
  lemma UnpackHalves(x: string)
    requires IsBlock(x)
    ensures var t := Unpack(x); |t| == 2 && Bin8(t[0]) == x[0..8] && Bin8(t[1]) == x[8..16]
  {
    var t := Unpack(x);
    assert t[0] == ByteChar(x[0..8]) && t[1] == ByteChar(x[8..16]);
    Bin8OfByteChar(x[0..8]);
    Bin8OfByteChar(x[8..16]);
  }

  /** Packing the characters of a 16-bit block gives the block back. */
  lemma MessageBlocksOfUnpack(x: string)
    requires IsBlock(x)
    ensures IsByteText(Unpack(x)) && MessageBlocks(Unpack(x)) == [x]
  {
    var t := Unpack(x);
    UnpackHalves(x);
    MessageBlocksAt(t, 0);
    SplitAt(x, 8);
    Singleton(MessageBlocks(t));
  }

  lemma SplitAt<T>(s: seq<T>, k: nat)
    requires k <= |s|
    ensures s == s[0..k] + s[k..|s|]
  {
  }

  datatype Direction = Encryption | Decryption

  /**
   What one block contributes to the output, as bits: encryption returns
   (R, L) and emits R + L; decryption returns (dL, dR) and emits dR + dL.
   */
  function BlockOut(dir: Direction, ks: seq<string>, block: string): (out: string)
    requires ValidSubkeys(ks) && IsBlock(block)
    ensures IsBlock(out)
  {
    match dir
    case Encryption =>
      var (r, l) := EncryptBlock(ks, block);
      r + l
    case Decryption =>
      var (dL, dR) := DecryptBlock(ks, block);
      dR + dL
  }

  predicate AllBlocks(bs: seq<string>) {
    forall i :: 0 <= i < |bs| ==> IsBlock(bs[i])
  }

  lemma AllBlocksAppend(a: seq<string>, b: seq<string>)
    requires AllBlocks(a) && AllBlocks(b)
    ensures AllBlocks(a + b)
  {
    forall i | 0 <= i < |a + b| ensures IsBlock((a + b)[i]) {
      if i >= |a| { assert (a + b)[i] == b[i - |a|]; }
    }
  }

  /** The text each block produces, block by block. */
  function Outputs(dir: Direction, ks: seq<string>, bs: seq<string>): (os: seq<string>)
    requires ValidSubkeys(ks) && AllBlocks(bs)
    ensures |os| == |bs| && forall i :: 0 <= i < |os| ==> |os[i]| == 2 && IsByteText(os[i])
  {
    seq(|bs|, i requires 0 <= i < |bs| => Unpack(BlockOut(dir, ks, bs[i])))
  }

  /** The elements of a sequence of sequences, one after the other. */
  function Concat<T>(xs: seq<seq<T>>): seq<T> {
    if xs == [] then [] else Concat(xs[..|xs| - 1]) + xs[|xs| - 1]
  }

  lemma {:induction false} ConcatAppend<T>(xs: seq<seq<T>>, ys: seq<seq<T>>)
    ensures Concat(xs + ys) == Concat(xs) + Concat(ys)
    decreases |ys|
  {
    if ys == [] {
      assert xs + ys == xs;
    } else {
      var ys' := ys[..|ys| - 1];
      assert (xs + ys)[..|xs + ys| - 1] == xs + ys';
      ConcatAppend(xs, ys');
    }
  }

  /** Concatenating two-character texts gives a text of twice their number, below 256 wherever they are. */
  lemma {:induction false} ConcatPairs(xs: seq<string>)
    requires forall i :: 0 <= i < |xs| ==> |xs[i]| == 2 && IsByteText(xs[i])
    ensures |Concat(xs)| == 2 * |xs| && IsByteText(Concat(xs))
    decreases |xs|
  {
    if xs != [] {
      var xs' := xs[..|xs| - 1];
      ConcatPairs(xs');
      ByteTextAppend(Concat(xs'), xs[|xs| - 1]);
    }
  }

  /** The text the blocks produce, one block after the other. */
  function Emit(dir: Direction, ks: seq<string>, bs: seq<string>): (text: string)
    requires ValidSubkeys(ks) && AllBlocks(bs)
    ensures |text| == 2 * |bs| && IsByteText(text)
  {
    ConcatPairs(Outputs(dir, ks, bs));
    Concat(Outputs(dir, ks, bs))
  }

  /** The text of the first i + 1 blocks is the text of the first i followed by that of block i. */
  lemma EmitStep(dir: Direction, ks: seq<string>, bs: seq<string>, i: nat)
    requires ValidSubkeys(ks) && AllBlocks(bs) && i < |bs|
    ensures AllBlocks(bs[..i]) && AllBlocks(bs[..i + 1])
    ensures Emit(dir, ks, bs[..i + 1]) == Emit(dir, ks, bs[..i]) + Unpack(BlockOut(dir, ks, bs[i]))
  {
    var xs := Outputs(dir, ks, bs[..i + 1]);
    assert xs[..i] == Outputs(dir, ks, bs[..i]);
  }

  /** Emitting the blocks of a + b is emitting those of a, then those of b. */
  lemma EmitAppend(dir: Direction, ks: seq<string>, a: seq<string>, b: seq<string>)
    requires ValidSubkeys(ks) && AllBlocks(a) && AllBlocks(b)
    ensures AllBlocks(a + b)
    ensures Emit(dir, ks, a + b) == Emit(dir, ks, a) + Emit(dir, ks, b)
  {
    AllBlocksAppend(a, b);
    OutputsAppend(dir, ks, a, b);
    ConcatAppend(Outputs(dir, ks, a), Outputs(dir, ks, b));
  }

  lemma OutputsAppend(dir: Direction, ks: seq<string>, a: seq<string>, b: seq<string>)
    requires ValidSubkeys(ks) && AllBlocks(a) && AllBlocks(b) && AllBlocks(a + b)
    ensures Outputs(dir, ks, a + b) == Outputs(dir, ks, a) + Outputs(dir, ks, b)
  {
    forall i | 0 <= i < |a + b|
      ensures Outputs(dir, ks, a + b)[i] == (Outputs(dir, ks, a) + Outputs(dir, ks, b))[i]
    {
      OutputsAppendAt(dir, ks, a, b, i);
    }
  }

  lemma OutputsAppendAt(dir: Direction, ks: seq<string>, a: seq<string>, b: seq<string>, i: nat)
    requires ValidSubkeys(ks) && AllBlocks(a) && AllBlocks(b) && AllBlocks(a + b) && i < |a + b|
    ensures Outputs(dir, ks, a + b)[i] == (Outputs(dir, ks, a) + Outputs(dir, ks, b))[i]
  {
    if i < |a| {
      assert (a + b)[i] == a[i];
    } else {
      assert (a + b)[i] == b[i - |a|];
    }
  }

  /**
   A whole message encrypted or decrypted with the given subkeys. The output
   is as long as the message rounded up to even, and the empty message gives
   the empty text.
   */
  function Transform(dir: Direction, ks: seq<string>, m: string): (text: string)
    requires ValidSubkeys(ks) && IsByteText(m)
    ensures |text| == |m| + |m| % 2 && IsByteText(text)
    ensures m == [] ==> text == []
  {
    var blocks := MessageBlocks(m);
    MessageBlocksValid(m);
    var text := Emit(dir, ks, blocks);
    RoundUpToEven(|text|, |blocks|, |m|);
    text
  }

  lemma RoundUpToEven(t: nat, b: nat, n: nat)
    requires t == 2 * b && b == (n + 1) / 2
    ensures t == n + n % 2
  {
  }

  /** No chaining: an even-length prefix is transformed on its own, independently of what follows. */
  lemma BlockIndependence(dir: Direction, ks: seq<string>, a: string, b: string)
    requires ValidSubkeys(ks) && IsByteText(a) && IsByteText(b) && |a| % 2 == 0
    ensures IsByteText(a + b)
    ensures Transform(dir, ks, a + b) == Transform(dir, ks, a) + Transform(dir, ks, b)
  {
    MessageBlocksAppend(a, b);
    MessageBlocksValid(a);
    MessageBlocksValid(b);
    EmitAppend(dir, ks, MessageBlocks(a), MessageBlocks(b));
  }

  lemma PadIsSpace()
    ensures Bin8(' ') == Pad
  {
    PadValue();
    NatToBitsRoundTrip(Pad);
  }

  lemma PadValue()
    ensures BitsToNat(Pad) == 32
  {
    BitsToNatSplit(Pad, 3);
    var head := Pad[..3];
    assert Pad[3..] == Zeros(5);
    ZerosValue(5);
    assert head[..2] == Zeros(2);
    ZerosValue(2);
    assert BitsToNat(head) == 1;
    Pow2Values();
    assert Pow2(5) == 32;
  }

  /** A message completed to even length with a space, as decryption of its encryption returns it. */
  function Padded(m: string): (r: string)
    ensures |m| % 2 == 1 ==> r == m + " "
    ensures |m| % 2 == 0 ==> r == m
  {
    m + (if |m| % 2 == 1 then " " else "")
  }

  /** The first two characters (the first one and a space, for a single character) and the rest. */
  function FirstPair(m: string): (p: (string, string))
    requires |m| > 0
    ensures |p.0| == 2 && Padded(m) == p.0 + Padded(p.1)
  {
    if |m| == 1 then ([m[0], ' '], []) else (m[..2], m[2..])
  }

  lemma FirstBlock(m: string)
    requires IsByteText(m) && |m| > 0
    ensures var (pair, rest) := FirstPair(m);
      IsByteText(pair) && IsByteText(rest) &&
      MessageBlocks(m) == [Bin8(pair[0]) + Bin8(pair[1])] + MessageBlocks(rest)
  {
    if |m| == 1 {
      MessageBlocksAt(m, 0);
      PadIsSpace();
    } else {
      var pair := m[..2];
      assert m == pair + m[2..];
      MessageBlocksAppend(pair, m[2..]);
      MessageBlocksAt(pair, 0);
      assert pair[0] == m[0] && pair[1] == m[1];
      Singleton(MessageBlocks(pair));
    }
  }

  /** A message's text is that of its first pair's block followed by the text of the rest. */
  lemma TransformFirstPair(dir: Direction, ks: seq<string>, m: string)
    requires ValidSubkeys(ks) && IsByteText(m) && |m| > 0
    ensures var (pair, rest) := FirstPair(m);
      IsByteText(pair) && IsByteText(rest) &&
      Transform(dir, ks, m) == Unpack(BlockOut(dir, ks, Bin8(pair[0]) + Bin8(pair[1]))) + Transform(dir, ks, rest)
  {
    var (pair, rest) := FirstPair(m);
    FirstBlock(m);
    HalvesBlock(Bin8(pair[0]), Bin8(pair[1]));
    var block := Bin8(pair[0]) + Bin8(pair[1]);
    MessageBlocksValid(rest);
    assert AllBlocks([block]);
    SingleBlock(dir, ks, block);
    EmitAppend(dir, ks, [block], MessageBlocks(rest));
  }

  lemma Singleton<T>(s: seq<T>)
    requires |s| == 1
    ensures s == [s[0]]
  {
  }

  /** A single block's worth of output text is transformed as that one block. */
  lemma SingleBlock(dir: Direction, ks: seq<string>, block: string)
    requires ValidSubkeys(ks) && IsBlock(block)
    ensures Emit(dir, ks, [block]) == Unpack(BlockOut(dir, ks, block))
  {
    assert [block][..0] == [];
  }

  /** Block round trip in terms of the emitted bits: decrypting the bits encryption emits gives the block. */
  lemma BlockOutRoundTrip(ks: seq<string>, block: string)
    requires ValidSubkeys(ks) && IsBlock(block)
    ensures BlockOut(Decryption, ks, BlockOut(Encryption, ks, block)) == block
  {
    BlockRoundTrip(ks, block);
  }

  /** Decrypting the text one encrypted block emits gives the block's two characters back. */
  lemma {:induction false} PairRoundTrip(ks: seq<string>, pair: string)
    requires ValidSubkeys(ks) && IsByteText(pair) && |pair| == 2
    ensures var head := Unpack(BlockOut(Encryption, ks, Bin8(pair[0]) + Bin8(pair[1])));
      Transform(Decryption, ks, head) == pair
  {
    HalvesBlock(Bin8(pair[0]), Bin8(pair[1]));
    var block := Bin8(pair[0]) + Bin8(pair[1]);
    var c := BlockOut(Encryption, ks, block);
    MessageBlocksOfUnpack(c);
    SingleBlock(Decryption, ks, c);
    BlockOutRoundTrip(ks, block);
    UnpackBin8(pair[0], pair[1]);
    assert [pair[0], pair[1]] == pair;
  }

  /** Decrypting the encryption of a message gives it back, with a space appended when its length is odd. */
  lemma {:induction false} MessageRoundTrip(ks: seq<string>, m: string)
    requires ValidSubkeys(ks) && IsByteText(m)
    ensures IsByteText(Transform(Encryption, ks, m))
    ensures Transform(Decryption, ks, Transform(Encryption, ks, m)) == Padded(m)
    decreases |m|
  {
    if m == [] {
      return;
    }
    var (pair, rest) := FirstPair(m);
    TransformFirstPair(Encryption, ks, m);
    HalvesBlock(Bin8(pair[0]), Bin8(pair[1]));
    var head := Unpack(BlockOut(Encryption, ks, Bin8(pair[0]) + Bin8(pair[1])));
    var tail := Transform(Encryption, ks, rest);
    assert |head| == 2 && IsByteText(head);
    BlockIndependence(Decryption, ks, head, tail);
    PairRoundTrip(ks, pair);
    MessageRoundTrip(ks, rest);
    calc {
      Transform(Decryption, ks, head + tail);
      Transform(Decryption, ks, head) + Transform(Decryption, ks, tail);
      pair + Padded(rest);
      Padded(m);
    }
  }
}
