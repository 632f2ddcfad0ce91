/**
 The cipher core as pure functions: the expansion table and the two
 substitution boxes, the key schedule, the round function and the Feistel
 engine that runs the rounds over one 16-bit block in either direction.
 Halves are 8-character binary strings, subkeys 12-character ones.
 */
module Feistel {
  import opened BinaryStrings

  /** Expansion table: 1-based positions of the right half, 3 and 7 and 2 and 8 used twice. */
  const Permut: seq<nat> := [4, 2, 7, 5, 1, 3, 8, 6, 3, 7, 2, 8]

  /** First substitution box, indexed [column][row] with a 2-bit column and a 4-bit row. */
  const S1Box: seq<seq<string>> := [
    ["0110", "1011", "1110", "1001", "0100", "1100", "0001", "0011", "0111", "0000", "1010", "0101", "1101", "1000", "1111", "0010"],
    ["0001", "1110", "1011", "0100", "0110", "0000", "1101", "1010", "1001", "0011", "1111", "0111", "1000", "1100", "0010", "0101"],
    ["1110", "0001", "0100", "1011", "1101", "1001", "0110", "1111", "0000", "0111", "1000", "0010", "0101", "1010", "1100", "0011"],
    ["1011", "1111", "0101", "1100", "0001", "0110", "0010", "1110", "1010", "1000", "0011", "0000", "1101", "0111", "1001", "0100"]
  ]

  /** Second substitution box, indexed like the first. */
  const S2Box: seq<seq<string>> := [
    ["1101", "0010", "0110", "1110", "0000", "1001", "1011", "0100", "0011", "1111", "0101", "1100", "1010", "0111", "1111", "1000"],
    ["0100", "1011", "1001", "0000", "1110", "0110", "0010", "1101", "1111", "1010", "0111", "1100", "1000", "0101", "0011", "0001"],
    ["1110", "0111", "1010", "1101", "0101", "0011", "1111", "0001", "1001", "0100", "1000", "0000", "1100", "0110", "0010", "1011"],
    ["0011", "1100", "1111", "0110", "1000", "1010", "1101", "0001", "0100", "1110", "0000", "1001", "0111", "0101", "0010", "1011"]
  ]

  predicate IsBit(c: char) { c == '0' || c == '1' }

  /** A 4-character binary string, spelled out cell by cell so that literal tables are checked without a quantifier. */
  predicate IsNibble(s: string) { |s| == 4 && IsBit(s[0]) && IsBit(s[1]) && IsBit(s[2]) && IsBit(s[3]) }
  predicate IsHalf(s: string) { |s| == 8 && IsBinary(s) }
  predicate IsSubkey(k: string) { |k| == 12 && IsBinary(k) }
  predicate IsBlock(b: string) { |b| == 16 && IsBinary(b) }

  predicate ValidSubkeys(ks: seq<string>) {
    forall i :: 0 <= i < |ks| ==> IsSubkey(ks[i])
  }

  predicate IsBox(box: seq<seq<string>>) {
    |box| == 4 && forall c :: 0 <= c < 4 ==> |box[c]| == 16 && forall r :: 0 <= r < 16 ==> IsNibble(box[c][r])
  }

  /** Both tables are 4 by 16 and every cell is a 4-bit code. */
  lemma BoxesWellFormed()
    ensures IsBox(S1Box) && IsBox(S2Box)
  {
    S1BoxWellFormed();
    S2BoxWellFormed();
  }

  lemma S1BoxWellFormed()
    ensures IsBox(S1Box)
  {
    assert forall r :: 0 <= r < 16 ==>
      IsNibble(S1Box[0][r]) && IsNibble(S1Box[1][r]) && IsNibble(S1Box[2][r]) && IsNibble(S1Box[3][r]);
  }

  lemma S2BoxWellFormed()
    ensures IsBox(S2Box)
  {
    assert forall r :: 0 <= r < 16 ==>
      IsNibble(S2Box[0][r]) && IsNibble(S2Box[1][r]) && IsNibble(S2Box[2][r]) && IsNibble(S2Box[3][r]);
  }

  /** Two 4-bit codes side by side make an 8-bit half. */
  lemma NibblePair(a: string, b: string)
    requires IsNibble(a) && IsNibble(b)
    ensures IsHalf(a + b)
  {
  }

  /** Two halves side by side make a block. */
  lemma HalvesBlock(a: string, b: string)
    requires IsHalf(a) && IsHalf(b)
    ensures IsBlock(a + b)
  {
    assert forall i :: 0 <= i < 16 ==> (a + b)[i] == if i < 8 then a[i] else b[i - 8];
  }

  // ---------------------------------------------------------------- key schedule

  /** Moves the first character to the end. */
  function ShiftLeft(s: string): (r: string)
    requires |s| > 0
    ensures |r| == |s| && (IsBinary(s) ==> IsBinary(r))
  {
    s[1..] + [s[0]]
  }

  /** ShiftLeft applied i times. */
  function ShiftLeftN(s: string, i: nat): (r: string)
    requires |s| > 0 || i == 0
    ensures |r| == |s| && (IsBinary(s) ==> IsBinary(r))
  {
    if i == 0 then s else ShiftLeft(ShiftLeftN(s, i - 1))
  }

  /** Shifting left i times, for i up to the length, is the rotation that starts at position i. */
  lemma {:induction false} ShiftLeftNRotates(s: string, i: nat)
    requires i <= |s|
    ensures ShiftLeftN(s, i) == s[i..] + s[..i]
  {
    if i > 0 {
      ShiftLeftNRotates(s, i - 1);
      var r := s[i - 1..] + s[..i - 1];
      assert r[0] == s[i - 1];
      assert r[1..] == s[i..] + s[..i - 1];
      assert s[..i] == s[..i - 1] + [s[i - 1]];
    }
  }

  /** Shifting a string left as many times as it is long gives it back. */
  lemma ShiftLeftFullTurn(s: string)
    ensures ShiftLeftN(s, |s|) == s
  {
    ShiftLeftNRotates(s, |s|);
    assert s[|s|..] + s[..|s|] == s;
  }

  /** The subkeys for the given number of rounds: subkey i is the key shifted left i times. */
  function KeySchedule(key: string, rounds: int): (ks: seq<string>)
    requires rounds <= 0 || |key| > 0
    ensures |ks| == if rounds < 0 then 0 else rounds
    ensures forall i :: 0 <= i < |ks| ==> ks[i] == ShiftLeftN(key, i)
    decreases rounds
  {
    if rounds <= 0 then [] else KeySchedule(key, rounds - 1) + [ShiftLeftN(key, rounds - 1)]
  }

  /**
   Shape of the schedule: one subkey per round (none for a round count
   below one), the first is the key, each later one is the one before it
   shifted left, all as long as the key, and all 12-bit when the key is.
   */
  lemma KeyScheduleShape(key: string, rounds: int, i: nat)
    requires rounds <= 0 || |key| > 0
    ensures var ks := KeySchedule(key, rounds);
      |ks| == (if rounds < 0 then 0 else rounds) &&
      (|ks| > 0 ==> ks[0] == key) &&
      (0 < i < |ks| ==> ks[i] == ShiftLeft(ks[i - 1])) &&
      (i < |ks| ==> |ks[i]| == |key|) &&
      (IsSubkey(key) ==> ValidSubkeys(ks))
  {
  }

  // ---------------------------------------------------------------- round function

  /** Picks, for each 1-based position in the list, the character of s at that position. */
  function Gather(positions: seq<nat>, s: string): (r: string)
    requires forall j :: 0 <= j < |positions| ==> 1 <= positions[j] <= |s|
    ensures |r| == |positions|
    ensures forall j :: 0 <= j < |positions| ==> r[j] == s[positions[j] - 1]
  {
    if positions == [] then [] else [s[positions[0] - 1]] + Gather(positions[1..], s)
  }

  /** Expansion of the 8-bit right half to 12 bits through the table Permut. */
  function Expand(ri: string): (e: string)
    requires |ri| >= 8
    ensures |e| == 12 && (IsBinary(ri) ==> IsBinary(e))
    ensures forall j :: 0 <= j < 12 ==> e[j] == ri[Permut[j] - 1]
  {
    Gather(Permut, ri)
  }

  /**
   The substitution step. The number is first written in base 2 padded to the
   key's width, then the characters [0..2] and [2..6] select a cell of S1Box
   and [6..8] and [8..12] a cell of S2Box. The padded string must be at least
   12 characters long.
   */
  function SBoxes(num: nat, key: string): (r: string)
    requires |NatToBits(num, |key|)| >= 12
    ensures IsHalf(r)
    ensures |key| == 12 && num < 4096 ==> r == BoxLookup(num)
  {
    var binStr := NatToBits(num, |key|);
    Pow2Values();
    BoxesWellFormed();
    var s1 := S1Box[BitsToNat(binStr[0..2])][BitsToNat(binStr[2..6])];
    var s2 := S2Box[BitsToNat(binStr[6..8])][BitsToNat(binStr[8..12])];
    NibblePair(s1, s2);
    SBoxFields(num, binStr);
    s1 + s2
  }

  /**
   The S-box output for a 12-bit value, looked up by its digit groups: the
   top two bits and the next four select the S1 entry, the next two and the
   low four the S2 entry.
   */
  function BoxLookup(num: nat): (r: string)
    requires num < 4096
    ensures IsHalf(r)
  {
    FieldBounds(num);
    BoxesWellFormed();
    var s1 := S1Box[num / 1024][num % 1024 / 64];
    var s2 := S2Box[num % 64 / 16][num % 16];
    NibblePair(s1, s2);
    s1 + s2
  }

  lemma FieldBounds(num: nat)
    ensures num < 4096 ==> num / 1024 < 4 && num % 1024 / 64 < 16 && num % 64 / 16 < 4
  {
  }

  /** The four index fields of a 12-bit string, read as numbers, are the corresponding digit groups of its value. */
  lemma SBoxFields(num: nat, b: string)
    requires IsBinary(b)
    ensures |b| == 12 && BitsToNat(b) == num ==>
      BitsToNat(b[0..2]) == num / 1024 && BitsToNat(b[2..6]) == num % 1024 / 64 &&
      BitsToNat(b[6..8]) == num % 64 / 16 && BitsToNat(b[8..12]) == num % 16
  {
    if |b| == 12 && BitsToNat(b) == num {
      Pow2Values();
      SplitSlice(b, 0, 2, 12);
      SplitSlice(b, 2, 6, 12);
      SplitSlice(b, 6, 8, 12);
      assert b[0..12] == b;
      DigitGroups(num, BitsToNat(b[0..2]), BitsToNat(b[2..12]), BitsToNat(b[2..6]),
        BitsToNat(b[6..12]), BitsToNat(b[6..8]), BitsToNat(b[8..12]));
    }
  }

  /** The value of the slice [i..j] split at k: the first part shifted, plus the second. */
  lemma SplitSlice(b: string, i: nat, k: nat, j: nat)
    requires IsBinary(b) && i <= k <= j <= |b|
    ensures BitsToNat(b[i..j]) == BitsToNat(b[i..k]) * Pow2(j - k) + BitsToNat(b[k..j])
  {
    var s := b[i..j];
    BitsToNatSplit(s, k - i);
    assert s[..k - i] == b[i..k];
    assert s[k - i..] == b[k..j];
  }

  lemma DigitGroups(num: nat, q1: nat, m1: nat, q2: nat, m2: nat, q3: nat, m3: nat)
    requires num == q1 * 1024 + m1 && m1 < 1024
    requires m1 == q2 * 64 + m2 && m2 < 64
    requires m2 == q3 * 16 + m3 && m3 < 16
    ensures q1 == num / 1024 && q2 == num % 1024 / 64 && q3 == num % 64 / 16 && m3 == num % 16
  {
    DivModUnique(num, q1, m1, 1024);
    DivModUnique(m1, q2, m2, 64);
    DivModUnique(num, q1 * 16 + q2, m2, 64);
    DivModUnique(m2, q3, m3, 16);
    DivModUnique(num, (q1 * 16 + q2) * 4 + q3, m3, 16);
  }

  lemma DivModUnique(n: nat, q: nat, r: nat, d: nat)
    requires d == 16 || d == 64 || d == 1024
    requires r < d && n == q * d + r
    ensures n / d == q && n % d == r
  {
    if d == 16 {
      assert n == q * 16 + r;
    } else if d == 64 {
      assert n == q * 64 + r;
    } else {
      assert n == q * 1024 + r;
    }
  }

  /** The keyed part of a round: expand the right half, XOR with the subkey, substitute. */
  function RoundF(ri: string, k: string): (r: string)
    requires IsHalf(ri) && IsSubkey(k)
    ensures IsHalf(r)
    ensures r == SBoxes(BitsToNat(XorBits(Expand(ri), k)), k)
  {
    var e := Expand(ri);
    var x := Xor(e, k);
    Pow2Values();
    SBoxes(x, k)
  }

  /**
   One round on the halves (l, ri) with subkey k: the new left half is the old
   right half, the new right half is RoundF(ri, k) XORed into l, re-padded to
   the width of l.
   */
  function Round(l: string, ri: string, k: string): (res: (string, string))
    requires IsHalf(l) && IsHalf(ri) && IsSubkey(k)
    ensures res.0 == ri && IsHalf(res.1)
    ensures res.1 == XorBits(RoundF(ri, k), l)
  {
    var sbox := RoundF(ri, k);
    var x := Xor(sbox, l);
    NatToBitsRoundTrip(XorBits(sbox, l));
    (ri, NatToBits(x, |l|))
  }

  /** Running a round on the swapped output of the same round, with the same subkey, gives back the swapped input. */
  lemma RoundUndo(l: string, ri: string, k: string)
    requires IsHalf(l) && IsHalf(ri) && IsSubkey(k)
    ensures var (a, b) := Round(l, ri, k); Round(b, a, k) == (ri, l)
  {
    var (a, b) := Round(l, ri, k);
    XorBitsCancel(RoundF(ri, k), l);
  }

  // ---------------------------------------------------------------- Feistel engine

  /** The rounds run on (l, r) with the subkeys in the order given. */
  function Rounds(l: string, r: string, ks: seq<string>): (res: (string, string))
    requires IsHalf(l) && IsHalf(r) && ValidSubkeys(ks)
    ensures IsHalf(res.0) && IsHalf(res.1)
    decreases |ks|
  {
    if ks == [] then (l, r)
    else
      var p := Rounds(l, r, ks[..|ks| - 1]);
      Round(p.0, p.1, ks[|ks| - 1])
  }

  /** Running one more subkey is one more round on the result. */
  lemma RoundsSnoc(l: string, r: string, ks: seq<string>, k: string)
    requires IsHalf(l) && IsHalf(r) && ValidSubkeys(ks) && IsSubkey(k)
    ensures ValidSubkeys(ks + [k])
    ensures var p := Rounds(l, r, ks); Rounds(l, r, ks + [k]) == Round(p.0, p.1, k)
  {
    assert (ks + [k])[..|ks|] == ks;
  }

  /** Running the subkeys a then b is running a, then b on the result. */
  lemma {:induction false} RoundsAppend(l: string, r: string, a: seq<string>, b: seq<string>)
    requires IsHalf(l) && IsHalf(r) && ValidSubkeys(a) && ValidSubkeys(b)
    ensures ValidSubkeys(a + b)
    ensures var p := Rounds(l, r, a); Rounds(l, r, a + b) == Rounds(p.0, p.1, b)
    decreases |b|
  {
    assert ValidSubkeys(a + b) by {
      forall i | 0 <= i < |a + b| ensures IsSubkey((a + b)[i]) {
        if i >= |a| { assert (a + b)[i] == b[i - |a|]; }
      }
    }
    if b == [] {
      assert a + b == a;
    } else {
      var b', k := b[..|b| - 1], b[|b| - 1];
      var p := Rounds(l, r, a);
      assert (a + b)[..|a + b| - 1] == a + b';
      assert (a + b)[|a + b| - 1] == k;
      RoundsAppend(l, r, a, b');
      var q := Rounds(l, r, a + b');
      assert q == Rounds(p.0, p.1, b');
      assert Rounds(l, r, a + b) == Round(q.0, q.1, k);
      assert Rounds(p.0, p.1, b) == Round(q.0, q.1, k);
    }
  }

  function Reverse<T>(s: seq<T>): (r: seq<T>)
    ensures |r| == |s|
  {
    if s == [] then [] else Reverse(s[1..]) + [s[0]]
  }

  lemma {:induction false} ReverseSnoc<T>(s: seq<T>, x: T)
    ensures Reverse(s + [x]) == [x] + Reverse(s)
    decreases |s|
  {
    if s != [] {
      assert (s + [x])[1..] == s[1..] + [x];
      ReverseSnoc(s[1..], x);
    }
  }

  lemma SplitLast<T>(s: seq<T>)
    requires |s| > 0
    ensures s == s[..|s| - 1] + [s[|s| - 1]]
  {
  }

  lemma TakeSnoc<T>(s: seq<T>, i: nat)
    requires i < |s|
    ensures s[..i + 1] == s[..i] + [s[i]]
  {
  }

  lemma ReverseDropSnoc<T>(s: seq<T>, i: nat)
    requires i < |s|
    ensures Reverse(s[i..]) == Reverse(s[i + 1..]) + [s[i]]
  {
    assert s[i..][1..] == s[i + 1..];
  }

  lemma {:induction false} ReverseValid(ks: seq<string>)
    requires ValidSubkeys(ks)
    ensures ValidSubkeys(Reverse(ks))
    decreases |ks|
  {
    if ks != [] {
      ReverseValid(ks[1..]);
    }
  }

  /**
   The Feistel inverse: running the subkeys in reverse order on the swapped
   output of the rounds gives back the swapped input. The S-box contents play
   no part, only the XOR cancelling out.
   */
  lemma {:induction false} RoundsUndo(l: string, r: string, ks: seq<string>)
    requires IsHalf(l) && IsHalf(r) && ValidSubkeys(ks)
    ensures ValidSubkeys(Reverse(ks))
    ensures var out := Rounds(l, r, ks); Rounds(out.1, out.0, Reverse(ks)) == (r, l)
    decreases |ks|
  {
    ReverseValid(ks);
    if ks == [] {
      return;
    }
    var ks', k := ks[..|ks| - 1], ks[|ks| - 1];
    var p := Rounds(l, r, ks');
    var out := Round(p.0, p.1, k);
    assert Rounds(l, r, ks) == out;
    SplitLast(ks);
    ReverseSnoc(ks', k);
    ReverseValid(ks');
    assert Reverse(ks) == [k] + Reverse(ks');
    RoundsAppend(out.1, out.0, [k], Reverse(ks'));
    assert [k][..0] == [];
    assert Rounds(out.1, out.0, [k]) == Round(out.1, out.0, k);
    RoundUndo(p.0, p.1, k);
    assert Round(out.1, out.0, k) == (p.1, p.0);
    RoundsUndo(l, r, ks');
    assert Rounds(p.1, p.0, Reverse(ks')) == (r, l);
  }

  /** Splits a block into its first 8 characters and the rest. */
  function SplitMessage(message: string): (halves: (string, string))
    requires |message| >= 8
    ensures |halves.0| == 8 && halves.0 + halves.1 == message
  {
    (message[..8], message[8..])
  }

  /** Encryption of one block: the rounds with ascending subkeys, the final halves returned as (right, left). */
  function EncryptBlock(ks: seq<string>, block: string): (out: (string, string))
    requires ValidSubkeys(ks) && IsBlock(block)
    ensures IsHalf(out.0) && IsHalf(out.1)
  {
    var (l, r) := SplitMessage(block);
    var (lN, rN) := Rounds(l, r, ks);
    (rN, lN)
  }

  /** Decryption of one block: the rounds with descending subkeys, the final halves returned as (left, right). */
  function DecryptBlock(ks: seq<string>, block: string): (out: (string, string))
    requires ValidSubkeys(ks) && IsBlock(block)
    ensures IsHalf(out.0) && IsHalf(out.1)
  {
    ReverseValid(ks);
    var (l, r) := SplitMessage(block);
    Rounds(l, r, Reverse(ks))
  }

  /**
   Block round trip: with the same subkeys, decrypting the concatenation R + L
   of the encryption's output (R, L) yields halves (dL, dR) with dR + dL the
   original block.
   */
  lemma BlockRoundTrip(ks: seq<string>, block: string)
    requires ValidSubkeys(ks) && IsBlock(block)
    ensures var (r, l) := EncryptBlock(ks, block);
            IsBlock(r + l) &&
            var (dL, dR) := DecryptBlock(ks, r + l);
            dR + dL == block
  {
    var (l0, r0) := SplitMessage(block);
    var (lN, rN) := Rounds(l0, r0, ks);
    RoundsUndo(l0, r0, ks);
    assert SplitMessage(rN + lN) == (rN, lN);
  }
}
