/**
 The cipher object. It holds the round count and the subkeys derived from
 the key at construction; nothing changes afterwards. Encrypt and Decrypt run
 the rounds on one block, updating the two halves step by step, and are
 proved against the Feistel functions; the message methods accumulate the
 output text block by block and are proved against the Message functions.
 */
module Des16 {
  import opened BinaryStrings
  import opened Feistel
  import opened Message

  /**
   The round count is a 32-bit signed integer. Its least value is excluded:
   decryption starts at the count minus one, which wraps around there.
   */
  const MinRounds: int := -0x7fff_ffff
  const MaxRounds: int := 0x7fff_ffff

  class Des16Bits {
    var rounds: int
    var subkeys: seq<string>
    /** The key the subkeys were derived from. */
    ghost var rootKey: string

    /** The subkeys are the key schedule of the key for the round count. */
    ghost predicate Valid()
      reads this
    {
      MinRounds <= rounds <= MaxRounds &&
      (rounds <= 0 || |rootKey| > 0) && subkeys == KeySchedule(rootKey, rounds)
    }

    constructor (key: string, rounds: int := 6)
      requires MinRounds <= rounds <= MaxRounds
      requires rounds <= 0 || |key| > 0
      ensures Valid() && this.rounds == rounds && rootKey == key
      ensures subkeys == KeySchedule(key, rounds)
    {
      this.rounds := rounds;
      rootKey := key;
      subkeys := [];
      new;
      GenerateSubkeys(key);
    }

    /**
     Appends one subkey per round, starting from the key and shifting it left
     after each one (also after the last, so a key is shifted at least once
     whenever there is a round).
     */
    method GenerateSubkeys(key: string)
      requires rounds <= 0 || |key| > 0
      modifies this`subkeys
      ensures subkeys == old(subkeys) + KeySchedule(key, rounds)
    {
      var currentKey := key;
      var i := 0;
      while i < rounds
        invariant 0 <= i && (i <= rounds || i == 0)
        invariant currentKey == ShiftLeftN(key, i)
        invariant subkeys == old(subkeys) + KeySchedule(key, i)
      {
        subkeys := subkeys + [currentKey];
        currentKey := ShiftLeft(currentKey);
        i := i + 1;
      }
    }

    /**
     Encrypts one 16-bit block: splits it into (L, Ri), runs the rounds with
     subkeys in ascending order, and returns (Ri, L).
     */
    method Encrypt(message: string) returns (r: string, l: string)
      requires Valid() && ValidSubkeys(subkeys) && IsBlock(message)
      ensures (r, l) == EncryptBlock(subkeys, message)
    {
      var halves := SplitMessage(message);
      var left, ri := halves.0, halves.1;
      var round := 0;
      while round < rounds
        invariant 0 <= round <= |subkeys| && IsHalf(halves.0) && IsHalf(halves.1)
        invariant ValidSubkeys(subkeys[..round])
        invariant (left, ri) == Rounds(halves.0, halves.1, subkeys[..round])
      {
        var k := subkeys[round];
        var eOfRi := Expand(ri);
        var eXorK := Xor(eOfRi, k);
        Pow2Values();
        var sbox := SBoxes(eXorK, k);
        var sboxXorL := Xor(sbox, left);
        var newRi := NatToBits(sboxXorL, |left|);
        TakeSnoc(subkeys, round);
        RoundsSnoc(halves.0, halves.1, subkeys[..round], k);
        left, ri := ri, newRi;
        round := round + 1;
      }
      assert subkeys[..round] == subkeys;
      r, l := ri, left;
    }

    /**
     Decrypts one 16-bit block: splits it into (L, Ri), runs the rounds with
     subkeys in descending order, and returns (L, Ri) without the final swap.
     */
    method Decrypt(message: string) returns (l: string, r: string)
      requires Valid() && ValidSubkeys(subkeys) && IsBlock(message)
      ensures (l, r) == DecryptBlock(subkeys, message)
    {
      var halves := SplitMessage(message);
      var left, ri := halves.0, halves.1;
      var round := rounds - 1;
      ghost var done: seq<string> := [];
      while round >= 0
        invariant round < |subkeys| && IsHalf(halves.0) && IsHalf(halves.1)
        invariant ValidSubkeys(done) && (left, ri) == Rounds(halves.0, halves.1, done)
        invariant round >= -1 ==> done == Reverse(subkeys[round + 1..])
        invariant round < -1 ==> subkeys == [] && done == []
      {
        var k := subkeys[round];
        var eOfRi := Expand(ri);
        var eXorK := Xor(eOfRi, k);
        Pow2Values();
        var sbox := SBoxes(eXorK, k);
        var sboxXorL := Xor(sbox, left);
        var newRi := NatToBits(sboxXorL, |left|);
        ReverseDropSnoc(subkeys, round);
        RoundsSnoc(halves.0, halves.1, done, k);
        done := done + [k];
        left, ri := ri, newRi;
        round := round - 1;
      }
      if round == -1 {
        assert subkeys[round + 1..] == subkeys;
      }
      l, r := left, ri;
    }

    /** The 16-bit blocks of a message: each character as 8 bits, a space added to an odd count, then paired. */
    method GetMessage(message: string) returns (blocks: seq<string>)
      requires IsByteText(message)
      ensures blocks == MessageBlocks(message)
    {
      var binMesList := seq(|message|, i requires 0 <= i < |message| => Bin8(message[i]));
      if |binMesList| % 2 != 0 {
        binMesList := binMesList + [Pad];
      }
      assert binMesList == Codes(message);
      blocks := seq(|binMesList| / 2, i requires 0 <= i < |binMesList| / 2 => binMesList[2 * i] + binMesList[2 * i + 1]);
    }

    /** Encrypts each block, appending the characters of R + L to the output. */
    method EncryptMessage(message: string) returns (enc: string)
      requires Valid() && ValidSubkeys(subkeys) && IsByteText(message)
      ensures enc == Transform(Encryption, subkeys, message)
    {
      var blocks := GetMessage(message);
      MessageBlocksValid(message);
      enc := "";
      var i := 0;
      while i < |blocks|
        invariant 0 <= i <= |blocks| && AllBlocks(blocks[..i])
        invariant enc == Emit(Encryption, subkeys, blocks[..i])
      {
        var r, l := Encrypt(blocks[i]);
        assert r + l == BlockOut(Encryption, subkeys, blocks[i]);
        EmitStep(Encryption, subkeys, blocks, i);
        enc := enc + Unpack(r + l);
        i := i + 1;
      }
      assert blocks[..i] == blocks;
      assert Transform(Encryption, subkeys, message) == Emit(Encryption, subkeys, blocks);
    }

    /** Decrypts each block, appending the characters of dR + dL to the output. */
    method DecryptMessage(message: string) returns (dec: string)
      requires Valid() && ValidSubkeys(subkeys) && IsByteText(message)
      ensures dec == Transform(Decryption, subkeys, message)
    {
      var blocks := GetMessage(message);
      MessageBlocksValid(message);
      dec := "";
      var i := 0;
      while i < |blocks|
        invariant 0 <= i <= |blocks| && AllBlocks(blocks[..i])
        invariant dec == Emit(Decryption, subkeys, blocks[..i])
      {
        var dL, dR := Decrypt(blocks[i]);
        assert dR + dL == BlockOut(Decryption, subkeys, blocks[i]);
        EmitStep(Decryption, subkeys, blocks, i);
        dec := dec + Unpack(dR + dL);
        i := i + 1;
      }
      assert blocks[..i] == blocks;
      assert Transform(Decryption, subkeys, message) == Emit(Decryption, subkeys, blocks);
    }
  }

  /**
   Two cipher objects built from the same 12-bit key and round count: what
   one encrypts, the other decrypts back to the message, with a space
   appended when the message has an odd length.
   */
  method EncryptThenDecrypt(key: string, rounds: int, message: string) returns (plain: string)
    requires MinRounds <= rounds <= MaxRounds
    requires IsSubkey(key) && IsByteText(message)
    ensures plain == Padded(message)
  {
    KeyScheduleShape(key, rounds, 0);
    var sender := new Des16Bits(key, rounds);
    var cipherText := sender.EncryptMessage(message);
    MessageRoundTrip(sender.subkeys, message);
    var receiver := new Des16Bits(key, rounds);
    plain := receiver.DecryptMessage(cipherText);
  }
}
