# DES16Bits in Dafny

A model of `DES16Bits`, a toy 16-bit block cipher shaped like DES. It is a
Feistel network: each block is split into two 8-bit halves, and in each
round the right half is expanded to 12 bits, XORed with a 12-bit round
subkey and passed through two 4×16 substitution boxes. The resulting 8 bits
are XORed into the left half, and the halves swap. The model covers:

- the key schedule, where each subkey is the previous one rotated left by
  one character;
- the round function and the Feistel engine in both directions;
- the message driver, which packs characters as 8-bit codes, pairs them
  into blocks (padding an odd count with a space), runs each block through
  the cipher and unpacks the output bits back into characters.

Bit strings are text made of `'0'` and `'1'`, as in the program, so the
S-box tables are the program's own literals. These .NET calls are written
out as functions:

- `Convert.ToInt32(s, 2)` is `BitsToNat`.
- `Convert.ToString(n, 2)` is `ToBinary`.
- `PadLeft(w, '0')` is `PadLeft`.
- Their composition is `NatToBits`.
- The integer `^` on the parsed values is `NatXor`.

The project has four modules:

- `BinaryStrings` (bits.dfy): the conversions and XOR.
- `Feistel` (feistel.dfy): the tables, key schedule, round function and the
  rounds as pure functions.
- `Message` (message.dfy): the message driver as pure functions.
- `Des16` (des16bits.dfy): the class `Des16Bits`.
  - Its constructor and `GenerateSubkeys` build the subkey list in a loop.
  - `Encrypt` and `Decrypt` update the two halves round by round.
  - `EncryptMessage` and `DecryptMessage` accumulate the output text block by
    block.
  - Each method is proved against the pure functions.

The headline results:

- `Feistel.BlockRoundTrip`: block decryption undoes block encryption. The
  proof relies on XOR cancelling out, and uses nothing about the S-box
  tables beyond each cell being 4 bits.
- `Message.MessageRoundTrip`: message decryption undoes message encryption,
  up to the space that pads an odd-length message.
- `Des16.EncryptThenDecrypt`: the same round trip, through two cipher
  objects built from the same key.

Encryption and decryption take a key of exactly 12 characters of
`'0'`/`'1'`. Shorter keys can make the program throw; longer ones are left out
(see below). A message has code points below 256. Encryption and
decryption use the round count the object was built with, a 32-bit
integer.

## Model

| member | source | states |
|---|---|---|
| BinaryStrings.BitsToNat | DES16Bits/DES16Bits/DES16Bits.cs:55 | base-2 parsing of a binary string; the value is below 2 to the power of its length |
| BinaryStrings.ToBinary | DES16Bits/DES16Bits/DES16Bits.cs:65 | base-2 formatting: a binary string with no leading zero ("0" for zero) that parses back to the number |
| BinaryStrings.PadLeftShape | DES16Bits/DES16Bits/DES16Bits.cs:65 | `PadLeft`, padding to width w: the result is w long, or as long as the string when it is already wider; it ends with the string, and everything before the string is '0' |
| BinaryStrings.NatToBits | DES16Bits/DES16Bits/DES16Bits.cs:101 | formatting padded to width w: a binary string at least w long that parses back to the number, exactly w long when the number fits in w bits |
| BinaryStrings.NatToBitsIsFixed | DES16Bits/DES16Bits/DES16Bits.cs:101 | a number that fits in w bits, formatted and padded to w, is exactly its w low-order bits |
| BinaryStrings.NatToBitsRoundTrip | DES16Bits/DES16Bits/DES16Bits.cs:101 | parsing a non-empty binary string and formatting it back to its own width gives the same string |
| BinaryStrings.BitsToNatSplit | DES16Bits/DES16Bits/DES16Bits.cs:67-70 | the value of a binary string is the value of its prefix shifted by the suffix's width, plus the value of the suffix |
| BinaryStrings.NatXor | DES16Bits/DES16Bits/DES16Bits.cs:55 | the integer `^` on non-negative values is zero exactly when the two values are equal; `XorOfValues` ties it to the character-wise XOR |
| BinaryStrings.Xor | DES16Bits/DES16Bits/DES16Bits.cs:53-56 | for two binary strings of the same width, the integer XOR of the parsed values is the value of the character-wise XOR |
| BinaryStrings.XorOfValues | DES16Bits/DES16Bits/DES16Bits.cs:55 | the integer XOR of two parsed equal-width binary strings equals the parsed character-wise XOR |
| BinaryStrings.XorBitsCancel | DES16Bits/DES16Bits/DES16Bits.cs:100 | XORing the same string in twice cancels out |
| Feistel.BoxesWellFormed | DES16Bits/DES16Bits/DES16Bits.cs:11-25 | both S-boxes are 4 by 16 and every cell is a 4-character binary string |
| Feistel.ShiftLeft | DES16Bits/DES16Bits/DES16Bits.cs:48-51 | a left shift keeps the length, and keeps a binary string binary |
| Feistel.ShiftLeftNRotates | DES16Bits/DES16Bits/DES16Bits.cs:48-51 | shifting left i times (i up to the length) is the rotation that starts at position i |
| Feistel.ShiftLeftFullTurn | DES16Bits/DES16Bits/DES16Bits.cs:48-51 | shifting a string left as many times as it is long gives it back |
| Feistel.KeySchedule | DES16Bits/DES16Bits/DES16Bits.cs:37-46 | one subkey per round (none for a count below one); subkey i is the key shifted left i times |
| Feistel.KeyScheduleShape | DES16Bits/DES16Bits/DES16Bits.cs:31-46 | the first subkey is the key; each later one is the previous one shifted left; all have the key's length; all are 12-bit when the key is |
| Feistel.Gather | DES16Bits/DES16Bits/DES16Bits.cs:96-97 | selecting by a list of 1-based positions gives one character per position: the character at that position |
| Feistel.Expand | DES16Bits/DES16Bits/DES16Bits.cs:96-97 | the expansion of the right half is 12 characters long; character j is the right half's character at Permut[j] |
| Feistel.SBoxes | DES16Bits/DES16Bits/DES16Bits.cs:63-76 | the substitution always gives 8 bits; for a 12-bit key and a value below 4096, slicing the padded string [0..2], [2..6], [6..8], [8..12] selects the same cells as the value's digit groups (`BoxLookup`) |
| Feistel.BoxLookup | DES16Bits/DES16Bits/DES16Bits.cs:72-75 | the two table cells selected by a 12-bit value's digit groups make an 8-bit half |
| Feistel.SBoxFields | DES16Bits/DES16Bits/DES16Bits.cs:67-70 | the four index fields of a 12-bit string, parsed, are the value divided by 1024; its remainder by 1024 divided by 64; its remainder by 64 divided by 16; and its remainder by 16 |
| Feistel.RoundF | DES16Bits/DES16Bits/DES16Bits.cs:96-99 | the keyed step (expand, XOR with the subkey, substitute) gives 8 bits; the XOR is the character-wise XOR of the expansion and the subkey |
| Feistel.Round | DES16Bits/DES16Bits/DES16Bits.cs:96-103 | one round: the new left half is the old right half; the new right half is 8 bits, the character-wise XOR of the keyed step and the old left half |
| Feistel.RoundUndo | DES16Bits/DES16Bits/DES16Bits.cs:98-103 | a round run on its own swapped output, with the same subkey, gives back the swapped input |
| Feistel.Rounds | DES16Bits/DES16Bits/DES16Bits.cs:94-104 | the round loop over the subkeys in the order given gives two 8-bit halves; `RoundsSnoc` states it is one round per subkey in order, and `RoundsUndo` that the reversed subkeys undo it |
| Feistel.RoundsSnoc | DES16Bits/DES16Bits/DES16Bits.cs:94-104 | running one more subkey is one more round on the result |
| Feistel.RoundsAppend | DES16Bits/DES16Bits/DES16Bits.cs:94-104 | running subkeys a then b is running a, then b on what a produced |
| Feistel.RoundsUndo | DES16Bits/DES16Bits/DES16Bits.cs:113-123 | the rounds run with the subkeys reversed on the swapped output give back the swapped input |
| Feistel.SplitMessage | DES16Bits/DES16Bits/DES16Bits.cs:58-61 | the first part is 8 characters, and the two parts together are the message |
| Feistel.EncryptBlock | DES16Bits/DES16Bits/DES16Bits.cs:90-107 | encrypting a block (subkeys ascending, halves returned as (right, left)) gives two 8-bit halves |
| Feistel.DecryptBlock | DES16Bits/DES16Bits/DES16Bits.cs:109-126 | decrypting a block (subkeys descending, halves returned as (left, right)) gives two 8-bit halves |
| Feistel.BlockRoundTrip | DES16Bits/DES16Bits/DES16Bits.cs:90-126 | with (R, L) the encryption of a block, decrypting R + L gives (dL, dR) with dR + dL the block |
| Message.Bin8 | DES16Bits/DES16Bits/DES16Bits.cs:80 | a character below 256 as an 8-bit string that parses back to its code |
| Message.Codes | DES16Bits/DES16Bits/DES16Bits.cs:80-83 | one code per character, plus one pad after an odd count |
| Message.MessageBlocks | DES16Bits/DES16Bits/DES16Bits.cs:78-88 | the number of blocks is the message length halved, rounded up |
| Message.MessageBlocksAt | DES16Bits/DES16Bits/DES16Bits.cs:78-88 | block i is the code of character 2i followed by that of character 2i+1, or by the space pad if there is none |
| Message.MessageBlocksValid | DES16Bits/DES16Bits/DES16Bits.cs:78-88 | every block is a 16-character binary string |
| Message.MessageBlocksAppend | DES16Bits/DES16Bits/DES16Bits.cs:78-88 | the blocks of a + b, with a of even length, are the blocks of a followed by those of b |
| Message.PadIsSpace | DES16Bits/DES16Bits/DES16Bits.cs:83 | the pad is the 8-bit code of a space |
| Message.ByteChar | DES16Bits/DES16Bits/DES16Bits.cs:137 | the character an 8-bit string encodes is below 256 |
| Message.Unpack | DES16Bits/DES16Bits/DES16Bits.cs:136-137 | one character per 8 bits, each below 256 |
| Message.UnpackBin8 | DES16Bits/DES16Bits/DES16Bits.cs:136-137 | unpacking two packed characters gives the two characters back |
| Message.Bin8OfByteChar | DES16Bits/DES16Bits/DES16Bits.cs:80 | packing the character an 8-bit string encodes gives the string back |
| Message.MessageBlocksOfUnpack | DES16Bits/DES16Bits/DES16Bits.cs:78-88 | the message made of a block's two characters has exactly that block as its only block |
| Message.BlockOut | DES16Bits/DES16Bits/DES16Bits.cs:133-152 | what one block emits is 16 bits: R + L when encrypting, dR + dL when decrypting |
| Message.BlockOutRoundTrip | DES16Bits/DES16Bits/DES16Bits.cs:135-151 | decrypting the bits that encryption emits for a block gives the block |
| Message.Outputs | DES16Bits/DES16Bits/DES16Bits.cs:133-138 | one output per block, each two characters below 256 |
| Message.Emit | DES16Bits/DES16Bits/DES16Bits.cs:131-140 | the text emitted for n blocks is 2n characters below 256 |
| Message.EmitStep | DES16Bits/DES16Bits/DES16Bits.cs:133-138 | the text of the first i + 1 blocks is the text of the first i followed by what block i emits |
| Message.EmitAppend | DES16Bits/DES16Bits/DES16Bits.cs:129-141 | emitting the blocks of a + b is emitting those of a, then those of b |
| Message.Transform | DES16Bits/DES16Bits/DES16Bits.cs:129-155 | the whole-message encryption or decryption: the output is as long as the message rounded up to even, its characters are below 256, and the empty message gives the empty text |
| Message.BlockIndependence | DES16Bits/DES16Bits/DES16Bits.cs:129-155 | for a of even length, the transform of a + b is the transform of a followed by that of b |
| Message.FirstPair | DES16Bits/DES16Bits/DES16Bits.cs:82-83 | the first pair has two characters; it followed by the padded rest is the padded message |
| Message.FirstBlock | DES16Bits/DES16Bits/DES16Bits.cs:78-88 | the first block packs the first pair, and the rest of the blocks are those of the rest of the message |
| Message.TransformFirstPair | DES16Bits/DES16Bits/DES16Bits.cs:129-155 | the text of a message is the text of its first pair's block followed by the text of the rest |
| Message.SingleBlock | DES16Bits/DES16Bits/DES16Bits.cs:133-138 | the text of a single block is what that block emits |
| Message.PairRoundTrip | DES16Bits/DES16Bits/DES16Bits.cs:133-151 | decrypting the two characters one encrypted pair produced gives the pair back |
| Message.MessageRoundTrip | DES16Bits/DES16Bits/DES16Bits.cs:129-155 | decrypting the encryption of a message gives the message back, with a space appended when its length is odd |
| Des16.Des16Bits.constructor | DES16Bits/DES16Bits/DES16Bits.cs:31-35 | stores the round count (a 32-bit integer other than the least one) and sets the subkeys to the key schedule of the key |
| Des16.Des16Bits.GenerateSubkeys | DES16Bits/DES16Bits/DES16Bits.cs:37-46 | appends the key schedule to the subkey list, shifting the current key after each append |
| Des16.Des16Bits.Encrypt | DES16Bits/DES16Bits/DES16Bits.cs:90-107 | the loop over ascending rounds returns (R, L) equal to the block encryption |
| Des16.Des16Bits.Decrypt | DES16Bits/DES16Bits/DES16Bits.cs:109-126 | the loop over descending rounds returns (L, R) equal to the block decryption |
| Des16.Des16Bits.GetMessage | DES16Bits/DES16Bits/DES16Bits.cs:78-88 | packs, pads and pairs the characters into exactly the message's blocks |
| Des16.Des16Bits.EncryptMessage | DES16Bits/DES16Bits/DES16Bits.cs:129-141 | the accumulated text is the encryption transform of the message |
| Des16.Des16Bits.DecryptMessage | DES16Bits/DES16Bits/DES16Bits.cs:143-155 | the accumulated text is the decryption transform of the message |
| Des16.EncryptThenDecrypt | DES16Bits/DES16Bits/DES16Bits.cs:129-155 | two objects built from the same 12-bit key and round count: decrypting what one encrypts gives the message back, padded to even length with a space |

## Left out

- The failures of `Convert.ToInt32` and `Convert.ToString` are not modelled: non-binary characters, the sign of 32-bit values, overflow. Callers must pass binary strings, and values stay far below 2^31.
- The failures of `Substring` and of indexing outside a table are not modelled. `Encrypt` and `Decrypt` require 12-character binary subkeys and a 16-character binary block.
  - With a shorter key, the padded string in `SBoxes` can be shorter than 12 characters, and the program then throws. With an 8-bit key such as `10100101`, `SBoxes` throws whenever the XOR value is below 2048.
- Keys longer than 12 characters are not modelled. The program accepts binary keys of 13 to 32 characters: the padded string in `SBoxes` is then at least 12 long, and every round completes.
- Des16.Des16Bits.constructor: excludes the round count `int.MinValue`. There `_rounds - 1` in `Decrypt` wraps to `int.MaxValue`, the loop runs over an empty subkey list and the program throws. Other round counts stay within 32 bits, and the model's counts are unbounded integers restricted to that range.
- The constructor only requires a non-empty key when there is at least one round. The program shifts the key after every subkey it appends, and shifting an empty key throws.
- Characters with code points of 256 or more are not modelled: their binary form is longer than 8 bits and breaks the block alignment. UTF-16 and other text encodings are left out.
- LINQ and `List<string>` are modelled as Dafny sequences. The list reference, and any aliasing of it, is not modelled.
- The cipher has no strength or confidentiality claims. Its tables are its own, not those of FIPS PUB 46-3.
- Feistel.EncryptBlock: states only that the output halves are 8 bits. What it computes is tied to the rounds by `Feistel.BlockRoundTrip` and by `Des16.Des16Bits.Encrypt`.
- Feistel.DecryptBlock: states only that the output halves are 8 bits. What it computes is tied to the rounds by `Feistel.BlockRoundTrip` and by `Des16.Des16Bits.Decrypt`.
