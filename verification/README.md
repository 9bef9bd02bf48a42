# A reduced AES-like cipher and its key-recovery attack, in Dafny

This project models the cryptographic core of `Main.java`, a command-line tool
that encrypts, decrypts and breaks a toy block cipher. The cipher works on
16-byte blocks, each read as a 4x4 byte matrix. One round is the AES ShiftRows
step (section 5.1.2 of FIPS 197) followed by AddRoundKey (section 5.1.4 of
FIPS 197). There are three rounds with three independent round keys. There is
no SubBytes, no MixColumns and no key expansion. Decryption runs the inverse
rounds: AddRoundKey, then InvShiftRows (section 5.3.1 of FIPS 197).

The model has four modules, one per component of the program:

- `BlockCodec` (`block_codec.dfy`) holds the byte and block types and the
  primitives `shiftRowsLeft`, `shiftRowsRight`, `addRoundKey` and
  `generateKey`. It also holds their algebra: the inverses, the xor
  involution, and the fact that ShiftRows distributes over the mask.
- `Layout` (`layout.dfy`) holds the per-block transpose `transpose`, the
  block splitter `getContentBlocks` (`Split`) and the byte order in which
  `writeToFile` emits blocks (`Flatten`).
- `Cipher` (`cipher.dfy`) holds the block encryption and decryption, the
  reading of round keys from a key file, and the `encrypt` and `decrypt`
  commands without their file I/O. It proves the round trips at block,
  block-sequence and file level.
- `Attack` (`attack.dfy`) holds `breakCipher` without its file I/O. It proves
  that the recovered keys map the known plaintext block onto the known
  ciphertext block. It also proves a stronger result: the three rounds
  collapse into ShiftRows applied three times followed by a single mask
  (`CollapsedKey`). The recovered key triple has the same collapsed mask as
  the keys that really encrypted the file, whatever those keys were. So one
  known block is enough to decrypt every block of the cipher file
  (`BreakCipherRecoversMessage`). The recovered key3 is in general not the
  true key3 (`RecoveredKeyNeedNotBeTrueKey`).

Bytes are modelled as `bv8`, the bit pattern of a Java `byte`. The Java xor
line promotes both bytes to `int`, xors them, masks with `0xff` and narrows
the result. `XorByte` writes out that sequence with 32-bit sign extension and
proves it equal to the plain byte xor.

Where the Java code throws, the model has a precondition instead. This covers
`blocks[0]` on an empty block array, and `keys[1]`/`keys[2]` when the key
file holds fewer than three blocks.

Behaviour of the code worth knowing:

- The key file is not checked to be exactly 48 bytes. Any file of at least
  48 bytes is accepted, and bytes after the first three blocks are ignored.
- Each key block is transposed on its own: round key i is the transpose of
  key-file block i.
- A trailing part of the input shorter than a block is dropped silently,
  both in the message and in the key file. There is no size-mismatch error.
- The attack works against any key triple that produced the known pair
  (`RecoverKeysIsEquivalent`).

## Model

| member | source | states |
|---|---|---|
| `BlockCodec.ShiftRowsLeft` | Main.java:219-229 | ShiftRows: the four rows, row i rotated left by i and row 0 kept; its cells are stated in `ShiftRowsLeftCells` and its inverse in `ShiftRowsRightInvertsLeft`. |
| `BlockCodec.ShiftRowsRight` | Main.java:238-248 | InvShiftRows: the four rows, row i rotated right by i; its cells are stated in `ShiftRowsRightCells` and its inverse in `ShiftRowsLeftInvertsRight`. |
| `BlockCodec.ShiftRowsLeftCells` | Main.java:219-229 | Byte (i, c) of the result is byte (i, (c + i) mod 4) of the input: row i is rotated left by i and row 0 is unchanged. |
| `BlockCodec.ShiftRowsRightCells` | Main.java:238-248 | Byte (i, c) of the result is byte (i, (c - i) mod 4) of the input: row i is rotated right by i. |
| `BlockCodec.ShiftRowsRightInvertsLeft` | Main.java:219-248 | shiftRowsRight undoes shiftRowsLeft on every block. |
| `BlockCodec.ShiftRowsLeftInvertsRight` | Main.java:219-248 | shiftRowsLeft undoes shiftRowsRight on every block. |
| `BlockCodec.XorByte` | Main.java:260 | Sign-extending both bytes, xoring them, masking with 0xff and narrowing gives the plain xor of the two bytes. |
| `BlockCodec.AddRoundKey` | Main.java:256-264 | Byte i of the result is block[i] xor key[i], for all 16 positions. |
| `BlockCodec.AddRoundKeyInvolution` | Main.java:256-264 | Applying addRoundKey twice with the same key returns the original block. |
| `BlockCodec.AddRoundKeyCommutes` | Main.java:256-264 | The block and the key can be swapped. |
| `BlockCodec.AddRoundKeyAssociates` | Main.java:256-264 | Two masks applied one after the other equal one mask of their xor. |
| `BlockCodec.AddRoundKeyReachesTarget` | Main.java:142 | Masking a block with (target xor block) gives the target. The attack's key3 relies on this. |
| `BlockCodec.AddRoundKeyCancels` | Main.java:256-264 | A mask is determined by the block and the masked block. |
| `BlockCodec.AddZeroKey` | Main.java:133 | The all-zero key, generateKey(0), leaves a block unchanged. |
| `BlockCodec.ShiftRowsLeftDistributes` | Main.java:219-229 | shiftRowsLeft of a masked block equals the shifted block masked with the shifted key. |
| `BlockCodec.GenerateKey` | Main.java:285-291 | The key holds one byte value in all 16 positions. |
| `BlockCodec.GenerateKeyTruncates` | Main.java:286 | Only num mod 256 reaches the key, as byteValue keeps the low eight bits. |
| `BlockCodec.GenerateKeyByte` | Main.java:285-291 | Every key byte, read as an unsigned number, is num mod 256: the low eight bits that `Integer.byteValue` keeps. |
| `BlockCodec.GenerateKeyValues` | Main.java:132-133 | generateKey(0) is sixteen 0 bytes and generateKey(1) is sixteen 1 bytes. |
| `BlockCodec.ShiftRowsLeftFixesGeneratedKey` | Main.java:285-291 | A constant-filled key is unchanged by shiftRowsLeft. |
| `Layout.TransposedIndexSwaps` | Main.java:276 | The target index (j % 4) * 4 + j / 4 swaps row and column, stays below 16, and is its own inverse. |
| `Layout.TransposeBlock` | Main.java:276 | The byte at position j goes to position (j % 4) * 4 + j / 4, i.e. (row, col) goes to (col, row). |
| `Layout.Transpose` | Main.java:272-278 | The non-empty block sequence keeps its length, and inside block i byte j moves to (j % 4) * 4 + j / 4. |
| `Layout.TransposeBlockInvolution` | Main.java:276 | Transposing a block twice returns it. |
| `Layout.TransposeInvolution` | Main.java:272-278 | Transposing a block sequence twice returns it. |
| `Layout.Split` | Main.java:203-210 | The result has \|content\| / 16 blocks, and byte j of block i is content[16 * i + j]. |
| `Layout.Flatten` | Main.java:178-188 | Writing n blocks emits 16 * n bytes. |
| `Layout.FlattenCells` | Main.java:178-188 | Byte j of block i is written at position 16 * i + j. |
| `Layout.SplitFlatten` | Main.java:203-210 | Splitting the bytes written for a block sequence gives back the blocks. |
| `Layout.FlattenSplit` | Main.java:203-210 | Writing the blocks of a buffer gives the buffer up to its last whole block, so a trailing partial block is dropped. |
| `Cipher.ReadRoundKeys` | Main.java:53-57 | Round key k is key-file block k transposed: key k at position (j % 4) * 4 + j / 4 is key-file byte 16 * k + j. |
| `Cipher.RoundKeyFile` | Main.java:143-144 | The three keys, each transposed, as the attack writes them: three blocks, read back as the same keys by `RoundKeyFileRoundTrip`. |
| `Cipher.EncryptBlocks` | Main.java:60-68 | Encryption keeps the number of blocks. |
| `Cipher.DecryptBlocks` | Main.java:97-105 | Decryption keeps the number of blocks. |
| `Cipher.EncryptFile` | Main.java:48-68 | Encryption writes \|message\| / 16 blocks. |
| `Cipher.DecryptFile` | Main.java:85-105 | Decryption writes \|cipher\| / 16 blocks. |
| `Cipher.Round` | Main.java:64-66 | One encryption round: shiftRowsLeft, then addRoundKey; undone by `InverseRound` as `InverseRoundInvertsRound` states. |
| `Cipher.InverseRound` | Main.java:101-103 | One decryption round: addRoundKey, then shiftRowsRight; undone by `Round` as `RoundInvertsInverseRound` states. |
| `Cipher.EncryptBlock` | Main.java:63-66 | The nested encrypt expression: rounds with key1, key2, key3 in turn; inverted by `DecryptBlock` (`DecryptBlockInvertsEncryptBlock`) and collapsed to one mask by `Attack.EncryptBlockIsAffine`. |
| `Cipher.DecryptBlock` | Main.java:100-103 | The nested decrypt expression: inverse rounds with key3, key2, key1 in turn; inverted by `EncryptBlock` (`EncryptBlockInvertsDecryptBlock`). |
| `Cipher.InverseRoundInvertsRound` | Main.java:101-103 | One decryption round undoes one encryption round with the same key. |
| `Cipher.RoundInvertsInverseRound` | Main.java:64-66 | One encryption round undoes one decryption round with the same key. |
| `Cipher.DecryptBlockInvertsEncryptBlock` | Main.java:63-66 | For any block and any keys k1, k2, k3, the decrypt expression applied to the encrypt expression returns the block. |
| `Cipher.EncryptBlockInvertsDecryptBlock` | Main.java:100-103 | For any block and any key triple, the encrypt expression applied to the decrypt expression returns the block. |
| `Cipher.EncryptBlocksIsBlockwise` | Main.java:61-67 | Each output block depends only on its own input block, and every block uses the same three keys. |
| `Cipher.DecryptBlocksIsBlockwise` | Main.java:98-104 | Each decrypted block depends only on its own input block, and every block uses the same three keys. |
| `Cipher.DecryptBlocksInvertsEncryptBlocks` | Main.java:48-68 | transpose, encrypt each block, transpose, then transpose, decrypt each block, transpose returns the original blocks. |
| `Cipher.EncryptBlocksInvertsDecryptBlocks` | Main.java:85-105 | The decrypt pipeline followed by the encrypt pipeline returns the original blocks. |
| `Cipher.FileRoundTrip` | Main.java:44-109 | Decrypting the written cipher file with the same key file gives Split(message). Written out, that is the message up to its last whole block. |
| `Cipher.AlignedFileRoundTrip` | Main.java:44-109 | A message made of whole blocks comes back byte for byte. |
| `Cipher.EndToEndExample` | Main.java:44-109 | Sixteen 0xAA bytes, encrypted and decrypted with the key file 16 x 0x00, 16 x 0x11, 16 x 0x22, come back unchanged. |
| `Cipher.RoundKeyFileRoundTrip` | Main.java:143-144 | A key file written from three round keys reads back as the same three keys. |
| `Attack.AttackKey1` | Main.java:132 | The attack's key1, generateKey(1): sixteen bytes 1. |
| `Attack.AttackKey2` | Main.java:133 | The attack's key2, generateKey(0): sixteen bytes 0. |
| `Attack.RecoverKeys` | Main.java:132-142 | key1 = generateKey(1), key2 = generateKey(0), and key3 = cipher xor c2tag makes the three rounds map the plaintext block onto the ciphertext block. |
| `Attack.BreakCipher` | Main.java:118-148 | The attack writes a key file of three blocks. |
| `Attack.BreakCipherWritesRecoveredKeys` | Main.java:137-147 | The key file the attack writes reads back as the keys recovered from the first transposed message and cipher blocks. |
| `Attack.RecoverKeysDecryptsKnownBlock` | Main.java:137-142 | The recovered keys decrypt the known ciphertext block to the known plaintext block. |
| `Attack.EncryptBlockIsAffine` | Main.java:63-66 | Three rounds equal shiftRowsLeft applied three times, followed by one mask built from key1, key2 and key3. |
| `Attack.SameCollapsedKeySameCipher` | Main.java:61-67 | Two key triples with the same collapsed mask encrypt and decrypt every block alike. |
| `Attack.RecoverKeysIsEquivalent` | Main.java:132-142 | For any true keys, the recovered keys have the same collapsed mask, so they encrypt and decrypt every block as the true keys do. |
| `Attack.RecoveredKeyNeedNotBeTrueKey` | Main.java:138-142 | With all-zero true keys and a zero plaintext, the recovered key3 is sixteen 1 bytes, not the true all-zero key3. |
| `Attack.BreakCipherDecryptsKnownBlock` | Main.java:118-148 | The written key file decrypts the first cipher-file block to the first message-file block. |
| `Attack.BreakCipherEncryptsKnownBlock` | Main.java:118-148 | The written key file encrypts the first message-file block to the first cipher-file block. |
| `Attack.DecryptBlocksSameCollapsedKey` | Main.java:97-104 | Decrypting a block sequence with two key triples that share the collapsed mask gives the same result. |
| `Attack.BreakCipherRecoversMessage` | Main.java:118-148 | Suppose the attack gets a message whose first block matches the first block of an encrypted file. Then the key file it writes decrypts the whole cipher file, whatever key file encrypted it. |

## Left out

- `getFileContent` and `writeToFile` (Main.java:155-195) are file I/O. Their exception handling and the possible null buffer are not modelled. `Flatten` models only the byte order in which `writeToFile` emits blocks.
- `main` and `validateArguments` (Main.java:16-35, Main.java:298-306) are command-line plumbing. They are not modelled. The commented-out test arguments are not modelled either.
- Java exceptions on short inputs become preconditions. An empty block array in `transpose`, or in the `new byte[..][blocks[0].length]` of `encrypt` and `decrypt`, needs at least 16 bytes of input. Fewer than three key blocks needs a key file of at least 48 bytes. An empty message or cipher file in `breakCipher` needs at least 16 bytes in each.
- Blocks whose length is not 16 are excluded by the `Block` type. In Main.java they would make `shiftRowsLeft`/`shiftRowsRight` throw or leave zero bytes, and make `addRoundKey` throw or pad with zeros.
- No result of the core depends on the sign of a byte. The one place Main.java widens bytes to `int` is the xor at Main.java:260, and its `& 0xff` removes the sign bits again. `XorByte` models the sign extension and proves it has no effect.
- Nothing beyond ShiftRows, InvShiftRows and AddRoundKey from FIPS 197 is modelled, because the program has no S-box, no MixColumns and no key schedule.
