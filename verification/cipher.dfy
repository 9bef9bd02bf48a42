/** The cipher engine: three rounds of ShiftRows followed by AddRoundKey on
    each block, their inverse, and the file-level pipelines that cut the
    input into blocks, transpose them, run the rounds on every block with the
    same three keys and transpose the result back.
 */
module Cipher {
  import opened BlockCodec
  import opened Layout

  /** The three round keys, each used as a plain xor mask. */
  datatype RoundKeys = RoundKeys(key1: Block, key2: Block, key3: Block)

  /** Number of bytes of the key file the cipher reads: three blocks. */
  const KeyFileSize: nat := 48

  /** One encryption round: ShiftRows, then AddRoundKey. */
  function Round(state: Block, key: Block): Block {
    AddRoundKey(ShiftRowsLeft(state), key)
  }

  /** One decryption round: AddRoundKey, then InvShiftRows. */
  function InverseRound(state: Block, key: Block): Block {
    ShiftRowsRight(AddRoundKey(state, key))
  }

  /** The three rounds with key1, key2 and key3, in that order. */
  function EncryptBlock(block: Block, keys: RoundKeys): Block {
    Round(Round(Round(block, keys.key1), keys.key2), keys.key3)
  }

  /** The three inverse rounds with key3, key2 and key1, in that order. */
  function DecryptBlock(block: Block, keys: RoundKeys): Block {
    InverseRound(InverseRound(InverseRound(block, keys.key3), keys.key2), keys.key1)
  }

  /** The round keys of a key file: its first three blocks, each transposed.
      Bytes after the first 48 are ignored. */
  function ReadRoundKeys(keyFile: seq<Byte>): (keys: RoundKeys)
    requires |keyFile| >= KeyFileSize
    ensures forall j {:trigger keys.key1[TransposedIndex(j)]} :: 0 <= j < 16 ==>
              keys.key1[TransposedIndex(j)] == keyFile[j]
    ensures forall j {:trigger keys.key2[TransposedIndex(j)]} :: 0 <= j < 16 ==>
              keys.key2[TransposedIndex(j)] == keyFile[16 + j]
    ensures forall j {:trigger keys.key3[TransposedIndex(j)]} :: 0 <= j < 16 ==>
              keys.key3[TransposedIndex(j)] == keyFile[2 * 16 + j]
  {
    var blocks := Transpose(Split(keyFile));
    RoundKeys(blocks[0], blocks[1], blocks[2])
  }

  /** The key file that holds the given round keys: the three keys, each
      transposed, in order. */
  function RoundKeyFile(keys: RoundKeys): (blocks: seq<Block>)
    ensures |blocks| == 3
  {
    Transpose([keys.key1, keys.key2, keys.key3])
  }

  /** Encryption of a block sequence in file order: transpose every block,
      encrypt every block with the same keys, transpose back. */
  function EncryptBlocks(blocks: seq<Block>, keys: RoundKeys): (r: seq<Block>)
    requires |blocks| > 0
    ensures |r| == |blocks|
  {
    var state := Transpose(blocks);
    Transpose(seq(|state|, i requires 0 <= i < |state| => EncryptBlock(state[i], keys)))
  }

  /** Decryption of a block sequence in file order: transpose every block,
      decrypt every block with the same keys, transpose back. */
  function DecryptBlocks(blocks: seq<Block>, keys: RoundKeys): (r: seq<Block>)
    requires |blocks| > 0
    ensures |r| == |blocks|
  {
    var state := Transpose(blocks);
    Transpose(seq(|state|, i requires 0 <= i < |state| => DecryptBlock(state[i], keys)))
  }

  /** The encrypt command without its file I/O: the blocks written for a
      message and a key file. Main.java reads the first message block and
      the first three key blocks, so both files must be long enough. */
  function EncryptFile(message: seq<Byte>, keyFile: seq<Byte>): (r: seq<Block>)
    requires |message| >= 16
    requires |keyFile| >= KeyFileSize
    ensures |r| == |message| / 16
  {
    EncryptBlocks(Split(message), ReadRoundKeys(keyFile))
  }

  /** The decrypt command without its file I/O. */
  function DecryptFile(cipher: seq<Byte>, keyFile: seq<Byte>): (r: seq<Block>)
    requires |cipher| >= 16
    requires |keyFile| >= KeyFileSize
    ensures |r| == |cipher| / 16
  {
    DecryptBlocks(Split(cipher), ReadRoundKeys(keyFile))
  }

  // ---------------------------------------------------------------------
  // Round trips
  // ---------------------------------------------------------------------

  /** A decryption round undoes an encryption round with the same key. */
  lemma InverseRoundInvertsRound(state: Block, key: Block)
    ensures InverseRound(Round(state, key), key) == state
  {
    AddRoundKeyInvolution(ShiftRowsLeft(state), key);
    ShiftRowsRightInvertsLeft(state);
  }

  /** An encryption round undoes a decryption round with the same key. */
  lemma RoundInvertsInverseRound(state: Block, key: Block)
    ensures Round(InverseRound(state, key), key) == state
  {
    ShiftRowsLeftInvertsRight(AddRoundKey(state, key));
    AddRoundKeyInvolution(state, key);
  }

  /** Decryption undoes encryption, for every block and every key triple. */
  lemma DecryptBlockInvertsEncryptBlock(block: Block, keys: RoundKeys)
    ensures DecryptBlock(EncryptBlock(block, keys), keys) == block
  {
    var r1 := Round(block, keys.key1);
    var r2 := Round(r1, keys.key2);
    InverseRoundInvertsRound(r2, keys.key3);
    InverseRoundInvertsRound(r1, keys.key2);
    InverseRoundInvertsRound(block, keys.key1);
  }

  /** Encryption undoes decryption, so a block cipher is a permutation of
      blocks for each key triple. */
  lemma EncryptBlockInvertsDecryptBlock(block: Block, keys: RoundKeys)
    ensures EncryptBlock(DecryptBlock(block, keys), keys) == block
  {
    var d2 := InverseRound(block, keys.key3);
    var d1 := InverseRound(d2, keys.key2);
    RoundInvertsInverseRound(d1, keys.key1);
    RoundInvertsInverseRound(d2, keys.key2);
    RoundInvertsInverseRound(block, keys.key3);
  }

  /** Every block is processed on its own with the same keys: equal blocks at
      any two positions of any two inputs give equal encrypted blocks. */
  lemma EncryptBlocksIsBlockwise(blocks: seq<Block>, other: seq<Block>, keys: RoundKeys, i: nat, j: nat)
    requires i < |blocks| && j < |other|
    requires blocks[i] == other[j]
    ensures EncryptBlocks(blocks, keys)[i] == EncryptBlocks(other, keys)[j]
    ensures EncryptBlocks(blocks, keys)[i]
         == TransposeBlock(EncryptBlock(TransposeBlock(blocks[i]), keys))
  {
  }

  /** Every block is decrypted on its own with the same keys. */
  lemma DecryptBlocksIsBlockwise(blocks: seq<Block>, other: seq<Block>, keys: RoundKeys, i: nat, j: nat)
    requires i < |blocks| && j < |other|
    requires blocks[i] == other[j]
    ensures DecryptBlocks(blocks, keys)[i] == DecryptBlocks(other, keys)[j]
    ensures DecryptBlocks(blocks, keys)[i]
         == TransposeBlock(DecryptBlock(TransposeBlock(blocks[i]), keys))
  {
  }

  /** Decrypting the encrypted block sequence with the same keys gives back
      the blocks. */
  lemma DecryptBlocksInvertsEncryptBlocks(blocks: seq<Block>, keys: RoundKeys)
    requires |blocks| > 0
    ensures DecryptBlocks(EncryptBlocks(blocks, keys), keys) == blocks
  {
    var r := DecryptBlocks(EncryptBlocks(blocks, keys), keys);
    forall i | 0 <= i < |blocks|
      ensures r[i] == blocks[i]
    {
      var t := TransposeBlock(blocks[i]);
      TransposeBlockInvolution(EncryptBlock(t, keys));
      DecryptBlockInvertsEncryptBlock(t, keys);
      TransposeBlockInvolution(blocks[i]);
    }
  }

  /** Encrypting the decrypted block sequence with the same keys gives back
      the blocks. */
  lemma EncryptBlocksInvertsDecryptBlocks(blocks: seq<Block>, keys: RoundKeys)
    requires |blocks| > 0
    ensures EncryptBlocks(DecryptBlocks(blocks, keys), keys) == blocks
  {
    var r := EncryptBlocks(DecryptBlocks(blocks, keys), keys);
    forall i | 0 <= i < |blocks|
      ensures r[i] == blocks[i]
    {
      var t := TransposeBlock(blocks[i]);
      TransposeBlockInvolution(DecryptBlock(t, keys));
      EncryptBlockInvertsDecryptBlock(t, keys);
      TransposeBlockInvolution(blocks[i]);
    }
  }

  /** Decrypting the file written by encryption, with the same key file,
      gives back the message's blocks; written out, they are the message up
      to its last whole block. */
  lemma FileRoundTrip(message: seq<Byte>, keyFile: seq<Byte>)
    requires |message| >= 16
    requires |keyFile| >= KeyFileSize
    ensures |Flatten(EncryptFile(message, keyFile))| >= 16
    ensures DecryptFile(Flatten(EncryptFile(message, keyFile)), keyFile) == Split(message)
    ensures Flatten(DecryptFile(Flatten(EncryptFile(message, keyFile)), keyFile))
         == message[..16 * (|message| / 16)]
  {
    var encrypted := EncryptFile(message, keyFile);
    SplitFlatten(encrypted);
    DecryptBlocksInvertsEncryptBlocks(Split(message), ReadRoundKeys(keyFile));
    FlattenSplit(message);
  }

  /** A key file written from round keys reads back as the same keys. */
  lemma RoundKeyFileRoundTrip(keys: RoundKeys)
    ensures |Flatten(RoundKeyFile(keys))| == KeyFileSize
    ensures ReadRoundKeys(Flatten(RoundKeyFile(keys))) == keys
  {
    var written := RoundKeyFile(keys);
    SplitFlatten(written);
    TransposeInvolution([keys.key1, keys.key2, keys.key3]);
  }

  /** A message made of whole blocks comes back byte for byte. */
  lemma AlignedFileRoundTrip(message: seq<Byte>, keyFile: seq<Byte>)
    requires |message| >= 16 && |message| % 16 == 0
    requires |keyFile| >= KeyFileSize
    ensures |Flatten(EncryptFile(message, keyFile))| == |message|
    ensures Flatten(DecryptFile(Flatten(EncryptFile(message, keyFile)), keyFile)) == message
  {
    FileRoundTrip(message, keyFile);
    assert 16 * (|message| / 16) == |message|;
  }

  /** The end-to-end example: a 16-byte message of 0xAA bytes, encrypted and
      decrypted with the key file of 16 bytes 0x00, 16 bytes 0x11 and 16
      bytes 0x22, comes back unchanged. */
  lemma EndToEndExample(message: seq<Byte>, keyFile: seq<Byte>)
    requires message == seq(16, _ => 0xAA as Byte)
    requires keyFile == seq(16, _ => 0x00 as Byte) + seq(16, _ => 0x11 as Byte) + seq(16, _ => 0x22 as Byte)
    ensures |Flatten(EncryptFile(message, keyFile))| == 16
    ensures Flatten(DecryptFile(Flatten(EncryptFile(message, keyFile)), keyFile)) == message
  {
    AlignedFileRoundTrip(message, keyFile);
  }
}
