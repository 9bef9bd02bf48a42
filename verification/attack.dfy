/** The key-recovery attack: from one known plaintext block and its
    ciphertext block, pick key1 and key2 and solve the last round for key3.

    The cipher is affine: ShiftRows permutes bytes and so distributes over
    the xor mask, and the three rounds collapse into ShiftRows applied three
    times followed by one mask built from all three keys. Two key triples
    with the same collapsed mask encrypt every block alike, and the attack
    yields such a triple for the keys that produced the known pair.
 */
module Attack {
  import opened BlockCodec
  import opened Layout
  import opened Cipher

  /** The key the attack fixes for the first round: sixteen bytes 1. */
  function AttackKey1(): (r: Block)
    ensures forall i :: 0 <= i < 16 ==> r[i] == 1
  {
    GenerateKeyValues();
    GenerateKey(1)
  }

  /** The key the attack fixes for the second round: sixteen bytes 0. */
  function AttackKey2(): (r: Block)
    ensures forall i :: 0 <= i < 16 ==> r[i] == 0
  {
    GenerateKeyValues();
    GenerateKey(0)
  }

  /** Round keys whose third key maps the plaintext block onto the ciphertext
      block: the chosen key1 and key2, and key3 the xor of the ciphertext
      with the state that enters the last AddRoundKey under them (c2tag). */
  function RecoverKeys(plain: Block, cipher: Block): (keys: RoundKeys)
    ensures keys.key1 == AttackKey1() && keys.key2 == AttackKey2()
    ensures EncryptBlock(plain, keys) == cipher
  {
    var key1 := AttackKey1();
    var key2 := AttackKey2();
    var c2tag := ShiftRowsLeft(AddRoundKey(ShiftRowsLeft(AddRoundKey(ShiftRowsLeft(plain), key1)), key2));
    var key3 := AddRoundKey(cipher, c2tag);
    AddRoundKeyReachesTarget(c2tag, cipher);
    RoundKeys(key1, key2, key3)
  }

  /** The break command without its file I/O: the key file written for a
      message file and a cipher file, recovered from their first blocks. The
      Java code reads the first block of each, so both must hold one. */
  function BreakCipher(messageFile: seq<Byte>, cipherFile: seq<Byte>): (keyFile: seq<Block>)
    requires |messageFile| >= 16
    requires |cipherFile| >= 16
    ensures |keyFile| == 3
  {
    var message := Transpose(Split(messageFile));
    var cipher := Transpose(Split(cipherFile));
    RoundKeyFile(RecoverKeys(message[0], cipher[0]))
  }

  // ---------------------------------------------------------------------
  // The cipher's affine structure
  // ---------------------------------------------------------------------

  /** The single mask the three rounds amount to: key1 shifted twice, key2
      shifted once and key3, xored together. */
  function CollapsedKey(keys: RoundKeys): Block {
    AddRoundKey(AddRoundKey(ShiftRowsLeft(ShiftRowsLeft(keys.key1)), ShiftRowsLeft(keys.key2)), keys.key3)
  }

  /** Three rounds are ShiftRows three times, then the collapsed mask. */
  lemma EncryptBlockIsAffine(block: Block, keys: RoundKeys)
    ensures EncryptBlock(block, keys)
         == AddRoundKey(ShiftRowsLeft(ShiftRowsLeft(ShiftRowsLeft(block))), CollapsedKey(keys))
  {
    var s1, s2, s3 := ShiftRowsLeft(block), ShiftRowsLeft(ShiftRowsLeft(block)), ShiftRowsLeft(ShiftRowsLeft(ShiftRowsLeft(block)));
    var k1, k2, k3 := keys.key1, keys.key2, keys.key3;
    var sk1, ssk1, sk2 := ShiftRowsLeft(k1), ShiftRowsLeft(ShiftRowsLeft(k1)), ShiftRowsLeft(k2);
    // round 2 state, before its mask: s2 ^ sk1
    ShiftRowsLeftDistributes(s1, k1);
    // round 3 state, before its mask: s3 ^ ssk1 ^ sk2
    ShiftRowsLeftDistributes(AddRoundKey(s2, sk1), k2);
    ShiftRowsLeftDistributes(s2, sk1);
    AddRoundKeyAssociates(s3, ssk1, sk2);
    AddRoundKeyAssociates(s3, AddRoundKey(ssk1, sk2), k3);
  }

  /** Key triples with the same collapsed mask encrypt and decrypt every
      block alike. */
  lemma SameCollapsedKeySameCipher(keys: RoundKeys, other: RoundKeys, block: Block)
    requires CollapsedKey(keys) == CollapsedKey(other)
    ensures EncryptBlock(block, keys) == EncryptBlock(block, other)
    ensures DecryptBlock(block, keys) == DecryptBlock(block, other)
  {
    EncryptBlockIsAffine(block, keys);
    EncryptBlockIsAffine(block, other);
    var plain := DecryptBlock(block, keys);
    EncryptBlockInvertsDecryptBlock(block, keys);
    EncryptBlockIsAffine(plain, keys);
    EncryptBlockIsAffine(plain, other);
    DecryptBlockInvertsEncryptBlock(plain, other);
  }

  // ---------------------------------------------------------------------
  // Correctness of the attack
  // ---------------------------------------------------------------------

  /** The recovered keys decrypt the known ciphertext block to the known
      plaintext block. */
  lemma RecoverKeysDecryptsKnownBlock(plain: Block, cipher: Block)
    ensures DecryptBlock(cipher, RecoverKeys(plain, cipher)) == plain
  {
    DecryptBlockInvertsEncryptBlock(plain, RecoverKeys(plain, cipher));
  }

  /** Whatever key1, key2 and key3 encrypted the known pair, the recovered
      keys have the same collapsed mask, so they encrypt and decrypt every
      other block exactly as the true keys do. */
  lemma RecoverKeysIsEquivalent(plain: Block, keys: RoundKeys, block: Block)
    ensures CollapsedKey(RecoverKeys(plain, EncryptBlock(plain, keys))) == CollapsedKey(keys)
    ensures EncryptBlock(block, RecoverKeys(plain, EncryptBlock(plain, keys))) == EncryptBlock(block, keys)
    ensures DecryptBlock(block, RecoverKeys(plain, EncryptBlock(plain, keys))) == DecryptBlock(block, keys)
  {
    var recovered := RecoverKeys(plain, EncryptBlock(plain, keys));
    var shifted := ShiftRowsLeft(ShiftRowsLeft(ShiftRowsLeft(plain)));
    EncryptBlockIsAffine(plain, keys);
    EncryptBlockIsAffine(plain, recovered);
    AddRoundKeyCancels(shifted, CollapsedKey(recovered), CollapsedKey(keys));
    SameCollapsedKeySameCipher(recovered, keys, block);
  }

  /** The recovered key3 need not be the true key3: with all three true keys
      zero and a zero plaintext block, the attack recovers a key3 of sixteen
      bytes 1, while its key1 of bytes 1 cancels out in the collapsed mask. */
  lemma RecoveredKeyNeedNotBeTrueKey()
    ensures var zero := GenerateKey(0);
            RecoverKeys(zero, EncryptBlock(zero, RoundKeys(zero, zero, zero))).key3 == GenerateKey(1)
            && RecoverKeys(zero, EncryptBlock(zero, RoundKeys(zero, zero, zero))).key3 != zero
  {
    var zero, one := GenerateKey(0), GenerateKey(1);
    ShiftRowsLeftFixesGeneratedKey(0);
    ShiftRowsLeftFixesGeneratedKey(1);
    AddZeroKey(zero);
    AddZeroKey(one);
    assert EncryptBlock(zero, RoundKeys(zero, zero, zero)) == zero;
    var c2tag := ShiftRowsLeft(AddRoundKey(ShiftRowsLeft(AddRoundKey(ShiftRowsLeft(zero), one)), zero));
    AddRoundKeyCommutes(zero, one);
    assert c2tag == one;
    GenerateKeyValues();
    assert one[0] != zero[0];
  }

  /** The key file the attack writes reads back as the recovered keys of the
      first (transposed) message and cipher blocks. */
  lemma BreakCipherWritesRecoveredKeys(messageFile: seq<Byte>, cipherFile: seq<Byte>)
    requires |messageFile| >= 16
    requires |cipherFile| >= 16
    ensures |Flatten(BreakCipher(messageFile, cipherFile))| == KeyFileSize
    ensures ReadRoundKeys(Flatten(BreakCipher(messageFile, cipherFile)))
         == RecoverKeys(TransposeBlock(Split(messageFile)[0]), TransposeBlock(Split(cipherFile)[0]))
  {
    RoundKeyFileRoundTrip(RecoverKeys(TransposeBlock(Split(messageFile)[0]), TransposeBlock(Split(cipherFile)[0])));
  }

  /** End to end: the key file the attack writes decrypts the first block of
      the cipher file to the first block of the message file. */
  lemma BreakCipherDecryptsKnownBlock(messageFile: seq<Byte>, cipherFile: seq<Byte>)
    requires |messageFile| >= 16
    requires |cipherFile| >= 16
    ensures |Flatten(BreakCipher(messageFile, cipherFile))| == KeyFileSize
    ensures DecryptFile(cipherFile, Flatten(BreakCipher(messageFile, cipherFile)))[0] == Split(messageFile)[0]
  {
    var plain := TransposeBlock(Split(messageFile)[0]);
    var cipher := TransposeBlock(Split(cipherFile)[0]);
    var recovered := RecoverKeys(plain, cipher);
    BreakCipherWritesRecoveredKeys(messageFile, cipherFile);
    DecryptBlocksIsBlockwise(Split(cipherFile), Split(cipherFile), recovered, 0, 0);
    RecoverKeysDecryptsKnownBlock(plain, cipher);
    TransposeBlockInvolution(Split(messageFile)[0]);
  }

  /** End to end: the key file the attack writes encrypts the first block of
      the message file to the first block of the cipher file. */
  lemma BreakCipherEncryptsKnownBlock(messageFile: seq<Byte>, cipherFile: seq<Byte>)
    requires |messageFile| >= 16
    requires |cipherFile| >= 16
    ensures |Flatten(BreakCipher(messageFile, cipherFile))| == KeyFileSize
    ensures EncryptFile(messageFile, Flatten(BreakCipher(messageFile, cipherFile)))[0] == Split(cipherFile)[0]
  {
    var plain := TransposeBlock(Split(messageFile)[0]);
    var cipher := TransposeBlock(Split(cipherFile)[0]);
    var recovered := RecoverKeys(plain, cipher);
    BreakCipherWritesRecoveredKeys(messageFile, cipherFile);
    EncryptBlocksIsBlockwise(Split(messageFile), Split(messageFile), recovered, 0, 0);
    TransposeBlockInvolution(Split(cipherFile)[0]);
  }

  /** Decryption with equivalent keys: two key triples that share the
      collapsed mask decrypt every block sequence alike. */
  lemma DecryptBlocksSameCollapsedKey(blocks: seq<Block>, keys: RoundKeys, other: RoundKeys)
    requires |blocks| > 0
    requires CollapsedKey(keys) == CollapsedKey(other)
    ensures DecryptBlocks(blocks, keys) == DecryptBlocks(blocks, other)
  {
    var l, r := DecryptBlocks(blocks, keys), DecryptBlocks(blocks, other);
    forall i | 0 <= i < |blocks|
      ensures l[i] == r[i]
    {
      SameCollapsedKeySameCipher(keys, other, TransposeBlock(blocks[i]));
      DecryptBlocksIsBlockwise(blocks, blocks, keys, i, i);
      DecryptBlocksIsBlockwise(blocks, blocks, other, i, i);
    }
  }

  /** One known block breaks the whole message: if the attack is given a
      file whose first block is the first block of an encrypted message, the
      key file it writes decrypts the entire cipher file, whatever key file
      encrypted it. */
  lemma BreakCipherRecoversMessage(message: seq<Byte>, keyFile: seq<Byte>, known: seq<Byte>)
    requires |message| >= 16
    requires |keyFile| >= KeyFileSize
    requires |known| >= 16 && known[..16] == message[..16]
    ensures var cipherFile := Flatten(EncryptFile(message, keyFile));
            && |cipherFile| >= 16
            && DecryptFile(cipherFile, Flatten(BreakCipher(known, cipherFile))) == Split(message)
  {
    var keys := ReadRoundKeys(keyFile);
    var encrypted := EncryptFile(message, keyFile);
    var cipherFile := Flatten(encrypted);
    SplitFlatten(encrypted);
    assert Split(known)[0] == Split(message)[0] by {
      forall j | 0 <= j < 16
        ensures Split(known)[0][j] == Split(message)[0][j]
      {
        assert known[j] == known[..16][j];
      }
    }
    var plain := TransposeBlock(Split(message)[0]);
    EncryptBlocksIsBlockwise(Split(message), Split(message), keys, 0, 0);
    TransposeBlockInvolution(EncryptBlock(plain, keys));
    assert Transpose(Split(cipherFile))[0] == EncryptBlock(plain, keys);
    var recovered := RecoverKeys(plain, EncryptBlock(plain, keys));
    BreakCipherWritesRecoveredKeys(known, cipherFile);
    RecoverKeysIsEquivalent(plain, keys, plain);
    DecryptBlocksSameCollapsedKey(encrypted, recovered, keys);
    DecryptBlocksInvertsEncryptBlocks(Split(message), keys);
  }
}
