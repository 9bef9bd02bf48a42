/** The block codec of the reduced cipher: the two row permutations (ShiftRows
    and its inverse, FIPS 197 sections 5.1.2 and 5.3.1) and the key mask
    (AddRoundKey, FIPS 197 section 5.1.4), on 16-byte blocks.

    A block is read as a 4x4 byte matrix stored row by row: the byte of row
    `r`, column `c` is byte `At(r, c)` of the block.
 */
module BlockCodec {
  import opened ByteArith

  /** A Java byte, as its bit pattern; no result of the cipher depends on its sign. */
  type Byte = bv8

  /** A block: 16 bytes, BLOCK_SIZE in Main.java. */
  type Block = s: seq<Byte> | |s| == 16 witness seq(16, _ => 0 as Byte)

  function At(row: nat, col: nat): nat { 4 * row + col }

  /** Two blocks that agree in every cell are equal. */
  lemma CellwiseEqual(a: Block, b: Block)
    requires forall row, col :: 0 <= row < 4 && 0 <= col < 4 ==> a[At(row, col)] == b[At(row, col)]
    ensures a == b
  {
    forall p | 0 <= p < 16
      ensures a[p] == b[p]
    {
      assert p == At(p / 4, p % 4);
    }
  }

  /** `n` modulo 4, for the sums of a column and a row offset (below 8) that
      the row rotations produce. */
  function Wrap(n: nat): nat
    requires n < 8
  {
    if n < 4 then n else n - 4
  }

  /** Row `row` of a block: the four bytes starting at `At(row, 0)`. */
  function RowOf(block: Block, row: nat): (r: seq<Byte>)
    requires row < 4
    ensures |r| == 4
  {
    block[At(row, 0)..At(row, 4)]
  }

  /** A row rotated left by `n`: first its bytes from column `n` on, then the
      `n` bytes before them, in the order the two inner loops of Main.java's shiftRowsLeft emit
      them. Rotating right by `n` is rotating left by `4 - n`. */
  function RotateLeft(row: seq<Byte>, n: nat): seq<Byte>
    requires n <= |row|
  {
    row[n..] + row[..n]
  }

  /** ShiftRows: row i is rotated left by i positions, so row 0 is untouched
      and byte (i, c) of the result is byte (i, c + i mod 4) of the input. */
  function ShiftRowsLeft(block: Block): Block {
    RotateLeft(RowOf(block, 0), 0) + RotateLeft(RowOf(block, 1), 1)
      + RotateLeft(RowOf(block, 2), 2) + RotateLeft(RowOf(block, 3), 3)
  }

  /** InvShiftRows: row i is rotated right by i positions (left by 4 - i), so
      byte (i, c) of the result is byte (i, c - i mod 4) of the input. */
  function ShiftRowsRight(block: Block): Block {
    RotateLeft(RowOf(block, 0), 4) + RotateLeft(RowOf(block, 1), 3)
      + RotateLeft(RowOf(block, 2), 2) + RotateLeft(RowOf(block, 3), 1)
  }

  /** ShiftRows moves byte (i, c + i mod 4) of the input to byte (i, c). */
  lemma ShiftRowsLeftCells(block: Block)
    ensures forall row, col {:trigger ShiftRowsLeft(block)[At(row, col)]} :: 0 <= row < 4 && 0 <= col < 4 ==>
              ShiftRowsLeft(block)[At(row, col)] == block[At(row, Wrap(col + row))]
  {
  }

  /** InvShiftRows moves byte (i, c - i mod 4) of the input to byte (i, c). */
  lemma ShiftRowsRightCells(block: Block)
    ensures forall row, col {:trigger ShiftRowsRight(block)[At(row, col)]} :: 0 <= row < 4 && 0 <= col < 4 ==>
              ShiftRowsRight(block)[At(row, col)] == block[At(row, Wrap(col + 4 - row))]
  {
  }

  /** A byte widened to a 32-bit Java int, with its sign bit copied upwards. */
  function SignExtend(b: Byte): bv32 {
    if b & 0x80 == 0 then b as bv32 else (b as bv32) | 0xFFFF_FF00
  }

  /** Masking the xor of two sign-extended bytes with 0xff leaves the xor of
      the bytes themselves. */
  lemma MaskedXor(b: Byte, k: Byte)
    ensures (SignExtend(b) ^ SignExtend(k)) & 0xFF == (b ^ k) as bv32
  {
    MaskXor(SignExtend(b), SignExtend(k));
    LowByte(b);
    LowByte(k);
    WidenXor(b, k);
  }

  /** The mask 0xff keeps exactly the byte a sign extension started from. */
  lemma LowByte(b: Byte)
    ensures SignExtend(b) & 0xFF == b as bv32
  {
  }

  /** Widening a byte xor is the xor of the widened bytes. */
  lemma WidenXor(b: Byte, k: Byte)
    ensures (b ^ k) as bv32 == (b as bv32) ^ (k as bv32)
  {
  }

  /** Masking distributes over xor. */
  lemma MaskXor(x: bv32, y: bv32)
    ensures (x ^ y) & 0xFF == (x & 0xFF) ^ (y & 0xFF)
  {
  }

  /** Narrowing a widened byte gives the byte back. */
  lemma NarrowWidened(b: Byte)
    ensures (b as bv32) as Byte == b
  {
  }

  /** The byte xor of Main.java's addRoundKey: both bytes are promoted to int, xored, masked
      with 0xff and narrowed back to a byte. The promotion and the mask cancel
      out, so this is the plain xor of the two bit patterns. */
  function XorByte(b: Byte, k: Byte): (r: Byte)
    ensures r == b ^ k
    ensures r ^ k == b
  {
    MaskedXor(b, k);
    NarrowWidened(b ^ k);
    ((SignExtend(b) ^ SignExtend(k)) & 0xFF) as Byte
  }

  /** AddRoundKey: the block masked byte by byte with the key. */
  function AddRoundKey(block: Block, key: Block): (r: Block)
    ensures forall i :: 0 <= i < 16 ==> r[i] == block[i] ^ key[i]
  {
    seq(16, i requires 0 <= i < 16 => XorByte(block[i], key[i]))
  }

  /** A block filled with the low eight bits of `num`, as Java's
      `Integer.byteValue` truncates it. */
  function GenerateKey(num: int): (r: Block)
    ensures forall i :: 0 <= i < 16 ==> r[i] == r[0]
  {
    seq(16, _ => (num % 256) as Byte)
  }

  // ---------------------------------------------------------------------
  // Properties of the primitives
  // ---------------------------------------------------------------------

  /** InvShiftRows undoes ShiftRows. */
  lemma ShiftRowsRightInvertsLeft(block: Block)
    ensures ShiftRowsRight(ShiftRowsLeft(block)) == block
  {
    var l := ShiftRowsLeft(block);
    var r := ShiftRowsRight(l);
    ShiftRowsLeftCells(block);
    ShiftRowsRightCells(l);
    forall row, col | 0 <= row < 4 && 0 <= col < 4
      ensures r[At(row, col)] == block[At(row, col)]
    {
      var c := Wrap(col + 4 - row);
      assert r[At(row, col)] == l[At(row, c)];
      assert Wrap(c + row) == col;
    }
    CellwiseEqual(r, block);
  }

  /** ShiftRows undoes InvShiftRows. */
  lemma ShiftRowsLeftInvertsRight(block: Block)
    ensures ShiftRowsLeft(ShiftRowsRight(block)) == block
  {
    var r := ShiftRowsRight(block);
    var l := ShiftRowsLeft(r);
    ShiftRowsRightCells(block);
    ShiftRowsLeftCells(r);
    forall row, col | 0 <= row < 4 && 0 <= col < 4
      ensures l[At(row, col)] == block[At(row, col)]
    {
      var c := Wrap(col + row);
      assert l[At(row, col)] == r[At(row, c)];
      assert Wrap(c + 4 - row) == col;
    }
    CellwiseEqual(l, block);
  }

  /** Masking twice with the same key gives back the block. */
  lemma AddRoundKeyInvolution(block: Block, key: Block)
    ensures AddRoundKey(AddRoundKey(block, key), key) == block
  {
    var r := AddRoundKey(AddRoundKey(block, key), key);
    assert forall i | 0 <= i < 16 :: r[i] == block[i];
  }

  /** The order of two masks does not matter. */
  lemma AddRoundKeyCommutes(a: Block, b: Block)
    ensures AddRoundKey(a, b) == AddRoundKey(b, a)
  {
    var l, r := AddRoundKey(a, b), AddRoundKey(b, a);
    assert forall i | 0 <= i < 16 :: l[i] == r[i];
  }

  /** Masks may be grouped either way. */
  lemma AddRoundKeyAssociates(a: Block, b: Block, c: Block)
    ensures AddRoundKey(AddRoundKey(a, b), c) == AddRoundKey(a, AddRoundKey(b, c))
  {
    var l, r := AddRoundKey(AddRoundKey(a, b), c), AddRoundKey(a, AddRoundKey(b, c));
    assert forall i | 0 <= i < 16 :: l[i] == r[i];
  }

  /** The mask that takes a block to a target is their xor. */
  lemma AddRoundKeyReachesTarget(block: Block, target: Block)
    ensures AddRoundKey(block, AddRoundKey(target, block)) == target
  {
    var r := AddRoundKey(block, AddRoundKey(target, block));
    assert forall i | 0 <= i < 16 :: r[i] == target[i];
  }

  /** A mask is determined by the block and the masked block. */
  lemma AddRoundKeyCancels(block: Block, a: Block, b: Block)
    requires AddRoundKey(block, a) == AddRoundKey(block, b)
    ensures a == b
  {
    forall i | 0 <= i < 16
      ensures a[i] == b[i]
    {
      assert AddRoundKey(block, a)[i] == AddRoundKey(block, b)[i];
    }
  }

  /** The zero key leaves a block unchanged. */
  lemma AddZeroKey(block: Block)
    ensures AddRoundKey(block, GenerateKey(0)) == block
  {
    var r := AddRoundKey(block, GenerateKey(0));
    assert forall i | 0 <= i < 16 :: r[i] == block[i];
  }

  /** ShiftRows is a byte permutation, so it distributes over the mask. */
  lemma ShiftRowsLeftDistributes(a: Block, b: Block)
    ensures ShiftRowsLeft(AddRoundKey(a, b)) == AddRoundKey(ShiftRowsLeft(a), ShiftRowsLeft(b))
  {
    var l, r := ShiftRowsLeft(AddRoundKey(a, b)), AddRoundKey(ShiftRowsLeft(a), ShiftRowsLeft(b));
    forall row, col | 0 <= row < 4 && 0 <= col < 4
      ensures l[At(row, col)] == r[At(row, col)]
    {
      var p, q := At(row, col), At(row, Wrap(col + row));
      assert l[p] == a[q] ^ b[q] by {
        ShiftRowsLeftCells(AddRoundKey(a, b));
      }
      assert r[p] == a[q] ^ b[q] by {
        ShiftRowsLeftCells(a);
        ShiftRowsLeftCells(b);
      }
    }
    CellwiseEqual(l, r);
  }

  /** A block with all bytes equal is left alone by ShiftRows. */
  lemma ShiftRowsLeftFixesGeneratedKey(num: int)
    ensures ShiftRowsLeft(GenerateKey(num)) == GenerateKey(num)
  {
    var k := GenerateKey(num);
    var l := ShiftRowsLeft(k);
    ShiftRowsLeftCells(k);
    forall row, col | 0 <= row < 4 && 0 <= col < 4
      ensures l[At(row, col)] == k[At(row, col)]
    {
      assert l[At(row, col)] == k[At(row, Wrap(col + row))];
    }
    CellwiseEqual(l, k);
  }

  /** Only the low eight bits of the number reach the key. */
  lemma GenerateKeyTruncates(num: int)
    ensures GenerateKey(num) == GenerateKey(num % 256)
  {
    assert (num % 256) % 256 == num % 256;
  }

  /** Every byte of the key is the number reduced modulo 256, the low eight
      bits of its two's-complement pattern. */
  lemma GenerateKeyByte(num: int)
    ensures forall i :: 0 <= i < 16 ==> GenerateKey(num)[i] as int == num % 256
  {
    ByteOfSmall(num % 256);
  }

  /** The two keys the attack generates: sixteen bytes 0 and sixteen bytes 1. */
  lemma GenerateKeyValues()
    ensures forall i :: 0 <= i < 16 ==> GenerateKey(0)[i] == 0 && GenerateKey(1)[i] == 1
  {
  }
}

/** Conversions between numbers and byte bit patterns, kept apart so that
    the solver sees nothing else while proving them. */
module ByteArith {

  /** A number below 256 survives the round trip through a byte. */
  lemma ByteOfSmall(n: int)
    requires 0 <= n < 256
    ensures (n as bv8) as int == n
  {
    // One case per range of eight values keeps each bit-vector query small.
    if n < 8 {
    } else if n < 16 {
    } else if n < 24 {
    } else if n < 32 {
    } else if n < 40 {
    } else if n < 48 {
    } else if n < 56 {
    } else if n < 64 {
    } else if n < 72 {
    } else if n < 80 {
    } else if n < 88 {
    } else if n < 96 {
    } else if n < 104 {
    } else if n < 112 {
    } else if n < 120 {
    } else if n < 128 {
    } else if n < 136 {
    } else if n < 144 {
    } else if n < 152 {
    } else if n < 160 {
    } else if n < 168 {
    } else if n < 176 {
    } else if n < 184 {
    } else if n < 192 {
    } else if n < 200 {
    } else if n < 208 {
    } else if n < 216 {
    } else if n < 224 {
    } else if n < 232 {
    } else if n < 240 {
    } else if n < 248 {
    } else {
    }
  }
}
