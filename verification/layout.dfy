/** The block layout of the cipher: cutting a byte buffer into blocks, laying
    the blocks out again as bytes, and the per-block 4x4 transpose that turns
    the row-major file order into the column-major order the rounds work in.
 */
module Layout {
  import opened BlockCodec

  /** Where the transpose moves the byte at position j of a block. */
  function TransposedIndex(j: nat): nat { (j % 4) * 4 + j / 4 }

  /** The index map swaps row and column, so it is its own inverse. */
  lemma TransposedIndexSwaps()
    ensures forall row, col :: 0 <= row < 4 && 0 <= col < 4 ==>
              TransposedIndex(At(row, col)) == At(col, row)
    ensures forall j :: 0 <= j < 16 ==> TransposedIndex(j) < 16
    ensures forall j :: 0 <= j < 16 ==> TransposedIndex(TransposedIndex(j)) == j
  {
    forall row, col | 0 <= row < 4 && 0 <= col < 4
      ensures TransposedIndex(At(row, col)) == At(col, row)
    {
      assert At(row, col) % 4 == col && At(row, col) / 4 == row;
    }
    forall j | 0 <= j < 16
      ensures TransposedIndex(j) < 16 && TransposedIndex(TransposedIndex(j)) == j
    {
      assert j == At(j / 4, j % 4);
      assert TransposedIndex(j) == At(j % 4, j / 4);
    }
  }

  /** The 4x4 transpose of one block: the byte at position j goes to position
      (j mod 4) * 4 + j / 4, i.e. the byte of row r, column c goes to row c,
      column r. */
  function TransposeBlock(block: Block): (r: Block)
    ensures forall j {:trigger r[TransposedIndex(j)]} :: 0 <= j < 16 ==>
              r[TransposedIndex(j)] == block[j]
    ensures forall row, col {:trigger r[At(col, row)]} :: 0 <= row < 4 && 0 <= col < 4 ==>
              r[At(col, row)] == block[At(row, col)]
  {
    TransposedIndexSwaps();
    seq(16, p requires 0 <= p < 16 => block[TransposedIndex(p)])
  }

  /** Every block of a non-empty sequence transposed on its own. Main.java
      reads the length of the first block, so the sequence must not be empty. */
  function Transpose(blocks: seq<Block>): (r: seq<Block>)
    requires |blocks| > 0
    ensures |r| == |blocks|
    ensures forall i, j {:trigger r[i][TransposedIndex(j)]} :: 0 <= i < |r| && 0 <= j < 16 ==>
              r[i][TransposedIndex(j)] == blocks[i][j]
  {
    seq(|blocks|, i requires 0 <= i < |blocks| => TransposeBlock(blocks[i]))
  }

  /** The buffer cut into consecutive 16-byte blocks; a trailing part shorter
      than a block is dropped. */
  function Split(content: seq<Byte>): (blocks: seq<Block>)
    ensures |blocks| == |content| / 16
    ensures forall i, j :: 0 <= i < |blocks| && 0 <= j < 16 ==>
              blocks[i][j] == content[16 * i + j]
  {
    seq(|content| / 16,
        i requires 0 <= i < |content| / 16 => content[16 * i..16 * i + 16])
  }

  /** The bytes of the blocks, block after block, in the order Main.java
      writes them to a file. */
  function Flatten(blocks: seq<Block>): (bytes: seq<Byte>)
    ensures |bytes| == 16 * |blocks|
  {
    if |blocks| == 0 then [] else blocks[0] + Flatten(blocks[1..])
  }

  // ---------------------------------------------------------------------
  // Properties of the layout
  // ---------------------------------------------------------------------

  /** Byte j of block i is written at position 16 * i + j. */
  lemma {:induction false} FlattenCells(blocks: seq<Block>)
    ensures forall i, j :: 0 <= i < |blocks| && 0 <= j < 16 ==>
              Flatten(blocks)[16 * i + j] == blocks[i][j]
  {
    if |blocks| > 0 {
      var rest := blocks[1..];
      FlattenCells(rest);
      forall i, j | 0 <= i < |blocks| && 0 <= j < 16
        ensures Flatten(blocks)[16 * i + j] == blocks[i][j]
      {
        if i > 0 {
          assert blocks[i] == rest[i - 1];
          assert 16 * i + j == 16 + (16 * (i - 1) + j);
        }
      }
    }
  }

  // ---------------------------------------------------------------------
  // Round trips of the layout
  // ---------------------------------------------------------------------

  /** Transposing a block twice gives it back. */
  lemma TransposeBlockInvolution(block: Block)
    ensures TransposeBlock(TransposeBlock(block)) == block
  {
    var t := TransposeBlock(block);
    var r := TransposeBlock(t);
    forall row, col | 0 <= row < 4 && 0 <= col < 4
      ensures r[At(row, col)] == block[At(row, col)]
    {
      assert r[At(row, col)] == t[At(col, row)];
    }
    CellwiseEqual(r, block);
  }

  /** Transposing a block sequence twice gives it back. */
  lemma TransposeInvolution(blocks: seq<Block>)
    requires |blocks| > 0
    ensures Transpose(Transpose(blocks)) == blocks
  {
    var r := Transpose(Transpose(blocks));
    forall i | 0 <= i < |blocks|
      ensures r[i] == blocks[i]
    {
      TransposeBlockInvolution(blocks[i]);
    }
  }

  /** Cutting the bytes of whole blocks gives back the blocks. */
  lemma SplitFlatten(blocks: seq<Block>)
    ensures Split(Flatten(blocks)) == blocks
  {
    var bytes := Flatten(blocks);
    var r := Split(bytes);
    FlattenCells(blocks);
    forall i | 0 <= i < |blocks|
      ensures r[i] == blocks[i]
    {
      forall j | 0 <= j < 16
        ensures r[i][j] == blocks[i][j]
      {
        assert r[i][j] == bytes[16 * i + j];
      }
    }
  }

  /** A position below n whole blocks lies in one of them. */
  lemma BlockOfPosition(k: nat, n: nat)
    requires k < 16 * n
    ensures k / 16 < n && k % 16 < 16
    ensures k == 16 * (k / 16) + k % 16
  {
  }

  /** Laying out the blocks of a buffer gives back the buffer up to its last
      whole block. */
  lemma FlattenSplit(content: seq<Byte>)
    ensures Flatten(Split(content)) == content[..16 * (|content| / 16)]
  {
    var blocks := Split(content);
    var bytes := Flatten(blocks);
    var whole := content[..16 * |blocks|];
    FlattenCells(blocks);
    forall k | 0 <= k < |bytes|
      ensures bytes[k] == whole[k]
    {
      BlockOfPosition(k, |blocks|);
      var i, j := k / 16, k % 16;
      assert bytes[16 * i + j] == blocks[i][j];
    }
  }
}
