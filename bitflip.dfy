/** `bitflip` of explorebits.py: reverse the bits of every big-endian
    word of a byte buffer. A word is k bytes, k = bitwidth / 8. */
module Bitflip {
  import opened Bytes

  function Min(a: int, b: int): int
  {
    if a <= b then a else b
  }

  /** One pass of the loop body: the (possibly short, final) chunk read
      big-endian, its 8k bits reversed, written back as k bytes. */
  function FlipChunk(chunk: seq<Byte>, k: nat): (r: seq<Byte>)
    requires 1 <= k && |chunk| <= k
    ensures |r| == k
  {
    Pow256Monotone(|chunk|, k);
    Pow2Bytes(k);
    BeBytes(ReverseBits(BeValue(chunk), 8 * k), k)
  }

  /** The whole output: the buffer cut into k-byte chunks from the front,
      the last one possibly short, each flipped. */
  function Flipped(data: seq<Byte>, k: nat): (r: seq<Byte>)
    requires k >= 1
    ensures r == [] <==> data == []
    decreases |data|
  {
    if data == [] then []
    else
      var m := Min(k, |data|);
      FlipChunk(data[..m], k) + Flipped(data[m..], k)
  }

  /** One step of the loop: the output from offset i on starts with the
      flipped chunk at i. */
  lemma FlippedFrom(data: seq<Byte>, k: nat, i: nat)
    requires k >= 1 && i < |data|
    ensures Flipped(data[i..], k)
      == FlipChunk(data[i..Min(i + k, |data|)], k) + Flipped(data[Min(i + k, |data|)..], k)
  {
    var rest := data[i..];
    var m := Min(k, |rest|);
    assert rest[..m] == data[i..Min(i + k, |data|)];
    assert rest[m..] == data[Min(i + k, |data|)..];
  }

  /** The loop invariant of `Bitflip` survives one more chunk. */
  lemma FlipStep(data: seq<Byte>, k: nat, i: nat, acc: seq<Byte>)
    requires k >= 1 && i < |data|
    requires acc + Flipped(data[i..], k) == Flipped(data, k)
    ensures (acc + FlipChunk(data[i..Min(i + k, |data|)], k)) + Flipped(data[Min(i + k, |data|)..], k)
      == Flipped(data, k)
  {
    FlippedFrom(data, k, i);
  }

  /** The loop body's arithmetic, for a width of 8k bits, is FlipChunk. */
  lemma ChunkArithmetic(chunk: seq<Byte>, k: nat, bitwidth: nat)
    requires 1 <= k && |chunk| <= k && bitwidth == 8 * k
    ensures BeValue(chunk) < Pow2(bitwidth) && Pow2(bitwidth) == Pow256(k)
    ensures BeBytes(ReverseBits(BeValue(chunk), bitwidth), k) == FlipChunk(chunk, k)
  {
    Pow256Monotone(|chunk|, k);
    Pow2Bytes(k);
  }

  /** `bitflip(data_block, bitwidth)`. Widths that are not a multiple of 8 are
      excluded: below 8 the source never advances its index, and otherwise
      `to_bytes` can overflow. */
  method Bitflip(dataBlock: seq<Byte>, bitwidth: nat) returns (r: seq<Byte>)
    requires bitwidth % 8 == 0
    ensures bitwidth == 0 ==> r == dataBlock
    ensures bitwidth > 0 ==> r == Flipped(dataBlock, bitwidth / 8)
  {
    if bitwidth == 0 {
      return dataBlock;
    }
    var bytewidth := bitwidth / 8;
    assert bitwidth == 8 * bytewidth;
    var bitswapped: seq<Byte> := [];
    var i := 0;
    while i < |dataBlock|
      invariant bitswapped + Flipped(dataBlock[Min(i, |dataBlock|)..], bytewidth) == Flipped(dataBlock, bytewidth)
      decreases |dataBlock| - i
    {
      var chunk := dataBlock[i..Min(i + bytewidth, |dataBlock|)];
      ghost var next := Min(i + bytewidth, |dataBlock|);
      assert Min(i, |dataBlock|) == i;
      FlipStep(dataBlock, bytewidth, i, bitswapped);
      ChunkArithmetic(chunk, bytewidth, bitwidth);
      var data := BeValue(chunk);
      var reversed := ReverseBits(data, bitwidth);
      bitswapped := bitswapped + BeBytes(reversed, bytewidth);
      assert bitswapped + Flipped(dataBlock[next..], bytewidth) == Flipped(dataBlock, bytewidth);
      i := i + bytewidth;
      assert Min(i, |dataBlock|) == next;
    }
    r := bitswapped;
  }

  /** The output is at least as long as the input and pads only the last chunk. */
  lemma {:induction false} FlippedLength(data: seq<Byte>, k: nat)
    requires k >= 1
    ensures |data| <= |Flipped(data, k)| < |data| + k
    decreases |data|
  {
    if data != [] {
      FlippedLength(data[Min(k, |data|)..], k);
    }
  }

  /** The source's default width, 32 bits: k = 4. A buffer of whole words
      keeps its length. */
  lemma {:induction false} Flipped32Length(data: seq<Byte>)
    requires |data| % 4 == 0
    ensures |Flipped(data, 4)| == |data|
    decreases |data|
  {
    if data != [] {
      Flipped32Length(data[4..]);
    }
  }

  /** Word j of the output is word j of the input, flipped. */
  lemma {:induction false} Flipped32Chunk(data: seq<Byte>, j: nat)
    requires 4 * j + 4 <= |data|
    ensures |Flipped(data, 4)| >= 4 * j + 4
    ensures Flipped(data, 4)[4 * j..4 * j + 4] == FlipChunk(data[4 * j..4 * j + 4], 4)
    decreases j
  {
    FlippedLength(data, 4);
    if j > 0 {
      var rest := data[4..];
      Flipped32Chunk(rest, j - 1);
      assert rest[4 * (j - 1)..4 * j] == data[4 * j..4 * j + 4];
      assert Flipped(data, 4) == FlipChunk(data[..4], 4) + Flipped(rest, 4);
    }
  }

  /** Flipping a chunk twice gives it back. */
  lemma FlipChunkTwice(chunk: seq<Byte>, k: nat)
    requires k >= 1 && |chunk| == k
    ensures FlipChunk(FlipChunk(chunk, k), k) == chunk
  {
    Pow2Bytes(k);
    var v := BeValue(chunk);
    var r := ReverseBits(v, 8 * k);
    BeValueOfBeBytes(r, k);
    ReverseBitsInvolution(v, 8 * k);
    BeBytesOfBeValue(chunk);
  }

  /** For a 32-bit bitflip of whole words, flipping twice gives the buffer back. */
  lemma {:induction false} Flipped32Twice(data: seq<Byte>)
    requires |data| % 4 == 0
    ensures Flipped(Flipped(data, 4), 4) == data
    decreases |data|
  {
    if data != [] {
      var head, rest := data[..4], data[4..];
      var f := Flipped(data, 4);
      assert f == FlipChunk(head, 4) + Flipped(rest, 4);
      Flipped32Twice(rest);
      assert f[..4] == FlipChunk(head, 4);
      assert f[4..] == Flipped(rest, 4);
      FlipChunkTwice(head, 4);
      assert data == head + rest;
    }
  }

  /** `bitflip(data, 32)` on whole words: each output word, read as `WordAt`
      reads it, is the input word with its 32 bits reversed. */
  lemma Flipped32Word(data: seq<Byte>, j: nat)
    requires 4 * j + 4 <= |data|
    ensures Pow2(32) == 0x1_0000_0000
    ensures WordAt(Flipped(data, 4), 4 * j) == ReverseBits(WordAt(data, 4 * j), 32)
  {
    Pow2Bytes(4);
    assert Pow256(4) == 0x1_0000_0000;
    var f := Flipped(data, 4);
    var chunk := data[4 * j..4 * j + 4];
    Flipped32Chunk(data, j);
    var v := BeValue(chunk);
    assert WordAt(data, 4 * j) == v;
    assert WordAt(f, 4 * j) == BeValue(FlipChunk(chunk, 4));
    BeValueOfBeBytes(ReverseBits(v, 32), 4);
  }
}
