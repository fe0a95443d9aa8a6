/** GIF data sub-blocks (sections 15 and 16 of the GIF89a specification): a
    byte stream cut into blocks of at most 255 bytes, each preceded by its
    length, followed by a zero-length block terminator. */
module SubBlocks {
  import opened Arith
  import opened Results

  const MaxBlock: byte := 255
  const Terminator: byte := 0

  /** The last byte of `s` exists and is the block terminator 0. */
  predicate EndsInZero(s: seq<byte>)
  {
    |s| >= 1 && s[|s| - 1] == Terminator
  }

  /** The chunking loop at the end of `compress`: full 255-byte blocks while
      more than 255 bytes remain, then one block with the rest, then 0. */
  function Chunk(data: seq<byte>): (r: seq<byte>)
    ensures |r| >= 2 && EndsInZero(r)
    ensures |r| == |data| + (|data| + 254) / 255 + (if |data| == 0 then 2 else 1)
    decreases |data|
  {
    if |data| > 255 then [MaxBlock] + data[..255] + Chunk(data[255..])
    else [|data|] + data + [Terminator]
  }

  /** A reader of sub-blocks: the data blocks up to the terminator, or None
      if the bytes are not exactly a well-formed block sequence. */
  function Parse(bs: seq<byte>): Option<seq<seq<byte>>>
    decreases |bs|
  {
    if |bs| == 0 then None
    else
      var n: int := bs[0];
      if n == 0 then (if |bs| == 1 then Some([]) else None)
      else if |bs| < 1 + n then None
      else match Parse(bs[1 + n..])
        case None => None
        case Some(rest) => Some([bs[1..1 + n]] + rest)
  }

  function Flatten(blocks: seq<seq<byte>>): seq<byte>
  {
    if |blocks| == 0 then [] else blocks[0] + Flatten(blocks[1..])
  }

  /** For a non-empty stream of `L` bytes, the chunked form reads back as
      ceil(L / 255) blocks, all full but the last, which holds 1..255
      bytes, and whose contents in order are the stream. */
  lemma {:induction false} ChunkParses(data: seq<byte>) returns (blocks: seq<seq<byte>>)
    requires |data| >= 1
    ensures Parse(Chunk(data)) == Some(blocks)
    ensures Flatten(blocks) == data
    ensures |blocks| == (|data| + 254) / 255
    ensures forall i :: 0 <= i < |blocks| - 1 ==> |blocks[i]| == 255
    ensures 1 <= |blocks[|blocks| - 1]| <= 255
    decreases |data|
  {
    if |data| > 255 {
      var rest := ChunkParses(data[255..]);
      ParseFullBlock(data[..255], Chunk(data[255..]));
      assert Chunk(data) == [|data[..255]|] + data[..255] + Chunk(data[255..]);
      blocks := [data[..255]] + rest;
      assert blocks[1..] == rest;
      assert data == data[..255] + data[255..];
      assert Parse(Chunk(data)) == Some(blocks);
      assert (|data| + 254) / 255 == 1 + (|data[255..]| + 254) / 255;
      assert blocks[|blocks| - 1] == rest[|rest| - 1];
    } else {
      ParseFullBlock(data, [Terminator]);
      assert Chunk(data) == [|data|] + data + [Terminator];
      var none: seq<seq<byte>> := [];
      assert Parse([Terminator]) == Some(none);
      blocks := [data];
      assert [data] + none == blocks;
      assert Flatten(blocks[1..]) == [];
      assert Parse(Chunk(data)) == Some(blocks);
      assert (|data| + 254) / 255 == 1;
    }
  }

  /** What a caller of the chunking loop relies on: the result ends with
      the terminator and reads back as ceil(L / 255) blocks holding the
      stream. */
  lemma ChunkedForm(data: seq<byte>)
    requires |data| >= 1
    ensures var out := Chunk(data);
      && EndsInZero(out)
      && Parse(out).Some?
      && Flatten(Parse(out).value) == data
      && |Parse(out).value| == (|data| + 254) / 255
  {
    var blocks := ChunkParses(data);
  }

  /** A block of 1..255 bytes behind its length byte is read as one block. */
  lemma ParseFullBlock(block: seq<byte>, tail: seq<byte>)
    requires 1 <= |block| <= 255
    ensures Parse([|block|] + block + tail) ==
      match Parse(tail)
        case None => None
        case Some(rest) => Some([block] + rest)
  {
    var r := [|block|] + block + tail;
    assert r[0] == |block|;
    assert r[1 + |block|..] == tail;
    assert r[1..1 + |block|] == block;
  }
}
