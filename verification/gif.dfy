/** The GIF89a container the script writes: header, logical screen
    descriptor, global colour table and NETSCAPE2.0 looping extension once,
    then per frame a graphic control extension, an image descriptor, the
    minimum code size and the compressed sub-blocks. No trailer byte is
    written. Section numbers below are those of the GIF89a specification. */
module Gif {
  import opened Arith
  import opened Results
  import opened SubBlocks
  import opened Lzw
  import opened LzwTheorems
  import opened Sampler

  /** "GIF89a" (section 17). */
  const Signature: seq<byte> := [0x47, 0x49, 0x46, 0x38, 0x39, 0x61]

  /** Global colour table present, 2 bits of colour resolution, unsorted,
      4 entries (section 18). */
  const ScreenFlags: byte := 0x91

  /** White, black, LifeWiki grey and an unused black (section 19). */
  const ColorTable: seq<byte> := [0xFF, 0xFF, 0xFF, 0x00, 0x00, 0x00, 0xC6, 0xC6, 0xC6, 0x00, 0x00, 0x00]

  /** Application extension "NETSCAPE2.0" with loop count 0, i.e. loop
      forever (section 26). */
  const LoopExtension: seq<byte> :=
    [0x21, 0xFF, 0x0B,
     0x4E, 0x45, 0x54, 0x53, 0x43, 0x41, 0x50, 0x45, 0x32, 0x2E, 0x30,
     3, 1, 0, 0, 0]

  const ExtensionIntroducer: byte := 0x21
  const GraphicControlLabel: byte := 0xF9
  const ImageSeparator: byte := 0x2C
  const MinCodeSize: byte := 2
  const Trailer: byte := 0x3B

  /** A little-endian 16-bit field, read back. */
  function Le16(lo: byte, hi: byte): int
  {
    lo + 256 * hi
  }

  /** `struct.pack("<H", n)`, which raises for values outside 0..65535. */
  function U16(n: int): (r: Result<seq<byte>>)
    ensures r.Success? <==> 0 <= n < 65536
    ensures r.Success? ==> |r.value| == 2 && Le16(r.value[0], r.value[1]) == n
  {
    if 0 <= n < 65536 then Success([n % 256, n / 256]) else Failure(StructError)
  }

  /** `screendesc` (section 18). */
  function ScreenDescriptor(w: int, h: int): (r: Result<seq<byte>>)
    ensures r.Success? <==> 0 <= w < 65536 && 0 <= h < 65536
    ensures r.Success? ==> var d := r.value;
      |d| == 7 && Le16(d[0], d[1]) == w && Le16(d[2], d[3]) == h && d[4..] == [ScreenFlags, 0, 0]
  {
    var wb :- U16(w);
    var hb :- U16(h);
    Success(wb + hb + [ScreenFlags, 0, 0])
  }

  /** The graphic control extension of each frame: no disposal, no user
      input, no transparency, delay `pause` centiseconds (section 23). */
  function GraphicControl(pause: int): (r: Result<seq<byte>>)
    ensures r.Success? <==> 0 <= pause < 65536
    ensures r.Success? ==> var g := r.value;
      |g| == 8 && g[..4] == [0x21, 0xF9, 4, 0] && Le16(g[4], g[5]) == pause && g[6..] == [0, 0]
  {
    var pb :- U16(pause);
    Success([ExtensionIntroducer, GraphicControlLabel, 4, 0] + pb + [0, 0])
  }

  /** `imagedesc`: position (0, 0), the canvas size, no local colour table,
      not interlaced (section 20). */
  function ImageDescriptor(w: int, h: int): (r: Result<seq<byte>>)
    ensures r.Success? <==> 0 <= w < 65536 && 0 <= h < 65536
    ensures r.Success? ==> var d := r.value;
      |d| == 9 && d[..4] == [0, 0, 0, 0] && Le16(d[4], d[5]) == w && Le16(d[6], d[7]) == h && d[8] == 0
  {
    var wb :- U16(w);
    var hb :- U16(h);
    Success([0, 0, 0, 0] + wb + hb + [0])
  }

  /** `header + screendesc + colortable + applic`. */
  function FilePrefix(cfg: Config): Result<seq<byte>>
  {
    var sd :- ScreenDescriptor(cfg.CanvasWidth(), cfg.CanvasHeight());
    Success(Signature + sd + ColorTable + LoopExtension)
  }

  /** The bytes written for one frame whose raster is `raster`: the graphic
      control extension, then "," + imagedesc + chr(2) + compress(raster)
      (sections 20 and 22). */
  function FrameChunk(cfg: Config, raster: seq<int>): Result<seq<byte>>
  {
    FrameAround(cfg, Compress(raster))
  }

  /** The frame bytes around the outcome of `compress`; the 16-bit fields
      are packed first, so their errors take precedence. */
  function FrameAround(cfg: Config, compressed: Result<seq<byte>>): Result<seq<byte>>
  {
    var gce :- GraphicControl(cfg.pause);
    var id :- ImageDescriptor(cfg.CanvasWidth(), cfg.CanvasHeight());
    var data :- compressed;
    Success(gce + [ImageSeparator] + id + [MinCodeSize] + data)
  }

  /** Frame `f` drawn from generation `world(f)`: the simulator advances one
      generation between frames. The graphic control extension is packed and
      written before the raster is sampled, so a pause outside 16 bits fails
      before a zero pitch can. */
  function FrameAt(cfg: Config, world: nat -> Generation, f: nat): (r: Result<seq<byte>>)
    ensures !(0 <= cfg.pause < 65536) ==> r == Failure(StructError)
    ensures r.Success? ==> Raster(cfg, world(f), f).Success? && |r.value| >= 21
  {
    var gce :- GraphicControl(cfg.pause);
    var raster :- Raster(cfg, world(f), f);
    FrameChunk(cfg, raster)
  }

  /** Frames 0 .. n - 1, in order. */
  function Frames(cfg: Config, world: nat -> Generation, n: int): Result<seq<byte>>
  {
    if n <= 0 then Success([])
    else
      var front :- Frames(cfg, world, n - 1);
      var chunk :- FrameAt(cfg, world, n - 1);
      Success(front + chunk)
  }

  /** The whole file: the prefix, then `frames` frames, and nothing after. */
  function File(cfg: Config, world: nat -> Generation): (r: Result<seq<byte>>)
    ensures !(0 <= cfg.CanvasWidth() < 65536 && 0 <= cfg.CanvasHeight() < 65536) ==> r == Failure(StructError)
    ensures r.Success? ==> |r.value| >= 44 && r.value[..6] == Signature
  {
    var prefix :- FilePrefix(cfg);
    var frames :- Frames(cfg, world, cfg.frames);
    Success(prefix + frames)
  }

  // ---------------------------------------------------------------------

  /** The 44-byte prefix: "GIF89a", the canvas width and height as
      little-endian 16-bit fields, flags 0x91, background 0, aspect 0, the
      12 colour bytes, and the 19-byte looping extension ending 3, 1, 0, 0,
      0. It exists exactly when both canvas sides fit in 16 bits. */
  lemma PrefixLayout(cfg: Config)
    ensures FilePrefix(cfg).Success? <==>
      (0 <= cfg.CanvasWidth() < 65536 && 0 <= cfg.CanvasHeight() < 65536)
    ensures FilePrefix(cfg).Success? ==>
      var p := FilePrefix(cfg).value;
      && |p| == 44
      && p[..6] == Signature
      && Le16(p[6], p[7]) == cfg.CanvasWidth()
      && Le16(p[8], p[9]) == cfg.CanvasHeight()
      && p[10..13] == [0x91, 0, 0]
      && p[13..25] == ColorTable
      && p[25..44] == LoopExtension
      && p[39..44] == [3, 1, 0, 0, 0]
  {
  }

  /** One frame: `21 F9 04 00`, the pause as a little-endian 16-bit field,
      `00 00`, then 0x2C, the 9-byte image descriptor (0, 0, width, height as
      16-bit fields, flags 0), the minimum code size 2, and the output of
      `compress`. It exists exactly when the pause and both canvas sides fit
      in 16 bits and the raster compresses. */
  lemma FrameLayout(cfg: Config, raster: seq<int>)
    ensures FrameChunk(cfg, raster).Success? <==>
      (0 <= cfg.pause < 65536 && 0 <= cfg.CanvasWidth() < 65536 && 0 <= cfg.CanvasHeight() < 65536
       && Compress(raster).Success?)
    ensures FrameChunk(cfg, raster).Success? ==>
      var c := FrameChunk(cfg, raster).value;
      && |c| == 19 + |Compress(raster).value|
      && c[..4] == [0x21, 0xF9, 4, 0]
      && Le16(c[4], c[5]) == cfg.pause
      && c[6..8] == [0, 0]
      && c[8] == 0x2C
      && c[9..13] == [0, 0, 0, 0]
      && Le16(c[13], c[14]) == cfg.CanvasWidth()
      && Le16(c[15], c[16]) == cfg.CanvasHeight()
      && c[17] == 0
      && c[18] == 2
      && c[19..] == Compress(raster).value
  {
    AroundLayout(cfg, Compress(raster));
  }

  /** The same layout around any outcome of `compress`. */
  lemma AroundLayout(cfg: Config, compressed: Result<seq<byte>>)
    ensures FrameAround(cfg, compressed).Success? <==>
      (0 <= cfg.pause < 65536 && 0 <= cfg.CanvasWidth() < 65536 && 0 <= cfg.CanvasHeight() < 65536
       && compressed.Success?)
    ensures FrameAround(cfg, compressed).Success? ==>
      var c := FrameAround(cfg, compressed).value;
      && |c| == 19 + |compressed.value|
      && c[..4] == [0x21, 0xF9, 4, 0]
      && Le16(c[4], c[5]) == cfg.pause
      && c[6..8] == [0, 0]
      && c[8] == 0x2C
      && c[9..13] == [0, 0, 0, 0]
      && Le16(c[13], c[14]) == cfg.CanvasWidth()
      && Le16(c[15], c[16]) == cfg.CanvasHeight()
      && c[17] == 0
      && c[18] == 2
      && c[19..] == compressed.value
  {
    if FrameAround(cfg, compressed).Success? {
      var gce := GraphicControl(cfg.pause).value;
      var id := ImageDescriptor(cfg.CanvasWidth(), cfg.CanvasHeight()).value;
      var data := compressed.value;
      var c := gce + [ImageSeparator] + id + [MinCodeSize] + data;
      assert FrameAround(cfg, compressed).value == c;
      FramePieces(gce, id, data, c);
      ControlBytes(c, cfg.pause);
      DescriptorBytes(c, cfg.CanvasWidth(), cfg.CanvasHeight());
    }
  }

  /** The offsets of the pieces of a frame. */
  lemma FramePieces(gce: seq<byte>, id: seq<byte>, data: seq<byte>, c: seq<byte>)
    requires |gce| == 8 && |id| == 9
    requires c == gce + [ImageSeparator] + id + [MinCodeSize] + data
    ensures |c| == 19 + |data|
    ensures c[..8] == gce && c[8] == ImageSeparator && c[9..18] == id && c[18] == MinCodeSize && c[19..] == data
  {
    FieldsAt(gce + [ImageSeparator], id + [MinCodeSize], data);
    FieldsAt(gce, [ImageSeparator], id + [MinCodeSize]);
    FieldsAt(id, [MinCodeSize], data);
  }

  /** The graphic control extension at the head of a frame. */
  lemma ControlBytes(c: seq<byte>, pause: int)
    requires 0 <= pause < 65536 && |c| >= 8 && c[..8] == GraphicControl(pause).value
    ensures c[..4] == [0x21, 0xF9, 4, 0] && Le16(c[4], c[5]) == pause && c[6..8] == [0, 0]
  {
    var g := GraphicControl(pause).value;
    assert c[..4] == g[..4] && c[4] == g[4] && c[5] == g[5] && c[6..8] == g[6..8];
  }

  /** The image descriptor at offset 9 of a frame. */
  lemma DescriptorBytes(c: seq<byte>, w: int, h: int)
    requires 0 <= w < 65536 && 0 <= h < 65536 && |c| >= 18
    requires c[9..18] == ImageDescriptor(w, h).value
    ensures c[9..13] == [0, 0, 0, 0] && Le16(c[13], c[14]) == w && Le16(c[15], c[16]) == h && c[17] == 0
  {
    var d := c[9..18];
    assert c[9..13] == d[..4];
    assert c[13] == d[4] && c[14] == d[5] && c[15] == d[6] && c[16] == d[7] && c[17] == d[8];
  }

  /** Where the pieces of a concatenation sit. */
  lemma FieldsAt(a: seq<byte>, b: seq<byte>, d: seq<byte>)
    ensures var c := a + b + d;
      && |c| == |a| + |b| + |d|
      && c[..|a|] == a && c[|a|..|a| + |b|] == b && c[|a| + |b|..] == d
  {
  }

  /** One or more frames end with the sub-block terminator 0. */
  lemma FramesEnd(cfg: Config, world: nat -> Generation, n: int)
    requires n >= 1 && Frames(cfg, world, n).Success?
    ensures EndsInZero(Frames(cfg, world, n).value)
  {
    var m: nat := n - 1;
    FramesSplit(cfg, world, n, m);
    FrameAtEnds(cfg, world, m);
    AppendEnds(Frames(cfg, world, m).value, FrameAt(cfg, world, m).value);
  }

  /** The last of n frames is frame n - 1, appended to the others. */
  lemma FramesSplit(cfg: Config, world: nat -> Generation, n: int, m: nat)
    requires m == n - 1 && Frames(cfg, world, n).Success?
    ensures Frames(cfg, world, m).Success? && FrameAt(cfg, world, m).Success?
    ensures Frames(cfg, world, n).value == Frames(cfg, world, m).value + FrameAt(cfg, world, m).value
  {
  }

  lemma FrameAtEnds(cfg: Config, world: nat -> Generation, f: nat)
    requires FrameAt(cfg, world, f).Success?
    ensures EndsInZero(FrameAt(cfg, world, f).value)
  {
    var raster := Raster(cfg, world(f), f).value;
    assert FrameAt(cfg, world, f) == FrameChunk(cfg, raster);
    ChunkEnds(cfg, raster);
  }

  lemma AppendEnds(a: seq<byte>, b: seq<byte>)
    requires EndsInZero(b)
    ensures EndsInZero(a + b)
  {
  }

  lemma ChunkEnds(cfg: Config, raster: seq<int>)
    requires FrameChunk(cfg, raster).Success?
    ensures EndsInZero(FrameChunk(cfg, raster).value)
  {
    FrameLayout(cfg, raster);
    TailEnds(FrameChunk(cfg, raster).value, Compress(raster).value);
  }

  lemma TailEnds(c: seq<byte>, d: seq<byte>)
    requires |c| == 19 + |d| && c[19..] == d && EndsInZero(d)
    ensures EndsInZero(c)
  {
    assert c[|c| - 1] == c[19..][|d| - 1];
  }

  /** No trailer: whatever the frame count, the last byte of the file is 0
      (the looping extension's terminator, or the last frame's sub-block
      terminator), never 0x3B. */
  lemma NoTrailer(cfg: Config, world: nat -> Generation)
    requires File(cfg, world).Success?
    ensures var out := File(cfg, world).value; out[|out| - 1] == 0 && out[|out| - 1] != Trailer
  {
    var prefix := FilePrefix(cfg).value;
    var frames := Frames(cfg, world, cfg.frames).value;
    assert File(cfg, world).value == prefix + frames;
    PrefixEnds(cfg);
    FramesLast(cfg, world, cfg.frames);
    LastByte(prefix, frames);
  }

  /** The prefix ends with the looping extension's terminator 0. */
  lemma PrefixEnds(cfg: Config)
    requires FilePrefix(cfg).Success?
    ensures EndsInZero(FilePrefix(cfg).value)
  {
    PrefixLayout(cfg);
  }

  /** Any number of frames is empty or ends with 0. */
  lemma FramesLast(cfg: Config, world: nat -> Generation, n: int)
    requires Frames(cfg, world, n).Success?
    ensures var fs := Frames(cfg, world, n).value; |fs| == 0 || EndsInZero(fs)
  {
    if n >= 1 {
      FramesEnd(cfg, world, n);
    }
  }

  /** The last byte of `a + b`, when both parts end with 0 or `b` is empty. */
  lemma LastByte(a: seq<byte>, b: seq<byte>)
    requires EndsInZero(a)
    requires |b| == 0 || EndsInZero(b)
    ensures (a + b)[|a + b| - 1] == 0
  {
  }

  /** A frame of a canvas with 1..4091 pixels and a non-zero pitch, with
      pause and canvas sides in 16 bits, is written: the sampler cannot
      fail, and the compressor stays below the reset point. Its data reads
      back as sub-blocks holding the LZW stream of the frame's raster. */
  lemma FrameWritten(cfg: Config, world: nat -> Generation, f: nat)
    requires cfg.Pitch() != 0
    requires 0 <= cfg.pause < 65536
    requires 1 <= cfg.CanvasWidth() < 65536 && 1 <= cfg.CanvasHeight() < 65536
    requires cfg.CanvasWidth() * cfg.CanvasHeight() <= 4091
    ensures FrameAt(cfg, world, f).Success?
    ensures var raster := Raster(cfg, world(f), f).value;
      var c := FrameAt(cfg, world, f).value;
      && Encode(raster).Success?
      && Parse(c[19..]).Some?
      && Flatten(Parse(c[19..]).value) == Encode(raster).value.output
  {
    RasterShape(cfg, world(f), f);
    var raster := Raster(cfg, world(f), f).value;
    assert |raster| == cfg.CanvasWidth() * cfg.CanvasHeight() by {
      assert Span(cfg.CanvasHeight()) * Span(cfg.CanvasWidth()) == cfg.CanvasWidth() * cfg.CanvasHeight();
    }
    assert 1 <= |raster| by {
      MulMonotone(1, cfg.CanvasHeight(), cfg.CanvasWidth());
    }
    var out, data := CompressBlocks(raster);
    FrameLayout(cfg, raster);
  }
}
