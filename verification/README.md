# giffer: a verified model of the GIF writer

`giffer.py` is a Golly script. It draws the selected part of a Life pattern
as an animated, looping, black-and-white GIF with LifeWiki-style grey
gridlines. Each frame works in four steps:

1. It samples one pixel per canvas position (`getpx`).
2. It collects the pixels row by row into a raster of colour indices
   (`getdata`).
3. It compresses that raster with variable-width LZW and cuts the result
   into data sub-blocks (`compress`).
4. It writes the bytes of the GIF89a container around it.

This project models those four steps as pure Dafny functions and proves
what they deliver.

| file | module | models |
|---|---|---|
| `results.dfy` | `Results` | Python exceptions as `Failure(KeyError / ValueError / ZeroDivisionError / StructError)`; `Option` |
| `arith.dfy` | `Arith` | bytes, powers of two, Python 2 floor `/` and `%` (`FloorDiv`, `FloorMod`), `xrange(n)` length (`Span`) |
| `bitstream.dfy` | `BitStream` | the LSB-first bit string of the accumulator and the output bytes; reading fields back (`Unpack`) |
| `subblocks.dfy` | `SubBlocks` | the chunking loop of `compress` (`Chunk`) and a sub-block reader (`Parse`) |
| `lzw.dfy` | `Lzw` | `compress`: the encoder state, one loop iteration (`Step`, `Widen`, `Reset`), the flush loop (`Flush`), the final write (`Finish`) |
| `lzw_invariants.dfy` | `LzwInvariants` | the reference code width `CodeWidth`, the encoder invariant and its preservation |
| `lzw_theorems.dfy` | `LzwTheorems` | what `compress` guarantees: bounds, error cases, the reset branch, bit-exact decodability |
| `sampler.dfy` | `Sampler` | `getpx` (`Pixel`) and `getdata` (`Raster`) |
| `gif.dfy` | `Gif` | the container bytes: header, screen descriptor, colour table, looping extension, and per-frame graphic control extension, image descriptor and data |

Modelling choices:

- Raster symbols are the integers 0..3, standing for the one-character
  strings `'0'`..`'3'`. An LZW table key is the sequence of those integers.
- The simulator's `getcell` for generation `f` is a parameter
  `world(f): (int, int) -> Cell` with cells 0 or 1. `g.run(1)` between
  frames is the step from `world(f)` to `world(f + 1)`.
- The encoder state carries a record `log` of the codes written, with their
  widths and phrases. The script keeps no such record. The invariants use
  it to say which codes the output bits hold.
- Python 2 integer division and remainder round toward minus infinity.
  They are modelled for every non-zero divisor, because the script never
  checks that the cell size is non-negative.

### The reset branch, as written

When a new code would pass 4095 at width 12, the script does the following
(`giffer.py:94-104`):

- it writes the clear code at width 12;
- it reseeds the table with only `'0'` and `'1'`;
- it sets `used` to 5, the pending bit count to 3 and `mask` to 7;
- it keeps `size` at 12.

Setting the bit count to 3 never loses a set bit. After the clear code is
flushed the accumulator is 0 and (b + 4) mod 8 bits are pending, b being
the count before the write (`LzwTheorems.ResetPending`). The assignment
therefore only changes how many zero bits follow the clear code. The real
damage comes from the rest of the branch. Codes 2 and 3
can no longer be found. With `mask` at 7, the branch fires again three new
strings later. `Lzw.Reset` models this literally, and
`LzwTheorems.ResetBranch` and `LzwTheorems.ResetLosesSymbol` state these
consequences.

The proofs of bit-exact packing and decodability cover rasters of at most
4091 symbols. Up to that length the table never fills, so the reset branch
is never reached.

### Where the code differs from the usual reading of the format

The script writes no 0x3B trailer after the last frame (`Gif.NoTrailer`).
It writes no end-of-information code. Its reset does not restore a 3-bit
code width. The model follows the code in all three.

## Model

| member | source | states |
|---|---|---|
| Arith.FloorDiv | giffer.py:57 | Python's `/` on ints is the floor of the exact quotient: for a positive divisor b, `b * q <= a < b * q + b`; for a negative one, `b * q + b < a <= b * q` |
| Arith.FloorMod | giffer.py:55-57 | Python's `%`: the remainder takes the divisor's sign, is smaller than the divisor in magnitude, and `a == b * FloorDiv(a, b) + r` |
| BitStream.ShiftIn | giffer.py:84-85 | `curr += v << bits` appends the bits of `v` after the `bits` pending bits, and the sum stays below 2^(bits + width) when `v` fits its width |
| BitStream.MoveByte | giffer.py:86-89 | one flush step (`chr(curr & 255)`, `curr >>= 8`, `bits -= 8`) leaves the bit string held by the output and the accumulator unchanged and keeps the accumulator bound |
| BitStream.FromBitsBits | giffer.py:84-85 | a code written in `n` bits reads back as the same number |
| BitStream.PadByte | giffer.py:112 | appending the accumulator as the last byte adds the pending bits and then zero bits up to the byte boundary |
| Lzw.Flush | giffer.py:86-89 | the flush loop keeps the output as a prefix, adds `(bits - bits') / 8` bytes, leaves fewer than 8 bits pending, keeps output bits plus pending bits unchanged, and touches no other variable |
| Lzw.Finish | giffer.py:106-112 | whenever the final write succeeds, exactly one data code is written, the output written so far is kept, and the unchunked output has at least one byte: the partial byte is always appended |
| Lzw.Step | giffer.py:77-105 | one iteration fails exactly when the extended string is new and the match itself is not in the table, and then with `KeyError`; otherwise the output and the record of written codes only grow (`LzwInvariants.StepPreserves` and `LzwTheorems.StepBounds` state the rest) |
| Lzw.Widen | giffer.py:90-104 | after a write the match restarts at the new symbol, the output and the record only grow, and the width stays or grows by one bit, the latter only when `used` passed `mask` |
| Lzw.Reset | giffer.py:94-104 | the reset writes one clear code at the current width, keeps the output, keeps `size`, restarts the match at the new symbol, and leaves `'0'` and `'1'` in the table but not `'2'` or `'3'` |
| Lzw.Run | giffer.py:76-105 | the symbol loop fails only with `KeyError`, and on success the output and the record of written codes only grow |
| Lzw.Encode | giffer.py:69-112 | whenever the encoder returns, its record starts with the clear code at 3 bits and ends with a data code, and its unchunked output is non-empty (`LzwInvariants.EncodeCorrect` states the content) |
| LzwInvariants.CodeWidth | giffer.py:90-93 | the width for `used` assigned codes is the least width of at least 3 bits that can hold `used` |
| LzwInvariants.InitInv | giffer.py:70-75 | the initial variables (four literals, clear code 4 pending in 3 bits, `used` 5, `mask` 7) satisfy the encoder invariant: width bookkeeping, packing, dictionary, parse and chain |
| LzwInvariants.StepPreserves | giffer.py:77-105 | one loop iteration on a colour index, before the table fills, succeeds and keeps the invariant for the longer consumed input |
| LzwInvariants.StepInserts | giffer.py:81-93 | in the insertion case the new string gets code `used + 1`, the match's code is written at the current width, the width grows by one exactly when the new code passes `mask`, `mask` stays `2^size - 1`, and the packing invariant survives |
| LzwInvariants.WidenGrows | giffer.py:94-97 | below the reset point the width check adds one bit exactly when the new code passes `mask`, keeps `size` the least width holding `used` and `mask` equal to `2^size - 1`, and changes nothing else |
| LzwInvariants.RunPreserves | giffer.py:76-105 | the whole symbol loop over at most 4091 colour indices succeeds and keeps the invariant |
| LzwInvariants.FinishPads | giffer.py:106-112 | the last match's code goes out at the current width, and the final byte adds 1 to 8 zero padding bits after the codes |
| LzwInvariants.EncodeCorrect | giffer.py:69-112 | for 1..4091 colour indices, the encoder succeeds and its output is the clear code and then data codes at their widths, zero-padded; the phrases spell the raster; each code stands for its phrase; code 5 + j stands for phrase j plus the first symbol of phrase j + 1 |
| LzwTheorems.StepBounds | giffer.py:90-93 | for any state, a step never narrows the width, widens it by at most one bit and never past 12, doubles `mask` plus one when it widens, and leaves fewer than 8 bits pending |
| LzwTheorems.RunBounds | giffer.py:76-105 | over any input the loop succeeds on, the width only grows, by at most one bit per symbol, stays at most 12, and fewer than 8 bits stay pending |
| LzwTheorems.EmptyRasterFails | giffer.py:106 | an empty raster raises `KeyError` at `table[code]` with the empty match |
| LzwTheorems.ForeignSymbolFails | giffer.py:79-84 | a first symbol outside 0..3 is inserted under code 6, after which `table[code]` raises `KeyError` |
| LzwTheorems.ResetBranch | giffer.py:94-104 | at width 12, the code that passes `mask` writes the match's code and then the clear code at 12 bits; the table is reseeded with only `'0'` and `'1'`, `used` is 5, `bits` is 3 and `mask` is 7 (below 2^12 - 1), while `size` stays 12 |
| LzwTheorems.ResetPending | giffer.py:98-103 | after the clear code's flush the accumulator is 0 and (b + 4) mod 8 bits are pending, so `bits = 3` only changes the number of zero bits after the clear code; the output written so far is kept |
| LzwTheorems.ResetLosesSymbol | giffer.py:101-106 | after the reset on symbol 2 or 3, both the next iteration and the final write raise `KeyError` |
| LzwTheorems.CodeWidthMonotone | giffer.py:90-93 | more assigned codes never need a narrower width |
| LzwTheorems.UnpackStream | giffer.py:84-89 | a reader that takes fields of the written widths recovers the written codes, whatever padding follows |
| LzwTheorems.EncodeWidths | giffer.py:84-93 | for 1..4091 colour indices, the widths start at 3, never decrease, never pass 12, each code fits its width, and each width is the one a reader computes from the code's position |
| LzwTheorems.EncodeUnpacks | giffer.py:84-112 | the unchunked output read LSB-first at those widths gives back the clear code and then the data codes (never 4 or 5); it has one byte more than the whole bytes the codes fill |
| LzwTheorems.EncodeParses | giffer.py:79-106 | replacing each data code by its string in the final table spells the raster exactly; the table holds, under code 5 + j, phrase j plus the first symbol of phrase j + 1, which is the entry a decoder rebuilds |
| LzwTheorems.CompressBlocks | giffer.py:113-117 | `compress` on 1..4091 colour indices succeeds and ends with 0; it reads back as ceil(L / 255) sub-blocks whose contents in order are the L bytes of the LZW stream |
| SubBlocks.Chunk | giffer.py:113-117 | the chunked form ends with the 0 terminator and is one length byte per started 255 bytes longer than the data, plus the terminator (two bytes, `00 00`, for empty data) |
| Lzw.Compress | giffer.py:113-117 | whenever `compress` returns, its result has at least two bytes and ends with the 0 terminator |
| SubBlocks.ChunkedForm | giffer.py:113-117 | the chunked form of a non-empty stream ends with 0 and reads back as ceil(L / 255) sub-blocks whose contents are the stream |
| SubBlocks.ChunkParses | giffer.py:113-117 | chunking a non-empty stream and reading it back gives the stream, in ceil(L / 255) blocks, all of 255 bytes but the last, which has 1..255 |
| Sampler.Pixel | giffer.py:52-57 | a pixel exists exactly when the pitch `cellsize + 2` is non-zero, and its colour index is 0, 1 or 2 |
| Sampler.GridlineIff | giffer.py:52-57 | a pixel is 2 exactly when the floor remainder of its shifted x or y by the pitch is below 2; otherwise it is the cell at the floor quotients offset by the selection origin |
| Sampler.PixelInCell | giffer.py:53-57 | a pixel inside the square of cell (col, row), after its frame's shift, shows `getcell(x + col, y + row)` |
| Sampler.PixelOnGridline | giffer.py:55-56 | a pixel in the two-pixel band starting any pitch, horizontally or vertically, is a gridline pixel (2) whatever the cells hold |
| Sampler.NegativePitchAllGrid | giffer.py:55-56 | with a negative pitch every remainder is below 2, so every pixel is gridline |
| Sampler.PixelTranslates | giffer.py:53-54 | shifting a pixel by (vx, vy) is the same as sampling the next frame |
| Sampler.LineShape | giffer.py:63-65 | a row of n pixels has n symbols, the pixel at column x at index x, and fails only for a zero pitch |
| Sampler.RowsShape | giffer.py:62-66 | the first n rows of `w` pixels hold n * w symbols, pixel (x, y) at index y * w + x with the sampled colour index, and fail only for a zero pitch when n and w are positive |
| Sampler.Raster | giffer.py:59-67 | `getdata` fails exactly when the pitch is 0 and the canvas is non-empty (`Sampler.RasterShape` states the layout) |
| Sampler.RasterShape | giffer.py:59-67 | `getdata` yields one symbol per canvas pixel, row-major, each the sampled colour index, all in 0..2; it fails only for a zero pitch on a non-empty canvas |
| Gif.ScreenDescriptor | giffer.py:124 | the logical screen descriptor exists exactly when both sides are in 0..65535; its 7 bytes are width and height read back little-endian, then `91 00 00` |
| Gif.GraphicControl | giffer.py:138 | the graphic control extension exists exactly when the pause is in 0..65535; its 8 bytes are `21 F9 04 00`, the pause read back little-endian, then `00 00` |
| Gif.ImageDescriptor | giffer.py:128 | the image descriptor exists exactly when both sides are in 0..65535; its 9 bytes are position (0, 0), width and height read back little-endian, then flags 0 |
| Gif.U16 | giffer.py:138 | `struct.pack("<H", n)` succeeds exactly for 0..65535 and its two bytes read back little-endian as `n` |
| Gif.PrefixLayout | giffer.py:123-135 | the 44-byte prefix is "GIF89a", width and height as 16-bit fields, `91 00 00`, the four colours, and the NETSCAPE2.0 loop-forever extension; it exists exactly when both canvas sides are in 0..65535 |
| Gif.FrameLayout | giffer.py:136-140 | a frame is `21 F9 04 00`, the pause, `00 00`, `2C`, the image descriptor at (0, 0) with the canvas size, code size 2, then `compress`'s output; it exists exactly when the pause and sides fit 16 bits and the raster compresses |
| Gif.FrameAt | giffer.py:136-140 | a pause outside 0..65535 fails frame f with `struct.error` whatever the pitch, because the extension is packed before `getdata` runs; a written frame has a sampled raster and at least 21 bytes (`Gif.FrameLayout` gives every offset) |
| Gif.File | giffer.py:123-145 | a canvas side outside 0..65535 fails the whole file with `struct.error` at the screen descriptor, before any frame; a written file starts with "GIF89a" and holds at least the 44 prefix bytes (`Gif.NoTrailer` states how it ends) |
| Gif.FramesEnd | giffer.py:136-140 | the bytes of one or more frames end with the sub-block terminator 0 |
| Gif.NoTrailer | giffer.py:135-145 | the file's last byte is 0 and never the 0x3B trailer, whatever the frame count |
| Gif.FrameWritten | giffer.py:136-140 | with a non-zero pitch, a pause and sides in 16 bits, and 1..4091 pixels, each frame is written, and its data reads back as sub-blocks holding the frame raster's LZW stream |
| LzwTheorems.SingleWhitePixel | giffer.py:69-117 | one white pixel compresses to `01 04 00`: the clear code and code 0 in one byte, one block of length 1, then the terminator |

## Left out

- Parameter input and validation (`giffer.py:9-50`): the selection
  rectangle, the prompts and the integer parsing become the fields of
  `Sampler.Config`, and the model takes any integers. The script stops
  before writing anything when the selection is empty or one of its sides
  is 65536 or more (`giffer.py:10-14`), and when a canvas side is 65536 or
  more (`giffer.py:48-50`, where building the message adds a string and an
  integer, so Python 2 raises `TypeError`). The model has neither check: for
  such sides `Gif.File` fails with `struct.error` at the screen descriptor.
  A negative canvas side passes the script's checks and fails at
  `struct.pack` in both.
- The simulator is a parameter. `g.getcell` for generation `f` is
  `world(f)`. `g.run`, `g.update` and `g.show` are left out.
- File I/O: opening, writing and closing the file. A failure part-way
  through the script leaves a partial file, but in the model the whole
  `File` fails.
- Multi-state rules: `getcell` is modelled as returning only 0 or 1, as in
  two-state Life. A state above 3 would make `str(k)` a string the four
  literals do not cover.
- LzwInvariants.EncodeCorrect: the round trip and packing proofs stop at
  4091 symbols, because the first reset needs at least 4092 symbols. Beyond
  that the model runs the reset branch literally, and the code width is
  bounded only by `LzwTheorems.RunBounds`.
- LzwTheorems.EncodeParses: this decodes with the encoder's final table.
  It does not replay a decoder that rebuilds the table code by code. The
  chain property gives the entry such a decoder adds at each step.
- The end-of-information code is never written by the script, so the model
  writes none either.
