/** The LZW compressor of the script (`compress`): the variable-width
    variant of Appendix F of the GIF89a specification, for a minimum code
    size of 2 (four colour indices), followed by sub-block chunking.

    Raster symbols are the integers 0..3, each standing for the one-character
    string `str(k)` the rasterizer produces; a table key is the sequence of
    the symbols of the string it stands for. */
module Lzw {
  import opened Arith
  import opened Results
  import opened BitStream
  import opened SubBlocks

  const ClearCode: nat := 4        // `cc`
  const EndOfInformation: nat := 5 // `eoi`: reserved, never emitted
  const MaxCodeWidth: nat := 12

  /** One code placed in the output, with the width it was written at: a
      record the script never keeps, carried so the packing and parsing
      invariants can name what was written. A data code carries the phrase
      (the matched string) it stands for. */
  datatype Emission =
    | Clear(width: nat)
    | Data(phrase: seq<int>, code: nat, width: nat)
  {
    function Value(): nat {
      if Clear? then ClearCode else code
    }

    function Text(): seq<int> {
      if Clear? then [] else phrase
    }
  }

  /** The local variables of `compress` between two symbols. `curr` holds
      `bits` pending bits; `size` is the current code width and `mask` the
      largest code it was sized for; `used` is the last assigned code; `code`
      is the current match. `log` is the emission record described above. */
  datatype Encoder = Encoder(
    table: map<seq<int>, nat>,
    curr: nat,
    bits: nat,
    size: nat,
    mask: nat,
    used: nat,
    output: seq<byte>,
    code: seq<int>,
    log: seq<Emission>)

  function Literals(): map<seq<int>, nat>
  {
    map[[0] := 0, [1] := 1, [2] := 2, [3] := 3]
  }

  /** The state before the first symbol: the accumulator already holds the
      clear code in 3 bits. */
  function Init(): Encoder
  {
    Encoder(Literals(), ClearCode, 3, 3, 7, EndOfInformation, [], [], [Clear(3)])
  }

  /** The flush loop `while bits >= 8: output += chr(curr & 255); ...`:
      moves whole bytes from the accumulator to the output without changing
      the bit string that output and accumulator hold together. */
  function Flush(st: Encoder): (r: Encoder)
    ensures r.bits < 8 && r.bits <= st.bits && (st.bits - r.bits) % 8 == 0
    ensures |r.output| == |st.output| + (st.bits - r.bits) / 8
    ensures r.output[..|st.output|] == st.output
    ensures ByteBits(r.output) + Bits(r.curr, r.bits) == ByteBits(st.output) + Bits(st.curr, st.bits)
    ensures st.curr < Pow2(st.bits) ==> r.curr < Pow2(r.bits)
    ensures r == st.(curr := r.curr, bits := r.bits, output := r.output)
    decreases st.bits
  {
    if st.bits < 8 then st
    else
      MoveByte(st.output, st.curr, st.bits);
      Flush(st.(output := st.output + [st.curr % 256], curr := st.curr / 256, bits := st.bits - 8))
  }

  /** `curr += value << bits; bits += width`: the code goes above the
      pending bits. */
  function Place(st: Encoder, e: Emission): Encoder
  {
    st.(curr := st.curr + e.Value() * Pow2(st.bits), bits := st.bits + e.width, log := st.log + [e])
  }

  /** Writing one code: place it, then run the flush loop. */
  function Emit(st: Encoder, e: Emission): Encoder
  {
    Flush(Place(st, e))
  }

  /** One iteration of the symbol loop: extend the match if the longer
      string is in the table; otherwise give the longer string the next
      code, write the code of the match, and restart the match at `next`. */
  function Step(st: Encoder, next: int): (r: Result<Encoder>)
    ensures r.Failure? <==> st.code + [next] !in st.table && st.code !in st.table
    ensures r.Failure? ==> r.error == KeyError
    ensures r.Success? ==> st.output <= r.value.output && st.log <= r.value.log
  {
    var key := st.code + [next];
    if key in st.table then Success(st.(code := key))
    else
      var used := st.used + 1;
      var table := st.table[key := used];
      if st.code !in table then Failure(KeyError)
      else Success(Widen(Emit(st.(used := used, table := table), Data(st.code, table[st.code], st.size)), next))
  }

  /** `if used > mask: ...` after a code is written: one more bit of width
      while the width is below 12, otherwise the reset branch. */
  function Widen(st: Encoder, next: int): (r: Encoder)
    ensures r.code == [next]
    ensures st.output <= r.output && st.log <= r.log
    ensures r.size == st.size || (st.used > st.mask && r.size == st.size + 1)
  {
    if st.used <= st.mask then st.(code := [next])
    else if st.size < MaxCodeWidth then st.(size := st.size + 1, mask := 2 * st.mask + 1, code := [next])
    else Reset(st, next)
  }

  /** The reset branch exactly as written: the clear code goes out at the
      current width, then the table is reseeded with only the strings "0"
      and "1", the pending bit count is set to 3 whatever is still pending,
      and `mask` goes back to 7 while `size` stays at 12. */
  function Reset(st: Encoder, next: int): (r: Encoder)
    ensures r.log == st.log + [Clear(st.size)] && st.output <= r.output
    ensures [0] in r.table && [1] in r.table && [2] !in r.table && [3] !in r.table
    ensures r.size == st.size && r.code == [next]
  {
    var c := Emit(st, Clear(st.size));
    c.(table := map[[0] := 0, [1] := 1], used := EndOfInformation, bits := 3, mask := 7, code := [next])
  }

  /** The symbol loop over the whole raster. */
  function Run(st: Encoder, symbols: seq<int>): (r: Result<Encoder>)
    ensures r.Failure? ==> r.error == KeyError
    ensures r.Success? ==> st.output <= r.value.output && st.log <= r.value.log
    decreases |symbols|
  {
    if |symbols| == 0 then Success(st)
    else
      var st' :- Step(st, symbols[0]);
      Run(st', symbols[1..])
  }

  /** After the loop: the code of the pending match, the flush loop, and the
      leftover partial byte `chr(curr)`. */
  function Finish(st: Encoder): (r: Result<Encoder>)
    ensures r.Success? ==> |r.value.output| >= 1 && st.output <= r.value.output
    ensures r.Success? ==> |r.value.log| == |st.log| + 1 && st.log <= r.value.log && r.value.log[|st.log|].Data?
  {
    if st.code !in st.table then Failure(KeyError)
    else
      var e := Emit(st, Data(st.code, st.table[st.code], st.size));
      if e.curr > 255 then Failure(ValueError)
      else Success(e.(output := e.output + [e.curr]))
  }

  /** The encoder's final state for a raster; its `output` is the LZW data
      before chunking. */
  function Encode(symbols: seq<int>): (r: Result<Encoder>)
    ensures r.Success? ==> |r.value.log| >= 2 && r.value.log[0] == Clear(3) && r.value.log[|r.value.log| - 1].Data?
    ensures r.Success? ==> |r.value.output| >= 1
  {
    var st :- Run(Init(), symbols);
    Finish(st)
  }

  /** `compress(lines)`: the LZW data cut into sub-blocks. Whenever it
      returns, its last byte is the sub-block terminator. */
  function Compress(symbols: seq<int>): (r: Result<seq<byte>>)
    ensures r.Success? ==> |r.value| >= 2 && EndsInZero(r.value)
  {
    var st :- Encode(symbols);
    Success(Chunk(st.output))
  }
}
