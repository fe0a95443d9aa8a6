/** What `compress` promises its caller, stated over the model of the
    encoder: for every input (width and accumulator bounds, the reset
    branch as written, the error cases) and for rasters that stay below
    the reset point (bit-exact packing, decodable widths, a faithful parse,
    well-formed sub-blocks). */
module LzwTheorems {
  import opened Arith
  import opened Results
  import opened BitStream
  import opened SubBlocks
  import opened Lzw
  import opened LzwInvariants

  // ---------------------------------------------------------------------
  // For every input.

  /** Whatever the state, a step never narrows the code width, never takes
      it past 12, grows `mask` to `2 * mask + 1` whenever it adds a bit, and
      leaves fewer than 8 bits pending. */
  lemma StepBounds(st: Encoder, next: int)
    requires st.size <= MaxCodeWidth
    requires Step(st, next).Success?
    ensures var r := Step(st, next).value;
      && st.size <= r.size <= MaxCodeWidth
      && r.size <= st.size + 1
      && (r.size == st.size + 1 ==> r.mask == 2 * st.mask + 1)
      && (st.bits < 8 ==> r.bits < 8)
  {
  }

  /** The same over the whole symbol loop: the width only grows, by at most
      one bit per symbol, and stays at most 12. Nothing here depends on the
      table being below the reset point. */
  lemma {:induction false} RunBounds(st: Encoder, s: seq<int>)
    requires st.size <= MaxCodeWidth && st.bits < 8
    requires Run(st, s).Success?
    ensures st.size <= Run(st, s).value.size <= MaxCodeWidth
    ensures Run(st, s).value.size <= st.size + |s|
    ensures Run(st, s).value.bits < 8
    decreases |s|
  {
    if |s| > 0 {
      StepBounds(st, s[0]);
      RunBounds(Step(st, s[0]).value, s[1..]);
    }
  }

  /** An empty raster fails at `table[code]` with the empty match. */
  lemma EmptyRasterFails()
    ensures Encode([]) == Failure(KeyError)
    ensures Compress([]) == Failure(KeyError)
  {
    assert [] !in Literals();
  }

  /** A first symbol outside the four colour indices fails the same way:
      it is inserted under code 6, then the empty match is looked up. */
  lemma ForeignSymbolFails(s: seq<int>)
    requires |s| >= 1 && !(0 <= s[0] < 4)
    ensures Encode(s) == Failure(KeyError)
  {
    var key: seq<int> := [] + [s[0]];
    assert forall k | k in Literals() :: |k| == 1 && 0 <= k[0] < 4;
    assert key !in Literals();
    assert [] !in Literals()[key := 6];
    assert Step(Init(), s[0]) == Failure(KeyError);
  }

  /** The reset branch as written. When the new code passes `mask` at width
      12, the clear code goes out at width 12 after the code of the match;
      then the table holds only "0" and "1", `used` is 5, the pending bit
      count is 3 and `mask` is 7, while `size` stays 12. Since `mask` is then
      far below 2^12 - 1, the branch fires again after three more new
      strings. */
  lemma ResetBranch(st: Encoder, next: int)
    requires st.size == MaxCodeWidth && st.used + 1 > st.mask
    requires st.code in st.table && st.code + [next] !in st.table
    ensures Step(st, next).Success?
    ensures var r := Step(st, next).value;
      && r.table == map[[0] := 0, [1] := 1]
      && r.used == EndOfInformation && r.bits == 3 && r.mask == 7
      && r.size == MaxCodeWidth
      && r.mask < Pow2(r.size) - 1
      && r.code == [next]
      && r.log == st.log + [Data(st.code, st.table[st.code], MaxCodeWidth), Clear(MaxCodeWidth)]
  {
    Pow2Values();
  }

  /** What the reset branch does to the pending bits: after the clear code
      is flushed, the accumulator is 0 and (b + 4) mod 8 bits are pending,
      b being the count before the write. Setting the count to 3 therefore
      never loses a set bit; it changes only how many zero bits follow the
      clear code. */
  lemma ResetPending(st: Encoder)
    requires st.bits < 8 && st.curr < Pow2(st.bits)
    ensures var c := Emit(st, Clear(MaxCodeWidth));
      && c.curr == 0
      && c.bits == (st.bits + 4) % 8
      && c.output[..|st.output|] == st.output
  {
    var p := Place(st, Clear(MaxCodeWidth));
    assert p.curr == st.curr + ClearCode * Pow2(st.bits) && p.bits == st.bits + 12;
    ClearBound(st.curr, st.bits);
    FlushEmpties(p);
    var r := Flush(p);
    PendingAfterClear(st.bits, p.bits, r.bits);
  }

  lemma PendingAfterClear(b: nat, x: nat, y: nat)
    requires b < 8 && x == b + 12
    requires y < 8 && y <= x && (x - y) % 8 == 0
    ensures y == (b + 4) % 8
  {
    if b < 4 {
      DivModUnique(x - y, 8, 1, 0);
    } else {
      DivModUnique(x - y, 8, 2, 0);
    }
  }

  lemma ClearBound(c: nat, b: nat)
    requires b < 8 && c < Pow2(b)
    ensures c + ClearCode * Pow2(b) < 65536
    ensures b < 4 ==> c + ClearCode * Pow2(b) < 256
  {
    Pow2Monotone(b, 7);
    if b < 4 {
      Pow2Monotone(b, 3);
    }
  }

  /** Flushing at most two bytes' worth of value leaves nothing behind. */
  lemma FlushEmpties(p: Encoder)
    requires 12 <= p.bits < 20 && p.curr < 65536
    requires p.bits < 16 ==> p.curr < 256
    ensures Flush(p).curr == 0
  {
    var q := p.(output := p.output + [p.curr % 256], curr := p.curr / 256, bits := p.bits - 8);
    assert Flush(p) == Flush(q);
    if q.bits >= 8 {
      var t := q.(output := q.output + [q.curr % 256], curr := q.curr / 256, bits := q.bits - 8);
      assert Flush(q) == Flush(t);
    }
  }

  /** After a reset on a symbol 2 (gridline) or 3, the match is a string the
      reseeded table does not hold: the next step and the final write both
      fail at `table[code]`. */
  lemma ResetLosesSymbol(st: Encoder, next: int, after: int)
    requires st.table == map[[0] := 0, [1] := 1]
    requires st.code == [next] && (next == 2 || next == 3)
    ensures Step(st, after) == Failure(KeyError)
    ensures Finish(st) == Failure(KeyError)
  {
    assert st.code + [after] !in st.table;
    assert st.code !in st.table[st.code + [after] := st.used + 1];
  }

  // ---------------------------------------------------------------------
  // Below the reset point: rasters of 1..4091 colour indices.

  lemma CodeWidthMonotone(a: nat, b: nat)
    requires a <= b
    ensures CodeWidth(a) <= CodeWidth(b)
  {
    Pow2Order(CodeWidth(b), CodeWidth(a) - 1);
  }

  /** Reading a stream of codes back field by field, at the widths they
      were written at, returns the codes; trailing bits are ignored. */
  lemma {:induction false} UnpackStream(log: seq<Emission>, pad: seq<bool>)
    requires forall i | 0 <= i < |log| :: log[i].Value() < Pow2(log[i].width)
    ensures Unpack(StreamBits(log) + pad, Widths(log)) == Values(log)
  {
    if |log| > 0 {
      var b := Bits(log[0].Value(), log[0].width);
      var bs := StreamBits(log) + pad;
      assert bs == b + (StreamBits(log[1..]) + pad);
      assert bs[..log[0].width] == b;
      assert bs[log[0].width..] == StreamBits(log[1..]) + pad;
      FromBitsBits(log[0].Value(), log[0].width);
      UnpackStream(log[1..], pad);
      assert Widths(log)[1..] == Widths(log[1..]);
      assert Values(log) == [log[0].Value()] + Values(log[1..]);
    }
  }

  /** The written codes fit widths that start at 3, never decrease and never
      pass 12, and each is the width a reader computes from the position. */
  lemma EncodeWidths(s: seq<int>)
    requires Symbols(s) && 1 <= |s| <= 4091
    ensures Encode(s).Success?
    ensures var log := Encode(s).value.log;
      && Widths(log) == ExpectedWidths(|log|)
      && (forall i | 0 <= i < |log| :: 3 <= log[i].width <= MaxCodeWidth && log[i].Value() < Pow2(log[i].width))
      && (forall i, j | 0 <= i <= j < |log| :: log[i].width <= log[j].width)
  {
    var f := EncodeCorrect(s);
    LogWidths(f.log);
  }

  lemma LogWidths(log: seq<Emission>)
    requires 1 <= |log| <= 4092 && log[0] == Clear(3)
    requires forall j | 0 < j < |log| :: WellWritten(log, j)
    ensures Widths(log) == ExpectedWidths(|log|)
    ensures forall i | 0 <= i < |log| :: 3 <= log[i].width <= MaxCodeWidth && log[i].Value() < Pow2(log[i].width)
    ensures forall i, j | 0 <= i <= j < |log| :: log[i].width <= log[j].width
  {
    Pow2Values();
    CodeWidthUnique(4095, 12);
    forall i | 0 <= i < |log|
      ensures log[i].width == (if i == 0 then 3 else CodeWidth(4 + i))
      ensures 3 <= log[i].width <= MaxCodeWidth && log[i].Value() < Pow2(log[i].width)
    {
      if 0 < i {
        assert WellWritten(log, i);
        CodeWidthMonotone(4 + i, 4095);
      }
    }
    forall i, j | 0 <= i <= j < |log|
      ensures log[i].width <= log[j].width
    {
      if 0 < i {
        CodeWidthMonotone(4 + i, 4 + j);
      }
    }
  }

  /** The unchunked output read LSB-first at the widths a reader computes
      gives back the clear code and then the data codes, none of which is
      the clear or end-of-information code; the output has one byte more
      than the whole bytes the codes fill. */
  lemma EncodeUnpacks(s: seq<int>)
    requires Symbols(s) && 1 <= |s| <= 4091
    ensures Encode(s).Success?
    ensures var f := Encode(s).value;
      && Unpack(ByteBits(f.output), ExpectedWidths(|f.log|)) == Values(f.log)
      && Values(f.log)[0] == ClearCode
      && (forall j | 0 < j < |f.log| :: Values(f.log)[j] != ClearCode && Values(f.log)[j] != EndOfInformation)
      && |f.output| == |StreamBits(f.log)| / 8 + 1
  {
    var f := EncodeCorrect(s);
    EncodeWidths(s);
    var t := |StreamBits(f.log)|;
    var bs := ByteBits(f.output);
    assert bs == StreamBits(f.log) + bs[t..];
    UnpackStream(f.log, bs[t..]);
    forall j | 0 < j < |f.log|
      ensures Values(f.log)[j] != ClearCode && Values(f.log)[j] != EndOfInformation
    {
      assert WellWritten(f.log, j);
    }
  }

  /** The code of every phrase, looked up backwards in the final table. */
  ghost function KeyOf(table: map<seq<int>, nat>, c: nat): Option<seq<int>>
  {
    if exists k :: k in table && table[k] == c then
      var k :| k in table && table[k] == c; Some(k)
    else None
  }

  /** Decoding a code sequence with a fixed table: each code replaced by the
      string it stands for. */
  ghost function DecodeWith(table: map<seq<int>, nat>, codes: seq<nat>): Option<seq<int>>
  {
    if |codes| == 0 then Some([])
    else match (DecodeWith(table, codes[..|codes| - 1]), KeyOf(table, codes[|codes| - 1]))
      case (Some(front), Some(k)) => Some(front + k)
      case _ => None
  }

  lemma {:induction false} DecodeRecorded(table: map<seq<int>, nat>, log: seq<Emission>)
    requires |log| >= 1 && log[0].Clear?
    requires Injective(table)
    requires forall j | 0 < j < |log| :: Recorded(table, log[j])
    ensures DecodeWith(table, Values(log)[1..]) == Some(Phrases(log))
  {
    if |log| > 1 {
      var n := |log| - 1;
      DecodeRecorded(table, log[..n]);
      assert Values(log)[1..][..n - 1] == Values(log[..n])[1..];
      var e := log[n];
      assert Recorded(table, e);
      assert KeyOf(table, e.code) == Some(e.phrase);
    } else {
      assert Phrases(log) == Phrases(log[..0]) + log[0].Text();
    }
  }

  /** Replacing each data code by the string it stands for in the final
      table spells the raster: the codes encode the raster, not just some
      string. Code 5 + j stands for phrase j extended by the first symbol of
      phrase j + 1, the entry an LZW reader adds after reading code j + 1. */
  lemma EncodeParses(s: seq<int>)
    requires Symbols(s) && 1 <= |s| <= 4091
    ensures Encode(s).Success?
    ensures var f := Encode(s).value;
      && DecodeWith(f.table, Values(f.log)[1..]) == Some(s)
      && (forall j | 0 < j < |f.log| :: f.log[j].Data? && |f.log[j].phrase| >= 1)
      && (forall j | 0 < j < |f.log| - 1 ::
            f.log[j].phrase + [f.log[j + 1].phrase[0]] in f.table
            && f.table[f.log[j].phrase + [f.log[j + 1].phrase[0]]] == EndOfInformation + j)
  {
    var f := EncodeCorrect(s);
    FinalParses(f, s);
  }

  /** The decoding facts of EncodeParses for any final state. */
  lemma FinalParses(f: Encoder, s: seq<int>)
    requires Final(f, s)
    ensures DecodeWith(f.table, Values(f.log)[1..]) == Some(s)
    ensures forall j | 0 < j < |f.log| :: f.log[j].Data? && |f.log[j].phrase| >= 1
    ensures forall j | 0 < j < |f.log| - 1 ::
      f.log[j].phrase + [f.log[j + 1].phrase[0]] in f.table
      && f.table[f.log[j].phrase + [f.log[j + 1].phrase[0]]] == EndOfInformation + j
  {
    DecodeRecorded(f.table, f.log);
    forall j | 0 < j < |f.log| - 1
      ensures Successor(f.log, [], j) == f.log[j].phrase + [f.log[j + 1].phrase[0]]
    {
      assert Recorded(f.table, f.log[j]) && Recorded(f.table, f.log[j + 1]);
    }
  }

  /** `compress` on a raster of 1..4091 colour indices: it succeeds, its
      result ends with the 0 terminator and reads back as ceil(L / 255)
      sub-blocks, all of 255 bytes but the last, holding in order the L
      bytes of the LZW stream. */
  lemma CompressBlocks(s: seq<int>) returns (out: seq<byte>, data: seq<byte>)
    requires Symbols(s) && 1 <= |s| <= 4091
    ensures Encode(s).Success? && Encode(s).value.output == data
    ensures Compress(s) == Success(out)
    ensures EndsInZero(out)
    ensures Parse(out).Some? && Flatten(Parse(out).value) == data
    ensures |Parse(out).value| == (|data| + 254) / 255
  {
    EncodeNonEmpty(s);
    data := Encode(s).value.output;
    out := Chunk(data);
    CompressOf(s, data);
    ChunkedForm(data);
  }

  lemma EncodeNonEmpty(s: seq<int>)
    requires Symbols(s) && 1 <= |s| <= 4091
    ensures Encode(s).Success? && |Encode(s).value.output| >= 1
  {
    var f := EncodeCorrect(s);
  }

  /** `compress` chunks the encoder's output. */
  lemma CompressOf(s: seq<int>, data: seq<byte>)
    requires Encode(s).Success? && Encode(s).value.output == data
    ensures Compress(s) == Success(Chunk(data))
  {
  }

  /** The one-pixel white raster of the end-to-end example: the clear code
      and code 0, three bits each, fit in the single byte 4, which goes out
      as one sub-block of length 1 and the terminator. */
  lemma SingleWhitePixel()
    ensures Compress([0]) == Success([1, 4, 0])
  {
    var i := Init();
    assert [0] in i.table && i.table[[0]] == 0;
    var st := i.(code := [0]);
    assert i.code + [0] == [0];
    assert Step(i, 0) == Success(st);
    assert Run(st, []) == Success(st);
    assert Run(i, [0]) == Success(st);
    Pow2Values();
    var p := Place(st, Data([0], 0, 3));
    assert p.curr == 4 && p.bits == 6 && p.output == [];
    assert Flush(p) == p;
    var e := Emit(st, Data([0], 0, 3));
    assert e == p;
    assert st.code in st.table && Data(st.code, st.table[st.code], st.size) == Data([0], 0, 3);
    assert e.output + [e.curr] == [4];
    assert Finish(st) == Success(e.(output := [4]));
    assert Chunk([4]) == [1, 4, 0];
    assert Encode([0]).value.output == [4];
  }
}
