/** What the LZW encoder keeps true while the table has not yet filled, and
    what it therefore delivers: the output bits are the written codes packed
    least significant bit first, each code fits the width it is written at,
    the widths follow the table size alone, and the phrases of the written
    codes spell out the raster. */
module LzwInvariants {
  import opened Arith
  import opened Results
  import opened BitStream
  import opened Lzw

  /** The width the encoder uses once `used` codes are assigned: the least
      width of at least 3 bits that can hold `used`. */
  function CodeWidth(used: nat): (w: nat)
    ensures 3 <= w
    ensures used < Pow2(w)
    ensures w == 3 || Pow2(w - 1) <= used
  {
    if used < 8 then 3 else 1 + CodeWidth(used / 2)
  }

  /** The two bounds of CodeWidth determine it. */
  lemma CodeWidthUnique(used: nat, w: nat)
    requires 3 <= w && used < Pow2(w) && (w == 3 || Pow2(w - 1) <= used)
    ensures CodeWidth(used) == w
  {
    var c := CodeWidth(used);
    Pow2Order(c, w - 1);
    Pow2Order(w, c - 1);
  }

  /** The bits of the written codes, in order, each at its width. */
  function StreamBits(log: seq<Emission>): seq<bool>
  {
    if |log| == 0 then [] else Bits(log[0].Value(), log[0].width) + StreamBits(log[1..])
  }

  lemma {:induction false} StreamBitsAppend(log: seq<Emission>, e: Emission)
    ensures StreamBits(log + [e]) == StreamBits(log) + Bits(e.Value(), e.width)
  {
    if |log| == 0 {
      assert log + [e] == [e];
    } else {
      assert (log + [e])[1..] == log[1..] + [e];
      StreamBitsAppend(log[1..], e);
    }
  }

  /** The strings the written data codes stand for, concatenated. */
  function Phrases(log: seq<Emission>): seq<int>
  {
    if |log| == 0 then [] else Phrases(log[..|log| - 1]) + log[|log| - 1].Text()
  }

  lemma PhrasesAppend(log: seq<Emission>, e: Emission)
    ensures Phrases(log + [e]) == Phrases(log) + e.Text()
  {
    assert (log + [e])[..|log|] == log;
  }

  function Values(log: seq<Emission>): seq<nat>
  {
    seq(|log|, i requires 0 <= i < |log| => log[i].Value())
  }

  function Widths(log: seq<Emission>): seq<nat>
  {
    seq(|log|, i requires 0 <= i < |log| => log[i].width)
  }

  /** The widths of the first `n` codes of a stream as a reader can work
      them out from the code count alone: the clear code at 3 bits, then
      the j-th code at the width for `4 + j` assigned codes. */
  function ExpectedWidths(n: nat): seq<nat>
  {
    seq(n, j requires 0 <= j < n => if j == 0 then 3 else CodeWidth(4 + j))
  }

  // ---------------------------------------------------------------------
  // The invariant, in five parts.

  /** The j-th written code is a data code that fits its width, that width is
      the one for `4 + j` assigned codes, and it is neither the clear nor
      the end-of-information code. */
  predicate WellWritten(log: seq<Emission>, j: int)
    requires 0 < j < |log|
  {
    && log[j].Data?
    && log[j].width == CodeWidth(4 + j)
    && log[j].code < Pow2(log[j].width)
    && (log[j].code < ClearCode || EndOfInformation < log[j].code)
  }

  /** Code width bookkeeping: `size` is the width for `used`, `mask` is
      `2^size - 1`, and one code was assigned per data code written. */
  ghost predicate Sized(st: Encoder)
  {
    && 3 <= st.size <= MaxCodeWidth
    && st.mask == Pow2(st.size) - 1
    && st.size == CodeWidth(st.used)
    && st.used == 4 + |st.log|
    && |st.log| >= 1 && st.log[0] == Clear(3)
    && forall j | 0 < j < |st.log| :: WellWritten(st.log, j)
  }

  /** Bit packing: fewer than 8 bits pending, the accumulator holds only
      them, and output bytes plus pending bits are the written codes. */
  ghost predicate Packed(st: Encoder)
  {
    && st.bits < 8
    && st.curr < Pow2(st.bits)
    && ByteBits(st.output) + Bits(st.curr, st.bits) == StreamBits(st.log)
  }

  ghost predicate Injective(table: map<seq<int>, nat>)
  {
    forall k1, k2 | k1 in table && k2 in table && k1 != k2 :: table[k1] != table[k2]
  }

  /** The table: the four literals at their own codes, every other code in
      6..used, no code twice, and every string one symbol longer than a
      string already in the table. */
  ghost predicate Dictionary(st: Encoder)
  {
    && (forall k | k in Literals() :: k in st.table && st.table[k] == Literals()[k])
    && (forall k | k in st.table :: st.table[k] < ClearCode || EndOfInformation < st.table[k] <= st.used)
    && (forall k {:trigger st.table[k]} | k in st.table :: |k| >= 1 && (|k| >= 2 ==> k[..|k| - 1] in st.table))
    && Injective(st.table)
  }

  /** A written data code stands, in `table`, for its non-empty phrase. */
  predicate Recorded(table: map<seq<int>, nat>, e: Emission)
  {
    e.Data? && |e.phrase| >= 1 && e.phrase in table && table[e.phrase] == e.code
  }

  /** Parsing: the written phrases and the pending match spell the symbols
      consumed, and every written code stands for its phrase. */
  ghost predicate Parsed(st: Encoder, consumed: seq<int>)
  {
    && Phrases(st.log) + st.code == consumed
    && (consumed == [] ==> |st.log| == 1)
    && (consumed != [] ==> |st.code| >= 1 && st.code in st.table)
    && (|st.log| == 1 || |st.log| <= |consumed|)
    && forall j | 0 < j < |st.log| :: Recorded(st.table, st.log[j])
  }

  function First(s: seq<int>): int
  {
    if |s| == 0 then 0 else s[0]
  }

  /** The string added to the table right after the j-th code was written:
      its phrase extended by the first symbol of the following phrase (or of
      the pending match). This is the entry an LZW reader rebuilds. */
  function Successor(log: seq<Emission>, pending: seq<int>, j: int): seq<int>
    requires 0 < j < |log|
  {
    log[j].Text() + [First(if j + 1 < |log| then log[j + 1].Text() else pending)]
  }

  /** Code 5 + j stands for the successor of the j-th written code. */
  ghost predicate Chained(st: Encoder)
  {
    forall j | 0 < j < |st.log| ::
      Successor(st.log, st.code, j) in st.table
      && st.table[Successor(st.log, st.code, j)] == EndOfInformation + j
  }

  ghost predicate Inv(st: Encoder, consumed: seq<int>)
  {
    Sized(st) && Packed(st) && Dictionary(st) && Parsed(st, consumed) && Chained(st)
  }

  /** Every symbol is one of the four colour indices. */
  predicate Symbols(s: seq<int>)
  {
    forall i | 0 <= i < |s| :: 0 <= s[i] < 4
  }

  // ---------------------------------------------------------------------
  // Preservation.

  /** The initial state satisfies the invariant: four literals, clear code
      4 pending in 3 bits, nothing consumed. */
  lemma InitInv()
    ensures Inv(Init(), [])
  {
    var st := Init();
    Pow2Values();
    assert Sized(st);
    assert ByteBits(st.output) + Bits(st.curr, st.bits) == StreamBits(st.log);
    assert Packed(st);
    assert Dictionary(st);
    assert Phrases(st.log) == [];
    assert Parsed(st, []);
  }

  /** A symbol that extends the match to a string already in the table only
      lengthens the match. */
  lemma StepExtends(st: Encoder, consumed: seq<int>, next: int)
    requires Inv(st, consumed)
    requires st.code + [next] in st.table
    ensures Step(st, next) == Success(st.(code := st.code + [next]))
    ensures Inv(st.(code := st.code + [next]), consumed + [next])
  {
    var r := st.(code := st.code + [next]);
    assert Sized(r) && Packed(r) && Dictionary(r) by {
      assert r.table == st.table && r.log == st.log && r.output == st.output;
    }
    assert Phrases(r.log) + r.code == consumed + [next];
    if consumed == [] {
      assert st.code == [];
    } else {
      assert First(r.code) == First(st.code);
      forall j | 0 < j < |r.log|
        ensures Successor(r.log, r.code, j) == Successor(st.log, st.code, j)
      {
      }
    }
    assert Parsed(r, consumed + [next]);
    assert Chained(r);
  }

  /** The literals stay in the table. */
  lemma LiteralKey(st: Encoder, s: int)
    requires Dictionary(st)
    requires 0 <= s < 4
    ensures [s] in st.table && st.table[[s]] == s
  {
    assert [s] == [0] || [s] == [1] || [s] == [2] || [s] == [3];
    assert [s] in Literals();
  }

  /** In the insertion case the match is non-empty and already in the table. */
  lemma InsertMatch(st: Encoder, consumed: seq<int>, next: int)
    requires Inv(st, consumed)
    requires 0 <= next < 4
    requires st.code + [next] !in st.table
    ensures consumed != [] && |st.code| >= 1 && st.code in st.table
    ensures |st.log| <= |consumed|
  {
    LiteralKey(st, next);
    assert st.code == [] ==> st.code + [next] == [next];
  }

  /** Writing a code that fits its width keeps the packing invariant and
      touches nothing but the accumulator, the output and the record. */
  lemma EmitPacked(st: Encoder, e: Emission)
    requires Packed(st)
    requires e.Value() < Pow2(e.width)
    ensures Packed(Emit(st, e))
    ensures Emit(st, e).log == st.log + [e]
    ensures Emit(st, e) == st.(curr := Emit(st, e).curr, bits := Emit(st, e).bits,
      output := Emit(st, e).output, log := st.log + [e])
  {
    var mid := PlacePacked(st, e);
  }

  /** Placing a code that fits its width above the pending bits appends its
      bits to the stream; the accumulator holds only the pending bits. */
  lemma PlacePacked(st: Encoder, e: Emission) returns (mid: Encoder)
    requires Packed(st)
    requires e.Value() < Pow2(e.width)
    ensures mid == Place(st, e)
    ensures mid.curr < Pow2(mid.bits) && ByteBits(mid.output) + Bits(mid.curr, mid.bits) == StreamBits(mid.log)
  {
    mid := Place(st, e);
    var c, b := st.curr + e.Value() * Pow2(st.bits), st.bits + e.width;
    assert mid.curr == c && mid.bits == b && mid.output == st.output && mid.log == st.log + [e];
    PlaceBits(st.output, st.curr, st.bits, StreamBits(st.log), e.Value(), e.width);
    StreamBitsAppend(st.log, e);
  }

  /** Before the reset point, the width check after a write adds one bit
      exactly when the newly assigned code passes `mask`, keeping `size`
      the width for `used` and `mask` equal to `2^size - 1`. */
  lemma WidenGrows(e: Encoder, next: int)
    requires 3 <= e.size <= MaxCodeWidth && e.mask == Pow2(e.size) - 1
    requires 6 <= e.used < 4096 && e.size == CodeWidth(e.used - 1)
    ensures var r := Widen(e, next);
      && r == e.(size := r.size, mask := r.mask, code := [next])
      && r.size == (if e.used > e.mask then e.size + 1 else e.size)
      && 3 <= r.size <= MaxCodeWidth
      && r.size == CodeWidth(e.used)
      && r.mask == Pow2(r.size) - 1
  {
    WidthStep(e.used, e.size, e.mask);
    if e.used <= e.mask {
      assert Widen(e, next) == e.(code := [next]);
    } else {
      assert e.size < MaxCodeWidth;
      assert Widen(e, next) == e.(size := e.size + 1, mask := 2 * e.mask + 1, code := [next]);
    }
  }

  /** The width arithmetic of the check after a write: one more code either
      still fits `size` bits or needs exactly one more, below 12. */
  lemma WidthStep(used: nat, size: nat, mask: nat)
    requires 3 <= size <= MaxCodeWidth && mask == Pow2(size) - 1
    requires 6 <= used < 4096 && size == CodeWidth(used - 1)
    ensures used <= mask ==> CodeWidth(used) == size
    ensures used > mask ==> size < MaxCodeWidth && CodeWidth(used) == size + 1 && 2 * mask + 1 == Pow2(size + 1) - 1
  {
    Pow2Values();
    if used <= mask {
      CodeWidthUnique(used, size);
    } else {
      assert used == Pow2(size);
      Pow2Order(size + 1, MaxCodeWidth);
      assert Pow2(size + 1) == 2 * Pow2(size);
      CodeWidthUnique(used, size + 1);
    }
  }

  /** The insertion case before the reset point: the new string gets the
      next code, the code of the match is written at the current width, the
      width grows by one exactly when the new code passes `mask`, and the
      packing invariant survives. */
  lemma StepInserts(st: Encoder, next: int) returns (r: Encoder)
    requires Sized(st) && Packed(st)
    requires st.code in st.table && st.table[st.code] <= st.used
    requires st.table[st.code] < ClearCode || EndOfInformation < st.table[st.code]
    requires st.code + [next] !in st.table
    requires st.used < 4095
    ensures Step(st, next) == Success(r)
    ensures r.table == st.table[st.code + [next] := st.used + 1]
    ensures r.used == st.used + 1
    ensures r.code == [next]
    ensures r.log == st.log + [Data(st.code, st.table[st.code], st.size)]
    ensures r.size == (if st.used + 1 > st.mask then st.size + 1 else st.size)
    ensures Sized(r) && Packed(r)
  {
    var key := st.code + [next];
    var used := st.used + 1;
    var table := st.table[key := used];
    var v := st.table[st.code];
    assert table[st.code] == v;
    Pow2Monotone(CodeWidth(st.used), st.size);
    var d := Data(st.code, v, st.size);
    var pre := st.(used := used, table := table);
    EmitPacked(pre, d);
    var e := Emit(pre, d);
    WidenGrows(e, next);
    r := Widen(e, next);
    assert Step(st, next) == Success(r);
    WrittenAppend(st.log, d);
  }

  /** Appending a data code written at the width for its position keeps
      every written code well written. */
  lemma WrittenAppend(log: seq<Emission>, d: Emission)
    requires |log| >= 1
    requires forall j | 0 < j < |log| :: WellWritten(log, j)
    requires d.Data? && d.width == CodeWidth(4 + |log|) && d.code < Pow2(d.width)
    requires d.code < ClearCode || EndOfInformation < d.code
    ensures forall j | 0 < j < |log + [d]| :: WellWritten(log + [d], j)
  {
    forall j | 0 < j < |log + [d]|
      ensures WellWritten(log + [d], j)
    {
      if j < |log| {
        assert (log + [d])[j] == log[j];
        assert WellWritten(log, j);
      }
    }
  }

  /** Giving a new string the next code keeps the table a dictionary. */
  lemma InsertDictionary(st: Encoder, next: int, r: Encoder)
    requires Dictionary(st)
    requires |st.code| >= 1 && st.code in st.table
    requires st.code + [next] !in st.table
    requires r.table == st.table[st.code + [next] := st.used + 1]
    requires r.used == st.used + 1 && st.used >= EndOfInformation
    ensures Dictionary(r)
  {
    var key := st.code + [next];
    forall k | k in Literals()
      ensures k in r.table && r.table[k] == Literals()[k]
    {
      assert k != key;
    }
    forall k | k in r.table
      ensures r.table[k] < ClearCode || EndOfInformation < r.table[k] <= r.used
    {
      if k != key {
        assert k in st.table;
      }
    }
    forall k | k in r.table
      ensures |k| >= 1 && (|k| >= 2 ==> k[..|k| - 1] in r.table)
    {
      if k == key {
        assert k[..|k| - 1] == st.code;
      } else {
        assert st.table[k] == r.table[k];
      }
    }
    forall k1, k2 | k1 in r.table && k2 in r.table && k1 != k2
      ensures r.table[k1] != r.table[k2]
    {
      if k1 != key && k2 != key {
        assert st.table[k1] != st.table[k2];
      } else if k1 == key {
        assert st.table[k2] <= st.used;
      } else {
        assert st.table[k1] <= st.used;
      }
    }
  }

  /** Writing the code of the match moves the match into the record. */
  lemma InsertParsed(st: Encoder, consumed: seq<int>, next: int, r: Encoder)
    requires Parsed(st, consumed)
    requires consumed != [] && |st.log| <= |consumed|
    requires |st.code| >= 1 && st.code in st.table && [next] in st.table
    requires st.code + [next] !in st.table
    requires r.table == st.table[st.code + [next] := st.used + 1]
    requires r.code == [next]
    requires r.log == st.log + [Data(st.code, st.table[st.code], st.size)]
    ensures Parsed(r, consumed + [next])
  {
    var key := st.code + [next];
    var d := Data(st.code, st.table[st.code], st.size);
    PhrasesAppend(st.log, d);
    assert [next] != key;
    forall j | 0 < j < |r.log|
      ensures Recorded(r.table, r.log[j])
    {
      if j < |st.log| {
        assert r.log[j] == st.log[j];
        assert Recorded(st.table, st.log[j]);
        assert st.log[j].phrase != key;
      } else {
        assert r.log[j] == d;
        assert st.code != key;
      }
    }
  }

  /** The new string is the successor of the code just written, and every
      earlier successor keeps its code. */
  lemma InsertChained(st: Encoder, next: int, r: Encoder)
    requires Chained(st)
    requires |st.log| >= 1 && |st.code| >= 1 && st.used == 4 + |st.log|
    requires st.code in st.table && st.code + [next] !in st.table
    requires r.table == st.table[st.code + [next] := st.used + 1]
    requires r.code == [next]
    requires r.log == st.log + [Data(st.code, st.table[st.code], st.size)]
    ensures Chained(r)
  {
    var key := st.code + [next];
    forall j | 0 < j < |r.log|
      ensures Successor(r.log, r.code, j) in r.table
      ensures r.table[Successor(r.log, r.code, j)] == EndOfInformation + j
    {
      if j < |st.log| {
        assert r.log[j] == st.log[j];
        if j + 1 < |st.log| {
          assert r.log[j + 1] == st.log[j + 1];
        } else {
          assert r.log[j + 1].Text() == st.code;
        }
        assert Successor(r.log, r.code, j) == Successor(st.log, st.code, j);
        assert Successor(st.log, st.code, j) in st.table;
      } else {
        assert Successor(r.log, r.code, j) == key;
      }
    }
  }

  /** One symbol of the alphabet, before the table fills: the step succeeds
      and keeps the invariant. */
  lemma StepPreserves(st: Encoder, consumed: seq<int>, next: int) returns (r: Encoder)
    requires Inv(st, consumed)
    requires 0 <= next < 4 && |consumed| <= 4090
    ensures Step(st, next) == Success(r)
    ensures Inv(r, consumed + [next])
  {
    if st.code + [next] in st.table {
      StepExtends(st, consumed, next);
      r := st.(code := st.code + [next]);
    } else {
      InsertMatch(st, consumed, next);
      LiteralKey(st, next);
      r := StepInserts(st, next);
      InsertDictionary(st, next, r);
      InsertParsed(st, consumed, next, r);
      InsertChained(st, next, r);
    }
  }

  /** The symbol loop over at most 4091 symbols of the alphabet succeeds and
      keeps the invariant. */
  lemma {:induction false} RunPreserves(st: Encoder, consumed: seq<int>, rest: seq<int>) returns (r: Encoder)
    requires Inv(st, consumed)
    requires Symbols(rest) && |consumed| + |rest| <= 4091
    ensures Run(st, rest) == Success(r)
    ensures Inv(r, consumed + rest)
    decreases |rest|
  {
    if |rest| == 0 {
      r := st;
      assert consumed + rest == consumed;
    } else {
      var st' := StepPreserves(st, consumed, rest[0]);
      MoveFirst(consumed, rest);
      r := RunPreserves(st', consumed + [rest[0]], rest[1..]);
    }
  }

  lemma MoveFirst(a: seq<int>, rest: seq<int>)
    requires |rest| > 0
    ensures a + [rest[0]] + rest[1..] == a + rest
  {
    assert rest == [rest[0]] + rest[1..];
  }

  // ---------------------------------------------------------------------
  // The finished stream.

  /** What `compress` has produced once the pending match is written and
      the partial byte appended, for a raster `s`:
      - the clear code at 3 bits, then data codes, each fitting the width
        for its position;
      - the output bits are exactly the codes' bits followed by 1 to 8 zero
        padding bits;
      - the written phrases spell `s`, each code stands for its phrase in
        the final table, which has no code twice;
      - code 5 + j stands for phrase j extended by the first symbol of
        phrase j + 1. */
  ghost predicate Final(f: Encoder, s: seq<int>)
  {
    && 2 <= |f.log| <= |s| + 1 && f.log[0] == Clear(3)
    && (forall j | 0 < j < |f.log| :: WellWritten(f.log, j))
    && |StreamBits(f.log)| < |ByteBits(f.output)| <= |StreamBits(f.log)| + 8
    && ByteBits(f.output)[..|StreamBits(f.log)|] == StreamBits(f.log)
    && (forall i | |StreamBits(f.log)| <= i < |ByteBits(f.output)| :: !ByteBits(f.output)[i])
    && Phrases(f.log) == s
    && (forall j | 0 < j < |f.log| :: Recorded(f.table, f.log[j]))
    && Injective(f.table)
    && (forall j | 0 < j < |f.log| - 1 ::
          Successor(f.log, [], j) in f.table && f.table[Successor(f.log, [], j)] == EndOfInformation + j)
  }

  /** The code of the last match goes out at the current width and the
      partial byte follows, padded with zero bits. */
  lemma FinishPads(st: Encoder, consumed: seq<int>) returns (f: Encoder)
    requires Inv(st, consumed) && consumed != []
    ensures Finish(st) == Success(f)
    ensures Final(f, consumed)
  {
    var d := Data(st.code, st.table[st.code], st.size);
    Pow2Monotone(CodeWidth(st.used), st.size);
    EmitPacked(st, d);
    var e := Emit(st, d);
    Pow2Monotone(e.bits, 8);
    Pow2Values();
    f := e.(output := e.output + [e.curr]);
    assert Finish(st) == Success(f);
    FinalBits(e);
    FinalLog(st, consumed, f);
  }

  /** The log after the last write: well written, parsing the whole
      raster, every code recorded, every successor but the last settled. */
  lemma FinalLog(st: Encoder, consumed: seq<int>, f: Encoder)
    requires Inv(st, consumed) && consumed != []
    requires f.table == st.table && f.log == st.log + [Data(st.code, st.table[st.code], st.size)]
    ensures 2 <= |f.log| <= |consumed| + 1 && f.log[0] == Clear(3)
    ensures forall j | 0 < j < |f.log| :: WellWritten(f.log, j)
    ensures Phrases(f.log) == consumed
    ensures forall j | 0 < j < |f.log| :: Recorded(f.table, f.log[j])
    ensures Injective(f.table)
    ensures forall j | 0 < j < |f.log| - 1 ::
      Successor(f.log, [], j) in f.table && f.table[Successor(f.log, [], j)] == EndOfInformation + j
  {
    var d := Data(st.code, st.table[st.code], st.size);
    Pow2Monotone(CodeWidth(st.used), st.size);
    WrittenAppend(st.log, d);
    PhrasesAppend(st.log, d);
    FinalChain(st, f);
  }

  /** Appending the partial byte adds the pending bits and zero padding. */
  lemma FinalBits(e: Encoder)
    requires Packed(e) && e.curr < 256
    ensures var out := e.output + [e.curr];
      && |StreamBits(e.log)| < |ByteBits(out)| <= |StreamBits(e.log)| + 8
      && ByteBits(out)[..|StreamBits(e.log)|] == StreamBits(e.log)
      && (forall i | |StreamBits(e.log)| <= i < |ByteBits(out)| :: !ByteBits(out)[i])
  {
    PadByte(e.output, e.curr, e.bits, StreamBits(e.log));
  }

  /** After the last write every successor but the last one's is settled. */
  lemma FinalChain(st: Encoder, f: Encoder)
    requires Chained(st) && |st.log| >= 1 && st.code in st.table
    requires f.table == st.table
    requires f.log == st.log + [Data(st.code, st.table[st.code], st.size)]
    ensures forall j | 0 < j < |f.log| - 1 ::
      Successor(f.log, [], j) in f.table && f.table[Successor(f.log, [], j)] == EndOfInformation + j
  {
    forall j | 0 < j < |f.log| - 1
      ensures Successor(f.log, [], j) == Successor(st.log, st.code, j)
    {
      assert f.log[j] == st.log[j];
      if j + 1 < |st.log| {
        assert f.log[j + 1] == st.log[j + 1];
      }
    }
  }

  /** For every raster of 1..4091 colour indices `compress`'s encoder
      succeeds, never reaches the reset branch, and delivers Final. */
  lemma EncodeCorrect(s: seq<int>) returns (f: Encoder)
    requires Symbols(s) && 1 <= |s| <= 4091
    ensures Encode(s) == Success(f)
    ensures Final(f, s)
  {
    InitInv();
    var st := RunPreserves(Init(), [], s);
    assert [] + s == s;
    f := FinishPads(st, s);
  }
}
