/** Bit strings, least significant bit first: the order in which GIF packs
    variable-width codes into bytes. */
module BitStream {
  import opened Arith

  /** The `n` low bits of `v`, least significant first. */
  function Bits(v: nat, n: nat): (r: seq<bool>)
    ensures |r| == n
  {
    if n == 0 then [] else [v % 2 == 1] + Bits(v / 2, n - 1)
  }

  /** The number whose binary digits, least significant first, are `bs`. */
  function FromBits(bs: seq<bool>): nat
  {
    if |bs| == 0 then 0 else (if bs[0] then 1 else 0) + 2 * FromBits(bs[1..])
  }

  /** Reading back `n` bits gives the value they were cut from, when it fits. */
  lemma {:induction false} FromBitsBits(v: nat, n: nat)
    requires v < Pow2(n)
    ensures FromBits(Bits(v, n)) == v
  {
    if n > 0 {
      FromBitsBits(v / 2, n - 1);
      assert Bits(v, n)[1..] == Bits(v / 2, n - 1);
    }
  }

  /** A zero value contributes only zero bits: the padding of a partial byte. */
  lemma {:induction false} ZeroBits(n: nat)
    ensures forall i :: 0 <= i < n ==> !Bits(0, n)[i]
  {
    if n > 0 {
      ZeroBits(n - 1);
      assert Bits(0, n) == [false] + Bits(0, n - 1);
    }
  }

  /** The bits of a byte string: each byte's eight bits, bytes in order. */
  function ByteBits(bs: seq<byte>): (r: seq<bool>)
    ensures |r| == 8 * |bs|
  {
    if |bs| == 0 then [] else Bits(bs[0], 8) + ByteBits(bs[1..])
  }

  lemma {:induction false} ByteBitsAppend(bs: seq<byte>, b: byte)
    ensures ByteBits(bs + [b]) == ByteBits(bs) + Bits(b, 8)
  {
    if |bs| == 0 {
      assert bs + [b] == [b];
    } else {
      assert (bs + [b])[1..] == bs[1..] + [b];
      ByteBitsAppend(bs[1..], b);
    }
  }

  /** Placing `v` above the `b` pending bits of `c` (the accumulator step
      `curr += v << bits`) appends the bits of `v` to those of `c`. */
  lemma ShiftIn(c: nat, b: nat, v: nat, w: nat)
    requires c < Pow2(b)
    ensures Bits(c + v * Pow2(b), b + w) == Bits(c, b) + Bits(v, w)
    ensures v < Pow2(w) ==> c + v * Pow2(b) < Pow2(b + w)
  {
    ShiftInBits(c, b, v, w);
    if v < Pow2(w) {
      ShiftInBound(c, b, v, w);
    }
  }

  lemma {:induction false} ShiftInBits(c: nat, b: nat, v: nat, w: nat)
    requires c < Pow2(b)
    ensures Bits(c + v * Pow2(b), b + w) == Bits(c, b) + Bits(v, w)
  {
    if b == 0 {
      assert c == 0 && v * Pow2(b) == v;
    } else {
      var k := v * Pow2(b - 1);
      var x := c + v * Pow2(b);
      assert x == c + 2 * k by {
        assert Pow2(b) == 2 * Pow2(b - 1);
      }
      assert x % 2 == c % 2 && x / 2 == c / 2 + k by {
        DivModUnique(x, 2, c / 2 + k, c % 2);
      }
      assert Bits(x, b + w) == [x % 2 == 1] + Bits(x / 2, (b - 1) + w);
      assert Bits(c, b) == [c % 2 == 1] + Bits(c / 2, b - 1);
      assert c / 2 < Pow2(b - 1);
      ShiftInBits(c / 2, b - 1, v, w);
      Regroup([c % 2 == 1], Bits(c / 2, b - 1), Bits(v, w), Bits(c, b));
    }
  }

  lemma ShiftInBound(c: nat, b: nat, v: nat, w: nat)
    requires c < Pow2(b) && v < Pow2(w)
    ensures c + v * Pow2(b) < Pow2(b + w)
  {
    Pow2Add(b, w);
    MulMonotone(v + 1, Pow2(w), Pow2(b));
    assert (v + 1) * Pow2(b) == v * Pow2(b) + Pow2(b);
    assert Pow2(w) * Pow2(b) == Pow2(b) * Pow2(w);
  }

  /** The accumulator step on a packed stream `s`: after
      `curr += v << bits; bits += w` the output and the accumulator hold
      `s` followed by the `w` bits of `v`. */
  lemma PlaceBits(out: seq<byte>, c: nat, b: nat, s: seq<bool>, v: nat, w: nat)
    requires c < Pow2(b) && v < Pow2(w)
    requires ByteBits(out) + Bits(c, b) == s
    ensures c + v * Pow2(b) < Pow2(b + w)
    ensures ByteBits(out) + Bits(c + v * Pow2(b), b + w) == s + Bits(v, w)
  {
    ShiftIn(c, b, v, w);
  }

  /** Taking the low byte off an accumulator of `b >= 8` pending bits (the
      flush step `chr(curr & 255)`, `curr >>= 8`) keeps the bit string. */
  lemma ShiftOut(c: nat, b: nat)
    requires b >= 8
    ensures Bits(c, b) == Bits(c % 256, 8) + Bits(c / 256, b - 8)
    ensures c < Pow2(b) ==> c / 256 < Pow2(b - 8)
  {
    var lo, hi := c % 256, c / 256;
    Pow2Values();
    var x := lo + hi * Pow2(8);
    assert x == c;
    ShiftInBits(lo, 8, hi, b - 8);
    assert Bits(x, 8 + (b - 8)) == Bits(c, b);
    if c < Pow2(b) {
      ShiftOutBound(c, b);
    }
  }

  lemma ShiftOutBound(c: nat, b: nat)
    requires b >= 8 && c < Pow2(b)
    ensures c / 256 < Pow2(b - 8)
  {
    var p := Pow2(b - 8);
    assert Pow2(b) == 256 * p by {
      Pow2Add(8, b - 8);
      Pow2Values();
      assert 8 + (b - 8) == b;
    }
  }

  /** One flush step moves the low byte of the accumulator to the output
      without changing the bit string the two hold together. */
  lemma MoveByte(out: seq<byte>, c: nat, b: nat)
    requires b >= 8
    ensures ByteBits(out + [c % 256]) + Bits(c / 256, b - 8) == ByteBits(out) + Bits(c, b)
    ensures c < Pow2(b) ==> c / 256 < Pow2(b - 8)
  {
    ByteBitsAppend(out, c % 256);
    ShiftOut(c, b);
    Regroup(ByteBits(out), Bits(c % 256, 8), Bits(c / 256, b - 8), ByteBits(out + [c % 256]));
  }

  lemma Regroup(x: seq<bool>, lo: seq<bool>, hi: seq<bool>, y: seq<bool>)
    requires y == x + lo
    ensures y + hi == x + (lo + hi)
  {
  }

  /** Appending the accumulator as the last byte (`output += chr(curr)`):
      the pending bits, then zero padding up to the byte boundary. */
  lemma PadByte(out: seq<byte>, c: byte, b: nat, s: seq<bool>)
    requires b < 8 && c < Pow2(b)
    requires ByteBits(out) + Bits(c, b) == s
    ensures |s| < |ByteBits(out + [c])| <= |s| + 8
    ensures ByteBits(out + [c])[..|s|] == s
    ensures forall i | |s| <= i < |ByteBits(out + [c])| :: !ByteBits(out + [c])[i]
  {
    var pad := Bits(0, 8 - b);
    var all := ByteBits(out + [c]);
    ByteBitsAppend(out, c);
    SplitByte(c, b);
    assert all == ByteBits(out) + (Bits(c, b) + pad);
    ZeroBits(8 - b);
    PadZeros(s, pad);
  }

  /** The 8 bits of a byte below 2^b are its b low bits and then zeros. */
  lemma SplitByte(c: nat, b: nat)
    requires b <= 8 && c < Pow2(b)
    ensures Bits(c, 8) == Bits(c, b) + Bits(0, 8 - b)
  {
    BitsExtend(c, b, 8 - b);
  }

  /** A value below 2^b written in more than b bits gets zero high bits. */
  lemma {:induction false} BitsExtend(c: nat, b: nat, n: nat)
    requires c < Pow2(b)
    ensures Bits(c, b + n) == Bits(c, b) + Bits(0, n)
  {
    if b > 0 {
      BitsExtend(c / 2, b - 1, n);
      assert b + n - 1 == (b - 1) + n;
    }
  }

  lemma PadZeros(s: seq<bool>, pad: seq<bool>)
    requires forall i | 0 <= i < |pad| :: !pad[i]
    ensures (s + pad)[..|s|] == s
    ensures forall i | |s| <= i < |s + pad| :: !(s + pad)[i]
  {
  }

  /** Cut `bs` into consecutive fields of the given widths and read each
      field as a number; stops at the first field that does not fit. */
  function Unpack(bs: seq<bool>, widths: seq<nat>): seq<nat>
  {
    if |widths| == 0 || |bs| < widths[0] then []
    else [FromBits(bs[..widths[0]])] + Unpack(bs[widths[0]..], widths[1..])
  }
}
