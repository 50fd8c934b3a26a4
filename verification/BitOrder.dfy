/** Bit streams of construct's BitStruct and BitsSwapped, and what reading them yields. */
module BitOrder {
  import opened Common
  import opened Bits

  type bit = x: int | 0 <= x < 2

  /** `BitsInteger`: most significant bit first. */
  function FromBits(s: seq<bit>): (r: nat) {
    if s == [] then 0 else 2 * FromBits(s[..|s| - 1]) + s[|s| - 1]
  }

  function ToBits(n: nat, w: nat): (r: seq<bit>)
    ensures |r| == w
  {
    if w == 0 then [] else ToBits(n / 2, w - 1) + [n % 2]
  }

  /** `_flip_bits`: the bits of `n`, written with `w` digits, read backwards. */
  function Flip(n: nat, w: nat): (r: nat) {
    FromBits(Reverse(ToBits(n, w)))
  }

  /** The bits of a byte string, each byte most significant bit first or, when swapped, last. */
  function Stream(data: bytes, swapped: bool): (r: seq<bit>)
    ensures |r| == 8 * |data|
  {
    if data == [] then []
    else (if swapped then Reverse(ToBits(data[0], 8)) else ToBits(data[0], 8)) + Stream(data[1..], swapped)
  }

  /** The byte string with these bits. */
  function Unstream(s: seq<bit>, swapped: bool): (r: bytes)
    requires |s| % 8 == 0
    ensures |r| == |s| / 8
    decreases |s|
  {
    if s == [] then []
    else
      FromBitsBound(if swapped then Reverse(s[..8]) else s[..8]);
      [FromBits(if swapped then Reverse(s[..8]) else s[..8])] + Unstream(s[8..], swapped)
  }

  /** Value of a bit string whose first bit is the least significant. */
  function LowFirst(s: seq<bit>): (r: nat) {
    if s == [] then 0 else s[0] + 2 * LowFirst(s[1..])
  }

  // ---- Inverses ------------------------------------------------------------------------

  lemma {:induction false} FromBitsBound(s: seq<bit>)
    ensures FromBits(s) < Pow2(|s|)
  {
    if s != [] {
      FromBitsBound(s[..|s| - 1]);
    }
  }

  lemma {:induction false} ToFromBits(s: seq<bit>)
    ensures ToBits(FromBits(s), |s|) == s
  {
    if s != [] {
      ToFromBits(s[..|s| - 1]);
    }
  }

  lemma {:induction false} FromToBits(n: nat, w: nat)
    requires n < Pow2(w)
    ensures FromBits(ToBits(n, w)) == n
  {
    if w > 0 {
      FromToBits(n / 2, w - 1);
    }
  }

  lemma {:induction false} ReverseAppend(s: seq<bit>, b: bit)
    ensures Reverse(s + [b]) == [b] + Reverse(s)
  {
    if s != [] {
      ReverseAppend(s[1..], b);
      assert (s + [b])[1..] == s[1..] + [b];
    }
  }

  lemma {:induction false} ReverseTwice(s: seq<bit>)
    ensures Reverse(Reverse(s)) == s
  {
    if s != [] {
      ReverseTwice(s[1..]);
      ReverseAppend(Reverse(s[1..]), s[0]);
    }
  }

  lemma {:induction false} UnstreamStream(data: bytes, swapped: bool)
    ensures Unstream(Stream(data, swapped), swapped) == data
  {
    if data != [] {
      var b, s := ToBits(data[0], 8), Stream(data, swapped);
      assert s[..8] == if swapped then Reverse(b) else b;
      assert s[8..] == Stream(data[1..], swapped);
      ReverseTwice(b);
      assert Pow2(8) == 256;
      FromToBits(data[0], 8);
      UnstreamStream(data[1..], swapped);
    }
  }

  lemma FlipTwice(s: seq<bit>)
    ensures Flip(FromBits(s), |s|) == FromBits(Reverse(s)) < Pow2(|s|)
    ensures ToBits(Flip(Flip(FromBits(s), |s|), |s|), |s|) == s
  {
    ToFromBits(s);
    FromBitsBound(Reverse(s));
    ToFromBits(Reverse(s));
    ReverseTwice(s);
    ToFromBits(s);
  }

  // ---- Bit order ---------------------------------------------------------------------------

  lemma {:induction false} FromReversed(s: seq<bit>)
    ensures FromBits(Reverse(s)) == LowFirst(s)
  {
    if s != [] {
      FromReversed(s[1..]);
      var r := Reverse(s);
      assert r[..|r| - 1] == Reverse(s[1..]);
    }
  }

  lemma {:induction false} LowFirstConcat(a: seq<bit>, b: seq<bit>)
    ensures LowFirst(a + b) == LowFirst(a) + Pow2(|a|) * LowFirst(b)
  {
    if a == [] {
      assert a + b == b;
    } else {
      LowFirstConcat(a[1..], b);
      assert (a + b)[1..] == a[1..] + b;
      DoubledProduct(Pow2(|a| - 1), LowFirst(b));
    }
  }

  /** With the bits of each byte swapped, the stream is the little-endian integer, lowest bit first. */
  lemma {:induction false} SwappedStreamIsLittleEndian(data: bytes)
    ensures LowFirst(Stream(data, true)) == LittleEndian(data)
  {
    if data != [] {
      var b := ToBits(data[0], 8);
      SwappedStreamIsLittleEndian(data[1..]);
      LowFirstConcat(Reverse(b), Stream(data[1..], true));
      FromReversed(Reverse(b));
      ReverseTwice(b);
      assert Pow2(8) == 256;
      FromToBits(data[0], 8);
    }
  }

  /** `x & (2^n - 1)`, bit by bit. */
  function LowBits(x: nat, n: nat): (r: nat) {
    if n == 0 then 0 else x % 2 + 2 * LowBits(x / 2, n - 1)
  }

  lemma SliceOfTail(s: seq<bit>, o: nat, n: nat)
    requires 0 < o && o + n <= |s|
    ensures s[1..][o - 1..o - 1 + n] == s[o..o + n]
  {
  }

  lemma TailOfSlice(s: seq<bit>, n: nat)
    requires 0 < n <= |s|
    ensures s[0..n] != [] && s[0..n][0] == s[0] && s[0..n][1..] == s[1..][0..n - 1]
  {
  }

  lemma {:induction false} LowFirstSlice(s: seq<bit>, o: nat, n: nat)
    requires o + n <= |s|
    ensures LowFirst(s[o..o + n]) == LowBits(ShiftRight(LowFirst(s), o), n)
    decreases o, n
  {
    if o > 0 {
      LowFirstSlice(s[1..], o - 1, n);
      SliceOfTail(s, o, n);
    } else if n > 0 {
      LowFirstSlice(s[1..], 0, n - 1);
      TailOfSlice(s, n);
    }
  }

  /**
   Bit order, for any width: a flipped n-bit field at offset `o` of a
   byte-swapped bit struct is the shift-and-mask slice of the little-endian integer.
   */
  lemma FlippedFieldIsShiftAndMask(data: bytes, o: nat, n: nat)
    requires o + n <= 8 * |data|
    ensures Flip(FromBits(Stream(data, true)[o..o + n]), n) == LowBits(ShiftRight(LittleEndian(data), o), n)
  {
    var s := Stream(data, true)[o..o + n];
    FlipTwice(s);
    FromReversed(s);
    LowFirstSlice(Stream(data, true), o, n);
    SwappedStreamIsLittleEndian(data);
  }
}
