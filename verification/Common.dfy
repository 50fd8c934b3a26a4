/** Shared vocabulary: options, results, bytes and powers of two. */
module Common {

  datatype Option<+T> = None | Some(value: T)

  datatype Result<+T, +E> = Ok(value: T) | Err(error: E)

  type byte = x: int | 0 <= x < 256

  type bytes = seq<byte>

  function Pow2(k: nat): (r: nat)
    ensures r > 0
  {
    if k == 0 then 1 else 2 * Pow2(k - 1)
  }

  /** The bytes from `n` on, clamped to the length as a Python slice is. */
  function Tail(s: bytes, n: nat): (r: bytes)
    ensures n <= |s| ==> r == s[n..]
    ensures n > |s| ==> r == []
  {
    if n <= |s| then s[n..] else []
  }

  /** `s[lo..hi]` with Python's clamping of both ends. */
  function Slice(s: bytes, lo: nat, hi: nat): (r: bytes)
    ensures lo <= hi <= |s| ==> r == s[lo..hi]
  {
    if hi <= |s| then Tail(s[..hi], lo) else Tail(s, lo)
  }

  function Reverse<T>(s: seq<T>): (r: seq<T>)
    ensures |r| == |s|
  {
    if s == [] then [] else Reverse(s[1..]) + [s[0]]
  }

  /** The unsigned integer whose bytes, least significant first, are `s`. */
  function LittleEndian(s: bytes): (r: nat) {
    if s == [] then 0 else s[0] + 256 * LittleEndian(s[1..])
  }

  function BigEndian(s: bytes): (r: nat) {
    if s == [] then 0 else 256 * BigEndian(s[..|s| - 1]) + s[|s| - 1]
  }

  function ToLittleEndian(n: nat, width: nat): (r: bytes)
    ensures |r| == width
  {
    if width == 0 then [] else [n % 256] + ToLittleEndian(n / 256, width - 1)
  }

  function ToBigEndian(n: nat, width: nat): (r: bytes)
    ensures |r| == width
  {
    if width == 0 then [] else ToBigEndian(n / 256, width - 1) + [n % 256]
  }

  lemma {:induction false} LittleEndianRoundTrip(s: bytes)
    ensures LittleEndian(s) < Pow2(8 * |s|)
    ensures ToLittleEndian(LittleEndian(s), |s|) == s
  {
    if s != [] {
      LittleEndianRoundTrip(s[1..]);
      Pow2Bytes(|s| - 1);
    }
  }

  lemma {:induction false} BigEndianRoundTrip(s: bytes)
    ensures BigEndian(s) < Pow2(8 * |s|)
    ensures ToBigEndian(BigEndian(s), |s|) == s
  {
    if s != [] {
      BigEndianRoundTrip(s[..|s| - 1]);
      Pow2Bytes(|s| - 1);
    }
  }

  lemma Pow2Bytes(n: nat)
    ensures Pow2(8 * (n + 1)) == 256 * Pow2(8 * n)
  {
    var k := 8 * n;
    assert Pow2(k + 2) == 4 * Pow2(k);
    assert Pow2(k + 4) == 4 * Pow2(k + 2);
    assert Pow2(k + 6) == 4 * Pow2(k + 4);
    assert Pow2(k + 8) == 4 * Pow2(k + 6);
  }

  /** Bit `i` of `n`, that is `n & (1 << i) != 0`. */
  predicate TestBit(n: nat, i: nat) {
    if i == 0 then n % 2 == 1 else TestBit(n / 2, i - 1)
  }
}
