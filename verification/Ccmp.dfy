/** What CCMP decryption derives from a parsed frame: packet number, nonce and additional data. */
module Ccmp {
  import opened Common
  import opened Bits
  import opened BitOrder
  import opened MacText
  import opened Construct
  import opened FieldNames
  import opened WifiLaws

  // ---- The CCMP header ---------------------------------------------------------------------

  /** `pn[i]` is the octet PNi. */
  datatype CcmpPayload = CcmpPayload(pn: bytes, keyId: nat, data: bytes)

  function ParsePayload(payload: bytes): (r: Option<CcmpPayload>)
    ensures r.Some? ==> |r.value.pn| == 6
  {
    if |payload| < 8 then None
    else Some(CcmpPayload(payload[..2] + payload[4..8], FromBits(ToBits(payload[3], 8)[..2]), payload[8..]))
  }

  function ShiftLeft(x: nat, k: nat): (r: nat)
    decreases k
  {
    if k == 0 then x else ShiftLeft(2 * x, k - 1)
  }

  lemma ShiftLeftTwo(x: nat, k: nat)
    ensures ShiftLeft(x, k + 2) == ShiftLeft(4 * x, k)
  {
    assert ShiftLeft(x, k + 2) == ShiftLeft(2 * x, k + 1);
  }

  lemma ShiftOr(x: nat, b: byte)
    ensures Or(ShiftLeft(x, 8), b) == 256 * x + b
  {
    ShiftLeftTwo(x, 6);
    ShiftLeftTwo(4 * x, 4);
    ShiftLeftTwo(16 * x, 2);
    ShiftLeftTwo(64 * x, 0);
    assert Pow2(8) == 256;
    OrAdds(x, b, 8);
  }

  /** The packet number has PN5 as its most significant octet. */
  method GetPn(p: CcmpPayload) returns (pn: nat)
    requires |p.pn| == 6
    ensures pn == LittleEndian(p.pn)
  {
    ghost var s := p.pn;
    pn := p.pn[5];
    assert LittleEndian(s[5..]) == s[5];
    Prepend(s, 4, pn);
    pn := Or(ShiftLeft(pn, 8), p.pn[4]);
    Prepend(s, 3, pn);
    pn := Or(ShiftLeft(pn, 8), p.pn[3]);
    Prepend(s, 2, pn);
    pn := Or(ShiftLeft(pn, 8), p.pn[2]);
    Prepend(s, 1, pn);
    pn := Or(ShiftLeft(pn, 8), p.pn[1]);
    Prepend(s, 0, pn);
    pn := Or(ShiftLeft(pn, 8), p.pn[0]);
    assert s[0..] == s;
  }

  lemma Prepend(s: bytes, i: nat, pn: nat)
    requires i < |s| && pn == LittleEndian(s[i + 1..])
    ensures Or(ShiftLeft(pn, 8), s[i]) == LittleEndian(s[i..])
  {
    ShiftOr(pn, s[i]);
    assert s[i..][1..] == s[i + 1..];
  }

  /** The low six of the eight big-endian bytes of a packet number; None is the error for a number that needs more. */
  function PnToBin(pn: nat): (r: Option<bytes>) {
    if pn < Pow2(64) then Some(ToBigEndian(pn, 8)[2..]) else None
  }

  // ---- Nonce and additional data -----------------------------------------------------------------

  const TID_PATH: seq<Name> := [FrameBody, Header, QosControl, Tid]
  const FRAGMENT_PATH: seq<Name> := [SequenceControl, FragmentNumber]

  /** `_addr2bin` of an address field; None is the error of a field that is no text or no hexadecimal text. */
  function Address(frame: Scope, name: Name): (r: Option<bytes>) {
    if name in frame && frame[name].Text? then AddrToBin(frame[name].text) else None
  }

  /** `struct.pack` of a number in `width` bytes, least significant first. */
  function Pack(n: int, width: nat): (r: Option<bytes>) {
    if 0 <= n < Pow2(8 * width) then Some(ToLittleEndian(n, width)) else None
  }

  function Joined(parts: seq<Option<bytes>>): (r: Option<bytes>) {
    if parts == [] then Some([])
    else
      match (parts[0], Joined(parts[1..]))
      case (Some(a), Some(b)) => Some(a + b)
      case _ => None
  }

  /** The packed number at a path; None also where the path meets a missing field, an AttributeError. */
  function Packed(frame: Scope, path: seq<Name>, width: nat): (r: Option<bytes>) {
    match Lookup(frame, path)
    case None => None
    case Some(n) => Pack(n, width)
  }

  function Nonce(frame: Scope, pn: nat): (r: Option<bytes>) {
    Joined([Packed(frame, TID_PATH, 1), Address(frame, Address2), PnToBin(pn)])
  }

  function Mask(b: byte, m: nat): (r: byte) {
    AndBound(b, m);
    And(b, m)
  }

  lemma {:induction false} AndBound(x: nat, m: nat)
    ensures And(x, m) <= x
    decreases x
  {
    if x > 0 {
      AndBound(x / 2, m / 2);
    }
  }

  /** The first two bytes of the rebuilt frame, masked. */
  function MaskedControl(cs: Codecs, frame: Scope): (r: Option<bytes>) {
    match BuildFrame(cs, Rec(frame))
    case None => None
    case Some(raw) => if |raw| < 2 then None else Some([Mask(raw[0], 0x8f), Mask(raw[1], 0xc7)])
  }

  /** The fragment number, masked; parsed numbers are never negative. */
  function MaskedFragment(frame: Scope): (r: Option<bytes>) {
    match Lookup(frame, FRAGMENT_PATH)
    case None => None
    case Some(n) => if n < 0 then None else Pack(And(n, 0xf), 2)
  }

  function CreateAad(cs: Codecs, frame: Scope): (r: Option<bytes>) {
    Joined([MaskedControl(cs, frame), Address(frame, Address1), Address(frame, Address2), Address(frame, Address3),
            MaskedFragment(frame), Packed(frame, TID_PATH, 2)])
  }

  // ---- The algorithm object -------------------------------------------------------------------------

  /** The fields its constructor sets. */
  datatype Derived = Derived(pn: nat, keyId: nat, nonce: bytes, aad: bytes, data: bytes)

  /** None is any of the constructor's exceptions. */
  method Derive(cs: Codecs, frame: Scope, payload: bytes) returns (r: Option<Derived>)
    ensures r.Some? <==> |payload| >= 8 && Nonce(frame, LittleEndian(payload[..2] + payload[4..8])).Some? && CreateAad(cs, frame).Some?
    ensures r.Some? ==>
              && r.value.pn == LittleEndian(payload[..2] + payload[4..8]) && r.value.data == payload[8..]
              && Nonce(frame, r.value.pn) == Some(r.value.nonce) && CreateAad(cs, frame) == Some(r.value.aad)
              && 64 * r.value.keyId <= payload[3] < 64 * r.value.keyId + 64
  {
    var p := ParsePayload(payload);
    if p.None? {
      return None;
    }
    var pn := GetPn(p.value);
    var nonce := Nonce(frame, pn);
    var aad := CreateAad(cs, frame);
    if nonce.None? || aad.None? {
      return None;
    }
    KeyIdBits(payload[3]);
    r := Some(Derived(pn, p.value.keyId, nonce.value, aad.value, p.value.data));
  }

  lemma {:induction false} HighBits(n: nat, w: nat, k: nat)
    requires k <= w
    ensures ToBits(n, w)[..w - k] == ToBits(ShiftRight(n, k), w - k)
    decreases k
  {
    if k > 0 {
      HighBits(n / 2, w - 1, k - 1);
      assert ToBits(n, w)[..w - k] == ToBits(n / 2, w - 1)[..w - k];
    }
  }

  lemma KeyIdBits(b: byte)
    ensures var id := FromBits(ToBits(b, 8)[..2]);
            64 * id <= b < 64 * id + 64
  {
    HighBits(b, 8, 6);
    ShiftRightTwo(b, 4);
    ShiftRightTwo(b / 4, 2);
    ShiftRightTwo(b / 16, 0);
    assert b / 4 / 4 == b / 16 && b / 16 / 4 == b / 64;
    assert Pow2(2) == 4;
    FromToBits(b / 64, 2);
  }

  // ---- The packet number in the nonce ------------------------------------------------------------------

  lemma {:induction false} BigEndianReversed(s: bytes)
    ensures BigEndian(Reverse(s)) == LittleEndian(s)
  {
    if s != [] {
      BigEndianReversed(s[1..]);
    }
  }

  lemma {:induction false} ReverseAt(s: bytes, i: nat)
    requires i < |s|
    ensures Reverse(s)[i] == s[|s| - 1 - i]
  {
    if i < |s| - 1 {
      ReverseAt(s[1..], i);
    }
  }

  lemma {:induction false} PaddingIsFree(s: bytes)
    ensures LittleEndian(s + [0, 0]) == LittleEndian(s)
  {
    if s == [] {
      assert s + [0, 0] == [0, 0] && [0, 0][1..] == [0] && [0][1..] == [];
    } else {
      PaddingIsFree(s[1..]);
      assert (s + [0, 0])[1..] == s[1..] + [0, 0];
    }
  }

  /** The nonce ends in the six octets from PN5 down to PN0. */
  lemma PnToBinReverses(pn: bytes)
    requires |pn| == 6
    ensures PnToBin(LittleEndian(pn)) == Some(Reverse(pn))
  {
    var s := pn + [0, 0];
    var r := Reverse(s);
    PaddingIsFree(pn);
    BigEndianReversed(s);
    BigEndianRoundTrip(r);
    forall i | 0 <= i < 6
      ensures r[2..][i] == Reverse(pn)[i]
    {
      ReverseAt(s, i + 2);
      ReverseAt(pn, i);
    }
    assert r[2..] == Reverse(pn);
  }

  lemma ReverseInjective(a: bytes, b: bytes)
    requires |a| == |b|
    ensures Reverse(a) == Reverse(b) <==> a == b
  {
    if Reverse(a) == Reverse(b) {
      forall i | 0 <= i < |a|
        ensures a[i] == b[i]
      {
        ReverseAt(a, |a| - 1 - i);
        ReverseAt(b, |a| - 1 - i);
      }
    }
  }
}
