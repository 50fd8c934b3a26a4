/** The bit structs of the grammar, field by field, as arithmetic on their two bytes. */
module WifiBits {
  import opened Common
  import opened BitOrder
  import opened Construct
  import opened ConstructLaws
  import opened FieldNames
  import opened WifiGrammar
  import opened WifiLaws

  // ---- What the fields hold -------------------------------------------------------------------

  /** Frame control out of its two bytes. */
  predicate ControlSays(r: Scope, a: int, b: int) {
    && Says(r, ProtocolVersion, a % 4) && Says(r, Type, a / 4 % 4) && Says(r, Subtype, a / 16)
    && Says(r, ToDs, b % 2) && Says(r, FromDs, b / 2 % 2) && Says(r, MoreFragments, b / 4 % 2) && Says(r, Retry, b / 8 % 2)
    && Says(r, PowerManagement, b / 16 % 2) && Says(r, MoreData, b / 32 % 2) && Says(r, ProtectedFrame, b / 64 % 2)
    && Says(r, OrderOrHtc, b / 128)
  }

  predicate SequenceSays(r: Scope, a: int, b: int) {
    Says(r, FragmentNumber, a % 16) && Says(r, SequenceNumber, a / 16 + 16 * b)
  }

  /** QoS control: the bits of each byte are read from the top. */
  predicate QosSays(r: Scope, a: int, b: int) {
    && Says(r, Tid, a / 16) && Says(r, Eos, a / 8 % 2) && Says(r, AckPolicy, a / 2 % 4) && Says(r, AmsduPresent, a % 2)
    && Says(r, TxopDurReq, b)
  }

  predicate CapabilitySays(r: Scope, a: int, b: int) {
    && Says(r, Ess, a % 2) && Says(r, Ibss, a / 2 % 2) && Says(r, CfPollable, a / 4 % 2) && Says(r, CfPollRequest, a / 8 % 2)
    && Says(r, Privacy, a / 16 % 2) && Says(r, ShortPreamble, a / 32 % 2) && Says(r, Pbcc, a / 64 % 2)
    && Says(r, ChannelAgility, a / 128)
    && Says(r, SpectrumManagement, b % 2) && Says(r, Qos, b / 2 % 2) && Says(r, ShortSlotTime, b / 4 % 2) && Says(r, Apsd, b / 8 % 2)
    && Says(r, RadioMeasurement, b / 16 % 2) && Says(r, DsssOfdm, b / 32 % 2) && Says(r, DelayedBlockAck, b / 64 % 2)
    && Says(r, ImmediateBlockAck, b / 128)
  }

  /** RSN capabilities, from the top as well. */
  predicate RsnCapabilitiesSay(r: Scope, a: int, b: int) {
    && Says(r, PreAuthentication, a / 128) && Says(r, NoPairwise, a / 64 % 2)
    && Says(r, PtksaReplayCounter, a / 16 % 4) && Says(r, GtksaReplayCounter, a / 4 % 4)
    && Says(r, ManagementFrameProtectionRequired, a / 2 % 2) && Says(r, ManagementFrameProtectionCapable, a % 2)
    && Says(r, JointMultiBandRsna, b / 128) && Says(r, PeerKeyEnabled, b / 64 % 2) && Says(r, SppAmsduCapable, b / 32 % 2)
    && Says(r, SppAmsduRequired, b / 16 % 2) && Says(r, Pbac, b / 8 % 2) && Says(r, ExtendedKeyIdForUnicast, b / 4 % 2)
    && Says(r, Ocvc, b / 2 % 2) && Says(r, Resurved, b % 2)
  }

  // ---- The bits of two bytes --------------------------------------------------------------------

  /** The bits of a byte, most significant first. */
  function Octet(b: byte): (r: seq<bit>) {
    [b / 128, b / 64 % 2, b / 32 % 2, b / 16 % 2, b / 8 % 2, b / 4 % 2, b / 2 % 2, b % 2]
  }

  lemma FourLowBits(n: nat)
    ensures ToBits(n, 4) == [n / 8 % 2, n / 4 % 2, n / 2 % 2, n % 2]
  {
    assert ToBits(n / 2 / 2 / 2, 1) == ToBits(n / 2 / 2 / 2 / 2, 0) + [n / 2 / 2 / 2 % 2];
    assert n / 2 / 2 / 2 == n / 8 && n / 2 / 2 == n / 4;
    assert ToBits(n / 4, 2) == [n / 8 % 2, n / 4 % 2];
    assert ToBits(n / 2, 3) == [n / 8 % 2, n / 4 % 2, n / 2 % 2];
  }

  lemma FourMoreBits(n: nat, w: nat)
    ensures ToBits(n, w + 4) == ToBits(n / 16, w) + ToBits(n, 4)
  {
    FourLowBits(n);
    assert n / 2 / 2 / 2 / 2 == n / 16 && n / 2 / 2 / 2 == n / 8 && n / 2 / 2 == n / 4;
    assert ToBits(n / 8, w + 1) == ToBits(n / 16, w) + [n / 8 % 2];
    assert ToBits(n / 4, w + 2) == ToBits(n / 16, w) + [n / 8 % 2, n / 4 % 2];
    assert ToBits(n / 2, w + 3) == ToBits(n / 16, w) + [n / 8 % 2, n / 4 % 2, n / 2 % 2];
  }

  lemma OctetBits(b: byte)
    ensures ToBits(b, 8) == Octet(b)
  {
    FourMoreBits(b, 4);
    FourLowBits(b);
    FourLowBits(b / 16);
    HighDigits(b);
    assert ToBits(b / 16, 4) == High(b) && ToBits(b, 4) == Low(b);
    assert ToBits(b, 4 + 4) == High(b) + Low(b);
  }

  lemma HighDigits(b: byte)
    ensures b / 16 / 8 % 2 == b / 128 && b / 16 / 4 % 2 == b / 64 % 2 && b / 16 / 2 % 2 == b / 32 % 2
  {
    SixteenthPart(b, 2);
    SixteenthPart(b, 4);
    SixteenthPart(b, 8);
    assert b / 128 < 2;
  }

  lemma SixteenthPart(n: nat, k: nat)
    requires k == 2 || k == 4 || k == 8
    ensures n / 16 / k == n / (16 * k)
  {
    if k == 2 {
    } else if k == 4 {
    }
  }

  lemma TwoDigits(n: nat)
    ensures n % 2 + 2 * (n / 2 % 2) == n % 4
  {
  }

  /** The low four bits. */
  lemma FourDigits(n: nat)
    ensures n % 2 + 2 * (n / 2 % 2) + 4 * (n / 4 % 2) + 8 * (n / 8 % 2) == n % 16
  {
    TwoDigits(n);
    TwoDigits(n / 4);
    assert n / 4 / 2 == n / 8;
    assert n == 4 * (n / 4) + n % 4 && n / 4 == 4 * (n / 4 / 4) + n / 4 % 4;
  }

  lemma HighFour(b: byte)
    ensures b / 16 % 2 + 2 * (b / 32 % 2) + 4 * (b / 64 % 2) + 8 * (b / 128) == b / 16
  {
    FourDigits(b / 16);
    HighDigits(b);
  }

  lemma QuarterDigits(n: nat)
    ensures n / 4 % 2 + 2 * (n / 8 % 2) == n / 4 % 4 && n / 2 % 2 + 2 * (n / 4 % 2) == n / 2 % 4
  {
    TwoDigits(n / 4);
    TwoDigits(n / 2);
    assert n / 4 / 2 == n / 8 && n / 2 / 2 == n / 4;
  }

  function LowOctet(b: byte): (r: seq<bit>) {
    [b % 2, b / 2 % 2, b / 4 % 2, b / 8 % 2, b / 16 % 2, b / 32 % 2, b / 64 % 2, b / 128]
  }

  lemma {:induction false} ReverseConcat(a: seq<bit>, b: seq<bit>)
    ensures Reverse(a + b) == Reverse(b) + Reverse(a)
    decreases |a|
  {
    if a == [] {
      assert a + b == b;
    } else {
      assert (a + b)[1..] == a[1..] + b;
      ReverseConcat(a[1..], b);
    }
  }

  lemma ReverseFour(a: bit, b: bit, c: bit, d: bit)
    ensures Reverse([a, b, c, d]) == [d, c, b, a]
  {
    assert [d][1..] == [] && [c, d][1..] == [d] && [b, c, d][1..] == [c, d] && [a, b, c, d][1..] == [b, c, d];
    assert Reverse([c, d]) == [d] + [c];
    assert Reverse([b, c, d]) == [d, c] + [b];
  }

  lemma ReversedOctet(b: byte)
    ensures Reverse(Octet(b)) == LowOctet(b)
  {
    var high, low: seq<bit> := [b / 128, b / 64 % 2, b / 32 % 2, b / 16 % 2], [b / 8 % 2, b / 4 % 2, b / 2 % 2, b % 2];
    assert Octet(b) == high + low;
    ReverseConcat(high, low);
    ReverseFour(b / 128, b / 64 % 2, b / 32 % 2, b / 16 % 2);
    ReverseFour(b / 8 % 2, b / 4 % 2, b / 2 % 2, b % 2);
  }

  lemma TwoOctets(data: bytes)
    requires |data| == 2
    ensures Stream(data, false) == Octet(data[0]) + Octet(data[1])
    ensures Stream(data, true) == LowOctet(data[0]) + LowOctet(data[1])
  {
    OctetBits(data[0]);
    OctetBits(data[1]);
    ReversedOctet(data[0]);
    ReversedOctet(data[1]);
    assert data[1..] == [data[1]] && data[1..][1..] == [];
  }

  // ---- Reading field after field -------------------------------------------------------------------

  /** The record holds every field of the bit struct, out of its bits. */
  predicate BitsAre(bits: BitList, s: seq<bit>, r: Scope) {
    bits.NoBits?
    || (bits.width <= |s| && Says(r, bits.name, FieldOfBits(s[..bits.width], bits.flip)) && BitsAre(bits.rest, s[bits.width..], r))
  }

  lemma {:induction false} ParsedBits(bits: BitList, s: seq<bit>, scope: Scope)
    requires |s| == BitWidth(bits) && ParseBits(bits, s, scope).Some?
    ensures BitsAre(bits, s, ParseBits(bits, s, scope).value)
    decreases bits
  {
    if bits.Bits? {
      var next := scope[bits.name := Num(FieldOfBits(s[..bits.width], bits.flip))];
      ParsedBits(bits.rest, s[bits.width..], next);
      ParseBitsKeeps(bits.rest, s[bits.width..], next, bits.name);
    }
  }

  lemma OneBit(b: bit)
    ensures FieldOfBits([b], false) == b
  {
    FlipOne(b);
  }

  lemma TwoBits(a: bit, b: bit)
    ensures FieldOfBits([a, b], false) == 2 * a + b && FieldOfBits([a, b], true) == a + 2 * b
  {
    FlipTwice([a, b]);
    assert [a, b][1..] == [b] && [b][1..] == [];
    FlipOne(b);
    FlipOne(a);
    assert [a, b][..1] == [a];
    assert Reverse([a, b]) == [b, a] && [b, a][..1] == [b];
  }

  lemma FourBits(a: bit, b: bit, c: bit, d: bit)
    ensures FieldOfBits([a, b, c, d], false) == 8 * a + 4 * b + 2 * c + d
    ensures FieldOfBits([a, b, c, d], true) == a + 2 * b + 4 * c + 8 * d
  {
    FlipTwice([a, b, c, d]);
    ReverseFour(a, b, c, d);
    FromFour(a, b, c, d);
    FromFour(d, c, b, a);
  }

  lemma FromFour(a: bit, b: bit, c: bit, d: bit)
    ensures FromBits([a, b, c, d]) == 8 * a + 4 * b + 2 * c + d
  {
    assert [a, b, c, d][..3] == [a, b, c] && [a, b, c][..2] == [a, b] && [a, b][..1] == [a];
    TwoBits(a, b);
    assert FromBits([a, b, c]) == 4 * a + 2 * b + c;
  }

  /** The first field and the ones after it. */
  lemma NextField(bits: BitList, head: seq<bit>, tail: seq<bit>, r: Scope)
    requires bits.Bits? && bits.width == |head| && BitsAre(bits, head + tail, r)
    ensures Says(r, bits.name, FieldOfBits(head, bits.flip)) && BitsAre(bits.rest, tail, r)
  {
    assert (head + tail)[..|head|] == head && (head + tail)[|head|..] == tail;
  }

  lemma TwoFlags(bits: BitList, a: bit, b: bit, tail: seq<bit>, r: Scope)
    requires bits.Bits? && bits.rest.Bits? && bits.width == bits.rest.width == 1 && !bits.flip && !bits.rest.flip
    requires BitsAre(bits, [a, b] + tail, r)
    ensures Says(r, bits.name, a) && Says(r, bits.rest.name, b) && BitsAre(bits.rest.rest, tail, r)
  {
    hide BitsAre, FieldOfBits;
    assert [a, b] + tail == [a] + ([b] + tail);
    NextField(bits, [a], [b] + tail, r);
    NextField(bits.rest, [b], tail, r);
    OneBit(a);
    OneBit(b);
  }

  /** Four one-bit fields. */
  lemma FourFlags(bits: BitList, a: bit, b: bit, c: bit, d: bit, tail: seq<bit>, r: Scope)
    requires bits.Bits? && bits.rest.Bits? && bits.width == bits.rest.width == 1 && !bits.flip && !bits.rest.flip
    requires var b2 := bits.rest.rest;
             b2.Bits? && b2.rest.Bits? && b2.width == b2.rest.width == 1 && !b2.flip && !b2.rest.flip
    requires BitsAre(bits, [a, b, c, d] + tail, r)
    ensures var b2 := bits.rest.rest;
            && Says(r, bits.name, a) && Says(r, bits.rest.name, b) && Says(r, b2.name, c) && Says(r, b2.rest.name, d)
            && BitsAre(b2.rest.rest, tail, r)
  {
    hide BitsAre;
    assert [a, b, c, d] + tail == [a, b] + ([c, d] + tail);
    TwoFlags(bits, a, b, [c, d] + tail, r);
    TwoFlags(bits.rest.rest, c, d, tail, r);
  }

  // ---- The bit structs of the grammar ----------------------------------------------------------------

  function High(b: byte): (r: seq<bit>) {
    [b / 128, b / 64 % 2, b / 32 % 2, b / 16 % 2]
  }

  function Low(b: byte): (r: seq<bit>) {
    [b / 8 % 2, b / 4 % 2, b / 2 % 2, b % 2]
  }

  function LowUp(b: byte): (r: seq<bit>) {
    [b % 2, b / 2 % 2, b / 4 % 2, b / 8 % 2]
  }

  function HighUp(b: byte): (r: seq<bit>) {
    [b / 16 % 2, b / 32 % 2, b / 64 % 2, b / 128]
  }

  lemma HalfOctets(a: byte, b: byte)
    ensures Octet(a) + Octet(b) == High(a) + (Low(a) + (High(b) + (Low(b) + [])))
    ensures LowOctet(a) + LowOctet(b) == LowUp(a) + (HighUp(a) + (LowUp(b) + (HighUp(b) + [])))
  {
  }

  lemma CapabilityBits(r: Scope, a: byte, b: byte)
    requires BitsAre(CAPABILITY_BITS, LowOctet(a) + LowOctet(b), r)
    ensures CapabilitySays(r, a, b)
  {
    hide BitsAre;
    HalfOctets(a, b);
    var b4 := CAPABILITY_BITS.rest.rest.rest.rest;
    var b8 := b4.rest.rest.rest.rest;
    var b12 := b8.rest.rest.rest.rest;
    FourFlags(CAPABILITY_BITS, a % 2, a / 2 % 2, a / 4 % 2, a / 8 % 2, HighUp(a) + (LowUp(b) + (HighUp(b) + [])), r);
    FourFlags(b4, a / 16 % 2, a / 32 % 2, a / 64 % 2, a / 128, LowUp(b) + (HighUp(b) + []), r);
    FourFlags(b8, b % 2, b / 2 % 2, b / 4 % 2, b / 8 % 2, HighUp(b) + [], r);
    FourFlags(b12, b / 16 % 2, b / 32 % 2, b / 64 % 2, b / 128, [], r);
  }

  lemma ControlHalves(a: byte, b: byte)
    ensures LowOctet(a) + LowOctet(b)
         == [a % 2, a / 2 % 2] + ([a / 4 % 2, a / 8 % 2] + (HighUp(a) + (LowUp(b) + (HighUp(b) + []))))
  {
    assert LowOctet(a) == [a % 2, a / 2 % 2] + [a / 4 % 2, a / 8 % 2] + HighUp(a);
    assert LowOctet(b) == LowUp(b) + HighUp(b);
  }

  lemma ControlBits(r: Scope, a: byte, b: byte)
    requires BitsAre(FRAME_CONTROL_BITS, LowOctet(a) + LowOctet(b), r)
    ensures ControlSays(r, a, b)
  {
    hide BitsAre;
    ControlHalves(a, b);
    TwoDigits(a);
    QuarterDigits(a);
    HighFour(a);
    var b3 := FRAME_CONTROL_BITS.rest.rest.rest;
    var b7 := b3.rest.rest.rest.rest;
    var flags := LowUp(b) + (HighUp(b) + []);
    NextField(FRAME_CONTROL_BITS, [a % 2, a / 2 % 2], [a / 4 % 2, a / 8 % 2] + (HighUp(a) + flags), r);
    NextField(FRAME_CONTROL_BITS.rest, [a / 4 % 2, a / 8 % 2], HighUp(a) + flags, r);
    NextField(FRAME_CONTROL_BITS.rest.rest, HighUp(a), flags, r);
    TwoBits(a % 2, a / 2 % 2);
    TwoBits(a / 4 % 2, a / 8 % 2);
    FourBits(a / 16 % 2, a / 32 % 2, a / 64 % 2, a / 128);
    FourFlags(b3, b % 2, b / 2 % 2, b / 4 % 2, b / 8 % 2, HighUp(b) + [], r);
    FourFlags(b7, b / 16 % 2, b / 32 % 2, b / 64 % 2, b / 128, [], r);
  }

  lemma RsnHalves(a: byte)
    ensures High(a) + (Low(a) + [])
         == [a / 128, a / 64 % 2] + ([a / 32 % 2, a / 16 % 2] + ([a / 8 % 2, a / 4 % 2] + [a / 2 % 2, a % 2]))
  {
  }

  lemma RsnOctets(a: byte, b: byte)
    ensures Octet(a) + Octet(b)
         == [a / 128, a / 64 % 2] + ([a / 32 % 2, a / 16 % 2] + ([a / 8 % 2, a / 4 % 2] + ([a / 2 % 2, a % 2]
            + (High(b) + (Low(b) + [])))))
  {
    HalfOctets(a, b);
    RsnHalves(a);
  }

  lemma RsnBits(r: Scope, a: byte, b: byte)
    requires BitsAre(RSN_CAPABILITY_BITS, Octet(a) + Octet(b), r)
    ensures RsnCapabilitiesSay(r, a, b)
  {
    hide BitsAre;
    RsnOctets(a, b);
    QuarterDigits(a);
    TwoDigits(a / 16);
    SixteenthPart(a, 2);
    var b2 := RSN_CAPABILITY_BITS.rest.rest;
    var b4 := b2.rest.rest;
    var b6 := b4.rest.rest;
    var b10 := b6.rest.rest.rest.rest;
    var last := High(b) + (Low(b) + []);
    TwoFlags(RSN_CAPABILITY_BITS, a / 128, a / 64 % 2,
             [a / 32 % 2, a / 16 % 2] + ([a / 8 % 2, a / 4 % 2] + ([a / 2 % 2, a % 2] + last)), r);
    NextField(b2, [a / 32 % 2, a / 16 % 2], [a / 8 % 2, a / 4 % 2] + ([a / 2 % 2, a % 2] + last), r);
    NextField(b2.rest, [a / 8 % 2, a / 4 % 2], [a / 2 % 2, a % 2] + last, r);
    TwoBits(a / 32 % 2, a / 16 % 2);
    TwoBits(a / 8 % 2, a / 4 % 2);
    TwoFlags(b4, a / 2 % 2, a % 2, last, r);
    FourFlags(b6, b / 128, b / 64 % 2, b / 32 % 2, b / 16 % 2, Low(b) + [], r);
    FourFlags(b10, b / 8 % 2, b / 4 % 2, b / 2 % 2, b % 2, [], r);
  }

  lemma QosOctets(a: byte, b: byte)
    ensures Octet(a) + Octet(b) == High(a) + ([a / 8 % 2] + ([a / 4 % 2, a / 2 % 2] + ([a % 2] + (Octet(b) + []))))
  {
    assert Octet(a) == High(a) + [a / 8 % 2] + [a / 4 % 2, a / 2 % 2] + [a % 2];
    assert Octet(b) + [] == Octet(b);
  }

  lemma WholeOctet(b: byte)
    ensures FieldOfBits(Octet(b), false) == b
  {
    OctetBits(b);
    assert Pow2(8) == 256;
    FromToBits(b, 8);
  }

  lemma QosBits(r: Scope, a: byte, b: byte)
    requires BitsAre(QOS_BITS, Octet(a) + Octet(b), r)
    ensures QosSays(r, a, b)
  {
    hide BitsAre;
    QosOctets(a, b);
    HighFour(a);
    QuarterDigits(a);
    var b2 := QOS_BITS.rest.rest;
    NextField(QOS_BITS, High(a), [a / 8 % 2] + ([a / 4 % 2, a / 2 % 2] + ([a % 2] + (Octet(b) + []))), r);
    NextField(QOS_BITS.rest, [a / 8 % 2], [a / 4 % 2, a / 2 % 2] + ([a % 2] + (Octet(b) + [])), r);
    NextField(b2, [a / 4 % 2, a / 2 % 2], [a % 2] + (Octet(b) + []), r);
    NextField(b2.rest, [a % 2], Octet(b) + [], r);
    NextField(b2.rest.rest, Octet(b), [], r);
    FourBits(a / 128, a / 64 % 2, a / 32 % 2, a / 16 % 2);
    OneBit(a / 8 % 2);
    TwoBits(a / 4 % 2, a / 2 % 2);
    OneBit(a % 2);
    WholeOctet(b);
  }

  // What two bytes parse to, when they parse.

  lemma ControlOfBytes(data: bytes)
    requires |data| == 2 && BitWidth(FRAME_CONTROL_BITS) == 16 && ParseBits(FRAME_CONTROL_BITS, Stream(data, true), map[]).Some?
    ensures ControlSays(ParseBits(FRAME_CONTROL_BITS, Stream(data, true), map[]).value, data[0], data[1])
  {
    hide ParseBits, BitsAre, ControlSays, LowOctet;
    TwoOctets(data);
    ParsedBits(FRAME_CONTROL_BITS, Stream(data, true), map[]);
    ControlBits(ParseBits(FRAME_CONTROL_BITS, Stream(data, true), map[]).value, data[0], data[1]);
  }

  lemma CapabilityOfBytes(data: bytes)
    requires |data| == 2 && BitWidth(CAPABILITY_BITS) == 16 && ParseBits(CAPABILITY_BITS, Stream(data, true), map[]).Some?
    ensures CapabilitySays(ParseBits(CAPABILITY_BITS, Stream(data, true), map[]).value, data[0], data[1])
  {
    hide ParseBits, BitsAre, CapabilitySays, LowOctet;
    TwoOctets(data);
    ParsedBits(CAPABILITY_BITS, Stream(data, true), map[]);
    CapabilityBits(ParseBits(CAPABILITY_BITS, Stream(data, true), map[]).value, data[0], data[1]);
  }

  lemma RsnCapabilitiesOfBytes(data: bytes)
    requires |data| == 2 && BitWidth(RSN_CAPABILITY_BITS) == 16 && ParseBits(RSN_CAPABILITY_BITS, Stream(data, false), map[]).Some?
    ensures RsnCapabilitiesSay(ParseBits(RSN_CAPABILITY_BITS, Stream(data, false), map[]).value, data[0], data[1])
  {
    hide ParseBits, BitsAre, RsnCapabilitiesSay, Octet;
    TwoOctets(data);
    ParsedBits(RSN_CAPABILITY_BITS, Stream(data, false), map[]);
    RsnBits(ParseBits(RSN_CAPABILITY_BITS, Stream(data, false), map[]).value, data[0], data[1]);
  }

  lemma QosOfBytes(data: bytes)
    requires |data| == 2 && BitWidth(QOS_BITS) == 16 && ParseBits(QOS_BITS, Stream(data, false), map[]).Some?
    ensures QosSays(ParseBits(QOS_BITS, Stream(data, false), map[]).value, data[0], data[1])
  {
    hide ParseBits, BitsAre, QosSays, Octet;
    TwoOctets(data);
    ParsedBits(QOS_BITS, Stream(data, false), map[]);
    QosBits(ParseBits(QOS_BITS, Stream(data, false), map[]).value, data[0], data[1]);
  }
}
