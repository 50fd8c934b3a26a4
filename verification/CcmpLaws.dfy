/** What the CCMP additional data and nonce of two frames have in common. */
module CcmpLaws {
  import opened Common
  import opened Bits
  import opened BitOrder
  import opened MacText
  import opened Construct
  import opened ConstructLaws
  import opened FieldNames
  import opened WifiGrammar
  import opened WifiLaws
  import opened WifiFrames
  import opened WifiAccept
  import opened WifiControl
  import opened Ccmp
  import opened CcmpFrames

  /** The parsed frame. */
  function Frame(cs: Codecs, input: bytes): Scope
    requires ParseFrame(cs, input).Some?
  {
    ParseFields(cs, FRAME_FIELDS, [], map[], input).value.scope
  }

  lemma ParsedFrame(cs: Codecs, input: bytes)
    requires ParseFrame(cs, input).Some?
    ensures ParseFrame(cs, input).value.value == Rec(Frame(cs, input))
  {
  }

  // ---- The rebuilt frame control word -------------------------------------------------------

  lemma BuildStarts(cs: Codecs, f: FieldList, ctx: Context, record: Scope, out0: bytes, out: bytes)
    requires f.Field? && f.name in record && Build(cs, f.con, [record] + ctx, record[f.name]) == Some(out0)
    requires BuildFields(cs, f, ctx, record) == Some(out)
    ensures |out0| <= |out| && out[..|out0|] == out0
  {
  }

  lemma TwoBytesRebuild(cs: Codecs, bits: BitList, ctx: Context, full: Context, input: bytes)
    requires BitWidth(bits) == 16 && Parse(cs, Construct.BitStruct(true, bits), ctx, input).Some?
    ensures |input| >= 2
    ensures var g := Construct.BitStruct(true, bits);
            Build(cs, g, full, Parse(cs, g, ctx, input).value.value) == Some(input[..2])
  {
    hide ParseBits, BuildBits, Stream, Unstream, Build;
    BitStructRoundTrip(cs, true, bits, ctx, full, input);
  }

  lemma ControlRebuilds(cs: Codecs, ctx: Context, full: Context, input: bytes)
    requires Parse(cs, FRAME_CONTROL, ctx, input).Some?
    ensures |input| >= 2
    ensures Build(cs, FRAME_CONTROL, full, Parse(cs, FRAME_CONTROL, ctx, input).value.value) == Some(input[..2])
  {
    ControlWidth();
    TwoBytesRebuild(cs, FRAME_CONTROL_BITS, ctx, full, input);
  }

  lemma StructBuilds(cs: Codecs, fields: FieldList, ctx: Context, scope: Scope)
    ensures Build(cs, Struct(fields), ctx, Rec(scope)) == BuildFields(cs, fields, ctx, scope)
  {
  }

  lemma FrameParts(cs: Codecs, input: bytes)
    requires ParseFrame(cs, input).Some?
    ensures ParseFields(cs, FRAME_FIELDS, [], map[], input).Some?
    ensures BuildFrame(cs, Rec(Frame(cs, input))) == BuildFields(cs, FRAME_FIELDS, [], Frame(cs, input))
  {
    hide Parse, ParseFields, Build, BuildFields, FRAME_FIELDS;
    FrameIs(cs, input);
    StructBuilds(cs, FRAME_FIELDS, [], Frame(cs, input));
  }

  lemma ControlFirst()
    ensures FRAME_FIELDS == Field(FrameControl, FRAME_CONTROL, AFTER_CONTROL)
  {
  }

  lemma ControlStays(cs: Codecs, input: bytes)
    requires ParseFields(cs, FRAME_FIELDS, [], map[], input).Some? && FRAME_FIELDS == Field(FrameControl, FRAME_CONTROL, AFTER_CONTROL)
    ensures var q := ParseFields(cs, FRAME_FIELDS, [], map[], input).value.scope;
            && Parse(cs, FRAME_CONTROL, [map[]] + [], input).Some? && FrameControl in q
            && q[FrameControl] == Parse(cs, FRAME_CONTROL, [map[]] + [], input).value.value
  {
    hide Parse, ParseFields;
    var p, q := FieldStep(cs, FrameControl, FRAME_CONTROL, AFTER_CONTROL, [], map[], input);
    FieldsKeep(cs, AFTER_CONTROL, [], map[FrameControl := p.value], p.rest);
  }

  /** Whatever becomes of its text fields, a frame rebuilds to its own frame control word. */
  lemma RebuiltControl(cs: Codecs, input: bytes)
    requires Lawful(cs) && ParseFrame(cs, input).Some?
    ensures |input| >= 2
    ensures var out := BuildFrame(cs, Rec(Frame(cs, input)));
            out.Some? && |out.value| >= 2 && out.value[0] == input[0] && out.value[1] == input[1]
  {
    hide ParseFrame, BuildFrame, Parse, ParseFields, Build, BuildFields;
    ParsedFrame(cs, input);
    FrameRebuilds(cs, input);
    FrameParts(cs, input);
    ControlFirst();
    ControlStays(cs, input);
    var frame := Frame(cs, input);
    ControlRebuilds(cs, [map[]] + [], [frame] + [], input);
    var out := BuildFrame(cs, Rec(frame)).value;
    BuildStarts(cs, FRAME_FIELDS, [], frame, input[..2], out);
    assert out[..2][0] == input[0] && out[..2][1] == input[1];
  }

  // ---- Parts of the additional data -----------------------------------------------------------------

  /** The heading fields of a frame that is not a control frame, as they stay in the record. */
  lemma FrameFields(cs: Codecs, input: bytes) returns (control: Scope, sequence: Scope)
    requires ParseFrame(cs, input).Some? && |input| >= 2 && TypeBits(input) != CONTROL
    ensures |input| >= 24 && ControlFields(input) == Some(control) && SequenceFields(input) == Some(sequence)
    ensures var f := Frame(cs, input);
            && FrameControl in f && f[FrameControl] == Rec(control)
            && SequenceControl in f && f[SequenceControl] == Rec(sequence)
            && Address1 in f && f[Address1] == Text(FormatMac(input[4..10]))
            && Address2 in f && f[Address2] == Text(FormatMac(input[10..16]))
            && Address3 in f && f[Address3] == Text(FormatMac(input[16..22]))
  {
    var body;
    control, sequence, body := FrameBodyOf(cs, input);
    ParsedFrame(cs, input);
    HeadingHolds(control, sequence, input, body.value);
  }

  lemma HeadingHolds(control: Scope, sequence: Scope, input: bytes, body: Value)
    requires |input| >= 24
    ensures var f := Heading(control, sequence, input)[FrameBody := body];
            && f[FrameControl] == Rec(control) && f[SequenceControl] == Rec(sequence)
            && f[Address1] == Text(FormatMac(input[4..10])) && f[Address2] == Text(FormatMac(input[10..16]))
            && f[Address3] == Text(FormatMac(input[16..22]))
  {
  }

  lemma FragmentIs(input: bytes)
    requires |input| >= 24 && SequenceFields(input).Some?
    ensures Says(SequenceFields(input).value, FragmentNumber, input[22] % 16)
  {
    var s := input[22..24];
    SequenceAgreesWithShiftAndMask(input);
    LowOfTwo(s);
  }

  lemma LowOfTwo(s: bytes)
    requires |s| == 2
    ensures LowBits(LittleEndian(s), 4) == s[0] % 16
  {
    assert s[..2] == s;
    WordParts(s);
    WordSlices(s[0], s[1]);
    LowFour(LittleEndian(s));
  }

  lemma LookupOne(scope: Scope, name: Name, n: int)
    requires Says(scope, name, n)
    ensures Lookup(scope, [name]) == Some(n)
  {
  }

  lemma FragmentOf(frame: Scope, sequence: Scope, n: nat)
    requires SequenceControl in frame && frame[SequenceControl] == Rec(sequence) && Says(sequence, FragmentNumber, n) && n < 16
    ensures Lookup(frame, FRAGMENT_PATH) == Some(n) && MaskedFragment(frame) == Some([n, 0])
  {
    hide Lookup, MaskedFragment;
    assert FRAGMENT_PATH == [SequenceControl] + [FragmentNumber];
    LookupStep(frame, SequenceControl, [FragmentNumber]);
    LookupOne(sequence, FragmentNumber, n);
    FragmentIsMasked(frame, n);
  }

  lemma LowNibble(n: nat)
    ensures And(n, 0xf) == n % 16
  {
    hide And;
    AndKeepsTwo(n, 3);
    AndKeepsTwo(n / 4, 0);
    AndZero(n / 4 / 4);
    assert n % 16 == n % 4 + 4 * (n / 4 % 4);
  }

  /** Of any fragment number the low four bits enter. */
  lemma FragmentIsMasked(frame: Scope, n: nat)
    requires Lookup(frame, FRAGMENT_PATH) == Some(n)
    ensures MaskedFragment(frame) == Some([n % 16, 0])
  {
    LowNibble(n);
    PackTwo(n % 16);
  }

  lemma PackOne(n: nat)
    requires n < 256
    ensures Pack(n, 1) == Some([n])
  {
    assert 8 * 1 == 8 && Pow2(8) == 256;
    assert n % 256 == n && ToLittleEndian(n, 1) == [n] + [] == [n];
  }

  lemma PackTwo(n: nat)
    requires n < 256
    ensures Pack(n, 2) == Some([n, 0])
  {
    assert Pow2(8) == 256;
    Pow2Bytes(1);
    assert 8 * 2 == 16 && Pow2(16) == 65536;
    var rest := n / 256;
    assert ToLittleEndian(rest, 1) == [rest % 256] + ToLittleEndian(rest / 256, 0);
    assert ToLittleEndian(n, 2) == [n % 256] + ToLittleEndian(rest, 1) == [n, 0];
  }

  // ---- The whole ---------------------------------------------------------------------------------------

  /** The low four bits of the first byte and its top one, the low three of the second and its top two. */
  function KeptFirst(b: byte): byte {
    b % 16 + 128 * (b / 128)
  }

  function KeptSecond(b: byte): byte {
    b % 8 + 64 * (b / 64)
  }

  /** The additional data as a function of the frame's bytes. */
  function AadOf(input: bytes): bytes
    requires |input| >= 24 && QosOffset(input) < |input|
  {
    [KeptFirst(input[0]), KeptSecond(input[1])] + input[4..10] + input[10..16] + input[16..22]
    + [input[22] % 16, 0] + [input[QosOffset(input)] / 16, 0]
  }

  lemma JoinedSix(a: bytes, b: bytes, c: bytes, d: bytes, e: bytes, f: bytes)
    ensures Joined([Some(a), Some(b), Some(c), Some(d), Some(e), Some(f)]) == Some(a + b + c + d + e + f)
  {
    var p6 := [Some(f)];
    var p5 := [Some(e)] + p6;
    var p4 := [Some(d)] + p5;
    var p3 := [Some(c)] + p4;
    var p2 := [Some(b)] + p3;
    var p1 := [Some(a)] + p2;
    assert p6[1..] == [] && p5[1..] == p6 && p4[1..] == p5 && p3[1..] == p4 && p2[1..] == p3 && p1[1..] == p2;
    assert p1 == [Some(a), Some(b), Some(c), Some(d), Some(e), Some(f)];
    assert f + [] == f;
    assert Joined(p6) == Some(f);
    assert Joined(p5) == Some(e + f);
    assert Joined(p4) == Some(d + (e + f));
    assert Joined(p3) == Some(c + (d + (e + f)));
    assert Joined(p2) == Some(b + (c + (d + (e + f))));
    assert Joined(p1) == Some(a + (b + (c + (d + (e + f)))));
    assert a + b + c + d + e + f == a + (b + (c + (d + (e + f))));
  }

  lemma {:induction false} JoinedNeedsAll(parts: seq<Option<bytes>>, i: nat)
    requires i < |parts| && parts[i] == None
    ensures Joined(parts) == None
    decreases i
  {
    if i > 0 {
      JoinedNeedsAll(parts[1..], i - 1);
    }
  }

  lemma ControlPart(cs: Codecs, input: bytes)
    requires Lawful(cs) && ParseFrame(cs, input).Some?
    ensures |input| >= 2
    ensures MaskedControl(cs, Frame(cs, input)) == Some([Mask(input[0], 0x8f), Mask(input[1], 0xc7)])
  {
    RebuiltControl(cs, input);
  }

  lemma AddressParts(cs: Codecs, input: bytes)
    requires ParseFrame(cs, input).Some? && |input| >= 2 && TypeBits(input) != CONTROL
    ensures |input| >= 24
    ensures Address(Frame(cs, input), Address1) == Some(input[4..10])
    ensures Address(Frame(cs, input), Address2) == Some(input[10..16])
    ensures Address(Frame(cs, input), Address3) == Some(input[16..22])
    ensures Lookup(Frame(cs, input), FRAGMENT_PATH) == Some(input[22] % 16)
    ensures MaskedFragment(Frame(cs, input)) == Some([input[22] % 16, 0])
  {
    var control, sequence := FrameFields(cs, input);
    AddrToBinRoundTrip(input[4..10]);
    AddrToBinRoundTrip(input[10..16]);
    AddrToBinRoundTrip(input[16..22]);
    FragmentIs(input);
    FragmentOf(Frame(cs, input), sequence, input[22] % 16);
  }

  lemma TidPart(cs: Codecs, input: bytes)
    requires ParseFrame(cs, input).Some? && |input| >= 2 && QosData(input)
    ensures QosOffset(input) < |input|
    ensures Lookup(Frame(cs, input), TID_PATH) == Some(input[QosOffset(input)] / 16)
    ensures Packed(Frame(cs, input), TID_PATH, 2) == Some([input[QosOffset(input)] / 16, 0])
  {
    ParsedFrame(cs, input);
    TidExactlyFor(cs, input);
    PackTwo(input[QosOffset(input)] / 16);
  }

  lemma MaskedBytes(a: byte, b: byte)
    ensures Mask(a, 0x8f) == KeptFirst(a) && Mask(b, 0xc7) == KeptSecond(b)
  {
    KeepEnds(a);
    KeepOuter(b);
  }

  /** The additional data of a QoS data frame, byte by byte. */
  lemma AadIs(cs: Codecs, input: bytes)
    requires Lawful(cs) && ParseFrame(cs, input).Some? && |input| >= 2 && QosData(input)
    ensures |input| >= 24 && QosOffset(input) < |input|
    ensures CreateAad(cs, Frame(cs, input)) == Some(AadOf(input))
  {
    hide ParseFrame, QosData, QosOffset, MaskedControl, Address, MaskedFragment, Packed, Mask, KeptFirst, KeptSecond, Joined;
    ControlPart(cs, input);
    QosIsNotControl(input);
    AddressParts(cs, input);
    TidPart(cs, input);
    MaskedBytes(input[0], input[1]);
    JoinedSix([KeptFirst(input[0]), KeptSecond(input[1])], input[4..10], input[10..16], input[16..22],
              [input[22] % 16, 0], [input[QosOffset(input)] / 16, 0]);
  }

  lemma QosIsNotControl(input: bytes)
    requires |input| >= 2 && QosData(input)
    ensures TypeBits(input) != CONTROL
  {
  }

  /** The second address of a control frame is absent. */
  lemma ControlFrameLacksAddress(cs: Codecs, input: bytes)
    requires ParseFrame(cs, input).Some? && |input| >= 2 && TypeBits(input) == CONTROL
    ensures Address(Frame(cs, input), Address2) == None
  {
    hide ParseFrame, ParseFields, TypeBits;
    var fields := ControlFrameFollows(cs, input);
    ParsedFrame(cs, input);
  }

  /** Deriving the additional data raises for every accepted frame but the QoS data frames of subtypes 8 to 12. */
  lemma AadExistsExactlyFor(cs: Codecs, input: bytes)
    requires Lawful(cs) && ParseFrame(cs, input).Some?
    ensures |input| >= 2
    ensures CreateAad(cs, Frame(cs, input)).Some? <==> QosData(input)
  {
    hide ParseFrame, ParseFields, TypeBits, MaskedControl, Address, MaskedFragment;
    ControlPart(cs, input);
    var frame := Frame(cs, input);
    var parts := [MaskedControl(cs, frame), Address(frame, Address1), Address(frame, Address2), Address(frame, Address3),
                  MaskedFragment(frame), Packed(frame, TID_PATH, 2)];
    if QosData(input) {
      AadIs(cs, input);
    } else if TypeBits(input) == CONTROL {
      ControlFrameLacksAddress(cs, input);
      JoinedNeedsAll(parts, 2);
    } else {
      ParsedFrame(cs, input);
      TidExactlyFor(cs, input);
      JoinedNeedsAll(parts, 5);
    }
  }

  // ---- When two frames share it --------------------------------------------------------------------------

  /** The number of a field of the frame control word. */
  function InControl(frame: Scope, name: Name): Option<int> {
    Lookup(frame, [FrameControl, name])
  }

  /** The parsed frames agree on what the additional data is meant to protect. */
  predicate SameProtected(a: Scope, b: Scope) {
    && InControl(a, ProtocolVersion) == InControl(b, ProtocolVersion)
    && InControl(a, Type) == InControl(b, Type)
    && InControl(a, Subtype).Some? && InControl(b, Subtype).Some?
    && InControl(a, Subtype).value / 8 == InControl(b, Subtype).value / 8
    && InControl(a, ToDs) == InControl(b, ToDs)
    && InControl(a, FromDs) == InControl(b, FromDs)
    && InControl(a, MoreFragments) == InControl(b, MoreFragments)
    && InControl(a, ProtectedFrame) == InControl(b, ProtectedFrame)
    && InControl(a, OrderOrHtc) == InControl(b, OrderOrHtc)
    && SameText(a, b, Address1) && SameText(a, b, Address2) && SameText(a, b, Address3)
    && Lookup(a, FRAGMENT_PATH) == Lookup(b, FRAGMENT_PATH)
    && Lookup(a, TID_PATH) == Lookup(b, TID_PATH)
  }

  predicate SameText(a: Scope, b: Scope, name: Name) {
    name in a && name in b && a[name] == b[name]
  }

  lemma InControlIs(frame: Scope, control: Scope, name: Name, n: int)
    requires FrameControl in frame && frame[FrameControl] == Rec(control) && Says(control, name, n)
    ensures InControl(frame, name) == Some(n)
  {
    assert [FrameControl, name] == [FrameControl] + [name];
    LookupStep(frame, FrameControl, [name]);
  }

  /** The frame control fields of a parsed frame. */
  lemma FirstByteFields(cs: Codecs, input: bytes)
    requires ParseFrame(cs, input).Some? && |input| >= 2 && TypeBits(input) != CONTROL
    ensures InControl(Frame(cs, input), ProtocolVersion) == Some(input[0] % 4)
    ensures InControl(Frame(cs, input), Type) == Some(input[0] / 4 % 4)
    ensures InControl(Frame(cs, input), Subtype) == Some(input[0] / 16)
  {
    var control, sequence := FrameFields(cs, input);
    ControlIs(input);
    TypeOfFirst(input);
    SubtypeOfFirst(input);
    TypeAgreesWithShiftAndMask(input);
    InControlIs(Frame(cs, input), control, ProtocolVersion, input[0] % 4);
    InControlIs(Frame(cs, input), control, Type, input[0] / 4 % 4);
    InControlIs(Frame(cs, input), control, Subtype, input[0] / 16);
  }

  lemma SecondByteFields(cs: Codecs, input: bytes)
    requires ParseFrame(cs, input).Some? && |input| >= 2 && TypeBits(input) != CONTROL
    ensures InControl(Frame(cs, input), ToDs) == Some(input[1] % 2)
    ensures InControl(Frame(cs, input), FromDs) == Some(input[1] / 2 % 2)
    ensures InControl(Frame(cs, input), MoreFragments) == Some(input[1] / 4 % 2)
    ensures InControl(Frame(cs, input), ProtectedFrame) == Some(input[1] / 64 % 2)
    ensures InControl(Frame(cs, input), OrderOrHtc) == Some(input[1] / 128)
  {
    var control, sequence := FrameFields(cs, input);
    ControlIs(input);
    InControlIs(Frame(cs, input), control, ToDs, input[1] % 2);
    InControlIs(Frame(cs, input), control, FromDs, input[1] / 2 % 2);
    InControlIs(Frame(cs, input), control, MoreFragments, input[1] / 4 % 2);
    InControlIs(Frame(cs, input), control, ProtectedFrame, input[1] / 64 % 2);
    InControlIs(Frame(cs, input), control, OrderOrHtc, input[1] / 128);
  }

  /** Two-digit numbers are equal when their digits are. */
  lemma SameDigits(base: nat, a: int, b: int, c: int, d: int)
    requires 0 <= a < base && 0 <= c < base && (base == 2 || base == 4 || base == 8 || base == 16 || base == 64 || base == 128)
    ensures a + base * b == c + base * d <==> a == c && b == d
  {
    if base == 2 {
    } else if base == 4 {
    } else if base == 8 {
    } else if base == 16 {
    } else if base == 64 {
    }
  }

  lemma FirstMaskEqual(b: byte, c: byte)
    ensures KeptFirst(b) == KeptFirst(c)
            <==> b % 4 == c % 4 && b / 4 % 4 == c / 4 % 4 && b / 16 / 8 == c / 16 / 8
  {
    FirstParts(b);
    FirstParts(c);
    SameDigits(128, b % 16, b / 128, c % 16, c / 128);
    SameDigits(4, b % 4, b / 4 % 4, c % 4, c / 4 % 4);
  }

  lemma FirstParts(b: byte)
    ensures b % 16 == b % 4 + 4 * (b / 4 % 4) && b / 128 == b / 16 / 8
  {
  }

  lemma SecondMaskEqual(b: byte, c: byte)
    ensures KeptSecond(b) == KeptSecond(c)
            <==> && b % 2 == c % 2 && b / 2 % 2 == c / 2 % 2 && b / 4 % 2 == c / 4 % 2
                 && b / 64 % 2 == c / 64 % 2 && b / 128 == c / 128
  {
    LowThree(b);
    LowThree(c);
    TopTwo(b);
    TopTwo(c);
    SameDigits(64, b % 8, b / 64, c % 8, c / 64);
    SameDigits(4, b % 4, b / 4 % 2, c % 4, c / 4 % 2);
    SameDigits(2, b % 2, b / 2 % 2, c % 2, c / 2 % 2);
    SameDigits(2, b / 64 % 2, b / 128, c / 64 % 2, c / 128);
  }

  lemma LowThree(b: byte)
    ensures b % 8 == b % 4 + 4 * (b / 4 % 2) && b % 4 == b % 2 + 2 * (b / 2 % 2)
  {
  }

  lemma TopTwo(b: byte)
    ensures b / 64 == b / 64 % 2 + 2 * (b / 128)
  {
  }

  lemma SplitEqual(a: bytes, b: bytes, c: bytes, d: bytes)
    requires |a| == |c|
    ensures a + b == c + d <==> a == c && b == d
  {
    if a + b == c + d {
      assert a == (a + b)[..|a|] && c == (c + d)[..|c|];
      assert b == (a + b)[|a|..] && d == (c + d)[|c|..];
    }
  }

  lemma SixPartsEqual(a: seq<bytes>, b: seq<bytes>)
    requires |a| == |b| == 6 && forall i :: 0 <= i < 6 ==> |a[i]| == |b[i]|
    ensures a[0] + a[1] + a[2] + a[3] + a[4] + a[5] == b[0] + b[1] + b[2] + b[3] + b[4] + b[5]
            <==> forall i :: 0 <= i < 6 ==> a[i] == b[i]
  {
    SplitEqual(a[0] + a[1] + a[2] + a[3] + a[4], a[5], b[0] + b[1] + b[2] + b[3] + b[4], b[5]);
    SplitEqual(a[0] + a[1] + a[2] + a[3], a[4], b[0] + b[1] + b[2] + b[3], b[4]);
    SplitEqual(a[0] + a[1] + a[2], a[3], b[0] + b[1] + b[2], b[3]);
    SplitEqual(a[0] + a[1], a[2], b[0] + b[1], b[2]);
    SplitEqual(a[0], a[1], b[0], b[1]);
  }

  /** Equal additional data, part by part. */
  lemma AadOfEqual(x: bytes, y: bytes)
    requires |x| >= 24 && |y| >= 24 && QosOffset(x) < |x| && QosOffset(y) < |y|
    ensures AadOf(x) == AadOf(y)
            <==> && KeptFirst(x[0]) == KeptFirst(y[0]) && KeptSecond(x[1]) == KeptSecond(y[1])
                 && x[4..10] == y[4..10] && x[10..16] == y[10..16] && x[16..22] == y[16..22]
                 && x[22] % 16 == y[22] % 16 && x[QosOffset(x)] / 16 == y[QosOffset(y)] / 16
  {
    hide QosOffset, KeptFirst, KeptSecond;
    var a, b := AadParts(x), AadParts(y);
    SixPartsEqual(a, b);
    SameTwo(KeptFirst(x[0]), KeptSecond(x[1]), KeptFirst(y[0]), KeptSecond(y[1]));
    SameTwo(x[22] % 16, 0, y[22] % 16, 0);
    SameTwo(x[QosOffset(x)] / 16, 0, y[QosOffset(y)] / 16, 0);
    if forall i :: 0 <= i < 6 ==> a[i] == b[i] {
      assert a[0] == b[0] && a[1] == b[1] && a[2] == b[2] && a[3] == b[3] && a[4] == b[4] && a[5] == b[5];
    }
  }

  function AadParts(input: bytes): (r: seq<bytes>)
    requires |input| >= 24 && QosOffset(input) < |input|
    ensures |r| == 6 && AadOf(input) == r[0] + r[1] + r[2] + r[3] + r[4] + r[5]
  {
    [[KeptFirst(input[0]), KeptSecond(input[1])], input[4..10], input[10..16], input[16..22], [input[22] % 16, 0],
     [input[QosOffset(input)] / 16, 0]]
  }

  lemma SameTwo(a: byte, b: byte, c: byte, d: byte)
    ensures [a, b] == [c, d] <==> a == c && b == d
  {
    assert [a, b][0] == a && [a, b][1] == b && [c, d][0] == c && [c, d][1] == d;
  }

  lemma SameAddress(a: bytes, b: bytes)
    ensures FormatMac(a) == FormatMac(b) <==> a == b
  {
    AddrToBinRoundTrip(a);
    AddrToBinRoundTrip(b);
  }

  lemma SameTexts(cs: Codecs, x: bytes, y: bytes)
    requires ParseFrame(cs, x).Some? && |x| >= 2 && TypeBits(x) != CONTROL
    requires ParseFrame(cs, y).Some? && |y| >= 2 && TypeBits(y) != CONTROL
    ensures |x| >= 24 && |y| >= 24
    ensures SameText(Frame(cs, x), Frame(cs, y), Address1) <==> x[4..10] == y[4..10]
    ensures SameText(Frame(cs, x), Frame(cs, y), Address2) <==> x[10..16] == y[10..16]
    ensures SameText(Frame(cs, x), Frame(cs, y), Address3) <==> x[16..22] == y[16..22]
  {
    var c, s := FrameFields(cs, x);
    var d, t := FrameFields(cs, y);
    SameAddress(x[4..10], y[4..10]);
    SameAddress(x[10..16], y[10..16]);
    SameAddress(x[16..22], y[16..22]);
  }

  /**
   Two accepted QoS data frames have equal additional data exactly when their parses
   agree on version, type, top subtype bit, both DS flags, more-fragments, protected,
   order, the three addresses, the fragment number and the traffic identifier.
   */
  lemma AadEqualExactlyWhen(cs: Codecs, x: bytes, y: bytes)
    requires Lawful(cs) && ParseFrame(cs, x).Some? && |x| >= 2 && QosData(x)
    requires ParseFrame(cs, y).Some? && |y| >= 2 && QosData(y)
    ensures CreateAad(cs, Frame(cs, x)).Some? && CreateAad(cs, Frame(cs, y)).Some?
    ensures CreateAad(cs, Frame(cs, x)) == CreateAad(cs, Frame(cs, y)) <==> SameProtected(Frame(cs, x), Frame(cs, y))
  {
    AadIs(cs, x);
    AadIs(cs, y);
    AadOfEqual(x, y);
    FirstMaskEqual(x[0], y[0]);
    SecondMaskEqual(x[1], y[1]);
    SameTexts(cs, x, y);
    FirstByteFields(cs, x);
    FirstByteFields(cs, y);
    SecondByteFields(cs, x);
    SecondByteFields(cs, y);
    AddressParts(cs, x);
    AddressParts(cs, y);
    TidPart(cs, x);
    TidPart(cs, y);
  }

  lemma SliceOfSlice(s: bytes, lo: nat, hi: nat, a: nat, b: nat)
    requires lo <= hi <= |s| && a <= b <= hi - lo
    ensures s[lo..hi][a..b] == s[lo + a..lo + b]
  {
    var x, y := s[lo..hi][a..b], s[lo + a..lo + b];
    forall i | 0 <= i < b - a
      ensures x[i] == y[i]
    {
      assert s[lo..hi][a + i] == s[lo + a + i];
    }
  }

  lemma SameSlices(x: bytes, y: bytes, lo: nat, hi: nat, a: nat, b: nat)
    requires lo <= a <= b <= hi <= |x| && hi <= |y| && x[lo..hi] == y[lo..hi]
    ensures x[a..b] == y[a..b]
  {
    SliceOfSlice(x, lo, hi, a - lo, b - lo);
    SliceOfSlice(y, lo, hi, a - lo, b - lo);
    assert x[lo..hi][a - lo..b - lo] == y[lo..hi][a - lo..b - lo];
  }

  lemma AddressSlices(x: bytes, y: bytes)
    requires |x| >= 24 && |y| >= 24 && x[4..22] == y[4..22]
    ensures x[4..10] == y[4..10] && x[10..16] == y[10..16] && x[16..22] == y[16..22]
  {
    SameSlices(x, y, 4, 22, 4, 10);
    SameSlices(x, y, 4, 22, 10, 16);
    SameSlices(x, y, 4, 22, 16, 22);
  }

  /**
   Retry, power management, more-data, duration, sequence number and everything after
   the traffic identifier leave the additional data alone.
   */
  lemma AadIgnores(cs: Codecs, x: bytes, y: bytes)
    requires Lawful(cs) && ParseFrame(cs, x).Some? && |x| >= 2 && QosData(x)
    requires ParseFrame(cs, y).Some? && |y| >= 2 && QosData(y)
    requires |x| >= 24 && |y| >= 24 && QosOffset(x) < |x| && QosOffset(y) < |y|
    requires x[0] == y[0] && x[1] % 8 == y[1] % 8 && x[1] / 64 == y[1] / 64
    requires x[4..22] == y[4..22] && x[22] % 16 == y[22] % 16 && x[QosOffset(x)] / 16 == y[QosOffset(y)] / 16
    ensures CreateAad(cs, Frame(cs, x)) == CreateAad(cs, Frame(cs, y))
  {
    AadIs(cs, x);
    AadIs(cs, y);
    AddressSlices(x, y);
    AadOfEqual(x, y);
  }

  // ---- Nonces -----------------------------------------------------------------------------------------------

  lemma JoinedThree(a: bytes, b: bytes, c: bytes)
    ensures Joined([Some(a), Some(b), Some(c)]) == Some(a + b + c)
  {
    var p3 := [Some(c)];
    var p2 := [Some(b)] + p3;
    var p1 := [Some(a)] + p2;
    assert p3[1..] == [] && p2[1..] == p3 && p1[1..] == p2;
    assert p1 == [Some(a), Some(b), Some(c)];
    assert c + [] == c;
    assert Joined(p3) == Some(c);
    assert Joined(p2) == Some(b + c);
    assert a + b + c == a + (b + c);
  }

  /** The nonce: traffic identifier, second address, packet number from its top octet down. */
  lemma NonceIs(cs: Codecs, input: bytes, pn: bytes)
    requires ParseFrame(cs, input).Some? && |input| >= 2 && QosData(input) && |pn| == 6
    ensures |input| >= 24 && QosOffset(input) < |input|
    ensures Nonce(Frame(cs, input), LittleEndian(pn))
         == Some([input[QosOffset(input)] / 16] + input[10..16] + Reverse(pn))
  {
    AddressParts(cs, input);
    TidPart(cs, input);
    PnToBinReverses(pn);
    var tid := input[QosOffset(input)] / 16;
    PackOne(tid);
    JoinedThree([tid], input[10..16], Reverse(pn));
  }

  /** Two nonces coincide exactly when traffic identifier, transmitter and packet number do. */
  lemma NonceEqualExactlyWhen(cs: Codecs, x: bytes, y: bytes, m: bytes, n: bytes)
    requires ParseFrame(cs, x).Some? && |x| >= 2 && QosData(x) && |m| == 6
    requires ParseFrame(cs, y).Some? && |y| >= 2 && QosData(y) && |n| == 6
    ensures Nonce(Frame(cs, x), LittleEndian(m)).Some? && |Nonce(Frame(cs, x), LittleEndian(m)).value| == 13
    ensures Nonce(Frame(cs, x), LittleEndian(m)) == Nonce(Frame(cs, y), LittleEndian(n))
            <==> && Lookup(Frame(cs, x), TID_PATH) == Lookup(Frame(cs, y), TID_PATH)
                 && SameText(Frame(cs, x), Frame(cs, y), Address2) && m == n
  {
    hide ParseFrame, Parse, ParseFields, Lookup, Nonce, SameText, QosOffset, TypeBits, SubtypeBits;
    NonceIs(cs, x, m);
    NonceIs(cs, y, n);
    TidPart(cs, x);
    TidPart(cs, y);
    SameTexts(cs, x, y);
    ReverseInjective(m, n);
    SplitNonce(x[QosOffset(x)] / 16, x[10..16], Reverse(m), y[QosOffset(y)] / 16, y[10..16], Reverse(n));
  }

  lemma SplitNonce(s: byte, a: bytes, p: bytes, t: byte, b: bytes, q: bytes)
    requires |a| == |b| == |p| == |q| == 6
    ensures [s] + a + p == [t] + b + q <==> s == t && a == b && p == q
  {
    var x, y := [s] + a + p, [t] + b + q;
    assert x[0] == s && y[0] == t && x[1..7] == a && y[1..7] == b && x[7..] == p && y[7..] == q;
  }
}
