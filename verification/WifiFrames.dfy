/** What an accepted frame is made of, byte by byte. */
module WifiFrames {
  import opened Common
  import opened Bits
  import opened BitOrder
  import opened MacText
  import opened Construct
  import opened FieldNames
  import opened WifiGrammar
  import opened WifiLaws

  // ---- The frame control field ----------------------------------------------------------------

  /** The little-endian frame control word, as the shift-and-mask parser reads it. */
  function ControlWord(input: bytes): nat
    requires |input| >= 2
  {
    LittleEndian(input[..2])
  }

  function TypeBits(input: bytes): nat
    requires |input| >= 2
  {
    LowBits(ShiftRight(ControlWord(input), 2), 2)
  }

  function SubtypeBits(input: bytes): nat
    requires |input| >= 2
  {
    LowBits(ShiftRight(ControlWord(input), 4), 4)
  }

  function ControlFields(input: bytes): Option<Scope>
    requires |input| >= 2
  {
    ParseBits(FRAME_CONTROL_BITS, Stream(input[..2], true), map[])
  }

  lemma ControlWidth()
    ensures BitWidth(FRAME_CONTROL_BITS) == 16
  {
  }

  lemma LocateType()
    ensures Located(FRAME_CONTROL_BITS, 1, Type, 2, 2, true)
  {
  }

  lemma LocateSubtype()
    ensures Located(FRAME_CONTROL_BITS, 2, Subtype, 4, 4, true)
  {
  }

  /** The field `name` of the frame control word. */
  lemma ControlFieldAt(input: bytes, i: nat, name: Name, o: nat, w: nat, flip: bool)
    requires |input| >= 2 && ControlFields(input).Some? && (flip || w == 1)
    requires Located(FRAME_CONTROL_BITS, i, name, o, w, flip)
    ensures name in ControlFields(input).value
    ensures ControlFields(input).value[name] == Num(LowBits(ShiftRight(ControlWord(input), o), w))
  {
    ControlWidth();
    SwappedBitField(FRAME_CONTROL_BITS, input[..2], i, name, o, w, flip);
  }

  /** Type and subtype agree with the shifts and masks of the other parser. */
  lemma TypeAgreesWithShiftAndMask(input: bytes)
    requires |input| >= 2 && ControlFields(input).Some?
    ensures Typed(ControlFields(input).value, TypeBits(input), SubtypeBits(input))
  {
    LocateType();
    ControlFieldAt(input, 1, Type, 2, 2, true);
    LocateSubtype();
    ControlFieldAt(input, 2, Subtype, 4, 4, true);
  }

  predicate Typed(control: Scope, frameType: int, subtype: int) {
    Type in control && control[Type] == Num(frameType) && Subtype in control && control[Subtype] == Num(subtype)
  }

  // ---- Parsing a frame, field by field ------------------------------------------------------------

  const AFTER_CONTROL: FieldList := FRAME_FIELDS.rest
  const AFTER_ADDRESS1: FieldList := AFTER_CONTROL.rest.rest
  const AFTER_ADDRESSES: FieldList := AFTER_ADDRESS1.rest.rest

  /** The scope after frame control, duration and the first address. */
  function Opening(control: Scope, input: bytes): Scope
    requires |input| >= 10
  {
    map[FrameControl := Rec(control),
        DurationId := Num(LittleEndian(input[2..4])),
        Address1 := Text(FormatMac(input[4..10]))]
  }

  function Addressed(control: Scope, input: bytes): Scope
    requires |input| >= 22
  {
    Opening(control, input)[Address2 := Text(FormatMac(input[10..16]))][Address3 := Text(FormatMac(input[16..22]))]
  }

  /** The scope of a frame that is not a control frame, before its body. */
  function Heading(control: Scope, sequence: Scope, input: bytes): Scope
    requires |input| >= 22
  {
    Addressed(control, input)[ControlData := Nothing][SequenceControl := Rec(sequence)]
  }

  // ---- What depends on the frame type --------------------------------------------------------------

  /** A scope of a frame under parse whose frame control field says this type and subtype. */
  predicate Carries(scope: Scope, frameType: int, subtype: int) {
    FrameControl in scope && scope[FrameControl].Rec? && Typed(scope[FrameControl].fields, frameType, subtype)
  }

  lemma TypeInScope(scope: Scope, frameType: int, subtype: int)
    requires Carries(scope, frameType, subtype)
    ensures Eval([scope], FRAME_TYPE) == Some(frameType)
    ensures Eval([scope], FRAME_SUBTYPE) == Some(subtype)
    ensures Eval([scope], NOT_CONTROL) == Some(Truth(frameType != CONTROL))
    ensures Eval([scope], IS_CONTROL) == Some(Truth(frameType == CONTROL))
  {
    ControlField(scope, Type);
    ControlField(scope, Subtype);
  }

  lemma ParseIf(cs: Codecs, cond: Expr, con: Con, ctx: Context, input: bytes)
    requires Eval(ctx, cond).Some?
    ensures Parse(cs, If(cond, con), ctx, input)
         == if Eval(ctx, cond).value != 0 then Parse(cs, con, ctx, input) else Some(Parsed(Nothing, input, []))
  {
  }

  function SequenceFields(input: bytes): Option<Scope>
    requires |input| >= 24
  {
    ParseBits(SEQUENCE_BITS, Stream(input[22..24], true), map[])
  }

  lemma SequenceWidth()
    ensures BitWidth(SEQUENCE_BITS) == 16
    ensures Located(SEQUENCE_BITS, 0, FragmentNumber, 0, 4, true) && Located(SEQUENCE_BITS, 1, SequenceNumber, 4, 12, true)
  {
  }

  /** So do fragment and sequence number. */
  lemma SequenceAgreesWithShiftAndMask(input: bytes)
    requires |input| >= 24 && SequenceFields(input).Some?
    ensures var word, sequence := LittleEndian(input[22..24]), SequenceFields(input).value;
            && FragmentNumber in sequence && sequence[FragmentNumber] == Num(LowBits(word, 4))
            && SequenceNumber in sequence && sequence[SequenceNumber] == Num(LowBits(ShiftRight(word, 4), 12))
  {
    SequenceWidth();
    SwappedBitField(SEQUENCE_BITS, input[22..24], 0, FragmentNumber, 0, 4, true);
    SwappedBitField(SEQUENCE_BITS, input[22..24], 1, SequenceNumber, 4, 12, true);
  }
}
