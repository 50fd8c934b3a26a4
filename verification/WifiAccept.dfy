/** Which frames are accepted: the frame header parses exactly when its bytes are there. */
module WifiAccept {
  import opened Common
  import opened BitOrder
  import opened Construct
  import opened ConstructNames
  import opened FieldNames
  import opened WifiGrammar
  import opened WifiLaws
  import opened WifiFixed
  import opened WifiFrames

  // ---- The header -----------------------------------------------------------------------------

  const FRAME_NAMES: seq<Name> :=
    [FrameControl, DurationId, Address1, Address2, Address3, ControlData, SequenceControl, FrameBody]

  lemma FrameNamesAre()
    ensures FieldNamesOf(FRAME_FIELDS) == FRAME_NAMES
  {
    var f2 := FRAME_FIELDS.rest.rest;
    var f4 := f2.rest.rest;
    var f6 := f4.rest.rest;
    NamesTwoOn(FRAME_FIELDS);
    NamesTwoOn(f2);
    NamesTwoOn(f4);
    NamesTwoOn(f6);
    assert FieldNamesOf(f6.rest.rest) == [];
  }

  lemma FrameNamesDiffer()
    ensures Distinct(FRAME_NAMES)
  {
    hide Distinct, Apart;
    var a, b := [FrameControl, DurationId, Address1, Address2], [Address3, ControlData, SequenceControl, FrameBody];
    FourDiffer(FrameControl, DurationId, Address1, Address2);
    FourDiffer(Address3, ControlData, SequenceControl, FrameBody);
    FourApart(FrameControl, DurationId, Address1, Address2, b);
    DistinctParts(a, b);
    assert FRAME_NAMES == a + b;
  }

  lemma FrameUnread()
    ensures Unread(map[], FRAME_FIELDS)
  {
    FrameNamesAre();
    FrameNamesDiffer();
  }

  lemma ControlSixteen()
    ensures Sixteen(FRAME_CONTROL_BITS)
  {
    ControlWidth();
    ControlNames();
  }

  lemma SequenceSixteen()
    ensures Sixteen(SEQUENCE_BITS)
  {
    SequenceWidth();
    SequenceNames();
  }

  /** The frame control word always parses. */
  lemma ControlIsThere(input: bytes) returns (control: Scope)
    requires |input| >= 2
    ensures ControlFields(input) == Some(control) && Typed(control, TypeBits(input), SubtypeBits(input))
  {
    ControlWidth();
    ControlNames();
    DistinctBitsParse(FRAME_CONTROL_BITS, Stream(input[..2], true), map[]);
    control := ControlFields(input).value;
    TypeAgreesWithShiftAndMask(input);
  }

  lemma SequenceIsThere(input: bytes) returns (sequence: Scope)
    requires |input| >= 24
    ensures SequenceFields(input) == Some(sequence)
  {
    SequenceWidth();
    SequenceNames();
    DistinctBitsParse(SEQUENCE_BITS, Stream(input[22..24], true), map[]);
    sequence := SequenceFields(input).value;
  }

  /** Frame control, duration and the first address. */
  lemma OpeningParses(cs: Codecs, input: bytes)
    ensures |input| < 10 ==> ParseFields(cs, FRAME_FIELDS, [], map[], input) == None
    ensures |input| >= 10 && ControlFields(input).Some? ==>
              var next := Opening(ControlFields(input).value, input);
              && Unread(next, AFTER_ADDRESS1)
              && ParseFields(cs, FRAME_FIELDS, [], map[], input) == ParseFields(cs, AFTER_ADDRESS1, [], next, input[10..])
  {
    FrameUnread();
    ControlSixteen();
    assert input[0..] == input;
    BitsParse(cs, true, FRAME_CONTROL_BITS, [map[]] + [], input, 0);
    var v0 := BitsOf(FRAME_CONTROL_BITS, true, input, 0);
    FixedAt(cs, FRAME_FIELDS, 2, v0, [], map[], input, 0, 2);
    if |input| >= 2 {
      assert input[0..2] == input[..2];
      var s1: Scope := map[FrameControl := v0];
      LittleParses(cs, [s1] + [], input, 2, 2);
      FixedAt(cs, AFTER_CONTROL, 2, LittleOf(input, 2, 2), [], s1, input, 2, 4);
      if |input| >= 4 {
        var s2 := s1[DurationId := LittleOf(input, 2, 2)];
        MacParses(cs, [s2] + [], input, 4);
        FixedAt(cs, AFTER_CONTROL.rest, 6, MacOf(input, 4), [], s2, input, 4, 10);
        if |input| >= 10 && ControlFields(input).Some? {
          assert s2[Address1 := MacOf(input, 4)] == Opening(ControlFields(input).value, input);
        }
      }
    }
  }

  /** An address of a frame that is not a control frame. */
  lemma AddressField(cs: Codecs, f: FieldList, scope: Scope, input: bytes, o: nat, frameType: int, subtype: int)
    requires f.Field? && f.con == If(NOT_CONTROL, MacAddress) && Unread(scope, f) && o <= |input|
    requires Carries(scope, frameType, subtype)
    ensures var v, next := if frameType != CONTROL then MacOf(input, o) else Nothing, o + Opt(frameType != CONTROL, 6);
            && Unread(scope[f.name := v], f.rest)
            && ParseFields(cs, f, [], scope, input[o..])
               == if next > |input| then None else ParseFields(cs, f.rest, [], scope[f.name := v], input[next..])
  {
    TypeInScope(scope, frameType, subtype);
    assert [scope] + [] == [scope];
    MacParses(cs, [scope], input, o);
    OptionalAt(cs, f, NOT_CONTROL, MacAddress, 6, MacOf(input, o), [], scope, input, o, frameType != CONTROL,
               o + Opt(frameType != CONTROL, 6));
  }

  lemma AddressShape()
    ensures AFTER_ADDRESS1.Field? && AFTER_ADDRESS1.con == If(NOT_CONTROL, MacAddress) && AFTER_ADDRESS1.name == Address2
    ensures AFTER_ADDRESS1.rest.Field? && AFTER_ADDRESS1.rest.con == If(NOT_CONTROL, MacAddress) && AFTER_ADDRESS1.rest.name == Address3
    ensures AFTER_ADDRESS1.rest.rest == AFTER_ADDRESSES
  {
  }

  lemma StillCarries(scope: Scope, name: Name, v: Value, frameType: int, subtype: int)
    requires Carries(scope, frameType, subtype) && name != FrameControl
    ensures Carries(scope[name := v], frameType, subtype)
  {
  }

  /** The two addresses that control frames do not have. */
  lemma AddressesParse(cs: Codecs, control: Scope, input: bytes, frameType: int, subtype: int)
    requires |input| >= 10 && Typed(control, frameType, subtype) && frameType != CONTROL
    requires Unread(Opening(control, input), AFTER_ADDRESS1)
    ensures |input| < 22 ==> ParseFields(cs, AFTER_ADDRESS1, [], Opening(control, input), input[10..]) == None
    ensures |input| >= 22 ==>
              && Unread(Addressed(control, input), AFTER_ADDRESSES)
              && ParseFields(cs, AFTER_ADDRESS1, [], Opening(control, input), input[10..])
                 == ParseFields(cs, AFTER_ADDRESSES, [], Addressed(control, input), input[22..])
  {
    hide Parse, ParseFields, Unread, FieldNamesOf;
    AddressShape();
    var s0 := Opening(control, input);
    AddressField(cs, AFTER_ADDRESS1, s0, input, 10, frameType, subtype);
    if |input| >= 16 {
      StillCarries(s0, Address2, MacOf(input, 10), frameType, subtype);
      AddressField(cs, AFTER_ADDRESS1.rest, s0[Address2 := MacOf(input, 10)], input, 16, frameType, subtype);
    }
  }

  lemma EndingShape()
    ensures AFTER_ADDRESSES.Field? && AFTER_ADDRESSES.name == ControlData && AFTER_ADDRESSES.con == If(IS_CONTROL, GreedyBytes)
    ensures var f := AFTER_ADDRESSES.rest;
            && f.Field? && f.name == SequenceControl && f.con == If(NOT_CONTROL, SEQUENCE_CONTROL)
            && f.rest.Field? && f.rest.name == FrameBody && f.rest.con == If(NOT_CONTROL, Switch(FRAME_TYPE, TYPE_CASES))
            && f.rest.rest == End
  {
  }

  /** Sequence control of a frame that is not a control frame. */
  lemma SequenceParses(cs: Codecs, control: Scope, input: bytes, frameType: int, subtype: int)
    requires |input| >= 22 && Typed(control, frameType, subtype) && frameType != CONTROL
    requires Unread(Addressed(control, input), AFTER_ADDRESSES)
    ensures |input| < 24 ==> ParseFields(cs, AFTER_ADDRESSES, [], Addressed(control, input), input[22..]) == None
    ensures |input| >= 24 && SequenceFields(input).Some? ==>
              var next := Heading(control, SequenceFields(input).value, input);
              && Unread(next, AFTER_ADDRESSES.rest.rest)
              && ParseFields(cs, AFTER_ADDRESSES, [], Addressed(control, input), input[22..])
                 == ParseFields(cs, AFTER_ADDRESSES.rest.rest, [], next, input[24..])
  {
    hide Parse, ParseFields, Unread, FieldNamesOf;
    EndingShape();
    SequenceSixteen();
    var s0 := Addressed(control, input);
    TypeInScope(s0, frameType, subtype);
    assert [s0] + [] == [s0];
    OptionalAt(cs, AFTER_ADDRESSES, IS_CONTROL, GreedyBytes, 0, Nothing, [], s0, input, 22, false, 22);
    var s1 := s0[ControlData := Nothing];
    TypeInScope(s1, frameType, subtype);
    assert [s1] + [] == [s1];
    BitsParse(cs, true, SEQUENCE_BITS, [s1], input, 22);
    OptionalAt(cs, AFTER_ADDRESSES.rest, NOT_CONTROL, SEQUENCE_CONTROL, 2, BitsOf(SEQUENCE_BITS, true, input, 22), [], s1, input, 22,
               true, 24);
  }

  /** A frame with this heading and body. */
  function WithHeading(heading: Scope, body: Option<Parsed>): Option<Parsed> {
    match body
    case None => None
    case Some(p) => Some(Parsed(Rec(heading[FrameBody := p.value]), p.rest, p.texts))
  }

  lemma BodyParses(cs: Codecs, heading: Scope, input: bytes, frameType: int, subtype: int)
    requires Carries(heading, frameType, subtype) && frameType != CONTROL && FrameBody !in heading
    ensures ParseFields(cs, AFTER_ADDRESSES.rest.rest, [], heading, input)
         == match ParseCase(cs, TYPE_CASES, frameType, [heading], input)
            case None => None
            case Some(p) => Some(ParsedFields(heading[FrameBody := p.value], p.rest, p.texts))
  {
    hide ParseCase, Unread, FieldNamesOf;
    EndingShape();
    TypeInScope(heading, frameType, subtype);
    assert [heading] + [] == [heading];
    var body := Switch(FRAME_TYPE, TYPE_CASES);
    LastField(cs, AFTER_ADDRESSES.rest.rest, [], heading, input);
    Chooses(cs, NOT_CONTROL, body, Pass, [heading], input, true);
    Switches(cs, FRAME_TYPE, TYPE_CASES, [heading], input, frameType);
  }

  lemma HeadingHasNoBody(control: Scope, sequence: Scope, input: bytes, frameType: int, subtype: int)
    requires |input| >= 24 && Typed(control, frameType, subtype)
    ensures FrameBody !in Heading(control, sequence, input) && Carries(Heading(control, sequence, input), frameType, subtype)
  {
  }

  /** The heading of a frame that is not a control frame. */
  function HeadingOf(input: bytes): Option<Scope> {
    if |input| < 24 || ControlFields(input).None? || SequenceFields(input).None? then None
    else Some(Heading(ControlFields(input).value, SequenceFields(input).value, input))
  }

  lemma FrameIs(cs: Codecs, input: bytes)
    ensures ParseFrame(cs, input)
         == match ParseFields(cs, FRAME_FIELDS, [], map[], input)
            case None => None
            case Some(q) => Some(Parsed(Rec(q.scope), q.rest, q.texts))
  {
    hide Parse, ParseFields, FRAME_FIELDS;
    StructIs(cs, FRAME_FIELDS, [], input);
  }

  /** A frame that is not a control frame is accepted exactly when it has 24 bytes and its body parses. */
  lemma FrameFollows(cs: Codecs, input: bytes) returns (heading: Scope)
    requires |input| >= 2 && TypeBits(input) != CONTROL
    ensures |input| < 24 ==> ParseFrame(cs, input) == None
    ensures |input| >= 24 ==> && HeadingOf(input) == Some(heading) && Carries(heading, TypeBits(input), SubtypeBits(input))
                              && ParseFrame(cs, input)
                                 == WithHeading(heading, ParseCase(cs, TYPE_CASES, TypeBits(input), [heading], input[24..]))
  {
    hide ParseFrame, Parse, ParseCase, ParseFields, Unread, FieldNamesOf, TypeBits, SubtypeBits, Heading, Addressed, Opening,
         Typed, Carries;
    FrameIs(cs, input);
    var t, u := TypeBits(input), SubtypeBits(input);
    var control := ControlIsThere(input);
    heading := map[];
    OpeningParses(cs, input);
    if |input| >= 10 {
      AddressesParse(cs, control, input, t, u);
      if |input| >= 22 {
        SequenceParses(cs, control, input, t, u);
        if |input| >= 24 {
          var sequence := SequenceIsThere(input);
          heading := Heading(control, sequence, input);
          HeadingHasNoBody(control, sequence, input, t, u);
          BodyParses(cs, heading, input[24..], t, u);
        }
      }
    }
  }

  /** A frame that is not a control frame is its 24 header bytes and its body. */
  lemma FrameBodyOf(cs: Codecs, input: bytes) returns (control: Scope, sequence: Scope, body: Parsed)
    requires ParseFrame(cs, input).Some? && |input| >= 2 && TypeBits(input) != CONTROL
    ensures |input| >= 24 && ControlFields(input) == Some(control) && SequenceFields(input) == Some(sequence)
    ensures Typed(control, TypeBits(input), SubtypeBits(input))
    ensures ParseCase(cs, TYPE_CASES, TypeBits(input), [Heading(control, sequence, input)], input[24..]) == Some(body)
    ensures ParseFrame(cs, input)
         == Some(Parsed(Rec(Heading(control, sequence, input)[FrameBody := body.value]), body.rest, body.texts))
  {
    hide ParseFrame, ParseCase, TypeBits, SubtypeBits, ControlFields, SequenceFields, Heading, Carries, Typed;
    var heading := FrameFollows(cs, input);
    control := ControlIsThere(input);
    sequence := SequenceIsThere(input);
    body := ParseCase(cs, TYPE_CASES, TypeBits(input), [heading], input[24..]).value;
  }

  // ---- Control frames ------------------------------------------------------------------------------------

  lemma ControlDataParses(cs: Codecs, scope: Scope, input: bytes, subtype: int)
    requires Carries(scope, CONTROL, subtype) && Unread(scope, AFTER_ADDRESSES)
    ensures var next := scope[ControlData := Data(input)];
            && Unread(next, AFTER_ADDRESSES.rest)
            && ParseFields(cs, AFTER_ADDRESSES, [], scope, input) == ParseFields(cs, AFTER_ADDRESSES.rest, [], next, [])
  {
    hide Unread, FieldNamesOf;
    EndingShape();
    TypeInScope(scope, CONTROL, subtype);
    assert [scope] + [] == [scope];
    Chooses(cs, IS_CONTROL, GreedyBytes, Pass, [scope], input, true);
    Onwards(cs, AFTER_ADDRESSES, [], scope, input, Parsed(Data(input), [], []));
  }

  lemma ControlEnds(cs: Codecs, scope: Scope, subtype: int)
    requires Carries(scope, CONTROL, subtype) && Unread(scope, AFTER_ADDRESSES.rest)
    ensures ParseFields(cs, AFTER_ADDRESSES.rest, [], scope, [])
         == Some(ParsedFields(scope[SequenceControl := Nothing][FrameBody := Nothing], [], []))
  {
    hide Parse, ParseFields, Unread, FieldNamesOf;
    EndingShape();
    TypeInScope(scope, CONTROL, subtype);
    assert [scope] + [] == [scope];
    var f, none: bytes := AFTER_ADDRESSES.rest, [];
    assert none[0..] == none;
    OptionalAt(cs, f, NOT_CONTROL, SEQUENCE_CONTROL, 2, Nothing, [], scope, none, 0, false, 0);
    var s1 := scope[SequenceControl := Nothing];
    StillCarries(scope, SequenceControl, Nothing, CONTROL, subtype);
    TypeInScope(s1, CONTROL, subtype);
    assert [s1] + [] == [s1];
    OptionalAt(cs, f.rest, NOT_CONTROL, Switch(FRAME_TYPE, TYPE_CASES), 0, Nothing, [], s1, none, 0, false, 0);
    NoFieldsLeft(cs, s1[FrameBody := Nothing]);
  }

  lemma NoFieldsLeft(cs: Codecs, scope: Scope)
    ensures ParseFields(cs, End, [], scope, []) == Some(ParsedFields(scope, [], []))
  {
  }

  lemma OpeningCarries(control: Scope, input: bytes, frameType: int, subtype: int)
    requires |input| >= 10 && Typed(control, frameType, subtype)
    ensures Carries(Opening(control, input), frameType, subtype)
  {
  }

  /** A control frame has neither of the two addresses. */
  lemma NoAddresses(cs: Codecs, scope: Scope, input: bytes, subtype: int) returns (next: Scope)
    requires |input| >= 10 && Carries(scope, CONTROL, subtype) && Unread(scope, AFTER_ADDRESS1)
    ensures Carries(next, CONTROL, subtype) && Unread(next, AFTER_ADDRESSES)
    ensures next == scope[Address2 := Nothing][Address3 := Nothing]
    ensures ParseFields(cs, AFTER_ADDRESS1, [], scope, input[10..]) == ParseFields(cs, AFTER_ADDRESSES, [], next, input[10..])
  {
    hide Parse, ParseFields, Unread, FieldNamesOf, Carries;
    AddressShape();
    AddressField(cs, AFTER_ADDRESS1, scope, input, 10, CONTROL, subtype);
    var s1 := scope[Address2 := Nothing];
    StillCarries(scope, Address2, Nothing, CONTROL, subtype);
    AddressField(cs, AFTER_ADDRESS1.rest, s1, input, 10, CONTROL, subtype);
    next := s1[Address3 := Nothing];
    StillCarries(s1, Address3, Nothing, CONTROL, subtype);
  }

  lemma ControlRest(cs: Codecs, scope: Scope, input: bytes, subtype: int) returns (fields: Scope)
    requires Carries(scope, CONTROL, subtype) && Unread(scope, AFTER_ADDRESSES)
    ensures fields == scope[ControlData := Data(input)][SequenceControl := Nothing][FrameBody := Nothing]
    ensures ParseFields(cs, AFTER_ADDRESSES, [], scope, input) == Some(ParsedFields(fields, [], []))
  {
    hide Parse, ParseFields, Unread, FieldNamesOf, Carries;
    ControlDataParses(cs, scope, input, subtype);
    var s1 := scope[ControlData := Data(input)];
    StillCarries(scope, ControlData, Data(input), CONTROL, subtype);
    ControlEnds(cs, s1, subtype);
    fields := s1[SequenceControl := Nothing][FrameBody := Nothing];
  }

  /** The record of a control frame: the bytes after the first address are opaque. */
  function ControlRecord(control: Scope, input: bytes): Scope
    requires |input| >= 10
  {
    Opening(control, input)[Address2 := Nothing][Address3 := Nothing][ControlData := Data(input[10..])]
      [SequenceControl := Nothing][FrameBody := Nothing]
  }

  /** A control frame is accepted exactly when it has 10 bytes, to the last byte, and it has no second address and no body. */
  lemma ControlFrameFollows(cs: Codecs, input: bytes) returns (fields: Scope)
    requires |input| >= 2 && TypeBits(input) == CONTROL
    ensures |input| < 10 ==> ParseFrame(cs, input) == None
    ensures |input| >= 10 ==> && ControlFields(input).Some? && fields == ControlRecord(ControlFields(input).value, input)
                              && FrameBody in fields && fields[FrameBody] == Nothing
                              && Address2 in fields && fields[Address2] == Nothing
                              && ParseFrame(cs, input) == Some(Parsed(Rec(fields), [], []))
  {
    hide ParseFrame, Parse, ParseFields, Unread, FieldNamesOf, TypeBits, SubtypeBits, Opening, Carries, Typed;
    var control := ControlIsThere(input);
    fields := map[];
    FrameIs(cs, input);
    OpeningParses(cs, input);
    if |input| >= 10 {
      OpeningCarries(control, input, CONTROL, SubtypeBits(input));
      var next := NoAddresses(cs, Opening(control, input), input, SubtypeBits(input));
      fields := ControlRest(cs, next, input[10..], SubtypeBits(input));
    }
  }

  /** A control frame takes all its input. */
  lemma ControlFrameTakesAll(cs: Codecs, input: bytes)
    requires ParseFrame(cs, input).Some? && |input| >= 2 && TypeBits(input) == CONTROL
    ensures ParseFrame(cs, input).value.rest == []
  {
    hide ParseFrame, TypeBits;
    var fields := ControlFrameFollows(cs, input);
  }
}
