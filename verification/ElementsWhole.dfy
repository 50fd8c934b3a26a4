/** Whole frames: where the privacy bit is, and for which frames the security list raises. */
module ElementsWhole {
  import opened Common
  import opened BitOrder
  import opened Construct
  import opened ConstructLaws
  import opened ConstructNames
  import opened FieldNames
  import opened WifiGrammar
  import opened WifiLaws
  import opened WifiBits
  import opened WifiFixed
  import opened WifiFrames
  import opened WifiTails
  import opened WifiControl
  import opened WifiAccept
  import opened WifiBodies
  import opened CcmpFrames
  import opened Elements
  import opened ElementsLaws
  import opened ElementsFrames

  // ---- Capability information at an offset --------------------------------------------------------

  /** Fixed fields of `o` bytes, then capability information. */
  ghost predicate InfoAt(fields: FieldList, o: nat) {
    exists more :: FixedThen(fields, o, Field(CapabilityInfo, CAPABILITY_INFO, more))
  }

  lemma InfoSixteen()
    ensures Sixteen(CAPABILITY_BITS)
  {
    CapabilityInfoNames();
  }

  function InfoOfBytes(at: bytes, o: nat): Value {
    InfoSixteen();
    BitsOf(CAPABILITY_BITS, true, at, o)
  }

  lemma InfoParses(cs: Codecs, ctx: Context, at: bytes, o: nat)
    requires o <= |at|
    ensures ParsesTo(cs, CAPABILITY_INFO, ctx, at, o, 2, InfoOfBytes(at, o))
  {
    hide Parse;
    InfoSixteen();
    BitsParse(cs, true, CAPABILITY_BITS, ctx, at, o);
  }

  /** The parsed capability information is the two bytes at its offset. */
  lemma InfoValue(cs: Codecs, fields: FieldList, ctx: Context, at: bytes, off: nat)
    requires InfoAt(fields, off) && Unread(map[], fields) && ParseFields(cs, fields, ctx, map[], at).Some?
    ensures off + 2 <= |at|
    ensures var q := ParseFields(cs, fields, ctx, map[], at).value.scope;
            CapabilityInfo in q && q[CapabilityInfo] == InfoOfBytes(at, off)
  {
    hide Parse, ParseFields, Unread, FieldNamesOf, FixedThen, InfoOfBytes;
    var more :| FixedThen(fields, off, Field(CapabilityInfo, CAPABILITY_INFO, more));
    assert at[0..] == at;
    var scope := FixedThenParses(cs, fields, off, Field(CapabilityInfo, CAPABILITY_INFO, more), ctx, map[], at, 0);
    var p, q := FieldStep(cs, CapabilityInfo, CAPABILITY_INFO, more, ctx, scope, at[off..]);
    InfoParses(cs, [scope] + ctx, at, off);
    FieldsKeep(cs, more, ctx, scope[CapabilityInfo := p.value], p.rest);
  }

  /** Privacy is bit 4 of the first byte of capability information. */
  lemma PrivacyIsBit(at: bytes, o: nat)
    requires o + 2 <= |at|
    ensures var v := InfoOfBytes(at, o);
            v.Rec? && Privacy in v.fields && v.fields[Privacy] == Num(at[o] / 16 % 2)
  {
    var data := at[o..o + 2];
    InfoSixteen();
    DistinctBitsParse(CAPABILITY_BITS, Stream(data, true), map[]);
    CapabilityOfBytes(data);
  }

  // ---- The privacy bit of a body --------------------------------------------------------------------

  /** What a body says about privacy. */
  function PrivateBody(body: Value): Option<bool> {
    Private(map[FrameBody := body])
  }

  lemma PrivateIs(heading: Scope, body: Value)
    ensures Private(heading[FrameBody := body]) == PrivateBody(body)
  {
  }

  lemma InfoBodyPrivacy(cs: Codecs, g: Con, ctx: Context, at: bytes, off: nat)
    requires g.Struct? && InfoAt(g.fields, off) && Distinct(FieldNamesOf(g.fields)) && Parse(cs, g, ctx, at).Some?
    ensures off + 2 <= |at| && PrivateBody(Parse(cs, g, ctx, at).value.value) == Some(at[off] / 16 % 2 == 1)
  {
    hide Parse, ParseFields, InfoAt, InfoOfBytes, FieldNamesOf, Distinct;
    StructIs(cs, g.fields, ctx, at);
    UnreadNames(g.fields);
    InfoValue(cs, g.fields, ctx, at, off);
    PrivacyIsBit(at, off);
    var q := ParseFields(cs, g.fields, ctx, map[], at).value.scope;
    InfoSays(q, InfoOfBytes(at, off), at[off] / 16 % 2);
  }

  lemma InfoSays(q: Scope, v: Value, bit: int)
    requires CapabilityInfo in q && q[CapabilityInfo] == v && v.Rec? && Privacy in v.fields && v.fields[Privacy] == Num(bit)
    requires bit == 0 || bit == 1
    ensures PrivateBody(Rec(q)) == Some(bit == 1)
  {
    assert q != map[];
  }

  /** A body whose struct has no capability information. */
  predicate IsPlain(g: Con) {
    g.Struct? && g.fields.Field? && !HasField(g.fields, CapabilityInfo)
  }

  lemma PlainBodyPrivacy(cs: Codecs, g: Con, ctx: Context, at: bytes)
    requires IsPlain(g) && Parse(cs, g, ctx, at).Some?
    ensures PrivateBody(Parse(cs, g, ctx, at).value.value) == None
  {
    hide Parse;
    StructIs(cs, g.fields, ctx, at);
    ParseAddsOnlyItsFields(cs, g.fields, ctx, map[], at, CapabilityInfo);
    FirstFieldStays(cs, g.fields, ctx, at);
  }

  lemma FirstFieldStays(cs: Codecs, fields: FieldList, ctx: Context, at: bytes)
    requires fields.Field? && ParseFields(cs, fields, ctx, map[], at).Some?
    ensures fields.name in ParseFields(cs, fields, ctx, map[], at).value.scope
  {
    var p, q := FieldStep(cs, fields.name, fields.con, fields.rest, ctx, map[], at);
    FieldsKeep(cs, fields.rest, ctx, map[fields.name := p.value], p.rest);
  }

  lemma GreedyBodyPrivacy(cs: Codecs, ctx: Context, at: bytes)
    ensures PrivateBody(Parse(cs, GreedyBytes, ctx, at).value.value) == if at == [] then Some(false) else None
  {
  }

  // ---- The bodies of the grammar ------------------------------------------------------------------------

  const WITH_INFO: set<int> := {0, 1, 2, 3, 5, 8}

  /** Where a management frame's capability information is, after the 24 header bytes. */
  function InfoOffset(subtype: int): nat {
    if subtype == 5 || subtype == 8 then 10 else 0
  }

  lemma InfoFirst(fields: FieldList)
    requires fields.Field? && fields.name == CapabilityInfo && fields.con == CAPABILITY_INFO
    ensures InfoAt(fields, 0)
  {
    assert FixedThen(fields, 0, Field(CapabilityInfo, CAPABILITY_INFO, fields.rest));
  }

  /** A time stamp and an interval first. */
  lemma InfoLater(fields: FieldList)
    requires fields.Field? && fields.rest.Field? && fields.con == IntLittle(8) && fields.rest.con == IntLittle(2)
    requires fields.rest.rest.Field? && fields.rest.rest.name == CapabilityInfo && fields.rest.rest.con == CAPABILITY_INFO
    ensures InfoAt(fields, 10)
  {
    hide IsFixed, FixedWidth, FixedThen;
    NumbersAreFixed(8);
    NumbersAreFixed(2);
    TwoFixed(fields);
    assert FixedThen(fields, 10, Field(CapabilityInfo, CAPABILITY_INFO, fields.rest.rest.rest));
  }

  lemma InfoBodies(subtype: nat)
    requires subtype in WITH_INFO
    ensures var g := CaseOf(MANAGEMENT_CASES, subtype);
            g.Struct? && InfoAt(g.fields, InfoOffset(subtype)) && Distinct(FieldNamesOf(g.fields))
  {
    hide InfoAt, CaseOf, FixedThen, AlwaysParses, FieldNamesOf, Distinct;
    if subtype == 8 {
      HighManagementCases(subtype);
      Beacon();
      InfoLater(BEACON.fields);
    } else {
      LowManagementCases(subtype);
      ElementBodies(subtype);
      var f := CaseOf(MANAGEMENT_CASES, subtype).fields;
      if subtype == 5 {
        InfoLater(f);
      } else {
        InfoFirst(f);
      }
    }
  }

  lemma PlainManagement()
    ensures IsPlain(PROBE_REQUEST) && IsPlain(FAREWELL) && IsPlain(ACTION)
  {
    assert !HasField(FAREWELL.fields.rest, CapabilityInfo);
  }

  lemma PlainAuthentication()
    ensures IsPlain(AUTHENTICATION)
  {
    FourFields(AUTHENTICATION.fields, CapabilityInfo);
  }

  lemma PlainBodies(subtype: nat)
    requires subtype < 16 && subtype !in WITH_INFO && subtype !in RESERVED
    ensures IsPlain(CaseOf(MANAGEMENT_CASES, subtype))
  {
    hide IsPlain, CaseOf;
    PlainManagement();
    PlainAuthentication();
    if subtype < 6 {
      LowManagementCases(subtype);
    } else {
      HighManagementCases(subtype);
    }
  }

  lemma PlainData()
    ensures IsPlain(DATA_WITH_BODY) && IsPlain(DATA_WITHOUT_BODY)
  {
  }

  // ---- Whole frames ----------------------------------------------------------------------------------------

  /** Management and data frames of reserved subtypes and frames of reserved types have an opaque body. */
  predicate IsOpaque(frameType: int, subtype: int) {
    if frameType == MANAGEMENT then subtype in RESERVED else if frameType == DATA then subtype == 13 else frameType != CONTROL
  }

  /** What an accepted frame says about privacy, off its bytes. */
  function PrivacyOf(input: bytes): Option<bool>
    requires |input| >= 2
  {
    var t, u := TypeBits(input), SubtypeBits(input);
    if t == CONTROL then Some(false)
    else if t == MANAGEMENT && u in WITH_INFO then
      var o := 24 + InfoOffset(u);
      if o < |input| then Some(input[o] / 16 % 2 == 1) else None
    else if IsOpaque(t, u) && |input| <= 24 then Some(false)
    else None
  }

  lemma ManagementPrivacy(cs: Codecs, heading: Scope, at: bytes, subtype: nat)
    requires Carries(heading, MANAGEMENT, subtype) && subtype < 16
    requires ParseCase(cs, TYPE_CASES, MANAGEMENT, [heading], at).Some?
    ensures subtype in WITH_INFO ==> InfoOffset(subtype) < |at|
    ensures PrivateBody(ParseCase(cs, TYPE_CASES, MANAGEMENT, [heading], at).value.value)
         == if subtype in WITH_INFO then Some(at[InfoOffset(subtype)] / 16 % 2 == 1)
            else if subtype in RESERVED && at == [] then Some(false)
            else None
  {
    hide Parse, ParseCase, ParseFields, Carries, PrivateBody, InfoAt, IsPlain, CaseOf;
    ManagementBody(cs, heading, at, subtype);
    var g := CaseOf(MANAGEMENT_CASES, subtype);
    if subtype in WITH_INFO {
      InfoBodies(subtype);
      InfoBodyPrivacy(cs, g, [heading], at, InfoOffset(subtype));
    } else if subtype in RESERVED {
      HighManagementCases(subtype);
      GreedyBodyPrivacy(cs, [heading], at);
    } else {
      PlainBodies(subtype);
      PlainBodyPrivacy(cs, g, [heading], at);
    }
  }

  lemma DataPrivacy(cs: Codecs, heading: Scope, at: bytes, subtype: nat)
    requires Carries(heading, DATA, subtype) && subtype < 16
    requires ParseCase(cs, TYPE_CASES, DATA, [heading], at).Some?
    ensures PrivateBody(ParseCase(cs, TYPE_CASES, DATA, [heading], at).value.value)
         == if subtype == 13 && at == [] then Some(false) else None
  {
    hide Parse, ParseFields, Carries, PrivateBody, IsPlain, CaseOf;
    BodyCase(cs, heading, at, DATA, subtype);
    DataCase(subtype);
    PlainData();
    if subtype == 13 {
      GreedyBodyPrivacy(cs, [heading], at);
    } else {
      PlainBodyPrivacy(cs, CaseOf(DATA_CASES, subtype), [heading], at);
    }
  }

  lemma OtherPrivacy(cs: Codecs, heading: Scope, at: bytes, frameType: nat, subtype: nat)
    requires Carries(heading, frameType, subtype) && frameType > DATA
    requires ParseCase(cs, TYPE_CASES, frameType, [heading], at).Some?
    ensures PrivateBody(ParseCase(cs, TYPE_CASES, frameType, [heading], at).value.value)
         == if at == [] then Some(false) else None
  {
    hide Parse, ParseCase, ParseFields, Carries, PrivateBody;
    BodyCase(cs, heading, at, frameType, subtype);
    GreedyBodyPrivacy(cs, [heading], at);
  }

  lemma BodyPrivacy(cs: Codecs, heading: Scope, input: bytes)
    requires |input| >= 24 && TypeBits(input) != CONTROL && Carries(heading, TypeBits(input), SubtypeBits(input))
    requires ParseCase(cs, TYPE_CASES, TypeBits(input), [heading], input[24..]).Some?
    ensures PrivateBody(ParseCase(cs, TYPE_CASES, TypeBits(input), [heading], input[24..]).value.value) == PrivacyOf(input)
  {
    hide ParseCase, TypeBits, SubtypeBits, Carries, PrivateBody;
    SubtypeRange(input);
    var t, u, at := TypeBits(input), SubtypeBits(input), input[24..];
    if t == MANAGEMENT {
      ManagementPrivacy(cs, heading, at, u);
    } else if t == DATA {
      DataPrivacy(cs, heading, at, u);
    } else {
      OtherPrivacy(cs, heading, at, t, u);
    }
  }

  /**
   The privacy of an accepted frame: bit 4 of its capability information where it has some, none
   for control frames and empty opaque bodies, and an exception for every other frame.
   */
  lemma FramePrivacy(cs: Codecs, input: bytes)
    requires |input| >= 2 && ParseFrame(cs, input).Some? && ParseFrame(cs, input).value.value.Rec?
    ensures Private(ParseFrame(cs, input).value.value.fields) == PrivacyOf(input)
  {
    hide ParseFrame, ParseCase, TypeBits, SubtypeBits, Carries, HeadingOf, Private;
    if TypeBits(input) == CONTROL {
      var fields := ControlFrameFollows(cs, input);
      NoBodyNoPrivacy(fields);
    } else {
      var heading := FrameFollows(cs, input);
      BodyPrivacy(cs, heading, input);
      PrivateIs(heading, ParseCase(cs, TYPE_CASES, TypeBits(input), [heading], input[24..]).value.value);
    }
  }

  lemma NoBodyNoPrivacy(fields: Scope)
    requires FrameBody in fields && fields[FrameBody] == Nothing
    ensures Private(fields) == Some(false) && ElementsOf(fields) == []
  {
  }

  /**
   Frames whose privacy raises: probe requests, farewells, authentication and action frames,
   data frames with a header, and opaque bodies that are not empty.
   */
  predicate PrivacyRaises(input: bytes)
    requires |input| >= 2
  {
    var t, u := TypeBits(input), SubtypeBits(input);
    || (t == MANAGEMENT && u in {4, 10, 11, 12, 13, 14})
    || (t == DATA && u != 13)
    || (IsOpaque(t, u) && |input| > 24)
  }

  lemma PrivacyRaisesExactlyWhen(cs: Codecs, input: bytes)
    requires |input| >= 2 && ParseFrame(cs, input).Some? && ParseFrame(cs, input).value.value.Rec?
    ensures Private(ParseFrame(cs, input).value.value.fields) == None <==> PrivacyRaises(input)
  {
    hide ParseFrame, ParseCase, Carries, HeadingOf, Private, TypeBits, SubtypeBits;
    SubtypeRange(input);
    FramePrivacy(cs, input);
    if TypeBits(input) == MANAGEMENT && SubtypeBits(input) in WITH_INFO {
      InfoIsThere(cs, input);
    }
  }

  lemma InfoIsThere(cs: Codecs, input: bytes)
    requires |input| >= 2 && ParseFrame(cs, input).Some? && TypeBits(input) == MANAGEMENT && SubtypeBits(input) in WITH_INFO
    ensures 24 + InfoOffset(SubtypeBits(input)) < |input|
  {
    hide ParseFrame, ParseCase, TypeBits, SubtypeBits, Carries, HeadingOf, InfoOffset;
    var heading := FrameFollows(cs, input);
    ManagementPrivacy(cs, heading, input[24..], SubtypeBits(input));
  }

  // ---- The elements of a frame -----------------------------------------------------------------------------

  /** Every field for the elements is a list of elements. */
  predicate ListsElements(fields: FieldList) {
    fields.Field? ==> (fields.name == InformationElements ==> fields.con == ELEMENTS) && ListsElements(fields.rest)
  }

  /** No element of the list raises, but for an empty one. */
  ghost predicate RaiseWhenEmpty(v: Value) {
    v.Listing? ==> forall e :: e in v.items ==> RaisesWhenEmpty(e)
  }

  lemma ElementsRaiseWhenEmpty(cs: Codecs, ctx: Context, at: bytes)
    requires Lawful(cs) && Parse(cs, ELEMENTS, ctx, at).Some?
    ensures RaiseWhenEmpty(Parse(cs, ELEMENTS, ctx, at).value.value)
  {
    hide Parse, RaisesWhenEmpty;
    var v := Parse(cs, ELEMENTS, ctx, at).value.value;
    if v.Listing? {
      forall e | e in v.items
        ensures RaisesWhenEmpty(e)
      {
        var i: nat :| i < |v.items| && v.items[i] == e;
        ParsedElementsRaiseOnlyWhenEmpty(cs, ctx, at, i);
      }
    }
  }

  lemma {:induction false} FieldsRaiseWhenEmpty(cs: Codecs, fields: FieldList, ctx: Context, scope: Scope, at: bytes)
    requires Lawful(cs) && ListsElements(fields) && ParseFields(cs, fields, ctx, scope, at).Some?
    requires InformationElements in scope ==> RaiseWhenEmpty(scope[InformationElements])
    ensures var q := ParseFields(cs, fields, ctx, scope, at).value.scope;
            InformationElements in q ==> RaiseWhenEmpty(q[InformationElements])
    decreases fields
  {
    hide Parse, RaiseWhenEmpty;
    if fields.Field? {
      var p, q := FieldStep(cs, fields.name, fields.con, fields.rest, ctx, scope, at);
      if fields.name == InformationElements {
        ElementsRaiseWhenEmpty(cs, [scope] + ctx, at);
      }
      FieldsRaiseWhenEmpty(cs, fields.rest, ctx, scope[fields.name := p.value], p.rest);
    }
  }

  predicate IsBody(g: Con) {
    g.GreedyBytes? || (g.Struct? && ListsElements(g.fields))
  }

  predicate AreBodies(cases: Cases) {
    IsBody(cases.con) && (cases.Case? ==> AreBodies(cases.rest))
  }

  lemma {:induction false} CaseIsBody(cases: Cases, key: int)
    requires AreBodies(cases)
    ensures IsBody(CaseOf(cases, key))
    decreases cases
  {
    if cases.Case? && cases.key != key {
      CaseIsBody(cases.rest, key);
    }
  }

  lemma TwoBodies(cases: Cases)
    requires cases.Case? && cases.rest.Case? && IsBody(cases.con) && IsBody(cases.rest.con) && AreBodies(cases.rest.rest)
    ensures AreBodies(cases)
  {
    assert AreBodies(cases.rest);
  }

  predicate NamesElements(f: FieldList) {
    f.Field? && (f.name == InformationElements ==> f.con == ELEMENTS)
  }

  lemma TwoNamed(f: FieldList)
    requires NamesElements(f) && NamesElements(f.rest) && ListsElements(f.rest.rest)
    ensures ListsElements(f)
  {
    assert ListsElements(f.rest);
  }

  lemma NothingNamed()
    ensures ListsElements(End)
  {
  }

  lemma ResponsesAreBodies()
    ensures IsBody(ASSOCIATION_RESPONSE) && IsBody(REASSOCIATION_REQUEST)
  {
    hide ListsElements;
    NothingNamed();
    TwoNamed(ASSOCIATION_RESPONSE.fields.rest.rest);
    TwoNamed(ASSOCIATION_RESPONSE.fields);
    TwoNamed(REASSOCIATION_REQUEST.fields.rest.rest);
    TwoNamed(REASSOCIATION_REQUEST.fields);
  }

  lemma ProbesAreBodies()
    ensures IsBody(PROBE_RESPONSE) && IsBody(AUTHENTICATION)
  {
    hide ListsElements;
    NothingNamed();
    TwoNamed(PROBE_RESPONSE.fields.rest.rest);
    TwoNamed(PROBE_RESPONSE.fields);
    TwoNamed(AUTHENTICATION.fields.rest.rest);
    TwoNamed(AUTHENTICATION.fields);
  }

  lemma BeaconsAreBodies()
    ensures IsBody(BEACON)
  {
    hide ListsElements;
    OneNamed(BEACON.fields.rest.rest.rest.rest);
    TwoNamed(BEACON.fields.rest.rest);
    TwoNamed(BEACON.fields);
  }

  lemma OneNamed(f: FieldList)
    requires NamesElements(f) && f.rest == End
    ensures ListsElements(f)
  {
  }

  lemma ShortBodies()
    ensures IsBody(ASSOCIATION_REQUEST) && IsBody(PROBE_REQUEST) && IsBody(FAREWELL) && IsBody(ACTION)
  {
    hide ListsElements;
    NothingNamed();
    OneNamed(ASSOCIATION_REQUEST.fields.rest.rest);
    TwoNamed(ASSOCIATION_REQUEST.fields);
    OneNamed(PROBE_REQUEST.fields);
    OneNamed(FAREWELL.fields.rest.rest);
    TwoNamed(FAREWELL.fields);
    TwoNamed(ACTION.fields);
  }

  lemma DataBodiesAre()
    ensures IsBody(DATA_WITH_BODY) && IsBody(DATA_WITHOUT_BODY)
  {
    hide ListsElements;
    NothingNamed();
    TwoNamed(DATA_WITH_BODY.fields);
    OneNamed(DATA_WITHOUT_BODY.fields);
  }

  lemma ManagementBodies()
    ensures AreBodies(MANAGEMENT_CASES)
  {
    hide IsBody;
    ResponsesAreBodies();
    ProbesAreBodies();
    BeaconsAreBodies();
    ShortBodies();
    OpaqueBody();
    var c2 := MANAGEMENT_CASES.rest.rest;
    var c4 := c2.rest.rest;
    var c6 := c4.rest.rest;
    var c8 := c6.rest.rest;
    var c10 := c8.rest.rest;
    TwoBodies(c10);
    TwoBodies(c8);
    TwoBodies(c6);
    TwoBodies(c4);
    TwoBodies(c2);
    TwoBodies(MANAGEMENT_CASES);
  }

  lemma OpaqueBody()
    ensures IsBody(GreedyBytes)
  {
  }

  lemma DataBodyIsBody(subtype: nat)
    requires subtype < 16
    ensures IsBody(CaseOf(DATA_CASES, subtype))
  {
    hide IsBody, CaseOf;
    DataCase(subtype);
    DataBodiesAre();
    OpaqueBody();
  }

  /** The elements of a body. */
  function ElementsIn(body: Value): seq<Value> {
    ElementsOf(map[FrameBody := body])
  }

  lemma ElementsAreIn(heading: Scope, body: Value)
    ensures ElementsOf(heading[FrameBody := body]) == ElementsIn(body)
  {
  }

  lemma BodyRaisesWhenEmpty(cs: Codecs, g: Con, ctx: Context, at: bytes)
    requires Lawful(cs) && IsBody(g) && Parse(cs, g, ctx, at).Some?
    ensures RaiseWhenEmpty(Listing(ElementsIn(Parse(cs, g, ctx, at).value.value)))
  {
    hide RaisesWhenEmpty;
    if g.Struct? {
      StructIs(cs, g.fields, ctx, at);
      FieldsRaiseWhenEmpty(cs, g.fields, ctx, map[], at);
    }
  }

  lemma FrameBodyRaisesWhenEmpty(cs: Codecs, heading: Scope, at: bytes, frameType: nat, subtype: nat)
    requires Lawful(cs) && Carries(heading, frameType, subtype) && subtype < 16 && frameType != CONTROL
    requires ParseCase(cs, TYPE_CASES, frameType, [heading], at).Some?
    ensures RaiseWhenEmpty(Listing(ElementsIn(ParseCase(cs, TYPE_CASES, frameType, [heading], at).value.value)))
  {
    hide Parse, ParseCase, ParseFields, Carries, RaiseWhenEmpty, ElementsIn, IsBody, CaseOf;
    BodyCase(cs, heading, at, frameType, subtype);
    if frameType == MANAGEMENT {
      ManagementBodies();
      CaseIsBody(MANAGEMENT_CASES, subtype);
      BodyRaisesWhenEmpty(cs, CaseOf(MANAGEMENT_CASES, subtype), [heading], at);
    } else if frameType == DATA {
      DataBodyIsBody(subtype);
      BodyRaisesWhenEmpty(cs, CaseOf(DATA_CASES, subtype), [heading], at);
    } else {
      OpaqueBody();
      BodyRaisesWhenEmpty(cs, GreedyBytes, [heading], at);
    }
  }

  lemma FrameElementsRaiseWhenEmpty(cs: Codecs, input: bytes)
    requires Lawful(cs) && |input| >= 2 && ParseFrame(cs, input).Some? && ParseFrame(cs, input).value.value.Rec?
    ensures RaiseWhenEmpty(Listing(ElementsOf(ParseFrame(cs, input).value.value.fields)))
  {
    hide ParseFrame, ParseCase, TypeBits, SubtypeBits, Carries, HeadingOf, ElementsOf, ElementsIn;
    if TypeBits(input) == CONTROL {
      var fields := ControlFrameFollows(cs, input);
      NoBodyNoPrivacy(fields);
    } else {
      SubtypeRange(input);
      var heading := FrameFollows(cs, input);
      var body := ParseCase(cs, TYPE_CASES, TypeBits(input), [heading], input[24..]);
      FrameBodyRaisesWhenEmpty(cs, heading, input[24..], TypeBits(input), SubtypeBits(input));
      ElementsAreIn(heading, body.value.value);
    }
  }

  /**
   The security list of an accepted frame raises exactly when an empty vendor element comes before
   every one that announces WPA, or the first RSN element is empty, or there is neither and the
   frame is of a kind whose privacy raises.
   */
  lemma FrameSecurityRaisesExactlyWhen(cs: Codecs, input: bytes)
    requires Lawful(cs) && |input| >= 2 && ParseFrame(cs, input).Some? && ParseFrame(cs, input).value.value.Rec?
    ensures var frame := ParseFrame(cs, input).value.value.fields;
            var vendors, rsn := WithId(ElementsOf(frame), VENDOR_ID), WithId(ElementsOf(frame), RSN_ID);
            Classify(ElementsOf(frame), Private(frame)) == None
            <==> || (exists i: nat :: i < |vendors| && EmptyBeforeWpa(vendors, i))
                 || (rsn != [] && IsEmpty(rsn[0]))
                 || (rsn == [] && !SomeMatches(vendors) && PrivacyRaises(input))
  {
    hide ParseFrame, Private, ElementsOf, Classify, PrivacyRaises, EmptyBeforeWpa, RaisesWhenEmpty, WithId, SomeMatches;
    var frame := ParseFrame(cs, input).value.value.fields;
    FrameElementsRaiseWhenEmpty(cs, input);
    PrivacyRaisesExactlyWhen(cs, input);
    SecurityRaisesExactlyWhen(ElementsOf(frame), Private(frame));
  }
}
